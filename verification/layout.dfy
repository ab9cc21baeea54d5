/** Fixed layout of an ISO 9660 (ECMA-119) image as UMDReplaceK/Program.cs
    addresses it: 2048-byte sectors, the primary volume descriptor in sector 16,
    directory records (section 9.1 of ECMA-119) and the buffer edits
    (`RemoveRange` followed by `InsertRange`) the tool makes. */
module Layout {
  import opened Bytes

  // Mode 0 sectors: 2048 data bytes, data starting at byte 0 of the sector.
  const SectorSize: nat := 2048

  // Primary volume descriptor (section 8.4 of ECMA-119).
  const DescriptorLba: nat := 16
  const TotalSectorsField: nat := 80   // volume space size, LE at 80, BE at 84
  const TablePathLenField: nat := 132  // path table size, LE copy
  const TablePathLbaField: nat := 140  // first of the four path-table locations
  const RootFolderLbaField: nat := 158 // extent of the root directory record (156 + 2)
  const RootSizeField: nat := 166      // data length of the root directory record (156 + 10)

  // Directory record fields (section 9.1 of ECMA-119), relative to the record.
  const LbaField: nat := 2
  const SizeField: nat := 10
  const FlagsField: nat := 25
  const NameLenField: nat := 32
  const NameField: nat := 33

  /** Byte offset of a field of the primary volume descriptor. */
  function Descriptor(field: nat): (d: nat)
    ensures field < SectorSize ==> d / SectorSize == DescriptorLba && d % SectorSize == field
  {
    DescriptorLba * SectorSize + field
  }

  /** Byte offset of the `i`-th sector of the extent starting at `lba`. */
  function SectorBase(lba: nat, i: nat): (b: nat)
    ensures b % SectorSize == 0 && b / SectorSize == lba + i
  {
    (lba + i) * SectorSize
  }

  /** Number of sectors an extent of `size` bytes occupies, computed as
      `(size + 2047) / 2048` in `uint`: the ceiling, except that the addition
      wraps for sizes above 0xFFFFF800. */
  function SectorsFor(size: u32): (n: nat)
    ensures size <= 0xFFFF_F800 ==> n * SectorSize >= size && (n - 1) * SectorSize < size
    ensures size > 0xFFFF_F800 ==> n == 0
    ensures n <= 0x20_0000
  {
    AddWrap(size, SectorSize - 1) / SectorSize
  }

  /** The four bytes stored at `off`. */
  function Word(s: seq<byte>, off: nat): (b: seq<byte>)
    requires off + 4 <= |s|
    ensures |b| == 4
  {
    [s[off], s[off + 1], s[off + 2], s[off + 3]]
  }

  /** The little-endian `uint` stored at `off`: the value whose little-endian
      encoding is the four bytes there. */
  function U32At(s: seq<byte>, off: nat): u32
    requires off + 4 <= |s|
  {
    LE32(Word(s, off))
  }

  /** Writing back the value read at `off` gives the same four bytes: the
      read loses nothing. */
  lemma U32AtReadsBack(s: seq<byte>, off: nat)
    requires off + 4 <= |s|
    ensures Encode32(U32At(s, off)) == Word(s, off)
  {
    EncodeDecode(Word(s, off));
  }

  /** The big-endian `uint` stored at `off`. */
  function U32BEAt(s: seq<byte>, off: nat): u32
    requires off + 4 <= |s|
  {
    BE32(Word(s, off))
  }

  /** `RemoveRange(at, count)` followed by `InsertRange(at, ins)`. */
  function Spliced(s: seq<byte>, at: nat, count: nat, ins: seq<byte>): (r: seq<byte>)
    requires at + count <= |s|
    ensures |r| == |s| + |ins| - count
    ensures r[..at] == s[..at]
    ensures r[at..at + |ins|] == ins
    ensures forall k :: at + count <= k < |s| ==> r[k + |ins| - count] == s[k]
  {
    s[..at] + ins + s[at + count..]
  }

  /** A splice that removes as many bytes as it inserts: an in-place overwrite. */
  function Overwrite(s: seq<byte>, off: nat, w: seq<byte>): (r: seq<byte>)
    requires off + |w| <= |s|
    ensures |r| == |s|
    ensures forall k :: off <= k < off + |w| ==> r[k] == w[k - off]
    ensures forall k :: 0 <= k < |s| && !(off <= k < off + |w|) ==> r[k] == s[k]
  {
    seq(|s|, k requires 0 <= k < |s| => if off <= k < off + |w| then w[k - off] else s[k])
  }

  /** Writing a both-byte field (section 7.3.3 of ECMA-119): `v` little-endian
      at `off`, then `ChangeEndian(v)` little-endian, i.e. `v` big-endian, at `off + 4`. */
  function WithBothEndian(s: seq<byte>, off: nat, v: u32): (r: seq<byte>)
    requires off + 8 <= |s|
    ensures |r| == |s|
    ensures U32At(r, off) == v && U32BEAt(r, off + 4) == v
    ensures forall k :: 0 <= k < |s| && !(off <= k < off + 8) ==> r[k] == s[k]
  {
    var r := Overwrite(Overwrite(s, off, Encode32(v)), off + 4, Encode32(ChangeEndian(v)));
    DecodeEncode(v);
    ChangeEndianStoresBigEndian(v);
    assert Word(r, off) == Encode32(v);
    assert Word(r, off + 4) == Encode32(ChangeEndian(v));
    r
  }

  /** A both-byte field is consistent when its big-endian copy holds the same
      value as its little-endian copy. */
  predicate BothEndianAgree(s: seq<byte>, off: nat)
    requires off + 8 <= |s|
  {
    U32BEAt(s, off + 4) == U32At(s, off)
  }

  /** Rewriting a consistent both-byte field with the value it already holds
      changes nothing. */
  lemma {:induction false} WithBothEndianSame(s: seq<byte>, off: nat)
    requires off + 8 <= |s| && BothEndianAgree(s, off)
    ensures WithBothEndian(s, off, U32At(s, off)) == s
  {
    var v := U32At(s, off);
    var r := WithBothEndian(s, off, v);
    var lo := Word(s, off);
    var hi := Word(s, off + 4);
    EncodeDecode(lo);
    EncodeDecode(Reverse4(hi));
    assert Reverse4(hi) == lo;
    assert Encode32(ChangeEndian(v)) == Reverse4(lo);
    forall k | 0 <= k < |s| ensures r[k] == s[k] {
      if off <= k < off + 4 {
        assert r[k] == lo[k - off];
      } else if off + 4 <= k < off + 8 {
        assert r[k] == Reverse4(lo)[k - off - 4] == Reverse4(Reverse4(hi))[k - off - 4];
      }
    }
  }

  /** A second write of a both-byte field replaces the first entirely. */
  lemma {:induction false} WithBothEndianLast(s: seq<byte>, off: nat, a: u32, b: u32)
    requires off + 8 <= |s|
    ensures WithBothEndian(WithBothEndian(s, off, a), off, b) == WithBothEndian(s, off, b)
  {
    var t := WithBothEndian(s, off, a);
    var x := WithBothEndian(t, off, b);
    var y := WithBothEndian(s, off, b);
    assert x == Overwrite(Overwrite(t, off, Encode32(b)), off + 4, Encode32(ChangeEndian(b)));
    assert y == Overwrite(Overwrite(s, off, Encode32(b)), off + 4, Encode32(ChangeEndian(b)));
    forall k | 0 <= k < |s| ensures x[k] == y[k] {
      if !(off <= k < off + 8) {
        assert x[k] == t[k] == s[k] == y[k];
      }
    }
  }

  /** The four bytes just written are read back. */
  lemma OverwriteWord(s: seq<byte>, off: nat, w: seq<byte>)
    requires off + 4 <= |s| && |w| == 4
    ensures Word(Overwrite(s, off, w), off) == w
  {
    var r := Overwrite(s, off, w);
    assert forall k :: 0 <= k < 4 ==> Word(r, off)[k] == r[off + k] == w[k];
  }

  /** Four bytes are read from those four bytes alone. */
  lemma SameWord(r: seq<byte>, t: seq<byte>, off: nat)
    requires off + 4 <= |r| && off + 4 <= |t|
    requires forall k :: off <= k < off + 4 ==> r[k] == t[k]
    ensures Word(r, off) == Word(t, off)
  {
  }

  /** A both-byte field is read from its eight bytes alone. */
  lemma SameField(r: seq<byte>, t: seq<byte>, g: nat)
    requires g + 8 <= |r| && g + 8 <= |t|
    requires forall k :: g <= k < g + 8 ==> r[k] == t[k]
    ensures U32At(r, g) == U32At(t, g) && U32BEAt(r, g + 4) == U32BEAt(t, g + 4)
  {
    SameWord(r, t, g);
    SameWord(r, t, g + 4);
  }

  /** `newFileBytes` padded with zero bytes to `sectors` whole sectors. */
  function Padded(data: seq<byte>, sectors: nat): (r: seq<byte>)
    requires |data| <= sectors * SectorSize
    ensures |r| == sectors * SectorSize
    ensures r[..|data|] == data
    ensures forall k :: |data| <= k < |r| ==> r[k] == 0
  {
    data + seq(sectors * SectorSize - |data|, _ => 0)
  }

  /** Every byte a directory record's fields occupy, up to the end of its
      identifier, lies inside the buffer. */
  predicate RecordReadable(s: seq<byte>, o: nat) {
    o + NameField <= |s| && o + NameField + s[o + NameLenField] as int <= |s|
  }

  /** The file identifier bytes of the record at `o`. */
  function RecordName(s: seq<byte>, o: nat): (name: seq<byte>)
    requires RecordReadable(s, o)
    ensures |name| == s[o + NameLenField] as int
  {
    s[o + NameField..o + NameField + s[o + NameLenField] as int]
  }

  /** Bit 1 of the file flags marks a directory (section 9.1.6 of ECMA-119). */
  predicate IsDirectory(flags: byte) {
    (flags as int / 2) % 2 == 1
  }

  /** The directory test is C's `flags & 0x02`. */
  lemma IsDirectoryMask(flags: byte)
    ensures IsDirectory(flags) <==> (flags as bv8) & 2 == 2
  {
  }
}
