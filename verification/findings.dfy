/** Places where UMDReplaceK/Program.cs does not do what its comments, its
    constants and the ECMA-119 layout show it means to do. Each defect is
    written here as the code has it, with an input that shows the difference;
    the rest of the model uses the corrected definition named beside it. */
module Findings {
  import opened Bytes
  import opened Layout
  import opened Names
  import opened Outcomes
  import opened Navigator
  import opened PathTables
  import opened Toc
  import opened Replacement

  // ---------------------------------------------------------------------
  // Lines 179-181 (and 319-323, 331-332): descriptor fields at
  // `DESCRIPTOR_LBA + field`, the sector number used as a byte count.

  function AsWrittenDescriptor(field: nat): nat {
    DescriptorLba + field
  }

  /** As written, every descriptor field is read from the system area
      (sector 0), never from the primary volume descriptor in sector 16. */
  lemma DescriptorUnscaled(field: nat)
    requires field < SectorSize - DescriptorLba
    ensures AsWrittenDescriptor(field) / SectorSize == 0
    ensures Descriptor(field) / SectorSize == DescriptorLba
    ensures AsWrittenDescriptor(TotalSectorsField) == 96 && Descriptor(TotalSectorsField) == 32848
  {
  }

  // ---------------------------------------------------------------------
  // Line 190: `(newFilesize / sectorData - 1) / sectorData` in `uint`.

  function AsWrittenNewSectors(size: u32): u32 {
    AddWrap(size / SectorSize, -1) / SectorSize
  }

  /** As written, every size from one sector up to 2049 sectors counts as no
      sector at all, and a size under one sector wraps to 0x1FFFFF sectors. */
  lemma NewSectorsAsWritten(size: u32)
    requires SectorSize <= size < SectorSize * 2049
    ensures AsWrittenNewSectors(size) == 0 && SectorsFor(size) >= 1
    ensures AsWrittenNewSectors(100) == 0x1F_FFFF && SectorsFor(100) == 1
  {
  }

  // ---------------------------------------------------------------------
  // Line 199: `oldName.Replace("\\", "/")` with its result discarded.

  function AsWrittenTarget(name: string): (r: string)
    requires |name| > 0
    ensures |r| > 0 && r[0] == (if name[0] == '\\' then '\\' else '/')
  {
    if name[0] != '/' && name[0] != '\\' then "/" + name else name
  }

  /** As written, a name given with a leading backslash keeps it, and no
      record of any image can match it; normalised, it starts with `/`. */
  lemma {:induction false} BackslashNeverFound(s: seq<byte>, rest: string, lba: u32, len: u32, fuel: nat)
    ensures !ScanDir(s, AsWrittenTarget("\\" + rest), "", lba, len, fuel).Found?
    ensures NormalizeTarget("\\" + rest)[0] == '/'
  {
  }

  // ---------------------------------------------------------------------
  // Line 263: the splice only when `newFileSectors != 0`.

  function AsWrittenContents(s: seq<byte>, p: Plan, data: seq<byte>): (r: seq<byte>)
    requires |data| <= p.newSectors * SectorSize
    requires p.fileLba * SectorSize + p.oldSectors * SectorSize <= |s|
  {
    if p.newSectors != 0 then WithContents(s, p, data) else s
  }

  /** As written, an empty new file leaves the old extent in place although
      `diff` says the image lost its sectors. */
  lemma EmptyFileNotSpliced(s: seq<byte>, p: Plan)
    requires p.newSectors == 0 && p.oldSectors > 0 && p.diff == p.newSectors - p.oldSectors
    requires p.fileLba * SectorSize + p.oldSectors * SectorSize <= |s|
    ensures |AsWrittenContents(s, p, [])| != |s| + p.diff * SectorSize
    ensures |WithContents(s, p, [])| == |s| + p.diff * SectorSize
  {
  }

  /** With the sector count of line 190 as written, the guard skips the splice
      for a new file of 2048 to 4196351 bytes, which that line counts as no
      sector, while `diff` counts the old extent as gone. */
  lemma NewFileNotSpliced(s: seq<byte>, p: Plan, size: u32)
    requires SectorSize <= size < SectorSize * 2049
    requires p.newSectors == AsWrittenNewSectors(size) && p.oldSectors > 0 && p.diff == p.newSectors - p.oldSectors
    requires p.fileLba * SectorSize + p.oldSectors * SectorSize <= |s|
    ensures p.newSectors == 0 && p.diff < 0
    ensures AsWrittenContents(s, p, []) == s
  {
    NewSectorsAsWritten(size);
  }

  // ---------------------------------------------------------------------
  // Lines 286-288: `RemoveRange(fileLBA, oldFileSectors)` then
  // `InsertRange(fileLBA, newFileBytes)`: a sector number used as a byte
  // offset, a sector count as a byte count, and no padding.

  function AsWrittenSplice(s: seq<byte>, fileLba: nat, oldSectors: nat, data: seq<byte>): (r: seq<byte>)
    requires fileLba + oldSectors <= |s|
  {
    Spliced(s, fileLba, oldSectors, data)
  }

  /** As written, replacing a one-sector file by one sector of data grows the
      image by 2047 bytes, so it no longer holds whole sectors. */
  lemma SpliceMisaligned(s: seq<byte>, fileLba: nat, data: seq<byte>)
    requires fileLba + 1 <= |s| && |s| % SectorSize == 0 && |data| == SectorSize
    ensures |AsWrittenSplice(s, fileLba, 1, data)| % SectorSize == SectorSize - 1
  {
  }

  // ---------------------------------------------------------------------
  // Line 335: `i == 0x2` where C's `i & 2` is meant.

  predicate AsWrittenTableIsBigEndian(i: nat) {
    i == 2
  }

  /** As written, the optional type M path table (location field at 152) is
      read and written little-endian. */
  lemma OptionalTypeMTable()
    ensures !AsWrittenTableIsBigEndian(3) && TableIsBigEndian(3)
    ensures TablePathLbaField + 4 * 3 == 152
  {
  }

  // ---------------------------------------------------------------------
  // Line 429: `Search` has no stop at a zero length byte, so
  // `position += nBytes` adds 0.

  function AsWrittenNextPosition(s: seq<byte>, base: nat, pos: nat): nat
    requires base + pos < |s|
  {
    pos + s[base + pos] as int
  }

  /** As written, a zero length byte inside a sector is visited again and
      again; the model ends the sector there. */
  lemma ZeroLengthEndsSector(s: seq<byte>, target: string, path: string, base: nat, pos: nat, fuel: nat)
    requires pos < SectorSize && base + pos < |s| && s[base + pos] == 0
    ensures AsWrittenNextPosition(s, base, pos) == pos
    ensures ScanSector(s, target, path, base, pos, fuel) == NotFound
    ensures ListSector(s, path, base, pos, fuel) == Ok([])
  {
  }

  // ---------------------------------------------------------------------
  // Line 432 (and 435-457, 526-563): records read at `lba + i + position`,
  // the sector number not scaled to bytes.

  function AsWrittenRecordOffset(lba: nat, i: nat, pos: nat): nat {
    lba + i + pos
  }

  /** As written, sector `i + 1` of a directory is read one byte after
      sector `i`, and a directory at sector 22 is read from byte 22. */
  lemma RecordOffsetUnscaled(lba: nat, i: nat, pos: nat)
    ensures AsWrittenRecordOffset(lba, i + 1, pos) == AsWrittenRecordOffset(lba, i, pos + 1)
    ensures SectorBase(lba, i + 1) + pos == SectorBase(lba, i) + pos + SectorSize
    ensures AsWrittenRecordOffset(22, 0, 0) == 22 && SectorBase(22, 0) == 45056
  {
  }

  // ---------------------------------------------------------------------
  // Line 435 (and 432, 439, 456-457, 534-538, 563): `BitConverter.ToChar`,
  // which reads two bytes, applied to ranges of one byte or of four.

  /** `BitConverter.ToChar(bytes)`: two bytes little-endian; a shorter array
      is refused. */
  function AsWrittenToChar(bs: seq<byte>): (r: Result<nat>)
    ensures r.Ok? ==> r.value < 0x1_0000
  {
    if |bs| < 2 then Err(OutOfRange) else Ok(bs[0] as int + 0x100 * bs[1] as int)
  }

  /** As written, reading a record's length byte or identifier length throws;
      the model reads each byte as one character. */
  lemma OneByteToChar(b: byte)
    ensures AsWrittenToChar([b]).Err?
    ensures NameString([b])[0] as int == b as int
  {
  }

  /** As written, the location of a subdirectory keeps only its low 16 bits. */
  lemma FourByteToChar()
    ensures AsWrittenToChar(Encode32(0x1_0000)) == Ok(0)
    ensures LE32(Encode32(0x1_0000)) == 0x1_0000
  {
    DecodeEncode(0x1_0000);
  }

  // ---------------------------------------------------------------------
  // Line 444: the last two characters dropped from every identifier longer
  // than two, whether or not they are ";1".

  function AsWrittenStrip(name: string): string {
    if |name| > 2 then name[..|name| - 2] else name
  }

  /** As written, a directory named `DATA` is searched as `DA`. */
  lemma StripDirectoryName()
    ensures AsWrittenStrip("DATA") == "DA"
    ensures StripVersion("DATA") == "DATA" && StripVersion("A.BIN;1") == "A.BIN"
  {
    assert "DATA"[2..] != ";1";
    assert "A.BIN;1"[5..] == ";1";
  }

  // ---------------------------------------------------------------------
  // Line 450 (and 560): the ".." test compares with the character '1'.

  predicate AsWrittenIsDotEntry(name: string) {
    |name| == 1 && (name[0] == 0 as char || name[0] == '1')
  }

  /** As written, the ".." record (identifier byte 1) is walked into, back up
      the tree, and a file named `1` is skipped. */
  lemma ParentEntry()
    ensures !AsWrittenIsDotEntry([1 as char]) && IsDotEntry([1 as char])
    ensures AsWrittenIsDotEntry("1") && !IsDotEntry("1")
  {
  }

  // ---------------------------------------------------------------------
  // Line 454: the flags read at `position + 25`, without the sector base.

  function AsWrittenFlagOffset(lba: nat, i: nat, pos: nat): nat {
    pos + FlagsField
  }

  /** As written, the flags of the records at the same position of two
      different directories are the same byte of sector 0. */
  lemma FlagOffsetUnscaled(lba: nat, lba2: nat, pos: nat)
    requires lba != lba2 && pos + FlagsField < SectorSize
    ensures AsWrittenFlagOffset(lba, 0, pos) == AsWrittenFlagOffset(lba2, 0, pos)
    ensures AsWrittenFlagOffset(lba, 0, pos) / SectorSize == 0
    ensures SectorBase(lba, 0) + pos + FlagsField != SectorBase(lba2, 0) + pos + FlagsField
  {
  }

  // ---------------------------------------------------------------------
  // Line 563 (and 454): `flags == 0x02` where C's `flags & 0x02` is meant.

  predicate AsWrittenIsDirectory(flags: byte) {
    flags == 2
  }

  /** As written, a hidden directory (flags 3) is not walked into. */
  lemma HiddenDirectory()
    ensures !AsWrittenIsDirectory(3) && IsDirectory(3)
  {
    IsDirectoryMask(3);
  }

  // ---------------------------------------------------------------------
  // Line 464: a path is compared only inside the directory branch.

  /** One record of `Search` as written: files are never compared. */
  function AsWrittenScanRecord(s: seq<byte>, target: string, path: string, o: nat, fuel: nat): Lookup
    requires RecordReadable(s, o)
  {
    if IsDotEntry(NameString(RecordName(s, o))) then NotFound
    else
      var p := ChildPath(path, EntryName(s, o));
      if IsDirectory(s[o + FlagsField]) then ScanRecord(s, target, path, o, fuel)
      else NotFound
  }

  /** As written, a file whose path is the target is not found; the model
      finds it. */
  lemma FileNotCompared(s: seq<byte>, target: string, path: string, o: nat, fuel: nat)
    requires RecordReadable(s, o) && !IsDotEntry(NameString(RecordName(s, o)))
    requires !IsDirectory(s[o + FlagsField]) && EqualsIgnoreCase(target, ChildPath(path, EntryName(s, o)))
    ensures AsWrittenScanRecord(s, target, path, o, fuel) == NotFound
    ensures ScanRecord(s, target, path, o, fuel) == Found(o)
  {
  }

  // ---------------------------------------------------------------------
  // Line 466: `(lba + i) * (sectorSize + position)` for the record's offset.

  function AsWrittenFoundPosition(lba: nat, i: nat, pos: nat): nat {
    (lba + i) * (SectorSize + pos)
  }

  /** As written, the record at byte 34 of sector 20 is reported at byte 680
      of sector 20. */
  lemma FoundPositionProduct()
    ensures AsWrittenFoundPosition(20, 0, 34) == 41640
    ensures 41640 / SectorSize == 20 && 41640 % SectorSize == 680
    ensures SectorBase(20, 0) + 34 == 40994
    ensures 40994 / SectorSize == 20 && 40994 % SectorSize == 34
  {
  }

  // ---------------------------------------------------------------------
  // Lines 214-216: the old size and location read at `foundOffset + 10` and
  // `foundOffset + 2`, the offset within the sector only.

  function AsWrittenSizeRead(found: nat): nat {
    found % SectorSize + SizeField
  }

  // Lines 303-307: the new size written at `foundLBA + foundOffset + 10`.

  function AsWrittenSizeWrite(found: nat): nat {
    found / SectorSize + found % SectorSize + SizeField
  }

  /** As written, for the record at byte 34 of sector 20 the size is read
      from byte 44 and written to byte 64, neither of them the record's. */
  lemma SizeFieldOffsets()
    ensures AsWrittenSizeRead(40994) == 44 && AsWrittenSizeWrite(40994) == 64
    ensures 40994 + SizeField == 41004
  {
  }

  // ---------------------------------------------------------------------
  // Line 481: `pos = 8 + nBytes + (nBytes & 1)` where `+=` is meant.

  function AsWrittenTableNext(pos: nat, n: nat): nat {
    8 + n + n % 2
  }

  /** As written, once the walk reaches a record at 10 whose identifier has
      two bytes, it stays there for good. */
  lemma TableWalkStalls()
    ensures AsWrittenTableNext(10, 2) == 10
    ensures 10 + EntrySize(2) == 20
  {
  }

  // ---------------------------------------------------------------------
  // Lines 484 and 526: a one-byte length read as a four-byte `uint`.

  function AsWrittenLength(s: seq<byte>, o: nat): u32
    requires o + 4 <= |s|
  {
    U32At(s, o)
  }

  /** As written, the root's path-table record (identifier length 1, location
      20) reads as 1310721 bytes long, which ends the walk after it. */
  lemma PathTableLength()
    ensures AsWrittenLength([1, 0, 20, 0, 1, 0, 0, 0], 0) == 0x14_0001
    ensures EntrySize(1) == 10
  {
  }

  /** As written, a 34-byte directory record at location 22 reads as
      1441826 bytes long, which ends the sector after it. */
  lemma DirectoryRecordLength()
    ensures AsWrittenLength([34, 0, 22, 0], 0) == 0x16_0022
  {
  }

  // ---------------------------------------------------------------------
  // Lines 517 and 523: `TOC` walks `Count / sectorSize` sectors (the whole
  // image) with `pos < len` (the directory's size) within each, where
  // `Search` (lines 424 and 428) walks the directory's own sectors with
  // `position < sectorData`.

  function AsWrittenTocSectors(imageSize: nat): nat {
    imageSize / SectorSize
  }

  /** As written, a one-sector directory of a 100-sector image is walked
      over 100 sectors, reading the data after it as directory records. */
  lemma TocSectorCount()
    ensures AsWrittenTocSectors(100 * SectorSize) == 100 && SectorsFor(SectorSize) == 1
  {
  }

  /** The walk of one sector with the bound of line 523: records are read
      while `pos < len`, past the end of the sector when the directory spans
      more than one. */
  function AsWrittenTocSector(s: seq<byte>, base: nat, pos: nat, len: nat, found: nat, lbaOld: u32, diff: int, fuel: nat): Result<Walk>
    decreases len - pos
  {
    if pos >= len then Ok(Walk(s, []))
    else if base + pos >= |s| then Err(OutOfRange)
    else if s[base + pos] == 0 then Ok(Walk(s, []))
    else if !RecordReadable(s, base + pos) then Err(OutOfRange)
    else
      match TocRecord(s, base + pos, found, lbaOld, diff, fuel)
      case Err(f) => Err(f)
      case Ok(w) => Prefix(w.shifted, AsWrittenTocSector(w.image, base, pos + s[base + pos] as int, len, found, lbaOld, diff, fuel))
  }

  /** A walk's first move: when the record at `o` is the first one its visit
      moves, it is the first one the whole walk moves. */
  predicate MovesFirst(r: Result<Walk>, o: nat) {
    r.Ok? ==> |r.value.shifted| > 0 && r.value.shifted[0] == o
  }

  /** The first record a sector walk visits decides its first move. */
  lemma FirstVisit(s: seq<byte>, base: nat, pos: nat, found: nat, lbaOld: u32, diff: int, fuel: nat)
    requires RecordHere(s, base, pos)
    requires MovesFirst(TocRecord(s, base + pos, found, lbaOld, diff, fuel), base + pos)
    ensures MovesFirst(TocSector(s, base, pos, found, lbaOld, diff, fuel), base + pos)
  {
    hide TocRecord;
  }

  lemma AsWrittenFirstVisit(s: seq<byte>, base: nat, pos: nat, len: nat, found: nat, lbaOld: u32, diff: int, fuel: nat)
    requires pos < len && base + pos < |s| && s[base + pos] != 0 && RecordReadable(s, base + pos)
    requires MovesFirst(TocRecord(s, base + pos, found, lbaOld, diff, fuel), base + pos)
    ensures MovesFirst(AsWrittenTocSector(s, base, pos, len, found, lbaOld, diff, fuel), base + pos)
  {
    hide TocRecord;
  }

  /** As written, in a directory of more than one sector, the walk of a
      sector at `base` that is filled to its last byte goes on into the next
      sector (at `base + 2048`, `SectorBase` of the next index) and moves its
      first record, which the walk of that next sector then visits again. The
      model ends the sector at byte 2048 and leaves the record to the next
      sector's walk. */
  lemma TocSectorOverrun(s: seq<byte>, base: nat, len: nat, found: nat, lbaOld: u32, diff: int, fuel: nat)
    requires len > SectorSize
    requires RecordHere(s, base + SectorSize, 0)
    requires ShouldShift(U32At(s, base + SectorSize + LbaField), base + SectorSize, found, lbaOld)
    ensures MovesFirst(AsWrittenTocSector(s, base, SectorSize, len, found, lbaOld, diff, fuel), base + SectorSize)
    ensures TocSector(s, base, SectorSize, found, lbaOld, diff, fuel) == Ok(Walk(s, []))
    ensures MovesFirst(TocSector(s, base + SectorSize, 0, found, lbaOld, diff, fuel), base + SectorSize)
  {
    var o := base + SectorSize;
    assert TocSector(s, base, SectorSize, found, lbaOld, diff, fuel) == Ok(Walk(s, []));
    hide TocSector, AsWrittenTocSector, TocDir, TocSectors;
    AsWrittenFirstVisit(s, base, SectorSize, len, found, lbaOld, diff, fuel);
    FirstVisit(s, o, 0, found, lbaOld, diff, fuel);
  }

  // ---------------------------------------------------------------------
  // Lines 542 and 565: the location and size read at `lba + pos + 2` and
  // `lba + pos + 10`, without the sector index `i`.

  function AsWrittenTocLbaRead(lba: nat, i: nat, pos: nat): nat {
    lba + pos + LbaField
  }

  /** As written, the record at position `pos` of the second sector has its
      location taken from the first sector while it is written to the second. */
  lemma TocReadMissesSector(lba: nat, pos: nat)
    ensures AsWrittenTocLbaRead(lba, 1, pos) == AsWrittenTocLbaRead(lba, 0, pos)
    ensures SectorBase(lba, 1) + pos + LbaField != SectorBase(lba, 0) + pos + LbaField
  {
  }

  // ---------------------------------------------------------------------
  // Line 556: the big-endian copy of the location (at +6) is written with
  // the byte-reversed identifier length.

  function AsWrittenShiftRecord(s: seq<byte>, o: nat, diff: int): (r: seq<byte>)
    requires o + NameField <= |s|
    ensures |r| == |s|
  {
    var moved := AddWrap(U32At(s, o + LbaField), diff);
    Overwrite(Overwrite(s, o + LbaField, Encode32(moved)), o + LbaField + 4,
              Encode32(ChangeEndian(s[o + NameLenField] as int)))
  }

  /** As written, the moved record's two copies of its location disagree
      unless the new location equals the identifier length; `ShiftRecord`
      keeps them equal. */
  lemma {:induction false} ShiftRecordNameLength(s: seq<byte>, o: nat, diff: int)
    requires o + NameField <= |s|
    requires AddWrap(U32At(s, o + LbaField), diff) != s[o + NameLenField] as int
    ensures !BothEndianAgree(AsWrittenShiftRecord(s, o, diff), o + LbaField)
    ensures BothEndianAgree(ShiftRecord(s, o, diff), o + LbaField)
  {
    var moved := AddWrap(U32At(s, o + LbaField), diff);
    var n: u32 := s[o + NameLenField] as int;
    var t := Overwrite(s, o + LbaField, Encode32(moved));
    var r := AsWrittenShiftRecord(s, o, diff);
    OverwriteWord(t, o + LbaField + 4, Encode32(ChangeEndian(n)));
    ChangeEndianStoresBigEndian(n);
    OverwriteWord(s, o + LbaField, Encode32(moved));
    SameWord(r, t, o + LbaField);
    DecodeEncode(moved);
    assert U32BEAt(r, o + LbaField + 4) == n;
    assert U32At(r, o + LbaField) == moved;
  }

  // ---------------------------------------------------------------------
  // Line 576: `(byte[])BitConverter.GetBytes(value).Reverse()`, a cast of the
  // enumerable `Reverse` returns to an array, which the runtime refuses.

  function AsWrittenChangeEndian(v: u32): Result<u32> {
    Err(BadCast)
  }

  /** As written, `ChangeEndian` never returns; the byte reversal it means
      returns the value's bytes reversed. */
  lemma ChangeEndianCast(v: u32)
    ensures AsWrittenChangeEndian(v).Err?
    ensures Encode32(ChangeEndian(v)) == Reverse4(Encode32(v))
  {
  }
}
