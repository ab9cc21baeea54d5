/** The disc image held in memory: the `List<byte> originalIsoFile` of
    UMDReplaceK/Program.cs, edited only by removing and inserting ranges. */
module Buffer {
  import opened Bytes
  import opened Layout

  class Image {
    var bytes: seq<byte>

    constructor (content: seq<byte>)
      ensures bytes == content
    {
      bytes := content;
    }

    /** `List<byte>.RemoveRange(at, count)`. */
    method RemoveRange(at: nat, count: nat)
      requires at + count <= |bytes|
      modifies this
      ensures bytes == old(bytes[..at] + bytes[at + count..])
    {
      bytes := bytes[..at] + bytes[at + count..];
    }

    /** `List<byte>.InsertRange(at, ins)`. */
    method InsertRange(at: nat, ins: seq<byte>)
      requires at <= |bytes|
      modifies this
      ensures bytes == old(bytes[..at]) + ins + old(bytes[at..])
    {
      bytes := bytes[..at] + ins + bytes[at..];
    }

    /** One edit of the image: remove `count` bytes at `at`, insert `ins` there. */
    method Splice(at: nat, count: nat, ins: seq<byte>)
      requires at + count <= |bytes|
      modifies this
      ensures bytes == Spliced(old(bytes), at, count, ins)
    {
      RemoveRange(at, count);
      assert bytes[..at] == old(bytes)[..at] && bytes[at..] == old(bytes)[at + count..];
      InsertRange(at, ins);
    }

    /** `BitConverter.ToUInt32(GetRange(off, 4))`. */
    method ReadU32(off: nat) returns (v: u32)
      requires off + 4 <= |bytes|
      ensures v == U32At(bytes, off)
    {
      v := LE32([bytes[off], bytes[off + 1], bytes[off + 2], bytes[off + 3]]);
    }

    /** Overwrites the four bytes at `off` with `v` little-endian, as the C#
        code does: `RemoveRange(off, 4)` then `InsertRange(off, GetBytes(v))`. */
    method WriteU32(off: nat, v: u32)
      requires off + 4 <= |bytes|
      modifies this
      ensures bytes == Overwrite(old(bytes), off, Encode32(v))
    {
      Splice(off, 4, Encode32(v));
    }

    /** Writes a both-byte field: `v` at `off`, `ChangeEndian(v)` at `off + 4`. */
    method WriteBothEndian(off: nat, v: u32)
      requires off + 8 <= |bytes|
      modifies this
      ensures bytes == WithBothEndian(old(bytes), off, v)
    {
      WriteU32(off, v);
      WriteU32(off + 4, ChangeEndian(v));
    }
  }
}
