/** 32-bit unsigned values and their byte encodings, as `BitConverter` and
    `ChangeEndian` handle them in UMDReplaceK/Program.cs. */
module Bytes {

  newtype byte = x: int | 0 <= x < 256

  const U32_LIMIT: int := 0x1_0000_0000

  /** The C# `uint`. */
  type u32 = x: int | 0 <= x < U32_LIMIT

  /** Little-endian value of four bytes (`BitConverter.ToUInt32` on x86). */
  function LE32(b: seq<byte>): (v: u32)
    requires |b| == 4
  {
    b[0] as int + 0x100 * b[1] as int + 0x1_0000 * b[2] as int + 0x100_0000 * b[3] as int
  }

  /** The four little-endian bytes of a value (`BitConverter.GetBytes(uint)`). */
  function Encode32(v: u32): (b: seq<byte>)
    ensures |b| == 4
  {
    [(v % 0x100) as byte, (v / 0x100 % 0x100) as byte,
     (v / 0x100 / 0x100 % 0x100) as byte, (v / 0x100 / 0x100 / 0x100) as byte]
  }

  lemma {:induction false} DecodeEncode(v: u32)
    ensures LE32(Encode32(v)) == v
  {
    var q1 := v / 0x100;
    var q2 := q1 / 0x100;
    var q3 := q2 / 0x100;
    assert v == v % 0x100 + 0x100 * q1;
    assert q1 == q1 % 0x100 + 0x100 * q2;
    assert q2 == q2 % 0x100 + 0x100 * q3;
    assert Encode32(v) == [(v % 0x100) as byte, (q1 % 0x100) as byte, (q2 % 0x100) as byte, q3 as byte];
  }

  lemma {:induction false} EncodeDecode(b: seq<byte>)
    requires |b| == 4
    ensures Encode32(LE32(b)) == b
  {
    var v := LE32(b);
    var q2 := b[2] as int + 0x100 * b[3] as int;
    var q1 := b[1] as int + 0x100 * q2;
    SplitByte(v, b[0] as int, q1);
    SplitByte(q1, b[1] as int, q2);
    SplitByte(q2, b[2] as int, b[3] as int);
  }

  /** The low byte and the rest of `lo + 0x100 * hi`. */
  lemma SplitByte(v: int, lo: int, hi: int)
    requires 0 <= lo < 0x100 && v == lo + 0x100 * hi
    ensures v % 0x100 == lo && v / 0x100 == hi
  {
  }

  /** Two encodings are equal exactly when the values are. */
  lemma EncodeInjective(v: u32, w: u32)
    ensures Encode32(v) == Encode32(w) <==> v == w
  {
    if Encode32(v) == Encode32(w) {
      DecodeEncode(v);
      DecodeEncode(w);
    }
  }

  function Reverse4(b: seq<byte>): (r: seq<byte>)
    requires |b| == 4
    ensures |r| == 4
  {
    [b[3], b[2], b[1], b[0]]
  }

  /** Big-endian value of four bytes: the "M" half of a both-byte field
      (section 7.3.2 of ECMA-119). */
  function BE32(b: seq<byte>): (v: u32)
    requires |b| == 4
  {
    LE32(Reverse4(b))
  }

  /** `ChangeEndian`: the value whose four bytes are those of `v` in reverse order. */
  function ChangeEndian(v: u32): (r: u32)
    ensures Encode32(r) == Reverse4(Encode32(v))
  {
    EncodeDecode(Reverse4(Encode32(v)));
    LE32(Reverse4(Encode32(v)))
  }

  /** Reversing the bytes twice gives the value back. */
  lemma {:induction false} ChangeEndianInvolutive(v: u32)
    ensures ChangeEndian(ChangeEndian(v)) == v
  {
    var w := ChangeEndian(v);
    assert Encode32(ChangeEndian(w)) == Reverse4(Reverse4(Encode32(v))) == Encode32(v);
    EncodeInjective(ChangeEndian(w), v);
  }

  /** Storing `ChangeEndian(v)` little-endian stores `v` big-endian. */
  lemma {:induction false} ChangeEndianStoresBigEndian(v: u32)
    ensures BE32(Encode32(ChangeEndian(v))) == v
  {
    assert Reverse4(Encode32(ChangeEndian(v))) == Reverse4(Reverse4(Encode32(v))) == Encode32(v);
    DecodeEncode(v);
  }

  /** Reading four bytes little-endian and reversing the value's bytes reads
      them big-endian. */
  lemma {:induction false} ChangeEndianReadsBigEndian(b: seq<byte>)
    requires |b| == 4
    ensures ChangeEndian(LE32(b)) == BE32(b)
  {
    EncodeDecode(b);
    assert Encode32(ChangeEndian(LE32(b))) == Reverse4(b);
    DecodeEncode(ChangeEndian(LE32(b)));
  }

  /** `v + d` in `uint` arithmetic: the C# code adds a (possibly negative) `int`
      cast to `uint`, which wraps modulo 2^32. */
  function AddWrap(v: u32, d: int): (r: u32)
    ensures 0 <= v + d < U32_LIMIT ==> r == v + d
    ensures -U32_LIMIT <= v + d < 0 ==> r == v + d + U32_LIMIT
    ensures U32_LIMIT <= v + d < 2 * U32_LIMIT ==> r == v + d - U32_LIMIT
  {
    (v + d) % U32_LIMIT
  }

  /** Adding `-d` undoes adding `d`. */
  lemma AddWrapInverse(v: u32, d: int)
    ensures AddWrap(AddWrap(v, d), -d) == v
  {
    var q := (v + d) / U32_LIMIT;
    assert (v + d) % U32_LIMIT == v + d - q * U32_LIMIT;
    assert (v + d - q * U32_LIMIT - d) % U32_LIMIT == (v - q * U32_LIMIT) % U32_LIMIT;
  }

  /** `BitConverter.ToInt32(BitConverter.GetBytes(x))` for a `uint x`:
      the two's-complement reading of the same 32 bits. */
  function ToInt32(x: u32): (r: int)
    ensures -0x8000_0000 <= r < 0x8000_0000
    ensures (r - x) % U32_LIMIT == 0
  {
    if x < 0x8000_0000 then x else x - U32_LIMIT
  }

  /** A difference of two unsigned counts computed in `uint` and read back as
      `int` is the true signed difference when both counts are below 2^31. */
  lemma SignedDifference(a: u32, b: u32)
    requires a < 0x8000_0000 && b < 0x8000_0000
    ensures ToInt32(AddWrap(a, -(b as int))) == a - b
  {
  }
}
