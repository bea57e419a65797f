/** Bytes and little-endian unsigned integers. */
module Bytes {
  type Byte = x: int | 0 <= x < 256

  type ByteString = seq<Byte>

  function AsciiByte(c: char): Byte
    requires c < 128 as char
  {
    c as int
  }

  function Ascii(s: string): (b: ByteString)
    requires forall i :: 0 <= i < |s| ==> s[i] < 128 as char
    ensures |b| == |s| && forall i :: 0 <= i < |s| ==> b[i] == s[i] as int
  {
    seq(|s|, i requires 0 <= i < |s| => AsciiByte(s[i]))
  }

  const U32_RANGE: int := 0x1_0000_0000

  type U32 = x: int | 0 <= x < 0x1_0000_0000

  // The `width` low-order bytes of v, least significant first.
  function LittleEndian(v: nat, width: nat): (b: ByteString)
    ensures |b| == width
  {
    if width == 0 then [] else [v % 256] + LittleEndian(v / 256, width - 1)
  }

  function Value(b: ByteString): nat {
    if b == [] then 0 else b[0] as int + 256 * Value(b[1..])
  }

  function LE32(v: U32): (b: ByteString)
    ensures |b| == 4
  {
    LittleEndian(v, 4)
  }

  function FromLE32(b: ByteString): U32
    requires |b| == 4
  {
    ValueOfFour(b);
    Value(b)
  }

  lemma ValueOfFour(b: ByteString)
    requires |b| == 4
    ensures Value(b) == b[0] as int + 256 * b[1] as int + 65536 * b[2] as int + 16777216 * b[3] as int
    ensures Value(b) < U32_RANGE
  {
    assert b[1..][1..] == b[2..] && b[2..][1..] == b[3..] && b[3..][1..] == [];
    assert Value(b[3..]) == b[3] as int;
    assert Value(b[2..]) == b[2] as int + 256 * Value(b[3..]);
    assert Value(b[1..]) == b[1] as int + 256 * Value(b[2..]);
  }

  function Range(width: nat): nat {
    if width == 0 then 1 else 256 * Range(width - 1)
  }

  lemma {:induction false} LittleEndianValue(v: nat, width: nat)
    requires v < Range(width)
    ensures Value(LittleEndian(v, width)) == v
  {
    if width > 0 {
      LittleEndianValue(v / 256, width - 1);
      assert LittleEndian(v, width)[1..] == LittleEndian(v / 256, width - 1);
    }
  }

  /** Byte k of an encoded word is its k-th digit to the base 256, least significant first. */
  lemma LE32Bytes(v: U32)
    ensures LE32(v) == [v % 256, v / 256 % 256, v / 65536 % 256, v / 16777216]
  {
    assert v / 256 / 256 == v / 65536 && v / 65536 / 256 == v / 16777216;
    assert LittleEndian(v / 16777216, 1) == [v / 16777216 % 256] + LittleEndian(v / 16777216 / 256, 0);
    assert LittleEndian(v / 65536, 2) == [v / 65536 % 256] + LittleEndian(v / 16777216, 1);
    assert LittleEndian(v / 256, 3) == [v / 256 % 256] + LittleEndian(v / 65536, 2);
  }

  lemma LittleEndianRoundTrip(v: U32)
    ensures FromLE32(LE32(v)) == v
  {
    assert Range(2) == 65536;
    LittleEndianValue(v, 4);
  }

  lemma {:induction false} ValueLittleEndian(b: ByteString)
    ensures LittleEndian(Value(b), |b|) == b
    decreases |b|
  {
    if b != [] {
      ValueLittleEndian(b[1..]);
      assert Value(b) % 256 == b[0] && Value(b) / 256 == Value(b[1..]);
      assert b == [b[0]] + b[1..];
    }
  }

  lemma LittleEndianInverse(b: ByteString)
    requires |b| == 4
    ensures LE32(FromLE32(b)) == b
  {
    ValueLittleEndian(b);
  }

  // Cutting a concatenation where its first part ends.
  lemma CutAt(a: ByteString, b: ByteString, s: ByteString)
    requires s == a + b
    ensures s[..|a|] == a && s[|a|..] == b
  {}
}
