/** The bytes the decoder shows as text: UTF-8 as RFC 3629, section 3, encodes it, and the runes that
    count as printable (server/internal/engine/disasm.go). */
module Runes {
  import opened Bytes
  import opened Disassembler

  // Every code point but the surrogates.
  predicate Scalar(cp: int) {
    0 <= cp < 0x11_0000 && !(0xD800 <= cp <= 0xDFFF)
  }

  function Encoded(cp: int): (b: ByteString)
    requires Scalar(cp)
    ensures 1 <= |b| <= 4
  {
    if cp < 0x80 then [cp]
    else if cp < 0x800 then [0xC0 + cp / 64, 0x80 + cp % 64]
    else if cp < 0x1_0000 then [0xE0 + cp / 4096, 0x80 + cp / 64 % 64, 0x80 + cp % 64]
    else [0xF0 + cp / 262144, 0x80 + cp / 4096 % 64, 0x80 + cp / 64 % 64, 0x80 + cp % 64]
  }

  ghost predicate Scalars(cps: seq<int>) {
    forall i :: 0 <= i < |cps| ==> Scalar(cps[i])
  }

  ghost function Text(cps: seq<int>): ByteString
    requires Scalars(cps)
  {
    if cps == [] then [] else Encoded(cps[0]) + Text(cps[1..])
  }

  // Tabs, line ends, and everything that is no control.
  predicate Readable(cp: int) {
    cp == 9 || cp == 10 || cp == 13 || (cp >= 0x20 && cp != 0x7F)
  }

  predicate ReadableByte(c: Byte) {
    c == 9 || c == 10 || c == 13 || (c >= 0x20 && c != 0x7F)
  }

  // ------------------------------------------------------------------ one rune

  function OfTwo(x: int, y: int): int {
    (x - 0xC0) * 64 + (y - 0x80)
  }

  function OfThree(x: int, y: int, z: int): int {
    ((x - 0xE0) * 64 + (y - 0x80)) * 64 + (z - 0x80)
  }

  function OfFour(x: int, y: int, z: int, w: int): int {
    (((x - 0xF0) * 64 + (y - 0x80)) * 64 + (z - 0x80)) * 64 + (w - 0x80)
  }

  // The rune a valid text starts with, and its length.
  function FirstRune(b: ByteString): (r: (int, nat))
    requires b != [] && ValidUtf8(b)
    ensures 1 <= r.1 <= |b|
  {
    if b[0] < 0x80 then (b[0], 1)
    else if b[0] <= 0xDF then (OfTwo(b[0], b[1]), 2)
    else if b[0] <= 0xEF then (OfThree(b[0], b[1], b[2]), 3)
    else (OfFour(b[0], b[1], b[2], b[3]), 4)
  }

  lemma SixBits(a: nat, d: nat)
    requires d < 64
    ensures (a * 64 + d) / 64 == a && (a * 64 + d) % 64 == d
  {}

  lemma SixBitsTwice(n: nat)
    ensures n / 64 / 64 == n / 4096 && n / 4096 / 64 == n / 262144
  {}

  lemma TwoBytes(x: int, y: int)
    requires 0xC2 <= x <= 0xDF && 0x80 <= y <= 0xBF
    ensures 0x80 <= OfTwo(x, y) < 0x800 && Scalar(OfTwo(x, y)) && Encoded(OfTwo(x, y)) == [x, y]
  {}

  lemma ThreeBytes(x: int, y: int, z: int)
    requires 0xE0 <= x <= 0xEF && (if x == 0xE0 then 0xA0 else 0x80) <= y <= (if x == 0xED then 0x9F else 0xBF) && 0x80 <= z <= 0xBF
    ensures 0x800 <= OfThree(x, y, z) < 0x1_0000 && Scalar(OfThree(x, y, z)) && Encoded(OfThree(x, y, z)) == [x, y, z]
  {
    SixBits(x - 0xE0, y - 0x80);
    SixBits((x - 0xE0) * 64 + (y - 0x80), z - 0x80);
    SixBitsTwice(OfThree(x, y, z));
  }

  lemma FourBytes(x: int, y: int, z: int, w: int)
    requires 0xF0 <= x <= 0xF4 && (if x == 0xF0 then 0x90 else 0x80) <= y <= (if x == 0xF4 then 0x8F else 0xBF)
    requires 0x80 <= z <= 0xBF && 0x80 <= w <= 0xBF
    ensures 0x1_0000 <= OfFour(x, y, z, w) && Scalar(OfFour(x, y, z, w)) && Encoded(OfFour(x, y, z, w)) == [x, y, z, w]
  {
    var a: nat := (x - 0xF0) * 64 + (y - 0x80);
    var b := a * 64 + (z - 0x80);
    SixBits(x - 0xF0, y - 0x80);
    SixBits(a, z - 0x80);
    SixBits(b, w - 0x80);
    SixBitsTwice(OfFour(x, y, z, w));
    assert 16 <= a < 272;
  }

  lemma FirstRuneIsEncoded(b: ByteString)
    requires b != [] && ValidUtf8(b)
    ensures var (cp, n) := FirstRune(b);
            && Scalar(cp) && Encoded(cp) == b[..n] && ValidUtf8(b[n..])
            && (n == 1 ==> cp == b[0]) && (n > 1 ==> cp >= 0x80 && forall i :: 0 <= i < n ==> b[i] >= 0x80)
  {
    hide Encoded, Scalar, OfTwo, OfThree, OfFour;
    if b[0] < 0x80 {
      assert b[..1] == [b[0]];
      OneByte(b[0]);
    } else if b[0] <= 0xDF {
      assert b[..2] == [b[0], b[1]];
      TwoBytes(b[0], b[1]);
    } else if b[0] <= 0xEF {
      assert b[..3] == [b[0], b[1], b[2]];
      ThreeBytes(b[0], b[1], b[2]);
    } else {
      assert b[..4] == [b[0], b[1], b[2], b[3]];
      FourBytes(b[0], b[1], b[2], b[3]);
    }
  }

  lemma OneByte(c: Byte)
    requires c < 0x80
    ensures Scalar(c) && Encoded(c) == [c]
  {}

  lemma TwoStart(x: Byte, y: Byte, rest: ByteString)
    requires 0xC2 <= x <= 0xDF && 0x80 <= y <= 0xBF && ValidUtf8(rest)
    ensures ValidUtf8([x, y] + rest)
  {
    assert ([x, y] + rest)[2..] == rest;
  }

  lemma ThreeStart(x: Byte, y: Byte, z: Byte, rest: ByteString)
    requires 0xE0 <= x <= 0xEF && (if x == 0xE0 then 0xA0 else 0x80) <= y <= (if x == 0xED then 0x9F else 0xBF) && 0x80 <= z <= 0xBF
    requires ValidUtf8(rest)
    ensures ValidUtf8([x, y, z] + rest)
  {
    assert ([x, y, z] + rest)[3..] == rest;
  }

  lemma FourStart(x: Byte, y: Byte, z: Byte, w: Byte, rest: ByteString)
    requires 0xF0 <= x <= 0xF4 && (if x == 0xF0 then 0x90 else 0x80) <= y <= (if x == 0xF4 then 0x8F else 0xBF)
    requires 0x80 <= z <= 0xBF && 0x80 <= w <= 0xBF && ValidUtf8(rest)
    ensures ValidUtf8([x, y, z, w] + rest)
  {
    assert ([x, y, z, w] + rest)[4..] == rest;
  }

  // What a rune's encoding looks like in front of a valid text.
  lemma EncodedStarts(cp: int, rest: ByteString)
    requires Scalar(cp) && ValidUtf8(rest)
    ensures ValidUtf8(Encoded(cp) + rest)
    ensures cp < 0x80 ==> Encoded(cp) == [cp]
    ensures cp >= 0x80 ==> forall i :: 0 <= i < |Encoded(cp)| ==> Encoded(cp)[i] >= 0x80
  {
    hide ValidUtf8;
    if cp < 0x80 {
      OneStart(cp, rest);
    } else if cp < 0x800 {
      TwoStart(0xC0 + cp / 64, 0x80 + cp % 64, rest);
    } else if cp < 0x1_0000 {
      ThreeStart(0xE0 + cp / 4096, 0x80 + cp / 64 % 64, 0x80 + cp % 64, rest);
    } else {
      FourStart(0xF0 + cp / 262144, 0x80 + cp / 4096 % 64, 0x80 + cp / 64 % 64, 0x80 + cp % 64, rest);
    }
  }

  lemma OneStart(c: Byte, rest: ByteString)
    requires c < 0x80 && ValidUtf8(rest)
    ensures ValidUtf8([c] + rest)
  {
    assert ([c] + rest)[1..] == rest;
  }

  // ------------------------------------------------------------------ whole texts

  lemma {:induction false} ValidIsText(b: ByteString) returns (cps: seq<int>)
    requires ValidUtf8(b)
    ensures Scalars(cps) && Text(cps) == b
    decreases |b|
  {
    hide ValidUtf8, Encoded, FirstRune, Scalar;
    if b == [] {
      cps := [];
    } else {
      var (cp, n) := FirstRune(b);
      FirstRuneIsEncoded(b);
      var rest := ValidIsText(b[n..]);
      cps := [cp] + rest;
      assert cps[1..] == rest;
      assert b == b[..n] + b[n..];
    }
  }

  lemma {:induction false} TextIsValid(cps: seq<int>)
    requires Scalars(cps)
    ensures ValidUtf8(Text(cps))
    ensures (forall i :: 0 <= i < |cps| ==> Readable(cps[i])) ==> forall c <- Text(cps) :: ReadableByte(c)
    ensures (forall c <- Text(cps) :: ReadableByte(c)) ==> forall i :: 0 <= i < |cps| ==> Readable(cps[i])
    decreases |cps|
  {
    hide Encoded, Scalar, ValidUtf8;
    if cps == [] {
      EmptyIsValid();
    } else {
      var e, rest := Encoded(cps[0]), Text(cps[1..]);
      TextIsValid(cps[1..]);
      EncodedStarts(cps[0], rest);
      assert Text(cps) == e + rest;
      assert forall i :: 0 < i < |cps| ==> cps[i] == cps[1..][i - 1];
      assert forall c :: c in e + rest <==> c in e || c in rest;
      assert e[0] in e;
    }
  }

  lemma EmptyIsValid()
    ensures ValidUtf8([])
  {}

  ghost predicate IsReadableText(b: ByteString) {
    exists cps :: Scalars(cps) && Text(cps) == b && forall i :: 0 <= i < |cps| ==> Readable(cps[i])
  }

  lemma ReadableBytes(b: ByteString)
    ensures IsPrintable(b) <==> ValidUtf8(b) && forall c <- b :: ReadableByte(c)
  {
    hide ValidUtf8;
  }

  /** A payload counts as text exactly when it is the UTF-8 encoding of readable runes. */
  lemma PrintableIsReadableText(b: ByteString)
    ensures IsPrintable(b) <==> IsReadableText(b)
  {
    hide ValidUtf8, Text, IsPrintable, ReadableByte, Readable, Scalars;
    ReadableBytes(b);
    if IsPrintable(b) {
      var cps := ValidIsText(b);
      TextIsValid(cps);
    }
    if IsReadableText(b) {
      var cps :| Scalars(cps) && Text(cps) == b && forall i :: 0 <= i < |cps| ==> Readable(cps[i]);
      TextIsValid(cps);
    }
  }

  /** Data is shown in quotes when it is readable text, and in hexadecimal otherwise. */
  lemma DataIsQuotedWhenReadable(op: Byte, payload: ByteString)
    requires payload != [] && op != 3 && op != 4 && !((op == 5 || op == 6) && |payload| == 4)
    ensures var text := PayloadText(op, payload);
            && |text| >= 2
            && (IsReadableText(payload) <==> text[0] == 34)
            && (!IsReadableText(payload) <==> text[..2] == Ascii("0x"))
  {
    hide IsPrintable, IsReadableText, EscapedText, HexText;
    PrintableIsReadableText(payload);
    assert Ascii("0x")[0] == 48;
  }
}
