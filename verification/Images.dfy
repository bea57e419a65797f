/** What the bytecode decoder accepts, and every field it returns for an assembled image
    (server/internal/engine/disasm.go). */
module Images {
  import opened Wrappers
  import opened Bytes
  import opened Numerals
  import opened Disassembler

  // ------------------------------------------------------------------ the instructions of an image

  /** Field by field, what an assembled image's instruction i comes back as: its place, its name, its
      own offset and length, and what the argument blob holds there. */
  lemma AssembledFields(instrs: seq<RawInstr>, blob: ByteString, i: nat)
    requires |instrs| < U32_RANGE && |blob| < U32_RANGE && i < |instrs|
    ensures var raw, d := instrs[i], DecodedAt(Assemble(instrs, blob), blob, i);
            && d.index == i
            && d.argOffset == raw.off && d.argLength == raw.length
            && d.opcode == (if raw.op == 1 then "EMIT" else if raw.op == 2 then "AWAIT" else if raw.op == 3 then "CALL"
                            else if raw.op == 4 then "TRANSFORM" else if raw.op == 5 then "ROUTE" else if raw.op == 6 then "LOOP"
                            else if raw.op == 7 then "STORE" else "UNKNOWN")
            && |d.opcodeHex| == 4 && UnHex(d.opcodeHex[2..]) == Some([raw.op])
            && d.arg == (if raw.off + raw.length <= |blob| then PayloadText(raw.op, blob[raw.off..raw.off + raw.length])
                         else OutOfBoundsText(raw.off, raw.length, |blob|))
            && (d.target.Some? <==> (raw.op == 5 || raw.op == 6) && raw.length == 4 && raw.off + 4 <= |blob|)
  {
    hide Assemble, PayloadText, OutOfBoundsText, UnHex;
    AssembledImageDecodes(instrs, blob, i);
    OpcodeIsShown(i, instrs[i].op, instrs[i].off, instrs[i].length, blob);
  }

  // ------------------------------------------------------------------ numbers in a text

  predicate IsDigitByte(c: Byte) {
    48 <= c <= 57
  }

  predicate NoDigits(s: ByteString) {
    forall i :: 0 <= i < |s| ==> !IsDigitByte(s[i])
  }

  // Reads on while there are digits.
  function TakeNumber(s: ByteString, acc: nat): (r: (nat, ByteString))
    ensures |r.1| <= |s|
  {
    if s == [] || !IsDigitByte(s[0]) then (acc, s) else TakeNumber(s[1..], 10 * acc + (s[0] - 48))
  }

  // The decimal numbers a text holds, in order.
  function NumbersIn(s: ByteString): seq<nat>
    decreases |s|
  {
    if s == [] then []
    else if IsDigitByte(s[0]) then
      var (n, rest) := TakeNumber(s[1..], s[0] - 48);
      [n] + NumbersIn(rest)
    else NumbersIn(s[1..])
  }

  lemma {:induction false} TakesDecimal(n: nat, rest: ByteString)
    ensures TakeNumber(Ascii(Decimal(n)) + rest, 0) == TakeNumber(rest, n)
    decreases n
  {
    var s := Ascii(Decimal(n));
    if n < 10 {
      assert s == [48 + n];
      assert (s + rest)[1..] == rest;
    } else {
      var high, low := Ascii(Decimal(n / 10)), [48 + n % 10];
      assert s == high + low;
      ConcatAssociates(high, low, rest);
      TakesDecimal(n / 10, low + rest);
      assert (low + rest)[1..] == rest;
    }
  }

  lemma {:induction false} DecimalStarts(n: nat)
    ensures Decimal(n) != "" && IsDigitByte(Ascii(Decimal(n))[0])
  {
    if n >= 10 {
      DecimalStarts(n / 10);
    }
  }

  lemma ReadsDecimal(n: nat, rest: ByteString)
    requires rest == [] || !IsDigitByte(rest[0])
    ensures NumbersIn(Ascii(Decimal(n)) + rest) == [n] + NumbersIn(rest)
  {
    hide Decimal, TakeNumber, Ascii, NumbersIn;
    var s := Ascii(Decimal(n)) + rest;
    DecimalStarts(n);
    TakesDecimal(n, rest);
    NumbersStart(s);
    NumberEnds(rest, n);
  }

  lemma NumbersStart(s: ByteString)
    requires s != [] && IsDigitByte(s[0])
    ensures NumbersIn(s) == [TakeNumber(s, 0).0] + NumbersIn(TakeNumber(s, 0).1)
  {}

  lemma NumberEnds(s: ByteString, acc: nat)
    requires s == [] || !IsDigitByte(s[0])
    ensures TakeNumber(s, acc) == (acc, s)
  {}

  lemma {:induction false} SkipsText(x: ByteString, s: ByteString)
    requires NoDigits(x)
    ensures NumbersIn(x + s) == NumbersIn(s)
    decreases |x|
  {
    if x == [] {
      assert x + s == s;
    } else {
      assert (x + s)[1..] == x[1..] + s;
      SkipsText(x[1..], s);
    }
  }

  lemma NoNumbers(x: ByteString)
    requires NoDigits(x)
    ensures NumbersIn(x) == []
  {
    SkipsText(x, []);
    assert x + [] == x;
  }

  /** What is shown for a jump names its target. */
  lemma JumpTextNamesTarget(op: Byte, target: U32)
    requires op == 5 || op == 6
    ensures NumbersIn(PayloadText(op, LE32(target))) == [target]
  {
    hide LE32, FromLE32, Decimal, NumbersIn;
    LittleEndianRoundTrip(target);
    var text, arrow := Ascii(Decimal(target)), Ascii("-> instruction ");
    SkipsText(arrow, text);
    ReadsDecimal(target, []);
    NoNumbers([]);
    assert text + [] == text;
  }

  lemma OutOfBoundsParts(offset: U32, length: U32, size: U32)
    ensures OutOfBoundsText(offset, length, size)
         == Ascii("<out of bounds: offset ") + (Ascii(Decimal(offset)) + (Ascii(" + length ") + (Ascii(Decimal(length))
            + (Ascii(" exceeds blob size ") + (Ascii(Decimal(size)) + Ascii(">"))))))
  {
    hide Decimal, Ascii;
  }

  lemma OneNumber(text: ByteString, n: nat, rest: ByteString)
    requires NoDigits(text) && (rest == [] || !IsDigitByte(rest[0]))
    ensures NumbersIn(text + (Ascii(Decimal(n)) + rest)) == [n] + NumbersIn(rest)
  {
    hide Decimal, NumbersIn, Ascii;
    SkipsText(text, Ascii(Decimal(n)) + rest);
    ReadsDecimal(n, rest);
  }

  lemma ThreeNumbers(a: ByteString, x: nat, b: ByteString, y: nat, c: ByteString, z: nat, d: ByteString)
    requires NoDigits(a) && NoDigits(b) && NoDigits(c) && NoDigits(d) && b != [] && c != [] && d != []
    ensures NumbersIn(a + (Ascii(Decimal(x)) + (b + (Ascii(Decimal(y)) + (c + (Ascii(Decimal(z)) + d)))))) == [x, y, z]
  {
    hide Decimal, NumbersIn, Ascii;
    var s3 := c + (Ascii(Decimal(z)) + d);
    var s2 := b + (Ascii(Decimal(y)) + s3);
    OneNumber(a, x, s2);
    OneNumber(b, y, s3);
    OneNumber(c, z, d);
    NoNumbers(d);
  }

  lemma OutOfBoundsWords()
    ensures NoDigits(Ascii("<out of bounds: offset ")) && NoDigits(Ascii(" + length "))
    ensures NoDigits(Ascii(" exceeds blob size ")) && NoDigits(Ascii(">"))
  {}

  /** What is shown for an argument outside the blob names its offset, its length and the blob's size. */
  lemma OutOfBoundsTextNamesAll(offset: U32, length: U32, size: U32)
    ensures NumbersIn(OutOfBoundsText(offset, length, size)) == [offset, length, size]
  {
    hide Decimal, NumbersIn, OutOfBoundsText, NoDigits;
    OutOfBoundsParts(offset, length, size);
    OutOfBoundsWords();
    ThreeNumbers(Ascii("<out of bounds: offset "), offset, Ascii(" + length "), length, Ascii(" exceeds blob size "), size, Ascii(">"));
  }

  // ------------------------------------------------------------------ accepted images

  // The n instructions laid out in 9 n bytes.
  function RawInstrs(b: ByteString, n: nat): (instrs: seq<RawInstr>)
    requires |b| == 9 * n
    ensures |instrs| == n
  {
    if n == 0 then [] else [RawInstr(b[0], FromLE32(b[1..5]), FromLE32(b[5..9]))] + RawInstrs(b[9..], n - 1)
  }

  lemma {:induction false} CodeIsInstructions(b: ByteString, n: nat)
    requires |b| == 9 * n
    ensures EncodeCode(RawInstrs(b, n)) == b
    decreases n
  {
    hide LE32, FromLE32;
    if n > 0 {
      CodeIsInstructions(b[9..], n - 1);
      LittleEndianInverse(b[1..5]);
      LittleEndianInverse(b[5..9]);
      assert b == [b[0]] + (b[1..5] + b[5..9]) + b[9..];
      assert RawInstrs(b, n)[1..] == RawInstrs(b[9..], n - 1);
    }
  }

  // "FCB1", version 1, two reserved bytes, the counts, the instructions and the blob, and
  // whatever follows.
  ghost predicate IsImage(data: ByteString, reserved: ByteString, instrs: seq<RawInstr>, blob: ByteString, tail: ByteString) {
    && |reserved| == 2 && |instrs| < U32_RANGE && |blob| < U32_RANGE
    && data == [70, 67, 66, 49, 1, 0] + (reserved + (LE32(|instrs|) + (LE32(|blob|) + (EncodeCode(instrs) + (blob + tail)))))
  }

  lemma HeaderParts(data: ByteString)
    requires |data| >= 16 && data[0..4] == MAGIC && data[4] == 1 && data[5] == 0
    ensures data == [70, 67, 66, 49, 1, 0] + (data[6..8] + (LE32(FromLE32(data[8..12])) + (LE32(FromLE32(data[12..16])) + data[16..])))
  {
    hide LE32, FromLE32;
    LittleEndianInverse(data[8..12]);
    LittleEndianInverse(data[12..16]);
    assert data[0..4][0] == data[0] && data[0..4][1] == data[1] && data[0..4][2] == data[2] && data[0..4][3] == data[3];
    assert data == data[..6] + (data[6..8] + (data[8..12] + (data[12..16] + data[16..])));
    assert data[..6] == [70, 67, 66, 49, 1, 0];
  }

  lemma PartsMakeImage(data: ByteString, reserved: ByteString, count: U32, size: U32, instrs: seq<RawInstr>, blob: ByteString, tail: ByteString)
    requires |reserved| == 2 && |instrs| == count && |blob| == size
    requires data == [70, 67, 66, 49, 1, 0] + (reserved + (LE32(count) + (LE32(size) + (EncodeCode(instrs) + (blob + tail)))))
    ensures IsImage(data, reserved, instrs, blob, tail)
  {}

  lemma AcceptedIsImage(data: ByteString)
      returns (reserved: ByteString, instrs: seq<RawInstr>, blob: ByteString, tail: ByteString)
    requires HeaderError(data).None?
    ensures IsImage(data, reserved, instrs, blob, tail)
  {
    hide LE32, FromLE32, EncodeCode, RawInstrs, IsImage;
    HeaderParts(data);
    var count: nat, size: nat := FromLE32(data[8..12]), FromLE32(data[12..16]);
    var body, end: nat := data[16..], 9 * count;
    var code: ByteString := body[..end];
    reserved, blob, tail := data[6..8], body[end..end + size], body[end + size..];
    CodeIsInstructions(code, count);
    instrs := RawInstrs(code, count);
    assert body == code + (blob + tail);
    PartsMakeImage(data, reserved, count, size, instrs, blob, tail);
  }

  // The decoder's reading of where the parts lie.
  predicate PartsAre(data: ByteString, instrs: seq<RawInstr>, blob: ByteString) {
    var end := 16 + 9 * |instrs|;
    && end + |blob| <= |data|
    && FromLE32(data[8..12]) == |instrs| && FromLE32(data[12..16]) == |blob|
    && data[16..end] == EncodeCode(instrs) && data[end..end + |blob|] == blob
  }

  lemma HeadIsRead(data: ByteString, reserved: ByteString, count: U32, size: U32, rest: ByteString)
    requires |reserved| == 2
    requires data == [70, 67, 66, 49, 1, 0] + (reserved + (LE32(count) + (LE32(size) + rest)))
    ensures |data| == 16 + |rest| && data[0..4] == MAGIC && data[4] == 1 && data[5] == 0
    ensures FromLE32(data[8..12]) == count && FromLE32(data[12..16]) == size && data[16..] == rest
  {
    hide LE32, FromLE32;
    LittleEndianRoundTrip(count);
    LittleEndianRoundTrip(size);
    assert data[8..12] == LE32(count);
    assert data[12..16] == LE32(size);
  }

  lemma BodyIsRead(code: ByteString, blob: ByteString, tail: ByteString, rest: ByteString)
    requires rest == code + (blob + tail)
    ensures rest[..|code|] == code && rest[|code|..|code| + |blob|] == blob
  {}

  lemma ImageIsAccepted(data: ByteString, reserved: ByteString, instrs: seq<RawInstr>, blob: ByteString, tail: ByteString)
    requires IsImage(data, reserved, instrs, blob, tail)
    ensures HeaderError(data).None? && PartsAre(data, instrs, blob)
  {
    hide LE32, FromLE32, EncodeCode;
    var code := EncodeCode(instrs);
    var rest := code + (blob + tail);
    HeadIsRead(data, reserved, |instrs|, |blob|, rest);
    BodyIsRead(code, blob, tail, rest);
    assert data[16..16 + |code|] == data[16..][..|code|];
    assert data[16 + |code|..16 + |code| + |blob|] == data[16..][|code|..|code| + |blob|];
  }

  /** The decoder accepts exactly the assembled images, with any reserved bytes and anything behind
      them, and takes their counts, code and blob from where the assembler put them. */
  lemma AcceptedExactly(data: ByteString)
    ensures HeaderError(data).None? <==> exists reserved, instrs, blob, tail :: IsImage(data, reserved, instrs, blob, tail)
    ensures forall reserved, instrs, blob, tail :: IsImage(data, reserved, instrs, blob, tail) ==> PartsAre(data, instrs, blob)
  {
    hide IsImage, HeaderError, PartsAre;
    if HeaderError(data).None? {
      var reserved, instrs, blob, tail := AcceptedIsImage(data);
    }
    forall reserved, instrs, blob, tail | IsImage(data, reserved, instrs, blob, tail)
      ensures HeaderError(data).None? && PartsAre(data, instrs, blob)
    {
      ImageIsAccepted(data, reserved, instrs, blob, tail);
    }
  }
}
