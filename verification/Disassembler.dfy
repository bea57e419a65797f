/** The bytecode decoder of server/internal/engine/disasm.go and the assembler its tests use.
    `Header`, `EncodeInstr` and `Assemble` give the layout of an image. */
module Disassembler {
  import opened Wrappers
  import opened Bytes
  import opened Numerals

  const HEADER_SIZE: nat := 16
  const INSTR_SIZE: nat := 9
  const MAGIC: ByteString := [70, 67, 66, 49]
  const VERSION: Byte := 1

  datatype Instruction = Instruction(index: nat, opcode: string, opcodeHex: ByteString, argOffset: U32, argLength: U32,
                                     arg: ByteString, target: Option<U32>)

  datatype Bytecode = Bytecode(version: nat, instructionCount: nat, argBlobSize: nat, sizeBytes: nat,
                               instructions: seq<Instruction>)

  function OpcodeName(op: Byte): string {
    match op
    case 1 => "EMIT"
    case 2 => "AWAIT"
    case 3 => "CALL"
    case 4 => "TRANSFORM"
    case 5 => "ROUTE"
    case 6 => "LOOP"
    case 7 => "STORE"
    case _ => "UNKNOWN"
  }

  predicate IsJumpOpcode(op: Byte) {
    op == 5 || op == 6
  }

  // ------------------------------------------------------------------ renderings

  function HexDigit(n: nat): Byte
    requires n < 16
  {
    if n < 10 then 48 + n else 87 + n
  }

  function HexByte(b: Byte): (h: ByteString)
    ensures |h| == 2
  {
    [HexDigit(b / 16), HexDigit(b % 16)]
  }

  function HexText(b: ByteString): ByteString {
    if b == [] then [] else HexByte(b[0]) + HexText(b[1..])
  }

  predicate Continues(b: ByteString, n: nat, low: Byte, high: Byte) {
    1 <= n < |b| && low <= b[1] <= high && forall i :: 2 <= i <= n ==> 0x80 <= b[i] <= 0xBF
  }

  // utf8.Valid
  predicate ValidUtf8(b: ByteString) {
    if b == [] then true
    else if b[0] < 0x80 then ValidUtf8(b[1..])
    else if 0xC2 <= b[0] <= 0xDF then Continues(b, 1, 0x80, 0xBF) && ValidUtf8(b[2..])
    else if 0xE0 <= b[0] <= 0xEF then
      Continues(b, 2, if b[0] == 0xE0 then 0xA0 else 0x80, if b[0] == 0xED then 0x9F else 0xBF) && ValidUtf8(b[3..])
    else if 0xF0 <= b[0] <= 0xF4 then
      Continues(b, 3, if b[0] == 0xF0 then 0x90 else 0x80, if b[0] == 0xF4 then 0x8F else 0xBF) && ValidUtf8(b[4..])
    else false
  }

  // Bytes of multi-byte runes are all at least 0x80, so testing bytes tests runes.
  predicate IsPrintable(b: ByteString) {
    ValidUtf8(b) && forall c <- b :: c == 9 || c == 10 || c == 13 || (c >= 0x20 && c != 0x7F)
  }

  function Escaped(c: Byte): ByteString {
    if c == 34 then [92, 34]
    else if c == 92 then [92, 92]
    else if c == 10 then [92, 110]
    else if c == 13 then [92, 114]
    else if c == 9 then [92, 116]
    else [c]
  }

  function EscapedText(b: ByteString): ByteString {
    if b == [] then [] else EscapedText(b[..|b| - 1]) + Escaped(b[|b| - 1])
  }

  method QuoteReadable(s: ByteString) returns (b: ByteString)
    ensures b == [34] + (EscapedText(s) + [34])
  {
    b := [34];
    for i := 0 to |s|
      invariant b == [34] + EscapedText(s[..i])
    {
      assert s[..i + 1][..i] == s[..i];
      if s[i] == 34 {
        b := b + [92, 34];
      } else if s[i] == 92 {
        b := b + [92, 92];
      } else if s[i] == 10 {
        b := b + [92, 110];
      } else if s[i] == 13 {
        b := b + [92, 114];
      } else if s[i] == 9 {
        b := b + [92, 116];
      } else {
        b := b + [s[i]];
      }
      assert b == [34] + (EscapedText(s[..i]) + Escaped(s[i]));
    }
    assert s[..|s|] == s;
    b := b + [34];
  }

  // The head before the first NUL and the tail after it; with no NUL the tail is empty.
  function SplitAtNUL(b: ByteString): (r: (ByteString, ByteString))
    ensures |r.0| + |r.1| <= |b| && (b != [] ==> |r.1| < |b|)
  {
    if b == [] then ([], [])
    else if b[0] == 0 then ([], b[1..])
    else
      var (head, tail) := SplitAtNUL(b[1..]);
      ([b[0]] + head, tail)
  }

  type Params = seq<(ByteString, ByteString)>

  // The parameters in what follows the name of a call.
  function ParamsIn(rest: ByteString): Params
    decreases |rest|
  {
    if rest == [] then []
    else
      var (k, afterKey) := SplitAtNUL(rest);
      if afterKey == [] && k == [] then []
      else
        var (v, afterValue) := SplitAtNUL(afterKey);
        [(k, v)] + ParamsIn(afterValue)
  }

  function CallIn(payload: ByteString): (ByteString, Params) {
    var (name, rest) := SplitAtNUL(payload);
    (name, ParamsIn(rest))
  }

  // " key=value"
  function ParamText(p: (ByteString, ByteString)): ByteString {
    [32] + (p.0 + ([61] + p.1))
  }

  function ParamsText(ps: Params): ByteString {
    if ps == [] then [] else ParamText(ps[0]) + ParamsText(ps[1..])
  }

  method RenderCallArg(payload: ByteString) returns (out: ByteString)
    ensures out == CallIn(payload).0 + ParamsText(CallIn(payload).1)
  {
    hide SplitAtNUL, ParamsText;
    var (name, rest) := SplitAtNUL(payload);
    out := name;
    ghost var whole := ParamsText(ParamsIn(rest));
    while |rest| > 0
      invariant out + ParamsText(ParamsIn(rest)) == name + whole
      decreases |rest|
    {
      var (k, afterKey) := SplitAtNUL(rest);
      if |afterKey| == 0 && |k| == 0 {
        break;
      }
      var (v, afterValue) := SplitAtNUL(afterKey);
      ghost var more := ParamsIn(afterValue);
      ParamsTextFront((k, v), more);
      ConcatAssociates(out, ParamText((k, v)), ParamsText(more));
      out := out + ParamText((k, v));
      rest := afterValue;
    }
    NoParamsText();
  }

  lemma ParamsTextFront(p: (ByteString, ByteString), more: Params)
    ensures ParamsText([p] + more) == ParamText(p) + ParamsText(more)
  {
    assert ([p] + more)[1..] == more;
  }

  lemma NoParamsText()
    ensures ParamsText([]) == []
  {}

  // ------------------------------------------------------------------ the decoder

  function OutOfBoundsText(offset: U32, length: U32, size: U32): ByteString {
    Ascii("<out of bounds: offset ") + Ascii(Decimal(offset)) + Ascii(" + length ") + Ascii(Decimal(length))
    + Ascii(" exceeds blob size ") + Ascii(Decimal(size)) + Ascii(">")
  }

  function PayloadText(op: Byte, payload: ByteString): ByteString {
    if IsJumpOpcode(op) && |payload| == 4 then Ascii("-> instruction ") + Ascii(Decimal(FromLE32(payload)))
    else if payload == [] then []
    else if op == 3 || op == 4 then CallIn(payload).0 + ParamsText(CallIn(payload).1)
    else if IsPrintable(payload) then [34] + (EscapedText(payload) + [34])
    else Ascii("0x") + HexText(payload)
  }

  function Decoded(index: nat, op: Byte, offset: U32, length: U32, args: ByteString): Instruction
    requires |args| < U32_RANGE
  {
    if offset + length > |args| then
      Instruction(index, OpcodeName(op), Ascii("0x") + HexByte(op), offset, length, OutOfBoundsText(offset, length, |args|), None)
    else
      var payload := args[offset..offset + length];
      Instruction(index, OpcodeName(op), Ascii("0x") + HexByte(op), offset, length, PayloadText(op, payload),
                  if IsJumpOpcode(op) && length == 4 then Some(FromLE32(payload)) else None)
  }

  function DecodedAt(data: ByteString, args: ByteString, i: nat): Instruction
    requires HEADER_SIZE + (i + 1) * INSTR_SIZE <= |data| && |args| < U32_RANGE
  {
    var raw := data[HEADER_SIZE + i * INSTR_SIZE..HEADER_SIZE + (i + 1) * INSTR_SIZE];
    Decoded(i, raw[0], FromLE32(raw[1..5]), FromLE32(raw[5..9]), args)
  }

  method RenderPayload(op: Byte, payload: ByteString) returns (text: ByteString, target: Option<U32>)
    ensures text == PayloadText(op, payload)
    ensures target == if IsJumpOpcode(op) && |payload| == 4 then Some(FromLE32(payload)) else None
  {
    target := None;
    if IsJumpOpcode(op) && |payload| == 4 {
      target := Some(FromLE32(payload));
      text := Ascii("-> instruction ") + Ascii(Decimal(FromLE32(payload)));
    } else if |payload| == 0 {
      text := [];
    } else if op == 3 || op == 4 {
      text := RenderCallArg(payload);
    } else if IsPrintable(payload) {
      text := QuoteReadable(payload);
    } else {
      text := Ascii("0x") + HexText(payload);
    }
  }

  // Why an image is refused before any instruction is decoded.
  function HeaderError(data: ByteString): Option<string> {
    if |data| < HEADER_SIZE then Some("truncated header")
    else if data[0..4] != MAGIC then Some("bad magic")
    else if data[4] as int + 256 * data[5] as int != VERSION then Some("unsupported bytecode version")
    else if HEADER_SIZE + FromLE32(data[8..12]) * INSTR_SIZE + FromLE32(data[12..16]) > |data| then Some("truncated image")
    else None
  }

  // Every index stays within the image, whatever bytes it holds.
  method Disassemble(data: ByteString) returns (r: Result<Bytecode>)
    ensures match HeaderError(data)
            case Some(e) => r == Err(e)
            case None =>
              var count, size := FromLE32(data[8..12]), FromLE32(data[12..16]);
              var start := HEADER_SIZE + count * INSTR_SIZE;
              && r.Ok?
              && r.value == Bytecode(VERSION, count, size, |data|, r.value.instructions)
              && |r.value.instructions| == count
              && (forall i :: 0 <= i < count ==> r.value.instructions[i] == DecodedAt(data, data[start..start + size], i))
  {
    hide DecodedAt, PayloadText, FromLE32;
    if |data| < HEADER_SIZE { return Err("truncated header"); }
    if data[0..4] != MAGIC { return Err("bad magic"); }
    var version := data[4] as int + 256 * data[5] as int;
    if version != VERSION { return Err("unsupported bytecode version"); }
    var count, size := FromLE32(data[8..12]), FromLE32(data[12..16]);
    var need := HEADER_SIZE + count * INSTR_SIZE + size;
    if need > |data| { return Err("truncated image"); }
    var argStart := HEADER_SIZE + count * INSTR_SIZE;
    var args := data[argStart..argStart + size];
    var instructions: seq<Instruction> := [];
    for i := 0 to count
      invariant |instructions| == i
      invariant forall j :: 0 <= j < i ==> instructions[j] == DecodedAt(data, args, j)
    {
      var off := HEADER_SIZE + i * INSTR_SIZE;
      var ins := DecodeOne(i, data[off..off + INSTR_SIZE], args);
      InstructionAt(data, args, i);
      instructions := instructions + [ins];
    }
    return Ok(Bytecode(version, count, size, |data|, instructions));
  }

  lemma InstructionAt(data: ByteString, args: ByteString, i: nat)
    requires HEADER_SIZE + (i + 1) * INSTR_SIZE <= |data| && |args| < U32_RANGE
    ensures var raw := data[HEADER_SIZE + i * INSTR_SIZE..HEADER_SIZE + i * INSTR_SIZE + INSTR_SIZE];
            DecodedAt(data, args, i) == Decoded(i, raw[0], FromLE32(raw[1..5]), FromLE32(raw[5..9]), args)
  {}

  method DecodeOne(index: nat, raw: ByteString, args: ByteString) returns (ins: Instruction)
    requires |raw| == INSTR_SIZE && |args| < U32_RANGE
    ensures ins == Decoded(index, raw[0], FromLE32(raw[1..5]), FromLE32(raw[5..9]), args)
  {
    var op := raw[0];
    var offset, length := FromLE32(raw[1..5]), FromLE32(raw[5..9]);
    ins := Instruction(index, OpcodeName(op), Ascii("0x") + HexByte(op), offset, length, [], None);
    if offset + length > |args| {
      return ins.(arg := OutOfBoundsText(offset, length, |args|));
    }
    var text, target := RenderPayload(op, args[offset..offset + length]);
    return ins.(arg := text, target := target);
  }

  // ------------------------------------------------------------------ the assembler

  datatype RawInstr = RawInstr(op: Byte, off: U32, length: U32)

  function EncodeInstr(i: RawInstr): (b: ByteString)
    ensures |b| == INSTR_SIZE
  {
    [i.op] + (LE32(i.off) + LE32(i.length))
  }

  function EncodeCode(instrs: seq<RawInstr>): (b: ByteString)
    ensures |b| == |instrs| * INSTR_SIZE
  {
    if instrs == [] then [] else EncodeInstr(instrs[0]) + EncodeCode(instrs[1..])
  }

  function Header(count: U32, size: U32): (b: ByteString)
    ensures |b| == HEADER_SIZE
  {
    MAGIC + ([VERSION, 0] + ([0, 0] + (LE32(count) + LE32(size))))
  }

  function Assemble(instrs: seq<RawInstr>, blob: ByteString): ByteString
    requires |instrs| < U32_RANGE && |blob| < U32_RANGE
  {
    Header(|instrs|, |blob|) + (EncodeCode(instrs) + blob)
  }

  lemma HeaderReads(count: U32, size: U32, rest: ByteString)
    ensures var data := Header(count, size) + rest;
            && data[0..4] == MAGIC && data[4] == VERSION && data[5] == 0
            && FromLE32(data[8..12]) == count && FromLE32(data[12..16]) == size
  {
    hide LE32, FromLE32;
    LittleEndianRoundTrip(count);
    LittleEndianRoundTrip(size);
    var data, h := Header(count, size) + rest, Header(count, size);
    assert data[0..4] == h[0..4] && data[8..12] == h[8..12] && data[12..16] == h[12..16];
    assert h[8..12] == LE32(count) && h[12..16] == LE32(size);
  }

  lemma {:induction false} CodeReads(instrs: seq<RawInstr>, i: nat, rest: ByteString)
    requires i < |instrs|
    ensures (EncodeCode(instrs) + rest)[i * INSTR_SIZE..(i + 1) * INSTR_SIZE] == EncodeInstr(instrs[i])
    decreases |instrs|
  {
    hide EncodeInstr;
    var code, first, later := EncodeCode(instrs) + rest, EncodeInstr(instrs[0]), EncodeCode(instrs[1..]) + rest;
    ConcatAssociates(first, EncodeCode(instrs[1..]), rest);
    CutAt(first, later, code);
    if i > 0 {
      CodeReads(instrs[1..], i - 1, rest);
      assert code[i * INSTR_SIZE..(i + 1) * INSTR_SIZE] == code[INSTR_SIZE..][(i - 1) * INSTR_SIZE..i * INSTR_SIZE];
    }
  }

  lemma InstrReads(i: RawInstr)
    ensures var b := EncodeInstr(i); b[0] == i.op && FromLE32(b[1..5]) == i.off && FromLE32(b[5..9]) == i.length
  {
    hide LE32, FromLE32;
    LittleEndianRoundTrip(i.off);
    LittleEndianRoundTrip(i.length);
    var b := EncodeInstr(i);
    assert b[1..5] == LE32(i.off) && b[5..9] == LE32(i.length);
  }

  /** Every assembled image is accepted, and decodes to exactly the instructions and the blob it
      was assembled from. */
  lemma AssembledImageDecodes(instrs: seq<RawInstr>, blob: ByteString, i: nat)
    requires |instrs| < U32_RANGE && |blob| < U32_RANGE
    ensures var data := Assemble(instrs, blob);
            && HeaderError(data) == None
            && FromLE32(data[8..12]) == |instrs| && FromLE32(data[12..16]) == |blob|
            && data[HEADER_SIZE + |instrs| * INSTR_SIZE..] == blob
            && (i < |instrs| ==> DecodedAt(data, blob, i) == Decoded(i, instrs[i].op, instrs[i].off, instrs[i].length, blob))
  {
    hide LE32, FromLE32, Decoded, Header, EncodeInstr;
    var data, code := Assemble(instrs, blob), EncodeCode(instrs) + blob;
    HeaderReads(|instrs|, |blob|, code);
    CutAt(Header(|instrs|, |blob|), code, data);
    CutAt(EncodeCode(instrs), blob, code);
    assert data[HEADER_SIZE + |instrs| * INSTR_SIZE..] == code[|instrs| * INSTR_SIZE..];
    if i < |instrs| {
      CodeReads(instrs, i, blob);
      InstrReads(instrs[i]);
      assert data[HEADER_SIZE + i * INSTR_SIZE..HEADER_SIZE + (i + 1) * INSTR_SIZE] == code[i * INSTR_SIZE..(i + 1) * INSTR_SIZE];
    }
  }

  predicate HoldsAt(args: ByteString, offset: nat, b: ByteString) {
    offset + |b| <= |args| && args[offset..offset + |b|] == b
  }

  /** An instruction shows a target exactly when it is a jump with a four-byte argument inside the
      blob, and then the one stored there; an argument outside the blob shows none. */
  lemma JumpTargets(index: nat, op: Byte, offset: U32, length: U32, args: ByteString, target: U32)
    requires |args| < U32_RANGE
    ensures var shown := Decoded(index, op, offset, length, args).target;
            && (shown.Some? <==> (op == 5 || op == 6) && length == 4 && offset + 4 <= |args|)
            && (shown == Some(target) <==> (op == 5 || op == 6) && length == 4 && HoldsAt(args, offset, LE32(target)))
  {
    hide LE32, FromLE32, PayloadText, OutOfBoundsText;
    LittleEndianRoundTrip(target);
    if length == 4 && offset + 4 <= |args| {
      LittleEndianInverse(args[offset..offset + 4]);
    }
  }

  // ------------------------------------------------------------------ reading renderings back

  function HexValue(d: Byte): Option<nat> {
    if 48 <= d <= 57 then Some(d - 48) else if 97 <= d <= 102 then Some(d - 87) else None
  }

  function UnHex(h: ByteString): Option<ByteString> {
    if h == [] then Some([])
    else if |h| == 1 then None
    else
      match (HexValue(h[0]), HexValue(h[1]), UnHex(h[2..]))
      case (Some(a), Some(b), Some(rest)) => Some([16 * a + b] + rest)
      case _ => None
  }

  function UnEscape(q: ByteString): Option<ByteString> {
    if q == [] then Some([])
    else if q[0] != 92 then
      match UnEscape(q[1..])
      case Some(rest) => Some([q[0]] + rest)
      case None => None
    else if |q| == 1 then None
    else
      var c: Byte := if q[1] == 110 then 10 else if q[1] == 114 then 13 else if q[1] == 116 then 9 else q[1];
      match UnEscape(q[2..])
      case Some(rest) => Some([c] + rest)
      case None => None
  }

  // The payload a rendering of data stands for.
  function PayloadOf(text: ByteString): Option<ByteString> {
    if text == [] then Some([])
    else if text[0] == 34 && |text| >= 2 then UnEscape(text[1..|text| - 1])
    else if |text| >= 2 then UnHex(text[2..])
    else None
  }

  lemma {:induction false} EscapedFront(b: ByteString)
    requires b != []
    ensures EscapedText(b) == Escaped(b[0]) + EscapedText(b[1..])
    decreases |b|
  {
    var n := |b| - 1;
    if n == 0 {
      assert b[..0] == [] && b[1..] == [];
    } else {
      EscapedFront(b[..n]);
      assert b[..n][1..] == b[1..][..n - 1];
      ConcatAssociates(Escaped(b[0]), EscapedText(b[1..][..n - 1]), Escaped(b[n]));
    }
  }

  lemma UnEscapeOne(c: Byte, rest: ByteString)
    requires UnEscape(rest).Some?
    ensures UnEscape(Escaped(c) + rest) == Some([c] + UnEscape(rest).value)
  {
    var e := Escaped(c);
    CutAt(e, rest, e + rest);
  }

  lemma {:induction false} EscapeRoundTrip(b: ByteString)
    ensures UnEscape(EscapedText(b)) == Some(b)
    decreases |b|
  {
    hide Escaped;
    if b != [] {
      EscapedFront(b);
      EscapeRoundTrip(b[1..]);
      UnEscapeOne(b[0], EscapedText(b[1..]));
      assert b == [b[0]] + b[1..];
    }
  }

  lemma {:induction false} HexRoundTrip(b: ByteString)
    ensures UnHex(HexText(b)) == Some(b)
    decreases |b|
  {
    if b != [] {
      HexRoundTrip(b[1..]);
      CutAt(HexByte(b[0]), HexText(b[1..]), HexText(b));
      assert b == [b[0]] + b[1..];
    }
  }

  /** The text shown for data gives the data back, whether it was quoted or shown as hex. */
  lemma DataIsRecoverable(op: Byte, payload: ByteString)
    requires op != 3 && op != 4 && !((op == 5 || op == 6) && |payload| == 4)
    ensures PayloadOf(PayloadText(op, payload)) == Some(payload)
  {
    hide IsPrintable, EscapedText, HexText, UnEscape, UnHex;
    if payload != [] {
      var text := PayloadText(op, payload);
      if IsPrintable(payload) {
        EscapeRoundTrip(payload);
        assert text[1..|text| - 1] == EscapedText(payload);
      } else {
        HexRoundTrip(payload);
        assert text[0] == 48 && text[2..] == HexText(payload);
      }
    }
  }

  /** The opcode can be read off its hexadecimal form, also when it has no name. */
  lemma OpcodeIsShown(index: nat, op: Byte, offset: U32, length: U32, args: ByteString)
    requires |args| < U32_RANGE
    ensures var hex := Decoded(index, op, offset, length, args).opcodeHex; |hex| == 4 && UnHex(hex[2..]) == Some([op])
  {
    hide PayloadText, OutOfBoundsText;
    var hex := Decoded(index, op, offset, length, args).opcodeHex;
    HexRoundTrip([op]);
    assert HexText([op]) == HexByte(op) + HexText([]);
    assert hex[2..] == HexText([op]);
  }

  predicate NulFree(b: ByteString) {
    0 !in b
  }

  ghost predicate NulFreeParams(ps: Params) {
    forall i :: 0 <= i < |ps| ==> NulFree(ps[i].0) && NulFree(ps[i].1)
  }

  // "name\0k\0v\0k\0v": a NUL before every key and value.
  function SeparatedParams(ps: Params): ByteString {
    if ps == [] then [] else [0] + (ps[0].0 + ([0] + (ps[0].1 + SeparatedParams(ps[1..]))))
  }

  lemma {:induction false} SplitBefore(head: ByteString, tail: ByteString)
    requires NulFree(head) && (tail == [] || tail[0] == 0)
    ensures SplitAtNUL(head + tail) == (head, if tail == [] then [] else tail[1..])
    decreases |head|
  {
    if head == [] {
      assert head + tail == tail;
    } else {
      assert (head + tail)[1..] == head[1..] + tail;
      SplitBefore(head[1..], tail);
      assert head == [head[0]] + head[1..];
    }
  }

  // The call blob ends in one more NUL when it is terminated.
  predicate EndsWell(ps: Params, terminated: bool) {
    terminated || ps == [] || ps[|ps| - 1] != ([], [])
  }

  lemma OneParamRead(k: ByteString, v: ByteString, later: ByteString)
    requires NulFree(k) && NulFree(v) && (later == [] || later[0] == 0)
    ensures ParamsIn(k + ([0] + (v + later)))
         == if k == [] && v + later == [] then [] else [(k, v)] + ParamsIn(if later == [] then [] else later[1..])
  {
    hide SplitAtNUL;
    var rest := k + ([0] + (v + later));
    SplitBefore(k, [0] + (v + later));
    assert ([0] + (v + later))[1..] == v + later;
    SplitBefore(v, later);
  }

  lemma SeparatedFront(ps: Params, end: ByteString)
    requires ps != []
    ensures (SeparatedParams(ps) + end)[1..] == ps[0].0 + ([0] + (ps[0].1 + (SeparatedParams(ps[1..]) + end)))
  {
    var k, v, s := ps[0].0, ps[0].1, SeparatedParams(ps[1..]);
    ConcatAssociates([0], k + ([0] + (v + s)), end);
    ConcatAssociates(k, [0] + (v + s), end);
    ConcatAssociates([0], v + s, end);
    ConcatAssociates(v, s, end);
    CutAt([0], k + ([0] + (v + (s + end))), SeparatedParams(ps) + end);
  }

  lemma {:induction false} ParamsRead(ps: Params, terminated: bool)
    requires NulFreeParams(ps) && ps != []
    ensures var end: ByteString := if terminated then [0] else [];
            ParamsIn((SeparatedParams(ps) + end)[1..]) == ps <==> EndsWell(ps, terminated)
    decreases |ps|
  {
    hide ParamsIn;
    var end: ByteString := if terminated then [0] else [];
    var k, v, ps', later := ps[0].0, ps[0].1, ps[1..], SeparatedParams(ps[1..]) + end;
    SeparatedFront(ps, end);
    OneParamRead(k, v, later);
    assert ps == [(k, v)] + ps';
    if ps' == [] {
      assert SeparatedParams(ps') == [] && later == end;
      assert end != [] ==> end[1..] == [];
      assert v + end == [] <==> v == [] && end == [];
      NoParams();
      assert ps == [(k, v)] + [];
    } else {
      forall i | 0 <= i < |ps'|
        ensures NulFree(ps'[i].0) && NulFree(ps'[i].1)
      {
        assert ps'[i] == ps[i + 1];
      }
      ParamsRead(ps', terminated);
      assert later[0] == 0 && v + later != [];
      var read := ParamsIn(later[1..]);
      assert [(k, v)] + read == [(k, v)] + ps' <==> read == ps' by {
        CutParams((k, v), read);
        CutParams((k, v), ps');
      }
    }
  }

  lemma NoParams()
    ensures ParamsIn([]) == []
  {}

  lemma CutParams(p: (ByteString, ByteString), ps: Params)
    ensures ([p] + ps)[1..] == ps
  {}

  /** A call blob of NUL-free strings decodes to exactly its name and parameters, unless it lacks a
      final NUL and its last key and value are both empty. */
  lemma CallIsRecoverable(name: ByteString, ps: Params, terminated: bool)
    requires NulFree(name) && NulFreeParams(ps)
    ensures var end: ByteString := if terminated then [0] else [];
            CallIn(name + (SeparatedParams(ps) + end)) == (name, ps) <==> EndsWell(ps, terminated)
  {
    var end: ByteString := if terminated then [0] else [];
    var tail := SeparatedParams(ps) + end;
    assert tail != [] ==> tail[0] == 0;
    SplitBefore(name, tail);
    if ps != [] {
      ParamsRead(ps, terminated);
      assert tail == [0] + tail[1..];
      assert CallIn(name + tail) == (name, ParamsIn(tail[1..]));
    } else {
      assert SeparatedParams(ps) == [] && tail == end;
      assert tail != [] ==> tail[1..] == [];
      assert CallIn(name + tail) == (name, ParamsIn([]));
    }
  }
}
