/** The two codecs of the app-call bridge: the runner's in runner/fcplay.c and the server's in
    server/internal/engine/bridge.go. Both ends share one byte stream in each direction;
    `EncodeCall` and `EncodeResponse` give the two frames. */
module BridgeCodec {
  import opened Wrappers
  import opened Bytes

  const MAX_CALLS: nat := 256
  const MAX_STRING: nat := 0x10_0000
  const MAX_NAME: nat := 128
  const MAX_PARAMS: nat := 64
  const STATUS_BUFFER: nat := 256
  const RESULT_MAX: nat := 65536

  // What the runner sends: strings end before their first NUL, so any byte strings will do.
  datatype Call = Call(name: ByteString, params: seq<(ByteString, ByteString)>, token: ByteString)

  // What the server decodes.
  datatype Request = Request(name: ByteString, params: map<ByteString, ByteString>, token: ByteString)

  // What the runner decodes: the verdict, the status it logs and the new token.
  datatype Reply = Reply(ok: bool, status: ByteString, result: ByteString)

  // ------------------------------------------------------------------ the runner's encoder

  // A length is cut to 32 bits before it is written.
  function Counted(s: ByteString): ByteString {
    LE32(|s| % U32_RANGE) + s
  }

  function EncodeParam(p: (ByteString, ByteString)): ByteString {
    Counted(p.0) + Counted(p.1)
  }

  function EncodeParams(ps: seq<(ByteString, ByteString)>): ByteString {
    if ps == [] then [] else EncodeParams(ps[..|ps| - 1]) + EncodeParam(ps[|ps| - 1])
  }

  function EncodeCall(c: Call): ByteString {
    Counted(c.name) + (LE32(|c.params| % U32_RANGE) + (EncodeParams(c.params) + Counted(c.token)))
  }

  // ------------------------------------------------------------------ the server's decoder

  function ReadU32(s: ByteString): (r: Result<(U32, ByteString)>)
    ensures r.Ok? ==> |s| == |r.value.1| + 4
  {
    if |s| < 4 then Err("unexpected EOF") else Ok((FromLE32(s[..4]), s[4..]))
  }

  function ReadString(s: ByteString): (r: Result<(ByteString, ByteString)>)
    ensures r.Ok? ==> |s| == |r.value.0| + |r.value.1| + 4
  {
    match ReadU32(s)
    case Err(m) => Err(m)
    case Ok((n, rest)) =>
      if n > MAX_STRING then Err("bridge frame too large")
      else if |rest| < n then Err("unexpected EOF")
      else Ok((rest[..n], rest[n..]))
  }

  function ReadParams(n: nat, s: ByteString, acc: map<ByteString, ByteString>)
    : (r: Result<(map<ByteString, ByteString>, ByteString)>)
    ensures r.Ok? ==> |r.value.1| <= |s|
  {
    if n == 0 then Ok((acc, s))
    else
      match ReadString(s)
      case Err(m) => Err(m)
      case Ok((k, afterKey)) =>
        match ReadString(afterKey)
        case Err(m) => Err(m)
        case Ok((v, rest)) => ReadParams(n - 1, rest, acc[k := v])
  }

  function DecodeParamsAndToken(name: ByteString, count: nat, s: ByteString): (r: Result<(Request, ByteString)>)
    ensures r.Ok? ==> |r.value.1| < |s|
  {
    match ReadParams(count, s, map[])
    case Err(m) => Err(m)
    case Ok((params, afterParams)) =>
      match ReadString(afterParams)
      case Err(m) => Err(m)
      case Ok((token, rest)) => Ok((Request(name, params, token), rest))
  }

  function DecodeRequest(s: ByteString): (r: Result<(Request, ByteString)>)
    ensures r.Ok? ==> |r.value.1| < |s|
  {
    match ReadString(s)
    case Err(m) => Err(m)
    case Ok((name, afterName)) =>
      if |name| == 0 || |name| > MAX_NAME then Err("bad app name length")
      else
        match ReadU32(afterName)
        case Err(m) => Err(m)
        case Ok((count, afterCount)) =>
          if count > MAX_PARAMS then Err("bad param count")
          else DecodeParamsAndToken(name, count, afterCount)
  }

  // ------------------------------------------------------------------ the server's encoder

  function EncodeResponse(ok: bool, status: ByteString, result: ByteString): ByteString {
    [if ok then 1 else 0] + (Counted(status) + Counted(result))
  }

  // ------------------------------------------------------------------ the runner's decoder

  function Min(a: nat, b: nat): nat {
    if a < b then a else b
  }

  // The status buffer keeps room for a terminating NUL and clamps the length it reads; an
  // over-long result is drained.
  function DecodeResponse(s: ByteString): Option<(Reply, ByteString)> {
    if |s| < 5 then None
    else
      var statusLen := Min(FromLE32(s[1..5]), STATUS_BUFFER - 1);
      if |s| < 9 + statusLen then None
      else
        var resultLen := FromLE32(s[5 + statusLen..9 + statusLen]);
        var tail := s[9 + statusLen..];
        if |tail| < resultLen then None
        else Some((Reply(s[0] != 0, s[5..5 + statusLen], tail[..Min(resultLen, RESULT_MAX)]), tail[resultLen..]))
  }

  // ------------------------------------------------------------------ requests round trip

  // Every length the runner writes is a 32-bit quantity.
  ghost predicate Countable(c: Call) {
    && |c.name| < U32_RANGE && |c.params| < U32_RANGE && |c.token| < U32_RANGE
    && (forall i :: 0 <= i < |c.params| ==> |c.params[i].0| < U32_RANGE && |c.params[i].1| < U32_RANGE)
  }

  predicate ParamsFit(ps: seq<(ByteString, ByteString)>) {
    forall i :: 0 <= i < |ps| ==> |ps[i].0| <= 1_048_576 && |ps[i].1| <= 1_048_576
  }

  predicate Fits(c: Call) {
    1 <= |c.name| <= 128 && |c.params| <= 64 && ParamsFit(c.params) && |c.token| <= 1_048_576
  }

  function LastWins(ps: seq<(ByteString, ByteString)>, acc: map<ByteString, ByteString>): map<ByteString, ByteString> {
    if ps == [] then acc else LastWins(ps[1..], acc[ps[0].0 := ps[0].1])
  }

  function Received(c: Call): Request {
    Request(c.name, LastWins(c.params, map[]), c.token)
  }

  // The stream holds a request and the reader then stands in front of `rest`.
  predicate DecodesTo(s: ByteString, q: Request, rest: ByteString) {
    DecodeRequest(s) == Ok((q, rest))
  }

  /** The map holds exactly the keys sent, each with the value sent last. */
  lemma {:induction false} LastWinsHolds(ps: seq<(ByteString, ByteString)>, acc: map<ByteString, ByteString>, k: ByteString)
    ensures k in LastWins(ps, acc) <==> k in acc || exists i :: 0 <= i < |ps| && ps[i].0 == k
    ensures forall i :: 0 <= i < |ps| && ps[i].0 == k && (forall j :: i < j < |ps| ==> ps[j].0 != k) ==>
              k in LastWins(ps, acc) && LastWins(ps, acc)[k] == ps[i].1
    ensures k in acc && (forall i :: 0 <= i < |ps| ==> ps[i].0 != k) ==> LastWins(ps, acc)[k] == acc[k]
    decreases |ps|
  {
    if ps != [] {
      var rest := ps[1..];
      LastWinsHolds(rest, acc[ps[0].0 := ps[0].1], k);
      assert forall i :: 0 <= i < |rest| ==> rest[i] == ps[i + 1];
      assert forall i :: 0 < i < |ps| ==> ps[i] == rest[i - 1];
    }
  }

  /** A request frame byte by byte: lengths are four bytes, least significant first. */
  lemma SmallRequest()
    ensures EncodeCall(Call([97], [([98], [99, 100])], [101]))
         == [1, 0, 0, 0, 97, 1, 0, 0, 0, 1, 0, 0, 0, 98, 2, 0, 0, 0, 99, 100, 1, 0, 0, 0, 101]
  {
    hide LE32, EncodeParams, Counted;
    OneParam(([98], [99, 100]));
    SmallStrings();
    LE32Bytes(1);
    assert EncodeParam(([98], [99, 100])) == [1, 0, 0, 0, 98, 2, 0, 0, 0, 99, 100];
  }

  lemma SmallStrings()
    ensures forall x: Byte :: Counted([x]) == [1, 0, 0, 0, x]
    ensures forall x: Byte, y: Byte :: Counted([x, y]) == [2, 0, 0, 0, x, y]
    ensures Counted([]) == [0, 0, 0, 0]
  {
    hide LE32;
    LE32Bytes(0);
    LE32Bytes(1);
    LE32Bytes(2);
  }

  /** A reply frame byte by byte. */
  lemma SmallReplies()
    ensures EncodeResponse(true, [79, 75], [120]) == [1, 2, 0, 0, 0, 79, 75, 1, 0, 0, 0, 120]
    ensures EncodeResponse(false, [], []) == [0, 0, 0, 0, 0, 0, 0, 0, 0]
  {
    hide Counted;
    SmallStrings();
  }

  lemma OneParam(p: (ByteString, ByteString))
    ensures EncodeParams([p]) == EncodeParam(p)
  {
    assert [p][..0] == [];
    assert EncodeParams([]) + EncodeParam(p) == EncodeParam(p);
  }

  lemma ReadCountedU32(v: U32, rest: ByteString)
    ensures ReadU32(LE32(v) + rest) == Ok((v, rest))
  {
    LittleEndianRoundTrip(v);
    var s := LE32(v) + rest;
    assert s[..4] == LE32(v) && s[4..] == rest;
  }

  lemma ReadCounted(x: ByteString, rest: ByteString)
    requires |x| < U32_RANGE
    ensures |x| <= MAX_STRING ==> ReadString(Counted(x) + rest) == Ok((x, rest))
    ensures |x| > MAX_STRING ==> ReadString(Counted(x) + rest).Err?
  {
    hide LE32, FromLE32;
    var s := Counted(x) + rest;
    assert s == LE32(|x|) + (x + rest);
    ReadCountedU32(|x|, x + rest);
    assert (x + rest)[..|x|] == x && (x + rest)[|x|..] == rest;
  }

  lemma {:induction false} EncodeParamsFront(ps: seq<(ByteString, ByteString)>)
    requires ps != []
    ensures EncodeParams(ps) == EncodeParam(ps[0]) + EncodeParams(ps[1..])
    decreases |ps|
  {
    if |ps| == 1 {
      assert ps[..0] == [] && ps[1..] == [];
    } else {
      var front := ps[..|ps| - 1];
      EncodeParamsFront(front);
      assert front[1..] == ps[1..][..|ps| - 2];
      ConcatAssociates(EncodeParam(ps[0]), EncodeParams(front[1..]), EncodeParam(ps[|ps| - 1]));
    }
  }

  lemma {:induction false} ReadEncodedParams(ps: seq<(ByteString, ByteString)>, acc: map<ByteString, ByteString>, rest: ByteString)
    requires forall i :: 0 <= i < |ps| ==> |ps[i].0| < U32_RANGE && |ps[i].1| < U32_RANGE
    ensures ParamsFit(ps) ==> ReadParams(|ps|, EncodeParams(ps) + rest, acc) == Ok((LastWins(ps, acc), rest))
    ensures !ParamsFit(ps) ==> ReadParams(|ps|, EncodeParams(ps) + rest, acc).Err?
    decreases |ps|
  {
    hide Counted, ReadString;
    if ps == [] {
      assert EncodeParams(ps) + rest == rest;
    } else {
      var k, v := ps[0].0, ps[0].1;
      EncodeParamsFront(ps);
      var later := EncodeParams(ps[1..]) + rest;
      ConcatAssociates(EncodeParam(ps[0]), EncodeParams(ps[1..]), rest);
      ConcatAssociates(Counted(k), Counted(v), later);
      ReadCounted(k, Counted(v) + later);
      ReadCounted(v, later);
      ReadEncodedParams(ps[1..], acc[k := v], rest);
      ParamsFitFront(ps);
    }
  }

  lemma ParamsFitFront(ps: seq<(ByteString, ByteString)>)
    requires ps != []
    ensures ParamsFit(ps) <==> |ps[0].0| <= MAX_STRING && |ps[0].1| <= MAX_STRING && ParamsFit(ps[1..])
  {
    assert forall i :: 0 < i < |ps| ==> ps[i] == ps[1..][i - 1];
  }

  lemma EncodedCallFollowedBy(c: Call, rest: ByteString)
    ensures EncodeCall(c) + rest
         == Counted(c.name) + (LE32(|c.params| % U32_RANGE) + (EncodeParams(c.params) + (Counted(c.token) + rest)))
  {
    var name, count, params, token := Counted(c.name), LE32(|c.params| % U32_RANGE), EncodeParams(c.params), Counted(c.token);
    ConcatAssociates(name, count + (params + token), rest);
    ConcatAssociates(count, params + token, rest);
    ConcatAssociates(params, token, rest);
  }

  lemma ParamsAndTokenRoundTrip(c: Call, rest: ByteString)
    requires Countable(c)
    ensures var r := DecodeParamsAndToken(c.name, |c.params|, EncodeParams(c.params) + (Counted(c.token) + rest));
            if ParamsFit(c.params) && |c.token| <= MAX_STRING
            then r == Ok((Request(c.name, LastWins(c.params, map[]), c.token), rest))
            else r.Err?
  {
    hide LE32, FromLE32;
    ReadEncodedParams(c.params, map[], Counted(c.token) + rest);
    ReadCounted(c.token, rest);
  }

  lemma DecodeInStages(s: ByteString, name: ByteString, count: U32, afterCount: ByteString)
    requires |name| < U32_RANGE && s == Counted(name) + (LE32(count) + afterCount)
    ensures 1 <= |name| <= MAX_NAME && count <= MAX_PARAMS ==> DecodeRequest(s) == DecodeParamsAndToken(name, count, afterCount)
    ensures !(1 <= |name| <= MAX_NAME && count <= MAX_PARAMS) ==> DecodeRequest(s).Err?
  {
    hide LE32, FromLE32;
    var afterName := LE32(count) + afterCount;
    ReadCounted(name, afterName);
    ReadCountedU32(count, afterCount);
  }

  /** Whatever follows it on the stream, a call within the server's limits is decoded as exactly
      what was sent, its parameters as a map in which the last value of a key wins, and the
      reader stops on the frame boundary. */
  lemma CallRoundTrip(c: Call, rest: ByteString)
    requires Fits(c)
    ensures DecodesTo(EncodeCall(c) + rest, Received(c), rest)
  {
    hide LE32, FromLE32, DecodeRequest;
    EncodedCallFollowedBy(c, rest);
    DecodeInStages(EncodeCall(c) + rest, c.name, |c.params|, EncodeParams(c.params) + (Counted(c.token) + rest));
    ParamsAndTokenRoundTrip(c, rest);
  }

  /** Every other call is refused. */
  lemma CallOverLimitsIsRefused(c: Call, rest: ByteString)
    requires Countable(c) && !Fits(c)
    ensures DecodeRequest(EncodeCall(c) + rest).Err?
  {
    hide LE32, FromLE32, DecodeRequest;
    EncodedCallFollowedBy(c, rest);
    DecodeInStages(EncodeCall(c) + rest, c.name, |c.params|, EncodeParams(c.params) + (Counted(c.token) + rest));
    ParamsAndTokenRoundTrip(c, rest);
  }

  // ------------------------------------------------------------------ replies and their framing

  lemma ResponseLayout(ok: bool, status: ByteString, result: ByteString, rest: ByteString)
    requires |status| < U32_RANGE && |result| < U32_RANGE
    ensures var s := EncodeResponse(ok, status, result) + rest;
            && |s| == 9 + |status| + |result| + |rest|
            && s[0] == (if ok then 1 else 0)
            && FromLE32(s[1..5]) == |status|
            && s[5..] == status + (Counted(result) + rest)
  {
    hide LE32, FromLE32;
    var s := EncodeResponse(ok, status, result) + rest;
    LittleEndianRoundTrip(|status|);
    assert s == [if ok then 1 else 0] + (LE32(|status|) + (status + (Counted(result) + rest)));
    assert s[1..] == LE32(|status|) + (status + (Counted(result) + rest));
    assert s[1..5] == s[1..][..4] == LE32(|status|);
    assert s[5..] == s[1..][4..];
  }

  lemma ShortStatusDecodes(ok: bool, status: ByteString, result: ByteString, rest: ByteString)
    requires |status| < STATUS_BUFFER && |result| < U32_RANGE
    ensures DecodeResponse(EncodeResponse(ok, status, result) + rest)
         == Some((Reply(ok, status, result[..Min(|result|, RESULT_MAX)]), rest))
  {
    hide LE32, FromLE32;
    ResponseLayout(ok, status, result, rest);
    LittleEndianRoundTrip(|result|);
    var s, n := EncodeResponse(ok, status, result) + rest, |status|;
    var body, count := s[5..], LE32(|result|);
    ConcatAssociates(count, result, rest);
    CutAt(status, count + (result + rest), body);
    CutAt(count, result + rest, body[n..]);
    CutAt(result, rest, result + rest);
    assert s[5..5 + n] == body[..n];
    assert s[5 + n..9 + n] == body[n..][..4];
    assert s[9 + n..] == body[n..][4..];
    assert (result + rest)[..Min(|result|, RESULT_MAX)] == result[..Min(|result|, RESULT_MAX)];
  }

  /** The runner decodes exactly the verdict, status and (64 KiB) result the server encoded, and
      stops on the frame boundary, for precisely the statuses of at most 255 bytes. */
  lemma ReplyRoundTrip(ok: bool, status: ByteString, result: ByteString, rest: ByteString)
    requires |status| < U32_RANGE && |result| < U32_RANGE
    ensures |status| <= 255 <==>
            DecodeResponse(EncodeResponse(ok, status, result) + rest)
              == Some((Reply(ok, status, if |result| <= 65536 then result else result[..65536]), rest))
  {
    assert result[..|result|] == result;
    if |status| <= 255 {
      ShortStatusDecodes(ok, status, result, rest);
    } else {
      ResponseLayout(ok, status, result, rest);
    }
  }

  // The reader stands where the writer's frame ended.
  ghost predicate OnBoundary(ok: bool, status: ByteString, result: ByteString, rest: ByteString) {
    var r := DecodeResponse(EncodeResponse(ok, status, result) + rest);
    r.Some? && r.value.1 == rest
  }

  // The four bytes a clamped reader takes for the result's length.
  function Misread(status: ByteString, result: ByteString, rest: ByteString): U32
    requires |status| > 255
  {
    FromLE32((status + (Counted(result) + rest))[255..259])
  }

  /** Exactly when a reply leaves the reader on the frame boundary: its status fits the buffer, or
      the bytes taken for the result's length happen to spell the distance to the frame's end. */
  lemma FramingIsExact(ok: bool, status: ByteString, result: ByteString, rest: ByteString)
    requires |status| < U32_RANGE && |result| < U32_RANGE
    ensures OnBoundary(ok, status, result, rest) <==>
            |status| <= 255 || Misread(status, result, rest) == |status| + |result| - 255
  {
    if |status| <= 255 {
      ShortStatusDecodes(ok, status, result, rest);
    } else {
      ResponseLayout(ok, status, result, rest);
      var s := EncodeResponse(ok, status, result) + rest;
      var body := status + (Counted(result) + rest);
      var n := Misread(status, result, rest);
      assert s[260..264] == body[255..259];
      if n == |status| + |result| - 255 {
        assert |s[264..]| >= n;
        assert body[259..] == s[264..];
        assert s[264..][n..] == body[259 + n..];
        assert body[259 + n..] == rest;
      }
    }
  }

  /** A long status made of text never realigns by accident: the misread length exceeds any frame
      of less than 16 MiB. */
  lemma LongStatusLosesTheFrame(ok: bool, status: ByteString, result: ByteString, rest: ByteString)
    requires |status| >= 259 && status[258] != 0 && |status| + |result| < 0x100_0000
    ensures !OnBoundary(ok, status, result, rest)
  {
    FramingIsExact(ok, status, result, rest);
    var b := (status + (Counted(result) + rest))[255..259];
    assert b[3] == status[258];
    ValueOfFour(b);
  }
}
