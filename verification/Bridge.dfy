/** The two ends of an app-call connection: the runner's bridge_call in runner/fcplay.c and the
    serving loop of server/internal/engine/bridge.go. */
module Bridge {
  import opened Wrappers
  import opened Bytes
  import opened BridgeCodec

  datatype AppCall = AppCall(name: ByteString, status: ByteString, request: ByteString, response: ByteString)

  // What the apps service makes of a call; Outcome and error of Service.Call in one value.
  datatype Outcome = Outcome(failed: bool, status: ByteString, result: ByteString, request: ByteString, response: ByteString)

  // An arbitrary service: its answer may depend on every call it was given before.
  type Service = (seq<Request>, Request) -> Outcome

  const TOO_MANY_CALLS: ByteString := Ascii("error: too many app calls in one run")

  // One direction of the connection: the bytes written and not yet read.
  class Wire {
    var bytes: ByteString

    constructor ()
      ensures bytes == []
    {
      bytes := [];
    }

    method Write(s: ByteString)
      modifies this
      ensures bytes == old(bytes) + s
    {
      bytes := bytes + s;
    }

    // Reads exactly n bytes, or fails at the end of the stream.
    method ReadFull(n: nat) returns (r: Option<ByteString>)
      modifies this
      ensures n <= |old(bytes)| ==> r == Some(old(bytes)[..n]) && bytes == old(bytes)[n..]
      ensures n > |old(bytes)| ==> r == None && bytes == []
    {
      if n <= |bytes| {
        r := Some(bytes[..n]);
        bytes := bytes[n..];
      } else {
        r := None;
        bytes := [];
      }
    }
  }

  // ------------------------------------------------------------------ the runner

  class Runner {
    const bridgeResult: array<Byte>

    constructor ()
      ensures bridgeResult.Length == RESULT_MAX
    {
      bridgeResult := new Byte[RESULT_MAX];
    }

    method SendCall(w: Wire, c: Call)
      modifies w
      ensures w.bytes == old(w.bytes) + EncodeCall(c)
    {
      ghost var start := w.bytes;
      WriteCounted(w, c.name);
      w.Write(LE32(|c.params| % U32_RANGE));
      WriteParams(w, c.params);
      WriteCounted(w, c.token);
      ghost var name, count, params, token := Counted(c.name), LE32(|c.params| % U32_RANGE), EncodeParams(c.params), Counted(c.token);
      ConcatAssociates(start, name, count);
      ConcatAssociates(start, name + count, params);
      ConcatAssociates(start, name + count + params, token);
      ConcatAssociates(name + count, params, token);
      ConcatAssociates(name, count, params + token);
    }

    method WriteParams(w: Wire, params: seq<(ByteString, ByteString)>)
      modifies w
      ensures w.bytes == old(w.bytes) + EncodeParams(params)
    {
      for i := 0 to |params|
        invariant w.bytes == old(w.bytes) + EncodeParams(params[..i])
      {
        WriteCounted(w, params[i].0);
        WriteCounted(w, params[i].1);
        assert params[..i + 1][..i] == params[..i];
        ConcatAssociates(old(w.bytes) + EncodeParams(params[..i]), Counted(params[i].0), Counted(params[i].1));
        ConcatAssociates(old(w.bytes), EncodeParams(params[..i]), EncodeParam(params[i]));
      }
      assert params[..|params|] == params;
    }

    method WriteCounted(w: Wire, s: ByteString)
      modifies w
      ensures w.bytes == old(w.bytes) + Counted(s)
    {
      w.Write(LE32(|s| % U32_RANGE));
      w.Write(s);
    }

    // Reads the verdict of one call; None is an I/O error, after which the runner closes the socket.
    method ReceiveReply(r: Wire) returns (reply: Option<Reply>)
      requires bridgeResult.Length == RESULT_MAX
      modifies r, bridgeResult
      ensures match DecodeResponse(old(r.bytes))
              case Some((decoded, rest)) =>
                && reply == Some(decoded) && r.bytes == rest
                && |decoded.result| <= RESULT_MAX
                && bridgeResult[..] == decoded.result + seq(RESULT_MAX - |decoded.result|, _ => 0)
              case None => reply == None
    {
      hide FromLE32;
      ghost var s := r.bytes;
      var okByte := r.ReadFull(1);
      if okByte.None? { return None; }
      var statusCount := r.ReadFull(4);
      if statusCount.None? { return None; }
      assert statusCount.value == s[1..5];
      var statusLen: nat := FromLE32(statusCount.value);
      if statusLen >= STATUS_BUFFER {
        statusLen := STATUS_BUFFER - 1;
      }
      var status := r.ReadFull(statusLen);
      if status.None? { return None; }
      assert status.value == s[5..5 + statusLen];
      var resultCount := r.ReadFull(4);
      if resultCount.None? { return None; }
      assert resultCount.value == s[5 + statusLen..9 + statusLen];
      assert r.bytes == s[9 + statusLen..];
      var result := ReceiveResult(r, FromLE32(resultCount.value));
      if result.None? { return None; }
      return Some(Reply(okByte.value[0] != 0, status.value, result.value));
    }

    // Fills the result buffer and drains whatever exceeds it, so the framing stays in sync.
    method ReceiveResult(r: Wire, resultLen: nat) returns (result: Option<ByteString>)
      requires bridgeResult.Length == RESULT_MAX
      modifies r, bridgeResult
      ensures if |old(r.bytes)| < resultLen then result == None
              else result == Some(old(r.bytes)[..Min(resultLen, RESULT_MAX)]) && r.bytes == old(r.bytes)[resultLen..]
      ensures result.Some? ==> bridgeResult[..] == result.value + seq(RESULT_MAX - |result.value|, _ => 0)
    {
      ghost var s := r.bytes;
      var rlen := if resultLen > RESULT_MAX then RESULT_MAX else resultLen;
      forall i | 0 <= i < bridgeResult.Length {
        bridgeResult[i] := 0;
      }
      result := r.ReadFull(rlen);
      if result.None? { return; }
      forall i | 0 <= i < rlen {
        bridgeResult[i] := result.value[i];
      }
      ghost var filled := result.value + seq(RESULT_MAX - rlen, _ => 0);
      assert forall i :: 0 <= i < RESULT_MAX ==> bridgeResult[i] == filled[i];
      assert bridgeResult[..] == filled;
      var left := resultLen - rlen;
      while left > 0
        invariant 0 <= left <= resultLen - rlen
        invariant resultLen - left <= |s| && r.bytes == s[resultLen - left..]
        invariant bridgeResult[..] == filled
      {
        var chunk := if left > 512 then 512 else left;
        var sink := r.ReadFull(chunk);
        if sink.None? { return None; }
        left := left - chunk;
      }
    }
  }

  // ------------------------------------------------------------------ the server

  method ReadBridgeString(r: Wire) returns (s: Result<ByteString>)
    modifies r
    ensures match ReadString(old(r.bytes))
            case Ok((decoded, rest)) => s == Ok(decoded) && r.bytes == rest
            case Err(m) => s == Err(m)
  {
    var count := r.ReadFull(4);
    if count.None? { return Err("unexpected EOF"); }
    var n := FromLE32(count.value);
    if n > MAX_STRING { return Err("bridge frame too large"); }
    var buf := r.ReadFull(n);
    if buf.None? { return Err("unexpected EOF"); }
    return Ok(buf.value);
  }

  method ReadBridgeRequest(r: Wire) returns (req: Result<Request>)
    modifies r
    ensures match DecodeRequest(old(r.bytes))
            case Ok((decoded, rest)) => req == Ok(decoded) && r.bytes == rest
            case Err(m) => req == Err(m)
  {
    var name := ReadBridgeString(r);
    if name.Err? { return Err(name.message); }
    if |name.value| == 0 || |name.value| > MAX_NAME { return Err("bad app name length"); }
    var count := r.ReadFull(4);
    if count.None? { return Err("unexpected EOF"); }
    var n := FromLE32(count.value);
    if n > MAX_PARAMS { return Err("bad param count"); }
    var body := ReadParamsAndToken(r, name.value, n);
    return body;
  }

  method ReadParamsAndToken(r: Wire, name: ByteString, n: nat) returns (req: Result<Request>)
    modifies r
    ensures match DecodeParamsAndToken(name, n, old(r.bytes))
            case Ok((decoded, rest)) => req == Ok(decoded) && r.bytes == rest
            case Err(m) => req == Err(m)
  {
    var params: map<ByteString, ByteString> := map[];
    for i := 0 to n
      invariant ReadParams(n, old(r.bytes), map[]) == ReadParams(n - i, r.bytes, params)
    {
      var k := ReadBridgeString(r);
      if k.Err? { return Err(k.message); }
      var v := ReadBridgeString(r);
      if v.Err? { return Err(v.message); }
      params := params[k.value := v.value];
    }
    var token := ReadBridgeString(r);
    if token.Err? { return Err(token.message); }
    return Ok(Request(name, params, token.value));
  }

  function ResponseTo(o: Outcome): ByteString {
    if o.failed then EncodeResponse(false, o.status, []) else EncodeResponse(true, o.status, o.result)
  }

  function RecordOf(q: Request, o: Outcome): AppCall {
    AppCall(q.name, o.status, o.request, o.response)
  }

  // What serving an input stream writes back and records, having already served `seen`.
  function Served(input: ByteString, service: Service, seen: seq<Request>): (r: (ByteString, seq<AppCall>))
    ensures |seen| <= MAX_CALLS ==> |seen| + |r.1| <= MAX_CALLS
    decreases |input|
  {
    match DecodeRequest(input)
    case Err(_) => ([], [])
    case Ok((q, rest)) =>
      if |seen| + 1 > MAX_CALLS then (EncodeResponse(false, TOO_MANY_CALLS, []), [])
      else
        var o := service(seen, q);
        var later := Served(rest, service, seen + [q]);
        (ResponseTo(o) + later.0, [RecordOf(q, o)] + later.1)
  }

  lemma ServedStep(input: ByteString, q: Request, rest: ByteString, service: Service, seen: seq<Request>)
    requires DecodesTo(input, q, rest) && |seen| < MAX_CALLS
    ensures var o, later := service(seen, q), Served(rest, service, seen + [q]);
            Served(input, service, seen) == (ResponseTo(o) + later.0, [RecordOf(q, o)] + later.1)
  {}

  method HandleBridgeConn(input: Wire, output: Wire, service: Service, recorded: seq<AppCall>) returns (appCalls: seq<AppCall>)
    requires input != output
    modifies input, output
    ensures output.bytes == old(output.bytes) + Served(old(input.bytes), service, []).0
    ensures appCalls == recorded + Served(old(input.bytes), service, []).1
  {
    hide LE32, FromLE32, DecodeRequest;
    appCalls := recorded;
    ghost var whole := Served(input.bytes, service, []);
    ghost var sent := output.bytes;
    var seen: seq<Request> := [];
    while true
      invariant |seen| <= MAX_CALLS
      invariant output.bytes + Served(input.bytes, service, seen).0 == sent + whole.0
      invariant appCalls + Served(input.bytes, service, seen).1 == recorded + whole.1
      decreases |input.bytes|
    {
      ghost var before, input0, output0, calls0 := Served(input.bytes, service, seen), input.bytes, output.bytes, appCalls;
      var req := ReadBridgeRequest(input);
      if req.Err? { return; }
      if |seen| + 1 > MAX_CALLS {
        output.Write(EncodeResponse(false, TOO_MANY_CALLS, []));
        return;
      }
      var o := service(seen, req.value);
      ServedStep(input0, req.value, input.bytes, service, seen);
      ghost var later := Served(input.bytes, service, seen + [req.value]);
      ConcatAssociates(output0, ResponseTo(o), later.0);
      assert calls0 + before.1 == calls0 + [RecordOf(req.value, o)] + later.1;
      output.Write(ResponseTo(o));
      appCalls := appCalls + [RecordOf(req.value, o)];
      seen := seen + [req.value];
    }
  }

  // ------------------------------------------------------------------ whole sessions

  function EncodeCalls(cs: seq<Call>): ByteString {
    if cs == [] then [] else EncodeCall(cs[0]) + EncodeCalls(cs[1..])
  }

  // The outcomes of a session, by the service alone.
  function Answers(cs: seq<Call>, service: Service, seen: seq<Request>): (o: seq<Outcome>)
    ensures |o| == |cs|
  {
    if cs == [] then []
    else [service(seen, Received(cs[0]))] + Answers(cs[1..], service, seen + [Received(cs[0])])
  }

  function ReplyTo(o: Outcome): Reply {
    if o.failed then Reply(false, o.status, []) else Reply(true, o.status, o.result[..Min(|o.result|, RESULT_MAX)])
  }

  // Reading n replies off a stream, each from where the one before left it.
  function ReadReplies(n: nat, s: ByteString): Option<(seq<Reply>, ByteString)> {
    if n == 0 then Some(([], s))
    else
      match DecodeResponse(s)
      case None => None
      case Some((reply, rest)) =>
        match ReadReplies(n - 1, rest)
        case None => None
        case Some((later, end)) => Some(([reply] + later, end))
  }

  ghost predicate Answerable(os: seq<Outcome>) {
    forall o <- os :: |o.status| <= 255 && |o.result| < U32_RANGE
  }

  /** One exchange, in the middle of any session: the server decodes the call, dispatches it, records
      it with its own name and outcome, and stands in front of the next request; the runner decodes
      the answer and stands in front of the next reply. */
  lemma ExchangeStaysInSync(c: Call, later: ByteString, service: Service, seen: seq<Request>)
    requires Fits(c) && |seen| < 256
    requires var o := service(seen, Received(c)); |o.status| <= 255 && |o.result| < U32_RANGE
    ensures var o := service(seen, Received(c));
            var here, next := Served(EncodeCall(c) + later, service, seen), Served(later, service, seen + [Received(c)]);
            && here.1 == [AppCall(name := c.name, status := o.status, request := o.request, response := o.response)] + next.1
            && DecodeResponse(here.0) == Some((ReplyTo(o), next.0))
  {
    CallRoundTrip(c, later);
    var o := service(seen, Received(c));
    var next := Served(later, service, seen + [Received(c)]);
    assert Served(EncodeCall(c) + later, service, seen).0 == ResponseTo(o) + next.0;
    ShortStatusDecodes(!o.failed, o.status, if o.failed then [] else o.result, next.0);
  }

  // Call i is recorded under its name with the fields of outcome i.
  predicate Records(calls: seq<AppCall>, cs: seq<Call>, os: seq<Outcome>) {
    && |calls| == |cs| == |os|
    && forall i :: 0 <= i < |cs| ==>
         && calls[i].name == cs[i].name
         && calls[i].status == os[i].status
         && calls[i].request == os[i].request
         && calls[i].response == os[i].response
  }

  // Reply i carries outcome i: a failure has no result, a success at most 64 KiB of it.
  predicate Answer(rs: seq<Reply>, os: seq<Outcome>) {
    && |rs| == |os|
    && forall i :: 0 <= i < |os| ==>
         && rs[i].ok == !os[i].failed
         && rs[i].status == os[i].status
         && rs[i].result == if os[i].failed then [] else if |os[i].result| <= 65536 then os[i].result else os[i].result[..65536]
  }

  // Outcome i is what the service makes of request i after the requests before it.
  predicate Dispatched(os: seq<Outcome>, cs: seq<Call>, service: Service, seen: seq<Request>) {
    && |os| == |cs|
    && forall i :: 0 <= i < |cs| ==> os[i] == service(seen + seq(i, j requires 0 <= j < |cs| => Received(cs[j])), Received(cs[i]))
  }

  lemma {:induction false} AnswersAreDispatched(cs: seq<Call>, service: Service, seen: seq<Request>)
    ensures Dispatched(Answers(cs, service, seen), cs, service, seen)
    decreases |cs|
  {
    if cs != [] {
      var q, os, rest := Received(cs[0]), Answers(cs, service, seen), cs[1..];
      AnswersAreDispatched(rest, service, seen + [q]);
      forall i | 0 <= i < |cs|
        ensures os[i] == service(seen + seq(i, j requires 0 <= j < |cs| => Received(cs[j])), Received(cs[i]))
      {
        var before := seq(i, j requires 0 <= j < |cs| => Received(cs[j]));
        if i == 0 {
          assert seen + before == seen;
        } else {
          var after := seq(i - 1, j requires 0 <= j < |rest| => Received(rest[j]));
          assert before == [q] + after;
          assert seen + before == seen + [q] + after;
          assert os[i] == Answers(rest, service, seen + [q])[i - 1];
        }
      }
    }
  }

  lemma RecordsFront(calls: seq<AppCall>, cs: seq<Call>, os: seq<Outcome>)
    requires calls != [] && cs != [] && os != []
    requires calls[0] == AppCall(name := cs[0].name, status := os[0].status, request := os[0].request, response := os[0].response)
    requires Records(calls[1..], cs[1..], os[1..])
    ensures Records(calls, cs, os)
  {
    assert forall i :: 0 < i < |cs| ==> cs[i] == cs[1..][i - 1] && os[i] == os[1..][i - 1] && calls[i] == calls[1..][i - 1];
  }

  lemma AnswerFront(rs: seq<Reply>, os: seq<Outcome>)
    requires rs != [] && os != [] && rs[0] == ReplyTo(os[0]) && Answer(rs[1..], os[1..])
    ensures Answer(rs, os)
  {
    assert forall i :: 0 < i < |os| ==> os[i] == os[1..][i - 1];
    assert forall i :: 0 < i < |rs| ==> rs[i] == rs[1..][i - 1];
  }

  lemma ReadOneMore(n: nat, s: ByteString, reply: Reply, rest: ByteString)
    requires n > 0 && DecodeResponse(s) == Some((reply, rest)) && ReadReplies(n - 1, rest).Some?
    ensures var (later, end) := ReadReplies(n - 1, rest).value; ReadReplies(n, s) == Some(([reply] + later, end))
  {}

  /** For every sequence of calls on one connection within the limits, answered with statuses of
      at most 255 bytes, each side decodes exactly what the other encoded, the record is the list
      of calls with the fields of their outcomes, and no byte is left over. */
  lemma {:induction false} SessionStaysInSync(cs: seq<Call>, service: Service, seen: seq<Request>)
    requires |seen| + |cs| <= 256 && (forall c <- cs :: Fits(c)) && Answerable(Answers(cs, service, seen))
    ensures var served, os := Served(EncodeCalls(cs), service, seen), Answers(cs, service, seen);
            var replies := ReadReplies(|cs|, served.0);
            && Dispatched(os, cs, service, seen)
            && Records(served.1, cs, os)
            && replies.Some? && Answer(replies.value.0, os) && replies.value.1 == []
    decreases |cs|
  {
    hide Fits, EncodeCall, DecodeResponse, Received, ReplyTo, Records, Answer, Dispatched;
    AnswersAreDispatched(cs, service, seen);
    if cs == [] {
      NothingServed(service, seen);
    } else {
      var os := Answers(cs, service, seen);
      assert os[0] in os;
      ExchangeStaysInSync(cs[0], EncodeCalls(cs[1..]), service, seen);
      forall o | o in os[1..]
        ensures |o.status| <= 255 && |o.result| < U32_RANGE
      {
        assert o in os;
      }
      SessionStaysInSync(cs[1..], service, seen + [Received(cs[0])]);
      var here, next := Served(EncodeCalls(cs), service, seen), Served(EncodeCalls(cs[1..]), service, seen + [Received(cs[0])]);
      RecordsFront(here.1, cs, os);
      ReadOneMore(|cs|, here.0, ReplyTo(os[0]), next.0);
      AnswerFront(ReadReplies(|cs|, here.0).value.0, os);
    }
  }

  lemma NothingServed(service: Service, seen: seq<Request>)
    ensures Served([], service, seen) == ([], []) && ReadReplies(0, []) == Some(([], []))
    ensures Records([], [], []) && Answer([], [])
  {}

  /** A frame the server cannot decode ends the service of the connection without an answer. */
  lemma BadFrameEndsService(c: Call, later: ByteString, service: Service, seen: seq<Request>)
    requires Countable(c) && !Fits(c)
    ensures Served(EncodeCall(c) + later, service, seen) == ([], [])
  {
    CallOverLimitsIsRefused(c, later);
  }

  /** The call after the last allowed one is refused and nothing more is dispatched, whatever bytes follow. */
  lemma CallLimit(c: Call, later: ByteString, service: Service, seen: seq<Request>)
    requires Fits(c) && |seen| == 256
    ensures var served := Served(EncodeCall(c) + later, service, seen);
            && served.1 == []
            && DecodeResponse(served.0) == Some((Reply(false, Ascii("error: too many app calls in one run"), []), []))
  {
    CallRoundTrip(c, later);
    ShortStatusDecodes(false, TOO_MANY_CALLS, [], []);
    var e := EncodeResponse(false, TOO_MANY_CALLS, []);
    assert e + [] == e;
  }
}
