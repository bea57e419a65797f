/** The interleavings of the runner, the serving goroutine and the engine during one run
    (server/internal/engine/bridge.go, server/internal/engine/engine.go). The server answers a
    call before it appends the call's record; the engine returns the records as soon as the
    runner has exited, without waiting for the serving goroutine. */
module BridgeInterleaving {
  import opened Wrappers
  import opened Bridge
  import opened BridgeCodec

  // Where the serving goroutine stands on its connection.
  datatype Phase = Reading | Dispatched(request: Request) | Answered(record: AppCall)

  datatype Connection = Connection(calls: nat, phase: Phase)

  datatype Returned = Returned(records: seq<AppCall>, answeredThen: seq<AppCall>)

  datatype State = State(
    listening: bool,
    connection: Option<Connection>,
    answered: seq<AppCall>,  // calls whose response was written, in order
    recorded: seq<AppCall>,  // res.AppCalls
    returned: Option<Returned>)

  datatype Action =
    | Accept                       // the server takes the runner's next connection
    | Receive(request: Request)    // a whole request frame has been read
    | Answer(outcome: Outcome)     // the service returned and the response is written
    | Record                       // the record is appended under the lock
    | HangUp                       // a read failed: the runner closed, died or sent a bad frame
    | CloseListener                // the run's context ended or the engine is done
    | Return                       // the runner has exited and the engine reads the records

  const Init := State(true, None, [], [], None)

  // The successor state, or None when the action cannot happen now.
  function Step(s: State, a: Action): Option<State> {
    match a
    case Accept =>
      if s.listening && s.connection.None? then Some(s.(connection := Some(Connection(0, Reading)))) else None
    case Receive(q) =>
      if s.connection.Some? && s.connection.value.phase == Reading then
        var c := s.connection.value;
        if c.calls + 1 > MAX_CALLS then Some(s.(connection := None))
        else Some(s.(connection := Some(Connection(c.calls + 1, Dispatched(q)))))
      else None
    case Answer(o) =>
      if s.connection.Some? && s.connection.value.phase.Dispatched? then
        var c := s.connection.value;
        var r := RecordOf(c.phase.request, o);
        Some(s.(connection := Some(c.(phase := Answered(r))), answered := s.answered + [r]))
      else None
    case Record =>
      if s.connection.Some? && s.connection.value.phase.Answered? then
        var c := s.connection.value;
        Some(s.(connection := Some(c.(phase := Reading)), recorded := s.recorded + [c.phase.record]))
      else None
    case HangUp =>
      if s.connection.Some? && s.connection.value.phase == Reading then Some(s.(connection := None)) else None
    case CloseListener => Some(s.(listening := false))
    case Return =>
      if s.returned.None? then Some(s.(returned := Some(Returned(s.recorded, s.answered)))) else None
  }

  // The state after a run of actions, or None when some action was not possible.
  function After(s: State, run: seq<Action>): Option<State>
    decreases |run|
  {
    if run == [] then Some(s)
    else match Step(s, run[0]) case None => None case Some(t) => After(t, run[1..])
  }

  // All but possibly the last answered call is recorded.
  ghost predicate LagsByAtMostOne(records: seq<AppCall>, answered: seq<AppCall>) {
    records == answered || (answered != [] && records == answered[..|answered| - 1])
  }

  ghost predicate Inv(s: State) {
    match s.connection
    case Some(c) =>
      && c.calls <= MAX_CALLS
      && s.answered == (if c.phase.Answered? then s.recorded + [c.phase.record] else s.recorded)
    case None => s.answered == s.recorded
  }

  lemma StepKeepsInv(s: State, a: Action)
    requires Inv(s) && Step(s, a).Some?
    ensures Inv(Step(s, a).value)
  {
    if a.Return? && s.connection.Some? && s.connection.value.phase.Answered? {
      assert s.answered[..|s.answered| - 1] == s.recorded;
    }
  }

  lemma {:induction false} RunKeepsInv(s: State, run: seq<Action>)
    requires Inv(s) && After(s, run).Some?
    ensures Inv(After(s, run).value)
    decreases |run|
  {
    if run != [] {
      StepKeepsInv(s, run[0]);
      RunKeepsInv(Step(s, run[0]).value, run[1..]);
    }
  }

  // The calls dispatched on the connection in service during a run, starting from `count`: back to
  // none with every accepted connection, one more with every request that reaches the service.
  function Dispatches(s: State, run: seq<Action>, count: nat): nat
    decreases |run|
  {
    if run == [] then count
    else
      match Step(s, run[0])
      case None => count
      case Some(t) =>
        var reached := run[0].Receive? && t.connection.Some? && t.connection.value.phase == Dispatched(run[0].request);
        Dispatches(t, run[1..], if run[0].Accept? then 0 else if reached then count + 1 else count)
  }

  lemma {:induction false} DispatchesAreCounted(s: State, run: seq<Action>, count: nat)
    requires Inv(s) && count <= MAX_CALLS && (s.connection.Some? ==> count == s.connection.value.calls)
    ensures Dispatches(s, run, count) <= MAX_CALLS
    decreases |run|
  {
    if run != [] && Step(s, run[0]).Some? {
      var t := Step(s, run[0]).value;
      StepKeepsInv(s, run[0]);
      var reached := run[0].Receive? && t.connection.Some? && t.connection.value.phase == Dispatched(run[0].request);
      DispatchesAreCounted(t, run[1..], if run[0].Accept? then 0 else if reached then count + 1 else count);
    }
  }

  // The response of the last call is written and its record is still to come.
  predicate Unrecorded(s: State) {
    s.connection.Some? && s.connection.value.phase.Answered?
  }

  /** In every interleaving the records are the answered calls in order, missing at most the last,
      and missing it exactly while that call is answered and still unrecorded; and no connection
      gets more than 256 calls dispatched. */
  lemma RecordsFollowAnswers(run: seq<Action>)
    requires After(Init, run).Some?
    ensures var s := After(Init, run).value;
            && LagsByAtMostOne(s.recorded, s.answered)
            && (s.recorded == s.answered <==> !Unrecorded(s))
    ensures Dispatches(Init, run, 0) <= MAX_CALLS
  {
    RunKeepsInv(Init, run);
    DispatchesAreCounted(Init, run, 0);
    var s := After(Init, run).value;
    if Unrecorded(s) {
      assert s.answered[..|s.answered| - 1] == s.recorded;
    }
  }

  lemma {:induction false} RunsCompose(s: State, r1: seq<Action>, r2: seq<Action>)
    ensures After(s, r1 + r2) == match After(s, r1) case Some(t) => After(t, r2) case None => None
    decreases |r1|
  {
    if r1 == [] {
      assert r1 + r2 == r2;
    } else {
      assert (r1 + r2)[1..] == r1[1..] + r2;
      if Step(s, r1[0]).Some? {
        RunsCompose(Step(s, r1[0]).value, r1[1..], r2);
      }
    }
  }

  lemma {:induction false} ReturnedStays(s: State, run: seq<Action>)
    requires After(s, run).Some? && s.returned.Some?
    ensures After(s, run).value.returned == s.returned
    decreases |run|
  {
    if run != [] {
      ReturnedStays(Step(s, run[0]).value, run[1..]);
    }
  }

  lemma {:induction false} NothingReturnedYet(s: State, run: seq<Action>)
    requires After(s, run).Some? && s.returned.None? && Return !in run
    ensures After(s, run).value.returned.None?
    decreases |run|
  {
    if run != [] {
      assert run[0] in run && Return !in run[1..];
      NothingReturnedYet(Step(s, run[0]).value, run[1..]);
    }
  }

  /** Whatever happens before and after it, the engine's return hands back the records of that
      moment; they are all the calls answered by then exactly when none was answered and still
      unrecorded, and all but the last otherwise. */
  lemma ReturnedRecordsAreComplete(before: seq<Action>, later: seq<Action>)
    requires Return !in before && After(Init, before + ([Return] + later)).Some?
    ensures After(Init, before).Some?
    ensures var moment, end := After(Init, before).value, After(Init, before + ([Return] + later)).value;
            && end.returned == Some(Returned(moment.recorded, moment.answered))
            && LagsByAtMostOne(moment.recorded, moment.answered)
            && (moment.recorded == moment.answered <==> !Unrecorded(moment))
  {
    RunsCompose(Init, before, [Return] + later);
    var moment := After(Init, before).value;
    NothingReturnedYet(Init, before);
    RecordsFollowAnswers(before);
    AfterFirst(moment, Return, later);
    ReturnedStays(Step(moment, Return).value, later);
  }

  lemma AfterFirst(s: State, a: Action, rest: seq<Action>)
    requires Step(s, a).Some?
    ensures After(s, [a] + rest) == After(Step(s, a).value, rest)
  {
    assert ([a] + rest)[1..] == rest;
  }

  /** The last answered call can really be missing. */
  lemma TheLastRecordCanBeMissing(q: Request, o: Outcome)
    ensures exists run :: After(Init, run).Some? && After(Init, run).value.returned == Some(Returned([], [RecordOf(q, o)]))
  {
    var s1 := Init.(connection := Some(Connection(0, Reading)));
    var s2 := Init.(connection := Some(Connection(1, Dispatched(q))));
    var s3 := State(true, Some(Connection(1, Answered(RecordOf(q, o)))), [RecordOf(q, o)], [], None);
    assert Step(Init, Accept) == Some(s1);
    assert Step(s1, Receive(q)) == Some(s2);
    assert s2.answered + [RecordOf(q, o)] == [RecordOf(q, o)];
    assert Step(s2, Answer(o)) == Some(s3);
    AfterFirst(s3, Return, []);
    AfterFirst(s2, Answer(o), [Return] + []);
    AfterFirst(s1, Receive(q), [Answer(o)] + ([Return] + []));
    AfterFirst(Init, Accept, [Receive(q)] + ([Answer(o)] + ([Return] + [])));
    assert Step(s3, Return) == Some(s3.(returned := Some(Returned([], [RecordOf(q, o)]))));
    var run := [Accept] + ([Receive(q)] + ([Answer(o)] + ([Return] + [])));
    assert After(Init, run) == After(s3.(returned := Some(Returned([], [RecordOf(q, o)]))), []);
  }
}
