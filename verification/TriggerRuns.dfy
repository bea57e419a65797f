/** What firing a trigger leaves behind: the execution, the project's key-value log and the
    app-call records (server/internal/scheduler/scheduler.go). */
module TriggerRuns {
  import opened Wrappers
  import opened Bytes
  import opened Timestamps
  import KvTrace
  import KvRoundTrip
  import Bridge

  // Zero is no project and no user.
  datatype Actor = Actor(projectId: int, userId: int)

  const Nobody := Actor(0, 0)

  // What the engine returns: the run's trace if it came to a run, the app calls, and when it ended.
  datatype RunResult = RunResult(trace: Option<ByteString>, calls: seq<Bridge.AppCall>, finished: nat)

  // The source of every trigger whose source resolves, the creator of every project found, and
  // the engine, whose answer may depend on all a firing gives it.
  datatype Environment = Environment(
    sources: map<int, string>,
    creators: map<int, int>,
    engine: (int, string, Actor) -> RunResult)

  datatype Execution = Execution(triggerId: int, projectId: int, actorId: Option<int>, startedAt: string, finishedAt: string)

  datatype Family = Mail | Http

  datatype CallRecord = CallRecord(execution: nat, user: Option<int>, family: Family, call: Bridge.AppCall)

  type Kv = map<(int, ByteString), ByteString>

  datatype Records = Records(executions: seq<Execution>, kv: Kv, appCalls: seq<CallRecord>)

  function ActorOf(env: Environment, project: int): Actor {
    if project !in env.creators then Nobody
    else Actor(project, if env.creators[project] > 0 then env.creators[project] else 0)
  }

  function UserOf(a: Actor): Option<int> {
    if a.userId > 0 then Some(a.userId) else None
  }

  // Logger calls are not recorded.
  function FamilyOf(name: ByteString): Option<Family> {
    if name == Ascii("MailApp.sendEmail") || name == Ascii("MailApp.read") then Some(Mail)
    else if name == Ascii("UrlFetchApp.fetch") then Some(Http)
    else None
  }

  function Recorded(execution: nat, user: Option<int>, calls: seq<Bridge.AppCall>): seq<CallRecord> {
    if calls == [] then []
    else
      var n := |calls| - 1;
      Recorded(execution, user, calls[..n])
      + match FamilyOf(calls[n].name) case Some(f) => [CallRecord(execution, user, f, calls[n])] case None => []
  }

  function KeysOf(project: int, writes: map<ByteString, ByteString>): set<(int, ByteString)> {
    set k | k in writes :: (project, k)
  }

  function Written(kv: Kv, project: int, writes: map<ByteString, ByteString>): Kv {
    map key | key in kv.Keys + KeysOf(project, writes) ::
      if key.0 == project && key.1 in writes then writes[key.1] else kv[key]
  }

  function WithRun(log: Records, id: int, project: int, actor: Actor, now: nat, result: RunResult): Records {
    var writes := match result.trace case Some(t) => KvTrace.Extracted(t, map[]) case None => map[];
    Records(
      log.executions + [Execution(id, project, UserOf(actor), FormatTime(now), FormatTime(result.finished))],
      Written(log.kv, project, writes),
      log.appCalls + Recorded(|log.executions|, UserOf(actor), result.calls))
  }

  // A trigger whose source is gone leaves nothing.
  function Fired(log: Records, id: int, project: int, now: nat, env: Environment): Records {
    if id !in env.sources then log
    else
      var actor := ActorOf(env, project);
      WithRun(log, id, project, actor, now, env.engine(id, env.sources[id], actor))
  }

  lemma SomeKey(s: set<ByteString>)
    requires s != {}
    ensures exists k :: k in s
  {
    assert (forall k :: k !in s) ==> s == {};
  }

  function Without(writes: map<ByteString, ByteString>, todo: set<ByteString>): map<ByteString, ByteString> {
    map k | k in writes && k !in todo :: writes[k]
  }

  lemma WriteNone(kv: Kv, project: int, writes: map<ByteString, ByteString>)
    ensures Written(kv, project, Without(writes, writes.Keys)) == kv
    ensures Without(writes, {}) == writes
  {
    assert KeysOf(project, Without(writes, writes.Keys)) == {};
  }

  lemma WriteOneMore(kv: Kv, project: int, writes: map<ByteString, ByteString>, todo: set<ByteString>, k: ByteString)
    requires k in todo && todo <= writes.Keys
    ensures Written(kv, project, Without(writes, todo))[(project, k) := writes[k]]
         == Written(kv, project, Without(writes, todo - {k}))
  {
    var some, more := Without(writes, todo), Without(writes, todo - {k});
    assert KeysOf(project, more) == KeysOf(project, some) + {(project, k)} by {
      assert more.Keys == some.Keys + {k};
    }
  }

  function ValueOf(kv: Kv, project: int, key: ByteString): Option<ByteString> {
    if (project, key) in kv then Some(kv[(project, key)]) else None
  }

  /** When the engine ran a program and its trace ends in the dump of what it stored, firing makes
      the project's log hold exactly the displayed final values of the program's named keys on top
      of what it held, and touches no other project. */
  lemma StoredValuesReachTheLog(
      log: Records, id: int, project: int, now: nat, env: Environment,
      before: ByteString, program: seq<KvTrace.Instruction>, state: KvTrace.Stored, q: int, key: ByteString)
    requires id in env.sources
    requires env.engine(id, env.sources[id], ActorOf(env, project)).trace == Some(before + KvTrace.Dumped(program, state, []))
    requires KvRoundTrip.StoreFree(before) && KvRoundTrip.NamesWithoutQuotes(program, state)
    ensures ValueOf(Fired(log, id, project, now, env).kv, q, key)
         == if q == project && KvRoundTrip.NamedBy(program, key) && key in state then Some(KvTrace.Display(state[key]))
            else ValueOf(log.kv, q, key)
  {
    hide KvTrace.Extracted, KvTrace.Dumped, Recorded, FormatTime, KvRoundTrip.NamedBy, KvTrace.Display;
    KvRoundTrip.TraceRoundTrip(before, program, state);
    WrittenValue(log.kv, project, KvTrace.Extracted(before + KvTrace.Dumped(program, state, []), map[]), q, key);
  }

  lemma WrittenValue(kv: Kv, project: int, writes: map<ByteString, ByteString>, q: int, key: ByteString)
    ensures ValueOf(Written(kv, project, writes), q, key)
         == if q == project && key in writes then Some(writes[key]) else ValueOf(kv, q, key)
  {}

  // ------------------------------------------------------------------ what is recorded of a run

  predicate IsMail(name: ByteString) {
    name == Ascii("MailApp.sendEmail") || name == Ascii("MailApp.read")
  }

  predicate IsHttp(name: ByteString) {
    name == Ascii("UrlFetchApp.fetch")
  }

  // How many of the calls are of mail or HTTP.
  function KeptCalls(calls: seq<Bridge.AppCall>): nat {
    if calls == [] then 0
    else KeptCalls(calls[..|calls| - 1]) + if IsMail(calls[|calls| - 1].name) || IsHttp(calls[|calls| - 1].name) then 1 else 0
  }

  lemma FamiliesAreExact(name: ByteString)
    ensures FamilyOf(name) == (if IsMail(name) then Some(Mail) else if IsHttp(name) then Some(Http) else None)
    ensures !(IsMail(name) && IsHttp(name))
  {
    assert Ascii("UrlFetchApp.fetch")[0] == 85 && Ascii("MailApp.sendEmail")[0] == 77 && Ascii("MailApp.read")[0] == 77;
  }

  lemma RecordedOneMore(execution: nat, user: Option<int>, calls: seq<Bridge.AppCall>)
    requires calls != []
    ensures var n := |calls| - 1;
            var front, c := Recorded(execution, user, calls[..n]), calls[n];
            Recorded(execution, user, calls)
              == if IsMail(c.name) then front + [CallRecord(execution, user, Mail, c)]
                 else if IsHttp(c.name) then front + [CallRecord(execution, user, Http, c)]
                 else front
  {
    hide FamilyOf, IsMail, IsHttp;
    FamiliesAreExact(calls[|calls| - 1].name);
  }

  lemma {:induction false} RecordedCount(execution: nat, user: Option<int>, calls: seq<Bridge.AppCall>)
    ensures |Recorded(execution, user, calls)| == KeptCalls(calls)
    decreases |calls|
  {
    hide Recorded, IsMail, IsHttp;
    if calls == [] {
      assert Recorded(execution, user, []) == [] by { NoneRecorded(execution, user); }
    } else {
      RecordedOneMore(execution, user, calls);
      RecordedCount(execution, user, calls[..|calls| - 1]);
    }
  }

  lemma NoneRecorded(execution: nat, user: Option<int>)
    ensures Recorded(execution, user, []) == []
  {}

  /** The mail and HTTP calls of a run, and as many records as there are of them: each in the place
      its order gives it, under its family, with the execution and the user. */
  lemma {:induction false} RecordedExactly(execution: nat, user: Option<int>, calls: seq<Bridge.AppCall>, i: nat)
    requires i < |calls|
    ensures var place := KeptCalls(calls[..i]);
            && |Recorded(execution, user, calls)| == KeptCalls(calls)
            && (IsMail(calls[i].name) || IsHttp(calls[i].name) ==>
                  && place < KeptCalls(calls)
                  && Recorded(execution, user, calls)[place]
                     == CallRecord(execution, user, if IsMail(calls[i].name) then Mail else Http, calls[i]))
    decreases |calls|
  {
    hide Recorded, IsMail, IsHttp;
    var n := |calls| - 1;
    RecordedCount(execution, user, calls);
    RecordedCount(execution, user, calls[..n]);
    RecordedOneMore(execution, user, calls);
    FamiliesAreExact(calls[n].name);
    if i < n {
      RecordedExactly(execution, user, calls[..n], i);
      assert calls[..n][..i] == calls[..i] && calls[..n][i] == calls[i];
    }
  }

  /** A run is recorded under its trigger and project, with the project's creator as its user when it
      has one, from the tick that fired it to the moment it ended; without a source nothing is. */
  lemma ExecutionIsExact(log: Records, id: int, project: int, now: nat, env: Environment)
    ensures var after := Fired(log, id, project, now, env);
            if id !in env.sources then after == log
            else
              var known := project in env.creators;
              var creator := if known && env.creators[project] > 0 then env.creators[project] else 0;
              var result := env.engine(id, env.sources[id], Actor(projectId := if known then project else 0, userId := creator));
              var user := if creator > 0 then Some(creator) else None;
              && |after.executions| == |log.executions| + 1
              && after.executions[..|log.executions|] == log.executions
              && after.executions[|log.executions|] == Execution(
                   triggerId := id, projectId := project, actorId := user,
                   startedAt := FormatTime(now), finishedAt := FormatTime(result.finished))
              && after.appCalls == log.appCalls + Recorded(|log.executions|, user, result.calls)
  {
    hide FormatTime, Recorded, Written, KvTrace.Extracted;
  }

  predicate Attributed(r: CallRecord, executions: seq<Execution>) {
    r.execution < |executions| && r.user == executions[r.execution].actorId
    && (if r.family == Mail then IsMail(r.call.name) else IsHttp(r.call.name))
  }

  ghost predicate AllAttributed(log: Records) {
    forall i :: 0 <= i < |log.appCalls| ==> Attributed(log.appCalls[i], log.executions)
  }

  lemma {:induction false} RecordedFields(execution: nat, user: Option<int>, calls: seq<Bridge.AppCall>)
    ensures forall r <- Recorded(execution, user, calls) ::
              r.execution == execution && r.user == user && (if r.family == Mail then IsMail(r.call.name) else IsHttp(r.call.name))
  {
    hide FamilyOf, IsMail, IsHttp;
    if calls != [] {
      FamiliesAreExact(calls[|calls| - 1].name);
      RecordedFields(execution, user, calls[..|calls| - 1]);
    }
  }

  /** Every app-call record belongs to an execution, carries its user, and is of mail or HTTP; firing keeps it so. */
  lemma FiringKeepsAttribution(log: Records, id: int, project: int, now: nat, env: Environment)
    requires AllAttributed(log)
    ensures AllAttributed(Fired(log, id, project, now, env))
  {
    hide FamilyOf, IsMail, IsHttp, Written, KvTrace.Extracted, Recorded, FormatTime;
    if id in env.sources {
      var actor := ActorOf(env, project);
      var added := Recorded(|log.executions|, UserOf(actor), env.engine(id, env.sources[id], actor).calls);
      RecordedFields(|log.executions|, UserOf(actor), env.engine(id, env.sources[id], actor).calls);
      var after := Fired(log, id, project, now, env);
      forall i | 0 <= i < |after.appCalls|
        ensures Attributed(after.appCalls[i], after.executions)
      {
        if i < |log.appCalls| {
          assert after.appCalls[i] == log.appCalls[i];
          assert Attributed(log.appCalls[i], log.executions);
        } else {
          assert after.appCalls[i] in added;
        }
      }
    }
  }
}
