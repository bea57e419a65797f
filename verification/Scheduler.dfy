/** The tick state machine of server/internal/scheduler/scheduler.go over the trigger rows of
    server/internal/store/workspaces_content.go. A tick, a pause and a resume are atomic steps. */
module Scheduler {
  import opened Wrappers
  import opened Durations
  import opened Timestamps
  import opened Schedule
  import opened TriggerRuns
  import opened Bytes
  import Bridge
  import KvTrace

  datatype Trigger = Trigger(projectId: int, enabled: bool, kind: string, interval: Option<int>, daily: string,
                             nextRunAt: string, lastRunAt: string)

  type Triggers = map<int, Trigger>

  // SELECT ... WHERE t.enabled AND t.next_run_at <= $1
  predicate Due(t: Trigger, nowText: string) {
    t.enabled && TextLeq(t.nextRunAt, nowText)
  }

  function DueIds(ts: Triggers, now: nat): set<int> {
    set id | id in ts && Due(ts[id], FormatTime(now))
  }

  function SecondsOf(t: Trigger): int {
    match t.interval case Some(n) => n case None => 0
  }

  function Rescheduled(t: Trigger, now: nat): Trigger {
    var prev := match ParseTime(t.nextRunAt) case Ok(p) => p case Err(_) => now;
    match Advanced(prev, now, t.kind, SecondsOf(t), t.daily)
    case Ok(next) => t.(lastRunAt := FormatTime(now), nextRunAt := FormatTime(next))
    case Err(_) => t.(enabled := false)
  }

  function Ticked(ts: Triggers, now: nat): Triggers {
    map id | id in ts :: if Due(ts[id], FormatTime(now)) then Rescheduled(ts[id], now) else ts[id]
  }

  // The records left by firing triggers one after the other.
  function RunsOf(ts: Triggers, ids: seq<int>, now: nat, env: Environment, before: Records): Records {
    if ids == [] then before
    else
      var n := |ids| - 1;
      var log := RunsOf(ts, ids[..n], now, env, before);
      if ids[n] in ts then Fired(log, ids[n], ts[ids[n]].projectId, now, env) else log
  }

  ghost function PartlyTicked(ts: Triggers, fired: seq<int>, now: nat): Triggers {
    map id | id in ts :: if id in fired then Rescheduled(ts[id], now) else ts[id]
  }

  lemma PartlyTickedGrows(ts: Triggers, ids: seq<int>, i: nat, now: nat)
    requires i < |ids| && ids[i] in ts && ids[i] !in ids[..i]
    ensures PartlyTicked(ts, ids[..i + 1], now) == PartlyTicked(ts, ids[..i], now)[ids[i] := Rescheduled(ts[ids[i]], now)]
    ensures ids[i] in PartlyTicked(ts, ids[..i], now) && PartlyTicked(ts, ids[..i], now)[ids[i]] == ts[ids[i]]
  {
    assert ids[..i + 1] == ids[..i] + [ids[i]];
  }

  lemma EachOnce(ids: seq<int>, s: set<int>)
    requires multiset(ids) == multiset(s)
    ensures forall id :: id in ids <==> id in s
    ensures forall i :: 0 <= i < |ids| ==> ids[i] in s && ids[i] !in ids[..i]
  {
    forall id
      ensures id in ids <==> id in s
    {
      assert id in multiset(ids) <==> id in multiset(s);
    }
    forall i | 0 <= i < |ids|
      ensures ids[i] in s && ids[i] !in ids[..i]
    {
      assert ids[i] in ids;
      assert ids == ids[..i] + [ids[i]] + ids[i + 1..];
      assert multiset(ids)[ids[i]] == 1;
    }
  }

  lemma AllDueIsTicked(ts: Triggers, rows: seq<int>, now: nat)
    requires forall id :: id in rows <==> id in DueIds(ts, now)
    ensures PartlyTicked(ts, rows, now) == Ticked(ts, now)
  {
    forall id | id in ts
      ensures PartlyTicked(ts, rows, now)[id] == Ticked(ts, now)[id]
    {
      assert id in rows <==> id in DueIds(ts, now);
    }
  }

  lemma NoneFired(ts: Triggers, now: nat, env: Environment, log: Records)
    ensures PartlyTicked(ts, [], now) == ts && RunsOf(ts, [], now, env, log) == log
  {}

  lemma RunsGrow(ts: Triggers, ids: seq<int>, i: nat, now: nat, env: Environment, log: Records)
    requires i < |ids| && ids[i] in ts
    ensures RunsOf(ts, ids[..i + 1], now, env, log)
         == Fired(RunsOf(ts, ids[..i], now, env, log), ids[i], ts[ids[i]].projectId, now, env)
  {
    assert ids[..i + 1][..i] == ids[..i];
  }

  class Ticker {
    var triggers: Triggers
    var executions: seq<Execution>
    var kv: Kv
    var appCalls: seq<CallRecord>

    function Log(): Records
      reads this
    {
      Records(executions, kv, appCalls)
    }

    // The rows of one SELECT, in no particular order.
    method WSDueTriggers(nowText: string) returns (rows: seq<int>)
      ensures multiset(rows) == multiset(set id | id in triggers && Due(triggers[id], nowText))
    {
      var due := set id | id in triggers && Due(triggers[id], nowText);
      var todo := due;
      rows := [];
      while todo != {}
        invariant todo <= due
        invariant multiset(rows) == multiset(due - todo)
        decreases todo
      {
        SomeElement(todo);
        var id :| id in todo;
        assert multiset(due - todo) + multiset{id} == multiset(due - (todo - {id})) by {
          assert due - (todo - {id}) == (due - todo) + {id};
        }
        rows := rows + [id];
        todo := todo - {id};
      }
      assert due - todo == due;
    }

    method FireDue(now: nat, env: Environment) returns (rows: seq<int>)
      modifies this
      ensures multiset(rows) == multiset(DueIds(old(triggers), now))
      ensures triggers == Ticked(old(triggers), now)
      ensures Log() == RunsOf(old(triggers), rows, now, env, old(Log()))
    {
      hide Ticked, PartlyTicked, RunsOf, Due;
      rows := WSDueTriggers(FormatTime(now));
      EachOnce(rows, DueIds(triggers, now));
      FireAll(rows, now, env);
      AllDueIsTicked(old(triggers), rows, now);
    }

    method FireAll(rows: seq<int>, now: nat, env: Environment)
      requires forall i :: 0 <= i < |rows| ==> rows[i] in triggers && rows[i] !in rows[..i]
      modifies this
      ensures triggers == PartlyTicked(old(triggers), rows, now)
      ensures Log() == RunsOf(old(triggers), rows, now, env, old(Log()))
    {
      hide PartlyTicked, RunsOf, Rescheduled, Fired;
      NoneFired(triggers, now, env, Log());
      for i := 0 to |rows|
        invariant triggers == PartlyTicked(old(triggers), rows[..i], now)
        invariant Log() == RunsOf(old(triggers), rows[..i], now, env, old(Log()))
      {
        PartlyTickedGrows(old(triggers), rows, i, now);
        RunsGrow(old(triggers), rows, i, now, env, old(Log()));
        Fire(rows[i], now, env);
      }
      assert rows[..|rows|] == rows;
    }

    method Fire(id: int, now: nat, env: Environment)
      requires id in triggers
      modifies this
      ensures triggers == old(triggers)[id := Rescheduled(old(triggers[id]), now)]
      ensures Log() == Fired(old(Log()), id, old(triggers[id].projectId), now, env)
    {
      hide Rescheduled;
      if id !in env.sources {
        Reschedule(id, now);
        return;
      }
      var project := triggers[id].projectId;
      var actor := Nobody;
      if project in env.creators {
        actor := actor.(projectId := project);
        if env.creators[project] > 0 {
          actor := actor.(userId := env.creators[project]);
        }
      }
      RecordRun(id, project, actor, now, env.engine(id, env.sources[id], actor));
      Reschedule(id, now);
    }

    method RecordRun(id: int, project: int, actor: Actor, now: nat, result: RunResult)
      modifies this`executions, this`kv, this`appCalls
      ensures Log() == WithRun(old(Log()), id, project, actor, now, result)
    {
      hide Recorded, Written, KvTrace.Extracted;
      WriteNone(kv, project, map[]);
      assert Without(map[], {}) == map[];
      var execution := |executions|;
      executions := executions + [Execution(id, project, UserOf(actor), FormatTime(now), FormatTime(result.finished))];
      if result.trace.Some? {
        var writes := KvTrace.ExtractStoreSets(result.trace.value);
        KeepSets(project, writes);
      }
      RecordAppCalls(execution, UserOf(actor), result.calls);
    }

    // One upsert for each key set, in no particular order.
    method KeepSets(project: int, writes: map<ByteString, ByteString>)
      modifies this`kv
      ensures kv == Written(old(kv), project, writes)
    {
      var todo := writes.Keys;
      WriteNone(kv, project, writes);
      while todo != {}
        invariant todo <= writes.Keys
        invariant kv == Written(old(kv), project, Without(writes, todo))
        decreases todo
      {
        SomeKey(todo);
        var k :| k in todo;
        WriteOneMore(old(kv), project, writes, todo, k);
        kv := kv[(project, k) := writes[k]];
        todo := todo - {k};
      }
    }

    method RecordAppCalls(execution: nat, user: Option<int>, calls: seq<Bridge.AppCall>)
      modifies this`appCalls
      ensures appCalls == old(appCalls) + Recorded(execution, user, calls)
    {
      hide FamilyOf;
      var records: seq<CallRecord> := [];
      for i := 0 to |calls|
        invariant appCalls == old(appCalls)
        invariant records == Recorded(execution, user, calls[..i])
      {
        assert calls[..i + 1][..i] == calls[..i];
        var app := FamilyOf(calls[i].name);
        if app.Some? {
          records := records + [CallRecord(execution, user, app.value, calls[i])];
        }
      }
      assert calls[..|calls|] == calls;
      appCalls := appCalls + records;
    }

    method Reschedule(id: int, now: nat)
      requires id in triggers
      modifies this`triggers
      ensures triggers == old(triggers)[id := Rescheduled(old(triggers[id]), now)]
    {
      hide ParseTime, FormatTime, Advanced;
      var t := triggers[id];
      var prev := now;
      match ParseTime(t.nextRunAt) {
        case Ok(p) => prev := p;
        case Err(_) =>
      }
      var interval := 0;
      if t.interval.Some? {
        interval := t.interval.value;
      }
      var next := AdvancePastNow(prev, now, t.kind, interval, t.daily);
      if next.Err? {
        triggers := triggers[id := t.(enabled := false)];
        return;
      }
      triggers := triggers[id := t.(lastRunAt := FormatTime(now), nextRunAt := FormatTime(next.value))];
    }

    method SetEnabled(id: int, enabled: bool)
      modifies this`triggers
      ensures triggers == Switched(old(triggers), id, enabled)
    {
      if id in triggers {
        triggers := triggers[id := triggers[id].(enabled := enabled)];
      }
    }
  }

  function Switched(ts: Triggers, id: int, enabled: bool): Triggers {
    if id in ts then ts[id := ts[id].(enabled := enabled)] else ts
  }

  // ------------------------------------------------------------------ what a tick records

  /** A tick leaves the key-value log of a project alone unless it fires a trigger of that project. */
  lemma {:induction false} OtherProjectsKeepTheirLog(
      ts: Triggers, ids: seq<int>, now: nat, env: Environment, log: Records, q: int, key: ByteString)
    requires forall i :: 0 <= i < |ids| && ids[i] in ts ==> ts[ids[i]].projectId != q
    ensures ValueOf(RunsOf(ts, ids, now, env, log).kv, q, key) == ValueOf(log.kv, q, key)
    decreases |ids|
  {
    hide Written;
    if ids != [] {
      var n := |ids| - 1;
      OtherProjectsKeepTheirLog(ts, ids[..n], now, env, log, q, key);
      if ids[n] in ts && ids[n] in env.sources {
        var before, project := RunsOf(ts, ids[..n], now, env, log), ts[ids[n]].projectId;
        var result := env.engine(ids[n], env.sources[ids[n]], ActorOf(env, project));
        WrittenValue(before.kv, project, match result.trace case Some(t) => KvTrace.Extracted(t, map[]) case None => map[], q, key);
      }
    }
  }

  /** Every app-call record of every tick belongs to an execution, carries its user and is of mail or HTTP. */
  lemma {:induction false} TicksKeepAttribution(ts: Triggers, ids: seq<int>, now: nat, env: Environment, log: Records)
    requires AllAttributed(log)
    ensures AllAttributed(RunsOf(ts, ids, now, env, log))
    decreases |ids|
  {
    hide Fired, AllAttributed;
    if ids != [] {
      var n := |ids| - 1;
      TicksKeepAttribution(ts, ids[..n], now, env, log);
      if ids[n] in ts {
        FiringKeepsAttribution(RunsOf(ts, ids[..n], now, env, log), ids[n], ts[ids[n]].projectId, now, env);
      }
    }
  }

  // ------------------------------------------------------------------ the due test

  /** For triggers whose stored time is a formatted instant, the text comparison selects exactly
      the enabled ones due at the whole second of now. */
  lemma DueExactly(ts: Triggers, times: map<int, nat>, now: nat)
    requires now < EndOfFourDigitYears() && times.Keys == ts.Keys
    requires forall id <- ts :: times[id] < EndOfFourDigitYears() && ts[id].nextRunAt == FormatTime(times[id])
    ensures DueIds(ts, now) == set id | id in ts && ts[id].enabled && times[id] / NANOS_PER_SECOND <= now / NANOS_PER_SECOND
  {
    forall id | id in ts
      ensures Due(ts[id], FormatTime(now)) <==> ts[id].enabled && times[id] / NANOS_PER_SECOND <= now / NANOS_PER_SECOND
    {
      TextOrderIsTimeOrder(times[id], now);
    }
  }

  // ------------------------------------------------------------------ histories

  datatype Event = Tick(now: nat) | Switch(id: int, enabled: bool)

  function Step(ts: Triggers, e: Event): Triggers {
    match e
    case Tick(now) => Ticked(ts, now)
    case Switch(id, enabled) => Switched(ts, id, enabled)
  }

  function After(ts: Triggers, run: seq<Event>): Triggers {
    if run == [] then ts else After(Step(ts, run[0]), run[1..])
  }

  // The instants at which a trigger fired.
  function Firings(ts: Triggers, run: seq<Event>, id: int): seq<nat> {
    if run == [] then []
    else
      (if run[0].Tick? && id in DueIds(ts, run[0].now) then [run[0].now] else [])
      + Firings(Step(ts, run[0]), run[1..], id)
  }

  // ------------------------------------------------------------------ pauses and resumes

  lemma StaysPaused(ts: Triggers, e: Event, id: int)
    requires id in ts && !ts[id].enabled && e != Switch(id, true)
    ensures id in Step(ts, e) && !Step(ts, e)[id].enabled && (e.Tick? ==> id !in DueIds(ts, e.now))
  {
    hide Rescheduled, TextLeq, FormatTime;
  }

  lemma {:induction false} PausedNeverFires(ts: Triggers, run: seq<Event>, id: int)
    requires id in ts && !ts[id].enabled && Switch(id, true) !in run
    ensures Firings(ts, run, id) == []
    decreases |run|
  {
    hide DueIds, Step;
    if run != [] {
      StaysPaused(ts, run[0], id);
      assert run[0] in run && forall e <- run[1..] :: e in run;
      PausedNeverFires(Step(ts, run[0]), run[1..], id);
    }
  }

  /** A paused trigger does not fire until it is resumed, whatever ticks and switches of other
      triggers follow. */
  lemma PauseStopsFiring(ts: Triggers, run: seq<Event>, id: int)
    requires id in ts && Switch(id, true) !in run
    ensures Firings(Step(ts, Switch(id, false)), run, id) == []
  {
    PausedNeverFires(Step(ts, Switch(id, false)), run, id);
  }

  // No tick at or after the second p, and no pause of the trigger.
  ghost predicate Waits(run: seq<Event>, id: int, p: nat) {
    && Switch(id, false) !in run
    && forall e <- run :: e.Tick? ==> e.now / NANOS_PER_SECOND < p / NANOS_PER_SECOND && e.now < EndOfFourDigitYears()
  }

  lemma WaitingStep(ts: Triggers, e: Event, id: int, p: nat)
    requires id in ts && ts[id].enabled && ts[id].nextRunAt == FormatTime(p) && p < EndOfFourDigitYears()
    requires e != Switch(id, false)
    requires e.Tick? ==> e.now / NANOS_PER_SECOND < p / NANOS_PER_SECOND && e.now < EndOfFourDigitYears()
    ensures id in Step(ts, e) && Step(ts, e)[id] == ts[id]
    ensures e.Tick? ==> id !in DueIds(ts, e.now)
  {
    hide Rescheduled, TextLeq, FormatTime, EndOfFourDigitYears;
    if e.Tick? {
      TextOrderIsTimeOrder(p, e.now);
    }
  }

  lemma {:induction false} FiresWhenDue(ts: Triggers, run: seq<Event>, id: int, p: nat, now: nat)
    requires id in ts && ts[id].enabled && ts[id].nextRunAt == FormatTime(p) && p < EndOfFourDigitYears()
    requires Waits(run, id, p) && p / NANOS_PER_SECOND <= now / NANOS_PER_SECOND && now < EndOfFourDigitYears()
    ensures Firings(ts, run + [Tick(now)], id) == [now]
    decreases |run|
  {
    hide Step, FormatTime, EndOfFourDigitYears, DueIds;
    var all := run + [Tick(now)];
    if run == [] {
      DueNow(ts, id, p, now);
      assert all[1..] == [] && all[0] == Tick(now);
      assert Firings(Step(ts, all[0]), all[1..], id) == [];
    } else {
      assert run[0] in run && forall e <- run[1..] :: e in run;
      WaitingStep(ts, run[0], id, p);
      assert all[1..] == run[1..] + [Tick(now)] && all[0] == run[0];
      FiresWhenDue(Step(ts, run[0]), run[1..], id, p, now);
    }
  }

  lemma DueNow(ts: Triggers, id: int, p: nat, now: nat)
    requires id in ts && ts[id].enabled && ts[id].nextRunAt == FormatTime(p) && p < EndOfFourDigitYears()
    requires p / NANOS_PER_SECOND <= now / NANOS_PER_SECOND && now < EndOfFourDigitYears()
    ensures id in DueIds(ts, now)
  {
    hide TextLeq, FormatTime, EndOfFourDigitYears;
    TextOrderIsTimeOrder(p, now);
  }

  /** A resumed trigger fires at the first tick that finds its stored second passed, and not before,
      when it is not paused again. */
  lemma ResumeStartsFiring(ts: Triggers, run: seq<Event>, id: int, p: nat, now: nat)
    requires id in ts && ts[id].nextRunAt == FormatTime(p) && p < EndOfFourDigitYears()
    requires Waits(run, id, p) && p / NANOS_PER_SECOND <= now / NANOS_PER_SECOND && now < EndOfFourDigitYears()
    ensures Firings(Step(ts, Switch(id, true)), run + [Tick(now)], id) == [now]
  {
    hide FormatTime, EndOfFourDigitYears, Waits, Firings;
    FiresWhenDue(Step(ts, Switch(id, true)), run, id, p, now);
  }

  /** A switch touches its own trigger, and of that nothing but the flag. */
  lemma SwitchIsExact(ts: Triggers, id: int, enabled: bool, other: int)
    ensures var after := Step(ts, Switch(id, enabled));
            && after.Keys == ts.Keys
            && (other in ts ==>
                  && (after[other].enabled <==> if other == id then enabled else ts[other].enabled)
                  && after[other].(enabled := true) == ts[other].(enabled := true))
  {}

  lemma BrokenStep(ts: Triggers, e: Event, id: int)
    requires id in ts && !Schedulable(ts[id].kind, SecondsOf(ts[id]), ts[id].daily)
    ensures id in Step(ts, e)
    ensures !Schedulable(Step(ts, e)[id].kind, SecondsOf(Step(ts, e)[id]), Step(ts, e)[id].daily)
    ensures e.Tick? && id in DueIds(ts, e.now) ==> !Step(ts, e)[id].enabled
  {
    hide Advanced, TextLeq, FormatTime, ParseTime, Schedulable;
    var t := ts[id];
    if e.Tick? && id in DueIds(ts, e.now) {
      var prev := match ParseTime(t.nextRunAt) case Ok(p) => p case Err(_) => e.now;
      WhatCanBeScheduled(prev, e.now, t.kind, SecondsOf(t), t.daily);
      assert Step(ts, e)[id] == t.(enabled := false);
    }
    assert Step(ts, e)[id].kind == t.kind && Step(ts, e)[id].interval == t.interval && Step(ts, e)[id].daily == t.daily;
  }

  /** A trigger whose schedule makes no sense fires at most once before somebody resumes it. */
  lemma {:induction false} BrokenTriggersFireOnce(ts: Triggers, run: seq<Event>, id: int)
    requires id in ts && !Schedulable(ts[id].kind, SecondsOf(ts[id]), ts[id].daily) && Switch(id, true) !in run
    ensures |Firings(ts, run, id)| <= 1
    decreases |run|
  {
    hide DueIds, Step, Schedulable;
    if run != [] {
      BrokenStep(ts, run[0], id);
      assert run[0] in run && forall e <- run[1..] :: e in run;
      if run[0].Tick? && id in DueIds(ts, run[0].now) {
        PausedNeverFires(Step(ts, run[0]), run[1..], id);
      } else {
        BrokenTriggersFireOnce(Step(ts, run[0]), run[1..], id);
      }
    }
  }

  // ------------------------------------------------------------------ triggers on a schedule

  predicate IsInterval(t: Trigger, step: nat) {
    t.kind == "interval" && t.interval.Some? && t.interval.value > 0 && step == t.interval.value * NANOS_PER_SECOND
  }

  predicate IsDaily(t: Trigger, step: nat, p: nat) {
    && t.kind == "daily" && step == NANOS_PER_DAY
    && match ParseHHMM(t.daily)
       case Ok((hour, minute)) => p % NANOS_PER_DAY == (hour * 3600 + minute * 60) * NANOS_PER_SECOND
       case Err(_) => false
  }

  // A trigger with points `step` apart, of which p is the stored one. The points of a daily
  // trigger are a day apart.
  ghost predicate OnSchedule(ts: Triggers, id: int, step: nat, p: nat) {
    && id in ts && step > 0
    && (IsInterval(ts[id], step) || IsDaily(ts[id], step, p))
    && p % NANOS_PER_SECOND == 0 && p < EndOfFourDigitYears()
    && ts[id].nextRunAt == FormatTime(p)
  }

  // Every tick leaves room for one more point before the year 10000.
  ghost predicate InRange(run: seq<Event>, step: nat) {
    forall e <- run :: e.Tick? ==> e.now + step < EndOfFourDigitYears()
  }

  function NextPoint(ts: Triggers, id: int, e: Event, step: nat, p: nat): nat
    requires step > 0
  {
    if e.Tick? && id in DueIds(ts, e.now) then PointPast(p, step, e.now) else p
  }

  lemma DailyIsEveryDay(p: nat, now: nat, hour: nat, minute: nat)
    requires hour < 24 && minute < 60 && p <= now
    requires p % NANOS_PER_DAY == (hour * 3600 + minute * 60) * NANOS_PER_SECOND
    ensures DailyRun(now, hour, minute) == PointPast(p, NANOS_PER_DAY, now)
  {
    var offset := (hour * 3600 + minute * 60) * NANOS_PER_SECOND;
    var d := p / NANOS_PER_DAY;
    assert p == d * NANOS_PER_DAY + offset;
    var q := (now - p) / NANOS_PER_DAY;
  }

  lemma DailyNext(t: Trigger, prev: nat, now: nat, p: nat)
    requires IsDaily(t, NANOS_PER_DAY, p) && p <= now
    ensures Advanced(prev, now, t.kind, SecondsOf(t), t.daily)
         == Ok(PointPast(p, NANOS_PER_DAY, now))
    ensures IsDaily(t, NANOS_PER_DAY, PointPast(p, NANOS_PER_DAY, now))
  {
    hide CivilOf, PointPast, TodayAt;
    var (hour, minute) := ParseHHMM(t.daily).value;
    TodayByTheClock(now, hour, minute);
    DailyIsEveryDay(p, now, hour, minute);
    DailyRunIsNext(now, hour, minute, 0);
  }

  // One firing moves the stored time to the next point.
  lemma FiringMovesOn(t: Trigger, step: nat, p: nat, now: nat)
    requires step > 0 && (IsInterval(t, step) || IsDaily(t, step, p))
    requires p % NANOS_PER_SECOND == 0 && p < EndOfFourDigitYears() && p <= now
    requires t.nextRunAt == FormatTime(p)
    ensures var next := PointPast(p, step, now);
            && Rescheduled(t, now) == t.(lastRunAt := FormatTime(now), nextRunAt := FormatTime(next))
            && next % NANOS_PER_SECOND == 0
            && (IsInterval(t, step) || IsDaily(t, step, next))
  {
    hide PointPast, ParseTime, FormatTime, EndOfFourDigitYears, NextRun;
    FormatThenParse(p);
    assert p / NANOS_PER_SECOND * NANOS_PER_SECOND == p;
    if IsInterval(t, step) {
      PointStaysWhole(p, t.interval.value, now);
    } else {
      DailyNext(t, p, now, p);
      WholeSecondOfDay(PointPast(p, step, now));
      WholeSecondOfDay(p);
      DayIsWholeSeconds(p, PointPast(p, step, now));
    }
  }

  lemma WholeSecondOfDay(p: nat)
    ensures p % NANOS_PER_SECOND == p % NANOS_PER_DAY % NANOS_PER_SECOND
  {}

  lemma DayIsWholeSeconds(p: nat, q: nat)
    requires p % NANOS_PER_DAY % NANOS_PER_SECOND == 0 && q % NANOS_PER_DAY == p % NANOS_PER_DAY
    ensures q % NANOS_PER_DAY % NANOS_PER_SECOND == 0
  {}

  lemma ScheduleStep(ts: Triggers, id: int, e: Event, step: nat, p: nat)
    requires OnSchedule(ts, id, step, p) && (e.Tick? ==> e.now + step < EndOfFourDigitYears())
    ensures step > 0 && OnSchedule(Step(ts, e), id, step, NextPoint(ts, id, e, step, p))
    ensures e.Tick? && id in DueIds(ts, e.now) ==> p <= e.now
  {
    hide PointPast, Rescheduled, FormatTime, EndOfFourDigitYears, ParseHHMM, TextLeq;
    if e.Tick? && id in DueIds(ts, e.now) {
      TextOrderIsTimeOrder(p, e.now);
      assert p <= e.now;
      FiringMovesOn(ts[id], step, p, e.now);
      PointStaysClose(p, step, e.now);
      assert Step(ts, e)[id] == Rescheduled(ts[id], e.now);
    }
  }

  lemma PointStaysClose(p: nat, step: nat, now: nat)
    requires step > 0 && p <= now
    ensures now < PointPast(p, step, now) <= now + step
  {
    var q := (now - p) / step;
    assert q * step <= now - p < q * step + step;
    assert (q + 1) * step == q * step + step;
  }

  lemma PointStaysWhole(p: nat, n: nat, now: nat)
    requires n > 0 && p % NANOS_PER_SECOND == 0 && p <= now
    ensures PointPast(p, n * NANOS_PER_SECOND, now) % NANOS_PER_SECOND == 0
  {
    var step := n * NANOS_PER_SECOND;
    var k := (now - p) / step + 1;
    assert k * step == k * n * NANOS_PER_SECOND;
    assert (p + k * n * NANOS_PER_SECOND) % NANOS_PER_SECOND == 0;
  }

  // Firing times against the schedule: each firing is at or after the pending point, and the
  // next pending point is the least one after the firing.
  ghost predicate FollowsSchedule(firings: seq<nat>, p: nat, step: nat)
    requires step > 0
  {
    firings == [] || (p <= firings[0] && FollowsSchedule(firings[1..], PointPast(p, step, firings[0]), step))
  }

  lemma FollowsAfter(now: nat, rest: seq<nat>, p: nat, step: nat)
    requires step > 0 && p <= now && FollowsSchedule(rest, PointPast(p, step, now), step)
    ensures FollowsSchedule([now] + rest, p, step)
  {
    assert ([now] + rest)[1..] == rest;
  }

  lemma {:induction false} RunFollowsSchedule(ts: Triggers, run: seq<Event>, id: int, step: nat, p: nat)
    requires OnSchedule(ts, id, step, p) && InRange(run, step)
    ensures step > 0 && FollowsSchedule(Firings(ts, run, id), p, step)
    decreases |run|
  {
    if run == [] {
      ScheduleStep(ts, id, Switch(id, true), step, p);
    } else {
      var e := run[0];
      ScheduleStep(ts, id, e, step, p);
      var q := NextPoint(ts, id, e, step, p);
      RunFollowsSchedule(Step(ts, e), run[1..], id, step, q);
      var rest := Firings(Step(ts, e), run[1..], id);
      if e.Tick? && id in DueIds(ts, e.now) {
        FollowsAfter(e.now, rest, p, step);
      } else {
        assert Firings(ts, run, id) == rest;
      }
    }
  }

  /** Whatever ticks, pauses and resumes happen, the stored next run keeps its residue modulo the
      interval and never moves back. */
  lemma {:induction false} PhaseIsKept(ts: Triggers, run: seq<Event>, id: int, step: nat, p: nat)
    requires OnSchedule(ts, id, step, p) && InRange(run, step)
    ensures exists i :: OnSchedule(After(ts, run), id, step, Point(p, step, i))
    decreases |run|
  {
    if run == [] {
      assert Point(p, step, 0) == p;
    } else {
      ScheduleStep(ts, id, run[0], step, p);
      var q := NextPoint(ts, id, run[0], step, p);
      var k := NextPointIsOnSchedule(ts, id, run[0], step, p);
      PhaseIsKept(Step(ts, run[0]), run[1..], id, step, q);
      var i: nat :| OnSchedule(After(Step(ts, run[0]), run[1..]), id, step, Point(q, step, i));
      PointsCompose(p, step, k, i);
      assert OnSchedule(After(ts, run), id, step, Point(p, step, k + i));
    }
  }

  lemma NextPointIsOnSchedule(ts: Triggers, id: int, e: Event, step: nat, p: nat) returns (k: nat)
    requires step > 0
    ensures NextPoint(ts, id, e, step, p) == Point(p, step, k)
  {
    hide DueIds;
    k := if e.Tick? && id in DueIds(ts, e.now) && p <= e.now then (e.now - p) / step + 1 else 0;
  }

  lemma PointsCompose(p: nat, step: nat, k: nat, i: nat)
    ensures Point(Point(p, step, k), step, i) == Point(p, step, k + i)
  {}

  lemma {:induction false} BetweenFirings(firings: seq<nat>, p: nat, step: nat, i: nat)
    requires step > 0 && FollowsSchedule(firings, p, step) && i + 1 < |firings|
    ensures exists k :: firings[i] < Point(p, step, k) <= firings[i + 1]
  {
    var q := PointPast(p, step, firings[0]);
    PointStaysClose(p, step, firings[0]);
    var k := (firings[0] - p) / step + 1;
    assert q == Point(p, step, k);
    if i == 0 {
      assert firings[1..][0] == firings[1];
    } else {
      BetweenFirings(firings[1..], q, step, i - 1);
      var j: nat :| firings[i] < Point(q, step, j) <= firings[i + 1];
      assert Point(q, step, j) == Point(p, step, k + j);
    }
  }

  /** Two consecutive firings always have a schedule point after the first and not after the second. */
  lemma SchedulePointBetweenFirings(ts: Triggers, run: seq<Event>, id: int, step: nat, p: nat, i: nat)
    requires OnSchedule(ts, id, step, p) && InRange(run, step) && i + 1 < |Firings(ts, run, id)|
    ensures exists k :: Firings(ts, run, id)[i] < Point(p, step, k) <= Firings(ts, run, id)[i + 1]
  {
    RunFollowsSchedule(ts, run, id, step, p);
    BetweenFirings(Firings(ts, run, id), p, step, i);
  }

  /** The stored last run is the instant of the last firing. */
  lemma {:induction false} LastRunIsLastFiring(ts: Triggers, run: seq<Event>, id: int, step: nat, p: nat)
    requires OnSchedule(ts, id, step, p) && InRange(run, step)
    ensures id in After(ts, run)
    ensures var firings := Firings(ts, run, id);
            After(ts, run)[id].lastRunAt
              == if firings == [] then ts[id].lastRunAt else FormatTime(firings[|firings| - 1])
    decreases |run|
  {
    hide Step, FormatTime, OnSchedule, DueIds;
    if run == [] {
      OnScheduleIsThere(ts, id, step, p);
    } else {
      OnScheduleIsThere(ts, id, step, p);
      ScheduleStep(ts, id, run[0], step, p);
      LastRunStep(ts, id, run[0], step, p);
      LastRunIsLastFiring(Step(ts, run[0]), run[1..], id, step, NextPoint(ts, id, run[0], step, p));
    }
  }

  lemma OnScheduleIsThere(ts: Triggers, id: int, step: nat, p: nat)
    requires OnSchedule(ts, id, step, p)
    ensures id in ts && step > 0
  {}

  lemma LastRunStep(ts: Triggers, id: int, e: Event, step: nat, p: nat)
    requires OnSchedule(ts, id, step, p) && (e.Tick? ==> e.now + step < EndOfFourDigitYears())
    ensures id in Step(ts, e)
    ensures Step(ts, e)[id].lastRunAt
         == if e.Tick? && id in DueIds(ts, e.now) then FormatTime(e.now) else ts[id].lastRunAt
  {
    hide PointPast, Rescheduled, FormatTime, EndOfFourDigitYears, ParseHHMM, TextLeq;
    ScheduleStep(ts, id, e, step, p);
    if e.Tick? && id in DueIds(ts, e.now) {
      FiringMovesOn(ts[id], step, p, e.now);
    }
  }

  /** A trigger whose stored time cannot be read starts over from the tick that fires it. */
  lemma UnreadableTimeStartsOver(t: Trigger, now: nat, seconds: int)
    requires ParseTime(t.nextRunAt).Err? && t.kind == "interval" && t.interval == Some(seconds) && seconds > 0
    ensures Rescheduled(t, now) == t.(lastRunAt := FormatTime(now), nextRunAt := FormatTime(now + seconds * 1_000_000_000))
  {
    hide ParseTime, FormatTime;
    assert PointPast(now, seconds * NANOS_PER_SECOND, now) == now + seconds * NANOS_PER_SECOND;
  }

  function CountIn(firings: seq<nat>, from: int, to: int): nat {
    if firings == [] then 0
    else (if from <= firings[0] <= to then 1 else 0) + CountIn(firings[1..], from, to)
  }

  lemma {:induction false} CountNeedsPoints(firings: seq<nat>, p: nat, step: nat, from: int, to: int)
    requires step > 0 && FollowsSchedule(firings, p, step)
    ensures var c := CountIn(firings, from, to); c > 0 ==> p + (c - 1) * step <= to
  {
    if firings != [] {
      var q := PointPast(p, step, firings[0]);
      PointStaysClose(p, step, firings[0]);
      NextPointIsOneStepOn(p, step, firings[0]);
      CountNeedsPoints(firings[1..], q, step, from, to);
      var c' := CountIn(firings[1..], from, to);
      assert c' > 0 ==> c' * step == (c' - 1) * step + step;
    }
  }

  lemma NextPointIsOneStepOn(p: nat, step: nat, now: nat)
    requires step > 0 && p <= now
    ensures PointPast(p, step, now) >= p + step
  {
    var q := (now - p) / step;
    assert (q + 1) * step == q * step + step;
  }

  lemma {:induction false} CountInWindow(firings: seq<nat>, p: nat, step: nat, from: int, to: int)
    requires step > 0 && FollowsSchedule(firings, p, step) && from <= to
    ensures var c := CountIn(firings, from, to); c >= 2 ==> (c - 2) * step < to - from
  {
    if firings != [] {
      var q := PointPast(p, step, firings[0]);
      PointStaysClose(p, step, firings[0]);
      if from <= firings[0] <= to {
        CountNeedsPoints(firings[1..], q, step, from, to);
      } else {
        CountInWindow(firings[1..], q, step, from, to);
      }
    }
  }

  function CeilDiv(a: nat, b: nat): nat
    requires b > 0
  {
    (a + b - 1) / b
  }

  lemma CountIsBounded(firings: seq<nat>, p: nat, step: nat, from: int, to: int)
    requires step > 0 && FollowsSchedule(firings, p, step) && from <= to
    ensures CountIn(firings, from, to) <= CeilDiv(to - from, step) + 1
  {
    CountInWindow(firings, p, step, from, to);
    if CountIn(firings, from, to) >= 2 {
      CountToCeiling(CountIn(firings, from, to), step, to - from);
    }
  }

  /** A window of length W holds at most ceil(W / step) + 1 firings of a trigger, in every history. */
  lemma FiringsAreBounded(ts: Triggers, run: seq<Event>, id: int, step: nat, p: nat, from: int, to: int)
    requires OnSchedule(ts, id, step, p) && InRange(run, step) && from <= to
    ensures step > 0 && CountIn(Firings(ts, run, id), from, to) <= CeilDiv(to - from, step) + 1
  {
    RunFollowsSchedule(ts, run, id, step, p);
    CountIsBounded(Firings(ts, run, id), p, step, from, to);
  }

  /** Between two firings of a daily trigger the clock has read its HH:MM:00. */
  lemma DailyInstantBetweenFirings(ts: Triggers, run: seq<Event>, id: int, p: nat, i: nat, hour: nat, minute: nat)
    requires OnSchedule(ts, id, NANOS_PER_DAY, p) && IsDaily(ts[id], NANOS_PER_DAY, p) && InRange(run, NANOS_PER_DAY)
    requires ParseHHMM(ts[id].daily) == Ok((hour, minute)) && i + 1 < |Firings(ts, run, id)|
    ensures exists t: nat :: Firings(ts, run, id)[i] < t <= Firings(ts, run, id)[i + 1] && IsDailyInstant(t, hour, minute)
  {
    hide IsDailyInstant, Firings, OnSchedule;
    SchedulePointBetweenFirings(ts, run, id, NANOS_PER_DAY, p, i);
    var k :| Firings(ts, run, id)[i] < Point(p, NANOS_PER_DAY, k) <= Firings(ts, run, id)[i + 1];
    var t := Point(p, NANOS_PER_DAY, k);
    assert t % NANOS_PER_DAY == p % NANOS_PER_DAY;
    DailyInstants(t, hour, minute);
  }

  /** No 24 hours hold more than two firings of a daily trigger. */
  lemma DailyFiresAtMostTwiceADay(ts: Triggers, run: seq<Event>, id: int, p: nat, from: int)
    requires OnSchedule(ts, id, NANOS_PER_DAY, p) && IsDaily(ts[id], NANOS_PER_DAY, p) && InRange(run, NANOS_PER_DAY)
    ensures CountIn(Firings(ts, run, id), from, from + NANOS_PER_DAY) <= 2
  {
    FiringsAreBounded(ts, run, id, NANOS_PER_DAY, p, from, from + NANOS_PER_DAY);
  }

  lemma CountToCeiling(c: nat, step: nat, w: nat)
    requires step > 0 && c >= 2 && (c - 2) * step < w
    ensures c <= CeilDiv(w, step) + 1
  {
    var q := CeilDiv(w, step);
    assert w <= q * step;
    assert c - 2 >= q ==> (c - 2) * step >= q * step;
  }
}
