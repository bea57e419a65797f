/** The per-client token bucket of server/ratelimit.go.

    Times are integer nanoseconds, token counts are reals. The clock is read while
    the limiter's lock is held, so the calls of one run see a nondecreasing clock. */
module RateLimiter {
  import opened Durations

  datatype Config = Config(perMinute: int, burst: int, idle: int) {
    // The settings form only stores positive rates and bursts; idle is a constant of the server.
    predicate Valid() {
      perMinute > 0 && burst >= 0 && idle >= 0
    }

    function Rate(): real {
      perMinute as real / 60.0
    }

    // Tokens gained over a number of nanoseconds.
    function Refill(elapsed: int): real {
      elapsed as real / NANOS_PER_SECOND as real * Rate()
    }
  }

  datatype Bucket = Bucket(tokens: real, last: int)

  type Buckets = map<string, Bucket>

  datatype Verdict = Verdict(admitted: bool, wait: int)

  // What one access leaves in the bucket of its key before a token is taken.
  function Refreshed(c: Config, bs: Buckets, key: string, now: int): Bucket {
    if key !in bs then Bucket(c.burst as real, now)
    else
      var t := bs[key].tokens + c.Refill(now - bs[key].last);
      Bucket(if t > c.burst as real then c.burst as real else t, now)
  }

  function RetryDelay(c: Config, tokens: real): int
    requires c.perMinute > 0
  {
    var wait := ((1.0 - tokens) / c.Rate() * NANOS_PER_SECOND as real).Floor + NANOS_PER_SECOND;
    wait / NANOS_PER_SECOND * NANOS_PER_SECOND
  }

  function VerdictOf(c: Config, b: Bucket): Verdict
    requires c.perMinute > 0
  {
    if b.tokens >= 1.0 then Verdict(true, 0) else Verdict(false, RetryDelay(c, b.tokens))
  }

  function Taken(b: Bucket): Bucket {
    if b.tokens >= 1.0 then Bucket(b.tokens - 1.0, b.last) else b
  }

  function Allowed(c: Config, bs: Buckets, key: string, now: int): Buckets {
    bs[key := Taken(Refreshed(c, bs, key, now))]
  }

  function Swept(c: Config, bs: Buckets, now: int): Buckets {
    map k | k in bs && !(bs[k].last < now - c.idle) :: bs[k]
  }

  class Limiter {
    const config: Config
    var buckets: Buckets

    constructor (perMinute: int, burst: int, idle: int)
      ensures config == Config(perMinute, burst, idle) && buckets == map[]
    {
      config := Config(perMinute, burst, idle);
      buckets := map[];
    }

    method Allow(key: string, now: int) returns (admitted: bool, wait: int)
      requires config.Valid()
      modifies this
      ensures Verdict(admitted, wait) == VerdictOf(config, Refreshed(config, old(buckets), key, now))
      ensures buckets == Allowed(config, old(buckets), key, now)
    {
      var b: Bucket;
      if key !in buckets {
        b := Bucket(config.burst as real, now);
      } else {
        b := buckets[key];
        b := b.(tokens := b.tokens + config.Refill(now - b.last));
        if b.tokens > config.burst as real {
          b := b.(tokens := config.burst as real);
        }
        b := b.(last := now);
      }
      buckets := buckets[key := b];
      if b.tokens >= 1.0 {
        buckets := buckets[key := b.(tokens := b.tokens - 1.0)];
        return true, 0;
      }
      wait := ((1.0 - b.tokens) / config.Rate() * NANOS_PER_SECOND as real).Floor + NANOS_PER_SECOND;
      return false, wait / NANOS_PER_SECOND * NANOS_PER_SECOND;
    }

    method Sweep(now: int)
      modifies this
      ensures buckets == Swept(config, old(buckets), now)
    {
      var cutoff := now - config.idle;
      var before := buckets;
      var todo := buckets.Keys;
      while todo != {}
        invariant todo <= before.Keys
        invariant buckets == map k | k in before && (k in todo || !(before[k].last < cutoff)) :: before[k]
        decreases todo
      {
        var k :| k in todo;
        if buckets[k].last < cutoff {
          buckets := buckets - {k};
        }
        todo := todo - {k};
      }
    }
  }

  // ------------------------------------------------------------------ runs

  datatype Event = Call(key: string, now: int) | Sweep(now: int)

  datatype Outcome = Answered(verdict: Verdict) | Silent

  function StepOutcome(c: Config, bs: Buckets, e: Event): Outcome
    requires c.Valid()
  {
    match e
    case Call(k, now) => Answered(VerdictOf(c, Refreshed(c, bs, k, now)))
    case Sweep(_) => Silent
  }

  // One step of the limiter; with forget == false sweeps are ignored.
  function StepState(c: Config, bs: Buckets, e: Event, forget: bool): Buckets {
    match e
    case Call(k, now) => Allowed(c, bs, k, now)
    case Sweep(now) => if forget then Swept(c, bs, now) else bs
  }

  function Outcomes(c: Config, bs: Buckets, run: seq<Event>, forget: bool): (o: seq<Outcome>)
    requires c.Valid()
    ensures |o| == |run|
    decreases |run|
  {
    if run == [] then []
    else [StepOutcome(c, bs, run[0])] + Outcomes(c, StepState(c, bs, run[0], forget), run[1..], forget)
  }

  function Final(c: Config, bs: Buckets, run: seq<Event>, forget: bool): Buckets
    decreases |run|
  {
    if run == [] then bs else Final(c, StepState(c, bs, run[0], forget), run[1..], forget)
  }

  // The clock never runs backwards, starting from `from`.
  predicate Monotone(run: seq<Event>, from: int) {
    run == [] || (from <= run[0].now && Monotone(run[1..], run[0].now))
  }

  ghost predicate Sound(c: Config, bs: Buckets, now: int) {
    forall k <- bs :: 0.0 <= bs[k].tokens <= c.burst as real && bs[k].last <= now
  }

  // ------------------------------------------------------------------ refill arithmetic

  lemma RefillIsAdditive(c: Config, a: int, b: int)
    ensures c.Refill(a + b) == c.Refill(a) + c.Refill(b)
  {
    assert (a + b) as real == a as real + b as real;
  }

  lemma RefillIsMonotone(c: Config, a: int, b: int)
    requires c.Valid() && a <= b
    ensures c.Refill(a) <= c.Refill(b)
  {
    assert c.Rate() >= 0.0;
    var x, y := a as real / NANOS_PER_SECOND as real, b as real / NANOS_PER_SECOND as real;
    assert x <= y;
    assert (y - x) * c.Rate() >= 0.0;
  }

  lemma NoTimeNoRefill(c: Config)
    ensures c.Refill(0) == 0.0
  {}

  // A minute refills perMinute tokens, and any time its share of them.
  lemma RefillIsPerMinute(c: Config, ns: int)
    ensures c.Refill(ns) == c.perMinute as real * ns as real / 60_000_000_000.0
    ensures c.Refill(ns) * 60_000_000_000.0 == (c.perMinute * ns) as real
  {
    var p, x := c.perMinute as real, ns as real;
    assert x / 1_000_000_000.0 * (p / 60.0) == p * x / 60_000_000_000.0;
    assert p * x == (c.perMinute * ns) as real;
  }

  // The tokens a key would hold if it were accessed at time t.
  function Level(c: Config, bs: Buckets, key: string, t: int): real {
    Refreshed(c, bs, key, t).tokens
  }

  lemma LevelSplits(c: Config, bs: Buckets, key: string, t: int, u: int)
    requires c.Valid() && Sound(c, bs, t) && t <= u
    ensures 0.0 <= Level(c, bs, key, t) <= Level(c, bs, key, u) <= c.burst as real
    ensures Level(c, bs, key, u) <= Level(c, bs, key, t) + c.Refill(u - t)
    ensures Level(c, bs, key, u) == c.burst as real || Level(c, bs, key, u) == Level(c, bs, key, t) + c.Refill(u - t)
  {
    NoTimeNoRefill(c);
    RefillIsMonotone(c, 0, u - t);
    if key in bs {
      RefillIsAdditive(c, t - bs[key].last, u - t);
      RefillIsMonotone(c, 0, t - bs[key].last);
    }
  }

  lemma StepsStaySound(c: Config, bs: Buckets, e: Event, forget: bool)
    requires c.Valid() && Sound(c, bs, e.now)
    ensures Sound(c, StepState(c, bs, e, forget), e.now)
  {
    if e.Call? {
      LevelSplits(c, bs, e.key, e.now, e.now);
    }
  }

  // ------------------------------------------------------------------ forgetting is unobservable

  // A swept bucket has provably refilled by now.
  ghost predicate Agrees(c: Config, swept: Buckets, kept: Buckets, now: int) {
    && Sound(c, kept, now)
    && swept.Keys <= kept.Keys
    && (forall k <- swept :: swept[k] == kept[k])
    && (forall k <- kept :: k !in swept ==> Level(c, kept, k, now) == c.burst as real)
  }

  // The shortest time the sweeper calls idle is one nanosecond over the setting.
  predicate RefillsWhileIdle(c: Config) {
    c.perMinute * (c.idle + 1) >= c.burst * 60_000_000_000
  }

  lemma RefillsCompletely(c: Config)
    ensures RefillsWhileIdle(c) <==> c.Refill(c.idle + 1) >= c.burst as real
  {
    RefillIsPerMinute(c, c.idle + 1);
  }

  lemma AgreementSurvivesTime(c: Config, swept: Buckets, kept: Buckets, now: int, later: int)
    requires c.Valid() && Agrees(c, swept, kept, now) && now <= later
    ensures Agrees(c, swept, kept, later)
  {
    forall k | k in kept && k !in swept
      ensures Level(c, kept, k, later) == c.burst as real
    {
      LevelSplits(c, kept, k, now, later);
    }
  }

  lemma IdleIsFull(c: Config, bs: Buckets, key: string, now: int)
    requires c.Valid() && RefillsWhileIdle(c) && Sound(c, bs, now) && key in bs && bs[key].last < now - c.idle
    ensures Level(c, bs, key, now) == c.burst as real
  {
    RefillsCompletely(c);
    RefillIsMonotone(c, c.idle + 1, now - bs[key].last);
  }

  lemma AgreementSurvivesCall(c: Config, swept: Buckets, kept: Buckets, key: string, now: int)
    requires c.Valid() && Agrees(c, swept, kept, now)
    ensures Refreshed(c, swept, key, now) == Refreshed(c, kept, key, now)
    ensures Agrees(c, Allowed(c, swept, key, now), Allowed(c, kept, key, now), now)
  {
    hide Config.Refill;
    StepsStaySound(c, kept, Call(key, now), false);
    assert Refreshed(c, swept, key, now) == Refreshed(c, kept, key, now);
  }

  lemma AgreementSurvivesSweep(c: Config, swept: Buckets, kept: Buckets, now: int)
    requires c.Valid() && RefillsWhileIdle(c) && Agrees(c, swept, kept, now)
    ensures Agrees(c, Swept(c, swept, now), kept, now)
  {
    hide Level, RefillsWhileIdle;
    forall k | k in swept && swept[k].last < now - c.idle
      ensures Level(c, kept, k, now) == c.burst as real
    {
      IdleIsFull(c, kept, k, now);
    }
  }

  lemma AgreementSurvivesStep(c: Config, swept: Buckets, kept: Buckets, e: Event)
    requires c.Valid() && RefillsWhileIdle(c) && Agrees(c, swept, kept, e.now)
    ensures StepOutcome(c, swept, e) == StepOutcome(c, kept, e)
    ensures Agrees(c, StepState(c, swept, e, true), StepState(c, kept, e, false), e.now)
  {
    hide Agrees, Swept, Allowed, Refreshed, VerdictOf;
    match e
    case Call(k, now) =>
      AgreementSurvivesCall(c, swept, kept, k, now);
    case Sweep(now) =>
      AgreementSurvivesSweep(c, swept, kept, now);
  }

  lemma {:induction false} ForgettingAgrees(c: Config, swept: Buckets, kept: Buckets, run: seq<Event>, now: int)
    requires c.Valid() && RefillsWhileIdle(c) && Monotone(run, now) && Agrees(c, swept, kept, now)
    ensures Outcomes(c, swept, run, true) == Outcomes(c, kept, run, false)
    decreases |run|
  {
    if run != [] {
      AgreementSurvivesTime(c, swept, kept, now, run[0].now);
      AgreementSurvivesStep(c, swept, kept, run[0]);
      ForgettingAgrees(c, StepState(c, swept, run[0], true), StepState(c, kept, run[0], false), run[1..], run[0].now);
    }
  }

  // ------------------------------------------------------------------ ... and only under that condition

  function Repeat(e: Event, n: nat): (r: seq<Event>)
    ensures |r| == n
  {
    if n == 0 then [] else [e] + Repeat(e, n - 1)
  }

  lemma {:induction false} RunsConcatenate(c: Config, bs: Buckets, r1: seq<Event>, r2: seq<Event>, forget: bool)
    requires c.Valid()
    ensures Outcomes(c, bs, r1 + r2, forget) == Outcomes(c, bs, r1, forget) + Outcomes(c, Final(c, bs, r1, forget), r2, forget)
    ensures Final(c, bs, r1 + r2, forget) == Final(c, Final(c, bs, r1, forget), r2, forget)
    decreases |r1|
  {
    if r1 == [] {
      assert r1 + r2 == r2;
    } else {
      assert (r1 + r2)[1..] == r1[1..] + r2;
      RunsConcatenate(c, StepState(c, bs, r1[0], forget), r1[1..], r2, forget);
    }
  }

  // n simultaneous calls: a full bucket pays for exactly `burst` of them, any other runs dry early.
  lemma OneStep(c: Config, bs: Buckets, e: Event, forget: bool)
    requires c.Valid()
    ensures Final(c, bs, [e], forget) == StepState(c, bs, e, forget)
    ensures Outcomes(c, bs, [e], forget) == [StepOutcome(c, bs, e)]
  {
    hide StepState, StepOutcome;
    assert [e][1..] == [];
    assert Final(c, StepState(c, bs, e, forget), [], forget) == StepState(c, bs, e, forget);
  }

  // A call takes a whole token when there is one, and touches its own bucket only.
  lemma OneCall(c: Config, bs: Buckets, key: string, now: int, forget: bool)
    requires c.Valid() && Sound(c, bs, now)
    ensures var after, level := StepState(c, bs, Call(key, now), forget), Level(c, bs, key, now);
            && Sound(c, after, now)
            && (forall k :: k != key ==> (k in after <==> k in bs))
            && key in after && after[key].last == now
            && Level(c, after, key, now) == (if level >= 1.0 then level - 1.0 else level)
            && StepOutcome(c, bs, Call(key, now)) == Answered(VerdictOf(c, Refreshed(c, bs, key, now)))
            && (VerdictOf(c, Refreshed(c, bs, key, now)).admitted <==> level >= 1.0)
  {
    hide RetryDelay, Swept;
    StepsStaySound(c, bs, Call(key, now), forget);
    LevelSplits(c, bs, key, now, now);
    NoTimeNoRefill(c);
  }

  lemma {:induction false} Drain(c: Config, bs: Buckets, key: string, now: int, n: nat, forget: bool)
    requires c.Valid() && Sound(c, bs, now) && n <= c.burst
    ensures var after := Final(c, bs, Repeat(Call(key, now), n), forget);
            && Sound(c, after, now)
            && (forall k :: k != key ==> (k in after <==> k in bs))
            && (n > 0 ==> key in after && after[key].last == now)
            && (Level(c, bs, key, now) == c.burst as real ==> Level(c, after, key, now) == (c.burst - n) as real)
            && (Level(c, bs, key, now) < c.burst as real ==>
                  Level(c, after, key, now) < (c.burst - n) as real || Level(c, after, key, now) < 1.0)
  {
    if n > 0 {
      hide Final, StepState, StepOutcome, Level, Sound, Refreshed, VerdictOf;
      var r := Repeat(Call(key, now), n - 1);
      RepeatAtEnd(Call(key, now), n - 1);
      Drain(c, bs, key, now, n - 1, forget);
      RunsConcatenate(c, bs, r, [Call(key, now)], forget);
      var mid := Final(c, bs, r, forget);
      OneStep(c, mid, Call(key, now), forget);
      OneCall(c, mid, key, now, forget);
    }
  }

  lemma {:induction false} RepeatAtEnd(e: Event, n: nat)
    ensures Repeat(e, n + 1) == Repeat(e, n) + [e]
  {
    if n > 0 {
      RepeatAtEnd(e, n - 1);
    }
  }

  lemma {:induction false} RepeatIsMonotone(e: Event, n: nat, rest: seq<Event>)
    requires Monotone(rest, e.now)
    ensures Monotone(Repeat(e, n) + rest, e.now)
  {
    if n == 0 {
      assert Repeat(e, n) + rest == rest;
    } else {
      RepeatIsMonotone(e, n - 1, rest);
      assert (Repeat(e, n) + rest)[1..] == Repeat(e, n - 1) + rest;
    }
  }

  // The burst is spent, the sweeper runs one nanosecond past the idle time, and the burst is spent again.
  function Exposing(c: Config): seq<Event>
    requires c.Valid()
  {
    var t := c.idle + 1;
    Repeat(Call("client", 0), c.burst) + [Sweep(t)] + Repeat(Call("client", t), c.burst)
  }

  lemma ExposingIsMonotone(c: Config)
    requires c.Valid()
    ensures Monotone(Exposing(c), 0)
  {
    var t := c.idle + 1;
    var r1, s, r2 := Repeat(Call("client", 0), c.burst), [Sweep(t)], Repeat(Call("client", t), c.burst);
    RepeatIsMonotone(Call("client", t), c.burst, []);
    assert r2 + [] == r2;
    assert (s + r2)[1..] == r2;
    RepeatIsMonotone(Call("client", 0), c.burst, s + r2);
    assert Exposing(c) == r1 + (s + r2);
  }

  function AtSecondBurst(c: Config, forget: bool): Buckets
    requires c.Valid()
  {
    StepState(c, Final(c, map[], Repeat(Call("client", 0), c.burst), forget), Sweep(c.idle + 1), forget)
  }

  lemma SecondBurst(c: Config, forget: bool)
    requires c.Valid() && !RefillsWhileIdle(c)
    ensures c.burst > 0 && Sound(c, AtSecondBurst(c, forget), c.idle + 1)
    ensures Level(c, AtSecondBurst(c, forget), "client", c.idle + 1) == if forget then c.burst as real else c.Refill(c.idle + 1)
  {
    NoTimeNoRefill(c);
    RefillIsMonotone(c, 0, c.idle + 1);
    Drain(c, map[], "client", 0, c.burst, forget);
  }

  lemma OutcomesOfExposing(c: Config, forget: bool)
    requires c.Valid()
    ensures var spent := Repeat(Call("client", 0), c.burst) + [Sweep(c.idle + 1)];
            Outcomes(c, map[], Exposing(c), forget) == Outcomes(c, map[], spent, forget)
              + Outcomes(c, AtSecondBurst(c, forget), Repeat(Call("client", c.idle + 1), c.burst), forget)
  {
    var r1, s := Repeat(Call("client", 0), c.burst), [Sweep(c.idle + 1)];
    RunsConcatenate(c, map[], r1 + s, Repeat(Call("client", c.idle + 1), c.burst), forget);
    RunsConcatenate(c, map[], r1, s, forget);
  }

  lemma ExposingRun(c: Config)
    requires c.Valid() && !RefillsWhileIdle(c)
    ensures Outcomes(c, map[], Exposing(c), true) != Outcomes(c, map[], Exposing(c), false)
  {
    SecondBurst(c, true);
    SecondBurst(c, false);
    OutcomesOfExposing(c, true);
    OutcomesOfExposing(c, false);
    LastCallDiffers(c, AtSecondBurst(c, true), AtSecondBurst(c, false), c.idle + 1);
    var n := c.burst + 1;
    assert Outcomes(c, map[], Exposing(c), true)[n..] != Outcomes(c, map[], Exposing(c), false)[n..];
  }

  lemma LastCallDiffers(c: Config, full: Buckets, kept: Buckets, t: int)
    requires c.Valid() && c.burst > 0 && Sound(c, full, t) && Sound(c, kept, t)
    requires Level(c, full, "client", t) == c.burst as real > Level(c, kept, "client", t)
    ensures Outcomes(c, full, Repeat(Call("client", t), c.burst), true) != Outcomes(c, kept, Repeat(Call("client", t), c.burst), false)
  {
    hide Final, Outcomes, StepState, StepOutcome, Level, Sound, Refreshed, VerdictOf;
    var r := Repeat(Call("client", t), c.burst - 1);
    RepeatAtEnd(Call("client", t), c.burst - 1);
    Drain(c, full, "client", t, c.burst - 1, true);
    Drain(c, kept, "client", t, c.burst - 1, false);
    RunsConcatenate(c, full, r, [Call("client", t)], true);
    RunsConcatenate(c, kept, r, [Call("client", t)], false);
    var last := c.burst - 1;
    OneStep(c, Final(c, full, r, true), Call("client", t), true);
    OneStep(c, Final(c, kept, r, false), Call("client", t), false);
    OneCall(c, Final(c, full, r, true), "client", t, true);
    OneCall(c, Final(c, kept, r, false), "client", t, false);
    assert Outcomes(c, full, r + [Call("client", t)], true)[last]
        == StepOutcome(c, Final(c, full, r, true), Call("client", t));
    assert Outcomes(c, kept, r + [Call("client", t)], false)[last]
        == StepOutcome(c, Final(c, kept, r, false), Call("client", t));
  }

  /** Forgetting swept buckets is indistinguishable from keeping them, on every run, exactly
      when a bucket refills completely in the shortest time the sweeper calls idle. */
  lemma ForgettingIsUnobservable(c: Config)
    requires c.Valid()
    ensures RefillsWhileIdle(c) <==>
            forall run: seq<Event> :: Monotone(run, 0) ==> Outcomes(c, map[], run, true) == Outcomes(c, map[], run, false)
  {
    if RefillsWhileIdle(c) {
      forall run: seq<Event> | Monotone(run, 0)
        ensures Outcomes(c, map[], run, true) == Outcomes(c, map[], run, false)
      {
        ForgettingAgrees(c, map[], map[], run, 0);
      }
    } else {
      ExposingIsMonotone(c);
      ExposingRun(c);
    }
  }

  // ------------------------------------------------------------------ the rate bound

  // Calls of `key` that were admitted at a time in [from, to].
  function Admissions(run: seq<Event>, o: seq<Outcome>, key: string, from: int, to: int): nat
    requires |o| == |run|
  {
    if run == [] then 0
    else
      (if run[0].Call? && run[0].key == key && from <= run[0].now <= to && o[0].Answered? && o[0].verdict.admitted
       then 1 else 0)
      + Admissions(run[1..], o[1..], key, from, to)
  }

  lemma {:induction false} NoneAfterwards(run: seq<Event>, o: seq<Outcome>, key: string, from: int, to: int, now: int)
    requires |o| == |run| && Monotone(run, now) && to < now
    ensures Admissions(run, o, key, from, to) == 0
  {
    if run != [] {
      NoneAfterwards(run[1..], o[1..], key, from, to, run[0].now);
    }
  }

  // Inside the window the tokens held at its start plus the refill pay for every admission.
  lemma SoundLater(c: Config, bs: Buckets, t: int, u: int)
    requires Sound(c, bs, t) && t <= u
    ensures Sound(c, bs, u)
  {}

  predicate IsAdmission(e: Event, o: Outcome, key: string) {
    e.Call? && e.key == key && o.Answered? && o.verdict.admitted
  }

  lemma OnlyAdmissionsPay(c: Config, bs: Buckets, e: Event, key: string)
    requires c.Valid() && Sound(c, bs, e.now)
    ensures Sound(c, StepState(c, bs, e, false), e.now)
    ensures Level(c, StepState(c, bs, e, false), key, e.now)
         == Level(c, bs, key, e.now) - if IsAdmission(e, StepOutcome(c, bs, e), key) then 1.0 else 0.0
  {
    hide RetryDelay, Sound;
    StepsStaySound(c, bs, e, false);
    if e.Call? && e.key == key {
      OneCall(c, bs, key, e.now, false);
    }
  }

  lemma {:induction false} PaidFor(c: Config, bs: Buckets, run: seq<Event>, key: string, from: int, t: int, to: int)
    requires c.Valid() && Sound(c, bs, t) && Monotone(run, t) && t <= to
    ensures Admissions(run, Outcomes(c, bs, run, false), key, from, to) as real <= Level(c, bs, key, t) + c.Refill(to - t)
    decreases |run|
  {
    hide StepState, StepOutcome, Level, Sound;
    var o := Outcomes(c, bs, run, false);
    NoTimeNoRefill(c);
    RefillIsMonotone(c, 0, to - t);
    LevelSplits(c, bs, key, t, t);
    if run != [] {
      var u := run[0].now;
      if u > to {
        NoneAfterwards(run[1..], o[1..], key, from, to, u);
      } else {
        var next := StepState(c, bs, run[0], false);
        SoundLater(c, bs, t, u);
        LevelSplits(c, bs, key, t, u);
        OnlyAdmissionsPay(c, bs, run[0], key);
        RefillIsAdditive(c, u - t, to - u);
        PaidFor(c, next, run[1..], key, from, u, to);
        assert o[1..] == Outcomes(c, next, run[1..], false);
      }
    }
  }

  lemma {:induction false} RefillBounds(c: Config, bs: Buckets, run: seq<Event>, key: string, now: int, from: int, to: int)
    requires c.Valid() && Sound(c, bs, now) && Monotone(run, now) && from <= to
    ensures Admissions(run, Outcomes(c, bs, run, false), key, from, to) as real <= c.burst as real + c.Refill(to - from)
    decreases |run|
  {
    var o := Outcomes(c, bs, run, false);
    NoTimeNoRefill(c);
    RefillIsMonotone(c, 0, to - from);
    if run != [] {
      if run[0].now < from {
        var next := StepState(c, bs, run[0], false);
        StepsStaySound(c, bs, run[0], false);
        RefillBounds(c, next, run[1..], key, run[0].now, from, to);
        assert o[1..] == Outcomes(c, next, run[1..], false);
      } else {
        var t := if now < from then from else now;
        if t > to {
          NoneAfterwards(run, o, key, from, to, t);
        } else {
          PaidFor(c, bs, run, key, from, t, to);
          RefillIsMonotone(c, to - t, to - from);
          LevelSplits(c, bs, key, t, t);
        }
      }
    }
  }

  /** Without sweeps no window of any length admits more calls of a key than the burst plus its share
      of the calls per minute. */
  lemma KeptAdmissionsAreBounded(c: Config, bs: Buckets, run: seq<Event>, key: string, now: int, from: int, to: int)
    requires c.Valid() && Sound(c, bs, now) && Monotone(run, now) && from <= to
    ensures Admissions(run, Outcomes(c, bs, run, false), key, from, to) * 60_000_000_000
         <= c.burst * 60_000_000_000 + c.perMinute * (to - from)
  {
    RefillBounds(c, bs, run, key, now, from, to);
    RefillIsPerMinute(c, to - from);
  }

  /** The same with sweeps, when buckets refill while idle. */
  lemma AdmissionsAreBounded(c: Config, run: seq<Event>, key: string, from: int, to: int)
    requires c.Valid() && RefillsWhileIdle(c) && Monotone(run, 0) && from <= to
    ensures Admissions(run, Outcomes(c, map[], run, true), key, from, to) * 60_000_000_000
         <= c.burst * 60_000_000_000 + c.perMinute * (to - from)
  {
    ForgettingAgrees(c, map[], map[], run, 0);
    KeptAdmissionsAreBounded(c, map[], run, key, 0, from, to);
  }

  lemma {:induction false} AdmissionsConcatenate(
      r1: seq<Event>, o1: seq<Outcome>, r2: seq<Event>, o2: seq<Outcome>, key: string, from: int, to: int)
    requires |o1| == |r1| && |o2| == |r2|
    ensures Admissions(r1 + r2, o1 + o2, key, from, to) == Admissions(r1, o1, key, from, to) + Admissions(r2, o2, key, from, to)
  {
    if r1 == [] {
      assert r1 + r2 == r2 && o1 + o2 == o2;
    } else {
      assert (r1 + r2)[1..] == r1[1..] + r2 && (o1 + o2)[1..] == o1[1..] + o2;
      AdmissionsConcatenate(r1[1..], o1[1..], r2, o2, key, from, to);
    }
  }

  lemma {:induction false} FullBucketPaysInFull(c: Config, bs: Buckets, now: int, n: nat, to: int)
    requires c.Valid() && Sound(c, bs, now) && n <= c.burst && 0 <= now <= to
    requires Level(c, bs, "client", now) == c.burst as real
    ensures var r := Repeat(Call("client", now), n); Admissions(r, Outcomes(c, bs, r, true), "client", 0, to) == n
  {
    if n > 0 {
      hide Final, Outcomes, StepState, StepOutcome, Level, Sound, Refreshed, VerdictOf;
      var r, last := Repeat(Call("client", now), n - 1), [Call("client", now)];
      RepeatAtEnd(Call("client", now), n - 1);
      FullBucketPaysInFull(c, bs, now, n - 1, to);
      Drain(c, bs, "client", now, n - 1, true);
      RunsConcatenate(c, bs, r, last, true);
      var mid := Final(c, bs, r, true);
      AdmissionsConcatenate(r, Outcomes(c, bs, r, true), last, Outcomes(c, mid, last, true), "client", 0, to);
      OneStep(c, mid, Call("client", now), true);
      OneCall(c, mid, "client", now, true);
    }
  }

  lemma TwoBurstsAdmitted(c: Config)
    requires c.Valid() && !RefillsWhileIdle(c)
    ensures Admissions(Exposing(c), Outcomes(c, map[], Exposing(c), true), "client", 0, c.idle + 1) == 2 * c.burst
  {
    var t := c.idle + 1;
    var r1, s, r2 := Repeat(Call("client", 0), c.burst), [Sweep(t)], Repeat(Call("client", t), c.burst);
    SecondBurst(c, true);
    OutcomesOfExposing(c, true);
    RunsConcatenate(c, map[], r1, s, true);
    FullBucketPaysInFull(c, map[], 0, c.burst, t);
    FullBucketPaysInFull(c, AtSecondBurst(c, true), t, c.burst, t);
    var o1, os := Outcomes(c, map[], r1, true), Outcomes(c, Final(c, map[], r1, true), s, true);
    AdmissionsConcatenate(r1, o1, s, os, "client", 0, t);
    AdmissionsConcatenate(r1 + s, o1 + os, r2, Outcomes(c, AtSecondBurst(c, true), r2, true), "client", 0, t);
  }

  /** The calls admitted for one key in any window number at most the burst plus the window's share of
      the calls per minute, on every run, exactly under the condition that makes sweeps unobservable. */
  lemma RateBoundIsExact(c: Config)
    requires c.Valid()
    ensures RefillsWhileIdle(c) <==>
            forall run: seq<Event>, key: string, from: int, to: int :: Monotone(run, 0) && from <= to ==>
              Admissions(run, Outcomes(c, map[], run, true), key, from, to) * 60_000_000_000
                <= c.burst * 60_000_000_000 + c.perMinute * (to - from)
  {
    if RefillsWhileIdle(c) {
      forall run: seq<Event>, key: string, from: int, to: int | Monotone(run, 0) && from <= to
        ensures Admissions(run, Outcomes(c, map[], run, true), key, from, to) * 60_000_000_000
             <= c.burst * 60_000_000_000 + c.perMinute * (to - from)
      {
        AdmissionsAreBounded(c, run, key, from, to);
      }
    } else {
      ExposingIsMonotone(c);
      TwoBurstsAdmitted(c);
    }
  }

  // The server's idle time of ten minutes: its default deploy limits meet the condition, a
  // slower rate that the settings form also accepts does not.
  lemma ServerSettings()
    ensures RefillsWhileIdle(Config(60, 20, 600 * NANOS_PER_SECOND))
    ensures !RefillsWhileIdle(Config(1, 20, 600 * NANOS_PER_SECOND))
  {}

  // ------------------------------------------------------------------ the advertised delay

  lemma RefillInverse(c: Config, tokens: real, ns: int)
    requires c.Valid() && ns as real >= (1.0 - tokens) / c.Rate() * NANOS_PER_SECOND as real
    ensures tokens + c.Refill(ns) >= 1.0
  {
    var r := c.Rate();
    var need := (1.0 - tokens) / r;
    var have := ns as real / NANOS_PER_SECOND as real;
    assert have >= need;
    assert (have - need) * r >= 0.0;
    assert need * r == 1.0 - tokens;
  }

  lemma DelayOverDeficit(c: Config, tokens: real)
    requires c.Valid() && tokens < 1.0
    ensures var w, deficit := RetryDelay(c, tokens), (1.0 - tokens) / c.Rate() * NANOS_PER_SECOND as real;
            && w > 0 && w % NANOS_PER_SECOND == 0
            && deficit < w as real <= deficit + NANOS_PER_SECOND as real
            && tokens + c.Refill(w) >= 1.0
  {
    var r := c.Rate();
    assert r > 0.0;
    var need := (1.0 - tokens) / r;
    assert need * r == 1.0 - tokens > 0.0;
    assert need > 0.0;
    var deficit := need * NANOS_PER_SECOND as real;
    var f := deficit.Floor;
    var w := RetryDelay(c, tokens);
    assert w == (f + NANOS_PER_SECOND) / NANOS_PER_SECOND * NANOS_PER_SECOND;
    assert f < w <= f + NANOS_PER_SECOND;
    assert w >= f + 1;
    RefillInverse(c, tokens, w);
  }

  // The missing fraction of a token takes that fraction of a minute's share.
  lemma DeficitPerMinute(c: Config, missing: real)
    requires c.Valid()
    ensures missing / c.Rate() * NANOS_PER_SECOND as real == missing * 60_000_000_000.0 / c.perMinute as real
  {
    var p := c.perMinute as real;
    var x := missing / (p / 60.0);
    assert x * (p / 60.0) == missing;
    assert x * p == missing * 60.0;
    assert x == missing * 60.0 / p;
    var y := missing * 60_000_000_000.0 / p;
    assert y * p == missing * 60_000_000_000.0;
    assert (x * 1_000_000_000.0 - y) * p == 0.0;
  }

  /** A caller is admitted, without a wait, exactly when a whole token is there. A denied one is told
      a positive whole number of seconds: later than the moment the missing fraction has refilled at
      so many a minute, by at most one second, and enough to pay. */
  lemma DelayIsSharp(c: Config, b: Bucket)
    requires c.Valid()
    ensures var v := VerdictOf(c, b);
            var deficit := (1.0 - b.tokens) * 60_000_000_000.0 / c.perMinute as real;
            if b.tokens >= 1.0 then v == Verdict(true, 0)
            else
              && !v.admitted && v.wait > 0 && v.wait % 1_000_000_000 == 0
              && deficit < v.wait as real <= deficit + 1_000_000_000.0
              && b.tokens + c.perMinute as real * v.wait as real / 60_000_000_000.0 >= 1.0
  {
    if b.tokens < 1.0 {
      DelayOverDeficit(c, b.tokens);
      DeficitPerMinute(c, 1.0 - b.tokens);
      RefillIsPerMinute(c, RetryDelay(c, b.tokens));
    }
  }

  // ------------------------------------------------------------------ steady callers

  // Any two calls of the key are at least a minute's share apart.
  ghost predicate Spaced(c: Config, run: seq<Event>, key: string) {
    forall i, j :: 0 <= i < j < |run| && IsCallOf(run[i], key) && IsCallOf(run[j], key) ==>
      c.perMinute * (run[j].now - run[i].now) >= 60_000_000_000
  }

  predicate IsCallOf(e: Event, key: string) {
    e.Call? && e.key == key
  }

  lemma PaidBack(c: Config, bs: Buckets, e: Event, key: string, t: int)
    requires c.Valid() && c.burst >= 1 && (IsCallOf(e, key) ==> PaysAt(c, bs, key, e.now))
    requires if IsCallOf(e, key) then c.perMinute * (t - e.now) >= 60_000_000_000 else PaysAt(c, bs, key, t)
    ensures PaysAt(c, StepState(c, bs, e, true), key, t)
    ensures IsCallOf(e, key) ==> StepOutcome(c, bs, e) == Answered(Verdict(true, 0))
  {
    if IsCallOf(e, key) {
      RefillIsPerMinute(c, t - e.now);
      assert c.Refill(t - e.now) >= 1.0;
    }
  }

  lemma {:induction false} SteadyFrom(c: Config, bs: Buckets, run: seq<Event>, key: string, i: nat)
    requires c.Valid() && c.burst >= 1 && Spaced(c, run, key)
    requires forall j :: 0 <= j < |run| && IsCallOf(run[j], key) ==> PaysAt(c, bs, key, run[j].now)
    requires i < |run| && IsCallOf(run[i], key)
    ensures Outcomes(c, bs, run, true)[i] == Answered(Verdict(true, 0))
    decreases |run|
  {
    hide PaysAt, StepState, StepOutcome;
    var rest, next := run[1..], StepState(c, bs, run[0], true);
    if i == 0 {
      PaidBack(c, bs, run[0], key, run[0].now + 60_000_000_000);
    } else {
      forall j | 0 <= j < |rest| && IsCallOf(rest[j], key)
        ensures PaysAt(c, next, key, rest[j].now)
      {
        assert rest[j] == run[j + 1];
        PaidBack(c, bs, run[0], key, run[j + 1].now);
      }
      forall j, k | 0 <= j < k < |rest| && IsCallOf(rest[j], key) && IsCallOf(rest[k], key)
        ensures c.perMinute * (rest[k].now - rest[j].now) >= 60_000_000_000
      {
        assert rest[j] == run[j + 1] && rest[k] == run[k + 1];
      }
      SteadyFrom(c, next, rest, key, i - 1);
    }
  }

  /** A client that keeps to its share of the calls per minute is never denied, on any run with any
      sweeps and any other clients. */
  lemma SteadyCallersAreNeverDenied(c: Config, run: seq<Event>, key: string, i: nat)
    requires c.Valid() && c.burst >= 1 && Spaced(c, run, key) && i < |run| && IsCallOf(run[i], key)
    ensures Outcomes(c, map[], run, true)[i] == Answered(Verdict(true, 0))
  {
    SteadyFrom(c, map[], run, key, i);
  }

  // ------------------------------------------------------------------ coming back

  // The key can pay at time t, whether its bucket is kept or swept.
  ghost predicate PaysAt(c: Config, bs: Buckets, key: string, t: int) {
    key in bs ==> bs[key].tokens + c.Refill(t - bs[key].last) >= 1.0
  }

  ghost predicate NeverAdmits(run: seq<Event>, o: seq<Outcome>, key: string)
    requires |o| == |run|
  {
    forall i :: 0 <= i < |run| && run[i] == Call(key, run[i].now) ==> o[i].Answered? && !o[i].verdict.admitted
  }

  lemma {:induction false} DeniedRetriesCostNothing(c: Config, bs: Buckets, key: string, run: seq<Event>, t: int)
    requires c.Valid() && c.burst >= 1 && PaysAt(c, bs, key, t)
    requires NeverAdmits(run, Outcomes(c, bs, run, true), key)
    ensures PaysAt(c, Final(c, bs, run, true), key, t)
    decreases |run|
  {
    if run != [] {
      var o := Outcomes(c, bs, run, true);
      var next := StepState(c, bs, run[0], true);
      assert o[1..] == Outcomes(c, next, run[1..], true);
      if run[0].Call? && run[0].key == key {
        assert run[0] == Call(key, run[0].now);
        assert !o[0].verdict.admitted;
        if key in bs {
          RefillIsAdditive(c, run[0].now - bs[key].last, t - run[0].now);
        }
      }
      forall i | 0 <= i < |run[1..]| && run[1..][i] == Call(key, run[1..][i].now)
        ensures o[1..][i].Answered? && !o[1..][i].verdict.admitted
      {
        assert run[i + 1] == Call(key, run[i + 1].now);
      }
      DeniedRetriesCostNothing(c, next, key, run[1..], t);
    }
  }

  /** A denied caller that comes back after the advertised delay is admitted, whatever sweeps,
      other clients' calls and denied retries of its own happened in between. */
  lemma WaitingIsEnough(c: Config, bs: Buckets, key: string, now: int, run: seq<Event>, later: int)
    requires c.Valid() && c.burst >= 1
    requires var v := VerdictOf(c, Refreshed(c, bs, key, now)); !v.admitted && later >= now + v.wait
    requires NeverAdmits(run, Outcomes(c, Allowed(c, bs, key, now), run, true), key)
    ensures VerdictOf(c, Refreshed(c, Final(c, Allowed(c, bs, key, now), run, true), key, later)).admitted
  {
    var b := Refreshed(c, bs, key, now);
    var v := VerdictOf(c, b);
    DelayOverDeficit(c, b.tokens);
    RefillIsMonotone(c, v.wait, later - now);
    DeniedRetriesCostNothing(c, Allowed(c, bs, key, now), key, run, later);
  }
}
