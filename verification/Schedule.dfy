/** Next-run arithmetic of server/internal/scheduler/schedule.go. Instants are nanoseconds. */
module Schedule {
  import opened Wrappers
  import opened Durations
  import opened Numerals
  import opened Timestamps

  // One or two leading digits; exactly two when fixed.
  function GetNum(s: string, fixed: bool): Option<(nat, string)> {
    if s == "" || !IsDigit(s[0]) then None
    else if |s| == 1 || !IsDigit(s[1]) then
      if fixed then None else Some(((s[0] - '0') as nat, s[1..]))
    else Some((10 * (s[0] - '0') as nat + (s[1] - '0') as nat, s[2..]))
  }

  // time.Parse("15:04", s)
  function ParseHHMM(s: string): (r: Result<(nat, nat)>)
    ensures r.Ok? ==> r.value.0 < 24 && r.value.1 < 60
  {
    match GetNum(s, false)
    case None => Err("daily_time_utc must be HH:MM")
    case Some((hour, rest)) =>
      if hour >= 24 || rest == "" || rest[0] != ':' then Err("daily_time_utc must be HH:MM")
      else
        match GetNum(rest[1..], true)
        case None => Err("daily_time_utc must be HH:MM")
        case Some((minute, end)) =>
          if minute >= 60 || end != "" then Err("daily_time_utc must be HH:MM") else Ok((hour, minute))
  }

  lemma LongTimeIsRead(hour: nat, minute: nat)
    requires hour < 24 && minute < 60
    ensures ParseHHMM(Digits(hour, 2) + ":" + Digits(minute, 2)) == Ok((hour, minute))
  {
    hide Digits;
    TwoDigitText(hour);
    TwoDigitText(minute);
    var s := Digits(hour, 2) + ":" + Digits(minute, 2);
    assert s[2..] == ":" + Digits(minute, 2) && s[2..][1..] == Digits(minute, 2);
    assert Digits(minute, 2)[2..] == "";
  }

  lemma ShortTimeIsRead(hour: nat, minute: nat)
    requires hour < 10 && minute < 60
    ensures ParseHHMM(Digits(hour, 1) + ":" + Digits(minute, 2)) == Ok((hour, minute))
  {
    hide Digits;
    OneDigitText(hour);
    TwoDigitText(minute);
    var s := Digits(hour, 1) + ":" + Digits(minute, 2);
    assert s[1..] == ":" + Digits(minute, 2) && s[1..][1..] == Digits(minute, 2);
    assert Digits(minute, 2)[2..] == "";
  }

  predicate IsTimeText(s: string, hour: nat, minute: nat) {
    s == Digits(hour, 2) + ":" + Digits(minute, 2) || (hour < 10 && s == Digits(hour, 1) + ":" + Digits(minute, 2))
  }

  lemma TimesAreRead(s: string, hour: nat, minute: nat)
    requires ParseHHMM(s) == Ok((hour, minute))
    ensures IsTimeText(s, hour, minute)
  {
    hide Digits, GetNum;
    var rest := GetNum(s, false).value.1;
    TwoDigitText(minute);
    TwoDigitText(hour);
    NumRead(s, false);
    NumRead(rest[1..], true);
    assert rest == [rest[0]] + rest[1..];
    if hour < 10 {
      OneDigitText(hour);
    }
  }

  /** Exactly the texts H:MM and HH:MM with an hour below 24 and a minute below 60 are daily times. */
  lemma DailyTimesAreExact(s: string, hour: nat, minute: nat)
    ensures ParseHHMM(s) == Ok((hour, minute)) <==>
              && hour < 24 && minute < 60
              && (s == Digits(hour, 2) + ":" + Digits(minute, 2) || (hour < 10 && s == Digits(hour, 1) + ":" + Digits(minute, 2)))
  {
    hide Digits, GetNum, ParseHHMM;
    if hour < 24 && minute < 60 {
      LongTimeIsRead(hour, minute);
      if hour < 10 {
        ShortTimeIsRead(hour, minute);
      }
    }
    if ParseHHMM(s) == Ok((hour, minute)) {
      TimesAreRead(s, hour, minute);
    }
  }

  // What a number was read off.
  lemma NumRead(s: string, fixed: bool)
    requires GetNum(s, fixed).Some?
    ensures var (n, rest) := GetNum(s, fixed).value;
            || (n < 100 && s == [Digit(n / 10 % 10), Digit(n % 10)] + rest)
            || (!fixed && n < 10 && s == [Digit(n)] + rest)
  {
    var (n, rest) := GetNum(s, fixed).value;
    if |s| >= 2 && IsDigit(s[1]) {
      assert s == [s[0], s[1]] + s[2..];
    } else {
      assert s == [s[0]] + s[1..];
    }
  }

  // time.Date on the calendar day of now
  function TodayAt(now: nat, hour: nat, minute: nat): nat
    requires hour < 24 && minute < 60
  {
    CivilOf(now / NANOS_PER_SECOND).(hour := hour, minute := minute, second := 0).Seconds() * NANOS_PER_SECOND
  }

  function NextRun(now: nat, kind: string, intervalSeconds: int, dailyTime: string): Result<nat> {
    if kind == "interval" then
      if intervalSeconds <= 0 then Result<nat>.Err("interval schedule needs a positive interval_seconds")
      else
        var next: nat := now + intervalSeconds * NANOS_PER_SECOND;
        Ok(next)
    else if kind == "daily" then
      match ParseHHMM(dailyTime)
      case Err(m) => Err(m)
      case Ok((hour, minute)) =>
        var next := TodayAt(now, hour, minute);
        Ok(if next > now then next else next + NANOS_PER_DAY)
    else Err("unknown schedule type")
  }

  // The i-th point of the schedule that starts at `first`.
  function Point(first: nat, step: nat, i: nat): nat {
    first + i * step
  }

  function PointPast(first: nat, step: nat, now: nat): nat
    requires step > 0
  {
    if first > now then first else Point(first, step, (now - first) / step + 1)
  }

  function Advanced(prev: nat, now: nat, kind: string, intervalSeconds: int, dailyTime: string): Result<nat> {
    if kind != "interval" then NextRun(now, kind, intervalSeconds, dailyTime)
    else if intervalSeconds <= 0 then Err("interval schedule needs a positive interval_seconds")
    else Ok(PointPast(prev, intervalSeconds * NANOS_PER_SECOND, now))
  }

  predicate Schedulable(kind: string, intervalSeconds: int, dailyTime: string) {
    (kind == "interval" && intervalSeconds > 0) || (kind == "daily" && ParseHHMM(dailyTime).Ok?)
  }

  /** A next run can be computed, from now or from the previous one, for exactly the positive
      intervals and the readable daily times. */
  lemma WhatCanBeScheduled(prev: nat, now: nat, kind: string, intervalSeconds: int, dailyTime: string)
    ensures NextRun(now, kind, intervalSeconds, dailyTime).Ok? <==> Schedulable(kind, intervalSeconds, dailyTime)
    ensures Advanced(prev, now, kind, intervalSeconds, dailyTime).Ok? <==> Schedulable(kind, intervalSeconds, dailyTime)
  {
    hide ParseHHMM, TodayAt;
  }

  /** A new interval trigger starts one interval from now, where a trigger last due now would go. */
  lemma FirstRunIsOneStepOn(now: nat, intervalSeconds: int, dailyTime: string)
    requires intervalSeconds > 0
    ensures NextRun(now, "interval", intervalSeconds, dailyTime) == Advanced(now, now, "interval", intervalSeconds, dailyTime)
         == Ok(now + intervalSeconds * 1_000_000_000)
  {
    var step: nat := intervalSeconds * NANOS_PER_SECOND;
    assert 0 / step == 0;
  }

  lemma PointsDivide(first: nat, step: nat, now: nat, i: nat)
    requires step > 0 && Point(first, step, i) <= now < Point(first, step, i) + step
    ensures (now - first) / step == i
  {
    var d := now - first;
    assert d == i * step + (d - i * step);
    var q := d / step;
    assert q < i ==> (q + 1) * step <= i * step;
    assert q > i ==> (i + 1) * step <= q * step;
  }

  method AdvancePastNow(prev: nat, now: nat, kind: string, intervalSeconds: int, dailyTime: string)
    returns (r: Result<nat>)
    ensures r == Advanced(prev, now, kind, intervalSeconds, dailyTime)
  {
    if kind != "interval" {
      return NextRun(now, kind, intervalSeconds, dailyTime);
    }
    if intervalSeconds <= 0 {
      return Err("interval schedule needs a positive interval_seconds");
    }
    var next := prev;
    var step := intervalSeconds * NANOS_PER_SECOND;
    ghost var i: nat := 0;
    while next <= now
      invariant next == Point(prev, step, i)
      invariant next == prev || (prev <= now && next <= now + step)
      invariant i > 0 ==> Point(prev, step, i - 1) <= now
      decreases now - next
    {
      next := next + step;
      i := i + 1;
    }
    if i > 0 {
      PointsDivide(prev, step, now, i - 1);
    }
    return Ok(next);
  }

  lemma QuotientBounds(a: nat, step: nat)
    requires step > 0
    ensures a / step * step <= a < (a / step + 1) * step
  {
    assert (a / step + 1) * step == a / step * step + step;
  }

  lemma TimesGrow(i: nat, j: nat, step: nat)
    requires i <= j
    ensures i * step <= j * step
  {}

  lemma PointPastIsLeast(first: nat, step: nat, now: nat)
    requires step > 0
    ensures var r := PointPast(first, step, now);
            && r > now && r >= first
            && (exists i :: r == Point(first, step, i))
            && (forall i :: Point(first, step, i) > now ==> r <= Point(first, step, i))
  {
    var r := PointPast(first, step, now);
    if first > now {
      assert r == Point(first, step, 0);
    } else {
      var q := (now - first) / step;
      QuotientBounds(now - first, step);
      assert r == Point(first, step, q + 1);
      forall i: nat | Point(first, step, i) > now
        ensures r <= Point(first, step, i)
      {
        if i <= q {
          TimesGrow(i, q, step);
        } else {
          TimesGrow(q + 1, i, step);
        }
      }
    }
  }

  /** Advancing gives the least point of the schedule that is strictly after now, and keeps
      the phase of the previous point. */
  lemma AdvancedIsLeastPoint(prev: nat, now: nat, intervalSeconds: int, dailyTime: string)
    requires intervalSeconds > 0
    ensures var step: nat := intervalSeconds * NANOS_PER_SECOND;
            var r := Advanced(prev, now, "interval", intervalSeconds, dailyTime);
            && r.Ok? && r.value > now && r.value >= prev
            && (exists i :: r.value == Point(prev, step, i))
            && (forall i :: Point(prev, step, i) > now ==> r.value <= Point(prev, step, i))
  {
    PointPastIsLeast(prev, intervalSeconds * NANOS_PER_SECOND, now);
  }

  predicate IsDailyInstant(t: nat, hour: nat, minute: nat) {
    var c := CivilOf(t / NANOS_PER_SECOND);
    t % NANOS_PER_SECOND == 0 && c.hour == hour && c.minute == minute && c.second == 0
  }

  // A clock reading determines the second of the day, and the other way round.
  lemma ClockReads(h: nat, m: nat, s: nat, hour: nat, minute: nat)
    requires h < 24 && m < 60 && s < 60 && hour < 24 && minute < 60
    ensures h == hour && m == minute && s == 0 <==> h * 3600 + m * 60 + s == hour * 3600 + minute * 60
  {
    if h < hour {
      assert h * 3600 + 3600 <= hour * 3600;
    } else if h > hour {
      assert hour * 3600 + 3600 <= h * 3600;
    }
  }

  lemma SecondOfDayOf(s: nat)
    ensures CivilOf(s).SecondOfDay() == s % SECONDS_PER_DAY
  {
    hide CivilOf, DaysBeforeYear, DaysBeforeMonth, Civil.Days;
    var c := CivilOf(s);
    assert c.SecondOfDay() < SECONDS_PER_DAY;
    assert s == c.Days() * SECONDS_PER_DAY + c.SecondOfDay();
  }

  lemma NanosOfDay(t: nat)
    ensures t % NANOS_PER_DAY == t / NANOS_PER_SECOND % SECONDS_PER_DAY * NANOS_PER_SECOND + t % NANOS_PER_SECOND
  {}

  lemma DailyInstants(t: nat, hour: nat, minute: nat)
    requires hour < 24 && minute < 60
    ensures IsDailyInstant(t, hour, minute) <==> t % NANOS_PER_DAY == (hour * 3600 + minute * 60) * NANOS_PER_SECOND
  {
    hide CivilOf, DaysBeforeYear, DaysBeforeMonth, Civil.Days, Civil.Seconds;
    var c := CivilOf(t / NANOS_PER_SECOND);
    SecondOfDayOf(t / NANOS_PER_SECOND);
    ClockReads(c.hour, c.minute, c.second, hour, minute);
    NanosOfDay(t);
    WholeSeconds(c.SecondOfDay(), t % NANOS_PER_SECOND, hour * 3600 + minute * 60);
  }

  lemma WholeSeconds(a: nat, r: nat, b: nat)
    requires r < NANOS_PER_SECOND
    ensures a * NANOS_PER_SECOND + r == b * NANOS_PER_SECOND <==> a == b && r == 0
  {}

  function DailyRun(now: nat, hour: nat, minute: nat): nat {
    var next := now / NANOS_PER_DAY * NANOS_PER_DAY + (hour * 3600 + minute * 60) * NANOS_PER_SECOND;
    if next > now then next else next + NANOS_PER_DAY
  }

  lemma ClockToday(s: nat, hour: nat, minute: nat)
    requires hour < 24 && minute < 60
    ensures CivilOf(s).(hour := hour, minute := minute, second := 0).Seconds()
         == s / SECONDS_PER_DAY * SECONDS_PER_DAY + hour * 3600 + minute * 60
  {
    var c := CivilOf(s);
    var today := c.(hour := hour, minute := minute, second := 0);
    assert today.Days() == c.Days();
    assert c.SecondOfDay() < SECONDS_PER_DAY;
  }

  lemma TodayByTheClock(now: nat, hour: nat, minute: nat)
    requires hour < 24 && minute < 60
    ensures TodayAt(now, hour, minute) == now / NANOS_PER_DAY * NANOS_PER_DAY + (hour * 3600 + minute * 60) * NANOS_PER_SECOND
  {
    ClockToday(now / NANOS_PER_SECOND, hour, minute);
    assert now / NANOS_PER_SECOND / SECONDS_PER_DAY == now / NANOS_PER_DAY;
  }

  lemma DailyRunIsNext(now: nat, hour: nat, minute: nat, t: nat)
    requires hour < 24 && minute < 60
    ensures now < DailyRun(now, hour, minute) <= now + NANOS_PER_DAY
    ensures DailyRun(now, hour, minute) % NANOS_PER_DAY == (hour * 3600 + minute * 60) * NANOS_PER_SECOND
    ensures t > now && t % NANOS_PER_DAY == (hour * 3600 + minute * 60) * NANOS_PER_SECOND ==> DailyRun(now, hour, minute) <= t
  {}

  lemma NextDailyRun(now: nat, dailyTime: string, hour: nat, minute: nat)
    requires ParseHHMM(dailyTime) == Ok((hour, minute))
    ensures NextRun(now, "daily", 0, dailyTime) == Ok(DailyRun(now, hour, minute))
  {
    hide TodayAt, ParseHHMM;
    TodayByTheClock(now, hour, minute);
  }

  /** A daily run is the least instant strictly after now whose clock reads HH:MM:00, at most a day ahead. */
  lemma DailyRunIsLeast(now: nat, dailyTime: string, hour: nat, minute: nat)
    requires ParseHHMM(dailyTime) == Ok((hour, minute))
    ensures var r := NextRun(now, "daily", 0, dailyTime);
            && r.Ok? && now < r.value <= now + NANOS_PER_DAY
            && IsDailyInstant(r.value, hour, minute)
            && (forall t: nat :: t > now && IsDailyInstant(t, hour, minute) ==> r.value <= t)
  {
    hide IsDailyInstant, DailyRun, NextRun;
    var r := DailyRun(now, hour, minute);
    NextDailyRun(now, dailyTime, hour, minute);
    DailyRunIsNext(now, hour, minute, 0);
    DailyInstants(r, hour, minute);
    forall t: nat | t > now && IsDailyInstant(t, hour, minute)
      ensures r <= t
    {
      DailyInstants(t, hour, minute);
      DailyRunIsNext(now, hour, minute, t);
    }
  }
}
