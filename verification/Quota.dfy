/** The sliding-window quota of the apps service: allowQuota in server/internal/apps/apps.go.
    Times are nanoseconds. Each call reads the clock before it takes the lock, so the times of
    successive calls need not be ordered. */
module Quota {
  const MINUTE: int := 60_000_000_000

  // The times a call at `now` still counts.
  function Kept(times: seq<int>, now: int): (k: seq<int>)
    ensures |k| <= |times|
  {
    if times == [] then []
    else
      var n := |times| - 1;
      Kept(times[..n], now) + if now - times[n] < MINUTE then [times[n]] else []
  }

  predicate Admits(window: seq<int>, now: int, limit: int) {
    |Kept(window, now)| < limit
  }

  function NextWindow(window: seq<int>, now: int, limit: int): seq<int> {
    if Admits(window, now, limit) then Kept(window, now) + [now] else Kept(window, now)
  }

  // ------------------------------------------------------------------ the service

  // A slice: a backing array and the length in use.
  datatype Slice = Slice(data: array<int>, len: nat)

  function WindowOf(m: map<string, seq<int>>, key: string): seq<int> {
    if key in m then m[key] else []
  }

  // Keeps the recent times at the front of the array they are read from.
  method Compact(data: array<int>, len: nat, now: int) returns (kept: nat)
    requires len <= data.Length
    modifies data
    ensures kept <= len && data[..kept] == Kept(old(data[..len]), now)
  {
    kept := 0;
    for i := 0 to len
      invariant kept <= i
      invariant data[..kept] == Kept(old(data[..i]), now)
      invariant forall j :: i <= j < len ==> data[j] == old(data[j])
    {
      var t := data[i];
      assert old(data[..i + 1])[..i] == old(data[..i]);
      if now - t < MINUTE {
        data[kept] := t;
        kept := kept + 1;
        assert data[..kept] == data[..kept - 1] + [t];
      }
    }
  }

  method Append(s: Slice, x: int) returns (t: Slice)
    requires s.len <= s.data.Length
    modifies s.data
    ensures t.len == s.len + 1 <= t.data.Length
    ensures t.data == s.data || fresh(t.data)
    ensures t.data[..t.len] == old(s.data[..s.len]) + [x]
  {
    if s.len < s.data.Length {
      s.data[s.len] := x;
      return Slice(s.data, s.len + 1);
    }
    var bigger := new int[2 * s.len + 1](_ => 0);
    forall i | 0 <= i < s.len {
      bigger[i] := s.data[i];
    }
    bigger[s.len] := x;
    t := Slice(bigger, s.len + 1);
  }

  // Compacts the slice and, if the call is admitted, appends its time.
  method Slide(s: Slice, now: int, limit: int) returns (admitted: bool, t: Slice)
    requires s.len <= s.data.Length
    modifies s.data
    ensures admitted == Admits(old(s.data[..s.len]), now, limit)
    ensures t.len <= t.data.Length && (t.data == s.data || fresh(t.data))
    ensures t.data[..t.len] == NextWindow(old(s.data[..s.len]), now, limit)
  {
    var kept := Compact(s.data, s.len, now);
    t := Slice(s.data, kept);
    if kept >= limit {
      return false, t;
    }
    t := Append(t, now);
    return true, t;
  }

  lemma UpdateHidesKey(a: map<string, seq<int>>, b: map<string, seq<int>>, key: string, v: seq<int>)
    requires a.Keys == b.Keys && (forall k <- a :: k != key ==> a[k] == b[k])
    ensures a[key := v] == b[key := v]
  {}

  class Service {
    var windows: map<string, Slice>
    ghost var arrays: set<array<int>>

    ghost predicate Valid()
      reads this, arrays
    {
      && (forall k <- windows :: windows[k].data in arrays && windows[k].len <= windows[k].data.Length)
      && (forall k, l :: k in windows && l in windows && k != l ==> windows[k].data != windows[l].data)
    }

    ghost function Windows(): map<string, seq<int>>
      requires Valid()
      reads this, arrays
    {
      map k | k in windows :: windows[k].data[..windows[k].len]
    }

    constructor ()
      ensures Valid() && Windows() == map[] && arrays == {}
    {
      windows := map[];
      arrays := {};
    }

    method AllowQuota(key: string, now: int, limit: int, enabled: bool) returns (admitted: bool)
      requires Valid()
      modifies this, arrays
      ensures Valid() && fresh(arrays - old(arrays))
      ensures !enabled ==> !admitted && Windows() == old(Windows())
      ensures enabled ==>
                && admitted == Admits(WindowOf(old(Windows()), key), now, limit)
                && Windows() == old(Windows())[key := NextWindow(WindowOf(old(Windows()), key), now, limit)]
    {
      if !enabled {
        return false;
      }
      hide NextWindow, Admits, Kept;
      ghost var before := Windows();
      var slice := TakeSlice(key);
      assert forall k <- windows :: k != key ==> windows[k].data != slice.data;
      var next: Slice;
      admitted, next := Slide(slice, now, limit);
      assert forall k <- windows :: k != key ==> windows[k].data != next.data;
      ghost var between := Windows();
      assert forall k <- before :: k != key ==> between[k] == before[k];
      StoreSlice(key, next);
      UpdateHidesKey(between, before, key, next.data[..next.len]);
    }

    method StoreSlice(key: string, next: Slice)
      requires Valid() && next.len <= next.data.Length
      requires forall k <- windows :: k != key ==> windows[k].data != next.data
      modifies this
      ensures Valid() && arrays == old(arrays) + {next.data}
      ensures Windows() == old(Windows())[key := next.data[..next.len]]
    {
      ghost var before := windows;
      windows := windows[key := next];
      arrays := arrays + {next.data};
      assert forall k <- windows :: k != key ==> k in before && windows[k] == before[k];
      assert windows[key] == next;
    }

    method TakeSlice(key: string) returns (s: Slice)
      requires Valid()
      ensures s.len <= s.data.Length && s.data[..s.len] == WindowOf(Windows(), key)
      ensures if key in windows then s == windows[key] else fresh(s.data)
    {
      if key in windows {
        s := windows[key];
      } else {
        var none := new int[0];
        s := Slice(none, 0);
      }
    }
  }

  // ------------------------------------------------------------------ runs of one user and app

  // The stored window before the n-th call.
  function WindowAt(times: seq<int>, limits: seq<int>, n: nat): seq<int>
    requires n <= |times| == |limits|
  {
    if n == 0 then [] else NextWindow(WindowAt(times, limits, n - 1), times[n - 1], limits[n - 1])
  }

  function NextHistory(history: seq<int>, now: int, limit: int): seq<int> {
    if Admits(history, now, limit) then history + [now] else history
  }

  // Every accepted time before the n-th call, for a limiter that never forgets one.
  function HistoryAt(times: seq<int>, limits: seq<int>, n: nat): seq<int>
    requires n <= |times| == |limits|
  {
    if n == 0 then [] else NextHistory(HistoryAt(times, limits, n - 1), times[n - 1], limits[n - 1])
  }

  // Some call is a minute or more after an earlier one, and a later call less than a minute.
  ghost predicate Lapses(times: seq<int>) {
    exists i, j, k :: 0 <= i < j < k < |times| && times[j] - times[i] >= 60_000_000_000 && times[k] - times[i] < 60_000_000_000
  }

  ghost predicate Nondecreasing(times: seq<int>) {
    forall i, j :: 0 <= i < j < |times| ==> times[i] <= times[j]
  }

  lemma OrderedTimesNeverLapse(times: seq<int>)
    requires Nondecreasing(times)
    ensures !Lapses(times)
  {}

  lemma {:induction false} KeptMembers(times: seq<int>, now: int, t: int)
    ensures t in Kept(times, now) <==> t in times && now - t < MINUTE
  {
    if times != [] {
      var n := |times| - 1;
      KeptMembers(times[..n], now, t);
      assert times == times[..n] + [times[n]];
    }
  }

  lemma KeptAppends(times: seq<int>, t: int, now: int)
    ensures Kept(times + [t], now) == Kept(times, now) + if now - t < MINUTE then [t] else []
  {
    assert (times + [t])[..|times|] == times;
  }

  lemma {:induction false} KeptTwice(times: seq<int>, now: int, later: int)
    requires forall i :: 0 <= i < |times| && later - times[i] < MINUTE ==> now - times[i] < MINUTE
    ensures Kept(Kept(times, now), later) == Kept(times, later)
  {
    if times != [] {
      var n := |times| - 1;
      KeptTwice(times[..n], now, later);
      if now - times[n] < MINUTE {
        KeptAppends(Kept(times[..n], now), times[n], later);
      } else {
        assert Kept(times, now) == Kept(times[..n], now);
      }
    }
  }

  lemma StandingInStep(w: seq<int>, h: seq<int>, now: int, limit: int, later: int)
    requires Kept(w, now) == Kept(h, now) && Kept(w, later) == Kept(h, later)
    requires forall t <- w :: later - t < MINUTE ==> now - t < MINUTE
    ensures Kept(NextWindow(w, now, limit), later) == Kept(NextHistory(h, now, limit), later)
  {
    forall m | 0 <= m < |w|
      ensures later - w[m] < MINUTE ==> now - w[m] < MINUTE
    {
      assert w[m] in w;
    }
    KeptTwice(w, now, later);
    KeptAppends(Kept(w, now), now, later);
    KeptAppends(h, now, later);
  }

  lemma {:induction false} WindowHoldsPastTimes(times: seq<int>, limits: seq<int>, n: nat)
    requires n <= |times| == |limits|
    ensures forall t <- WindowAt(times, limits, n) :: exists i :: 0 <= i < n && times[i] == t
  {
    if n > 0 {
      WindowHoldsPastTimes(times, limits, n - 1);
      forall t | t in WindowAt(times, limits, n)
        ensures exists i :: 0 <= i < n && times[i] == t
      {
        KeptMembers(WindowAt(times, limits, n - 1), times[n - 1], t);
        if t in WindowAt(times, limits, n - 1) {
          var i :| 0 <= i < n - 1 && times[i] == t;
        } else {
          assert times[n - 1] == t;
        }
      }
    }
  }

  lemma WindowNeverLapses(times: seq<int>, limits: seq<int>, n: nat, k: nat)
    requires n < k < |times| == |limits| && !Lapses(times)
    ensures forall t <- WindowAt(times, limits, n) :: times[k] - t < MINUTE ==> times[n] - t < MINUTE
  {
    hide Kept, NextWindow, WindowAt;
    WindowHoldsPastTimes(times, limits, n);
    forall t | t in WindowAt(times, limits, n)
      ensures times[k] - t < MINUTE ==> times[n] - t < MINUTE
    {
      var i :| 0 <= i < n && times[i] == t;
    }
  }

  // As long as no time lapses, the window counts for every call still to come what the history counts.
  lemma {:induction false} WindowStandsForHistory(times: seq<int>, limits: seq<int>, n: nat, k: nat)
    requires n <= k < |times| == |limits| && !Lapses(times)
    ensures Kept(WindowAt(times, limits, n), times[k]) == Kept(HistoryAt(times, limits, n), times[k])
    decreases n
  {
    hide *;
    OneCall(times, limits, n);
    if n > 0 {
      WindowStandsForHistory(times, limits, n - 1, k);
      WindowStandsForHistory(times, limits, n - 1, n - 1);
      WindowNeverLapses(times, limits, n - 1, k);
      StandingInStep(WindowAt(times, limits, n - 1), HistoryAt(times, limits, n - 1), times[n - 1], limits[n - 1], times[k]);
    }
  }

  lemma OneCall(times: seq<int>, limits: seq<int>, n: nat)
    requires n <= |times| == |limits|
    ensures n == 0 ==> WindowAt(times, limits, n) == HistoryAt(times, limits, n)
    ensures n > 0 ==> WindowAt(times, limits, n) == NextWindow(WindowAt(times, limits, n - 1), times[n - 1], limits[n - 1])
    ensures n > 0 ==> HistoryAt(times, limits, n) == NextHistory(HistoryAt(times, limits, n - 1), times[n - 1], limits[n - 1])
  {}

  ghost predicate Agree(times: seq<int>, limits: seq<int>)
    requires |times| == |limits|
  {
    forall n :: 0 <= n < |times| ==>
      (Admits(WindowAt(times, limits, n), times[n], limits[n]) <==> Admits(HistoryAt(times, limits, n), times[n], limits[n]))
  }

  // Only the calls i and k may pass.
  function OnlyTwo(n: nat, i: nat, k: nat): (limits: seq<int>)
    ensures |limits| == n && forall m :: 0 <= m < n ==> limits[m] == if m == i || m == k then 1 else 0
  {
    seq(n, m => if m == i || m == k then 1 else 0)
  }

  lemma {:induction false} BeforeFirstPass(times: seq<int>, i: nat, k: nat, m: nat)
    requires m <= i < k < |times|
    ensures WindowAt(times, OnlyTwo(|times|, i, k), m) == [] == HistoryAt(times, OnlyTwo(|times|, i, k), m)
  {
    if m > 0 {
      BeforeFirstPass(times, i, k, m - 1);
    }
  }

  lemma {:induction false} AfterFirstPass(times: seq<int>, i: nat, k: nat, m: nat)
    requires i < m <= k < |times|
    ensures var limits := OnlyTwo(|times|, i, k);
            && HistoryAt(times, limits, m) == [times[i]]
            && (WindowAt(times, limits, m) == [times[i]] || WindowAt(times, limits, m) == [])
            && ((exists j :: i < j < m && times[j] - times[i] >= MINUTE) ==> WindowAt(times, limits, m) == [])
    decreases m
  {
    hide WindowAt, HistoryAt, Kept;
    var limits := OnlyTwo(|times|, i, k);
    OneCall(times, limits, m);
    KeptFew(times[i], times[m - 1]);
    if m == i + 1 {
      BeforeFirstPass(times, i, k, i);
    } else {
      AfterFirstPass(times, i, k, m - 1);
    }
  }

  lemma KeptFew(t: int, now: int)
    ensures Kept([], now) == []
    ensures Kept([t], now) == if now - t < MINUTE then [t] else []
  {
    KeptAppends([], t, now);
    assert [] + [t] == [t];
  }

  lemma LapseIsNoticed(times: seq<int>, i: nat, j: nat, k: nat)
    requires i < j < k < |times| && times[j] - times[i] >= MINUTE && times[k] - times[i] < MINUTE
    ensures !Agree(times, OnlyTwo(|times|, i, k))
  {
    AfterFirstPass(times, i, k, k);
    KeptAppends([], times[i], times[k]);
    assert [] + [times[i]] == [times[i]];
    assert Kept([], times[k]) == [];
    var limits := OnlyTwo(|times|, i, k);
    assert limits[k] == 1;
  }

  /** The compacted window decides every call exactly as a limiter that keeps the whole history,
      whatever the limits, for precisely the sequences of times that never lapse. */
  lemma CompactionIsExact(times: seq<int>)
    ensures !Lapses(times) <==> forall limits: seq<int> :: |limits| == |times| ==> Agree(times, limits)
  {
    if !Lapses(times) {
      forall limits: seq<int> | |limits| == |times|
        ensures Agree(times, limits)
      {
        forall n | 0 <= n < |times|
          ensures Admits(WindowAt(times, limits, n), times[n], limits[n]) <==> Admits(HistoryAt(times, limits, n), times[n], limits[n])
        {
          WindowStandsForHistory(times, limits, n, n);
        }
      }
    } else {
      var i, j, k :| 0 <= i < j < k < |times| && times[j] - times[i] >= MINUTE && times[k] - times[i] < MINUTE;
      LapseIsNoticed(times, i, j, k);
    }
  }

  // The number of accepted calls among the first n with a time in (t - 60s, t].
  function AcceptedIn(times: seq<int>, limits: seq<int>, n: nat, t: int): nat
    requires n <= |times| == |limits|
  {
    if n == 0 then 0
    else
      AcceptedIn(times, limits, n - 1, t)
      + if t - MINUTE < times[n - 1] <= t && Admits(WindowAt(times, limits, n - 1), times[n - 1], limits[n - 1]) then 1 else 0
  }

  function InWindow(h: seq<int>, t: int): (c: nat)
  {
    if h == [] then 0
    else InWindow(h[..|h| - 1], t) + if t - MINUTE < h[|h| - 1] <= t then 1 else 0
  }

  lemma EmptyWindow(t: int)
    ensures InWindow([], t) == 0
  {}

  lemma InWindowAppends(h: seq<int>, x: int, t: int)
    ensures InWindow(h + [x], t) == InWindow(h, t) + if t - MINUTE < x <= t then 1 else 0
  {
    assert (h + [x])[..|h|] == h;
  }

  lemma {:induction false} KeptCoversWindow(h: seq<int>, now: int, t: int)
    requires now <= t
    ensures InWindow(h, t) <= |Kept(h, now)|
  {
    if h != [] {
      KeptCoversWindow(h[..|h| - 1], now, t);
    }
  }

  // Accepted calls before the n-th at a time less than a minute before now, or after now.
  function RecentlyAccepted(times: seq<int>, limits: seq<int>, n: nat, now: int): nat
    requires n <= |times| == |limits|
  {
    if n == 0 then 0
    else
      RecentlyAccepted(times, limits, n - 1, now)
      + if times[n - 1] > now - 60_000_000_000 && Admits(WindowAt(times, limits, n - 1), times[n - 1], limits[n - 1]) then 1 else 0
  }

  lemma {:induction false} HistoryIsAccepted(times: seq<int>, limits: seq<int>, n: nat, now: int)
    requires n <= |times| == |limits| && Agree(times, limits)
    ensures |Kept(HistoryAt(times, limits, n), now)| == RecentlyAccepted(times, limits, n, now)
  {
    hide Kept;
    if n == 0 {
      KeptFew(0, now);
    } else {
      HistoryIsAccepted(times, limits, n - 1, now);
      assert Admits(WindowAt(times, limits, n - 1), times[n - 1], limits[n - 1])
        <==> Admits(HistoryAt(times, limits, n - 1), times[n - 1], limits[n - 1]);
      KeptAppends(HistoryAt(times, limits, n - 1), times[n - 1], now);
    }
  }

  /** When no reading lapses, a call is accepted exactly when fewer calls than its limit were accepted
      before it at times less than a minute before its own. */
  lemma AcceptedExactly(times: seq<int>, limits: seq<int>, n: nat)
    requires n < |times| == |limits| && !Lapses(times)
    ensures Admits(WindowAt(times, limits, n), times[n], limits[n]) <==> RecentlyAccepted(times, limits, n, times[n]) < limits[n]
  {
    hide Kept, WindowAt, HistoryAt, Lapses;
    CompactionIsExact(times);
    HistoryIsAccepted(times, limits, n, times[n]);
    assert Agree(times, limits);
  }

  // A reading j put time i behind it that a later reading k, less than a minute away from i, should still count.
  ghost predicate Slips(times: seq<int>) {
    exists i, j, k :: 0 <= i < j < k < |times| && times[j] - times[i] >= MINUTE && -MINUTE < times[k] - times[i] < MINUTE
  }

  lemma {:induction false} NothingDropped(h: seq<int>, now: int, t: int)
    requires forall i :: 0 <= i < |h| && t - MINUTE < h[i] <= t ==> now - h[i] < MINUTE
    ensures InWindow(Kept(h, now), t) == InWindow(h, t)
  {
    if h == [] {
      EmptyWindow(t);
    } else {
      var n := |h| - 1;
      NothingDropped(h[..n], now, t);
      assert h == h[..n] + [h[n]];
      InWindowAppends(h[..n], h[n], t);
      var kept := Kept(h[..n], now);
      InWindowAppends(kept, h[n], t);
      assert Kept(h, now) == if now - h[n] < MINUTE then kept + [h[n]] else kept;
    }
  }

  lemma AcceptedStep(times: seq<int>, limits: seq<int>, n: nat, t: int)
    requires 0 < n <= |times| == |limits|
    ensures AcceptedIn(times, limits, n, t) == AcceptedIn(times, limits, n - 1, t)
         + if t - MINUTE < times[n - 1] <= t && Admits(WindowAt(times, limits, n - 1), times[n - 1], limits[n - 1]) then 1 else 0
  {}

  // Up to a call k of the minute ending at t, the window still holds every call of that minute accepted so far.
  lemma {:induction false} MinuteStaysInWindow(times: seq<int>, limits: seq<int>, n: nat, k: nat, t: int)
    requires n <= k < |times| == |limits| && !Slips(times) && t - MINUTE < times[k] <= t
    ensures AcceptedIn(times, limits, n, t) <= InWindow(WindowAt(times, limits, n), t)
    decreases n
  {
    hide WindowAt, Kept, InWindow, AcceptedIn, Admits;
    if n == 0 {
      NoneAccepted(times, limits, t);
    } else {
      var w, now := WindowAt(times, limits, n - 1), times[n - 1];
      MinuteStaysInWindow(times, limits, n - 1, k, t);
      WindowHoldsPastTimes(times, limits, n - 1);
      forall m | 0 <= m < |w| && t - MINUTE < w[m] <= t
        ensures now - w[m] < MINUTE
      {
        assert w[m] in w;
        var i :| 0 <= i < n - 1 && times[i] == w[m];
        assert i < n - 1 < k && -MINUTE < times[k] - times[i] < MINUTE;
      }
      NothingDropped(w, now, t);
      InWindowAppends(Kept(w, now), now, t);
      OneCall(times, limits, n);
      AcceptedStep(times, limits, n, t);
    }
  }

  lemma NoneAccepted(times: seq<int>, limits: seq<int>, t: int)
    requires |times| == |limits|
    ensures AcceptedIn(times, limits, 0, t) == 0
  {}

  lemma {:induction false} LimitHolds(times: seq<int>, limits: seq<int>, n: nat, t: int, most: nat)
    requires n <= |times| == |limits| && !Slips(times) && AtMost(limits, most)
    ensures AcceptedIn(times, limits, n, t) <= most
  {
    hide WindowAt, Kept, InWindow, AcceptedIn;
    if n == 0 {
      NoneAccepted(times, limits, t);
    } else {
      var k := n - 1;
      LimitHolds(times, limits, k, t, most);
      AcceptedStep(times, limits, n, t);
      assert limits[k] in limits;
      if t - MINUTE < times[k] <= t {
        MinuteStaysInWindow(times, limits, k, k, t);
        KeptCoversWindow(WindowAt(times, limits, k), times[k], t);
      }
    }
  }

  lemma {:induction false} AcceptedOnlyGrow(times: seq<int>, limits: seq<int>, m: nat, n: nat, t: int)
    requires m <= n <= |times| == |limits|
    ensures AcceptedIn(times, limits, m, t) <= AcceptedIn(times, limits, n, t)
    decreases n
  {
    hide AcceptedIn, Admits, WindowAt;
    if m < n {
      AcceptedOnlyGrow(times, limits, m, n - 1, t);
      AcceptedStep(times, limits, n, t);
    }
  }

  lemma SlipLetsTwoPass(times: seq<int>, i: nat, j: nat, k: nat, t: int)
    requires i < j < k < |times| && times[j] - times[i] >= MINUTE
    requires t - MINUTE < times[i] <= t && t - MINUTE < times[k] <= t
    ensures AcceptedIn(times, OnlyTwo(|times|, i, k), |times|, t) >= 2
  {
    hide WindowAt, Kept, AcceptedIn, HistoryAt;
    var limits := OnlyTwo(|times|, i, k);
    BeforeFirstPass(times, i, k, i);
    AfterFirstPass(times, i, k, k);
    KeptFew(0, times[i]);
    KeptFew(0, times[k]);
    AcceptedStep(times, limits, i + 1, t);
    AcceptedStep(times, limits, k + 1, t);
    AcceptedOnlyGrow(times, limits, i + 1, k, t);
    AcceptedOnlyGrow(times, limits, k + 1, |times|, t);
  }

  ghost predicate AtMost(limits: seq<int>, most: nat) {
    forall l <- limits :: l <= most
  }

  // Every minute holds at most as many accepted calls as the largest limit, whatever the limits.
  ghost predicate KeepsEveryQuota(times: seq<int>) {
    forall limits: seq<int>, t: int, most: nat :: |limits| == |times| && AtMost(limits, most) ==>
      AcceptedIn(times, limits, |times|, t) <= most
  }

  /** The quota is kept, for every interval (t - 60s, t] and whatever the limits, by precisely the
      sequences of clock readings without a slip. */
  lemma QuotaIsExact(times: seq<int>)
    ensures !Slips(times) <==> KeepsEveryQuota(times)
  {
    hide AcceptedIn;
    if !Slips(times) {
      forall limits: seq<int>, t: int, most: nat | |limits| == |times| && AtMost(limits, most)
        ensures AcceptedIn(times, limits, |times|, t) <= most
      {
        LimitHolds(times, limits, |times|, t, most);
      }
    } else {
      var i, j, k :| 0 <= i < j < k < |times| && times[j] - times[i] >= MINUTE && -MINUTE < times[k] - times[i] < MINUTE;
      var t := if times[i] <= times[k] then times[k] else times[i];
      SlipLetsTwoPass(times, i, j, k, t);
      var limits := OnlyTwo(|times|, i, k);
      assert AtMost(limits, 1);
      assert AcceptedIn(times, limits, |times|, t) > 1;
    }
  }

  /** With clock readings in lock order, every interval (t - 60s, t] holds at most `most` accepted calls. */
  lemma QuotaIsKept(times: seq<int>, limits: seq<int>, t: int, most: nat)
    requires |times| == |limits| && Nondecreasing(times) && AtMost(limits, most)
    ensures AcceptedIn(times, limits, |times|, t) <= most
  {
    LimitHolds(times, limits, |times|, t, most);
  }

  /** Readings out of lock order can break the limit: two calls at 0, one at 60s, and a call that
      read 59s but took the lock last; with a limit of 2 all pass, three of them within a minute. */
  lemma LateReadingBreaksQuota()
    ensures AcceptedIn([0, 0, MINUTE, MINUTE - 1_000_000_000], [2, 2, 2, 2], 4, MINUTE - 1_000_000_000) == 3
  {
    var late := MINUTE - 1_000_000_000;
    var times, limits := [0, 0, MINUTE, late], [2, 2, 2, 2];
    KeptAppends([], 0, 0);
    KeptAppends([0], 0, MINUTE);
    KeptAppends([], 0, MINUTE);
    KeptAppends([], MINUTE, late);
    assert [] + [0] == [0] && [0] + [0] == [0, 0] && [] + [MINUTE] == [MINUTE];
    assert WindowAt(times, limits, 0) == [];
    assert WindowAt(times, limits, 1) == [0];
    assert WindowAt(times, limits, 2) == [0, 0];
    assert WindowAt(times, limits, 3) == [MINUTE];
    assert AcceptedIn(times, limits, 1, late) == 1;
    assert AcceptedIn(times, limits, 2, late) == 2;
    assert AcceptedIn(times, limits, 3, late) == 2;
  }

  // ------------------------------------------------------------------ one limit for all calls

  function Same(n: nat, limit: int): (limits: seq<int>)
    ensures |limits| == n && forall m :: 0 <= m < n ==> limits[m] == limit
  {
    seq(n, _ => limit)
  }

  // Under a limit of one the window holds the last accepted call, and every accepted call is a
  // minute after the one before it, whatever the readings.
  lemma {:induction false} OneAtATime(times: seq<int>, n: nat, t: int)
    requires n <= |times|
    ensures var limits, w := Same(|times|, 1), WindowAt(times, Same(|times|, 1), n);
            && |w| <= 1
            && AcceptedIn(times, limits, n, t) <= |w|
            && (AcceptedIn(times, limits, n, t) > 0 ==> w[0] > t - MINUTE)
  {
    hide WindowAt, AcceptedIn, Kept;
    var limits := Same(|times|, 1);
    if n == 0 {
      NoneAccepted(times, limits, t);
      NothingYet(times, limits);
    } else {
      var w, now := WindowAt(times, limits, n - 1), times[n - 1];
      OneAtATime(times, n - 1, t);
      AcceptedStep(times, limits, n, t);
      OneCall(times, limits, n);
      KeptFew(if w == [] then 0 else w[0], now);
      assert w == [] || w == [w[0]];
    }
  }

  // `limit` calls at 0, one at a minute, and one that read a second less.
  function LateRun(limit: nat): seq<int> {
    Same(limit, 0) + [MINUTE, MINUTE - 1_000_000_000]
  }

  lemma {:induction false} AllAtZero(limit: nat, n: nat, t: int)
    requires n <= limit && 0 <= t < MINUTE
    ensures var times := LateRun(limit);
            var limits := Same(|times|, limit);
            WindowAt(times, limits, n) == Same(n, 0) && AcceptedIn(times, limits, n, t) == n
  {
    hide WindowAt, AcceptedIn, Kept;
    var times := LateRun(limit);
    var limits := Same(|times|, limit);
    if n == 0 {
      NoneAccepted(times, limits, t);
      NothingYet(times, limits);
    } else {
      AllAtZero(limit, n - 1, t);
      AcceptedStep(times, limits, n, t);
      OneCall(times, limits, n);
      KeptZeros(n - 1, 0);
      assert Same(n - 1, 0) + [0] == Same(n, 0);
    }
  }

  lemma NothingYet(times: seq<int>, limits: seq<int>)
    requires |times| == |limits|
    ensures WindowAt(times, limits, 0) == []
  {}

  lemma {:induction false} KeptZeros(n: nat, now: int)
    ensures Kept(Same(n, 0), now) == if now < MINUTE then Same(n, 0) else []
  {
    if n == 0 {
      KeptFew(0, now);
    } else {
      KeptZeros(n - 1, now);
      assert Same(n, 0) == Same(n - 1, 0) + [0];
      KeptAppends(Same(n - 1, 0), 0, now);
    }
  }

  lemma OneTooMany(limit: nat)
    requires limit >= 2
    ensures var times := LateRun(limit);
            AcceptedIn(times, Same(|times|, limit), |times|, MINUTE - 1_000_000_000) == limit + 1
  {
    hide WindowAt, AcceptedIn, Kept;
    var t := MINUTE - 1_000_000_000;
    var times := LateRun(limit);
    var limits := Same(|times|, limit);
    AllAtZero(limit, limit, t);
    AcceptedStep(times, limits, limit + 1, t);
    AcceptedStep(times, limits, limit + 2, t);
    OneCall(times, limits, limit + 1);
    KeptZeros(limit, MINUTE);
    assert [] + [MINUTE] == [MINUTE];
    KeptFew(MINUTE, t);
  }

  // A limit that is the same for all calls of a run.
  ghost predicate KeptByAllReadings(limit: int) {
    forall times: seq<int>, t: int ::
      AcceptedIn(times, Same(|times|, limit), |times|, t) <= if limit < 0 then 0 else limit
  }

  /** A limit that stays the same is kept whatever the readings exactly when it is at most one call
      a minute; every larger limit is broken by some readings out of order. */
  lemma ConstantLimitIsExact(limit: int)
    ensures KeptByAllReadings(limit) <==> limit <= 1
  {
    hide AcceptedIn;
    if limit <= 1 {
      forall times: seq<int>, t: int
        ensures AcceptedIn(times, Same(|times|, limit), |times|, t) <= if limit < 0 then 0 else limit
      {
        if limit == 1 {
          OneAtATime(times, |times|, t);
        } else {
          LimitOfNothing(times, limit, |times|, t);
        }
      }
    } else {
      OneTooMany(limit);
      assert AcceptedIn(LateRun(limit), Same(|LateRun(limit)|, limit), |LateRun(limit)|, MINUTE - 1_000_000_000) > limit;
    }
  }

  lemma {:induction false} LimitOfNothing(times: seq<int>, limit: int, n: nat, t: int)
    requires n <= |times| && limit <= 0
    ensures AcceptedIn(times, Same(|times|, limit), n, t) == 0
  {
    hide AcceptedIn, WindowAt, Kept;
    var limits := Same(|times|, limit);
    if n == 0 {
      NoneAccepted(times, limits, t);
    } else {
      LimitOfNothing(times, limit, n - 1, t);
      AcceptedStep(times, limits, n, t);
    }
  }

  // ------------------------------------------------------------------ many users and apps

  datatype Ask = Ask(key: string, now: int, limit: int)

  function After(windows: map<string, seq<int>>, run: seq<Ask>): map<string, seq<int>> {
    if run == [] then windows
    else
      var before := After(windows, run[..|run| - 1]);
      var a := run[|run| - 1];
      before[a.key := NextWindow(WindowOf(before, a.key), a.now, a.limit)]
  }

  function TimesOf(run: seq<Ask>, key: string): seq<int> {
    if run == [] then []
    else TimesOf(run[..|run| - 1], key) + if run[|run| - 1].key == key then [run[|run| - 1].now] else []
  }

  function LimitsOf(run: seq<Ask>, key: string): (l: seq<int>)
    ensures |l| == |TimesOf(run, key)|
  {
    if run == [] then []
    else LimitsOf(run[..|run| - 1], key) + if run[|run| - 1].key == key then [run[|run| - 1].limit] else []
  }

  lemma {:induction false} WindowAtPrefix(times: seq<int>, limits: seq<int>, now: int, limit: int, n: nat)
    requires n <= |times| == |limits|
    ensures WindowAt(times + [now], limits + [limit], n) == WindowAt(times, limits, n)
  {
    if n > 0 {
      WindowAtPrefix(times, limits, now, limit, n - 1);
    }
  }

  /** In any run over many users and apps, the window of one of them is the one its own calls alone produce. */
  lemma {:induction false} WindowsAreIndependent(run: seq<Ask>, key: string)
    ensures WindowOf(After(map[], run), key) == WindowAt(TimesOf(run, key), LimitsOf(run, key), |TimesOf(run, key)|)
  {
    if run != [] {
      var front, a := run[..|run| - 1], run[|run| - 1];
      WindowsAreIndependent(front, key);
      if a.key == key {
        var times, limits := TimesOf(front, key), LimitsOf(front, key);
        WindowAtPrefix(times, limits, a.now, a.limit, |times|);
        assert TimesOf(run, key) == times + [a.now] && LimitsOf(run, key) == limits + [a.limit];
      } else {
        assert TimesOf(run, key) == TimesOf(front, key) && LimitsOf(run, key) == LimitsOf(front, key);
      }
    }
  }
}
