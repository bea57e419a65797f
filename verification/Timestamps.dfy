/** Text timestamps: time.RFC3339 formatting and parsing as server/internal/scheduler/schedule.go
    uses them, and the byte order in which the store compares them.

    An instant is a number of nanoseconds since 0000-01-01T00:00:00Z; the calendar is the
    proleptic Gregorian one. */
module Timestamps {
  import opened Wrappers
  import opened Durations
  import opened Numerals

  // ------------------------------------------------------------------ calendar

  predicate IsLeap(y: nat) {
    y % 4 == 0 && (y % 100 != 0 || y % 400 == 0)
  }

  function DaysInYear(y: nat): nat {
    if IsLeap(y) then 366 else 365
  }

  function DaysInMonth(y: nat, m: nat): (d: nat)
    requires 1 <= m <= 12
    ensures 28 <= d <= 31
  {
    if m == 2 then (if IsLeap(y) then 29 else 28)
    else if m == 4 || m == 6 || m == 9 || m == 11 then 30
    else 31
  }

  function DaysBeforeYear(y: nat): nat {
    if y == 0 then 0 else DaysBeforeYear(y - 1) + DaysInYear(y - 1)
  }

  function DaysBeforeMonth(y: nat, m: nat): nat
    requires 1 <= m <= 13
  {
    if m == 1 then 0 else DaysBeforeMonth(y, m - 1) + DaysInMonth(y, m - 1)
  }

  datatype Civil = Civil(year: nat, month: nat, day: nat, hour: nat, minute: nat, second: nat) {
    predicate Valid() {
      1 <= month <= 12 && 1 <= day <= DaysInMonth(year, month) && hour < 24 && minute < 60 && second < 60
    }

    function Days(): nat
      requires Valid()
    {
      DaysBeforeYear(year) + DaysBeforeMonth(year, month) + day - 1
    }

    function SecondOfDay(): nat {
      hour * 3600 + minute * 60 + second
    }

    function Seconds(): nat
      requires Valid()
    {
      Days() * SECONDS_PER_DAY + SecondOfDay()
    }
  }

  // Field by field, most significant first.
  predicate Before(a: Civil, b: Civil) {
    || a.year < b.year
    || (a.year == b.year && a.month < b.month)
    || (a.year == b.year && a.month == b.month && a.day < b.day)
    || (a.year == b.year && a.month == b.month && a.day == b.day && a.SecondOfDay() < b.SecondOfDay())
  }

  function YearAndDay(d: nat, y: nat): (r: (nat, nat))
    ensures r.1 < DaysInYear(r.0)
    ensures DaysBeforeYear(r.0) + r.1 == DaysBeforeYear(y) + d
    decreases d
  {
    if d < DaysInYear(y) then (y, d) else YearAndDay(d - DaysInYear(y), y + 1)
  }

  function MonthAndDay(y: nat, d: nat, m: nat): (r: (nat, nat))
    requires 1 <= m <= 12 && DaysBeforeMonth(y, m) + d < DaysBeforeMonth(y, 13)
    ensures 1 <= r.0 <= 12 && r.1 < DaysInMonth(y, r.0)
    ensures DaysBeforeMonth(y, r.0) + r.1 == DaysBeforeMonth(y, m) + d
    decreases 12 - m
  {
    if d < DaysInMonth(y, m) then (m, d)
    else
      assert DaysBeforeMonth(y, m + 1) == DaysBeforeMonth(y, m) + DaysInMonth(y, m);
      MonthAndDay(y, d - DaysInMonth(y, m), m + 1)
  }

  lemma MonthsFillTheYear(y: nat)
    ensures DaysBeforeMonth(y, 13) == DaysInYear(y)
  {
    assert DaysBeforeMonth(y, 2) == 31;
    assert DaysBeforeMonth(y, 3) == 31 + DaysInMonth(y, 2);
    assert DaysBeforeMonth(y, 5) == DaysBeforeMonth(y, 3) + 61;
    assert DaysBeforeMonth(y, 7) == DaysBeforeMonth(y, 5) + 61;
    assert DaysBeforeMonth(y, 9) == DaysBeforeMonth(y, 7) + 62;
    assert DaysBeforeMonth(y, 11) == DaysBeforeMonth(y, 9) + 61;
  }

  lemma ClockFields(r: nat)
    requires r < SECONDS_PER_DAY
    ensures r / 3600 < 24 && r % 3600 / 60 < 60 && r % 60 < 60
    ensures r / 3600 * 3600 + r % 3600 / 60 * 60 + r % 60 == r
  {
    assert r % 3600 % 60 == r % 60;
  }

  // The calendar reading of a whole number of seconds.
  function CivilOf(s: nat): (c: Civil)
    ensures c.Valid() && c.Seconds() == s
  {
    var (y, yd) := YearAndDay(s / SECONDS_PER_DAY, 0);
    MonthsFillTheYear(y);
    var (m, d) := MonthAndDay(y, yd, 1);
    var r := s % SECONDS_PER_DAY;
    ClockFields(r);
    Civil(y, m, d + 1, r / 3600, r % 3600 / 60, r % 60)
  }

  lemma {:induction false} YearsAccumulate(y: nat, z: nat)
    requires y < z
    ensures DaysBeforeYear(y) + DaysInYear(y) <= DaysBeforeYear(z)
  {
    if y + 1 < z {
      YearsAccumulate(y, z - 1);
    }
  }

  lemma {:induction false} MonthsAccumulate(y: nat, m: nat, n: nat)
    requires 1 <= m < n <= 13
    ensures DaysBeforeMonth(y, m) + DaysInMonth(y, m) <= DaysBeforeMonth(y, n)
    decreases n
  {
    if m + 1 < n {
      MonthsAccumulate(y, m, n - 1);
    }
  }

  lemma CalendarOrderIsTimeOrder(a: Civil, b: Civil)
    requires a.Valid() && b.Valid() && Before(a, b)
    ensures a.Seconds() < b.Seconds()
  {
    if a.year < b.year {
      YearsAccumulate(a.year, b.year);
      MonthsAccumulate(a.year, a.month, 13);
      MonthsFillTheYear(a.year);
    } else if a.month < b.month {
      MonthsAccumulate(a.year, a.month, b.month);
    }
  }

  lemma ReadingsAreUnique(a: Civil, b: Civil)
    requires a.Valid() && b.Valid()
    ensures a == b || Before(a, b) || Before(b, a)
  {
    if a.SecondOfDay() == b.SecondOfDay() {
      assert a.hour == b.hour;
      assert a.minute == b.minute;
    }
  }

  lemma ReadingBack(c: Civil)
    requires c.Valid()
    ensures CivilOf(c.Seconds()) == c
  {
    var d := CivilOf(c.Seconds());
    ReadingsAreUnique(c, d);
    if Before(c, d) {
      CalendarOrderIsTimeOrder(c, d);
    } else if Before(d, c) {
      CalendarOrderIsTimeOrder(d, c);
    }
  }

  // ------------------------------------------------------------------ text

  // Byte order of two strings, as `<` and `<=` of the store's text columns.
  predicate TextBefore(a: string, b: string) {
    b != [] && (a == [] || a[0] < b[0] || (a[0] == b[0] && TextBefore(a[1..], b[1..])))
  }

  predicate TextLeq(a: string, b: string) {
    a == b || TextBefore(a, b)
  }

  lemma {:induction false} TextOrderIsStrict(a: string, b: string)
    ensures !(TextBefore(a, b) && TextBefore(b, a)) && !TextBefore(a, a)
  {
    if a != [] {
      TextOrderIsStrict(a[1..], if b == [] then [] else b[1..]);
    }
  }

  lemma {:induction false} TextOrderSplits(a: string, b: string, c: string, d: string)
    requires |a| == |c|
    ensures TextBefore(a + b, c + d) <==> TextBefore(a, c) || (a == c && TextBefore(b, d))
  {
    if a == [] {
      assert a + b == b && c + d == d;
    } else {
      assert (a + b)[1..] == a[1..] + b && (c + d)[1..] == c[1..] + d;
      TextOrderSplits(a[1..], b, c[1..], d);
      assert a == [a[0]] + a[1..] && c == [c[0]] + c[1..];
    }
  }

  function Pow10(w: nat): nat {
    if w == 0 then 1 else 10 * Pow10(w - 1)
  }

  // The w lowest decimal digits of n.
  function Digits(n: nat, w: nat): (s: string)
    ensures |s| == w
  {
    if w == 0 then "" else Digits(n / 10, w - 1) + [Digit(n % 10)]
  }

  function ParseDigits(s: string): Option<nat> {
    if s == "" then Some(0)
    else
      var n := s[|s| - 1];
      match ParseDigits(s[..|s| - 1])
      case Some(high) => if IsDigit(n) then Some(10 * high + (n - '0') as nat) else None
      case None => None
  }

  lemma {:induction false} DigitsParse(n: nat, w: nat)
    requires n < Pow10(w)
    ensures ParseDigits(Digits(n, w)) == Some(n)
  {
    if w > 0 {
      DigitsParse(n / 10, w - 1);
      assert Digits(n, w)[..w - 1] == Digits(n / 10, w - 1);
    }
  }

  lemma {:induction false} DigitsKeepOrder(m: nat, n: nat, w: nat)
    requires m < n < Pow10(w)
    ensures TextBefore(Digits(m, w), Digits(n, w))
  {
    TextOrderSplits(Digits(m / 10, w - 1), [Digit(m % 10)], Digits(n / 10, w - 1), [Digit(n % 10)]);
    if m / 10 < n / 10 {
      DigitsKeepOrder(m / 10, n / 10, w - 1);
    }
  }

  // ------------------------------------------------------------------ RFC 3339

  function YearText(y: nat): string {
    if y < 10_000 then Digits(y, 4) else Decimal(y)
  }

  function ClockText(c: Civil): string {
    Digits(c.hour, 2) + (":" + (Digits(c.minute, 2) + (":" + (Digits(c.second, 2) + "Z"))))
  }

  function DateTail(c: Civil): string {
    "-" + (Digits(c.month, 2) + ("-" + (Digits(c.day, 2) + ("T" + ClockText(c)))))
  }

  function CivilText(c: Civil): string {
    YearText(c.year) + DateTail(c)
  }

  function FormatTime(t: nat): string {
    CivilText(CivilOf(t / NANOS_PER_SECOND))
  }

  function ParseTime(s: string): Result<nat> {
    if |s| == 20 && s[4] == '-' && s[7] == '-' && s[10] == 'T' && s[13] == ':' && s[16] == ':' && s[19] == 'Z' then
      match (ParseDigits(s[0..4]), ParseDigits(s[5..7]), ParseDigits(s[8..10]),
             ParseDigits(s[11..13]), ParseDigits(s[14..16]), ParseDigits(s[17..19]))
      case (Some(y), Some(mo), Some(d), Some(h), Some(mi), Some(sec)) =>
        var c := Civil(y, mo, d, h, mi, sec);
        if c.Valid() then Ok(c.Seconds() * NANOS_PER_SECOND) else Err("value out of range")
      case _ => Err("cannot parse")
    else Err("cannot parse")
  }

  // The first instant whose year needs five digits.
  function EndOfFourDigitYears(): nat {
    DaysBeforeYear(10_000) * SECONDS_PER_DAY * NANOS_PER_SECOND
  }

  lemma FourDigitYear(t: nat)
    ensures CivilOf(t / NANOS_PER_SECOND).year < 10_000 <==> t < EndOfFourDigitYears()
  {
    var c := CivilOf(t / NANOS_PER_SECOND);
    if c.year < 10_000 {
      YearsAccumulate(c.year, 10_000);
      MonthsAccumulate(c.year, c.month, 13);
      MonthsFillTheYear(c.year);
      assert c.Days() < DaysBeforeYear(10_000);
    } else {
      if c.year > 10_000 {
        YearsAccumulate(10_000, c.year);
      }
      assert c.Days() >= DaysBeforeYear(10_000);
    }
  }

  lemma TwoDigits(n: nat)
    requires n < 100
    ensures ParseDigits(Digits(n, 2)) == Some(n)
  {
    assert Pow10(2) == 100;
    DigitsParse(n, 2);
  }

  lemma CutField(s: string, i: nat, field: string, sep: char, rest: string)
    requires i <= |s| && (s[i..] == field + ([sep] + rest) || (rest == "" && s[i..] == field + [sep]))
    ensures var j := i + |field|; j < |s| && s[i..j] == field && s[j] == sep && s[j + 1..] == rest
  {
    var j := i + |field|;
    var tail := s[i..];
    assert tail == field + ([sep] + rest);
    assert s[i..j] == tail[..|field|];
    assert s[j + 1..] == tail[|field| + 1..];
    assert s[j] == tail[|field|];
  }

  // Cutting a text of the RFC 3339 shape gives its fields.
  lemma FieldsOf(y: string, mo: string, d: string, h: string, mi: string, sec: string)
    requires |y| == 4 && |mo| == |d| == |h| == |mi| == |sec| == 2
    ensures var s := y + ("-" + (mo + ("-" + (d + ("T" + (h + (":" + (mi + (":" + (sec + "Z"))))))))));
            && |s| == 20 && s[4] == '-' && s[7] == '-' && s[10] == 'T' && s[13] == ':' && s[16] == ':' && s[19] == 'Z'
            && s[0..4] == y && s[5..7] == mo && s[8..10] == d && s[11..13] == h && s[14..16] == mi && s[17..19] == sec
  {
    var s := y + ("-" + (mo + ("-" + (d + ("T" + (h + (":" + (mi + (":" + (sec + "Z"))))))))));
    assert s[0..] == s;
    CutField(s, 0, y, '-', mo + ("-" + (d + ("T" + (h + (":" + (mi + (":" + (sec + "Z")))))))));
    CutField(s, 5, mo, '-', d + ("T" + (h + (":" + (mi + (":" + (sec + "Z")))))));
    CutField(s, 8, d, 'T', h + (":" + (mi + (":" + (sec + "Z")))));
    CutField(s, 11, h, ':', mi + (":" + (sec + "Z")));
    CutField(s, 14, mi, ':', sec + "Z");
    CutField(s, 17, sec, 'Z', "");
  }

  lemma CivilTextParses(c: Civil)
    requires c.Valid() && c.year < 10_000
    ensures ParseTime(CivilText(c)) == Ok(c.Seconds() * NANOS_PER_SECOND)
  {
    FieldsOf(Digits(c.year, 4), Digits(c.month, 2), Digits(c.day, 2), Digits(c.hour, 2), Digits(c.minute, 2), Digits(c.second, 2));
    assert Pow10(4) == 10_000 by { assert Pow10(2) == 100; }
    DigitsParse(c.year, 4);
    TwoDigits(c.month);
    TwoDigits(c.day);
    TwoDigits(c.hour);
    TwoDigits(c.minute);
    TwoDigits(c.second);
  }

  /** Parsing what was formatted gives the instant cut to whole seconds, for four-digit years. */
  lemma FormatThenParse(t: nat)
    requires t < EndOfFourDigitYears()
    ensures ParseTime(FormatTime(t)) == Ok(t / NANOS_PER_SECOND * NANOS_PER_SECOND)
  {
    FourDigitYear(t);
    CivilTextParses(CivilOf(t / NANOS_PER_SECOND));
  }

  lemma FieldOrder(m: nat, n: nat, b: string, d: string)
    requires m < 100 && n < 100 && |b| == |d|
    ensures m < n ==> TextBefore(Digits(m, 2) + b, Digits(n, 2) + d)
    ensures m == n && TextBefore(b, d) ==> TextBefore(Digits(m, 2) + b, Digits(n, 2) + d)
  {
    TextOrderSplits(Digits(m, 2), b, Digits(n, 2), d);
    if m < n {
      assert Pow10(2) == 100;
      DigitsKeepOrder(m, n, 2);
    }
  }

  lemma ClockTextKeepsOrder(a: Civil, b: Civil)
    requires a.Valid() && b.Valid() && a.SecondOfDay() < b.SecondOfDay()
    ensures TextBefore(ClockText(a), ClockText(b))
  {
    var as', bs := Digits(a.second, 2) + "Z", Digits(b.second, 2) + "Z";
    var am, bm := Digits(a.minute, 2) + (":" + as'), Digits(b.minute, 2) + (":" + bs);
    FieldOrder(a.second, b.second, "Z", "Z");
    FieldOrder(a.minute, b.minute, ":" + as', ":" + bs);
    FieldOrder(a.hour, b.hour, ":" + am, ":" + bm);
    assert a.hour < b.hour || (a.hour == b.hour && (a.minute < b.minute || (a.minute == b.minute && a.second < b.second)));
  }

  lemma CivilTextKeepsOrder(a: Civil, b: Civil)
    requires a.Valid() && b.Valid() && a.year < 10_000 && b.year < 10_000 && Before(a, b)
    ensures TextBefore(CivilText(a), CivilText(b))
  {
    var ac, bc := "T" + ClockText(a), "T" + ClockText(b);
    var ad, bd := Digits(a.day, 2) + ac, Digits(b.day, 2) + bc;
    var am, bm := Digits(a.month, 2) + ("-" + ad), Digits(b.month, 2) + ("-" + bd);
    if a.SecondOfDay() < b.SecondOfDay() {
      ClockTextKeepsOrder(a, b);
    }
    FieldOrder(a.day, b.day, ac, bc);
    FieldOrder(a.month, b.month, "-" + ad, "-" + bd);
    assert Pow10(4) == 10_000 by { assert Pow10(2) == 100; }
    TextOrderSplits(Digits(a.year, 4), "-" + am, Digits(b.year, 4), "-" + bm);
    if a.year < b.year {
      DigitsKeepOrder(a.year, b.year, 4);
    }
  }

  /** For four-digit years the byte order of formatted instants is exactly their order in whole seconds. */
  lemma TextOrderIsTimeOrder(t: nat, u: nat)
    requires t < EndOfFourDigitYears() && u < EndOfFourDigitYears()
    ensures TextLeq(FormatTime(t), FormatTime(u)) <==> t / NANOS_PER_SECOND <= u / NANOS_PER_SECOND
  {
    FourDigitYear(t);
    FourDigitYear(u);
    var a, b := CivilOf(t / NANOS_PER_SECOND), CivilOf(u / NANOS_PER_SECOND);
    ReadingsAreUnique(a, b);
    if Before(a, b) {
      CivilTextKeepsOrder(a, b);
      CalendarOrderIsTimeOrder(a, b);
    } else if Before(b, a) {
      CivilTextKeepsOrder(b, a);
      CalendarOrderIsTimeOrder(b, a);
      TextOrderIsStrict(FormatTime(t), FormatTime(u));
    }
  }

  // ------------------------------------------------------------------ what is read at all

  lemma OneMoreDigit(high: nat, c: char, w: nat)
    requires IsDigit(c) && high < Pow10(w)
    ensures var n := 10 * high + (c - '0') as nat;
            Digits(n, w + 1) == Digits(high, w) + [c] && n < Pow10(w + 1)
  {
    var n := 10 * high + (c - '0') as nat;
    assert n / 10 == high && Digit(n % 10) == c;
  }

  lemma {:induction false} ParsedDigits(s: string)
    requires ParseDigits(s).Some?
    ensures Digits(ParseDigits(s).value, |s|) == s && ParseDigits(s).value < Pow10(|s|)
    decreases |s|
  {
    hide Digits, Pow10;
    if s == "" {
      NoDigitsLeft();
    } else {
      var n := |s| - 1;
      ParsedDigits(s[..n]);
      OneMoreDigit(ParseDigits(s[..n]).value, s[n], n);
      assert s == s[..n] + [s[n]];
    }
  }

  lemma NoDigitsLeft()
    ensures Digits(0, 0) == "" && 0 < Pow10(0)
  {}

  lemma FieldsMakeText(s: string)
    requires |s| == 20 && s[4] == '-' && s[7] == '-' && s[10] == 'T' && s[13] == ':' && s[16] == ':' && s[19] == 'Z'
    ensures s == s[0..4] + ("-" + (s[5..7] + ("-" + (s[8..10] + ("T" + (s[11..13] + (":" + (s[14..16] + (":" + (s[17..19] + "Z"))))))))))
  {
    assert s[0..] == s;
    CutOne(s, 0, 4);
    CutOne(s, 5, 7);
    CutOne(s, 8, 10);
    CutOne(s, 11, 13);
    CutOne(s, 14, 16);
    CutOne(s, 17, 19);
    assert s[17..] == s[17..19] + "Z";
  }

  lemma CutOne(s: string, i: nat, j: nat)
    requires i <= j < |s|
    ensures s[i..] == s[i..j] + ([s[j]] + s[j + 1..])
  {}

  // The fields a text of twenty characters was read as.
  lemma FieldsRead(s: string) returns (c: Civil)
    requires |s| == 20 && ParseTime(s).Ok?
    ensures s[4] == '-' && s[7] == '-' && s[10] == 'T' && s[13] == ':' && s[16] == ':' && s[19] == 'Z'
    ensures ParseDigits(s[0..4]) == Some(c.year) && ParseDigits(s[5..7]) == Some(c.month) && ParseDigits(s[8..10]) == Some(c.day)
    ensures ParseDigits(s[11..13]) == Some(c.hour) && ParseDigits(s[14..16]) == Some(c.minute) && ParseDigits(s[17..19]) == Some(c.second)
    ensures c.Valid() && ParseTime(s).value == c.Seconds() * NANOS_PER_SECOND
  {
    hide ParseDigits, Civil.Seconds, Civil.Valid;
    c := Civil(ParseDigits(s[0..4]).value, ParseDigits(s[5..7]).value, ParseDigits(s[8..10]).value,
               ParseDigits(s[11..13]).value, ParseDigits(s[14..16]).value, ParseDigits(s[17..19]).value);
  }

  lemma ReadTextIsWritten(s: string)
    requires |s| == 20 && ParseTime(s).Ok?
    ensures ParseTime(s).value < EndOfFourDigitYears() && ParseTime(s).value % NANOS_PER_SECOND == 0
    ensures FormatTime(ParseTime(s).value) == s
  {
    hide ParseTime, ParseDigits, Digits, CivilText, FormatTime, EndOfFourDigitYears, CivilOf, Civil.Seconds, Civil.Valid;
    var c := FieldsRead(s);
    ParsedDigits(s[0..4]);
    ParsedDigits(s[5..7]);
    ParsedDigits(s[8..10]);
    ParsedDigits(s[11..13]);
    ParsedDigits(s[14..16]);
    ParsedDigits(s[17..19]);
    FieldsMakeText(s);
    assert Pow10(4) == 10_000 by { assert Pow10(2) == 100; }
    TextOfFields(c, s);
    FormatOf(c, c.Seconds());
    YearOfInstant(c, c.Seconds());
  }

  lemma TextOfFields(c: Civil, s: string)
    requires |s| == 20 && c.year < 10_000
    requires s == s[0..4] + ("-" + (s[5..7] + ("-" + (s[8..10] + ("T" + (s[11..13] + (":" + (s[14..16] + (":" + (s[17..19] + "Z"))))))))))
    requires Digits(c.year, 4) == s[0..4] && Digits(c.month, 2) == s[5..7] && Digits(c.day, 2) == s[8..10]
    requires Digits(c.hour, 2) == s[11..13] && Digits(c.minute, 2) == s[14..16] && Digits(c.second, 2) == s[17..19]
    ensures CivilText(c) == s
  {
    hide Digits;
  }

  lemma YearOfInstant(c: Civil, s: nat)
    requires c.Valid() && c.Seconds() == s && c.year < 10_000
    ensures s * NANOS_PER_SECOND < EndOfFourDigitYears() && s * NANOS_PER_SECOND % NANOS_PER_SECOND == 0
  {
    hide CivilOf, EndOfFourDigitYears, Civil.Seconds;
    ReadingBack(c);
    FourDigitYear(s * NANOS_PER_SECOND);
    assert s * NANOS_PER_SECOND / NANOS_PER_SECOND == s;
  }

  /** Of the texts of twenty characters, exactly the formatted whole seconds of the years 0 to 9999
      are read, each as its own instant. */
  lemma ParsesExactly(s: string, t: nat)
    requires |s| == 20
    ensures ParseTime(s) == Ok(t) <==> t < EndOfFourDigitYears() && t % 1_000_000_000 == 0 && s == FormatTime(t)
  {
    hide ParseTime, FormatTime, EndOfFourDigitYears;
    if ParseTime(s).Ok? {
      ReadTextIsWritten(s);
    }
    if t < EndOfFourDigitYears() && t % 1_000_000_000 == 0 && s == FormatTime(t) {
      FormatThenParse(t);
    }
  }

  // ------------------------------------------------------------------ known dates

  lemma ByFours(x: nat)
    ensures (x + 4) / 4 - (x + 3) / 4 == if x % 4 == 0 then 1 else 0
  {}

  lemma ByHundreds(x: nat)
    ensures (x + 100) / 100 - (x + 99) / 100 == if x % 100 == 0 then 1 else 0
  {}

  lemma ByFourHundreds(x: nat)
    ensures (x + 400) / 400 - (x + 399) / 400 == if x % 400 == 0 then 1 else 0
  {}

  lemma HundredsAreFours(x: nat)
    ensures (x % 400 == 0 ==> x % 100 == 0) && (x % 100 == 0 ==> x % 4 == 0)
  {
    if x % 400 == 0 {
      var q := 4 * (x / 400);
      assert x == 100 * q;
    }
    if x % 100 == 0 {
      var q := 25 * (x / 100);
      assert x == 4 * q;
    }
  }

  function GregorianDays(y: nat): int {
    365 * y + (y + 3) / 4 - (y + 99) / 100 + (y + 399) / 400
  }

  lemma OneMoreYear(x: nat)
    ensures GregorianDays(x + 1) - GregorianDays(x)
         == 365 + (if x % 4 == 0 then 1 else 0) - (if x % 100 == 0 then 1 else 0) + (if x % 400 == 0 then 1 else 0)
  {
    ByFours(x);
    ByHundreds(x);
    ByFourHundreds(x);
  }

  /** The calendar is the Gregorian one: leap years by fours, not by hundreds, but by four hundreds. */
  lemma {:induction false} DaysBeforeYearAre(y: nat)
    ensures DaysBeforeYear(y) == 365 * y + (y + 3) / 4 - (y + 99) / 100 + (y + 399) / 400
  {
    assert DaysBeforeYear(y) == GregorianDays(y) by { YearsAreGregorian(y); }
  }

  lemma {:induction false} YearsAreGregorian(y: nat)
    ensures DaysBeforeYear(y) == GregorianDays(y)
  {
    if y > 0 {
      hide GregorianDays;
      YearsAreGregorian(y - 1);
      OneMoreYear(y - 1);
      HundredsAreFours(y - 1);
    } else {
      assert GregorianDays(0) == 0;
    }
  }

  /** The days before each month, in a formula of their own. */
  lemma DaysBeforeMonthAre(y: nat, m: nat)
    requires 1 <= m <= 12
    ensures DaysBeforeMonth(y, m) == (367 * m - 362) / 12 - if m <= 2 then 0 else if DaysBeforeYear(y + 1) - DaysBeforeYear(y) == 366 then 1 else 2
  {
    if m > 1 {
      DaysBeforeMonthAre(y, m - 1);
    }
  }

  lemma FirstDayOf(y: nat, days: nat)
    requires 365 * y + (y + 3) / 4 - (y + 99) / 100 + (y + 399) / 400 == days
    ensures Civil(y, 1, 1, 0, 0, 0).Valid() && Civil(y, 1, 1, 0, 0, 0).Seconds() == days * 86_400
  {
    hide DaysBeforeYear;
    DaysBeforeYearAre(y);
    assert DaysBeforeMonth(y, 1) == 0;
  }

  lemma LeapDaySeconds()
    ensures var c := Civil(2000, 2, 29, 12, 34, 56);
            c.Valid() && c.Seconds() == 719_528 * 86_400 + 951_827_696
  {
    hide DaysBeforeYear;
    DaysBeforeYearAre(2000);
    assert DaysBeforeMonth(2000, 2) == 31;
  }

  /** The Unix epoch lies 719528 days in, and a known leap day is read and written as such. */
  lemma KnownDates()
    ensures FormatTime(719_528 * 86_400_000_000_000) == "1970-01-01T00:00:00Z"
    ensures FormatTime((719_528 * 86_400 + 951_827_696) * 1_000_000_000) == "2000-02-29T12:34:56Z"
  {
    hide CivilOf, FormatTime, CivilText, Digits, Civil.Seconds;
    FirstDayOf(1970, 719_528);
    LeapDaySeconds();
    FormatOf(Civil(1970, 1, 1, 0, 0, 0), 719_528 * 86_400);
    FormatOf(Civil(2000, 2, 29, 12, 34, 56), 719_528 * 86_400 + 951_827_696);
    TextOfEpoch();
    TextOfLeapDay();
  }

  lemma FourDigits(n: nat)
    requires n < 10_000
    ensures Digits(n, 4) == [Digit(n / 1000), Digit(n / 100 % 10), Digit(n / 10 % 10), Digit(n % 10)]
  {
    hide Digit;
    TwoDigitText(n / 100);
    assert n / 10 / 10 == n / 100 && n / 100 / 10 == n / 1000;
    assert Digits(n / 10, 3) == Digits(n / 100, 2) + [Digit(n / 10 % 10)];
    assert Digits(n, 4) == Digits(n / 10, 3) + [Digit(n % 10)];
  }

  lemma TwoDigitText(n: nat)
    requires n < 100
    ensures Digits(n, 2) == [Digit(n / 10), Digit(n % 10)]
  {
    OneDigitText(n / 10);
  }

  lemma OneDigitText(n: nat)
    requires n < 10
    ensures Digits(n, 1) == [Digit(n)]
  {
    assert Digits(n / 10, 0) == "";
  }

  lemma ClockTextIs(c: Civil)
    requires c.Valid()
    ensures ClockText(c) == [Digit(c.hour / 10), Digit(c.hour % 10), ':', Digit(c.minute / 10), Digit(c.minute % 10), ':',
                             Digit(c.second / 10), Digit(c.second % 10), 'Z']
  {
    hide Digits, Digit;
    TwoDigitText(c.hour);
    TwoDigitText(c.minute);
    TwoDigitText(c.second);
  }

  lemma DateTailIs(c: Civil)
    requires c.Valid()
    ensures DateTail(c) == ['-', Digit(c.month / 10), Digit(c.month % 10), '-', Digit(c.day / 10), Digit(c.day % 10), 'T'] + ClockText(c)
  {
    hide Digits, Digit, ClockText;
    TwoDigitText(c.month);
    TwoDigitText(c.day);
  }

  lemma TailOfEpoch(c: Civil)
    requires c == Civil(1970, 1, 1, 0, 0, 0)
    ensures DateTail(c) == "-01-01T00:00:00Z"
  {
    hide ClockText, DateTail;
    DateTailIs(c);
    ClockTextIs(c);
  }

  lemma KnownYears(y: nat)
    ensures y == 1970 ==> Digits(y, 4) == "1970"
    ensures y == 2000 ==> Digits(y, 4) == "2000"
  {
    hide Digits;
    if y < 10_000 {
      FourDigits(y);
    }
  }

  lemma TextOfEpoch()
    ensures CivilText(Civil(1970, 1, 1, 0, 0, 0)) == "1970-01-01T00:00:00Z"
  {
    hide Digits, Decimal, DateTail, CivilText, YearText;
    KnownYears(1970);
    TailOfEpoch(Civil(1970, 1, 1, 0, 0, 0));
    TextOfYear(Civil(1970, 1, 1, 0, 0, 0), "1970", "-01-01T00:00:00Z");
  }

  lemma ClockOfLeapDay(c: Civil)
    requires c == Civil(2000, 2, 29, 12, 34, 56)
    ensures ClockText(c) == "12:34:56Z"
  {
    hide ClockText;
    ClockTextIs(c);
  }

  lemma TailOfLeapDay(c: Civil)
    requires c == Civil(2000, 2, 29, 12, 34, 56)
    ensures DateTail(c) == "-02-29T12:34:56Z"
  {
    hide ClockText, DateTail;
    DateTailIs(c);
    ClockOfLeapDay(c);
  }

  lemma TextOfYear(c: Civil, year: string, tail: string)
    requires c.year < 10_000 && Digits(c.year, 4) == year && DateTail(c) == tail
    ensures CivilText(c) == year + tail
  {
    hide Digits, Decimal, DateTail;
  }

  lemma TextOfLeapDay()
    ensures CivilText(Civil(2000, 2, 29, 12, 34, 56)) == "2000-02-29T12:34:56Z"
  {
    hide Digits, Decimal, DateTail, CivilText, YearText;
    KnownYears(2000);
    TailOfLeapDay(Civil(2000, 2, 29, 12, 34, 56));
    TextOfYear(Civil(2000, 2, 29, 12, 34, 56), "2000", "-02-29T12:34:56Z");
  }

  lemma FirstCharacterDecides(a: string, b: string)
    requires a != [] && b != [] && a[0] > b[0]
    ensures !TextLeq(a, b)
  {}

  lemma TextOfTheTurn()
    ensures !TextLeq(CivilText(Civil(9_999, 12, 31, 23, 59, 59)), CivilText(Civil(10_000, 1, 1, 0, 0, 0)))
  {
    assert Digits(9_999, 4)[0] == '9' by {
      assert Digits(9_999, 4) == Digits(999, 3) + "9";
      assert Digits(999, 3) == Digits(99, 2) + "9";
      assert Digits(99, 2) == Digits(9, 1) + "9";
    }
    assert Decimal(10_000)[0] == '1' by {
      assert Decimal(10_000) == Decimal(1_000) + "0";
      assert Decimal(1_000) == Decimal(100) + "0";
      assert Decimal(100) == Decimal(10) + "0";
    }
    FirstCharacterDecides(CivilText(Civil(9_999, 12, 31, 23, 59, 59)), CivilText(Civil(10_000, 1, 1, 0, 0, 0)));
  }

  lemma LastSecondOfYear(y: nat)
    ensures Civil(y, 12, 31, 23, 59, 59).Seconds() + 1 == Civil(y + 1, 1, 1, 0, 0, 0).Seconds() == DaysBeforeYear(y + 1) * SECONDS_PER_DAY
  {
    MonthsFillTheYear(y);
    assert DaysBeforeMonth(y, 13) == DaysBeforeMonth(y, 12) + 31;
  }

  lemma FormatOf(c: Civil, s: nat)
    requires c.Valid() && c.Seconds() == s
    ensures FormatTime(s * NANOS_PER_SECOND) == CivilText(c)
  {
    hide Digits, CivilText, CivilOf, Civil.Seconds;
    ReadingBack(c);
    assert s * NANOS_PER_SECOND / NANOS_PER_SECOND == s;
  }

  lemma TurnOfTheYear(y: nat)
    requires y > 0
    ensures var u := DaysBeforeYear(y + 1) * SECONDS_PER_DAY * NANOS_PER_SECOND;
            && u > NANOS_PER_SECOND
            && FormatTime(u) == CivilText(Civil(y + 1, 1, 1, 0, 0, 0))
            && FormatTime(u - NANOS_PER_SECOND) == CivilText(Civil(y, 12, 31, 23, 59, 59))
  {
    hide Digits, CivilText, CivilOf, Civil.Seconds, FormatTime;
    var s := DaysBeforeYear(y + 1) * SECONDS_PER_DAY;
    LastSecondOfYear(y);
    YearsAccumulate(0, y + 1);
    FormatOf(Civil(y + 1, 1, 1, 0, 0, 0), s);
    FormatOf(Civil(y, 12, 31, 23, 59, 59), s - 1);
  }

  lemma YearTenThousandSortsFirst(y: nat, u: nat)
    requires y == 9_999 && u == DaysBeforeYear(y + 1) * SECONDS_PER_DAY * NANOS_PER_SECOND
    ensures u > NANOS_PER_SECOND && !TextLeq(FormatTime(u - NANOS_PER_SECOND), FormatTime(u))
  {
    hide CivilText, FormatTime, TextLeq, DaysBeforeYear;
    TurnOfTheYear(y);
    TextOfTheTurn();
  }

  /** Comparing formatted instants is comparing instants on a whole range starting at year 0
      exactly when the range stays inside the four-digit years. */
  lemma TextOrderRange(limit: nat)
    ensures limit < EndOfFourDigitYears() <==>
            forall t: nat, u: nat :: t <= limit && u <= limit ==>
              (TextLeq(FormatTime(t), FormatTime(u)) <==> t / NANOS_PER_SECOND <= u / NANOS_PER_SECOND)
  {
    if limit < EndOfFourDigitYears() {
      forall t: nat, u: nat | t <= limit && u <= limit
        ensures TextLeq(FormatTime(t), FormatTime(u)) <==> t / NANOS_PER_SECOND <= u / NANOS_PER_SECOND
      {
        TextOrderIsTimeOrder(t, u);
      }
    } else {
      var u := EndOfFourDigitYears();
      YearTenThousandSortsFirst(9_999, u);
      var t: nat := u - NANOS_PER_SECOND;
      assert t <= limit && u <= limit && t / NANOS_PER_SECOND <= u / NANOS_PER_SECOND;
    }
  }
}
