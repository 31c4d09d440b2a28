/**
 * The schedule's notion of time: the HH:MM validation, the day-of-week rule
 * and the computation of a schedule's next execution instant.
 *
 * Instants are whole seconds on the scheduler's local clock, counted from
 * 1970-01-01 00:00 local time, which was a Thursday.
 */
module Recurrence {
  import opened Wrappers
  import opened Text

  const SecondsPerDay: int := 86400

  /** Python's weekday() of day 0 (Monday = 0, so Thursday = 3). */
  const EpochWeekday: int := 3

  /** `t.weekday()` */
  function Weekday(t: int): int {
    (t / SecondsPerDay + EpochWeekday) % 7
  }

  /** Seconds since local midnight. */
  function SecondOfDay(t: int): int {
    t % SecondsPerDay
  }

  /** Local midnight of the day holding `t`. */
  function DayStart(t: int): int {
    t - t % SecondsPerDay
  }

  /** `c + timedelta(days=i)` */
  function DayAfter(c: int, i: int): int {
    c + i * SecondsPerDay
  }

  datatype TimeOfDay = TimeOfDay(hour: nat, minute: nat)

  /** The offset of hh:mm:00 from midnight. */
  function Seconds(t: TimeOfDay): nat {
    t.hour * 3600 + t.minute * 60
  }

  // ---------------------------------------------------------------------------
  // _validate_time_format: datetime.strptime(time_str, '%H:%M')
  // ---------------------------------------------------------------------------

  /**
   * One field of strptime's pattern: a single digit, or two digits whose value
   * is at most `max` (%H is `2[0-3]|[0-1]\d|\d`, %M is `[0-5]\d|\d`).
   */
  function ParseField(s: string, max: nat): (r: Option<nat>)
    ensures r.Some? ==> r.value <= max || |s| == 1
  {
    if |s| == 1 && IsDigit(s[0]) then Some(DigitValue(s[0]))
    else if |s| == 2 && AllDigits(s) && DecimalValue(s) <= max then Some(DecimalValue(s))
    else None
  }

  /** The hour and minute of a string that matches `%H:%M` in full, if it does. */
  function ParseTime(s: string): (r: Option<TimeOfDay>)
    ensures r.Some? ==> r.value.hour < 24 && r.value.minute < 60
  {
    var fields := Split(s, ':');
    if |fields| != 2 then None
    else
      var h := ParseField(fields[0], 23);
      var m := ParseField(fields[1], 59);
      if h.Some? && m.Some? then Some(TimeOfDay(h.value, m.value)) else None
  }

  /**
   * `_validate_time_format`: the text is an hour and a minute separated by
   * the only colon, the hour one digit or two up to 23, the minute one digit
   * or two up to 59.
   */
  predicate ValidTimeFormat(s: string)
    ensures ValidTimeFormat(s) <==>
              var fields := Split(s, ':');
              |fields| == 2 && ParseField(fields[0], 23).Some? && ParseField(fields[1], 59).Some?
  {
    ParseTime(s).Some?
  }

  /** Two-digit, zero-padded decimal text of `n < 100`. */
  function Pad2(n: nat): (r: string)
    requires n < 100
  {
    if n < 10 then "0" + NatToString(n) else NatToString(n)
  }

  /** `strftime('%H:%M')` */
  function FormatTime(t: TimeOfDay): string
    requires t.hour < 24 && t.minute < 60
  {
    Pad2(t.hour) + ":" + Pad2(t.minute)
  }

  lemma Pad2Digits(n: nat)
    requires n < 100
    ensures |Pad2(n)| == 2 && AllDigits(Pad2(n)) && DecimalValue(Pad2(n)) == n
    ensures ':' !in Pad2(n)
  {
    DecimalValueOfNatToString(n);
    var s := Pad2(n);
    if n < 10 {
      assert s[..1] == "0";
      assert DecimalValue(s[..1]) == 0;
    } else {
      assert n / 10 < 10;
      assert NatToString(n) == NatToString(n / 10) + [DigitChar(n % 10)];
    }
  }

  /** Every time of day formatted as HH:MM is accepted and read back unchanged. */
  lemma ParseFormatTime(t: TimeOfDay)
    requires t.hour < 24 && t.minute < 60
    ensures ParseTime(FormatTime(t)) == Some(t)
  {
    Pad2Digits(t.hour);
    Pad2Digits(t.minute);
    SplitJoin([Pad2(t.hour), Pad2(t.minute)], ':');
    assert Join([Pad2(t.hour), Pad2(t.minute)], ':') == FormatTime(t);
  }

  /**
   * `_calculate_next_execution` reads the hour and minute back with
   * `map(int, time_str.split(':'))`; on every string that passed validation
   * this gives exactly the fields strptime matched.
   */
  lemma SplitIntAgreesWithStrptime(s: string)
    requires ValidTimeFormat(s)
    ensures |Split(s, ':')| == 2
    ensures PyInt(Split(s, ':')[0]) == Some(ParseTime(s).value.hour as int)
    ensures PyInt(Split(s, ':')[1]) == Some(ParseTime(s).value.minute as int)
  {
    var fields := Split(s, ':');
    FieldPyInt(fields[0], 23);
    FieldPyInt(fields[1], 59);
  }

  lemma FieldPyInt(f: string, max: nat)
    requires ParseField(f, max).Some?
    ensures PyInt(f) == Some(ParseField(f, max).value as int)
  {
    PyIntOfDigits(f);
    if |f| == 1 {
      assert f[..0] == [];
    }
  }

  // ---------------------------------------------------------------------------
  // _parse_days_of_week
  // ---------------------------------------------------------------------------

  /** The keys of the source's `day_map`, in day-number order (Monday = 0). */
  function DayName(d: int): string
    requires 0 <= d < 7
  {
    ["monday", "tuesday", "wednesday", "thursday", "friday", "saturday", "sunday"][d]
  }

  lemma DayNamesDistinct(j: int, k: int)
    requires 0 <= j < 7 && 0 <= k < 7
    requires DayName(j) == DayName(k)
    ensures j == k
  {
    assert DayName(j)[..2] == DayName(k)[..2];
  }

  /** `day_map.get(name)`, looking at day numbers from `d` on. */
  function DayNumberFrom(name: string, d: nat): (r: Option<int>)
    requires d <= 7
    ensures r.Some? ==> d <= r.value < 7 && DayName(r.value) == name
    ensures r.None? ==> forall k :: d <= k < 7 ==> DayName(k) != name
    decreases 7 - d
  {
    if d == 7 then None
    else if DayName(d) == name then Some(d)
    else DayNumberFrom(name, d + 1)
  }

  /** `day_map.get(name)` */
  function DayNumber(name: string): (r: Option<int>)
    ensures r.Some? ==> 0 <= r.value < 7 && DayName(r.value) == name
    ensures r.None? ==> forall k :: 0 <= k < 7 ==> DayName(k) != name
  {
    DayNumberFrom(name, 0)
  }

  /** The day number of one comma-separated token, after trimming. */
  function TokenDay(token: string): Option<int> {
    DayNumber(Strip(token))
  }

  /** The loop over `days_str.lower().split(',')`: known names in order, unknown ones dropped. */
  function TokenDays(tokens: seq<string>): (r: seq<int>)
    ensures |r| <= |tokens|
    decreases |tokens|
  {
    if tokens == [] then []
    else
      var d := TokenDay(tokens[0]);
      (if d.Some? then [d.value] else []) + TokenDays(tokens[1..])
  }

  /** `_parse_days_of_week`: weekday indices, Monday being 0. */
  function ParseDaysOfWeek(days: string): (r: seq<int>)
    ensures forall k :: 0 <= k < |r| ==> 0 <= r[k] < 7
  {
    TokenDaysInWeek(DayTokens(days));
    if days == "weekdays" then [0, 1, 2, 3, 4]
    else if days == "weekends" then [5, 6]
    else TokenDays(DayTokens(days))
  }

  /** `days_str.lower().split(',')` */
  function DayTokens(days: string): seq<string> {
    Split(Lower(days), ',')
  }

  /** A day is listed exactly when some token names it. */
  lemma {:induction false} TokenDaysMembership(tokens: seq<string>, d: int)
    ensures d in TokenDays(tokens) <==> exists i :: 0 <= i < |tokens| && TokenDay(tokens[i]) == Some(d)
    decreases |tokens|
  {
    if tokens != [] {
      TokenDaysMembership(tokens[1..], d);
      if d in TokenDays(tokens[1..]) {
        var i :| 0 <= i < |tokens[1..]| && TokenDay(tokens[1..][i]) == Some(d);
        assert TokenDay(tokens[i + 1]) == Some(d);
      }
      if exists i :: 0 <= i < |tokens| && TokenDay(tokens[i]) == Some(d) {
        var i :| 0 <= i < |tokens| && TokenDay(tokens[i]) == Some(d);
        if i > 0 {
          assert TokenDay(tokens[1..][i - 1]) == Some(d);
        }
      }
    }
  }

  lemma {:induction false} TokenDaysInWeek(tokens: seq<string>)
    ensures forall k :: 0 <= k < |TokenDays(tokens)| ==> 0 <= TokenDays(tokens)[k] < 7
    decreases |tokens|
  {
    if tokens != [] {
      TokenDaysInWeek(tokens[1..]);
    }
  }

  /**
   * "weekdays" is Monday to Friday, "weekends" Saturday and Sunday; any other
   * text is read as comma-separated day names, trimmed and matched without
   * regard to case, and every day number is a weekday index.
   */
  lemma ParseDaysOfWeekMeaning(days: string, d: int)
    ensures days == "weekdays" ==> (d in ParseDaysOfWeek(days) <==> 0 <= d <= 4)
    ensures days == "weekends" ==> (d in ParseDaysOfWeek(days) <==> 5 <= d <= 6)
    ensures days != "weekdays" && days != "weekends" ==>
      (d in ParseDaysOfWeek(days) <==> exists i :: 0 <= i < |DayTokens(days)| && TokenDay(DayTokens(days)[i]) == Some(d))
    ensures d in ParseDaysOfWeek(days) ==> 0 <= d < 7
  {
    if days != "weekdays" && days != "weekends" {
      var tokens := DayTokens(days);
      TokenDaysMembership(tokens, d);
      TokenDaysInWeek(tokens);
    }
  }

  /** The canonical day names joined by commas parse back to the same days. */
  lemma ParseJoinedDayNames(ds: seq<int>)
    requires |ds| >= 1
    requires forall k :: 0 <= k < |ds| ==> 0 <= ds[k] < 7
    ensures ParseDaysOfWeek(Join(DayNamesOf(ds), ',')) == ds
  {
    var names := DayNamesOf(ds);
    var text := Join(names, ',');
    forall k | 0 <= k < |names| ensures ',' !in names[k] && IsLowerCase(names[k]) {
      DayNameFacts(ds[k]);
    }
    SplitJoin(names, ',');
    JoinLowerCase(names, ',');
    LowerOfLowerCase(text);
    if text == "weekdays" || text == "weekends" {
      assert Split(text, ',') == [text];
      assert names[0] == text;
      DayNameFacts(ds[0]);
      assert false;
    }
    TokenDaysOfNames(ds);
  }

  function DayNamesOf(ds: seq<int>): (r: seq<string>)
    requires forall k :: 0 <= k < |ds| ==> 0 <= ds[k] < 7
    ensures |r| == |ds|
    ensures forall k :: 0 <= k < |ds| ==> r[k] == DayName(ds[k])
  {
    seq(|ds|, k requires 0 <= k < |ds| => DayName(ds[k]))
  }

  lemma DayNameLetters(d: int)
    requires 0 <= d < 7
    ensures LowerLetters(DayName(d))
  {
    if d == 0 { assert DayName(d) == "monday"; }
    else if d == 1 { assert DayName(d) == "tuesday"; }
    else if d == 2 { assert DayName(d) == "wednesday"; }
    else if d == 3 { assert DayName(d) == "thursday"; }
    else if d == 4 { assert DayName(d) == "friday"; }
    else if d == 5 { assert DayName(d) == "saturday"; }
    else { assert DayName(d) == "sunday"; }
  }

  lemma DayNameFacts(d: int)
    requires 0 <= d < 7
    ensures ',' !in DayName(d) && IsLowerCase(DayName(d)) && NoSpace(DayName(d))
    ensures DayName(d) != "weekdays" && DayName(d) != "weekends"
    ensures TokenDay(DayName(d)) == Some(d)
  {
    DayNameLetters(d);
    LowerLettersFacts(DayName(d));
    StripOfNoSpace(DayName(d));
    var r := DayNumber(DayName(d));
    DayNamesDistinct(r.value, d);
  }

  lemma {:induction false} TokenDaysOfNames(ds: seq<int>)
    requires forall k :: 0 <= k < |ds| ==> 0 <= ds[k] < 7
    ensures TokenDays(DayNamesOf(ds)) == ds
    decreases |ds|
  {
    if ds != [] {
      DayNameFacts(ds[0]);
      assert DayNamesOf(ds)[1..] == DayNamesOf(ds[1..]);
      TokenDaysOfNames(ds[1..]);
    }
  }

  lemma {:induction false} JoinLowerCase(xs: seq<string>, sep: char)
    requires LowerChar(sep) == sep
    requires forall k :: 0 <= k < |xs| ==> IsLowerCase(xs[k])
    ensures IsLowerCase(Join(xs, sep))
    decreases |xs|
  {
    if |xs| > 1 {
      JoinLowerCase(xs[1..], sep);
    }
  }

  // ---------------------------------------------------------------------------
  // _calculate_next_execution
  // ---------------------------------------------------------------------------

  /** Today at hh:mm:00, or tomorrow when that is not after `now`. */
  function FirstCandidate(tod: nat, now: int): int
    requires tod < SecondsPerDay
  {
    var c := DayStart(now) + tod;
    if c <= now then c + SecondsPerDay else c
  }

  /**
   * The number of days the source's `for _ in range(steps)` loop advances
   * candidate `c` before it meets a weekday in `target`.
   */
  function DaysToTarget(c: int, target: seq<int>, steps: nat): (j: nat)
    ensures j <= steps
    decreases steps
  {
    if steps == 0 || Weekday(c) in target then 0
    else 1 + DaysToTarget(c + SecondsPerDay, target, steps - 1)
  }

  lemma DaysToTargetSkip(c: int, target: seq<int>, steps: nat)
    requires steps > 0 && Weekday(c) !in target
    ensures DaysToTarget(c, target, steps) == 1 + DaysToTarget(c + SecondsPerDay, target, steps - 1)
  {
  }

  lemma TimeOfDayBound(t: TimeOfDay)
    requires t.hour < 24 && t.minute < 60
    ensures Seconds(t) < SecondsPerDay
  {
  }

  /**
   * The specification of `_calculate_next_execution(time_str, days_of_week)`
   * at `now`: an instant after `now` and at most eight days after it.
   */
  function NextExecution(time: string, days: string, now: int): (r: int)
    requires ValidTimeFormat(time)
    ensures now < r <= now + 8 * SecondsPerDay
  {
    var tod := ParseTime(time).value;
    TimeOfDayBound(tod);
    FirstCandidateFacts(Seconds(tod), now);
    var c := FirstCandidate(Seconds(tod), now);
    if days == "daily" then c else DayAfter(c, DaysToTarget(c, ParseDaysOfWeek(days), 7))
  }

  /** The loop of `_calculate_next_execution`, with `now` passed in. */
  method CalculateNextExecution(time: string, days: string, now: int) returns (next: int)
    requires ValidTimeFormat(time)
    ensures next == NextExecution(time, days, now)
  {
    var fields := Split(time, ':');
    SplitIntAgreesWithStrptime(time);
    var hour := PyInt(fields[0]).value;
    var minute := PyInt(fields[1]).value;
    ghost var tod := ParseTime(time).value;
    TimeOfDayBound(tod);
    next := DayStart(now) + hour * 3600 + minute * 60;
    if next <= now {
      next := next + SecondsPerDay;
    }
    assert next == FirstCandidate(Seconds(tod), now);
    if days != "daily" {
      var target := ParseDaysOfWeek(days);
      next := AdvanceToTargetDay(next, target);
    }
  }

  /** The seven-step search of `_calculate_next_execution` for a day in `target`. */
  method AdvanceToTargetDay(first: int, target: seq<int>) returns (next: int)
    ensures next == DayAfter(first, DaysToTarget(first, target, 7))
  {
    next := first;
    for step := 0 to 7
      invariant next == DayAfter(first, step)
      invariant DaysToTarget(first, target, 7) == step + DaysToTarget(next, target, 7 - step)
    {
      if Weekday(next) in target {
        break;
      }
      DaysToTargetSkip(next, target, 7 - step);
      next := next + SecondsPerDay;
    }
  }

  // Properties of NextExecution

  lemma WeekdayNextDay(c: int)
    ensures Weekday(c + SecondsPerDay) == (Weekday(c) + 1) % 7
  {
    assert (c + SecondsPerDay) / SecondsPerDay == c / SecondsPerDay + 1;
  }

  lemma {:induction false} WeekdayAfter(c: int, i: nat)
    ensures Weekday(DayAfter(c, i)) == (Weekday(c) + i) % 7
    decreases i
  {
    if i > 0 {
      WeekdayAfter(c, i - 1);
      WeekdayNextDay(DayAfter(c, i - 1));
      assert DayAfter(c, i) == DayAfter(c, i - 1) + SecondsPerDay;
    }
  }

  /** The loop skips only days outside the target set, and stops on one inside it. */
  lemma {:induction false} DaysToTargetMeaning(c: int, target: seq<int>, steps: nat)
    ensures forall i :: 0 <= i < DaysToTarget(c, target, steps) ==> Weekday(DayAfter(c, i)) !in target
    ensures DaysToTarget(c, target, steps) < steps ==> Weekday(DayAfter(c, DaysToTarget(c, target, steps))) in target
    decreases steps
  {
    if steps > 0 && Weekday(c) !in target {
      DaysToTargetMeaning(c + SecondsPerDay, target, steps - 1);
      forall i | 0 <= i < DaysToTarget(c, target, steps)
        ensures Weekday(DayAfter(c, i)) !in target
      {
        if i > 0 {
          assert DayAfter(c, i) == DayAfter(c + SecondsPerDay, i - 1);
        } else {
          assert DayAfter(c, 0) == c;
        }
      }
      var j := DaysToTarget(c, target, steps);
      assert DayAfter(c, j) == DayAfter(c + SecondsPerDay, j - 1);
    } else {
      assert DayAfter(c, 0) == c;
    }
  }

  /** Within a week every weekday index occurs, so a non-empty target is met. */
  lemma DaysToTargetFinds(c: int, target: seq<int>, w: int)
    requires 0 <= w < 7 && w in target
    ensures DaysToTarget(c, target, 7) < 7
  {
    DaysToTargetMeaning(c, target, 7);
    var i := (w - Weekday(c)) % 7;
    WeekdayAfter(c, i);
    assert Weekday(DayAfter(c, i)) == w;
  }

  /** The first candidate is the earliest instant after `now` at that time of day. */
  lemma FirstCandidateEarliest(tod: nat, now: int, t: int)
    requires tod < SecondsPerDay
    requires SecondOfDay(t) == tod && now < t
    ensures now < FirstCandidate(tod, now) && SecondOfDay(FirstCandidate(tod, now)) == tod
    ensures FirstCandidate(tod, now) <= t
    ensures (t - FirstCandidate(tod, now)) % SecondsPerDay == 0
  {
    var c := FirstCandidate(tod, now);
    var n := now / SecondsPerDay;
    var e := t / SecondsPerDay;
    assert t == e * SecondsPerDay + tod;
    assert now == n * SecondsPerDay + now % SecondsPerDay;
    if DayStart(now) + tod <= now {
      assert c == (n + 1) * SecondsPerDay + tod;
      assert e > n;
    } else {
      assert c == n * SecondsPerDay + tod;
      assert e >= n;
    }
    assert t - c == (e - c / SecondsPerDay) * SecondsPerDay;
  }

  lemma FirstCandidateFacts(tod: nat, now: int)
    requires tod < SecondsPerDay
    ensures now < FirstCandidate(tod, now) && SecondOfDay(FirstCandidate(tod, now)) == tod
    ensures FirstCandidate(tod, now) <= now + SecondsPerDay
  {
    var t := FirstCandidate(tod, now);
    assert SecondOfDay(t) == tod by {
      var n := now / SecondsPerDay;
      assert now == n * SecondsPerDay + now % SecondsPerDay;
      assert t == n * SecondsPerDay + tod || t == (n + 1) * SecondsPerDay + tod;
    }
  }

  lemma SecondOfDayAfter(c: int, i: nat)
    ensures SecondOfDay(DayAfter(c, i)) == SecondOfDay(c)
  {
  }

  /** The next execution is at hh:mm:00 and strictly after `now`. */
  lemma NextExecutionAfterNow(time: string, days: string, now: int)
    requires ValidTimeFormat(time)
    ensures NextExecution(time, days, now) > now
    ensures SecondOfDay(NextExecution(time, days, now)) == Seconds(ParseTime(time).value)
  {
    var tod := Seconds(ParseTime(time).value);
    FirstCandidateFacts(tod, now);
    var c := FirstCandidate(tod, now);
    SecondOfDayAfter(c, DaysToTarget(c, ParseDaysOfWeek(days), 7));
  }

  /** For "daily" it is the first such instant. */
  lemma NextExecutionDailyEarliest(time: string, now: int, t: int)
    requires ValidTimeFormat(time)
    requires now < t && SecondOfDay(t) == Seconds(ParseTime(time).value)
    ensures NextExecution(time, "daily", now) <= t
  {
    FirstCandidateEarliest(Seconds(ParseTime(time).value), now, t);
  }

  /**
   * For any other rule that names at least one day, it falls on a named day,
   * and every earlier instant after `now` at that time of day falls on a day
   * that is not named.
   */
  lemma NextExecutionOnTargetDay(time: string, days: string, now: int, t: int)
    requires ValidTimeFormat(time)
    requires days != "daily" && ParseDaysOfWeek(days) != []
    ensures Weekday(NextExecution(time, days, now)) in ParseDaysOfWeek(days)
    ensures now < t < NextExecution(time, days, now) && SecondOfDay(t) == Seconds(ParseTime(time).value)
      ==> Weekday(t) !in ParseDaysOfWeek(days)
  {
    var target := ParseDaysOfWeek(days);
    var tod := Seconds(ParseTime(time).value);
    var c := FirstCandidate(tod, now);
    ParseDaysOfWeekMeaning(days, target[0]);
    DaysToTargetFinds(c, target, target[0]);
    DaysToTargetMeaning(c, target, 7);
    if now < t < NextExecution(time, days, now) && SecondOfDay(t) == tod {
      FirstCandidateEarliest(tod, now, t);
      var i := (t - c) / SecondsPerDay;
      assert t == DayAfter(c, i);
    }
  }

  /** A rule that names no known day moves the first candidate by exactly seven days. */
  lemma NextExecutionNoTargetDays(time: string, days: string, now: int)
    requires ValidTimeFormat(time)
    requires days != "daily" && ParseDaysOfWeek(days) == []
    ensures NextExecution(time, days, now) == FirstCandidate(Seconds(ParseTime(time).value), now) + 7 * SecondsPerDay
  {
  }

  /**
   * Only the exact text "daily" skips the day filter: "Daily" names no day, so
   * its schedule is pushed a week past the first candidate.
   */
  lemma CapitalisedDailyNamesNoDay()
    ensures ParseDaysOfWeek("Daily") == []
  {
    DailyTokens();
    DailyIsNoDay();
    assert TokenDays(["daily"]) == [] + TokenDays([]);
  }

  lemma DailyTokens()
    ensures DayTokens("Daily") == ["daily"]
  {
    assert Lower("Daily") == "daily";
    SplitField("daily", ',', None);
  }

  lemma DailyIsNoDay()
    ensures TokenDay("daily") == None
  {
    assert LowerLetters("daily");
    LowerLettersFacts("daily");
    StripOfNoSpace("daily");
    forall d | 0 <= d < 7 ensures DayName(d) != "daily" {
      assert DayName(d)[0] != "daily"[0];
    }
  }

  lemma SixOClock()
    ensures ParseTime("06:00") == Some(TimeOfDay(6, 0))
  {
    ParseFormatTime(TimeOfDay(6, 0));
    assert FormatTime(TimeOfDay(6, 0)) == "06:00";
  }

  /** 06:00 daily, created on Monday 2024-01-01 at 06:05, next runs on 2024-01-02 at 06:00. */
  lemma ScenarioDailyAfterTimePassed()
    ensures ValidTimeFormat("06:00") && NextExecution("06:00", "daily", 1704089100) == 1704175200
  {
    SixOClock();
  }

  /** 06:00 on weekdays, created on Friday 2024-01-05 at 07:00, next runs on Monday 2024-01-08 at 06:00. */
  lemma ScenarioWeekdaysFromFriday()
    ensures ValidTimeFormat("06:00") && NextExecution("06:00", "weekdays", 1704438000) == 1704693600
  {
    SixOClock();
    var c := FirstCandidate(21600, 1704438000);
    assert c == 1704520800;
    assert Weekday(c) == 5;
    assert Weekday(c + SecondsPerDay) == 6;
    assert Weekday(c + 2 * SecondsPerDay) == 0;
    assert DaysToTarget(c, [0, 1, 2, 3, 4], 7) == 2;
  }
}
