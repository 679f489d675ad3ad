/**
 * Light-cycle bookkeeping of sipperplots.py. Timestamps are whole seconds from an epoch
 * that falls on a midnight, so the time of day is the remainder modulo one day.
 */
module SipperPlots {
  import opened Wrappers

  const HourSeconds := 3600
  const DaySeconds := 86400

  /** An hour of the day, as `datetime.time(hour=h)` accepts it. */
  type Hour = h: int | 0 <= h < 24

  /** The default light cycle of `is_day_or_night`. */
  const defaultLightsOn: Hour := 7
  const defaultLightsOff: Hour := 19

  /** `t.time()` as seconds since midnight. */
  function TimeOfDay(t: int): (s: int)
    ensures 0 <= s < DaySeconds
  {
    t % DaySeconds
  }

  /** `t.hour`. */
  function HourOf(t: int): Hour {
    TimeOfDay(t) / HourSeconds
  }

  /** `t.replace(minute=0, second=0)`: the start of the hour `t` lies in. */
  function FloorHour(t: int): (f: int)
    ensures f <= t < f + HourSeconds && f % HourSeconds == 0
  {
    t - t % HourSeconds
  }

  // ---------------------------------------------------------------------------
  // hours_between
  // ---------------------------------------------------------------------------

  /** `pd.date_range(a, b, freq='1H')` for hour-aligned `a` and `b`: every hour from `a` to `b`, both included. */
  function HourRange(a: int, b: int): (r: seq<int>)
    requires a % HourSeconds == 0 && b % HourSeconds == 0
    ensures |r| == if a <= b then (b - a) / HourSeconds + 1 else 0
    ensures forall i :: 0 <= i < |r| ==> r[i] == a + HourSeconds * i
    decreases b - a
  {
    if a > b then [] else [a] + HourRange(a + HourSeconds, b)
  }

  /**
   * `hours_between(start, end)` on timestamps: the range starts at the hour of `start`,
   * ends at the hour of `end`, holds only whole hours, and consecutive entries are exactly
   * one hour apart; it is empty only when `end` falls in an earlier hour than `start`.
   */
  function HoursBetween(start: int, end: int): (r: seq<int>)
    ensures |r| == 0 <==> FloorHour(end) < FloorHour(start)
    ensures |r| > 0 ==> r[0] == FloorHour(start) && r[|r| - 1] == FloorHour(end)
    ensures forall i :: 0 <= i < |r| ==> r[i] % HourSeconds == 0 && FloorHour(start) <= r[i] <= FloorHour(end)
    ensures forall i :: 0 < i < |r| ==> r[i] - r[i - 1] == HourSeconds
  {
    var a := FloorHour(start);
    var b := FloorHour(end);
    var r := HourRange(a, b);
    assert a <= b ==> (b - a) % HourSeconds == 0 && r[|r| - 1] == a + HourSeconds * ((b - a) / HourSeconds);
    r
  }

  // ---------------------------------------------------------------------------
  // is_day_or_night
  // ---------------------------------------------------------------------------

  /**
   * `is_day_or_night(t, period, lights_on, lights_off)`: whether `t` lies in the night
   * when `period` is 'night', and the negation of that for any other `period`. Night goes
   * by the hour of the day: with the lights off later than on, it is from the off hour to
   * midnight and from midnight to the on hour; with the lights off earlier, from the off
   * hour up to the on hour; with equal hours it is never night.
   */
  function IsDayOrNight(t: int, period: string, lightsOn: Hour, lightsOff: Hour): (r: bool)
    ensures r == (NightHour(HourOf(t), lightsOn, lightsOff) == (period == "night"))
  {
    var tod := TimeOfDay(t);
    var h := HourOf(t);
    assert h * HourSeconds <= tod < h * HourSeconds + HourSeconds;
    assert tod >= lightsOff * HourSeconds <==> h >= lightsOff;
    assert tod < lightsOn * HourSeconds <==> h < lightsOn;
    var val :=
      if lightsOff > lightsOn then tod >= lightsOff * HourSeconds || tod < lightsOn * HourSeconds
      else if lightsOff < lightsOn then tod >= lightsOff * HourSeconds && tod < lightsOn * HourSeconds
      else false;
    if period == "night" then val else !val
  }

  /** Night as a function of the hour of the day (what `is_day_or_night` decides). */
  predicate NightHour(h: Hour, lightsOn: Hour, lightsOff: Hour) {
    (lightsOff > lightsOn && (h >= lightsOff || h < lightsOn)) ||
    (lightsOff < lightsOn && lightsOff <= h < lightsOn)
  }

  /** Every period other than 'night' is answered with the negation of the night answer. */
  lemma DayIsNotNight(t: int, period: string, lightsOn: Hour, lightsOff: Hour)
    requires period != "night"
    ensures IsDayOrNight(t, period, lightsOn, lightsOff) == !IsDayOrNight(t, "night", lightsOn, lightsOff)
  {
  }

  /** With the lights switching at the same hour, it is always day and never night. */
  lemma EqualHoursAlwaysDay(t: int, h: Hour)
    ensures !IsDayOrNight(t, "night", h, h) && IsDayOrNight(t, "day", h, h)
  {
  }

  /** The answer depends only on the time of day. */
  lemma DailyPeriodic(t: int, k: int, period: string, lightsOn: Hour, lightsOff: Hour)
    ensures IsDayOrNight(t + k * DaySeconds, period, lightsOn, lightsOff) == IsDayOrNight(t, period, lightsOn, lightsOff)
  {
    assert TimeOfDay(t + k * DaySeconds) == TimeOfDay(t);
  }

  // ---------------------------------------------------------------------------
  // ---------------------------------------------------------------------------
  // get_daynight_count
  // ---------------------------------------------------------------------------

  /** The result dict of `get_daynight_count`: fractional numbers of light and dark periods. */
  datatype DayNight = DayNight(day: real, night: real)

  /** The lengths in hours of the light and the dark phase of a cycle. */
  function PhaseHours(lightsOn: Hour, lightsOff: Hour): (p: (int, int))
    ensures p.0 + p.1 == 24
    ensures 0 < p.0 <= 24 && 0 <= p.1 < 24
    ensures p.1 == 0 <==> lightsOn == lightsOff
  {
    if lightsOff > lightsOn then
      var dayHours := lightsOff - lightsOn;
      (dayHours, 24 - dayHours)
    else
      var nightHours := lightsOn - lightsOff;
      (24 - nightHours, nightHours)
  }

  /** How many hours `h` of 0..n-1 `is_day_or_night` calls day. */
  function CountDayHours(n: nat, lightsOn: Hour, lightsOff: Hour): nat
    requires n <= 24
  {
    if n == 0 then 0
    else CountDayHours(n - 1, lightsOn, lightsOff) + (if IsDayOrNight((n - 1) * HourSeconds, "day", lightsOn, lightsOff) then 1 else 0)
  }

  /** How many of the hours 0..n-1 lie in [lo, hi). */
  function Clamp(n: nat, lo: int, hi: int): int {
    if n <= lo then 0 else if n <= hi then n - lo else hi - lo
  }

  /** Hours below `n` that are day, in closed form. */
  lemma {:induction false} CountDayHoursClosed(n: nat, lightsOn: Hour, lightsOff: Hour)
    requires n <= 24
    ensures lightsOff > lightsOn ==>
      CountDayHours(n, lightsOn, lightsOff) == Clamp(n, lightsOn, lightsOff)
    ensures lightsOff < lightsOn ==>
      CountDayHours(n, lightsOn, lightsOff) == n - Clamp(n, lightsOff, lightsOn)
    ensures lightsOff == lightsOn ==> CountDayHours(n, lightsOn, lightsOff) == n
  {
    if n > 0 {
      CountDayHoursClosed(n - 1, lightsOn, lightsOff);
      var h := n - 1;
      assert TimeOfDay(h * HourSeconds) == h * HourSeconds;
      assert HourOf(h * HourSeconds) == h;
    }
  }

  /** The day length `get_daynight_count` divides by is the number of hours `is_day_or_night` calls day. */
  lemma PhaseHoursCountsDay(lightsOn: Hour, lightsOff: Hour)
    ensures PhaseHours(lightsOn, lightsOff).0 == CountDayHours(24, lightsOn, lightsOff)
  {
    CountDayHoursClosed(24, lightsOn, lightsOff);
  }

  /** Strictly increasing. */
  ghost predicate Increasing(s: seq<int>) {
    forall i, j :: 0 <= i < j < |s| ==> s[i] < s[j]
  }

  /** A whole hour at which the lights switch on or off. */
  predicate SwitchesAt(t: int, lightsOn: Hour, lightsOff: Hour) {
    t % HourSeconds == 0 && (HourOf(t) == lightsOn || HourOf(t) == lightsOff)
  }

  /**
   * The hours the loop of `get_daynight_count` appends, as written: after every hourly step
   * from `h`, the new hour if the lights switch at it, while the hour before the step is
   * still before `end`; so the last step appended may lie after `end`.
   */
  function StepsAsWritten(h: int, end: int, lightsOn: Hour, lightsOff: Hour): seq<int>
    decreases end - h
  {
    if h >= end then []
    else
      var next := h + HourSeconds;
      (if HourOf(next) == lightsOn || HourOf(next) == lightsOff then [next] else []) +
      StepsAsWritten(next, end, lightsOn, lightsOff)
  }

  /** `cuts` of `get_daynight_count` as written. */
  function DaynightCutsAsWritten(start: int, end: int, lightsOn: Hour, lightsOff: Hour): seq<int> {
    [start] + StepsAsWritten(FloorHour(start), end, lightsOn, lightsOff) + [end]
  }

  /** The switching hours the loop should append: the same steps, kept only while they lie before `end`. */
  function Steps(h: int, end: int, lightsOn: Hour, lightsOff: Hour): seq<int>
    decreases end - h
  {
    if h >= end then []
    else
      var next := h + HourSeconds;
      (if next < end && (HourOf(next) == lightsOn || HourOf(next) == lightsOff) then [next] else []) +
      Steps(next, end, lightsOn, lightsOff)
  }

  /** The cuts of the span: its start, every switching hour strictly inside it, its end. */
  function DaynightCuts(start: int, end: int, lightsOn: Hour, lightsOff: Hour): seq<int> {
    [start] + Steps(FloorHour(start), end, lightsOn, lightsOff) + [end]
  }

  /** The length in seconds of the light (`day`) or the dark phase. */
  function PhaseLength(day: bool, lightsOn: Hour, lightsOff: Hour): (len: int)
    ensures len >= 0 && (len == 0 <==> !day && lightsOn == lightsOff)
  {
    (if day then PhaseHours(lightsOn, lightsOff).0 else PhaseHours(lightsOn, lightsOff).1) * HourSeconds
  }

  /** The sub-span `cuts[i+1] - cuts[i]` over the phase length, for every `i` whose cut the phase test accepts. */
  function PhaseParts(cuts: seq<int>, day: bool, lightsOn: Hour, lightsOff: Hour): seq<real>
    decreases |cuts|
  {
    if |cuts| < 2 then []
    else
      var i := |cuts| - 2;
      var len := PhaseLength(day, lightsOn, lightsOff);
      PhaseParts(cuts[..|cuts| - 1], day, lightsOn, lightsOff) +
      (if IsDayOrNight(cuts[i], "day", lightsOn, lightsOff) == day && len != 0
       then [(cuts[i + 1] - cuts[i]) as real / len as real]
       else [])
  }

  /** Python's `sum` of a list of floats, in exact arithmetic. */
  function Sum(xs: seq<real>): real {
    if |xs| == 0 then 0.0 else Sum(xs[..|xs| - 1]) + xs[|xs| - 1]
  }

  /** The two sums `get_daynight_count` returns for a list of cuts. */
  function Totals(cuts: seq<int>, lightsOn: Hour, lightsOff: Hour): DayNight {
    DayNight(Sum(PhaseParts(cuts, true, lightsOn, lightsOff)), Sum(PhaseParts(cuts, false, lightsOn, lightsOff)))
  }

  /** The seconds between the cuts that lie in sub-spans starting in the given phase. */
  function PhaseSeconds(cuts: seq<int>, day: bool, lightsOn: Hour, lightsOff: Hour): int
    decreases |cuts|
  {
    if |cuts| < 2 then 0
    else
      var i := |cuts| - 2;
      PhaseSeconds(cuts[..|cuts| - 1], day, lightsOn, lightsOff) +
      (if IsDayOrNight(cuts[i], "day", lightsOn, lightsOff) == day then cuts[i + 1] - cuts[i] else 0)
  }

  /** Extending the cuts by one more cut adds the part of the last sub-span. */
  lemma PhasePartsStep(cuts: seq<int>, i: int, day: bool, lightsOn: Hour, lightsOff: Hour)
    requires 0 <= i < |cuts| - 1
    ensures var len := PhaseLength(day, lightsOn, lightsOff);
      PhaseParts(cuts[..i + 2], day, lightsOn, lightsOff) == PhaseParts(cuts[..i + 1], day, lightsOn, lightsOff) +
      (if IsDayOrNight(cuts[i], "day", lightsOn, lightsOff) == day && len != 0
       then [(cuts[i + 1] - cuts[i]) as real / len as real]
       else [])
  {
    assert cuts[..i + 2][..i + 1] == cuts[..i + 1];
  }

  lemma SumSnoc(xs: seq<real>, ys: seq<real>)
    requires |ys| <= 1
    ensures Sum(xs + ys) == Sum(xs) + (if |ys| == 1 then ys[0] else 0.0)
  {
    if |ys| == 1 {
      assert (xs + ys)[..|xs|] == xs;
    } else {
      assert xs + ys == xs;
    }
  }

  /** The light and the dark seconds together make up the span from the first cut to the last. */
  lemma {:induction false} PhaseSecondsSplit(cuts: seq<int>, lightsOn: Hour, lightsOff: Hour)
    requires |cuts| > 0
    ensures PhaseSeconds(cuts, true, lightsOn, lightsOff) + PhaseSeconds(cuts, false, lightsOn, lightsOff) ==
      cuts[|cuts| - 1] - cuts[0]
    decreases |cuts|
  {
    if |cuts| >= 2 {
      var front := cuts[..|cuts| - 1];
      PhaseSecondsSplit(front, lightsOn, lightsOff);
      assert front[0] == cuts[0] && front[|front| - 1] == cuts[|cuts| - 2];
    }
  }

  /** Over cuts that never go backwards, neither phase gets a negative number of seconds. */
  lemma {:induction false} PhaseSecondsNonNegative(cuts: seq<int>, day: bool, lightsOn: Hour, lightsOff: Hour)
    requires forall i :: 0 < i < |cuts| ==> cuts[i - 1] <= cuts[i]
    ensures PhaseSeconds(cuts, day, lightsOn, lightsOff) >= 0
    decreases |cuts|
  {
    if |cuts| >= 2 {
      PhaseSecondsNonNegative(cuts[..|cuts| - 1], day, lightsOn, lightsOff);
    }
  }

  /** Fractions over one denominator add up as their numerators do. */
  lemma AddFractions(a: real, b: real, len: real)
    requires len != 0.0
    ensures a / len + b / len == (a + b) / len
  {
  }

  /**
   * What `get_daynight_count` sums: the number of periods of a phase is the seconds in
   * that phase over the phase length; with equal hours there are no dark seconds.
   */
  lemma {:induction false} PartsAreSeconds(cuts: seq<int>, day: bool, lightsOn: Hour, lightsOff: Hour)
    ensures PhaseLength(day, lightsOn, lightsOff) != 0 ==>
      Sum(PhaseParts(cuts, day, lightsOn, lightsOff)) ==
      PhaseSeconds(cuts, day, lightsOn, lightsOff) as real / PhaseLength(day, lightsOn, lightsOff) as real
    ensures PhaseLength(day, lightsOn, lightsOff) == 0 ==>
      Sum(PhaseParts(cuts, day, lightsOn, lightsOff)) == 0.0 && PhaseSeconds(cuts, day, lightsOn, lightsOff) == 0
    decreases |cuts|
  {
    if |cuts| >= 2 {
      var n := |cuts|;
      var front := cuts[..n - 1];
      PartsAreSeconds(front, day, lightsOn, lightsOff);
      var len := PhaseLength(day, lightsOn, lightsOff);
      var inPhase := IsDayOrNight(cuts[n - 2], "day", lightsOn, lightsOff) == day;
      var d := cuts[n - 1] - cuts[n - 2];
      var last := if inPhase && len != 0 then [d as real / len as real] else [];
      SumSnoc(PhaseParts(front, day, lightsOn, lightsOff), last);
      if len == 0 {
        EqualHoursAlwaysDay(cuts[n - 2], lightsOn);
      } else {
        var before := PhaseSeconds(front, day, lightsOn, lightsOff);
        if inPhase {
          AddFractions(before as real, d as real, len as real);
        }
      }
    }
  }

  /** Between a whole hour `h` and its successor there is no other whole hour. */
  lemma NoHourBetween(h: int, t: int)
    requires h % HourSeconds == 0 && h < t < h + HourSeconds
    ensures t % HourSeconds != 0
  {
    assert (t - h) % HourSeconds == t - h;
  }

  /** The steps after a whole hour `h` are the switching hours after `h` and before `end`, in increasing order. */
  lemma StepsSpec(h: int, end: int, lightsOn: Hour, lightsOff: Hour)
    requires h % HourSeconds == 0
    ensures forall t :: t in Steps(h, end, lightsOn, lightsOff) <==> h < t < end && SwitchesAt(t, lightsOn, lightsOff)
    ensures Increasing(Steps(h, end, lightsOn, lightsOff))
  {
    StepsMembers(h, end, lightsOn, lightsOff);
    StepsIncreasing(h, end, lightsOn, lightsOff);
  }

  lemma {:induction false} StepsMembers(h: int, end: int, lightsOn: Hour, lightsOff: Hour)
    requires h % HourSeconds == 0
    ensures forall t :: t in Steps(h, end, lightsOn, lightsOff) <==> h < t < end && SwitchesAt(t, lightsOn, lightsOff)
    decreases end - h
  {
    if h < end {
      var next := h + HourSeconds;
      StepsMembers(next, end, lightsOn, lightsOff);
      forall t | h < t < next
        ensures !SwitchesAt(t, lightsOn, lightsOff)
      {
        NoHourBetween(h, t);
      }
    }
  }

  lemma {:induction false} StepsIncreasing(h: int, end: int, lightsOn: Hour, lightsOff: Hour)
    ensures Increasing(Steps(h, end, lightsOn, lightsOff))
    decreases end - h
  {
    if h < end {
      var next := h + HourSeconds;
      var rest := Steps(next, end, lightsOn, lightsOff);
      StepsIncreasing(next, end, lightsOn, lightsOff);
      if next < end && (HourOf(next) == lightsOn || HourOf(next) == lightsOff) {
        StepsAbove(next, end, lightsOn, lightsOff);
        IncreasingCons(next, rest);
        assert Steps(h, end, lightsOn, lightsOff) == [next] + rest;
      } else {
        assert Steps(h, end, lightsOn, lightsOff) == rest;
      }
    }
  }

  /** Every step after `h` lies after `h`. */
  lemma {:induction false} StepsAbove(h: int, end: int, lightsOn: Hour, lightsOff: Hour)
    ensures forall t :: t in Steps(h, end, lightsOn, lightsOff) ==> h < t
    decreases end - h
  {
    if h < end {
      StepsAbove(h + HourSeconds, end, lightsOn, lightsOff);
    }
  }

  /** An increasing list stays increasing with a smaller element in front. */
  lemma IncreasingCons(x: int, rest: seq<int>)
    requires Increasing(rest) && forall y :: y in rest ==> x < y
    ensures Increasing([x] + rest)
  {
    var s := [x] + rest;
    forall i, j | 0 <= i < j < |s|
      ensures s[i] < s[j]
    {
      assert s[j] == rest[j - 1];
      if i > 0 {
        assert s[i] == rest[i - 1];
      } else {
        assert rest[j - 1] in rest;
      }
    }
  }

  /** The intended cuts: from the start to the end, strictly increasing, with every switching hour strictly inside and no other hour. */
  lemma CutsSpec(start: int, end: int, lightsOn: Hour, lightsOff: Hour)
    requires start < end
    ensures var c := DaynightCuts(start, end, lightsOn, lightsOff);
      c[0] == start && c[|c| - 1] == end
    ensures Increasing(DaynightCuts(start, end, lightsOn, lightsOff))
    ensures var c := DaynightCuts(start, end, lightsOn, lightsOff);
      forall t :: t in c[1..|c| - 1] <==> start < t < end && SwitchesAt(t, lightsOn, lightsOff)
  {
    var h := FloorHour(start);
    var s := Steps(h, end, lightsOn, lightsOff);
    var c := DaynightCuts(start, end, lightsOn, lightsOff);
    StepsSpec(h, end, lightsOn, lightsOff);
    forall t | h < t <= start
      ensures !SwitchesAt(t, lightsOn, lightsOff)
    {
      NoHourBetween(h, t);
    }
    assert c[1..|c| - 1] == s;
    forall i, j | 0 <= i < j < |c|
      ensures c[i] < c[j]
    {
      if i > 0 && j < |c| - 1 {
        assert c[i] == s[i - 1] && c[j] == s[j - 1];
        assert c[i] < c[j];
      } else if i > 0 {
        assert c[i] == s[i - 1] && s[i - 1] in s;
        assert c[i] < c[j];
      } else if j < |c| - 1 {
        assert c[j] == s[j - 1] && s[j - 1] in s;
        assert h < c[j] && SwitchesAt(c[j], lightsOn, lightsOff);
        assert !(c[j] <= start);
        assert c[i] < c[j];
      } else {
        assert c[i] == start && c[j] == end;
      }
    }
  }

  /** The whole hours in (a, b] at which the lights switch. */
  ghost predicate NoSwitchIn(a: int, b: int, lightsOn: Hour, lightsOff: Hour) {
    forall t :: a < t <= b ==> !SwitchesAt(t, lightsOn, lightsOff)
  }

  /** Within one clock hour the hour of the day does not change. */
  lemma SameHour(m: int, t: int)
    requires m % HourSeconds == 0 && m <= t < m + HourSeconds
    ensures HourOf(t) == HourOf(m)
  {
    var q := TimeOfDay(m);
    assert q % HourSeconds == 0;
    assert q <= DaySeconds - HourSeconds;
    assert TimeOfDay(t) == q + (t - m);
  }

  /** The hour before a whole hour `m` is the previous hour of the day. */
  lemma PreviousHour(m: int)
    requires m % HourSeconds == 0
    ensures HourOf(m - 1) == (HourOf(m) + 23) % 24
  {
    var q := TimeOfDay(m);
    assert q % HourSeconds == 0;
    if q == 0 {
      assert TimeOfDay(m - 1) == DaySeconds - 1;
    } else {
      assert TimeOfDay(m - 1) == q - 1;
    }
  }

  /** With no switching hour in (a, b], `a` and `b` lie in the same phase. */
  lemma {:induction false} PhaseConstant(a: int, b: int, lightsOn: Hour, lightsOff: Hour)
    requires a <= b
    requires NoSwitchIn(a, b, lightsOn, lightsOff)
    ensures IsDayOrNight(a, "day", lightsOn, lightsOff) == IsDayOrNight(b, "day", lightsOn, lightsOff)
    decreases b - a
  {
    var m := FloorHour(b);
    SameHour(m, b);
    if m <= a {
      SameHour(m, a);
    } else {
      assert !SwitchesAt(m, lightsOn, lightsOff);
      PreviousHour(m);
      assert NightHour(HourOf(m - 1), lightsOn, lightsOff) == NightHour(HourOf(m), lightsOn, lightsOff);
      PhaseConstant(a, m - 1, lightsOn, lightsOff);
    }
  }

  /**
   * Every moment of a sub-span of the intended cuts lies in the phase of the sub-span's
   * first cut, so each part is counted under the phase it really belongs to.
   */
  lemma CutsPhase(start: int, end: int, lightsOn: Hour, lightsOff: Hour, i: int, t: int)
    requires start < end
    requires 0 <= i < |DaynightCuts(start, end, lightsOn, lightsOff)| - 1
    requires DaynightCuts(start, end, lightsOn, lightsOff)[i] <= t < DaynightCuts(start, end, lightsOn, lightsOff)[i + 1]
    ensures IsDayOrNight(t, "day", lightsOn, lightsOff) ==
      IsDayOrNight(DaynightCuts(start, end, lightsOn, lightsOff)[i], "day", lightsOn, lightsOff)
  {
    var c := DaynightCuts(start, end, lightsOn, lightsOff);
    CutsSpec(start, end, lightsOn, lightsOff);
    forall s | c[i] < s <= t
      ensures !SwitchesAt(s, lightsOn, lightsOff)
    {
    }
    PhaseConstant(c[i], t, lightsOn, lightsOff);
  }

  /** The intended cuts never go backwards over a span that is not reversed. */
  lemma CutsNonDecreasing(start: int, end: int, lightsOn: Hour, lightsOff: Hour)
    requires start <= end
    ensures var c := DaynightCuts(start, end, lightsOn, lightsOff);
      forall i :: 0 < i < |c| ==> c[i - 1] <= c[i]
  {
    var c := DaynightCuts(start, end, lightsOn, lightsOff);
    if start < end {
      CutsSpec(start, end, lightsOn, lightsOff);
      forall i | 0 < i < |c|
        ensures c[i - 1] <= c[i]
      {
        assert c[i - 1] < c[i];
      }
    } else {
      var h := FloorHour(start);
      StepsSpec(h, end, lightsOn, lightsOff);
      var s := Steps(h, end, lightsOn, lightsOff);
      if |s| > 0 {
        assert s[0] in s;
        NoHourBetween(h, s[0]);
      }
      assert c == [start, end];
    }
  }

  lemma NonNegativeQuotient(a: int, b: int)
    requires a >= 0 && b > 0
    ensures a as real / b as real >= 0.0
  {
  }

  /**
   * Telescoping, whatever the cuts: each count is the seconds spent in its phase over the
   * phase length (no dark periods when the hours are equal), and the seconds of the two
   * phases add up to the span from the first cut to the last; so the counts scaled back by
   * their phase lengths add up to that span.
   */
  lemma Telescoping(cuts: seq<int>, lightsOn: Hour, lightsOff: Hour)
    requires |cuts| > 0
    ensures Totals(cuts, lightsOn, lightsOff).day ==
      PhaseSeconds(cuts, true, lightsOn, lightsOff) as real / PhaseLength(true, lightsOn, lightsOff) as real
    ensures Totals(cuts, lightsOn, lightsOff).night ==
      if lightsOn == lightsOff then 0.0
      else PhaseSeconds(cuts, false, lightsOn, lightsOff) as real / PhaseLength(false, lightsOn, lightsOff) as real
    ensures PhaseSeconds(cuts, true, lightsOn, lightsOff) + PhaseSeconds(cuts, false, lightsOn, lightsOff) ==
      cuts[|cuts| - 1] - cuts[0]
  {
    PartsAreSeconds(cuts, true, lightsOn, lightsOff);
    PartsAreSeconds(cuts, false, lightsOn, lightsOff);
    PhaseSecondsSplit(cuts, lightsOn, lightsOff);
  }

  /**
   * `get_daynight_count(start_time, end_time, lights_on, lights_off)`: cut the span at the
   * switching hours the hourly loop reaches, then add up every sub-span over the length of
   * the phase its first cut lies in.
   */
  method GetDaynightCount(startTime: int, endTime: int, lightsOn: Hour, lightsOff: Hour) returns (r: DayNight)
    ensures r == Totals(DaynightCutsAsWritten(startTime, endTime, lightsOn, lightsOff), lightsOn, lightsOff)
  {
    var cuts := CollectCuts(startTime, endTime, lightsOn, lightsOff);
    r := SumPhases(cuts, lightsOn, lightsOff);
  }

  /** The first loop of `get_daynight_count`: the start, each switching hour stepped on, the end. */
  method CollectCuts(startTime: int, endTime: int, lightsOn: Hour, lightsOff: Hour) returns (cuts: seq<int>)
    ensures cuts == DaynightCutsAsWritten(startTime, endTime, lightsOn, lightsOff)
  {
    cuts := [startTime];
    var loopTime := FloorHour(startTime);
    while loopTime < endTime
      invariant cuts + StepsAsWritten(loopTime, endTime, lightsOn, lightsOff) ==
        [startTime] + StepsAsWritten(FloorHour(startTime), endTime, lightsOn, lightsOff)
      decreases endTime - loopTime
    {
      loopTime := loopTime + HourSeconds;
      if HourOf(loopTime) == lightsOn {
        cuts := cuts + [loopTime];
      } else if HourOf(loopTime) == lightsOff {
        cuts := cuts + [loopTime];
      }
    }
    cuts := cuts + [endTime];
  }

  /** The phase lengths and the second loop of `get_daynight_count`: each sub-span over its phase's length, summed per phase. */
  method SumPhases(cuts: seq<int>, lightsOn: Hour, lightsOff: Hour) returns (r: DayNight)
    requires |cuts| > 0
    ensures r == Totals(cuts, lightsOn, lightsOff)
  {
    var dayHours, nightHours;
    if lightsOff > lightsOn {
      dayHours := lightsOff - lightsOn;
      nightHours := 24 - dayHours;
    } else {
      nightHours := lightsOn - lightsOff;
      dayHours := 24 - nightHours;
    }
    var dayLength := dayHours * HourSeconds;
    var nightLength := nightHours * HourSeconds;
    assert dayLength == PhaseLength(true, lightsOn, lightsOff);
    assert nightLength == PhaseLength(false, lightsOn, lightsOff);
    var days: seq<real> := [];
    var nights: seq<real> := [];
    for i := 0 to |cuts| - 1
      invariant days == PhaseParts(cuts[..i + 1], true, lightsOn, lightsOff)
      invariant nights == PhaseParts(cuts[..i + 1], false, lightsOn, lightsOff)
    {
      PhasePartsStep(cuts, i, true, lightsOn, lightsOff);
      PhasePartsStep(cuts, i, false, lightsOn, lightsOff);
      if IsDayOrNight(cuts[i], "day", lightsOn, lightsOff) {
        days := days + [(cuts[i + 1] - cuts[i]) as real / dayLength as real];
      } else {
        // with equal hours every cut is day, so the night length here is never zero
        if nightLength == 0 {
          assert false;
        }
        nights := nights + [(cuts[i + 1] - cuts[i]) as real / nightLength as real];
      }
    }
    assert cuts[..|cuts|] == cuts;
    r := DayNight(Sum(days), Sum(nights));
  }

  /**
   * The counts the loop is meant to give, those of the cuts at the switching hours strictly
   * inside the span: over a span that is not reversed neither count is negative, and the
   * seconds of the two phases make up the span.
   */
  function DaynightCount(startTime: int, endTime: int, lightsOn: Hour, lightsOff: Hour): (r: DayNight)
    ensures startTime <= endTime ==> r.day >= 0.0 && r.night >= 0.0
    ensures startTime <= endTime ==>
      (PhaseSeconds(DaynightCuts(startTime, endTime, lightsOn, lightsOff), true, lightsOn, lightsOff) +
       PhaseSeconds(DaynightCuts(startTime, endTime, lightsOn, lightsOff), false, lightsOn, lightsOff) == endTime - startTime)
  {
    var c := DaynightCuts(startTime, endTime, lightsOn, lightsOff);
    var r := Totals(c, lightsOn, lightsOff);
    assert startTime <= endTime ==>
      (r.day >= 0.0 && r.night >= 0.0 &&
       PhaseSeconds(c, true, lightsOn, lightsOff) + PhaseSeconds(c, false, lightsOn, lightsOff) == endTime - startTime)
    by {
      if startTime <= endTime {
        assert c[0] == startTime && c[|c| - 1] == endTime;
        Telescoping(c, lightsOn, lightsOff);
        CutsNonDecreasing(startTime, endTime, lightsOn, lightsOff);
        PhaseSecondsNonNegative(c, true, lightsOn, lightsOff);
        PhaseSecondsNonNegative(c, false, lightsOn, lightsOff);
        NonNegativeQuotient(PhaseSeconds(c, true, lightsOn, lightsOff), PhaseLength(true, lightsOn, lightsOff));
        if lightsOn != lightsOff {
          NonNegativeQuotient(PhaseSeconds(c, false, lightsOn, lightsOff), PhaseLength(false, lightsOn, lightsOff));
        }
      }
    }
    r
  }

  /**
   * As written, a span from 06:30 to 06:45 with the lights on at 7 gets a cut at 07:00 after
   * its end, and a negative day count: -1/48 of a day alongside 1/24 of a night.
   */
  lemma OvershootAsWritten()
    ensures DaynightCutsAsWritten(23400, 24300, 7, 19) == [23400, 25200, 24300]
    ensures Totals(DaynightCutsAsWritten(23400, 24300, 7, 19), 7, 19) == DayNight(-900.0 / 43200.0, 1800.0 / 43200.0)
  {
    assert StepsAsWritten(25200, 24300, 7, 19) == [];
    assert HourOf(25200) == 7;
    var c := [23400, 25200, 24300];
    assert c[..2] == [23400, 25200] && c[..2][..1] == [23400] && c[..1] == [23400];
    assert IsDayOrNight(23400, "day", 7, 19) == false;
    assert IsDayOrNight(25200, "day", 7, 19) == true;
    assert PhaseParts([23400, 25200], true, 7, 19) == [];
    assert PhaseParts([23400, 25200], false, 7, 19) == [1800.0 / 43200.0];
    assert [1800.0 / 43200.0][..0] == [];
    assert [-900.0 / 43200.0][..0] == [];
  }

  /** The intended cuts of the same span: none inside it, a quarter of an hour of night and no day. */
  lemma OvershootIntended()
    ensures DaynightCuts(23400, 24300, 7, 19) == [23400, 24300]
    ensures Totals(DaynightCuts(23400, 24300, 7, 19), 7, 19) == DayNight(0.0, 900.0 / 43200.0)
  {
    assert Steps(25200, 24300, 7, 19) == [];
    var c := [23400, 24300];
    assert c[..1] == [23400];
    assert IsDayOrNight(23400, "day", 7, 19) == false;
    assert [900.0 / 43200.0][..0] == [];
  }

  // ---------------------------------------------------------------------------
  // night_intervals
  // ---------------------------------------------------------------------------

  /** The IndexError `night_intervals` raises on `at_night[0]` for an empty array. */
  datatype IntervalError = EmptyArray

  /** A night begins at `i`: night there, and day just before (or `i` is the first entry). */
  predicate IsRise(at: seq<bool>, i: int)
    requires 0 <= i < |at|
  {
    at[i] && (i == 0 || !at[i - 1])
  }

  /** A night ends at `i`: day there, night just before. */
  predicate IsFall(at: seq<bool>, i: int)
    requires 0 <= i < |at|
  {
    0 < i && !at[i] && at[i - 1]
  }

  /** The positions below `n` at which a night begins, in increasing order. */
  function Rises(at: seq<bool>, n: nat): (r: seq<nat>)
    requires n <= |at|
    ensures forall k :: 0 <= k < |r| ==> r[k] < n
  {
    if n == 0 then [] else Rises(at, n - 1) + (if IsRise(at, n - 1) then [n - 1] else [])
  }

  /** The positions below `n` at which a night ends, in increasing order. */
  function Falls(at: seq<bool>, n: nat): (r: seq<nat>)
    requires n <= |at|
    ensures forall k :: 0 <= k < |r| ==> r[k] < n
  {
    if n == 0 then [] else Falls(at, n - 1) + (if IsFall(at, n - 1) then [n - 1] else [])
  }

  /** The positions at which the nights end: every fall, and the last entry if it is still night. */
  function Ends(at: seq<bool>): (r: seq<nat>)
    ensures forall k :: 0 <= k < |r| ==> r[k] < |at|
  {
    Falls(at, |at|) + (if |at| > 0 && at[|at| - 1] then [|at| - 1] else [])
  }

  /** The entries of `dates` at the given positions. */
  function Pick(dates: seq<int>, idx: seq<nat>): (r: seq<int>)
    requires forall k :: 0 <= k < |idx| ==> idx[k] < |dates|
    ensures |r| == |idx| && forall k :: 0 <= k < |idx| ==> r[k] == dates[idx[k]]
  {
    seq(|idx|, k requires 0 <= k < |idx| => dates[idx[k]])
  }

  /** Python's `list(zip(a, b))`: pairs up to the shorter length. */
  function Zip(a: seq<int>, b: seq<int>): (r: seq<(int, int)>)
    ensures |r| == (if |a| <= |b| then |a| else |b|)
    ensures forall k :: 0 <= k < |r| ==> r[k] == (a[k], b[k])
  {
    if |a| == 0 || |b| == 0 then [] else [(a[0], b[0])] + Zip(a[1..], b[1..])
  }

  /** The intervals of a classified array: from each night's first entry to its end entry. */
  function IntervalsOf(dates: seq<int>, at: seq<bool>): seq<(int, int)>
    requires |at| == |dates|
  {
    Zip(Pick(dates, Rises(at, |at|)), Pick(dates, Ends(at)))
  }

  /** `at_night`: night by the hour of every entry in the given cycle, negated when asking for days. */
  function Classify(dates: seq<int>, lightsOn: Hour, lightsOff: Hour, insteadDays: bool): (at: seq<bool>)
    ensures |at| == |dates|
    ensures forall i :: 0 <= i < |dates| ==> at[i] == (NightHour(HourOf(dates[i]), lightsOn, lightsOff) != insteadDays)
  {
    seq(|dates|, i requires 0 <= i < |dates| => IsDayOrNight(dates[i], "night", lightsOn, lightsOff) != insteadDays)
  }

  /**
   * `night_intervals` as written: no intervals when the two hours are equal, an error on an
   * empty array, and otherwise the intervals of the default cycle of `is_day_or_night`
   * (7 to 19), whatever cycle the caller passes.
   */
  function NightIntervalsAsWritten(dates: seq<int>, lightsOn: Hour, lightsOff: Hour, insteadDays: bool): (r: Result<seq<(int, int)>, IntervalError>)
    ensures lightsOn == lightsOff ==> r == Success([])
    ensures lightsOn != lightsOff ==> r == NightIntervalsIntended(dates, defaultLightsOn, defaultLightsOff, insteadDays)
  {
    if lightsOn == lightsOff then Success([])
    else if |dates| == 0 then Failure(EmptyArray)
    else Success(IntervalsOf(dates, Classify(dates, defaultLightsOn, defaultLightsOff, insteadDays)))
  }

  /**
   * The intervals `night_intervals` is meant to find, those of the entries classified with
   * the given cycle; it fails exactly on an empty array with two different hours.
   */
  function NightIntervalsIntended(dates: seq<int>, lightsOn: Hour, lightsOff: Hour, insteadDays: bool): (r: Result<seq<(int, int)>, IntervalError>)
    ensures r.Failure? <==> lightsOn != lightsOff && |dates| == 0
    ensures r.Failure? ==> r.error == EmptyArray
  {
    if lightsOn == lightsOff then Success([])
    else if |dates| == 0 then Failure(EmptyArray)
    else Success(IntervalsOf(dates, Classify(dates, lightsOn, lightsOff, insteadDays)))
  }

  /** Picking one more position appends its entry. */
  lemma PickSnoc(dates: seq<int>, idx: seq<nat>, extra: seq<nat>)
    requires forall k :: 0 <= k < |idx| ==> idx[k] < |dates|
    requires forall k :: 0 <= k < |extra| ==> extra[k] < |dates|
    ensures Pick(dates, idx + extra) == Pick(dates, idx) + Pick(dates, extra)
  {
  }

  /** Picking the positions plus possibly one more appends possibly its entry. */
  lemma PickMaybe(dates: seq<int>, idx: seq<nat>, b: bool, i: nat)
    requires forall k :: 0 <= k < |idx| ==> idx[k] < |dates|
    requires i < |dates|
    ensures Pick(dates, idx + (if b then [i] else [])) == if b then Pick(dates, idx) + [dates[i]] else Pick(dates, idx)
  {
    if b {
      PickSnoc(dates, idx, [i]);
    } else {
      assert idx + [] == idx;
    }
  }

  /** After the entries below `i`, the scan has found the beginnings and the ends of nights there. */
  ghost predicate Scanned(dates: seq<int>, at: seq<bool>, i: nat, starts: seq<int>, ends: seq<int>)
    requires |at| == |dates| && i <= |at|
  {
    starts == Pick(dates, Rises(at, i)) && ends == Pick(dates, Falls(at, i))
  }

  /** The first entry begins a night exactly when it is night; no night has ended yet. */
  lemma ScanFirst(dates: seq<int>, at: seq<bool>)
    requires |at| == |dates| > 0
    ensures Scanned(dates, at, 1, if at[0] then [dates[0]] else [], [])
  {
    assert Rises(at, 1) == if at[0] then [0] else [];
  }

  /** One step of the scan: entry `i` extends the beginnings if a night begins there, the ends if one ends there. */
  lemma ScanStep(dates: seq<int>, at: seq<bool>, i: nat, starts: seq<int>, ends: seq<int>)
    requires |at| == |dates| && 0 < i < |at| && Scanned(dates, at, i, starts, ends)
    ensures Scanned(dates, at, i + 1,
      if at[i] && !at[i - 1] then starts + [dates[i]] else starts,
      if !at[i] && at[i - 1] then ends + [dates[i]] else ends)
  {
    PickMaybe(dates, Rises(at, i), IsRise(at, i), i);
    PickMaybe(dates, Falls(at, i), IsFall(at, i), i);
  }

  /** After the scan, a night still running at the last entry ends there. */
  lemma ScanLast(dates: seq<int>, at: seq<bool>, ends: seq<int>)
    requires |at| == |dates| > 0 && ends == Pick(dates, Falls(at, |at|))
    ensures Pick(dates, Ends(at)) == if at[|at| - 1] then ends + [dates[|at| - 1]] else ends
  {
    var n := |at|;
    PickMaybe(dates, Falls(at, n), at[n - 1], n - 1);
    assert Ends(at) == Falls(at, n) + (if at[n - 1] then [n - 1] else []);
  }

  /**
   * `night_intervals(array, lights_on, lights_off, instead_days)`: unless the two hours are
   * equal, classify every entry (with `is_day_or_night`'s default cycle, as written), then
   * scan for the entries where a night begins and where it ends, and pair them up.
   */
  method NightIntervals(dates: seq<int>, lightsOn: Hour, lightsOff: Hour, insteadDays: bool)
    returns (r: Result<seq<(int, int)>, IntervalError>)
    ensures r == NightIntervalsAsWritten(dates, lightsOn, lightsOff, insteadDays)
  {
    if lightsOn == lightsOff {
      return Success([]);
    }
    var atNight := seq(|dates|, i requires 0 <= i < |dates| => IsDayOrNight(dates[i], "night", defaultLightsOn, defaultLightsOff));
    if insteadDays {
      atNight := seq(|atNight|, i requires 0 <= i < |atNight| => !atNight[i]);
    }
    assert atNight == Classify(dates, defaultLightsOn, defaultLightsOff, insteadDays);
    if |atNight| == 0 {
      return Failure(EmptyArray);
    }
    var starts, ends := ScanNights(dates, atNight);
    r := Success(Zip(starts, ends));
  }

  /** The scan of `night_intervals`: the entries where a night begins, and those where one ends. */
  method ScanNights(dates: seq<int>, atNight: seq<bool>) returns (starts: seq<int>, ends: seq<int>)
    requires |atNight| == |dates| > 0
    ensures starts == Pick(dates, Rises(atNight, |atNight|))
    ensures ends == Pick(dates, Ends(atNight))
  {
    starts := [];
    ends := [];
    ScanFirst(dates, atNight);
    if atNight[0] {
      starts := starts + [dates[0]];
    }
    for i := 1 to |atNight|
      invariant Scanned(dates, atNight, i, starts, ends)
    {
      ScanStep(dates, atNight, i, starts, ends);
      if atNight[i] && !atNight[i - 1] {
        starts := starts + [dates[i]];
      } else if !atNight[i] && atNight[i - 1] {
        ends := ends + [dates[i]];
      }
    }
    ScanLast(dates, atNight, ends);
    if atNight[|atNight| - 1] {
      ends := ends + [dates[|atNight| - 1]];
    }
  }

  /**
   * Beginnings `r` and ends `f` alternate: each night ends after it begins and before the
   * next one begins, and all have ended except one still running when `running` holds.
   */
  ghost predicate Alternate(r: seq<nat>, f: seq<nat>, running: bool) {
    |r| == |f| + (if running then 1 else 0) &&
    (forall k :: 0 <= k < |f| ==> r[k] < f[k]) &&
    (forall k :: 0 <= k < |f| && k + 1 < |r| ==> f[k] < r[k + 1])
  }

  /** Every entry from a night's beginning up to its end, or up to `n` for the night still running, is night. */
  ghost predicate NightsInside(at: seq<bool>, r: seq<nat>, f: seq<nat>, n: nat, running: bool)
    requires n <= |at|
  {
    (forall k, j :: 0 <= k < |f| && k < |r| && r[k] <= j < f[k] && j < |at| ==> at[j]) &&
    (running && |r| > 0 ==> forall j :: r[|r| - 1] <= j < n ==> at[j])
  }

  lemma AlternateStep(r: seq<nat>, f: seq<nat>, running: bool, m: nat, rise: bool, fall: bool)
    requires Alternate(r, f, running)
    requires forall k :: 0 <= k < |r| ==> r[k] < m
    requires forall k :: 0 <= k < |f| ==> f[k] < m
    requires rise ==> !running && !fall
    requires fall ==> running
    ensures Alternate(r + (if rise then [m] else []), f + (if fall then [m] else []), if rise then true else if fall then false else running)
  {
  }

  lemma {:induction false} NightsInsideStep(at: seq<bool>, n: nat)
    requires 0 < n <= |at|
    requires Alternate(Rises(at, n - 1), Falls(at, n - 1), n > 1 && at[n - 2])
    requires NightsInside(at, Rises(at, n - 1), Falls(at, n - 1), n - 1, n > 1 && at[n - 2])
    ensures NightsInside(at, Rises(at, n), Falls(at, n), n, at[n - 1])
  {
    var m := n - 1;
    var r0, f0 := Rises(at, m), Falls(at, m);
    assert Rises(at, n) == r0 + (if IsRise(at, m) then [m] else []);
    assert Falls(at, n) == f0 + (if IsFall(at, m) then [m] else []);
    InsideStep(at, r0, f0, m, m > 0 && at[m - 1], IsRise(at, m), IsFall(at, m));
  }

  /** One more entry keeps every night's entries at night: a rise opens a night, a fall closes it. */
  lemma InsideStep(at: seq<bool>, r: seq<nat>, f: seq<nat>, m: nat, running: bool, rise: bool, fall: bool)
    requires m < |at|
    requires |r| == |f| + (if running then 1 else 0)
    requires NightsInside(at, r, f, m, running)
    requires rise <==> at[m] && !running
    requires fall <==> !at[m] && running
    ensures NightsInside(at, r + (if rise then [m] else []), f + (if fall then [m] else []), m + 1, at[m])
  {
    var r1, f1 := r + (if rise then [m] else []), f + (if fall then [m] else []);
    forall k, j | 0 <= k < |f1| && k < |r1| && r1[k] <= j < f1[k] && j < |at|
      ensures at[j]
    {
      assert r1[k] == r[k];
      if k < |f| {
        assert f1[k] == f[k];
      } else {
        assert fall && k == |r| - 1 && j < m;
      }
    }
    if at[m] && |r1| > 0 {
      forall j | r1[|r1| - 1] <= j < m + 1
        ensures at[j]
      {
        if j < m {
          assert !rise && running && r1[|r1| - 1] == r[|r| - 1];
        }
      }
    }
  }

  /**
   * Nights and ends alternate over a prefix of length `n`, and every entry from a night's
   * beginning to its end is night.
   */
  lemma {:induction false} RunsInterleave(at: seq<bool>, n: nat)
    requires n <= |at|
    ensures Alternate(Rises(at, n), Falls(at, n), n > 0 && at[n - 1])
    ensures NightsInside(at, Rises(at, n), Falls(at, n), n, n > 0 && at[n - 1])
    decreases n
  {
    if n > 0 {
      var m := n - 1;
      RunsInterleave(at, m);
      var r0, f0 := Rises(at, m), Falls(at, m);
      AlternateStep(r0, f0, m > 0 && at[m - 1], m, IsRise(at, m), IsFall(at, m));
      NightsInsideStep(at, n);
    }
  }

  /** The positions `Rises` lists are exactly those where a night begins. */
  lemma {:induction false} RisesMembers(at: seq<bool>, n: nat)
    requires n <= |at|
    ensures forall i :: i in Rises(at, n) <==> 0 <= i < n && IsRise(at, i)
  {
    if n > 0 {
      RisesMembers(at, n - 1);
    }
  }

  /** The positions `Falls` lists are exactly those where a night ends. */
  lemma {:induction false} FallsMembers(at: seq<bool>, n: nat)
    requires n <= |at|
    ensures forall i :: i in Falls(at, n) <==> 0 <= i < n && IsFall(at, i)
  {
    if n > 0 {
      FallsMembers(at, n - 1);
    }
  }

  /** Every night entry below `n` lies in a night: after its beginning and, if that night has ended, before its end. */
  ghost predicate NightsCovered(at: seq<bool>, r: seq<nat>, f: seq<nat>, n: nat)
    requires n <= |at|
  {
    forall j :: 0 <= j < n && at[j] ==> exists k :: 0 <= k < |r| && r[k] <= j && (k < |f| ==> j < f[k])
  }

  /** Appending to the beginnings and ends keeps every earlier night entry covered. */
  lemma CoveredGrow(at: seq<bool>, r0: seq<nat>, f0: seq<nat>, r: seq<nat>, f: seq<nat>, m: nat)
    requires m <= |at|
    requires NightsCovered(at, r0, f0, m)
    requires |r0| <= |r| && r[..|r0|] == r0
    requires |f0| <= |f| && f[..|f0|] == f0
    requires forall k :: |f0| <= k < |f| ==> f[k] >= m
    ensures forall j :: 0 <= j < m && at[j] ==> exists k :: 0 <= k < |r| && r[k] <= j && (k < |f| ==> j < f[k])
  {
    forall j | 0 <= j < m && at[j]
      ensures exists k :: 0 <= k < |r| && r[k] <= j && (k < |f| ==> j < f[k])
    {
      var k :| 0 <= k < |r0| && r0[k] <= j && (k < |f0| ==> j < f0[k]);
      assert r[k] == r0[k];
      if k < |f0| {
        assert f[k] == f0[k];
      }
    }
  }

  lemma {:induction false} RunsCover(at: seq<bool>, n: nat)
    requires n <= |at|
    ensures NightsCovered(at, Rises(at, n), Falls(at, n), n)
    decreases n
  {
    if n > 0 {
      var m := n - 1;
      RunsCover(at, m);
      var r0, f0 := Rises(at, m), Falls(at, m);
      var r, f := Rises(at, n), Falls(at, n);
      assert r == r0 + (if IsRise(at, m) then [m] else []);
      assert f == f0 + (if IsFall(at, m) then [m] else []);
      assert r[..|r0|] == r0 && f[..|f0|] == f0;
      CoveredGrow(at, r0, f0, r, f, m);
      if at[m] {
        RunsInterleave(at, m);
        var k := if IsRise(at, m) then |r0| else |r0| - 1;
        if !IsRise(at, m) {
          assert r[k] == r0[k];
        }
        CoverLast(r, f, m, k);
      }
    }
  }

  /** A beginning at or before `m` whose night has not ended covers `m`. */
  lemma CoverLast(r: seq<nat>, f: seq<nat>, m: nat, k: nat)
    requires k < |r| && r[k] <= m && |f| <= k
    ensures exists k' :: 0 <= k' < |r| && r[k'] <= m && (k' < |f| ==> m < f[k'])
  {
  }

  /** The ends are the falls, followed by the last position when the final night is still running. */
  lemma EndsShape(at: seq<bool>)
    requires |at| > 0
    ensures |Ends(at)| == |Rises(at, |at|)|
    ensures forall k :: 0 <= k < |Falls(at, |at|)| ==> Ends(at)[k] == Falls(at, |at|)[k]
    ensures |Ends(at)| > |Falls(at, |at|)| ==> at[|at| - 1] && Ends(at)[|Falls(at, |at|)|] == |at| - 1
    ensures |Ends(at)| <= |Falls(at, |at|)| + 1
  {
    RunsInterleave(at, |at|);
  }

  /** The `k`-th night ends no earlier than it begins, and before the next one begins. */
  lemma PairOrdered(at: seq<bool>, k: nat)
    requires |at| > 0 && k < |Ends(at)|
    ensures |Ends(at)| == |Rises(at, |at|)|
    ensures Rises(at, |at|)[k] <= Ends(at)[k]
    ensures k + 1 < |Ends(at)| ==> Ends(at)[k] < Rises(at, |at|)[k + 1]
  {
    EndsShape(at);
    RunsInterleave(at, |at|);
  }

  /** The `k`-th night begins where a night begins and ends at a day entry or at the last entry. */
  lemma PairBounds(at: seq<bool>, k: nat)
    requires |at| > 0 && k < |Ends(at)|
    ensures |Ends(at)| == |Rises(at, |at|)|
    ensures IsRise(at, Rises(at, |at|)[k])
    ensures Ends(at)[k] == |at| - 1 || !at[Ends(at)[k]]
  {
    var n := |at|;
    EndsShape(at);
    RisesMembers(at, n);
    FallsMembers(at, n);
    assert Rises(at, n)[k] in Rises(at, n);
    if k < |Falls(at, n)| {
      assert Falls(at, n)[k] in Falls(at, n);
    }
  }

  /** Every entry from the beginning of the `k`-th night up to its end is night. */
  lemma PairInside(at: seq<bool>, k: nat, j: int)
    requires |at| > 0 && k < |Ends(at)|
    requires |Ends(at)| == |Rises(at, |at|)|
    requires Rises(at, |at|)[k] <= j < Ends(at)[k]
    ensures at[j]
  {
    EndsShape(at);
    RunsInterleave(at, |at|);
  }

  /** Each night entry lies between the beginning and the end of some night. */
  lemma PairCover(at: seq<bool>, j: nat) returns (k: nat)
    requires j < |at| && at[j]
    ensures k < |Ends(at)| == |Rises(at, |at|)|
    ensures Rises(at, |at|)[k] <= j <= Ends(at)[k]
  {
    var n := |at|;
    EndsShape(at);
    RunsCover(at, n);
    var r, f := Rises(at, n), Falls(at, n);
    k :| 0 <= k < |r| && r[k] <= j && (k < |f| ==> j < f[k]);
  }

  /** On strictly increasing dates, order between entries is order between positions. */
  lemma IncreasingOrder(dates: seq<int>, i: int, j: int)
    requires Increasing(dates) && 0 <= i < |dates| && 0 <= j < |dates|
    ensures dates[i] <= dates[j] <==> i <= j
    ensures dates[i] < dates[j] <==> i < j
  {
  }

  /** The `k`-th interval is the pair of dates at the `k`-th beginning and end. */
  lemma IntervalAt(dates: seq<int>, at: seq<bool>, k: nat)
    requires |at| == |dates| > 0 && k < |Ends(at)|
    ensures |IntervalsOf(dates, at)| == |Ends(at)| == |Rises(at, |at|)|
    ensures IntervalsOf(dates, at)[k] == (dates[Rises(at, |at|)[k]], dates[Ends(at)[k]])
  {
    EndsShape(at);
  }

  /** One interval per night, in order and disjoint, each ending no earlier than it begins. */
  lemma IntervalsOrdered(dates: seq<int>, at: seq<bool>)
    requires |at| == |dates| > 0 && Increasing(dates)
    ensures |IntervalsOf(dates, at)| == |Rises(at, |at|)|
    ensures forall k :: 0 <= k < |IntervalsOf(dates, at)| ==> IntervalsOf(dates, at)[k].0 <= IntervalsOf(dates, at)[k].1
    ensures forall k :: 0 <= k && k + 1 < |IntervalsOf(dates, at)| ==> IntervalsOf(dates, at)[k].1 < IntervalsOf(dates, at)[k + 1].0
  {
    EndsShape(at);
    var iv := IntervalsOf(dates, at);
    forall k | 0 <= k < |iv|
      ensures iv[k].0 <= iv[k].1 && (k + 1 < |iv| ==> iv[k].1 < iv[k + 1].0)
    {
      IntervalOrderedAt(dates, at, k);
    }
  }

  lemma IntervalOrderedAt(dates: seq<int>, at: seq<bool>, k: nat)
    requires |at| == |dates| > 0 && Increasing(dates)
    requires k < |IntervalsOf(dates, at)|
    ensures IntervalsOf(dates, at)[k].0 <= IntervalsOf(dates, at)[k].1
    ensures k + 1 < |IntervalsOf(dates, at)| ==> IntervalsOf(dates, at)[k].1 < IntervalsOf(dates, at)[k + 1].0
  {
    EndsShape(at);
    IntervalAt(dates, at, k);
    PairOrdered(at, k);
    IncreasingOrder(dates, Rises(at, |at|)[k], Ends(at)[k]);
    if k + 1 < |IntervalsOf(dates, at)| {
      IntervalAt(dates, at, k + 1);
      IncreasingOrder(dates, Ends(at)[k], Rises(at, |at|)[k + 1]);
    }
  }

  /**
   * Each interval begins at a night entry after a day entry (or at the first entry), holds
   * only night entries before its end, and ends at a day entry or at the last entry.
   */
  lemma IntervalsAtNight(dates: seq<int>, at: seq<bool>, k: nat, j: nat)
    requires |at| == |dates| > 0 && Increasing(dates)
    requires k < |IntervalsOf(dates, at)| && j < |dates|
    ensures dates[j] == IntervalsOf(dates, at)[k].0 ==> at[j] && (j == 0 || !at[j - 1])
    ensures IntervalsOf(dates, at)[k].0 <= dates[j] < IntervalsOf(dates, at)[k].1 ==> at[j]
    ensures dates[j] == IntervalsOf(dates, at)[k].1 ==> j == |dates| - 1 || !at[j]
  {
    EndsShape(at);
    IntervalAt(dates, at, k);
    PairBounds(at, k);
    var r, e := Rises(at, |at|)[k], Ends(at)[k];
    IncreasingOrder(dates, r, j);
    IncreasingOrder(dates, j, r);
    IncreasingOrder(dates, j, e);
    IncreasingOrder(dates, e, j);
    if r <= j < e {
      PairInside(at, k, j);
    }
  }

  /** Every night entry lies in one of the intervals. */
  lemma IntervalsCover(dates: seq<int>, at: seq<bool>, j: nat) returns (k: nat)
    requires |at| == |dates| > 0 && Increasing(dates)
    requires j < |dates| && at[j]
    ensures k < |IntervalsOf(dates, at)|
    ensures IntervalsOf(dates, at)[k].0 <= dates[j] <= IntervalsOf(dates, at)[k].1
  {
    k := PairCover(at, j);
    IntervalAt(dates, at, k);
    IncreasingOrder(dates, Rises(at, |at|)[k], j);
    IncreasingOrder(dates, j, Ends(at)[k]);
  }

  /** As written, the cycle passed in is ignored: 19:00 is dark by default but light from 8 to 20. */
  lemma NightIntervalsIgnoreCycle()
    ensures NightIntervalsAsWritten([68400], 8, 20, false) == Success([(68400, 68400)])
  {
    var at := Classify([68400], defaultLightsOn, defaultLightsOff, false);
    assert at == [true];
    assert Rises(at, 1) == [0];
    assert Falls(at, 1) == [];
    assert Ends(at) == [0];
    assert Pick([68400], [0]) == [68400];
    assert IntervalsOf([68400], at) == Zip([68400], [68400]) == [(68400, 68400)];
  }

  /** Classified with the cycle passed in, an entry at 19:00 lies in no dark period from 8 to 20. */
  lemma NightIntervalsFollowCycle()
    ensures NightIntervalsIntended([68400], 8, 20, false) == Success([])
  {
    var at := Classify([68400], 8, 20, false);
    assert at == [false];
    assert Rises(at, 1) == [];
  }

  /**
   * Over increasing dates, the intended intervals are one per night in order, and every entry
   * in the requested phase of the given cycle lies in one of them.
   */
  lemma NightIntervalsCover(dates: seq<int>, lightsOn: Hour, lightsOff: Hour, insteadDays: bool, j: nat)
    returns (k: nat)
    requires Increasing(dates) && lightsOn != lightsOff && j < |dates|
    requires IsDayOrNight(dates[j], "night", lightsOn, lightsOff) != insteadDays
    ensures NightIntervalsIntended(dates, lightsOn, lightsOff, insteadDays).Success?
    ensures k < |NightIntervalsIntended(dates, lightsOn, lightsOff, insteadDays).value|
    ensures NightIntervalsIntended(dates, lightsOn, lightsOff, insteadDays).value[k].0 <= dates[j] <=
      NightIntervalsIntended(dates, lightsOn, lightsOff, insteadDays).value[k].1
  {
    var at := Classify(dates, lightsOn, lightsOff, insteadDays);
    k := IntervalsCover(dates, at, j);
  }

  /**
   * Every entry from the start of an intended interval up to (not including) its end is in
   * the requested phase; the start is the first such entry of its run, and the end is the
   * last entry or the first one out of the phase.
   */
  lemma NightIntervalsInside(dates: seq<int>, lightsOn: Hour, lightsOff: Hour, insteadDays: bool, k: nat, j: nat)
    requires Increasing(dates) && lightsOn != lightsOff && j < |dates|
    requires NightIntervalsIntended(dates, lightsOn, lightsOff, insteadDays).Success?
    requires k < |NightIntervalsIntended(dates, lightsOn, lightsOff, insteadDays).value|
    ensures var iv := NightIntervalsIntended(dates, lightsOn, lightsOff, insteadDays).value[k];
      iv.0 <= dates[j] < iv.1 ==> IsDayOrNight(dates[j], "night", lightsOn, lightsOff) != insteadDays
    ensures var iv := NightIntervalsIntended(dates, lightsOn, lightsOff, insteadDays).value[k];
      dates[j] == iv.0 ==>
        (IsDayOrNight(dates[j], "night", lightsOn, lightsOff) != insteadDays &&
         (j == 0 || IsDayOrNight(dates[j - 1], "night", lightsOn, lightsOff) == insteadDays))
    ensures var iv := NightIntervalsIntended(dates, lightsOn, lightsOff, insteadDays).value[k];
      dates[j] == iv.1 ==> j == |dates| - 1 || IsDayOrNight(dates[j], "night", lightsOn, lightsOff) == insteadDays
  {
    var at := Classify(dates, lightsOn, lightsOff, insteadDays);
    IntervalsAtNight(dates, at, k, j);
  }

  /** The intended intervals are ordered and disjoint, each ending no earlier than it begins. */
  lemma NightIntervalsOrdered(dates: seq<int>, lightsOn: Hour, lightsOff: Hour, insteadDays: bool)
    requires Increasing(dates) && lightsOn != lightsOff && |dates| > 0
    ensures NightIntervalsIntended(dates, lightsOn, lightsOff, insteadDays).Success?
    ensures var iv := NightIntervalsIntended(dates, lightsOn, lightsOff, insteadDays).value;
      forall k :: 0 <= k < |iv| ==> iv[k].0 <= iv[k].1 && (k + 1 < |iv| ==> iv[k].1 < iv[k + 1].0)
  {
    IntervalsOrdered(dates, Classify(dates, lightsOn, lightsOff, insteadDays));
  }
}
