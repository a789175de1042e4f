/** The active sending window of the reminder loop: reminders go out only on a
    workday, between 09:00 and 18:00 inclusive, and never during the lunch
    hour [13:00, 14:00).

    The loop reads the clock as a weekday (Monday = 0 … Sunday = 6) and a time of
    day with microsecond precision. The model takes both as inputs. A time of day
    is given two ways: as a count of microseconds since midnight (what the rest of
    the model uses), and as an (hour, minute, second, microsecond) record compared
    field by field, the way the loop compares `time` objects. */
module Window {
  import opened Arith

  const MicrosPerSecond: int := 1_000_000
  const MicrosPerMinute: int := 60 * MicrosPerSecond
  const MicrosPerHour: int := 60 * MicrosPerMinute
  const MicrosPerDay: int := 24 * MicrosPerHour

  /** Day of the week, Monday = 0 … Sunday = 6. */
  type Weekday = d: int | 0 <= d < 7

  /** Time of day as microseconds since midnight. */
  type Micros = t: int | 0 <= t < MicrosPerDay

  /** Monday to Friday. */
  const Workdays: set<int> := {0, 1, 2, 3, 4}

  const StartHour: int := 9
  const EndHour: int := 18
  const LunchStartHour: int := 13
  const LunchEndHour: int := 14

  /** The instant `h`:00:00.000000 as microseconds since midnight. */
  function AtHour(h: int): int
  {
    h * MicrosPerHour
  }

  /** The window on the microsecond clock: a workday, start <= t <= end, and not
      lunch-start <= t < lunch-end. The contract gives the same window as the union
      of two intervals: the morning [09:00, 13:00) and the afternoon [14:00, 18:00]. */
  predicate InWindow(day: Weekday, t: Micros)
    ensures InWindow(day, t) <==>
      day <= 4 &&
      ((32_400_000_000 <= t < 46_800_000_000) || (50_400_000_000 <= t <= 64_800_000_000))
  {
    day in Workdays
    && AtHour(StartHour) <= t <= AtHour(EndHour)
    && !(AtHour(LunchStartHour) <= t < AtHour(LunchEndHour))
  }

  /** A wall-clock time of day, as Python's `time` holds it. */
  datatype Time = Time(hour: int, minute: int, second: int, microsecond: int)
  {
    predicate Valid()
    {
      0 <= hour < 24 && 0 <= minute < 60 && 0 <= second < 60 && 0 <= microsecond < MicrosPerSecond
    }
  }

  /** `time(h)`: the full hour `h`. */
  function OnTheHour(h: int): Time
  {
    Time(h, 0, 0, 0)
  }

  /** Microseconds since midnight. */
  function ToMicros(t: Time): int
  {
    t.hour * MicrosPerHour + t.minute * MicrosPerMinute + t.second * MicrosPerSecond + t.microsecond
  }

  /** The inverse of ToMicros: splits a microsecond count into its fields. */
  function FromMicros(t: Micros): (r: Time)
    ensures r.Valid() && ToMicros(r) == t
  {
    var hour, inHour := t / MicrosPerHour, t % MicrosPerHour;
    var minute, inMinute := inHour / MicrosPerMinute, inHour % MicrosPerMinute;
    var second, microsecond := inMinute / MicrosPerSecond, inMinute % MicrosPerSecond;
    DivMod(t, MicrosPerHour, 24);
    DivMod(inHour, MicrosPerMinute, 60);
    DivMod(inMinute, MicrosPerSecond, 60);
    Time(hour, minute, second, microsecond)
  }

  /** Three-way comparison of two times, field by field from the hour down
      (negative, zero or positive). */
  function Compare(a: Time, b: Time): int
  {
    if a.hour != b.hour then (if a.hour < b.hour then -1 else 1)
    else if a.minute != b.minute then (if a.minute < b.minute then -1 else 1)
    else if a.second != b.second then (if a.second < b.second then -1 else 1)
    else if a.microsecond != b.microsecond then (if a.microsecond < b.microsecond then -1 else 1)
    else 0
  }

  predicate AtOrBefore(a: Time, b: Time) { Compare(a, b) <= 0 }

  predicate Before(a: Time, b: Time) { Compare(a, b) < 0 }

  /** The window exactly as the loop writes it, on `time` values. */
  predicate ActiveAt(day: Weekday, now: Time)
  {
    day in Workdays
    && AtOrBefore(OnTheHour(StartHour), now) && AtOrBefore(now, OnTheHour(EndHour))
    && !(AtOrBefore(OnTheHour(LunchStartHour), now) && Before(now, OnTheHour(LunchEndHour)))
  }

  /** Comparing valid times field by field agrees with comparing their
      microsecond counts. */
  lemma CompareMatchesMicros(a: Time, b: Time)
    requires a.Valid() && b.Valid()
    ensures Compare(a, b) < 0 <==> ToMicros(a) < ToMicros(b)
    ensures Compare(a, b) == 0 <==> ToMicros(a) == ToMicros(b)
  {
    var sa := a.second * MicrosPerSecond + a.microsecond;
    var sb := b.second * MicrosPerSecond + b.microsecond;
    var ma := a.minute * MicrosPerMinute + sa;
    var mb := b.minute * MicrosPerMinute + sb;
    ScaledOrder(a.second, a.microsecond, b.second, b.microsecond, MicrosPerSecond);
    ScaledOrder(a.minute, sa, b.minute, sb, MicrosPerMinute);
    ScaledOrder(a.hour, ma, b.hour, mb, MicrosPerHour);
  }

  /** A valid time falls within the day. */
  lemma ToMicrosInDay(now: Time)
    requires now.Valid()
    ensures 0 <= ToMicros(now) < MicrosPerDay
  {
    var t := ToMicros(now);
    ScaledOrder(now.hour, t - now.hour * MicrosPerHour, 24, 0, MicrosPerHour);
  }

  /** Comparing a valid time with the full hour `h` is comparing its
      microsecond count with `AtHour(h)`. */
  lemma CompareWithHour(now: Time, h: int)
    requires now.Valid() && 0 <= h < 24
    ensures AtOrBefore(OnTheHour(h), now) <==> AtHour(h) <= ToMicros(now)
    ensures AtOrBefore(now, OnTheHour(h)) <==> ToMicros(now) <= AtHour(h)
    ensures Before(now, OnTheHour(h)) <==> ToMicros(now) < AtHour(h)
  {
    assert OnTheHour(h).Valid() && ToMicros(OnTheHour(h)) == AtHour(h);
    CompareMatchesMicros(OnTheHour(h), now);
    CompareMatchesMicros(now, OnTheHour(h));
  }

  /** The two readings of the window agree: the field-by-field `time` comparison
      the loop performs decides the same as the microsecond window. */
  lemma {:induction false} ActiveAtMatchesInWindow(day: Weekday, now: Time)
    requires now.Valid()
    ensures ToMicros(now) < MicrosPerDay
    ensures ActiveAt(day, now) == InWindow(day, ToMicros(now))
  {
    ToMicrosInDay(now);
    CompareWithHour(now, StartHour);
    CompareWithHour(now, EndHour);
    CompareWithHour(now, LunchStartHour);
    CompareWithHour(now, LunchEndHour);
  }

  /** For every clock value, the loop's field-by-field test on the `time` that
      value stands for decides the same as the microsecond window. */
  lemma ActiveAtFromMicros(day: Weekday, t: Micros)
    ensures ActiveAt(day, FromMicros(t)) == InWindow(day, t)
  {
    ActiveAtMatchesInWindow(day, FromMicros(t));
  }

  /** The edges of the window: Saturday and Sunday are out; 08:59:59.999999 is
      out and 09:00 in; 12:59:59.999999 is in, 13:00 and 13:59:59.999999 out,
      14:00 in; 18:00:00.000000 is in and 18:00:00.000001 out. */
  lemma WindowEdges()
    ensures !InWindow(5, AtHour(10)) && !InWindow(6, AtHour(10))
    ensures !InWindow(0, AtHour(9) - 1) && InWindow(0, AtHour(9))
    ensures InWindow(2, AtHour(13) - 1) && !InWindow(2, AtHour(13))
    ensures !InWindow(2, AtHour(14) - 1) && InWindow(2, AtHour(14))
    ensures InWindow(4, AtHour(18)) && !InWindow(4, AtHour(18) + 1)
  {
  }
}
