/** The daily hours calculation of the timesheet widget: two "HH:MM" clock
    readings become minutes since midnight, a shift whose end reads earlier
    than its start runs past midnight, a fixed meal break is taken off, and
    the result, in hours, is never negative. */
module Clock {
  import opened Strings

  const MinutesPerDay := 24 * 60

  /** A clock reading as a time input gives it: "HH:MM", 24-hour. */
  predicate IsClock(s: string) {
    && |s| == 5 && s[2] == ':'
    && AllDigits(s[..2]) && AllDigits(s[3..])
    && DigitsValue(s[..2]) < 24 && DigitsValue(s[3..]) < 60
  }

  /** `h * 60 + m` for the fields of `s.split(':').map(Number)`. */
  function ToMinutes(s: string): (m: nat)
    requires IsClock(s)
    ensures m < MinutesPerDay
  {
    DigitsValue(s[..2]) * 60 + DigitsValue(s[3..])
  }

  /** The reading of a minute of the day. */
  function FromMinutes(m: nat): (s: string)
    requires m < MinutesPerDay
    ensures IsClock(s)
  {
    var s := PadDigits(m / 60, 2) + ":" + PadDigits(m % 60, 2);
    assert s[..2] == PadDigits(m / 60, 2) && s[3..] == PadDigits(m % 60, 2);
    PadDigitsValue(m / 60, 2);
    PadDigitsValue(m % 60, 2);
    s
  }

  /** Every minute of the day reads back as itself. */
  lemma FromMinutesRoundTrip(m: nat)
    requires m < MinutesPerDay
    ensures ToMinutes(FromMinutes(m)) == m
  {
    var t := FromMinutes(m);
    assert Pow10(2) == 100;
    assert m / 60 * 60 + m % 60 == m;
    assert t[..2] == PadDigits(m / 60, 2) && t[3..] == PadDigits(m % 60, 2);
    PadDigitsValue(m / 60, 2);
    PadDigitsValue(m % 60, 2);
  }

  /** Every reading is the reading of its minute. */
  lemma ToMinutesRoundTrip(s: string)
    requires IsClock(s)
    ensures FromMinutes(ToMinutes(s)) == s
  {
    var h, mm := DigitsValue(s[..2]), DigitsValue(s[3..]);
    DivModSixty(h, mm);
    DigitsValuePad(s[..2]);
    DigitsValuePad(s[3..]);
    assert s == s[..2] + ":" + s[3..];
  }

  lemma DivModSixty(h: nat, m: nat)
    requires m < 60
    ensures (h * 60 + m) / 60 == h && (h * 60 + m) % 60 == m
  {
  }

  /** Minutes from start to end, the end read on the next day when it is
      earlier than the start. */
  function ShiftSpan(startMin: int, endMin: int): int {
    if endMin < startMin then endMin + MinutesPerDay - startMin else endMin - startMin
  }

  /** The meal break taken off: 30 minutes when shortened, else an hour. */
  function MealDeduction(shortMeal: bool): int {
    if shortMeal then 30 else 60
  }

  function Max(a: real, b: real): real { if a < b then b else a }

  /** `calculateHours(start, meal, end, shortMeal)`. */
  function CalculateHours(start: string, meal: string, end: string, shortMeal: bool): (hours: real)
    requires start != "" && end != "" ==> IsClock(start) && IsClock(end)
    ensures hours >= 0.0
    ensures start == "" || end == "" ==> hours == 0.0
    ensures hours * 60.0 + MealDeduction(shortMeal) as real < MinutesPerDay as real
  {
    if start == "" || end == "" then 0.0
    else
      var startMin := ToMinutes(start);
      var endMin := ToMinutes(end);
      var duration := ShiftSpan(startMin, endMin) - MealDeduction(shortMeal);
      Max(0.0, duration as real / 60.0)
  }

  /** The span is the forward distance on the 24-hour dial: under a day, and
      the start moved forward by it reads the end. */
  lemma ShiftSpanIsForwardDistance(startMin: int, endMin: int)
    requires 0 <= startMin < MinutesPerDay && 0 <= endMin < MinutesPerDay
    ensures 0 <= ShiftSpan(startMin, endMin) < MinutesPerDay
    ensures ShiftSpan(startMin, endMin) == (endMin - startMin) % MinutesPerDay
    ensures (startMin + ShiftSpan(startMin, endMin)) % MinutesPerDay == endMin
  {
  }

  /** The hours are the minutes worked, the shift's forward span less the
      meal break, over 60, or zero when the break uses the whole shift. */
  lemma CalculateHoursWorked(start: string, meal: string, end: string, shortMeal: bool)
    requires IsClock(start) && IsClock(end)
    ensures var worked := (ToMinutes(end) - ToMinutes(start)) % MinutesPerDay - MealDeduction(shortMeal);
            CalculateHours(start, meal, end, shortMeal) == if worked <= 0 then 0.0 else worked as real / 60.0
  {
    ShiftSpanIsForwardDistance(ToMinutes(start), ToMinutes(end));
  }

  /** The meal time is never read: only the flag matters. */
  lemma MealTimeIgnored(start: string, meal1: string, meal2: string, end: string, shortMeal: bool)
    requires start != "" && end != "" ==> IsClock(start) && IsClock(end)
    ensures CalculateHours(start, meal1, end, shortMeal) == CalculateHours(start, meal2, end, shortMeal)
  {
  }

  /** Shortening the meal gives back exactly half an hour once the shift is
      at least an hour long. */
  lemma ShortMealAddsHalfHour(start: string, meal: string, end: string)
    requires IsClock(start) && IsClock(end)
    requires ShiftSpan(ToMinutes(start), ToMinutes(end)) >= 60
    ensures CalculateHours(start, meal, end, true) == CalculateHours(start, meal, end, false) + 0.5
  {
  }

  /** 09:00 to 18:00 is 8 hours with the full meal, 8.5 with the short one;
      22:00 to 06:00 runs past midnight: 480 minutes, 7 hours. */
  lemma Examples()
    ensures CalculateHours("09:00", "13:00", "18:00", false) == 8.0
    ensures CalculateHours("09:00", "", "18:00", true) == 8.5
    ensures CalculateHours("22:00", "02:00", "06:00", false) == 7.0
    ensures CalculateHours("", "12:00", "18:00", false) == 0.0
    ensures CalculateHours("09:00", "12:00", "", false) == 0.0
  {
    assert ToMinutes("09:00") == 540 by { ReadClock("09:00", 0, 9, 0, 0); }
    assert ToMinutes("18:00") == 1080 by { ReadClock("18:00", 1, 8, 0, 0); }
    assert ToMinutes("22:00") == 1320 by { ReadClock("22:00", 2, 2, 0, 0); }
    assert ToMinutes("06:00") == 360 by { ReadClock("06:00", 0, 6, 0, 0); }
  }

  /** Reads a clock string digit by digit. */
  lemma ReadClock(s: string, h1: nat, h2: nat, m1: nat, m2: nat)
    requires h1 < 10 && h2 < 10 && m1 < 10 && m2 < 10
    requires s == [DigitChar(h1), DigitChar(h2), ':', DigitChar(m1), DigitChar(m2)]
    requires 10 * h1 + h2 < 24 && 10 * m1 + m2 < 60
    ensures IsClock(s) && ToMinutes(s) == (10 * h1 + h2) * 60 + 10 * m1 + m2
  {
    assert s[..2] == [DigitChar(h1), DigitChar(h2)] && s[3..] == [DigitChar(m1), DigitChar(m2)];
    assert [DigitChar(h1), DigitChar(h2)][..1] == [DigitChar(h1)];
    assert [DigitChar(m1), DigitChar(m2)][..1] == [DigitChar(m1)];
    assert [DigitChar(h1)][..0] == [];
    assert [DigitChar(m1)][..0] == [];
  }
}
