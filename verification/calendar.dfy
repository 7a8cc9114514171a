/** Calendar arithmetic behind the weekly report: proleptic Gregorian dates
    counted in days since 1970-01-01 (as `Date.UTC(..) / 86400000` counts
    them), the day of the week, the ISO 8601 week that `getWeekNumber`
    computes, and the "YYYY-MM-DD" strings the log dates are stored as. */
module Calendar {
  import opened Strings

  datatype Date = Date(year: int, month: int, day: int)

  /** An ISO 8601 week: the week-year and the week number within it. */
  datatype IsoWeek = IsoWeek(year: int, week: int)

  predicate IsLeapYear(y: int) {
    y % 4 == 0 && (y % 100 != 0 || y % 400 == 0)
  }

  function YearLength(y: int): int {
    if IsLeapYear(y) then 366 else 365
  }

  function DaysInMonth(y: int, m: int): int
    requires 1 <= m <= 12
  {
    if m == 2 then (if IsLeapYear(y) then 29 else 28)
    else if m == 4 || m == 6 || m == 9 || m == 11 then 30
    else 31
  }

  predicate ValidDate(d: Date) {
    1 <= d.month <= 12 && 1 <= d.day <= DaysInMonth(d.year, d.month)
  }

  /** Leap years among years 1..n (a count that runs on below year 1). */
  function LeapYearsThrough(n: int): int {
    n / 4 - n / 100 + n / 400
  }

  /** Days from 1970-01-01 to January 1 of year `y`. */
  function DaysBeforeYear(y: int): int {
    365 * (y - 1970) + LeapYearsThrough(y - 1) - LeapYearsThrough(1969)
  }

  lemma DaysBeforeYearStep(y: int)
    ensures DaysBeforeYear(y + 1) == DaysBeforeYear(y) + YearLength(y)
  {
    DivStep(y, 4);
    DivStep(y, 100);
    DivStep(y, 400);
  }

  /** Stepping from `y - 1` to `y` moves `y / k` on exactly at multiples of
      `k`, for the divisors of the leap-year rule. */
  lemma DivStep(y: int, k: int)
    requires k == 4 || k == 100 || k == 400
    ensures y / k - (y - 1) / k == if y % k == 0 then 1 else 0
  {
    if k == 4 {
      assert y / 4 - (y - 1) / 4 == if y % 4 == 0 then 1 else 0;
    } else if k == 100 {
      assert y / 100 - (y - 1) / 100 == if y % 100 == 0 then 1 else 0;
    } else {
      assert y / 400 - (y - 1) / 400 == if y % 400 == 0 then 1 else 0;
    }
  }

  /** A later year starts at least 365 days per year later. */
  lemma {:induction false} DaysBeforeYearMonotone(a: int, b: int)
    requires a <= b
    ensures DaysBeforeYear(a) + 365 * (b - a) <= DaysBeforeYear(b)
    decreases b - a
  {
    if a < b {
      DaysBeforeYearMonotone(a, b - 1);
      DaysBeforeYearStep(b - 1);
    }
  }

  /** Days in the months of year `y` before month `m`. */
  function DaysBeforeMonth(y: int, m: int): int
    requires 1 <= m <= 12
  {
    if m == 1 then 0 else DaysBeforeMonth(y, m - 1) + DaysInMonth(y, m - 1)
  }

  /** Month `m2` starts no earlier than month `m1` ends. */
  lemma {:induction false} MonthsInOrder(y: int, m1: int, m2: int)
    requires 1 <= m1 < m2 <= 12
    ensures DaysBeforeMonth(y, m1) + DaysInMonth(y, m1) <= DaysBeforeMonth(y, m2)
  {
    if m1 + 1 < m2 {
      MonthsInOrder(y, m1, m2 - 1);
    }
  }

  /** Every month ends within its year. */
  lemma MonthInYear(y: int, m: int)
    requires 1 <= m <= 12
    ensures 0 <= DaysBeforeMonth(y, m)
    ensures DaysBeforeMonth(y, m) + DaysInMonth(y, m) <= YearLength(y)
  {
    var leap := if IsLeapYear(y) then 1 else 0;
    assert DaysBeforeMonth(y, 2) == 31;
    assert DaysBeforeMonth(y, 3) == 59 + leap;
    assert DaysBeforeMonth(y, 4) == 90 + leap;
    assert DaysBeforeMonth(y, 5) == 120 + leap;
    assert DaysBeforeMonth(y, 6) == 151 + leap;
    assert DaysBeforeMonth(y, 7) == 181 + leap;
    assert DaysBeforeMonth(y, 8) == 212 + leap;
    assert DaysBeforeMonth(y, 9) == 243 + leap;
    assert DaysBeforeMonth(y, 10) == 273 + leap;
    assert DaysBeforeMonth(y, 11) == 304 + leap;
    assert DaysBeforeMonth(y, 12) == 334 + leap;
    if m < 12 {
      MonthsInOrder(y, m, 12);
    }
    if m > 1 {
      MonthsInOrder(y, 1, m);
    }
  }

  /** `Date.UTC(y, m - 1, d) / 86400000`: the date's day number. */
  function DaysFromCivil(d: Date): (z: int)
    requires ValidDate(d)
    ensures DaysBeforeYear(d.year) <= z < DaysBeforeYear(d.year + 1)
  {
    DaysBeforeYearStep(d.year);
    MonthInYear(d.year, d.month);
    DaysBeforeYear(d.year) + DaysBeforeMonth(d.year, d.month) + d.day - 1
  }

  /** Dates in calendar order have day numbers in the same order. */
  predicate DateBefore(d1: Date, d2: Date) {
    || d1.year < d2.year
    || (d1.year == d2.year && d1.month < d2.month)
    || (d1.year == d2.year && d1.month == d2.month && d1.day < d2.day)
  }

  lemma DaysFromCivilOrder(d1: Date, d2: Date)
    requires ValidDate(d1) && ValidDate(d2)
    ensures DateBefore(d1, d2) <==> DaysFromCivil(d1) < DaysFromCivil(d2)
  {
    if d1.year < d2.year {
      DaysBeforeYearMonotone(d1.year + 1, d2.year);
    } else if d2.year < d1.year {
      DaysBeforeYearMonotone(d2.year + 1, d1.year);
    } else if d1.month < d2.month {
      MonthsInOrder(d1.year, d1.month, d2.month);
    } else if d2.month < d1.month {
      MonthsInOrder(d1.year, d2.month, d1.month);
    }
  }

  /** Day 0 is 1970-01-01, the day `Date.UTC` counts from, a Thursday. */
  lemma EpochIsDayZero()
    ensures ValidDate(Date(1970, 1, 1)) && DaysFromCivil(Date(1970, 1, 1)) == 0
    ensures UtcDay(DaysFromCivil(Date(1970, 1, 1))) == 4
  {
  }

  /** The date after `d` in the calendar. */
  function NextDate(d: Date): (e: Date)
    requires ValidDate(d)
    ensures ValidDate(e) && DateBefore(d, e)
  {
    if d.day < DaysInMonth(d.year, d.month) then Date(d.year, d.month, d.day + 1)
    else if d.month < 12 then Date(d.year, d.month + 1, 1)
    else Date(d.year + 1, 1, 1)
  }

  /** Consecutive dates have consecutive day numbers. */
  lemma NextDateIsNextDay(d: Date)
    requires ValidDate(d)
    ensures DaysFromCivil(NextDate(d)) == DaysFromCivil(d) + 1
  {
    if d.day == DaysInMonth(d.year, d.month) && d.month == 12 {
      DaysBeforeYearStep(d.year);
      DecemberEndsYear(d.year);
    }
  }

  /** December ends on the last day of the year. */
  lemma DecemberEndsYear(y: int)
    ensures DaysBeforeMonth(y, 12) + DaysInMonth(y, 12) == YearLength(y)
  {
    var leap := if IsLeapYear(y) then 1 else 0;
    assert DaysBeforeMonth(y, 2) == 31;
    assert DaysBeforeMonth(y, 3) == 59 + leap;
    assert DaysBeforeMonth(y, 4) == 90 + leap;
    assert DaysBeforeMonth(y, 5) == 120 + leap;
    assert DaysBeforeMonth(y, 6) == 151 + leap;
    assert DaysBeforeMonth(y, 7) == 181 + leap;
    assert DaysBeforeMonth(y, 8) == 212 + leap;
    assert DaysBeforeMonth(y, 9) == 243 + leap;
    assert DaysBeforeMonth(y, 10) == 273 + leap;
    assert DaysBeforeMonth(y, 11) == 304 + leap;
    assert DaysBeforeMonth(y, 12) == 334 + leap;
  }

  /** `getUTCDay()` of a day number: 0 is Sunday; day 0 was a Thursday. */
  function UtcDay(z: int): (w: int)
    ensures 0 <= w < 7
  {
    (z + 4) % 7
  }

  /** `z + 4 - (getUTCDay() || 7)`: the Thursday of the Monday-to-Sunday
      week that holds day `z`. */
  function WeekThursday(z: int): (t: int)
    ensures z - 3 <= t <= z + 3
    ensures UtcDay(t) == 4
  {
    var dow := UtcDay(z);
    z + 4 - (if dow == 0 then 7 else dow)
  }

  /** The year holding day `t`, for a day within a year of year `near`. */
  function YearOf(t: int, near: int): (y: int)
    requires DaysBeforeYear(near - 1) <= t < DaysBeforeYear(near + 2)
    ensures DaysBeforeYear(y) <= t < DaysBeforeYear(y + 1)
    ensures near - 1 <= y <= near + 1
  {
    DaysBeforeYearStep(near - 1);
    DaysBeforeYearStep(near);
    DaysBeforeYearStep(near + 1);
    if t < DaysBeforeYear(near) then near - 1
    else if t < DaysBeforeYear(near + 1) then near
    else near + 1
  }

  /** A day lies in one year only. */
  lemma YearOfUnique(t: int, y1: int, y2: int)
    requires DaysBeforeYear(y1) <= t < DaysBeforeYear(y1 + 1)
    requires DaysBeforeYear(y2) <= t < DaysBeforeYear(y2 + 1)
    ensures y1 == y2
  {
    if y1 < y2 {
      DaysBeforeYearMonotone(y1 + 1, y2);
    } else if y2 < y1 {
      DaysBeforeYearMonotone(y2 + 1, y1);
    }
  }

  function CeilDiv(n: int, k: int): int
    requires k > 0
  {
    (n + k - 1) / k
  }

  /** The Thursday of the week a date falls in. */
  function IsoThursday(d: Date): int
    requires ValidDate(d)
  {
    WeekThursday(DaysFromCivil(d))
  }

  /** `getWeekNumber`: the week-year is the year of the date's Thursday, and
      the week counts the Thursday's day of that year in sevens, rounding up. */
  function GetWeekNumber(d: Date): (w: IsoWeek)
    requires ValidDate(d)
    ensures DaysBeforeYear(w.year) <= IsoThursday(d) < DaysBeforeYear(w.year + 1)
    ensures w.week == (IsoThursday(d) - DaysBeforeYear(w.year)) / 7 + 1
    ensures 1 <= w.week <= 53
    ensures d.year - 1 <= w.year <= d.year + 1
  {
    var z := DaysFromCivil(d);
    var thursday := WeekThursday(z);
    DaysBeforeYearStep(d.year - 1);
    DaysBeforeYearStep(d.year + 1);
    var year := YearOf(thursday, d.year);
    var yearStart := DaysBeforeYear(year);
    DaysBeforeYearStep(year);
    IsoWeek(year, CeilDiv(thursday - yearStart + 1, 7))
  }

  /** Week 1 of a week-year is the week that holds its January 4th (and so
      its first Thursday). */
  lemma January4IsInWeekOne(y: int)
    ensures ValidDate(Date(y, 1, 4)) && GetWeekNumber(Date(y, 1, 4)) == IsoWeek(y, 1)
  {
    var d := Date(y, 1, 4);
    var w := GetWeekNumber(d);
    DaysBeforeYearStep(y);
    YearOfUnique(IsoThursday(d), w.year, y);
  }

  /** Two dates get the same week exactly when they share a Thursday, that is
      when they fall in the same Monday-to-Sunday week. */
  lemma SameWeekIffSameThursday(d1: Date, d2: Date)
    requires ValidDate(d1) && ValidDate(d2)
    ensures GetWeekNumber(d1) == GetWeekNumber(d2) <==> IsoThursday(d1) == IsoThursday(d2)
  {
    var w1, w2 := GetWeekNumber(d1), GetWeekNumber(d2);
    var t1, t2 := IsoThursday(d1), IsoThursday(d2);
    if t1 == t2 {
      YearOfUnique(t1, w1.year, w2.year);
    } else if t1 < t2 {
      ThursdaysApart(t1, t2);
      SevensApart(t1, t2, DaysBeforeYear(w1.year));
    } else {
      ThursdaysApart(t2, t1);
      SevensApart(t2, t1, DaysBeforeYear(w1.year));
    }
  }

  /** Two different Thursdays are at least a week apart. */
  lemma ThursdaysApart(t1: int, t2: int)
    requires UtcDay(t1) == 4 && UtcDay(t2) == 4 && t1 < t2
    ensures t1 + 7 <= t2
  {
  }

  /** Days a week or more apart are in different sevens from any origin. */
  lemma SevensApart(t1: int, t2: int, s: int)
    requires t1 + 7 <= t2
    ensures (t1 - s) / 7 < (t2 - s) / 7
  {
  }

  /** Seven days on, the week number goes up by one, or the week-year turns
      over to week 1 after a week 52 or 53. */
  lemma NextWeek(d1: Date, d2: Date)
    requires ValidDate(d1) && ValidDate(d2)
    requires DaysFromCivil(d2) == DaysFromCivil(d1) + 7
    ensures var w1, w2 := GetWeekNumber(d1), GetWeekNumber(d2);
            || (w2.year == w1.year && w2.week == w1.week + 1)
            || (w2.year == w1.year + 1 && w2.week == 1 && 52 <= w1.week)
  {
    NextThursday(d1, d2);
    WeekFacts(d1);
    WeekFacts(d2);
    WeeksOfNextThursday(IsoThursday(d1), GetWeekNumber(d1), GetWeekNumber(d2));
  }

  /** The week of a Thursday `t` placed in its week-year, and the week of the
      Thursday after it. */
  lemma WeeksOfNextThursday(t: int, w1: IsoWeek, w2: IsoWeek)
    requires DaysBeforeYear(w1.year) <= t < DaysBeforeYear(w1.year + 1)
    requires w1.week == (t - DaysBeforeYear(w1.year)) / 7 + 1
    requires DaysBeforeYear(w2.year) <= t + 7 < DaysBeforeYear(w2.year + 1)
    requires w2.week == (t + 7 - DaysBeforeYear(w2.year)) / 7 + 1
    ensures || (w2.year == w1.year && w2.week == w1.week + 1)
            || (w2.year == w1.year + 1 && w2.week == 1 && 52 <= w1.week)
  {
    YearBounds(w1.year, w2.year);
    ThursdayWeekOn(t, DaysBeforeYear(w1.year), DaysBeforeYear(w1.year + 1),
                   DaysBeforeYear(w2.year), DaysBeforeYear(w2.year + 1), w1.year, w2.year);
  }

  /** The Thursday a week later. */
  lemma NextThursday(d1: Date, d2: Date)
    requires ValidDate(d1) && ValidDate(d2)
    requires DaysFromCivil(d2) == DaysFromCivil(d1) + 7
    ensures IsoThursday(d2) == IsoThursday(d1) + 7
  {
    WeekThursdayShift(DaysFromCivil(d1));
  }

  /** How the starts and ends of two years relate. */
  lemma YearBounds(y1: int, y2: int)
    ensures 365 <= DaysBeforeYear(y1 + 1) - DaysBeforeYear(y1) <= 366
    ensures y2 < y1 ==> DaysBeforeYear(y2 + 1) <= DaysBeforeYear(y1)
    ensures y1 + 1 < y2 ==> DaysBeforeYear(y1 + 1) + 365 <= DaysBeforeYear(y2)
    ensures y1 < y2 ==> DaysBeforeYear(y1 + 1) <= DaysBeforeYear(y2)
  {
    DaysBeforeYearStep(y1);
    if y2 < y1 {
      DaysBeforeYearMonotone(y2 + 1, y1);
    } else if y1 < y2 {
      DaysBeforeYearMonotone(y1 + 1, y2);
    }
  }

  /** Arithmetic core of the above: a Thursday `t` and the next one, placed
      in years `y1` and `y2` that start at `s1` and `s2` and end at `e1` and
      `e2`. */
  lemma ThursdayWeekOn(t: int, s1: int, e1: int, s2: int, e2: int, y1: int, y2: int)
    requires s1 <= t < e1 && s2 <= t + 7 < e2
    requires 365 <= e1 - s1 <= 366
    requires y2 < y1 ==> e2 <= s1
    requires y1 + 1 < y2 ==> e1 + 365 <= s2
    requires y1 == y2 ==> s1 == s2
    requires y2 == y1 + 1 ==> s2 == e1
    ensures || (y2 == y1 && (t + 7 - s2) / 7 + 1 == (t - s1) / 7 + 2)
            || (y2 == y1 + 1 && (t + 7 - s2) / 7 + 1 == 1 && 52 <= (t - s1) / 7 + 1)
  {
    if y2 == y1 {
      SevenOn(t - s1);
    } else if y2 == y1 + 1 {
      LastWeeks(t - s1, e1 - s1);
    }
  }

  lemma WeekThursdayShift(z: int)
    ensures WeekThursday(z + 7) == WeekThursday(z) + 7
  {
  }

  lemma SevenOn(n: int)
    ensures (n + 7) / 7 == n / 7 + 1
  {
  }

  /** A Thursday in the last week of a year of 365 or 366 days is in its
      week 52 or 53. */
  lemma LastWeeks(n: int, len: int)
    requires 365 <= len && len - 7 <= n
    ensures 52 <= n / 7 + 1
  {
  }

  /** Weeks in (week-year, week) order hold days in the same order. */
  predicate WeekBefore(w1: IsoWeek, w2: IsoWeek) {
    w1.year < w2.year || (w1.year == w2.year && w1.week < w2.week)
  }

  lemma WeekOrderIsChronological(d1: Date, d2: Date)
    requires ValidDate(d1) && ValidDate(d2)
    requires WeekBefore(GetWeekNumber(d1), GetWeekNumber(d2))
    ensures DaysFromCivil(d1) < DaysFromCivil(d2)
  {
    var w1, w2 := GetWeekNumber(d1), GetWeekNumber(d2);
    WeekFacts(d1);
    WeekFacts(d2);
    YearBounds(w1.year, w2.year);
    ThursdaysInOrder(IsoThursday(d1), IsoThursday(d2), DaysBeforeYear(w1.year), DaysBeforeYear(w1.year + 1),
                     DaysBeforeYear(w2.year), w1.year, w2.year, w1.week, w2.week);
  }

  /** What the week number says about a date's Thursday. */
  lemma WeekFacts(d: Date)
    requires ValidDate(d)
    ensures var w, t, z := GetWeekNumber(d), IsoThursday(d), DaysFromCivil(d);
            && DaysBeforeYear(w.year) <= t < DaysBeforeYear(w.year + 1)
            && w.week == (t - DaysBeforeYear(w.year)) / 7 + 1
            && UtcDay(t) == 4 && z - 3 <= t <= z + 3
  {
  }

  /** Arithmetic core of the above: Thursdays numbered within their years. */
  lemma ThursdaysInOrder(t1: int, t2: int, s1: int, e1: int, s2: int, y1: int, y2: int, k1: int, k2: int)
    requires s1 <= t1 < e1 && s2 <= t2
    requires y1 < y2 ==> e1 <= s2
    requires y1 == y2 ==> s1 == s2
    requires k1 == (t1 - s1) / 7 + 1 && k2 == (t2 - s2) / 7 + 1
    requires y1 < y2 || (y1 == y2 && k1 < k2)
    requires UtcDay(t1) == 4 && UtcDay(t2) == 4
    ensures t1 + 7 <= t2
  {
    if y1 == y2 && t2 <= t1 {
      DivMonotone(t2 - s1, t1 - s1);
      assert false;
    }
    ThursdaysApart(t1, t2);
  }

  lemma DivMonotone(a: int, b: int)
    requires a <= b
    ensures a / 7 <= b / 7
  {
  }

  /** Every date of years 1..9999 has its week-year in 0..9999 (the last
      days of 9999 belong to its week 52). */
  lemma WeekYearInRange(d: Date)
    requires ValidDate(d) && 1 <= d.year <= 9999
    ensures 0 <= GetWeekNumber(d).year <= 9999
  {
    if d.year == 9999 {
      assert DaysBeforeYear(10000) == 2932897;
    }
  }

  /** A date string as a date input gives it: "YYYY-MM-DD", year 0001-9999. */
  predicate IsDateString(s: string) {
    && |s| == 10 && s[4] == '-' && s[7] == '-'
    && AllDigits(s[..4]) && AllDigits(s[5..7]) && AllDigits(s[8..])
    && 1 <= DigitsValue(s[..4])
    && ValidDate(Date(DigitsValue(s[..4]), DigitsValue(s[5..7]), DigitsValue(s[8..])))
  }

  /** The date a "YYYY-MM-DD" string names. */
  function ParseDate(s: string): (d: Date)
    requires IsDateString(s)
    ensures ValidDate(d) && 1 <= d.year <= 9999
  {
    assert Pow10(4) == 10000;
    Date(DigitsValue(s[..4]), DigitsValue(s[5..7]), DigitsValue(s[8..]))
  }

  /** For date strings, string order is calendar order: sorting the strings
      sorts the dates. */
  lemma DateStringOrder(a: string, b: string)
    requires IsDateString(a) && IsDateString(b)
    ensures StrLess(a, b) <==> DaysFromCivil(ParseDate(a)) < DaysFromCivil(ParseDate(b))
  {
    DateStringFields(a);
    DateStringFields(b);
    FieldsOrder(a[..4], a[4..], b[..4], b[4..]);
    StrLessConcat([a[4]], a[5..], [b[4]], b[5..]);
    StrLessIrreflexive("-");
    FieldsOrder(a[5..7], a[7..], b[5..7], b[7..]);
    StrLessConcat([a[7]], a[8..], [b[7]], b[8..]);
    DigitsOrder(a[8..], b[8..]);
    DaysFromCivilOrder(ParseDate(a), ParseDate(b));
  }

  /** How a date string splits into its fields and separators. */
  lemma DateStringFields(a: string)
    requires |a| == 10
    ensures a == a[..4] + a[4..] && a[4..] == [a[4]] + a[5..]
    ensures a[5..] == a[5..7] + a[7..] && a[7..] == [a[7]] + a[8..]
  {
  }

  /** A digit field followed by a rest compares by the field's number first. */
  lemma FieldsOrder(f1: string, r1: string, f2: string, r2: string)
    requires AllDigits(f1) && AllDigits(f2) && |f1| == |f2|
    ensures StrLess(f1 + r1, f2 + r2) <==>
              DigitsValue(f1) < DigitsValue(f2) || (DigitsValue(f1) == DigitsValue(f2) && StrLess(r1, r2))
  {
    StrLessConcat(f1, r1, f2, r2);
    DigitsOrder(f1, f2);
    DigitsValuePad(f1);
    DigitsValuePad(f2);
  }
}
