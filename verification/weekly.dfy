/** The weekly report of the timesheet: the current user's logs grouped by
    the ISO 8601 week of their date, each group with its logs in order and
    the sum of their hours, the groups ordered by week key, greatest first. */
module WeeklyReport {
  import opened Strings
  import opened Sequences
  import opened Calendar
  import opened TimeLogs
  import opened Grouping

  /** `${year}-W${week}`, the key as the widget writes it: the numbers in
      their shortest decimal form. */
  function WeekKeyAsWritten(w: IsoWeek): (k: string)
    requires 0 <= w.year && 0 <= w.week
    ensures var p := |NatToString(w.year)|;
      && 1 <= p && p + 3 <= |k|
      && AllDigits(k[..p]) && DigitsValue(k[..p]) == w.year && (p > 1 ==> k[0] != '0')
      && k[p..p + 2] == "-W"
      && AllDigits(k[p + 2..]) && DigitsValue(k[p + 2..]) == w.week && (|k| > p + 3 ==> k[p + 2] != '0')
  {
    var y, n := NatToString(w.year), NatToString(w.week);
    var k := y + "-W" + n;
    assert k[..|y|] == y && k[|y|..|y| + 2] == "-W" && k[|y| + 2..] == n;
    k
  }

  /** The widget's keys read back: equal keys name the same week. */
  lemma WeekKeyAsWrittenInjective(w1: IsoWeek, w2: IsoWeek)
    requires 0 <= w1.year && 0 <= w1.week && 0 <= w2.year && 0 <= w2.week
    ensures WeekKeyAsWritten(w1) == WeekKeyAsWritten(w2) <==> w1 == w2
  {
    var k1, k2 := WeekKeyAsWritten(w1), WeekKeyAsWritten(w2);
    if k1 == k2 {
      YearDigitsEnd(k1, |NatToString(w1.year)|, |NatToString(w2.year)|);
    }
  }

  /** The year's digits run up to the "-W" and no further. */
  lemma YearDigitsEnd(k: string, p: nat, q: nat)
    requires p + 2 <= |k| && AllDigits(k[..p]) && k[p..p + 2] == "-W"
    requires q + 2 <= |k| && AllDigits(k[..q]) && k[q..q + 2] == "-W"
    ensures p == q
  {
    assert k[p] == k[p..p + 2][0] && k[q] == k[q..q + 2][0];
    assert forall i :: 0 <= i < p ==> IsDigit(k[..p][i]);
    assert forall i :: 0 <= i < q ==> IsDigit(k[..q][i]);
  }

  /** The week key written as ISO 8601 writes week dates, "YYYY-Www": a
      four-digit year and a two-digit week. */
  function WeekKey(w: IsoWeek): (k: string)
    requires 0 <= w.year < 10000 && 1 <= w.week <= 53
    ensures |k| == 8 && k[4..6] == "-W" && AllDigits(k[..4]) && AllDigits(k[6..])
    ensures DigitsValue(k[..4]) == w.year && DigitsValue(k[6..]) == w.week
  {
    var k := PadDigits(w.year, 4) + "-W" + PadDigits(w.week, 2);
    assert k[..4] == PadDigits(w.year, 4) && k[6..] == PadDigits(w.week, 2);
    assert Pow10(2) == 100 && Pow10(4) == 10000;
    PadDigitsValue(w.year, 4);
    PadDigitsValue(w.week, 2);
    k
  }

  predicate InKeyRange(w: IsoWeek) {
    0 <= w.year < 10000 && 1 <= w.week <= 53
  }

  /** Week keys sort as the weeks do: by week-year, then by week. */
  lemma WeekKeyOrder(w1: IsoWeek, w2: IsoWeek)
    requires InKeyRange(w1) && InKeyRange(w2)
    ensures StrLess(WeekKey(w1), WeekKey(w2)) <==> WeekBefore(w1, w2)
    ensures WeekKey(w1) == WeekKey(w2) <==> w1 == w2
  {
    var k1, k2 := WeekKey(w1), WeekKey(w2);
    assert k1 == k1[..4] + k1[4..] && k1[4..] == k1[4..6] + k1[6..];
    assert k2 == k2[..4] + k2[4..] && k2[4..] == k2[4..6] + k2[6..];
    StrLessConcat(k1[..4], k1[4..], k2[..4], k2[4..]);
    StrLessConcat(k1[4..6], k1[6..], k2[4..6], k2[6..]);
    StrLessIrreflexive("-W");
    DigitsOrder(k1[..4], k2[..4]);
    DigitsOrder(k2[..4], k1[..4]);
    DigitsOrder(k1[6..], k2[6..]);
  }

  /** What `new Date(log.date)` gives when the date is not a "YYYY-MM-DD"
      string (an empty date field, say): an invalid date, whose week and
      year both print as NaN. */
  const InvalidDateKey: string := "NaN-WNaN"

  /** The week key of a log. A dated log's key starts with a digit; an
      undated one gets the key of an invalid date. */
  function KeyOf(l: TimeLog): (k: string)
    ensures 1 <= |k| && (IsDigit(k[0]) <==> IsDateString(l.date))
    ensures !IsDateString(l.date) ==> k == InvalidDateKey
  {
    if IsDateString(l.date) then
      var d := ParseDate(l.date);
      WeekYearInRange(d);
      var k := WeekKey(GetWeekNumber(d));
      assert k[..4][0] == k[0];
      k
    else InvalidDateKey
  }

  /** The week key of a log as the widget writes it, with the same split
      between dated and undated logs as `KeyOf`. */
  function KeyOfAsWritten(l: TimeLog): (k: string)
    ensures 1 <= |k| && (IsDigit(k[0]) <==> IsDateString(l.date))
    ensures !IsDateString(l.date) ==> k == InvalidDateKey
  {
    if IsDateString(l.date) then
      var d := ParseDate(l.date);
      WeekYearInRange(d);
      var w := GetWeekNumber(d);
      var k := WeekKeyAsWritten(w);
      assert k[..|NatToString(w.year)|][0] == k[0];
      k
    else InvalidDateKey
  }

  /** Both keys split the logs into the same groups: two logs share the
      widget's key exactly when they share the padded key. Only the order of
      the groups differs. */
  lemma SameGroupsAsWritten(l1: TimeLog, l2: TimeLog)
    ensures KeyOfAsWritten(l1) == KeyOfAsWritten(l2) <==> KeyOf(l1) == KeyOf(l2)
  {
    if IsDateString(l1.date) && IsDateString(l2.date) {
      var d1, d2 := ParseDate(l1.date), ParseDate(l2.date);
      WeekYearInRange(d1);
      WeekYearInRange(d2);
      WeekKeyOrder(GetWeekNumber(d1), GetWeekNumber(d2));
      WeekKeyAsWrittenInjective(GetWeekNumber(d1), GetWeekNumber(d2));
    }
  }

  /** Two dated logs share a key exactly when they fall in the same
      Monday-to-Sunday week. */
  lemma SameKeyIffSameWeek(l1: TimeLog, l2: TimeLog)
    requires IsDateString(l1.date) && IsDateString(l2.date)
    ensures KeyOf(l1) == KeyOf(l2) <==> IsoThursday(ParseDate(l1.date)) == IsoThursday(ParseDate(l2.date))
  {
    var d1, d2 := ParseDate(l1.date), ParseDate(l2.date);
    WeekYearInRange(d1);
    WeekYearInRange(d2);
    WeekKeyOrder(GetWeekNumber(d1), GetWeekNumber(d2));
    SameWeekIffSameThursday(d1, d2);
  }

  /** A log under a smaller key is dated before a log under a greater one. */
  lemma KeyOrderIsDateOrder(l1: TimeLog, l2: TimeLog)
    requires IsDateString(l1.date) && IsDateString(l2.date)
    requires StrLess(KeyOf(l1), KeyOf(l2))
    ensures DaysFromCivil(ParseDate(l1.date)) < DaysFromCivil(ParseDate(l2.date))
  {
    var d1, d2 := ParseDate(l1.date), ParseDate(l2.date);
    WeekYearInRange(d1);
    WeekYearInRange(d2);
    WeekKeyOrder(GetWeekNumber(d1), GetWeekNumber(d2));
    WeekOrderIsChronological(d1, d2);
  }

  /** A date's week, read off its Thursday's place in a year. */
  lemma WeekOf(d: Date, y: int, week: int)
    requires ValidDate(d)
    requires DaysBeforeYear(y) <= IsoThursday(d) < DaysBeforeYear(y + 1)
    requires week == (IsoThursday(d) - DaysBeforeYear(y)) / 7 + 1
    ensures GetWeekNumber(d) == IsoWeek(y, week)
  {
    YearOfUnique(IsoThursday(d), GetWeekNumber(d).year, y);
  }

  /** 2024-02-26, a Monday, is in week 9 of 2024; 2024-03-04, a week later,
      in week 10. */
  lemma WeeksNineAndTen()
    ensures ValidDate(Date(2024, 2, 26)) && ValidDate(Date(2024, 3, 4))
    ensures DaysFromCivil(Date(2024, 2, 26)) + 7 == DaysFromCivil(Date(2024, 3, 4))
    ensures GetWeekNumber(Date(2024, 2, 26)) == IsoWeek(2024, 9)
    ensures GetWeekNumber(Date(2024, 3, 4)) == IsoWeek(2024, 10)
  {
    var d1, d2 := Date(2024, 2, 26), Date(2024, 3, 4);
    assert DaysBeforeYear(2024) == 19723;
    DaysBeforeYearStep(2024);
    assert DaysBeforeMonth(2024, 2) == 31;
    assert DaysBeforeMonth(2024, 3) == 60;
    assert DaysFromCivil(d1) == 19779;
    assert DaysFromCivil(d2) == 19786;
    assert IsoThursday(d1) == 19782;
    assert IsoThursday(d2) == 19789;
    WeekOf(d1, 2024, 9);
    WeekOf(d2, 2024, 10);
  }

  /** The keys the widget writes for weeks 9 and 10 of 2024. */
  lemma KeysOfWeeksNineAndTen()
    ensures WeekKeyAsWritten(IsoWeek(2024, 10)) == "2024-W10"
    ensures WeekKeyAsWritten(IsoWeek(2024, 9)) == "2024-W9"
  {
    assert NatToString(2) == "2";
    assert NatToString(20) == "20";
    assert NatToString(202) == "202";
    assert NatToString(2024) == "2024";
    assert NatToString(1) == "1";
    assert NatToString(10) == "10";
  }

  /** "2024-W10" sorts below "2024-W9": they first differ at '1' and '9'. */
  lemma WeekTenSortsBelowWeekNine()
    ensures StrLess("2024-W10", "2024-W9")
  {
    var a, b := "2024-W10", "2024-W9";
    assert a[1..] == "024-W10" && b[1..] == "024-W9";
    assert a[2..] == "24-W10" && b[2..] == "24-W9";
    assert a[3..] == "4-W10" && b[3..] == "4-W9";
    assert a[4..] == "-W10" && b[4..] == "-W9";
    assert a[5..] == "W10" && b[5..] == "W9";
    assert a[6..] == "10" && b[6..] == "9";
    assert StrLess(a[6..], b[6..]);
    assert StrLess(a[5..], b[5..]);
    assert StrLess(a[4..], b[4..]);
    assert StrLess(a[3..], b[3..]);
    assert StrLess(a[2..], b[2..]);
    assert StrLess(a[1..], b[1..]);
  }

  /** The widget's keys misorder weeks: 2024-02-26 is in week 9 and
      2024-03-04 in week 10, yet the key of week 10 sorts below the key of
      week 9, so the descending sort lists week 9 above the later week 10.
      The padded keys "2024-W09" and "2024-W10" sort as the weeks do. */
  lemma AsWrittenKeysMisorder()
    ensures DaysFromCivil(Date(2024, 2, 26)) < DaysFromCivil(Date(2024, 3, 4))
    ensures GetWeekNumber(Date(2024, 2, 26)) == IsoWeek(2024, 9)
    ensures GetWeekNumber(Date(2024, 3, 4)) == IsoWeek(2024, 10)
    ensures StrLess(WeekKeyAsWritten(IsoWeek(2024, 10)), WeekKeyAsWritten(IsoWeek(2024, 9)))
    ensures StrLess(WeekKey(IsoWeek(2024, 9)), WeekKey(IsoWeek(2024, 10)))
  {
    WeeksNineAndTen();
    KeysOfWeeksNineAndTen();
    WeekTenSortsBelowWeekNine();
    WeekKeyOrder(IsoWeek(2024, 9), IsoWeek(2024, 10));
  }

  /** `weeklyData` as the widget computes it, under its own unpadded keys:
      the groups are those of `WeeklyData` (`SameGroupsAsWritten`), listed by
      the unpadded key, greatest first. */
  method WeeklyDataAsWritten(myLogs: seq<TimeLog>) returns (weeks: seq<(string, Bucket)>)
    ensures IsGroupReport(myLogs, KeyOfAsWritten, weeks)
  {
    weeks := GroupBy(myLogs, KeyOfAsWritten);
  }

  /** `weeklyData` with the padded week key: every log of `myLogs` pushed
      onto the group of its week key, its hours added to the group's total,
      and the groups listed by key, greatest first, which is newest week
      first (`GroupsNewestFirst`). */
  method WeeklyData(myLogs: seq<TimeLog>) returns (weeks: seq<(string, Bucket)>)
    ensures IsGroupReport(myLogs, KeyOf, weeks)
  {
    weeks := GroupBy(myLogs, KeyOf);
  }

  /** The report for the signed-in user: `weeklyData` over `myLogs`. It is
      the full report of that user's logs; every log it shows is one of that
      user's stored logs, and nobody signed in means no groups. */
  method WeeklyDataForUser(timeLogs: Option<seq<TimeLog>>, user: Option<User>) returns (weeks: seq<(string, Bucket)>)
    ensures IsGroupReport(MyLogs(timeLogs, user), KeyOf, weeks)
    ensures user.None? ==> weeks == []
    ensures forall i, l :: 0 <= i < |weeks| && l in weeks[i].1.logs ==>
              user.Some? && l.userId == user.value.email && l in Stored(timeLogs) && KeyOf(l) == weeks[i].0
    ensures Sum(weeks, EntryHours) == SumHours(MyLogs(timeLogs, user))
  {
    weeks := WeeklyData(MyLogs(timeLogs, user));
  }

  /** Groups listed earlier hold later days: in a report of dated logs, every
      log of a group is dated after every log of the groups below it. */
  lemma GroupsNewestFirst(myLogs: seq<TimeLog>, weeks: seq<(string, Bucket)>, i: int, j: int, l1: TimeLog, l2: TimeLog)
    requires IsGroupReport(myLogs, KeyOf, weeks)
    requires 0 <= i < j < |weeks| && l1 in weeks[i].1.logs && l2 in weeks[j].1.logs
    requires IsDateString(l1.date) && IsDateString(l2.date)
    ensures DaysFromCivil(ParseDate(l2.date)) < DaysFromCivil(ParseDate(l1.date))
  {
    KeyOrderIsDateOrder(l2, l1);
  }
}
