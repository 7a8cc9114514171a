/** The list of time logs the timesheet keeps in the project: saving a day
    (an upsert keyed by `date + "_" + email`), deleting an entry, and the
    current user's own logs, newest date first. */
module TimeLogs {
  import opened Strings
  import opened Sequences
  import opened Clock
  import opened Calendar

  datatype Option<T> = None | Some(value: T)

  /** The signed-in user, as the project context provides it. */
  datatype User = User(email: string, name: string, department: string)

  /** One saved day of work. */
  datatype TimeLog = TimeLog(
    id: string,
    userId: string,
    userName: string,
    department: string,
    date: string,
    callTime: string,
    mealTime: string,
    hasShortenedMeal: bool,
    endTime: string,
    totalHours: real)

  /** The entry form: its date, its three clock fields and the short-meal box. */
  datatype Form = Form(date: string, callTime: string, mealTime: string, endTime: string, hasShortenedMeal: bool)

  /** `project.timeLogs || []`. */
  function Stored(timeLogs: Option<seq<TimeLog>>): seq<TimeLog> {
    if timeLogs.Some? then timeLogs.value else []
  }

  /** `${date}_${user.email}`: one id per user and day. */
  function LogId(date: string, email: string): string {
    date + "_" + email
  }

  /** Ids tell the user and the day apart as long as the date is a
      "YYYY-MM-DD" string. */
  lemma LogIdInjective(date1: string, email1: string, date2: string, email2: string)
    requires IsDateString(date1) && IsDateString(date2)
    ensures LogId(date1, email1) == LogId(date2, email2) <==> date1 == date2 && email1 == email2
  {
    if LogId(date1, email1) == LogId(date2, email2) {
      var id := LogId(date1, email1);
      assert date1 == id[..10] && date2 == id[..10];
      assert email1 == id[11..] && email2 == id[11..];
    }
  }

  /** A log filed under the id of its own user and day. */
  predicate WellKeyed(l: TimeLog) {
    l.id == LogId(l.date, l.userId)
  }

  predicate AllWellKeyed(logs: seq<TimeLog>) {
    forall l :: l in logs ==> WellKeyed(l)
  }

  predicate UniqueIds(logs: seq<TimeLog>) {
    forall i, j :: 0 <= i < j < |logs| ==> logs[i].id != logs[j].id
  }

  /** `l => l.id !== id`. */
  function IdIsNot(id: string): TimeLog -> bool {
    (l: TimeLog) => l.id != id
  }

  /** `handleDeleteLog`: the stored logs less every entry with this id, the
      others in their order. */
  function DeleteLog(timeLogs: Option<seq<TimeLog>>, id: string): (r: seq<TimeLog>)
    ensures forall l :: l in r <==> l in Stored(timeLogs) && l.id != id
    ensures forall l :: multiset(r)[l] == if l.id == id then 0 else multiset(Stored(timeLogs))[l]
  {
    FilterMultiset(Stored(timeLogs), IdIsNot(id));
    Filter(Stored(timeLogs), IdIsNot(id))
  }

  /** Deleting splits over a concatenation, so the kept entries keep their
      relative order. */
  lemma DeleteKeepsOrder(a: seq<TimeLog>, b: seq<TimeLog>, id: string)
    ensures DeleteLog(Some(a + b), id) == DeleteLog(Some(a), id) + DeleteLog(Some(b), id)
  {
    FilterAppend(a, b, IdIsNot(id));
  }

  /** Deleting an id no entry has changes nothing. */
  lemma DeleteAbsent(logs: seq<TimeLog>, id: string)
    requires forall l :: l in logs ==> l.id != id
    ensures DeleteLog(Some(logs), id) == logs
  {
    FilterKeepsAll(logs, IdIsNot(id));
  }

  /** Deleting twice is deleting once. */
  lemma DeleteIdempotent(timeLogs: Option<seq<TimeLog>>, id: string)
    ensures DeleteLog(Some(DeleteLog(timeLogs, id)), id) == DeleteLog(timeLogs, id)
  {
    DeleteAbsent(DeleteLog(timeLogs, id), id);
  }

  lemma {:induction false} DeleteKeepsUniqueIds(logs: seq<TimeLog>, id: string)
    requires UniqueIds(logs)
    ensures UniqueIds(DeleteLog(Some(logs), id))
  {
    if logs != [] {
      var init, last := logs[..|logs| - 1], logs[|logs| - 1];
      assert logs == init + [last];
      assert UniqueIds(init);
      DeleteKeepsUniqueIds(init, id);
      var r0 := DeleteLog(Some(init), id);
      assert DeleteLog(Some(logs), id) == r0 + if last.id != id then [last] else [];
      if last.id != id {
        LastIdFresh(logs);
        AppendUnique(r0, last);
      }
    }
  }

  /** In a list with unique ids, the last id is no earlier entry's. */
  lemma LastIdFresh(logs: seq<TimeLog>)
    requires UniqueIds(logs) && logs != []
    ensures forall l :: l in logs[..|logs| - 1] ==> l.id != logs[|logs| - 1].id
  {
    forall l | l in logs[..|logs| - 1] ensures l.id != logs[|logs| - 1].id {
      var i :| 0 <= i < |logs| - 1 && logs[..|logs| - 1][i] == l;
      assert logs[i] == l;
    }
  }

  /** Appending an entry whose id is new keeps ids unique. */
  lemma AppendUnique(logs: seq<TimeLog>, x: TimeLog)
    requires UniqueIds(logs)
    requires forall l :: l in logs ==> l.id != x.id
    ensures UniqueIds(logs + [x])
  {
    var r := logs + [x];
    forall i, j | 0 <= i < j < |r| ensures r[i].id != r[j].id {
      assert r[i] == logs[i] && logs[i] in logs;
      if j < |logs| {
        assert r[j] == logs[j];
      }
    }
  }

  /** The clock fields hold "HH:MM" readings whenever both are filled in
      (a time input gives either that or ""). */
  predicate ClockFieldsReadable(form: Form) {
    form.callTime != "" && form.endTime != "" ==> IsClock(form.callTime) && IsClock(form.endTime)
  }

  /** The log `handleSaveLog` builds from the form for this user. */
  function NewLog(form: Form, user: User): TimeLog
    requires ClockFieldsReadable(form)
  {
    TimeLog(
      LogId(form.date, user.email), user.email, user.name, user.department, form.date,
      form.callTime, form.mealTime, form.hasShortenedMeal, form.endTime,
      CalculateHours(form.callTime, form.mealTime, form.endTime, form.hasShortenedMeal))
  }

  /** `handleSaveLog`: the list it writes back, or None when it returns
      without writing (no call time, no end time or nobody signed in). */
  function SaveLog(timeLogs: Option<seq<TimeLog>>, form: Form, user: Option<User>): (r: Option<seq<TimeLog>>)
    requires ClockFieldsReadable(form)
    ensures r.None? <==> form.callTime == "" || form.endTime == "" || user.None?
    ensures r.Some? ==>
      var logs, id := r.value, LogId(form.date, user.value.email);
      && |logs| == |DeleteLog(timeLogs, id)| + 1
      && logs[..|logs| - 1] == DeleteLog(timeLogs, id)
      && logs[|logs| - 1].id == id
      && (forall i :: 0 <= i < |logs| && logs[i].id == id ==> i == |logs| - 1)
    ensures r.Some? ==>
      var saved := r.value[|r.value| - 1];
      && saved.userId == user.value.email && saved.userName == user.value.name
      && saved.department == user.value.department && saved.date == form.date
      && saved.callTime == form.callTime && saved.mealTime == form.mealTime
      && saved.endTime == form.endTime && saved.hasShortenedMeal == form.hasShortenedMeal
      && saved.totalHours == CalculateHours(form.callTime, form.mealTime, form.endTime, form.hasShortenedMeal)
  {
    if form.callTime == "" || form.endTime == "" || user.None? then None
    else
      var id := LogId(form.date, user.value.email);
      var others := DeleteLog(timeLogs, id);
      AppendedLast(others, NewLog(form, user.value));
      Some(others + [NewLog(form, user.value)])
  }

  /** A log appended after logs with other ids is the only one with its id. */
  lemma AppendedLast(others: seq<TimeLog>, saved: TimeLog)
    requires forall l :: l in others ==> l.id != saved.id
    ensures (others + [saved])[..|others|] == others
    ensures forall i :: 0 <= i < |others| + 1 && (others + [saved])[i].id == saved.id ==> i == |others|
  {
    var logs := others + [saved];
    forall i | 0 <= i < |others| ensures logs[i].id != saved.id {
      assert logs[i] == others[i] && others[i] in others;
    }
  }

  /** Deleting a day just saved gives what deleting it before would have. */
  lemma DeleteAfterSave(timeLogs: Option<seq<TimeLog>>, form: Form, user: Option<User>)
    requires ClockFieldsReadable(form) && SaveLog(timeLogs, form, user).Some?
    ensures var id := LogId(form.date, user.value.email);
            DeleteLog(SaveLog(timeLogs, form, user), id) == DeleteLog(timeLogs, id)
  {
    var id := LogId(form.date, user.value.email);
    var others := DeleteLog(timeLogs, id);
    var saved := NewLog(form, user.value);
    DeleteKeepsOrder(others, [saved], id);
    DeleteIdempotent(timeLogs, id);
    assert DeleteLog(Some([saved]), id) == [] by {
      assert [saved][..0] == [];
    }
  }

  /** Saving the same form twice writes what saving it once does. */
  lemma SaveIdempotent(timeLogs: Option<seq<TimeLog>>, form: Form, user: Option<User>)
    requires ClockFieldsReadable(form) && SaveLog(timeLogs, form, user).Some?
    ensures SaveLog(SaveLog(timeLogs, form, user), form, user) == SaveLog(timeLogs, form, user)
  {
    DeleteAfterSave(timeLogs, form, user);
  }

  /** Saving keeps ids unique and every log filed under its own id. */
  lemma SaveKeepsInvariants(timeLogs: Option<seq<TimeLog>>, form: Form, user: Option<User>)
    requires ClockFieldsReadable(form) && SaveLog(timeLogs, form, user).Some?
    requires UniqueIds(Stored(timeLogs)) && AllWellKeyed(Stored(timeLogs))
    ensures UniqueIds(SaveLog(timeLogs, form, user).value)
    ensures AllWellKeyed(SaveLog(timeLogs, form, user).value)
  {
    var id := LogId(form.date, user.value.email);
    var others := DeleteLog(timeLogs, id);
    var saved := NewLog(form, user.value);
    assert SaveLog(timeLogs, form, user).value == others + [saved];
    DeleteKeepsUniqueIds(Stored(timeLogs), id);
    assert DeleteLog(Some(Stored(timeLogs)), id) == others;
    AppendUnique(others, saved);
    forall l | l in others + [saved] ensures WellKeyed(l) {
      if l != saved {
        assert l in others;
      }
    }
  }

  /** Once saved, the user has exactly one log for that day, the new one,
      when every stored log is filed under its own id. */
  lemma SaveLeavesOneLogPerDay(timeLogs: Option<seq<TimeLog>>, form: Form, user: Option<User>)
    requires ClockFieldsReadable(form) && SaveLog(timeLogs, form, user).Some?
    requires AllWellKeyed(Stored(timeLogs))
    ensures var logs := SaveLog(timeLogs, form, user).value;
            forall i :: 0 <= i < |logs| ==>
              (logs[i].userId == user.value.email && logs[i].date == form.date <==> i == |logs| - 1)
  {
    var logs := SaveLog(timeLogs, form, user).value;
    var id := LogId(form.date, user.value.email);
    var others := DeleteLog(timeLogs, id);
    forall i | 0 <= i < |logs| - 1
      ensures !(logs[i].userId == user.value.email && logs[i].date == form.date)
    {
      assert logs[i] == others[i];
      assert others[i] in others;
    }
  }

  /** `l => l.userId === user.email`. */
  function OwnedBy(email: string): TimeLog -> bool {
    (l: TimeLog) => l.userId == email
  }

  /** The key `myLogs` sorts by. */
  function DateOf(l: TimeLog): string {
    l.date
  }

  /** `myLogs`: the current user's logs, greatest date string first; none
      when nobody is signed in or the project has no logs. */
  function MyLogs(timeLogs: Option<seq<TimeLog>>, user: Option<User>): (r: seq<TimeLog>)
    ensures forall l :: l in r <==> user.Some? && l in Stored(timeLogs) && l.userId == user.value.email
    ensures forall l :: multiset(r)[l] == if user.Some? && l.userId == user.value.email then multiset(Stored(timeLogs))[l] else 0
    ensures SortedDesc(r, DateOf)
  {
    if user.None? || timeLogs.None? then []
    else
      var own := Filter(timeLogs.value, OwnedBy(user.value.email));
      FilterMultiset(timeLogs.value, OwnedBy(user.value.email));
      var r := SortDescBy(own, DateOf);
      assert forall l :: l in r <==> l in multiset(r);
      assert forall l :: l in own <==> l in multiset(own);
      r
  }

  /** With "YYYY-MM-DD" dates, `myLogs` runs from the latest day back. */
  lemma MyLogsNewestFirst(timeLogs: Option<seq<TimeLog>>, user: Option<User>)
    requires forall l :: l in Stored(timeLogs) ==> IsDateString(l.date)
    ensures var r := MyLogs(timeLogs, user);
            forall i, j :: 0 <= i < j < |r| ==>
              DaysFromCivil(ParseDate(r[j].date)) <= DaysFromCivil(ParseDate(r[i].date))
  {
    var r := MyLogs(timeLogs, user);
    forall i, j | 0 <= i < j < |r|
      ensures DaysFromCivil(ParseDate(r[j].date)) <= DaysFromCivil(ParseDate(r[i].date))
    {
      assert r[i] in r && r[j] in r;
      assert !StrLess(DateOf(r[i]), DateOf(r[j]));
      DateStringOrder(r[i].date, r[j].date);
    }
  }
}
