/** Grouping logs under a string key, as `weeklyData` does with a plain
    object: the first log with a key sets it to an empty group, every log is
    pushed onto its key's group and its hours added to the group's total,
    and `Object.entries` then lists the keys in the order they were set. */
module Grouping {
  import opened Strings
  import opened Sequences
  import opened TimeLogs

  /** The value a key maps to: the running total and the logs pushed. */
  datatype Bucket = Bucket(totalHours: real, logs: seq<TimeLog>)

  /** `l => key(l) === k`. */
  function Matching(key: TimeLog -> string, k: string): TimeLog -> bool {
    (l: TimeLog) => key(l) == k
  }

  /** The logs a group should hold: those with its key, in their order. */
  function InGroup(logs: seq<TimeLog>, key: TimeLog -> string, k: string): (r: seq<TimeLog>)
    ensures forall l :: l in r <==> l in logs && key(l) == k
  {
    Filter(logs, Matching(key, k))
  }

  function Hours(l: TimeLog): real {
    l.totalHours
  }

  function SumHours(logs: seq<TimeLog>): real {
    Sum(logs, Hours)
  }

  function EntryKey(e: (string, Bucket)): string {
    e.0
  }

  function EntryHours(e: (string, Bucket)): real {
    e.1.totalHours
  }

  predicate Distinct(keys: seq<string>) {
    forall i, j :: 0 <= i < j < |keys| ==> keys[i] != keys[j]
  }

  /** `Object.entries(groups)`: the keys in the order they were first set,
      each with its value. */
  function Entries(order: seq<string>, buckets: map<string, Bucket>): (r: seq<(string, Bucket)>)
    requires forall k :: k in order ==> k in buckets
    ensures |r| == |order|
    ensures forall i :: 0 <= i < |r| ==> r[i] == (order[i], buckets[order[i]])
  {
    seq(|order|, i requires 0 <= i < |order| => (order[i], buckets[order[i]]))
  }

  /** Changing the value under one key changes the sum over the entries by
      the change in that value's total. */
  lemma {:induction false} SumEntriesUpdate(order: seq<string>, buckets: map<string, Bucket>, k: string, b: Bucket)
    requires forall x :: x in order ==> x in buckets
    requires Distinct(order) && k in order
    ensures Sum(Entries(order, buckets[k := b]), EntryHours)
            == Sum(Entries(order, buckets), EntryHours) - buckets[k].totalHours + b.totalHours
  {
    var updated := buckets[k := b];
    var before, after := Entries(order, buckets), Entries(order, updated);
    assert before[1..] == Entries(order[1..], buckets);
    assert after[1..] == Entries(order[1..], updated);
    if order[0] == k {
      forall j | 0 <= j < |order[1..]| ensures order[1..][j] != k {
        assert order[1..][j] == order[j + 1];
      }
      assert Entries(order[1..], updated) == Entries(order[1..], buckets);
    } else {
      SumEntriesUpdate(order[1..], buckets, k, b);
    }
  }

  /** Adding a key with an empty total leaves the sum over the entries. */
  lemma SumEntriesExtend(order: seq<string>, buckets: map<string, Bucket>, k: string)
    requires forall x :: x in order ==> x in buckets
    requires k !in order
    ensures var extended := buckets[k := Bucket(0.0, [])];
            Sum(Entries(order + [k], extended), EntryHours) == Sum(Entries(order, buckets), EntryHours)
  {
    var extended := buckets[k := Bucket(0.0, [])];
    assert Entries(order + [k], extended) == Entries(order, buckets) + [(k, Bucket(0.0, []))];
    SumAppend(Entries(order, buckets), [(k, Bucket(0.0, []))], EntryHours);
    assert Sum([(k, Bucket(0.0, []))], EntryHours) == 0.0 + Sum([], EntryHours);
  }

  /** The keys of the logs. */
  function KeysOf(logs: seq<TimeLog>, key: TimeLog -> string): set<string> {
    if logs == [] then {} else KeysOf(logs[..|logs| - 1], key) + {key(logs[|logs| - 1])}
  }

  /** One more log: its hours join the sum, it joins its key's logs, and its
      key joins the keys. */
  lemma LogStep(logs: seq<TimeLog>, key: TimeLog -> string, log: TimeLog)
    ensures SumHours(logs + [log]) == SumHours(logs) + log.totalHours
    ensures forall k :: InGroup(logs + [log], key, k) == InGroup(logs, key, k) + if key(log) == k then [log] else []
    ensures KeysOf(logs + [log], key) == KeysOf(logs, key) + {key(log)}
  {
    SumAppend(logs, [log], Hours);
    assert Sum([log], Hours) == log.totalHours + Sum([], Hours);
    assert (logs + [log])[..|logs|] == logs;
  }

  /** Every log's key is a key, and every key has a log. */
  lemma {:induction false} KeysOfMembers(logs: seq<TimeLog>, key: TimeLog -> string)
    ensures forall l :: l in logs ==> key(l) in KeysOf(logs, key)
    ensures forall k :: k in KeysOf(logs, key) ==> InGroup(logs, key, k) != []
  {
    if logs != [] {
      var init, last := logs[..|logs| - 1], logs[|logs| - 1];
      assert logs == init + [last];
      KeysOfMembers(init, key);
      LogStep(init, key, last);
    }
  }

  /** Which keys are set once the logs `logs` have been met: the keys of
      those logs, each listed once in `order`, in the order first met. */
  ghost predicate KeysListed(logs: seq<TimeLog>, key: TimeLog -> string, order: seq<string>, buckets: map<string, Bucket>) {
    && Distinct(order) && |order| <= |logs|
    && (forall k :: k in order <==> k in KeysOf(logs, key))
    && (forall k :: k in buckets <==> k in KeysOf(logs, key))
  }

  /** Each key's value holds that key's logs, in order, and their sum. */
  ghost predicate GroupsFilled(logs: seq<TimeLog>, key: TimeLog -> string, buckets: map<string, Bucket>) {
    forall k :: k in buckets ==>
      buckets[k].logs == InGroup(logs, key, k) && buckets[k].totalHours == SumHours(buckets[k].logs)
  }

  /** The groups once the logs `logs` have been met: their keys, their
      groups, and all their hours. */
  ghost predicate Grouped(logs: seq<TimeLog>, key: TimeLog -> string, order: seq<string>, buckets: map<string, Bucket>) {
    && KeysListed(logs, key, order, buckets)
    && GroupsFilled(logs, key, buckets)
    && Sum(Entries(order, buckets), EntryHours) == SumHours(logs)
  }

  /** The keys once `k` is met: `k` is listed after the others if new. */
  function Listed(order: seq<string>, buckets: map<string, Bucket>, k: string): seq<string> {
    if k in buckets then order else order + [k]
  }

  /** `if (!groups[key]) groups[key] = { totalHours: 0, logs: [] }`. */
  function Opened(buckets: map<string, Bucket>, k: string): (r: map<string, Bucket>)
    ensures k in r
  {
    if k in buckets then buckets else buckets[k := Bucket(0.0, [])]
  }

  /** `groups[key].logs.push(log); groups[key].totalHours += log.totalHours`. */
  function Pushed(buckets: map<string, Bucket>, k: string, log: TimeLog): map<string, Bucket>
    requires k in buckets
  {
    buckets[k := Bucket(buckets[k].totalHours + log.totalHours, buckets[k].logs + [log])]
  }

  lemma KeysStep(logs: seq<TimeLog>, key: TimeLog -> string, log: TimeLog, order: seq<string>, buckets: map<string, Bucket>)
    requires KeysListed(logs, key, order, buckets)
    ensures var k := key(log);
            KeysListed(logs + [log], key, Listed(order, buckets, k), Pushed(Opened(buckets, k), k, log))
  {
    var k0 := key(log);
    LogStep(logs, key, log);
    if k0 !in buckets {
      AppendDistinct(order, k0);
    }
  }

  lemma GroupsStep(logs: seq<TimeLog>, key: TimeLog -> string, log: TimeLog, order: seq<string>, buckets: map<string, Bucket>)
    requires KeysListed(logs, key, order, buckets) && GroupsFilled(logs, key, buckets)
    ensures var k := key(log);
            GroupsFilled(logs + [log], key, Pushed(Opened(buckets, k), k, log))
  {
    var k0 := key(log);
    var started := Opened(buckets, k0);
    if k0 !in buckets {
      NewKeyHasNoLogs(logs, key, k0);
    }
    var b := started[k0];
    var buckets' := Pushed(started, k0, log);
    forall k | k in buckets'
      ensures buckets'[k].logs == InGroup(logs + [log], key, k)
      ensures buckets'[k].totalHours == SumHours(buckets'[k].logs)
    {
      if k == k0 {
        PushedFilled(logs, key, log, b);
      } else {
        OthersFilled(logs, key, log, k);
      }
    }
  }

  /** The group a log is pushed onto stays filled. */
  lemma PushedFilled(logs: seq<TimeLog>, key: TimeLog -> string, log: TimeLog, b: Bucket)
    requires b.logs == InGroup(logs, key, key(log)) && b.totalHours == SumHours(b.logs)
    ensures b.logs + [log] == InGroup(logs + [log], key, key(log))
    ensures b.totalHours + log.totalHours == SumHours(b.logs + [log])
  {
    LogStep(logs, key, log);
    PushedGroup(b, log);
  }

  /** The groups of other keys keep their logs. */
  lemma OthersFilled(logs: seq<TimeLog>, key: TimeLog -> string, log: TimeLog, k: string)
    requires key(log) != k
    ensures InGroup(logs + [log], key, k) == InGroup(logs, key, k)
  {
    LogStep(logs, key, log);
  }

  /** A key that is not a key of the logs has no logs. */
  lemma NewKeyHasNoLogs(logs: seq<TimeLog>, key: TimeLog -> string, k: string)
    requires k !in KeysOf(logs, key)
    ensures InGroup(logs, key, k) == []
  {
    KeysOfMembers(logs, key);
    FilterKeepsNone(logs, Matching(key, k));
  }

  /** Pushing a log onto a group adds its hours to the group's sum. */
  lemma PushedGroup(b: Bucket, log: TimeLog)
    requires b.totalHours == SumHours(b.logs)
    ensures b.totalHours + log.totalHours == SumHours(b.logs + [log])
  {
    SumAppend(b.logs, [log], Hours);
    assert Sum([log], Hours) == log.totalHours + Sum([], Hours);
  }

  lemma TotalStep(logs: seq<TimeLog>, key: TimeLog -> string, log: TimeLog, order: seq<string>, buckets: map<string, Bucket>)
    requires KeysListed(logs, key, order, buckets)
    requires Sum(Entries(order, buckets), EntryHours) == SumHours(logs)
    ensures var k := key(log);
            var order', buckets' := Listed(order, buckets, k), Pushed(Opened(buckets, k), k, log);
            && (forall x :: x in order' ==> x in buckets')
            && Sum(Entries(order', buckets'), EntryHours) == SumHours(logs + [log])
  {
    var k0 := key(log);
    var order', started := Listed(order, buckets, k0), Opened(buckets, k0);
    PushedGroup(Bucket(SumHours(logs), logs), log);
    if k0 !in buckets {
      SumEntriesExtend(order, buckets, k0);
      AppendDistinct(order, k0);
    }
    var b := started[k0];
    SumEntriesUpdate(order', started, k0, Bucket(b.totalHours + log.totalHours, b.logs + [log]));
  }

  /** A key not listed yet keeps the list distinct when appended. */
  lemma AppendDistinct(order: seq<string>, k: string)
    requires Distinct(order) && k !in order
    ensures Distinct(order + [k])
  {
    forall i | 0 <= i < |order| ensures (order + [k])[i] != k {
      assert (order + [k])[i] == order[i] && order[i] in order;
    }
  }

  /** Meeting the next log keeps the grouping. */
  lemma GroupedStep(logs: seq<TimeLog>, n: nat, key: TimeLog -> string, order: seq<string>, buckets: map<string, Bucket>)
    requires n < |logs| && Grouped(logs[..n], key, order, buckets)
    ensures var k := key(logs[n]);
            Grouped(logs[..n + 1], key, Listed(order, buckets, k), Pushed(Opened(buckets, k), k, logs[n]))
  {
    assert logs[..n + 1] == logs[..n] + [logs[n]];
    KeysStep(logs[..n], key, logs[n], order, buckets);
    GroupsStep(logs[..n], key, logs[n], order, buckets);
    TotalStep(logs[..n], key, logs[n], order, buckets);
  }

  /** The grouping loop of `weeklyData` for any key: each log's key set to
      an empty group the first time it is met, then the log pushed onto its
      group and its hours added; the entries then sorted by key, greatest
      first. */
  method GroupBy(logs: seq<TimeLog>, key: TimeLog -> string) returns (groups: seq<(string, Bucket)>)
    ensures IsGroupReport(logs, key, groups)
  {
    var buckets: map<string, Bucket> := map[];
    var order: seq<string> := [];
    for n := 0 to |logs|
      invariant Grouped(logs[..n], key, order, buckets)
    {
      var log := logs[n];
      var k := key(log);
      GroupedStep(logs, n, key, order, buckets);
      if k !in buckets {
        buckets := buckets[k := Bucket(0.0, [])];
        order := order + [k];
      }
      buckets := Pushed(buckets, k, log);
    }
    assert logs[..|logs|] == logs;
    GroupedReport(logs, key, order, buckets);
    groups := SortDescBy(Entries(order, buckets), EntryKey);
  }

  /** A group holding exactly the logs of its key, in their order, at least
      one of them, and the sum of their hours. */
  predicate Filled(logs: seq<TimeLog>, key: TimeLog -> string, group: (string, Bucket)) {
    && group.1.logs == InGroup(logs, key, group.0)
    && group.1.logs != []
    && group.1.totalHours == SumHours(group.1.logs)
  }

  /** What a grouping of `logs` by `key`, sorted by key with the greatest
      first, promises: the keys strictly decreasing, every group filled with
      its key's logs, a group for every log, and all the hours accounted
      for. */
  predicate IsGroupReport(logs: seq<TimeLog>, key: TimeLog -> string, groups: seq<(string, Bucket)>) {
    && (forall i, j :: 0 <= i < j < |groups| ==> StrLess(groups[j].0, groups[i].0))
    && (forall i :: 0 <= i < |groups| ==> Filled(logs, key, groups[i]))
    && (forall l :: l in logs ==> exists i :: 0 <= i < |groups| && groups[i].0 == key(l))
    && Sum(groups, EntryHours) == SumHours(logs)
    && |groups| <= |logs|
  }

  /** The entries of a finished grouping are filled and cover every log. */
  lemma EntriesFilled(logs: seq<TimeLog>, key: TimeLog -> string, order: seq<string>, buckets: map<string, Bucket>)
    requires KeysListed(logs, key, order, buckets) && GroupsFilled(logs, key, buckets)
    ensures forall x :: x in order ==> x in buckets
    ensures forall e :: e in Entries(order, buckets) ==> Filled(logs, key, e)
    ensures forall l :: l in logs ==> key(l) in order
    ensures DistinctKeys(Entries(order, buckets), EntryKey)
  {
    var entries := Entries(order, buckets);
    KeysOfMembers(logs, key);
    forall e | e in entries ensures Filled(logs, key, e) {
      var p :| 0 <= p < |entries| && entries[p] == e;
      assert order[p] in order;
    }
  }

  /** The entries of a finished grouping, sorted by key, greatest first. */
  lemma GroupedReport(logs: seq<TimeLog>, key: TimeLog -> string, order: seq<string>, buckets: map<string, Bucket>)
    requires Grouped(logs, key, order, buckets)
    ensures IsGroupReport(logs, key, SortDescBy(Entries(order, buckets), EntryKey))
  {
    EntriesFilled(logs, key, order, buckets);
    var entries := Entries(order, buckets);
    var groups := SortDescBy(entries, EntryKey);
    SortDescByDistinct(entries, EntryKey);
    SumSortDescBy(entries, EntryKey, EntryHours);
    forall i | 0 <= i < |groups| ensures Filled(logs, key, groups[i]) {
      assert groups[i] in multiset(entries);
    }
    forall l | l in logs ensures exists i :: 0 <= i < |groups| && groups[i].0 == key(l) {
      var p :| 0 <= p < |order| && order[p] == key(l);
      assert entries[p] in multiset(groups);
    }
  }

  /** Each log is in exactly one group. */
  lemma ExactlyOneGroup(logs: seq<TimeLog>, key: TimeLog -> string, groups: seq<(string, Bucket)>, l: TimeLog)
    requires IsGroupReport(logs, key, groups) && l in logs
    ensures exists i :: 0 <= i < |groups| && l in groups[i].1.logs
    ensures forall i, j :: 0 <= i < |groups| && 0 <= j < |groups| && l in groups[i].1.logs && l in groups[j].1.logs ==> i == j
  {
    forall i, j | 0 <= i < |groups| && 0 <= j < |groups| && l in groups[i].1.logs && l in groups[j].1.logs
      ensures i == j
    {
      if i < j {
        StrLessIrreflexive(groups[i].0);
      } else if j < i {
        StrLessIrreflexive(groups[j].0);
      }
    }
  }
}
