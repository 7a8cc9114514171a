/** The two array operations the timesheet relies on: `Array.prototype.filter`
    and `Array.prototype.sort` with a comparator that orders by a string key,
    greatest first (`(a, b) => key(b).localeCompare(key(a))`). */
module Sequences {
  import opened Strings

  /** `s.filter(keep)`: the elements that pass, in their original order. */
  function Filter<T(==,!new)>(s: seq<T>, keep: T -> bool): (r: seq<T>)
    ensures |r| <= |s|
    ensures forall x :: x in r <==> x in s && keep(x)
  {
    if s == [] then []
    else
      var init, last := s[..|s| - 1], s[|s| - 1];
      assert s == init + [last];
      Filter(init, keep) + if keep(last) then [last] else []
  }

  /** Filtering a concatenation filters each part in place: the kept
      elements keep their relative order. */
  lemma {:induction false} FilterAppend<T(!new)>(a: seq<T>, b: seq<T>, keep: T -> bool)
    ensures Filter(a + b, keep) == Filter(a, keep) + Filter(b, keep)
  {
    if b != [] {
      var init, last := b[..|b| - 1], b[|b| - 1];
      FilterAppend(a, init, keep);
      var tail := if keep(last) then [last] else [];
      var ab := a + b;
      assert ab[..|ab| - 1] == a + init && ab[|ab| - 1] == last;
      assert Filter(ab, keep) == Filter(a + init, keep) + tail;
      assert Filter(b, keep) == Filter(init, keep) + tail;
    } else {
      assert a + b == a;
    }
  }

  /** Filtering keeps every copy of a kept element and no copy of the others. */
  lemma {:induction false} FilterMultiset<T(!new)>(s: seq<T>, keep: T -> bool)
    ensures forall x :: multiset(Filter(s, keep))[x] == if keep(x) then multiset(s)[x] else 0
  {
    if s != [] {
      var init, last := s[..|s| - 1], s[|s| - 1];
      assert s == init + [last];
      FilterMultiset(init, keep);
    }
  }

  /** A filter that keeps every element changes nothing. */
  lemma {:induction false} FilterKeepsAll<T(!new)>(s: seq<T>, keep: T -> bool)
    requires forall x :: x in s ==> keep(x)
    ensures Filter(s, keep) == s
  {
    if s != [] {
      var init := s[..|s| - 1];
      assert s == init + [s[|s| - 1]];
      FilterKeepsAll(init, keep);
      assert Filter(s, keep) == Filter(init, keep) + [s[|s| - 1]];
    }
  }

  /** A filter that keeps no element gives nothing. */
  lemma {:induction false} FilterKeepsNone<T(!new)>(s: seq<T>, keep: T -> bool)
    requires forall x :: x in s ==> !keep(x)
    ensures Filter(s, keep) == []
  {
    if s != [] {
      var init := s[..|s| - 1];
      assert s == init + [s[|s| - 1]];
      FilterKeepsNone(init, keep);
    }
  }

  /** Ordered by key, greatest first. */
  predicate SortedDesc<T>(s: seq<T>, key: T -> string) {
    forall i, j :: 0 <= i < j < |s| ==> !StrLess(key(s[i]), key(s[j]))
  }

  predicate DistinctKeys<T>(s: seq<T>, key: T -> string) {
    forall i, j :: 0 <= i < j < |s| ==> key(s[i]) != key(s[j])
  }

  /** Puts `x` in front of the first element whose key is not greater. */
  function Insert<T(==,!new)>(x: T, s: seq<T>, key: T -> string): (r: seq<T>)
    ensures multiset(r) == multiset(s) + multiset{x}
  {
    if s == [] || !StrLess(key(x), key(s[0])) then [x] + s
    else
      assert s == [s[0]] + s[1..];
      [s[0]] + Insert(x, s[1..], key)
  }

  lemma {:induction false} InsertSorted<T(!new)>(x: T, s: seq<T>, key: T -> string)
    requires SortedDesc(s, key)
    ensures SortedDesc(Insert(x, s, key), key)
  {
    var r := Insert(x, s, key);
    if s == [] || !StrLess(key(x), key(s[0])) {
      forall j | 1 <= j < |r| ensures !StrLess(key(x), key(r[j])) {
        if j > 1 {
          assert !StrLess(key(s[0]), key(s[j - 1]));
          StrNotLessTransitive(key(x), key(s[0]), key(r[j]));
        }
      }
    } else {
      InsertSorted(x, s[1..], key);
      var t := Insert(x, s[1..], key);
      forall j | 0 <= j < |t| ensures !StrLess(key(s[0]), key(t[j])) {
        assert t[j] in multiset(t);
        if t[j] == x {
          StrLessTrichotomy(key(x), key(s[0]));
        } else {
          assert t[j] in s[1..];
        }
      }
    }
  }

  lemma {:induction false} InsertDistinct<T(!new)>(x: T, s: seq<T>, key: T -> string)
    requires DistinctKeys(s, key)
    requires forall y :: y in s ==> key(y) != key(x)
    ensures DistinctKeys(Insert(x, s, key), key)
  {
    if s != [] && StrLess(key(x), key(s[0])) {
      InsertDistinct(x, s[1..], key);
      var t := Insert(x, s[1..], key);
      forall j | 0 <= j < |t| ensures key(s[0]) != key(t[j]) {
        assert t[j] in multiset(t);
      }
    }
  }

  /** `s.sort` with the greatest key first; elements with equal keys keep
      their relative order, as a stable sort leaves them (`SortDescByStable`). */
  function SortDescBy<T(==,!new)>(s: seq<T>, key: T -> string): (r: seq<T>)
    ensures multiset(r) == multiset(s) && |r| == |s|
    ensures SortedDesc(r, key)
  {
    if s == [] then []
    else
      var rest := SortDescBy(s[1..], key);
      InsertSorted(s[0], rest, key);
      assert s == [s[0]] + s[1..];
      Insert(s[0], rest, key)
  }

  /** The elements whose key is `k`. */
  function KeyIs<T>(key: T -> string, k: string): T -> bool {
    y => key(y) == k
  }

  /** Filtering one element keeps it or drops it. */
  lemma FilterSingle<T(!new)>(x: T, keep: T -> bool)
    ensures Filter([x], keep) == if keep(x) then [x] else []
  {
    assert [x][..0] == [];
  }

  /** Two elements that the filter does not both keep filter to the same
      thing in either order. */
  lemma {:induction false} FilterSwap<T(!new)>(x: T, y: T, rest: seq<T>, keep: T -> bool)
    requires !(keep(x) && keep(y))
    ensures Filter([y] + ([x] + rest), keep) == Filter([x] + ([y] + rest), keep)
  {
    var fx, fy, fr := Filter([x], keep), Filter([y], keep), Filter(rest, keep);
    var left := Filter([y] + ([x] + rest), keep);
    var right := Filter([x] + ([y] + rest), keep);
    FilterAppend([y], [x] + rest, keep);
    FilterAppend([x], rest, keep);
    assert left == fy + (fx + fr);
    FilterAppend([x], [y] + rest, keep);
    FilterAppend([y], rest, keep);
    assert right == fx + (fy + fr);
    FilterSingle(x, keep);
    FilterSingle(y, keep);
    if keep(x) {
      assert fy == [];
      assert fy + fr == fr;
      assert fy + (fx + fr) == fx + fr;
    } else {
      assert fx == [];
      assert fx + fr == fr;
      assert fx + (fy + fr) == fy + fr;
    }
  }

  /** `Insert` passes over greater keys only, so among the elements with any
      one key, `x` still comes first. */
  lemma {:induction false} InsertStable<T(!new)>(x: T, s: seq<T>, key: T -> string, k: string)
    ensures Filter(Insert(x, s, key), KeyIs(key, k)) == Filter([x] + s, KeyIs(key, k))
  {
    if s != [] && StrLess(key(x), key(s[0])) {
      var keep, h, t := KeyIs(key, k), s[0], s[1..];
      assert s == [h] + t;
      var rest := Insert(x, t, key);
      assert Insert(x, s, key) == [h] + rest;
      InsertStable(x, t, key, k);
      FilterAppend([h], rest, keep);
      FilterAppend([h], [x] + t, keep);
      StrLessIrreflexive(key(x));
      FilterSwap(x, h, t, keep);
    }
  }

  /** The sort is stable: the elements with any one key come out in the
      order they went in. */
  lemma {:induction false} SortDescByStable<T(!new)>(s: seq<T>, key: T -> string, k: string)
    ensures Filter(SortDescBy(s, key), KeyIs(key, k)) == Filter(s, KeyIs(key, k))
  {
    if s != [] {
      var keep := KeyIs(key, k);
      var rest := SortDescBy(s[1..], key);
      SortDescByStable(s[1..], key, k);
      InsertStable(s[0], rest, key, k);
      FilterAppend([s[0]], rest, keep);
      FilterAppend([s[0]], s[1..], keep);
      assert s == [s[0]] + s[1..];
    }
  }

  /** Sorting keeps keys distinct; with distinct keys the order is strict. */
  lemma {:induction false} SortDescByDistinct<T(!new)>(s: seq<T>, key: T -> string)
    requires DistinctKeys(s, key)
    ensures DistinctKeys(SortDescBy(s, key), key)
    ensures forall i, j :: 0 <= i < j < |SortDescBy(s, key)| ==>
              StrLess(key(SortDescBy(s, key)[j]), key(SortDescBy(s, key)[i]))
  {
    var r := SortDescBy(s, key);
    if s != [] {
      var rest := SortDescBy(s[1..], key);
      SortDescByDistinct(s[1..], key);
      forall y | y in rest ensures key(y) != key(s[0]) {
        assert y in multiset(rest);
        assert y in s[1..];
      }
      InsertDistinct(s[0], rest, key);
    }
    forall i, j | 0 <= i < j < |r| ensures StrLess(key(r[j]), key(r[i])) {
      StrLessTrichotomy(key(r[j]), key(r[i]));
    }
  }

  /** The sum of `f` over the elements, first to last, as a running
      `total += f(x)` from 0 adds it up. */
  function Sum<T>(s: seq<T>, f: T -> real): real {
    if s == [] then 0.0 else f(s[0]) + Sum(s[1..], f)
  }

  lemma {:induction false} SumAppend<T>(a: seq<T>, b: seq<T>, f: T -> real)
    ensures Sum(a + b, f) == Sum(a, f) + Sum(b, f)
  {
    if a == [] {
      assert a + b == b;
    } else {
      assert (a + b)[1..] == a[1..] + b;
      SumAppend(a[1..], b, f);
    }
  }

  lemma {:induction false} SumInsert<T(!new)>(x: T, s: seq<T>, key: T -> string, f: T -> real)
    ensures Sum(Insert(x, s, key), f) == f(x) + Sum(s, f)
  {
    if s != [] && StrLess(key(x), key(s[0])) {
      SumInsert(x, s[1..], key, f);
      assert ([s[0]] + Insert(x, s[1..], key))[1..] == Insert(x, s[1..], key);
    } else {
      assert ([x] + s)[1..] == s;
    }
  }

  /** Sorting adds up to the same sum. */
  lemma {:induction false} SumSortDescBy<T(!new)>(s: seq<T>, key: T -> string, f: T -> real)
    ensures Sum(SortDescBy(s, key), f) == Sum(s, f)
  {
    if s != [] {
      SumSortDescBy(s[1..], key, f);
      SumInsert(s[0], SortDescBy(s[1..], key), key, f);
    }
  }
}
