/** Strings as the timesheet code handles them: fields of decimal digits
    (read with `Number`), numbers written into templates (`${n}`), and the
    comparison behind `localeCompare`, taken here as plain code-unit order. */
module Strings {

  predicate IsDigit(c: char) { '0' <= c <= '9' }

  function DigitValue(c: char): (v: nat)
    requires IsDigit(c)
    ensures v < 10
  {
    c as int - '0' as int
  }

  function DigitChar(v: nat): (c: char)
    requires v < 10
    ensures IsDigit(c) && DigitValue(c) == v
  {
    ('0' as int + v) as char
  }

  predicate AllDigits(s: string) {
    forall i :: 0 <= i < |s| ==> IsDigit(s[i])
  }

  function Pow10(k: nat): (p: nat)
    ensures p >= 1
  {
    if k == 0 then 1 else 10 * Pow10(k - 1)
  }

  /** The number a string of decimal digits denotes (`Number(s)`). */
  function DigitsValue(s: string): (n: nat)
    requires AllDigits(s)
    ensures n < Pow10(|s|)
  {
    if s == [] then 0 else 10 * DigitsValue(s[..|s| - 1]) + DigitValue(s[|s| - 1])
  }

  /** The last `width` decimal digits of `n`, padded with zeros on the left. */
  function PadDigits(n: nat, width: nat): (s: string)
    ensures |s| == width && AllDigits(s)
  {
    if width == 0 then [] else PadDigits(n / 10, width - 1) + [DigitChar(n % 10)]
  }

  /** `${n}` for a natural number: its shortest decimal form. */
  function NatToString(n: nat): (s: string)
    ensures 1 <= |s| && AllDigits(s) && DigitsValue(s) == n
    ensures |s| > 1 ==> s[0] != '0'
  {
    if n < 10 then [DigitChar(n)]
    else
      var s := NatToString(n / 10) + [DigitChar(n % 10)];
      assert s[..|s| - 1] == NatToString(n / 10);
      s
  }

  /** Padding a number that fits in `width` digits loses nothing. */
  lemma {:induction false} PadDigitsValue(n: nat, width: nat)
    requires n < Pow10(width)
    ensures DigitsValue(PadDigits(n, width)) == n
  {
    if width > 0 {
      DivTenBound(n, Pow10(width - 1));
      PadDigitsValue(n / 10, width - 1);
      var s, init := PadDigits(n, width), PadDigits(n / 10, width - 1);
      assert s[..|s| - 1] == init;
      assert DigitsValue(s) == 10 * DigitsValue(init) + n % 10;
    }
  }

  lemma DivTenBound(n: nat, p: nat)
    requires n < 10 * p
    ensures n / 10 < p && n == 10 * (n / 10) + n % 10
  {
  }

  lemma DivModTen(q: nat, d: nat)
    requires d < 10
    ensures (10 * q + d) / 10 == q && (10 * q + d) % 10 == d
  {
  }

  /** Reading a digit string and padding it back to its width gives it back. */
  lemma {:induction false} DigitsValuePad(s: string)
    requires AllDigits(s)
    ensures PadDigits(DigitsValue(s), |s|) == s
  {
    if s != [] {
      var init := s[..|s| - 1];
      DigitsValuePad(init);
      DivModTen(DigitsValue(init), DigitValue(s[|s| - 1]));
      assert s == init + [s[|s| - 1]];
    }
  }

  /** `a.localeCompare(b) < 0`, read as lexicographic order on code units. */
  predicate StrLess(a: string, b: string) {
    if b == [] then false
    else if a == [] then true
    else if a[0] != b[0] then a[0] < b[0]
    else StrLess(a[1..], b[1..])
  }

  lemma {:induction false} StrLessIrreflexive(a: string)
    ensures !StrLess(a, a)
  {
    if a != [] {
      StrLessIrreflexive(a[1..]);
    }
  }

  /** Any two strings compare: less, equal or greater, and only one of these. */
  lemma {:induction false} StrLessTrichotomy(a: string, b: string)
    ensures a == b || StrLess(a, b) || StrLess(b, a)
    ensures !(StrLess(a, b) && StrLess(b, a))
    ensures StrLess(a, b) ==> a != b
  {
    if a != [] && b != [] && a[0] == b[0] {
      StrLessTrichotomy(a[1..], b[1..]);
      if a[1..] == b[1..] {
        assert a == [a[0]] + a[1..] && b == [b[0]] + b[1..];
      }
    }
    if a == b {
      StrLessIrreflexive(a);
    }
  }

  lemma {:induction false} StrLessTransitive(a: string, b: string, c: string)
    requires StrLess(a, b) && StrLess(b, c)
    ensures StrLess(a, c)
  {
    if a != [] && a[0] == b[0] && b[0] == c[0] {
      StrLessTransitive(a[1..], b[1..], c[1..]);
    }
  }

  /** "Not less" (greater or equal) is transitive too. */
  lemma StrNotLessTransitive(a: string, b: string, c: string)
    requires !StrLess(a, b) && !StrLess(b, c)
    ensures !StrLess(a, c)
  {
    StrLessTrichotomy(a, b);
    StrLessTrichotomy(b, c);
    StrLessTrichotomy(a, c);
    if StrLess(a, c) {
      if StrLess(b, a) {
        StrLessTransitive(b, a, c);
      }
      if StrLess(c, b) {
        StrLessTransitive(a, c, b);
      }
    }
  }

  /** Comparing two strings that start with fields of the same width
      compares the fields first, and the rest only when the fields agree. */
  lemma {:induction false} StrLessConcat(a1: string, b1: string, a2: string, b2: string)
    requires |a1| == |a2|
    ensures StrLess(a1 + b1, a2 + b2) <==> StrLess(a1, a2) || (a1 == a2 && StrLess(b1, b2))
  {
    if a1 != [] {
      assert (a1 + b1)[1..] == a1[1..] + b1;
      assert (a2 + b2)[1..] == a2[1..] + b2;
      StrLessConcat(a1[1..], b1, a2[1..], b2);
      if a1[0] == a2[0] && a1[1..] == a2[1..] {
        assert a1 == [a1[0]] + a1[1..] && a2 == [a2[0]] + a2[1..];
      }
    } else {
      assert a1 + b1 == b1 && a2 + b2 == b2;
    }
  }

  /** For digit strings of one width, string order is numeric order. */
  lemma {:induction false} DigitsOrder(a: string, b: string)
    requires AllDigits(a) && AllDigits(b) && |a| == |b|
    ensures StrLess(a, b) <==> DigitsValue(a) < DigitsValue(b)
    decreases |a|
  {
    if a != [] {
      var a', b' := a[..|a| - 1], b[..|b| - 1];
      var x, y := a[|a| - 1], b[|b| - 1];
      assert a == a' + [x] && b == b' + [y];
      StrLessConcat(a', [x], b', [y]);
      DigitsOrder(a', b');
      DigitsOrder(b', a');
      StrLessTrichotomy(a', b');
      assert StrLess([x], [y]) <==> x < y;
    }
  }

  /** Zero-padded numbers of one width sort as the numbers do. */
  lemma PadDigitsOrder(m: nat, n: nat, width: nat)
    requires m < Pow10(width) && n < Pow10(width)
    ensures StrLess(PadDigits(m, width), PadDigits(n, width)) <==> m < n
  {
    PadDigitsValue(m, width);
    PadDigitsValue(n, width);
    DigitsOrder(PadDigits(m, width), PadDigits(n, width));
  }
}
