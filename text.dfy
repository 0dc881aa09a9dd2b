/**
 * The Python built-ins the core relies on, on ASCII text: decimal
 * formatting (`str(n)` and the `0wd` format specification), `int()` applied
 * to a string of digits, `str.lower`, `str.endswith`, the code-point order
 * that `<` uses on strings, and `sorted` on a list of strings.
 */
module Text {

  // ---------------------------------------------------------------------
  // Decimal digits

  predicate IsDigit(c: char) { '0' <= c <= '9' }

  predicate IsDigits(s: string) { forall i | 0 <= i < |s| :: IsDigit(s[i]) }

  function DigitChar(d: nat): (c: char)
    requires d < 10
    ensures IsDigit(c) && c as int - '0' as int == d
  {
    ('0' as int + d) as char
  }

  function Pow10(k: nat): (p: nat)
    ensures p >= 1
  {
    if k == 0 then 1 else 10 * Pow10(k - 1)
  }

  /** The value `int(s)` gives to a string of decimal digits (leading zeros allowed). */
  function DigitsValue(s: string): nat
    requires IsDigits(s)
  {
    if s == [] then 0 else 10 * DigitsValue(s[..|s| - 1]) + (s[|s| - 1] as int - '0' as int)
  }

  /** `str(n)` for a non-negative integer: the canonical decimal numeral of n. */
  function Decimal(n: nat): (s: string)
    ensures |s| >= 1
  {
    if n < 10 then [DigitChar(n)] else Decimal(n / 10) + [DigitChar(n % 10)]
  }

  /** The numeral of n is made of digits, denotes n, and has no leading zero. */
  lemma {:induction false} DecimalIsNumeral(n: nat)
    ensures IsDigits(Decimal(n)) && DigitsValue(Decimal(n)) == n
    ensures |Decimal(n)| > 1 ==> Decimal(n)[0] != '0'
  {
    if n >= 10 {
      DecimalIsNumeral(n / 10);
      var p := Decimal(n / 10);
      assert (p + [DigitChar(n % 10)])[..|p|] == p;
    }
  }

  /** The numeral of n has at most w digits exactly when n is below 10^w. */
  lemma {:induction false} DecimalLength(n: nat, w: nat)
    requires w >= 1
    ensures |Decimal(n)| <= w <==> n < Pow10(w)
  {
    if n >= 10 {
      if w == 1 {
        DecimalAtLeastTwo(n);
      } else {
        DecimalLength(n / 10, w - 1);
      }
    }
  }

  lemma {:induction false} DecimalAtLeastTwo(n: nat)
    requires n >= 10
    ensures |Decimal(n)| >= 2
  {
  }

  function Zeros(k: nat): (z: string)
    ensures |z| == k && forall i | 0 <= i < k :: z[i] == '0'
  {
    seq(k, i => '0')
  }

  /**
   * Python's `format(s, "0wd")` on a numeral s: s itself when it already has
   * w characters or more, otherwise s preceded by as many zeros as it lacks.
   */
  function ZeroPad(s: string, w: nat): string
  {
    if |s| >= w then s else Zeros(w - |s|) + s
  }

  /** The padded numeral is w characters long (or s when longer): zeros, then s. */
  lemma ZeroPadShape(s: string, w: nat)
    ensures |ZeroPad(s, w)| == if |s| >= w then |s| else w
    ensures ZeroPad(s, w)[|ZeroPad(s, w)| - |s|..] == s
    ensures forall i | 0 <= i < |ZeroPad(s, w)| - |s| :: ZeroPad(s, w)[i] == '0'
  {
  }

  lemma {:induction false} LeadingZerosValue(k: nat, s: string)
    requires IsDigits(s)
    ensures IsDigits(Zeros(k) + s) && DigitsValue(Zeros(k) + s) == DigitsValue(s)
  {
    if s == [] {
      assert Zeros(k) + s == Zeros(k);
      AllZerosValue(k);
    } else {
      var init := s[..|s| - 1];
      LeadingZerosValue(k, init);
      assert (Zeros(k) + s)[..|Zeros(k) + s| - 1] == Zeros(k) + init;
    }
  }

  lemma {:induction false} AllZerosValue(k: nat)
    ensures DigitsValue(Zeros(k)) == 0
  {
    if k > 0 {
      assert Zeros(k)[..k - 1] == Zeros(k - 1);
      AllZerosValue(k - 1);
    }
  }

  /** Padding a numeral with zeros never changes the number it denotes. */
  lemma {:induction false} PaddedValue(n: nat, w: nat)
    ensures IsDigits(ZeroPad(Decimal(n), w)) && DigitsValue(ZeroPad(Decimal(n), w)) == n
  {
    var s := Decimal(n);
    DecimalIsNumeral(n);
    if |s| < w {
      LeadingZerosValue(w - |s|, s);
    }
  }

  /** The last w decimal digits of n, most significant first. */
  function FixedDigits(n: nat, w: nat): (r: string)
    ensures |r| == w && IsDigits(r)
  {
    if w == 0 then [] else FixedDigits(n / 10, w - 1) + [DigitChar(n % 10)]
  }

  lemma {:induction false} FixedDigitsOfZero(w: nat)
    ensures FixedDigits(0, w) == Zeros(w)
  {
    if w > 0 {
      FixedDigitsOfZero(w - 1);
    }
  }

  lemma {:induction false} PadIsFixed(n: nat, w: nat)
    requires w >= 1 && n < Pow10(w)
    ensures ZeroPad(Decimal(n), w) == FixedDigits(n, w)
  {
    if n < 10 {
      FixedDigitsOfZero(w - 1);
      assert Zeros(w - 1) + [DigitChar(n)] == FixedDigits(0, w - 1) + [DigitChar(n)];
    } else {
      assert w >= 2;
      assert n / 10 < Pow10(w - 1);
      var p := Decimal(n / 10);
      var d := [DigitChar(n % 10)];
      assert Decimal(n) == p + d;
      DecimalLength(n / 10, w - 1);
      PadIsFixed(n / 10, w - 1);
      PadAppend(p, d, w - 1);
    }
  }

  lemma PadAppend(p: string, d: string, w: nat)
    requires |d| == 1 && |p| <= w
    ensures ZeroPad(p + d, w + 1) == ZeroPad(p, w) + d
  {
    assert Zeros(w - |p|) + (p + d) == (Zeros(w - |p|) + p) + d;
  }

  // ---------------------------------------------------------------------
  // String order (Python compares strings code point by code point)

  /** `a < b` on Python strings. */
  predicate LexLess(a: string, b: string)
  {
    if b == [] then false
    else if a == [] then true
    else a[0] < b[0] || (a[0] == b[0] && LexLess(a[1..], b[1..]))
  }

  predicate LexLeq(a: string, b: string) { a == b || LexLess(a, b) }

  lemma {:induction false} LexLessIrreflexive(a: string)
    ensures !LexLess(a, a)
  {
    if a != [] {
      LexLessIrreflexive(a[1..]);
    }
  }

  lemma {:induction false} LexLessTransitive(a: string, b: string, c: string)
    requires LexLess(a, b) && LexLess(b, c)
    ensures LexLess(a, c)
  {
    if a != [] && a[0] == b[0] && b[0] == c[0] {
      LexLessTransitive(a[1..], b[1..], c[1..]);
    }
  }

  lemma {:induction false} LexTotal(a: string, b: string)
    ensures a == b || LexLess(a, b) || LexLess(b, a)
  {
    if a != [] && b != [] && a[0] == b[0] {
      LexTotal(a[1..], b[1..]);
      if a[1..] == b[1..] {
        assert a == [a[0]] + a[1..] && b == [b[0]] + b[1..];
      }
    }
  }

  lemma LexLeqTransitive(a: string, b: string, c: string)
    requires LexLeq(a, b) && LexLeq(b, c)
    ensures LexLeq(a, c)
  {
    if a != b && b != c {
      LexLessTransitive(a, b, c);
    }
  }

  /** A strict difference between two strings of equal length survives any suffixes. */
  lemma {:induction false} LexLessAppend(a: string, b: string, x: string, y: string)
    requires |a| == |b| && LexLess(a, b)
    ensures LexLess(a + x, b + y)
  {
    if a[0] == b[0] {
      assert (a + x)[1..] == a[1..] + x && (b + y)[1..] == b[1..] + y;
      LexLessAppend(a[1..], b[1..], x, y);
    }
  }

  /** A common prefix does not change the order. */
  lemma {:induction false} LexLessPrefix(p: string, a: string, b: string)
    requires LexLess(a, b)
    ensures LexLess(p + a, p + b)
  {
    if p == [] {
      assert p + a == a && p + b == b;
    } else {
      assert (p + a)[0] == p[0] == (p + b)[0];
      assert (p + a)[1..] == p[1..] + a && (p + b)[1..] == p[1..] + b;
      LexLessPrefix(p[1..], a, b);
    }
  }

  lemma {:induction false} FixedDigitsOrder(n: nat, m: nat, w: nat)
    requires n < m < Pow10(w)
    ensures LexLess(FixedDigits(n, w), FixedDigits(m, w))
  {
    var pn, pm := FixedDigits(n / 10, w - 1), FixedDigits(m / 10, w - 1);
    var dn, dm := [DigitChar(n % 10)], [DigitChar(m % 10)];
    if n / 10 < m / 10 {
      FixedDigitsOrder(n / 10, m / 10, w - 1);
      LexLessAppend(pn, pm, dn, dm);
    } else {
      assert pn == pm;
      assert LexLess(dn, dm);
      LexLessPrefix(pn, dn, dm);
    }
  }

  /**
   * Numerals padded to a common width w order as strings exactly as the
   * numbers they denote, as long as both numbers fit in w digits.
   */
  lemma {:induction false} PaddedOrder(n: nat, m: nat, w: nat)
    requires n < m < Pow10(w)
    ensures |ZeroPad(Decimal(n), w)| == w && |ZeroPad(Decimal(m), w)| == w
    ensures LexLess(ZeroPad(Decimal(n), w), ZeroPad(Decimal(m), w))
  {
    PadIsFixed(n, w);
    PadIsFixed(m, w);
    FixedDigitsOrder(n, m, w);
  }

  // ---------------------------------------------------------------------
  // Case folding and suffixes

  function LowerChar(c: char): char
  {
    if 'A' <= c <= 'Z' then (c as int - 'A' as int + 'a' as int) as char else c
  }

  /** `str.lower` on ASCII text. */
  function Lower(s: string): (r: string)
    ensures |r| == |s| && forall i | 0 <= i < |s| :: r[i] == LowerChar(s[i])
  {
    seq(|s|, i requires 0 <= i < |s| => LowerChar(s[i]))
  }

  predicate EndsWith(s: string, suffix: string)
  {
    |suffix| <= |s| && s[|s| - |suffix|..] == suffix
  }

  // ---------------------------------------------------------------------
  // Sorting (`sorted` on a list of strings)

  ghost predicate Sorted(s: seq<string>)
  {
    forall i, j | 0 <= i < j < |s| :: LexLeq(s[i], s[j])
  }

  function Insert(x: string, s: seq<string>): (r: seq<string>)
    ensures multiset(r) == multiset(s) + multiset{x}
    ensures Sorted(s) ==> Sorted(r)
  {
    if s == [] then [x]
    else if !LexLess(s[0], x) then
      InsertFront(x, s);
      [x] + s
    else
      var t := Insert(x, s[1..]);
      assert s == [s[0]] + s[1..];
      InsertBehind(x, s, t);
      [s[0]] + t
  }

  lemma {:induction false} InsertFront(x: string, s: seq<string>)
    requires s != [] && !LexLess(s[0], x)
    ensures Sorted(s) ==> Sorted([x] + s)
  {
    if Sorted(s) {
      LexTotal(x, s[0]);
      forall j | 0 <= j < |s| ensures LexLeq(x, s[j]) {
        if j > 0 {
          LexLeqTransitive(x, s[0], s[j]);
        }
      }
    }
  }

  lemma {:induction false} InsertBehind(x: string, s: seq<string>, t: seq<string>)
    requires s != [] && LexLess(s[0], x)
    requires multiset(t) == multiset(s[1..]) + multiset{x}
    requires Sorted(s[1..]) ==> Sorted(t)
    ensures Sorted(s) ==> Sorted([s[0]] + t)
  {
    if Sorted(s) {
      SortedTail(s);
      forall k | 0 <= k < |t| ensures LexLeq(s[0], t[k]) {
        assert t[k] in multiset(t);
        if t[k] != x {
          assert t[k] in multiset(s[1..]);
          var i :| 0 <= i < |s[1..]| && s[1..][i] == t[k];
          assert s[i + 1] == t[k];
        }
      }
    }
  }

  /** `sorted(names)`: an ascending rearrangement of the names. */
  function SortNames(names: seq<string>): (r: seq<string>)
    ensures multiset(r) == multiset(names) && Sorted(r)
  {
    if names == [] then []
    else
      assert names == [names[0]] + names[1..];
      Insert(names[0], SortNames(names[1..]))
  }

  /** Two ascending arrangements of the same names are the same list. */
  lemma {:induction false} SortedUnique(a: seq<string>, b: seq<string>)
    requires Sorted(a) && Sorted(b) && multiset(a) == multiset(b)
    ensures a == b
  {
    assert |a| == |b| by {
      assert |multiset(a)| == |a| && |multiset(b)| == |b|;
    }
    if a != [] {
      SortedHeads(a, b);
      SortedTail(a);
      SortedTail(b);
      assert a == [a[0]] + a[1..] && b == [b[0]] + b[1..];
      assert multiset(a[1..]) == multiset(a) - multiset{a[0]};
      assert multiset(b[1..]) == multiset(b) - multiset{b[0]};
      SortedUnique(a[1..], b[1..]);
    }
  }

  lemma SortedHeads(a: seq<string>, b: seq<string>)
    requires Sorted(a) && Sorted(b) && multiset(a) == multiset(b) && a != [] && b != []
    ensures a[0] == b[0]
  {
    assert a[0] in multiset(b);
    var k :| 0 <= k < |b| && b[k] == a[0];
    assert b[0] in multiset(a);
    var i :| 0 <= i < |a| && a[i] == b[0];
    assert LexLeq(b[0], a[0]) && LexLeq(a[0], b[0]);
    if a[0] != b[0] {
      LexLessTransitive(a[0], b[0], a[0]);
      LexLessIrreflexive(a[0]);
      assert false;
    }
  }

  lemma SortedTail(s: seq<string>)
    requires Sorted(s) && s != []
    ensures Sorted(s[1..])
  {
    forall p, q | 0 <= p < q < |s[1..]| ensures LexLeq(s[1..][p], s[1..][q]) {
      assert s[1..][p] == s[p + 1] && s[1..][q] == s[q + 1];
    }
  }
}
