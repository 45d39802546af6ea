/** String operations the scripts rely on: Python's ordering of str, sorted
    column unions, decimal rendering of integers, and glob's suffix match. */
module Strings {
  import opened Tables

  predicate EndsWith(s: string, suffix: string) {
    |suffix| <= |s| && s[|s| - |suffix|..] == suffix
  }

  /** os.path.join(dir, name) on Windows for a relative name: a backslash is
      inserted unless dir is empty, ends in a separator, or is a bare drive. */
  function Join(dir: string, name: string): string {
    if dir == [] || dir[|dir| - 1] == '\\' || dir[|dir| - 1] == '/' || (|dir| == 2 && dir[1] == ':')
    then dir + name
    else dir + "\\" + name
  }

  // ---------------------------------------------------------------------------
  // Python's `<` on str: lexicographic by code point, a proper prefix first.

  predicate LexLess(a: string, b: string)
    decreases |a|
  {
    if a == [] then b != []
    else if b == [] then false
    else if a[0] != b[0] then a[0] < b[0]
    else LexLess(a[1..], b[1..])
  }

  lemma {:induction false} LexLessIrreflexive(a: string)
    ensures !LexLess(a, a)
  {
    if a != [] {
      LexLessIrreflexive(a[1..]);
    }
  }

  lemma {:induction false} LexLessTransitive(a: string, b: string, c: string)
    requires LexLess(a, b) && LexLess(b, c)
    ensures LexLess(a, c)
    decreases |a|
  {
    if a != [] && b != [] && c != [] && a[0] == b[0] && b[0] == c[0] {
      LexLessTransitive(a[1..], b[1..], c[1..]);
    }
  }

  lemma {:induction false} LexLessTotal(a: string, b: string)
    ensures a == b || LexLess(a, b) || LexLess(b, a)
  {
    if a != [] && b != [] && a[0] == b[0] {
      LexLessTotal(a[1..], b[1..]);
      assert a == [a[0]] + a[1..] && b == [b[0]] + b[1..];
    }
  }

  lemma LexLessAsymmetric(a: string, b: string)
    requires LexLess(a, b)
    ensures !LexLess(b, a)
  {
    if LexLess(b, a) {
      LexLessTransitive(a, b, a);
      LexLessIrreflexive(a);
    }
  }

  /** Comparing two strings that start with blocks of equal length compares
      the blocks first and the rests only when the blocks are equal. */
  lemma {:induction false} LexLessConcat(p: string, q: string, x: string, y: string)
    requires |p| == |q|
    ensures LexLess(p + x, q + y) <==> LexLess(p, q) || (p == q && LexLess(x, y))
  {
    if p == [] {
      assert p + x == x && q + y == y;
    } else {
      LexLessConcat(p[1..], q[1..], x, y);
      assert (p + x)[0] == p[0] && (p + x)[1..] == p[1..] + x;
      assert (q + y)[0] == q[0] && (q + y)[1..] == q[1..] + y;
      assert p == [p[0]] + p[1..] && q == [q[0]] + q[1..];
    }
  }

  // ---------------------------------------------------------------------------
  // Sorted, duplicate-free sequences of column names.

  predicate StrictlySorted(s: seq<string>) {
    forall i, j :: 0 <= i < j < |s| ==> LexLess(s[i], s[j])
  }

  lemma SortedCons(h: string, t: seq<string>)
    requires StrictlySorted(t)
    requires forall y :: y in t ==> LexLess(h, y)
    ensures StrictlySorted([h] + t)
  {
    var s := [h] + t;
    forall i, j | 0 <= i < j < |s|
      ensures LexLess(s[i], s[j])
    {
      assert s[j] == t[j - 1];
      if i > 0 {
        assert s[i] == t[i - 1];
      }
    }
  }

  /** Inserts x into a strictly sorted sequence, unless it is already there. */
  function InsertSorted(s: seq<string>, x: string): (r: seq<string>)
    requires StrictlySorted(s)
    ensures StrictlySorted(r)
    ensures forall y :: y in r <==> y in s || y == x
  {
    if s == [] then [x]
    else if x == s[0] then s
    else if LexLess(x, s[0]) then
      (forall y | y in s ensures LexLess(x, y) {
         if y != s[0] {
           var j :| 0 <= j < |s| && s[j] == y;
           LexLessTransitive(x, s[0], y);
         }
       }
       SortedCons(x, s);
       [x] + s)
    else
      var t := s[1..];
      assert forall y :: y in t ==> LexLess(s[0], y) by {
        forall y | y in t ensures LexLess(s[0], y) {
          var j :| 0 <= j < |t| && t[j] == y;
          assert s[j + 1] == y;
        }
      }
      var r' := InsertSorted(t, x);
      LexLessTotal(x, s[0]);
      SortedCons(s[0], r');
      assert s == [s[0]] + t;
      [s[0]] + r'
  }

  /** The distinct elements of xs in ascending order (pandas' sorted column union). */
  function SortedUnion(xs: seq<string>): (r: seq<string>)
    ensures StrictlySorted(r)
    ensures forall y :: y in r <==> y in xs
  {
    if xs == [] then []
    else
      assert xs == xs[..|xs| - 1] + [xs[|xs| - 1]];
      InsertSorted(SortedUnion(xs[..|xs| - 1]), xs[|xs| - 1])
  }

  /** A strictly sorted sequence is determined by its elements: the sorted
      union is the only sorted, duplicate-free listing of its columns. */
  lemma {:induction false} SortedUnique(a: seq<string>, b: seq<string>)
    requires StrictlySorted(a) && StrictlySorted(b)
    requires forall y :: y in a <==> y in b
    ensures a == b
  {
    assert a != [] ==> a[0] in b;
    assert b != [] ==> b[0] in a;
    if a != [] && b != [] {
      if a[0] != b[0] {
        assert b[0] in a && a[0] in b;
        var i :| 0 <= i < |a| && a[i] == b[0];
        var j :| 0 <= j < |b| && b[j] == a[0];
        assert i > 0 && j > 0;
        assert LexLess(a[0], b[0]) && LexLess(b[0], a[0]);
        LexLessAsymmetric(a[0], b[0]);
      }
      forall y ensures y in a[1..] <==> y in b[1..] {
        if y in a[1..] {
          var i :| 1 <= i < |a| && a[i] == y;
          LexLessIrreflexive(a[0]);
          assert y != a[0];
          assert y in b;
          var j :| 0 <= j < |b| && b[j] == y;
          assert j != 0;
        }
        if y in b[1..] {
          var j :| 1 <= j < |b| && b[j] == y;
          LexLessIrreflexive(b[0]);
          assert y != b[0];
          assert y in a;
          var i :| 0 <= i < |a| && a[i] == y;
          assert i != 0;
        }
      }
      SortedUnique(a[1..], b[1..]);
      assert a == [a[0]] + a[1..] && b == [b[0]] + b[1..];
    }
  }

  // ---------------------------------------------------------------------------
  // Decimal digits: str() of a non-negative int, and zero-padded fields.

  predicate IsDigit(c: char) {
    '0' <= c <= '9'
  }

  predicate AllDigits(s: string) {
    forall k :: 0 <= k < |s| ==> IsDigit(s[k])
  }

  function DigitChar(d: nat): char
    requires d < 10
  {
    ('0' as int + d) as char
  }

  function DigitValue(c: char): nat
    requires IsDigit(c)
  {
    c as int - '0' as int
  }

  /** The number a string of decimal digits denotes. */
  function DigitsValue(s: string): nat
    requires AllDigits(s)
  {
    if s == [] then 0 else DigitsValue(s[..|s| - 1]) * 10 + DigitValue(s[|s| - 1])
  }

  /** Python's str(n) for n >= 0: decimal digits without leading zeros. */
  function NatToString(n: nat): (r: string)
    ensures r != [] && AllDigits(r)
  {
    if n < 10 then [DigitChar(n)] else NatToString(n / 10) + [DigitChar(n % 10)]
  }

  lemma {:induction false} NatToStringValue(n: nat)
    ensures DigitsValue(NatToString(n)) == n
  {
    var s := NatToString(n);
    if n >= 10 {
      NatToStringValue(n / 10);
      assert s[..|s| - 1] == NatToString(n / 10);
    }
  }

  lemma NatToStringInjective(m: nat, n: nat)
    requires NatToString(m) == NatToString(n)
    ensures m == n
  {
    NatToStringValue(m);
    NatToStringValue(n);
  }

  function Pow10(w: nat): nat {
    if w == 0 then 1 else 10 * Pow10(w - 1)
  }

  /** n written with exactly w digits, zero-padded: Python's "%0wd" for n < 10^w. */
  function Fixed(n: nat, w: nat): (r: string)
    ensures |r| == w && AllDigits(r)
  {
    if w == 0 then [] else Fixed(n / 10, w - 1) + [DigitChar(n % 10)]
  }

  lemma {:induction false} FixedValue(n: nat, w: nat)
    requires n < Pow10(w)
    ensures DigitsValue(Fixed(n, w)) == n
  {
    if w > 0 {
      FixedValue(n / 10, w - 1);
      var s := Fixed(n, w);
      assert s[..|s| - 1] == Fixed(n / 10, w - 1);
    }
  }

  /** Fixed-width decimal fields compare as strings exactly as their values compare. */
  lemma {:induction false} FixedLexLess(a: nat, b: nat, w: nat)
    requires a < Pow10(w) && b < Pow10(w)
    ensures LexLess(Fixed(a, w), Fixed(b, w)) <==> a < b
  {
    if w > 0 {
      var fa, fb := Fixed(a / 10, w - 1), Fixed(b / 10, w - 1);
      var da, db := [DigitChar(a % 10)], [DigitChar(b % 10)];
      FixedLexLess(a / 10, b / 10, w - 1);
      LexLessConcat(fa, fb, da, db);
      FixedValue(a / 10, w - 1);
      FixedValue(b / 10, w - 1);
      assert fa == fb <==> a / 10 == b / 10;
      assert LexLess(da, db) <==> a % 10 < b % 10;
    }
  }

  // ---------------------------------------------------------------------------
  // glob.glob("*" + suffix) on Windows: fnmatch lower-cases both sides, and a
  // pattern that does not start with "." skips names that do.

  function FoldChar(c: char): char {
    if 'A' <= c <= 'Z' then (c as int + 32) as char else c
  }

  function Fold(s: string): string {
    seq(|s|, k requires 0 <= k < |s| => FoldChar(s[k]))
  }

  /** Whether the pattern "*" + suffix selects the directory entry name. */
  predicate GlobMatch(name: string, suffix: string) {
    !(name != [] && name[0] == '.') && EndsWith(Fold(name), Fold(suffix))
  }

  /** The entries of a listing that the pattern "*" + suffix selects, in listing order. */
  function Glob(names: seq<string>, suffix: string): seq<string> {
    Filter(names, n => GlobMatch(n, suffix))
  }

  /** Glob selects exactly the listed names that match, and keeps their order. */
  lemma GlobSelects(names: seq<string>, suffix: string)
    ensures forall n :: n in Glob(names, suffix) <==> n in names && GlobMatch(n, suffix)
    ensures IsSubsequence(Glob(names, suffix), names)
  {
    forall n ensures n in Glob(names, suffix) <==> n in names && GlobMatch(n, suffix) {
      FilterMembers(names, n => GlobMatch(n, suffix), n);
    }
    FilterIsSubsequence(names, n => GlobMatch(n, suffix));
  }

  /** A name that really ends with the suffix is matched whatever the case folding does. */
  lemma FoldEndsWith(s: string, suffix: string)
    requires EndsWith(s, suffix)
    ensures EndsWith(Fold(s), Fold(suffix))
  {
    var fs := Fold(s);
    var off := |s| - |suffix|;
    assert fs[off..] == Fold(suffix) by {
      forall k | 0 <= k < |suffix| ensures fs[off..][k] == Fold(suffix)[k] {
        assert s[off + k] == suffix[k];
      }
    }
  }
}
