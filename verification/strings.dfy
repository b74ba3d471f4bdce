/**
 The parts of Python's `str` behaviour the program relies on: the ordering `sorted` uses
 (code-point lexicographic order, a proper prefix sorting first), `str.split` with and
 without a `maxsplit` bound, and its inverse `sep.join`.
 */
module Strings {

  /** Python's `a < b` on strings. */
  predicate LexLess(a: string, b: string)
    decreases |a|
  {
    if |a| == 0 then |b| > 0
    else if |b| == 0 then false
    else if a[0] == b[0] then LexLess(a[1..], b[1..])
    else a[0] < b[0]
  }

  lemma {:induction false} LexLessIrreflexive(a: string)
    ensures !LexLess(a, a)
    decreases |a|
  {
    if |a| > 0 {
      LexLessIrreflexive(a[1..]);
    }
  }

  lemma {:induction false} LexLessAsymmetric(a: string, b: string)
    ensures !(LexLess(a, b) && LexLess(b, a))
    decreases |a|
  {
    if |a| > 0 && |b| > 0 && a[0] == b[0] {
      LexLessAsymmetric(a[1..], b[1..]);
    }
  }

  lemma {:induction false} LexLessTransitive(a: string, b: string, c: string)
    requires LexLess(a, b) && LexLess(b, c)
    ensures LexLess(a, c)
    decreases |a|
  {
    if |a| > 0 && a[0] == b[0] && b[0] == c[0] {
      LexLessTransitive(a[1..], b[1..], c[1..]);
    }
  }

  /** Any two different strings are ordered one way or the other. */
  lemma {:induction false} LexLessTotal(a: string, b: string)
    requires a != b
    ensures LexLess(a, b) || LexLess(b, a)
    decreases |a|
  {
    if |a| > 0 && |b| > 0 && a[0] == b[0] {
      assert a == [a[0]] + a[1..] && b == [b[0]] + b[1..];
      LexLessTotal(a[1..], b[1..]);
    }
  }

  /**
   Comparing two strings that start with pieces of equal width compares the pieces first
   and falls back to the rest only when the pieces agree.
   */
  lemma {:induction false} LexLessConcat(a: string, b: string, c: string, d: string)
    requires |a| == |c|
    ensures LexLess(a + b, c + d) <==> LexLess(a, c) || (a == c && LexLess(b, d))
    decreases |a|
  {
    if |a| == 0 {
      assert a + b == b && c + d == d;
    } else {
      assert (a + b)[0] == a[0] && (c + d)[0] == c[0];
      assert (a + b)[1..] == a[1..] + b && (c + d)[1..] == c[1..] + d;
      LexLessConcat(a[1..], b, c[1..], d);
      if a[0] == c[0] {
        assert a == [a[0]] + a[1..] && c == [c[0]] + c[1..];
      }
    }
  }

  /** Number of occurrences of `c` in `s` (Python's `s.count(c)`). */
  function Count(s: string, c: char): (n: nat)
    ensures n <= |s|
    ensures n == 0 <==> c !in s
  {
    if |s| == 0 then 0
    else
      assert s == [s[0]] + s[1..];
      (if s[0] == c then 1 else 0) + Count(s[1..], c)
  }

  lemma {:induction false} CountConcat(a: string, b: string, c: char)
    ensures Count(a + b, c) == Count(a, c) + Count(b, c)
    decreases |a|
  {
    if |a| == 0 {
      assert a + b == b;
    } else {
      assert (a + b)[0] == a[0] && (a + b)[1..] == a[1..] + b;
      CountConcat(a[1..], b, c);
    }
  }

  /**
   Strings sharing a prefix and a suffix, with middles of equal width, compare as the
   middles do.
   */
  lemma CommonAffixOrder(p: string, a: string, b: string, e: string)
    requires |a| == |b|
    ensures LexLess(p + a + e, p + b + e) <==> LexLess(a, b)
  {
    assert p + a + e == p + (a + e) && p + b + e == p + (b + e);
    LexLessConcat(p, a + e, p, b + e);
    LexLessIrreflexive(p);
    LexLessConcat(a, e, b, e);
    LexLessIrreflexive(e);
  }

  function Min(x: nat, y: nat): nat {
    if x <= y then x else y
  }

  /** Python's `sep.join(parts)` for a one-character separator. */
  function Join(parts: seq<string>, sep: char): string
    requires |parts| > 0
  {
    if |parts| == 1 then parts[0] else parts[0] + [sep] + Join(parts[1..], sep)
  }

  /**
   Python's `s.split(sep, n)`: cut at the first `n` occurrences of `sep`, left to right;
   whatever follows the n-th cut, separators included, is the last part.
   */
  function SplitAtMost(s: string, sep: char, n: nat): (parts: seq<string>)
    ensures |parts| > 0
    decreases |s|
  {
    if |s| == 0 then [""]
    else if s[0] == sep && n > 0 then [""] + SplitAtMost(s[1..], sep, n - 1)
    else
      var rest := SplitAtMost(s[1..], sep, n);
      [[s[0]] + rest[0]] + rest[1..]
  }

  /** Adding a character to the front of the first part adds it to the front of the join. */
  lemma JoinExtendHead(c: char, parts: seq<string>, sep: char)
    requires |parts| > 0
    ensures Join([[c] + parts[0]] + parts[1..], sep) == [c] + Join(parts, sep)
  {
  }

  /**
   `parts` is what `split(sep, n)` returns for `s`: min(n, occurrences) + 1 parts that join
   back to `s`, no part but the last holding `sep`, and the last holding none once every
   occurrence is cut.
   */
  predicate IsSplit(s: string, sep: char, n: nat, parts: seq<string>) {
    && |parts| == Min(n, Count(s, sep)) + 1
    && Join(parts, sep) == s
    && (forall i :: 0 <= i < |parts| - 1 ==> sep !in parts[i])
    && (Count(s, sep) <= n ==> sep !in parts[|parts| - 1])
  }

  /** A separator in front, with a cut left: an empty first part, then the rest's split. */
  lemma SplitCut(t: string, sep: char, n: nat, rest: seq<string>)
    requires n > 0 && IsSplit(t, sep, n - 1, rest)
    ensures IsSplit([sep] + t, sep, n, [""] + rest)
  {
  }

  /** Any other character in front joins the first part. */
  lemma SplitKeep(c: char, t: string, sep: char, n: nat, rest: seq<string>)
    requires c != sep || n == 0
    requires IsSplit(t, sep, n, rest)
    ensures IsSplit([c] + t, sep, n, [[c] + rest[0]] + rest[1..])
  {
  }

  /** `SplitAtMost` is Python's `split(sep, n)` in the sense of `IsSplit`. */
  lemma {:induction false} SplitAtMostSpec(s: string, sep: char, n: nat)
    ensures IsSplit(s, sep, n, SplitAtMost(s, sep, n))
    decreases |s|
  {
    if |s| > 0 {
      var t := s[1..];
      assert s == [s[0]] + t;
      if s[0] == sep && n > 0 {
        SplitAtMostSpec(t, sep, n - 1);
        SplitCut(t, sep, n, SplitAtMost(t, sep, n - 1));
      } else {
        SplitAtMostSpec(t, sep, n);
        SplitKeep(s[0], t, sep, n, SplitAtMost(t, sep, n));
      }
    }
  }

  /** With no cut allowed, the whole string is the one part. */
  lemma {:induction false} SplitNone(s: string, sep: char)
    ensures SplitAtMost(s, sep, 0) == [s]
    decreases |s|
  {
    if |s| > 0 {
      SplitNone(s[1..], sep);
      assert [s[0]] + s[1..] == s;
    }
  }

  /** With a cut left, the first part ends at the first separator. */
  lemma {:induction false} SplitFirst(a: string, sep: char, b: string, n: nat)
    requires sep !in a && n > 0
    ensures SplitAtMost(a + [sep] + b, sep, n) == [a] + SplitAtMost(b, sep, n - 1)
    decreases |a|
  {
    var s := a + [sep] + b;
    if |a| == 0 {
      assert s[0] == sep && s[1..] == b;
    } else {
      assert s[0] == a[0] && s[1..] == a[1..] + [sep] + b;
      SplitFirst(a[1..], sep, b, n);
      assert [a[0]] + a[1..] == a;
    }
  }

  /** Python's `s.split(sep)`: cut at every occurrence of `sep`. */
  function SplitAll(s: string, sep: char): (parts: seq<string>)
    ensures |parts| == Count(s, sep) + 1
    ensures Join(parts, sep) == s
    ensures forall i :: 0 <= i < |parts| ==> sep !in parts[i]
  {
    SplitAtMostSpec(s, sep, |s|);
    SplitAtMost(s, sep, |s|)
  }
}
