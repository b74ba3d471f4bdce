/**
 The ranking step of `fetch_and_sort_images`: the fetched records sorted by pull count,
 largest first, with Python's stable `sorted(..., reverse=True)` keeping records of equal
 count in their fetched order, and every record tagged `official`.
 */
module Ranker {
  import opened Records

  /** Non-increasing by pull count. */
  predicate SortedDesc(s: seq<Repo>) {
    forall i, j :: 0 <= i < j < |s| ==> s[i].pullCount >= s[j].pullCount
  }

  /** The records of `s` whose pull count is `k`, in their order in `s`. */
  function WithCount(s: seq<Repo>, k: int): seq<Repo> {
    if |s| == 0 then []
    else (if s[0].pullCount == k then [s[0]] else []) + WithCount(s[1..], k)
  }

  lemma {:induction false} WithCountAbsent(s: seq<Repo>, k: int)
    requires forall i :: 0 <= i < |s| ==> s[i].pullCount != k
    ensures WithCount(s, k) == []
  {
    if |s| > 0 {
      WithCountAbsent(s[1..], k);
    }
  }

  lemma WithCountCons(y: Repo, t: seq<Repo>, k: int)
    ensures WithCount([y] + t, k) == (if y.pullCount == k then [y] else []) + WithCount(t, k)
  {
  }

  /**
   Places `x` in front of the first record whose count does not exceed its own, so that
   it precedes the records of equal count that came after it in the input.
   */
  function Insert(x: Repo, s: seq<Repo>): (r: seq<Repo>)
    ensures |r| == |s| + 1
    ensures multiset(r) == multiset(s) + multiset{x}
  {
    if |s| == 0 then [x]
    else if s[0].pullCount <= x.pullCount then [x] + s
    else
      assert s == [s[0]] + s[1..];
      [s[0]] + Insert(x, s[1..])
  }

  /** A record followed by a sorted sequence of counts no larger than its own is sorted. */
  lemma SortedCons(a: Repo, t: seq<Repo>)
    requires SortedDesc(t)
    requires forall y :: y in t ==> y.pullCount <= a.pullCount
    ensures SortedDesc([a] + t)
  {
  }

  /** Inserting under a bound keeps every count under it. */
  lemma InsertBounded(x: Repo, s: seq<Repo>, b: int)
    requires x.pullCount <= b
    requires forall y :: y in s ==> y.pullCount <= b
    ensures forall y :: y in Insert(x, s) ==> y.pullCount <= b
  {
  }

  lemma {:induction false} InsertSorted(x: Repo, s: seq<Repo>)
    requires SortedDesc(s)
    ensures SortedDesc(Insert(x, s))
  {
    if |s| == 0 {
    } else if s[0].pullCount <= x.pullCount {
      forall y | y in s ensures y.pullCount <= x.pullCount {
        var j :| 0 <= j < |s| && s[j] == y;
        assert s[0].pullCount >= s[j].pullCount;
      }
      SortedCons(x, s);
    } else {
      var t := s[1..];
      assert SortedDesc(t);
      InsertSorted(x, t);
      forall y | y in t ensures y.pullCount <= s[0].pullCount {
        var j :| 0 <= j < |t| && t[j] == y;
        assert s[j + 1] == y;
      }
      InsertBounded(x, t, s[0].pullCount);
      SortedCons(s[0], Insert(x, t));
    }
  }

  lemma {:induction false} InsertWithCount(x: Repo, s: seq<Repo>, k: int)
    ensures WithCount(Insert(x, s), k)
      == (if x.pullCount == k then [x] else []) + WithCount(s, k)
  {
    if |s| == 0 {
      WithCountCons(x, s, k);
    } else if s[0].pullCount <= x.pullCount {
      WithCountCons(x, s, k);
    } else {
      var s' := s[1..];
      assert s == [s[0]] + s';
      assert Insert(x, s) == [s[0]] + Insert(x, s');
      InsertWithCount(x, s', k);
      WithCountCons(s[0], Insert(x, s'), k);
      WithCountCons(s[0], s', k);
      if x.pullCount == k {
        assert s[0].pullCount != k;
        assert WithCount(Insert(x, s), k) == [x] + WithCount(s', k);
        assert WithCount(s, k) == WithCount(s', k);
      } else {
        assert WithCount(Insert(x, s'), k) == WithCount(s', k);
      }
    }
  }

  /** Stable insertion sort, non-increasing by pull count. */
  function SortByCount(s: seq<Repo>): (r: seq<Repo>)
    ensures |r| == |s|
    ensures multiset(r) == multiset(s)
    ensures SortedDesc(r)
  {
    if |s| == 0 then []
    else
      assert s == [s[0]] + s[1..];
      InsertSorted(s[0], SortByCount(s[1..]));
      Insert(s[0], SortByCount(s[1..]))
  }

  /** The sort is stable: for every count, those records keep their relative order. */
  lemma {:induction false} SortByCountStable(s: seq<Repo>, k: int)
    ensures WithCount(SortByCount(s), k) == WithCount(s, k)
  {
    if |s| > 0 {
      SortByCountStable(s[1..], k);
      InsertWithCount(s[0], SortByCount(s[1..]), k);
      WithCountCons(s[0], s[1..], k);
      assert s == [s[0]] + s[1..];
    }
  }

  /** A record with `official` set, every other field unchanged. */
  function MarkOfficial(x: Repo): Repo {
    x.(official := true)
  }

  /** The `for repo in sorted_repos: repo["official"] = True` loop. */
  function MarkAll(s: seq<Repo>): (r: seq<Repo>)
    ensures |r| == |s|
    ensures forall i :: 0 <= i < |s| ==> r[i] == MarkOfficial(s[i])
  {
    if |s| == 0 then [] else [MarkOfficial(s[0])] + MarkAll(s[1..])
  }

  lemma {:induction false} MarkAllInsert(x: Repo, s: seq<Repo>)
    ensures MarkAll(Insert(x, s)) == Insert(MarkOfficial(x), MarkAll(s))
  {
    if |s| > 0 && s[0].pullCount > x.pullCount {
      MarkAllInsert(x, s[1..]);
      assert MarkAll(s)[1..] == MarkAll(s[1..]);
    }
  }

  /** Tagging records does not change their counts, so it commutes with the sort. */
  lemma {:induction false} MarkAllSort(s: seq<Repo>)
    ensures MarkAll(SortByCount(s)) == SortByCount(MarkAll(s))
  {
    if |s| > 0 {
      MarkAllSort(s[1..]);
      MarkAllInsert(s[0], SortByCount(s[1..]));
      assert MarkAll(s)[1..] == MarkAll(s[1..]);
    }
  }

  lemma {:induction false} MarkAllWithCount(s: seq<Repo>, k: int)
    ensures WithCount(MarkAll(s), k) == MarkAll(WithCount(s, k))
  {
    if |s| > 0 {
      MarkAllWithCount(s[1..], k);
      assert MarkAll(s)[1..] == MarkAll(s[1..]);
    }
  }

  /**
   `fetch_and_sort_images` after the fetch: an empty listing gives `[]`; otherwise the
   records sorted by pull count, largest first and stable among equal counts, each tagged
   `official` and otherwise unchanged.
   */
  function Rank(fetched: seq<Repo>): (r: seq<Repo>)
    ensures |r| == |fetched|
    ensures forall i :: 0 <= i < |r| ==> r[i].official
    ensures SortedDesc(r)
    ensures multiset(r) == multiset(MarkAll(fetched))
    ensures forall k :: WithCount(r, k) == MarkAll(WithCount(fetched, k))
  {
    if |fetched| == 0 then []
    else
      var sorted := SortByCount(fetched);
      MarkAllSort(fetched);
      forall k ensures WithCount(MarkAll(sorted), k) == MarkAll(WithCount(fetched, k)) {
        MarkAllWithCount(sorted, k);
        SortByCountStable(fetched, k);
      }
      MarkAll(sorted)
  }

  /** A record's own count always selects it, so only an empty sequence has no subsequences. */
  lemma {:induction false} EmptyAgree(a: seq<Repo>, b: seq<Repo>)
    requires forall k :: WithCount(a, k) == WithCount(b, k)
    ensures |a| == 0 <==> |b| == 0
  {
    if |a| > 0 {
      WithCountCons(a[0], a[1..], a[0].pullCount);
      assert a == [a[0]] + a[1..];
      assert WithCount(b, a[0].pullCount) != [];
    }
    if |b| > 0 {
      WithCountCons(b[0], b[1..], b[0].pullCount);
      assert b == [b[0]] + b[1..];
      assert WithCount(a, b[0].pullCount) != [];
    }
  }

  /** The first records of two such sequences carry the largest count, so they coincide. */
  lemma {:induction false} HeadsAgree(a: seq<Repo>, b: seq<Repo>)
    requires SortedDesc(a) && SortedDesc(b) && |a| > 0 && |b| > 0
    requires forall k :: WithCount(a, k) == WithCount(b, k)
    ensures a[0] == b[0]
  {
    var ka, kb := a[0].pullCount, b[0].pullCount;
    assert a == [a[0]] + a[1..] && b == [b[0]] + b[1..];
    WithCountCons(a[0], a[1..], ka);
    WithCountCons(b[0], b[1..], kb);
    if ka > kb {
      WithCountAbsent(b, ka);
    } else if kb > ka {
      WithCountAbsent(a, kb);
    } else {
      WithCountCons(b[0], b[1..], ka);
      assert WithCount(a, ka) == WithCount(b, ka);
      assert WithCount(a, ka)[0] == a[0] && WithCount(b, ka)[0] == b[0];
    }
  }

  lemma {:induction false} TailsAgree(a: seq<Repo>, b: seq<Repo>, k: int)
    requires |a| > 0 && |b| > 0 && a[0] == b[0]
    requires WithCount(a, k) == WithCount(b, k)
    ensures WithCount(a[1..], k) == WithCount(b[1..], k)
  {
    assert a == [a[0]] + a[1..] && b == [b[0]] + b[1..];
    WithCountCons(a[0], a[1..], k);
    WithCountCons(b[0], b[1..], k);
    if a[0].pullCount == k {
      assert WithCount(a, k)[1..] == WithCount(a[1..], k);
      assert WithCount(b, k)[1..] == WithCount(b[1..], k);
    } else {
      assert WithCount(a, k) == [] + WithCount(a[1..], k) == WithCount(a[1..], k);
      assert WithCount(b, k) == [] + WithCount(b[1..], k) == WithCount(b[1..], k);
    }
  }

  /** Two sorted sequences that agree on every count's subsequence are the same sequence. */
  lemma {:induction false} StableSortUnique(a: seq<Repo>, b: seq<Repo>)
    requires SortedDesc(a) && SortedDesc(b)
    requires forall k :: WithCount(a, k) == WithCount(b, k)
    ensures a == b
    decreases |a|
  {
    EmptyAgree(a, b);
    if |a| > 0 {
      HeadsAgree(a, b);
      forall k ensures WithCount(a[1..], k) == WithCount(b[1..], k) {
        TailsAgree(a, b, k);
      }
      StableSortUnique(a[1..], b[1..]);
      assert a == [a[0]] + a[1..] && b == [b[0]] + b[1..];
    }
  }

  /**
   The ranking is THE stable descending order of the tagged records: any sequence that is
   sorted by pull count and keeps each count's records in fetched order is exactly it.
   */
  lemma RankIsTheStableOrder(fetched: seq<Repo>, r: seq<Repo>)
    requires SortedDesc(r)
    requires forall k :: WithCount(r, k) == MarkAll(WithCount(fetched, k))
    ensures r == Rank(fetched)
  {
    StableSortUnique(r, Rank(fetched));
  }

  /** Nothing fetched, nothing ranked. */
  lemma RankEmpty()
    ensures Rank([]) == []
  {
  }
}
