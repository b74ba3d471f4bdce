/**
 `calculate_diff`: for every repository of the current snapshot, in its order, the change of
 its pull count since the previous snapshot, counting a repository the previous snapshot
 does not list as having had zero pulls. Repositories only the previous snapshot lists are
 dropped.
 */
module DiffEngine {
  import opened Records

  /** `previous[j]` is the last record of `previous` with its name. */
  predicate IsLastOf(previous: seq<Repo>, j: int) {
    0 <= j < |previous| && forall j' :: j < j' < |previous| ==> previous[j'].name != previous[j].name
  }

  /** Some record of `s` is named `n`. */
  predicate Lists(s: seq<Repo>, n: string) {
    exists j :: 0 <= j < |s| && s[j].name == n
  }

  /**
   The `{repo["name"]: repo["pull_count"] for repo in old_data}` dictionary: one key per name,
   and a repeated name keeps the count of its last record.
   */
  function PriorCounts(previous: seq<Repo>): (m: map<string, int>)
    ensures forall n :: n in m <==> Lists(previous, n)
    ensures forall j :: IsLastOf(previous, j) ==>
      previous[j].name in m && m[previous[j].name] == previous[j].pullCount
    decreases |previous|
  {
    if |previous| == 0 then map[]
    else
      var init := previous[..|previous| - 1];
      var last := previous[|previous| - 1];
      ListsSnoc(previous);
      LastOfSnoc(previous);
      PriorCounts(init)[last.name := last.pullCount]
  }

  /** Names listed by a snapshot with one more record at the end. */
  lemma ListsSnoc(s: seq<Repo>)
    requires |s| > 0
    ensures forall n :: Lists(s, n) <==> Lists(s[..|s| - 1], n) || n == s[|s| - 1].name
  {
  }

  /** A last record that is not the final one is also last without the final record. */
  lemma LastOfSnoc(s: seq<Repo>)
    requires |s| > 0
    ensures forall j :: IsLastOf(s, j) && j < |s| - 1 ==>
      IsLastOf(s[..|s| - 1], j) && s[j].name != s[|s| - 1].name
  {
  }

  /** `old_data_dict.get(name, 0)`. */
  function GetOrZero(m: map<string, int>, n: string): int {
    if n in m then m[n] else 0
  }

  /** The diff entry of one current record. */
  function Entry(repo: Repo, prior: map<string, int>): DiffRec {
    DiffRec(repo.name, repo.namespace, repo.pullCount - GetOrZero(prior, repo.name), repo.official)
  }

  /**
   One entry per current record, in the current order, carrying its name, namespace and
   `official` flag; the count change is taken against the last previous record of the same
   name, or against zero when the previous snapshot does not list the name.
   */
  function CalculateDiff(current: seq<Repo>, previous: seq<Repo>): (r: seq<DiffRec>)
    ensures |r| == |current|
    ensures forall i :: 0 <= i < |r| ==>
      r[i].name == current[i].name && r[i].namespace == current[i].namespace
      && r[i].official == current[i].official
    ensures forall i, j ::
      0 <= i < |r| && IsLastOf(previous, j) && previous[j].name == current[i].name ==>
        r[i].pullCountDiff == current[i].pullCount - previous[j].pullCount
    ensures forall i :: 0 <= i < |r| && !Lists(previous, current[i].name) ==>
      r[i].pullCountDiff == current[i].pullCount
  {
    var prior := PriorCounts(previous);
    seq(|current|, i requires 0 <= i < |current| => Entry(current[i], prior))
  }

  /** Every listed name has a last record. */
  lemma {:induction false} LastOfExists(previous: seq<Repo>, n: string)
    requires Lists(previous, n)
    ensures exists j :: IsLastOf(previous, j) && previous[j].name == n
    decreases |previous|
  {
    var last := |previous| - 1;
    if previous[last].name == n {
      assert IsLastOf(previous, last);
    } else {
      var init := previous[..last];
      var j :| 0 <= j < |previous| && previous[j].name == n;
      assert init[j].name == n;
      LastOfExists(init, n);
      var k :| IsLastOf(init, k) && init[k].name == n;
      assert previous[k].name == n;
      assert IsLastOf(previous, k);
    }
  }

  /** The output lists exactly the current snapshot's names; names only the previous one lists never appear. */
  lemma DiffNames(current: seq<Repo>, previous: seq<Repo>, n: string)
    ensures (exists i :: 0 <= i < |CalculateDiff(current, previous)| && CalculateDiff(current, previous)[i].name == n)
      <==> Lists(current, n)
  {
    var r := CalculateDiff(current, previous);
    if Lists(current, n) {
      var i :| 0 <= i < |current| && current[i].name == n;
      assert r[i].name == n;
    }
  }

  /** A snapshot compared with itself shows no change when its names are distinct. */
  lemma DiffAgainstSelf(s: seq<Repo>)
    requires forall i, j :: 0 <= i < j < |s| ==> s[i].name != s[j].name
    ensures forall i :: 0 <= i < |s| ==> CalculateDiff(s, s)[i].pullCountDiff == 0
  {
    forall i | 0 <= i < |s| ensures CalculateDiff(s, s)[i].pullCountDiff == 0 {
      assert IsLastOf(s, i);
    }
  }

  /**
   Interval diffs add up: when the middle snapshot `b` has distinct names and lists the
   current record's name at `j`, the change since `a` is the change since `b` plus `b[j]`'s
   change since `a`.
   */
  lemma {:induction false} DiffTelescopes(c: seq<Repo>, b: seq<Repo>, a: seq<Repo>, i: int, j: int)
    requires forall x, y :: 0 <= x < y < |b| ==> b[x].name != b[y].name
    requires 0 <= i < |c| && 0 <= j < |b| && b[j].name == c[i].name
    ensures CalculateDiff(c, a)[i].pullCountDiff
      == CalculateDiff(c, b)[i].pullCountDiff + CalculateDiff(b, a)[j].pullCountDiff
  {
    assert IsLastOf(b, j);
    if Lists(a, c[i].name) {
      LastOfExists(a, c[i].name);
    }
  }

  /** A redis/nginx example: `redis` grew from 60 to 100 pulls; `nginx`, gone, is not reported. */
  lemma RedisExample()
    ensures CalculateDiff([Repo("redis", "library", 100, true)],
                          [Repo("nginx", "library", 500, true), Repo("redis", "library", 60, true)])
         == [DiffRec("redis", "library", 40, true)]
  {
  }
}
