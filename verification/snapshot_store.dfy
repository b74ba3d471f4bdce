/**
 The cumulative snapshot directory: `save_current_data` writes the ranked records under a
 timestamped name when there are any, and `load_last_cumulative_file` picks the greatest
 name of the listing, reads it and recovers its timestamp. The directory is a sequence of
 (name, records) files; JSON encoding is taken to preserve the records exactly.
 */
module SnapshotStore {
  import opened Wrappers
  import opened Records
  import opened Strings
  import opened SnapshotName
  import opened Timestamp
  import Ranker

  /** Non-increasing in string order, as `sorted(..., reverse=True)` leaves a listing. */
  predicate SortedNamesDesc(s: seq<string>) {
    forall i, j :: 0 <= i < j < |s| ==> !LexLess(s[i], s[j])
  }

  function InsertName(x: string, s: seq<string>): (r: seq<string>)
    ensures |r| == |s| + 1
    ensures multiset(r) == multiset(s) + multiset{x}
  {
    if |s| == 0 then [x]
    else if !LexLess(x, s[0]) then [x] + s
    else
      assert s == [s[0]] + s[1..];
      [s[0]] + InsertName(x, s[1..])
  }

  /** A string not below `x`'s bound: `y <= b` and `b <= x` give `y <= x`. */
  lemma NotLessTransitive(x: string, b: string, y: string)
    requires !LexLess(x, b) && !LexLess(b, y)
    ensures !LexLess(x, y)
  {
  }

  lemma {:induction false} InsertNameSorted(x: string, s: seq<string>)
    requires SortedNamesDesc(s)
    ensures SortedNamesDesc(InsertName(x, s))
  {
    var r := InsertName(x, s);
    if |s| == 0 {
    } else if !LexLess(x, s[0]) {
      forall i, j | 0 <= i < j < |r| ensures !LexLess(r[i], r[j]) {
        if i == 0 {
          assert r[j] == s[j - 1];
          LexLessIrreflexive(s[0]);
          NotLessTransitive(x, s[0], s[j - 1]);
        } else {
          assert r[i] == s[i - 1] && r[j] == s[j - 1];
        }
      }
    } else {
      var rest := InsertName(x, s[1..]);
      InsertNameSorted(x, s[1..]);
      assert s == [s[0]] + s[1..];
      assert r == [s[0]] + rest;
      forall i, j | 0 <= i < j < |r| ensures !LexLess(r[i], r[j]) {
        if i == 0 {
          var y := r[j];
          assert y in rest;
          assert y in multiset(rest);
          if y == x {
            LexLessAsymmetric(x, s[0]);
          } else {
            assert y in s[1..];
          }
        } else {
          assert r[i] == rest[i - 1] && r[j] == rest[j - 1];
        }
      }
    }
  }

  /** `sorted(listing, reverse=True)`. */
  function SortNamesDesc(s: seq<string>): (r: seq<string>)
    ensures |r| == |s|
    ensures multiset(r) == multiset(s)
    ensures SortedNamesDesc(r)
  {
    if |s| == 0 then []
    else
      assert s == [s[0]] + s[1..];
      InsertNameSorted(s[0], SortNamesDesc(s[1..]));
      InsertName(s[0], SortNamesDesc(s[1..]))
  }

  /**
   `files[0]` of the reverse-sorted listing: the greatest name in string order, or `None`
   for an empty listing.
   */
  function LatestFile(listing: seq<string>): (r: Option<string>)
    ensures r.None? <==> |listing| == 0
    ensures r.Some? ==> r.value in listing && forall f :: f in listing ==> !LexLess(r.value, f)
  {
    var sorted := SortNamesDesc(listing);
    if |sorted| == 0 then None
    else
      assert sorted[0] in multiset(sorted);
      assert forall f :: f in listing ==> f in sorted by {
        forall f | f in listing ensures f in sorted {
          assert f in multiset(listing);
        }
      }
      LexLessIrreflexive(sorted[0]);
      Some(sorted[0])
  }

  /** The greatest name is unique: any name no other name exceeds is the one chosen. */
  lemma LatestFileIsTheMaximum(listing: seq<string>, g: string)
    requires g in listing
    requires forall f :: f in listing ==> !LexLess(g, f)
    ensures LatestFile(listing) == Some(g)
  {
    var l := LatestFile(listing).value;
    if l != g {
      LexLessTotal(l, g);
    }
  }

  /** One file of the directory: its name and the records stored in it. */
  datatype SnapshotFile = SnapshotFile(name: string, records: seq<Repo>)

  /** `os.listdir`: the names of the files. */
  function Listing(d: seq<SnapshotFile>): (r: seq<string>)
    ensures |r| == |d|
    ensures forall i :: 0 <= i < |d| ==> r[i] == d[i].name
  {
    seq(|d|, i requires 0 <= i < |d| => d[i].name)
  }

  /** Index of the first file named `name`. */
  function FirstNamed(d: seq<SnapshotFile>, name: string): (i: nat)
    requires name in Listing(d)
    ensures i < |d| && d[i].name == name
    ensures forall j :: 0 <= j < i ==> d[j].name != name
  {
    if d[0].name == name then 0
    else
      var k :| 0 <= k < |d| && Listing(d)[k] == name;
      assert Listing(d[1..])[k - 1] == name;
      1 + FirstNamed(d[1..], name)
  }

  lemma FirstNamedIs(d: seq<SnapshotFile>, name: string, i: nat)
    requires i < |d| && d[i].name == name
    requires forall j :: 0 <= j < i ==> d[j].name != name
    ensures name in Listing(d) && FirstNamed(d, name) == i
  {
  }

  /** `json.load` of the file `name`: the records stored under it. */
  function Read(d: seq<SnapshotFile>, name: string): seq<Repo>
    requires name in Listing(d)
  {
    d[FirstNamed(d, name)].records
  }

  /**
   `open(name, "w")` then `json.dump(records)`: the file is replaced when it exists and
   created otherwise; the other files are untouched.
   */
  function Write(d: seq<SnapshotFile>, name: string, records: seq<Repo>): (r: seq<SnapshotFile>)
    ensures name in Listing(r) && Read(r, name) == records
    ensures forall f :: f in Listing(r) <==> f in Listing(d) || f == name
    ensures forall f :: f in Listing(d) && f != name ==> Read(r, f) == Read(d, f)
  {
    var file := SnapshotFile(name, records);
    if name in Listing(d) then
      var r := seq(|d|, i requires 0 <= i < |d| => if d[i].name == name then file else d[i]);
      assert Listing(r) == Listing(d);
      FirstNamedIs(r, name, FirstNamed(d, name));
      forall f | f in Listing(d) && f != name ensures Read(r, f) == Read(d, f) {
        FirstNamedIs(r, f, FirstNamed(d, f));
      }
      r
    else
      var r := d + [file];
      assert Listing(r) == Listing(d) + [name];
      FirstNamedIs(r, name, |d|);
      forall f | f in Listing(d) && f != name ensures Read(r, f) == Read(d, f) {
        FirstNamedIs(r, f, FirstNamed(d, f));
      }
      r
  }

  /** What `load_last_cumulative_file` answers. */
  datatype LoadResult =
    | NoSnapshot                                                  // `(None, None)`: empty directory
    | BadName(file: string)                                       // the name has no third `_` part
    | Loaded(file: string, records: seq<Repo>, timestamp: string)

  /**
   The greatest file name in string order, its records and its embedded timestamp;
   `NoSnapshot` exactly when the directory is empty.
   */
  function LoadLast(d: seq<SnapshotFile>): (r: LoadResult)
    ensures r.NoSnapshot? <==> |d| == 0
    ensures !r.NoSnapshot? ==> r.file in Listing(d) && forall f :: f in Listing(d) ==> !LexLess(r.file, f)
    ensures r.BadName? ==> ParseTimestamp(r.file).None?
    ensures r.Loaded? ==>
      r.file in Listing(d) && Read(d, r.file) == r.records && ParseTimestamp(r.file) == Some(r.timestamp)
  {
    match LatestFile(Listing(d))
    case None => NoSnapshot
    case Some(f) =>
      match ParseTimestamp(f)
      case None => BadName(f)
      case Some(ts) => Loaded(f, Read(d, f), ts)
  }

  /** What `save_current_data` returns, with the directory after it. */
  datatype SaveResult = SaveResult(data: seq<Repo>, filename: string, dir: seq<SnapshotFile>)

  /**
   Ranks the fetched records and, when there are any, writes them under the name built
   from `ts`; an empty fetch leaves the directory as it was.
   */
  function SaveCurrent(d: seq<SnapshotFile>, ts: string, fetched: seq<Repo>): (r: SaveResult)
    ensures r.data == Ranker.Rank(fetched)
    ensures r.filename == SnapshotFilename(ts)
    ensures |r.data| == 0 <==> |fetched| == 0
    ensures |fetched| == 0 ==> r.dir == d
    ensures |fetched| > 0 ==> r.filename in Listing(r.dir) && Read(r.dir, r.filename) == r.data
    ensures forall f :: f in Listing(r.dir) <==> f in Listing(d) || (|fetched| > 0 && f == r.filename)
    ensures forall f :: f in Listing(d) && f != r.filename ==> f in Listing(r.dir) && Read(r.dir, f) == Read(d, f)
  {
    var data := Ranker.Rank(fetched);
    var filename := SnapshotFilename(ts);
    if |data| > 0 then SaveResult(data, filename, Write(d, filename, data))
    else SaveResult(data, filename, d)
  }

  /**
   Saving then loading gives back the ranked records and the timestamp, provided no file
   already in the directory sorts after the new one and the timestamp holds no `.`.
   */
  lemma SaveThenLoad(d: seq<SnapshotFile>, ts: string, fetched: seq<Repo>)
    requires '.' !in ts
    requires |fetched| > 0
    requires forall f :: f in Listing(d) ==> !LexLess(SnapshotFilename(ts), f)
    ensures LoadLast(SaveCurrent(d, ts, fetched).dir)
      == Loaded(SnapshotFilename(ts), Ranker.Rank(fetched), ts)
  {
    var s := SaveCurrent(d, ts, fetched);
    var name := SnapshotFilename(ts);
    forall f | f in Listing(s.dir) ensures !LexLess(name, f) {
      if f == name {
        LexLessIrreflexive(name);
      }
    }
    LatestFileIsTheMaximum(Listing(s.dir), name);
    TimestampRoundTrip(ts);
  }

  /** The listing a run of snapshots at the instants `times` leaves behind. */
  function NamesOf(times: seq<DateTime>): (r: seq<string>)
    requires forall i :: 0 <= i < |times| ==> Valid(times[i])
    ensures |r| == |times|
    ensures forall i :: 0 <= i < |times| ==> r[i] == SnapshotFilename(Format(times[i]))
  {
    seq(|times|, i requires 0 <= i < |times| => SnapshotFilename(Format(times[i])))
  }

  /**
   When every name was written from a valid instant, the chosen file is the snapshot of
   the latest instant and its parsed timestamp is that instant's text.
   */
  lemma LatestIsNewest(times: seq<DateTime>)
    requires |times| > 0
    requires forall i :: 0 <= i < |times| ==> Valid(times[i])
    ensures LatestFile(NamesOf(times)).Some?
    ensures exists i ::
      && 0 <= i < |times|
      && LatestFile(NamesOf(times)).value == SnapshotFilename(Format(times[i]))
      && ParseTimestamp(LatestFile(NamesOf(times)).value) == Some(Format(times[i]))
      && forall j :: 0 <= j < |times| ==> !Before(times[i], times[j])
  {
    var names := NamesOf(times);
    var l := LatestFile(names).value;
    var i :| 0 <= i < |names| && names[i] == l;
    forall j | 0 <= j < |times| ensures !Before(times[i], times[j]) {
      assert names[j] in names;
      FilenameOrder(Format(times[i]), Format(times[j]));
      FormatOrder(times[i], times[j]);
    }
    TimestampRoundTrip(Format(times[i]));
  }
}
