/**
 The snapshot file name: built as `docker_images_<timestamp>.json` by `save_current_data`
 and taken apart again by `load_last_cumulative_file` with
 `name.split("_", 2)[2].split(".")[0]`.
 */
module SnapshotName {
  import opened Wrappers
  import opened Strings

  const Prefix: string := "docker_images_"
  const Extension: string := ".json"

  /** `f"docker_images_{timestamp_str}.json"`. */
  function SnapshotFilename(ts: string): string {
    Prefix + ts + Extension
  }

  /**
   The timestamp embedded in a file name: the text after the second `_`, up to the first
   `.` after it. A name with fewer than two `_` has no third part to index, which the
   program reports as an `IndexError`; that is `None` here.
   */
  function ParseTimestamp(filename: string): (ts: Option<string>)
    ensures ts.None? <==> Count(filename, '_') < 2
    ensures ts.Some? ==> '.' !in ts.value
  {
    SplitAtMostSpec(filename, '_', 2);
    var parts := SplitAtMost(filename, '_', 2);
    if |parts| < 3 then None else Some(SplitAll(parts[2], '.')[0])
  }

  /**
   Parsing recovers the timestamp the name was built from, whatever `_` the timestamp
   itself holds, as long as it holds no `.`.
   */
  lemma TimestampRoundTrip(ts: string)
    requires '.' !in ts
    ensures ParseTimestamp(SnapshotFilename(ts)) == Some(ts)
  {
    assert SnapshotFilename(ts) == "docker" + ['_'] + ("images" + ['_'] + (ts + ['.'] + "json"));
    ParseShape("docker", "images", ts, "json");
  }

  /**
   A `.` inside the timestamp cuts it short at its first `.`, so the round trip needs its
   precondition.
   */
  lemma DotTruncates(t: string, e: string)
    requires '.' !in t
    ensures ParseTimestamp(SnapshotFilename(t + ['.'] + e)) == Some(t)
  {
    assert SnapshotFilename(t + ['.'] + e)
        == "docker" + ['_'] + ("images" + ['_'] + (t + ['.'] + (e + Extension)));
    ParseShape("docker", "images", t, e + Extension);
  }

  /**
   The value of the parse for every name with at least two `_`: the text after the second
   `_` up to its first `.`, or all of it when it holds no `.`.
   */
  lemma ParseValue(a: string, b: string, rest: string)
    requires '_' !in a && '_' !in b
    ensures var ts := ParseTimestamp(a + ['_'] + (b + ['_'] + rest));
      && ts.Some?
      && '.' !in ts.value
      && ts.value <= rest
      && (|ts.value| == |rest| || rest[|ts.value|] == '.')
  {
    SplitFirst(a, '_', b + ['_'] + rest, 2);
    SplitFirst(b, '_', rest, 1);
    SplitNone(rest, '_');
    var parts := SplitAll(rest, '.');
    if |parts| > 1 {
      assert rest == parts[0] + ['.'] + Join(parts[1..], '.');
    }
  }

  /** The parse of any name shaped `a_b_t.e` with no `_` in `a`, `b` and no `.` in `t`. */
  lemma ParseShape(a: string, b: string, t: string, e: string)
    requires '_' !in a && '_' !in b && '.' !in t
    ensures ParseTimestamp(a + ['_'] + (b + ['_'] + (t + ['.'] + e))) == Some(t)
  {
    var tail := t + ['.'] + e;
    var afterFirst := b + ['_'] + tail;
    SplitFirst(a, '_', afterFirst, 2);
    SplitFirst(b, '_', tail, 1);
    SplitNone(tail, '_');
    SplitFirst(t, '.', e, |tail|);
  }

  /** Names built from timestamps of one width sort exactly as the timestamps do. */
  lemma FilenameOrder(a: string, b: string)
    requires |a| == |b|
    ensures LexLess(SnapshotFilename(a), SnapshotFilename(b)) <==> LexLess(a, b)
  {
    CommonAffixOrder(Prefix, a, b, Extension);
  }
}
