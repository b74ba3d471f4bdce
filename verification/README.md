# Docker Hub popularity tracker — a Dafny model of its data logic

The program polls the Docker Hub listing of official images and ranks the repositories by
pull count. It writes each ranking as a timestamped snapshot file
(`cumulative_pulls/docker_images_<YYYY-MM-DD_HH-MM-SS>.json`). With `--compare-last` it
also loads the newest earlier snapshot and writes the per-repository pull-count change
since then.

This project models the pure logic of `main.py` with the HTTP, filesystem and clock calls
taken out:

- **Ranker** (`ranker.dfy`): a stable sort, largest pull count first, which tags every
  record `official`.
- **Diff engine** (`diff_engine.dfy`): the name-to-old-count dictionary, where the last
  record of a name wins, and one diff entry per current record, in current order, with
  0 as the default old count.
- **Snapshot file names** (`snapshot_name.dfy`): `docker_images_<ts>.json` and its parse
  `split("_", 2)[2].split(".")[0]`. `strings.dfy` models the Python string behaviour
  this needs: code-point string order, `str.split` with and without `maxsplit`, and
  `join`.
- **Snapshot store** (`snapshot_store.dfy`): the directory is a sequence of
  (name, records) files. The model covers the reverse-sorted listing, the choice of the
  latest file, `(None, None)` for an empty directory, save-if-non-empty, and the
  save-then-load round trip.
- **Timestamps** (`timestamp.dfy`): the fixed-width `%Y-%m-%d_%H-%M-%S` text. Its string
  order agrees with chronological order. The latest-file choice relies on this, but the
  program never checks it.

Two consequences of how `main.py` is written that the model makes explicit:

- Ties in the ranking keep their fetched order, because Python's `sorted(...,
  reverse=True)` is stable (main.py:47). The model proves that this order is the only
  stable descending one.
- The file name parse at main.py:78 fails only with an `IndexError`, and only for a name
  with fewer than two `_`. Any other name parses to the text after the second `_`, up to
  its first `.`. The `strptime` call at main.py:79 then raises `ValueError` when that text
  is not a well-formed timestamp (for example `foo_bar_baz.json` gives `baz`). That
  `ValueError` is not modelled (see "Left out").

## Model

| member | source | states |
|---|---|---|
| Ranker.Rank | main.py:43-50 | the ranking has the input's length; every record is `official`; the ranking is non-increasing by pull count; as a multiset it equals the input with `official` set and nothing else changed; for every count, the records with that count keep their fetched order (stability) |
| Ranker.RankIsTheStableOrder | main.py:47-49 | any sequence that is sorted by pull count and keeps each count's records in fetched order is exactly the ranking, so the ranking is the unique stable descending order |
| Ranker.RankEmpty | main.py:43-45 | an empty fetch ranks to `[]` |
| Ranker.SortByCount | main.py:47 | the sort is a permutation of its input, with the same length, and is non-increasing by pull count |
| Ranker.SortByCountStable | main.py:47 | records with equal pull counts keep their relative input order |
| Ranker.StableSortUnique | main.py:47 | two count-sorted sequences that agree on each count's subsequence are equal |
| DiffEngine.PriorCounts | main.py:84 | the dictionary's keys are exactly the previous snapshot's names; each name maps to the count of its last record (last occurrence wins) |
| DiffEngine.CalculateDiff | main.py:83-99 | one entry per current record, in current order, with that record's name, namespace and `official`; the change is the current count minus the count of the last previous record with the same name; for a name the previous snapshot lacks, it is the current count itself |
| DiffEngine.LastOfExists | main.py:84 | every name the previous snapshot lists has a last record, so the dictionary lookup always finds a defining record |
| DiffEngine.DiffNames | main.py:87-97 | a name appears in the diff iff the current snapshot lists it; names only the previous snapshot has are dropped |
| DiffEngine.DiffAgainstSelf | main.py:87-91 | comparing a snapshot that has distinct names with itself gives a zero change everywhere |
| DiffEngine.DiffTelescopes | main.py:87-91 | consecutive interval diffs add up to the diff over the whole span, when the middle snapshot has distinct names and lists the repository |
| DiffEngine.RedisExample | main.py:83-99 | `redis` 60 then 100 gives a change of 40; `nginx`, present only in the old snapshot, is not reported |
| Strings.SplitAtMostSpec | main.py:78 | `split(sep, n)` makes min(n, occurrences) + 1 parts; joining them with `sep` gives back the string; no part but the last holds `sep`, and the last holds none once every occurrence is cut |
| Strings.SplitFirst | main.py:78 | with a cut left, `split` ends the first part at the first separator and splits the rest with one cut fewer |
| Strings.SplitAll | main.py:78 | `split(sep)` makes one part more than there are separators; joining the parts gives back the string, and no part holds `sep` |
| Strings.LexLessTotal | main.py:69 | the string order used by `sorted` relates any two different strings one way or the other |
| SnapshotName.ParseTimestamp | main.py:78 | the parse fails (`IndexError`) exactly when the name has fewer than two `_`; otherwise the result holds no `.` |
| SnapshotName.ParseValue | main.py:78 | for any name `a_b_rest` with no `_` in `a` or `b`, the parse succeeds and gives the longest `.`-free prefix of `rest`: a prefix of `rest` that is all of it or is followed by a `.` |
| SnapshotName.TimestampRoundTrip | main.py:61-78 | parsing `docker_images_<ts>.json` returns exactly `ts` for any `ts` without `.`, even when `ts` holds `_` |
| SnapshotName.DotTruncates | main.py:61-78 | a timestamp `t.e` whose `t` holds no `.` comes back as `t`: the parse stops at the timestamp's first `.` |
| SnapshotName.FilenameOrder | main.py:61-69 | for timestamps of equal width, file names sort exactly as their timestamps do |
| Timestamp.FormatOrder | main.py:59-69 | for valid dates and times, the `%Y-%m-%d_%H-%M-%S` strings compare as strings exactly as the instants compare in time |
| SnapshotStore.SortNamesDesc | main.py:69 | the reverse-sorted listing is a permutation of the listing and is non-increasing in string order |
| SnapshotStore.LatestFile | main.py:69-73 | `None` exactly for an empty listing; otherwise a listed name that no listed name exceeds |
| SnapshotStore.LatestFileIsTheMaximum | main.py:69-73 | the chosen file is the unique greatest name: any listed name that no other exceeds is the one chosen |
| SnapshotStore.Write | main.py:52-56 | after writing, the file holds the new records; the listing gains that name only; every other file reads as before |
| SnapshotStore.LoadLast | main.py:68-80 | `(None, None)` exactly for an empty directory; otherwise the greatest name, which either fails to parse (`IndexError`) or is loaded with its stored records and its parsed timestamp |
| SnapshotStore.SaveCurrent | main.py:58-65 | an empty fetch leaves the directory alone and returns `[]`; otherwise the ranked records (`Rank(fetched)`) are stored under `docker_images_<ts>.json`, the listing gains only that name, and every other file is unchanged |
| SnapshotStore.SaveThenLoad | main.py:58-80 | saving a non-empty fetch and then loading returns the new file, the ranked records and the write timestamp, provided no existing name sorts after the new one |
| SnapshotStore.LatestIsNewest | main.py:59-79 | when every name was written from a valid instant, the chosen file is the latest instant's snapshot and its parsed timestamp is that instant's text |

## Left out

- `get_repositories` (main.py:15-39): the paginated HTTP client. Its responses come from an external service, so the fetched records are a parameter of `SaveCurrent` and `Rank`.
- File I/O: `os.makedirs`, `open`, `json.dump` and `json.load` are modelled as storing and returning the records unchanged. Malformed JSON is not modelled.
- `datetime.now()`: the clock reading is the `ts` parameter of `SaveCurrent`.
- `strptime` (main.py:60, 79): `LoadLast` returns the parsed timestamp text, not a `datetime`. The `ValueError` that `strptime` raises for a malformed timestamp is not modelled.
- The `timedelta` subtraction and the interval file name (main.py:114-117): these are library clock and formatting code.
- The command-line dispatch in `__main__` (main.py:104-118): it is orchestration only. It loads the last snapshot before saving the new one.
- `print` logging, the unused `csv` import, and the import-time creation of the two directories.
- Extra JSON fields: fields other than `name`, `namespace`, `pull_count` and `official` pass through unchanged in the program and are not represented. A missing field, which raises `KeyError`, is not modelled either.
- `official` on fetched records: a fetched record that has no `official` key is represented with some boolean. Ranking overwrites it with `true`.
- Sorting algorithm: Python uses Timsort and the model uses insertion sort. `Ranker.RankIsTheStableOrder` shows that a stable descending order is unique, so the results are the same.
- Timestamp.FormatOrder: only years 1000-9999 are covered. `strftime("%Y")` does not pad years below 1000 on every platform.
- Integer width: pull counts are unbounded integers, as in Python.
