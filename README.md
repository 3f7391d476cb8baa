# hf_hub_stats core, modelled in Dafny

hf_hub_stats collects statistics about the models on the Hugging Face Hub. Its core
consists of two keyed stores and the queries built on them:

- **DownloadTrendDB** maps a date key `"MM-DD-YY"` to the list of
  `(model_id, download)` snapshots taken that day. `dates` and `latest` order the keys
  chronologically through `strptime`. `update` appends the day's snapshots, and `prune`
  deletes the oldest dates.
- **SizeDB** maps a model id to a `CalcModelSizeResult(model_id, size, code, memo)`.
  A `dirty` flag gates writing back: `__setitem__` sets it only on a real change, and
  `persist` always clears it. `update` runs batches of at most 32 estimations, and only
  for models not stored yet.
- **The queries** are layered on the stores:
  - `query_top_models`, and its older variant `get_top_models`, pick the top models by
    downloads within a size range. Models whose size cannot be estimated may be
    included, and each one widens the list by one.
  - `query_model_size` and `query_model_download` look models up in the stores.
  - `draw_download_trend` computes a per-date dense rank table for a set of target
    models.

The model is organised as follows:

- `common.dfy` (module `Common`) holds result types and Python's slicing:
  `s[start:min(end, n)]` with negative bounds counting from the end, and `s[:limit]`.
- `sorting.dfy` (module `Sorting`) models `sorted(..., key=...)` as a stable insertion
  sort. `reverse=True` on the downloads is a stable ascending sort by the negated count.
- `dates.dfy` (module `Dates`) models `strptime`/`strftime` with `"%m-%d-%y"`:
  - the date is a `(month, day, yy)` triple;
  - the POSIX pivot applies: 69-99 are 19xx, and 00-68 are 20xx;
  - days of the month are checked, including leap years;
  - `strptime` accepts unpadded fields.
- `download_db.dfy` (module `DownloadDb`) defines the class `DownloadTrendDB`:
  - `order` is Python's key insertion order;
  - `db` is the dictionary;
  - `disk` is a ghost snapshot of the JSON file;
  - `writes` is a ghost count of file writes.
- `size_db.dfy` (module `SizeDb`) defines:
  - the class `SizeDB`;
  - the estimator wrapper, with the estimator as a function parameter;
  - the batched update, with a ghost record of its batches.
- `query_db.dfy` (module `QueryDb`) holds:
  - the selection loop shared by both top-model queries, specified by `Take` over
    per-candidate verdicts;
  - the two lookups;
  - the rank table.
- `query_top_models.dfy` (module `TopModels`) holds `get_top_models`.

Loops in the source are `while`/`for` loops in the model. Each is proved equal to a
specification function, and the properties are proved about that function.

Where the code and the documented behaviour differ, the model follows the code:

- A second `update` on the same day **appends** to that day's list; it does not replace
  it (`DownloadDb.DownloadTrendDB.Update`).
- `SizeDB.update` with `start >= end` runs one batch, because the stop test at line 92 is
  an equality (`SizeDb.StartPastEndExample`). That batch runs on to a full batch, so a
  second `update` with the same arguments skips the ids now stored and estimates new ones
  (`SizeDb.SecondRunPastEnd`). Only with `start < end` does a second run submit nothing
  (`SizeDb.SecondRunIdle`).
- A model id listed twice in one day's list (after two same-day `update` runs) gets its
  later rank, which leaves a gap in the ranks (`QueryDb.DuplicateLeavesGap`).

## Model

| member | source | states |
|---|---|---|
| DownloadDb.SnapshotsFacts | hf_hub_stats/download_db.py:56-59 | a snapshot is recorded exactly for each listed model that has a download count, and never more snapshots than listed models |
| DownloadDb.ParseKeys | hf_hub_stats/download_db.py:42 | every key parses exactly when the list comprehension succeeds; on success the dates are the parsed keys one for one; on failure the error is the `ValueError` of a key that does not parse |
| DownloadDb.ParseKeysFirst | hf_hub_stats/download_db.py:42 | the comprehension raises on the first key that does not parse: the `ValueError` names that key and every key before it parses, so `dates`, `latest` and `prune` report the first bad key |
| DownloadDb.SortedDates | hf_hub_stats/download_db.py:38 | a parse failure is propagated; otherwise the result has one valid date per key, the same dates, in chronological order (a permutation of the parsed dates, by `SortedPermutes`) |
| DownloadDb.SortedPermutes | hf_hub_stats/download_db.py:38 | `sorted` permutes the parsed dates: as a multiset the result equals the parsed keys, so a day named by two keys such as `1-2-23` and `01-02-23` occurs twice |
| DownloadDb.FormatAll | hf_hub_stats/download_db.py:44 | the result formats each date in place |
| DownloadDb.SortedChronological | hf_hub_stats/download_db.py:38 | sorting by the date ordinal orders the dates by (year, month, day) |
| DownloadDb.SortedStrict | hf_hub_stats/download_db.py:38 | distinct dates sort into strictly chronological order |
| DownloadDb.StrictFormatted | hf_hub_stats/download_db.py:42-44 | strictly chronological dates format to distinct keys, each naming a day before every later one |
| DownloadDb.ValidInsert | hf_hub_stats/download_db.py:55 | assigning a key keeps the insertion order in step with the dictionary: a new key goes last, an existing one keeps its place |
| DownloadDb.UpdateKeepsCanonical | hf_hub_stats/download_db.py:53-55 | the key `update` writes is `strftime` output, so a store with canonical keys stays canonical |
| DownloadDb.CanonicalParse | hf_hub_stats/download_db.py:42-44 | with canonical keys every key parses, the dates are distinct, and formatting them gives back the keys in order |
| DownloadDb.CanonicalDates | hf_hub_stats/download_db.py:38-44 | with canonical keys the sorted dates are strictly chronological, and formatting them gives exactly the stored keys |
| DownloadDb.CanonicalSorted | hf_hub_stats/download_db.py:41-44 | with canonical keys `dates(sort=True)` lists every stored key exactly once, in strictly chronological order |
| DownloadDb.CanonicalNewest | hf_hub_stats/download_db.py:38-39 | with canonical keys the newest date, formatted, is a stored key |
| DownloadDb.NewestDate | hf_hub_stats/download_db.py:38-39 | the last sorted date, formatted, parses to a date that no key's date comes after |
| DownloadDb.PrunedNewer | hf_hub_stats/download_db.py:68-70 | deleting the first `m` of strictly ascending keys leaves exactly the others, and every deleted key names a day before every kept one |
| DownloadDb.SplitKeys | hf_hub_stats/download_db.py:69-70 | the first `m` of distinct stored keys are distinct and stored, and taking them out leaves exactly the rest |
| DownloadDb.OlderPair | hf_hub_stats/download_db.py:68-69 | a key among the first `m` of strictly ascending keys names a day before any later key |
| DownloadDb.Victims | hf_hub_stats/download_db.py:68-70 | the keys deleted are the first `len - max_records` formatted sorted dates, or all of them when `max_records` is negative |
| DownloadDb.DownloadTrendDB.constructor | hf_hub_stats/download_db.py:19-25 | the store starts from the loaded dictionary in file order, with the file as loaded |
| DownloadDb.DownloadTrendDB.Get | hf_hub_stats/download_db.py:28-29 | succeeds exactly for a stored key, returning its list; otherwise `KeyError(key)` |
| DownloadDb.DownloadTrendDB.Contains | hf_hub_stats/download_db.py:31-32 | true exactly for the keys a lookup finds |
| DownloadDb.DownloadTrendDB.Len | hf_hub_stats/download_db.py:34-35 | the number of stored dates |
| DownloadDb.DownloadTrendDB.Dates | hf_hub_stats/download_db.py:41-44 | fails with the comprehension's `ValueError` (for the first bad key, by `ParseKeysFirst`); otherwise one key per stored key, in insertion order (each reparsing to the same date) or in chronological order; with canonical keys it never fails, unsorted gives the stored order, and sorted lists every key once in strictly chronological order |
| DownloadDb.DownloadTrendDB.DatesUnsorted | hf_hub_stats/download_db.py:41-44 | when every key parses, `dates(sort=False)` is exactly the `strftime` form of each parsed key in insertion order, so an unpadded key such as `1-2-24` comes back as `01-02-24` |
| DownloadDb.KeyDatesFacts | hf_hub_stats/download_db.py:41-44 | `dates` over a list of keys: the parse failure is propagated; otherwise one key per input key, each reparsing to the same date when unsorted, and the formatted chronological sort when sorted |
| DownloadDb.KeyDatesCanonical | hf_hub_stats/download_db.py:41-44 | over the keys of a canonical store, `dates` succeeds, gives back the keys unchanged when unsorted, and lists every stored key once in strictly chronological order when sorted |
| DownloadDb.DownloadTrendDB.Latest | hf_hub_stats/download_db.py:37-39 | a parse failure is propagated; an empty store raises `IndexError`; any other failure is a `KeyError` (which key, and when, is stated by `LatestKey`) |
| DownloadDb.DownloadTrendDB.LatestKey | hf_hub_stats/download_db.py:37-39 | on a parsable non-empty store, `latest()` is the entry of the `strftime` form of the newest date when that key is stored, and otherwise `KeyError` naming that key, so a store holding only `1-2-23` fails with `KeyError('01-02-23')` |
| DownloadDb.DownloadTrendDB.LatestIsNewest | hf_hub_stats/download_db.py:37-39 | a successful `latest()` is the list of a stored key whose date no other key's date follows |
| DownloadDb.DownloadTrendDB.LatestCanonical | hf_hub_stats/download_db.py:37-39 | with canonical keys `latest()` succeeds exactly when the store is not empty |
| DownloadDb.DownloadTrendDB.Persist | hf_hub_stats/download_db.py:46-50 | the file receives the whole dictionary, one more write, and the store is left unchanged |
| DownloadDb.DownloadTrendDB.Update | hf_hub_stats/download_db.py:52-61 | today's key (`strftime` of `today`) maps to its old list, or `[]` when absent, extended by the snapshots of `all_models[start:min(end, len)]` with a download count, in order; every other date is unchanged; a new key goes last in the order; the result is persisted |
| DownloadDb.DownloadTrendDB.Prune | hf_hub_stats/download_db.py:63-71 | a parse failure or `max_records >= len` changes nothing and writes nothing; otherwise the victims are the first `len - max_records` sorted dates, deleted in turn: on success all are deleted and the file is written once; at the first victim that is not (or no longer) stored, `KeyError` names it, the victims before it are deleted and nothing is persisted; in both cases the surviving keys keep their insertion order and their lists; with canonical keys it always succeeds, exactly `max(max_records, 0)` dates remain, and every deleted date precedes every kept one |
| DownloadDb.DownloadTrendDB.DeleteOne | hf_hub_stats/download_db.py:70 | `del self.db[key]` removes exactly that key, from the dictionary and from the order, where the other keys keep their places |
| DownloadDb.DownloadTrendDB.DeleteNext | hf_hub_stats/download_db.py:69-70 | deleting the next victim, which is still stored, extends the deleted prefix by one |
| DownloadDb.DeletedPrefixStep | hf_hub_stats/download_db.py:69-70 | deleting the next victim, still stored, from a dictionary whose first victims are gone extends the deleted prefix: the victims stay distinct and stored before, the dictionary loses exactly them, and the survivors keep their insertion order |
| DownloadDb.DownloadTrendDB.DeleteKeys | hf_hub_stats/download_db.py:69-70 | the victims are deleted in turn up to the first that is not (or no longer) stored, where `KeyError` names it; the deleted ones are distinct and were stored; exactly they leave the dictionary, and the order is the old order without them; kept lists are unchanged; distinct stored victims always succeed |
| Dates.OrdinalOrder | hf_hub_stats/download_db.py:38-43 | on valid dates, the integer sort key orders exactly as `datetime` comparison does, and is injective |
| Dates.Find | hf_hub_stats/download_db.py:38 | returns the first position at or after `from` holding the separator, or none |
| Dates.Parse | hf_hub_stats/download_db.py:38-42 | a parsed date is a day `datetime` can represent |
| Dates.Format | hf_hub_stats/download_db.py:39-44 | `strftime` output is eight characters |
| Dates.ParseFormat | hf_hub_stats/download_db.py:39-44 | formatting a valid date and parsing it back gives the same date |
| Dates.FormatParse | hf_hub_stats/download_db.py:38-39 | a zero-padded key that parses formats back to itself |
| Dates.CanonicalIff | hf_hub_stats/download_db.py:38-39 | a key survives the parse/format round trip exactly when it is zero-padded and parses |
| Dates.FormatCanonical | hf_hub_stats/download_db.py:53 | every formatted date is a canonical key |
| Dates.FormatInjective | hf_hub_stats/download_db.py:44 | distinct valid dates format to distinct keys |
| Dates.UnpaddedKeyExample | hf_hub_stats/download_db.py:38-39 | `"1-2-24"` parses to 2 January 2024 but formats as `"01-02-24"`, so it is not canonical |
| Dates.ChronologicalExample | hf_hub_stats/download_db.py:38 | `"12-31-99"` (1999) precedes `"01-01-00"` (2000), and `12-02-23` precedes `02-03-24`: the order is not lexical |
| Dates.DayOfMonthExample | hf_hub_stats/download_db.py:38 | 29 February exists only in leap years; 30 February and 31 April do not exist |
| Sorting.InsertPermutes | hf_hub_stats/query_db.py:13-17 | inserting adds exactly that element, as a multiset |
| Sorting.InsertSorted | hf_hub_stats/query_db.py:13-17 | inserting into a sorted list keeps it sorted |
| Sorting.InsertStable | hf_hub_stats/query_db.py:13-17 | inserting keeps the relative order of elements that share a key |
| Sorting.SortByFacts | hf_hub_stats/query_db.py:13-17 | `sorted` returns a permutation of its input, ascending by key, with elements of equal key in input order |
| Sorting.SortByMembers | hf_hub_stats/query_db.py:13-17 | `sorted` keeps exactly the input's elements |
| Sorting.SortByStrict | hf_hub_stats/download_db.py:38 | with no two keys equal the output is strictly ascending |
| SizeDb.EstimateSize | hf_hub_stats/size_db.py:167-178 | success gives `(id, size, 0)`; `RuntimeError` gives `(id, 0, 2)`; any other exception gives `(id, 0, 1, message)`; so a nonzero code always has size 0 |
| SizeDb.Resolve | hf_hub_stats/size_db.py:100-110 | the stored result is the estimate without weights, or the `fallback=True` estimate when that one has code 2; code 2 remains only when both raise `RuntimeError` |
| SizeDb.Estimates | hf_hub_stats/size_db.py:99-110 | each submitted id maps to its resolved estimate, and nothing else is mapped |
| SizeDb.KeepsCached | hf_hub_stats/size_db.py:83-110 | storing estimates only for ids not yet stored leaves every stored entry as it was |
| SizeDb.StoreStep | hf_hub_stats/size_db.py:110 | storing one more estimate changes the store from its start exactly when it had changed before or this store changes it |
| SizeDb.BatchStep | hf_hub_stats/size_db.py:100-110 | storing the estimate of the next submitted id extends the stored estimates by it, and updates the change test |
| SizeDb.Uncached | hf_hub_stats/size_db.py:80-91 | a batch submits at most one id per visited model |
| SizeDb.UncachedFacts | hf_hub_stats/size_db.py:83-90 | every submitted id was not stored, and every visited model is stored or submitted |
| SizeDb.UncachedNone | hf_hub_stats/size_db.py:83 | a batch of stored models submits nothing |
| SizeDb.RunSnoc | hf_hub_stats/size_db.py:78-114 | one more batch extends the run, its submitted ids, and the index it has reached |
| SizeDb.BatchBound | hf_hub_stats/size_db.py:80 | no batch submits more than 32 estimations |
| SizeDb.BatchWithin | hf_hub_stats/size_db.py:91-93 | a batch that starts below `end` stops at `end` at the latest |
| SizeDb.RunBatchSizes | hf_hub_stats/size_db.py:73-80 | every batch of a run submits at most 32 ids |
| SizeDb.RunFresh | hf_hub_stats/size_db.py:83-90 | no batch submits an id stored before the run or submitted by an earlier batch |
| SizeDb.RunWithin | hf_hub_stats/size_db.py:77-114 | when `start < end` every batch stays within `[start, min(end, n))` |
| SizeDb.RunCovers | hf_hub_stats/size_db.py:77-114 | when `start < end` every visited model is stored afterwards, and a finished run has reached `min(end, n)` |
| SizeDb.RunIdle | hf_hub_stats/size_db.py:83-90 | over models that are all stored, a run submits nothing |
| SizeDb.SecondRunIdle | hf_hub_stats/size_db.py:72-114 | when `start < end`, a second `update` over the same list and range submits nothing, so it calls no estimator |
| SizeDb.RunAdvances | hf_hub_stats/size_db.py:78-91 | every batch moves the index past `start` |
| SizeDb.RunPastEndSingle | hf_hub_stats/size_db.py:113-114 | with `start >= end` a run has at most one batch |
| SizeDb.BatchCovers | hf_hub_stats/size_db.py:80-91 | after a batch every visited model is stored or was submitted |
| SizeDb.PassesStored | hf_hub_stats/size_db.py:80-93 | from `start >= end` a batch runs past every stored model, short of the end of the list |
| SizeDb.SecondRunPastEnd | hf_hub_stats/size_db.py:77-114 | with `start >= end`, a first run that stops before the list ends has one full batch of 32, and a second run submits the next new model |
| SizeDb.StartPastEndExample | hf_hub_stats/size_db.py:91-114 | from `start = end = 1` over three new models the one batch visits models 1 and 2, past `end` |
| SizeDb.SizeDB.constructor | hf_hub_stats/size_db.py:32-39 | the store starts clean, from the loaded dictionary |
| SizeDb.SizeDB.Get | hf_hub_stats/size_db.py:42-43 | succeeds exactly for a stored key, returning its entry; otherwise `KeyError(key)` |
| SizeDb.SizeDB.Contains | hf_hub_stats/size_db.py:45-46 | true exactly for the keys a lookup finds |
| SizeDb.SizeDB.Set | hf_hub_stats/size_db.py:51-62 | requires `key == result.model_id`; afterwards `key` maps to `result` and every other entry is unchanged; `dirty` becomes true when the key was new or its entry differed, and otherwise keeps its value |
| SizeDb.SizeDB.Persist | hf_hub_stats/size_db.py:64-70 | writes the file (one more write) only when dirty, and leaves the store clean either way |
| SizeDb.SizeDB.NextBatch | hf_hub_stats/size_db.py:79-93 | the inner loop stops at the first index where the list ends, the index equals `end`, or 32 ids are collected; the collected ids are the visited ids not stored |
| SizeDb.SizeDB.StoreOne | hf_hub_stats/size_db.py:101-110 | stores the resolved estimate of one id, with `dirty` set exactly when the entry changes |
| SizeDb.SizeDB.StoreBatch | hf_hub_stats/size_db.py:99-110 | stores the resolved estimate of each submitted id; `dirty` is set exactly when the store changed |
| SizeDb.SizeDB.Round | hf_hub_stats/size_db.py:79-112 | one round collects a batch, stores its resolved estimates and persists: the file then holds the store, written once more exactly when the store was dirty or the batch submitted ids |
| SizeDb.SizeDB.Step | hf_hub_stats/size_db.py:78-114 | one turn of the outer loop extends the run and the log of persisted files by one batch |
| SizeDb.SizeDB.Update | hf_hub_stats/size_db.py:72-114 | the batches form a finished run of the loop; the store gains exactly the resolved estimates of the submitted ids; every entry stored before is unchanged; the log records the file after every batch: each batch's file is the previous one plus its estimates, written exactly when the store was dirty; a run that submits anything writes the file; a run that submits nothing changes nothing |
| SizeDb.PersistedSnoc | hf_hub_stats/size_db.py:99-112 | the log of persisted files extends by what the next batch leaves behind |
| SizeDb.Busy | hf_hub_stats/size_db.py:83-112 | the number of batches that submitted ids, fewer than all when the first submitted none |
| SizeDb.PersistedTotals | hf_hub_stats/size_db.py:78-112 | after the last batch the file holds the base plus every submitted estimate, written once per batch that submitted ids, plus once for a store that was already dirty, so at least once when any id was submitted |
| SizeDb.PersistedFiles | hf_hub_stats/size_db.py:78-112 | after each batch the file holds the base plus every estimate submitted so far, and it is written at most once per batch |
| SizeDb.FreshChanges | hf_hub_stats/size_db.py:83-110 | estimates for ids not yet stored change the store exactly when there is at least one |
| QueryDb.Lookup | hf_hub_stats/query_db.py:31-34 | the store entry when there is one, otherwise the `fallback=True` estimate; a store keyed by id gives a result for the asked id |
| QueryDb.Judge | hf_hub_stats/query_db.py:36-49 | accepted without an extra slot exactly when the code is 0 and the size is in range; accepted with an extra slot exactly when the code is nonzero and `include_unsupported` is set; an accepted model keeps its looked-up size |
| QueryDb.AcceptedCount | hf_hub_stats/query_db.py:39-50 | every acceptance counts toward `limit` or opens an extra slot |
| QueryDb.FirstStop | hf_hub_stats/query_db.py:57-59 | the loop stops at the first point after an accepted model where `len(models) == limit + list_extra`, or at the end |
| QueryDb.AcceptedSnoc | hf_hub_stats/query_db.py:26-50 | visiting one more candidate appends it when accepted and counts its extra slot |
| QueryDb.StopsAfter | hf_hub_stats/query_db.py:58-59 | the loop stops after a candidate exactly when it was accepted and the target is met |
| QueryDb.FirstStopIs | hf_hub_stats/query_db.py:58-59 | the first index where the loop may stop is its stopping point |
| QueryDb.AcceptedPrefix | hf_hub_stats/query_db.py:26-59 | the models collected over a prefix of the candidates are a prefix of all acceptances |
| QueryDb.NoOvershoot | hf_hub_stats/query_db.py:50-59 | for `limit >= 1`, before the loop stops the models never exceed `limit` plus the extra slots |
| QueryDb.TakeFacts | hf_hub_stats/query_db.py:23-59 | the result is a prefix of the acceptances, non-empty when any candidate is accepted; a result cut short has exactly `limit + list_extra` models; for `limit >= 1` it never exceeds that, and at most `limit` models count toward it |
| QueryDb.AcceptedPositions | hf_hub_stats/query_db.py:26-50 | each acceptance is a candidate with an accepting verdict and its size, at strictly increasing positions |
| QueryDb.TakeSubsequence | hf_hub_stats/query_db.py:26-50 | the result is a subsequence of the candidates, each with an accepting verdict and its size |
| QueryDb.AcceptedHas | hf_hub_stats/query_db.py:50 | an accepted candidate is among the acceptances |
| QueryDb.TakeIncludes | hf_hub_stats/query_db.py:26-59 | every candidate accepted before the loop stops is in the result |
| QueryDb.TakeFirst | hf_hub_stats/query_db.py:58-59 | with no extra slots and `limit >= 1` the result is the first `limit` acceptances |
| QueryDb.NoExtras | hf_hub_stats/query_db.py:24-39 | no extra-slot verdict means `list_extra == 0` |
| QueryDb.TakeAllAccepted | hf_hub_stats/query_db.py:28-59 | when every candidate is accepted with size 0, the result is the first `limit` candidates, or all when `limit` is not in `1..n-1` |
| QueryDb.AllAccepted | hf_hub_stats/query_db.py:28-50 | when every candidate is accepted with size 0, the first `i` candidates are collected in order with no extra slot |
| QueryDb.Verdicts | hf_hub_stats/query_db.py:26-49 | one verdict per candidate, from its own model id |
| QueryDb.QueryTopModels | hf_hub_stats/query_db.py:7-63 | a missing date (`KeyError`) or a failing `latest()` is propagated; otherwise the result is the selection over `sorted(day, downloads descending)[start:min(end, len)]` |
| QueryDb.SelectStep | hf_hub_stats/query_db.py:26-59 | one turn of the loop updates the models and `list_extra` by the verdict, and stops exactly when the target is met |
| QueryDb.Decide | hf_hub_stats/query_db.py:27-49 | the branches on one candidate give its verdict |
| QueryDb.SelectTop | hf_hub_stats/query_db.py:23-59 | the loop returns exactly `Take` of the candidates and their verdicts |
| QueryDb.SelectionFacts | hf_hub_stats/query_db.py:26-50 | the result is a subsequence of the candidates; with sizes skipped each has size 0; otherwise each has its looked-up size, the store entry when present, and a code-0 model is in range |
| QueryDb.ReachedSelected | hf_hub_stats/query_db.py:26-50 | a candidate the loop reaches is selected when sizes are skipped, or it is in range with code 0, or it is unsupported and `include_unsupported` is set; an unsupported one opens an extra slot |
| QueryDb.SkipSizeSelection | hf_hub_stats/query_db.py:20-59 | with `min_size == 0` and `max_size == inf` the result is the first `limit` candidates with size 0, or all of them when `limit` is not in `1..n-1` |
| QueryDb.SelectionBound | hf_hub_stats/query_db.py:58-59 | for `limit >= 1` the result has at most `limit + list_extra` models, and at most `limit` of them count toward `limit` |
| QueryDb.TopModelsExample | hf_hub_stats/query_db.py:26-59 | `[A:100 unsupported, B:90 5B, C:80 3B]` with `limit = 1`, range `[0, 10]` and `include_unsupported` selects `[A, B]` |
| QueryDb.QueryModelSize | hf_hub_stats/query_db.py:66-76 | one result per id, in order: the store entry when present, else the `fallback=True` estimate; each result is for the asked id |
| QueryDb.Matching | hf_hub_stats/query_db.py:84-87 | never more results than snapshots |
| QueryDb.MatchingMembers | hf_hub_stats/query_db.py:84-87 | a snapshot is returned exactly when it is in the day's list and its id is asked for |
| QueryDb.MatchingPositions | hf_hub_stats/query_db.py:84-87 | the results are the day's snapshots at strictly increasing positions, and every position with an asked id is taken |
| Common.SetOf | hf_hub_stats/query_db.py:80 | `set(model_ids)` holds exactly the listed ids |
| QueryDb.QueryModelDownload | hf_hub_stats/query_db.py:79-90 | a missing date or a failing `latest()` is propagated; otherwise the day's snapshots with an asked id, in stored order |
| QueryDb.SizeInRange | hf_hub_stats/query_db.py:96-98 | true exactly when the looked-up result has code 0 and its size is in range |
| QueryDb.SnapshotIds | hf_hub_stats/query_db.py:122 | the model ids, one per snapshot, in order |
| QueryDb.Items | hf_hub_stats/query_db.py:119 | the selected models, in order |
| QueryDb.Marks | hf_hub_stats/query_db.py:115-121 | a model in range is accepted without extra slot; any other is skipped |
| QueryDb.TargetsFacts | hf_hub_stats/query_db.py:114-122 | for `limit >= 1` the targets are at most `limit` models, each in range with code 0, taken in order |
| QueryDb.TargetModels | hf_hub_stats/query_db.py:110-122 | the targets are the first `limit` models of the newest day with sizes skipped, otherwise the in-range models up to the `limit`-th |
| QueryDb.InRangeTargets | hf_hub_stats/query_db.py:114-121 | the loop returns the in-range models in order, stopping when `limit` are collected |
| QueryDb.Count | hf_hub_stats/query_db.py:136-142 | never more than the number of entries |
| QueryDb.RanksKeys | hf_hub_stats/query_db.py:137-141 | exactly the eligible models get a rank |
| QueryDb.RanksRange | hf_hub_stats/query_db.py:136-142 | ranks run from 1 to the number of eligible entries |
| QueryDb.RanksInjective | hf_hub_stats/query_db.py:136-142 | no two models share a rank |
| QueryDb.RankAt | hf_hub_stats/query_db.py:136-142 | with no id listed twice, an eligible entry's rank is one more than the number of eligible entries before it |
| QueryDb.RanksDense | hf_hub_stats/query_db.py:136-142 | with no id listed twice, every rank in `1..N` is taken |
| QueryDb.DuplicateLeavesGap | hf_hub_stats/query_db.py:141 | an id listed twice keeps its later rank, leaving rank 1 untaken |
| QueryDb.Eligibility | hf_hub_stats/query_db.py:139 | a model takes a rank when sizes are skipped or it is in range with code 0 |
| QueryDb.RanksSnoc | hf_hub_stats/query_db.py:137-142 | walking one more entry assigns the next rank to an eligible model |
| QueryDb.RankMap | hf_hub_stats/query_db.py:133-142 | the rank loop over a day's sorted snapshots builds exactly `Ranks` of the ids and their eligibility |
| QueryDb.Row | hf_hub_stats/query_db.py:144-148 | one cell per target: its rank that day, or `None` (`inf`) when it is unranked |
| QueryDb.RankRow | hf_hub_stats/query_db.py:144-148 | the loop fills exactly that row |
| QueryDb.Window | hf_hub_stats/query_db.py:125-129 | the last `max_history` dates when `0 < max_history < len(dates)`, otherwise all |
| QueryDb.RowsOutcome | hf_hub_stats/query_db.py:129-134 | the rows succeed exactly when every drawn date is stored; otherwise `KeyError` names a drawn date that is not stored |
| QueryDb.RowsContents | hf_hub_stats/query_db.py:129-148 | successful rows hold one row per drawn date: the row of that day's ranks |
| QueryDb.RowsFailure | hf_hub_stats/query_db.py:129-134 | a failure on a prefix of the window is the failure of the whole window |
| QueryDb.DownloadTrend | hf_hub_stats/query_db.py:96-148 | the computation returns exactly the targets and the row of every drawn date, or the first failure |
| QueryDb.TrendOver | hf_hub_stats/query_db.py:96-148 | once the sorted dates are known: `IndexError` when there are none, the newest day's lookup failure, otherwise the targets of the newest day and one row per drawn date, equal to `TrendFrom` |
| QueryDb.DrawnRows | hf_hub_stats/query_db.py:129-148 | the date loop returns exactly the rows, or the first `KeyError` |
| QueryDb.DayRanksFacts | hf_hub_stats/query_db.py:133-142 | a day's ranks go to exactly its eligible models, and run from 1 to at most the day's number of snapshots |
| QueryDb.TrendFacts | hf_hub_stats/query_db.py:107-148 | a computed trend has rows for exactly the drawn dates, all stored, and each row has one cell per target holding the target's rank that day (within `1..len(day)`) or `None` |
| QueryDb.TrendFromFacts | hf_hub_stats/query_db.py:107-148 | for given sorted dates, a computed trend has a row for exactly the drawn dates, each stored, with one cell per target holding its rank on that day in `1..len(day)` or `None` |
| QueryDb.TrendStored | hf_hub_stats/query_db.py:107-148 | with at least one sorted date and every one stored, the computation succeeds |
| QueryDb.TrendCanonical | hf_hub_stats/query_db.py:107-148 | on a non-empty store with canonical keys the computation succeeds |
| QueryDb.TrendEmpty | hf_hub_stats/query_db.py:107-110 | on an empty store it fails with `IndexError` (`dates[-1]`) |
| TopModels.HubFilter | hf_hub_stats/query_top_models.py:43-45 | `include_unsupported` is always on, with the given size range |
| TopModels.GetTopModels | hf_hub_stats/query_top_models.py:22-67 | the result is the selection over `all_models[start:min(end, len)]` in the order given, with no re-sort |
| TopModels.GetTopModelsFacts | hf_hub_stats/query_top_models.py:33-54 | the result is a subsequence of the slice; with sizes skipped each has size 0; otherwise each has its looked-up size, the store entry when present, and a code-0 model is in range |
| TopModels.UnsupportedSelected | hf_hub_stats/query_top_models.py:43-54 | every reached candidate with a nonzero code is selected and opens an extra slot |
| TopModels.GetTopModelsBound | hf_hub_stats/query_top_models.py:61-63 | for `limit >= 1` at most `limit + list_extra` models, and at most `limit` code-0 ones |
| TopModels.GetTopModelsSkipSize | hf_hub_stats/query_top_models.py:27-63 | with sizes skipped the result is the first `limit` models of the slice with size 0, or all when `limit` is not in `1..n-1` |
| Common.Cap | hf_hub_stats/query_db.py:25 | `min(end, n)` |
| Common.SliceBound | hf_hub_stats/query_db.py:25-26 | a slice bound counts from the end when negative, and is clipped to `0..n` |
| Common.Slice | hf_hub_stats/query_db.py:25-26 | `s[start:min(end, len)]`: the elements between the clipped bounds, or none when the stop is not past the start |
| Common.SliceNatural | hf_hub_stats/query_db.py:25-26 | on non-negative bounds the slice is the run from `start` to `min(end, len)` |
| Common.SliceTail | hf_hub_stats/query_db.py:25-26 | a negative `start` with `end = inf` keeps the last `-start` elements, or all of them |
| Common.Prefix | hf_hub_stats/query_db.py:112 | `s[:limit]`, including a negative `limit` counting from the end |
| Common.Remove | hf_hub_stats/download_db.py:70 | removes every occurrence of a key: exactly one element fewer when the key occurs once |
| Common.Without | hf_hub_stats/download_db.py:69-70 | the list without a set of keys, the rest in order |
| Common.WithoutNothing | hf_hub_stats/download_db.py:69-70 | taking out no keys leaves the list as it is |
| Common.RemoveWithout | hf_hub_stats/download_db.py:69-70 | taking out one more key after a set of keys is taking out the union, so deleting in turn keeps the survivors' insertion order |

## Left out

- SizeDb.SizeDB.constructor: requires the loaded file to be keyed (every entry stored under its own `model_id`). size_db.py:32-39 loads any file without checking; every file the program writes itself meets this, because `__setitem__` asserts it, but a hand-edited file need not.
- The thread pool and the completion order of `as_completed` (hf_hub_stats/size_db.py:75,100). `update` runs the estimations one after another, in submission order.
- The estimator (`get_param_in_b`, which loads models through transformers) is a function parameter. It is deterministic, so a second estimate of the same id gives the same result.
- JSON reading and writing. Loading is "start from a given dictionary". Writing copies the dictionary into a ghost snapshot and counts the write.
- `datetime.today()` is the `today` parameter of `DownloadDb.DownloadTrendDB.Update`.
- Every `print`, `print_model_in_md`, `SizeDB.draw_markdown`, the chart drawing in `draw_rank_chart`, and the `pd.DataFrame` construction. The rank table becomes a map from date to a list of ranks, with `None` for `inf`.
- `draw_size_trend`: float means and unit scaling.
- hf_hub_stats/query_hub.py (network listing and cache), hf_hub_stats/utils.py (charts) and hf_hub_stats/__main__.py (argument parsing) are not part of this model.
- QueryDb.SelectTop: the source assigns `model.size` on the snapshot object in place. The model returns each selected model paired with that size (`Picked`). It does not capture that a caller holding the same object sees the assignment.
- Sizes are `real` and are only compared. NaN is not modelled.
- QueryDb.Lookup: a model missing from the store is estimated again each time it is asked for. The store is not updated by a query, as in the source.
- SizeDb.SizeDB.Update: `start` is a `nat` and `end` an `Ext<nat>`. A negative `--start` or `--end` (argparse `type=int`) is not modelled for `update_size_db`: the index would then read `all_models[model_idx]` from the end of the list, or raise `IndexError`. The other commands take any integer bounds through `Common.Slice`.
- Dates.Parse: `strptime` is modelled for the `"%m-%d-%y"` format only. Only ASCII digits count as digits, and leading or trailing whitespace is rejected.
