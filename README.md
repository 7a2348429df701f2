# Latency analytics: per-region aggregation

A Dafny model of the `POST /api/` handler `analyze_latency` of a small
latency analytics service (`api/index.py`). The handler reads a fixed,
read-only list of telemetry records (`region`, `latency_ms`, `uptime_pct`)
and a request `{ "regions": [...], "threshold_ms": t }`. For each requested
region, in request order, it keeps the records of that region; if there are
any, it appends one entry with the mean latency, the nearest-rank 95th
percentile latency, the mean uptime and the number of latencies strictly
above the threshold. A region with no records gets no entry. A missing
`regions` key means an empty list; a missing `threshold_ms` means 180. A
matching record without `latency_ms` or `uptime_pct` raises a `KeyError`,
and the whole answer becomes `{"error": ...}` with no `regions` key.

Files:

- `wrappers.dfy` (module `Wrappers`): `Option`, for JSON keys that may be absent.
- `telemetry.dfy` (module `Telemetry`): the record type, the region filter
  `Matching` (line 47) and the field projection `Column` (lines 50-51).
- `statistics.dfy` (module `Statistics`): `Mean`, `SortAscending` (Python's
  `sorted`), `P95Index` and `P95` (lines 55-57), and `CountAbove` (the
  breach count, line 60), with their lemmas.
- `latency_api.dfy` (module `LatencyApi`): the request and response types.
  It has the specification `Analyze` and its parts `Entry` and `Aggregate`,
  and the handler loop `AnalyzeLatency`, which is proved to return
  `Analyze`'s answer.

Numbers are exact `real`s. The p95 index `int(0.95 * n)` is modelled as
`(95 * n) / 100`.

One might expect three things of such a service that the code does not do.
The model follows the code each time:

- One might expect a region without records to get a "Region not found"
  entry, so that the output has as many entries as the request has regions.
  The code has no `else` branch (line 49) and drops such regions. Here
  `Aggregate` states that the output is no longer than the request, and
  `AggregateLength` that it is as long only when every requested region has
  records.
- One might expect the p95 index to be clamped to `n - 1` when it reaches
  `n`. The code has no clamp (lines 56-57). `P95Index` proves the index is
  below `n` for every `n >= 1`, so no clamp is needed.
- One might expect an error answer to carry an empty `regions` list. The
  code returns only `{"error": ...}` (line 73). This is `Response.Error`.

## Model

| member | source | states |
|---|---|---|
| Telemetry.Matching | api/index.py:47 | every kept record has exactly the requested region, and the filter never has more records than the dataset |
| Telemetry.MatchingCounts | api/index.py:47 | every record of the region is kept as many times as it occurs in the dataset, and no record of another region is kept |
| Telemetry.MatchingEmptyIff | api/index.py:47-49 | the filtered list is empty (the `if region_data` test fails) exactly when no record of the dataset has that region |
| Telemetry.MatchingAppend | api/index.py:47 | filtering a concatenation gives the concatenation of the filtered parts, so dataset order is kept |
| Telemetry.MatchingIgnoresOtherRegion | api/index.py:47 | inserting or deleting a record of another region anywhere in the dataset leaves the filtered list unchanged |
| Telemetry.MatchingIdempotent | api/index.py:47 | filtering the filtered records again changes nothing |
| Telemetry.Column | api/index.py:50-51 | `[item[key] for item in ...]` fails exactly when some record lacks the key; otherwise it has one value per record, in order |
| Statistics.Sum | api/index.py:53-59 | `sum(...)` of the latencies and of the uptimes; `SumBounds` proves that a sum of n values in [lo, hi] lies in [n * lo, n * hi] |
| Statistics.Mean | api/index.py:53 | `sum / len` of a non-empty list lies between the list's minimum and maximum |
| Statistics.Insert | api/index.py:55 | inserting into a sorted list gives a sorted list with exactly one more copy of the value |
| Statistics.SortAscending | api/index.py:55 | `sorted` returns a sorted permutation of its input, of the same length |
| Statistics.SortedPairwise | api/index.py:55 | in a sorted list every earlier value is at most every later one |
| Statistics.SortedUnique | api/index.py:55 | two sorted lists holding the same values are equal, so the p95 value does not depend on how the list is sorted |
| Statistics.P95Index | api/index.py:56 | `int(0.95 * n)` is at most n, is below n whenever n >= 1 (the unclamped index is in range), and is positive from n = 2 on, so index 0, the smallest position, is used only for a region with a single record |
| Statistics.P95 | api/index.py:55-57 | p95 is one of the latencies, between the minimum and the maximum; at most n - 1 - i latencies lie above it and at most i below it, with i = P95Index(n) |
| Statistics.P95OfSorted | api/index.py:55-57 | on latencies that are already ascending, p95 is the value at index `int(0.95 * n)` |
| Statistics.P95OfOneToTwenty | api/index.py:55-57 | for the twenty latencies 1..20 the index is 19 and p95 is 20, the largest |
| Statistics.CountAbove | api/index.py:60 | the breach count is at most the number of latencies |
| Statistics.CountAboveZeroIff | api/index.py:60 | the breach count is 0 exactly when every latency is at most the threshold, so a latency equal to the threshold is not a breach |
| Statistics.CountAboveAllIff | api/index.py:60 | the breach count equals the number of latencies exactly when every latency is strictly above the threshold |
| Statistics.CountAboveAntitone | api/index.py:60 | raising the threshold never increases the breach count |
| Statistics.CountsOfPermutation | api/index.py:55-60 | the number of values above (or below) a bound does not depend on their order, so counting on the sorted or the unsorted list agrees |
| LatencyApi.Summarize | api/index.py:50-68 | the entry names the region; avg_latency and avg_uptime are the means of their columns and lie between the column's extremes; p95 is `P95` of the latencies, one of them, with the rank bounds above; breaches is `CountAbove` of the latencies, the number strictly above the threshold, at most n, and 0 exactly when no latency exceeds it |
| LatencyApi.AllFieldsPresentIff | api/index.py:44-51 | the request is readable as a whole exactly when each requested region's columns can be read |
| LatencyApi.RequestedRegions | api/index.py:41 | `request.get("regions", [])`; `Analyze` states that a request without `regions` is answered with an empty `regions` list |
| LatencyApi.Threshold | api/index.py:42 | `request.get("threshold_ms", 180)`; `DefaultThreshold` states that a request without it is answered as one with threshold 180 |
| LatencyApi.HasRecords | api/index.py:49 | the `if region_data` test; `MatchingEmptyIff` states that it fails exactly when no record of the dataset has the region |
| LatencyApi.FieldsPresentIff | api/index.py:50-51 | both columns of a region can be read exactly when no record of that region in the whole dataset lacks `latency_ms` or `uptime_pct` |
| LatencyApi.Entry | api/index.py:47-68 | a region gets an entry exactly when it has records; the entry carries the region's name and a breach count bounded by the region's record count |
| LatencyApi.EntryUsesOnlyItsRegion | api/index.py:47-68 | a region's entry computed from the whole dataset equals the one computed from that region's records alone |
| LatencyApi.EntryIgnoresOtherRegion | api/index.py:47 | adding or removing a record of another region changes neither whether the region's columns can be read nor the region's entry |
| LatencyApi.EntryList | api/index.py:47-68 | a region contributes one entry when it has records and none otherwise |
| LatencyApi.Aggregate | api/index.py:44-68 | the loop appends at most one entry per requested region |
| LatencyApi.AggregateLength | api/index.py:44-68 | there is one entry per requested region exactly when every requested region has records, and no entry exactly when none has |
| LatencyApi.PresentMembers | api/index.py:46-49 | a region is among those that pass the `if region_data` test exactly when it was requested and has records |
| LatencyApi.AggregatePresentLength | api/index.py:44-68 | the answer has exactly one entry per requested region that has records, duplicates counted |
| LatencyApi.AggregateSelectsAt | api/index.py:44-68 | entry k of the answer is the entry of the k-th requested region that has records |
| LatencyApi.AggregateSelects | api/index.py:44-68 | the k-th entry of the answer is the entry of the k-th requested region that has records, so entries come in request order, duplicates included |
| LatencyApi.AllFieldsPresentAppend | api/index.py:50-51 | if every record of the regions of two lists can be read, so can those of the concatenated list |
| LatencyApi.AggregateAppend | api/index.py:44-68 | the answer for a concatenation of region lists is the concatenation of the answers |
| LatencyApi.RepeatedRequestRepeatsEntries | api/index.py:44-68 | a request repeating its region list gets its entries twice |
| LatencyApi.AggregateIgnoresOtherRegion | api/index.py:47 | a record of a region no one asked for does not change any entry |
| LatencyApi.Analyze | api/index.py:40-73 | a successful answer has at most as many entries as requested regions, and a request without `regions` gets `{"regions": []}` |
| LatencyApi.AnalyzeFailsIff | api/index.py:50-73 | the answer is the error object exactly when some record of some requested region lacks `latency_ms` or `uptime_pct` |
| LatencyApi.DefaultThreshold | api/index.py:42 | a request without `threshold_ms` is answered like one with threshold 180 |
| LatencyApi.AnalyzeIgnoresOtherRegion | api/index.py:47 | a record of an unrequested region affects neither the entries nor whether the request fails, even if that record lacks fields |
| LatencyApi.AnalyzeLatency | api/index.py:39-73 | the handler's loop, which leaves early at the first unreadable field, returns exactly `Analyze`'s answer |

## Left out

- Decimal rounding: `round(..., 2)` for avg_latency and p95_latency and `round(..., 3)` for avg_uptime (lines 53, 57, 59) is not modelled. Entries hold the exact values before rounding.
- Floating-point arithmetic: sums and means are exact reals. `int(0.95 * n)` is modelled as `(95 * n) / 100`, so the float rounding of `0.95 * n` is not modelled.
- Loading the dataset (`load_data`, lines 19-28): the dataset is a parameter. On a load failure the service runs with an empty dataset (line 26), which here is the empty sequence.
- Dataset immutability and repeatability: the dataset is a Dafny `seq`, a value nobody can modify, and every operation is a deterministic function of its inputs. So "telemetry_data is not modified" and "identical requests give identical answers" hold by construction, and no lemma states them.
- The status endpoint `root` (lines 30-36), the FastAPI app, the CORS middleware and the route decorators (lines 7-16): framework wiring, not aggregation logic.
- The text of the error message (`str(e)`, line 73) and the `async` execution model.
- Wrongly typed payloads are not modelled. The request is typed: `regions` is absent or a list of strings, and `threshold_ms` is absent or a number. A string `regions` (iterated character by character), `null` or non-string region names, and non-numeric thresholds or field values are outside the model. Records are objects whose three keys may each be absent.
- LatencyApi.Entry: its own contract states only when an entry exists, its name and its breach bound. The values of the entry (the two means, p95 and the breach count) and their properties are stated by `LatencyApi.Summarize`, which Entry calls on the region's two columns.
