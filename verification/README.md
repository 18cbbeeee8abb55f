# Google Drive duplicate remover: the duplicate-resolution pipeline in Dafny

This project models the part of `main.py` that decides which files are
duplicates and what happens to them. The listing from Google Drive arrives
as one sequence of file records. The pipeline then:

1. **groups** the eligible records by `md5Checksum` into an insertion-ordered
   hash map (`Grouper`);
2. **marks** every record of a bucket of two or more for removal, then
   unmarks the most recently modified one. `modifiedTime` is compared as a
   Python string and the first record wins a tie (`Selector`);
3. **filters** the map into the removal-plan view and the removal-result
   view that the report writer receives (`Reports`);
4. **removes** the marked records. Each one gets a trash request that either
   succeeds and sets `removed`, or fails with an HTTP error and leaves the
   record as it was. Processing continues either way (`Remover`).

`Pipeline` composes the four stages into one run. `Scenarios` works through
concrete runs.

Modules and files:

- `wrappers.dfy`: `Option`, for keys that `dict.get` may find missing.
- `sequences.dfy`: order-preserving `Filter`, the shape of a list comprehension with an `if`.
- `string_order.dfy`: `Less`, Python's `str` ordering.
- `files.dfy`: `Record`, `Bucket`, `HashMap` (a `seq<Bucket>` with distinct keys, in dict insertion order), and lookup.
- `grouper.dfy`, `selector.dfy`, `reports.dfy`, `remover.dfy`: the four stages.
- `pipeline.dfy`, `scenarios.dfy`: whole runs.

The remote update call is an oracle `ok: string -> bool` from file id to
success. File ids are unique in a listing, so an oracle keyed by id can give
each request its own outcome.

## Model

| member | source | states |
|---|---|---|
| Grouper.Group | main.py:123-132 | The grouped map has distinct checksum keys, no empty bucket, and no more buckets than the listing has records. |
| Grouper.Add | main.py:124-132 | An ineligible record leaves the map unchanged. After an eligible record, its checksum is a key. The map gains at most one bucket, existing keys keep their positions, and distinct keys and non-empty buckets stay true. |
| Grouper.AddConserves | main.py:127-132 | One iteration adds the record to the map's contents exactly once when it is eligible, and adds nothing otherwise. |
| Grouper.GroupIsGrouping | main.py:123-132 | After the loop, keys are distinct. The bucket keyed `h` holds exactly the eligible records with checksum `h`, in listing order, and is non-empty. Every eligible checksum has a bucket. Buckets are ordered by the first occurrence of their checksum. |
| Grouper.GroupMembership | main.py:124-132 | A record lies in a bucket exactly when it is in the listing, has a checksum, has `trashed` exactly `False` and `ownedByMe` exactly `True`, and its checksum is that bucket's key. So no ineligible record is grouped, and an eligible record lies in one bucket only. |
| Grouper.GroupKeys | main.py:127-131 | A checksum is a key of the map exactly when some eligible record carries it. |
| Grouper.GroupConservesRecords | main.py:123-132 | Taken over all buckets, the grouping holds every eligible record exactly as many times as the listing does. Nothing is lost or duplicated. |
| Grouper.AddPreserves | main.py:127-132 | One iteration (skip, append to the existing list, or create a new list at the end) keeps the grouping description true. |
| StringOrder.LessIffFirstDifference | main.py:176 | The `>` on `modifiedTime` is lexicographic order: `a < b` exactly when, after a common prefix, `a` ends first or has the smaller code point. Both directions. |
| StringOrder.LessTransitive | main.py:176 | String order is transitive, which makes the running maximum of the loop a true maximum. |
| StringOrder.LessTotal | main.py:176 | Any two distinct strings are ordered one way or the other. |
| Selector.LatestAmong | main.py:173-177 | The running candidate after `n` records is not older than any of them, and is strictly newer than every record before it. Strict `>` never replaces on a tie. |
| Selector.MostRecent | main.py:173-177 | The scan's survivor is the first record with the greatest `modifiedTime`: no record is strictly later, and every record before it is strictly earlier. |
| Selector.FirstLatestUnique | main.py:173-178 | At most one record is newest with every earlier record strictly older, so the kept record is determined. |
| Selector.MostRecentIsFirstLatest | main.py:173-178 | The scan keeps the record at `k` exactly when `k` is the first record with the greatest `modifiedTime`. |
| Selector.MarkBucket | main.py:172-178 | A bucket of at most one record is returned unchanged. In a bigger bucket, each record's `toRemove` becomes `Some(false)` exactly for the first latest record and `Some(true)` for all others. No other field changes. |
| Selector.MarkBucketLoop | main.py:172-178 | The loop as written computes `MarkBucket`. It marks every record, moves the running latest on a strictly later time, and unmarks the last running latest. |
| Selector.ExactlyOneSurvivor | main.py:172-178 | In a bucket of two or more, exactly one record has `toRemove == Some(false)` (the survivor), and the other `n - 1` have `Some(true)`. |
| Selector.MarkDuplicates | main.py:167-178 | Over the map: keys and sizes are kept, single-record buckets are unchanged, larger buckets keep only their first latest record, and no field other than `toRemove` changes. |
| Selector.MarkBucketIdempotent | main.py:172-178 | Marking an already marked bucket changes nothing. |
| Selector.MarkDuplicatesIdempotent | main.py:167-178 | Running `_mark_duplicates` on its own output gives the same map. |
| Sequences.FilterIsSubsequence | main.py:189 | The list comprehension keeps its records in their original order. |
| Sequences.FilterCounts | main.py:189 | The comprehension keeps each selected record as often as it occurs, and nothing else. |
| Reports.View | main.py:188-191 | A view has at most as many buckets as the map, and each of its buckets is non-empty and keyed by a checksum of the map. |
| Reports.ForRemovalReport | main.py:186-191 | Read bucket by bucket, the removal-plan view is exactly the map's records with `toRemove` exactly `True`, in order. For a map with distinct keys, the view's keys are distinct, and under each checksum it holds that bucket's marked records, or nothing when there are none. |
| Reports.RemovedReport | main.py:197-202 | Read bucket by bucket, the removed view is exactly the map's records with `removed` exactly `True`, in order. For a map with distinct keys, the view's keys are distinct, and under each checksum it holds that bucket's removed records, or nothing when there are none. |
| Reports.ViewLookup | main.py:187-191 | For every checksum, the view's entry is the map's bucket under that checksum filtered by the view's flag, and the entry is absent when that filtered list is empty. |
| Reports.ViewDistinct | main.py:187-191 | A view of a map with distinct keys has distinct keys. |
| Reports.ViewKeysInOrder | main.py:188-191 | A view lists its checksums in the order of the map. |
| Reports.ViewFlatten | main.py:198-202 | Read bucket by bucket, a view is the filter of the whole map read the same way: exactly the flagged records, in order. |
| Remover.Trash | main.py:154-164 | An unmarked record is untouched. A marked record whose request succeeds gets `removed` set, and nothing else changes. A marked record whose request fails is unchanged. |
| Remover.RemoveFiles | main.py:153-164 | Every record of a bucket ends as its own outcome leaves it. The requests are the ids of the marked records, in order, including those after a failure. |
| Remover.RemoveDuplicates | main.py:152-164 | Keys and buckets are kept. Every bucket goes through the inner loop. The requests are the ids of all marked records in visiting order. |
| Remover.RequestsFollowPlan | main.py:152-159 | The trash requests are exactly the removal-plan view, one per record, in report order. |
| Remover.RemovalKeepsRemovedMarked | main.py:154-164 | If every removed record was marked before removal, the same holds after. |
| Remover.FailureIsolated | main.py:156-164 | Changing the server's answer for one id changes neither the request list nor any record with another id. |
| Remover.RemovedAreSuccesses | main.py:153-164 | Over records not flagged removed before, the records flagged removed after the inner loop are exactly the marked records whose request succeeded, in order, each with `removed` set to `True` and every other field unchanged. |
| Remover.RemovedReportListsSuccesses | main.py:160-164 | When nothing was flagged removed before, the removed view lists exactly the marked records whose request succeeded, in visiting order, each with `removed` set to `True` and every other field unchanged. |
| Pipeline.RunOnce | main.py:40-48 | The final map has the grouping's keys and bucket sizes, in order. The trash requests are the ids of the removal-plan report's records, in order. The removed report is exactly the final map's removed records, in order. |
| Pipeline.RunKeepsACopy | main.py:40-48 | For a listing with no status flags set, every bucket's survivor is after a run neither marked for removal nor flagged removed, so every bucket keeps a record not removed. |
| Pipeline.RunNeverRequestsSurvivor | main.py:152-164 | For a listing with no status flags set and no repeated file id, no trash request names the survivor of any bucket. |
| Pipeline.RunRemovesOnlyMarked | main.py:44-48 | After a run, `removed == True` implies `toRemove == True`. |
| Pipeline.RunResultIsAcceptedPlan | main.py:44-48 | A run's removed report lists exactly the planned records whose request the server accepted, in plan order, each with `removed` set to `True` and every other field unchanged. |
| Scenarios.GroupsByContent | main.py:123-132 | Records `a`, `b` with checksum `H1` and `c` with `H2` group as `{H1: [a, b], H2: [c]}`. |
| Scenarios.LaterCopyKept | main.py:173-178 | Of two copies, the later modified one is kept and the earlier one marked. |
| Scenarios.TieKeepsFirst | main.py:176-178 | Of two copies with equal `modifiedTime`, the first is kept and the second marked. |
| Scenarios.ThreeRecordRun | main.py:40-44 | On the three-record listing, `a` is marked, `b` is kept, and `c` is left as listed. |
| Scenarios.JanuaryBeforeJune | main.py:176 | `"2023-01-01T00:00:00Z" < "2023-06-01T00:00:00Z"` as Python strings. |
| Scenarios.EmptyListing | main.py:40-48 | An empty listing gives an empty map, empty reports and no requests. |
| Scenarios.FailedRemovalStaysPlanned | main.py:156-161 | A marked record whose request fails stays marked, is not flagged removed, was requested once, and is missing from the removed report. |

## Left out

- Credential loading, refresh and `token.json` persistence (main.py:51-78): file I/O and calls into the Google auth libraries.
- Paginated listing and the server-side MIME-type query (main.py:98-118, 133-134): network I/O. The model takes the listing as one already concatenated sequence of records, in page-arrival order.
- The real `files().update(...).execute()` call and its logging (main.py:155-163): replaced by the oracle `ok`. Exceptions other than `HttpError` would propagate and end the run; they are not modelled.
- Report file writing, directory creation, line rendering and the wall-clock `date` in file names (main.py:22, 182-183, 193-194, 204-219): file I/O and time. The model stops at the filtered maps that would be written. The candidate report is the grouped map itself.
- Logging configuration and the `__main__` entry (main.py:222-230).
- Field types: every field the listing may omit is an `Option` of the right type. A JSON value of another type (for example `trashed: 0`) is not representable. Python's `is False` / `is True` would reject such a value, and the model has no such value to reject.
- StringOrder.Less: Dafny's `char` is a Unicode scalar value, so strings holding lone surrogates, which a Python `str` can hold, are not modelled. Listing timestamps are ASCII.
- Remover.FailureIsolated: the oracle is keyed by file id. Two requests for the same id always get the same answer, which is exact only because ids are unique in a listing.
- Grouper.Group: its own contract states distinct keys, non-empty buckets and the bucket count. The full description of the grouping (bucket contents, order of keys) is the lemma Grouper.GroupIsGrouping, kept apart so that every use of `Group` does not carry it.
- Pipeline.RunKeepsACopy: states that the survivor record is kept. That the survivor's id is never requested is stated only for listings without repeated ids (Pipeline.RunNeverRequestsSurvivor). If a marked record shared the survivor's id, its request would trash the survivor's file on the server.
