/** `remove_duplicates_from_gdrive`: every record marked for removal gets one
    trash request; the request either succeeds, and the record is flagged
    removed, or fails with an HTTP error, and the record is left as it was.
    The remote update is an oracle `ok` from file id to success. */
module Remover {
  import opened Wrappers
  import opened Sequences
  import opened Files
  import opened Reports

  /** The records of a bucket after the inner loop, and the ids it asked the
      server to trash, in order. */
  datatype Trace = Trace(after: seq<Record>, requests: seq<string>)

  /** The map after the outer loop, and every trash request, in order. */
  datatype Outcome = Outcome(after: HashMap, requests: seq<string>)

  /** Whether the trash request for `f` is issued and succeeds. */
  function Succeeds(ok: string -> bool): Record -> bool {
    f => IsMarked(f) && ok(f.id)
  }

  /** One iteration of the inner loop on a record: an unmarked record is not
      requested; a marked one is, and a success sets `removed` while a failure
      leaves the record as it was. */
  function Trash(f: Record, ok: string -> bool): (g: Record)
    ensures g.(removed := f.removed) == f
    ensures IsRemoved(g) <==> IsRemoved(f) || Succeeds(ok)(f)
    ensures !Succeeds(ok)(f) ==> g == f
  {
    if IsMarked(f) then
      if ok(f.id) then f.(removed := Some(true)) else f
    else f
  }

  /** Whether the server would accept the trash request for `f`. */
  function Accepts(ok: string -> bool): Record -> bool {
    (f: Record) => ok(f.id)
  }

  /** The inner loop over one bucket: every marked record is requested, even
      after a failure, and each record ends as its own outcome leaves it. */
  function RemoveFiles(files: seq<Record>, ok: string -> bool): (t: Trace)
    ensures |t.after| == |files|
    ensures forall i :: 0 <= i < |files| ==> t.after[i] == Trash(files[i], ok)
    ensures t.requests == Ids(Filter(files, IsMarked))
  {
    if |files| == 0 then Trace([], [])
    else
      var rest := RemoveFiles(files[1..], ok);
      TrashCons(files, ok, rest.after);
      RequestsCons(files);
      Trace([Trash(files[0], ok)] + rest.after, Ids(if IsMarked(files[0]) then [files[0]] else []) + rest.requests)
  }

  /** The outcome of the first record, then those of the rest, are the
      outcomes of all records in order. */
  lemma TrashCons(files: seq<Record>, ok: string -> bool, rest: seq<Record>)
    requires |files| > 0 && |rest| == |files| - 1
    requires forall i :: 0 <= i < |rest| ==> rest[i] == Trash(files[1..][i], ok)
    ensures forall i :: 0 <= i < |files| ==> ([Trash(files[0], ok)] + rest)[i] == Trash(files[i], ok)
  {
    forall i | 0 < i < |files|
      ensures ([Trash(files[0], ok)] + rest)[i] == Trash(files[i], ok)
    {
      assert files[1..][i - 1] == files[i];
    }
  }

  /** The requests of a non-empty bucket: the first record's, if it is marked,
      then those of the rest. */
  lemma RequestsCons(files: seq<Record>)
    requires |files| > 0
    ensures Ids(Filter(files, IsMarked)) ==
      Ids(if IsMarked(files[0]) then [files[0]] else []) + Ids(Filter(files[1..], IsMarked))
  {
    FilterCons(files, IsMarked);
    IdsAppend(if IsMarked(files[0]) then [files[0]] else [], Filter(files[1..], IsMarked));
  }

  /** The outer loop over the buckets, in map order. */
  function RemoveDuplicates(m: HashMap, ok: string -> bool): (o: Outcome)
    ensures |o.after| == |m|
    ensures forall i :: 0 <= i < |m| ==>
      o.after[i].hash == m[i].hash && o.after[i].files == RemoveFiles(m[i].files, ok).after
    ensures o.requests == Ids(Filter(Flatten(m), IsMarked))
  {
    if |m| == 0 then Outcome([], [])
    else
      var t := RemoveFiles(m[0].files, ok);
      var rest := RemoveDuplicates(m[1..], ok);
      BucketsCons(m, ok, rest.after);
      RequestsAppend(m[0].files, Flatten(m[1..]));
      Outcome([Bucket(m[0].hash, t.after)] + rest.after, t.requests + rest.requests)
  }

  /** The first bucket's outcome, then those of the rest, are the outcomes of
      all buckets in order. */
  lemma BucketsCons(m: HashMap, ok: string -> bool, rest: HashMap)
    requires |m| > 0 && |rest| == |m| - 1
    requires forall i :: 0 <= i < |rest| ==>
      rest[i].hash == m[1..][i].hash && rest[i].files == RemoveFiles(m[1..][i].files, ok).after
    ensures var a := [Bucket(m[0].hash, RemoveFiles(m[0].files, ok).after)] + rest;
      forall i :: 0 <= i < |m| ==> a[i].hash == m[i].hash && a[i].files == RemoveFiles(m[i].files, ok).after
  {
    var a := [Bucket(m[0].hash, RemoveFiles(m[0].files, ok).after)] + rest;
    forall i | 0 < i < |m|
      ensures a[i].hash == m[i].hash && a[i].files == RemoveFiles(m[i].files, ok).after
    {
      assert a[i] == rest[i - 1] && m[1..][i - 1] == m[i];
    }
  }

  /** The requests for two sequences of records, one after the other. */
  lemma RequestsAppend(a: seq<Record>, b: seq<Record>)
    ensures Ids(Filter(a + b, IsMarked)) == Ids(Filter(a, IsMarked)) + Ids(Filter(b, IsMarked))
  {
    FilterAppend(a, b, IsMarked);
    IdsAppend(Filter(a, IsMarked), Filter(b, IsMarked));
  }

  /** The requests are exactly the removal plan: one per record of the
      removal-plan view, in the order the view lists them. */
  lemma RequestsFollowPlan(m: HashMap, ok: string -> bool)
    ensures RemoveDuplicates(m, ok).requests == Ids(Flatten(ForRemovalReport(m)))
  {
    ViewFlatten(m, IsMarked);
  }

  /** Removal keeps "removed implies marked" true. */
  lemma RemovalKeepsRemovedMarked(m: HashMap, ok: string -> bool)
    requires RemovedOnlyIfMarked(m)
    ensures RemovedOnlyIfMarked(RemoveDuplicates(m, ok).after)
  {
    var a := RemoveDuplicates(m, ok).after;
    forall i, j | 0 <= i < |a| && 0 <= j < |a[i].files| && IsRemoved(a[i].files[j])
      ensures IsMarked(a[i].files[j])
    {
      assert a[i].files == RemoveFiles(m[i].files, ok).after;
    }
  }

  /** Within one bucket, a record's outcome depends on the answer for its own id only. */
  lemma FailureIsolatedInBucket(files: seq<Record>, ok1: string -> bool, ok2: string -> bool, x: string)
    requires forall y :: y != x ==> ok1(y) == ok2(y)
    ensures forall j :: 0 <= j < |files| && files[j].id != x ==>
      RemoveFiles(files, ok1).after[j] == RemoveFiles(files, ok2).after[j]
  {
    var a1 := RemoveFiles(files, ok1).after;
    var a2 := RemoveFiles(files, ok2).after;
    forall j | 0 <= j < |files| && files[j].id != x
      ensures a1[j] == a2[j]
    {
      TrashSameAnswer(files[j], ok1, ok2);
    }
  }

  /** A record's outcome depends on the server's answer for its id only. */
  lemma TrashSameAnswer(f: Record, ok1: string -> bool, ok2: string -> bool)
    requires ok1(f.id) == ok2(f.id)
    ensures Trash(f, ok1) == Trash(f, ok2)
  {
  }

  /** A failure is confined to its own record: two runs whose servers answer
      alike for every id but `x` issue the same requests and leave every record
      with another id, in every bucket, in the same state. */
  lemma FailureIsolated(m: HashMap, ok1: string -> bool, ok2: string -> bool, x: string)
    requires forall y :: y != x ==> ok1(y) == ok2(y)
    ensures RemoveDuplicates(m, ok1).requests == RemoveDuplicates(m, ok2).requests
    ensures forall i, j :: 0 <= i < |m| && 0 <= j < |m[i].files| && m[i].files[j].id != x ==>
      RemoveDuplicates(m, ok1).after[i].files[j] == RemoveDuplicates(m, ok2).after[i].files[j]
  {
    var a1 := RemoveDuplicates(m, ok1).after;
    var a2 := RemoveDuplicates(m, ok2).after;
    forall i | 0 <= i < |m|
      ensures forall j :: 0 <= j < |m[i].files| && m[i].files[j].id != x ==> a1[i].files[j] == a2[i].files[j]
    {
      FailureIsolatedInBucket(m[i].files, ok1, ok2, x);
    }
  }

  /** Removing bucket by bucket is removing along the flattened map. */
  lemma {:induction false} RemoveFlattens(m: HashMap, ok: string -> bool)
    ensures Flatten(RemoveDuplicates(m, ok).after) == RemoveFiles(Flatten(m), ok).after
  {
    if |m| > 0 {
      RemoveFlattens(m[1..], ok);
      RemoveFilesAppend(m[0].files, Flatten(m[1..]), ok);
      var o := RemoveDuplicates(m, ok);
      assert o.after[0].files == RemoveFiles(m[0].files, ok).after;
      assert o.after[1..] == RemoveDuplicates(m[1..], ok).after;
    }
  }

  lemma RemoveFilesAppend(a: seq<Record>, b: seq<Record>, ok: string -> bool)
    ensures RemoveFiles(a + b, ok).after == RemoveFiles(a, ok).after + RemoveFiles(b, ok).after
  {
    var l := RemoveFiles(a + b, ok).after;
    var ta := RemoveFiles(a, ok).after;
    var tb := RemoveFiles(b, ok).after;
    assert |l| == |ta + tb|;
    forall i | 0 <= i < |l|
      ensures l[i] == (ta + tb)[i]
    {
      assert l[i] == Trash((a + b)[i], ok);
      if i < |a| {
        assert (a + b)[i] == a[i] && (ta + tb)[i] == ta[i];
      } else {
        assert (a + b)[i] == b[i - |a|] && (ta + tb)[i] == tb[i - |a|];
      }
    }
  }

  /** The records as a successful trash request leaves them: `removed` set
      to `True`, every other field as it was. */
  function AsRemoved(s: seq<Record>): (r: seq<Record>)
    ensures |r| == |s|
    ensures forall i :: 0 <= i < |s| ==> IsRemoved(r[i]) && r[i].(removed := s[i].removed) == s[i]
  {
    if |s| == 0 then [] else [s[0].(removed := Some(true))] + AsRemoved(s[1..])
  }

  /** On records not flagged removed before, the records flagged removed after
      are exactly those whose request succeeded, in order, each with `removed`
      set and nothing else changed. */
  lemma {:induction false} RemovedAreSuccesses(files: seq<Record>, ok: string -> bool)
    requires forall i :: 0 <= i < |files| ==> !IsRemoved(files[i])
    ensures Filter(RemoveFiles(files, ok).after, IsRemoved) == AsRemoved(Filter(files, Succeeds(ok)))
  {
    if |files| > 0 {
      RemovedAreSuccesses(files[1..], ok);
      var t := RemoveFiles(files, ok).after;
      var f := files[0];
      assert t[1..] == RemoveFiles(files[1..], ok).after;
      FilterCons(t, IsRemoved);
      FilterCons(files, Succeeds(ok));
      var rest := Filter(files[1..], Succeeds(ok));
      if Succeeds(ok)(f) {
        assert t[0] == f.(removed := Some(true));
        assert AsRemoved([f] + rest) == [f.(removed := Some(true))] + AsRemoved(rest) by {
          assert ([f] + rest)[1..] == rest;
        }
      } else {
        assert t[0] == f;
      }
    }
  }

  /** The removal-result view lists exactly the records whose trash request
      succeeded, in visiting order, each as the success left it, when nothing
      was flagged removed before. */
  lemma RemovedReportListsSuccesses(m: HashMap, ok: string -> bool)
    requires forall i :: 0 <= i < |Flatten(m)| ==> !IsRemoved(Flatten(m)[i])
    ensures Flatten(RemovedReport(RemoveDuplicates(m, ok).after)) == AsRemoved(Filter(Flatten(m), Succeeds(ok)))
  {
    var a := RemoveDuplicates(m, ok).after;
    ViewFlatten(a, IsRemoved);
    RemoveFlattens(m, ok);
    RemovedAreSuccesses(Flatten(m), ok);
  }
}
