/** One run of `main` after the listing: group, mark, remove, with the three
    report views taken where the program writes its reports. */
module Pipeline {
  import opened Wrappers
  import opened Sequences
  import opened StringOrder
  import opened Files
  import opened Grouper
  import opened Selector
  import opened Reports
  import opened Remover

  /** What a run leaves behind: the candidate view, the removal plan, the
      removal result, the final map and the trash requests issued. */
  datatype Run = Run(
    candidates: HashMap,
    plan: HashMap,
    result: HashMap,
    final: HashMap,
    requests: seq<string>)

  /** `main` after the listing: the candidates are the grouping, the plan is
      the marked map's removal-plan view, and the result is the removed view
      of the map the remover leaves. */
  function RunOnce(files: seq<Record>, ok: string -> bool): (r: Run)
    ensures |r.final| == |r.candidates|
    ensures forall i :: 0 <= i < |r.final| ==>
      r.final[i].hash == r.candidates[i].hash && |r.final[i].files| == |r.candidates[i].files|
    ensures r.requests == Ids(Flatten(r.plan))
    ensures Flatten(r.result) == Filter(Flatten(r.final), IsRemoved)
  {
    var grouped := Group(files);
    var marked := MarkDuplicates(grouped);
    var removal := RemoveDuplicates(marked, ok);
    Run(grouped, ForRemovalReport(marked), RemovedReport(removal.after), removal.after, removal.requests)
  }

  /** Records of the grouping come from the listing. */
  lemma GroupedFromListing(files: seq<Record>, i: nat, j: nat)
    requires i < |Group(files)| && j < |Group(files)[i].files|
    ensures Group(files)[i].files[j] in files
  {
    GroupIsGrouping(files);
  }

  /** Grouping listing records yields non-empty buckets of unflagged records. */
  lemma GroupedUnflagged(files: seq<Record>)
    requires forall k :: 0 <= k < |files| ==> Unflagged(files[k])
    ensures forall i :: 0 <= i < |Group(files)| ==> |Group(files)[i].files| > 0
    ensures forall i, j :: 0 <= i < |Group(files)| && 0 <= j < |Group(files)[i].files| ==>
      Unflagged(Group(files)[i].files[j])
  {
    var g := Group(files);
    forall i, j | 0 <= i < |g| && 0 <= j < |g[i].files|
      ensures Unflagged(g[i].files[j])
    {
      GroupedFromListing(files, i, j);
    }
  }

  /** Marking and then removing a non-empty bucket of unflagged records leaves
      its survivor neither marked nor removed. */
  lemma BucketKeepsACopy(b: seq<Record>, ok: string -> bool)
    requires |b| > 0
    requires forall j :: 0 <= j < |b| ==> Unflagged(b[j])
    ensures !IsMarked(MarkBucket(b)[Survivor(b)])
    ensures !IsMarked(RemoveFiles(MarkBucket(b), ok).after[Survivor(b)])
    ensures !IsRemoved(RemoveFiles(MarkBucket(b), ok).after[Survivor(b)])
  {
    var marked := MarkBucket(b);
    var k := Survivor(b);
    assert !IsMarked(marked[k]);
    assert RemoveFiles(marked, ok).after[k] == Trash(marked[k], ok);
  }

  /** Marking and removing over a map of non-empty buckets of unflagged
      records keeps every bucket's survivor, so a copy in every bucket. */
  lemma {:induction false} MarkThenRemoveKeepsACopy(g: HashMap, ok: string -> bool)
    requires forall i :: 0 <= i < |g| ==> |g[i].files| > 0
    requires forall i, j :: 0 <= i < |g| && 0 <= j < |g[i].files| ==> Unflagged(g[i].files[j])
    ensures forall i :: 0 <= i < |g| ==>
      !IsMarked(RemoveDuplicates(MarkDuplicates(g), ok).after[i].files[Survivor(g[i].files)]) &&
      !IsRemoved(RemoveDuplicates(MarkDuplicates(g), ok).after[i].files[Survivor(g[i].files)])
    ensures KeepsACopy(RemoveDuplicates(MarkDuplicates(g), ok).after)
  {
    var marked := MarkDuplicates(g);
    var fin := RemoveDuplicates(marked, ok).after;
    forall i | 0 <= i < |fin|
      ensures !IsMarked(fin[i].files[Survivor(g[i].files)]) && !IsRemoved(fin[i].files[Survivor(g[i].files)])
      ensures HasCopy(fin[i].files)
    {
      BucketKeepsACopy(g[i].files, ok);
      assert marked[i].files == MarkBucket(g[i].files);
      assert fin[i].files == RemoveFiles(MarkBucket(g[i].files), ok).after;
    }
  }

  /** After a run, a record is flagged removed only if it was marked for removal. */
  lemma RunRemovesOnlyMarked(files: seq<Record>, ok: string -> bool)
    requires forall k :: 0 <= k < |files| ==> Unflagged(files[k])
    ensures RemovedOnlyIfMarked(RunOnce(files, ok).final)
  {
    var g := Group(files);
    var marked := MarkDuplicates(g);
    GroupedUnflagged(files);
    forall i, j | 0 <= i < |marked| && 0 <= j < |marked[i].files|
      ensures !IsRemoved(marked[i].files[j])
    {
      assert marked[i].files[j].removed == g[i].files[j].removed;
    }
    RemovalKeepsRemovedMarked(marked, ok);
  }

  /** The run keeps the survivor of every bucket: it is neither marked nor
      removed in the final map, so every content keeps a copy that is not
      removed. */
  lemma {:induction false} RunKeepsACopy(files: seq<Record>, ok: string -> bool)
    requires forall k :: 0 <= k < |files| ==> Unflagged(files[k])
    ensures forall i :: 0 <= i < |Group(files)| ==>
      (|Group(files)[i].files| > 0 &&
       !IsMarked(RunOnce(files, ok).final[i].files[Survivor(Group(files)[i].files)]) &&
       !IsRemoved(RunOnce(files, ok).final[i].files[Survivor(Group(files)[i].files)]))
    ensures KeepsACopy(RunOnce(files, ok).final)
  {
    GroupedUnflagged(files);
    MarkThenRemoveKeepsACopy(Group(files), ok);
  }

  /** When no two listing records share an id, no trash request names a
      bucket's survivor, so the server never trashes the kept copy. */
  lemma RunNeverRequestsSurvivor(files: seq<Record>, ok: string -> bool)
    requires forall k :: 0 <= k < |files| ==> Unflagged(files[k])
    requires DistinctIds(files)
    ensures forall i :: 0 <= i < |Group(files)| ==>
      (|Group(files)[i].files| > 0 &&
       Group(files)[i].files[Survivor(Group(files)[i].files)].id !in RunOnce(files, ok).requests)
  {
    GroupIsGrouping(files);
    GroupedUnflagged(files);
    SurvivorsNotRequested(files, Group(files), ok);
  }

  /** Over a grouping of a listing with distinct ids: no trash request names
      a bucket's survivor. */
  lemma SurvivorsNotRequested(files: seq<Record>, g: HashMap, ok: string -> bool)
    requires DistinctKeys(g) && BucketsMatch(g, files) && DistinctIds(files)
    requires forall i, j :: 0 <= i < |g| && 0 <= j < |g[i].files| ==> Unflagged(g[i].files[j])
    ensures forall i :: 0 <= i < |g| ==>
      (Survivor(g[i].files) < |g[i].files| &&
       g[i].files[Survivor(g[i].files)].id !in RemoveDuplicates(MarkDuplicates(g), ok).requests)
  {
    var marked := MarkDuplicates(g);
    var plan := Filter(Flatten(marked), IsMarked);
    assert RemoveDuplicates(marked, ok).requests == Ids(plan);
    MarkingKeepsIds(g);
    forall i | 0 <= i < |g|
      ensures g[i].files[Survivor(g[i].files)].id !in Ids(plan)
    {
      SurvivorNotInPlan(files, g, i);
    }
  }

  /** Marking changes no record's position or id. */
  lemma MarkingKeepsIds(g: HashMap)
    ensures |MarkDuplicates(g)| == |g|
    ensures forall i :: 0 <= i < |g| ==> |MarkDuplicates(g)[i].files| == |g[i].files|
    ensures forall i, j :: 0 <= i < |g| && 0 <= j < |g[i].files| ==>
      MarkDuplicates(g)[i].files[j].id == g[i].files[j].id
  {
    var marked := MarkDuplicates(g);
    forall i, j | 0 <= i < |g| && 0 <= j < |g[i].files|
      ensures marked[i].files[j].id == g[i].files[j].id
    {
      assert marked[i].files[j].(toRemove := g[i].files[j].toRemove) == g[i].files[j];
    }
  }

  /** One bucket's survivor is absent from the removal plan's ids. */
  lemma SurvivorNotInPlan(files: seq<Record>, g: HashMap, i: nat)
    requires DistinctKeys(g) && BucketsMatch(g, files) && DistinctIds(files)
    requires forall i, j :: 0 <= i < |g| && 0 <= j < |g[i].files| ==> Unflagged(g[i].files[j])
    requires i < |g|
    ensures g[i].files[Survivor(g[i].files)].id !in Ids(Filter(Flatten(MarkDuplicates(g)), IsMarked))
  {
    var marked := MarkDuplicates(g);
    var plan := Filter(Flatten(marked), IsMarked);
    var k := Survivor(g[i].files);
    MarkingKeepsIds(g);
    assert !IsMarked(MarkBucket(g[i].files)[k]) by {
      BucketKeepsACopy(g[i].files, x => true);
    }
    assert marked[i].files == MarkBucket(g[i].files);
    forall q | 0 <= q < |plan|
      ensures plan[q].id != g[i].files[k].id
    {
      SurvivorNotPlanned(files, g, marked, i, k, plan[q]);
    }
  }

  /** A marked record of the marked map does not share its id with a bucket's
      unmarked survivor, when listing ids are distinct. */
  lemma SurvivorNotPlanned(files: seq<Record>, g: HashMap, marked: HashMap, i: nat, k: nat, x: Record)
    requires DistinctKeys(g) && BucketsMatch(g, files) && DistinctIds(files)
    requires |marked| == |g|
    requires forall i :: 0 <= i < |g| ==> |marked[i].files| == |g[i].files|
    requires forall i, j :: 0 <= i < |g| && 0 <= j < |g[i].files| ==> marked[i].files[j].id == g[i].files[j].id
    requires i < |g| && k < |g[i].files| && !IsMarked(marked[i].files[k])
    requires x in Flatten(marked) && IsMarked(x)
    ensures x.id != g[i].files[k].id
  {
    var t :| 0 <= t < |Flatten(marked)| && Flatten(marked)[t] == x;
    FlattenElement(marked, t);
    var i2, j2 :| 0 <= i2 < |marked| && 0 <= j2 < |marked[i2].files| && Flatten(marked)[t] == marked[i2].files[j2];
    IdNamesOnePosition(files, g, i, k, i2, j2);
  }

  /** Marking leaves `removed` as it was: a map with nothing flagged removed
      gives a marked map, read bucket after bucket, with nothing flagged removed. */
  lemma MarkedNotRemoved(g: HashMap)
    requires forall i, j :: 0 <= i < |g| && 0 <= j < |g[i].files| ==> !IsRemoved(g[i].files[j])
    ensures forall k :: 0 <= k < |Flatten(MarkDuplicates(g))| ==> !IsRemoved(Flatten(MarkDuplicates(g))[k])
  {
    var marked := MarkDuplicates(g);
    forall k | 0 <= k < |Flatten(marked)|
      ensures !IsRemoved(Flatten(marked)[k])
    {
      FlattenElement(marked, k);
      var i, j :| 0 <= i < |marked| && 0 <= j < |marked[i].files| && Flatten(marked)[k] == marked[i].files[j];
      assert marked[i].files[j].removed == g[i].files[j].removed;
    }
  }

  /** The removal-result view lists exactly the planned records whose request
      the server accepted, in plan order, each with `removed` set and nothing
      else changed. */
  lemma RunResultIsAcceptedPlan(files: seq<Record>, ok: string -> bool)
    requires forall k :: 0 <= k < |files| ==> Unflagged(files[k])
    ensures Flatten(RunOnce(files, ok).result) == AsRemoved(Filter(Flatten(RunOnce(files, ok).plan), Accepts(ok)))
  {
    var marked := MarkDuplicates(Group(files));
    GroupedUnflagged(files);
    MarkedNotRemoved(Group(files));
    RemovedReportListsSuccesses(marked, ok);
    assert Flatten(RunOnce(files, ok).plan) == Filter(Flatten(marked), IsMarked);
    FilterFilter(Flatten(marked), IsMarked, Accepts(ok), Succeeds(ok));
  }
}
