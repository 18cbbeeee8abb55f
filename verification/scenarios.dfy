/** The worked examples of the remover's behaviour, on concrete records. */
module Scenarios {
  import opened Wrappers
  import opened Sequences
  import opened StringOrder
  import opened Files
  import opened Grouper
  import opened Selector
  import opened Reports
  import opened Remover
  import opened Pipeline

  const January := "2023-01-01T00:00:00Z"
  const June := "2023-06-01T00:00:00Z"

  /** An eligible listing record, as the listing returns it. */
  function Listed(id: string, md5: string, time: string): Record {
    Record(id, id, time, Some(md5), Some(false), Some(true), None, None)
  }

  /** Two records of one content are grouped together, in listing order,
      and a third record of another content gets its own bucket after them. */
  lemma {:induction false} GroupsByContent(early: string, late: string)
    ensures
      var a := Listed("a", "H1", early);
      var b := Listed("b", "H1", late);
      var c := Listed("c", "H2", early);
      Group([a, b, c]) == [Bucket("H1", [a, b]), Bucket("H2", [c])]
  {
    var a := Listed("a", "H1", early);
    var b := Listed("b", "H1", late);
    var c := Listed("c", "H2", early);
    GroupsTwoContents(a, b, c);
  }

  /** Two eligible records of one checksum followed by one of another. */
  lemma GroupsTwoContents(a: Record, b: Record, c: Record)
    requires Eligible(a) && Eligible(b) && Eligible(c)
    requires b.md5 == a.md5 && c.md5 != a.md5
    ensures Group([a, b, c]) == [Bucket(a.md5.value, [a, b]), Bucket(c.md5.value, [c])]
  {
    var m2 := [Bucket(a.md5.value, [a, b])];
    GroupOfThree(a, b, c);
    SameContentPair(a, b);
    AddsNew(m2, c);
    assert m2 + [Bucket(c.md5.value, [c])] == [Bucket(a.md5.value, [a, b]), Bucket(c.md5.value, [c])];
  }

  /** Two eligible records of one checksum share one bucket, in order. */
  lemma SameContentPair(a: Record, b: Record)
    requires Eligible(a) && Eligible(b) && b.md5 == a.md5
    ensures Add(Add([], a), b) == [Bucket(a.md5.value, [a, b])]
  {
    var m1 := [Bucket(a.md5.value, [a])];
    AddsNew([], a);
    assert [] + m1 == m1;
    AddsToExisting(m1, b, 0);
    assert [a] + [b] == [a, b];
  }

  /** Adding a record whose checksum is the key at `i`. */
  lemma AddsToExisting(m: HashMap, f: Record, i: nat)
    requires Eligible(f) && i < |m| && m[i].hash == f.md5.value
    requires forall j :: 0 <= j < i ==> m[j].hash != f.md5.value
    ensures Add(m, f) == m[i := Bucket(m[i].hash, m[i].files + [f])]
  {
    assert Find(m, f.md5.value) == Some(i);
  }

  /** Adding a record whose checksum has no bucket yet. */
  lemma AddsNew(m: HashMap, f: Record)
    requires Eligible(f) && forall j :: 0 <= j < |m| ==> m[j].hash != f.md5.value
    ensures Add(m, f) == m + [Bucket(f.md5.value, [f])]
  {
  }

  /** Of two copies, the later modified one is kept and the other marked. */
  lemma {:induction false} LaterCopyKept(a: Record, b: Record)
    requires Less(a.modifiedTime, b.modifiedTime)
    ensures MarkBucket([a, b]) == [a.(toRemove := Some(true)), b.(toRemove := Some(false))]
  {
    LessIrreflexive(b.modifiedTime);
    LessAsymmetric(a.modifiedTime, b.modifiedTime);
    assert IsFirstLatest([a, b], 1);
    FirstLatestUnique([a, b], 1);
  }

  /** Two copies with the same modification time: the first one is kept. */
  lemma {:induction false} TieKeepsFirst(x: Record, y: Record)
    requires x.modifiedTime == y.modifiedTime
    ensures MarkBucket([x, y]) == [x.(toRemove := Some(false)), y.(toRemove := Some(true))]
  {
    LessIrreflexive(x.modifiedTime);
    assert IsFirstLatest([x, y], 0);
    FirstLatestUnique([x, y], 0);
  }

  lemma JanuaryBeforeJune()
    ensures Less(January, June)
  {
    assert January[..6] == June[..6];
    LessFromWitness(January, June, 6);
  }

  /** The whole selection on a three-record listing, `a` and `b` sharing a
      checksum and `b` modified later (as `June` is after `January`): `b` is
      kept, `a` is marked, `c` is left as it was listed. */
  lemma ThreeRecordRun(early: string, late: string)
    requires Less(early, late)
    ensures
      var a := Listed("a", "H1", early);
      var b := Listed("b", "H1", late);
      var c := Listed("c", "H2", early);
      MarkDuplicates(Group([a, b, c])) ==
        [Bucket("H1", [a.(toRemove := Some(true)), b.(toRemove := Some(false))]), Bucket("H2", [c])]
  {
    var a := Listed("a", "H1", early);
    var b := Listed("b", "H1", late);
    var c := Listed("c", "H2", early);
    GroupsByContent(early, late);
    LaterCopyKept(a, b);
    var marked := MarkDuplicates([Bucket("H1", [a, b]), Bucket("H2", [c])]);
    assert marked[0] == Bucket("H1", MarkBucket([a, b]));
    assert marked[1] == Bucket("H2", [c]);
  }

  /** An empty listing: no buckets, empty reports, no requests. */
  lemma EmptyListing(ok: string -> bool)
    ensures RunOnce([], ok) == Run([], [], [], [], [])
  {
  }

  /** A marked record whose trash request fails stays marked, stays unflagged
      as removed, is still requested, and is absent from the result view. */
  lemma {:induction false} FailedRemovalStaysPlanned(r: Record, ok: string -> bool)
    requires IsMarked(r) && r.removed.None? && !ok(r.id)
    ensures
      var o := RemoveDuplicates([Bucket("H", [r])], ok);
      && o.after == [Bucket("H", [r])]
      && o.requests == [r.id]
      && RemovedReport(o.after) == []
  {
    var o := RemoveDuplicates([Bucket("H", [r])], ok);
    assert o.after[0].files == RemoveFiles([r], ok).after;
    assert Flatten([Bucket("H", [r])]) == [r];
    assert Filter([r], IsMarked) == [r];
    assert Filter([r], IsRemoved) == [];
  }
}
