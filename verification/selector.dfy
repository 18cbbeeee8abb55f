/** Survivor selection, `_mark_duplicates`: in every bucket of two or more
    records, all are marked for removal except the most recently modified
    one, the earliest of them on a tie. */
module Selector {
  import opened Wrappers
  import opened Sequences
  import opened StringOrder
  import opened Files

  /** `k` is the record to keep: no record of `b` was modified later, and every
      record before it was modified strictly earlier. */
  predicate IsFirstLatest(b: seq<Record>, k: int) {
    && 0 <= k < |b|
    && (forall j :: 0 <= j < |b| ==> !Less(b[k].modifiedTime, b[j].modifiedTime))
    && (forall j :: 0 <= j < k ==> Less(b[j].modifiedTime, b[k].modifiedTime))
  }

  /** Replacing the running candidate `k` by the later record `b[m]` keeps the
      candidate's two properties over `b[..m + 1]`. */
  lemma LatestStep(b: seq<Record>, m: nat, k: nat)
    requires k < m < |b|
    requires forall j :: 0 <= j < m ==> !Less(b[k].modifiedTime, b[j].modifiedTime)
    requires Less(b[k].modifiedTime, b[m].modifiedTime)
    ensures forall j :: 0 <= j < m ==> Less(b[j].modifiedTime, b[m].modifiedTime)
    ensures forall j :: 0 <= j <= m ==> !Less(b[m].modifiedTime, b[j].modifiedTime)
  {
    forall j | 0 <= j < m
      ensures Less(b[j].modifiedTime, b[m].modifiedTime)
      ensures !Less(b[m].modifiedTime, b[j].modifiedTime)
    {
      LessTotal(b[j].modifiedTime, b[k].modifiedTime);
      if b[j].modifiedTime != b[k].modifiedTime {
        LessTransitive(b[j].modifiedTime, b[k].modifiedTime, b[m].modifiedTime);
      }
      LessAsymmetric(b[j].modifiedTime, b[m].modifiedTime);
    }
    LessIrreflexive(b[m].modifiedTime);
  }

  /** The running candidate after the loop has seen `b[..n]`: it starts at the
      first record and moves only to a strictly later `modifiedTime`. */
  function LatestAmong(b: seq<Record>, n: nat): (k: nat)
    requires 0 < n <= |b|
    ensures k < n
    ensures forall j :: 0 <= j < n ==> !Less(b[k].modifiedTime, b[j].modifiedTime)
    ensures forall j :: 0 <= j < k ==> Less(b[j].modifiedTime, b[k].modifiedTime)
    decreases n
  {
    if n == 1 then
      LessIrreflexive(b[0].modifiedTime);
      0
    else
      var k := LatestAmong(b, n - 1);
      if Less(b[k].modifiedTime, b[n - 1].modifiedTime) then
        LatestStep(b, n - 1, k);
        n - 1
      else
        k
  }

  /** At most one position has the keeping property. */
  lemma FirstLatestUnique(b: seq<Record>, k: nat)
    requires IsFirstLatest(b, k)
    ensures forall i :: IsFirstLatest(b, i) <==> i == k
  {
    forall i | IsFirstLatest(b, i)
      ensures i == k
    {
      assert !Less(b[i].modifiedTime, b[k].modifiedTime);
      assert !Less(b[k].modifiedTime, b[i].modifiedTime);
    }
  }

  /** The survivor the scan picks. */
  function MostRecent(b: seq<Record>): (k: nat)
    requires |b| > 0
    ensures IsFirstLatest(b, k)
  {
    LatestAmong(b, |b|)
  }

  /** The record of a non-empty bucket that marking leaves unmarked: the scan's
      survivor, or the lone record of a single-record bucket. */
  function Survivor(b: seq<Record>): (k: nat)
    requires |b| > 0
    ensures k < |b|
  {
    if |b| > 1 then MostRecent(b) else 0
  }

  /** The marking of one bucket. */
  function MarkBucket(b: seq<Record>): (r: seq<Record>)
    ensures |r| == |b|
    ensures forall i :: 0 <= i < |b| ==> r[i].(toRemove := b[i].toRemove) == b[i]
    ensures |b| <= 1 ==> r == b
    ensures |b| > 1 ==> forall i :: 0 <= i < |b| ==> r[i].toRemove == Some(!IsFirstLatest(b, i))
  {
    if |b| <= 1 then b
    else
      var k := MostRecent(b);
      FirstLatestUnique(b, k);
      seq(|b|, i requires 0 <= i < |b| => b[i].(toRemove := Some(i != k)))
  }

  /** The loop as the program writes it: every record is marked on the way,
      the running latest moves on a strictly later time, and the final
      running latest is unmarked. It computes `MarkBucket`. */
  method MarkBucketLoop(b: seq<Record>) returns (r: seq<Record>)
    ensures r == MarkBucket(b)
  {
    r := b;
    if |b| > 1 {
      var latest := 0;
      LessIrreflexive(b[0].modifiedTime);
      var i := 0;
      while i < |b|
        invariant 0 <= i <= |b| && |r| == |b|
        invariant latest < |b|
        invariant latest == LatestAmong(b, if i == 0 then 1 else i)
        invariant forall j :: 0 <= j < |b| ==> r[j] == if j < i then b[j].(toRemove := Some(true)) else b[j]
      {
        assert LatestAmong(b, i + 1) == if Less(b[latest].modifiedTime, b[i].modifiedTime) then i else latest;
        r := r[i := b[i].(toRemove := Some(true))];
        if Less(b[latest].modifiedTime, b[i].modifiedTime) {
          latest := i;
        }
        i := i + 1;
      }
      r := r[latest := r[latest].(toRemove := Some(false))];
      UnmarkSurvivor(b, r, latest);
    }
  }

  /** All records marked but the scan's survivor, which is unmarked: that is
      the marking of the bucket. */
  lemma UnmarkSurvivor(b: seq<Record>, r: seq<Record>, k: nat)
    requires 1 < |b| && |r| == |b| && k == LatestAmong(b, |b|)
    requires r[k] == b[k].(toRemove := Some(false))
    requires forall j :: 0 <= j < |b| && j != k ==> r[j] == b[j].(toRemove := Some(true))
    ensures r == MarkBucket(b)
  {
    forall j | 0 <= j < |b|
      ensures r[j] == MarkBucket(b)[j]
    {
      MarkBucketAt(b, j);
    }
  }

  /** In a bucket of two or more, record `j` is marked exactly when it is not
      the scan's survivor. */
  lemma MarkBucketAt(b: seq<Record>, j: nat)
    requires 1 < |b| && j < |b|
    ensures MarkBucket(b)[j] == b[j].(toRemove := Some(j != MostRecent(b)))
  {
  }

  /** `_mark_duplicates` over the whole map: keys and bucket order stay. */
  function MarkDuplicates(m: HashMap): (r: HashMap)
    ensures |r| == |m|
    ensures forall i :: 0 <= i < |m| ==> r[i].hash == m[i].hash && |r[i].files| == |m[i].files|
    ensures forall i :: 0 <= i < |m| && |m[i].files| <= 1 ==> r[i] == m[i]
    ensures forall i, j :: 0 <= i < |m| && 0 <= j < |m[i].files| ==>
      r[i].files[j].(toRemove := m[i].files[j].toRemove) == m[i].files[j]
    ensures forall i, j :: 0 <= i < |m| && 1 < |m[i].files| && 0 <= j < |m[i].files| ==>
      r[i].files[j].toRemove == Some(!IsFirstLatest(m[i].files, j))
  {
    seq(|m|, i requires 0 <= i < |m| => m[i].(files := MarkBucket(m[i].files)))
  }

  /** The scan's survivor is the one position with the keeping property. */
  lemma MostRecentIsFirstLatest(b: seq<Record>, k: int)
    requires |b| > 0
    ensures IsFirstLatest(b, k) <==> k == MostRecent(b)
  {
    FirstLatestUnique(b, MostRecent(b));
  }

  /** In a bucket of two or more, marking leaves exactly one record kept, the
      scan's survivor, and every other record marked for removal. */
  lemma {:induction false} ExactlyOneSurvivor(b: seq<Record>)
    requires |b| > 1
    ensures Filter(MarkBucket(b), IsKept) == [MarkBucket(b)[MostRecent(b)]]
    ensures |Filter(MarkBucket(b), IsMarked)| == |b| - 1
  {
    var r := MarkBucket(b);
    var k := MostRecent(b);
    FirstLatestUnique(b, k);
    FilterSingle(r, IsKept, k);
    FilterComplementLength(r, IsKept, IsMarked);
  }

  /** Which record is kept depends only on the modification times. */
  lemma SameTimesSameSurvivor(b: seq<Record>, c: seq<Record>)
    requires |b| == |c|
    requires forall i :: 0 <= i < |b| ==> b[i].modifiedTime == c[i].modifiedTime
    ensures forall i :: IsFirstLatest(b, i) <==> IsFirstLatest(c, i)
  {
  }

  /** Marking a marked bucket again changes nothing. */
  lemma {:induction false} MarkBucketIdempotent(b: seq<Record>)
    ensures MarkBucket(MarkBucket(b)) == MarkBucket(b)
  {
    var r := MarkBucket(b);
    if |b| > 1 {
      SameTimesSameSurvivor(b, r);
      var r2 := MarkBucket(r);
      forall i | 0 <= i < |r|
        ensures r2[i] == r[i]
      {
        assert r2[i].toRemove == r[i].toRemove;
        assert r2[i].(toRemove := r[i].toRemove) == r[i];
      }
    }
  }

  /** `_mark_duplicates` is idempotent: a second pass yields the same markings. */
  lemma {:induction false} MarkDuplicatesIdempotent(m: HashMap)
    ensures MarkDuplicates(MarkDuplicates(m)) == MarkDuplicates(m)
  {
    var r := MarkDuplicates(m);
    var r2 := MarkDuplicates(r);
    forall i | 0 <= i < |m|
      ensures r2[i] == r[i]
    {
      MarkBucketIdempotent(m[i].files);
    }
  }
}
