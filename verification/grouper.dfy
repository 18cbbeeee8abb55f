/** Bucketing the listing by checksum: the grouping loop of
    `fetch_files_from_gdrive`, over an already concatenated listing. */
module Grouper {
  import opened Wrappers
  import opened Sequences
  import opened Files

  /** Whether a record passes the grouping filter and carries checksum `h`. */
  function HasHash(h: string): Record -> bool {
    f => Eligible(f) && f.md5 == Some(h)
  }

  /** One iteration of the loop: an ineligible record is skipped, an eligible
      one is appended to the list of its checksum, which is created at the end
      of the map when the checksum is new. */
  function Add(m: HashMap, f: Record): (r: HashMap)
    ensures !Eligible(f) ==> r == m
    ensures Eligible(f) ==> f.md5.value in Keys(r)
    ensures |m| <= |r| <= |m| + 1
    ensures forall i :: 0 <= i < |m| ==> r[i].hash == m[i].hash
    ensures DistinctKeys(m) ==> DistinctKeys(r)
    ensures (forall i :: 0 <= i < |m| ==> |m[i].files| > 0) ==> forall i :: 0 <= i < |r| ==> |r[i].files| > 0
  {
    if !Eligible(f) then m
    else
      var h := f.md5.value;
      match Find(m, h)
      case Some(i) =>
        var r := m[i := Bucket(h, m[i].files + [f])];
        assert Keys(r)[i] == h;
        assert forall j :: 0 <= j < |r| ==> r[j].hash == m[j].hash;
        SameKeysDistinct(m, r);
        r
      case None =>
        var r := m + [Bucket(h, [f])];
        assert Keys(r)[|m|] == h;
        assert forall j :: 0 <= j < |m| ==> r[j] == m[j];
        NewKeyDistinct(m, Bucket(h, [f]));
        r
  }

  /** The hash map after the loop has seen every record of `files`, in order.
      What each bucket holds is stated by `GroupIsGrouping`. */
  function Group(files: seq<Record>): (r: HashMap)
    ensures |r| <= |files|
    ensures DistinctKeys(r)
    ensures forall i :: 0 <= i < |r| ==> |r[i].files| > 0
    decreases |files|
  {
    if |files| == 0 then []
    else Add(Group(files[..|files| - 1]), files[|files| - 1])
  }

  /** The loop's first three iterations. */
  lemma GroupOfThree(a: Record, b: Record, c: Record)
    ensures Group([a, b, c]) == Add(Add(Add([], a), b), c)
  {
    calc {
      Group([a, b, c]);
      { assert [a, b] + [c] == [a, b, c]; GroupStep([a, b], c); }
      Add(Group([a, b]), c);
      { assert [a] + [b] == [a, b]; GroupStep([a], b); }
      Add(Add(Group([a]), b), c);
      { assert [] + [a] == [a]; GroupStep([], a); }
      Add(Add(Add([], a), b), c);
    }
  }

  /** The loop's next iteration: grouping one more record is adding it. */
  lemma GroupStep(files: seq<Record>, f: Record)
    ensures Group(files + [f]) == Add(Group(files), f)
  {
    assert (files + [f])[..|files|] == files;
  }

  /** Position of the first record of `files` that belongs under `h`, or `|files|`. */
  function FirstIndex(files: seq<Record>, h: string): (r: nat)
    ensures r <= |files|
    ensures r < |files| ==> HasHash(h)(files[r])
    ensures forall j :: 0 <= j < r ==> !HasHash(h)(files[j])
  {
    if |files| == 0 then 0
    else if HasHash(h)(files[0]) then 0
    else 1 + FirstIndex(files[1..], h)
  }

  /** What the grouping of `files` is, stated without the loop: keys are
      distinct; the bucket keyed `h` holds exactly the eligible records with
      checksum `h`, in listing order, and is never empty; every eligible
      checksum has a bucket; and buckets are ordered by where their checksum
      first occurs. */
  ghost predicate GroupedBy(m: HashMap, files: seq<Record>) {
    DistinctKeys(m) && BucketsMatch(m, files) && Covers(m, files) && FirstSeenOrder(m, files)
  }

  ghost predicate BucketsMatch(m: HashMap, files: seq<Record>) {
    forall i :: 0 <= i < |m| ==> m[i].files == Filter(files, HasHash(m[i].hash)) && |m[i].files| > 0
  }

  ghost predicate Covers(m: HashMap, files: seq<Record>) {
    forall k :: 0 <= k < |files| && Eligible(files[k]) ==> files[k].md5.value in Keys(m)
  }

  ghost predicate FirstSeenOrder(m: HashMap, files: seq<Record>) {
    forall i, j :: 0 <= i < j < |m| ==> FirstIndex(files, m[i].hash) < FirstIndex(files, m[j].hash)
  }

  lemma {:induction false} FirstIndexAppend(files: seq<Record>, f: Record, h: string)
    ensures FirstIndex(files + [f], h) ==
      if FirstIndex(files, h) < |files| then FirstIndex(files, h)
      else if HasHash(h)(f) then |files| else |files| + 1
  {
    if |files| == 0 {
      assert files + [f] == [f];
    } else {
      assert (files + [f])[1..] == files[1..] + [f];
      FirstIndexAppend(files[1..], f, h);
    }
  }

  /** A non-empty filter exhibits a record of `files` that belongs under `h`. */
  lemma FirstIndexOfBucket(files: seq<Record>, h: string)
    requires |Filter(files, HasHash(h))| > 0
    ensures FirstIndex(files, h) < |files|
  {
    var x := Filter(files, HasHash(h))[0];
    assert x in files;
    var k :| 0 <= k < |files| && files[k] == x;
    assert HasHash(h)(files[k]);
  }

  /** Appending `f` to the listing appends it to the filter of its own checksum only. */
  lemma FilterStep(files: seq<Record>, f: Record, h: string)
    ensures Filter(files + [f], HasHash(h)) == Filter(files, HasHash(h)) + (if HasHash(h)(f) then [f] else [])
  {
    FilterAppend(files, [f], HasHash(h));
    assert Filter([f], HasHash(h)) == (if HasHash(h)(f) then [f] else []) + Filter([f][1..], HasHash(h));
  }

  /** Facts about the existing buckets that every step needs. */
  lemma OldBuckets(m: HashMap, files: seq<Record>, f: Record)
    requires BucketsMatch(m, files)
    ensures forall i :: 0 <= i < |m| ==> FirstIndex(files, m[i].hash) < |files|
    ensures forall i :: 0 <= i < |m| ==> FirstIndex(files + [f], m[i].hash) == FirstIndex(files, m[i].hash)
  {
    forall i | 0 <= i < |m|
      ensures FirstIndex(files, m[i].hash) < |files|
      ensures FirstIndex(files + [f], m[i].hash) == FirstIndex(files, m[i].hash)
    {
      FirstIndexOfBucket(files, m[i].hash);
      FirstIndexAppend(files, f, m[i].hash);
    }
  }

  lemma AddSkips(m: HashMap, files: seq<Record>, f: Record)
    requires GroupedBy(m, files) && !Eligible(f)
    ensures GroupedBy(Add(m, f), files + [f])
  {
    var files' := files + [f];
    forall i | 0 <= i < |m|
      ensures m[i].files == Filter(files', HasHash(m[i].hash))
    {
      FilterStep(files, f, m[i].hash);
    }
    OldBuckets(m, files, f);
    forall k | 0 <= k < |files'| && Eligible(files'[k])
      ensures files'[k].md5.value in Keys(m)
    {
      assert k < |files| && files'[k] == files[k];
    }
  }

  /** The map after appending `f` to the existing bucket at `i`. */
  lemma AppendsMatch(m: HashMap, files: seq<Record>, f: Record, i: nat)
    requires DistinctKeys(m) && BucketsMatch(m, files) && Eligible(f) && i < |m| && m[i].hash == f.md5.value
    ensures BucketsMatch(m[i := Bucket(m[i].hash, m[i].files + [f])], files + [f])
  {
    var m' := m[i := Bucket(m[i].hash, m[i].files + [f])];
    forall j | 0 <= j < |m'|
      ensures m'[j].files == Filter(files + [f], HasHash(m'[j].hash))
    {
      FilterStep(files, f, m[j].hash);
      if j == i {
        assert HasHash(m[i].hash)(f);
      }
    }
  }

  lemma AppendsCover(m: HashMap, files: seq<Record>, f: Record, i: nat)
    requires Covers(m, files) && Eligible(f) && i < |m| && m[i].hash == f.md5.value
    ensures Covers(m[i := Bucket(m[i].hash, m[i].files + [f])], files + [f])
  {
    var m' := m[i := Bucket(m[i].hash, m[i].files + [f])];
    assert Keys(m') == Keys(m);
    var files' := files + [f];
    forall k | 0 <= k < |files'| && Eligible(files'[k])
      ensures files'[k].md5.value in Keys(m')
    {
      if k < |files| {
        assert files'[k] == files[k];
      } else {
        assert Keys(m')[i] == f.md5.value;
      }
    }
  }

  lemma AppendsOrder(m: HashMap, files: seq<Record>, f: Record, i: nat)
    requires BucketsMatch(m, files) && FirstSeenOrder(m, files) && i < |m|
    ensures FirstSeenOrder(m[i := Bucket(m[i].hash, m[i].files + [f])], files + [f])
  {
    OldBuckets(m, files, f);
  }

  lemma AddAppends(m: HashMap, files: seq<Record>, f: Record, i: nat)
    requires GroupedBy(m, files) && Eligible(f) && Find(m, f.md5.value) == Some(i)
    ensures GroupedBy(Add(m, f), files + [f])
  {
    assert Add(m, f) == m[i := Bucket(m[i].hash, m[i].files + [f])];
    AppendsMatch(m, files, f, i);
    AppendsCover(m, files, f, i);
    AppendsOrder(m, files, f, i);
  }

  /** A checksum without a bucket has no record in the listing so far. */
  lemma NewHashUnseen(m: HashMap, files: seq<Record>, h: string)
    requires BucketsMatch(m, files) && Covers(m, files)
    requires forall j :: 0 <= j < |m| ==> m[j].hash != h
    ensures FirstIndex(files, h) == |files|
    ensures Filter(files, HasHash(h)) == []
  {
    if |Filter(files, HasHash(h))| > 0 {
      FirstIndexOfBucket(files, h);
    }
  }

  lemma CreatesMatch(m: HashMap, files: seq<Record>, f: Record)
    requires BucketsMatch(m, files) && Covers(m, files) && Eligible(f)
    requires forall j :: 0 <= j < |m| ==> m[j].hash != f.md5.value
    ensures BucketsMatch(m + [Bucket(f.md5.value, [f])], files + [f])
  {
    var h := f.md5.value;
    var m' := m + [Bucket(h, [f])];
    NewHashUnseen(m, files, h);
    forall j | 0 <= j < |m'|
      ensures m'[j].files == Filter(files + [f], HasHash(m'[j].hash))
    {
      FilterStep(files, f, m'[j].hash);
    }
  }

  lemma CreatesCover(m: HashMap, files: seq<Record>, f: Record)
    requires Covers(m, files) && Eligible(f)
    ensures Covers(m + [Bucket(f.md5.value, [f])], files + [f])
  {
    var m' := m + [Bucket(f.md5.value, [f])];
    var files' := files + [f];
    forall k | 0 <= k < |files'| && Eligible(files'[k])
      ensures files'[k].md5.value in Keys(m')
    {
      if k < |files| {
        assert files'[k] == files[k];
        var i :| 0 <= i < |m| && Keys(m)[i] == files[k].md5.value;
        assert Keys(m')[i] == files[k].md5.value;
      } else {
        assert Keys(m')[|m|] == f.md5.value;
      }
    }
  }

  lemma CreatesOrder(m: HashMap, files: seq<Record>, f: Record)
    requires BucketsMatch(m, files) && Covers(m, files) && FirstSeenOrder(m, files) && Eligible(f)
    requires forall j :: 0 <= j < |m| ==> m[j].hash != f.md5.value
    ensures FirstSeenOrder(m + [Bucket(f.md5.value, [f])], files + [f])
  {
    var h := f.md5.value;
    NewHashUnseen(m, files, h);
    FirstIndexAppend(files, f, h);
    OldBuckets(m, files, f);
  }

  lemma AddCreates(m: HashMap, files: seq<Record>, f: Record)
    requires GroupedBy(m, files) && Eligible(f) && Find(m, f.md5.value).None?
    ensures GroupedBy(Add(m, f), files + [f])
  {
    assert Add(m, f) == m + [Bucket(f.md5.value, [f])];
    CreatesMatch(m, files, f);
    CreatesCover(m, files, f);
    CreatesOrder(m, files, f);
  }

  /** One step of the loop keeps the description true. */
  lemma AddPreserves(m: HashMap, files: seq<Record>, f: Record)
    requires GroupedBy(m, files)
    ensures GroupedBy(Add(m, f), files + [f])
  {
    if !Eligible(f) {
      AddSkips(m, files, f);
    } else {
      match Find(m, f.md5.value)
      case Some(i) => AddAppends(m, files, f, i);
      case None => AddCreates(m, files, f);
    }
  }

  /** The loop computes the grouping the description promises. */
  lemma {:induction false} GroupIsGrouping(files: seq<Record>)
    ensures GroupedBy(Group(files), files)
    decreases |files|
  {
    if |files| > 0 {
      var prefix := files[..|files| - 1];
      var f := files[|files| - 1];
      assert prefix + [f] == files;
      GroupIsGrouping(prefix);
      GroupStep(prefix, f);
      AddPreserves(Group(prefix), prefix, f);
    }
  }

  /** Each bucket holds exactly the eligible records of its checksum. Since the
      keys are distinct, an eligible record lies in the bucket of its own
      checksum and in no other. */
  lemma GroupMembership(files: seq<Record>)
    ensures forall i, f :: 0 <= i < |Group(files)| ==>
      (f in Group(files)[i].files <==> f in files && Eligible(f) && f.md5 == Some(Group(files)[i].hash))
  {
    GroupIsGrouping(files);
    var g := Group(files);
    forall i, f | 0 <= i < |g|
      ensures f in g[i].files <==> f in files && HasHash(g[i].hash)(f)
    {
      var r := Filter(files, HasHash(g[i].hash));
      if f in r {
        var j :| 0 <= j < |r| && r[j] == f;
      }
      if f in files && HasHash(g[i].hash)(f) {
        var j :| 0 <= j < |files| && files[j] == f;
      }
    }
  }

  /** When no two listing records share an id, an id names at most one
      position of the grouping. */
  lemma IdNamesOnePosition(files: seq<Record>, m: HashMap, i: nat, j: nat, i2: nat, j2: nat)
    requires DistinctKeys(m) && BucketsMatch(m, files) && DistinctIds(files)
    requires i < |m| && j < |m[i].files| && i2 < |m| && j2 < |m[i2].files|
    ensures m[i].files[j].id == m[i2].files[j2].id ==> i == i2 && j == j2
  {
    var x := m[i].files[j];
    var y := m[i2].files[j2];
    assert x in files && HasHash(m[i].hash)(x);
    assert y in files && HasHash(m[i2].hash)(y);
    SameIdSameRecord(files, x, y);
    FilterDistinctIds(files, HasHash(m[i].hash));
  }

  /** The keys are exactly the checksums of the eligible records. */
  lemma GroupKeys(files: seq<Record>, h: string)
    ensures h in Keys(Group(files)) <==> exists k :: 0 <= k < |files| && HasHash(h)(files[k])
  {
    GroupIsGrouping(files);
    var g := Group(files);
    if h in Keys(g) {
      var i :| 0 <= i < |g| && Keys(g)[i] == h;
      FirstIndexOfBucket(files, h);
      assert HasHash(h)(files[FirstIndex(files, h)]);
    }
    if exists k :: 0 <= k < |files| && HasHash(h)(files[k]) {
      var k :| 0 <= k < |files| && HasHash(h)(files[k]);
      assert files[k].md5.value == h;
    }
  }

  lemma FlattenAppendBucket(m: HashMap, b: Bucket)
    ensures Flatten(m + [b]) == Flatten(m) + b.files
  {
    if |m| == 0 {
      assert m + [b] == [b];
    } else {
      assert (m + [b])[1..] == m[1..] + [b];
      FlattenAppendBucket(m[1..], b);
    }
  }

  lemma {:induction false} FlattenGrowBucket(m: HashMap, i: nat, f: Record)
    requires i < |m|
    ensures multiset(Flatten(m[i := Bucket(m[i].hash, m[i].files + [f])])) == multiset(Flatten(m)) + multiset{f}
  {
    var m' := m[i := Bucket(m[i].hash, m[i].files + [f])];
    assert Flatten(m) == m[0].files + Flatten(m[1..]);
    assert Flatten(m') == m'[0].files + Flatten(m'[1..]);
    if i > 0 {
      assert m'[0] == m[0];
      assert m'[1..] == m[1..][i - 1 := Bucket(m[i].hash, m[i].files + [f])];
      FlattenGrowBucket(m[1..], i - 1, f);
    } else {
      assert m'[1..] == m[1..];
      assert m'[0].files == m[0].files + [f];
      assert multiset(m'[0].files) == multiset(m[0].files) + multiset{f};
    }
  }

  /** One iteration adds its record to the map exactly once, when eligible,
      and loses none. */
  lemma AddConserves(m: HashMap, f: Record)
    ensures multiset(Flatten(Add(m, f))) == multiset(Flatten(m)) + (if Eligible(f) then multiset{f} else multiset{})
  {
    if Eligible(f) {
      match Find(m, f.md5.value)
      case Some(i) => FlattenGrowBucket(m, i, f);
      case None => FlattenAppendBucket(m, Bucket(f.md5.value, [f]));
    }
  }

  /** Grouping neither loses nor duplicates a record: across all buckets it
      holds every eligible record exactly as often as the listing does. */
  lemma {:induction false} GroupConservesRecords(files: seq<Record>)
    ensures multiset(Flatten(Group(files))) == multiset(Filter(files, Eligible))
    decreases |files|
  {
    if |files| > 0 {
      var n := |files| - 1;
      GroupConservesRecords(files[..n]);
      ConservesStep(Group(files[..n]), files);
    }
  }

  /** One iteration keeps the records of the map equal, as a multiset, to the
      eligible records seen so far. */
  lemma ConservesStep(g: HashMap, files: seq<Record>)
    requires |files| > 0
    requires multiset(Flatten(g)) == multiset(Filter(files[..|files| - 1], Eligible))
    ensures multiset(Flatten(Add(g, files[|files| - 1]))) == multiset(Filter(files, Eligible))
  {
    var n := |files| - 1;
    var f := files[n];
    var last := if Eligible(f) then [f] else [];
    var seen := Filter(files[..n], Eligible);
    FilterSnoc(files, Eligible);
    calc {
      multiset(Flatten(Add(g, f)));
      { AddConserves(g, f); }
      multiset(Flatten(g)) + multiset(last);
      multiset(seen) + multiset(last);
      multiset(seen + last);
    }
  }
}
