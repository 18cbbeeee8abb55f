/** The filtered maps that `_produce_files_for_removal_report` and
    `_produce_files_removed_report` hand to the report writer. */
module Reports {
  import opened Wrappers
  import opened Sequences
  import opened Files

  /** Each bucket reduced to the records satisfying `p`, in order; a bucket
      left empty is dropped. */
  function View(m: HashMap, p: Record -> bool): (v: HashMap)
    ensures |v| <= |m|
    ensures forall i :: 0 <= i < |v| ==> |v[i].files| > 0 && v[i].hash in Keys(m)
  {
    if |m| == 0 then []
    else
      var kept := Filter(m[0].files, p);
      (if |kept| > 0 then [Bucket(m[0].hash, kept)] else []) + View(m[1..], p)
  }

  /** The removal-plan view: records whose `to_remove` is exactly `True`. */
  function ForRemovalReport(m: HashMap): (r: HashMap)
    ensures Flatten(r) == Filter(Flatten(m), IsMarked)
    ensures DistinctKeys(m) ==> DistinctKeys(r)
    ensures DistinctKeys(m) ==> forall h :: Lookup(r, h) == Restricted(Lookup(m, h), IsMarked)
  {
    ViewFlatten(m, IsMarked);
    ViewLookupAll(m, IsMarked);
    View(m, IsMarked)
  }

  /** The removal-result view: records whose `removed` is exactly `True`. */
  function RemovedReport(m: HashMap): (r: HashMap)
    ensures Flatten(r) == Filter(Flatten(m), IsRemoved)
    ensures DistinctKeys(m) ==> DistinctKeys(r)
    ensures DistinctKeys(m) ==> forall h :: Lookup(r, h) == Restricted(Lookup(m, h), IsRemoved)
  {
    ViewFlatten(m, IsRemoved);
    ViewLookupAll(m, IsRemoved);
    View(m, IsRemoved)
  }

  /** What a view holds under a checksum: the filtered bucket, or nothing when
      the filter leaves it empty. */
  function Restricted(b: Option<seq<Record>>, p: Record -> bool): (r: Option<seq<Record>>)
    ensures r.Some? ==> b.Some? && |r.value| > 0
  {
    match b
    case None => None
    case Some(files) => if |Filter(files, p)| > 0 then Some(Filter(files, p)) else None
  }

  /** Every checksum at once: `ViewLookup`, and distinct keys, for a map with distinct keys. */
  lemma ViewLookupAll(m: HashMap, p: Record -> bool)
    ensures DistinctKeys(m) ==> DistinctKeys(View(m, p))
    ensures DistinctKeys(m) ==> forall h :: Lookup(View(m, p), h) == Restricted(Lookup(m, h), p)
  {
    if DistinctKeys(m) {
      ViewDistinct(m, p);
      forall h
        ensures Lookup(View(m, p), h) == Restricted(Lookup(m, h), p)
      {
        ViewLookup(m, p, h);
      }
    }
  }

  /** A view of a map with distinct keys has distinct keys. */
  lemma {:induction false} ViewDistinct(m: HashMap, p: Record -> bool)
    requires DistinctKeys(m)
    ensures DistinctKeys(View(m, p))
  {
    if |m| > 0 {
      var rest := View(m[1..], p);
      ViewDistinct(m[1..], p);
      var kept := Filter(m[0].files, p);
      if |kept| > 0 {
        var v := [Bucket(m[0].hash, kept)] + rest;
        assert View(m, p) == v;
        forall i | 0 <= i < |rest|
          ensures rest[i].hash != m[0].hash
        {
          var j :| 0 <= j < |m[1..]| && Keys(m[1..])[j] == rest[i].hash;
          assert m[1..][j].hash == m[j + 1].hash;
        }
      } else {
        assert View(m, p) == rest;
      }
    }
  }

  /** A view holds, under every checksum, exactly the filtered bucket of the
      map, or nothing when that is empty. */
  lemma {:induction false} ViewLookup(m: HashMap, p: Record -> bool, h: string)
    requires DistinctKeys(m)
    ensures Lookup(View(m, p), h) == Restricted(Lookup(m, h), p)
  {
    if |m| > 0 {
      var rest := View(m[1..], p);
      var kept := Filter(m[0].files, p);
      if m[0].hash != h {
        calc {
          Lookup(View(m, p), h);
          { ViewLookupSkipsHead(m, p, h); }
          Lookup(rest, h);
          { ViewLookup(m[1..], p, h); }
          Restricted(Lookup(m[1..], h), p);
          { LookupTail(m, h); }
          Restricted(Lookup(m, h), p);
        }
      } else if |kept| > 0 {
        LookupCons(Bucket(m[0].hash, kept), rest, h);
      } else {
        HeadKeyNotInTail(m);
        assert h !in Keys(rest);
        LookupMissing(rest, h);
      }
    }
  }

  lemma ViewLookupSkipsHead(m: HashMap, p: Record -> bool, h: string)
    requires |m| > 0 && m[0].hash != h
    ensures Lookup(View(m, p), h) == Lookup(View(m[1..], p), h)
  {
    var v := View(m, p);
    if |Filter(m[0].files, p)| > 0 {
      assert v[0].hash == m[0].hash;
      assert v[1..] == View(m[1..], p);
      LookupTail(v, h);
    } else {
      assert v == View(m[1..], p);
    }
  }

  /** A view lists its checksums in the order of the map. */
  lemma {:induction false} ViewKeysInOrder(m: HashMap, p: Record -> bool)
    ensures IsSubsequence(Keys(View(m, p)), Keys(m))
  {
    if |m| > 0 {
      ViewKeysInOrder(m[1..], p);
      var v := View(m, p);
      var rest := View(m[1..], p);
      assert Keys(m)[1..] == Keys(m[1..]);
      if |Filter(m[0].files, p)| > 0 {
        assert Keys(v)[0] == Keys(m)[0];
        assert Keys(v)[1..] == Keys(rest);
      } else {
        assert v == rest;
        SubsequenceOfTail(Keys(rest), Keys(m));
      }
    }
  }

  lemma SubsequenceOfTail(r: seq<string>, s: seq<string>)
    requires |s| > 0 && IsSubsequence(r, s[1..])
    ensures IsSubsequence(r, s)
  {
  }

  /** Read record by record, bucket after bucket, a view is the filter of the
      map read the same way: exactly the selected records, in their order. */
  lemma {:induction false} ViewFlatten(m: HashMap, p: Record -> bool)
    ensures Flatten(View(m, p)) == Filter(Flatten(m), p)
  {
    if |m| > 0 {
      calc {
        Flatten(View(m, p));
        { ViewFlattenStep(m, p); }
        Filter(m[0].files, p) + Flatten(View(m[1..], p));
        { ViewFlatten(m[1..], p); }
        Filter(m[0].files, p) + Filter(Flatten(m[1..]), p);
        { FilterAppend(m[0].files, Flatten(m[1..]), p); }
        Filter(m[0].files + Flatten(m[1..]), p);
      }
    }
  }

  /** The view of a non-empty map, flattened: the first bucket's kept records,
      then the rest of the view. */
  lemma ViewFlattenStep(m: HashMap, p: Record -> bool)
    requires |m| > 0
    ensures Flatten(View(m, p)) == Filter(m[0].files, p) + Flatten(View(m[1..], p))
  {
    var kept := Filter(m[0].files, p);
    var rest := View(m[1..], p);
    ViewCons(m, p);
    if |kept| > 0 {
      FlattenCons(Bucket(m[0].hash, kept), rest);
    } else {
      assert kept + Flatten(rest) == Flatten(rest);
    }
  }

  /** The view of a non-empty map: the first bucket's kept records, if any,
      then the view of the rest. */
  lemma ViewCons(m: HashMap, p: Record -> bool)
    requires |m| > 0
    ensures View(m, p) ==
      if |Filter(m[0].files, p)| > 0 then [Bucket(m[0].hash, Filter(m[0].files, p))] + View(m[1..], p)
      else View(m[1..], p)
  {
  }
}
