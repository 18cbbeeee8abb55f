/** The file records the remover works on and the hash map that groups them. */
module Files {
  import opened Wrappers
  import opened Sequences

  /** One file's metadata as the listing returns it, plus the two status flags
      the run adds. Every field that `dict.get` may find missing is an
      `Option`; `toRemove` and `removed` are absent until the run sets them. */
  datatype Record = Record(
    id: string,
    name: string,
    modifiedTime: string,
    md5: Option<string>,
    trashed: Option<bool>,
    ownedByMe: Option<bool>,
    toRemove: Option<bool>,
    removed: Option<bool>)

  /** A record as it comes from the listing: neither status flag is set yet. */
  predicate Unflagged(f: Record) {
    f.toRemove.None? && f.removed.None?
  }

  /** The grouping filter: a checksum is present, `trashed` is exactly `False`
      and `ownedByMe` is exactly `True`. */
  predicate Eligible(f: Record) {
    f.md5.Some? && f.trashed == Some(false) && f.ownedByMe == Some(true)
  }

  predicate IsMarked(f: Record) {
    f.toRemove == Some(true)
  }

  predicate IsKept(f: Record) {
    f.toRemove == Some(false)
  }

  predicate IsRemoved(f: Record) {
    f.removed == Some(true)
  }

  /** Whether every record of `m` that is flagged removed is also marked for removal. */
  predicate RemovedOnlyIfMarked(m: HashMap) {
    forall i, j :: 0 <= i < |m| && 0 <= j < |m[i].files| && IsRemoved(m[i].files[j]) ==> IsMarked(m[i].files[j])
  }

  /** Whether `files` still holds a record not flagged removed. */
  predicate HasCopy(files: seq<Record>) {
    exists j :: 0 <= j < |files| && !IsRemoved(files[j])
  }

  /** Whether every bucket of `m` still holds a record not flagged removed. */
  predicate KeepsACopy(m: HashMap) {
    forall i :: 0 <= i < |m| ==> HasCopy(m[i].files)
  }

  /** One entry of the hash map: a checksum and the records filed under it. */
  datatype Bucket = Bucket(hash: string, files: seq<Record>)

  /** A Python dict from checksum to list of records, in insertion order. */
  type HashMap = seq<Bucket>

  predicate DistinctKeys(m: HashMap) {
    forall i, j :: 0 <= i < j < |m| ==> m[i].hash != m[j].hash
  }

  /** Replacing buckets without changing their keys keeps keys distinct. */
  lemma SameKeysDistinct(m: HashMap, r: HashMap)
    requires |r| == |m| && forall j :: 0 <= j < |m| ==> r[j].hash == m[j].hash
    ensures DistinctKeys(m) ==> DistinctKeys(r)
  {
  }

  /** Appending a bucket under a new key keeps keys distinct. */
  lemma NewKeyDistinct(m: HashMap, b: Bucket)
    requires forall j :: 0 <= j < |m| ==> m[j].hash != b.hash
    ensures DistinctKeys(m) ==> DistinctKeys(m + [b])
  {
  }

  function Keys(m: HashMap): (ks: seq<string>)
    ensures |ks| == |m|
    ensures forall i :: 0 <= i < |m| ==> ks[i] == m[i].hash
  {
    if |m| == 0 then [] else [m[0].hash] + Keys(m[1..])
  }

  /** The position of the entry keyed `h`, if there is one. */
  function Find(m: HashMap, h: string): (r: Option<nat>)
    ensures r.Some? ==> r.value < |m| && m[r.value].hash == h
    ensures r.Some? ==> forall j :: 0 <= j < r.value ==> m[j].hash != h
    ensures r.None? ==> forall j :: 0 <= j < |m| ==> m[j].hash != h
  {
    if |m| == 0 then None
    else if m[0].hash == h then Some(0)
    else match Find(m[1..], h)
      case None => None
      case Some(i) => Some(i + 1)
  }

  /** `hash_map.get(h)`. */
  function Lookup(m: HashMap, h: string): (r: Option<seq<Record>>)
    ensures r.Some? <==> h in Keys(m)
  {
    match Find(m, h)
    case None => None
    case Some(i) => Some(m[i].files)
  }

  /** Every record of the map, bucket after bucket: the visiting order of
      `for file_list in hash_map.values(): for file in file_list`. */
  function Flatten(m: HashMap): (r: seq<Record>) {
    if |m| == 0 then [] else m[0].files + Flatten(m[1..])
  }

  function Ids(s: seq<Record>): (r: seq<string>)
    ensures |r| == |s|
    ensures forall i :: 0 <= i < |s| ==> r[i] == s[i].id
  {
    if |s| == 0 then [] else [s[0].id] + Ids(s[1..])
  }

  lemma IdsAppend(a: seq<Record>, b: seq<Record>)
    ensures Ids(a + b) == Ids(a) + Ids(b)
  {
  }

  /** Whether no two records of `s` share a file id, as in one listing of a Drive. */
  predicate DistinctIds(s: seq<Record>) {
    forall i, j :: 0 <= i < j < |s| ==> s[i].id != s[j].id
  }

  /** Among records with distinct ids, the id determines the record. */
  lemma SameIdSameRecord(s: seq<Record>, x: Record, y: Record)
    requires DistinctIds(s) && x in s && y in s
    ensures x.id == y.id ==> x == y
  {
    var a :| 0 <= a < |s| && s[a] == x;
    var b :| 0 <= b < |s| && s[b] == y;
    assert a != b ==> s[a].id != s[b].id;
  }

  /** Filtering keeps ids distinct. */
  lemma {:induction false} FilterDistinctIds(s: seq<Record>, p: Record -> bool)
    requires DistinctIds(s)
    ensures DistinctIds(Filter(s, p))
  {
    if |s| > 0 {
      var tail := Filter(s[1..], p);
      FilterDistinctIds(s[1..], p);
      FilterCons(s, p);
      if p(s[0]) {
        HeadIdNotInTail(s, tail);
        DistinctIdsCons(s[0], tail);
      }
    }
  }

  lemma HeadIdNotInTail(s: seq<Record>, tail: seq<Record>)
    requires DistinctIds(s) && |s| > 0
    requires forall i :: 0 <= i < |tail| ==> tail[i] in s[1..]
    ensures forall i :: 0 <= i < |tail| ==> tail[i].id != s[0].id
  {
    forall i | 0 <= i < |tail|
      ensures tail[i].id != s[0].id
    {
      var t :| 0 <= t < |s[1..]| && s[1..][t] == tail[i];
      assert s[t + 1] == tail[i];
    }
  }

  lemma DistinctIdsCons(f: Record, tail: seq<Record>)
    requires DistinctIds(tail)
    requires forall i :: 0 <= i < |tail| ==> tail[i].id != f.id
    ensures DistinctIds([f] + tail)
  {
    var r := [f] + tail;
    forall i, j | 0 <= i < j < |r|
      ensures r[i].id != r[j].id
    {
      assert r[j] == tail[j - 1];
      assert i > 0 ==> r[i] == tail[i - 1];
    }
  }

  lemma LookupCons(b: Bucket, m: HashMap, h: string)
    ensures Lookup([b] + m, h) == if b.hash == h then Some(b.files) else Lookup(m, h)
  {
    assert ([b] + m)[0] == b && ([b] + m)[1..] == m;
  }

  lemma LookupTail(m: HashMap, h: string)
    requires |m| > 0 && m[0].hash != h
    ensures Lookup(m, h) == Lookup(m[1..], h)
  {
  }

  lemma LookupMissing(m: HashMap, h: string)
    requires h !in Keys(m)
    ensures Lookup(m, h) == None
  {
  }

  /** In a map with distinct keys, the first key does not occur again. */
  lemma HeadKeyNotInTail(m: HashMap)
    requires |m| > 0 && DistinctKeys(m)
    ensures m[0].hash !in Keys(m[1..])
  {
  }

  /** Flattening a bucket followed by a map. */
  lemma FlattenCons(b: Bucket, m: HashMap)
    ensures Flatten([b] + m) == b.files + Flatten(m)
  {
    assert ([b] + m)[0] == b && ([b] + m)[1..] == m;
  }

  /** Every record read off the flattened map sits in some bucket. */
  lemma {:induction false} FlattenElement(m: HashMap, k: nat)
    requires k < |Flatten(m)|
    ensures exists i, j :: 0 <= i < |m| && 0 <= j < |m[i].files| && Flatten(m)[k] == m[i].files[j]
  {
    if k < |m[0].files| {
      assert Flatten(m)[k] == m[0].files[k];
    } else {
      FlattenElement(m[1..], k - |m[0].files|);
      var i, j :| 0 <= i < |m[1..]| && 0 <= j < |m[1..][i].files| && Flatten(m[1..])[k - |m[0].files|] == m[1..][i].files[j];
      assert Flatten(m)[k] == m[i + 1].files[j];
    }
  }
}
