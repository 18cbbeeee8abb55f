/** Python's `<` and `>` on `str`: lexicographic order by code point, in which
    a proper prefix is smaller than the string it begins. */
module StringOrder {

  predicate Less(a: string, b: string)
    decreases |a|
  {
    if |a| == 0 then |b| > 0
    else if |b| == 0 then false
    else if a[0] != b[0] then a[0] < b[0]
    else Less(a[1..], b[1..])
  }

  /** The textbook definition: `a` and `b` agree on their first `k` characters,
      and then either `a` has ended while `b` goes on, or `a[k] < b[k]`. */
  predicate LessAt(a: string, b: string, k: nat) {
    k <= |a| && k < |b| && a[..k] == b[..k] && (k == |a| || a[k] < b[k])
  }

  /** `Less` is the lexicographic order: both directions. */
  lemma {:induction false} LessIffFirstDifference(a: string, b: string)
    ensures Less(a, b) <==> exists k: nat :: LessAt(a, b, k)
  {
    if Less(a, b) {
      var k := LessWitness(a, b);
      assert LessAt(a, b, k);
    }
    if exists k: nat :: LessAt(a, b, k) {
      var k: nat :| LessAt(a, b, k);
      LessFromWitness(a, b, k);
    }
  }

  lemma {:induction false} LessWitness(a: string, b: string) returns (k: nat)
    requires Less(a, b)
    ensures LessAt(a, b, k)
    decreases |a|
  {
    if |a| == 0 {
      k := 0;
    } else if a[0] != b[0] {
      k := 0;
    } else {
      var k' := LessWitness(a[1..], b[1..]);
      k := k' + 1;
      assert a[..k] == [a[0]] + a[1..][..k'];
      assert b[..k] == [b[0]] + b[1..][..k'];
    }
  }

  lemma {:induction false} LessFromWitness(a: string, b: string, k: nat)
    requires LessAt(a, b, k)
    ensures Less(a, b)
    decreases k
  {
    if k > 0 {
      assert a[0] == a[..k][0] == b[..k][0] == b[0];
      assert a[1..][..k - 1] == a[..k][1..];
      assert b[1..][..k - 1] == b[..k][1..];
      LessFromWitness(a[1..], b[1..], k - 1);
    }
  }

  lemma {:induction false} LessIrreflexive(a: string)
    ensures !Less(a, a)
    decreases |a|
  {
    if |a| > 0 {
      LessIrreflexive(a[1..]);
    }
  }

  lemma {:induction false} LessTransitive(a: string, b: string, c: string)
    requires Less(a, b) && Less(b, c)
    ensures Less(a, c)
    decreases |a|
  {
    if |a| > 0 && a[0] == b[0] && b[0] == c[0] {
      LessTransitive(a[1..], b[1..], c[1..]);
    }
  }

  /** Any two strings are comparable. */
  lemma {:induction false} LessTotal(a: string, b: string)
    ensures a == b || Less(a, b) || Less(b, a)
    decreases |a|
  {
    if |a| > 0 && |b| > 0 && a[0] == b[0] {
      LessTotal(a[1..], b[1..]);
      if a[1..] == b[1..] {
        assert a == [a[0]] + a[1..] && b == [b[0]] + b[1..];
      }
    }
  }

  lemma {:induction false} LessAsymmetric(a: string, b: string)
    requires Less(a, b)
    ensures !Less(b, a)
  {
    if Less(b, a) {
      LessTransitive(a, b, a);
      LessIrreflexive(a);
    }
  }
}
