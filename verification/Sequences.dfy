/** Facts about concatenation and placement of sequences. */
module Sequences {

  lemma {:induction false} Regroup<T>(a: seq<T>, b: seq<T>, c: seq<T>)
    ensures (a + b) + c == a + (b + c)
  {
  }

  lemma {:induction false} EmptyFront<T>(s: seq<T>)
    ensures [] + s == s && s + [] == s
  {
  }

  lemma {:induction false} TakeMore<T>(s: seq<T>, i: nat)
    requires i < |s|
    ensures s[..i + 1] == s[..i] + [s[i]]
  {
  }

  /** `q` holds `p` from position `base` on. */
  ghost predicate At<T>(q: seq<T>, base: nat, p: seq<T>) {
    base + |p| <= |q| && forall i :: 0 <= i < |p| ==> q[base + i] == p[i]
  }

  lemma {:induction false} AtParts<T>(q: seq<T>, base: nat, a: seq<T>, b: seq<T>)
    requires At(q, base, a + b)
    ensures At(q, base, a) && At(q, base + |a|, b)
  {
    forall i | 0 <= i < |a| ensures q[base + i] == a[i] {
      assert (a + b)[i] == a[i];
    }
    forall i | 0 <= i < |b| ensures q[base + |a| + i] == b[i] {
      assert (a + b)[|a| + i] == b[i];
    }
  }

  lemma {:induction false} AtJoin<T>(q: seq<T>, base: nat, a: seq<T>, b: seq<T>)
    requires At(q, base, a) && At(q, base + |a|, b)
    ensures At(q, base, a + b)
  {
    forall i | 0 <= i < |a + b| ensures q[base + i] == (a + b)[i] {
      if i >= |a| {
        assert q[base + |a| + (i - |a|)] == b[i - |a|];
      }
    }
  }

  /** Nothing changed outside `lo..hi`. */
  ghost predicate SameOutside<T>(before: seq<T>, after: seq<T>, lo: int, hi: int) {
    |before| == |after| && forall i :: 0 <= i < |after| && !(lo <= i < hi) ==> after[i] == before[i]
  }

  lemma {:induction false} AtKept<T>(before: seq<T>, after: seq<T>, base: nat, p: seq<T>, lo: int, hi: int)
    requires At(before, base, p) && SameOutside(before, after, lo, hi) && (hi <= base || base + |p| <= lo)
    ensures At(after, base, p)
  {
  }

  lemma {:induction false} AtExtended<T>(q: seq<T>, z: seq<T>, base: nat, p: seq<T>)
    requires At(q, base, p)
    ensures At(q + z, base, p)
  {
  }

  lemma {:induction false} AtLast<T>(q: seq<T>, z: seq<T>)
    ensures At(q + z, |q|, z)
  {
  }

  lemma {:induction false} AtPrefix<T>(q: seq<T>, p: seq<T>)
    requires At(q, 0, p)
    ensures |p| <= |q| && q[..|p|] == p
  {
    assert forall i :: 0 <= i < |p| ==> q[0 + i] == p[i];
  }

  lemma {:induction false} AtWhole<T>(q: seq<T>, p: seq<T>)
    requires |q| == |p|
    ensures At(q, 0, p) <==> q == p
  {
    if At(q, 0, p) {
      assert forall i :: 0 <= i < |p| ==> q[0 + i] == p[i];
      assert forall i :: 0 <= i < |p| ==> q[i] == p[i];
    }
  }
}
