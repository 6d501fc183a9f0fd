/** Sorted integer arrays as sets, and as GiST keys that never prune a match. */
module IntSets {
  import BoolInput
  import opened BoolQuery
  import opened IntArrays
  import opened IntRange

  ghost predicate Sorted(a: seq<int>) {
    forall i, j :: 0 <= i < j < |a| ==> a[i] <= a[j]
  }

  /** `checkcondition_arr`: binary search. */
  method CheckCondition(a: seq<int>, v: int) returns (found: bool)
    requires Sorted(a)
    ensures found <==> v in a
  {
    var low, high := 0, |a|;
    while low < high
      invariant 0 <= low <= high <= |a|
      invariant v !in a[..low] && v !in a[high..]
    {
      var middle := low + (high - low) / 2;
      if a[middle] == v {
        return true;
      } else if a[middle] < v {
        low := middle + 1;
      } else {
        high := middle;
      }
    }
    assert a == a[..low] + a[low..];
    return false;
  }

  /** `inner_int_contains`: stops at the first element of `b` that `a` has passed by. */
  method InnerContains(a: seq<int>, b: seq<int>) returns (r: bool)
    requires Increasing(a) && Increasing(b)
    ensures r <==> Elements(b) <= Elements(a)
  {
    var i, j, n := 0, 0, 0;
    while i < |a| && j < |b|
      invariant 0 <= i <= |a| && 0 <= j == n <= |b|
      invariant forall k :: 0 <= k < j ==> b[k] in a
      invariant forall k, l :: 0 <= k < i && j <= l < |b| ==> a[k] < b[l]
    {
      if a[i] < b[j] {
        i := i + 1;
      } else if a[i] == b[j] {
        n, i, j := n + 1, i + 1, j + 1;
      } else {
        break;
      }
    }
    r := n == |b|;
    if n == |b| {
      forall v | v in Elements(b) ensures v in a {
      }
    } else {
      assert b[j] !in a by {
        forall k | 0 <= k < |a| ensures a[k] != b[j] {
        }
      }
      assert b[j] in Elements(b);
    }
  }

  /** `inner_int_overlap`. */
  method InnerOverlap(a: seq<int>, b: seq<int>) returns (r: bool)
    requires Sorted(a) && Sorted(b)
    ensures r <==> Elements(a) * Elements(b) != {}
  {
    var i, j := 0, 0;
    while i < |a| && j < |b|
      invariant 0 <= i <= |a| && 0 <= j <= |b|
      invariant forall k, l :: 0 <= k < i && j <= l < |b| ==> a[k] < b[l]
      invariant forall k, l :: i <= k < |a| && 0 <= l < j ==> b[l] < a[k]
      invariant forall k, l :: 0 <= k < i && 0 <= l < j ==> a[k] != b[l]
    {
      if a[i] < b[j] {
        i := i + 1;
      } else if a[i] == b[j] {
        assert a[i] in Elements(a) * Elements(b);
        return true;
      } else {
        j := j + 1;
      }
    }
    forall v | v in Elements(a) ensures v !in b {
      var k :| 0 <= k < |a| && a[k] == v;
    }
    return false;
  }

  /** Each element that differs from its predecessor. */
  function Dedup(s: seq<int>): (r: seq<int>)
    ensures |r| <= |s| && (s != [] ==> r != [] && r[|r| - 1] == s[|s| - 1])
  {
    if |s| <= 1 then s
    else
      var front := Dedup(s[..|s| - 1]);
      if s[|s| - 1] == s[|s| - 2] then front else front + [s[|s| - 1]]
  }

  lemma {:induction false} DedupExact(s: seq<int>)
    requires Sorted(s)
    ensures Increasing(Dedup(s)) && Elements(Dedup(s)) == Elements(s)
  {
    DedupIncreasing(s);
    DedupElements(s);
  }

  lemma {:induction false} DedupIncreasing(s: seq<int>)
    requires Sorted(s)
    ensures Increasing(Dedup(s))
  {
    if |s| > 1 {
      var front, last := s[..|s| - 1], s[|s| - 1];
      DedupIncreasing(front);
      assert front[|front| - 1] == s[|s| - 2] <= last;
      if s[|s| - 2] != last {
        AppendLarger(Dedup(front), last);
      }
    }
  }

  lemma {:induction false} DedupElements(s: seq<int>)
    ensures Elements(Dedup(s)) == Elements(s)
  {
    if |s| > 1 {
      var front, last := s[..|s| - 1], s[|s| - 1];
      DedupElements(front);
      ElementsAppend(front, last);
      ElementsAppend(Dedup(front), last);
      assert s == front + [last];
      assert front[|front| - 1] in Elements(front);
    }
  }

  lemma {:induction false} ElementsAppend(a: seq<int>, v: int)
    ensures Elements(a + [v]) == Elements(a) + {v}
  {
  }

  lemma {:induction false} AppendLarger(a: seq<int>, v: int)
    requires Increasing(a) && a != [] && a[|a| - 1] < v
    ensures Increasing(a + [v])
  {
    forall i | 0 <= i < |a| ensures a[i] < v {
      if i < |a| - 1 {
        assert a[i] < a[|a| - 1];
      }
    }
  }

  /** What is kept of the first `k` elements; before the first step, the first element. */
  ghost function DedupTo(all: seq<int>, k: nat): seq<int>
    requires 2 <= |all| && k <= |all|
  {
    Dedup(all[..if k == 0 then 1 else k])
  }

  lemma {:induction false} DedupStep(all: seq<int>, k: nat)
    requires 2 <= |all| && k < |all|
    ensures var f := DedupTo(all, k); f != [] && DedupTo(all, k + 1) == if f[|f| - 1] == all[k] then f else f + [all[k]]
  {
    if k > 0 {
      assert all[..k + 1][..k] == all[..k];
    }
  }

  /** After `tmp` steps: the kept elements up to `dr`, and all those still to come. */
  ghost predicate Compacting(all: seq<int>, r: seq<int>, tmp: nat, dr: nat) {
    && 2 <= |all| == |r| && dr < |r| && dr <= tmp <= |r| && (tmp == 0 ==> dr == 0)
    && r[tmp..] == all[tmp..] && r[..dr + 1] == DedupTo(all, tmp)
  }

  lemma {:induction false} CompactStep(all: seq<int>, r: seq<int>, tmp: nat, dr: nat)
    requires Compacting(all, r, tmp, dr) && tmp < |r|
    ensures r[tmp] != r[dr] ==> Compacting(all, r[dr + 1 := r[tmp]], tmp + 1, dr + 1)
    ensures r[tmp] == r[dr] ==> Compacting(all, r, tmp + 1, dr)
  {
    DedupStep(all, tmp);
    assert r[tmp..][0] == r[tmp] && all[tmp..][0] == all[tmp] && r[..dr + 1][dr] == r[dr];
    assert r[tmp + 1..] == r[tmp..][1..] && all[tmp + 1..] == all[tmp..][1..];
    if r[tmp] != r[dr] {
      var q := r[dr + 1 := r[tmp]];
      assert q[..dr + 2] == r[..dr + 1] + [r[tmp]] && q[tmp + 1..] == r[tmp + 1..];
    }
  }

  /** `_int_unique`: removes repetitions in place and returns how many elements remain. */
  method Unique(data: array<int>) returns (num: nat)
    modifies data
    ensures num <= data.Length && data[..num] == Dedup(old(data[..]))
  {
    if data.Length < 2 { return data.Length; }
    ghost var all := data[..];
    var tmp, dr := 0, 0;
    while tmp < data.Length
      invariant Compacting(all, data[..], tmp, dr)
    {
      CompactStep(all, data[..], tmp, dr);
      if data[tmp] != data[dr] {
        dr := dr + 1;
        data[dr] := data[tmp];
      }
      tmp := tmp + 1;
    }
    assert all[..data.Length] == all;
    return dr + 1;
  }

  // ----- array keys never prune a match -----

  ghost function Flatten(keys: seq<seq<int>>): seq<int> {
    if keys == [] then [] else Flatten(keys[..|keys| - 1]) + keys[|keys| - 1]
  }

  lemma {:induction false} FlattenHas(keys: seq<seq<int>>, i: nat, v: int)
    requires i < |keys| && v in keys[i]
    ensures v in Flatten(keys)
  {
    if i < |keys| - 1 {
      FlattenHas(keys[..|keys| - 1], i, v);
    }
  }

  /** `g_int_union`: `data` is what sorting the concatenated keys leaves. */
  method Union(keys: seq<seq<int>>, data: array<int>) returns (r: seq<int>)
    requires Sorted(data[..]) && multiset(data[..]) == multiset(Flatten(keys))
    modifies data
    ensures Increasing(r) && Elements(r) == Elements(Flatten(keys))
  {
    DedupExact(data[..]);
    SameElements(data[..], Flatten(keys));
    var num := Unique(data);
    return data[..num];
  }

  lemma {:induction false} SameElements(a: seq<int>, b: seq<int>)
    requires multiset(a) == multiset(b)
    ensures Elements(a) == Elements(b)
  {
    forall v ensures v in a <==> v in b {
      assert v in a <==> v in multiset(a);
      assert v in b <==> v in multiset(b);
    }
  }

  /** A key read back from the index: of a leaf, its sorted elements, which are taken for ranges if there are
      many; of an inner node, at least the keys of its children, compressed and expanded. It can be more than
      their union: an insertion starts from the old key, and a deletion leaves the key as it is. */
  ghost predicate KeyOf(t: Index, key: seq<int>)
    decreases t
  {
    match t
    case Leaf(a) => exists s :: LeafKey(a, s, key)
    case Node(kids) => exists keys, u, r :: NodeKey(keys, u, r, key) && |keys| == |kids| &&
                         forall i :: 0 <= i < |kids| ==> KeyOf(kids[i], keys[i])
  }

  ghost predicate LeafKey(a: seq<int>, s: seq<int>, key: seq<int>) {
    && Increasing(s) && Elements(s) == Elements(a)
    && (|s| < 2 * MAXNUMRANGE || Ranges(s)) && Outcome(s) == Keys(key)
  }

  ghost predicate NodeKey(keys: seq<seq<int>>, u: seq<int>, r: seq<int>, key: seq<int>) {
    && Increasing(u) && AllInt32(u) && Elements(Flatten(keys)) <= Elements(u)
    && IntRange.Stored(u, r) && Outcome(r) == Keys(key)
  }

  lemma {:induction false} LeafCovers(a: seq<int>, s: seq<int>, key: seq<int>)
    requires LeafKey(a, s, key)
    ensures Increasing(key) && Elements(a) <= Elements(key)
  {
    if |s| >= 2 * MAXNUMRANGE {
      BigLeafExactly(s);
      ExpandIncreasing(s);
      forall v | v in Elements(a) ensures v in key {
        assert v in Elements(s);
      }
    }
  }

  /** Through any number of unions and lossy compressions, a key covers every array below it. */
  lemma {:induction false} KeyCovers(t: Index, key: seq<int>, a: seq<int>)
    requires KeyOf(t, key) && Indexed(t, a)
    ensures Increasing(key) && Elements(a) <= Elements(key)
    decreases t
  {
    match t
    case Leaf(_) =>
      var s :| LeafKey(a, s, key);
      LeafCovers(a, s, key);
    case Node(kids) =>
      var keys, u, r :| NodeKey(keys, u, r, key) && |keys| == |kids| &&
                        forall i :: 0 <= i < |kids| ==> KeyOf(kids[i], keys[i]);
      var i :| 0 <= i < |kids| && Indexed(kids[i], a);
      KeyCovers(kids[i], keys[i], a);
      CompressionLosesNothing(u, r);
      forall v | v in a ensures v in key {
        assert v in Elements(keys[i]);
        FlattenHas(keys, i, v);
        assert v in Elements(u);
      }
  }

  lemma {:induction false} StoredPruning(e: Expr, s: set<int>, above: set<int>)
    requires BoolInput.NarrowRight(e) && Holds(e, s) && s <= above
    ensures var items := BoolInput.Stored(e); LinksInside(items) && Execute(items, |items| - 1, false, InSet(above))
  {
    BoolInput.StoredExact(e);
    PruningIsSafe(e, s, InSet(above));
  }

  /** The Boolean branch of `g_int_consistent` at an inner node never rejects a match below it. */
  lemma {:induction false} ArrayIndexNeverMisses(t: Index, key: seq<int>, a: seq<int>, e: Expr)
    requires KeyOf(t, key) && Indexed(t, a) && BoolInput.NarrowRight(e) && Holds(e, Elements(a))
    ensures var items := BoolInput.Stored(e);
      LinksInside(items) && Execute(items, |items| - 1, false, InSet(Elements(key)))
  {
    KeyCovers(t, key, a);
    StoredPruning(e, Elements(a), Elements(key));
  }

  /** It is the truth value, on the key, of the query with every outermost negated operand taken as true. */
  lemma {:induction false} ArrayTestExactly(key: seq<int>, e: Expr, w: int)
    requires BoolInput.NarrowRight(e) && w !in Values(e)
    ensures var items := BoolInput.Stored(e);
      && LinksInside(items)
      && Execute(items, |items| - 1, false, InSet(Elements(key))) == Holds(Affirmed(e, w), Elements(key) + {w})
      && (NoNegation(e) ==> Execute(items, |items| - 1, false, InSet(Elements(key))) == Holds(e, Elements(key)))
  {
    BoolInput.StoredTestExactly(e, Elements(key), w, InSet(Elements(key)));
  }

  // ----- the other branches of `g_int_consistent` -----

  /** `g_int_same`. */
  method SameArray(a: seq<int>, b: seq<int>) returns (r: bool)
    ensures r <==> a == b
  {
    if |a| != |b| { return false; }
    var i := 0;
    while i < |a|
      invariant 0 <= i <= |a| && a[..i] == b[..i]
    {
      if a[i] != b[i] { return false; }
      i := i + 1;
    }
    return true;
  }

  lemma {:induction false} SameSet(a: seq<int>, b: seq<int>)
    requires Increasing(a) && Increasing(b)
    ensures a == b <==> Elements(a) == Elements(b)
  {
    assert b != [] ==> b[0] in Elements(b);
    if Elements(a) == Elements(b) {
      if a != [] {
        SameLast(a, b);
        FrontOf(a);
        FrontOf(b);
        SameSet(a[..|a| - 1], b[..|b| - 1]);
        assert a == a[..|a| - 1] + [a[|a| - 1]] && b == b[..|b| - 1] + [b[|b| - 1]];
      }
    }
  }

  lemma {:induction false} SameLast(a: seq<int>, b: seq<int>)
    requires Increasing(a) && Increasing(b) && Elements(a) == Elements(b) && a != []
    ensures b != [] && a[|a| - 1] == b[|b| - 1]
  {
    assert a[|a| - 1] in Elements(b);
    assert b[|b| - 1] in Elements(a);
    var i :| 0 <= i < |a| && a[i] == b[|b| - 1];
    var j :| 0 <= j < |b| && b[j] == a[|a| - 1];
  }

  lemma {:induction false} FrontOf(a: seq<int>)
    requires Increasing(a) && a != []
    ensures Elements(a[..|a| - 1]) == Elements(a) - {a[|a| - 1]}
  {
    var front, last := a[..|a| - 1], a[|a| - 1];
    assert a == front + [last];
    ElementsAppend(front, last);
    assert last !in front;
  }

  /** The query arrives sorted and without repetition, as the key is. */
  method Consistent(key: seq<int>, query: seq<int>, st: Strategy, leaf: bool) returns (r: bool)
    requires Increasing(key) && Increasing(query)
    ensures r <==> Matches(Asked(st, leaf), Elements(key), Elements(query))
  {
    match st
    case Overlap => r := InnerOverlap(key, query);
    case Same =>
      SameSet(key, query);
      if leaf { r := SameArray(key, query); } else { r := InnerContains(key, query); }
    case Contains => r := InnerContains(key, query);
    case ContainedBy =>
      if leaf { r := InnerContains(query, key); } else { r := InnerOverlap(key, query); }
  }

  /** No inner node rejects a match below it, but for an empty array asked to be contained. */
  lemma {:induction false} ArrayIndexKeepsMatches(t: Index, key: seq<int>, a: seq<int>, st: Strategy, query: seq<int>)
    requires KeyOf(t, key) && Indexed(t, a) && Matches(st, Elements(a), Elements(query))
    requires st.ContainedBy? ==> a != []
    ensures Matches(Asked(st, false), Elements(key), Elements(query))
  {
    KeyCovers(t, key, a);
    if a != [] { assert a[0] in Elements(a); }
    MatchesAbove(st, Elements(a), Elements(key), Elements(query));
  }

  /** An inner node that holds the array passes the test for the query. */
  ghost predicate Kept(t: Index, key: seq<int>, a: seq<int>, st: Strategy, query: seq<int>) {
    t.Node? && KeyOf(t, key) && Indexed(t, a) ==> Matches(Asked(st, false), Elements(key), Elements(query))
  }

  /** The empty array is contained in every query, and an index may lose it: those that are kept in
      every index are exactly the others. */
  lemma {:induction false} ContainedByLosesEmpty(a: seq<int>, query: seq<int>)
    requires Elements(a) <= Elements(query)
    ensures a != [] <==> forall t, key :: Kept(t, key, a, ContainedBy, query)
  {
    if a != [] {
      forall t: Index, key | t.Node? && KeyOf(t, key) && Indexed(t, a) ensures Kept(t, key, a, ContainedBy, query) {
        ArrayIndexKeepsMatches(t, key, a, ContainedBy, query);
      }
    } else {
      var t := Node([Leaf([])]);
      assert Indexed(t.kids[0], a);
      assert KeyOf(t, []) by {
        var keys: seq<seq<int>> := [[]];
        assert Flatten(keys[..0]) == [] && Flatten(keys) == [];
        assert NodeKey(keys, [], [], []);
        assert LeafKey([], [], []);
        assert KeyOf(t.kids[0], keys[0]);
      }
      assert !Kept(t, [], a, ContainedBy, query);
    }
  }
}
