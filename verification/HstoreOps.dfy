/** Searching an hstore value for keys, and containment. */
module HstoreOps {
  import opened Hstore
  import opened HstorePacked
  import opened HstoreMemory

  /** The reader macros show exactly the sorted pairs `ps`. */
  ghost predicate Shows(v: Packed, ps: seq<Pair>) {
    Valid(v) && Canonical(ps) && |v.slots| == |ps| && forall i :: 0 <= i < |ps| ==> PairAt(v, i) == ps[i]
  }

  lemma {:induction false} ViewOf(hs: HStore)
    requires IsHStore(hs)
    ensures Shows(View(hs), Pairs(hs)) && Count(hs) == |Pairs(hs)|
  {
    var ps := Pairs(hs);
    StoreView(ps);
    PackValid(ps);
  }

  // ----- search -----

  /** Every pair before `low` has a key below `key`. */
  ghost predicate Passed(ps: seq<Pair>, low: nat, key: string) {
    low <= |ps| && forall i :: 0 <= i < low ==> KeyLess(ps[i].key, key)
  }

  /** `hstoreFindKey`: binary search from `low` on; returns the index or -1, and the bound to start
      the next search from. */
  method FindKey(v: Packed, low: nat, key: string, ghost ps: seq<Pair>) returns (idx: int, next: nat)
    requires Shows(v, ps) && Passed(ps, low, key)
    ensures low <= next <= |ps| && -1 <= idx < |ps|
    ensures idx >= 0 ==> ps[idx].key == key && next == idx + 1 && Passed(ps, idx, key)
    ensures idx < 0 ==> key !in Keys(ps) && Passed(ps, next, key)
  {
    var stopLow, stopHigh := low, |v.slots|;
    while stopLow < stopHigh
      invariant low <= stopLow <= stopHigh <= |ps|
      invariant Passed(ps, stopLow, key)
      invariant forall i :: stopHigh <= i < |ps| ==> KeyLess(key, ps[i].key)
    {
      var middle := stopLow + (stopHigh - stopLow) / 2;
      assert PairAt(v, middle) == ps[middle];
      var difference := CompareKeys(KeyAt(v, middle), key);
      Narrow(ps, middle, key);
      if difference == 0 {
        return middle, middle + 1;
      } else if difference < 0 {
        stopLow := middle + 1;
      } else {
        stopHigh := middle;
      }
    }
    KeyOrder(key, key, key);
    return -1, stopLow;
  }

  lemma {:induction false} Narrow(ps: seq<Pair>, m: nat, key: string)
    requires Canonical(ps) && m < |ps|
    ensures CompareKeys(ps[m].key, key) <= 0 ==> Passed(ps, m, key)
    ensures CompareKeys(ps[m].key, key) < 0 ==> Passed(ps, m + 1, key)
    ensures CompareKeys(ps[m].key, key) > 0 ==> forall i :: m <= i < |ps| ==> KeyLess(key, ps[i].key)
  {
    KeyOrder(ps[m].key, key, key);
    forall i | 0 <= i < m && CompareKeys(ps[m].key, key) <= 0 ensures KeyLess(ps[i].key, key) {
      KeyOrder(ps[i].key, ps[m].key, key);
    }
    forall i | m < i < |ps| && CompareKeys(ps[m].key, key) > 0 ensures KeyLess(key, ps[i].key) {
      KeyOrder(key, ps[m].key, ps[i].key);
    }
  }

  /** The bound a search returns is a valid start for any larger key. */
  lemma {:induction false} CarryBound(ps: seq<Pair>, idx: int, next: nat, key: string, larger: string)
    requires next <= |ps| && KeyLess(key, larger)
    requires if 0 <= idx then next == idx + 1 && ps[idx].key == key && Passed(ps, idx, key) else Passed(ps, next, key)
    ensures Passed(ps, next, larger)
  {
    forall i | 0 <= i < next ensures KeyLess(ps[i].key, larger) {
      KeyOrder(ps[i].key, key, larger);
    }
  }

  /** `hstore_exists_any`: the keys arrive as pairs, sorted and without repetition. */
  method ExistsAny(v: Packed, keys: seq<Pair>, ghost ps: seq<Pair>) returns (res: bool)
    requires Shows(v, ps) && Canonical(keys)
    ensures res <==> exists i :: 0 <= i < |keys| && keys[i].key in Keys(ps)
  {
    var lowbound := 0;
    for i := 0 to |keys|
      invariant lowbound <= |ps| && (i < |keys| ==> Passed(ps, lowbound, keys[i].key))
      invariant forall k :: 0 <= k < i ==> keys[k].key !in Keys(ps)
    {
      var idx, next := FindKey(v, lowbound, keys[i].key, ps);
      if idx >= 0 {
        assert ps[idx].key in Keys(ps);
        return true;
      }
      if i + 1 < |keys| {
        CarryBound(ps, idx, next, keys[i].key, keys[i + 1].key);
      }
      lowbound := next;
    }
    return false;
  }

  /** `hstore_exists_all`. */
  method ExistsAll(v: Packed, keys: seq<Pair>, ghost ps: seq<Pair>) returns (res: bool)
    requires Shows(v, ps) && Canonical(keys)
    ensures res <==> forall i :: 0 <= i < |keys| ==> keys[i].key in Keys(ps)
  {
    var lowbound := 0;
    for i := 0 to |keys|
      invariant lowbound <= |ps| && (i < |keys| ==> Passed(ps, lowbound, keys[i].key))
      invariant forall k :: 0 <= k < i ==> keys[k].key in Keys(ps)
    {
      var idx, next := FindKey(v, lowbound, keys[i].key, ps);
      if idx < 0 {
        return false;
      }
      assert ps[idx].key in Keys(ps);
      if i + 1 < |keys| {
        CarryBound(ps, idx, next, keys[i].key, keys[i + 1].key);
      }
      lowbound := next;
    }
    return true;
  }

  ghost predicate Submap(a: map<string, Value>, b: map<string, Value>) {
    forall k :: k in a ==> k in b && b[k] == a[k]
  }

  /** One key of the template, looked up from the bound of the last search. */
  method ContainsPair(ve: Packed, te: Packed, i: nat, lastidx: nat, ghost vs: seq<Pair>, ghost ts: seq<Pair>)
    returns (found: bool, next: nat)
    requires Shows(ve, vs) && Shows(te, ts) && i < |ts| && Passed(vs, lastidx, ts[i].key)
    ensures found <==> ts[i] in vs
    ensures next <= |vs| && (i + 1 < |ts| ==> Passed(vs, next, ts[i + 1].key))
  {
    assert PairAt(te, i) == ts[i];
    var idx;
    idx, next := FindKey(ve, lastidx, KeyAt(te, i), vs);
    if i + 1 < |ts| {
      CarryBound(vs, idx, next, ts[i].key, ts[i + 1].key);
    }
    if idx >= 0 {
      assert PairAt(ve, idx) == vs[idx];
      OnlyAt(vs, idx, ts[i]);
      found := ValAt(te, i) == ValAt(ve, idx);
    } else {
      NotAmong(vs, ts[i]);
      found := false;
    }
  }

  /** `hstore_contains`: every pair of the template is a pair of the value. */
  method Contains(ve: Packed, te: Packed, ghost vs: seq<Pair>, ghost ts: seq<Pair>) returns (res: bool)
    requires Shows(ve, vs) && Shows(te, ts)
    ensures res <==> Submap(MapOf(ts), MapOf(vs))
  {
    res := true;
    var lastidx, i := 0, 0;
    while res && i < |te.slots|
      invariant 0 <= i <= |ts| && 0 <= lastidx <= |vs|
      invariant res && i < |ts| ==> Passed(vs, lastidx, ts[i].key)
      invariant if res then forall k :: 0 <= k < i ==> ts[k] in vs else exists k :: 0 <= k < |ts| && ts[k] !in vs
    {
      res, lastidx := ContainsPair(ve, te, i, lastidx, vs, ts);
      i := i + 1;
    }
    SubmapIsInclusion(ts, vs);
  }

  /** In a sorted list a key occurs once. */
  lemma {:induction false} OnlyAt(ps: seq<Pair>, i: nat, p: Pair)
    requires Canonical(ps) && i < |ps| && ps[i].key == p.key
    ensures p in ps <==> ps[i] == p
  {
    if p in ps {
      var j :| 0 <= j < |ps| && ps[j] == p;
      KeyOrder(p.key, p.key, p.key);
    }
  }

  lemma {:induction false} NotAmong(ps: seq<Pair>, p: Pair)
    requires p.key !in Keys(ps)
    ensures p !in ps
  {
  }

  lemma {:induction false} SubmapIsInclusion(a: seq<Pair>, b: seq<Pair>)
    requires Canonical(a) && Canonical(b)
    ensures Submap(MapOf(a), MapOf(b)) <==> forall k :: 0 <= k < |a| ==> a[k] in b
  {
    if Submap(MapOf(a), MapOf(b)) {
      forall k | 0 <= k < |a| ensures a[k] in b {
        MapHas(a, a[k].key, a[k].val);
        MapHas(b, a[k].key, a[k].val);
      }
    }
    if forall k :: 0 <= k < |a| ==> a[k] in b {
      forall k | k in MapOf(a) ensures k in MapOf(b) && MapOf(b)[k] == MapOf(a)[k] {
        MapHas(a, k, MapOf(a)[k]);
        MapHas(b, k, MapOf(a)[k]);
      }
    }
  }
}
