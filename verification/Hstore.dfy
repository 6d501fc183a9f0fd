/** Key/value pairs, the order of keys, and the finite map a sorted list of pairs stands for. */
module Hstore {
  import opened Orders

  datatype Value = Null | Text(s: string)

  datatype Pair = Pair(key: string, val: Value)

  // ----- the order of keys: shorter first, then bytewise -----

  /** Sign of the comparison every merge and search makes. */
  function CompareKeys(a: string, b: string): (r: int)
    ensures r == 0 <==> a == b
  {
    if |a| == |b| then
      assert a[..|a|] == a && b[..|b|] == b;
      MemCmp(a, b, |a|)
    else if |a| > |b| then 1 else -1
  }

  predicate KeyLess(a: string, b: string) {
    CompareKeys(a, b) < 0
  }

  /** `KeyLess` is a strict total order. */
  lemma {:induction false} KeyOrder(a: string, b: string, c: string)
    ensures !KeyLess(a, a)
    ensures KeyLess(a, b) || KeyLess(b, a) || a == b
    ensures CompareKeys(a, b) > 0 <==> KeyLess(b, a)
    ensures KeyLess(a, b) && KeyLess(b, c) ==> KeyLess(a, c)
  {
    CharTotal();
    assert a[..|a|] == a && b[..|b|] == b && c[..|c|] == c;
    if |a| == |b| {
      LexFlips(a, b, CharCmp);
      if KeyLess(a, b) && KeyLess(b, c) && |b| == |c| {
        LexTransitive(a, b, c, CharCmp);
      }
    }
  }

  /** The shorter key comes first, and of two of equal length the one with the smaller byte at the first
      difference. */
  lemma {:induction false} KeyExactly(a: string, b: string)
    ensures KeyLess(a, b) <==>
            |a| < |b| || (|a| == |b| && exists n :: 0 <= n < |a| && a[..n] == b[..n] && a[n] < b[n])
  {
    if |a| == |b| {
      MemExactly(a, b);
      if TextLess(a, b) {
        var n: nat :| BeforeAt(a, b, n, CharLess);
        assert a[..n] == b[..n] && a[n] < b[n];
      }
      if exists n :: 0 <= n < |a| && a[..n] == b[..n] && a[n] < b[n] {
        var n :| 0 <= n < |a| && a[..n] == b[..n] && a[n] < b[n];
        assert BeforeAt(a, b, n, CharLess);
      }
    }
  }

  // ----- sorted pairs and maps -----

  /** Keys strictly increase. */
  ghost predicate Canonical(ps: seq<Pair>) {
    forall i, j :: 0 <= i < j < |ps| ==> KeyLess(ps[i].key, ps[j].key)
  }

  ghost function Keys(ps: seq<Pair>): set<string> {
    set i | 0 <= i < |ps| :: ps[i].key
  }

  /** The map a list of pairs stands for; of pairs with the same key the first counts. */
  ghost function MapOf(ps: seq<Pair>): map<string, Value> {
    if ps == [] then map[] else MapOf(ps[1..])[ps[0].key := ps[0].val]
  }

  lemma {:induction false} MapKeys(ps: seq<Pair>)
    ensures MapOf(ps).Keys == Keys(ps)
  {
    if ps != [] {
      MapKeys(ps[1..]);
      forall k | k in Keys(ps) ensures k in Keys(ps[1..]) + {ps[0].key} {
        var i :| 0 <= i < |ps| && ps[i].key == k;
        if i > 0 {
          assert ps[1..][i - 1].key == k;
        }
      }
      forall k | k in Keys(ps[1..]) ensures k in Keys(ps) {
        var i :| 0 <= i < |ps[1..]| && ps[1..][i].key == k;
        assert ps[i + 1].key == k;
      }
    }
  }

  lemma {:induction false} MapAt(ps: seq<Pair>, i: nat)
    requires Canonical(ps) && i < |ps|
    ensures ps[i].key in MapOf(ps) && MapOf(ps)[ps[i].key] == ps[i].val
  {
    if i > 0 {
      assert KeyLess(ps[0].key, ps[i].key);
      KeyOrder(ps[0].key, ps[0].key, ps[0].key);
      MapAt(ps[1..], i - 1);
    }
  }

  /** Membership in the map is membership in the list. */
  lemma {:induction false} MapHas(ps: seq<Pair>, k: string, v: Value)
    requires Canonical(ps)
    ensures k in MapOf(ps) && MapOf(ps)[k] == v <==> Pair(k, v) in ps
  {
    MapKeys(ps);
    if k in MapOf(ps) {
      var i :| 0 <= i < |ps| && ps[i].key == k;
      MapAt(ps, i);
      assert ps[i] == Pair(k, MapOf(ps)[k]);
    }
    if Pair(k, v) in ps {
      var i :| 0 <= i < |ps| && ps[i] == Pair(k, v);
      MapAt(ps, i);
    }
  }

  /** A sorted list is determined by its map. */
  lemma {:induction false} MapDetermines(a: seq<Pair>, b: seq<Pair>)
    requires Canonical(a) && Canonical(b) && MapOf(a) == MapOf(b)
    ensures a == b
  {
    MapKeys(a);
    MapKeys(b);
    KeysEmpty(a);
    KeysEmpty(b);
    if a != [] && b != [] {
      FirstIsLeast(a, b);
      assert a[0] == b[0] by {
        MapAt(a, 0);
        MapAt(b, 0);
      }
      TailMap(a);
      TailMap(b);
      MapDetermines(a[1..], b[1..]);
      assert a == [a[0]] + a[1..] && b == [b[0]] + b[1..];
    }
  }

  lemma {:induction false} KeysEmpty(ps: seq<Pair>)
    ensures Keys(ps) == {} <==> ps == []
  {
    if ps != [] {
      assert ps[0].key in Keys(ps);
    }
  }

  lemma {:induction false} FirstIsLeast(a: seq<Pair>, b: seq<Pair>)
    requires Canonical(a) && Canonical(b) && Keys(a) == Keys(b) && a != [] && b != []
    ensures a[0].key == b[0].key
  {
    var x, y := a[0].key, b[0].key;
    assert x in Keys(b) && y in Keys(a);
    var i :| 0 <= i < |b| && b[i].key == x;
    var j :| 0 <= j < |a| && a[j].key == y;
    KeyOrder(x, y, x);
  }

  lemma {:induction false} TailMap(a: seq<Pair>)
    requires Canonical(a) && a != []
    ensures MapOf(a[1..]) == MapOf(a) - {a[0].key}
  {
    var k, t := a[0].key, a[1..];
    forall i | 0 <= i < |t| ensures KeyLess(k, t[i].key) {
      assert KeyLess(k, a[i + 1].key);
    }
    BelowNotKey(k, t);
  }

  /** `k` lies below every key of `ps`. */
  ghost predicate Below(k: string, ps: seq<Pair>) {
    forall i :: 0 <= i < |ps| ==> KeyLess(k, ps[i].key)
  }

  lemma {:induction false} BelowNotKey(k: string, ps: seq<Pair>)
    requires Below(k, ps)
    ensures k !in MapOf(ps)
  {
    MapKeys(ps);
    KeyOrder(k, k, k);
  }

  // ----- union -----

  /** The merge of two sorted lists; on equal keys the second list's pair is taken. */
  function Merge(a: seq<Pair>, b: seq<Pair>): seq<Pair>
    decreases |a| + |b|
  {
    if a == [] then b
    else if b == [] then a
    else
      var d := CompareKeys(a[0].key, b[0].key);
      if d < 0 then [a[0]] + Merge(a[1..], b)
      else if d == 0 then [b[0]] + Merge(a[1..], b[1..])
      else [b[0]] + Merge(a, b[1..])
  }

  lemma {:induction false} PrependCanonical(p: Pair, ps: seq<Pair>)
    requires Below(p.key, ps) && Canonical(ps)
    ensures Canonical([p] + ps)
  {
  }

  lemma {:induction false} BelowTail(k: string, ps: seq<Pair>)
    requires Canonical(ps) && ps != [] && KeyLess(k, ps[0].key)
    ensures Below(k, ps)
  {
    forall i | 0 <= i < |ps| ensures KeyLess(k, ps[i].key) {
      if i > 0 {
        KeyOrder(k, ps[0].key, ps[i].key);
      }
    }
  }

  lemma {:induction false} MergeBelow(k: string, a: seq<Pair>, b: seq<Pair>)
    requires Below(k, a) && Below(k, b)
    ensures Below(k, Merge(a, b))
    decreases |a| + |b|
  {
    if a != [] && b != [] {
      MergeBelow(k, a[1..], b);
      MergeBelow(k, a[1..], b[1..]);
      MergeBelow(k, a, b[1..]);
    }
  }

  lemma {:induction false} MergeCanonical(a: seq<Pair>, b: seq<Pair>)
    requires Canonical(a) && Canonical(b)
    ensures Canonical(Merge(a, b))
    decreases |a| + |b|
  {
    if a != [] && b != [] {
      var x, y := a[0].key, b[0].key;
      KeyOrder(x, y, x);
      if CompareKeys(x, y) < 0 {
        BelowTail(x, b);
        MergeBelow(x, a[1..], b);
        MergeCanonical(a[1..], b);
        PrependCanonical(a[0], Merge(a[1..], b));
      } else if CompareKeys(x, y) == 0 {
        MergeBelow(y, a[1..], b[1..]);
        MergeCanonical(a[1..], b[1..]);
        PrependCanonical(b[0], Merge(a[1..], b[1..]));
      } else {
        BelowTail(y, a);
        MergeBelow(y, a, b[1..]);
        MergeCanonical(a, b[1..]);
        PrependCanonical(b[0], Merge(a, b[1..]));
      }
    }
  }

  lemma {:induction false} MapCons(p: Pair, ps: seq<Pair>)
    ensures MapOf([p] + ps) == MapOf(ps)[p.key := p.val]
  {
    assert ([p] + ps)[1..] == ps;
  }

  lemma {:induction false} UnionMoveLeft(m: map<string, Value>, n: map<string, Value>, p: Pair)
    requires p.key !in n
    ensures (m + n)[p.key := p.val] == m[p.key := p.val] + n
  {
  }

  lemma {:induction false} UnionMoveRight(m: map<string, Value>, n: map<string, Value>, p: Pair, v: Value)
    ensures (m + n)[p.key := p.val] == m + n[p.key := p.val]
    ensures (m + n)[p.key := p.val] == m[p.key := v] + n[p.key := p.val]
  {
  }

  /** The merge is the map union in which the second map wins. */
  lemma {:induction false} MergeIsUnion(a: seq<Pair>, b: seq<Pair>)
    requires Canonical(a) && Canonical(b)
    ensures MapOf(Merge(a, b)) == MapOf(a) + MapOf(b)
    decreases |a| + |b|
  {
    if a == [] {
      assert MapOf(a) == map[];
    } else if b == [] {
      assert MapOf(b) == map[];
    } else {
      var x, y := a[0].key, b[0].key;
      KeyOrder(x, y, x);
      if CompareKeys(x, y) < 0 {
        BelowTail(x, b);
        BelowNotKey(x, b);
        MergeIsUnion(a[1..], b);
        MapCons(a[0], Merge(a[1..], b));
        UnionMoveLeft(MapOf(a[1..]), MapOf(b), a[0]);
      } else if CompareKeys(x, y) == 0 {
        MergeIsUnion(a[1..], b[1..]);
        MapCons(b[0], Merge(a[1..], b[1..]));
        UnionMoveRight(MapOf(a[1..]), MapOf(b[1..]), b[0], a[0].val);
      } else {
        MergeIsUnion(a, b[1..]);
        MapCons(b[0], Merge(a, b[1..]));
        UnionMoveRight(MapOf(a), MapOf(b[1..]), b[0], b[0].val);
      }
    }
  }

  // ----- removal -----

  /** The pairs that satisfy `f`, in order. */
  function Select(ps: seq<Pair>, f: Pair -> bool): seq<Pair> {
    if ps == [] then []
    else Select(ps[..|ps| - 1], f) + if f(ps[|ps| - 1]) then [ps[|ps| - 1]] else []
  }

  lemma {:induction false} SelectHas(ps: seq<Pair>, f: Pair -> bool, p: Pair)
    ensures p in Select(ps, f) <==> p in ps && f(p)
  {
    if ps != [] {
      SelectHas(ps[..|ps| - 1], f, p);
      assert ps == ps[..|ps| - 1] + [ps[|ps| - 1]];
    }
  }

  lemma {:induction false} SelectCanonical(ps: seq<Pair>, f: Pair -> bool)
    requires Canonical(ps)
    ensures Canonical(Select(ps, f))
  {
    if ps != [] {
      var front, last := ps[..|ps| - 1], ps[|ps| - 1];
      SelectCanonical(front, f);
      var s := Select(front, f);
      forall i | 0 <= i < |s| ensures KeyLess(s[i].key, last.key) {
        SelectHas(front, f, s[i]);
        var j :| 0 <= j < |front| && front[j] == s[i];
        assert ps[j] == s[i];
      }
    }
  }

  /** Selecting from a sorted list keeps exactly the map entries that satisfy `f`. */
  lemma {:induction false} SelectIsRestriction(ps: seq<Pair>, f: Pair -> bool)
    requires Canonical(ps)
    ensures Canonical(Select(ps, f))
    ensures MapOf(Select(ps, f)) == map k | k in MapOf(ps) && f(Pair(k, MapOf(ps)[k])) :: MapOf(ps)[k]
  {
    SelectCanonical(ps, f);
    var m, n := MapOf(Select(ps, f)), MapOf(ps);
    forall k | k in m ensures k in n && f(Pair(k, n[k])) && m[k] == n[k] {
      SelectedEntry(ps, f, k, m[k]);
    }
    forall k | k in n && f(Pair(k, n[k])) ensures k in m {
      SelectedEntry(ps, f, k, n[k]);
    }
  }

  lemma {:induction false} SelectedEntry(ps: seq<Pair>, f: Pair -> bool, k: string, v: Value)
    requires Canonical(ps) && Canonical(Select(ps, f))
    ensures var m, n := MapOf(Select(ps, f)), MapOf(ps);
            k in m && m[k] == v <==> k in n && n[k] == v && f(Pair(k, v))
  {
    MapHas(Select(ps, f), k, v);
    MapHas(ps, k, v);
    SelectHas(ps, f, Pair(k, v));
  }
}
