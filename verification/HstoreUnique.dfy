/** Sorting pairs by key and dropping repeated keys. */
module HstoreUnique {
  import opened Hstore
  import opened HstorePacked
  import opened HstoreMemory
  import opened Options

  const PAIR_SIZE := 40

  /** A pair on its way into an hstore; `needfree` marks strings owned by the caller. */
  datatype Raw = Raw(pair: Pair, needfree: bool)

  /** `comparePairs`: by key, and of equal keys those that need freeing last. */
  function ComparePairs(a: Raw, b: Raw): int {
    var d := CompareKeys(a.pair.key, b.pair.key);
    if d != 0 then d
    else if a.needfree == b.needfree then 0
    else if a.needfree then 1 else -1
  }

  ghost predicate InOrder(s: seq<Raw>) {
    forall i, j :: 0 <= i < j < |s| ==> ComparePairs(s[i], s[j]) <= 0
  }

  lemma {:induction false} CompareOrder(a: Raw, b: Raw, c: Raw)
    ensures ComparePairs(a, b) <= 0 || ComparePairs(b, a) <= 0
    ensures ComparePairs(a, b) <= 0 && ComparePairs(b, c) <= 0 ==> ComparePairs(a, c) <= 0
  {
    var x, y, z := a.pair.key, b.pair.key, c.pair.key;
    KeyOrder(x, y, z);
    KeyOrder(y, z, x);
    KeyOrder(x, z, y);
  }

  /** Stands for `qsort`: callers rely on order and on the elements being the same, not on which of
      several equal elements comes first. */
  method Sort(s: seq<Raw>) returns (t: seq<Raw>)
    ensures InOrder(t) && |t| == |s| && forall x :: x in t <==> x in s
  {
    t := [];
    for i := 0 to |s|
      invariant InOrder(t) && |t| == i && forall x :: x in t <==> x in s[..i]
    {
      t := Insert(t, s[i]);
      assert s[..i + 1] == s[..i] + [s[i]];
    }
    assert s[..|s|] == s;
  }

  method Insert(t: seq<Raw>, x: Raw) returns (u: seq<Raw>)
    requires InOrder(t)
    ensures InOrder(u) && |u| == |t| + 1 && forall y :: y in u <==> y in t || y == x
  {
    var k := |t|;
    while k > 0 && ComparePairs(t[k - 1], x) > 0
      invariant 0 <= k <= |t| && forall i :: k <= i < |t| ==> ComparePairs(x, t[i]) <= 0
    {
      CompareOrder(x, t[k - 1], x);
      k := k - 1;
    }
    forall i | 0 <= i < k ensures ComparePairs(t[i], x) <= 0 {
      CompareOrder(t[i], t[k - 1], x);
    }
    u := t[..k] + [x] + t[k..];
    InsertKeeps(t, k, x, u);
  }

  lemma {:induction false} InsertKeeps(t: seq<Raw>, k: nat, x: Raw, u: seq<Raw>)
    requires InOrder(t) && k <= |t| && u == t[..k] + [x] + t[k..]
    requires forall i :: 0 <= i < k ==> ComparePairs(t[i], x) <= 0
    requires forall i :: k <= i < |t| ==> ComparePairs(x, t[i]) <= 0
    ensures InOrder(u) && forall y :: y in u <==> y in t || y == x
  {
    assert u[k] == x;
    forall i | 0 <= i < |t| ensures t[i] == u[if i < k then i else i + 1] {
    }
    forall i, j | 0 <= i < j < |u| ensures ComparePairs(u[i], u[j]) <= 0 {
      assert u[i] == if i < k then t[i] else if i == k then x else t[i - 1];
      assert u[j] == if j < k then t[j] else if j == k then x else t[j - 1];
    }
    assert t == t[..k] + t[k..];
  }

  // ----- dropping repeated keys -----

  ghost function PairsIn(s: seq<Raw>): seq<Pair> {
    seq(|s|, i requires 0 <= i < |s| => s[i].pair)
  }

  /** The first of each run of equal keys. */
  ghost function Firsts(s: seq<Raw>): seq<Raw> {
    if s == [] then []
    else
      var f, last := Firsts(s[..|s| - 1]), s[|s| - 1];
      if f != [] && f[|f| - 1].pair.key == last.pair.key then f else f + [last]
  }

  /** Every element of `f` comes from `s`. */
  ghost predicate From(f: seq<Raw>, s: seq<Raw>) {
    forall i :: 0 <= i < |f| ==> f[i] in s
  }

  /** `f` holds an element with the key of `x` that does not come after `x`. */
  ghost predicate HasRep(f: seq<Raw>, x: Raw) {
    exists i :: 0 <= i < |f| && f[i].pair.key == x.pair.key && ComparePairs(f[i], x) <= 0
  }

  ghost predicate Covers(f: seq<Raw>, s: seq<Raw>) {
    forall j :: 0 <= j < |s| ==> HasRep(f, s[j])
  }

  lemma {:induction false} FirstsFrom(s: seq<Raw>)
    ensures From(Firsts(s), s)
  {
    if s != [] {
      FirstsFrom(s[..|s| - 1]);
    }
  }

  lemma {:induction false} FirstsLast(s: seq<Raw>)
    requires s != []
    ensures Firsts(s) != [] && Firsts(s)[|Firsts(s)| - 1].pair.key == s[|s| - 1].pair.key
  {
  }

  /** The last of the firsts does not come after any later element. */
  lemma {:induction false} FirstsBefore(s: seq<Raw>, x: Raw)
    requires InOrder(s + [x]) && s != []
    ensures Firsts(s) != [] && ComparePairs(Firsts(s)[|Firsts(s)| - 1], x) <= 0
  {
    var f := Firsts(s);
    FirstsLast(s);
    FirstsFrom(s);
    var j :| 0 <= j < |s| && s[j] == f[|f| - 1];
    assert (s + [x])[j] == s[j] && (s + [x])[|s|] == x;
  }

  lemma {:induction false} FirstsCover(s: seq<Raw>)
    requires InOrder(s)
    ensures Covers(Firsts(s), s)
  {
    if s != [] {
      var front, last := s[..|s| - 1], s[|s| - 1];
      FirstsCover(front);
      assert s == front + [last];
      if front != [] {
        FirstsBefore(front, last);
      }
      CoverMore(Firsts(front), front, last);
    }
  }

  lemma {:induction false} CoverMore(f: seq<Raw>, front: seq<Raw>, last: Raw)
    requires Covers(f, front) && (f != [] ==> ComparePairs(f[|f| - 1], last) <= 0)
    ensures Covers(if f != [] && f[|f| - 1].pair.key == last.pair.key then f else f + [last], front + [last])
  {
    var same := f != [] && f[|f| - 1].pair.key == last.pair.key;
    var g, s := if same then f else f + [last], front + [last];
    forall j | 0 <= j < |s| ensures HasRep(g, s[j]) {
      if j < |front| {
        assert HasRep(f, front[j]);
        var i :| 0 <= i < |f| && f[i].pair.key == front[j].pair.key && ComparePairs(f[i], front[j]) <= 0;
        assert g[i] == f[i];
      } else {
        assert ComparePairs(last, last) == 0;
        assert g[|g| - 1].pair.key == last.pair.key;
      }
    }
  }

  lemma {:induction false} FirstsCanonical(s: seq<Raw>)
    requires InOrder(s)
    ensures Canonical(PairsIn(Firsts(s)))
  {
    if s != [] {
      var front, last := s[..|s| - 1], s[|s| - 1];
      FirstsCanonical(front);
      assert s == front + [last];
      if front != [] {
        FirstsBefore(front, last);
      }
      var f := Firsts(front);
      if !(f != [] && f[|f| - 1].pair.key == last.pair.key) {
        SnocCanonical(f, last);
      }
    }
  }

  lemma {:induction false} SnocCanonical(f: seq<Raw>, last: Raw)
    requires Canonical(PairsIn(f))
    requires f != [] ==> ComparePairs(f[|f| - 1], last) <= 0 && f[|f| - 1].pair.key != last.pair.key
    ensures Canonical(PairsIn(f + [last]))
  {
    var g := PairsIn(f + [last]);
    forall i, j | 0 <= i < j < |g| ensures KeyLess(g[i].key, g[j].key) {
      if j < |f| {
        assert g[i] == PairsIn(f)[i] && g[j] == PairsIn(f)[j];
      } else {
        assert g[i] == PairsIn(f)[i] && PairsIn(f)[|f| - 1] == f[|f| - 1].pair;
        KeyOrder(f[i].pair.key, f[|f| - 1].pair.key, last.pair.key);
      }
    }
  }

  function RawSize(r: Raw): nat {
    |PairBytes(r.pair)|
  }

  lemma {:induction false} BytesMore(s: seq<Raw>, r: Raw)
    ensures |Bytes(PairsIn(s + [r]))| == |Bytes(PairsIn(s))| + RawSize(r)
  {
    var ps := PairsIn(s + [r]);
    assert ps[..|s|] == PairsIn(s) && ps[|s|] == r.pair;
  }

  ghost function TotalSize(f: seq<Raw>): nat {
    if f == [] then 0 else TotalSize(f[..|f| - 1]) + RawSize(f[|f| - 1])
  }

  lemma {:induction false} TotalMore(f: seq<Raw>, r: Raw)
    ensures TotalSize(f + [r]) == TotalSize(f) + RawSize(r)
  {
    assert (f + [r])[..|f|] == f;
  }

  lemma {:induction false} TotalIsBytes(f: seq<Raw>)
    ensures TotalSize(f) == |Bytes(PairsIn(f))|
  {
    if f != [] {
      var front, last := f[..|f| - 1], f[|f| - 1];
      TotalIsBytes(front);
      BytesMore(front, last);
      assert front + [last] == f;
    }
  }

  /** `hstoreUniquePairs`: sorts the array and compacts it in place; returns how many pairs are left and
      how many bytes they need. */
  method UniquePairs(a: array<Raw>) returns (n: nat, buflen: nat)
    modifies a
    ensures n <= a.Length && buflen == |Bytes(PairsIn(a[..n]))|
    ensures Canonical(PairsIn(a[..n])) && From(a[..n], old(a[..])) && Covers(a[..n], old(a[..]))
  {
    var l := a.Length;
    if l < 2 {
      if l == 1 {
        assert a[..1] == a[..] == [] + [a[0]];
        BytesMore([], a[0]);
        return 1, RawSize(a[0]);
      }
      return 0, 0;
    }
    var s := Sort(a[..]);
    CopyBack(a, s);
    n, buflen := Compact(a, s);
    FirstsFrom(s);
    FirstsCover(s);
    FirstsCanonical(s);
    SameElements(Firsts(s), s, old(a[..]));
  }

  lemma {:induction false} SameElements(f: seq<Raw>, s: seq<Raw>, t: seq<Raw>)
    requires From(f, s) && Covers(f, s) && forall x :: x in s <==> x in t
    ensures From(f, t) && Covers(f, t)
  {
    forall j | 0 <= j < |t| ensures HasRep(f, t[j]) {
      assert t[j] in s;
      var i :| 0 <= i < |s| && s[i] == t[j];
      assert HasRep(f, s[i]);
    }
  }

  method CopyBack(a: array<Raw>, s: seq<Raw>)
    requires |s| == a.Length
    modifies a
    ensures a[..] == s
  {
    for i := 0 to |s|
      invariant a[..i] == s[..i]
    {
      a[i] := s[i];
    }
  }

  /** The compaction loop: `res` follows `ptr` and receives every pair with a new key. */
  method Compact(a: array<Raw>, ghost s: seq<Raw>) returns (n: nat, buflen: nat)
    requires a.Length >= 2 && a[..] == s
    modifies a
    ensures n <= a.Length && a[..n] == Firsts(s) && buflen == |Bytes(PairsIn(a[..n]))|
  {
    var ptr, res := 1, 0;
    buflen := 0;
    ghost var kept := [s[0]];
    FirstsStep(s, 0);
    assert kept[..0] == [];
    while ptr < a.Length
      invariant 0 <= res && 0 <= ptr && Compacting(a, s, ptr, res, buflen, kept)
    {
      res, buflen, kept := Advance(a, s, ptr, res, buflen, kept);
      ptr := ptr + 1;
    }
    assert s[..a.Length] == s;
    assert a[..res + 1] == kept;
    TotalIsBytes(kept);
    buflen := buflen + RawSize(a[res]);
    n := res + 1;
  }

  /** The first `ptr` pairs are compacted into `a[..res + 1]`; the last of these is not yet counted. */
  ghost predicate Compacting(a: array<Raw>, s: seq<Raw>, ptr: nat, res: nat, buflen: nat, kept: seq<Raw>)
    reads a
  {
    && res < ptr <= a.Length == |s| && kept == Firsts(s[..ptr]) && Held(a, kept, res)
    && (forall i :: ptr <= i < a.Length ==> a[i] == s[i])
    && buflen + RawSize(kept[res]) == TotalSize(kept)
  }

  method Advance(a: array<Raw>, ghost s: seq<Raw>, ptr: nat, res: nat, buflen: nat, ghost kept: seq<Raw>)
    returns (res': nat, buflen': nat, ghost kept': seq<Raw>)
    requires ptr < a.Length && Compacting(a, s, ptr, res, buflen, kept)
    modifies a
    ensures Compacting(a, s, ptr + 1, res', buflen', kept')
  {
    FirstsStep(s, ptr);
    if a[ptr].pair.key == a[res].pair.key {
      return res, buflen, kept;
    }
    TotalMore(kept, s[ptr]);
    kept' := kept + [s[ptr]];
    buflen' := buflen + RawSize(a[res]);
    res' := res + 1;
    a[res'] := a[ptr];
  }

  ghost predicate Held(a: array<Raw>, kept: seq<Raw>, res: nat)
    reads a
  {
    |kept| == res + 1 <= a.Length && forall i :: 0 <= i <= res ==> a[i] == kept[i]
  }

  lemma {:induction false} FirstsStep(s: seq<Raw>, k: nat)
    requires k < |s|
    ensures var f := Firsts(s[..k]);
      Firsts(s[..k + 1]) == if f != [] && f[|f| - 1].pair.key == s[k].pair.key then f else f + [s[k]]
  {
    assert s[..k + 1][..k] == s[..k];
  }

  // ----- what the result means -----

  /** The keys are exactly the given keys. */
  lemma {:induction false} UniqueKeys(f: seq<Raw>, s: seq<Raw>)
    requires From(f, s) && Covers(f, s)
    ensures Keys(PairsIn(f)) == Keys(PairsIn(s))
  {
    KeysFrom(f, s);
    forall k | k in Keys(PairsIn(s)) ensures k in Keys(PairsIn(f)) {
      var i :| 0 <= i < |s| && PairsIn(s)[i].key == k;
      CoveredKey(f, s, i);
    }
  }

  lemma {:induction false} KeysFrom(f: seq<Raw>, s: seq<Raw>)
    requires From(f, s)
    ensures Keys(PairsIn(f)) <= Keys(PairsIn(s))
  {
    forall k | k in Keys(PairsIn(f)) ensures k in Keys(PairsIn(s)) {
      var i :| 0 <= i < |f| && PairsIn(f)[i].key == k;
      var j :| 0 <= j < |s| && s[j] == f[i];
      assert PairsIn(s)[j].key == k;
    }
  }

  lemma {:induction false} CoveredKey(f: seq<Raw>, s: seq<Raw>, j: nat)
    requires Covers(f, s) && j < |s|
    ensures s[j].pair.key in Keys(PairsIn(f))
  {
    assert HasRep(f, s[j]);
    var i :| 0 <= i < |f| && f[i].pair.key == s[j].pair.key && ComparePairs(f[i], s[j]) <= 0;
    assert PairsIn(f)[i].key == s[j].pair.key;
  }

  /** A pair that needs freeing is kept only if every pair with its key needs freeing. */
  lemma {:induction false} PrefersShared(f: seq<Raw>, s: seq<Raw>, i: nat, j: nat)
    requires Canonical(PairsIn(f)) && Covers(f, s) && i < |f| && j < |s|
    requires f[i].pair.key == s[j].pair.key && f[i].needfree
    ensures s[j].needfree
  {
    assert HasRep(f, s[j]);
    var k :| 0 <= k < |f| && f[k].pair.key == s[j].pair.key && ComparePairs(f[k], s[j]) <= 0;
    SameKeySame(f, i, k);
  }

  lemma {:induction false} SameKeySame(f: seq<Raw>, i: nat, k: nat)
    requires Canonical(PairsIn(f)) && i < |f| && k < |f| && f[i].pair.key == f[k].pair.key
    ensures i == k
  {
    var ps := PairsIn(f);
    KeyOrder(ps[i].key, ps[k].key, ps[i].key);
  }

  // ----- keys given as an array -----

  ghost function TextsIn(keys: seq<Value>): set<string> {
    set i | 0 <= i < |keys| && keys[i].Text? :: keys[i].s
  }

  /** `hstoreArrayToPairs`: nulls are dropped, the rest is sorted without repetition; too many keys are an error. */
  method ArrayToPairs(keys: seq<Value>) returns (ps: Option<seq<Pair>>)
    ensures ps.None? <==> |keys| > MAXALLOC / PAIR_SIZE
    ensures ps.Some? ==> Canonical(ps.value) && Keys(ps.value) == TextsIn(keys)
  {
    if |keys| > MAXALLOC / PAIR_SIZE { return None; }
    var raw: seq<Raw> := [];
    for i := 0 to |keys|
      invariant Keys(PairsIn(raw)) == TextsIn(keys[..i])
    {
      TextsMore(keys, i);
      if keys[i].Text? {
        KeysMore(raw, Raw(Pair(keys[i].s, Null), false));
        raw := raw + [Raw(Pair(keys[i].s, Null), false)];
      }
    }
    assert keys[..|keys|] == keys;
    var a := new Raw[|raw|](i requires 0 <= i < |raw| => raw[i]);
    assert a[..] == raw;
    var n, _ := UniquePairs(a);
    UniqueKeys(a[..n], raw);
    var qs := TakePairs(a, n);
    return Some(qs);
  }

  method TakePairs(a: array<Raw>, n: nat) returns (qs: seq<Pair>)
    requires n <= a.Length
    ensures qs == PairsIn(a[..n])
  {
    qs := seq(n, i requires 0 <= i < n reads a => a[i].pair);
  }

  lemma {:induction false} TextsMore(keys: seq<Value>, i: nat)
    requires i < |keys|
    ensures TextsIn(keys[..i + 1]) == TextsIn(keys[..i]) + if keys[i].Text? then {keys[i].s} else {}
  {
    var t, u := TextsIn(keys[..i + 1]), TextsIn(keys[..i]);
    forall k | k in u ensures k in t {
      var j :| 0 <= j < i && keys[..i][j].Text? && keys[..i][j].s == k;
      assert keys[..i + 1][j].s == k;
    }
    forall k | k in t ensures k in u || (keys[i].Text? && k == keys[i].s) {
      var j :| 0 <= j < i + 1 && keys[..i + 1][j].Text? && keys[..i + 1][j].s == k;
      assert j < i ==> keys[..i][j].s == k;
    }
    if keys[i].Text? {
      assert keys[..i + 1][i].s in t;
    }
  }

  lemma {:induction false} KeysMore(s: seq<Raw>, r: Raw)
    ensures Keys(PairsIn(s + [r])) == Keys(PairsIn(s)) + {r.pair.key}
  {
    var ps, qs := PairsIn(s + [r]), PairsIn(s);
    forall k | k in Keys(qs) ensures k in Keys(ps) {
      var j :| 0 <= j < |qs| && qs[j].key == k;
      assert ps[j].key == k;
    }
    forall k | k in Keys(ps) ensures k in Keys(qs) || k == r.pair.key {
      var j :| 0 <= j < |ps| && ps[j].key == k;
      assert j < |s| ==> qs[j].key == k;
    }
    assert ps[|s|].key in Keys(ps);
  }
}
