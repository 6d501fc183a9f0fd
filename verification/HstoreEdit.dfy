/** The operators that build a new hstore: removal, slicing and concatenation. */
module HstoreEdit {
  import opened Hstore
  import opened HstorePacked
  import opened HstoreMemory
  import opened HstoreBuild
  import opened HstoreOps
  import opened Options

  // ----- selecting pairs of one value -----

  lemma {:induction false} ShownBytes(v: Packed, ps: seq<Pair>)
    requires Shows(v, ps)
    ensures v.str == Bytes(ps)
  {
    assert PairsOf(v) == ps;
    PackUnique(v);
  }

  lemma {:induction false} SelectSize(ps: seq<Pair>, f: Pair -> bool)
    ensures |Select(ps, f)| <= |ps| && |Bytes(Select(ps, f))| <= |Bytes(ps)|
  {
    if ps != [] {
      var front, last := ps[..|ps| - 1], ps[|ps| - 1];
      SelectSize(front, f);
      SnocSize(Select(front, f), last);
      assert !f(last) ==> Select(ps, f) == Select(front, f);
    }
  }

  lemma {:induction false} SnocSize(ps: seq<Pair>, q: Pair)
    ensures |Bytes(ps + [q])| == |Bytes(ps)| + |PairBytes(q)|
  {
    AppendBytes(ps, q);
  }

  lemma {:induction false} SelectIsRemoval(ps: seq<Pair>, f: Pair -> bool, gone: set<string>)
    requires Canonical(ps) && forall p :: f(p) <==> p.key !in gone
    ensures MapOf(Select(ps, f)) == MapOf(ps) - gone
  {
    SelectIsRestriction(ps, f);
    var m, n := MapOf(Select(ps, f)), MapOf(ps);
    forall k | k in m ensures k in n && k !in gone && m[k] == n[k] {
      assert f(Pair(k, n[k]));
    }
    forall k | k in n && k !in gone ensures k in m {
      assert f(Pair(k, n[k]));
    }
  }

  /** The builder has taken the pairs of `ps[..i]` that satisfy `f`, in a block as large as the source. */
  ghost predicate Copying(b: Builder, v: Packed, ps: seq<Pair>, i: nat, f: Pair -> bool)
    reads b, b.mem
  {
    && i <= |ps| && b.Valid() && b.pairs == Select(ps[..i], f)
    && b.room == |ps| && b.mem.Length == 8 * |ps| + |Bytes(ps)|
  }

  method StartCopy(v: Packed, ghost ps: seq<Pair>, ghost f: Pair -> bool) returns (b: Builder)
    requires Shows(v, ps) && Storable(ps)
    ensures Copying(b, v, ps, 0, f) && fresh(b) && fresh(b.mem)
  {
    ShownBytes(v, ps);
    b := new Builder(|v.slots|, 8 * |v.slots| + |v.str|);
  }

  lemma {:induction false} RoomToCopy(ps: seq<Pair>, i: nat, f: Pair -> bool)
    requires i < |ps|
    ensures |Select(ps[..i], f)| <= i && |Bytes(Select(ps[..i], f))| + |PairBytes(ps[i])| <= |Bytes(ps)|
    ensures Select(ps[..i + 1], f) == Select(ps[..i], f) + if f(ps[i]) then [ps[i]] else []
  {
    SelectSize(ps[..i], f);
    PrefixBytes(ps, i);
    assert ps[..i + 1][..i] == ps[..i];
  }

  /** Copies pair `i` or skips it. */
  method CopyIf(keep: bool, b: Builder, v: Packed, i: nat, ghost ps: seq<Pair>, ghost f: Pair -> bool)
    requires Shows(v, ps) && i < |ps| && Copying(b, v, ps, i, f) && keep == f(ps[i])
    modifies b, b.mem
    ensures Copying(b, v, ps, i + 1, f)
  {
    RoomToCopy(ps, i, f);
    if keep {
      assert PairAt(v, i) == ps[i];
      b.CopyItem(v, i);
    }
  }

  method FinishCopy(b: Builder, v: Packed, ghost ps: seq<Pair>, ghost f: Pair -> bool) returns (out: HStore)
    requires Canonical(ps) && Copying(b, v, ps, |ps|, f)
    modifies b.mem
    ensures IsHStore(out) && Pairs(out) == Select(ps, f)
  {
    assert ps[..|ps|] == ps;
    SelectCanonical(ps, f);
    out := b.Finalize();
    StoreIsHStore(b.pairs);
  }

  /** `hstore_delete`. */
  method Delete(v: Packed, key: string, ghost ps: seq<Pair>) returns (out: HStore)
    requires Shows(v, ps) && Storable(ps)
    ensures IsHStore(out) && MapOf(Pairs(out)) == MapOf(ps) - {key}
  {
    ghost var f := (p: Pair) => p.key != key;
    var b := StartCopy(v, ps, f);
    for i := 0 to |v.slots|
      invariant Copying(b, v, ps, i, f) && fresh(b) && fresh(b.mem)
    {
      assert PairAt(v, i) == ps[i];
      CopyIf(KeyAt(v, i) != key, b, v, i, ps, f);
    }
    out := FinishCopy(b, v, ps, f);
    SelectIsRemoval(ps, f, {key});
  }

  /** Sign of comparing key `i` of the value with key `j` of a sorted list, past whose end every key is
      smaller. */
  function Step(key: string, other: seq<Pair>, j: nat): int {
    if j >= |other| then -1 else CompareKeys(key, other[j].key)
  }

  /** What one comparison of the merge tells about `key`. */
  lemma {:induction false} StepTells(key: string, other: seq<Pair>, j: nat)
    requires Canonical(other) && Passed(other, j, key)
    ensures Step(key, other, j) > 0 ==> Passed(other, j + 1, key)
    ensures Step(key, other, j) == 0 ==> j < |other| && other[j].key == key
    ensures Step(key, other, j) < 0 ==> key !in Keys(other)
  {
    if j < |other| {
      KeyOrder(key, other[j].key, key);
    }
    if Step(key, other, j) < 0 {
      forall i | 0 <= i < |other| ensures other[i].key != key {
        KeyOrder(key, key, key);
        if j < i {
          KeyOrder(key, other[j].key, other[i].key);
        }
      }
    }
  }

  /** Moving on to the next key of the value keeps what was passed, and passes an equal key. */
  lemma {:induction false} StepOver(ps: seq<Pair>, i: nat, other: seq<Pair>, j: nat, equal: bool)
    requires Canonical(ps) && i < |ps| && Passed(other, j, ps[i].key)
    requires equal ==> j < |other| && other[j].key == ps[i].key
    ensures i + 1 < |ps| ==> Passed(other, if equal then j + 1 else j, ps[i + 1].key)
  {
    if i + 1 < |ps| {
      forall k | 0 <= k < if equal then j + 1 else j ensures KeyLess(other[k].key, ps[i + 1].key) {
        KeyOrder(other[k].key, ps[i].key, ps[i + 1].key);
      }
    }
  }

  /** `hstore_delete_array`: a merge of the value with the sorted keys. */
  method DeleteArray(v: Packed, keys: seq<Pair>, ghost ps: seq<Pair>) returns (out: HStore)
    requires Shows(v, ps) && Storable(ps) && Canonical(keys)
    ensures IsHStore(out) && MapOf(Pairs(out)) == MapOf(ps) - Keys(keys)
  {
    ghost var gone := Keys(keys);
    ghost var f := (p: Pair) => p.key !in gone;
    var b := StartCopy(v, ps, f);
    var i, j := 0, 0;
    while i < |v.slots|
      invariant 0 <= i <= |ps| && 0 <= j <= |keys| && Copying(b, v, ps, i, f) && fresh(b) && fresh(b.mem)
      invariant i < |ps| ==> Passed(keys, j, ps[i].key)
      decreases |ps| - i + |keys| - j
    {
      assert PairAt(v, i) == ps[i];
      var difference := Step(KeyAt(v, i), keys, j);
      StepTells(ps[i].key, keys, j);
      if difference > 0 {
        j := j + 1;
      } else {
        StepOver(ps, i, keys, j, difference == 0);
        CopyIf(difference != 0, b, v, i, ps, f);
        i, j := i + 1, if difference == 0 then j + 1 else j;
      }
    }
    out := FinishCopy(b, v, ps, f);
    SelectIsRemoval(ps, f, gone);
  }

  /** `hstore_delete_hstore`: of equal keys the pair goes only if the values are equal too. */
  method DeleteHstore(v: Packed, w: Packed, ghost ps: seq<Pair>, ghost qs: seq<Pair>) returns (out: HStore)
    requires Shows(v, ps) && Storable(ps) && Shows(w, qs)
    ensures IsHStore(out)
    ensures MapOf(Pairs(out)) ==
      map k | k in MapOf(ps) && !(k in MapOf(qs) && MapOf(qs)[k] == MapOf(ps)[k]) :: MapOf(ps)[k]
  {
    ghost var f := (p: Pair) => p !in qs;
    var b := StartCopy(v, ps, f);
    var i, j := 0, 0;
    while i < |v.slots|
      invariant 0 <= i <= |ps| && 0 <= j <= |qs| && Copying(b, v, ps, i, f) && fresh(b) && fresh(b.mem)
      invariant i < |ps| ==> Passed(qs, j, ps[i].key)
      decreases |ps| - i + |qs| - j
    {
      var difference, keep := MeetPair(v, w, i, j, ps, qs);
      if difference > 0 {
        j := j + 1;
      } else {
        StepOver(ps, i, qs, j, difference == 0);
        CopyIf(keep, b, v, i, ps, f);
        i, j := i + 1, if difference == 0 then j + 1 else j;
      }
    }
    out := FinishCopy(b, v, ps, f);
    SelectIsDifference(ps, qs, f);
  }

  lemma {:induction false} SelectIsDifference(ps: seq<Pair>, qs: seq<Pair>, f: Pair -> bool)
    requires Canonical(ps) && Canonical(qs) && forall p :: f(p) <==> p !in qs
    ensures var a, b := MapOf(ps), MapOf(qs);
      MapOf(Select(ps, f)) == map k | k in a && !(k in b && b[k] == a[k]) :: a[k]
  {
    SelectIsRestriction(ps, f);
    var a, b := MapOf(ps), MapOf(qs);
    forall k | k in a ensures f(Pair(k, a[k])) <==> !(k in b && b[k] == a[k]) {
      MapHas(qs, k, a[k]);
    }
  }

  /** Compares pair `i` of the value with pair `j` of the value taken away. */
  method MeetPair(v: Packed, w: Packed, i: nat, j: nat, ghost ps: seq<Pair>, ghost qs: seq<Pair>)
    returns (difference: int, keep: bool)
    requires Shows(v, ps) && Shows(w, qs) && i < |ps| && j <= |qs| && Passed(qs, j, ps[i].key)
    ensures difference > 0 ==> j < |qs| && Passed(qs, j + 1, ps[i].key)
    ensures difference == 0 ==> j < |qs| && qs[j].key == ps[i].key
    ensures difference <= 0 ==> (keep <==> ps[i] !in qs)
  {
    assert PairAt(v, i) == ps[i];
    StepTells(ps[i].key, qs, j);
    if j >= |w.slots| {
      NotAmong(qs, ps[i]);
      return -1, true;
    }
    assert PairAt(w, j) == qs[j];
    difference := CompareKeys(KeyAt(v, i), KeyAt(w, j));
    keep := difference != 0 || ValAt(v, i) != ValAt(w, j);
    if difference == 0 {
      OnlyAt(qs, j, ps[i]);
    } else if difference < 0 {
      NotAmong(qs, ps[i]);
    }
  }

  // ----- slicing -----

  /** The pairs of `ps` whose key is among the first `i` keys, sorted. */
  ghost predicate Sliced(outs: seq<Pair>, ps: seq<Pair>, keys: seq<Pair>, i: nat) {
    && i <= |keys| && Canonical(outs)
    && (i < |keys| ==> Passed(outs, |outs|, keys[i].key))
    && forall p :: p in outs <==> p in ps && exists k :: 0 <= k < i && keys[k].key == p.key
  }

  lemma {:induction false} SliceFound(outs: seq<Pair>, ps: seq<Pair>, keys: seq<Pair>, i: nat, q: Pair)
    requires Canonical(ps) && Canonical(keys) && Sliced(outs, ps, keys, i) && i < |keys|
    requires q in ps && q.key == keys[i].key
    ensures Sliced(outs + [q], ps, keys, i + 1)
  {
    var more := outs + [q];
    forall p ensures p in more <==> p in ps && exists k :: 0 <= k < i + 1 && keys[k].key == p.key {
      var m :| 0 <= m < |ps| && ps[m] == q;
      if p.key == q.key {
        OnlyAt(ps, m, p);
      }
    }
    if i + 1 < |keys| {
      forall k | 0 <= k < |more| ensures KeyLess(more[k].key, keys[i + 1].key) {
        KeyOrder(more[k].key, keys[i].key, keys[i + 1].key);
      }
    }
  }

  lemma {:induction false} SliceMissing(outs: seq<Pair>, ps: seq<Pair>, keys: seq<Pair>, i: nat)
    requires Canonical(keys) && Sliced(outs, ps, keys, i) && i < |keys| && keys[i].key !in Keys(ps)
    ensures Sliced(outs, ps, keys, i + 1)
  {
    forall p ensures p in outs <==> p in ps && exists k :: 0 <= k < i + 1 && keys[k].key == p.key {
      if p.key == keys[i].key {
        NotAmong(ps, p);
      }
    }
    if i + 1 < |keys| {
      forall k | 0 <= k < |outs| ensures KeyLess(outs[k].key, keys[i + 1].key) {
        KeyOrder(outs[k].key, keys[i].key, keys[i + 1].key);
      }
    }
  }

  /** A finished slice is a selection, so it is no larger than the value it comes from. */
  lemma {:induction false} SliceIsSelection(outs: seq<Pair>, ps: seq<Pair>, keys: seq<Pair>)
    requires Canonical(ps) && Sliced(outs, ps, keys, |keys|)
    ensures MapOf(outs) == map k | k in MapOf(ps) && k in Keys(keys) :: MapOf(ps)[k]
    ensures |outs| <= |ps| && |Bytes(outs)| <= |Bytes(ps)|
  {
    var wanted := Keys(keys);
    var f := (p: Pair) => p.key in wanted;
    SelectIsRestriction(ps, f);
    SliceMap(outs, ps, keys);
    assert MapOf(outs) == MapOf(Select(ps, f));
    MapDetermines(outs, Select(ps, f));
    SelectSize(ps, f);
  }

  lemma {:induction false} SliceMap(outs: seq<Pair>, ps: seq<Pair>, keys: seq<Pair>)
    requires Canonical(ps) && Sliced(outs, ps, keys, |keys|)
    ensures MapOf(outs) == map k | k in MapOf(ps) && k in Keys(keys) :: MapOf(ps)[k]
  {
    var m, n := MapOf(outs), MapOf(ps);
    forall k | k in m ensures k in n && k in Keys(keys) && m[k] == n[k] {
      SliceEntry(outs, ps, keys, k, m[k]);
    }
    forall k | k in n && k in Keys(keys) ensures k in m {
      SliceEntry(outs, ps, keys, k, n[k]);
    }
  }

  lemma {:induction false} SliceEntry(outs: seq<Pair>, ps: seq<Pair>, keys: seq<Pair>, k: string, v: Value)
    requires Canonical(ps) && Sliced(outs, ps, keys, |keys|)
    ensures var m, n := MapOf(outs), MapOf(ps);
      k in m && m[k] == v <==> k in n && n[k] == v && k in Keys(keys)
  {
    MapHas(outs, k, v);
    MapHas(ps, k, v);
    var p := Pair(k, v);
    assert p in outs <==> p in ps && exists i :: 0 <= i < |keys| && keys[i].key == p.key;
  }

  /** `hstore_slice_to_hstore`: one narrowing search for each key. */
  method SliceToHstore(v: Packed, keys: seq<Pair>, ghost ps: seq<Pair>) returns (out: HStore)
    requires Shows(v, ps) && Storable(ps) && Canonical(keys)
    ensures IsHStore(out)
    ensures MapOf(Pairs(out)) == map k | k in MapOf(ps) && k in Keys(keys) :: MapOf(ps)[k]
  {
    var outs, bufsiz, lastidx := [], 0, 0;
    for i := 0 to |keys|
      invariant 0 <= lastidx <= |ps| && (i < |keys| ==> Passed(ps, lastidx, keys[i].key))
      invariant Sliced(outs, ps, keys, i) && bufsiz == |Bytes(outs)|
    {
      var idx, next := FindKey(v, lastidx, keys[i].key, ps);
      if idx >= 0 {
        assert PairAt(v, idx) == ps[idx];
        var q := Pair(keys[i].key, ValAt(v, idx));
        SliceFound(outs, ps, keys, i, q);
        SnocSize(outs, q);
        outs, bufsiz := outs + [q], bufsiz + |PairBytes(q)|;
      } else {
        SliceMissing(outs, ps, keys, i);
      }
      if i + 1 < |keys| {
        CarryBound(ps, idx, next, keys[i].key, keys[i + 1].key);
      }
      lastidx := next;
    }
    SliceIsSelection(outs, ps, keys);
    var packed := HstorePairs(outs, bufsiz);
    out := packed.value;
    StoreIsHStore(outs);
  }

  // ----- concatenation -----

  /** Which list the merge takes its next pair from. */
  function MergeSide(a: seq<Pair>, i: nat, c: seq<Pair>, j: nat): int
    requires i < |a| || j < |c|
  {
    if i >= |a| then 1 else if j >= |c| then -1 else CompareKeys(a[i].key, c[j].key)
  }

  lemma {:induction false} MergeStep(a: seq<Pair>, i: nat, c: seq<Pair>, j: nat)
    requires i <= |a| && j <= |c| && (i < |a| || j < |c|)
    ensures var d := MergeSide(a, i, c, j);
      && (d >= 0 ==> j < |c|) && (d <= 0 ==> i < |a|)
      && Merge(a[i..], c[j..]) ==
        if d < 0 then [a[i]] + Merge(a[i + 1..], c[j..])
        else [c[j]] + Merge(if d == 0 then a[i + 1..] else a[i..], c[j + 1..])
  {
    assert i < |a| ==> a[i..][1..] == a[i + 1..] && a[i..] == [a[i]] + a[i + 1..];
    assert j < |c| ==> c[j..][1..] == c[j + 1..] && c[j..] == [c[j]] + c[j + 1..];
  }

  /** The builder has merged `a[..i]` with `c[..j]`, in a block large enough for both. */
  ghost predicate Merging(b: Builder, a: seq<Pair>, i: nat, c: seq<Pair>, j: nat)
    reads b, b.mem
  {
    && i <= |a| && j <= |c| && b.Valid() && b.room == |a| + |c|
    && b.mem.Length == 8 * (|a| + |c|) + |Bytes(a)| + |Bytes(c)|
    && b.count <= i + j && b.ptr <= |Bytes(a[..i])| + |Bytes(c[..j])|
    && |Bytes(a[..i])| <= |Bytes(a)| && |Bytes(c[..j])| <= |Bytes(c)|
    && b.pairs + Merge(a[i..], c[j..]) == Merge(a, c)
  }

  method TakeFirst(b: Builder, va: Packed, i: nat, j: nat, ghost a: seq<Pair>, ghost c: seq<Pair>)
    requires Shows(va, a) && Merging(b, a, i, c, j) && i < |a|
    requires MergeSide(a, i, c, j) < 0
    modifies b, b.mem
    ensures Merging(b, a, i + 1, c, j)
  {
    MergeStep(a, i, c, j);
    PrefixBytes(a, i);
    assert PairAt(va, i) == a[i];
    ghost var before := b.pairs;
    b.CopyItem(va, i);
    Sequences.Regroup(before, [a[i]], Merge(a[i + 1..], c[j..]));
  }

  method TakeSecond(b: Builder, vc: Packed, i: nat, j: nat, equal: bool, ghost a: seq<Pair>, ghost c: seq<Pair>)
    requires Shows(vc, c) && Merging(b, a, i, c, j) && j < |c|
    requires MergeSide(a, i, c, j) >= 0 && equal == (MergeSide(a, i, c, j) == 0)
    modifies b, b.mem
    ensures Merging(b, a, if equal then i + 1 else i, c, j + 1)
  {
    MergeStep(a, i, c, j);
    PrefixBytes(c, j);
    if equal {
      PrefixBytes(a, i);
    }
    assert PairAt(vc, j) == c[j];
    ghost var before := b.pairs;
    b.CopyItem(vc, j);
    Sequences.Regroup(before, [c[j]], Merge(if equal then a[i + 1..] else a[i..], c[j + 1..]));
  }

  method TakeNext(b: Builder, va: Packed, vc: Packed, i: nat, j: nat, ghost a: seq<Pair>, ghost c: seq<Pair>)
    returns (i': nat, j': nat)
    requires Shows(va, a) && Shows(vc, c) && Merging(b, a, i, c, j) && (i < |a| || j < |c|)
    modifies b, b.mem
    ensures Merging(b, a, i', c, j') && i <= i' && j <= j' && i + j < i' + j'
  {
    var difference := Compare(va, vc, i, j, a, c);
    if difference >= 0 {
      TakeSecond(b, vc, i, j, difference == 0, a, c);
      return if difference == 0 then i + 1 else i, j + 1;
    } else {
      TakeFirst(b, va, i, j, a, c);
      return i + 1, j;
    }
  }

  method MergeInto(va: Packed, vc: Packed, ghost a: seq<Pair>, ghost c: seq<Pair>) returns (out: HStore)
    requires Shows(va, a) && Shows(vc, c)
    requires 8 + 8 * (|a| + |c|) + |Bytes(a)| + |Bytes(c)| <= MAXALLOC
    ensures IsHStore(out) && Pairs(out) == Merge(a, c)
  {
    var b := StartMerge(va, vc, a, c);
    var i, j := 0, 0;
    while i < |va.slots| || j < |vc.slots|
      invariant 0 <= i <= |a| && 0 <= j <= |c| && Merging(b, a, i, c, j) && fresh(b) && fresh(b.mem)
      decreases |a| - i + |c| - j
    {
      i, j := TakeNext(b, va, vc, i, j, a, c);
    }
    out := FinishMerge(b, a, c);
  }

  method StartMerge(va: Packed, vc: Packed, ghost a: seq<Pair>, ghost c: seq<Pair>) returns (b: Builder)
    requires Shows(va, a) && Shows(vc, c)
    requires 8 + 8 * (|a| + |c|) + |Bytes(a)| + |Bytes(c)| <= MAXALLOC
    ensures Merging(b, a, 0, c, 0) && fresh(b) && fresh(b.mem)
  {
    ShownBytes(va, a);
    ShownBytes(vc, c);
    b := new Builder(|va.slots| + |vc.slots|, 8 * (|va.slots| + |vc.slots|) + |va.str| + |vc.str|);
    NothingMerged(a, c);
  }

  lemma {:induction false} NothingMerged(a: seq<Pair>, c: seq<Pair>)
    ensures [] + Merge(a[0..], c[0..]) == Merge(a, c) && Bytes(a[..0]) == Bytes(c[..0]) == ""
  {
    assert a[0..] == a && c[0..] == c;
  }

  method FinishMerge(b: Builder, ghost a: seq<Pair>, ghost c: seq<Pair>) returns (out: HStore)
    requires Canonical(a) && Canonical(c) && Merging(b, a, |a|, c, |c|)
    modifies b.mem
    ensures IsHStore(out) && Pairs(out) == Merge(a, c)
  {
    assert b.pairs == Merge(a, c);
    MergeCanonical(a, c);
    out := b.Finalize();
    StoreIsHStore(Merge(a, c));
  }

  method Compare(va: Packed, vc: Packed, i: nat, j: nat, ghost a: seq<Pair>, ghost c: seq<Pair>) returns (d: int)
    requires Shows(va, a) && Shows(vc, c) && i <= |a| && j <= |c| && (i < |a| || j < |c|)
    ensures d == MergeSide(a, i, c, j) && (d >= 0 ==> j < |c|) && (d <= 0 ==> i < |a|)
  {
    if i >= |va.slots| {
      return 1;
    } else if j >= |vc.slots| {
      return -1;
    }
    assert PairAt(va, i) == a[i] && PairAt(vc, j) == c[j];
    return CompareKeys(KeyAt(va, i), KeyAt(vc, j));
  }

  /** `hstore_concat`: fails exactly if the two sizes together exceed the largest allocation, otherwise
      the result is the union in which the second value wins. */
  method Concat(s1: HStore, s2: HStore) returns (out: Option<HStore>)
    requires IsHStore(s1) && IsHStore(s2)
    ensures out.None? <==> s1.varsize + s2.varsize > MAXALLOC
    ensures out.Some? ==> IsHStore(out.value)
    ensures out.Some? ==> MapOf(Pairs(out.value)) == MapOf(Pairs(s1)) + MapOf(Pairs(s2))
  {
    ghost var a, c := Pairs(s1), Pairs(s2);
    if s1.varsize + s2.varsize > MAXALLOC {
      return None;
    }
    ViewOf(s1);
    ViewOf(s2);
    MergeIsUnion(a, c);
    if Count(s1) == 0 {
      return Some(s2);
    } else if Count(s2) == 0 {
      return Some(s1);
    }
    var hs := MergeInto(View(s1), View(s2), a, c);
    return Some(hs);
  }
}
