/** Bit signatures of integer sets as GiST keys: hashing, union, page split, and the Boolean test. */
module IntSignature {
  import opened BoolInput
  import opened BoolQuery
  import opened IntArrays

  const SIGLEN := 252
  const SIGLENBIT := 2016

  type Bits = s: seq<bv8> | |s| == SIGLEN witness seq(SIGLEN, _ => 0)

  /** A key is a signature, or the flag that every bit is set. */
  datatype Key = AllTrue | Sign(bits: Bits)

  function HashVal(v: int): (h: nat)
    ensures h < SIGLENBIT
  {
    (v % 0x1_0000_0000) % SIGLENBIT
  }

  /** Two 32-bit integers share a bit if and only if their unsigned values differ by a multiple of the length. */
  lemma {:induction false} HashExactly(v: int, w: int)
    ensures 0 <= v < SIGLENBIT ==> HashVal(v) == v
    ensures HashVal(v) == HashVal(w) <==> (v % 0x1_0000_0000 - w % 0x1_0000_0000) % SIGLENBIT == 0
  {
    var a, b := v % 0x1_0000_0000, w % 0x1_0000_0000;
    var p, q := a / SIGLENBIT, b / SIGLENBIT;
    assert a - b == SIGLENBIT * (p - q) + (a % SIGLENBIT - b % SIGLENBIT);
  }

  // ----- bits -----

  function Mask(k: nat): bv8
    requires k < 8
  {
    if k == 0 then 1 else if k == 1 then 2 else if k == 2 then 4 else if k == 3 then 8
    else if k == 4 then 16 else if k == 5 then 32 else if k == 6 then 64 else 128
  }

  predicate Bit(b: bv8, k: nat)
    requires k < 8
  {
    b & Mask(k) != 0
  }

  /** Bit `k` is the one that a shift by `k` brings to the end. */
  lemma {:induction false} BitExactly(b: bv8, k: nat)
    requires k < 8
    ensures Bit(b, k) <==> (b >> k as bv4) & 1 == 1
  {
    assert k == 0 || k == 1 || k == 2 || k == 3 || k == 4 || k == 5 || k == 6 || k == 7;
  }

  lemma {:induction false} BitOr(a: bv8, b: bv8, k: nat)
    requires k < 8
    ensures Bit(a | b, k) == (Bit(a, k) || Bit(b, k))
  {
  }

  lemma {:induction false} BitMask(j: nat, k: nat)
    requires j < 8 && k < 8
    ensures Bit(Mask(j), k) == (j == k)
  {
  }

  lemma {:induction false} FullByte(b: bv8)
    ensures b == 0xff <==> forall k :: 0 <= k < 8 ==> Bit(b, k)
  {
    if forall k :: 0 <= k < 8 ==> Bit(b, k) {
      assert Bit(b, 0) && Bit(b, 1) && Bit(b, 2) && Bit(b, 3) && Bit(b, 4) && Bit(b, 5) && Bit(b, 6) && Bit(b, 7);
      assert Mask(0) == 1 && Mask(1) == 2 && Mask(2) == 4 && Mask(3) == 8;
    }
  }

  predicate GetBit(s: seq<bv8>, i: nat)
    requires |s| == SIGLEN && i < SIGLENBIT
  {
    Bit(s[i / 8], i % 8)
  }

  /** The bit positions that are set. */
  ghost function Ons(s: Bits): set<nat> {
    set i: nat | i < SIGLENBIT && GetBit(s, i)
  }

  predicate IsPosition(i: nat) {
    i < SIGLENBIT
  }

  ghost function Everything(): set<nat> {
    set i: nat | i < SIGLENBIT && IsPosition(i)
  }

  ghost function Positions(k: Key): set<nat> {
    if k.AllTrue? then Everything() else Ons(k.bits)
  }

  ghost function HashAll(a: seq<int>): set<nat> {
    set v | v in a :: HashVal(v)
  }

  // ----- building keys -----

  /** SETBIT. */
  method SetBit(sign: array<bv8>, i: nat)
    requires sign.Length == SIGLEN && i < SIGLENBIT
    modifies sign
    ensures Ons(sign[..]) == old(Ons(sign[..])) + {i}
  {
    ghost var before := sign[..];
    sign[i / 8] := sign[i / 8] | Mask(i % 8);
    forall b: nat | b < SIGLENBIT
      ensures GetBit(sign[..], b) == (GetBit(before, b) || b == i)
    {
      if b / 8 == i / 8 {
        BitOr(before[i / 8], Mask(i % 8), b % 8);
        BitMask(i % 8, b % 8);
      }
    }
  }

  /** The leaf branch of `g_intbig_compress`. */
  method CompressLeaf(a: seq<int>) returns (k: Key)
    ensures k.Sign? && Positions(k) == HashAll(a)
  {
    var sign := new bv8[SIGLEN](_ => 0);
    for j := 0 to |a|
      invariant Ons(sign[..]) == HashAll(a[..j])
    {
      SetBit(sign, HashVal(a[j]));
      assert a[..j + 1] == a[..j] + [a[j]];
      assert HashAll(a[..j + 1]) == HashAll(a[..j]) + {HashVal(a[j])};
    }
    assert a[..|a|] == a;
    return Sign(sign[..]);
  }

  /** The inner branch: a full signature becomes the flag, without changing its meaning. */
  method CompressInner(k: Key) returns (r: Key)
    ensures Positions(r) == Positions(k)
    ensures r.AllTrue? <==> Positions(k) == Everything()
  {
    if k.AllTrue? { return k; }
    for i := 0 to SIGLEN
      invariant forall j :: 0 <= j < i ==> k.bits[j] == 0xff
    {
      if k.bits[i] != 0xff {
        FullByte(k.bits[i]);
        var b :| 0 <= b < 8 && !Bit(k.bits[i], b);
        assert !GetBit(k.bits, 8 * i + b);
        assert 8 * i + b in Everything() && 8 * i + b !in Ons(k.bits);
        return k;
      }
    }
    forall b: nat | b < SIGLENBIT ensures GetBit(k.bits, b) {
      FullByte(k.bits[b / 8]);
    }
    return AllTrue;
  }

  /** LOOPBYTE sbase[i] |= sadd[i]. */
  method OrInto(sbase: array<bv8>, sadd: Bits)
    requires sbase.Length == SIGLEN
    modifies sbase
    ensures Ons(sbase[..]) == old(Ons(sbase[..])) + Ons(sadd)
  {
    ghost var before := sbase[..];
    for i := 0 to SIGLEN
      invariant forall j :: 0 <= j < SIGLEN ==> sbase[j] == if j < i then before[j] | sadd[j] else before[j]
    {
      sbase[i] := sbase[i] | sadd[i];
    }
    forall b: nat | b < SIGLENBIT
      ensures GetBit(sbase[..], b) == (GetBit(before, b) || GetBit(sadd, b))
    {
      BitOr(before[b / 8], sadd[b / 8], b % 8);
    }
  }

  ghost function UnionOf(entries: seq<Key>): set<nat> {
    if entries == [] then {} else UnionOf(entries[..|entries| - 1]) + Positions(entries[|entries| - 1])
  }

  lemma {:induction false} UnionHas(entries: seq<Key>, i: nat)
    requires i < |entries|
    ensures Positions(entries[i]) <= UnionOf(entries) <= Everything()
  {
    if i < |entries| - 1 {
      UnionHas(entries[..|entries| - 1], i);
    } else if |entries| > 1 {
      UnionHas(entries[..|entries| - 1], 0);
    }
  }

  /** `g_intbig_union` with `unionkey`. */
  method Union(entries: seq<Key>) returns (r: Key)
    ensures Positions(r) == UnionOf(entries)
  {
    var base := new bv8[SIGLEN](_ => 0);
    for i := 0 to |entries|
      invariant Ons(base[..]) == UnionOf(entries[..i])
    {
      if entries[i].AllTrue? {
        UnionHas(entries, i);
        return AllTrue;
      }
      OrInto(base, entries[i].bits);
      assert entries[..i + 1][..i] == entries[..i];
    }
    assert entries[..|entries|] == entries;
    return Sign(base[..]);
  }

  // ----- the Boolean test never misses -----

  /** The Boolean branch of `g_intbig_consistent`, with `signconsistent`. */
  predicate Consistent(items: seq<Item>, k: Key)
    requires items != [] && LinksInside(items)
  {
    k.AllTrue? || Execute(items, |items| - 1, false, (i: nat, v: int) => GetBit(k.bits, HashVal(v)))
  }

  lemma {:induction false} ConsistentCovers(e: Expr, a: seq<int>, k: Key)
    requires HashAll(a) <= Positions(k) && NarrowRight(e) && Holds(e, Elements(a))
    ensures LinksInside(Stored(e)) && Consistent(Stored(e), k)
  {
    StoredExact(e);
    LinkedInside(e);
    if k.Sign? {
      var chk := (i: nat, v: int) => GetBit(k.bits, HashVal(v));
      forall i: nat, v | v in Elements(a) ensures chk(i, v) {
        assert HashVal(v) in HashAll(a);
        assert HashVal(v) in Ons(k.bits);
      }
      PruningIsSafe(e, Elements(a), chk);
    }
  }

  /** The values of the query whose bit is set. */
  ghost function Signed(e: Expr, k: Key): set<int> {
    set v | v in Values(e) && HashVal(v) in Positions(k)
  }

  /** A key that is not full is accepted if and only if the query, with every outermost negated operand taken as
      true, holds on the values whose bits are set. */
  lemma {:induction false} ConsistentExactly(e: Expr, k: Key, w: int)
    requires NarrowRight(e) && w !in Values(e) && k.Sign?
    ensures LinksInside(Stored(e))
    ensures Consistent(Stored(e), k) == Holds(Affirmed(e, w), Signed(e, k) + {w})
    ensures NoNegation(e) ==> Consistent(Stored(e), k) == Holds(e, Signed(e, k))
  {
    var chk := (i: nat, v: int) => GetBit(k.bits, HashVal(v));
    StoredTestExactly(e, Signed(e, k), w, chk);
  }

  /** Some key the build methods can give the node: exactly the bits of all it covers. */
  ghost function KeyPositions(t: Index): set<nat> {
    match t
    case Leaf(a) => HashAll(a)
    case Node(kids) => set kid, b | kid in kids && b in KeyPositions(kid) :: b
  }

  /** The key of a node stands for every array below it. */
  lemma {:induction false} PositionsCover(t: Index, a: seq<int>)
    requires Indexed(t, a)
    ensures HashAll(a) <= KeyPositions(t)
  {
    match t
    case Leaf(_) =>
    case Node(kids) =>
      var i :| 0 <= i < |kids| && Indexed(kids[i], a);
      PositionsCover(kids[i], a);
      assert kids[i] in kids;
  }

  /** Through any number of unions, no node above a matching array is pruned. */
  lemma {:induction false} IndexNeverMisses(t: Index, a: seq<int>, e: Expr, k: Key)
    requires Indexed(t, a) && NarrowRight(e) && Holds(e, Elements(a)) && KeyPositions(t) <= Positions(k)
    ensures LinksInside(Stored(e)) && Consistent(Stored(e), k)
  {
    PositionsCover(t, a);
    ConsistentCovers(e, a, k);
  }

  // ----- the other branches of `g_intbig_consistent` -----

  /** What they ask of a key that is not full. */
  ghost predicate SignMatches(st: Strategy, leaf: bool, k: Key, query: seq<int>) {
    match Asked(st, leaf)
    case Overlap => HashAll(query) * Positions(k) != {}
    case Same => Positions(k) == HashAll(query)
    case Contains => HashAll(query) <= Positions(k)
    case ContainedBy => Positions(k) <= HashAll(query)
  }

  /** `_intbig_overlap` for a hit, `_intbig_contains` for a miss: the first query value of that kind decides. */
  method FindHash(bits: Bits, query: seq<int>, hit: bool) returns (r: bool)
    ensures hit ==> (r <==> HashAll(query) * Ons(bits) != {})
    ensures !hit ==> (r <==> !(HashAll(query) <= Ons(bits)))
  {
    var i := 0;
    while i < |query|
      invariant 0 <= i <= |query|
      invariant forall j :: 0 <= j < i ==> GetBit(bits, HashVal(query[j])) != hit
    {
      if GetBit(bits, HashVal(query[i])) == hit {
        assert HashVal(query[i]) in HashAll(query);
        assert hit ==> HashVal(query[i]) in HashAll(query) * Ons(bits);
        return true;
      }
      i := i + 1;
    }
    forall h | h in HashAll(query) ensures h in Ons(bits) <==> !hit {
      var v :| v in query && HashVal(v) == h;
      var j :| 0 <= j < |query| && query[j] == v;
    }
    return false;
  }

  lemma {:induction false} BitMore(a: bv8, b: bv8) returns (k: nat)
    requires a & !b != 0
    ensures k < 8 && Bit(a, k) && !Bit(b, k)
  {
    k := if Bit(a, 0) && !Bit(b, 0) then 0 else if Bit(a, 1) && !Bit(b, 1) then 1
         else if Bit(a, 2) && !Bit(b, 2) then 2 else if Bit(a, 3) && !Bit(b, 3) then 3
         else if Bit(a, 4) && !Bit(b, 4) then 4 else if Bit(a, 5) && !Bit(b, 5) then 5
         else if Bit(a, 6) && !Bit(b, 6) then 6 else 7;
  }

  lemma {:induction false} NoBitMore(a: bv8, b: bv8, k: nat)
    requires a & !b == 0 && k < 8 && Bit(a, k)
    ensures Bit(b, k)
  {
  }

  /** The byte loops that compare a leaf with the query's own signature. */
  method WithinSign(de: Bits, dq: Bits) returns (r: bool)
    ensures r <==> Ons(de) <= Ons(dq)
  {
    for i := 0 to SIGLEN
      invariant forall j :: 0 <= j < i ==> de[j] & !dq[j] == 0
    {
      if de[i] & !dq[i] != 0 {
        ghost var b := BitMore(de[i], dq[i]);
        assert GetBit(de, 8 * i + b) && !GetBit(dq, 8 * i + b);
        assert 8 * i + b in Ons(de);
        return false;
      }
    }
    forall b | b in Ons(de) ensures b in Ons(dq) {
      NoBitMore(de[b / 8], dq[b / 8], b % 8);
    }
    return true;
  }

  method SameSign(de: Bits, dq: Bits) returns (r: bool)
    ensures r <==> Ons(de) == Ons(dq)
  {
    for i := 0 to SIGLEN
      invariant forall j :: 0 <= j < i ==> de[j] == dq[j]
    {
      if de[i] != dq[i] {
        BytesDiffer(de[i], dq[i]);
        ghost var b :| 0 <= b < 8 && Bit(de[i], b) != Bit(dq[i], b);
        assert GetBit(de, 8 * i + b) != GetBit(dq, 8 * i + b);
        assert 8 * i + b in Ons(de) <==> 8 * i + b !in Ons(dq);
        return false;
      }
    }
    assert de == dq;
    return true;
  }

  lemma {:induction false} BytesDiffer(a: bv8, b: bv8)
    requires a != b
    ensures exists k :: 0 <= k < 8 && Bit(a, k) != Bit(b, k)
  {
    if a & !b != 0 {
      var k := BitMore(a, b);
      assert Bit(a, k) != Bit(b, k);
    } else {
      assert b & !a != 0;
      var k := BitMore(b, a);
      assert Bit(a, k) != Bit(b, k);
    }
  }

  method SetConsistent(k: Key, query: seq<int>, st: Strategy, leaf: bool) returns (r: bool)
    ensures r <==> k.AllTrue? || SignMatches(st, leaf, k, query)
  {
    if k.AllTrue? { return true; }
    match Asked(st, leaf)
    case Overlap => r := FindHash(k.bits, query, true);
    case Contains =>
      var miss := FindHash(k.bits, query, false);
      r := !miss;
    case Same =>
      var qp := CompressLeaf(query);
      r := SameSign(k.bits, qp.bits);
    case ContainedBy =>
      var qp := CompressLeaf(query);
      r := WithinSign(k.bits, qp.bits);
  }

  lemma {:induction false} HashWithin(a: seq<int>, b: seq<int>)
    requires Elements(a) <= Elements(b)
    ensures HashAll(a) <= HashAll(b)
  {
    forall h | h in HashAll(a) ensures h in HashAll(b) {
      var v :| v in a && HashVal(v) == h;
      assert v in Elements(a) && v in Elements(b);
    }
  }

  /** A leaf that matches is kept. */
  lemma {:induction false} LeafKeepsMatches(a: seq<int>, k: Key, st: Strategy, query: seq<int>)
    requires Positions(k) == HashAll(a) && Matches(st, Elements(a), Elements(query))
    ensures SignMatches(st, true, k, query)
  {
    match st
    case Overlap =>
      var v := SharedElement(st, Elements(a), Elements(query));
      assert HashVal(v) in HashAll(query) * Positions(k);
    case Same => HashWithin(a, query); HashWithin(query, a);
    case Contains => HashWithin(query, a);
    case ContainedBy => HashWithin(a, query);
  }

  /** So is every node above it, but for an empty array asked to be contained. */
  lemma {:induction false} SignatureKeepsMatches(t: Index, a: seq<int>, k: Key, st: Strategy, query: seq<int>)
    requires Indexed(t, a) && KeyPositions(t) <= Positions(k) && Matches(st, Elements(a), Elements(query))
    requires st.ContainedBy? ==> a != []
    ensures SignMatches(st, false, k, query)
  {
    PositionsCover(t, a);
    if st.Overlap? || st.ContainedBy? {
      if a != [] { assert a[0] in Elements(a); }
      var v := SharedElement(st, Elements(a), Elements(query));
      assert HashVal(v) in HashAll(a);
      assert HashVal(v) in HashAll(query) * Positions(k);
    } else {
      HashWithin(query, a);
    }
  }

  /** An inner node that holds the array passes the test for the query unless its key is full anyway. */
  ghost predicate Kept(t: Index, k: Key, a: seq<int>, st: Strategy, query: seq<int>) {
    t.Node? && Indexed(t, a) && KeyPositions(t) <= Positions(k) && k.Sign? ==> SignMatches(st, false, k, query)
  }

  /** The empty array is contained in every query, and an index may lose it: those that are kept in every
      index are exactly the others. */
  lemma {:induction false} ContainedByLosesEmpty(a: seq<int>, query: seq<int>)
    requires Elements(a) <= Elements(query)
    ensures a != [] <==> forall t, k :: Kept(t, k, a, ContainedBy, query)
  {
    if a != [] {
      forall t: Index, k | t.Node? && Indexed(t, a) && KeyPositions(t) <= Positions(k)
        ensures Kept(t, k, a, ContainedBy, query)
      {
        SignatureKeepsMatches(t, a, k, ContainedBy, query);
      }
    } else {
      var t, k := Node([Leaf([])]), Sign(seq(SIGLEN, _ => 0));
      assert Indexed(t.kids[0], a);
      assert HashAll([]) == {} && KeyPositions(t) == {};
      assert forall i: nat :: i < SIGLENBIT ==> !GetBit(k.bits, i);
      assert !Kept(t, k, a, ContainedBy, query);
    }
  }

  /** Keys that are right for the children give a key that is right for the node. */
  lemma {:induction false} UnionBuildsNode(kids: seq<Index>, keys: seq<Key>)
    requires |keys| == |kids| && forall i :: 0 <= i < |kids| ==> Positions(keys[i]) == KeyPositions(kids[i])
    ensures UnionOf(keys) == KeyPositions(Node(kids))
  {
    forall b | b in KeyPositions(Node(kids)) ensures b in UnionOf(keys) {
      var kid :| kid in kids && b in KeyPositions(kid);
      var i :| 0 <= i < |kids| && kids[i] == kid;
      UnionHas(keys, i);
    }
    forall b | b in UnionOf(keys) ensures b in KeyPositions(Node(kids)) {
      var i := UnionFrom(keys, b);
      assert kids[i] in kids;
    }
  }

  lemma {:induction false} UnionFrom(keys: seq<Key>, b: nat) returns (i: nat)
    requires b in UnionOf(keys)
    ensures i < |keys| && b in Positions(keys[i])
  {
    var n := |keys| - 1;
    if b in Positions(keys[n]) {
      i := n;
    } else {
      i := UnionFrom(keys[..n], b);
    }
  }

  // ----- page split -----

  /** The bits of the entries at the given offsets. */
  ghost function Covered(entries: seq<Key>, offsets: seq<nat>): set<nat>
    requires forall i :: 0 <= i < |offsets| ==> offsets[i] < |entries|
  {
    set i, b | 0 <= i < |offsets| && b in Positions(entries[offsets[i]]) :: b
  }

  /** The scan meets the pair `a`, `b` before `k`, `j`. */
  predicate Earlier(a: nat, b: nat, k: nat, j: nat) {
    a < k || (a == k && b < j)
  }

  /** The pair `a`, `b` is no farther apart than `waste`, and nearer if it is met before the seeds. */
  ghost predicate NoFarther(entries: seq<Key>, dist: (Key, Key) -> nat, a: nat, b: nat, s1: nat, s2: nat, waste: int)
    requires a < |entries| && b < |entries|
  {
    dist(entries[a], entries[b]) <= waste && (Earlier(a, b, s1, s2) ==> dist(entries[a], entries[b]) < waste)
  }

  /** Of the pairs met before `k`, `j`, the seeds are the first whose distance is largest, which is `waste`; there is
      none yet if it is -1. */
  ghost predicate Farthest(entries: seq<Key>, dist: (Key, Key) -> nat, s1: nat, s2: nat, waste: int, k: nat, j: nat) {
    var last := |entries| - 2;
    && (if waste == -1 then s1 == 0 == s2 else 1 <= s1 < s2 <= last && waste == dist(entries[s1], entries[s2]))
    && (waste != -1 ==> Earlier(s1, s2, k, j))
    && forall a: nat, b: nat :: 1 <= a < b <= last && Earlier(a, b, k, j) ==>
         NoFarther(entries, dist, a, b, s1, s2, waste)
  }

  lemma {:induction false} FarthestNext(entries: seq<Key>, dist: (Key, Key) -> nat, s1: nat, s2: nat, waste: int,
                                        k: nat, j: nat)
    requires Farthest(entries, dist, s1, s2, waste, k, j) && 1 <= k < j <= |entries| - 2
    ensures var d := dist(entries[k], entries[j]);
      if d > waste then Farthest(entries, dist, k, j, d, k, j + 1) else Farthest(entries, dist, s1, s2, waste, k, j + 1)
  {
    var d := dist(entries[k], entries[j]);
    forall a: nat, b: nat | 1 <= a < b <= |entries| - 2 && Earlier(a, b, k, j + 1)
      ensures if d > waste then NoFarther(entries, dist, a, b, k, j, d) else NoFarther(entries, dist, a, b, s1, s2, waste)
    {
      if a == k && b == j {
        assert !Earlier(k, j, k, j);
      } else {
        assert Earlier(a, b, k, j);
        assert NoFarther(entries, dist, a, b, s1, s2, waste);
      }
    }
  }

  lemma {:induction false} FarthestRow(entries: seq<Key>, dist: (Key, Key) -> nat, s1: nat, s2: nat, waste: int,
                                       k: nat, j: nat, k': nat, j': nat)
    requires Farthest(entries, dist, s1, s2, waste, k, j)
    requires forall a: nat, b: nat :: 1 <= a < b <= |entries| - 2 ==> (Earlier(a, b, k, j) <==> Earlier(a, b, k', j'))
    ensures Farthest(entries, dist, s1, s2, waste, k', j')
  {
  }

  /** The first pair, over all but the last entry, whose distance is largest; 1 and 2 if there is none. */
  method PickSeeds(entries: seq<Key>, dist: (Key, Key) -> nat) returns (seed1: nat, seed2: nat)
    requires |entries| >= 3
    ensures 1 <= seed1 < seed2 < |entries|
    ensures |entries| == 3 ==> seed1 == 1 && seed2 == 2
    ensures |entries| > 3 ==>
              Farthest(entries, dist, seed1, seed2, dist(entries[seed1], entries[seed2]), |entries|, 0)
  {
    var maxoff := |entries| - 2;
    var waste: int := -1;
    seed1, seed2 := 0, 0;
    for k := 1 to maxoff
      invariant Farthest(entries, dist, seed1, seed2, waste, k, 0) && (k > 1 ==> waste != -1)
    {
      FarthestRow(entries, dist, seed1, seed2, waste, k, 0, k, k + 1);
      for j := k + 1 to maxoff + 1
        invariant Farthest(entries, dist, seed1, seed2, waste, k, j) && (k > 1 || j > k + 1 ==> waste != -1)
      {
        FarthestNext(entries, dist, seed1, seed2, waste, k, j);
        var sizeWaste := dist(entries[k], entries[j]);
        if sizeWaste > waste {
          waste, seed1, seed2 := sizeWaste, k, j;
        }
      }
      FarthestRow(entries, dist, seed1, seed2, waste, k, maxoff + 1, k + 1, 0);
    }
    if maxoff > 1 {
      FarthestRow(entries, dist, seed1, seed2, waste, maxoff, 0, |entries|, 0);
    }
    if seed1 == 0 || seed2 == 0 {
      seed1, seed2 := 1, 2;
    }
  }

  /** One side's key takes in an entry: bits are or-ed, and a flag on either side fills the signature. */
  method TakeIn(datum: Key, entry: Key) returns (r: Key)
    ensures Positions(r) == Positions(datum) + Positions(entry)
  {
    if datum.AllTrue? {
      UnionHas([entry], 0);
      return datum;
    }
    if entry.AllTrue? {
      var full: Bits := seq(SIGLEN, _ => 0xff);
      forall b: nat | b < SIGLENBIT ensures GetBit(full, b) {
        FullByte(full[b / 8]);
      }
      return Sign(full);
    }
    var sign := new bv8[SIGLEN](i requires 0 <= i < SIGLEN => datum.bits[i]);
    assert sign[..] == datum.bits;
    OrInto(sign, entry.bits);
    return Sign(sign[..]);
  }

  datatype Side = Side(offsets: seq<nat>, datum: Key)

  ghost predicate InRange(entries: seq<Key>, offsets: seq<nat>) {
    forall i :: 0 <= i < |offsets| ==> 1 <= offsets[i] < |entries|
  }

  /** The side's key stands for its seed and everything put on it. */
  ghost predicate SideOk(entries: seq<Key>, seed: nat, side: Side) {
    seed < |entries| && InRange(entries, side.offsets) &&
    Positions(side.datum) == Positions(entries[seed]) + Covered(entries, side.offsets)
  }

  method Put(entries: seq<Key>, ghost seed: nat, side: Side, j: nat, merge: bool) returns (r: Side)
    requires SideOk(entries, seed, side) && 1 <= j < |entries| && (merge || j == seed)
    ensures SideOk(entries, seed, r) && r.offsets == side.offsets + [j]
    ensures multiset(r.offsets) == multiset(side.offsets) + multiset{j}
  {
    CoveredMore(entries, side.offsets, j);
    r := Side(side.offsets + [j], side.datum);
    if merge {
      var datum := TakeIn(side.datum, entries[j]);
      r := r.(datum := datum);
    }
  }

  lemma {:induction false} CountMore(s: seq<nat>, k: nat)
    requires k < |s|
    ensures multiset(s[..k + 1]) == multiset(s[..k]) + multiset{s[k]}
  {
    assert s[..k + 1] == s[..k] + [s[k]];
  }

  /** Puts the entries on the sides of their seeds, or where `wish` says. */
  method Distribute(entries: seq<Key>, order: seq<nat>, seed1: nat, seed2: nat, wish: (nat, Key, Key) -> bool)
    returns (left: Side, right: Side)
    requires InRange(entries, order) && 1 <= seed1 < seed2 < |entries|
    ensures multiset(left.offsets) + multiset(right.offsets) == multiset(order)
    ensures SideOk(entries, seed1, left) && SideOk(entries, seed2, right)
    ensures seed1 !in right.offsets && seed2 !in left.offsets
  {
    left, right := Side([], entries[seed1]), Side([], entries[seed2]);
    for k := 0 to |order|
      invariant multiset(left.offsets) + multiset(right.offsets) == multiset(order[..k])
      invariant SideOk(entries, seed1, left) && SideOk(entries, seed2, right)
      invariant seed1 !in right.offsets && seed2 !in left.offsets
    {
      var j := order[k];
      CountMore(order, k);
      if j == seed1 || (j != seed2 && wish(j, left.datum, right.datum)) {
        left := Put(entries, seed1, left, j, j != seed1);
      } else {
        right := Put(entries, seed2, right, j, j != seed2);
      }
    }
    assert order[..|order|] == order;
  }

  /** Entry 0 is unused; `order` is what sorting the offsets by cost leaves, `dist` the distance
      between keys, and `wish` the side that the cost comparison favours. */
  method PickSplit(entries: seq<Key>, order: seq<nat>, dist: (Key, Key) -> nat, wish: (nat, Key, Key) -> bool)
    returns (left: Side, right: Side)
    requires |entries| >= 3 && InRange(entries, order)
    requires forall i :: 1 <= i < |entries| ==> i in order
    ensures multiset(left.offsets) + multiset(right.offsets) == multiset(order)
    ensures left.offsets != [] && right.offsets != []
    ensures InRange(entries, left.offsets) && InRange(entries, right.offsets)
    ensures Positions(left.datum) == Covered(entries, left.offsets)
    ensures Positions(right.datum) == Covered(entries, right.offsets)
  {
    var seed1, seed2 := PickSeeds(entries, dist);
    left, right := Distribute(entries, order, seed1, seed2, wish);
    assert seed1 in order && seed2 in order;
    assert seed1 in multiset(order) && seed2 in multiset(order);
    CoveredHas(entries, left.offsets, seed1);
    CoveredHas(entries, right.offsets, seed2);
  }

  lemma {:induction false} CoveredMore(entries: seq<Key>, offsets: seq<nat>, j: nat)
    requires j < |entries| && forall i :: 0 <= i < |offsets| ==> offsets[i] < |entries|
    ensures forall i :: 0 <= i < |offsets + [j]| ==> (offsets + [j])[i] < |entries|
    ensures Covered(entries, offsets + [j]) == Covered(entries, offsets) + Positions(entries[j])
  {
    var more := offsets + [j];
    forall b | b in Covered(entries, offsets) + Positions(entries[j]) ensures b in Covered(entries, more) {
      if b in Positions(entries[j]) {
        assert more[|offsets|] == j;
      } else {
        var i :| 0 <= i < |offsets| && b in Positions(entries[offsets[i]]);
        assert more[i] == offsets[i];
      }
    }
  }

  lemma {:induction false} CoveredHas(entries: seq<Key>, offsets: seq<nat>, j: nat)
    requires j in offsets && forall i :: 0 <= i < |offsets| ==> offsets[i] < |entries|
    ensures Positions(entries[j]) <= Covered(entries, offsets)
  {
  }
}
