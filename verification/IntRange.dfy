/** Lossy range compression of integer-set keys (`g_int_compress`, `g_int_decompress`). */
module IntRange {
  import opened Int32

  const MAXNUMRANGE := 100
  /** The largest allocation, and the header of an array. */
  const MAXALLOC := 0x3fff_ffff
  const ARR_OVERHEAD := 24

  /** Room for this many elements is the most that can be allocated. */
  const MAXELEMENTS := (MAXALLOC - ARR_OVERHEAD) / 4

  ghost predicate Increasing(a: seq<int>) {
    forall i, j :: 0 <= i < j < |a| ==> a[i] < a[j]
  }

  ghost predicate AllInt32(a: seq<int>) {
    forall i :: 0 <= i < |a| ==> IsInt32(a[i])
  }

  /** Pairs of bounds of disjoint ranges in ascending order. */
  ghost predicate Ranges(rs: seq<int>) {
    |rs| % 2 == 0 && forall i :: 0 <= i < |rs| && i % 2 == 0 ==> RangeAt(rs, i)
  }

  /** A range starts at `i`, behind the one before it. */
  ghost predicate RangeAt(rs: seq<int>, i: nat) {
    i + 1 < |rs| && rs[i] <= rs[i + 1] && (i > 0 ==> rs[i - 1] < rs[i])
  }

  ghost predicate Within(rs: seq<int>, v: int) {
    exists i :: 0 <= i < |rs| - 1 && i % 2 == 0 && rs[i] <= v <= rs[i + 1]
  }

  // ----- merging two neighbouring ranges -----

  function Merged(rs: seq<int>, c: nat): seq<int>
    requires 2 <= c < |rs|
  {
    rs[..c - 1] + rs[c + 1..]
  }

  lemma {:induction false} MergedAt(rs: seq<int>, c: nat, k: nat)
    requires 2 <= c < |rs| && k < |rs| - 2
    ensures Merged(rs, c)[k] == if k < c - 1 then rs[k] else rs[k + 2]
  {
  }

  lemma {:induction false} MergedRanges(rs: seq<int>, c: nat)
    requires Ranges(rs) && 2 <= c < |rs| && c % 2 == 0
    ensures Ranges(Merged(rs, c))
    ensures Merged(rs, c)[0] == rs[0] && Merged(rs, c)[|rs| - 3] == rs[|rs| - 1]
  {
    var m := Merged(rs, c);
    MergedAt(rs, c, 0);
    MergedAt(rs, c, |rs| - 3);
    forall i | 0 <= i < |m| && i % 2 == 0 ensures RangeAt(m, i) {
      MergedRangeAt(rs, c, i);
    }
  }

  lemma {:induction false} MergedRangeAt(rs: seq<int>, c: nat, i: nat)
    requires Ranges(rs) && 2 <= c < |rs| && c % 2 == 0 && i < |rs| - 2 && i % 2 == 0
    ensures RangeAt(Merged(rs, c), i)
  {
    MergedAt(rs, c, i);
    MergedAt(rs, c, i + 1);
    if i > 0 {
      MergedAt(rs, c, i - 1);
    }
    assert RangeAt(rs, i) && RangeAt(rs, i + 2);
  }

  lemma {:induction false} MergedWithin(rs: seq<int>, c: nat, v: int)
    requires Ranges(rs) && 2 <= c < |rs| && c % 2 == 0 && Within(rs, v)
    ensures Within(Merged(rs, c), v)
  {
    var i :| 0 <= i < |rs| - 1 && i % 2 == 0 && rs[i] <= v <= rs[i + 1];
    assert RangeAt(rs, c - 2) && RangeAt(rs, c);
    var k := if i < c - 2 then i else if i <= c then c - 2 else i - 2;
    MergedAt(rs, c, k);
    MergedAt(rs, c, k + 1);
    assert k % 2 == 0 && Merged(rs, c)[k] <= v <= Merged(rs, c)[k + 1];
  }

  // ----- finding the smallest gap -----

  /** The gap before the range that starts at index `i`, as the code computes it. */
  function Gap(rs: seq<int>, i: nat): int
    requires 1 <= i < |rs|
  {
    Wrap32(rs[i] - rs[i - 1])
  }

  lemma {:induction false} GapInRange(rs: seq<int>, i: nat)
    requires 1 <= i < |rs| && 0 <= rs[i] - rs[i - 1] < INT_MAX
    ensures Gap(rs, i) < INT_MAX
  {
  }

  /** Four or more ranges of 32-bit integers leave a gap narrower than the initial minimum. */
  lemma {:induction false} NarrowGap(rs: seq<int>) returns (i: nat)
    requires Ranges(rs) && AllInt32(rs) && |rs| >= 8
    ensures 2 <= i < |rs| && i % 2 == 0 && Gap(rs, i) < INT_MAX
  {
    assert RangeAt(rs, 2) && RangeAt(rs, 4) && RangeAt(rs, 6);
    i := if rs[2] - rs[1] < INT_MAX then 2 else if rs[4] - rs[3] < INT_MAX then 4 else 6;
    GapInRange(rs, i);
  }

  /** `cand` is the first place before `i` whose gap is least; 1 stands for none yet. */
  ghost predicate LeastBefore(dr: seq<int>, i: nat, cand: nat, min: int)
    requires i <= |dr|
  {
    && (if cand == 1 then min == INT_MAX else 2 <= cand < i && cand % 2 == 0 && min == Gap(dr, cand))
    && forall k :: 2 <= k < i && k % 2 == 0 ==> min <= Gap(dr, k) && (k < cand ==> min < Gap(dr, k))
  }

  lemma {:induction false} LeastStep(dr: seq<int>, i: nat, cand: nat, min: int)
    requires 2 <= i && i + 2 <= |dr| && i % 2 == 0 && LeastBefore(dr, i, cand, min)
    ensures var gap := Gap(dr, i); if min > gap then LeastBefore(dr, i + 2, i, gap) else LeastBefore(dr, i + 2, cand, min)
  {
    assert forall k :: 2 <= k < i + 2 && k % 2 == 0 ==> k < i || k == i;
  }

  /** The scan for the pair to merge: the first of the smallest gaps. */
  method SmallestGap(dr: seq<int>) returns (cand: nat)
    requires Ranges(dr) && AllInt32(dr) && |dr| >= 8
    ensures 2 <= cand < |dr| && cand % 2 == 0
    ensures forall k :: 2 <= k < |dr| && k % 2 == 0 ==> Gap(dr, cand) <= Gap(dr, k)
    ensures forall k :: 2 <= k < cand && k % 2 == 0 ==> Gap(dr, cand) < Gap(dr, k)
  {
    ghost var narrow := NarrowGap(dr);
    cand := 1;
    var min := INT_MAX;
    var i := 2;
    while i < |dr|
      invariant 2 <= i <= |dr| && i % 2 == 0 && LeastBefore(dr, i, cand, min)
    {
      LeastStep(dr, i, cand, min);
      if min > Gap(dr, i) {
        min := Gap(dr, i);
        cand := i;
      }
      i := i + 2;
    }
  }

  // ----- compress -----

  /** The elements from `i + 1` on are doubled, those before are in place. */
  ghost predicate DoubledFrom(key: seq<int>, r: seq<int>, i: int) {
    && |r| == 2 * |key| && -1 <= i < |key|
    && (forall k :: 0 <= k <= i ==> r[k] == key[k])
    && (forall k :: 2 * i + 2 <= k < |r| ==> r[k] == key[k / 2])
  }

  lemma {:induction false} DoubledStep(key: seq<int>, r: seq<int>, i: nat)
    requires DoubledFrom(key, r, i)
    ensures DoubledFrom(key, r[2 * i + 1 := r[i]][2 * i := r[i]], i - 1)
  {
    assert (2 * i) / 2 == i && (2 * i + 1) / 2 == i;
  }

  /** Doubles the elements of `dr[..len]` in place, back to front. */
  method Double(dr: array<int>, len: nat)
    requires dr.Length == 2 * len
    modifies dr
    ensures Doubled(old(dr[..len]), dr[..])
  {
    ghost var key := dr[..len];
    var i: int := len - 1;
    while i >= 0
      invariant DoubledFrom(key, dr[..], i)
    {
      DoubledStep(key, dr[..], i);
      dr[2 * i + 1] := dr[i];
      dr[2 * i] := dr[2 * i + 1];
      i := i - 1;
    }
  }

  /** memmove of everything behind the merged pair. */
  method CloseUp(dr: array<int>, len: nat, cand: nat)
    requires 2 <= cand < len <= dr.Length && cand + 1 <= len
    modifies dr
    ensures dr[..len - 2] == Merged(old(dr[..len]), cand)
  {
    var i := cand - 1;
    while i < len - 2
      invariant cand - 1 <= i <= len - 2 || (i == cand - 1 && len - 2 < i)
      invariant forall k :: 0 <= k < dr.Length ==> dr[k] == if cand - 1 <= k < i then old(dr[k + 2]) else old(dr[k])
    {
      dr[i] := dr[i + 2];
      i := i + 1;
    }
  }

  /** What the stored form of an internal key promises. */
  ghost predicate Stored(key: seq<int>, r: seq<int>) {
    if |key| < 2 * MAXNUMRANGE then r == key
    else |r| == 2 * MAXNUMRANGE && Merging(key, r)
  }

  ghost predicate Merging(key: seq<int>, r: seq<int>) {
    RangesOver(key, r) && WidestKept(key, r)
  }

  /** `a` and `b` bound a gap between two ranges. */
  ghost predicate Boundary(r: seq<int>, a: int, b: int) {
    exists k: nat :: BoundaryAt(r, k, a, b)
  }

  ghost predicate BoundaryAt(r: seq<int>, k: nat, a: int, b: int) {
    2 <= k < |r| && k % 2 == 0 && r[k - 1] == a && r[k] == b
  }

  /** The gap behind element `q` of the key is still a gap between ranges. */
  ghost predicate KeptGap(key: seq<int>, r: seq<int>, q: nat) {
    q < |key| - 1 && Boundary(r, key[q], key[q + 1])
  }

  /** If it was merged away, it is no wider than the gap before bound `i`, by the wrapped widths. */
  ghost predicate NoWider(key: seq<int>, r: seq<int>, q: nat, i: nat)
    requires q < |key| - 1 && 1 <= i < |r|
  {
    KeptGap(key, r, q) || Gap(key, q + 1) <= Gap(r, i)
  }

  /** No gap of the key that was merged away is wider than a gap that was kept, where widths are compared as the
      scan does, after wrapping to 32 bits. */
  ghost predicate WidestKept(key: seq<int>, r: seq<int>) {
    forall q, i :: 0 <= q < |key| - 1 && 2 <= i < |r| && i % 2 == 0 ==> NoWider(key, r, q, i)
  }

  lemma {:induction false} MergedBoundary(r: seq<int>, c: nat, a: int, b: int)
    requires 2 <= c < |r| && c % 2 == 0 && |r| % 2 == 0 && Boundary(r, a, b) && !(r[c - 1] == a && r[c] == b)
    ensures Boundary(Merged(r, c), a, b)
  {
    var m := Merged(r, c);
    var k: nat :| BoundaryAt(r, k, a, b);
    assert BoundaryAt(m, if k < c then k else k - 2, a, b);
  }

  lemma {:induction false} MergedWidest(key: seq<int>, r: seq<int>, c: nat)
    requires WidestKept(key, r) && 2 <= c < |r| && c % 2 == 0 && |r| % 2 == 0
    requires forall k :: 2 <= k < |r| && k % 2 == 0 ==> Gap(r, c) <= Gap(r, k)
    ensures WidestKept(key, Merged(r, c))
  {
    var m := Merged(r, c);
    forall q, i | 0 <= q < |key| - 1 && 2 <= i < |m| && i % 2 == 0 ensures NoWider(key, m, q, i) {
      var k := MergedGap(r, c, i);
      assert NoWider(key, r, q, k) && NoWider(key, r, q, c);
      if Boundary(r, key[q], key[q + 1]) && !(r[c - 1] == key[q] && r[c] == key[q + 1]) {
        MergedBoundary(r, c, key[q], key[q + 1]);
      }
    }
  }

  /** A gap that is left was there before. */
  lemma {:induction false} MergedGap(r: seq<int>, c: nat, i: nat) returns (k: nat)
    requires 2 <= c < |r| && c % 2 == 0 && 2 <= i < |r| - 2 && i % 2 == 0
    ensures 2 <= k < |r| && k % 2 == 0 && |Merged(r, c)| == |r| - 2 && Gap(Merged(r, c), i) == Gap(r, k)
  {
    k := if i < c then i else i + 2;
  }

  ghost predicate Doubled(key: seq<int>, r: seq<int>) {
    |r| == 2 * |key| && forall i :: 0 <= i < |r| ==> r[i] == key[i / 2]
  }

  lemma {:induction false} DoubledWidest(key: seq<int>, r: seq<int>)
    requires Doubled(key, r)
    ensures WidestKept(key, r)
  {
    forall q | 0 <= q < |key| - 1 ensures KeptGap(key, r, q) {
      var k := 2 * q + 2;
      assert r[k - 1] == key[(k - 1) / 2] && r[k] == key[k / 2];
      assert BoundaryAt(r, k, key[q], key[q + 1]);
    }
  }

  /** Ranges between elements of `key`, from its first to its last, that lose no element of it. */
  ghost predicate RangesOver(key: seq<int>, r: seq<int>) {
    && key != [] && r != [] && Ranges(r) && AllInt32(r)
    && r[0] == key[0] && r[|r| - 1] == key[|key| - 1]
    && (forall i :: 0 <= i < |r| ==> r[i] in key)
    && LosesNothing(key, r)
  }

  ghost predicate LosesNothing(key: seq<int>, r: seq<int>) {
    forall v {:trigger Within(r, v)} :: v in key ==> Within(r, v)
  }

  lemma {:induction false} DoubledRanges(key: seq<int>, r: seq<int>)
    requires Increasing(key) && AllInt32(key) && key != [] && Doubled(key, r)
    ensures RangesOver(key, r)
  {
    DoubledAreRanges(key, r);
    forall v | v in key ensures Within(r, v) {
      var k :| 0 <= k < |key| && key[k] == v;
      var i := 2 * k;
      assert r[i] == key[i / 2] && r[i + 1] == key[(i + 1) / 2] && i % 2 == 0;
    }
  }

  lemma {:induction false} DoubledAreRanges(key: seq<int>, r: seq<int>)
    requires Increasing(key) && Doubled(key, r)
    ensures Ranges(r)
  {
    forall i | 0 <= i < |r| && i % 2 == 0 ensures RangeAt(r, i) {
      assert i / 2 == (i + 1) / 2 && (i > 0 ==> (i - 1) / 2 < i / 2);
    }
  }

  lemma {:induction false} MergedOver(key: seq<int>, r: seq<int>, c: nat)
    requires RangesOver(key, r) && 2 <= c < |r| && c % 2 == 0
    ensures RangesOver(key, Merged(r, c))
  {
    MergedRanges(r, c);
    MergedFrom(key, r, c);
    MergedLosesNothing(key, r, c);
  }

  lemma {:induction false} MergedLosesNothing(key: seq<int>, r: seq<int>, c: nat)
    requires Ranges(r) && LosesNothing(key, r) && 2 <= c < |r| && c % 2 == 0
    ensures LosesNothing(key, Merged(r, c))
  {
    forall v | v in key ensures Within(Merged(r, c), v) {
      assert Within(r, v);
      MergedWithin(r, c, v);
    }
  }

  lemma {:induction false} MergedFrom(key: seq<int>, r: seq<int>, c: nat)
    requires 2 <= c < |r| && forall i :: 0 <= i < |r| ==> r[i] in key
    ensures forall i :: 0 <= i < |Merged(r, c)| ==> Merged(r, c)[i] in key
  {
  }

  /** Merges across the smallest gap and closes up the array. */
  method MergeOnce(dr: array<int>, len: nat, ghost key: seq<int>) returns (shorter: nat)
    requires 8 <= len <= dr.Length && Merging(key, dr[..len])
    modifies dr
    ensures shorter == len - 2 && Merging(key, dr[..shorter])
  {
    var cand := FindMerge(dr[..len], key);
    CloseUp(dr, len, cand);
    shorter := len - 2;
  }

  method FindMerge(r: seq<int>, ghost key: seq<int>) returns (cand: nat)
    requires 8 <= |r| && Merging(key, r)
    ensures 2 <= cand < |r| && Merging(key, Merged(r, cand))
  {
    cand := SmallestGap(r);
    MergedMerging(key, r, cand);
  }

  lemma {:induction false} MergedMerging(key: seq<int>, r: seq<int>, c: nat)
    requires Merging(key, r) && 2 <= c < |r| && c % 2 == 0
    requires forall k :: 2 <= k < |r| && k % 2 == 0 ==> Gap(r, c) <= Gap(r, k)
    ensures Merging(key, Merged(r, c))
  {
    MergedOver(key, r, c);
    MergedWidest(key, r, c);
  }

  /** Every element as a range of its own. */
  method DoubleAll(key: seq<int>) returns (dr: array<int>)
    requires Increasing(key) && AllInt32(key) && key != []
    ensures fresh(dr) && dr.Length == 2 * |key| && Merging(key, dr[..])
  {
    var len := |key|;
    dr := new int[2 * len](i requires 0 <= i < 2 * len => if i < len then key[i] else 0);
    assert forall k :: 0 <= k < len ==> dr[k] == key[k];
    assert dr[..len] == key;
    Double(dr, len);
    DoubledRanges(key, dr[..]);
    DoubledWidest(key, dr[..]);
  }

  /** The internal-key branch of `g_int_compress`. */
  method Compress(key: seq<int>) returns (r: seq<int>)
    requires Increasing(key) && AllInt32(key)
    ensures Stored(key, r)
  {
    if |key| < 2 * MAXNUMRANGE { return key; }
    var dr := DoubleAll(key);
    r := MergeDown(dr, key);
  }

  method MergeDown(dr: array<int>, ghost key: seq<int>) returns (r: seq<int>)
    requires 2 * MAXNUMRANGE <= dr.Length && dr.Length % 2 == 0 && Merging(key, dr[..])
    modifies dr
    ensures |r| == 2 * MAXNUMRANGE && Merging(key, r)
  {
    var len := dr.Length;
    assert dr[..len] == dr[..];
    while len > 2 * MAXNUMRANGE
      invariant 2 * MAXNUMRANGE <= len <= dr.Length && len % 2 == 0 && Merging(key, dr[..len])
    {
      len := MergeOnce(dr, len, key);
    }
    r := dr[..len];
  }

  // ----- expansion -----

  function Run(lo: int, hi: int): (a: seq<int>)
    ensures |a| == if lo <= hi then hi - lo + 1 else 0
    ensures forall i :: 0 <= i < |a| ==> a[i] == lo + i
    decreases hi - lo
  {
    if lo > hi then [] else Run(lo, hi - 1) + [hi]
  }

  /** All the integers in the ranges, in order. */
  function Expand(rs: seq<int>): seq<int>
    requires |rs| % 2 == 0
  {
    if rs == [] then [] else Expand(rs[..|rs| - 2]) + Run(rs[|rs| - 2], rs[|rs| - 1])
  }

  /** A range that starts where the previous one ends is not counted. */
  function SizeUpTo(rs: seq<int>, n: nat): int
    requires n <= |rs| && n % 2 == 0
  {
    if n == 0 then 0
    else SizeUpTo(rs, n - 2) + if n == 2 || rs[n - 2] != rs[n - 3] then rs[n - 1] - rs[n - 2] + 1 else 0
  }

  /** `internal_size`: of disjoint ranges, the number of integers in them, in 32 bits. */
  method InternalSize(a: seq<int>) returns (size: int)
    requires |a| % 2 == 0
    ensures size == Wrap32(SizeUpTo(a, |a|)) && (Ranges(a) ==> size == Wrap32(|Expand(a)|))
  {
    size := 0;
    var i := 0;
    while i < |a|
      invariant 0 <= i <= |a| && i % 2 == 0 && size == Wrap32(SizeUpTo(a, i))
    {
      if i == 0 || a[i] != a[i - 1] {
        WrapSum(SizeUpTo(a, i), a[i + 1] - a[i] + 1);
        size := Wrap32(size + (a[i + 1] - a[i] + 1));
      }
      i := i + 2;
    }
    if Ranges(a) {
      ExpandIncreasing(a);
    }
  }

  lemma {:induction false} RangesPrefix(rs: seq<int>, n: nat)
    requires Ranges(rs) && n <= |rs| && n % 2 == 0
    ensures Ranges(rs[..n])
  {
    forall i | 0 <= i < n && i % 2 == 0 ensures RangeAt(rs[..n], i) {
      assert RangeAt(rs, i);
    }
  }

  /** The expansion of disjoint ranges is increasing, ends at the last bound, and has the size that
      `internal_size` foretells. */
  lemma {:induction false} ExpandIncreasing(rs: seq<int>)
    requires Ranges(rs)
    ensures Increasing(Expand(rs)) && |Expand(rs)| == SizeUpTo(rs, |rs|)
    ensures rs != [] ==> Expand(rs) != [] && Expand(rs)[|Expand(rs)| - 1] == rs[|rs| - 1]
  {
    if rs != [] {
      var n := |rs| - 2;
      RangesPrefix(rs, n);
      ExpandIncreasing(rs[..n]);
      SizePrefix(rs, n, n);
      assert RangeAt(rs, n);
      ExpandAppend(Expand(rs[..n]), rs[n], rs[n + 1]);
    }
  }

  /** It holds exactly what the ranges cover. */
  lemma {:induction false} ExpandHolds(rs: seq<int>, v: int)
    requires Ranges(rs)
    ensures v in Expand(rs) <==> Within(rs, v)
  {
    if rs != [] {
      var n := |rs| - 2;
      RangesPrefix(rs, n);
      ExpandHolds(rs[..n], v);
      WithinLast(rs, v);
      InRun(rs[n], rs[n + 1], v);
    }
  }

  lemma {:induction false} SizePrefix(rs: seq<int>, n: nat, m: nat)
    requires m <= n <= |rs| && m % 2 == 0
    ensures SizeUpTo(rs[..n], m) == SizeUpTo(rs, m)
  {
    if m > 0 {
      SizePrefix(rs, n, m - 2);
    }
  }

  lemma {:induction false} InRun(lo: int, hi: int, v: int)
    ensures v in Run(lo, hi) <==> lo <= v <= hi
  {
    if lo <= v <= hi {
      assert Run(lo, hi)[v - lo] == v;
    }
  }

  lemma {:induction false} WithinLast(rs: seq<int>, v: int)
    requires Ranges(rs) && rs != []
    ensures Within(rs, v) <==> Within(rs[..|rs| - 2], v) || rs[|rs| - 2] <= v <= rs[|rs| - 1]
  {
    var n := |rs| - 2;
    if Within(rs, v) {
      var i :| 0 <= i < |rs| - 1 && i % 2 == 0 && rs[i] <= v <= rs[i + 1];
      if i < n {
        assert rs[..n][i] <= v <= rs[..n][i + 1];
      }
    }
    if Within(rs[..n], v) {
      var i :| 0 <= i < |rs[..n]| - 1 && i % 2 == 0 && rs[..n][i] <= v <= rs[..n][i + 1];
      assert rs[i] <= v <= rs[i + 1];
    }
    if rs[n] <= v <= rs[n + 1] {
      assert n % 2 == 0;
    }
  }

  lemma {:induction false} ExpandAppend(a: seq<int>, lo: int, hi: int)
    requires Increasing(a) && lo <= hi && (a != [] ==> a[|a| - 1] < lo)
    ensures Increasing(a + Run(lo, hi))
  {
    forall i | 0 <= i < |a| ensures a[i] < lo {
      if i < |a| - 1 {
        assert a[i] < a[|a| - 1];
      }
    }
  }

  lemma {:induction false} ExpandPrefix(rs: seq<int>, n: nat)
    requires |rs| % 2 == 0 && n <= |rs| && n % 2 == 0
    ensures |Expand(rs[..n])| <= |Expand(rs)|
    decreases |rs|
  {
    if n == |rs| {
      assert rs[..n] == rs;
    } else {
      ExpandPrefix(rs[..|rs| - 2], n);
      assert rs[..|rs| - 2][..n] == rs[..n];
    }
  }

  /** The next range fits the output and starts above what has been written. */
  lemma {:induction false} NextRange(rs: seq<int>, i: nat)
    requires Ranges(rs) && i + 1 < |rs| && i % 2 == 0
    ensures Expand(rs[..i + 2]) == Expand(rs[..i]) + Run(rs[i], rs[i + 1])
    ensures |Expand(rs[..i])| + |Run(rs[i], rs[i + 1])| <= |Expand(rs)|
    ensures i > 0 ==> var a := Expand(rs[..i]); a != [] && a[|a| - 1] < rs[i]
  {
    assert rs[..i + 2][..i] == rs[..i];
    ExpandPrefix(rs, i + 2);
    if i > 0 {
      assert RangeAt(rs, i);
      RangesPrefix(rs, i);
      ExpandIncreasing(rs[..i]);
    }
  }

  lemma {:induction false} OnlyLastAtMax(rs: seq<int>, i: nat)
    requires Ranges(rs) && AllInt32(rs) && i + 1 < |rs| && i % 2 == 0 && rs[i + 1] == INT_MAX
    ensures i + 2 == |rs|
  {
    assert i + 2 < |rs| ==> RangeAt(rs, i + 2);
  }

  /** What becomes of a key: its elements, a refused allocation, a counter that passes INT_MAX, or a buffer
      too small for what is written to it. */
  datatype Expansion = Keys(a: seq<int>) | AllocationFails | CounterOverflows | Overruns

  /** The expansion in the buffer that the 32-bit byte count leads to. */
  ghost function Outcome(din: seq<int>): Expansion
    requires |din| >= 2 * MAXNUMRANGE ==> Ranges(din)
  {
    if |din| < 2 * MAXNUMRANGE then Keys(din)
    else if |Expand(din)| <= MAXELEMENTS then
      if din[|din| - 1] == INT_MAX then CounterOverflows else Keys(Expand(din))
    else if (ARR_OVERHEAD + 4 * |Expand(din)|) % 0x1_0000_0000 <= MAXALLOC then Overruns
    else AllocationFails
  }

  /** The byte count wraps; if it can be allocated although the size is too large, the room is too small. */
  lemma {:induction false} BytesFor(size: nat)
    ensures var nbytes := Wrap32(ARR_OVERHEAD + 4 * Wrap32(size));
      && (0 <= nbytes <= MAXALLOC <==> (ARR_OVERHEAD + 4 * size) % 0x1_0000_0000 <= MAXALLOC)
      && (size <= MAXELEMENTS ==> nbytes == ARR_OVERHEAD + 4 * size)
      && (size > MAXELEMENTS && ARR_OVERHEAD <= nbytes <= MAXALLOC ==> (nbytes - ARR_OVERHEAD) / 4 < size)
  {
    var k := (size + 0x8000_0000) / 0x1_0000_0000;
    assert Wrap32(size) == size - k * 0x1_0000_0000;
    var bytes := ARR_OVERHEAD + 4 * size;
    assert ARR_OVERHEAD + 4 * Wrap32(size) == bytes - (4 * k) * 0x1_0000_0000;
    WrapShift(bytes, 4 * k);
    WrapResidue(bytes);
    if size <= MAXELEMENTS {
      WrapSmall(bytes);
    }
  }

  lemma {:induction false} WrapResidue(x: nat)
    ensures var r := x % 0x1_0000_0000; Wrap32(x) == if r > INT_MAX then r - 0x1_0000_0000 else r
  {
    var m, q := 0x1_0000_0000, x / 0x1_0000_0000;
    var r := x % m;
    assert x == q * m + r;
    WrapShift(x, q);
  }

  /** The inner loop: one range, skipping an element that repeats the one written last. A write past the end
      of the buffer and an increment of the 32-bit counter past INT_MAX are reported. */
  method WriteRange(dr: array<int>, w0: nat, first: bool, lo: int, hi: int) returns (w: nat, e: Expansion)
    requires lo <= hi <= INT_MAX && w0 <= dr.Length
    requires !first ==> w0 > 0 && dr[w0 - 1] < lo
    modifies dr
    ensures e == if w0 + (hi - lo) >= dr.Length then Overruns else if hi == INT_MAX then CounterOverflows else Keys([])
    ensures !e.Overruns? ==> w == w0 + hi - lo + 1 <= dr.Length && dr[..w] == old(dr[..w0]) + Run(lo, hi)
  {
    var j := lo;
    w, e := w0, Keys([]);
    while j <= hi
      invariant lo <= j <= hi + 1 && w == w0 + j - lo <= dr.Length && e == Keys([])
      invariant forall k :: 0 <= k < w0 ==> dr[k] == old(dr[k])
      invariant forall k :: w0 <= k < w ==> dr[k] == lo + k - w0
      invariant j > hi ==> hi < INT_MAX
      decreases hi - j
    {
      if first || dr[w - 1] != j {
        if w == dr.Length {
          return w, Overruns;
        }
        dr[w] := j;
        w := w + 1;
      }
      if j == INT_MAX {
        return w, CounterOverflows;
      }
      j := j + 1;
    }
  }

  /** One turn of the outer loop. */
  method ExpandNext(din: seq<int>, i: nat, dr: array<int>, w0: nat, ghost out: seq<int>)
    returns (w: nat, e: Expansion, ghost more: seq<int>)
    requires Ranges(din) && AllInt32(din) && i + 1 < |din| && i % 2 == 0
    requires out == Expand(din[..i]) && w0 == |out| <= dr.Length && dr[..w0] == out
    modifies dr
    ensures e == Keys([]) || (e.Overruns? && dr.Length < |Expand(din)|) ||
            (e.CounterOverflows? && |Expand(din)| <= dr.Length && din[|din| - 1] == INT_MAX)
    ensures e == Keys([]) ==>
              more == Expand(din[..i + 2]) && w == |more| <= dr.Length && dr[..w] == more && din[i + 1] < INT_MAX
  {
    NextRange(din, i);
    assert RangeAt(din, i);
    LastWritten(dr[..], out, w0);
    more := out + Run(din[i], din[i + 1]);
    w, e := WriteRange(dr, w0, i == 0, din[i], din[i + 1]);
    if e.CounterOverflows? {
      OnlyLastAtMax(din, i);
      AllRanges(din, i);
    }
  }

  /** The outer loop. */
  method ExpandInto(din: seq<int>, dr: array<int>) returns (e: Expansion)
    requires Ranges(din) && AllInt32(din) && |din| > 0
    modifies dr
    ensures e.Overruns? <==> dr.Length < |Expand(din)|
    ensures dr.Length == |Expand(din)| ==> if din[|din| - 1] == INT_MAX then e.CounterOverflows? else e == Keys(Expand(din))
  {
    var w, i := 0, 0;
    ghost var out: seq<int> := [];
    while i < |din|
      invariant 0 <= i <= |din| && i % 2 == 0 && out == Expand(din[..i])
      invariant w == |out| <= dr.Length && dr[..w] == out
      invariant i > 0 ==> din[i - 1] < INT_MAX
    {
      w, e, out := ExpandNext(din, i, dr, w, out);
      if e != Keys([]) { return; }
      i := i + 2;
    }
    assert din[..|din|] == din;
    assert w == dr.Length ==> dr[..] == dr[..w];
    e := Keys(dr[..]);
  }

  lemma {:induction false} LastWritten(row: seq<int>, out: seq<int>, w: nat)
    requires w == |out| <= |row| && row[..w] == out
    ensures w > 0 ==> row[w - 1] == out[w - 1]
  {
    if w > 0 {
      assert row[..w][w - 1] == row[w - 1];
    }
  }

  lemma {:induction false} AllRanges(din: seq<int>, i: nat)
    requires i + 2 == |din| && i % 2 == 0
    ensures |Expand(din)| == |Expand(din[..i])| + |Run(din[i], din[i + 1])|
  {
  }

  /** `g_int_decompress` with `new_intArrayType`. */
  method Decompress(din: seq<int>) returns (r: Expansion)
    requires |din| >= 2 * MAXNUMRANGE ==> Ranges(din) && AllInt32(din)
    ensures r == Outcome(din)
  {
    if |din| < 2 * MAXNUMRANGE { return Keys(din); }
    var lenr := InternalSize(din);
    BytesFor(|Expand(din)|);
    var nbytes := Wrap32(ARR_OVERHEAD + 4 * lenr);
    if nbytes < 0 || nbytes > MAXALLOC { return AllocationFails; }
    if nbytes < ARR_OVERHEAD { return Overruns; }
    var dr := new int[(nbytes - ARR_OVERHEAD) / 4];
    r := ExpandInto(din, dr);
  }

  // ----- there and back -----

  /** A key comes back if and only if it was small, or the integers between its bounds fit one allocation and
      INT_MAX is not among its elements. Then it is increasing and has every element it had; a small key is
      unchanged. */
  lemma {:induction false} CompressionLosesNothing(key: seq<int>, r: seq<int>)
    requires Increasing(key) && AllInt32(key) && Stored(key, r)
    ensures Outcome(r).Keys? <==> |key| < 2 * MAXNUMRANGE || (|Expand(r)| <= MAXELEMENTS && INT_MAX !in key)
    ensures Outcome(r).Keys? ==> Increasing(Outcome(r).a) && forall v :: v in key ==> v in Outcome(r).a
    ensures |key| < 2 * MAXNUMRANGE ==> Outcome(r) == Keys(key)
  {
    if |key| >= 2 * MAXNUMRANGE {
      ExpandIncreasing(r);
      LastIsTop(key, r);
      forall v | v in key ensures v in Expand(r) {
        assert Within(r, v);
        ExpandHolds(r, v);
      }
    }
  }

  /** The last bound is INT_MAX exactly if the key holds it. */
  lemma {:induction false} LastIsTop(key: seq<int>, r: seq<int>)
    requires Increasing(key) && AllInt32(key) && RangesOver(key, r)
    ensures r[|r| - 1] == INT_MAX <==> INT_MAX in key
  {
    forall i | 0 <= i < |key| - 1 ensures key[i] < key[|key| - 1] {
    }
    assert key[|key| - 1] in key;
  }

  // ----- keys with equal gaps, whose size does not depend on what is merged -----

  ghost predicate Spaced(key: seq<int>, g: nat) {
    g > 0 && key != [] && forall i :: 0 <= i < |key| ==> key[i] == key[0] + g * i
  }

  lemma {:induction false} SpacedApart(key: seq<int>, g: nat, x: nat, y: nat)
    requires Spaced(key, g) && x < y < |key|
    ensures key[x] + g <= key[y] && (y > x + 1 ==> key[x] < key[x + 1] < key[y]) && (y == x + 1 ==> key[y] == key[x] + g)
  {
    Multiples(g, x, 1);
    Multiples(g, x + 1, y - x - 1);
    assert key[x] == key[0] + g * x && key[x + 1] == key[0] + g * (x + 1) && key[y] == key[0] + g * y;
  }

  lemma {:induction false} Multiples(g: nat, a: nat, b: nat)
    ensures g * (a + b) == g * a + g * b && (b == 1 ==> g * b == g) && (b > 0 ==> g * b >= g) && g * b >= 0
  {
  }

  /** Every gap that is left is a gap between neighbours. */
  lemma {:induction false} SpacedGap(key: seq<int>, g: nat, r: seq<int>, i: nat)
    requires Spaced(key, g) && RangesOver(key, r) && 2 <= i < |r| && i % 2 == 0
    ensures r[i] == r[i - 1] + g
  {
    assert RangeAt(r, i);
    var x :| 0 <= x < |key| && key[x] == r[i - 1];
    var y :| 0 <= y < |key| && key[y] == r[i];
    if y <= x {
      if y < x {
        SpacedApart(key, g, y, x);
      }
      assert false;
    }
    SpacedApart(key, g, x, y);
    if y > x + 1 {
      assert key[x + 1] in key;
      assert Within(r, key[x + 1]);
      GapIsEmpty(r, i, key[x + 1]);
    }
  }

  lemma {:induction false} GapIsEmpty(r: seq<int>, i: nat, v: int)
    requires Ranges(r) && 2 <= i < |r| && i % 2 == 0 && r[i - 1] < v < r[i]
    ensures !Within(r, v)
  {
    forall k | 0 <= k < |r| - 1 && k % 2 == 0 ensures !(r[k] <= v <= r[k + 1]) {
      if k < i {
        BoundsGrow(r, k + 1, i - 1);
      } else {
        BoundsGrow(r, i, k);
      }
    }
  }

  lemma {:induction false} BoundsGrow(r: seq<int>, a: nat, b: nat)
    requires Ranges(r) && a <= b < |r|
    ensures r[a] <= r[b]
  {
    if a < b {
      BoundsGrow(r, a, b - 1);
      assert RangeAt(r, if b % 2 == 0 then b else b - 1);
    }
  }

  /** All gaps between ranges have width `g`. */
  ghost predicate EvenGaps(r: seq<int>, g: nat) {
    forall i :: 2 <= i < |r| && i % 2 == 0 ==> GapIs(r, i, g)
  }

  ghost predicate GapIs(r: seq<int>, i: nat, g: nat) {
    1 <= i < |r| && r[i] == r[i - 1] + g
  }

  /** The size of the first `k` ranges: all from the first bound on but the gaps. */
  lemma {:induction false} SpacedSize(g: nat, r: seq<int>, k: nat)
    requires EvenGaps(r, g) && 0 < g && 1 <= k && 2 * k <= |r|
    ensures SizeUpTo(r, 2 * k) == r[2 * k - 1] - r[0] + 1 - (k - 1) * (g - 1)
  {
    if k == 1 {
      assert SizeUpTo(r, 0) == 0 && (k - 1) * (g - 1) == 0;
    } else {
      SpacedSize(g, r, k - 1);
      assert GapIs(r, 2 * k - 2, g);
      SizeStep(r, k);
      OneGapMore(k - 1, g - 1, SizeUpTo(r, 2 * (k - 1)), r[0], r[2 * k - 3], r[2 * k - 1]);
    }
  }

  lemma {:induction false} OneGapMore(k: nat, h: nat, size: int, first: int, mid: int, last: int)
    requires k > 0 && size == mid - first + 1 - (k - 1) * h
    ensures size + last - (mid + h + 1) + 1 == last - first + 1 - k * h
  {
    assert k * h == (k - 1) * h + h;
  }

  lemma {:induction false} SizeStep(r: seq<int>, k: nat)
    requires 2 <= k && 2 * k <= |r| && r[2 * k - 3] < r[2 * k - 2]
    ensures SizeUpTo(r, 2 * k) == SizeUpTo(r, 2 * (k - 1)) + r[2 * k - 1] - r[2 * k - 2] + 1
  {
  }

  /** 200 elements with gap `g` are stored as ranges of 100 * (g + 1) integers, whatever is merged. */
  lemma {:induction false} SpacedStored(key: seq<int>, g: nat, r: seq<int>)
    requires |key| == 200 && Spaced(key, g) && Stored(key, r)
    ensures |Expand(r)| == 100 * g + 100
  {
    forall i | 2 <= i < |r| && i % 2 == 0 ensures GapIs(r, i, g) {
      SpacedGap(key, g, r, i);
    }
    SpacedSize(g, r, 100);
    ExpandIncreasing(r);
    assert key[199] == key[0] + g * 199;
  }

  function SpacedKey(first: int, g: nat): (key: seq<int>)
    ensures |key| == 200
  {
    seq(200, i => first + g * i)
  }

  lemma {:induction false} SpacedKeyOk(first: int, g: nat)
    requires 0 < g && INT_MIN <= first && first + 199 * g <= INT_MAX
    ensures var key := SpacedKey(first, g); Spaced(key, g) && Increasing(key) && AllInt32(key)
  {
    var key := SpacedKey(first, g);
    assert key[0] == first + g * 0;
    forall i, j | 0 <= i < j < 200 ensures key[i] < key[j] {
      SpacedApart(key, g, i, j);
    }
    forall i | 0 <= i < 200 ensures IsInt32(key[i]) {
      assert 0 <= g * i <= g * 199;
    }
  }

  /** 200 elements from INT_MIN on, 10737418 apart: the byte count of the expansion wraps to 328, so every stored
      form of the key overruns its buffer. */
  lemma {:induction false} WideKeyOverruns(r: seq<int>)
    requires Stored(SpacedKey(INT_MIN, 10737418), r)
    ensures Outcome(r) == Overruns
  {
    var key := SpacedKey(INT_MIN, 10737418);
    SpacedKeyOk(INT_MIN, 10737418);
    SpacedStored(key, 10737418, r);
    WrappedSizeOverruns(r);
  }

  lemma {:induction false} WrappedSizeOverruns(r: seq<int>)
    requires |r| >= 2 * MAXNUMRANGE && Ranges(r) && |Expand(r)| == 1073741900
    ensures Outcome(r) == Overruns
  {
    assert (ARR_OVERHEAD + 4 * 1073741900) % 0x1_0000_0000 == 328;
  }

  /** The 200 largest integers: every stored form ends at INT_MAX, where the counter cannot stop. */
  lemma {:induction false} TopKeyOverflows(r: seq<int>)
    requires Stored(SpacedKey(INT_MAX - 199, 1), r)
    ensures Outcome(r) == CounterOverflows
  {
    var key := SpacedKey(INT_MAX - 199, 1);
    SpacedKeyOk(INT_MAX - 199, 1);
    SpacedStored(key, 1, r);
    assert key[199] in key;
    LastIsTop(key, r);
  }

  // ----- leaf arrays that are taken for ranges -----

  /** The two elements at an even index are neighbouring integers. */
  ghost predicate NeighboursAt(a: seq<int>, i: nat) {
    i + 1 < |a| && a[i + 1] == a[i] + 1
  }

  ghost predicate AllNeighbours(a: seq<int>) {
    forall i :: 0 <= i < |a| && i % 2 == 0 ==> NeighboursAt(a, i)
  }

  /** Expansion never shrinks an array, and leaves it alone exactly if it consists of neighbours. */
  lemma {:induction false} ExpandGrows(a: seq<int>)
    requires Increasing(a) && |a| % 2 == 0
    ensures |Expand(a)| >= |a| && (|Expand(a)| == |a| <==> AllNeighbours(a)) && (AllNeighbours(a) ==> Expand(a) == a)
  {
    if a != [] {
      var n := |a| - 2;
      IncreasingFront(a, n);
      ExpandGrows(a[..n]);
      NeighboursFront(a, n);
      RunOfTwo(a[n], a[n + 1]);
      BackTogether(a, n);
    }
  }

  lemma {:induction false} IncreasingFront(a: seq<int>, n: nat)
    requires Increasing(a) && |a| == n + 2
    ensures Increasing(a[..n]) && a[n] < a[n + 1]
  {
  }

  lemma {:induction false} RunOfTwo(lo: int, hi: int)
    requires lo < hi
    ensures |Run(lo, hi)| >= 2 && (|Run(lo, hi)| == 2 <==> hi == lo + 1) && (hi == lo + 1 ==> Run(lo, hi) == [lo, hi])
  {
  }

  lemma {:induction false} BackTogether(a: seq<int>, n: nat)
    requires |a| == n + 2
    ensures a == a[..n] + [a[n], a[n + 1]]
  {
  }

  lemma {:induction false} NeighboursFront(a: seq<int>, n: nat)
    requires |a| == n + 2 && n % 2 == 0
    ensures AllNeighbours(a) <==> AllNeighbours(a[..n]) && NeighboursAt(a, n)
  {
    forall i | 0 <= i < n && i % 2 == 0 ensures NeighboursAt(a, i) <==> NeighboursAt(a[..n], i) {
    }
  }

  lemma {:induction false} IncreasingRanges(a: seq<int>)
    requires Increasing(a) && |a| % 2 == 0
    ensures Ranges(a)
  {
    forall i | 0 <= i < |a| && i % 2 == 0 ensures RangeAt(a, i) {
      assert a[i] < a[i + 1] && (i > 0 ==> a[i - 1] < a[i]);
    }
  }

  /** A leaf array of 200 or more elements, an even number of them, is stored as it is and expanded when it is
      read: nothing is lost, and it is unchanged if and only if its elements pair up as neighbours. */
  lemma {:induction false} BigLeafExactly(a: seq<int>)
    requires Increasing(a) && |a| % 2 == 0 && |a| >= 2 * MAXNUMRANGE
    ensures Ranges(a)
    ensures Outcome(a).Keys? ==>
      (Outcome(a).a == a <==> AllNeighbours(a)) && forall v :: v in a ==> v in Outcome(a).a
  {
    IncreasingRanges(a);
    ExpandGrows(a);
    forall v | v in a ensures v in Expand(a) {
      var i :| 0 <= i < |a| && a[i] == v;
      BoundWithin(a, i);
      ExpandHolds(a, v);
    }
  }

  lemma {:induction false} BoundWithin(a: seq<int>, i: nat)
    requires Ranges(a) && i < |a|
    ensures Within(a, a[i])
  {
    var k := if i % 2 == 0 then i else i - 1;
    assert k % 2 == 0 && RangeAt(a, k);
    assert a[k] <= a[i] <= a[k + 1];
  }

  /** With an odd number of elements the last range ends at `behind`, the word behind the array. The array is
      unchanged if and only if its other elements pair up as neighbours and that word repeats the last one, which
      is lost if the word is smaller; and the size foretold is too small for what is written if it is smaller by
      more than one. */
  lemma {:induction false} OddLeafExactly(a: seq<int>, behind: int)
    requires Increasing(a) && |a| % 2 == 1 && |a| >= 2 * MAXNUMRANGE
    ensures var din, n := a + [behind], |a| - 1;
      && (Expand(din) == a <==> AllNeighbours(a[..n]) && behind == a[n])
      && (a[n] in Expand(din) <==> behind >= a[n])
      && (SizeUpTo(din, |din|) < |Expand(din)| <==> behind < a[n] - 1)
  {
    var n := |a| - 1;
    var front, last := a[..n], a[n];
    assert a == front + [last];
    IncreasingRanges(front);
    ExpandGrows(front);
    OddExpansion(a, behind);
    LastNotWithin(a, n);
    InRun(last, behind, last);
    if behind == last {
      assert Run(last, behind) == [last];
    }
  }

  lemma {:induction false} OddExpansion(a: seq<int>, behind: int)
    requires Increasing(a) && |a| % 2 == 1 && |a| > 1
    ensures var din, n := a + [behind], |a| - 1;
      Expand(din) == Expand(a[..n]) + Run(a[n], behind) && SizeUpTo(din, |din|) == |Expand(a[..n])| + behind - a[n] + 1
  {
    var din, n := a + [behind], |a| - 1;
    assert din[..|din| - 2] == a[..n] && din[..n] == a[..n] && din[n] == a[n] && din[n + 1] == behind;
    IncreasingRanges(a[..n]);
    ExpandIncreasing(a[..n]);
    SizePrefix(din, n, n);
    assert a[n - 1] < a[n];
  }

  lemma {:induction false} LastNotWithin(a: seq<int>, n: nat)
    requires Increasing(a) && |a| == n + 1 && n % 2 == 0
    ensures a[n] !in Expand(a[..n])
  {
    IncreasingRanges(a[..n]);
    ExpandHolds(a[..n], a[n]);
    forall i | 0 <= i < n ensures a[..n][i] < a[n] {
    }
  }
}
