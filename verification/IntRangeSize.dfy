/** How many integers a compressed intarray key stands for: the fewest that its number of ranges allows,
    unless a gap is too wide for a 32-bit difference. */
module IntRangeSize {
  import opened Int32
  import opened IntRange

  // ----- the size of the ranges, gap by gap -----

  /** What the step from element `q` of the key to the next adds: `b` across a gap between two ranges, all the
      integers on the way inside a range. */
  ghost function Step(key: seq<int>, r: seq<int>, q: nat, b: int): int
    requires q < |key| - 1
  {
    if KeptGap(key, r, q) then b else key[q + 1] - key[q]
  }

  ghost function Weigh(key: seq<int>, r: seq<int>, x: nat, b: int): int
    requires x < |key|
  {
    if x == 0 then 0 else Weigh(key, r, x - 1, b) + Step(key, r, x - 1, b)
  }

  lemma {:induction false} WeighInside(key: seq<int>, r: seq<int>, y: nat, x: nat, b: int)
    requires y <= x < |key| && forall q :: y <= q < x ==> !KeptGap(key, r, q)
    ensures Weigh(key, r, x, b) == Weigh(key, r, y, b) + key[x] - key[y]
  {
    if y < x {
      WeighInside(key, r, y, x - 1, b);
      assert !KeptGap(key, r, x - 1);
    }
  }

  /** No gap between ranges starts inside a range. */
  lemma {:induction false} NoGapInside(r: seq<int>, i: nat, a: int, c: int)
    requires Ranges(r) && i < |r| - 1 && i % 2 == 0 && r[i] <= a < r[i + 1]
    ensures !Boundary(r, a, c)
  {
    forall k: nat | 2 <= k < |r| && k % 2 == 0 ensures !BoundaryAt(r, k, a, c) {
      if k - 1 < i {
        BoundsGrow(r, k - 1, i - 1);
        assert RangeAt(r, i);
      } else {
        BoundsGrow(r, i + 1, k - 1);
      }
    }
  }

  /** The bounds of a gap between ranges are neighbours in the key. */
  lemma {:induction false} GapNeighbours(key: seq<int>, r: seq<int>, i: nat) returns (q: nat)
    requires Increasing(key) && RangesOver(key, r) && 2 <= i < |r| && i % 2 == 0
    ensures q < |key| - 1 && key[q] == r[i - 1] && key[q + 1] == r[i] && KeptGap(key, r, q)
  {
    assert RangeAt(r, i);
    q :| 0 <= q < |key| && key[q] == r[i - 1];
    var y :| 0 <= y < |key| && key[y] == r[i];
    assert q < y;
    if y > q + 1 {
      assert key[q] < key[q + 1] < key[y] && key[q + 1] in key;
      assert Within(r, key[q + 1]);
      GapIsEmpty(r, i, key[q + 1]);
    }
    assert BoundaryAt(r, i, key[q], key[q + 1]);
  }

  /** From the first element to the end of range `k`. */
  lemma {:induction false} WeighRanges(key: seq<int>, r: seq<int>, k: nat, x: nat, b: int)
    requires Increasing(key) && RangesOver(key, r) && 1 <= k && 2 * k <= |r| && x < |key| && key[x] == r[2 * k - 1]
    ensures Weigh(key, r, x, b) == SizeUpTo(r, 2 * k) - 1 + (k - 1) * (b - 1)
  {
    var i := 2 * k - 2;
    assert RangeAt(r, i);
    if k == 1 {
      WeighRange(key, r, i, 0, x, b);
      assert SizeUpTo(r, 0) == 0 && (k - 1) * (b - 1) == 0;
    } else {
      var q := GapNeighbours(key, r, i);
      WeighRanges(key, r, k - 1, q, b);
      WeighRange(key, r, i, q + 1, x, b);
      SizeStep(r, k);
      OneMore(k - 1, b - 1);
    }
  }

  lemma {:induction false} WeighRange(key: seq<int>, r: seq<int>, i: nat, y: nat, x: nat, b: int)
    requires Increasing(key) && Ranges(r) && i < |r| - 1 && i % 2 == 0
    requires y < |key| && x < |key| && key[y] == r[i] && key[x] == r[i + 1]
    ensures Weigh(key, r, x, b) == Weigh(key, r, y, b) + r[i + 1] - r[i]
  {
    assert RangeAt(r, i);
    assert y <= x;
    forall q | y <= q < x ensures !KeptGap(key, r, q) {
      assert key[y] <= key[q] < key[x];
      NoGapInside(r, i, key[q], key[q + 1]);
    }
    WeighInside(key, r, y, x, b);
  }

  lemma {:induction false} OneMore(n: nat, h: int)
    requires n > 0
    ensures n * h == (n - 1) * h + h
  {
  }

  /** The number of integers in the ranges, whatever a gap is charged. */
  lemma {:induction false} ExpandedSize(key: seq<int>, r: seq<int>, b: int)
    requires Increasing(key) && RangesOver(key, r)
    ensures Weigh(key, r, |key| - 1, b) == |Expand(r)| - 1 + (|r| / 2 - 1) * (b - 1)
  {
    WeighRanges(key, r, |r| / 2, |key| - 1, b);
    ExpandIncreasing(r);
  }

  // ----- keeping the widest gaps is best -----

  ghost predicate IsGap(r: seq<int>, i: nat) {
    2 <= i < |r| && i % 2 == 0
  }

  ghost function Width(r: seq<int>, i: nat): int
    requires IsGap(r, i)
  {
    r[i] - r[i - 1]
  }

  lemma {:induction false} NarrowestGap(r: seq<int>, n: nat) returns (i: nat)
    requires |r| % 2 == 0 && 4 <= n <= |r| && n % 2 == 0
    ensures IsGap(r, i) && i < n && forall k: nat :: IsGap(r, k) && k < n ==> Width(r, i) <= Width(r, k)
  {
    i := 2;
    if n > 4 {
      var j := NarrowestGap(r, n - 2);
      i := if Width(r, n - 2) < Width(r, j) then n - 2 else j;
      assert forall k: nat :: IsGap(r, k) && k < n ==> k < n - 2 || k == n - 2;
    }
  }

  /** Two neighbours of the key are at least 2^31 apart. */
  ghost predicate WideGap(key: seq<int>, q: nat) {
    q < |key| - 1 && key[q + 1] - key[q] >= 0x8000_0000
  }

  lemma {:induction false} NarrowIsExact(key: seq<int>, q: nat)
    requires Increasing(key) && q < |key| - 1 && !WideGap(key, q)
    ensures Gap(key, q + 1) == key[q + 1] - key[q]
  {
    WrapSmall(key[q + 1] - key[q]);
  }

  lemma {:induction false} KeptWidth(key: seq<int>, r: seq<int>, q: nat) returns (k: nat)
    requires KeptGap(key, r, q)
    ensures IsGap(r, k) && r[k - 1] == key[q] && r[k] == key[q + 1]
  {
    k :| BoundaryAt(r, k, key[q], key[q + 1]);
  }

  /** Charging every gap the width of the narrowest kept one, each step of a stored key costs the least possible. */
  lemma {:induction false} CheapestStep(key: seq<int>, r: seq<int>, i: nat, q: nat)
    requires Increasing(key) && Merging(key, r) && (forall p :: !WideGap(key, p)) && q < |key| - 1
    requires IsGap(r, i) && forall k: nat :: IsGap(r, k) ==> Width(r, i) <= Width(r, k)
    ensures Step(key, r, q, Width(r, i)) <= Width(r, i) && Step(key, r, q, Width(r, i)) <= key[q + 1] - key[q]
  {
    if KeptGap(key, r, q) {
      var k := KeptWidth(key, r, q);
    } else {
      assert NoWider(key, r, q, i);
      NarrowIsExact(key, q);
      var p := GapNeighbours(key, r, i);
      NarrowIsExact(key, p);
      assert Gap(r, i) == Gap(key, p + 1);
    }
  }

  lemma {:induction false} WeighLess(key: seq<int>, r: seq<int>, other: seq<int>, x: nat, b: int)
    requires x < |key| && forall q :: 0 <= q < x ==> Step(key, r, q, b) <= Step(key, other, q, b)
    ensures Weigh(key, r, x, b) <= Weigh(key, other, x, b)
  {
    if x > 0 {
      WeighLess(key, r, other, x - 1, b);
      assert Step(key, r, x - 1, b) <= Step(key, other, x - 1, b);
    }
  }

  /** No other choice of as many ranges over the key holds fewer integers. */
  lemma {:induction false} FewestIntegers(key: seq<int>, r: seq<int>, other: seq<int>)
    requires Increasing(key) && Merging(key, r) && (forall p :: !WideGap(key, p))
    requires RangesOver(key, other) && |other| == |r| >= 4
    ensures |Expand(r)| <= |Expand(other)|
  {
    var b := CheapestCharge(key, r, other);
    SmallerSize(key, r, other, b);
  }

  lemma {:induction false} SmallerSize(key: seq<int>, r: seq<int>, other: seq<int>, b: int)
    requires Increasing(key) && RangesOver(key, r) && RangesOver(key, other) && |other| == |r|
    requires Weigh(key, r, |key| - 1, b) <= Weigh(key, other, |key| - 1, b)
    ensures |Expand(r)| <= |Expand(other)|
  {
    ExpandedSize(key, r, b);
    ExpandedSize(key, other, b);
    SameCharge(|Expand(r)|, |Expand(other)|, (|r| / 2 - 1) * (b - 1));
  }

  lemma {:induction false} SameCharge(x: int, y: int, charge: int)
    requires x - 1 + charge <= y - 1 + charge
    ensures x <= y
  {
  }

  lemma {:induction false} CheapestCharge(key: seq<int>, r: seq<int>, other: seq<int>) returns (b: int)
    requires Increasing(key) && key != [] && Merging(key, r) && (forall p :: !WideGap(key, p)) && |r| >= 4
    ensures Weigh(key, r, |key| - 1, b) <= Weigh(key, other, |key| - 1, b)
  {
    var i := NarrowestGap(r, |r|);
    b := Width(r, i);
    forall q | 0 <= q < |key| - 1 ensures Step(key, r, q, b) <= Step(key, other, q, b) {
      CheapestStep(key, r, i, q);
    }
    WeighLess(key, r, other, |key| - 1, b);
  }

  // ----- a gap too wide for a 32-bit difference -----

  lemma {:induction false} AllKept(key: seq<int>, r: seq<int>, x: nat, b: int)
    requires x < |key| && forall q :: 0 <= q < x ==> KeptGap(key, r, q)
    ensures Weigh(key, r, x, b) == x * b
  {
    if x > 0 {
      AllKept(key, r, x - 1, b);
      assert KeptGap(key, r, x - 1);
      OneMore(x, b);
    }
  }

  /** More neighbours than gaps between ranges: some were merged. */
  lemma {:induction false} SomeMerged(key: seq<int>, r: seq<int>) returns (q: nat)
    requires Increasing(key) && RangesOver(key, r) && |r| < 2 * |key|
    ensures q < |key| - 1 && !KeptGap(key, r, q)
  {
    if forall p :: 0 <= p < |key| - 1 ==> KeptGap(key, r, p) {
      AllKeptSize(key, r);
      assert false;
    }
    q :| 0 <= q < |key| - 1 && !KeptGap(key, r, q);
  }

  lemma {:induction false} AllKeptSize(key: seq<int>, r: seq<int>)
    requires Increasing(key) && RangesOver(key, r) && forall p :: 0 <= p < |key| - 1 ==> KeptGap(key, r, p)
    ensures |r| / 2 == |key|
  {
    AllKeptWeight(key, r, 0);
    AllKeptWeight(key, r, 1);
    TwoCharges(|key| - 1, |Expand(r)|, |r| / 2);
  }

  lemma {:induction false} AllKeptWeight(key: seq<int>, r: seq<int>, b: int)
    requires Increasing(key) && RangesOver(key, r) && forall p :: 0 <= p < |key| - 1 ==> KeptGap(key, r, p)
    ensures (|key| - 1) * b == |Expand(r)| - 1 + (|r| / 2 - 1) * (b - 1)
  {
    AllKept(key, r, |key| - 1, b);
    ExpandedSize(key, r, b);
  }

  lemma {:induction false} TwoCharges(x: int, e: int, n: int)
    requires x * 0 == e - 1 + (n - 1) * (0 - 1) && x * 1 == e - 1 + (n - 1) * (1 - 1)
    ensures n == x + 1
  {
  }

  lemma {:induction false} OneWideGap(key: seq<int>, p: nat, q: nat)
    requires Increasing(key) && AllInt32(key) && WideGap(key, p) && q < |key| - 1 && q != p
    ensures !WideGap(key, q)
  {
    if p < q {
      assert key[p + 1] <= key[q];
    } else {
      assert key[q + 1] <= key[p];
    }
  }

  lemma {:induction false} WideIsNegative(key: seq<int>, q: nat)
    requires Increasing(key) && AllInt32(key) && q < |key| - 1
    ensures Gap(key, q + 1) < 0 <==> WideGap(key, q)
  {
    var d := key[q + 1] - key[q];
    if d < 0x8000_0000 {
      WrapSmall(d);
    } else {
      WrapShift(d, 1);
      WrapSmall(d - 0x1_0000_0000);
    }
  }

  lemma {:induction false} WeighAtLeast(key: seq<int>, r: seq<int>, x: nat, q: nat, b: nat)
    requires Increasing(key) && q < x < |key| && !KeptGap(key, r, q)
    ensures Weigh(key, r, x, b) >= key[q + 1] - key[q]
  {
    WeighPositive(key, r, x - 1, b);
    if q < x - 1 {
      WeighAtLeast(key, r, x - 1, q, b);
    }
    assert key[x - 1] < key[x];
  }

  lemma {:induction false} WeighPositive(key: seq<int>, r: seq<int>, x: nat, b: nat)
    requires Increasing(key) && x < |key|
    ensures Weigh(key, r, x, b) >= 0
  {
    if x > 0 {
      WeighPositive(key, r, x - 1, b);
      assert key[x - 1] < key[x];
    }
  }

  /** Such a gap has a negative width in 32 bits and is merged before all others, so that the key stands for more
      integers than can be read back. */
  lemma {:induction false} WideGapIsMerged(key: seq<int>, r: seq<int>, q: nat)
    requires Increasing(key) && AllInt32(key) && |key| >= 2 * MAXNUMRANGE && Stored(key, r) && WideGap(key, q)
    ensures !KeptGap(key, r, q) && |Expand(r)| > 0x8000_0000 && !Outcome(r).Keys?
  {
    WideGapNotKept(key, r, q);
    MergedWideGap(key, r, q, 1);
    TooManyIntegers(r);
  }

  lemma {:induction false} MergedWideGap(key: seq<int>, r: seq<int>, q: nat, b: nat)
    requires Increasing(key) && RangesOver(key, r) && WideGap(key, q) && !KeptGap(key, r, q) && b == 1
    ensures |Expand(r)| > 0x8000_0000
  {
    WeighAtLeast(key, r, |key| - 1, q, b);
    PlainSize(key, r, b);
  }

  lemma {:induction false} PlainSize(key: seq<int>, r: seq<int>, b: int)
    requires Increasing(key) && RangesOver(key, r) && b == 1
    ensures Weigh(key, r, |key| - 1, b) == |Expand(r)| - 1
  {
    ExpandedSize(key, r, b);
    NoCharge(|r| / 2 - 1, b - 1);
  }

  lemma {:induction false} NoCharge(n: int, h: int)
    requires h == 0
    ensures n * h == 0
  {
  }

  lemma {:induction false} TooManyIntegers(r: seq<int>)
    requires |r| >= 2 * MAXNUMRANGE && Ranges(r) && |Expand(r)| > MAXELEMENTS
    ensures !Outcome(r).Keys?
  {
  }

  lemma {:induction false} WideGapNotKept(key: seq<int>, r: seq<int>, q: nat)
    requires Increasing(key) && AllInt32(key) && Merging(key, r) && |r| < 2 * |key| && WideGap(key, q)
    ensures !KeptGap(key, r, q)
  {
    if KeptGap(key, r, q) {
      var i := KeptWidth(key, r, q);
      var p := SomeMerged(key, r);
      assert NoWider(key, r, p, i);
      WideIsNegative(key, q);
      WideIsNegative(key, p);
      OneWideGap(key, q, p);
      assert false;
    }
  }

  // ----- when a key is read back -----

  /** One hundred ranges over the key that can be read back. */
  ghost predicate SmallCover(key: seq<int>, r: seq<int>) {
    RangesOver(key, r) && |r| == 2 * MAXNUMRANGE && |Expand(r)| <= MAXELEMENTS
  }

  /** A key is read back if and only if it is small, or it does not hold INT_MAX, has no gap of 2^31 or more, and
      some hundred ranges over it hold few enough integers. */
  lemma {:induction false} ReadBackExactly(key: seq<int>, r: seq<int>)
    requires Increasing(key) && AllInt32(key) && Stored(key, r)
    ensures Outcome(r).Keys? <==>
      || |key| < 2 * MAXNUMRANGE
      || (INT_MAX !in key && (forall q :: !WideGap(key, q)) && exists other :: SmallCover(key, other))
  {
    CompressionLosesNothing(key, r);
    if |key| >= 2 * MAXNUMRANGE {
      if Outcome(r).Keys? {
        assert SmallCover(key, r);
        forall q ensures !WideGap(key, q) {
          if WideGap(key, q) { WideGapIsMerged(key, r, q); }
        }
      } else if (forall q :: !WideGap(key, q)) && exists other :: SmallCover(key, other) {
        var other :| SmallCover(key, other);
        FewestIntegers(key, r, other);
      }
    }
  }
}
