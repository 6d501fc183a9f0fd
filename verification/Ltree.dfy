/** Label paths: their order, ancestors and longest common ancestor. */
module Ltree {
  import opened Int32
  import opened Options
  import opened Orders

  type Path = seq<string>

  /** A path in memory; its last levels can be hidden by lowering `numlevel`. */
  class LtreeValue {
    const levels: Path
    var numlevel: nat

    constructor (levels: Path)
      ensures Valid() && Path() == levels
    {
      this.levels, numlevel := levels, |levels|;
    }

    ghost predicate Valid()
      reads this
    {
      numlevel <= |levels|
    }

    function Path(): Path
      requires numlevel <= |levels|
      reads this
    {
      levels[..numlevel]
    }
  }

  // ----- the order -----

  /** Level by level, a proper prefix first. */
  function Order(p: Path, q: Path): int {
    Lex(p, q, TextCmp)
  }

  lemma {:induction false} OrderTotal()
    ensures Total(Order)
  {
    TextTotal();
    LexTotal(TextCmp, Order);
  }

  /** `p` comes first: it is a proper ancestor, or has the label that comes first in the dictionary at the first
      level where the paths differ. */
  ghost predicate PathLess(p: Path, q: Path) {
    exists n: nat :: LevelsDiffer(p, q, n)
  }

  ghost predicate LevelsDiffer(p: Path, q: Path, n: nat) {
    n <= |p| && n < |q| && p[..n] == q[..n] && (n == |p| || TextLess(p[n], q[n]))
  }

  lemma {:induction false} OrderExactly(p: Path, q: Path)
    ensures Order(p, q) < 0 <==> PathLess(p, q)
    ensures Order(p, q) > 0 <==> PathLess(q, p)
  {
    TextTotal();
    LexFlips(p, q, TextCmp);
    OrderLess(p, q);
    OrderLess(q, p);
  }

  lemma {:induction false} OrderLess(p: Path, q: Path)
    requires Total(TextCmp)
    ensures Order(p, q) < 0 <==> PathLess(p, q)
  {
    var less := (x: string, y: string) => TextCmp(x, y) < 0;
    LexExactly(p, q, TextCmp, less);
    forall n: nat ensures BeforeAt(p, q, n, less) <==> LevelsDiffer(p, q, n) {
      if n < |p| && n < |q| {
        TextExactly(p[n], q[n]);
      }
    }
  }

  /** `p` goes on behind `q` for so many levels that the scaled difference does not stay positive. */
  ghost predicate Overflows(p: Path, q: Path) {
    var d := |p| - |q|;
    q < p && Wrap32(d * 10 * (d + 1)) <= 0
  }

  /** What a path can hold: a 16-bit number of levels, labels of at most 255 characters of up to four
      bytes. */
  predicate Storable(p: Path) {
    |p| < 65536 && forall i :: 0 <= i < |p| ==> |p[i]| <= 1020
  }

  /** The sign of what `ltree_compare` returns. */
  ghost function Compared(p: Path, q: Path): int {
    if Overflows(p, q) then Sign(Wrap32((|p| - |q|) * 10 * (|p| - |q| + 1))) else Order(p, q)
  }

  /** `ltree_compare`: its sign is the order except where the scaled difference in depth overflows. */
  method Compare(p: Path, q: Path) returns (res: int)
    requires Storable(p) && Storable(q)
    ensures Sign(res) == Order(p, q) <==> !Overflows(p, q)
    ensures Sign(res) == Compared(p, q)
  {
    var an, bn, i := |p|, |q|, 0;
    LevelsLeft(p, q, 0);
    while an > 0 && bn > 0
      invariant 0 <= i <= |p| && i <= |q| && an == |p| - i && bn == |q| - i && p[..i] == q[..i]
      invariant Order(p, q) == Order(p[i..], q[i..])
    {
      LevelsLeft(p, q, i);
      res := CompareLevel(p[i], q[i]);
      if res != 0 {
        NotPrefix(p, q, i);
        Scaled(res, an);
        return Wrap32(res * 10 * (an + 1));
      }
      an, bn, i := an - 1, bn - 1, i + 1;
    }
    DepthDecides(p, q, i);
    res := Wrap32((|p| - |q|) * 10 * (an + 1));
  }

  method CompareLevel(x: string, y: string) returns (res: int)
    requires |x| <= 1020 && |y| <= 1020
    ensures Sign(res) == TextCmp(x, y) && -1020 <= res <= 1020 && (res == 0 ==> x == y)
  {
    TextTotal();
    assert TextCmp(x, y) == 0 <==> x == y;
    res := MemCmp(x, y, if |x| < |y| then |x| else |y|);
    MemCmpSign(x, y, if |x| < |y| then |x| else |y|);
    if res == 0 {
      return |x| - |y|;
    }
  }

  lemma {:induction false} MemCmpSign(a: string, b: string, n: nat)
    requires n <= |a| && n <= |b|
    ensures -1 <= MemCmp(a, b, n) <= 1
  {
    LexSign(a[..n], b[..n]);
  }

  lemma {:induction false} LexSign(a: string, b: string)
    ensures -1 <= Lex(a, b, CharCmp) <= 1
  {
    if a != "" && b != "" {
      LexSign(a[1..], b[1..]);
    }
  }

  lemma {:induction false} LevelsLeft(p: Path, q: Path, i: nat)
    requires i <= |p| && i <= |q|
    ensures p[0..] == p && q[0..] == q
    ensures i < |p| && i < |q| ==>
      var d := TextCmp(p[i], q[i]); Order(p[i..], q[i..]) == if d != 0 then d else Order(p[i + 1..], q[i + 1..])
  {
    if i < |p| && i < |q| {
      assert p[i..][0] == p[i] && p[i..][1..] == p[i + 1..] && q[i..][0] == q[i] && q[i..][1..] == q[i + 1..];
    }
  }

  lemma {:induction false} NotPrefix(p: Path, q: Path, i: nat)
    requires i < |p| && i < |q| && p[i] != q[i]
    ensures !(q < p)
  {
  }

  lemma {:induction false} Scaled(res: int, an: nat)
    requires -1020 <= res <= 1020 && an < 65536
    ensures Sign(Wrap32(res * 10 * (an + 1))) == Sign(res)
  {
    var x, y := res * 10, an + 1;
    if res >= 0 {
      Product(x, y, 10200, 65536);
    } else {
      Product(-x, y, 10200, 65536);
      assert x * y == -((-x) * y);
    }
    WrapSmall(x * y);
  }

  lemma {:induction false} Product(x: nat, y: nat, m: nat, n: nat)
    requires x <= m && 0 < y <= n
    ensures 0 <= x * y <= m * n && (x > 0 ==> x * y > 0)
  {
    assert x * y <= m * y;
    assert m * y <= m * n;
  }

  lemma {:induction false} DepthDecides(p: Path, q: Path, i: nat)
    requires |p| < 65536 && |q| < 65536 && i <= |p| && i <= |q| && (i == |p| || i == |q|)
    requires p[..i] == q[..i] && Order(p, q) == Order(p[i..], q[i..])
    ensures Sign(Wrap32((|p| - |q|) * 10 * (|p| - i + 1))) == Order(p, q) <==> !Overflows(p, q)
    ensures Sign(Wrap32((|p| - |q|) * 10 * (|p| - i + 1))) == Compared(p, q)
  {
    var d := |p| - |q|;
    assert Order(p, q) == Sign(d);
    if d <= 0 {
      assert |p| - i == 0;
      WrapSmall(d * 10);
    } else {
      assert q == q[..i] && q < p && |p| - i == d;
    }
  }

  /** Paths whose depths differ by less than 14654 levels are compared correctly. */
  lemma {:induction false} ShallowIsRight(p: Path, q: Path)
    requires |p| - |q| < 14654
    ensures !Overflows(p, q) && Compared(p, q) == Order(p, q)
  {
    var d := |p| - |q|;
    if q < p {
      Product(d * 10, d + 1, 146530, 14654);
      WrapSmall(d * 10 * (d + 1));
    }
  }

  /** A path that goes 14654 levels below another one compares as smaller, and so does the other one with
      it: the result is no order. */
  lemma {:induction false} DeepIsWrong(p: Path, q: Path)
    requires q < p && |p| == |q| + 14654
    ensures Overflows(p, q) && Compared(p, q) == -1
    ensures !Overflows(q, p) && Compared(q, p) == Order(q, p) == -1
  {
    TextTotal();
    PrefixFirst(q, p);
    assert Wrap32(14654 * 10 * 14655) < 0;
  }

  /** A proper prefix comes first. */
  lemma {:induction false} PrefixFirst(q: Path, p: Path)
    requires Total(TextCmp) && q < p
    ensures Order(q, p) == -1
  {
    if q != [] {
      assert TextCmp(q[0], p[0]) == 0;
      PrefixFirst(q[1..], p[1..]);
    }
  }

  // ----- ancestors -----

  /** `inner_isparent`: `p` is `c` or one of its ancestors. */
  method IsParent(c: Path, p: Path) returns (res: bool)
    ensures res <==> p <= c
  {
    if |p| > |c| {
      return false;
    }
    var pn := |p|;
    while pn > 0
      invariant 0 <= pn <= |p| && p[..|p| - pn] == c[..|p| - pn]
    {
      var i := |p| - pn;
      if |c[i]| != |p[i]| {
        return false;
      }
      assert c[i][..|c[i]|] == c[i] && p[i][..|c[i]|] == p[i];
      if MemCmp(c[i], p[i], |c[i]|) != 0 {
        return false;
      }
      pn := pn - 1;
    }
    return true;
  }

  /** `r` is a proper ancestor of every one of the first `n` paths. */
  ghost predicate Common(r: Path, a: seq<Path>, n: nat)
    requires n <= |a|
  {
    forall i :: 0 <= i < n ==> r < a[i]
  }

  ghost predicate Longest(r: Path, a: seq<Path>, n: nat)
    requires n <= |a|
  {
    Common(r, a, n) && forall s :: Common(s, a, n) ==> s <= r
  }

  /** `lca_inner`: nothing if some path has no levels, otherwise the longest common proper ancestor. */
  method LcaInner(a: seq<Path>) returns (res: Option<Path>)
    requires |a| > 0
    ensures res.None? <==> exists i :: 0 <= i < |a| && a[i] == []
    ensures res.Some? ==> Longest(res.value, a, |a|)
  {
    if |a[0]| == 0 {
      return None;
    }
    var num := |a[0]| - 1;
    var ptr := 1;
    while ptr < |a|
      invariant 1 <= ptr <= |a| && 0 <= num < |a[0]| && Longest(a[0][..num], a, ptr)
      invariant forall i :: 0 <= i < ptr ==> a[i] != []
    {
      if |a[ptr]| == 0 {
        return None;
      }
      num := Shared(a, ptr, num);
      ptr := ptr + 1;
    }
    return Some(a[0][..num]);
  }

  /** One round: how many of the first `num` levels the next path shares, leaving out its last level. */
  method Shared(a: seq<Path>, ptr: nat, num: nat) returns (n: nat)
    requires 0 < ptr < |a| && num < |a[0]| && a[ptr] != []
    requires Longest(a[0][..num], a, ptr)
    ensures n <= num && Longest(a[0][..n], a, ptr + 1)
  {
    n := 0;
    var p, q := a[0], a[ptr];
    var limit := if num < |q| - 1 then num else |q| - 1;
    while n < limit && |p[n]| == |q[n]| && MemCmp(p[n], q[n], |p[n]|) == 0
      invariant 0 <= n <= limit && p[..n] == q[..n]
    {
      assert p[n][..|p[n]|] == p[n] && q[n][..|p[n]|] == q[n];
      n := n + 1;
    }
    if n < limit {
      assert p[n][..|p[n]|] == p[n] && q[n][..|q[n]|] == q[n];
      assert p[n] != q[n];
    }
    SharedIsLongest(a, ptr, num, n);
  }

  lemma {:induction false} SharedIsLongest(a: seq<Path>, ptr: nat, num: nat, n: nat)
    requires 0 < ptr < |a| && n <= num < |a[0]| && n < |a[ptr]| && a[0][..n] == a[ptr][..n]
    requires n == num || n == |a[ptr]| - 1 || a[0][n] != a[ptr][n]
    requires Longest(a[0][..num], a, ptr)
    ensures Longest(a[0][..n], a, ptr + 1)
  {
    var p, q := a[0], a[ptr];
    forall i | 0 <= i < ptr ensures p[..n] < a[i] {
      assert p[..num] < a[i];
      assert p[..n] == p[..num][..n];
    }
    var k := ptr + 1;
    forall s | Common(s, a, k) ensures s <= p[..n] {
      assert Common(s, a, ptr) && s < q && s < p;
    }
  }
}
