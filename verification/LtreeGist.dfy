/** Interval keys of the ltree index: the tests that prune a search lose nothing and are exact. */
module LtreeGist {
  import opened Orders
  import opened Ltree

  /** The bounds of an index key; a leaf key has its path as both. */
  datatype Key = Key(left: Path, right: Path)

  ghost predicate Covers(k: Key, p: Path) {
    Order(k.left, p) <= 0 && Order(p, k.right) <= 0
  }

  /** Depths at which every comparison is right; `RowIsShallow` shows that an index holds no others. */
  predicate Shallow(p: Path) {
    |p| < 14654
  }

  ghost predicate StorableKey(k: Key) {
    Ltree.Storable(k.left) && Ltree.Storable(k.right)
  }

  ghost predicate KeyOk(k: Key) {
    Shallow(k.left) && Shallow(k.right) && Order(k.left, k.right) <= 0
  }

  ghost predicate AllOk(keys: seq<Key>) {
    forall i :: 0 <= i < |keys| ==> KeyOk(keys[i])
  }

  lemma {:induction false} OrderFacts(p: Path, q: Path, r: Path)
    ensures Order(p, q) == -Order(q, p) && (Order(p, q) == 0 <==> p == q)
    ensures Order(p, q) <= 0 && Order(q, r) <= 0 ==> Order(p, r) <= 0
    ensures Order(p, p) == 0
  {
    OrderTotal();
    assert Order(p, q) == -Order(q, p) && Order(q, r) == Order(q, r);
    assert Order(p, p) == 0 <==> p == p;
  }

  // ----- union -----

  /** One step outwards, as far as the comparisons say. */
  ghost function Widened(u: Key, cur: Key): Key {
    Key(if Compared(u.left, cur.left) > 0 then cur.left else u.left,
        if Compared(u.right, cur.right) < 0 then cur.right else u.right)
  }

  ghost function UnionOf(keys: seq<Key>): Key
    requires |keys| > 0
  {
    if |keys| == 1 then keys[0] else Widened(UnionOf(keys[..|keys| - 1]), keys[|keys| - 1])
  }

  lemma {:induction false} UnionMore(keys: seq<Key>, j: nat)
    requires 0 < j < |keys|
    ensures UnionOf(keys[..j + 1]) == Widened(UnionOf(keys[..j]), keys[j])
  {
    assert keys[..j + 1][..j] == keys[..j] && keys[..j + 1][j] == keys[j];
  }

  /** `ltree_union`. */
  method Union(keys: seq<Key>) returns (u: Key)
    requires |keys| > 0 && forall i :: 0 <= i < |keys| ==> StorableKey(keys[i])
    ensures StorableKey(u) && u == UnionOf(keys)
  {
    u := keys[0];
    for j := 1 to |keys|
      invariant StorableKey(u) && u == UnionOf(keys[..j])
    {
      UnionMore(keys, j);
      u := Widen(u, keys[j]);
    }
    assert keys[..|keys|] == keys;
  }

  /** Moves either bound out to the next key's if that one compares as lying further out. */
  method Widen(u: Key, cur: Key) returns (r: Key)
    requires StorableKey(u) && StorableKey(cur)
    ensures StorableKey(r) && r == Widened(u, cur)
  {
    var cl := Compare(u.left, cur.left);
    var cr := Compare(u.right, cur.right);
    r := Key(if cl > 0 then cur.left else u.left, if cr < 0 then cur.right else u.right);
  }

  /** Of shallow keys, it takes the least left and the greatest right bound, and covers what they cover. */
  lemma {:induction false} UnionExact(keys: seq<Key>)
    requires |keys| > 0 && AllOk(keys)
    ensures var u := UnionOf(keys);
      KeyOk(u) && Bounding(keys, |keys|, u.left, u.right) && Taken(keys, u)
    ensures forall i, p :: 0 <= i < |keys| && Covers(keys[i], p) ==> Covers(UnionOf(keys), p)
  {
    UnionBounds(keys);
    UnionCovers(keys, UnionOf(keys));
  }

  /** Either bound is one of the given ones. */
  ghost predicate Taken(keys: seq<Key>, u: Key) {
    (exists i :: 0 <= i < |keys| && u.left == keys[i].left) && (exists i :: 0 <= i < |keys| && u.right == keys[i].right)
  }

  lemma {:induction false} UnionBounds(keys: seq<Key>)
    requires |keys| > 0 && AllOk(keys)
    ensures var u := UnionOf(keys); Bounding(keys, |keys|, u.left, u.right) && Taken(keys, u)
  {
    var n := |keys| - 1;
    if n == 0 {
      OrderFacts(keys[0].left, keys[0].left, keys[0].left);
      OrderFacts(keys[0].right, keys[0].right, keys[0].right);
    } else {
      UnionBounds(keys[..n]);
      UnionStep(keys, UnionOf(keys[..n]));
    }
  }

  lemma {:induction false} UnionStep(keys: seq<Key>, u: Key)
    requires |keys| > 1 && AllOk(keys)
    requires var front := keys[..|keys| - 1]; Bounding(front, |front|, u.left, u.right) && Taken(front, u)
    ensures var w := Widened(u, keys[|keys| - 1]); Bounding(keys, |keys|, w.left, w.right) && Taken(keys, w)
  {
    var n := |keys| - 1;
    var front, w := keys[..n], Widened(u, keys[n]);
    TakenShallow(front, u);
    WidenedOut(u, keys[n]);
    BoundingFront(keys, n, u);
    StillBounding(keys, n, u.left, u.right, w.left, w.right);
    TakenMore(keys, u, w);
  }

  lemma {:induction false} BoundingFront(keys: seq<Key>, n: nat, u: Key)
    requires n <= |keys| && Bounding(keys[..n], n, u.left, u.right)
    ensures Bounding(keys, n, u.left, u.right)
  {
    assert forall i :: 0 <= i < n ==> keys[..n][i] == keys[i];
  }

  lemma {:induction false} TakenShallow(keys: seq<Key>, u: Key)
    requires Taken(keys, u) && AllOk(keys)
    ensures Shallow(u.left) && Shallow(u.right)
  {
  }

  lemma {:induction false} TakenMore(keys: seq<Key>, u: Key, w: Key)
    requires |keys| > 1 && Taken(keys[..|keys| - 1], u)
    requires var last := keys[|keys| - 1];
      (w.left == u.left || w.left == last.left) && (w.right == u.right || w.right == last.right)
    ensures Taken(keys, w)
  {
    var front := keys[..|keys| - 1];
    var i :| 0 <= i < |front| && u.left == front[i].left;
    var j :| 0 <= j < |front| && u.right == front[j].right;
    assert keys[i] == front[i] && keys[j] == front[j];
  }

  lemma {:induction false} WidenedOut(u: Key, cur: Key)
    requires Shallow(u.left) && Shallow(u.right) && KeyOk(cur)
    ensures var w := Widened(u, cur);
      && (w.left == u.left || w.left == cur.left) && Order(w.left, u.left) <= 0 && Order(w.left, cur.left) <= 0
      && (w.right == u.right || w.right == cur.right) && Order(u.right, w.right) <= 0 && Order(cur.right, w.right) <= 0
  {
    ShallowIsRight(u.left, cur.left);
    ShallowIsRight(u.right, cur.right);
    OrderFacts(u.left, cur.left, u.left);
    OrderFacts(cur.left, cur.left, u.left);
    OrderFacts(u.left, u.left, u.left);
    OrderFacts(u.right, cur.right, u.right);
    OrderFacts(cur.right, cur.right, u.right);
    OrderFacts(u.right, u.right, u.right);
  }

  /** No left bound of the first `j` keys is smaller, no right bound greater. */
  ghost predicate Bounding(keys: seq<Key>, j: nat, left: Path, right: Path) {
    j <= |keys| && forall i :: 0 <= i < j ==> Order(left, keys[i].left) <= 0 && Order(keys[i].right, right) <= 0
  }

  lemma {:induction false} StillBounding(keys: seq<Key>, j: nat, left: Path, right: Path, left': Path, right': Path)
    requires j < |keys| && Bounding(keys, j, left, right)
    requires Order(left', left) <= 0 && Order(left', keys[j].left) <= 0
    requires Order(right, right') <= 0 && Order(keys[j].right, right') <= 0
    ensures Bounding(keys, j + 1, left', right')
  {
    forall i | 0 <= i < j ensures Order(left', keys[i].left) <= 0 && Order(keys[i].right, right') <= 0 {
      OrderFacts(left', left, keys[i].left);
      OrderFacts(keys[i].right, right, right');
    }
  }

  lemma {:induction false} UnionCovers(keys: seq<Key>, u: Key)
    requires |keys| > 0 && AllOk(keys)
    requires Bounding(keys, |keys|, u.left, u.right) && Taken(keys, u)
    ensures KeyOk(u)
    ensures forall i, p :: 0 <= i < |keys| && Covers(keys[i], p) ==> Covers(u, p)
  {
    TakenShallow(keys, u);
    OrderFacts(u.left, keys[0].left, keys[0].right);
    OrderFacts(u.left, keys[0].right, u.right);
    forall i, p | 0 <= i < |keys| && Covers(keys[i], p) ensures Covers(u, p) {
      OrderFacts(u.left, keys[i].left, p);
      OrderFacts(p, keys[i].right, u.right);
    }
  }

  // ----- page split -----

  /** Each of the first `n` indexes once. */
  ghost predicate Complete(order: seq<nat>, n: nat) {
    && |order| == n
    && (forall a :: 0 <= a < n ==> order[a] < n)
    && (forall a, b :: 0 <= a < b < n ==> order[a] != order[b])
  }

  ghost predicate ByLeft(order: seq<nat>, keys: seq<Key>)
    requires forall a :: 0 <= a < |order| ==> order[a] < |keys|
  {
    forall a, b :: 0 <= a < b < |order| ==> Order(keys[order[a]].left, keys[order[b]].left) <= 0
  }

  /** Stands for `qsort` on the indexes: nothing but a permutation is promised where comparisons go wrong. */
  method SortByLeft(keys: seq<Key>) returns (order: seq<nat>)
    requires forall i :: 0 <= i < |keys| ==> StorableKey(keys[i])
    ensures Complete(order, |keys|) && (AllOk(keys) ==> ByLeft(order, keys))
  {
    order := [];
    for n := 0 to |keys|
      invariant Complete(order, n) && (AllOk(keys) ==> ByLeft(order, keys))
    {
      order := InsertIndex(order, keys, n);
    }
  }

  method InsertIndex(order: seq<nat>, keys: seq<Key>, n: nat) returns (more: seq<nat>)
    requires Complete(order, n) && n < |keys| && forall i :: 0 <= i < |keys| ==> StorableKey(keys[i])
    ensures Complete(more, n + 1) && (AllOk(keys) && ByLeft(order, keys) ==> ByLeft(more, keys))
  {
    var k := n;
    while k > 0
      invariant 0 <= k <= n && (AllOk(keys) ==> forall a :: k <= a < n ==> Order(keys[n].left, keys[order[a]].left) <= 0)
    {
      var c := Compare(keys[order[k - 1]].left, keys[n].left);
      if AllOk(keys) { RightWay(keys, order[k - 1], n); }
      if c <= 0 { break; }
      k := k - 1;
    }
    more := order[..k] + [n] + order[k..];
    InsertedComplete(order, n, k);
    if AllOk(keys) && ByLeft(order, keys) {
      AllBefore(order, keys, n, k);
      InsertedByLeft(order, keys, n, k);
    }
  }

  lemma {:induction false} RightWay(keys: seq<Key>, a: nat, b: nat)
    requires AllOk(keys) && a < |keys| && b < |keys|
    ensures var l, r := keys[a].left, keys[b].left;
      Compared(l, r) == Order(l, r) == -Order(r, l)
  {
    ShallowIsRight(keys[a].left, keys[b].left);
    OrderFacts(keys[a].left, keys[b].left, keys[a].left);
  }

  lemma {:induction false} AllBefore(order: seq<nat>, keys: seq<Key>, n: nat, k: nat)
    requires Complete(order, n) && k <= n < |keys| && ByLeft(order, keys)
    requires k > 0 ==> Order(keys[order[k - 1]].left, keys[n].left) <= 0
    ensures forall a :: 0 <= a < k ==> Order(keys[order[a]].left, keys[n].left) <= 0
  {
    forall a | 0 <= a < k - 1 ensures Order(keys[order[a]].left, keys[n].left) <= 0 {
      OrderFacts(keys[order[a]].left, keys[order[k - 1]].left, keys[n].left);
    }
  }

  lemma {:induction false} InsertedComplete(order: seq<nat>, n: nat, k: nat)
    requires Complete(order, n) && k <= n
    ensures Complete(order[..k] + [n] + order[k..], n + 1)
  {
    var more := order[..k] + [n] + order[k..];
    forall a | 0 <= a < n + 1 ensures more[a] == if a < k then order[a] else if a == k then n else order[a - 1] {
    }
  }

  lemma {:induction false} InsertedByLeft(order: seq<nat>, keys: seq<Key>, n: nat, k: nat)
    requires Complete(order, n) && k <= n < |keys| && ByLeft(order, keys)
    requires forall a :: 0 <= a < k ==> Order(keys[order[a]].left, keys[n].left) <= 0
    requires forall a :: k <= a < n ==> Order(keys[n].left, keys[order[a]].left) <= 0
    ensures Complete(order[..k] + [n] + order[k..], n + 1) && ByLeft(order[..k] + [n] + order[k..], keys)
  {
    InsertedComplete(order, n, k);
    var more := order[..k] + [n] + order[k..];
    forall a | 0 <= a < n + 1 ensures more[a] == if a < k then order[a] else if a == k then n else order[a - 1] {
    }
  }

  /** The keys of one side. */
  ghost function Part(keys: seq<Key>, side: seq<nat>): (part: seq<Key>)
    requires forall a :: 0 <= a < |side| ==> side[a] < |keys|
    ensures |part| == |side| && forall a :: 0 <= a < |side| ==> part[a] == keys[side[a]]
  {
    seq(|side|, a requires 0 <= a < |side| => keys[side[a]])
  }

  /** What compares as the greatest right bound. */
  ghost function RightOf(part: seq<Key>): Path
    requires |part| > 0
  {
    if |part| == 1 then part[0].right
    else
      var right, last := RightOf(part[..|part| - 1]), part[|part| - 1].right;
      if Compared(last, right) > 0 then last else right
  }

  lemma {:induction false} RightMore(part: seq<Key>, j: nat)
    requires 0 < j < |part|
    ensures var right, last := RightOf(part[..j]), part[j].right;
      RightOf(part[..j + 1]) == if Compared(last, right) > 0 then last else right
  {
    assert part[..j + 1][..j] == part[..j] && part[..j + 1][j] == part[j];
  }

  /** The key of one side: the first left bound and the greatest right one. */
  method SideKey(keys: seq<Key>, side: seq<nat>) returns (k: Key)
    requires |side| > 0 && forall a :: 0 <= a < |side| ==> side[a] < |keys|
    requires forall i :: 0 <= i < |keys| ==> StorableKey(keys[i])
    ensures StorableKey(k) && k == Key(keys[side[0]].left, RightOf(Part(keys, side)))
  {
    ghost var part := Part(keys, side);
    var right := keys[side[0]].right;
    for j := 1 to |side|
      invariant Ltree.Storable(right) && right == RightOf(part[..j])
    {
      RightMore(part, j);
      var cur := keys[side[j]].right;
      var c := Compare(cur, right);
      right := if c > 0 then cur else right;
    }
    assert part[..|part|] == part;
    k := Key(keys[side[0]].left, right);
  }

  ghost predicate CoversAll(k: Key, keys: seq<Key>, side: seq<nat>)
    requires forall a :: 0 <= a < |side| ==> side[a] < |keys|
  {
    forall a, p :: 0 <= a < |side| && Covers(keys[side[a]], p) ==> Covers(k, p)
  }

  lemma {:induction false} SideCovers(keys: seq<Key>, side: seq<nat>)
    requires |side| > 0 && forall a :: 0 <= a < |side| ==> side[a] < |keys|
    requires AllOk(keys) && ByLeft(side, keys)
    ensures Right(keys, side)
  {
    var part := Part(keys, side);
    var k := Key(part[0].left, RightOf(part));
    forall a | 0 < a < |part| ensures Order(part[0].left, part[a].left) <= 0 {
      assert Order(keys[side[0]].left, keys[side[a]].left) <= 0;
    }
    SideBounds(part);
    UnionCovers(part, k);
    forall a, p | 0 <= a < |side| && Covers(keys[side[a]], p) ensures Covers(k, p) {
      assert part[a] == keys[side[a]];
    }
  }

  lemma {:induction false} SideBounds(part: seq<Key>)
    requires |part| > 0 && AllOk(part) && forall a :: 0 < a < |part| ==> Order(part[0].left, part[a].left) <= 0
    ensures var k := Key(part[0].left, RightOf(part)); Bounding(part, |part|, k.left, k.right) && Taken(part, k)
  {
    var n, left := |part| - 1, part[0].left;
    OrderFacts(left, left, left);
    if n == 0 {
      OrderFacts(part[0].right, part[0].right, part[0].right);
    } else {
      var front, cur := part[..n], part[n].right;
      SideBounds(front);
      var right, right' := RightOf(front), RightOf(part);
      TakenShallow(front, Key(left, right));
      ShallowIsRight(cur, right);
      OrderFacts(right, cur, right);
      OrderFacts(cur, cur, cur);
      OrderFacts(right, right, right);
      BoundingFront(part, n, Key(left, right));
      StillBounding(part, n, left, right, left, right');
      TakenMore(part, Key(left, right), Key(left, right'));
    }
  }

  /** `ltree_picksplit`: every entry goes to exactly one side and neither side is empty; of shallow keys, each
      side's key covers what its entries cover. */
  method PickSplit(keys: seq<Key>) returns (toLeft: seq<nat>, toRight: seq<nat>, lkey: Key, rkey: Key)
    requires |keys| >= 2 && forall i :: 0 <= i < |keys| ==> StorableKey(keys[i])
    ensures |toLeft| == |keys| / 2 > 0 && |toRight| > 0 && Complete(toLeft + toRight, |keys|)
    ensures forall a :: 0 <= a < |toLeft| ==> toLeft[a] < |keys|
    ensures forall a :: 0 <= a < |toRight| ==> toRight[a] < |keys|
    ensures AllOk(keys) ==> LeftFirst(keys, toLeft, toRight)
    ensures AllOk(keys) ==> KeyOk(lkey) && CoversAll(lkey, keys, toLeft) && KeyOk(rkey) && CoversAll(rkey, keys, toRight)
  {
    var order := SortByLeft(keys);
    var half := |keys| / 2;
    toLeft, toRight := order[..half], order[half..];
    Halves(order, keys, half);
    lkey := SideKey(keys, toLeft);
    rkey := SideKey(keys, toRight);
  }

  lemma {:induction false} Halves(order: seq<nat>, keys: seq<Key>, half: nat)
    requires Complete(order, |keys|) && 0 < half < |keys| && (AllOk(keys) ==> ByLeft(order, keys))
    ensures var l, r := order[..half], order[half..];
      && l + r == order
      && (forall a :: 0 <= a < |l| ==> l[a] < |keys|) && (forall a :: 0 <= a < |r| ==> r[a] < |keys|)
      && (AllOk(keys) ==> Right(keys, l) && Right(keys, r))
      && (AllOk(keys) ==> LeftFirst(keys, l, r))
  {
    if AllOk(keys) {
      ByLeftParts(order, keys, half);
      SideCovers(keys, order[..half]);
      SideCovers(keys, order[half..]);
    }
  }

  /** No left bound on the one side exceeds one on the other. */
  ghost predicate LeftFirst(keys: seq<Key>, l: seq<nat>, r: seq<nat>)
    requires (forall a :: 0 <= a < |l| ==> l[a] < |keys|) && (forall b :: 0 <= b < |r| ==> r[b] < |keys|)
  {
    forall a, b :: 0 <= a < |l| && 0 <= b < |r| ==> Order(keys[l[a]].left, keys[r[b]].left) <= 0
  }

  lemma {:induction false} ByLeftParts(order: seq<nat>, keys: seq<Key>, half: nat)
    requires (forall a :: 0 <= a < |order| ==> order[a] < |keys|) && half <= |order| && ByLeft(order, keys)
    ensures ByLeft(order[..half], keys) && ByLeft(order[half..], keys) && LeftFirst(keys, order[..half], order[half..])
  {
    forall a, b | 0 <= a < half && 0 <= b < |order| - half
      ensures Order(keys[order[..half][a]].left, keys[order[half..][b]].left) <= 0
    {
      assert Order(keys[order[a]].left, keys[order[half + b]].left) <= 0;
    }
  }

  /** One side's key covers its entries. */
  ghost predicate Right(keys: seq<Key>, side: seq<nat>)
    requires |side| > 0 && forall a :: 0 <= a < |side| ==> side[a] < |keys|
  {
    var k := Key(keys[side[0]].left, RightOf(Part(keys, side)));
    KeyOk(k) && CoversAll(k, keys, side)
  }

  // ----- the pruning tests -----

  /** Some ancestor of `q`, or `q` itself, lies between the bounds. */
  ghost predicate MayHoldAncestor(k: Key, q: Path) {
    exists i :: 0 <= i <= |q| && Covers(k, q[..i])
  }

  /** Some descendant of `q`, or `q` itself, lies between the bounds. */
  ghost predicate MayHoldDescendant(k: Key, q: Path) {
    exists d :: q <= d && Covers(k, d)
  }

  /** One prefix of the query compares as lying between the bounds. */
  ghost predicate SeemsWithin(k: Key, p: Path) {
    Compared(p, k.left) >= 0 && Compared(p, k.right) <= 0
  }

  ghost predicate ParentTest(k: Key, q: Path) {
    exists i :: 0 <= i <= |q| && SeemsWithin(k, q[..i])
  }

  /** `gist_isparent`: tries every prefix of the query by lowering its level count, and restores it. */
  method GistIsParent(k: Key, query: LtreeValue) returns (res: bool)
    requires StorableKey(k) && query.Valid() && Ltree.Storable(query.Path())
    modifies query
    ensures query.numlevel == old(query.numlevel)
    ensures res <==> ParentTest(k, query.Path())
  {
    var numlevel := query.numlevel;
    ghost var q := query.Path();
    var i := numlevel;
    while i >= 0
      invariant -1 <= i <= numlevel && query.numlevel <= |query.levels|
      invariant forall j :: i < j <= numlevel ==> !SeemsWithin(k, q[..j])
    {
      query.numlevel := i;
      assert query.Path() == q[..i];
      var cl := Compare(query.Path(), k.left);
      var cr := Compare(query.Path(), k.right);
      if cl >= 0 && cr <= 0 {
        query.numlevel := numlevel;
        assert SeemsWithin(k, q[..i]);
        return true;
      }
      i := i - 1;
    }
    query.numlevel := numlevel;
    return false;
  }

  lemma {:induction false} SeemsRight(k: Key, p: Path)
    requires Shallow(p)
    ensures SeemsWithin(k, p) <==> Covers(k, p)
  {
    ShallowIsRight(p, k.left);
    ShallowIsRight(p, k.right);
    OrderFacts(k.left, p, k.right);
  }

  lemma {:induction false} ParentTestExact(k: Key, q: Path)
    requires Shallow(q)
    ensures ParentTest(k, q) <==> MayHoldAncestor(k, q)
  {
    forall i | 0 <= i <= |q| ensures SeemsWithin(k, q[..i]) <==> Covers(k, q[..i]) {
      SeemsRight(k, q[..i]);
    }
  }

  /** A copy of a path with its level count lowered. */
  function Cut(p: Path, n: nat): Path {
    if |p| > n then p[..n] else p
  }

  ghost predicate ChildTest(k: Key, q: Path) {
    Compared(q, Cut(k.left, |q|)) >= 0 && Compared(q, Cut(k.right, |q|)) <= 0
  }

  /** `gist_ischild`: compares with both bounds cut to the depth of the query. */
  method GistIsChild(k: Key, query: Path) returns (res: bool)
    requires StorableKey(k) && Ltree.Storable(query)
    ensures res <==> ChildTest(k, query)
  {
    var left, right := Cut(k.left, |query|), Cut(k.right, |query|);
    var c := Compare(query, left);
    res := c >= 0;
    if res {
      c := Compare(query, right);
      res := c <= 0;
    }
  }

  lemma {:induction false} ChildTestExact(k: Key, q: Path)
    requires Order(k.left, k.right) <= 0 && Shallow(q)
    ensures ChildTest(k, q) <==> MayHoldDescendant(k, q)
  {
    var left, right := Cut(k.left, |q|), Cut(k.right, |q|);
    ShallowIsRight(q, left);
    ShallowIsRight(q, right);
    OrderFacts(q, left, q);
    CutBounds(k, q);
  }

  /** Cutting keeps the order. */
  lemma {:induction false} CutMonotone(p: Path, q: Path, n: nat)
    requires Order(p, q) <= 0
    ensures Order(Cut(p, n), Cut(q, n)) <= 0
  {
    if n > 0 && p != [] && q != [] && TextCmp(p[0], q[0]) == 0 {
      CutMonotone(p[1..], q[1..], n - 1);
      CutTail(p, n);
      CutTail(q, n);
    }
  }

  lemma {:induction false} CutTail(p: Path, n: nat)
    requires n > 0 && p != []
    ensures Cut(p, n) != [] && Cut(p, n)[0] == p[0] && Cut(p, n)[1..] == Cut(p[1..], n - 1)
  {
  }

  /** If the cut path differs from the query, the uncut one compares the same way with every descendant. */
  lemma {:induction false} CutDecides(p: Path, q: Path, d: Path)
    requires q <= d && Cut(p, |q|) != q && Total(TextCmp)
    ensures Order(p, d) == Order(Cut(p, |q|), q) != 0
    decreases |q|
  {
    var c := Cut(p, |q|);
    if q != [] && p != [] {
      assert c[0] == p[0] && d[0] == q[0];
      if TextCmp(p[0], q[0]) == 0 {
        assert p[0] == q[0];
        assert c[1..] == Cut(p[1..], |q[1..]|);
        assert c == [c[0]] + c[1..] && q == [q[0]] + q[1..];
        CutDecides(p[1..], q[1..], d[1..]);
      }
    }
  }

  lemma {:induction false} CutBounds(k: Key, q: Path)
    requires Order(k.left, k.right) <= 0
    ensures MayHoldDescendant(k, q) <==> Order(Cut(k.left, |q|), q) <= 0 && Order(q, Cut(k.right, |q|)) <= 0
  {
    TextTotal();
    var left, right := Cut(k.left, |q|), Cut(k.right, |q|);
    if MayHoldDescendant(k, q) {
      var d :| q <= d && Covers(k, d);
      CutMonotone(k.left, d, |q|);
      CutMonotone(d, k.right, |q|);
      assert Cut(d, |q|) == q;
    }
    if Order(left, q) <= 0 && Order(q, right) <= 0 {
      var d := DescendantWithin(k, q);
    }
  }

  /** The test passes only if there is such a path: one of the bounds or the query itself. */
  lemma {:induction false} DescendantWithin(k: Key, q: Path) returns (d: Path)
    requires Order(k.left, k.right) <= 0 && Total(TextCmp)
    requires Order(Cut(k.left, |q|), q) <= 0 && Order(q, Cut(k.right, |q|)) <= 0
    ensures q <= d && Covers(k, d)
  {
    OrderFacts(k.left, k.left, k.left);
    OrderFacts(k.right, k.right, k.right);
    if Cut(k.left, |q|) == q {
      d := k.left;
    } else if Cut(k.right, |q|) == q {
      d := k.right;
    } else {
      d := q;
      CutDecides(k.left, q, q);
      CutDecides(k.right, q, q);
      OrderFacts(k.right, q, q);
      OrderFacts(Cut(k.right, |q|), q, q);
    }
  }

  // ----- what an index row can hold -----

  const INDEX_SIZE_MASK := 0x1fff

  function MaxAlign(n: nat): nat {
    (n + 7) / 8 * 8
  }

  /** The bytes of a path: a header, and every label behind its length, padded. */
  function PathSize(p: Path): nat {
    if p == [] then 8 else PathSize(p[..|p| - 1]) + MaxAlign(2 + |p[|p| - 1]|)
  }

  /** The bytes of a key without the signature that an inner key can have as well; equal bounds are stored once. */
  function KeySize(k: Key): nat {
    8 + PathSize(k.left) + if k.left == k.right then 0 else PathSize(k.right)
  }

  /** The row, which is not compressed, fits the size field behind its own header. */
  predicate FitsRow(k: Key) {
    MaxAlign(8 + KeySize(k)) <= INDEX_SIZE_MASK
  }

  lemma {:induction false} PathSizeAtLeast(p: Path)
    ensures PathSize(p) >= 8 * (|p| + 1)
  {
    if p != [] {
      PathSizeAtLeast(p[..|p| - 1]);
    }
  }

  /** No path in an index has even 1024 levels, so all its comparisons are right. */
  lemma {:induction false} RowIsShallow(k: Key)
    requires FitsRow(k)
    ensures |k.left| < 1024 && |k.right| < 1024 && Shallow(k.left) && Shallow(k.right)
  {
    PathSizeAtLeast(k.left);
    PathSizeAtLeast(k.right);
  }

  // ----- the whole index -----

  datatype Tree = Leaf(path: Path) | Inner(key: Key, kids: seq<Tree>)

  ghost function KeyOf(t: Tree): Key {
    if t.Leaf? then Key(t.path, t.path) else t.key
  }

  /** Every inner key covers what its children's keys cover, which is what `Union` gives. */
  ghost predicate WellKeyed(t: Tree) {
    t.Inner? ==> forall i :: 0 <= i < |t.kids| ==>
      WellKeyed(t.kids[i]) && forall p :: Covers(KeyOf(t.kids[i]), p) ==> Covers(t.key, p)
  }

  ghost predicate Holds(t: Tree, p: Path) {
    match t
    case Leaf(q) => p == q
    case Inner(_, kids) => exists i :: 0 <= i < |kids| && Holds(kids[i], p)
  }

  lemma {:induction false} HeldIsCovered(t: Tree, p: Path)
    requires WellKeyed(t) && Holds(t, p)
    ensures Covers(KeyOf(t), p)
  {
    match t
    case Leaf(q) =>
      OrderFacts(p, p, p);
    case Inner(key, kids) =>
      var i :| 0 <= i < |kids| && Holds(kids[i], p);
      HeldIsCovered(kids[i], p);
  }

  /** Every key fits an index row. */
  ghost predicate Stored(t: Tree) {
    FitsRow(KeyOf(t)) && (t.Inner? ==> forall i :: 0 <= i < |t.kids| ==> Stored(t.kids[i]))
  }

  lemma {:induction false} HeldIsShallow(t: Tree, p: Path)
    requires Stored(t) && Holds(t, p)
    ensures Shallow(p)
  {
    match t
    case Leaf(_) => RowIsShallow(KeyOf(t));
    case Inner(_, kids) =>
      var i :| 0 <= i < |kids| && Holds(kids[i], p);
      HeldIsShallow(kids[i], p);
  }

  /** What a search for ancestors (`up`) or descendants of `q` reports: leaves are compared exactly, inner
      nodes are skipped if the test on their key fails. */
  ghost predicate Reports(t: Tree, q: Path, up: bool, p: Path) {
    match t
    case Leaf(l) => p == l && if up then l <= q else q <= l
    case Inner(key, kids) =>
      (if up then ParentTest(key, q) else ChildTest(key, q)) &&
      exists i :: 0 <= i < |kids| && Reports(kids[i], q, up, p)
  }

  /** A node above a stored ancestor or descendant passes the test. */
  lemma {:induction false} HeldIsNotSkipped(t: Tree, q: Path, up: bool, p: Path)
    requires t.Inner? && WellKeyed(t) && Stored(t) && Holds(t, p) && if up then p <= q else q <= p
    ensures if up then ParentTest(t.key, q) else ChildTest(t.key, q)
  {
    HeldIsCovered(t, p);
    HeldIsShallow(t, p);
    OrderFacts(t.key.left, p, t.key.right);
    if up {
      SeemsRight(t.key, p);
      assert q[..|p|] == p;
    } else {
      ChildTestExact(t.key, q);
    }
  }

  /** Searching an index gives exactly the stored ancestors or descendants of a query of any depth. */
  lemma {:induction false} SearchIsExact(t: Tree, q: Path, up: bool, p: Path)
    requires WellKeyed(t) && Stored(t)
    ensures Reports(t, q, up, p) <==> Holds(t, p) && if up then p <= q else q <= p
  {
    match t
    case Leaf(_) =>
    case Inner(key, kids) =>
      forall i | 0 <= i < |kids|
        ensures Reports(kids[i], q, up, p) <==> Holds(kids[i], p) && if up then p <= q else q <= p
      {
        SearchIsExact(kids[i], q, up, p);
      }
      if Holds(t, p) && if up then p <= q else q <= p {
        HeldIsNotSkipped(t, q, up, p);
        var i :| 0 <= i < |kids| && Holds(kids[i], p);
        assert Reports(kids[i], q, up, p);
      }
  }
}
