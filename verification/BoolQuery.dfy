/** Boolean queries over integer sets: syntax, meaning, the postfix array with back links, and the
    evaluators that walk it. */
module BoolQuery {
  import opened Sequences

  datatype Oper = Bang | Amp | Bar

  datatype Node = Value(v: int) | Operator(op: Oper)

  /** `left` is the stored offset from an operator to the end of its left operand. */
  datatype Item = Item(node: Node, left: int)

  datatype Junction = Conj | Disj

  /** A query as written; `Group` is a pair of parentheses. */
  datatype Expr = Lit(v: int) | Not(e: Expr) | Bin(j: Junction, l: Expr, r: Expr) | Group(e: Expr)

  function OperOf(j: Junction): Oper {
    if j.Conj? then Amp else Bar
  }

  // ----- meaning -----

  predicate Holds(e: Expr, s: set<int>) {
    match e
    case Lit(v) => v in s
    case Not(x) => !Holds(x, s)
    case Bin(j, l, r) => if j.Conj? then Holds(l, s) && Holds(r, s) else Holds(l, s) || Holds(r, s)
    case Group(x) => Holds(x, s)
  }

  // ----- postfix form -----

  function Size(e: Expr): (n: nat)
    ensures n >= 1
  {
    match e
    case Lit(_) => 1
    case Not(x) => Size(x) + 1
    case Bin(_, l, r) => Size(l) + Size(r) + 1
    case Group(x) => Size(x)
  }

  function Postfix(e: Expr): (p: seq<Node>)
    ensures |p| == Size(e)
  {
    match e
    case Lit(v) => [Value(v)]
    case Not(x) => Postfix(x) + [Operator(Bang)]
    case Bin(j, l, r) => Postfix(l) + Postfix(r) + [Operator(OperOf(j))]
    case Group(x) => Postfix(x)
  }

  /** The postfix array with the offset of every left operand. */
  function Linked(e: Expr): (p: seq<Item>)
    ensures |p| == Size(e)
  {
    match e
    case Lit(v) => [Item(Value(v), 0)]
    case Not(x) => Linked(x) + [Item(Operator(Bang), -1)]
    case Bin(j, l, r) => Linked(l) + Linked(r) + [Item(Operator(OperOf(j)), -1 - Size(r))]
    case Group(x) => Linked(x)
  }

  function Nodes(items: seq<Item>): (p: seq<Node>)
    ensures |p| == |items| && forall i :: 0 <= i < |p| ==> p[i] == items[i].node
  {
    if items == [] then [] else [items[0].node] + Nodes(items[1..])
  }

  lemma {:induction false} LinkedNodes(e: Expr)
    ensures Nodes(Linked(e)) == Postfix(e)
  {
    match e
    case Lit(_) =>
    case Not(x) =>
      LinkedNodes(x);
      NodesConcat(Linked(x), [Item(Operator(Bang), -1)]);
    case Bin(j, l, r) =>
      LinkedNodes(l);
      LinkedNodes(r);
      NodesConcat(Linked(l), Linked(r));
      NodesConcat(Linked(l) + Linked(r), [Item(Operator(OperOf(j)), -1 - Size(r))]);
    case Group(x) => LinkedNodes(x);
  }

  lemma {:induction false} NodesConcat(a: seq<Item>, b: seq<Item>)
    ensures Nodes(a + b) == Nodes(a) + Nodes(b)
  {
  }

  // ----- execute -----

  /** Following any link, or stepping back one item, stays inside the array and moves left. */
  predicate LinksInside(items: seq<Item>) {
    forall i {:trigger items[i]} :: 0 <= i < |items| && items[i].node.Operator? ==>
      1 <= i && (items[i].node.op != Bang ==> 0 <= i + items[i].left < i)
  }

  /** `execute`: `chk` is told the position of the item as well as its value. */
  function Execute(items: seq<Item>, pos: nat, calcnot: bool, chk: (nat, int) -> bool): bool
    requires pos < |items| && LinksInside(items)
    decreases pos
  {
    var cur := items[pos];
    if cur.node.Value? then chk(pos, cur.node.v)
    else if cur.node.op == Bang then
      if calcnot then !Execute(items, pos - 1, calcnot, chk) else true
    else if cur.node.op == Amp then
      Execute(items, pos + cur.left, calcnot, chk) && Execute(items, pos - 1, calcnot, chk)
    else
      Execute(items, pos + cur.left, calcnot, chk) || Execute(items, pos - 1, calcnot, chk)
  }

  /** What `execute` should compute for `e` when its first item is at `base`. */
  predicate Evaluate(e: Expr, base: nat, calcnot: bool, chk: (nat, int) -> bool) {
    match e
    case Lit(v) => chk(base, v)
    case Not(x) => if calcnot then !Evaluate(x, base, calcnot, chk) else true
    case Bin(j, l, r) =>
      if j.Conj? then Evaluate(l, base, calcnot, chk) && Evaluate(r, base + Size(l), calcnot, chk)
      else Evaluate(l, base, calcnot, chk) || Evaluate(r, base + Size(l), calcnot, chk)
    case Group(x) => Evaluate(x, base, calcnot, chk)
  }

  lemma {:induction false} HoldingNot(items: seq<Item>, base: nat, x: Expr)
    requires At(items, base, Linked(Not(x)))
    ensures At(items, base, Linked(x))
    ensures items[base + Size(x)] == Item(Operator(Bang), -1)
  {
    var last := [Item(Operator(Bang), -1)];
    AtParts(items, base, Linked(x), last);
    assert items[base + Size(x) + 0] == last[0];
  }

  lemma {:induction false} HoldingBin(items: seq<Item>, base: nat, e: Expr)
    requires e.Bin? && At(items, base, Linked(e))
    ensures At(items, base, Linked(e.l)) && At(items, base + Size(e.l), Linked(e.r))
    ensures items[base + Size(e) - 1] == Item(Operator(OperOf(e.j)), -1 - Size(e.r))
  {
    var last := [Item(Operator(OperOf(e.j)), -1 - Size(e.r))];
    AtParts(items, base, Linked(e.l) + Linked(e.r), last);
    AtParts(items, base, Linked(e.l), Linked(e.r));
    assert items[base + |Linked(e.l) + Linked(e.r)| + 0] == last[0];
  }

  lemma {:induction false} ExecuteBin(items: seq<Item>, base: nat, e: Expr, calcnot: bool, chk: (nat, int) -> bool)
    requires LinksInside(items) && e.Bin? && At(items, base, Linked(e))
    requires Execute(items, base + Size(e.l) - 1, calcnot, chk) == Evaluate(e.l, base, calcnot, chk)
    requires Execute(items, base + Size(e) - 2, calcnot, chk) == Evaluate(e.r, base + Size(e.l), calcnot, chk)
    ensures Execute(items, base + Size(e) - 1, calcnot, chk) == Evaluate(e, base, calcnot, chk)
  {
    HoldingBin(items, base, e);
    assert items[base + Size(e) - 1].node == Operator(OperOf(e.j));
  }

  /** Following the back links computes the meaning of the query. */
  lemma {:induction false} ExecuteEvaluates(items: seq<Item>, base: nat, e: Expr, calcnot: bool, chk: (nat, int) -> bool)
    requires LinksInside(items) && At(items, base, Linked(e))
    ensures Execute(items, base + Size(e) - 1, calcnot, chk) == Evaluate(e, base, calcnot, chk)
    decreases e
  {
    match e
    case Lit(v) =>
      assert items[base + 0] == Linked(e)[0];
    case Not(x) =>
      HoldingNot(items, base, x);
      ExecuteEvaluates(items, base, x, calcnot, chk);
    case Bin(_, l, r) =>
      HoldingBin(items, base, e);
      ExecuteEvaluates(items, base, l, calcnot, chk);
      ExecuteEvaluates(items, base + Size(l), r, calcnot, chk);
      ExecuteBin(items, base, e, calcnot, chk);
    case Group(x) =>
      ExecuteEvaluates(items, base, x, calcnot, chk);
  }

  lemma {:induction false} LinkedInside(e: Expr)
    ensures LinksInside(Linked(e))
  {
    match e
    case Lit(_) =>
    case Not(x) => LinkedInside(x);
    case Bin(_, l, r) => LinkedInside(l); LinkedInside(r);
    case Group(x) => LinkedInside(x);
  }

  /** The whole array. */
  lemma {:induction false} ExecuteWhole(e: Expr, calcnot: bool, chk: (nat, int) -> bool)
    ensures LinksInside(Linked(e))
    ensures Execute(Linked(e), |Linked(e)| - 1, calcnot, chk) == Evaluate(e, 0, calcnot, chk)
  {
    LinkedInside(e);
    AtWhole(Linked(e), Linked(e));
    ExecuteEvaluates(Linked(e), 0, e, calcnot, chk);
  }

  function InSet(s: set<int>): (nat, int) -> bool {
    (i, v) => v in s
  }

  lemma {:induction false} EvaluateIsHolds(e: Expr, base: nat, s: set<int>)
    ensures Evaluate(e, base, true, InSet(s)) == Holds(e, s)
    decreases e
  {
    match e
    case Lit(_) =>
    case Not(x) => EvaluateIsHolds(x, base, s);
    case Bin(_, l, r) => EvaluateIsHolds(l, base, s); EvaluateIsHolds(r, base + Size(l), s);
    case Group(x) => EvaluateIsHolds(x, base, s);
  }

  /** `execute` from the last item is the standard truth value. */
  lemma {:induction false} ExecuteIsHolds(e: Expr, s: set<int>)
    ensures LinksInside(Linked(e))
    ensures Execute(Linked(e), |Linked(e)| - 1, true, InSet(s)) == Holds(e, s)
  {
    ExecuteWhole(e, true, InSet(s));
    EvaluateIsHolds(e, 0, s);
  }

  // ----- pruning: calcnot == false over-approximates -----

  lemma {:induction false} EvaluateCovers(e: Expr, base: nat, s: set<int>, chk: (nat, int) -> bool)
    requires forall i: nat, v :: v in s ==> chk(i, v)
    ensures Holds(e, s) ==> Evaluate(e, base, false, chk)
    decreases e
  {
    match e
    case Lit(_) =>
    case Not(x) =>
    case Bin(_, l, r) => EvaluateCovers(l, base, s, chk); EvaluateCovers(r, base + Size(l), s, chk);
    case Group(x) => EvaluateCovers(x, base, s, chk);
  }

  /** A condition that accepts every element of `s` never lets the index test miss a query `s` satisfies. */
  lemma {:induction false} PruningIsSafe(e: Expr, s: set<int>, chk: (nat, int) -> bool)
    requires forall i: nat, v :: v in s ==> chk(i, v)
    requires Holds(e, s)
    ensures LinksInside(Linked(e)) && Execute(Linked(e), |Linked(e)| - 1, false, chk)
  {
    ExecuteWhole(e, false, chk);
    EvaluateCovers(e, 0, s, chk);
  }

  // ----- exactly what is evaluated without negation -----

  /** Every value that occurs in the query. */
  function Values(e: Expr): set<int> {
    match e
    case Lit(v) => {v}
    case Not(x) => Values(x)
    case Bin(_, l, r) => Values(l) + Values(r)
    case Group(x) => Values(x)
  }

  predicate NoNegation(e: Expr) {
    match e
    case Lit(_) => true
    case Not(_) => false
    case Bin(_, l, r) => NoNegation(l) && NoNegation(r)
    case Group(x) => NoNegation(x)
  }

  /** The query in which each outermost negation is replaced by the value `w`. */
  function Affirmed(e: Expr, w: int): (p: Expr)
    ensures NoNegation(p) && Values(p) <= Values(e) + {w}
    ensures NoNegation(e) ==> p == e
  {
    match e
    case Lit(_) => e
    case Not(_) => Lit(w)
    case Bin(j, l, r) => Bin(j, Affirmed(l, w), Affirmed(r, w))
    case Group(x) => Group(Affirmed(x, w))
  }

  /** The condition accepts exactly the elements of `s` among the values of the query. */
  ghost predicate Accepts(chk: (nat, int) -> bool, e: Expr, s: set<int>) {
    forall i: nat, v :: v in Values(e) ==> chk(i, v) == (v in s)
  }

  lemma {:induction false} EvaluateAffirmed(e: Expr, base: nat, s: set<int>, w: int, chk: (nat, int) -> bool)
    requires Accepts(chk, e, s) && w !in Values(e)
    ensures Evaluate(e, base, false, chk) == Holds(Affirmed(e, w), s + {w})
    decreases e
  {
    match e
    case Lit(v) => assert v in Values(e);
    case Not(_) =>
    case Bin(_, l, r) =>
      EvaluateAffirmed(l, base, s, w, chk);
      EvaluateAffirmed(r, base + Size(l), s, w, chk);
    case Group(x) => EvaluateAffirmed(x, base, s, w, chk);
  }

  lemma {:induction false} AffirmedPlain(e: Expr, s: set<int>, w: int)
    requires NoNegation(e) && w !in Values(e)
    ensures Holds(e, s + {w}) == Holds(e, s)
  {
    match e
    case Lit(_) =>
    case Bin(_, l, r) => AffirmedPlain(l, s, w); AffirmedPlain(r, s, w);
    case Group(x) => AffirmedPlain(x, s, w);
  }

  /** Without negation, `execute` gives the truth value of the query in which every outermost negated operand
      counts as true, and so of the query itself if there is none. */
  lemma {:induction false} TestExactly(e: Expr, s: set<int>, w: int, chk: (nat, int) -> bool)
    requires Accepts(chk, e, s) && w !in Values(e)
    ensures LinksInside(Linked(e))
    ensures Execute(Linked(e), |Linked(e)| - 1, false, chk) == Holds(Affirmed(e, w), s + {w})
    ensures NoNegation(e) ==> Execute(Linked(e), |Linked(e)| - 1, false, chk) == Holds(e, s)
  {
    ExecuteWhole(e, false, chk);
    EvaluateAffirmed(e, 0, s, w, chk);
    if NoNegation(e) {
      AffirmedPlain(e, s, w);
    }
  }
}
