/** Boolean queries through a GIN index: extraction of the values to look up, and the test on the
    array of look-up results. */
module IntGin {
  import opened BoolInput
  import opened BoolQuery

  datatype SearchMode = Default | All

  // ----- required values -----

  /** `contains_required_value`. */
  predicate ContainsRequired(items: seq<Item>, pos: nat)
    requires pos < |items| && LinksInside(items)
    decreases pos
  {
    var cur := items[pos];
    if cur.node.Value? then true
    else if cur.node.op == Bang then false
    else if cur.node.op == Amp then ContainsRequired(items, pos + cur.left) || ContainsRequired(items, pos - 1)
    else ContainsRequired(items, pos + cur.left) && ContainsRequired(items, pos - 1)
  }

  /** There are required values if and only if evaluation without negation fails on the empty set. */
  lemma {:induction false} RequiredExactly(items: seq<Item>, pos: nat)
    requires pos < |items| && LinksInside(items)
    ensures ContainsRequired(items, pos) <==> !Execute(items, pos, false, (i, v) => false)
    decreases pos
  {
    var cur := items[pos];
    if cur.node.Operator? && cur.node.op != Bang {
      RequiredExactly(items, pos + cur.left);
      RequiredExactly(items, pos - 1);
    }
  }

  /** So the default mode is chosen exactly if the query, with every outermost negated operand taken as true, does
      not hold on the empty set. */
  lemma {:induction false} RequiredMeans(e: Expr, w: int)
    requires NarrowRight(e) && w !in Values(e)
    ensures LinksInside(Stored(e)) && (ContainsRequired(Stored(e), |Stored(e)| - 1) <==> !Holds(Affirmed(e, w), {w}))
  {
    StoredTestExactly(e, {}, w, (i, v) => false);
    RequiredExactly(Stored(e), |Stored(e)| - 1);
    assert {} + {w} == {w};
  }

  /** Every value that `execute` accepts below `pos` is one of the array's. */
  lemma {:induction false} RequiredIsPresent(items: seq<Item>, pos: nat, s: set<int>)
    requires pos < |items| && LinksInside(items)
    requires ContainsRequired(items, pos) && Execute(items, pos, true, InSet(s))
    ensures exists i :: 0 <= i <= pos && items[i].node.Value? && items[i].node.v in s
    decreases pos
  {
    var cur := items[pos];
    if cur.node.Value? {
      assert items[pos].node.v in s;
    } else if cur.node.op == Amp {
      if ContainsRequired(items, pos + cur.left) {
        RequiredIsPresent(items, pos + cur.left, s);
      } else {
        RequiredIsPresent(items, pos - 1, s);
      }
    } else {
      if Execute(items, pos + cur.left, true, InSet(s)) {
        RequiredIsPresent(items, pos + cur.left, s);
      } else {
        RequiredIsPresent(items, pos - 1, s);
      }
    }
  }

  // ----- extraction -----

  function Extracted(items: seq<Item>): seq<int> {
    if items == [] then []
    else
      var last := items[|items| - 1].node;
      Extracted(items[..|items| - 1]) + if last.Value? then [last.v] else []
  }

  /** The Boolean branch of `ginint4_queryextract`. */
  method QueryExtract(items: seq<Item>) returns (entries: seq<int>, mode: SearchMode)
    requires LinksInside(items)
    ensures entries == Extracted(items)
    ensures items != [] ==> (mode == Default <==> ContainsRequired(items, |items| - 1))
  {
    entries, mode := [], Default;
    if |items| == 0 { return; }
    mode := if ContainsRequired(items, |items| - 1) then Default else All;
    for i := 0 to |items|
      invariant entries == Extracted(items[..i])
    {
      assert items[..i + 1][..i] == items[..i];
      if items[i].node.Value? {
        entries := entries + [items[i].node.v];
      }
    }
    assert items[..|items|] == items;
  }

  lemma {:induction false} ExtractedHas(items: seq<Item>, i: nat)
    requires i < |items| && items[i].node.Value?
    ensures items[i].node.v in Extracted(items)
  {
    if i < |items| - 1 {
      ExtractedHas(items[..|items| - 1], i);
    }
  }

  /** The values keep the order they have in the array. */
  lemma {:induction false} ExtractedConcat(a: seq<Item>, b: seq<Item>)
    ensures Extracted(a + b) == Extracted(a) + Extracted(b)
  {
    if b == [] {
      assert a + b == a;
    } else {
      ExtractedConcat(a, b[..|b| - 1]);
      assert (a + b)[..|a + b| - 1] == a + b[..|b| - 1];
    }
  }

  /** With the default search mode, every set that satisfies the query holds a looked-up value. */
  lemma {:induction false} DefaultSearchLosesNothing(e: Expr, s: set<int>)
    requires NarrowRight(e) && LinksInside(Stored(e)) && ContainsRequired(Stored(e), |Stored(e)| - 1)
    requires Holds(e, s)
    ensures exists v :: v in Extracted(Stored(e)) && v in s
  {
    var items := Stored(e);
    StoredQueryMeans(e, s);
    RequiredIsPresent(items, |items| - 1, s);
    var i :| 0 <= i <= |items| - 1 && items[i].node.Value? && items[i].node.v in s;
    ExtractedHas(items, i);
  }

  // ----- the test on looked-up results -----

  /** Look-up results for a set: one per extracted value, in order. */
  ghost predicate LooksUp(items: seq<Item>, check: seq<bool>, s: set<int>) {
    |check| == |Extracted(items)| && forall j :: 0 <= j < |check| ==> check[j] == (Extracted(items)[j] in s)
  }

  lemma {:induction false} ExecuteAgree(items: seq<Item>, pos: nat, calcnot: bool,
                                        c: (nat, int) -> bool, d: (nat, int) -> bool)
    requires pos < |items| && LinksInside(items)
    requires forall i :: 0 <= i <= pos && items[i].node.Value? ==> c(i, items[i].node.v) == d(i, items[i].node.v)
    ensures Execute(items, pos, calcnot, c) == Execute(items, pos, calcnot, d)
    decreases pos
  {
    var cur := items[pos];
    if cur.node.Operator? {
      ExecuteAgree(items, pos - 1, calcnot, c, d);
      if cur.node.op != Bang {
        ExecuteAgree(items, pos + cur.left, calcnot, c, d);
      }
    }
  }

  /** `gin_bool_consistent` on the results for any set is `execute` on that set. */
  method GinBoolConsistent(items: seq<Item>, check: seq<bool>) returns (r: bool)
    requires LinksInside(items) && |check| == |Extracted(items)|
    ensures items == [] ==> !r
    ensures items != [] ==> forall s :: LooksUp(items, check, s) ==> r == Execute(items, |items| - 1, true, InSet(s))
  {
    if |items| == 0 { return false; }
    var mapped: seq<bool> := [];
    var j := 0;
    assert items[..|items|] == items;
    for i := 0 to |items|
      invariant |mapped| == i && 0 <= j == |Extracted(items[..i])| <= |check|
      invariant Extracted(items[..i]) <= Extracted(items)
      invariant forall s {:trigger LooksUp(items, check, s)} :: LooksUp(items, check, s) ==> Mapped(items, mapped, s)
    {
      assert items[..i + 1][..i] == items[..i];
      ExtractedPrefix(items, i + 1);
      if items[i].node.Value? {
        assert Extracted(items)[j] == Extracted(items[..i + 1])[j] == items[i].node.v;
        mapped := mapped + [check[j]];
        j := j + 1;
      } else {
        mapped := mapped + [false];
      }
    }
    var chk := (i: nat, v: int) => i < |mapped| && mapped[i];
    r := Execute(items, |items| - 1, true, chk);
    forall s | LooksUp(items, check, s) ensures r == Execute(items, |items| - 1, true, InSet(s)) {
      assert Mapped(items, mapped, s);
      ExecuteAgree(items, |items| - 1, true, chk, InSet(s));
    }
  }

  ghost predicate Mapped(items: seq<Item>, mapped: seq<bool>, s: set<int>) {
    |mapped| <= |items| &&
    forall i :: 0 <= i < |mapped| && items[i].node.Value? ==> mapped[i] == (items[i].node.v in s)
  }

  lemma {:induction false} ExtractedPrefix(items: seq<Item>, n: nat)
    requires n <= |items|
    ensures Extracted(items[..n]) <= Extracted(items)
  {
    if n == |items| {
      assert items[..n] == items;
    } else {
      ExtractedPrefix(items[..|items| - 1], n);
      assert items[..|items| - 1][..n] == items[..n];
    }
  }
}
