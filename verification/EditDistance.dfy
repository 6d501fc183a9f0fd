/** Weighted edit distance between two strings: its recurrence, and the proof that the recurrence
    is the least total charge of any sequence of single-character edits. */
module EditDistance {

  datatype Costs = Costs(ins: int, del: int, sub: int)

  predicate NonNegative(c: Costs) {
    0 <= c.ins && 0 <= c.del && 0 <= c.sub
  }

  function Min(a: int, b: int): int {
    if a <= b then a else b
  }

  function Front<T>(s: seq<T>): seq<T>
    requires s != []
  {
    s[..|s| - 1]
  }

  function Last<T>(s: seq<T>): T
    requires s != []
  {
    s[|s| - 1]
  }

  /** Charge for turning character `x` into character `y`. */
  function Change(c: Costs, x: char, y: char): int {
    if x == y then 0 else c.sub
  }

  /** The recurrence that each cell of the notional matrix obeys. */
  function Dist(c: Costs, s: string, t: string): int
    decreases |s| + |t|
  {
    if s == [] then |t| * c.ins
    else if t == [] then |s| * c.del
    else
      Min(Min(Dist(c, s, Front(t)) + c.ins, Dist(c, Front(s), t) + c.del),
          Dist(c, Front(s), Front(t)) + Change(c, Last(s), Last(t)))
  }

  // ----- one character more or less on either side -----

  lemma {:induction false} DropSource(c: Costs, s: string, t: string)
    requires s != []
    ensures Dist(c, s, t) <= Dist(c, Front(s), t) + c.del
  {
    assert (|s| - 1) * c.del + c.del == |s| * c.del;
    if t != [] && |s| == 1 {
      assert Front(s) == [];
    }
  }

  lemma {:induction false} DropTarget(c: Costs, s: string, t: string)
    requires t != []
    ensures Dist(c, s, t) <= Dist(c, s, Front(t)) + c.ins
  {
    assert (|t| - 1) * c.ins + c.ins == |t| * c.ins;
    if s != [] && |t| == 1 {
      assert Front(t) == [];
    }
  }

  // ----- edits at any position, in any order -----

  datatype Edit = InsertAt(pos: nat, ch: char) | DeleteAt(pos: nat) | SubstituteAt(pos: nat, ch: char)

  predicate Applies(e: Edit, s: string) {
    if e.InsertAt? then e.pos <= |s| else e.pos < |s|
  }

  function Apply(e: Edit, s: string): string
    requires Applies(e, s)
  {
    match e
    case InsertAt(p, ch) => s[..p] + [ch] + s[p..]
    case DeleteAt(p) => s[..p] + s[p + 1..]
    case SubstituteAt(p, ch) => s[p := ch]
  }

  function Charge(c: Costs, e: Edit): int {
    match e
    case InsertAt(_, _) => c.ins
    case DeleteAt(_) => c.del
    case SubstituteAt(_, _) => c.sub
  }

  predicate Leads(es: seq<Edit>, s: string, t: string) {
    if es == [] then s == t
    else Applies(es[0], s) && Leads(es[1..], Apply(es[0], s), t)
  }

  function TotalCharge(c: Costs, es: seq<Edit>): int {
    if es == [] then 0 else Charge(c, es[0]) + TotalCharge(c, es[1..])
  }

  // ----- no sequence of edits is cheaper than Dist -----

  lemma {:induction false} DeleteBound(c: Costs, s: string, p: nat, t: string)
    requires NonNegative(c) && p < |s|
    ensures Dist(c, s, t) <= c.del + Dist(c, s[..p] + s[p + 1..], t)
    decreases |s| + |t|
  {
    var u := s[..p] + s[p + 1..];
    if p == |s| - 1 {
      assert u == Front(s);
      DropSource(c, s, t);
    } else if t == [] {
      assert |s| * c.del == (|s| - 1) * c.del + c.del;
    } else {
      assert Last(u) == Last(s) && Front(u) == Front(s)[..p] + Front(s)[p + 1..];
      DeleteBound(c, s, p, Front(t));
      DeleteBound(c, Front(s), p, t);
      DeleteBound(c, Front(s), p, Front(t));
    }
  }

  lemma {:induction false} InsertBound(c: Costs, s: string, p: nat, ch: char, t: string)
    requires NonNegative(c) && p <= |s|
    ensures Dist(c, s, t) <= c.ins + Dist(c, s[..p] + [ch] + s[p..], t)
    decreases |s| + |t|
  {
    var u := s[..p] + [ch] + s[p..];
    if t == [] {
      assert |u| * c.del == |s| * c.del + c.del;
    } else {
      InsertBound(c, s, p, ch, Front(t));
      DropTarget(c, s, t);
      if p == |s| {
        assert Front(u) == s;
      } else {
        assert Last(u) == Last(s) && Front(u) == Front(s)[..p] + [ch] + Front(s)[p..];
        InsertBound(c, Front(s), p, ch, t);
        InsertBound(c, Front(s), p, ch, Front(t));
      }
    }
  }

  lemma {:induction false} SubstituteBound(c: Costs, s: string, p: nat, ch: char, t: string)
    requires NonNegative(c) && p < |s|
    ensures Dist(c, s, t) <= c.sub + Dist(c, s[p := ch], t)
    decreases |s| + |t|
  {
    var u := s[p := ch];
    if t != [] {
      SubstituteBound(c, s, p, ch, Front(t));
      if p == |s| - 1 {
        assert Front(u) == Front(s);
      } else {
        assert Last(u) == Last(s) && Front(u) == Front(s)[p := ch];
        SubstituteBound(c, Front(s), p, ch, t);
        SubstituteBound(c, Front(s), p, ch, Front(t));
      }
    }
  }

  lemma {:induction false} DistSelf(c: Costs, s: string)
    requires NonNegative(c)
    ensures Dist(c, s, s) == 0
  {
    if s != [] {
      DistSelf(c, Front(s));
      DistNonNegative(c, s, Front(s));
      DistNonNegative(c, Front(s), s);
    }
  }

  lemma {:induction false} DistNonNegative(c: Costs, s: string, t: string)
    requires NonNegative(c)
    ensures 0 <= Dist(c, s, t)
    decreases |s| + |t|
  {
    if s != [] && t != [] {
      DistNonNegative(c, s, Front(t));
      DistNonNegative(c, Front(s), t);
      DistNonNegative(c, Front(s), Front(t));
    }
  }

  lemma {:induction false} EditsCostAtLeastDist(c: Costs, es: seq<Edit>, s: string, t: string)
    requires NonNegative(c) && Leads(es, s, t)
    ensures Dist(c, s, t) <= TotalCharge(c, es)
  {
    if es == [] {
      DistSelf(c, s);
    } else {
      EditsCostAtLeastDist(c, es[1..], Apply(es[0], s), t);
      match es[0]
      case InsertAt(p, ch) => InsertBound(c, s, p, ch, t);
      case DeleteAt(p) => DeleteBound(c, s, p, t);
      case SubstituteAt(p, ch) => SubstituteBound(c, s, p, ch, t);
    }
  }

  // ----- and some sequence of edits costs exactly Dist -----

  lemma {:induction false} ApplyWithSuffix(e: Edit, s: string, z: string)
    requires Applies(e, s)
    ensures Applies(e, s + z) && Apply(e, s + z) == Apply(e, s) + z
  {
    var p := e.pos;
    assert (s + z)[..p] == s[..p];
    match e
    case InsertAt(_, ch) => assert (s + z)[p..] == s[p..] + z;
    case DeleteAt(_) => assert (s + z)[p + 1..] == s[p + 1..] + z;
    case SubstituteAt(_, ch) =>
  }

  /** Edits on a prefix leave what follows alone. */
  lemma {:induction false} LeadsWithSuffix(es: seq<Edit>, s: string, t: string, z: string)
    requires Leads(es, s, t)
    ensures Leads(es, s + z, t + z)
  {
    if es != [] {
      ApplyWithSuffix(es[0], s, z);
      LeadsWithSuffix(es[1..], Apply(es[0], s), t, z);
    }
  }

  lemma {:induction false} LeadsThen(c: Costs, es: seq<Edit>, e: Edit, s: string, t: string)
    requires Leads(es, s, t) && Applies(e, t)
    ensures Leads(es + [e], s, Apply(e, t))
    ensures TotalCharge(c, es + [e]) == TotalCharge(c, es) + Charge(c, e)
  {
    if es == [] {
      assert [e][1..] == [];
      assert es + [e] == [e];
    } else {
      assert (es + [e])[1..] == es[1..] + [e];
      LeadsThen(c, es[1..], e, Apply(es[0], s), t);
    }
  }

  lemma {:induction false} OptimalEdits(c: Costs, s: string, t: string) returns (es: seq<Edit>)
    ensures Leads(es, s, t) && TotalCharge(c, es) == Dist(c, s, t)
    decreases |s| + |t|, 1
  {
    if s == [] && t == [] {
      es := [];
    } else if t != [] && (s == [] || Dist(c, s, t) == Dist(c, s, Front(t)) + c.ins) {
      assert s == [] ==> |t| * c.ins == (|t| - 1) * c.ins + c.ins;
      es := OptimalByInsert(c, s, t);
    } else if t == [] || Dist(c, s, t) == Dist(c, Front(s), t) + c.del {
      EmptyTarget(c, s);
      es := OptimalByDelete(c, s, t);
    } else {
      es := OptimalByChange(c, s, t);
    }
  }

  lemma {:induction false} EmptyTarget(c: Costs, s: string)
    requires s != []
    ensures Dist(c, s, []) == Dist(c, Front(s), []) + c.del
  {
    assert |s| * c.del == (|s| - 1) * c.del + c.del;
  }

  lemma {:induction false} OptimalByInsert(c: Costs, s: string, t: string) returns (es: seq<Edit>)
    requires t != []
    ensures Leads(es, s, t) && TotalCharge(c, es) == Dist(c, s, Front(t)) + c.ins
    decreases |s| + |t|, 0
  {
    var pre := OptimalEdits(c, s, Front(t));
    es := ThenInsert(c, pre, s, Front(t), Last(t));
    assert Front(t) + [Last(t)] == t;
  }

  lemma {:induction false} ThenInsert(c: Costs, pre: seq<Edit>, s: string, t: string, x: char) returns (es: seq<Edit>)
    requires Leads(pre, s, t)
    ensures Leads(es, s, t + [x]) && TotalCharge(c, es) == TotalCharge(c, pre) + c.ins
  {
    var e := InsertAt(|t|, x);
    assert Apply(e, t) == t + [x];
    LeadsThen(c, pre, e, s, t);
    es := pre + [e];
  }

  /** Edits on a prefix, then one edit that also sees the next character. */
  lemma {:induction false} LeadsPast(c: Costs, es: seq<Edit>, e: Edit, s: string, t: string, x: char)
    requires Leads(es, s, t) && Applies(e, t + [x])
    ensures Leads(es + [e], s + [x], Apply(e, t + [x]))
    ensures TotalCharge(c, es + [e]) == TotalCharge(c, es) + Charge(c, e)
  {
    LeadsWithSuffix(es, s, t, [x]);
    LeadsThen(c, es, e, s + [x], t + [x]);
  }

  lemma {:induction false} OptimalByDelete(c: Costs, s: string, t: string) returns (es: seq<Edit>)
    requires s != []
    ensures Leads(es, s, t) && TotalCharge(c, es) == Dist(c, Front(s), t) + c.del
    decreases |s| + |t|, 0
  {
    var pre := OptimalEdits(c, Front(s), t);
    es := ThenDelete(c, pre, Front(s), t, Last(s));
    assert Front(s) + [Last(s)] == s;
  }

  /** Edits on all but the last character, then its deletion. */
  lemma {:induction false} ThenDelete(c: Costs, pre: seq<Edit>, s: string, t: string, x: char) returns (es: seq<Edit>)
    requires Leads(pre, s, t)
    ensures Leads(es, s + [x], t) && TotalCharge(c, es) == TotalCharge(c, pre) + c.del
  {
    var e := DeleteAt(|t|);
    LeadsPast(c, pre, e, s, t, x);
    assert Apply(e, t + [x]) == t;
    es := pre + [e];
  }

  lemma {:induction false} OptimalByChange(c: Costs, s: string, t: string) returns (es: seq<Edit>)
    requires s != [] && t != []
    ensures Leads(es, s, t)
    ensures TotalCharge(c, es) == Dist(c, Front(s), Front(t)) + Change(c, Last(s), Last(t))
    decreases |s| + |t|, 0
  {
    es := OptimalEdits(c, Front(s), Front(t));
    assert Front(s) + [Last(s)] == s;
    if Last(s) == Last(t) {
      assert Front(t) + [Last(s)] == t;
      LeadsWithSuffix(es, Front(s), Front(t), [Last(s)]);
    } else {
      var e := SubstituteAt(|t| - 1, Last(t));
      LeadsPast(c, es, e, Front(s), Front(t), Last(s));
      assert Apply(e, Front(t) + [Last(s)]) == t;
      es := es + [e];
    }
  }

  /** `Dist` is the least total charge over every sequence of edits that leads from `s` to `t`. */
  lemma {:induction false} DistIsMinimum(c: Costs, s: string, t: string)
    requires NonNegative(c)
    ensures exists es :: Leads(es, s, t) && TotalCharge(c, es) == Dist(c, s, t)
    ensures forall es :: Leads(es, s, t) ==> Dist(c, s, t) <= TotalCharge(c, es)
  {
    var best := OptimalEdits(c, s, t);
    forall es | Leads(es, s, t)
      ensures Dist(c, s, t) <= TotalCharge(c, es)
    {
      EditsCostAtLeastDist(c, es, s, t);
    }
  }

  // ----- facts the pruned programme leans on -----

  /** A target one character shorter is at most one deletion further away. */
  lemma {:induction false} ShorterTarget(c: Costs, s: string, t: string)
    requires NonNegative(c) && t != []
    ensures Dist(c, s, Front(t)) <= Dist(c, s, t) + c.del
    decreases |s| + |t|
  {
    if s == [] {
      assert |t| * c.ins == (|t| - 1) * c.ins + c.ins;
    } else {
      DropSource(c, s, Front(t));
      ShorterTarget(c, Front(s), t);
    }
  }

  /** A source one character shorter is at most one insertion further away. */
  lemma {:induction false} ShorterSource(c: Costs, s: string, t: string)
    requires NonNegative(c) && s != []
    ensures Dist(c, Front(s), t) <= Dist(c, s, t) + c.ins
  {
    var f := Front(s);
    assert f[..|f|] + [Last(s)] + f[|f|..] == s;
    InsertBound(c, f, |f|, Last(s), t);
  }

  /** The distance never decreases along a diagonal of the matrix. */
  lemma {:induction false} DiagonalMonotone(c: Costs, s: string, t: string)
    requires NonNegative(c) && s != [] && t != []
    ensures Dist(c, Front(s), Front(t)) <= Dist(c, s, t)
  {
    ShorterTarget(c, Front(s), t);
    ShorterSource(c, s, Front(t));
  }

  /** Substituting is never worth more than deleting and inserting. */
  lemma {:induction false} CapSubstitution(c: Costs, s: string, t: string)
    requires c.ins + c.del < c.sub
    ensures Dist(c.(sub := c.ins + c.del), s, t) == Dist(c, s, t)
    decreases |s| + |t|
  {
    if s != [] && t != [] {
      var k := c.(sub := c.ins + c.del);
      CapSubstitution(c, s, Front(t));
      CapSubstitution(c, Front(s), t);
      CapSubstitution(c, Front(s), Front(t));
      DropSource(c, s, Front(t));
      DropSource(k, s, Front(t));
    }
  }

  /** Least charge for making a remainder of `a` source and `b` target characters equally long. */
  function Residual(c: Costs, a: int, b: int): int {
    if b > a then (b - a) * c.ins else (a - b) * c.del
  }

  lemma {:induction false} OneMore(n: int, x: int)
    ensures (n + 1) * x == n * x + x
    ensures 0 <= n && 0 <= x ==> 0 <= n * x
  {
  }

  lemma {:induction false} ResidualSteps(c: Costs, a: int, b: int)
    requires NonNegative(c)
    ensures 0 <= Residual(c, a, b)
    ensures Residual(c, a, b + 1) <= c.ins + Residual(c, a, b)
    ensures Residual(c, a + 1, b) <= c.del + Residual(c, a, b)
    ensures Residual(c, a + 1, b + 1) == Residual(c, a, b)
  {
    if b > a {
      OneMore(b - a, c.ins);
      OneMore(b - a - 1, c.ins);
    } else {
      OneMore(a - b, c.del);
      OneMore(a - b - 1, c.del);
      OneMore(b - a, c.ins);
    }
  }

  /** Making the lengths equal is the least that any edits cost, unless a round trip or a substitution pays. */
  lemma {:induction false} DistLowerBound(c: Costs, s: string, t: string)
    requires 0 <= c.ins + c.del && 0 <= c.sub
    ensures Residual(c, |s|, |t|) <= Dist(c, s, t)
    decreases |s| + |t|
  {
    if s != [] && t != [] {
      DistLowerBound(c, s, Front(t));
      DistLowerBound(c, Front(s), t);
      DistLowerBound(c, Front(s), Front(t));
      ResidualGrows(c, |s|, |t|);
    }
  }

  lemma {:induction false} ResidualGrows(c: Costs, a: int, b: int)
    requires 0 <= c.ins + c.del
    ensures Residual(c, a, b) <= Residual(c, a, b - 1) + c.ins
    ensures Residual(c, a, b) <= Residual(c, a - 1, b) + c.del
    ensures Residual(c, a, b) == Residual(c, a - 1, b - 1)
  {
    if b > a {
      OneMore(b - a - 1, c.ins);
      OneMore(b - a, c.ins);
    } else {
      OneMore(a - b, c.del);
      OneMore(a - b - 1, c.del);
    }
  }

  /** The distance is at most the length difference plus one substitution per shared position. */
  lemma {:induction false} DistUpperBound(c: Costs, s: string, t: string)
    requires 0 <= c.sub
    ensures Dist(c, s, t) <= Residual(c, |s|, |t|) + Min(|s|, |t|) * c.sub
    decreases |s| + |t|
  {
    if s != [] && t != [] {
      DistUpperBound(c, Front(s), Front(t));
      OneMore(Min(|s|, |t|) - 1, c.sub);
    } else {
      assert Min(|s|, |t|) * c.sub == 0;
    }
  }

  /** Deleting everything and inserting everything is always possible. */
  lemma {:induction false} RewriteBound(c: Costs, s: string, t: string)
    ensures Dist(c, s, t) <= |s| * c.del + |t| * c.ins
    decreases |s| + |t|
  {
    if s != [] && t != [] {
      DropSource(c, s, t);
      RewriteBound(c, Front(s), t);
      OneMore(|s| - 1, c.del);
    } else {
      assert 0 * c.del == 0 && 0 * c.ins == 0;
    }
  }
}
