/** What the printed text of a Boolean query looks like: its operators, parentheses and blanks. */
module BoolMarks {
  import opened NumberText
  import opened BoolQuery
  import opened BoolOutput

  ghost function One(b: bool): nat {
    if b then 1 else 0
  }

  /** How often each operator occurs. */
  ghost function Conjunctions(e: Expr): nat {
    match e
    case Lit(_) => 0
    case Not(x) => Conjunctions(x)
    case Bin(j, l, r) => Conjunctions(l) + Conjunctions(r) + One(j.Conj?)
    case Group(x) => Conjunctions(x)
  }

  ghost function Disjunctions(e: Expr): nat {
    match e
    case Lit(_) => 0
    case Not(x) => Disjunctions(x)
    case Bin(j, l, r) => Disjunctions(l) + Disjunctions(r) + One(j.Disj?)
    case Group(x) => Disjunctions(x)
  }

  ghost function Negations(e: Expr): nat {
    match e
    case Lit(_) => 0
    case Not(x) => Negations(x) + 1
    case Bin(_, l, r) => Negations(l) + Negations(r)
    case Group(x) => Negations(x)
  }

  predicate IsDisjunction(e: Expr) {
    e.Bin? && e.j.Disj?
  }

  /** The disjunctions that are operands of `&` or `|`. */
  ghost function OperandDisjunctions(e: Expr): nat {
    match e
    case Lit(_) => 0
    case Not(x) => OperandDisjunctions(x)
    case Bin(_, l, r) =>
      One(IsDisjunction(l)) + One(IsDisjunction(r)) + OperandDisjunctions(l) + OperandDisjunctions(r)
    case Group(x) => OperandDisjunctions(x)
  }

  /** The negations of anything but a value. */
  ghost function NegatedOperators(e: Expr): nat {
    match e
    case Lit(_) => 0
    case Not(x) => One(!x.Lit?) + NegatedOperators(x)
    case Bin(_, l, r) => NegatedOperators(l) + NegatedOperators(r)
    case Group(x) => NegatedOperators(x)
  }

  /** A text of digits and a sign. */
  ghost predicate Numeric(t: string) {
    forall i :: 0 <= i < |t| ==> IsDigit(t[i]) || t[i] == '-'
  }

  lemma {:induction false} IntTextNumeric(v: int)
    ensures Numeric(IntText(v)) && IntText(v) != ""
  {
  }

  lemma {:induction false} NumericMarks(t: string, c: char)
    requires Numeric(t) && !IsDigit(c) && c != '-'
    ensures multiset(t)[c] == 0
  {
    assert c !in t;
  }

  // ----- how many marks there are -----

  datatype Tally = Tally(amps: nat, bars: nat, bangs: nat, parens: nat)

  /** The text has these marks, and two blanks for each `&`, each `|` and each pair of parentheses. */
  ghost predicate HasMarks(t: string, m: Tally) {
    var marks := multiset(t);
    && marks['&'] == m.amps && marks['|'] == m.bars && marks['!'] == m.bangs
    && marks['('] == m.parens && marks[')'] == m.parens
    && marks[' '] == 2 * m.amps + 2 * m.bars + 2 * m.parens
  }

  ghost function Joined(m: Tally, n: Tally, j: Junction): Tally {
    Tally(m.amps + n.amps + One(j.Conj?), m.bars + n.bars + One(j.Disj?), m.bangs + n.bangs, m.parens + n.parens)
  }

  /** What the query calls for. */
  ghost function MarksOf(e: Expr, first: bool): Tally
    decreases e, !first
  {
    if !first then
      var m := MarksOf(e, true);
      m.(parens := m.parens + One(IsDisjunction(e)))
    else
      match e
      case Lit(_) => Tally(0, 0, 0, 0)
      case Not(x) =>
        var m := MarksOf(x, true);
        Tally(m.amps, m.bars, m.bangs + 1, m.parens + One(!x.Lit?))
      case Bin(j, l, r) => Joined(MarksOf(l, false), MarksOf(r, false), j)
      case Group(x) => MarksOf(x, true)
  }

  lemma {:induction false} CountConjunctions(e: Expr)
    ensures MarksOf(e, true).amps == MarksOf(e, false).amps == Conjunctions(e)
  {
    match e
    case Lit(_) =>
    case Not(x) => CountConjunctions(x);
    case Bin(_, l, r) => CountConjunctions(l); CountConjunctions(r);
    case Group(x) => CountConjunctions(x);
  }

  lemma {:induction false} CountDisjunctions(e: Expr)
    ensures MarksOf(e, true).bars == MarksOf(e, false).bars == Disjunctions(e)
  {
    match e
    case Lit(_) =>
    case Not(x) => CountDisjunctions(x);
    case Bin(_, l, r) => CountDisjunctions(l); CountDisjunctions(r);
    case Group(x) => CountDisjunctions(x);
  }

  lemma {:induction false} CountNegations(e: Expr)
    ensures MarksOf(e, true).bangs == MarksOf(e, false).bangs == Negations(e)
  {
    match e
    case Lit(_) =>
    case Not(x) => CountNegations(x);
    case Bin(_, l, r) => CountNegations(l); CountNegations(r);
    case Group(x) => CountNegations(x);
  }

  /** A pair of parentheses for each disjunction that is an operand of `&` or `|`, and for each negated operator. */
  lemma {:induction false} CountParentheses(e: Expr)
    ensures MarksOf(e, true).parens == OperandDisjunctions(e) + NegatedOperators(e)
    ensures MarksOf(e, false).parens == OperandDisjunctions(e) + NegatedOperators(e) + One(IsDisjunction(e))
  {
    match e
    case Lit(_) =>
    case Not(x) => CountParentheses(x);
    case Bin(_, l, r) => CountParentheses(l); CountParentheses(r);
    case Group(x) => CountParentheses(x);
  }

  lemma {:induction false} NumericHasNone(t: string)
    requires Numeric(t)
    ensures HasMarks(t, Tally(0, 0, 0, 0))
  {
    NumericMarks(t, '&');
    NumericMarks(t, '|');
    NumericMarks(t, '!');
    NumericMarks(t, '(');
    NumericMarks(t, ')');
    NumericMarks(t, ' ');
  }

  lemma {:induction false} BangMarks(t: string, m: Tally)
    requires HasMarks(t, m)
    ensures HasMarks("!" + t, m.(bangs := m.bangs + 1))
  {
  }

  lemma {:induction false} ParenthesesMarks(t: string, m: Tally)
    requires HasMarks(t, m)
    ensures HasMarks("( " + (t + " )"), m.(parens := m.parens + 1))
  {
    assert multiset("( " + (t + " )")) == multiset("( ") + multiset(t) + multiset(" )");
  }

  lemma {:induction false} SignMarks(t: string, u: string, m: Tally, n: Tally, j: Junction)
    requires HasMarks(t, m) && HasMarks(u, n)
    ensures HasMarks(t + (Sign(j) + u), Joined(m, n, j))
  {
    SignAlone(j);
    SumMarks(Sign(j), u, if j.Conj? then Tally(1, 0, 0, 0) else Tally(0, 1, 0, 0), n);
    SumMarks(t, Sign(j) + u, m, Tally(n.amps + One(j.Conj?), n.bars + One(j.Disj?), n.bangs, n.parens));
  }

  lemma {:induction false} SignAlone(j: Junction)
    ensures HasMarks(Sign(j), if j.Conj? then Tally(1, 0, 0, 0) else Tally(0, 1, 0, 0))
  {
  }

  lemma {:induction false} SumMarks(t: string, u: string, m: Tally, n: Tally)
    requires HasMarks(t, m) && HasMarks(u, n)
    ensures HasMarks(t + u, Tally(m.amps + n.amps, m.bars + n.bars, m.bangs + n.bangs, m.parens + n.parens))
  {
    assert multiset(t + u) == multiset(t) + multiset(u);
  }

  lemma {:induction false} RenderMarks(e: Expr, first: bool)
    requires Bare(e)
    ensures HasMarks(Render(e, first), MarksOf(e, first))
  {
    match e
    case Lit(v) =>
      IntTextNumeric(v);
      NumericHasNone(IntText(v));
    case Not(x) =>
      RenderMarks(x, !x.Lit?);
      NotMarks(x, first);
    case Bin(j, l, r) =>
      RenderMarks(l, false);
      RenderMarks(r, false);
      BothMarks(e, first);
  }

  lemma {:induction false} NotMarks(x: Expr, first: bool)
    requires Bare(x) && HasMarks(Render(x, !x.Lit?), MarksOf(x, !x.Lit?))
    ensures HasMarks(Render(Not(x), first), MarksOf(Not(x), first))
  {
    var t, m := Render(x, !x.Lit?), MarksOf(x, !x.Lit?);
    var inner := "( " + (t + " )");
    ParenthesesMarks(t, m);
    var n := m.(parens := m.parens + 1);
    if x.Lit? {
      BangMarks(t, m);
      assert MarksOf(Not(x), first) == m.(bangs := m.bangs + 1);
    } else {
      BangMarks(inner, n);
      assert MarksOf(Not(x), first) == n.(bangs := n.bangs + 1);
    }
  }

  lemma {:induction false} BothMarks(e: Expr, first: bool)
    requires e.Bin? && Bare(e)
    requires HasMarks(Render(e.l, false), MarksOf(e.l, false)) && HasMarks(Render(e.r, false), MarksOf(e.r, false))
    ensures HasMarks(Render(e, first), MarksOf(e, first))
  {
    var t, u := Render(e.l, false), Render(e.r, false);
    var both, m := t + (Sign(e.j) + u), MarksOf(e, true);
    SignMarks(t, u, MarksOf(e.l, false), MarksOf(e.r, false), e.j);
    RenderedBoth(e, first);
    if e.j.Disj? && !first {
      ParenthesesMarks(both, m);
      assert MarksOf(e, first) == m.(parens := m.parens + 1);
    } else {
      assert MarksOf(e, first) == m;
    }
  }

  lemma {:induction false} RenderedBoth(e: Expr, first: bool)
    requires e.Bin? && Bare(e)
    ensures var both := Render(e.l, false) + (Sign(e.j) + Render(e.r, false));
      Render(e, first) == if e.j.Disj? && !first then "( " + (both + " )") else both
  {
  }

  // ----- where the blanks stand -----

  /** Blanks stand on either side of `&` and `|` and inside parentheses, and none behind `!`. */
  ghost predicate Spaced(t: string) {
    forall i :: 0 <= i < |t| ==> SpacedAt(t, i)
  }

  ghost predicate SpacedAt(t: string, i: nat)
    requires i < |t|
  {
    && (t[i] == '&' || t[i] == '|' ==> 0 < i < |t| - 1 && t[i - 1] == ' ' && t[i + 1] == ' ')
    && (t[i] == '(' ==> i < |t| - 1 && t[i + 1] == ' ')
    && (t[i] == ')' ==> 0 < i && t[i - 1] == ' ')
    && (t[i] == '!' ==> i < |t| - 1 && t[i + 1] != ' ')
  }

  lemma {:induction false} SpacedJoin(a: string, b: string)
    requires Spaced(a) && Spaced(b)
    ensures Spaced(a + b)
  {
    forall i | 0 <= i < |a + b| ensures SpacedAt(a + b, i) {
      if i < |a| {
        assert SpacedAt(a, i);
      } else {
        assert SpacedAt(b, i - |a|);
      }
    }
  }

  lemma {:induction false} SpacedBang(t: string)
    requires Spaced(t) && t != "" && t[0] != ' '
    ensures Spaced("!" + t)
  {
    forall i | 0 <= i < |"!" + t| ensures SpacedAt("!" + t, i) {
      if i > 0 {
        assert SpacedAt(t, i - 1);
      }
    }
  }

  lemma {:induction false} NumericSpaced(t: string)
    requires Numeric(t)
    ensures Spaced(t)
  {
    forall i | 0 <= i < |t| ensures SpacedAt(t, i) {
      assert IsDigit(t[i]) || t[i] == '-';
    }
  }

  lemma {:induction false} RenderSpaced(e: Expr, first: bool)
    requires Bare(e)
    ensures Spaced(Render(e, first)) && Render(e, first) != "" && Render(e, first)[0] != ' '
  {
    match e
    case Lit(v) =>
      IntTextNumeric(v);
      NumericSpaced(IntText(v));
    case Not(x) =>
      RenderSpaced(x, !x.Lit?);
      var t := Render(x, !x.Lit?);
      ParenthesesSpaced(t);
      SpacedBang(if x.Lit? then t else "( " + (t + " )"));
    case Bin(j, l, r) =>
      RenderSpaced(l, false);
      RenderSpaced(r, false);
      SignSpaced(j);
      SpacedJoin(Sign(j), Render(r, false));
      SpacedJoin(Render(l, false), Sign(j) + Render(r, false));
      ParenthesesSpaced(Render(l, false) + (Sign(j) + Render(r, false)));
  }

  lemma {:induction false} SignSpaced(j: Junction)
    ensures Spaced(Sign(j))
  {
  }

  lemma {:induction false} ParenthesesSpaced(t: string)
    requires Spaced(t)
    ensures Spaced("( " + (t + " )"))
  {
    assert Spaced("( ") && Spaced(" )");
    SpacedJoin(t, " )");
    SpacedJoin("( ", t + " )");
  }

  /** The text of a stored query: every operator once, a pair of parentheses for each disjunction that is an operand of
      `&` or `|` and for each negated operator and no other, and blanks just where they belong. */
  lemma {:induction false} PrintedExactly(e: Expr)
    requires Bare(e)
    ensures var t := Render(e, true);
      && HasMarks(t, Tally(Conjunctions(e), Disjunctions(e), Negations(e), OperandDisjunctions(e) + NegatedOperators(e)))
      && Spaced(t)
  {
    RenderMarks(e, true);
    CountConjunctions(e);
    CountDisjunctions(e);
    CountNegations(e);
    CountParentheses(e);
    RenderSpaced(e, true);
  }

  /** Parentheses where they are needed and nowhere else. */
  lemma {:induction false} PrintedExample()
    ensures Render(Bin(Conj, Not(Lit(5)), Bin(Disj, Lit(6), Lit(7))), true) == "!5 & ( 6 | 7 )"
    ensures Render(Not(Bin(Disj, Lit(6), Lit(7))), true) == "!( 6 | 7 )"
  {
    var right := Bin(Disj, Lit(6), Lit(7));
    assert IntText(5) == "5" && IntText(6) == "6" && IntText(7) == "7";
    RenderedBoth(right, true);
    RenderedBoth(right, false);
    RenderedBoth(Bin(Conj, Not(Lit(5)), right), true);
  }
}
