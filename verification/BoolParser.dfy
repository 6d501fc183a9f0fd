/** The operator-stack parser of Boolean queries, and the grammar it accepts. */
module BoolParser {
  import opened Options
  import opened Sequences
  import opened BoolQuery
  import opened BoolLexer

  const STACKDEPTH := 16

  datatype Failure = SyntaxError | TooComplex

  datatype Outcome = Done(rest: seq<Token>, out: seq<Node>) | Failed(why: Failure)

  /** After an operand, the operators that bind tighter than `|` are popped; these stay. */
  function Kept(stack: seq<Oper>): (r: seq<Oper>)
    ensures |r| <= |stack|
  {
    if stack != [] && stack[|stack| - 1] != Bar then Kept(stack[..|stack| - 1]) else stack
  }

  /** And these are pushed, last in first out. */
  function Popped(stack: seq<Oper>): seq<Node> {
    if stack != [] && stack[|stack| - 1] != Bar
    then [Operator(stack[|stack| - 1])] + Popped(stack[..|stack| - 1])
    else []
  }

  function PopAll(stack: seq<Oper>): seq<Node> {
    if stack == [] then [] else [Operator(stack[|stack| - 1])] + PopAll(stack[..|stack| - 1])
  }

  /** `makepol` on a token stream, with its local stack and the items pushed so far. */
  function MakePol(toks: seq<Token>, stack: seq<Oper>, out: seq<Node>): (o: Outcome)
    ensures o.Done? ==> |o.rest| <= |toks|
    decreases |toks|
  {
    if toks == [] then Failed(SyntaxError)
    else
      var rest := toks[1..];
      match toks[0]
      case End => Done(toks, out + PopAll(stack))
      case Err => Failed(SyntaxError)
      case Val(v) =>
        MakePol(rest, Kept(stack), out + [Value(v)] + Popped(stack))
      case Opr(op) =>
        if stack != [] && op == Bar then MakePol(rest, stack, out + [Operator(Bar)])
        else if |stack| == STACKDEPTH then Failed(TooComplex)
        else MakePol(rest, stack + [op], out)
      case Open =>
        var inner := MakePol(rest, [], out);
        if inner.Failed? then inner
        else MakePol(inner.rest, Kept(stack), inner.out + Popped(stack))
      case Close => Done(rest, out + PopAll(stack))
  }

  // ----- the grammar -----

  datatype Rank = Factor | Term | Whole

  /** `!` binds tighter than `&`, which binds tighter than `|`; both associate to the left. */
  predicate Grammatical(e: Expr, rank: Rank)
    decreases e
  {
    match e
    case Lit(_) => true
    case Not(x) => Grammatical(x, Factor)
    case Group(x) => Grammatical(x, Whole)
    case Bin(j, l, r) =>
      if j.Conj? then !rank.Factor? && Grammatical(l, Term) && Grammatical(r, Factor)
      else rank.Whole? && Grammatical(l, Whole) && Grammatical(r, Term)
  }

  /** The tokens of a query as written. */
  function Yield(e: Expr): (ts: seq<Token>)
    ensures ts != []
  {
    match e
    case Lit(v) => [Val(v)]
    case Not(x) => [Opr(Bang)] + Yield(x)
    case Bin(j, l, r) => Yield(l) + [Opr(OperOf(j))] + Yield(r)
    case Group(x) => [Open] + Yield(x) + [Close]
  }

  /** The operator stack, `d` deep when `e` begins, never exceeds its fixed depth while `e` is read. */
  predicate Fits(e: Expr, d: nat) {
    match e
    case Lit(_) => true
    case Not(x) => d < STACKDEPTH && Fits(x, d + 1)
    case Bin(j, l, r) =>
      if j.Conj? then Fits(l, d) && d < STACKDEPTH && Fits(r, d + 1)
      else Fits(l, 0) && Fits(r, 1)
    case Group(x) => Fits(x, 0)
  }

  // ----- one level of parentheses, half read -----

  /** `alt` waits left of a pending `|`, `term` is the conjunction so far (with a pending `&` unless
      `ready`), and `nots` counts the pending `!`. */
  datatype Level = Level(alt: Option<Expr>, term: Option<Expr>, nots: nat, ready: bool)

  function Bangs(n: nat): (s: seq<Oper>)
    ensures |s| == n
  {
    if n == 0 then [] else Bangs(n - 1) + [Bang]
  }

  function BaseStack(l: Level): seq<Oper> {
    (if l.alt.Some? then [Bar] else []) + (if l.term.Some? && !l.ready then [Amp] else [])
  }

  function StackOf(l: Level): seq<Oper> {
    BaseStack(l) + Bangs(l.nots)
  }

  function MaybePostfix(m: Option<Expr>): seq<Node> {
    if m.Some? then Postfix(m.value) else []
  }

  function OutOf(l: Level): seq<Node> {
    MaybePostfix(l.alt) + MaybePostfix(l.term)
  }

  function BangTokens(n: nat): seq<Token> {
    if n == 0 then [] else BangTokens(n - 1) + [Opr(Bang)]
  }

  function YieldAlt(l: Level): seq<Token> {
    if l.alt.Some? then Yield(l.alt.value) + [Opr(Bar)] else []
  }

  function YieldTerm(l: Level): seq<Token> {
    if !l.term.Some? then []
    else if l.ready then Yield(l.term.value)
    else Yield(l.term.value) + [Opr(Amp)]
  }

  /** The tokens read so far at this level. */
  function YieldOf(l: Level): seq<Token> {
    YieldAlt(l) + YieldTerm(l) + BangTokens(l.nots)
  }

  function Floor(l: Level): nat {
    if l.alt.Some? then 1 else 0
  }

  ghost predicate WellFormed(l: Level) {
    && (l.alt.Some? ==> Grammatical(l.alt.value, Whole) && Fits(l.alt.value, 0))
    && (l.term.Some? ==> Grammatical(l.term.value, Term) && Fits(l.term.value, Floor(l)))
    && (l.ready ==> l.term.Some? && l.nots == 0)
    && |StackOf(l)| <= STACKDEPTH
  }

  function Negated(n: nat, f: Expr): (e: Expr)
    ensures Grammatical(f, Factor) ==> Grammatical(e, Factor)
    decreases n
  {
    if n == 0 then f else Negated(n - 1, Not(f))
  }

  /** The level once operand `f` has been read. */
  function WithOperand(l: Level, f: Expr): Level {
    var g := Negated(l.nots, f);
    Level(l.alt, Some(if l.term.Some? then Bin(Conj, l.term.value, g) else g), 0, true)
  }

  lemma {:induction false} PopTop(stack: seq<Oper>, op: Oper)
    requires op != Bar
    ensures Kept(stack + [op]) == Kept(stack)
    ensures Popped(stack + [op]) == [Operator(op)] + Popped(stack)
  {
    assert (stack + [op])[..|stack|] == stack;
  }

  lemma {:induction false} PopBase(l: Level)
    requires !l.ready
    ensures Kept(BaseStack(l)) == if l.alt.Some? then [Bar] else []
    ensures Popped(BaseStack(l)) == if l.term.Some? then [Operator(Amp)] else []
  {
    var bar := if l.alt.Some? then [Bar] else [];
    assert Kept(bar) == bar && Popped(bar) == [];
    if l.term.Some? {
      PopTop(bar, Amp);
    } else {
      assert BaseStack(l) == bar;
    }
  }

  /** Popping after an operand turns the half-read level into the level with that operand. */
  lemma {:induction false} PopOperand(l: Level, f: Expr)
    requires !l.ready
    ensures Kept(StackOf(l)) == StackOf(WithOperand(l, f))
    ensures (OutOf(l) + Postfix(f)) + Popped(StackOf(l)) == OutOf(WithOperand(l, f))
    decreases l.nots
  {
    if l.nots == 0 {
      PopPlainOperand(l, f);
    } else {
      var k := l.(nots := l.nots - 1);
      Regroup(BaseStack(l), Bangs(k.nots), [Bang]);
      PopTop(StackOf(k), Bang);
      PopOperand(k, Not(f));
      assert WithOperand(l, f) == WithOperand(k, Not(f)) && OutOf(k) == OutOf(l);
      Regroup(OutOf(l) + Postfix(f), [Operator(Bang)], Popped(StackOf(k)));
      Regroup(OutOf(l), Postfix(f), [Operator(Bang)]);
    }
  }

  lemma {:induction false} PopPlainOperand(l: Level, f: Expr)
    requires !l.ready && l.nots == 0
    ensures Kept(StackOf(l)) == StackOf(WithOperand(l, f))
    ensures (OutOf(l) + Postfix(f)) + Popped(StackOf(l)) == OutOf(WithOperand(l, f))
  {
    PopBase(l);
    assert StackOf(l) == BaseStack(l);
    assert StackOf(WithOperand(l, f)) == if l.alt.Some? then [Bar] else [];
    var alt := MaybePostfix(l.alt);
    if l.term.Some? {
      var t := Postfix(l.term.value);
      Regroup(alt, t, Postfix(f));
      Regroup(alt, t + Postfix(f), [Operator(Amp)]);
    } else {
      assert OutOf(l) == alt && alt + Postfix(f) + [] == alt + Postfix(f);
    }
  }
}
