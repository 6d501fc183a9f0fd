/** The parser accepts exactly the grammatical queries whose operator stack fits, and pushes their
    postfix form. */
module BoolGrammar {
  import opened Options
  import opened Sequences
  import opened BoolQuery
  import opened BoolLexer
  import opened BoolParser

  /** The parser resumed inside a level, with `out0` pushed before the level began. */
  function Resume(toks: seq<Token>, l: Level, out0: seq<Node>): Outcome {
    MakePol(toks, StackOf(l), out0 + OutOf(l))
  }

  const Fresh := Level(None, None, 0, false)

  /** All that a level with a complete operand has read. */
  function Alternation(l: Level): Expr
    requires l.term.Some?
  {
    if l.alt.Some? then Bin(Disj, l.alt.value, l.term.value) else l.term.value
  }

  // ----- one token at a time -----

  lemma {:induction false} StepVal(v: int, rest: seq<Token>, l: Level, out0: seq<Node>)
    requires !l.ready
    ensures Resume([Val(v)] + rest, l, out0) == Resume(rest, WithOperand(l, Lit(v)), out0)
  {
    PopOperand(l, Lit(v));
    Regroup(out0, OutOf(l), [Value(v)]);
    Regroup(out0, OutOf(l) + [Value(v)], Popped(StackOf(l)));
  }

  lemma {:induction false} StepBang(rest: seq<Token>, l: Level, out0: seq<Node>)
    requires !l.ready && |StackOf(l)| < STACKDEPTH
    ensures Resume([Opr(Bang)] + rest, l, out0) == Resume(rest, l.(nots := l.nots + 1), out0)
  {
    assert StackOf(l.(nots := l.nots + 1)) == StackOf(l) + [Bang];
  }

  lemma {:induction false} StepAmp(rest: seq<Token>, l: Level, out0: seq<Node>)
    requires l.ready && l.term.Some? && l.nots == 0
    ensures Resume([Opr(Amp)] + rest, l, out0) == Resume(rest, l.(ready := false), out0)
  {
    assert StackOf(l.(ready := false)) == StackOf(l) + [Amp];
  }

  lemma {:induction false} StepBar(rest: seq<Token>, l: Level, out0: seq<Node>)
    requires l.ready && l.term.Some? && l.nots == 0
    ensures Resume([Opr(Bar)] + rest, l, out0) == Resume(rest, Level(Some(Alternation(l)), None, 0, false), out0)
  {
    var next := Level(Some(Alternation(l)), None, 0, false);
    assert StackOf(next) == [Bar];
    if l.alt.Some? {
      assert StackOf(l) == [Bar];
      assert out0 + OutOf(l) + [Operator(Bar)] == out0 + OutOf(next);
    } else {
      assert StackOf(l) + [Bar] == [Bar];
      assert OutOf(l) == OutOf(next);
    }
  }

  lemma {:induction false} FlushLevel(l: Level, out0: seq<Node>)
    requires l.ready && l.term.Some? && l.nots == 0
    ensures out0 + OutOf(l) + PopAll(StackOf(l)) == out0 + Postfix(Alternation(l))
  {
    if l.alt.Some? {
      assert StackOf(l) == [Bar];
      assert [Bar][..0] == [];
      assert PopAll([Bar]) == [Operator(Bar)];
    } else {
      assert StackOf(l) == [];
    }
  }

  lemma {:induction false} StepClose(rest: seq<Token>, l: Level, out0: seq<Node>)
    requires l.ready && l.term.Some? && l.nots == 0
    ensures Resume([Close] + rest, l, out0) == Done(rest, out0 + Postfix(Alternation(l)))
  {
    FlushLevel(l, out0);
  }

  lemma {:induction false} OpenOnce(rest: seq<Token>, stack: seq<Oper>, out: seq<Node>,
                                    after: seq<Token>, inner: seq<Node>)
    requires MakePol(rest, [], out) == Done(after, inner)
    ensures MakePol([Open] + rest, stack, out) == MakePol(after, Kept(stack), inner + Popped(stack))
  {
    assert ([Open] + rest)[1..] == rest;
  }

  lemma {:induction false} StepOpen(rest: seq<Token>, l: Level, out0: seq<Node>, x: Expr, after: seq<Token>)
    requires !l.ready
    requires Resume(rest, Fresh, out0 + OutOf(l)) == Done(after, out0 + OutOf(l) + Postfix(x))
    ensures Resume([Open] + rest, l, out0) == Resume(after, WithOperand(l, Group(x)), out0)
  {
    assert StackOf(Fresh) == [] && out0 + OutOf(l) + OutOf(Fresh) == out0 + OutOf(l);
    OpenOnce(rest, StackOf(l), out0 + OutOf(l), after, out0 + OutOf(l) + Postfix(x));
    PopOperand(l, Group(x));
    Regroup(out0, OutOf(l), Postfix(x));
    Regroup(out0, OutOf(l) + Postfix(x), Popped(StackOf(l)));
  }

  // ----- every grammatical query that fits is accepted -----

  lemma {:induction false} RunFactor(f: Expr, rest: seq<Token>, l: Level, out0: seq<Node>)
    requires Grammatical(f, Factor) && !l.ready && Fits(f, |StackOf(l)|)
    ensures Resume(Yield(f) + rest, l, out0) == Resume(rest, WithOperand(l, f), out0)
    decreases f, 0
  {
    match f
    case Lit(v) =>
      StepVal(v, rest, l, out0);
    case Not(x) =>
      var k := l.(nots := l.nots + 1);
      assert StackOf(k) == StackOf(l) + [Bang];
      assert Yield(f) + rest == [Opr(Bang)] + (Yield(x) + rest);
      StepBang(Yield(x) + rest, l, out0);
      RunFactor(x, rest, k, out0);
    case Group(x) =>
      assert Yield(f) + rest == [Open] + (Yield(x) + ([Close] + rest));
      RunClosed(x, rest, out0 + OutOf(l));
      StepOpen(Yield(x) + ([Close] + rest), l, out0, x, rest);
  }

  lemma {:induction false} RunTerm(t: Expr, rest: seq<Token>, alt: Option<Expr>, out0: seq<Node>)
    requires Grammatical(t, Term) && Fits(t, Floor(Level(alt, None, 0, false)))
    ensures Resume(Yield(t) + rest, Level(alt, None, 0, false), out0)
         == Resume(rest, Level(alt, Some(t), 0, true), out0)
    decreases t, 1
  {
    if t.Bin? {
      var mid := Level(alt, Some(t.l), 0, true);
      assert Yield(t) + rest == Yield(t.l) + ([Opr(Amp)] + (Yield(t.r) + rest));
      RunTerm(t.l, [Opr(Amp)] + (Yield(t.r) + rest), alt, out0);
      StepAmp(Yield(t.r) + rest, mid, out0);
      RunFactor(t.r, rest, mid.(ready := false), out0);
    } else {
      RunFactor(t, rest, Level(alt, None, 0, false), out0);
    }
  }

  /** The level reached by reading `e` from the beginning of a level. */
  function ReadWhole(e: Expr): (l: Level)
    ensures l.ready && l.term.Some? && l.nots == 0 && Alternation(l) == e
  {
    if e.Bin? && e.j.Disj? then Level(Some(e.l), Some(e.r), 0, true) else Level(None, Some(e), 0, true)
  }

  lemma {:induction false} RunWhole(e: Expr, rest: seq<Token>, out0: seq<Node>)
    requires Grammatical(e, Whole) && Fits(e, 0)
    ensures Resume(Yield(e) + rest, Fresh, out0) == Resume(rest, ReadWhole(e), out0)
    decreases e, 2
  {
    if e.Bin? && e.j.Disj? {
      assert Yield(e) + rest == Yield(e.l) + ([Opr(Bar)] + (Yield(e.r) + rest));
      RunWhole(e.l, [Opr(Bar)] + (Yield(e.r) + rest), out0);
      StepBar(Yield(e.r) + rest, ReadWhole(e.l), out0);
      RunTerm(e.r, rest, Some(e.l), out0);
    } else {
      RunTerm(e, rest, None, out0);
    }
  }

  lemma {:induction false} RunClosed(e: Expr, rest: seq<Token>, out0: seq<Node>)
    requires Grammatical(e, Whole) && Fits(e, 0)
    ensures Resume(Yield(e) + ([Close] + rest), Fresh, out0) == Done(rest, out0 + Postfix(e))
    decreases e, 3
  {
    RunWhole(e, [Close] + rest, out0);
    StepClose(rest, ReadWhole(e), out0);
  }

  /** A grammatical query that fits is parsed into its postfix form. */
  lemma {:induction false} ParserComplete(e: Expr)
    requires Grammatical(e, Whole) && Fits(e, 0)
    ensures MakePol(Yield(e) + [End], [], []) == Done([End], Postfix(e))
  {
    RunWhole(e, [End], []);
    assert StackOf(Fresh) == [] && OutOf(Fresh) == [];
    assert [] + OutOf(Fresh) == [];
    FlushLevel(ReadWhole(e), []);
    assert [] + Postfix(e) == Postfix(e);
  }

  // ----- and nothing else is -----

  /** What the tokenizer guarantees: operands and operators alternate, parentheses balance, and the
      stream stops at its first `End` or `Err`. */
  predicate WellLexed(toks: seq<Token>, ready: bool, depth: nat) {
    toks != [] &&
    match toks[0]
    case Err => |toks| == 1
    case End => |toks| == 1 && ready && depth == 0
    case Close => ready && depth > 0 && WellLexed(toks[1..], true, depth - 1)
    case Val(_) => !ready && WellLexed(toks[1..], true, depth)
    case Open => !ready && WellLexed(toks[1..], false, depth + 1)
    case Opr(op) => (ready <==> op != Bang) && WellLexed(toks[1..], false, depth)
  }

  lemma {:induction false} TokensWellLexed(text: string, ready: bool, count: nat)
    ensures WellLexed(Tokens(text, ready, count), ready, count)
    decreases |text|
  {
    var n := NextToken(text, ready, count);
    if !(n.tok.End? || n.tok.Err?) {
      TokensWellLexed(n.rest, n.ready, n.count);
      assert Tokens(text, ready, count)[1..] == Tokens(n.rest, n.ready, n.count);
    }
  }

  lemma {:induction false} NegatedFits(n: nat, f: Expr, d: nat)
    requires d + n <= STACKDEPTH && Fits(f, d + n)
    ensures Fits(Negated(n, f), d)
  {
    if n > 0 {
      NegatedFits(n - 1, Not(f), d);
    }
  }

  lemma {:induction false} NegatedYield(n: nat, f: Expr)
    ensures Yield(Negated(n, f)) == BangTokens(n) + Yield(f)
  {
    if n > 0 {
      NegatedYield(n - 1, Not(f));
      Regroup(BangTokens(n - 1), [Opr(Bang)], Yield(f));
    }
  }

  lemma {:induction false} AppendLast<T>(a: seq<T>, b: seq<T>, c: seq<T>, d: seq<T>)
    ensures a + (b + (c + d)) == a + b + c + d
  {
  }

  lemma {:induction false} OperandYieldTerm(l: Level, f: Expr)
    requires !l.ready
    ensures YieldTerm(WithOperand(l, f)) == YieldTerm(l) + Yield(Negated(l.nots, f))
  {
    var g := Negated(l.nots, f);
    if l.term.Some? {
      assert Yield(Bin(Conj, l.term.value, g)) == Yield(l.term.value) + [Opr(Amp)] + Yield(g);
    }
  }

  lemma {:induction false} OperandYield(l: Level, f: Expr)
    requires !l.ready
    ensures YieldOf(WithOperand(l, f)) == YieldOf(l) + Yield(f)
  {
    NegatedYield(l.nots, f);
    OperandYieldTerm(l, f);
    var k := WithOperand(l, f);
    assert YieldOf(k) == YieldAlt(k) + YieldTerm(k);
    AppendLast(YieldAlt(l), YieldTerm(l), BangTokens(l.nots), Yield(f));
  }

  lemma {:induction false} OperandKeepsLevel(l: Level, f: Expr)
    requires WellFormed(l) && !l.ready && Grammatical(f, Factor) && Fits(f, |StackOf(l)|)
    ensures WellFormed(WithOperand(l, f))
    ensures YieldOf(WithOperand(l, f)) == YieldOf(l) + Yield(f)
  {
    OperandYield(l, f);
    var d := |BaseStack(l)|;
    assert d == Floor(l) + if l.term.Some? then 1 else 0;
    NegatedFits(l.nots, f, d);
  }

  lemma {:induction false} WholeLevel(l: Level)
    requires WellFormed(l) && l.ready
    ensures Yield(Alternation(l)) == YieldOf(l)
    ensures Grammatical(Alternation(l), Whole) && Fits(Alternation(l), 0)
  {
    if !l.alt.Some? {
      GrammaticalUp(l.term.value);
    }
  }

  lemma {:induction false} BangKeepsLevel(l: Level)
    requires WellFormed(l) && !l.ready && |StackOf(l)| < STACKDEPTH
    ensures WellFormed(l.(nots := l.nots + 1))
    ensures YieldOf(l.(nots := l.nots + 1)) == YieldOf(l) + [Opr(Bang)]
  {
  }

  lemma {:induction false} AmpKeepsLevel(l: Level)
    requires WellFormed(l) && l.ready
    ensures WellFormed(l.(ready := false))
    ensures YieldOf(l.(ready := false)) == YieldOf(l) + [Opr(Amp)]
  {
  }

  lemma {:induction false} BarKeepsLevel(l: Level)
    requires WellFormed(l) && l.ready
    ensures WellFormed(Level(Some(Alternation(l)), None, 0, false))
    ensures YieldOf(Level(Some(Alternation(l)), None, 0, false)) == YieldOf(l) + [Opr(Bar)]
  {
    WholeLevel(l);
  }

  lemma {:induction false} GrammaticalUp(e: Expr)
    requires Grammatical(e, Term)
    ensures Grammatical(e, Whole)
  {
  }

  lemma {:induction false} SliceShift<T>(q: seq<T>, skip: nat, m: nat)
    requires skip + m < |q|
    ensures q[..skip + m] == q[..skip] + q[skip..][..m]
    ensures q[skip..][m..] == q[skip + m..]
    ensures q[skip..][m + 1..] == q[skip + m + 1..]
  {
  }

  lemma {:induction false} OpenNeedsInner(rest: seq<Token>, l: Level, out0: seq<Node>)
    requires Resume([Open] + rest, l, out0).Done?
    ensures Resume(rest, Fresh, out0 + OutOf(l)).Done?
  {
    assert ([Open] + rest)[1..] == rest;
    ResumeFresh(rest, out0 + OutOf(l));
  }

  lemma {:induction false} ResumeFresh(toks: seq<Token>, out0: seq<Node>)
    ensures Resume(toks, Fresh, out0) == MakePol(toks, [], out0)
  {
    assert StackOf(Fresh) == [] && out0 + OutOf(Fresh) == out0;
  }

  lemma {:induction false} YieldShift<T>(y: seq<T>, q: seq<T>, skip: nat, m: nat)
    requires skip + m < |q|
    ensures (y + q[..skip]) + q[skip..][..m] == y + q[..skip + m]
  {
    SliceShift(q, skip, m);
  }

  lemma {:induction false} LastToken(toks: seq<Token>, l: Level, out0: seq<Node>)
    requires WellFormed(l) && l.ready && toks != [] && (toks[0].End? || toks[0].Close?)
    ensures var e := Alternation(l);
      Grammatical(e, Whole) && Fits(e, 0) && Yield(e) == YieldOf(l) + toks[..0] &&
      Resume(toks, l, out0) == Done(if toks[0].End? then toks else toks[1..], out0 + Postfix(e))
  {
    WholeLevel(l);
    FlushLevel(l, out0);
  }

  /** From inside any level, acceptance means the tokens read complete a grammatical query. */
  lemma {:induction false} ParserSound(toks: seq<Token>, l: Level, out0: seq<Node>, depth: nat)
    returns (e: Expr, n: nat, tail: seq<Token>)
    requires WellFormed(l) && WellLexed(toks, l.ready, depth) && Resume(toks, l, out0).Done?
    ensures Grammatical(e, Whole) && Fits(e, 0)
    ensures n < |toks| && Yield(e) == YieldOf(l) + toks[..n] && tail == toks[n + 1..]
    ensures depth == 0 ==> tail == [] && toks[n] == End
    ensures depth > 0 ==> toks[n] == Close && WellLexed(tail, true, depth - 1)
    ensures Resume(toks, l, out0) == Done(if depth == 0 then toks[n..] else tail, out0 + Postfix(e))
    decreases |toks|, 2
  {
    if toks[0].End? || toks[0].Close? {
      e, tail := SoundEnd(toks, l, out0, depth);
      n := 0;
    } else {
      var k, skip, left := StepLevel(toks, l, out0, depth);
      var m;
      e, m, tail := ParserSound(left, k, out0, depth);
      n := ShiftTokens(toks, YieldOf(l), skip, left, m, tail);
    }
  }

  lemma {:induction false} SoundEnd(toks: seq<Token>, l: Level, out0: seq<Node>, depth: nat)
    returns (e: Expr, tail: seq<Token>)
    requires WellFormed(l) && WellLexed(toks, l.ready, depth) && (toks[0].End? || toks[0].Close?)
    ensures Grammatical(e, Whole) && Fits(e, 0) && Yield(e) == YieldOf(l) + toks[..0] && tail == toks[1..]
    ensures depth == 0 ==> tail == [] && toks[0] == End
    ensures depth > 0 ==> toks[0] == Close && WellLexed(tail, true, depth - 1)
    ensures Resume(toks, l, out0) == Done(if depth == 0 then toks[0..] else tail, out0 + Postfix(e))
  {
    LastToken(toks, l, out0);
    e, tail := Alternation(l), toks[1..];
    assert toks[0..] == toks;
  }

  lemma {:induction false} ShiftTokens(toks: seq<Token>, y: seq<Token>, skip: nat, left: seq<Token>, m: nat,
                                       tail: seq<Token>)
    returns (n: nat)
    requires skip <= |toks| && left == toks[skip..] && m < |left| && tail == left[m + 1..]
    ensures n < |toks| && y + toks[..n] == (y + toks[..skip]) + left[..m] && toks[n] == left[m]
    ensures toks[n..] == left[m..] && toks[n + 1..] == tail
  {
    n := skip + m;
    SliceShift(toks, skip, m);
    YieldShift(y, toks, skip, m);
  }

  /** One operand, operator or parenthesized operand further, at the same level. */
  lemma {:induction false} StepLevel(toks: seq<Token>, l: Level, out0: seq<Node>, depth: nat)
    returns (k: Level, skip: nat, left: seq<Token>)
    requires WellFormed(l) && WellLexed(toks, l.ready, depth) && Resume(toks, l, out0).Done?
    requires !toks[0].End? && !toks[0].Close?
    ensures 1 <= skip <= |toks| && WellFormed(k) && YieldOf(k) == YieldOf(l) + toks[..skip]
    ensures left == toks[skip..] && WellLexed(left, k.ready, depth)
    ensures Resume(toks, l, out0) == Resume(left, k, out0)
    decreases |toks|, 1
  {
    var rest := toks[1..];
    assert toks == [toks[0]] + rest;
    match toks[0]
    case Val(v) =>
      k, skip, left := WithOperand(l, Lit(v)), 1, rest;
      StepVal(v, rest, l, out0);
      OperandKeepsLevel(l, Lit(v));
    case Opr(op) =>
      skip, left := 1, rest;
      k := StepOperator(op, rest, l, out0);
    case Open =>
      OpenNeedsInner(rest, l, out0);
      k, skip, left := StepGroup(toks, rest, l, out0, depth);
  }

  lemma {:induction false} StepGroup(toks: seq<Token>, rest: seq<Token>, l: Level, out0: seq<Node>, depth: nat)
    returns (k: Level, skip: nat, left: seq<Token>)
    requires WellFormed(l) && !l.ready && WellLexed(rest, false, depth + 1)
    requires toks == [Open] + rest && Resume(rest, Fresh, out0 + OutOf(l)).Done?
    ensures 1 <= skip <= |toks| && WellFormed(k) && k.ready && YieldOf(k) == YieldOf(l) + toks[..skip]
    ensures left == toks[skip..] && WellLexed(left, true, depth)
    ensures Resume(toks, l, out0) == Resume(left, k, out0)
    decreases |rest| + 1, 0
  {
    var x, m;
    x, m, left := ParserSound(rest, Fresh, out0 + OutOf(l), depth + 1);
    k, skip := GroupRead(toks, rest, l, out0, x, m, left);
  }

  lemma {:induction false} GroupRead(toks: seq<Token>, rest: seq<Token>, l: Level, out0: seq<Node>, x: Expr, m: nat,
                                     left: seq<Token>)
    returns (k: Level, skip: nat)
    requires WellFormed(l) && !l.ready && Grammatical(x, Whole) && Fits(x, 0) && toks == [Open] + rest
    requires m < |rest| && Yield(x) == YieldOf(Fresh) + rest[..m] && rest[m] == Close && left == rest[m + 1..]
    requires Resume(rest, Fresh, out0 + OutOf(l)) == Done(left, out0 + OutOf(l) + Postfix(x))
    ensures 1 <= skip <= |toks| && WellFormed(k) && k.ready && YieldOf(k) == YieldOf(l) + toks[..skip]
    ensures left == toks[skip..]
    ensures Resume(toks, l, out0) == Resume(left, k, out0)
  {
    k, skip := WithOperand(l, Group(x)), m + 2;
    StepOpen(rest, l, out0, x, left);
    OperandKeepsLevel(l, Group(x));
    GroupSlice(rest, x, m);
    BehindFirst(Open, rest, m + 1);
  }

  lemma {:induction false} BehindFirst<T>(x: T, rest: seq<T>, m: nat)
    requires m <= |rest|
    ensures ([x] + rest)[m + 1..] == rest[m..]
  {
  }

  lemma {:induction false} GroupSlice(rest: seq<Token>, x: Expr, m: nat)
    requires m < |rest| && Yield(x) == YieldOf(Fresh) + rest[..m] && rest[m] == Close
    ensures Yield(Group(x)) == ([Open] + rest)[..m + 2]
  {
    assert YieldOf(Fresh) == [];
    assert rest[..m + 1] == rest[..m] + [Close];
  }

  lemma {:induction false} StepOperator(op: Oper, rest: seq<Token>, l: Level, out0: seq<Node>) returns (k: Level)
    requires WellFormed(l) && (l.ready <==> op != Bang) && Resume([Opr(op)] + rest, l, out0).Done?
    ensures WellFormed(k) && !k.ready && YieldOf(k) == YieldOf(l) + [Opr(op)]
    ensures Resume([Opr(op)] + rest, l, out0) == Resume(rest, k, out0)
  {
    match op
    case Bang =>
      k := l.(nots := l.nots + 1);
      StepBang(rest, l, out0);
      BangKeepsLevel(l);
    case Amp =>
      k := l.(ready := false);
      StepAmp(rest, l, out0);
      AmpKeepsLevel(l);
    case Bar =>
      k := Level(Some(Alternation(l)), None, 0, false);
      StepBar(rest, l, out0);
      BarKeepsLevel(l);
  }

  /** The parser succeeds on a text exactly when its tokens are those of a grammatical query that
      fits, and then it pushes that query's postfix form. */
  lemma {:induction false} ParserExact(text: string, out: seq<Node>)
    ensures (exists rest :: MakePol(Tokens(text, false, 0), [], []) == Done(rest, out))
       <==> exists e :: Grammatical(e, Whole) && Fits(e, 0) && Tokens(text, false, 0) == Yield(e) + [End] &&
                        out == Postfix(e)
  {
    var toks := Tokens(text, false, 0);
    var o := MakePol(toks, [], []);
    if exists rest :: o == Done(rest, out) {
      var e := ParsedQuery(text);
      assert out == Postfix(e);
    }
    if e :| Grammatical(e, Whole) && Fits(e, 0) && toks == Yield(e) + [End] && out == Postfix(e) {
      ParserComplete(e);
      assert o == Done([End], out);
    }
  }

  /** The query an accepted text denotes. */
  lemma {:induction false} ParsedQuery(text: string) returns (e: Expr)
    requires MakePol(Tokens(text, false, 0), [], []).Done?
    ensures Grammatical(e, Whole) && Fits(e, 0)
    ensures Tokens(text, false, 0) == Yield(e) + [End]
    ensures MakePol(Tokens(text, false, 0), [], []).out == Postfix(e)
  {
    TokensWellLexed(text, false, 0);
    e := ParsedTokens(Tokens(text, false, 0));
  }

  lemma {:induction false} ParsedTokens(toks: seq<Token>) returns (e: Expr)
    requires WellLexed(toks, false, 0) && MakePol(toks, [], []).Done?
    ensures Grammatical(e, Whole) && Fits(e, 0)
    ensures toks == Yield(e) + [End] && MakePol(toks, [], []).out == Postfix(e)
  {
    var n, tail;
    ResumeFresh(toks, []);
    e, n, tail := ParserSound(toks, Fresh, [], 0);
    assert YieldOf(Fresh) == [];
    EmptyFront(toks[..n]);
    EmptyFront(Postfix(e));
    SplitLast(toks);
  }

  lemma {:induction false} SplitLast<T>(q: seq<T>)
    requires q != []
    ensures q == q[..|q| - 1] + [q[|q| - 1]]
  {
  }
}
