/** The texts of Boolean queries: the scanner finds the given tokens exactly in the texts that spell them out, with any
    blanks before each. */
module BoolText {
  import opened Int32
  import opened Sequences
  import opened NumberText
  import opened BoolQuery
  import opened BoolLexer
  import opened BoolParser
  import opened BoolGrammar
  import opened BoolInput

  /** A token as written, behind some blanks. */
  datatype Piece = Piece(gap: nat, word: string)

  function Blanks(n: nat): string {
    seq(n, _ => ' ')
  }

  /** The pieces, then blanks up to the end of the string. */
  function Laid(ps: seq<Piece>, gap: nat, tail: string): string {
    if ps == [] then Blanks(gap) + tail else Blanks(ps[0].gap) + (ps[0].word + Laid(ps[1..], gap, tail))
  }

  /** A minus sign or a digit, then digits. */
  ghost predicate IsNumber(w: string) {
    w != "" && (IsDigit(w[0]) || w[0] == '-') && AllDigits(w[1..])
  }

  ghost predicate Spelt(w: string, tok: Token) {
    match tok
    case Val(v) => IsNumber(w) && |w| <= 15 && IsInt32(v) && Strtol(w) == v
    case Opr(op) => w == (match op case Bang => "!" case Amp => "&" case Bar => "|")
    case Open => w == "("
    case Close => w == ")"
    case End => false
    case Err => false
  }

  ghost predicate AllSpelt(ps: seq<Piece>, ts: seq<Token>) {
    |ps| == |ts| && forall i :: 0 <= i < |ps| ==> Spelt(ps[i].word, ts[i])
  }

  /** The string ends, or shows a zero byte. */
  predicate AtEnd(tail: string) {
    tail == "" || tail[0] == '\0'
  }

  // ----- every such text has these tokens -----

  lemma {:induction false} SkipBlanks(n: nat, r: string)
    requires r == "" || r[0] != ' '
    ensures SkipSpaces(Blanks(n) + r) == r
  {
    if n == 0 {
      EmptyFront(r);
    } else {
      assert (Blanks(n) + r)[0] == ' ' && (Blanks(n) + r)[1..] == Blanks(n - 1) + r;
      SkipBlanks(n - 1, r);
    }
  }

  lemma {:induction false} WordStart(w: string, tok: Token)
    requires Spelt(w, tok)
    ensures w != "" && w[0] != ' ' && w[0] != '\0' && (!tok.Val? ==> !IsDigit(w[0]))
  {
  }

  /** What the text begins with. */
  lemma {:induction false} FirstOf(ps: seq<Piece>, ts: seq<Token>, gap: nat, tail: string)
    requires AllSpelt(ps, ts) && AtEnd(tail)
    ensures var r := Laid(ps, gap, tail);
      if ts == [] then r == "" || !IsDigit(r[0]) else r != "" && r[0] != '\0' && (!ts[0].Val? ==> !IsDigit(r[0]))
  {
    if ts != [] {
      var r := ps[0].word + Laid(ps[1..], gap, tail);
      assert Spelt(ps[0].word, ts[0]);
      WordStart(ps[0].word, ts[0]);
      assert r[0] == ps[0].word[0];
      BlanksThen(ps[0].gap, r);
    } else {
      BlanksThen(gap, tail);
    }
  }

  lemma {:induction false} BlanksThen(n: nat, r: string)
    ensures var s := Blanks(n) + r; if n == 0 then s == r else s != "" && s[0] == ' '
  {
    if n == 0 {
      EmptyFront(r);
    }
  }

  lemma {:induction false} DigitsThen(ds: string, r: string)
    requires AllDigits(ds) && (r == "" || !IsDigit(r[0]))
    ensures DigitRun(ds + r) == |ds|
  {
    if ds == "" {
      EmptyFront(r);
    } else {
      assert (ds + r)[1..] == ds[1..] + r;
      DigitsThen(ds[1..], r);
    }
  }

  /** One token. */
  lemma {:induction false} NextSpelt(gap: nat, w: string, r: string, tok: Token, ready: bool, depth: nat)
    requires Spelt(w, tok) && (tok.Val? ==> (r == "" || !IsDigit(r[0])) && (depth == 0 || Peek(r) != '\0'))
    requires match tok
      case Val(_) => !ready
      case Open => !ready
      case Close => ready && depth > 0
      case Opr(op) => ready <==> op != Bang
    ensures NextToken(Blanks(gap) + (w + r), ready, depth) ==
            Lexed(tok, r, tok.Val? || tok.Close?, depth + if tok.Open? then 1 else if tok.Close? then -1 else 0)
  {
    var s := w + r;
    SkipBlanks(gap, s);
    if tok.Val? {
      NumberSpelt(w, r, tok.v, depth);
    } else {
      assert s[0] == w[0] && s[1..] == r;
    }
  }

  lemma {:induction false} NumberSpelt(w: string, r: string, v: int, depth: nat)
    requires Spelt(w, Val(v)) && (r == "" || !IsDigit(r[0])) && (depth == 0 || Peek(r) != '\0')
    ensures w + r != "" && (IsDigit((w + r)[0]) || (w + r)[0] == '-')
    ensures NumberToken(w + r, depth) == Lexed(Val(v), r, true, depth)
  {
    var s := w + r;
    assert s[0] == w[0] && s[1..] == w[1..] + r;
    DigitsThen(w[1..], r);
    assert s[..|w|] == w && s[|w|..] == r;
  }

  lemma {:induction false} LaidHasTokens(ps: seq<Piece>, ts: seq<Token>, gap: nat, tail: string, ready: bool, depth: nat)
    requires AllSpelt(ps, ts) && AtEnd(tail) && WellLexed(ts + [End], ready, depth)
    ensures Tokens(Laid(ps, gap, tail), ready, depth) == ts + [End]
  {
    if ps == [] {
      assert ts + [End] == [End];
      SkipBlanks(gap, tail);
    } else {
      var tok, rest := ts[0], ts[1..];
      HeadAndRest(ts);
      FirstOf(ps[1..], rest, gap, tail);
      assert Spelt(ps[0].word, tok);
      NextSpelt(ps[0].gap, ps[0].word, Laid(ps[1..], gap, tail), tok, ready, depth);
      var l := NextToken(Laid(ps, gap, tail), ready, depth);
      LaidHasTokens(ps[1..], rest, gap, tail, l.ready, l.count);
    }
  }

  lemma {:induction false} HeadAndRest(ts: seq<Token>)
    requires ts != []
    ensures var all := ts + [End];
      all[0] == ts[0] && all[1..] == ts[1..] + [End] && all == [ts[0]] + (ts[1..] + [End])
    ensures (ts[1..] + [End])[0] == if |ts| == 1 then End else ts[1]
  {
  }

  // ----- and every text with these tokens is one of them -----

  lemma {:induction false} SpacesFound(text: string) returns (gap: nat)
    ensures text == Blanks(gap) + SkipSpaces(text)
  {
    if text != "" && text[0] == ' ' {
      var n := SpacesFound(text[1..]);
      gap := n + 1;
      assert Blanks(gap) == " " + Blanks(n) && text == " " + text[1..];
      Regroup(" ", Blanks(n), SkipSpaces(text));
    } else {
      gap := 0;
      EmptyFront(text);
    }
  }

  lemma {:induction false} RunIsDigits(s: string)
    ensures AllDigits(s[..DigitRun(s)])
  {
    if s != "" && IsDigit(s[0]) {
      RunIsDigits(s[1..]);
      var n := DigitRun(s[1..]);
      assert s[..n + 1] == [s[0]] + s[1..][..n];
    }
  }

  lemma {:induction false} TokenFound(text: string, ready: bool, depth: nat) returns (p: Piece)
    requires var l := NextToken(text, ready, depth); !l.tok.End? && !l.tok.Err?
    ensures var l := NextToken(text, ready, depth);
      Spelt(p.word, l.tok) && text == Blanks(p.gap) + (p.word + l.rest)
  {
    var s, l := SkipSpaces(text), NextToken(text, ready, depth);
    var gap := SpacesFound(text);
    var n := |s| - |l.rest|;
    if l.tok.Val? {
      var k := DigitRun(s[1..]);
      RunIsDigits(s[1..]);
      assert s[..1 + k][1..] == s[1..][..k];
      p := Piece(gap, s[..1 + k]);
      assert s == p.word + l.rest;
    } else {
      p := Piece(gap, s[..1]);
      assert s == p.word + s[1..];
    }
  }

  lemma {:induction false} FindLaid(text: string, ts: seq<Token>, ready: bool, depth: nat)
    returns (ps: seq<Piece>, gap: nat, tail: string)
    requires Tokens(text, ready, depth) == ts + [End]
    ensures AllSpelt(ps, ts) && AtEnd(tail) && Laid(ps, gap, tail) == text
    decreases |text|
  {
    var l := NextToken(text, ready, depth);
    assert (ts + [End])[0] == l.tok;
    if l.tok.End? || l.tok.Err? {
      assert |ts + [End]| == 1 && ts == [];
      gap := SpacesFound(text);
      ps, tail := [], SkipSpaces(text);
    } else {
      assert ts != [] && ts[0] == l.tok && (ts + [End])[1..] == ts[1..] + [End];
      assert Tokens(text, ready, depth)[1..] == Tokens(l.rest, l.ready, l.count);
      CountStays(text, ready, depth);
      var p := TokenFound(text, ready, depth);
      var more;
      more, gap, tail := FindLaid(l.rest, ts[1..], l.ready, l.count);
      ps := [p] + more;
      assert ps[1..] == more;
    }
  }

  lemma {:induction false} CountStays(text: string, ready: bool, depth: nat)
    ensures var l := NextToken(text, ready, depth); !l.tok.Err? ==> l.count >= 0
  {
  }

  // ----- the texts that input accepts -----

  lemma {:induction false} YieldWellLexed(e: Expr, rest: seq<Token>, depth: nat)
    requires WellLexed(rest, true, depth)
    ensures WellLexed(Yield(e) + rest, false, depth)
    decreases e
  {
    match e
    case Lit(v) => assert ([Val(v)] + rest)[1..] == rest;
    case Not(x) =>
      YieldWellLexed(x, rest, depth);
      Prefixed(Opr(Bang), Yield(x), rest);
    case Bin(j, l, r) =>
      YieldWellLexed(r, rest, depth);
      var op := Opr(OperOf(j));
      assert ([op] + (Yield(r) + rest))[1..] == Yield(r) + rest;
      YieldWellLexed(l, [op] + (Yield(r) + rest), depth);
      Regroup(Yield(l) + [op], Yield(r), rest);
      Regroup(Yield(l), [op], Yield(r) + rest);
    case Group(x) =>
      assert ([Close] + rest)[1..] == rest;
      YieldWellLexed(x, [Close] + rest, depth + 1);
      Regroup([Open] + Yield(x), [Close], rest);
      Prefixed(Open, Yield(x), [Close] + rest);
  }

  lemma {:induction false} Prefixed(tok: Token, y: seq<Token>, rest: seq<Token>)
    ensures ([tok] + y) + rest == [tok] + (y + rest)
    ensures (([tok] + y) + rest)[0] == tok && (([tok] + y) + rest)[1..] == y + rest
  {
    Regroup([tok], y, rest);
  }

  /** The text spells out the tokens. */
  ghost predicate SpellsOut(text: string, ts: seq<Token>) {
    exists ps, gap, tail :: AllSpelt(ps, ts) && AtEnd(tail) && Laid(ps, gap, tail) == text
  }

  /** A text denotes a query if and only if the query is grammatical, fits the stack, and the text spells out its
      tokens, each behind any number of blanks. */
  lemma {:induction false} DenotesExactly(text: string, e: Expr)
    ensures Denotes(text, e) <==> Grammatical(e, Whole) && Fits(e, 0) && SpellsOut(text, Yield(e))
  {
    if Denotes(text, e) {
      var ps, gap, tail := FindLaid(text, Yield(e), false, 0);
    }
    if SpellsOut(text, Yield(e)) {
      var ps, gap, tail :| AllSpelt(ps, Yield(e)) && AtEnd(tail) && Laid(ps, gap, tail) == text;
      YieldWellLexed(e, [End], 0);
      LaidHasTokens(ps, Yield(e), gap, tail, false, 0);
    }
  }

  /** `&` binds tighter than `|` on either side of it, and both associate to the left. */
  lemma {:induction false} Precedence(a: Expr, b: Expr, c: Expr, i: Junction, j: Junction)
    requires Grammatical(a, Factor) && Grammatical(b, Factor) && Grammatical(c, Factor)
    requires Fits(a, 0) && Fits(b, 0) && Fits(b, 1) && Fits(c, 1) && Fits(c, 2)
    ensures var toks := Yield(a) + [Opr(OperOf(i))] + Yield(b) + [Opr(OperOf(j))] + Yield(c) + [End];
      MakePol(toks, [], []) ==
      Done([End], Postfix(if i.Disj? && j.Conj? then Bin(i, a, Bin(j, b, c)) else Bin(j, Bin(i, a, b), c)))
  {
    GrammaticalFactor(a);
    GrammaticalFactor(b);
    GrammaticalFactor(c);
    if i.Disj? && j.Conj? {
      ParserComplete(Bin(i, a, Bin(j, b, c)));
      Regroup(Yield(a) + [Opr(OperOf(i))] + Yield(b), [Opr(OperOf(j))], Yield(c));
      Regroup(Yield(a) + [Opr(OperOf(i))], Yield(b), [Opr(OperOf(j))] + Yield(c));
      Regroup(Yield(b), [Opr(OperOf(j))], Yield(c));
    } else {
      ParserComplete(Bin(j, Bin(i, a, b), c));
    }
  }

  lemma {:induction false} GrammaticalFactor(e: Expr)
    requires Grammatical(e, Factor)
    ensures Grammatical(e, Term) && Grammatical(e, Whole)
  {
  }

  // ----- the two errors -----

  /** What is left behind a closing parenthesis is in order as well. */
  lemma {:induction false} OnlyTooComplex(toks: seq<Token>, stack: seq<Oper>, out: seq<Node>, ready: bool, depth: nat)
    requires WellLexed(toks, ready, depth) && Err !in toks
    ensures var o := MakePol(toks, stack, out);
      if o.Failed? then o.why == TooComplex else depth > 0 ==> WellLexed(o.rest, true, depth - 1) && Err !in o.rest
    decreases |toks|
  {
    var rest := toks[1..];
    match toks[0]
    case End =>
    case Close =>
    case Val(v) => OnlyTooComplex(rest, Kept(stack), out + [Value(v)] + Popped(stack), true, depth);
    case Opr(op) =>
      if stack != [] && op == Bar {
        OnlyTooComplex(rest, stack, out + [Operator(Bar)], false, depth);
      } else if |stack| != STACKDEPTH {
        OnlyTooComplex(rest, stack + [op], out, false, depth);
      }
    case Open =>
      OnlyTooComplex(rest, [], out, false, depth + 1);
      var inner := MakePol(rest, [], out);
      if inner.Done? {
        OnlyTooComplex(inner.rest, Kept(stack), inner.out + Popped(stack), true, depth);
      }
  }

  /** A text is called a syntax error only if the scanner meets a character out of place; a text whose tokens are all in
      place is accepted or called too complex. */
  lemma {:induction false} ErrorKinds(text: string)
    ensures var toks := Tokens(text, false, 0); var o := MakePol(toks, [], []);
      && (o == Failed(SyntaxError) ==> Err in toks)
      && (Err in toks ==> o.Failed?)
      && (Err !in toks ==> o.Done? || o == Failed(TooComplex))
  {
    var toks := Tokens(text, false, 0);
    TokensWellLexed(text, false, 0);
    if Err !in toks {
      OnlyTooComplex(toks, [], [], false, 0);
    } else if MakePol(toks, [], []).Done? {
      var e := ParsedTokens(toks);
      YieldHasNoErr(e);
    }
  }

  lemma {:induction false} YieldHasNoErr(e: Expr)
    ensures Err !in Yield(e)
  {
    match e
    case Lit(_) =>
    case Not(x) => YieldHasNoErr(x);
    case Bin(_, l, r) => YieldHasNoErr(l); YieldHasNoErr(r);
    case Group(x) => YieldHasNoErr(x);
  }
}
