/** `bqarr_out`: printing a stored query, and reading the text back. */
module BoolOutput {
  import opened Sequences
  import opened Int32
  import opened NumberText
  import opened BoolQuery
  import opened BoolLexer
  import opened BoolParser
  import opened BoolGrammar
  import opened BoolInput

  /** No parentheses are stored. */
  predicate Bare(e: Expr) {
    match e
    case Lit(_) => true
    case Not(x) => Bare(x)
    case Bin(_, l, r) => Bare(l) && Bare(r)
    case Group(_) => false
  }

  /** Every value is a 32-bit integer. */
  predicate Narrow(e: Expr) {
    match e
    case Lit(v) => IsInt32(v)
    case Not(x) => Narrow(x)
    case Bin(_, l, r) => Narrow(l) && Narrow(r)
    case Group(x) => Narrow(x)
  }

  lemma {:induction false} StripBare(e: Expr)
    ensures Bare(Strip(e)) && (Narrow(e) ==> Narrow(Strip(e)))
  {
    match e
    case Lit(_) =>
    case Not(x) => StripBare(x);
    case Bin(_, l, r) => StripBare(l); StripBare(r);
    case Group(x) => StripBare(x);
  }

  // ----- infix -----

  /** The text of a stored query; only a disjunction that is not outermost gets parentheses. */
  function Render(e: Expr, first: bool): string
    requires Bare(e)
  {
    match e
    case Lit(v) => IntText(v)
    case Not(x) => if x.Lit? then "!" + Render(x, false) else "!" + ("( " + (Render(x, true) + " )"))
    case Bin(j, l, r) =>
      if j.Conj? then Render(l, false) + (" & " + Render(r, false))
      else if first then Render(l, false) + (" | " + Render(r, false))
      else "( " + ((Render(l, false) + (" | " + Render(r, false))) + " )")
  }

  function Sign(j: Junction): string {
    if j.Conj? then " & " else " | "
  }

  lemma {:induction false} RenderBoth(b: string, e: Expr, first: bool)
    requires e.Bin? && Bare(e)
    ensures e.j.Disj? && !first ==>
              (((b + "( ") + Render(e.l, false)) + (Sign(e.j) + Render(e.r, false))) + " )" == b + Render(e, first)
    ensures e.j.Conj? || first ==>
              (b + Render(e.l, false)) + (Sign(e.j) + Render(e.r, false)) == b + Render(e, first)
  {
    var l, mr := Render(e.l, false), Sign(e.j) + Render(e.r, false);
    assert (((b + "( ") + l) + mr) + " )" == b + ("( " + ((l + mr) + " )"));
    assert (b + l) + mr == b + (l + mr);
  }

  class Infix {
    const items: seq<Item>
    var curpol: int
    var buf: string

    constructor (items: seq<Item>, curpol: int)
      ensures this.items == items && this.curpol == curpol && buf == ""
    {
      this.items, this.curpol, buf := items, curpol, "";
    }

    method Append(text: string)
      modifies this`buf
      ensures buf == old(buf) + text
    {
      buf := buf + text;
    }

    /** `infix`: prints the operand that ends at `curpol` and steps over it. */
    method Print(first: bool, ghost base: nat, ghost e: Expr)
      requires Bare(e) && curpol == base + Size(e) - 1 && Spells(items, base, Postfix(e))
      modifies this
      ensures curpol == base - 1 && buf == old(buf) + Render(e, first)
      decreases e
    {
      assert items[curpol].node == Postfix(e)[Size(e) - 1];
      var node := items[curpol].node;
      if node.Value? {
        Append(IntText(node.v));
        curpol := curpol - 1;
      } else if node.op == Bang {
        PrintNot(base, e);
      } else {
        PrintBoth(first, base, e);
      }
    }

    method PrintNot(ghost base: nat, ghost e: Expr)
      requires e.Not? && Bare(e) && curpol == base + Size(e) - 1 && Spells(items, base, Postfix(e))
      modifies this
      ensures curpol == base - 1 && buf == old(buf) + Render(e, false)
      decreases e, 0
    {
      SpellsParts(items, base, Postfix(e.e), [Operator(Bang)]);
      Append("!");
      curpol := curpol - 1;
      assert items[curpol].node == Postfix(e.e)[Size(e.e) - 1];
      var isopr := items[curpol].node.Operator?;
      if isopr {
        Append("( ");
      }
      Print(isopr, base, e.e);
      if isopr {
        Append(" )");
      }
    }

    method PrintBoth(first: bool, ghost base: nat, ghost e: Expr)
      requires e.Bin? && Bare(e) && curpol == base + Size(e) - 1 && Spells(items, base, Postfix(e))
      modifies this
      ensures curpol == base - 1 && buf == old(buf) + Render(e, first)
      decreases e, 0
    {
      SpellsBin(items, base, e);
      ghost var b, l, r := buf, Render(e.l, false), Render(e.r, false);
      var op := items[curpol].node.op;
      var parens := op == Bar && !first;
      curpol := curpol - 1;
      if parens {
        Append("( ");
      }
      var nrm := new Infix(items, curpol);
      nrm.Print(false, base + Size(e.l), e.r);
      assert nrm.buf == r;
      curpol := nrm.curpol;
      Print(false, base, e.l);
      assert buf == (if parens then b + "( " else b) + l;
      var right := Sign(if op == Amp then Conj else Disj) + nrm.buf;
      Append(right);
      if parens {
        Append(" )");
      }
      RenderBoth(b, e, first);
    }
  }

  lemma {:induction false} StoredSpells(e: Expr)
    ensures Spells(Stored(e), 0, Postfix(e))
  {
    match e
    case Lit(_) =>
    case Not(x) => StoredSpells(x);
    case Bin(_, l, r) => StoredSpells(l); StoredSpells(r);
    case Group(x) => StoredSpells(x);
  }

  method BqarrOut(items: seq<Item>, ghost e: Expr) returns (text: string)
    requires items == Stored(e)
    ensures Bare(Strip(e)) && text == Render(Strip(e), true)
  {
    StripBare(e);
    StripKeeps(e, {});
    StoredSpells(e);
    var nrm := new Infix(items, |items| - 1);
    nrm.Print(true, 0, Strip(e));
    text := nrm.buf;
  }

  // ----- the printed text, as a query with parentheses -----

  /** Conjunctions re-associate to the left when they are read back. */
  function Chained(a: Expr, b: Expr): Expr {
    if b.Bin? && b.j.Conj? then Bin(Conj, Chained(a, b.l), b.r) else Bin(Conj, a, b)
  }

  function Reread(e: Expr, first: bool): Expr {
    match e
    case Lit(_) => e
    case Not(x) => if x.Lit? then Not(x) else Not(Group(Reread(x, true)))
    case Bin(j, l, r) =>
      if j.Conj? then Chained(Reread(l, false), Reread(r, false))
      else if first then Bin(Disj, Reread(l, false), Reread(r, false))
      else Group(Bin(Disj, Reread(l, false), Reread(r, false)))
    case Group(x) => Reread(x, first)
  }

  /** A conjunction whose operands carry at most one `!`. */
  predicate Tidy(e: Expr) {
    match e
    case Lit(_) => true
    case Not(x) => x.Lit? || (x.Group? && Tidy(x))
    case Group(x) => if x.Bin? && x.j.Disj? then Tidy(x.l) && Tidy(x.r) else Tidy(x)
    case Bin(j, l, r) => j.Conj? && Tidy(l) && Tidy(r) && !r.Bin?
  }

  lemma {:induction false} ChainedTidy(a: Expr, b: Expr)
    requires Tidy(a) && Tidy(b)
    ensures Tidy(Chained(a, b)) && Chained(a, b).Bin?
  {
    if b.Bin? {
      ChainedTidy(a, b.l);
    }
  }

  lemma {:induction false} RereadTidy(e: Expr)
    requires Bare(e)
    ensures Tidy(Reread(e, false))
    ensures Tidy(Group(Reread(e, true)))
  {
    match e
    case Lit(_) =>
    case Not(x) => RereadTidy(x);
    case Bin(j, l, r) =>
      RereadTidy(l);
      RereadTidy(r);
      if j.Conj? {
        ChainedTidy(Reread(l, false), Reread(r, false));
      }
  }

  lemma {:induction false} TidyParses(e: Expr, d: nat)
    requires Tidy(e) && d <= 2 && (e.Bin? ==> d <= 1)
    ensures Grammatical(e, if e.Bin? then Term else Factor) && Fits(e, d)
    decreases e
  {
    match e
    case Lit(_) =>
    case Not(x) => if x.Group? { TidyGroup(x); }
    case Group(x) => TidyGroup(e);
    case Bin(_, l, r) =>
      TidyParses(l, d);
      TidyParses(r, d + 1);
  }

  lemma {:induction false} TidyGroup(e: Expr)
    requires e.Group? && Tidy(e)
    ensures Grammatical(e.e, Whole) && Fits(e.e, 0)
    decreases e, 0
  {
    var x := e.e;
    if x.Bin? && x.j.Disj? {
      TidyParses(x.l, 0);
      TidyParses(x.r, 1);
      if x.l.Bin? {
        GrammaticalUp(x.l);
      }
    } else {
      TidyParses(x, 0);
    }
  }

  // ----- reading the printed text -----

  lemma {:induction false} ChainedKeeps(a: Expr, b: Expr, s: set<int>)
    ensures Yield(Chained(a, b)) == Yield(a) + ([Opr(Amp)] + Yield(b))
    ensures Holds(Chained(a, b), s) == (Holds(a, s) && Holds(b, s))
    ensures Size(Chained(a, b)) == Size(a) + Size(b) + 1
  {
    if b.Bin? && b.j.Conj? {
      ChainedKeeps(a, b.l, s);
    }
    ChainedYield(a, b);
  }

  lemma {:induction false} ChainedYield(a: Expr, b: Expr)
    ensures Yield(Chained(a, b)) == Yield(a) + ([Opr(Amp)] + Yield(b))
  {
    var amp := [Opr(Amp)];
    if b.Bin? && b.j.Conj? {
      ChainedYield(a, b.l);
      var x, y, z := Yield(a), Yield(b.l), Yield(b.r);
      assert Yield(b) == y + amp + z;
      assert Yield(Chained(a, b)) == (x + (amp + y)) + amp + z;
      Regroup(x, amp + y, amp);
      Regroup(x, (amp + y) + amp, z);
      Regroup(amp, y, amp);
      Regroup(amp, y + amp, z);
    } else {
      Regroup(Yield(a), amp, Yield(b));
    }
  }

  /** Re-association and added parentheses change neither the meaning nor the number of items. */
  lemma {:induction false} RereadKeeps(e: Expr, first: bool, s: set<int>)
    requires Bare(e)
    ensures Holds(Reread(e, first), s) == Holds(e, s) && Size(Reread(e, first)) == Size(e)
  {
    match e
    case Lit(_) =>
    case Not(x) => RereadKeeps(x, true, s);
    case Bin(j, l, r) =>
      RereadKeeps(l, false, s);
      RereadKeeps(r, false, s);
      if j.Conj? {
        ChainedKeeps(Reread(l, false), Reread(r, false), s);
      }
  }

  lemma {:induction false} LexBlank(r: string, ready: bool, count: int)
    ensures Tokens(" " + r, ready, count) == Tokens(r, ready, count)
  {
    assert (" " + r)[1..] == r;
    assert SkipSpaces(" " + r) == SkipSpaces(r);
  }

  /** One character that is a token by itself. */
  lemma {:induction false} LexMark(ch: char, r: string, ready: bool, count: int)
    requires if ready then ch in "&|)" && (ch == ')' ==> count > 0) else ch in "!("
    ensures var tok := if ch == '&' then Opr(Amp) else if ch == '|' then Opr(Bar) else if ch == '!' then Opr(Bang)
                       else if ch == '(' then Open else Close;
      Tokens([ch] + r, ready, count) ==
      [tok] + Tokens(r, ch == ')', if ch == '(' then count + 1 else if ch == ')' then count - 1 else count)
  {
    assert ([ch] + r)[1..] == r;
    assert SkipSpaces([ch] + r) == [ch] + r;
  }

  lemma {:induction false} LexSign(j: Junction, r: string, count: int)
    ensures Tokens(Sign(j) + r, true, count) == [Opr(OperOf(j))] + Tokens(r, false, count)
  {
    var ch := if j.Conj? then '&' else '|';
    assert Sign(j) + r == " " + ([ch] + (" " + r));
    LexBlank([ch] + (" " + r), true, count);
    LexMark(ch, " " + r, true, count);
    LexBlank(r, false, count);
  }

  lemma {:induction false} LexOpening(r: string, count: int)
    ensures Tokens("( " + r, false, count) == [Open] + Tokens(r, false, count + 1)
  {
    assert "( " + r == ['('] + (" " + r);
    LexMark('(', " " + r, false, count);
    LexBlank(r, false, count + 1);
  }

  lemma {:induction false} LexClosing(r: string, count: int)
    requires count > 0
    ensures Tokens(" )" + r, true, count) == [Close] + Tokens(r, true, count - 1)
  {
    assert " )" + r == " " + ([')'] + r);
    LexBlank([')'] + r, true, count);
    LexMark(')', r, true, count);
  }

  /** What may follow a printed operand: a blank, or the end of the text outside all parentheses. */
  predicate Follows(rest: string, count: int) {
    if rest == "" then count == 0 else rest[0] == ' '
  }

  lemma {:induction false} DigitRunOf(ds: string, rest: string)
    requires AllDigits(ds) && (rest == "" || !IsDigit(rest[0]))
    ensures DigitRun(ds + rest) == |ds|
  {
    if ds == "" {
      assert ds + rest == rest;
    } else {
      assert (ds + rest)[1..] == ds[1..] + rest;
      DigitRunOf(ds[1..], rest);
    }
  }

  lemma {:induction false} LexNumber(v: int, rest: string, count: int)
    requires IsInt32(v) && Follows(rest, count)
    ensures Tokens(IntText(v) + rest, false, count) == [Val(v)] + Tokens(rest, true, count)
  {
    var w := IntText(v);
    var s := w + rest;
    IntTextRoundTrip(v);
    assert w == (if v < 0 then "-" else [w[0]]) + w[1..];
    assert v < 0 ==> w[1..] == NatText(-v);
    assert SkipSpaces(s) == s;
    assert s[1..] == w[1..] + rest;
    DigitRunOf(w[1..], rest);
    assert s[..|w|] == w && s[|w|..] == rest;
  }

  lemma {:induction false} LexGroup(t: string, y: seq<Token>, rest: string, count: int)
    requires count >= 0
    requires Tokens(t + (" )" + rest), false, count + 1) == y + Tokens(" )" + rest, true, count + 1)
    ensures Tokens("( " + (t + (" )" + rest)), false, count) == ([Open] + y + [Close]) + Tokens(rest, true, count)
  {
    LexOpening(t + (" )" + rest), count);
    LexClosing(rest, count + 1);
  }

  lemma {:induction false} LexInner(x: Expr, rest: string, count: int)
    requires Bare(x) && Narrow(x) && count >= 0
    ensures Tokens("( " + (Render(x, true) + (" )" + rest)), false, count)
         == Yield(Group(Reread(x, true))) + Tokens(rest, true, count)
    decreases x, false, 3
  {
    LexRender(x, true, " )" + rest, count + 1);
    LexGroup(Render(x, true), Yield(Reread(x, true)), rest, count);
  }

  /** The tokens of a printed query are those of its re-association. */
  lemma {:induction false} LexRender(e: Expr, first: bool, rest: string, count: int)
    requires Bare(e) && Narrow(e) && Follows(rest, count) && count >= 0
    ensures Tokens(Render(e, first) + rest, false, count) == Yield(Reread(e, first)) + Tokens(rest, true, count)
    decreases e, !first, 2
  {
    match e
    case Lit(v) => LexNumber(v, rest, count);
    case Not(x) => LexNot(x, rest, count);
    case Bin(j, l, r) =>
      if j.Conj? {
        LexConjunction(e, rest, count);
      } else if first {
        LexBoth(e, rest, count);
      } else {
        LexParenthesized(e, rest, count);
      }
  }

  lemma {:induction false} LexConjunction(e: Expr, rest: string, count: int)
    requires e.Bin? && e.j.Conj? && Bare(e) && Narrow(e) && Follows(rest, count) && count >= 0
    ensures Tokens(Render(e, true) + rest, false, count) == Yield(Reread(e, true)) + Tokens(rest, true, count)
    decreases e, false, 1
  {
    LexBoth(e, rest, count);
    ChainedKeeps(Reread(e.l, false), Reread(e.r, false), {});
    Regroup(Yield(Reread(e.l, false)), [Opr(Amp)], Yield(Reread(e.r, false)));
  }

  lemma {:induction false} LexParenthesized(e: Expr, rest: string, count: int)
    requires e.Bin? && e.j.Disj? && Bare(e) && Narrow(e) && count >= 0
    ensures Tokens(Render(e, false) + rest, false, count) == Yield(Reread(e, false)) + Tokens(rest, true, count)
    decreases e, true, 0
  {
    assert Render(e, false) + rest == "( " + (Render(e, true) + (" )" + rest));
    LexInner(e, rest, count);
  }

  lemma {:induction false} LexNot(x: Expr, rest: string, count: int)
    requires Bare(x) && Narrow(x) && Follows(rest, count) && count >= 0
    ensures Tokens(Render(Not(x), false) + rest, false, count) == Yield(Reread(Not(x), false)) + Tokens(rest, true, count)
    decreases Not(x), false, 0
  {
    if x.Lit? {
      Regroup("!", Render(x, false), rest);
      LexMark('!', Render(x, false) + rest, false, count);
      LexNumber(x.v, rest, count);
      Regroup([Opr(Bang)], Yield(x), Tokens(rest, true, count));
    } else {
      var inner := "( " + (Render(x, true) + (" )" + rest));
      NotText(Render(x, true), rest);
      LexMark('!', inner, false, count);
      LexInner(x, rest, count);
      Regroup([Opr(Bang)], Yield(Group(Reread(x, true))), Tokens(rest, true, count));
    }
  }

  lemma {:induction false} NotText(t: string, rest: string)
    ensures ("!" + ("( " + (t + " )"))) + rest == ['!'] + ("( " + (t + (" )" + rest)))
  {
    Regroup("!", "( " + (t + " )"), rest);
    Regroup("( ", t + " )", rest);
    Regroup(t, " )", rest);
  }

  lemma {:induction false} LexBoth(e: Expr, rest: string, count: int)
    requires e.Bin? && Bare(e) && Narrow(e) && Follows(rest, count) && count >= 0
    ensures Tokens((Render(e.l, false) + (Sign(e.j) + Render(e.r, false))) + rest, false, count)
         == Yield(Reread(e.l, false)) + [Opr(OperOf(e.j))] + Yield(Reread(e.r, false)) + Tokens(rest, true, count)
    decreases e, false, 0
  {
    var l, r := Render(e.l, false), Render(e.r, false);
    assert (l + (Sign(e.j) + r)) + rest == l + (Sign(e.j) + (r + rest));
    LexRender(e.l, false, Sign(e.j) + (r + rest), count);
    LexSign(e.j, r + rest, count);
    LexRender(e.r, false, rest, count);
  }

  /** Printing a query and reading the text back always succeeds and keeps every truth value. */
  lemma {:induction false} PrintParseRoundTrip(e: Expr)
    requires Bare(e) && Narrow(e)
    ensures Denotes(Render(e, true), Reread(e, true))
    ensures forall s :: Holds(Reread(e, true), s) == Holds(e, s)
    ensures Size(Reread(e, true)) == Size(e)
  {
    LexRender(e, true, "", 0);
    assert Render(e, true) + "" == Render(e, true);
    RereadTidy(e);
    TidyGroup(Group(Reread(e, true)));
    forall s ensures Holds(Reread(e, true), s) == Holds(e, s) {
      RereadKeeps(e, true, s);
    }
    RereadKeeps(e, true, {});
  }

  // ----- from text to text -----

  lemma {:induction false} TokensNarrow(text: string, ready: bool, count: int)
    ensures forall i :: 0 <= i < |Tokens(text, ready, count)| ==>
              (Tokens(text, ready, count)[i].Val? ==> IsInt32(Tokens(text, ready, count)[i].v))
    decreases |text|
  {
    var n := NextToken(text, ready, count);
    if !n.tok.End? && !n.tok.Err? {
      TokensNarrow(n.rest, n.ready, n.count);
    }
  }

  lemma {:induction false} YieldNarrow(e: Expr)
    requires forall i :: 0 <= i < |Yield(e)| ==> (Yield(e)[i].Val? ==> IsInt32(Yield(e)[i].v))
    ensures Narrow(e)
  {
    match e
    case Lit(v) => assert Yield(e)[0] == Val(v);
    case Not(x) =>
      assert forall i :: 0 <= i < |Yield(x)| ==> Yield(e)[i + 1] == Yield(x)[i];
      YieldNarrow(x);
    case Bin(_, l, r) =>
      assert forall i :: 0 <= i < |Yield(l)| ==> Yield(e)[i] == Yield(l)[i];
      assert forall i :: 0 <= i < |Yield(r)| ==> Yield(e)[|Yield(l)| + 1 + i] == Yield(r)[i];
      YieldNarrow(l);
      YieldNarrow(r);
    case Group(x) =>
      assert forall i :: 0 <= i < |Yield(x)| ==> Yield(e)[i + 1] == Yield(x)[i];
      YieldNarrow(x);
  }

  lemma {:induction false} DenotedNarrow(text: string, e: Expr)
    requires Denotes(text, e)
    ensures Narrow(e)
  {
    TokensNarrow(text, false, 0);
    var ts := Tokens(text, false, 0);
    assert forall i :: 0 <= i < |Yield(e)| ==> ts[i] == Yield(e)[i];
    YieldNarrow(e);
  }

  /** Right operands never grow when conjunctions re-associate. */
  lemma {:induction false} ChainedNarrowRight(a: Expr, b: Expr)
    requires NarrowRight(a) && NarrowRight(b) && Size(b) <= 0x7fff
    ensures NarrowRight(Chained(a, b))
  {
    if b.Bin? && b.j.Conj? {
      ChainedNarrowRight(a, b.l);
    }
  }

  lemma {:induction false} RereadNarrowRight(e: Expr, first: bool)
    requires Bare(e) && NarrowRight(e)
    ensures NarrowRight(Reread(e, first))
  {
    match e
    case Lit(_) =>
    case Not(x) => RereadNarrowRight(x, true);
    case Bin(j, l, r) =>
      RereadNarrowRight(l, false);
      RereadNarrowRight(r, false);
      RereadKeeps(r, false, {});
      if j.Conj? {
        ChainedNarrowRight(Reread(l, false), Reread(r, false));
      }
  }

  lemma {:induction false} StripNarrowRight(e: Expr)
    ensures NarrowRight(Strip(e)) == NarrowRight(e)
  {
    match e
    case Lit(_) =>
    case Not(x) => StripNarrowRight(x);
    case Bin(_, l, r) =>
      StripNarrowRight(l);
      StripNarrowRight(r);
      StripKeeps(r, {});
    case Group(x) => StripNarrowRight(x);
  }

  lemma {:induction false} SameExecution(e: Expr, f: Expr, s: set<int>)
    requires NarrowRight(e) && NarrowRight(f) && Holds(f, s) == Holds(e, s)
    ensures LinksInside(Stored(e)) && LinksInside(Stored(f))
    ensures Execute(Stored(f), |Stored(f)| - 1, true, InSet(s)) == Execute(Stored(e), |Stored(e)| - 1, true, InSet(s))
  {
    StoredQueryMeans(e, s);
    StoredQueryMeans(f, s);
  }

  lemma {:induction false} ReprintedText(text: string, e: Expr)
    requires Denotes(text, e)
    ensures Bare(Strip(e)) && Denotes(Render(Strip(e), true), Reread(Strip(e), true))
    ensures Size(Reread(Strip(e), true)) == Size(e)
    ensures NarrowRight(e) ==> NarrowRight(Reread(Strip(e), true))
  {
    DenotedNarrow(text, e);
    StripBare(e);
    StripKeeps(e, {});
    PrintParseRoundTrip(Strip(e));
    StripNarrowRight(e);
    if NarrowRight(e) {
      RereadNarrowRight(Strip(e), true);
    }
  }

  /** Any accepted text, printed after parsing, is accepted again; the stored arrays have the same
      number of items, and `execute` finds the same truth value in both for every set. */
  lemma {:induction false} ReprintedTextMeansTheSame(text: string, e: Expr, s: set<int>)
    requires Denotes(text, e)
    ensures Bare(Strip(e)) && Denotes(Render(Strip(e), true), Reread(Strip(e), true))
    ensures var f := Reread(Strip(e), true);
      && |Stored(f)| == |Stored(e)|
      && Holds(f, s) == Holds(e, s)
      && (NarrowRight(e) ==>
            LinksInside(Stored(e)) && LinksInside(Stored(f)) &&
            Execute(Stored(f), |Stored(f)| - 1, true, InSet(s)) == Execute(Stored(e), |Stored(e)| - 1, true, InSet(s)))
  {
    ReprintedText(text, e);
    StripKeeps(e, s);
    RereadKeeps(Strip(e), true, s);
    if NarrowRight(e) {
      SameExecution(e, Reread(Strip(e), true), s);
    }
  }

  // ----- a text whose links are cut off -----

  /** A disjunction of `n + 1` ones. */
  function Ones(n: nat): (e: Expr)
    ensures Size(e) == 2 * n + 1 && Bare(e) && Narrow(e)
  {
    if n == 0 then Lit(1) else Bin(Disj, Ones(n - 1), Lit(1))
  }

  /** `1 & (1 | ... | 1)` with 16385 to 32767 alternatives is accepted, and whatever is stored for it has
      a link that points past the end of the array. */
  lemma {:induction false} WideTextIsAccepted(n: nat) returns (text: string)
    requires 16384 <= n < 32767
    ensures exists e :: Denotes(text, e) && Size(e) <= QUERYTYPEMAXITEMS
    ensures forall e :: Denotes(text, e) ==> !LinksInside(Stored(e))
  {
    var query := Bin(Conj, Lit(1), Ones(n));
    PrintParseRoundTrip(query);
    text := Render(query, true);
    var read, right := Reread(query, true), Reread(Ones(n), false);
    assert read == Bin(Conj, Lit(1), right);
    WideOperandBreaksLink(Lit(1), right);
    forall e | Denotes(text, e) ensures !LinksInside(Stored(e)) {
      DenotesOneMeaning(text, e, read);
    }
  }
}
