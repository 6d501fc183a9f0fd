/** `bqarr_in`: tokenizer and parser as they run, and the pass that adds the back links. */
module BoolInput {
  import opened Sequences
  import opened NumberText
  import opened BoolQuery
  import opened BoolLexer
  import opened BoolParser
  import opened BoolGrammar

  datatype Mode = WaitOperand | WaitEndOperand | WaitOperator

  datatype Status = Fine | Raised(why: Failure)

  lemma {:induction false} SkipTwice(text: string)
    ensures SkipSpaces(SkipSpaces(text)) == SkipSpaces(text)
  {
  }

  lemma {:induction false} TokensStep(text: string, ready: bool, count: int)
    ensures var n, ts := NextToken(text, ready, count), Tokens(text, ready, count);
      && ts[0] == n.tok
      && (n.tok.End? || n.tok.Err? ==> ts == [n.tok])
      && (n.tok.End? ==> Tokens(n.rest, n.ready, n.count) == ts)
      && (!n.tok.End? && !n.tok.Err? ==> ts[1..] == Tokens(n.rest, n.ready, n.count))
  {
    SkipTwice(text);
  }

  /** The parser's step, token by token. */
  lemma {:induction false} MakePolStep(toks: seq<Token>, stack: seq<Oper>, out: seq<Node>)
    requires toks != []
    ensures toks[0].Err? ==> MakePol(toks, stack, out) == Failed(SyntaxError)
    ensures toks[0].End? ==> MakePol(toks, stack, out) == Done(toks, out + PopAll(stack))
    ensures toks[0].Close? ==> MakePol(toks, stack, out) == Done(toks[1..], out + PopAll(stack))
    ensures toks[0].Val? ==>
              MakePol(toks, stack, out) == MakePol(toks[1..], Kept(stack), out + [Value(toks[0].v)] + Popped(stack))
    ensures toks[0].Open? ==> var inner := MakePol(toks[1..], [], out);
              MakePol(toks, stack, out) ==
              if inner.Failed? then inner else MakePol(inner.rest, Kept(stack), inner.out + Popped(stack))
  {
  }

  /** A number being collected: `n` characters of `s` are in the buffer. */
  ghost predicate Collecting(s: string, n: nat, held: string, rest: string) {
    && 1 <= n <= |s| && (IsDigit(s[0]) || s[0] == '-')
    && held == s[..n] && rest == s[n..]
    && DigitRun(s[1..]) == n - 1 + DigitRun(rest)
  }

  lemma {:induction false} CollectOne(s: string, n: nat, held: string, rest: string)
    requires Collecting(s, n, held, rest) && rest != "" && IsDigit(rest[0])
    ensures Collecting(s, n + 1, held + [rest[0]], rest[1..])
  {
    assert s[..n + 1] == s[..n] + [s[n]];
    assert s[n..][1..] == s[n + 1..];
  }

  lemma {:induction false} CollectDone(s: string, n: nat, held: string, rest: string, count: int)
    requires Collecting(s, n, held, rest) && (n >= TOKEN_BUFFER || rest == "" || !IsDigit(rest[0]))
    ensures NumberToken(s, count).tok == NumberOf(held, count, Peek(rest))
    ensures n < TOKEN_BUFFER ==> NumberToken(s, count).rest == rest
  {
  }

  class WorkState {
    const buf: string
    var pos: nat
    var mode: Mode
    var count: int
    var str: seq<Node>

    constructor (text: string)
      ensures buf == text && Valid() && str == []
      ensures Pending() == Tokens(text, false, 0)
    {
      buf, pos, mode, count, str := text, 0, WaitOperand, 0, [];
      new;
      assert buf[0..] == text;
    }

    ghost predicate Valid()
      reads this
    {
      pos <= |buf| && mode != WaitEndOperand
    }

    /** The tokens still to come. */
    ghost function Pending(): seq<Token>
      requires Valid()
      reads this
    {
      Tokens(buf[pos..], mode.WaitOperator?, count)
    }

    /** `gettoken`: its loop, one state at a time. */
    method GetToken() returns (tok: Token)
      requires Valid()
      modifies this
      ensures str == old(str)
      ensures tok == old(NextToken(buf[pos..], mode.WaitOperator?, count)).tok
      ensures !tok.Err? ==> Valid() && old(pos) <= pos && (tok.End? || old(pos) < pos) &&
                            Lexed(tok, buf[pos..], mode.WaitOperator?, count)
                            == old(NextToken(buf[pos..], mode.WaitOperator?, count))
    {
      if mode.WaitOperator? {
        tok := AwaitOperator();
      } else {
        tok := AwaitOperand();
      }
    }

    /** The state WAITOPERATOR. */
    method AwaitOperator() returns (tok: Token)
      requires pos <= |buf| && mode.WaitOperator?
      modifies this
      ensures str == old(str)
      ensures tok == old(NextToken(buf[pos..], true, count)).tok
      ensures !tok.Err? ==> Valid() && old(pos) <= pos && (tok.End? || old(pos) < pos) &&
                            Lexed(tok, buf[pos..], mode.WaitOperator?, count) == old(NextToken(buf[pos..], true, count))
    {
      SkipBlanks();
      var ch := if pos < |buf| then buf[pos] else '\0';
      if ch == '&' || ch == '|' {
        mode := WaitOperand;
        pos := pos + 1;
        return Opr(if ch == '&' then Amp else Bar);
      } else if ch == ')' {
        pos := pos + 1;
        count := count - 1;
        return if count < 0 then Err else Close;
      } else if ch == '\0' {
        return if count != 0 then Err else End;
      }
      return Err;
    }

    /** Both waiting states step over blanks. */
    method SkipBlanks()
      requires pos <= |buf|
      modifies this`pos
      ensures old(pos) <= pos <= |buf| && buf[pos..] == SkipSpaces(old(buf[pos..]))
    {
      while pos < |buf| && buf[pos] == ' '
        invariant old(pos) <= pos <= |buf| && SkipSpaces(buf[pos..]) == SkipSpaces(old(buf[pos..]))
      {
        pos := pos + 1;
      }
    }

    /** The state WAITOPERAND. */
    method AwaitOperand() returns (tok: Token)
      requires pos <= |buf| && mode.WaitOperand?
      modifies this
      ensures str == old(str)
      ensures tok == old(NextToken(buf[pos..], false, count)).tok
      ensures !tok.Err? ==> Valid() && old(pos) < pos &&
                            Lexed(tok, buf[pos..], mode.WaitOperator?, count) == old(NextToken(buf[pos..], false, count))
    {
      SkipBlanks();
      var ch := if pos < |buf| then buf[pos] else '\0';
      if IsDigit(ch) || ch == '-' {
        tok := CollectNumber();
      } else if ch == '!' {
        pos := pos + 1;
        tok := Opr(Bang);
      } else if ch == '(' {
        count := count + 1;
        pos := pos + 1;
        tok := Open;
      } else {
        tok := Err;
      }
    }

    /** The state WAITENDOPERAND, entered with the first character of a number. */
    method CollectNumber() returns (tok: Token)
      requires pos < |buf| && (IsDigit(buf[pos]) || buf[pos] == '-')
      modifies this`pos, this`mode
      ensures tok == old(NumberToken(buf[pos..], count)).tok
      ensures !tok.Err? ==> old(pos) < pos <= |buf| && mode.WaitOperator? &&
                            buf[pos..] == old(NumberToken(buf[pos..], count)).rest
    {
      ghost var s := buf[pos..];
      var nnn := [buf[pos]];
      pos := pos + 1;
      while |nnn| < TOKEN_BUFFER && pos < |buf| && IsDigit(buf[pos])
        invariant |nnn| <= TOKEN_BUFFER && old(pos) < pos <= |buf|
        invariant Collecting(s, |nnn|, nnn, buf[pos..])
        decreases |buf| - pos
      {
        CollectOne(s, |nnn|, nnn, buf[pos..]);
        nnn := nnn + [buf[pos]];
        pos := pos + 1;
      }
      CollectDone(s, |nnn|, nnn, buf[pos..], count);
      tok := NumberOf(nnn, count, if pos < |buf| then buf[pos] else '\0');
      mode := WaitOperator;
    }

    /** `pushquery`: the list is later copied out in the order of the pushes. */
    method PushQuery(node: Node)
      modifies this`str
      ensures str == old(str) + [node]
    {
      str := str + [node];
    }

    /** After an operand: pushes the stacked operators that bind tighter than `|`. */
    method PopTightOperators(stack: array<Oper>, lenstack: nat) returns (len: nat)
      requires lenstack <= stack.Length
      modifies this`str
      ensures len <= lenstack && stack[..len] == Kept(stack[..lenstack])
      ensures str == old(str) + Popped(stack[..lenstack])
    {
      len := lenstack;
      while len > 0 && stack[len - 1] != Bar
        invariant len <= lenstack && Kept(stack[..len]) == Kept(stack[..lenstack])
        invariant str + Popped(stack[..len]) == old(str) + Popped(stack[..lenstack])
      {
        assert stack[..len][..len - 1] == stack[..len - 1];
        len := len - 1;
        PushQuery(Operator(stack[len]));
      }
    }

    method PopAllOperators(stack: array<Oper>, lenstack: nat)
      requires lenstack <= stack.Length
      modifies this`str
      ensures str == old(str) + PopAll(stack[..lenstack])
    {
      var len: nat := lenstack;
      while len > 0
        invariant 0 <= len <= lenstack && str + PopAll(stack[..len]) == old(str) + PopAll(stack[..lenstack])
      {
        assert stack[..len][..len - 1] == stack[..len - 1];
        len := len - 1;
        PushQuery(Operator(stack[len]));
      }
    }

    /** A value is pushed together with the operators that bind tighter than `|`; an operator is
        stacked, or pushed if it is a `|` that follows another at this level. */
    method TakeToken(tok: Token, stack: array<Oper>, lenstack: nat, ghost toks: seq<Token>) returns (len: nat, full: bool)
      requires lenstack <= stack.Length == STACKDEPTH
      requires (tok.Val? || tok.Opr?) && toks != [] && toks[0] == tok
      modifies this`str, stack
      ensures len <= STACKDEPTH
      ensures MakePol(toks, old(stack[..lenstack]), old(str)) ==
              if full then Failed(TooComplex) else MakePol(toks[1..], stack[..len], str)
    {
      len, full := lenstack, false;
      if tok.Val? {
        PushQuery(Value(tok.v));
        len := PopTightOperators(stack, lenstack);
      } else if lenstack > 0 && tok.op == Bar {
        PushQuery(Operator(tok.op));
      } else if lenstack == STACKDEPTH {
        full := true;
      } else {
        stack[lenstack] := tok.op;
        len := lenstack + 1;
        assert stack[..len] == old(stack[..lenstack]) + [tok.op];
      }
    }

    /** The parser stands where `o` says, not before `from`. */
    ghost predicate Agrees(o: Outcome, status: Status, from: nat)
      reads this
    {
      if o.Failed? then status == Raised(o.why)
      else status == Fine && Valid() && from <= pos && str == o.out && Pending() == o.rest
    }

    /** `makepol`. */
    method MakePolish() returns (status: Status)
      requires Valid()
      modifies this
      ensures Agrees(MakePol(old(Pending()), [], old(str)), status, old(pos))
      decreases |buf| - pos
    {
      var stack := new Oper[STACKDEPTH];
      var lenstack: nat := 0;
      ghost var toks, from := Pending(), pos;
      ghost var want := MakePol(toks, [], str);
      assert stack[..0] == [];
      while true
        invariant Valid() && from <= pos && lenstack <= STACKDEPTH
        invariant want == MakePol(Pending(), stack[..lenstack], str)
        decreases |buf| - pos
      {
        toks := Pending();
        TokensStep(buf[pos..], mode.WaitOperator?, count);
        MakePolStep(toks, stack[..lenstack], str);
        var tok := GetToken();
        if tok.Err? {
          return Raised(SyntaxError);
        } else if tok.End? || tok.Close? {
          PopAllOperators(stack, lenstack);
          return Fine;
        } else if tok.Open? {
          status := MakePolish();
          if status.Raised? { return; }
          lenstack := PopTightOperators(stack, lenstack);
        } else {
          var full;
          lenstack, full := TakeToken(tok, stack, lenstack, toks);
          if full { return Raised(TooComplex); }
        }
      }
    }
  }

  // ----- back links -----

  /** Conversion to a 16-bit integer. */
  function Int16(n: int): int {
    (n + 0x8000) % 0x1_0000 - 0x8000
  }

  /** The array as stored: every offset cut to 16 bits. */
  function Stored(e: Expr): (p: seq<Item>)
    ensures |p| == Size(e)
  {
    match e
    case Lit(v) => [Item(Value(v), 0)]
    case Not(x) => Stored(x) + [Item(Operator(Bang), -1)]
    case Bin(j, l, r) => Stored(l) + Stored(r) + [Item(Operator(OperOf(j)), Int16(-1 - Size(r)))]
    case Group(x) => Stored(x)
  }

  ghost predicate Spells(ptr: seq<Item>, base: nat, p: seq<Node>) {
    base + |p| <= |ptr| && forall i :: 0 <= i < |p| ==> ptr[base + i].node == p[i]
  }

  lemma {:induction false} SpellsParts(ptr: seq<Item>, base: nat, a: seq<Node>, b: seq<Node>)
    requires Spells(ptr, base, a + b)
    ensures Spells(ptr, base, a) && Spells(ptr, base + |a|, b)
  {
    assert forall i :: 0 <= i < |a| ==> (a + b)[i] == a[i];
    forall i | 0 <= i < |b| ensures ptr[base + |a| + i].node == b[i] {
      assert (a + b)[|a| + i] == b[i];
    }
  }

  lemma {:induction false} SpellsBin(ptr: seq<Item>, base: nat, x: Expr)
    requires x.Bin? && Spells(ptr, base, Postfix(x))
    ensures Spells(ptr, base, Postfix(x.l)) && Spells(ptr, base + Size(x.l), Postfix(x.r))
    ensures ptr[base + Size(x) - 1].node == Operator(OperOf(x.j))
  {
    var op := [Operator(OperOf(x.j))];
    SpellsParts(ptr, base, Postfix(x.l) + Postfix(x.r), op);
    SpellsParts(ptr, base, Postfix(x.l), Postfix(x.r));
    assert ptr[base + Size(x) - 1].node == op[0];
  }

  lemma {:induction false} SpellsKept(before: seq<Item>, after: seq<Item>, base: nat, p: seq<Node>, hi: int)
    requires Spells(before, base, p) && SameOutside(before, after, base + |p|, hi)
    ensures Spells(after, base, p)
  {
  }

  /** Right operand linked, operator linked, then the left operand linked below them. */
  lemma {:induction false} StoredBoth(before: seq<Item>, after: seq<Item>, base: nat, x: Expr)
    requires x.Bin? && At(before, base + Size(x.l), Stored(x.r))
    requires base + Size(x) <= |before|
    requires before[base + Size(x) - 1] == Item(Operator(OperOf(x.j)), Int16(-1 - Size(x.r)))
    requires At(after, base, Stored(x.l)) && SameOutside(before, after, base, base + Size(x.l))
    ensures At(after, base, Stored(x))
  {
    AtKept(before, after, base + Size(x.l), Stored(x.r), base, base + Size(x.l));
    AtJoin(after, base, Stored(x.l), Stored(x.r));
    AtJoin(after, base, Stored(x.l) + Stored(x.r), [before[base + Size(x) - 1]]);
  }

  function Ungroup(e: Expr): (x: Expr)
    ensures !x.Group? && Postfix(x) == Postfix(e) && Stored(x) == Stored(e) && Size(x) == Size(e)
    ensures x == e || x < e
  {
    if e.Group? then Ungroup(e.e) else e
  }

  /** `findoprnd`: links the operand that ends at `pos` and returns the position before it. */
  method FindOperand(ptr: array<Item>, pos: int, ghost base: nat, ghost e: Expr) returns (next: int)
    requires pos == base + Size(e) - 1 && Spells(ptr[..], base, Postfix(e))
    modifies ptr
    ensures next == base - 1 && At(ptr[..], base, Stored(e))
    ensures SameOutside(old(ptr[..]), ptr[..], base, pos + 1)
    decreases e
  {
    ghost var x := Ungroup(e);
    assert ptr[..][pos].node == Postfix(x)[Size(x) - 1];
    var node := ptr[pos].node;
    if node.Value? {
      ptr[pos] := Item(node, 0);
      next := pos - 1;
    } else if node.op == Bang {
      SpellsParts(ptr[..], base, Postfix(x.e), [Operator(Bang)]);
      ptr[pos] := Item(node, -1);
      next := FindOperand(ptr, pos - 1, base, x.e);
      AtJoin(ptr[..], base, Stored(x.e), [Item(node, -1)]);
    } else {
      next := FindBoth(ptr, pos, base, x);
    }
  }

  /** The last branch of `findoprnd`: right operand, link, left operand. */
  method FindBoth(ptr: array<Item>, pos: int, ghost base: nat, ghost x: Expr) returns (next: int)
    requires x.Bin? && pos == base + Size(x) - 1 && Spells(ptr[..], base, Postfix(x))
    modifies ptr
    ensures next == base - 1 && At(ptr[..], base, Stored(x))
    ensures SameOutside(old(ptr[..]), ptr[..], base, pos + 1)
    decreases x, 0
  {
    SpellsBin(ptr[..], base, x);
    var tmp := pos;
    next := FindOperand(ptr, pos - 1, base + Size(x.l), x.r);
    ptr[pos] := Item(ptr[pos].node, Int16(next - tmp));
    ghost var before := ptr[..];
    SpellsKept(old(ptr[..]), before, base, Postfix(x.l), pos + 1);
    next := FindOperand(ptr, next, base, x.l);
    StoredBoth(before, ptr[..], base, x);
  }

  // ----- bqarr_in -----

  const QUERYTYPEMAXITEMS := (0x3fffffff - 8) / 8

  datatype Input = Query(items: seq<Item>) | Rejected(why: Failure) | Empty | TooManyItems

  /** The text is written with exactly the tokens of `e`, which is grammatical and fits the stack. */
  ghost predicate Denotes(text: string, e: Expr) {
    Grammatical(e, Whole) && Fits(e, 0) && Tokens(text, false, 0) == Yield(e) + [End]
  }

  method BqarrIn(text: string) returns (r: Input)
    ensures r.Query? <==> exists e :: Denotes(text, e) && Size(e) <= QUERYTYPEMAXITEMS
    ensures r.Query? ==> exists e :: Denotes(text, e) && r.items == Stored(e)
    ensures r.TooManyItems? <==> exists e :: Denotes(text, e) && Size(e) > QUERYTYPEMAXITEMS
    ensures r.Rejected? ==> (forall e :: !Denotes(text, e)) && MakePol(Tokens(text, false, 0), [], []) == Failed(r.why)
    ensures !r.Empty?
  {
    ghost var o := MakePol(Tokens(text, false, 0), [], []);
    var state := new WorkState(text);
    var status := state.MakePolish();
    if status.Raised? {
      NothingDenoted(text);
      return Rejected(status.why);
    }
    ghost var e := ParsedQuery(text);
    SameSize(text, e);
    assert Denotes(text, e) && |state.str| == Size(e);
    if |state.str| == 0 { return Empty; }
    if |state.str| > QUERYTYPEMAXITEMS { return TooManyItems; }
    var ptr := new Item[|state.str|](i requires 0 <= i < |state.str| reads state => Item(state.str[i], 0));
    var pos := FindOperand(ptr, |state.str| - 1, 0, e);
    AtWhole(ptr[..], Stored(e));
    return Query(ptr[..]);
  }

  lemma {:induction false} NothingDenoted(text: string)
    requires MakePol(Tokens(text, false, 0), [], []).Failed?
    ensures forall e :: !Denotes(text, e)
  {
    forall e | Denotes(text, e) ensures false {
      ParserComplete(e);
    }
  }

  lemma {:induction false} SameSize(text: string, e: Expr)
    requires Denotes(text, e)
    ensures forall f :: Denotes(text, f) ==> Size(f) == Size(e)
  {
    ParserComplete(e);
    forall f | Denotes(text, f) ensures Size(f) == Size(e) {
      ParserComplete(f);
    }
  }

  // ----- a text has one meaning -----

  function Strip(e: Expr): Expr {
    match e
    case Lit(_) => e
    case Not(x) => Not(Strip(x))
    case Bin(j, l, r) => Bin(j, Strip(l), Strip(r))
    case Group(x) => Strip(x)
  }

  lemma {:induction false} StripKeeps(e: Expr, s: set<int>)
    ensures Holds(Strip(e), s) == Holds(e, s)
    ensures Postfix(Strip(e)) == Postfix(e) && Size(Strip(e)) == Size(e)
    ensures Stored(Strip(e)) == Stored(e)
  {
    match e
    case Lit(_) =>
    case Not(x) => StripKeeps(x, s);
    case Bin(_, l, r) => StripKeeps(l, s); StripKeeps(r, s);
    case Group(x) => StripKeeps(x, s);
  }

  /** Reading a postfix array from its end finds one query only. */
  lemma {:induction false} PostfixUnique(a: seq<Node>, e: Expr, b: seq<Node>, f: Expr)
    requires a + Postfix(e) == b + Postfix(f)
    ensures Strip(e) == Strip(f) && a == b
    decreases e, f
  {
    assert (a + Postfix(e))[|a| + Size(e) - 1] == Postfix(e)[Size(e) - 1];
    assert (b + Postfix(f))[|b| + Size(f) - 1] == Postfix(f)[Size(f) - 1];
    if e.Group? {
      PostfixUnique(a, e.e, b, f);
    } else if f.Group? {
      PostfixUnique(a, e, b, f.e);
    } else if e.Lit? {
      assert (a + Postfix(e))[..|a|] == a && (b + Postfix(f))[..|b|] == b;
    } else if e.Not? {
      DropLast(a, Postfix(e.e), b, Postfix(f.e), Operator(Bang));
      PostfixUnique(a, e.e, b, f.e);
    } else {
      DropLast(a, Postfix(e.l) + Postfix(e.r), b, Postfix(f.l) + Postfix(f.r), Operator(OperOf(e.j)));
      assert (a + Postfix(e.l)) + Postfix(e.r) == a + (Postfix(e.l) + Postfix(e.r));
      assert (b + Postfix(f.l)) + Postfix(f.r) == b + (Postfix(f.l) + Postfix(f.r));
      PostfixUnique(a + Postfix(e.l), e.r, b + Postfix(f.l), f.r);
      PostfixUnique(a, e.l, b, f.l);
    }
  }

  lemma {:induction false} DropLast(a: seq<Node>, p: seq<Node>, b: seq<Node>, q: seq<Node>, last: Node)
    requires a + (p + [last]) == b + (q + [last])
    ensures a + p == b + q
  {
    assert a + (p + [last]) == (a + p) + [last];
    assert b + (q + [last]) == (b + q) + [last];
    assert ((a + p) + [last])[..|a + p|] == a + p;
    assert ((b + q) + [last])[..|b + q|] == b + q;
  }

  lemma {:induction false} DenotesOneMeaning(text: string, e: Expr, f: Expr)
    requires Denotes(text, e) && Denotes(text, f)
    ensures Strip(e) == Strip(f)
    ensures forall s :: Holds(e, s) == Holds(f, s)
    ensures Stored(e) == Stored(f)
  {
    ParserComplete(e);
    ParserComplete(f);
    PostfixUnique([], e, [], f);
    forall s ensures Holds(e, s) == Holds(f, s) {
      StripKeeps(e, s);
      StripKeeps(f, s);
    }
    StripKeeps(e, {});
    StripKeeps(f, {});
  }

  // ----- when 16 bits are enough -----

  /** Every right operand has at most 32767 items. */
  predicate NarrowRight(e: Expr) {
    match e
    case Lit(_) => true
    case Not(x) => NarrowRight(x)
    case Bin(_, l, r) => NarrowRight(l) && NarrowRight(r) && Size(r) <= 0x7fff
    case Group(x) => NarrowRight(x)
  }

  /** The stored links are the true offsets exactly when every right operand is narrow. */
  lemma {:induction false} StoredExact(e: Expr)
    ensures Stored(e) == Linked(e) <==> NarrowRight(e)
  {
    match e
    case Lit(_) =>
    case Not(x) =>
      StoredExact(x);
      ConcatEqual(Stored(x), Linked(x), [Item(Operator(Bang), -1)], [Item(Operator(Bang), -1)]);
    case Bin(j, l, r) =>
      StoredExact(l);
      StoredExact(r);
      var a, b := Item(Operator(OperOf(j)), Int16(-1 - Size(r))), Item(Operator(OperOf(j)), -1 - Size(r));
      ConcatEqual(Stored(l) + Stored(r), Linked(l) + Linked(r), [a], [b]);
      ConcatEqual(Stored(l), Linked(l), Stored(r), Linked(r));
    case Group(x) => StoredExact(x);
  }

  lemma {:induction false} ConcatEqual<T>(a: seq<T>, b: seq<T>, c: seq<T>, d: seq<T>)
    requires |a| == |b|
    ensures a + c == b + d <==> a == b && c == d
  {
    if a + c == b + d {
      assert a == (a + c)[..|a|] && b == (b + d)[..|b|];
      assert c == (a + c)[|a|..] && d == (b + d)[|b|..];
    }
  }

  /** Then `execute` on the stored array is the standard truth value. */
  lemma {:induction false} StoredQueryMeans(e: Expr, s: set<int>)
    requires NarrowRight(e)
    ensures LinksInside(Stored(e)) && Execute(Stored(e), |Stored(e)| - 1, true, InSet(s)) == Holds(e, s)
  {
    StoredExact(e);
    ExecuteIsHolds(e, s);
  }

  /** So is the test that an index makes on it, for the query without its outermost negated operands. */
  lemma {:induction false} StoredTestExactly(e: Expr, s: set<int>, w: int, chk: (nat, int) -> bool)
    requires NarrowRight(e) && Accepts(chk, e, s) && w !in Values(e)
    ensures LinksInside(Stored(e))
    ensures Execute(Stored(e), |Stored(e)| - 1, false, chk) == Holds(Affirmed(e, w), s + {w})
    ensures NoNegation(e) ==> Execute(Stored(e), |Stored(e)| - 1, false, chk) == Holds(e, s)
  {
    StoredExact(e);
    TestExactly(e, s, w, chk);
  }

  /** A right operand of 32768 to 65534 items: the link of a conjunction at the root points past
      the end of the array. */
  lemma {:induction false} WideOperandBreaksLink(l: Expr, r: Expr)
    requires 0x7fff < Size(r) < 0xffff
    ensures var e := Bin(Conj, l, r);
      Size(e) - 1 + Stored(e)[Size(e) - 1].left >= |Stored(e)| && !LinksInside(Stored(e))
  {
    var both := Stored(l) + Stored(r);
    var last := Item(Operator(Amp), Int16(-1 - Size(r)));
    assert Stored(Bin(Conj, l, r)) == both + [last];
    assert (both + [last])[|both|] == last;
  }
}
