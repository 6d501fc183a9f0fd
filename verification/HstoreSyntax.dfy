/** The text form of an hstore: the two state machines that read it, a grammar of the texts, and the
    proof that the machines accept exactly the grammar. */
module HstoreSyntax {
  import opened Hstore
  import opened Sequences

  const MAX_LEN := 0x3fff_ffff

  /** The word buffer doubles from 32 bytes and the array of pairs, of 40 bytes each, from 16 elements; a word
      of `MAX_WORD` characters and `MAX_PAIRS` pairs are the most that fit before the next doubling exceeds
      one allocation. */
  const MAX_WORD := 0x1fff_ffff
  const MAX_PAIRS := 0x100_0000

  datatype Error = UnexpectedEnd | SyntaxError | TooLong | OutOfMemory

  predicate IsSpace(c: char) {
    c == ' ' || '\t' <= c <= '\r'
  }

  // ----- get_val -----

  datatype Scan = WaitVal | InVal | InEscVal | WaitEscIn | WaitEscEscIn

  datatype Got = NoWord | Bad(error: Error) | Got(word: string, escaped: bool, rest: string)

  /** The machine from state `st` on the text `t`, with the characters `w` collected so far. An `=` ends a
      key, a `,` ends a value (`ignoreeq`). */
  function Run(st: Scan, t: string, ignoreeq: bool, w: string): (g: Got)
    ensures g.Got? ==> |g.rest| <= |t| && (st == WaitVal ==> |g.rest| < |t|)
    decreases |t|
  {
    if t == "" then
      if st == WaitVal then NoWord
      else if st == InVal then Got(w, false, t)
      else Bad(UnexpectedEnd)
    else
      var c, u := t[0], t[1..];
      match st
      case WaitVal =>
        if c == '"' then Run(InEscVal, u, ignoreeq, w)
        else if c == '=' && !ignoreeq then Bad(SyntaxError)
        else if c == '\\' then Run(WaitEscIn, u, ignoreeq, w)
        else if !IsSpace(c) then Run(InVal, u, ignoreeq, w + [c])
        else Run(WaitVal, u, ignoreeq, w)
      case InVal =>
        if c == '\\' then Run(WaitEscIn, u, ignoreeq, w)
        else if (c == '=' && !ignoreeq) || (c == ',' && ignoreeq) then Got(w, false, t)
        else if IsSpace(c) then Got(w, false, u)
        else if |w| < MAX_WORD then Run(InVal, u, ignoreeq, w + [c])
        else Bad(OutOfMemory)
      case InEscVal =>
        if c == '\\' then Run(WaitEscEscIn, u, ignoreeq, w)
        else if c == '"' then Got(w, true, u)
        else if |w| < MAX_WORD then Run(InEscVal, u, ignoreeq, w + [c])
        else Bad(OutOfMemory)
      case WaitEscIn => if |w| < MAX_WORD then Run(InVal, u, ignoreeq, w + [c]) else Bad(OutOfMemory)
      case WaitEscEscIn => if |w| < MAX_WORD then Run(InEscVal, u, ignoreeq, w + [c]) else Bad(OutOfMemory)
  }

  function Lower(c: char): char {
    if 'A' <= c <= 'Z' then c - 'A' + 'a' else c
  }

  /** An unquoted word of four letters that spells null in any case. */
  predicate SpellsNull(w: string, escaped: bool) {
    !escaped && |w| == 4 && Lower(w[0]) == 'n' && Lower(w[1]) == 'u' && Lower(w[2]) == 'l' && Lower(w[3]) == 'l'
  }

  // ----- parse_hstore -----

  datatype Phase = WKey | WEq | WGt | WVal | WDel

  datatype Parse = Fail(error: Error) | Accept(pairs: seq<Pair>)

  /** The outer machine: `key` is the key whose value is awaited, `ps` the finished pairs. */
  function Read(st: Phase, t: string, key: string, ps: seq<Pair>): Parse
    decreases |t|
  {
    match st
    case WKey => (
      match Run(WaitVal, t, false, "")
      case NoWord => Accept(ps)
      case Bad(e) => Fail(e)
      case Got(w, _, rest) =>
        if |ps| >= MAX_PAIRS then Fail(OutOfMemory)
        else if |w| > MAX_LEN then Fail(TooLong)
        else Read(WEq, rest, w, ps))
    case WEq =>
      if t == "" then Fail(UnexpectedEnd)
      else if t[0] == '=' then Read(WGt, t[1..], key, ps)
      else if IsSpace(t[0]) then Read(WEq, t[1..], key, ps)
      else Fail(SyntaxError)
    case WGt =>
      if t == "" then Fail(UnexpectedEnd)
      else if t[0] == '>' then Read(WVal, t[1..], key, ps)
      else Fail(SyntaxError)
    case WVal => (
      match Run(WaitVal, t, true, "")
      case NoWord => Fail(UnexpectedEnd)
      case Bad(e) => Fail(e)
      case Got(w, escaped, rest) =>
        if |w| > MAX_LEN then Fail(TooLong)
        else Read(WDel, rest, "", ps + [Pair(key, if SpellsNull(w, escaped) then Null else Text(w))]))
    case WDel =>
      if t == "" then Accept(ps)
      else if t[0] == ',' then Read(WKey, t[1..], "", ps)
      else if IsSpace(t[0]) then Read(WDel, t[1..], "", ps)
      else Fail(SyntaxError)
  }

  // ----- the grammar -----

  /** A character as it stands or behind a backslash. */
  datatype Letter = Plain(c: char) | Escaped(c: char)

  datatype Word = Quoted(ls: seq<Letter>) | Bare(ls: seq<Letter>)

  /** Blanks, key, blanks, =>, blanks, value, blanks. */
  datatype Item = Item(g1: string, key: Word, g2: string, g3: string, val: Word, g4: string)

  /** Items separated by commas; the last comma may be followed by blanks only. */
  datatype Doc = End(gap: string) | Last(item: Item) | More(item: Item, rest: Doc)

  function Letters(ls: seq<Letter>): string {
    if ls == [] then "" else Spell(ls[0]) + Letters(ls[1..])
  }

  function Spell(l: Letter): string {
    if l.Plain? then [l.c] else ['\\', l.c]
  }

  function Chars(ls: seq<Letter>): (s: string)
    ensures |s| == |ls|
  {
    if ls == [] then "" else [ls[0].c] + Chars(ls[1..])
  }

  function WordText(w: Word): string {
    if w.Quoted? then "\"" + (Letters(w.ls) + "\"") else Letters(w.ls)
  }

  /** The text of an item followed by `tail`. */
  function ItemText(i: Item, tail: string): string {
    i.g1 + (WordText(i.key) + (i.g2 + ("=" + (">" + (i.g3 + (WordText(i.val) + (i.g4 + tail)))))))
  }

  function DocText(d: Doc): string {
    match d
    case End(gap) => gap
    case Last(i) => ItemText(i, "")
    case More(i, r) => ItemText(i, "," + DocText(r))
  }

  function WordValue(w: Word): Value {
    if SpellsNull(Chars(w.ls), w.Quoted?) then Null else Text(Chars(w.ls))
  }

  predicate Either(c: char, small: char, capital: char) {
    c == small || c == capital
  }

  /** A word stands for a null if and only if it is not quoted and its letters are n, u, l, l, each in either case;
      otherwise for the text of its letters. */
  lemma {:induction false} NullExactly(w: Word)
    ensures WordValue(w) == Null <==>
            w.Bare? && |w.ls| == 4 && Either(w.ls[0].c, 'n', 'N') && Either(w.ls[1].c, 'u', 'U') &&
            Either(w.ls[2].c, 'l', 'L') && Either(w.ls[3].c, 'l', 'L')
    ensures WordValue(w) == Null || WordValue(w) == Text(Chars(w.ls))
  {
    forall i | 0 <= i < |w.ls| ensures Chars(w.ls)[i] == w.ls[i].c {
      CharsAt(w.ls, i);
    }
  }

  lemma {:induction false} CharsAt(ls: seq<Letter>, i: nat)
    requires i < |ls|
    ensures Chars(ls)[i] == ls[i].c
  {
    if i > 0 {
      CharsAt(ls[1..], i - 1);
    }
  }

  /** The blanks between words are those of the C locale. */
  lemma {:induction false} BlankExactly(c: char)
    ensures IsSpace(c) <==> c as int in {9, 10, 11, 12, 13, 32}
  {
  }

  function Meaning(d: Doc): seq<Pair> {
    match d
    case End(_) => []
    case Last(i) => [Pair(Chars(i.key.ls), WordValue(i.val))]
    case More(i, r) => [Pair(Chars(i.key.ls), WordValue(i.val))] + Meaning(r)
  }

  predicate Blank(s: string) {
    forall i :: 0 <= i < |s| ==> IsSpace(s[i])
  }

  /** What ends an unquoted word. */
  predicate EndsBare(c: char, ignoreeq: bool) {
    IsSpace(c) || c == (if ignoreeq then ',' else '=')
  }

  predicate InQuotes(ls: seq<Letter>) {
    forall i :: 0 <= i < |ls| && ls[i].Plain? ==> ls[i].c != '\\' && ls[i].c != '"'
  }

  predicate InBare(ls: seq<Letter>, ignoreeq: bool) {
    forall i :: 0 <= i < |ls| && ls[i].Plain? ==> ls[i].c != '\\' && !EndsBare(ls[i].c, ignoreeq)
  }

  /** An unquoted word must not start with a quote; its first letter may be a comma even in a value. */
  predicate StartsBare(l: Letter, ignoreeq: bool) {
    l.Plain? ==> l.c != '\\' && l.c != '"' && !IsSpace(l.c) && (l.c == '=' ==> ignoreeq)
  }

  predicate WordOk(w: Word, ignoreeq: bool) {
    && |w.ls| <= MAX_WORD
    && if w.Quoted? then InQuotes(w.ls)
       else w.ls != [] && StartsBare(w.ls[0], ignoreeq) && InBare(w.ls[1..], ignoreeq)
  }

  predicate ItemOk(i: Item) {
    && Blank(i.g1) && Blank(i.g2) && Blank(i.g3) && Blank(i.g4)
    && WordOk(i.key, false) && WordOk(i.val, true)
  }

  predicate DocOk(d: Doc) {
    match d
    case End(gap) => Blank(gap)
    case Last(i) => ItemOk(i)
    case More(i, r) => ItemOk(i) && DocOk(r)
  }

  // ----- every text of the grammar is read as its meaning -----

  lemma {:induction false} RunBlank(g: string, t: string, ignoreeq: bool)
    requires Blank(g)
    ensures Run(WaitVal, g + t, ignoreeq, "") == Run(WaitVal, t, ignoreeq, "")
  {
    if g == "" {
      assert g + t == t;
    } else {
      assert (g + t)[0] == g[0] && (g + t)[1..] == g[1..] + t;
      RunBlank(g[1..], t, ignoreeq);
    }
  }

  /** One letter inside a word, quoted or not. */
  lemma {:induction false} RunLetter(st: Scan, l: Letter, t: string, ignoreeq: bool, w: string)
    requires st == InVal || st == InEscVal
    requires |w| < MAX_WORD && if st == InVal then InBare([l], ignoreeq) else InQuotes([l])
    ensures Run(st, Spell(l) + t, ignoreeq, w) == Run(st, t, ignoreeq, w + [l.c])
  {
    assert [l][0] == l;
    var s := Spell(l) + t;
    if l.Plain? {
      assert s[0] == l.c && s[1..] == t;
    } else {
      assert s[0] == '\\' && s[1..][0] == l.c && s[1..][1..] == t;
    }
  }

  lemma {:induction false} LettersCons(ls: seq<Letter>, t: string)
    requires ls != []
    ensures Letters(ls) + t == Spell(ls[0]) + (Letters(ls[1..]) + t)
  {
    Regroup(Spell(ls[0]), Letters(ls[1..]), t);
  }

  /** Putting one more letter in front. */
  lemma {:induction false} MoreLetters(l: Letter, rest: seq<Letter>, tail: string, t: string, w: string)
    requires t == Spell(l) + (Letters(rest) + tail)
    ensures t == Letters([l] + rest) + tail && w + Chars([l] + rest) == (w + [l.c]) + Chars(rest)
  {
    var ls := [l] + rest;
    assert ls[0] == l && ls[1..] == rest;
    LettersCons(ls, tail);
    Regroup(w, [l.c], Chars(rest));
  }

  lemma {:induction false} RunLetters(st: Scan, ls: seq<Letter>, t: string, ignoreeq: bool, w: string)
    requires st == InVal || st == InEscVal
    requires |w| + |ls| <= MAX_WORD && if st == InVal then InBare(ls, ignoreeq) else InQuotes(ls)
    ensures Run(st, Letters(ls) + t, ignoreeq, w) == Run(st, t, ignoreeq, w + Chars(ls))
    decreases |ls|
  {
    if ls == [] {
      assert Letters(ls) + t == t && w + Chars(ls) == w;
    } else {
      LettersCons(ls, t);
      RunLetter(st, ls[0], Letters(ls[1..]) + t, ignoreeq, w);
      RunLetters(st, ls[1..], t, ignoreeq, w + [ls[0].c]);
      Regroup(w, [ls[0].c], Chars(ls[1..]));
    }
  }

  /** The rest after a word: an unquoted word may take one blank behind it along. */
  ghost predicate Leaves(rest: string, t: string) {
    rest == t || (t != "" && IsSpace(t[0]) && rest == t[1..])
  }

  lemma {:induction false} RunQuoted(ls: seq<Letter>, t: string, ignoreeq: bool)
    requires InQuotes(ls) && |ls| <= MAX_WORD
    ensures Run(WaitVal, WordText(Quoted(ls)) + t, ignoreeq, "") == Got(Chars(ls), true, t)
  {
    var s := WordText(Quoted(ls)) + t;
    assert s[0] == '"';
    assert s[1..] == Letters(ls) + ("\"" + t);
    RunLetters(InEscVal, ls, "\"" + t, ignoreeq, "");
    assert ("\"" + t)[1..] == t && "" + Chars(ls) == Chars(ls);
  }

  lemma {:induction false} RunBare(ls: seq<Letter>, t: string, ignoreeq: bool)
    requires ls != [] && StartsBare(ls[0], ignoreeq) && InBare(ls[1..], ignoreeq) && |ls| <= MAX_WORD
    requires t == "" || EndsBare(t[0], ignoreeq)
    ensures var g := Run(WaitVal, WordText(Bare(ls)) + t, ignoreeq, "");
      g.Got? && g.word == Chars(ls) && !g.escaped && Leaves(g.rest, t)
  {
    LettersCons(ls, t);
    RunFirst(ls[0], Letters(ls[1..]) + t, ignoreeq);
    RunLetters(InVal, ls[1..], t, ignoreeq, [ls[0].c]);
    RunEnd(t, ignoreeq, Chars(ls));
  }

  lemma {:induction false} RunFirst(l: Letter, u: string, ignoreeq: bool)
    requires StartsBare(l, ignoreeq)
    ensures Run(WaitVal, Spell(l) + u, ignoreeq, "") == Run(InVal, u, ignoreeq, [l.c])
  {
    var s := Spell(l) + u;
    assert "" + [l.c] == [l.c];
    if l.Plain? {
      assert s[0] == l.c && s[1..] == u;
    } else {
      assert s[0] == '\\' && s[1..][0] == l.c && s[1..][1..] == u;
    }
  }

  lemma {:induction false} RunEnd(t: string, ignoreeq: bool, w: string)
    requires t == "" || EndsBare(t[0], ignoreeq)
    ensures var g := Run(InVal, t, ignoreeq, w); g.Got? && g.word == w && !g.escaped && Leaves(g.rest, t)
  {
  }

  lemma {:induction false} RunWord(w: Word, t: string, ignoreeq: bool)
    requires WordOk(w, ignoreeq) && (t == "" || EndsBare(t[0], ignoreeq))
    ensures var g := Run(WaitVal, WordText(w) + t, ignoreeq, "");
      g.Got? && g.word == Chars(w.ls) && g.escaped == w.Quoted? && Leaves(g.rest, t)
  {
    if w.Quoted? {
      RunQuoted(w.ls, t, ignoreeq);
    } else {
      RunBare(w.ls, t, ignoreeq);
    }
  }

  /** After a word the machine skips blanks, so taking one along makes no difference. */
  lemma {:induction false} ReadLeaves(st: Phase, rest: string, t: string, key: string, ps: seq<Pair>)
    requires (st == WEq || (st == WDel && key == "")) && Leaves(rest, t)
    ensures Read(st, rest, key, ps) == Read(st, t, key, ps)
  {
  }

  lemma {:induction false} ReadBlank(st: Phase, g: string, t: string, key: string, ps: seq<Pair>)
    requires (st == WEq || (st == WDel && key == "")) && Blank(g)
    ensures Read(st, g + t, key, ps) == Read(st, t, key, ps)
    decreases |g|
  {
    if g == "" {
      assert g + t == t;
    } else {
      assert (g + t)[0] == g[0] && (g + t)[1..] == g[1..] + t;
      ReadBlank(st, g[1..], t, key, ps);
    }
  }

  lemma {:induction false} HeadOf(g: string, t: string, ignoreeq: bool)
    requires Blank(g) && (t == "" || EndsBare(t[0], ignoreeq))
    ensures g + t == "" || EndsBare((g + t)[0], ignoreeq)
  {
    if g != "" {
      assert (g + t)[0] == g[0];
    } else {
      assert g + t == t;
    }
  }

  lemma {:induction false} ReadKey(g: string, w: Word, g2: string, t: string, ps: seq<Pair>)
    requires Blank(g) && Blank(g2) && WordOk(w, false)
    ensures var r := Read(WKey, g + (WordText(w) + (g2 + ("=" + (">" + t)))), "", ps);
      r == if |ps| < MAX_PAIRS then Read(WVal, t, Chars(w.ls), ps) else Fail(OutOfMemory)
  {
    var a := "=" + (">" + t);
    var b := g2 + a;
    assert a[0] == '=';
    HeadOf(g2, a, false);
    RunBlank(g, WordText(w) + b, false);
    RunWord(w, b, false);
    var rest := Run(WaitVal, WordText(w) + b, false, "").rest;
    ReadLeaves(WEq, rest, b, Chars(w.ls), ps);
    ReadBlank(WEq, g2, a, Chars(w.ls), ps);
    assert a[1..] == ">" + t && (">" + t)[0] == '>' && (">" + t)[1..] == t;
  }

  lemma {:induction false} ReadValue(g: string, w: Word, g4: string, t: string, key: string, ps: seq<Pair>)
    requires Blank(g) && Blank(g4) && WordOk(w, true) && (t == "" || EndsBare(t[0], true))
    ensures Read(WVal, g + (WordText(w) + (g4 + t)), key, ps) == Read(WDel, t, "", ps + [Pair(key, WordValue(w))])
  {
    var b := g4 + t;
    HeadOf(g4, t, true);
    RunBlank(g, WordText(w) + b, true);
    RunWord(w, b, true);
    var rest := Run(WaitVal, WordText(w) + b, true, "").rest;
    var qs := ps + [Pair(key, WordValue(w))];
    ReadLeaves(WDel, rest, b, "", qs);
    ReadBlank(WDel, g4, t, "", qs);
  }

  lemma {:induction false} ReadItem(i: Item, t: string, ps: seq<Pair>)
    requires ItemOk(i) && (t == "" || EndsBare(t[0], true))
    ensures Read(WKey, ItemText(i, t), "", ps) ==
            if |ps| < MAX_PAIRS then Read(WDel, t, "", ps + [Pair(Chars(i.key.ls), WordValue(i.val))])
            else Fail(OutOfMemory)
  {
    ReadKey(i.g1, i.key, i.g2, i.g3 + (WordText(i.val) + (i.g4 + t)), ps);
    ReadValue(i.g3, i.val, i.g4, t, Chars(i.key.ls), ps);
  }

  lemma {:induction false} BlankRun(g: string)
    requires Blank(g)
    ensures Run(WaitVal, g, false, "") == NoWord
  {
    RunBlank(g, "", false);
    assert g + "" == g;
  }

  /** A text of the grammar is accepted with the grammar's meaning, if the array of pairs can hold it. */
  lemma {:induction false} ReadDoc(d: Doc, ps: seq<Pair>)
    requires DocOk(d) && |ps| <= MAX_PAIRS
    ensures Read(WKey, DocText(d), "", ps) ==
            if |ps| + |Meaning(d)| <= MAX_PAIRS then Accept(ps + Meaning(d)) else Fail(OutOfMemory)
  {
    match d
    case End(gap) =>
      BlankRun(gap);
      assert ps + Meaning(d) == ps;
    case Last(i) =>
      ReadItem(i, "", ps);
    case More(i, r) =>
      var t := "," + DocText(r);
      assert t[0] == ',' && t[1..] == DocText(r);
      ReadItem(i, t, ps);
      var q := [Pair(Chars(i.key.ls), WordValue(i.val))];
      if |ps| < MAX_PAIRS {
        ReadDoc(r, ps + q);
        Regroup(ps, q, Meaning(r));
      }
  }

  // ----- every accepted text belongs to the grammar -----

  /** The first letter of a quoted word and what follows it. */
  lemma {:induction false} QuotedStep(t: string, ignoreeq: bool, w: string) returns (l: Letter, v: string)
    requires Run(InEscVal, t, ignoreeq, w).Got? && t[0] != '"'
    ensures InQuotes([l]) && t == Spell(l) + v
    ensures Run(InEscVal, t, ignoreeq, w) == Run(InEscVal, v, ignoreeq, w + [l.c])
  {
    var c, u := t[0], t[1..];
    l, v := Plain(c), u;
    if c == '\\' {
      assert Run(WaitEscEscIn, u, ignoreeq, w).Got?;
      l, v := Escaped(u[0]), u[1..];
    }
  }

  lemma {:induction false} FindQuoted(t: string, ignoreeq: bool, w: string) returns (ls: seq<Letter>)
    requires Run(InEscVal, t, ignoreeq, w).Got?
    ensures var g := Run(InEscVal, t, ignoreeq, w);
      InQuotes(ls) && g.escaped && g.word == w + Chars(ls) && t == Letters(ls) + ("\"" + g.rest)
    decreases |t|
  {
    if t[0] == '"' {
      ls := [];
      assert t == "\"" + t[1..];
      EmptyFront(t);
      EmptyFront(w);
    } else {
      var l, v := QuotedStep(t, ignoreeq, w);
      var rest := FindQuoted(v, ignoreeq, w + [l.c]);
      ls := [l] + rest;
      MoreLetters(l, rest, "\"" + Run(InEscVal, t, ignoreeq, w).rest, t, w);
    }
  }

  /** The first letter of an unquoted word and what follows it. */
  lemma {:induction false} BareStep(t: string, ignoreeq: bool, w: string) returns (l: Letter, v: string)
    requires Run(InVal, t, ignoreeq, w).Got? && t != "" && (t[0] == '\\' || !EndsBare(t[0], ignoreeq))
    ensures InBare([l], ignoreeq) && t == Spell(l) + v
    ensures Run(InVal, t, ignoreeq, w) == Run(InVal, v, ignoreeq, w + [l.c])
  {
    var c, u := t[0], t[1..];
    l, v := Plain(c), u;
    if c == '\\' {
      assert Run(WaitEscIn, u, ignoreeq, w).Got?;
      l, v := Escaped(u[0]), u[1..];
    }
  }

  lemma {:induction false} MoreBare(l: Letter, rest: seq<Letter>, ignoreeq: bool)
    requires InBare([l], ignoreeq) && InBare(rest, ignoreeq)
    ensures InBare([l] + rest, ignoreeq)
  {
    assert [l][0] == l;
  }

  lemma {:induction false} FindBare(t: string, ignoreeq: bool, w: string) returns (ls: seq<Letter>, tail: string)
    requires Run(InVal, t, ignoreeq, w).Got?
    ensures InBare(ls, ignoreeq) && t == Letters(ls) + tail && (tail == "" || EndsBare(tail[0], ignoreeq))
    ensures var g := Run(InVal, t, ignoreeq, w); !g.escaped && g.word == w + Chars(ls) && Leaves(g.rest, tail)
    decreases |t|
  {
    if t == "" || (t[0] != '\\' && EndsBare(t[0], ignoreeq)) {
      ls, tail := [], t;
      RunEnd(t, ignoreeq, w);
      EmptyFront(t);
      EmptyFront(w);
    } else {
      var l, v := BareStep(t, ignoreeq, w);
      var rest;
      rest, tail := FindBare(v, ignoreeq, w + [l.c]);
      ls := [l] + rest;
      MoreBare(l, rest, ignoreeq);
      MoreLetters(l, rest, tail, t, w);
    }
  }

  /** The word found after leading blanks. */
  lemma {:induction false} FindWord(t: string, ignoreeq: bool) returns (g: string, w: Word, tail: string)
    requires Run(WaitVal, t, ignoreeq, "").Got? && |Run(WaitVal, t, ignoreeq, "").word| <= MAX_WORD
    ensures Blank(g) && WordOk(w, ignoreeq) && t == g + (WordText(w) + tail)
    ensures var r := Run(WaitVal, t, ignoreeq, "");
      r.word == Chars(w.ls) && r.escaped == w.Quoted? && Leaves(r.rest, tail)
    decreases |t|
  {
    var c, u := t[0], t[1..];
    assert t == [c] + u;
    if c == '"' {
      var ls := FindQuoted(u, ignoreeq, "");
      g, w, tail := "", Quoted(ls), Run(WaitVal, t, ignoreeq, "").rest;
      Regroup(Letters(ls), "\"", tail);
      Regroup("\"", Letters(ls) + "\"", tail);
      assert "" + Chars(ls) == Chars(ls) && g + (WordText(w) + tail) == WordText(w) + tail;
    } else if c == '\\' {
      assert "" + [u[0]] == [u[0]];
      g, w, tail := FindFirst(Escaped(u[0]), t, u[1..], ignoreeq);
    } else if !IsSpace(c) {
      assert "" + [c] == [c];
      g, w, tail := FindFirst(Plain(c), t, u, ignoreeq);
    } else {
      g, w, tail := FindWord(u, ignoreeq);
      Regroup([c], g, WordText(w) + tail);
      g := [c] + g;
    }
  }

  lemma {:induction false} FindFirst(l: Letter, t: string, v: string, ignoreeq: bool)
    returns (g: string, w: Word, tail: string)
    requires StartsBare(l, ignoreeq) && t == Spell(l) + v
    requires Run(WaitVal, t, ignoreeq, "") == Run(InVal, v, ignoreeq, [l.c])
    requires Run(InVal, v, ignoreeq, [l.c]).Got? && |Run(InVal, v, ignoreeq, [l.c]).word| <= MAX_WORD
    ensures g == "" && WordOk(w, ignoreeq) && t == g + (WordText(w) + tail)
    ensures var r := Run(WaitVal, t, ignoreeq, "");
      r.word == Chars(w.ls) && r.escaped == w.Quoted? && Leaves(r.rest, tail)
  {
    var rest;
    rest, tail := FindBare(v, ignoreeq, [l.c]);
    var ls := [l] + rest;
    assert ls[1..] == rest;
    g, w := "", Bare(ls);
    MoreLetters(l, rest, tail, t, "");
    assert "" + [l.c] == [l.c] && "" + Chars(ls) == Chars(ls);
    assert g + (WordText(w) + tail) == WordText(w) + tail;
  }

  lemma {:induction false} MoreBlank(c: char, g: string, t: string)
    requires Blank(g) && IsSpace(c)
    ensures Blank([c] + g) && [c] + (g + t) == ([c] + g) + t
  {
    Regroup([c], g, t);
  }

  lemma {:induction false} FindEq(t: string, key: string, ps: seq<Pair>) returns (g: string, u: string)
    requires Read(WEq, t, key, ps).Accept?
    ensures Blank(g) && t == g + ("=" + (">" + u)) && Read(WVal, u, key, ps) == Read(WEq, t, key, ps)
    decreases |t|
  {
    var v := t[1..];
    assert t == [t[0]] + v;
    if t[0] == '=' {
      assert Read(WGt, v, key, ps).Accept?;
      g, u := "", v[1..];
      assert v == ">" + u;
      EmptyFront(t);
    } else {
      var h;
      h, u := FindEq(v, key, ps);
      g := [t[0]] + h;
      MoreBlank(t[0], h, "=" + (">" + u));
    }
  }

  /** What follows an item: the end, or a comma and the rest. */
  lemma {:induction false} FindDel(t: string, ps: seq<Pair>) returns (g: string, more: bool, u: string)
    requires Read(WDel, t, "", ps).Accept?
    ensures Blank(g) && t == g + (if more then "," + u else "")
    ensures more ==> |u| < |t| && Read(WKey, u, "", ps) == Read(WDel, t, "", ps)
    decreases |t|
  {
    if t == "" {
      return "", false, "";
    }
    var v := t[1..];
    assert t == [t[0]] + v;
    if t[0] == ',' {
      g, more, u := "", true, v;
      assert g + t == t;
    } else {
      g, more, u := FindDel(v, ps);
      Regroup([t[0]], g, if more then "," + u else "");
      g := [t[0]] + g;
    }
  }

  lemma {:induction false} FindBlank(t: string, ignoreeq: bool)
    requires Run(WaitVal, t, ignoreeq, "").NoWord?
    ensures Blank(t)
  {
    if t != "" {
      RunNever(InEscVal, t[1..], ignoreeq, "");
      RunNever(WaitEscIn, t[1..], ignoreeq, "");
      RunNever(InVal, t[1..], ignoreeq, "" + [t[0]]);
      FindBlank(t[1..], ignoreeq);
    }
  }

  /** Only the first state can end without a word. */
  lemma {:induction false} RunNever(st: Scan, t: string, ignoreeq: bool, w: string)
    requires st != WaitVal
    ensures !Run(st, t, ignoreeq, w).NoWord?
    decreases |t|
  {
    if t != "" {
      forall s: Scan, x: string | s != WaitVal ensures !Run(s, t[1..], ignoreeq, x).NoWord? {
        RunNever(s, t[1..], ignoreeq, x);
      }
    }
  }

  /** No word outgrows its buffer. */
  lemma {:induction false} RunBounded(st: Scan, t: string, ignoreeq: bool, w: string)
    requires Run(st, t, ignoreeq, w).Got? && |w| <= MAX_WORD && (st == WaitVal ==> w == "")
    ensures |Run(st, t, ignoreeq, w).word| <= MAX_WORD
    decreases |t|
  {
    if t != "" {
      forall s: Scan, v: string | |v| <= MAX_WORD && (s == WaitVal ==> v == "") && Run(s, t[1..], ignoreeq, v).Got?
        ensures |Run(s, t[1..], ignoreeq, v).word| <= MAX_WORD
      {
        RunBounded(s, t[1..], ignoreeq, v);
      }
    }
  }

  lemma {:induction false} RunNotTooLong(st: Scan, t: string, ignoreeq: bool, w: string)
    ensures Run(st, t, ignoreeq, w) != Bad(TooLong)
    decreases |t|
  {
    if t != "" {
      forall s: Scan, v: string ensures Run(s, t[1..], ignoreeq, v) != Bad(TooLong) {
        RunNotTooLong(s, t[1..], ignoreeq, v);
      }
    }
  }

  /** So the limits on keys and values are never what rejects a text. */
  lemma {:induction false} NeverTooLong(st: Phase, t: string, key: string, ps: seq<Pair>)
    ensures Read(st, t, key, ps) != Fail(TooLong)
    decreases |t|
  {
    var ignoreeq := st == WVal;
    var g := Run(WaitVal, t, ignoreeq, "");
    RunNotTooLong(WaitVal, t, ignoreeq, "");
    match st
    case WKey =>
      if g.Got? {
        RunBounded(WaitVal, t, ignoreeq, "");
        NeverTooLong(WEq, g.rest, g.word, ps);
      }
    case WVal =>
      if g.Got? {
        RunBounded(WaitVal, t, ignoreeq, "");
        NeverTooLong(WDel, g.rest, "", ps + [Pair(key, if SpellsNull(g.word, g.escaped) then Null else Text(g.word))]);
      }
    case WEq =>
      if t != "" {
        NeverTooLong(WGt, t[1..], key, ps);
        NeverTooLong(WEq, t[1..], key, ps);
      }
    case WGt =>
      if t != "" { NeverTooLong(WVal, t[1..], key, ps); }
    case WDel =>
      if t != "" {
        NeverTooLong(WKey, t[1..], "", ps);
        NeverTooLong(WDel, t[1..], "", ps);
      }
  }

  /** An accepted text is the text of some document. */
  lemma {:induction false} FindDoc(t: string, ps: seq<Pair>) returns (d: Doc)
    requires Read(WKey, t, "", ps).Accept?
    ensures DocOk(d) && DocText(d) == t
    decreases |t|
  {
    if Run(WaitVal, t, false, "").NoWord? {
      FindBlank(t, false);
      return End(t);
    }
    RunBounded(WaitVal, t, false, "");
    var g1, key, t1 := FindWord(t, false);
    var k, r1 := Chars(key.ls), Run(WaitVal, t, false, "").rest;
    ReadLeaves(WEq, r1, t1, k, ps);
    var g2, t2 := FindEq(t1, k, ps);
    RunBounded(WaitVal, t2, true, "");
    var g3, val, t3 := FindWord(t2, true);
    var qs, r3 := ps + [Pair(k, WordValue(val))], Run(WaitVal, t2, true, "").rest;
    ReadLeaves(WDel, r3, t3, "", qs);
    var g4, more, u := FindDel(t3, qs);
    var item := Item(g1, key, g2, g3, val, g4);
    if more {
      ShorterRest(t, g1, WordText(key), t1, g2, t2, g3, WordText(val), t3);
      var r := FindDoc(u, qs);
      return More(item, r);
    }
    return Last(item);
  }

  lemma {:induction false} ShorterRest(t: string, g1: string, k: string, t1: string, g2: string, t2: string,
                                       g3: string, v: string, t3: string)
    requires t == g1 + (k + t1) && t1 == g2 + ("=" + (">" + t2)) && t2 == g3 + (v + t3)
    ensures |t3| < |t|
  {
  }

  /** The machine accepts exactly the grammar: a text is read as `ps` if and only if it is the text of a
      document with that meaning and the array of pairs can hold `ps`. */
  lemma {:induction false} ReadExact(t: string, ps: seq<Pair>)
    ensures Read(WKey, t, "", []) == Accept(ps) <==>
            |ps| <= MAX_PAIRS && exists d :: DocOk(d) && DocText(d) == t && Meaning(d) == ps
  {
    if Read(WKey, t, "", []) == Accept(ps) {
      var d := FindDoc(t, []);
      ReadDoc(d, []);
      EmptyFront(Meaning(d));
    }
    if exists d :: DocOk(d) && DocText(d) == t && Meaning(d) == ps {
      var d :| DocOk(d) && DocText(d) == t && Meaning(d) == ps;
      ReadDoc(d, []);
      EmptyFront(Meaning(d));
    }
  }
}
