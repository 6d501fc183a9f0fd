/** Which error a rejected hstore text is given: a syntax error if no continuation could mend it, an unexpected end if
    some could. */
module HstoreErrors {
  import opened Hstore
  import opened HstoreSyntax
  import opened Sequences

  lemma {:induction false} Longer(t: string, u: string)
    requires t != ""
    ensures (t + u)[0] == t[0] && (t + u)[1..] == t[1..] + u && t + u != ""
  {
  }

  // ----- a syntax error stays -----

  lemma {:induction false} ScanErrorStays(st: Scan, t: string, u: string, ignoreeq: bool, w: string)
    requires Run(st, t, ignoreeq, w) == Bad(SyntaxError)
    ensures Run(st, t + u, ignoreeq, w) == Bad(SyntaxError)
    decreases |t|
  {
    Longer(t, u);
    forall s: Scan, x: string | Run(s, t[1..], ignoreeq, x) == Bad(SyntaxError)
      ensures Run(s, t[1..] + u, ignoreeq, x) == Bad(SyntaxError)
    {
      ScanErrorStays(s, t[1..], u, ignoreeq, x);
    }
  }

  /** A finished word does not grow if something follows it already, or if what is added ends it. */
  lemma {:induction false} WordStays(st: Scan, t: string, u: string, ignoreeq: bool, w: string)
    requires Run(st, t, ignoreeq, w).Got?
    requires Run(st, t, ignoreeq, w).rest != "" || u == "" || u[0] == (if ignoreeq then ',' else '=')
    ensures var g := Run(st, t, ignoreeq, w);
      Run(st, t + u, ignoreeq, w) == Got(g.word, g.escaped, g.rest + u)
    decreases |t|
  {
    var g := Run(st, t, ignoreeq, w);
    if t == "" {
      EmptyFront(u);
    } else {
      Longer(t, u);
      forall s: Scan, x: string | Run(s, t[1..], ignoreeq, x) == g
        ensures Run(s, t[1..] + u, ignoreeq, x) == Got(g.word, g.escaped, g.rest + u)
      {
        WordStays(s, t[1..], u, ignoreeq, x);
      }
    }
  }

  lemma {:induction false} ErrorStays(st: Phase, t: string, u: string, key: string, ps: seq<Pair>)
    requires Read(st, t, key, ps) == Fail(SyntaxError)
    ensures Read(st, t + u, key, ps) == Fail(SyntaxError)
    decreases |t|
  {
    if st == WKey || st == WVal {
      var g := Run(WaitVal, t, st == WVal, "");
      if g.Bad? {
        ScanErrorStays(WaitVal, t, u, st == WVal, "");
      } else {
        WordStays(WaitVal, t, u, st == WVal, "");
        if st == WKey {
          ErrorStays(WEq, g.rest, u, g.word, ps);
        } else {
          ErrorStays(WDel, g.rest, u, "", ps + [Pair(key, if SpellsNull(g.word, g.escaped) then Null else Text(g.word))]);
        }
      }
    } else {
      Longer(t, u);
      MarkErrorStays(st, t, u, key, ps);
    }
  }

  lemma {:induction false} MarkErrorStays(st: Phase, t: string, u: string, key: string, ps: seq<Pair>)
    requires (st == WEq || st == WGt || st == WDel) && t != "" && Read(st, t, key, ps) == Fail(SyntaxError)
    ensures Read(st, t + u, key, ps) == Fail(SyntaxError)
    decreases |t|, 0
  {
    Longer(t, u);
    var v := t[1..];
    if st == WEq && t[0] == '=' {
      ErrorStays(WGt, v, u, key, ps);
    } else if st == WGt && t[0] == '>' {
      ErrorStays(WVal, v, u, key, ps);
    } else if st == WDel && t[0] == ',' {
      ErrorStays(WKey, v, u, "", ps);
    } else if st != WGt && IsSpace(t[0]) {
      ErrorStays(st, v, u, if st == WDel then "" else key, ps);
    }
  }

  // ----- an unexpected end can be mended -----

  /** What completes a word that breaks off, and then `s`. */
  lemma {:induction false} FinishWord(st: Scan, t: string, ignoreeq: bool, w: string, s: string) returns (v: string)
    requires Run(st, t, ignoreeq, w) == Bad(UnexpectedEnd)
    ensures var g := Run(st, t + (v + s), ignoreeq, w); g == Bad(OutOfMemory) || (g.Got? && g.rest == s)
    ensures v != ""
    decreases |t|
  {
    if t == "" {
      v := if st == InEscVal then "\"" else if st == WaitEscIn then "x " else "x\"";
      EmptyFront(v + s);
      FinishNow(st, ignoreeq, w, s);
    } else {
      var c, u := t[0], t[1..];
      var next, x := NextScan(st, c), NextWord(st, c, w);
      v := FinishWord(next, u, ignoreeq, x, s);
      Longer(t, v + s);
    }
  }

  function NextScan(st: Scan, c: char): Scan {
    match st
    case WaitVal => if c == '"' then InEscVal else if c == '\\' then WaitEscIn else if IsSpace(c) then WaitVal else InVal
    case InVal => if c == '\\' then WaitEscIn else InVal
    case InEscVal => if c == '\\' then WaitEscEscIn else InEscVal
    case WaitEscIn => InVal
    case WaitEscEscIn => InEscVal
  }

  function NextWord(st: Scan, c: char, w: string): string {
    match st
    case WaitVal => if c == '"' || c == '\\' || IsSpace(c) then w else w + [c]
    case InVal => if c == '\\' then w else w + [c]
    case InEscVal => if c == '\\' then w else w + [c]
    case WaitEscIn => w + [c]
    case WaitEscEscIn => w + [c]
  }

  lemma {:induction false} FinishNow(st: Scan, ignoreeq: bool, w: string, s: string)
    requires st == InEscVal || st == WaitEscIn || st == WaitEscEscIn
    ensures var v := if st == InEscVal then "\"" else if st == WaitEscIn then "x " else "x\"";
      var g := Run(st, v + s, ignoreeq, w); g == Bad(OutOfMemory) || (g.Got? && g.rest == s)
  {
    if st == InEscVal {
      Longer("\"", s);
      EmptyFront(s);
    } else {
      var v := if st == WaitEscIn then "x " else "x\"";
      Longer(v, s);
      Longer(v[1..], s);
      assert v[1..][1..] == "";
      EmptyFront(s);
    }
  }

  /** Not rejected for its form. */
  predicate WellFormed(r: Parse) {
    r.Accept? || r.error == OutOfMemory || r.error == TooLong
  }

  lemma {:induction false} ReadRest(key: string, ps: seq<Pair>)
    ensures Read(WVal, "x", key, ps).Accept? && Read(WGt, ">x", key, ps).Accept? && Read(WEq, "=>x", key, ps).Accept?
  {
    assert "x"[1..] == "" && ">x"[1..] == "x" && "=>x"[1..] == ">x";
    assert Run(WaitVal, "x", true, "") == Run(InVal, "", true, "" + ['x']);
  }

  lemma {:induction false} Finish(st: Phase, t: string, key: string, ps: seq<Pair>) returns (u: string)
    requires Read(st, t, key, ps) == Fail(UnexpectedEnd)
    ensures WellFormed(Read(st, t + u, key, ps))
    ensures u != "" && (t == "" && st == WEq ==> u[0] == '=')
    decreases |t|, 1
  {
    if st == WKey {
      u := FinishKey(t, key, ps);
    } else if st == WVal {
      u := FinishValue(t, key, ps);
    } else if t == "" {
      u := if st == WEq then "=>x" else ">x";
      ReadRest(key, ps);
      EmptyFront(u);
    } else {
      var v := t[1..];
      var next := if st == WEq && t[0] == '=' then WGt else if st == WGt then WVal
                  else if st == WDel && t[0] == ',' then WKey else st;
      u := Finish(next, v, if st == WDel then "" else key, ps);
      Longer(t, u);
    }
  }

  lemma {:induction false} FinishKey(t: string, key: string, ps: seq<Pair>) returns (u: string)
    requires Read(WKey, t, key, ps) == Fail(UnexpectedEnd)
    ensures WellFormed(Read(WKey, t + u, key, ps)) && u != ""
    decreases |t|, 0
  {
    var g := Run(WaitVal, t, false, "");
    if g.Bad? {
      var v := FinishWord(WaitVal, t, false, "", "=>x");
      u := v + "=>x";
      var h := Run(WaitVal, t + u, false, "");
      if h.Got? {
        ReadRest(h.word, ps);
      }
    } else {
      u := Finish(WEq, g.rest, g.word, ps);
      WordStays(WaitVal, t, u, false, "");
    }
  }

  lemma {:induction false} FinishValue(t: string, key: string, ps: seq<Pair>) returns (u: string)
    requires Read(WVal, t, key, ps) == Fail(UnexpectedEnd)
    ensures WellFormed(Read(WVal, t + u, key, ps)) && u != ""
    decreases |t|, 0
  {
    var g := Run(WaitVal, t, true, "");
    if g.NoWord? {
      FindBlank(t, true);
      u := "x";
      RunBlank(t, u, true);
      ReadRest(key, ps);
    } else if g.Bad? {
      u := FinishWord(WaitVal, t, true, "", "");
      EmptyFront(u);
    } else {
      var qs := ps + [Pair(key, if SpellsNull(g.word, g.escaped) then Null else Text(g.word))];
      u := Finish(WDel, g.rest, "", qs);
      WordStays(WaitVal, t, u, true, "");
    }
  }

  // ----- the two errors -----

  /** Some continuation of the text is accepted, or gives out for want of memory only. */
  ghost predicate CanBeMended(t: string) {
    exists u :: Mends(t, u)
  }

  ghost predicate Mends(t: string, u: string) {
    var r := Read(WKey, t + u, "", []);
    r.Accept? || r == Fail(OutOfMemory)
  }

  /** Of the texts that are neither accepted nor too much for memory, those are given the error about the end of the
      string that can be mended by a continuation, and those the syntax error that cannot. */
  lemma {:induction false} ErrorsExactly(t: string)
    ensures Read(WKey, t, "", []) == Fail(SyntaxError) <==> !CanBeMended(t)
    ensures Read(WKey, t, "", []) == Fail(UnexpectedEnd) <==> CanBeMended(t) && !Mends(t, "")
  {
    assert t + "" == t;
    NeverTooLong(WKey, t, "", []);
    var r := Read(WKey, t, "", []);
    if r == Fail(SyntaxError) {
      forall u ensures !Mends(t, u) {
        ErrorStays(WKey, t, u, "", []);
      }
    } else if r == Fail(UnexpectedEnd) {
      var u := Finish(WKey, t, "", []);
      NeverTooLong(WKey, t + u, "", []);
      assert Mends(t, u);
    } else {
      assert r.Accept? || r == Fail(r.error);
      assert r.Accept? || r.error == OutOfMemory;
      assert Mends(t, "");
    }
  }
}
