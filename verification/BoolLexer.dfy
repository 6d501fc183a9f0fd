/** Numbers as `printf("%d")` writes them and as `strtol` with base 0 reads them. */
module NumberText {
  import opened Int32

  predicate IsDigit(ch: char) {
    '0' <= ch <= '9'
  }

  ghost predicate AllDigits(s: string) {
    forall i :: 0 <= i < |s| ==> IsDigit(s[i])
  }

  function Digit(n: nat): (ch: char)
    ensures IsDigit(ch) && DigitValue(ch) == n % 10
  {
    '0' + (n % 10) as char
  }

  function DigitValue(ch: char): int {
    ch as int - '0' as int
  }

  // ----- reading -----

  function DecimalValue(ds: string): int {
    if ds == "" then 0 else DecimalValue(ds[..|ds| - 1]) * 10 + DigitValue(ds[|ds| - 1])
  }

  function OctalValue(ds: string, acc: int): int {
    if ds == "" || ds[0] > '7' then acc else OctalValue(ds[1..], acc * 8 + DigitValue(ds[0]))
  }

  /** A leading zero selects octal, which stops at the first digit that is not octal. */
  function Magnitude(ds: string): int {
    if ds != "" && ds[0] == '0' then OctalValue(ds, 0) else DecimalValue(ds)
  }

  /** `strtol(w, NULL, 0)` for an optional minus sign followed by digits. */
  function Strtol(w: string): int {
    if w != "" && w[0] == '-' then -Magnitude(w[1..]) else Magnitude(w)
  }

  function Power(base: nat, k: nat): nat {
    if k == 0 then 1 else base * Power(base, k - 1)
  }

  /** The value of digits by their places. */
  function Positional(ds: string, base: nat): int {
    if ds == "" then 0 else DigitValue(ds[0]) * Power(base, |ds| - 1) + Positional(ds[1..], base)
  }

  lemma {:induction false} PositionalSnoc(ds: string, d: char, base: nat)
    ensures Positional(ds + [d], base) == Positional(ds, base) * base + DigitValue(d)
  {
    if ds == "" {
      assert ds + [d] == [d] && [d][1..] == "" && Power(base, 0) == 1;
    } else {
      assert (ds + [d])[1..] == ds[1..] + [d];
      PositionalSnoc(ds[1..], d, base);
      Places(DigitValue(ds[0]), Power(base, |ds| - 1), Positional(ds[1..], base), base, DigitValue(d));
    }
  }

  lemma {:induction false} Places(a: int, p: nat, r: int, base: nat, d: int)
    ensures a * (base * p) + (r * base + d) == (a * p + r) * base + d
  {
    assert a * (base * p) == (a * p) * base;
    assert (a * p + r) * base == (a * p) * base + r * base;
  }

  lemma {:induction false} DecimalIsPositional(ds: string)
    ensures DecimalValue(ds) == Positional(ds, 10)
  {
    if ds != "" {
      var n := |ds| - 1;
      DecimalIsPositional(ds[..n]);
      PositionalSnoc(ds[..n], ds[n], 10);
      assert ds == ds[..n] + [ds[n]];
    }
  }

  /** `m` digits at the front are octal and the next, if any, is not. */
  ghost predicate OctalPrefix(ds: string, m: nat) {
    m <= |ds| && (forall i :: 0 <= i < m ==> ds[i] <= '7') && (m == |ds| || ds[m] > '7')
  }

  lemma {:induction false} OctalIsPositional(ds: string, m: nat, acc: int)
    requires OctalPrefix(ds, m)
    ensures OctalValue(ds, acc) == acc * Power(8, m) + Positional(ds[..m], 8)
  {
    if m == 0 {
      assert ds[..m] == "" && Power(8, 0) == 1;
    } else {
      OctalIsPositional(ds[1..], m - 1, acc * 8 + DigitValue(ds[0]));
      assert ds[..m][1..] == ds[1..][..m - 1];
      Shifted(acc, DigitValue(ds[0]), Power(8, m - 1));
    }
  }

  lemma {:induction false} Shifted(acc: int, d: int, p: nat)
    ensures (acc * 8 + d) * p == acc * (8 * p) + d * p
  {
  }

  /** Digits behind a leading zero have their octal value up to the first that is not octal; others their decimal
      value. */
  lemma {:induction false} MagnitudeExactly(ds: string, m: nat)
    requires ds != ""
    ensures ds[0] != '0' ==> Magnitude(ds) == Positional(ds, 10)
    ensures ds[0] == '0' && OctalPrefix(ds, m) ==> Magnitude(ds) == Positional(ds[..m], 8)
  {
    DecimalIsPositional(ds);
    if OctalPrefix(ds, m) {
      OctalIsPositional(ds, m, 0);
    }
  }

  /** `010` is eight and `019` is one. */
  lemma {:induction false} OctalExample()
    ensures Strtol("010") == 8 && Strtol("019") == 1 && Strtol("10") == 10
  {
    assert "010"[1..] == "10" && "10"[1..] == "0" && "0"[1..] == "";
    assert "019"[1..] == "19" && "19"[1..] == "9";
    assert "10"[..1] == "1" && "1"[..0] == "";
  }

  // ----- writing -----

  function NatText(n: nat): (s: string)
    ensures s != "" && AllDigits(s)
  {
    if n < 10 then [Digit(n)] else NatText(n / 10) + [Digit(n % 10)]
  }

  function IntText(n: int): string {
    if n < 0 then "-" + NatText(-n) else NatText(n)
  }

  // ----- reading what was written -----

  lemma {:induction false} NatTextValue(n: nat)
    ensures DecimalValue(NatText(n)) == n
    ensures NatText(n)[0] == '0' <==> n == 0
  {
    if n >= 10 {
      NatTextValue(n / 10);
      assert NatText(n)[..|NatText(n)| - 1] == NatText(n / 10);
    } else {
      assert [Digit(n)][..0] == "";
    }
  }

  lemma {:induction false} NatTextLength(n: nat, k: nat)
    requires 1 <= k && n < Power(10, k)
    ensures |NatText(n)| <= k
  {
    if n >= 10 {
      assert Power(10, 1) == 10;
      NatTextLength(n / 10, k - 1);
    }
  }

  /** Every 32-bit integer is read back from its text, which fits the token buffer. */
  lemma {:induction false} IntTextRoundTrip(n: int)
    requires IsInt32(n)
    ensures Strtol(IntText(n)) == n
    ensures 1 <= |IntText(n)| <= 11
  {
    var k: nat := if n < 0 then -n else n;
    NatTextValue(k);
    assert Power(10, 5) == 100000;
    assert Power(10, 10) == 10000000000;
    NatTextLength(k, 10);
    if n < 0 {
      assert IntText(n)[1..] == NatText(k);
    } else if n == 0 {
      assert NatText(0) == "0";
      assert OctalValue("0", 0) == OctalValue("0"[1..], 0);
    }
  }
}

/** The tokenizer of Boolean queries. */
module BoolLexer {
  import opened Int32
  import opened NumberText
  import opened BoolQuery

  datatype Token = End | Err | Val(v: int) | Opr(op: Oper) | Open | Close

  /** A token with what is left: the text, whether an operator is awaited, and the open parentheses. */
  datatype Lexed = Lexed(tok: Token, rest: string, ready: bool, count: int)

  const TOKEN_BUFFER := 16

  /** The character a C string shows at its current position. */
  function Peek(text: string): char {
    if text == "" then '\0' else text[0]
  }

  function SkipSpaces(text: string): (r: string)
    ensures |r| <= |text| && Peek(r) != ' '
  {
    if text != "" && text[0] == ' ' then SkipSpaces(text[1..]) else text
  }

  function DigitRun(text: string): (n: nat)
    ensures n <= |text|
  {
    if text != "" && IsDigit(text[0]) then 1 + DigitRun(text[1..]) else 0
  }

  /** What `gettoken` reports; `ready` distinguishes WAITOPERATOR from WAITOPERAND. */
  function NextToken(text: string, ready: bool, count: int): (l: Lexed)
    ensures l.tok.End? || l.tok.Err? || |l.rest| < |text|
  {
    var s := SkipSpaces(text);
    var ch := Peek(s);
    if ready then
      if ch == '&' then Lexed(Opr(Amp), s[1..], false, count)
      else if ch == '|' then Lexed(Opr(Bar), s[1..], false, count)
      else if ch == ')' then Lexed(if count - 1 < 0 then Err else Close, s[1..], true, count - 1)
      else if ch == '\0' then Lexed(if count != 0 then Err else End, s, true, count)
      else Lexed(Err, s, true, count)
    else
      if IsDigit(ch) || ch == '-' then NumberToken(s, count)
      else if ch == '!' then Lexed(Opr(Bang), s[1..], false, count)
      else if ch == '(' then Lexed(Open, s[1..], false, count + 1)
      else Lexed(Err, s, false, count)
  }

  /** The token for the characters of a number; the buffer holds fifteen of them and a terminator. */
  function NumberOf(word: string, count: int, next: char): Token {
    if |word| >= TOKEN_BUFFER || !IsInt32(Strtol(word)) || (count != 0 && next == '\0') then Err
    else Val(Strtol(word))
  }

  /** A number starts at `s[0]`. */
  function NumberToken(s: string, count: int): (l: Lexed)
    requires s != ""
    ensures l.tok.Err? || |l.rest| < |s|
  {
    var n := 1 + DigitRun(s[1..]);
    Lexed(NumberOf(s[..n], count, Peek(s[n..])), s[n..], true, count)
  }

  /** All tokens up to and including the first `End` or `Err`. */
  function Tokens(text: string, ready: bool, count: int): (ts: seq<Token>)
    ensures ts != []
    decreases |text|
  {
    var l := NextToken(text, ready, count);
    if l.tok.End? || l.tok.Err? then [l.tok] else [l.tok] + Tokens(l.rest, l.ready, l.count)
  }
}
