/** Three-way comparison, and its extension to sequences. */
module Orders {

  function Sign(x: int): int {
    if x < 0 then -1 else if x > 0 then 1 else 0
  }

  /** `cmp` is a total order: its sign flips, it is zero exactly on equal arguments, it is transitive. */
  ghost predicate Total<T(!new)>(cmp: (T, T) -> int) {
    && (forall x, y :: cmp(x, y) == -cmp(y, x))
    && (forall x, y :: cmp(x, y) == 0 <==> x == y)
    && (forall x, y, z :: cmp(x, y) <= 0 && cmp(y, z) <= 0 ==> cmp(x, z) <= 0)
  }

  /** The first difference decides; a proper prefix comes first. */
  function Lex<T>(a: seq<T>, b: seq<T>, cmp: (T, T) -> int): int {
    if a == [] || b == [] then Sign(|a| - |b|)
    else
      var d := cmp(a[0], b[0]);
      if d != 0 then d else Lex(a[1..], b[1..], cmp)
  }

  lemma {:induction false} LexFlips<T(!new)>(a: seq<T>, b: seq<T>, cmp: (T, T) -> int)
    requires Total(cmp)
    ensures Lex(a, b, cmp) == -Lex(b, a, cmp)
  {
    if a != [] && b != [] {
      assert cmp(a[0], b[0]) == -cmp(b[0], a[0]);
      LexFlips(a[1..], b[1..], cmp);
    }
  }

  lemma {:induction false} LexZero<T(!new)>(a: seq<T>, b: seq<T>, cmp: (T, T) -> int)
    requires Total(cmp)
    ensures Lex(a, b, cmp) == 0 <==> a == b
  {
    if a != [] && b != [] {
      LexZero(a[1..], b[1..], cmp);
      assert a == [a[0]] + a[1..] && b == [b[0]] + b[1..];
      assert cmp(a[0], b[0]) == 0 <==> a[0] == b[0];
    }
  }

  lemma {:induction false} LexTransitive<T(!new)>(a: seq<T>, b: seq<T>, c: seq<T>, cmp: (T, T) -> int)
    requires Total(cmp) && Lex(a, b, cmp) <= 0 && Lex(b, c, cmp) <= 0
    ensures Lex(a, c, cmp) <= 0
  {
    if a != [] && b != [] && c != [] {
      var x, y, z := a[0], b[0], c[0];
      assert cmp(x, y) <= 0 && cmp(y, z) <= 0 && cmp(x, z) <= 0;
      assert cmp(x, y) == -cmp(y, x) && cmp(y, z) == -cmp(z, y) && cmp(x, z) == -cmp(z, x);
      if cmp(x, z) == 0 {
        assert cmp(z, y) <= 0 && cmp(x, y) == 0;
        LexTransitive(a[1..], b[1..], c[1..], cmp);
      }
    }
  }

  /** The order of sequences is total again. */
  lemma {:induction false} LexTotal<T(!new)>(cmp: (T, T) -> int, lex: (seq<T>, seq<T>) -> int)
    requires Total(cmp) && forall a, b :: lex(a, b) == Lex(a, b, cmp)
    ensures Total(lex)
  {
    forall a, b ensures lex(a, b) == -lex(b, a) && (lex(a, b) == 0 <==> a == b) {
      LexFlips(a, b, cmp);
      LexZero(a, b, cmp);
    }
    forall a, b, c | lex(a, b) <= 0 && lex(b, c) <= 0 ensures lex(a, c) <= 0 {
      LexTransitive(a, b, c, cmp);
    }
  }

  /** Comparing common lengths first and the lengths only on a tie gives the same order. */
  lemma {:induction false} LexByPrefix<T(!new)>(a: seq<T>, b: seq<T>, n: nat, cmp: (T, T) -> int)
    requires n <= |a| && n <= |b| && (n == |a| || n == |b|)
    ensures var d := Lex(a[..n], b[..n], cmp); Lex(a, b, cmp) == if d != 0 then d else Sign(|a| - |b|)
  {
    if n > 0 {
      LexByPrefix(a[1..], b[1..], n - 1, cmp);
      assert a[..n][1..] == a[1..][..n - 1] && b[..n][1..] == b[1..][..n - 1];
    }
  }

  /** The first difference lies at `n` and puts `a` first, or `a` ends there. */
  ghost predicate BeforeAt<T>(a: seq<T>, b: seq<T>, n: nat, less: (T, T) -> bool) {
    n <= |a| && n < |b| && a[..n] == b[..n] && (n == |a| || less(a[n], b[n]))
  }

  /** Which order it is. */
  lemma {:induction false} LexExactly<T(!new)>(a: seq<T>, b: seq<T>, cmp: (T, T) -> int, less: (T, T) -> bool)
    requires Total(cmp) && forall x, y :: less(x, y) <==> cmp(x, y) < 0
    ensures Lex(a, b, cmp) < 0 <==> exists n: nat :: BeforeAt(a, b, n, less)
  {
    if a == [] || b == [] {
      if |a| < |b| {
        assert BeforeAt(a, b, 0, less);
      }
    } else {
      var x, y := a[0], b[0];
      assert cmp(x, y) == 0 <==> x == y;
      LexExactly(a[1..], b[1..], cmp, less);
      if cmp(x, y) < 0 {
        assert BeforeAt(a, b, 0, less);
      } else {
        BeforeTail(a, b, less);
      }
    }
  }

  lemma {:induction false} BeforeTail<T(!new)>(a: seq<T>, b: seq<T>, less: (T, T) -> bool)
    requires a != [] && b != [] && !less(a[0], b[0])
    ensures (exists n: nat :: BeforeAt(a, b, n, less)) <==>
            a[0] == b[0] && exists n: nat :: BeforeAt(a[1..], b[1..], n, less)
  {
    if n: nat :| BeforeAt(a, b, n, less) {
      assert n > 0 && a[..n][0] == b[..n][0];
      assert a[1..][..n - 1] == a[..n][1..] && b[1..][..n - 1] == b[..n][1..];
      assert BeforeAt(a[1..], b[1..], n - 1, less);
    }
    if a[0] == b[0] {
      if n: nat :| BeforeAt(a[1..], b[1..], n, less) {
        assert a[..n + 1] == [a[0]] + a[1..][..n] && b[..n + 1] == [b[0]] + b[1..][..n];
        assert BeforeAt(a, b, n + 1, less);
      }
    }
  }

  // ----- bytes -----

  function CharCmp(x: char, y: char): int {
    Sign(x as int - y as int)
  }

  lemma {:induction false} CharTotal()
    ensures Total(CharCmp)
  {
  }

  /** Sign of `memcmp` over the first `n` bytes. */
  function MemCmp(a: string, b: string, n: nat): (r: int)
    requires n <= |a| && n <= |b|
    ensures r == 0 <==> a[..n] == b[..n]
  {
    CharTotal();
    LexZero(a[..n], b[..n], CharCmp);
    Lex(a[..n], b[..n], CharCmp)
  }

  /** `memcmp` over the shorter length, then the lengths. */
  function TextCmp(a: string, b: string): int {
    var n := if |a| < |b| then |a| else |b|;
    var d := MemCmp(a, b, n);
    if d != 0 then d else Sign(|a| - |b|)
  }

  lemma {:induction false} TextIsLex(a: string, b: string)
    ensures TextCmp(a, b) == Lex(a, b, CharCmp)
  {
    LexByPrefix(a, b, if |a| < |b| then |a| else |b|, CharCmp);
  }

  lemma {:induction false} TextTotal()
    ensures Total(TextCmp)
  {
    CharTotal();
    forall a: string, b: string ensures TextCmp(a, b) == Lex(a, b, CharCmp) {
      TextIsLex(a, b);
    }
    LexTotal(CharCmp, TextCmp);
  }

  predicate CharLess(x: char, y: char) {
    x < y
  }

  /** `a` comes first in the dictionary: it is a proper prefix, or has the smaller byte at the first difference. */
  ghost predicate TextLess(a: string, b: string) {
    exists n: nat :: BeforeAt(a, b, n, CharLess)
  }

  /** The comparison is that of the dictionary, not by length. */
  lemma {:induction false} TextExactly(a: string, b: string)
    ensures TextCmp(a, b) < 0 <==> TextLess(a, b)
    ensures TextCmp(a, b) > 0 <==> TextLess(b, a)
  {
    CharTotal();
    TextIsLex(a, b);
    LexFlips(a, b, CharCmp);
    LexExactly(a, b, CharCmp, CharLess);
    LexExactly(b, a, CharCmp, CharLess);
  }

  /** So is `memcmp` over all bytes of strings of equal length. */
  lemma {:induction false} MemExactly(a: string, b: string)
    requires |a| == |b|
    ensures MemCmp(a, b, |a|) < 0 <==> TextLess(a, b)
  {
    CharTotal();
    assert a[..|a|] == a && b[..|b|] == b;
    LexExactly(a, b, CharCmp, CharLess);
  }
}
