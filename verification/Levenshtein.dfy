/** `levenshtein`: the plain two-row programme, and the inner loop it shares with the bounded one. */
module Levenshtein {
  import opened EditDistance

  const MAX_LEVENSHTEIN_STRLEN := 255

  datatype Answer = Distance(d: int) | TooLong

  predicate Rejected(s: string, t: string) {
    s != [] && t != [] && (|s| > MAX_LEVENSHTEIN_STRLEN || |t| > MAX_LEVENSHTEIN_STRLEN)
  }

  /** Distance of the first `i` characters of `s` to the first `j` of `t`: cell (i, j). */
  ghost function D(c: Costs, s: string, t: string, i: nat, j: nat): int
    requires i <= |s| && j <= |t|
  {
    Dist(c, s[..i], t[..j])
  }

  lemma {:induction false} CellRecurrence(c: Costs, s: string, t: string, i: nat, j: nat)
    requires 1 <= i <= |s| && 1 <= j <= |t|
    ensures D(c, s, t, i, j) ==
            Min(Min(D(c, s, t, i, j - 1) + c.ins, D(c, s, t, i - 1, j) + c.del),
                D(c, s, t, i - 1, j - 1) + Change(c, s[i - 1], t[j - 1]))
  {
    assert Front(s[..i]) == s[..i - 1];
    assert Front(t[..j]) == t[..j - 1];
  }

  lemma {:induction false} EdgeCells(c: Costs, s: string, t: string)
    ensures forall i {:trigger D(c, s, t, i, 0)} :: 0 <= i <= |s| ==> D(c, s, t, i, 0) == i * c.del
    ensures forall j {:trigger D(c, s, t, 0, j)} :: 0 <= j <= |t| ==> D(c, s, t, 0, j) == j * c.ins
  {
  }

  // ----- the inner loop, shared by both compilations -----

  /** Columns `from..stop` of row `curr` hold the minimum over their three predecessors. */
  ghost predicate Filled(c: Costs, s: string, y: char, prev: seq<int>, curr: seq<int>, from: int, stop: int)
    requires 1 <= from && stop <= |s| + 1 && |prev| == |curr| == |s| + 1
  {
    forall i :: from <= i < stop ==> curr[i] == BestOfThree(c, s, y, prev, curr, i)
  }

  ghost function BestOfThree(c: Costs, s: string, y: char, prev: seq<int>, curr: seq<int>, i: int): int
    requires 1 <= i <= |s| && |prev| == |curr| == |s| + 1
  {
    Min(Min(prev[i] + c.ins, curr[i - 1] + c.del), prev[i - 1] + Change(c, s[i - 1], y))
  }

  method FillRow(c: Costs, s: string, y: char, prev: array<int>, curr: array<int>, from: int, stop: int, xData: int)
    requires prev != curr && prev.Length == curr.Length == |s| + 1
    requires 1 <= from <= stop <= |s| + 1 && xData == from - 1
    modifies curr
    ensures Filled(c, s, y, prev[..], curr[..], from, stop)
    ensures forall i :: 0 <= i < curr.Length && !(from <= i < stop) ==> curr[i] == old(curr[i])
  {
    var i, x := from, xData;
    while i < stop
      invariant from <= i <= stop && x == i - 1
      invariant forall k :: 0 <= k < curr.Length && !(from <= k < i) ==> curr[k] == old(curr[k])
      invariant Filled(c, s, y, prev[..], curr[..], from, i)
    {
      var ins := prev[i] + c.ins;
      var del := curr[i - 1] + c.del;
      var sub := prev[i - 1] + (if s[x] == y then 0 else c.sub);
      ghost var before := curr[..];
      curr[i] := Min(ins, del);
      curr[i] := Min(curr[i], sub);
      FilledExtends(c, s, y, prev[..], before, curr[..], from, i);
      x := x + 1;
      i := i + 1;
    }
  }

  lemma {:induction false} FilledExtends(c: Costs, s: string, y: char, prev: seq<int>,
                                         before: seq<int>, curr: seq<int>, from: int, i: int)
    requires 1 <= from <= i <= |s| && |prev| == |before| == |curr| == |s| + 1
    requires Filled(c, s, y, prev, before, from, i)
    requires forall k :: 0 <= k <= |s| && k != i ==> curr[k] == before[k]
    requires curr[i] == BestOfThree(c, s, y, prev, curr, i)
    ensures Filled(c, s, y, prev, curr, from, i + 1)
  {
    forall k | from <= k < i + 1
      ensures curr[k] == BestOfThree(c, s, y, prev, curr, k)
    {
      if k < i {
        assert before[k] == BestOfThree(c, s, y, prev, before, k);
      }
    }
  }

  // ----- the plain programme -----

  ghost predicate ExactRow(c: Costs, s: string, t: string, j: nat, row: seq<int>)
    requires j <= |t| && |row| == |s| + 1
  {
    forall i :: 0 <= i <= |s| ==> row[i] == D(c, s, t, i, j)
  }

  lemma {:induction false} NextExactRow(c: Costs, s: string, t: string, j: nat, prev: seq<int>, curr: seq<int>)
    requires 1 <= j <= |t| && |prev| == |curr| == |s| + 1
    requires ExactRow(c, s, t, j - 1, prev)
    requires curr[0] == j * c.ins
    requires Filled(c, s, t[j - 1], prev, curr, 1, |s| + 1)
    ensures ExactRow(c, s, t, j, curr)
  {
    EdgeCells(c, s, t);
    var i := 0;
    while i < |s|
      invariant 0 <= i <= |s|
      invariant forall k :: 0 <= k <= i ==> curr[k] == D(c, s, t, k, j)
    {
      i := i + 1;
      CellRecurrence(c, s, t, i, j);
      assert curr[i] == BestOfThree(c, s, t[j - 1], prev, curr, i);
    }
  }

  /** `levenshtein_internal` returns the distance, for costs of any sign. */
  method LevenshteinInternal(s: string, t: string, c: Costs) returns (r: Answer)
    ensures r == if Rejected(s, t) then TooLong else Distance(Dist(c, s, t))
  {
    if |s| == 0 { return Distance(|t| * c.ins); }
    if |t| == 0 { return Distance(|s| * c.del); }
    if |s| > MAX_LEVENSHTEIN_STRLEN || |t| > MAX_LEVENSHTEIN_STRLEN { return TooLong; }
    var m, n := |s| + 1, |t| + 1;
    var prev, curr := new int[m], new int[m];
    EdgeCells(c, s, t);
    for i := 0 to m
      invariant forall k :: 0 <= k < i ==> prev[k] == k * c.del
    {
      prev[i] := i * c.del;
    }
    assert ExactRow(c, s, t, 0, prev[..]);
    var j := 1;
    while j < n
      invariant 1 <= j <= n
      invariant prev != curr && prev.Length == curr.Length == m && fresh(prev) && fresh(curr)
      invariant ExactRow(c, s, t, j - 1, prev[..])
    {
      curr[0] := j * c.ins;
      FillRow(c, s, t[j - 1], prev, curr, 1, m, 0);
      NextExactRow(c, s, t, j, prev[..], curr[..]);
      prev, curr := curr, prev;
      j := j + 1;
    }
    assert prev[..][|s|] == D(c, s, t, |s|, |t|);
    assert s[..|s|] == s && t[..|t|] == t;
    return Distance(prev[m - 1]);
  }
}
