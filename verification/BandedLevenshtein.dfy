/** The two row arrays of `levenshtein_less_equal` and the loops that fill and slide their window. */
module BandedLevenshtein {
  import opened EditDistance
  import opened Levenshtein
  import opened BoundedDistance
  import opened Options

  /** The row array holds the window in its columns. */
  ghost predicate Holds(row: seq<int>, w: Window) {
    Stop(w) <= |row| && forall i :: w.start <= i < Stop(w) ==> row[i] == w.cells[i - w.start]
  }

  /** The column just left of the window is over the bound in both row arrays. */
  ghost predicate Sentinels(p: Problem, prev: seq<int>, curr: seq<int>, start: int)
    requires |prev| == |curr| == |p.s| + 1 && start <= |p.s| + 1
  {
    start > 0 ==> prev[start - 1] == curr[start - 1] == p.maxD + 1
  }

  /** Where the inner loop starts reading `s`. */
  function DataFor(start: nat): nat {
    if start > 0 then start - 1 else 0
  }

  /** The arrays and the loop variables stand for the window `w`. */
  ghost predicate Ready(p: Problem, prev: seq<int>, curr: seq<int>, start: nat, stop: nat, sData: nat, w: Window) {
    && |prev| == |curr| == |p.s| + 1 && start == w.start < stop == Stop(w) <= |p.s| + 1 && sData == DataFor(start)
    && Holds(prev, w) && Sentinels(p, prev, curr, start)
  }

  /** Column `i` of the new row is what lies below the window, next to its left neighbour. */
  ghost predicate CellIs(p: Problem, j: nat, w: Window, curr: seq<int>, i: nat)
    requires 1 <= j <= |p.t| && w.start <= i <= |p.s| && |curr| == |p.s| + 1
  {
    curr[i] == NewCell(p, j, w, i, if i == w.start then p.maxD + 1 else curr[i - 1])
  }

  lemma {:induction false} CellsAreBelow(p: Problem, j: nat, w: Window, curr: seq<int>, stop: nat, k: nat)
    requires 1 <= j <= |p.t| && w.start + k <= stop <= |p.s| + 1 == |curr|
    requires forall i :: w.start <= i < stop ==> CellIs(p, j, w, curr, i)
    ensures curr[w.start..w.start + k] == Below(p, j, w, k)
  {
    if k > 0 {
      CellsAreBelow(p, j, w, curr, stop, k - 1);
      var front, i := curr[w.start..w.start + k - 1], w.start + k - 1;
      assert curr[w.start..w.start + k] == front + [curr[i]];
      assert CellIs(p, j, w, curr, i);
      assert k > 1 ==> front[k - 2] == curr[i - 1];
    }
  }

  /** The row above, with a column opened, reads like the window. */
  lemma {:induction false} ReadsAsWindow(p: Problem, w: Window, above: seq<int>, prev: seq<int>, stop: nat, i: nat)
    requires |above| == |prev| && Stop(w) <= stop <= |prev| && stop <= Stop(w) + 1 && Holds(above, w)
    requires forall i :: 0 <= i < |prev| ==> prev[i] == if i == Stop(w) && i < stop then p.maxD + 1 else above[i]
    requires 0 < w.start ==> above[w.start - 1] == p.maxD + 1
    requires w.start - 1 <= i < stop
    ensures prev[i] == Look(p, w, i)
  {
  }

  /** From what the inner loop wrote to the window of the new row. */
  lemma {:induction false} RowDone(p: Problem, j: nat, w: Window, above: seq<int>, prev: seq<int>, curr: seq<int>,
                                   stop: nat)
    requires 1 <= j <= |p.t| && |above| == |prev| == |curr| == |p.s| + 1 && w.cells != []
    requires stop == (if Stop(w) < |p.s| + 1 then Stop(w) + 1 else Stop(w)) && Holds(above, w)
    requires forall i :: 0 <= i < |prev| ==> prev[i] == if i == Stop(w) && i < stop then p.maxD + 1 else above[i]
    requires if w.start == 0 then curr[0] == j * p.c.ins else above[w.start - 1] == curr[w.start - 1] == p.maxD + 1
    requires Filled(p.c, p.s, p.t[j - 1], prev, curr, if w.start == 0 then 1 else w.start, stop)
    ensures Holds(curr, Advance(p, j, w))
  {
    forall i | w.start <= i < stop ensures CellIs(p, j, w, curr, i) {
      if i > 0 {
        ReadsAsWindow(p, w, above, prev, stop, i);
        ReadsAsWindow(p, w, above, prev, stop, i - 1);
        assert curr[i] == BestOfThree(p.c, p.s, p.t[j - 1], prev, curr, i);
      }
    }
    CellsAreBelow(p, j, w, curr, stop, stop - w.start);
    SliceHolds(curr, Advance(p, j, w));
  }

  lemma {:induction false} SliceHolds(row: seq<int>, v: Window)
    requires Stop(v) <= |row| && row[v.start..Stop(v)] == v.cells
    ensures Holds(row, v)
  {
    forall i | v.start <= i < Stop(v) ensures row[i] == v.cells[i - v.start] {
      assert row[v.start..Stop(v)][i - v.start] == row[i];
    }
  }

  /** Opens one more column, seeds column 0 and fills row `j`. */
  method NextRow(p: Problem, j: nat, prev: array<int>, curr: array<int>, start: nat, stop0: nat, sData: nat,
                 ghost w: Window) returns (stop: nat)
    requires 1 <= j <= |p.t| && prev != curr && Ready(p, prev[..], curr[..], start, stop0, sData, w)
    modifies prev, curr
    ensures Ready(p, curr[..], prev[..], start, stop, sData, Advance(p, j, w))
  {
    ghost var above := prev[..];
    stop := stop0;
    if stop < |p.s| + 1 {
      prev[stop] := p.maxD + 1;
      stop := stop + 1;
    }
    var i := start;
    if start == 0 {
      curr[0] := j * p.c.ins;
      i := 1;
    }
    FillRow(p.c, p.s, p.t[j - 1], prev, curr, i, stop, sData);
    RowDone(p, j, w, above, prev[..], curr[..], stop);
  }

  /** What the code adds to a cell to see whether it can still meet the bound. */
  function RestFrom(p: Problem, i: int, j: int): (r: int)
    ensures r == Rest(p, i, j)
  {
    var zp := j - (|p.t| - |p.s|);
    var netInserts := i - zp;
    if netInserts > 0 then netInserts * p.c.ins else -netInserts * p.c.del
  }

  /** Dropping the last cell does not change what is left in the end. */
  lemma {:induction false} TrimOnce(p: Problem, j: nat, w: Window, k: nat)
    requires 0 < k <= |w.cells| && Drops(p, w.start + k - 1, j, w.cells[k - 1])
    ensures TrimRight(p, j, Window(w.start, w.cells[..k])) == TrimRight(p, j, Window(w.start, w.cells[..k - 1]))
  {
    assert w.cells[..k][..k - 1] == w.cells[..k - 1];
  }

  lemma {:induction false} TrimStops(p: Problem, j: nat, w: Window, k: nat)
    requires 0 < k <= |w.cells| && !Drops(p, w.start + k - 1, j, w.cells[k - 1])
    ensures TrimRight(p, j, Window(w.start, w.cells[..k])) == Window(w.start, w.cells[..k])
  {
    assert w.cells[..k][k - 1] == w.cells[k - 1];
  }

  /** The columns below `stop` trim to `goal`; left of the window nothing remains. */
  ghost predicate Trimming(p: Problem, j: nat, w: Window, stop: nat, goal: Window) {
    && stop <= Stop(w)
    && (if stop <= w.start then goal.cells == [] else TrimRight(p, j, Window(w.start, w.cells[..stop - w.start])) == goal)
  }

  lemma {:induction false} TrimStep(p: Problem, j: nat, row: seq<int>, w: Window, stop: nat, goal: Window)
    requires 0 < stop && Holds(row, w) && Trimming(p, j, w, stop, goal)
    ensures Drops(p, stop - 1, j, row[stop - 1]) ==> Trimming(p, j, w, stop - 1, goal)
    ensures !Drops(p, stop - 1, j, row[stop - 1]) && stop > w.start ==> goal == Window(w.start, w.cells[..stop - w.start])
  {
    if stop > w.start {
      assert row[stop - 1] == w.cells[stop - 1 - w.start];
      if Drops(p, stop - 1, j, row[stop - 1]) {
        TrimOnce(p, j, w, stop - w.start);
      } else {
        TrimStops(p, j, w, stop - w.start);
      }
    }
  }

  /** The first loop; past an empty window it may go on to the left. */
  method SlideStop(p: Problem, j: nat, prev: array<int>, start: nat, stop0: nat, ghost w: Window) returns (stop: nat)
    requires prev.Length == |p.s| + 1 && start == w.start && stop0 == Stop(w) && Holds(prev[..], w)
    ensures var v := TrimRight(p, j, w); if v.cells == [] then stop <= start else stop == Stop(v)
  {
    stop := stop0;
    assert w.cells[..|w.cells|] == w.cells;
    ghost var goal := TrimRight(p, j, w);
    while stop > 0
      invariant 0 <= stop && Trimming(p, j, w, stop, goal)
    {
      var ii := stop - 1;
      TrimStep(p, j, prev[..], w, stop, goal);
      if prev[ii] + RestFrom(p, ii, j) <= p.maxD {
        break;
      }
      stop := stop - 1;
    }
  }

  method SlideStart(p: Problem, j: nat, prev: array<int>, curr: array<int>, start0: nat, stop: nat, sData0: nat,
                    ghost w: Window) returns (start: nat, sData: nat)
    requires prev != curr && prev.Length == curr.Length == |p.s| + 1
    requires start0 == w.start <= |p.s| + 1 && sData0 == DataFor(start0) && Holds(prev[..], w)
    requires if w.cells == [] then stop <= start0 else stop == Stop(w)
    requires Sentinels(p, prev[..], curr[..], start0)
    modifies prev, curr
    ensures var v := TrimLeft(p, j, w);
      && (v.cells == [] <==> start >= stop)
      && (v.cells != [] ==> Ready(p, prev[..], curr[..], start, stop, sData, v))
  {
    start, sData := start0, sData0;
    ghost var v, goal := w, TrimLeft(p, j, w);
    while start < stop
      invariant start == v.start <= |p.s| + 1 && TrimLeft(p, j, v) == goal
      invariant if v.cells == [] then stop <= start else stop == Stop(v)
      invariant sData == DataFor(start) && Holds(prev[..], v) && Sentinels(p, prev[..], curr[..], start)
    {
      assert prev[..][start] == v.cells[0];
      if prev[start] + RestFrom(p, start, j) <= p.maxD {
        return;
      }
      start, sData := DropColumn(p, prev, curr, start, sData, v);
      v := Window(start, v.cells[1..]);
    }
  }

  /** The first column of the window is given up in both arrays. */
  method DropColumn(p: Problem, prev: array<int>, curr: array<int>, start0: nat, sData0: nat, ghost v: Window)
    returns (start: nat, sData: nat)
    requires prev != curr && prev.Length == curr.Length == |p.s| + 1
    requires start0 == v.start && sData0 == DataFor(start0) && v.cells != [] && Holds(prev[..], v)
    modifies prev, curr
    ensures start == start0 + 1 <= |p.s| + 1 && sData == DataFor(start)
    ensures Holds(prev[..], Window(start, v.cells[1..])) && Sentinels(p, prev[..], curr[..], start)
  {
    ghost var before := prev[..];
    prev[start0] := p.maxD + 1;
    curr[start0] := p.maxD + 1;
    sData := sData0;
    if start0 != 0 {
      sData := sData + 1;
    }
    start := start0 + 1;
    HoldsRest(before, prev[..], v);
  }

  lemma {:induction false} HoldsRest(before: seq<int>, after: seq<int>, v: Window)
    requires Holds(before, v) && v.cells != [] && |before| == |after|
    requires forall i :: v.start < i < |after| ==> after[i] == before[i]
    ensures Holds(after, Window(v.start + 1, v.cells[1..]))
  {
    var u := Window(v.start + 1, v.cells[1..]);
    forall i | u.start <= i < Stop(u) ensures after[i] == u.cells[i - u.start] {
      assert before[i] == v.cells[i - v.start];
    }
  }

  /** Both slides. */
  method Slide(p: Problem, j: nat, prev: array<int>, curr: array<int>, start0: nat, stop0: nat, sData0: nat,
               ghost w: Window) returns (start: nat, stop: nat, sData: nat)
    requires prev != curr && prev.Length == curr.Length == |p.s| + 1
    requires Ready(p, prev[..], curr[..], start0, stop0, sData0, w)
    modifies prev, curr
    ensures var v := TrimLeft(p, j, TrimRight(p, j, w));
      && (v.cells == [] <==> start >= stop)
      && (v.cells != [] ==> Ready(p, prev[..], curr[..], start, stop, sData, v))
  {
    stop := SlideStop(p, j, prev, start0, stop0, w);
    ghost var v := TrimRight(p, j, w);
    assert Holds(prev[..], v);
    start, sData := SlideStart(p, j, prev, curr, start0, stop, sData0, v);
  }

  /** One turn of the main loop: the next row is filled in the other array, then its window slides. */
  method Turn(p: Problem, j: nat, prev: array<int>, curr: array<int>, start0: nat, stop0: nat, sData0: nat, ghost w: Window)
    returns (start: nat, stop: nat, sData: nat, ghost v: Window)
    requires 1 <= j <= |p.t| && prev != curr && Ready(p, prev[..], curr[..], start0, stop0, sData0, w)
    modifies prev, curr
    ensures start >= stop ==> p.maxD >= 0 && Sweep(p, j, w) == Some(p.maxD + 1)
    ensures start < stop ==> Ready(p, curr[..], prev[..], start, stop, sData, v) && Sweep(p, j, w) == Sweep(p, j + 1, v)
  {
    start, sData := start0, sData0;
    stop := NextRow(p, j, prev, curr, start, stop0, sData, w);
    v := Advance(p, j, w);
    if p.maxD >= 0 {
      start, stop, sData := Slide(p, j, curr, prev, start, stop, sData, v);
      v := TrimLeft(p, j, TrimRight(p, j, v));
    }
  }

  /** The main loop refines the sweep over windows. */
  method RunBand(p: Problem, stop0: nat) returns (d: int)
    requires p.s != [] && p.t != [] && 1 <= stop0 <= |p.s| + 1
    ensures var r := Sweep(p, 1, FirstWindow(p, stop0)); r.Some? ==> d == r.value
  {
    var m, n := |p.s| + 1, |p.t| + 1;
    var prev, curr := new int[m], new int[m];
    var start, stop, sData := 0, stop0, 0;
    for i := start to stop
      invariant forall k :: 0 <= k < i ==> prev[k] == k * p.c.del
    {
      prev[i] := i * p.c.del;
    }
    ghost var w := FirstWindow(p, stop0);
    ghost var goal := Sweep(p, 1, w);
    var j := 1;
    while j < n
      invariant 1 <= j <= n && prev != curr && prev.Length == m && fresh(prev) && fresh(curr)
      invariant 0 <= start && 0 <= stop && 0 <= sData && Ready(p, prev[..], curr[..], start, stop, sData, w)
      invariant Sweep(p, j, w) == goal
    {
      start, stop, sData, w := Turn(p, j, prev, curr, start, stop, sData, w);
      prev, curr := curr, prev;
      if start >= stop {
        return p.maxD + 1;
      }
      j := j + 1;
    }
    assert Stop(w) == m ==> prev[..][m - 1] == w.cells[m - 1 - w.start];
    return prev[m - 1];
  }

  /** `levenshtein_less_equal_internal`: on an empty argument the distance; otherwise the answer of the
      bounded programme, which is exact without a bound, and for the right costs up to the bound. */
  method LevenshteinLessEqualInternal(s: string, t: string, costs: Costs, bound: int) returns (r: Answer)
    ensures Rejected(s, t) ==> r == TooLong
    ensures !Rejected(s, t) ==> r.Distance?
    ensures s == [] || t == [] ==> r == Distance(Dist(costs, s, t))
    ensures !Rejected(s, t) && s != [] && t != [] ==>
              var b := Bounded(costs, s, t, bound); b.Some? ==> r == Distance(b.value)
    ensures !Rejected(s, t) && bound < 0 ==> r == Distance(Dist(costs, s, t))
    ensures !Rejected(s, t) && s != [] && t != [] && 0 <= bound && RightCosts(costs) ==>
              r == Distance(Min(Dist(costs, s, t), bound + 1))
  {
    if |s| == 0 { return Distance(|t| * costs.ins); }
    if |t| == 0 { return Distance(|s| * costs.del); }
    if |s| > MAX_LEVENSHTEIN_STRLEN || |t| > MAX_LEVENSHTEIN_STRLEN { return TooLong; }
    if bound < 0 {
      UnboundedExact(costs, s, t, bound);
    } else if RightCosts(costs) {
      RightCostsSuffice(costs, s, t, bound);
    }
    var plan := Prepare(costs, |s|, |t|, bound);
    if plan.Hopeless? {
      return Distance(bound + 1);
    }
    var d := RunBand(Problem(plan.c, s, t, plan.maxD), plan.stop);
    return Distance(d);
  }
}
