/** `levenshtein_less_equal`: the two-row programme with a bound, which fills only a window of each row. */
module BoundedDistance {
  import opened EditDistance
  import opened Levenshtein
  import opened Options

  /** The bounded problem; a negative `maxD` means no bound. */
  datatype Problem = Problem(c: Costs, s: string, t: string, maxD: int)

  // ----- what a cell may hold -----

  /** Without a bound nothing is pruned, so the costs may have any sign. */
  ghost predicate Sensible(p: Problem) {
    (NonNegative(p.c) || p.maxD < 0) && p.s != [] && p.t != []
  }

  ghost function DP(p: Problem, i: nat, j: nat): int
    requires i <= |p.s| && j <= |p.t|
  {
    D(p.c, p.s, p.t, i, j)
  }

  /** Cheapest way from cell (i, j) to the final cell if every remaining character matched. */
  function Rest(p: Problem, i: int, j: int): int {
    Residual(p.c, |p.s| - i, |p.t| - j)
  }

  /** No alignment through cell (i, j) can stay within the bound. */
  ghost predicate Over(p: Problem, i: nat, j: nat)
    requires i <= |p.s| && j <= |p.t|
  {
    0 <= p.maxD < DP(p, i, j) + Rest(p, i, j)
  }

  /** `v` is the exact distance, unless the cell is over the bound; then `v` is over it as well. */
  ghost predicate CellOk(p: Problem, i: nat, j: nat, v: int)
    requires i <= |p.s| && j <= |p.t|
  {
    if Over(p, i, j) then v + Rest(p, i, j) > p.maxD else v == DP(p, i, j)
  }

  lemma {:induction false} SentinelOk(p: Problem, i: nat, j: nat)
    requires Sensible(p) && i <= |p.s| && j <= |p.t| && Over(p, i, j)
    ensures CellOk(p, i, j, p.maxD + 1)
  {
    ResidualSteps(p.c, |p.s| - i, |p.t| - j);
  }

  /** One cell of the inner loop keeps `CellOk`. */
  lemma {:induction false} CellStep(p: Problem, i: nat, j: nat, above: int, left: int, diagonal: int)
    requires Sensible(p) && 1 <= i <= |p.s| && 1 <= j <= |p.t|
    requires CellOk(p, i, j - 1, above) && CellOk(p, i - 1, j, left) && CellOk(p, i - 1, j - 1, diagonal)
    ensures CellOk(p, i, j, Min(Min(above + p.c.ins, left + p.c.del), diagonal + Change(p.c, p.s[i - 1], p.t[j - 1])))
  {
    CellRecurrence(p.c, p.s, p.t, i, j);
    if 0 <= p.maxD {
      ResidualSteps(p.c, |p.s| - i, |p.t| - j);
    }
  }

  /** Over-the-bound cells above, to the left and on the diagonal leave no way in. */
  lemma {:induction false} OverSpreads(p: Problem, i: nat, j: nat)
    requires Sensible(p) && i <= |p.s| && 1 <= j <= |p.t|
    requires Over(p, i, j - 1)
    requires i > 0 ==> Over(p, i - 1, j) && Over(p, i - 1, j - 1)
    ensures Over(p, i, j)
  {
    ResidualSteps(p.c, |p.s| - i, |p.t| - j);
    if i == 0 {
      EdgeCells(p.c, p.s, p.t);
      OneMore(j - 1, p.c.ins);
    } else {
      CellRecurrence(p.c, p.s, p.t, i, j);
    }
  }

  /** An over-the-bound cell stays so one step down its diagonal. */
  lemma {:induction false} OverDiagonal(p: Problem, i: nat, j: nat)
    requires Sensible(p) && 1 <= i <= |p.s| && 1 <= j <= |p.t|
    requires Over(p, i - 1, j - 1)
    ensures Over(p, i, j)
  {
    assert Front(p.s[..i]) == p.s[..i - 1];
    assert Front(p.t[..j]) == p.t[..j - 1];
    DiagonalMonotone(p.c, p.s[..i], p.t[..j]);
    ResidualSteps(p.c, |p.s| - i, |p.t| - j);
  }

  /** Every column of row `j` outside `start..stop` is over the bound. */
  ghost predicate OutsideOver(p: Problem, j: nat, start: int, stop: int)
    requires j <= |p.t|
  {
    forall i :: 0 <= i <= |p.s| && (i < start || stop <= i) ==> Over(p, i, j)
  }

  /** The window may move down a row if its right end grows by one column. */
  lemma {:induction false} BandMovesDown(p: Problem, j: nat, start: int, stop: int)
    requires Sensible(p) && 1 <= j <= |p.t| && 0 <= start
    requires OutsideOver(p, j - 1, start, stop)
    ensures OutsideOver(p, j, start, stop + 1)
  {
    var i := 0;
    while i < start && i <= |p.s|
      invariant 0 <= i && (i <= start || i <= |p.s| + 1)
      invariant forall k :: 0 <= k < i && k <= |p.s| && k < start ==> Over(p, k, j)
    {
      OverSpreads(p, i, j);
      i := i + 1;
    }
    forall k | 0 <= k <= |p.s| && stop + 1 <= k && k >= start
      ensures Over(p, k, j)
    {
      if k > 0 {
        OverDiagonal(p, k, j);
      } else {
        OverSpreads(p, 0, j);
      }
    }
  }

  /** Once a whole row is over the bound, so is the answer. */
  lemma {:induction false} CrossedMeansOver(p: Problem, j: nat)
    requires Sensible(p) && j <= |p.t|
    requires forall i :: 0 <= i <= |p.s| ==> Over(p, i, j)
    ensures 0 <= p.maxD < Dist(p.c, p.s, p.t)
    decreases |p.t| - j
  {
    if j == |p.t| {
      assert Over(p, |p.s|, j);
      assert p.s[..|p.s|] == p.s && p.t[..|p.t|] == p.t;
    } else {
      BandMovesDown(p, j + 1, |p.s| + 1, |p.s| + 1);
      CrossedMeansOver(p, j + 1);
    }
  }

  lemma {:induction false} RestInLastRow(p: Problem, i: int)
    requires i < |p.s|
    ensures Rest(p, i, |p.t|) == p.c.del + Rest(p, i + 1, |p.t|)
  {
    OneMore(|p.s| - i - 1, p.c.del);
  }

  lemma {:induction false} NextInLastRow(p: Problem, i: nat)
    requires i < |p.s|
    ensures DP(p, i + 1, |p.t|) <= DP(p, i, |p.t|) + p.c.del
  {
    assert Front(p.s[..i + 1]) == p.s[..i];
    DropSource(p.c, p.s[..i + 1], p.t[..|p.t|]);
  }

  /** In the last row, a cell within the bound puts the final cell within the bound. */
  lemma {:induction false} WithinInLastRow(p: Problem, i: nat)
    requires i <= |p.s| && 0 <= p.maxD && !Over(p, i, |p.t|)
    ensures !Over(p, |p.s|, |p.t|)
    decreases |p.s| - i
  {
    if i < |p.s| {
      RestInLastRow(p, i);
      NextInLastRow(p, i);
      WithinInLastRow(p, i + 1);
    }
  }

  // ----- the window of a row -----

  /** The part of a row that is filled: the columns from `start` on. */
  datatype Window = Window(start: nat, cells: seq<int>)

  ghost function Stop(w: Window): nat {
    w.start + |w.cells|
  }

  /** What the next row reads in column `i`: outside the window, the bound plus one. */
  ghost function Look(p: Problem, w: Window, i: int): int {
    if w.start <= i < Stop(w) then w.cells[i - w.start] else p.maxD + 1
  }

  /** Column `i` of row `j` below the window `w`, next to `left`. */
  ghost function NewCell(p: Problem, j: nat, w: Window, i: nat, left: int): int
    requires i <= |p.s| && 1 <= j <= |p.t|
  {
    if i == 0 then j * p.c.ins
    else Min(Min(Look(p, w, i) + p.c.ins, left + p.c.del), Look(p, w, i - 1) + Change(p.c, p.s[i - 1], p.t[j - 1]))
  }

  /** The first `k` cells of row `j` below the window `w`. */
  ghost function Below(p: Problem, j: nat, w: Window, k: nat): (r: seq<int>)
    requires w.start + k <= |p.s| + 1 && 1 <= j <= |p.t|
    ensures |r| == k
  {
    if k == 0 then []
    else
      var front := Below(p, j, w, k - 1);
      front + [NewCell(p, j, w, w.start + k - 1, if k == 1 then p.maxD + 1 else front[k - 2])]
  }

  /** The next row's window: one more column on the right, if there is one. */
  ghost function Advance(p: Problem, j: nat, w: Window): (v: Window)
    requires Stop(w) <= |p.s| + 1 && 1 <= j <= |p.t|
    ensures v.start == w.start && Stop(v) == if Stop(w) < |p.s| + 1 then Stop(w) + 1 else Stop(w)
  {
    Window(w.start, Below(p, j, w, if Stop(w) < |p.s| + 1 then |w.cells| + 1 else |w.cells|))
  }

  /** The test of both sliding loops. */
  predicate Drops(p: Problem, i: int, j: int, v: int) {
    v + Rest(p, i, j) > p.maxD
  }

  ghost function TrimRight(p: Problem, j: nat, w: Window): (v: Window)
    ensures v.start == w.start && Stop(v) <= Stop(w)
    ensures v.cells <= w.cells
    decreases |w.cells|
  {
    if w.cells == [] || !Drops(p, Stop(w) - 1, j, w.cells[|w.cells| - 1]) then w
    else TrimRight(p, j, Window(w.start, w.cells[..|w.cells| - 1]))
  }

  ghost function TrimLeft(p: Problem, j: nat, w: Window): (v: Window)
    ensures Stop(v) == Stop(w) && w.start <= v.start
    decreases |w.cells|
  {
    if w.cells == [] || !Drops(p, w.start, j, w.cells[0]) then w
    else TrimLeft(p, j, Window(w.start + 1, w.cells[1..]))
  }

  /** The answer reached from row `j - 1` with window `w`. There is none if the window has left the final
      column behind: then the routine returns a cell it has not filled. */
  ghost function Sweep(p: Problem, j: nat, w: Window): Option<int>
    requires 1 <= j <= |p.t| + 1 && w.cells != [] && Stop(w) <= |p.s| + 1
    decreases |p.t| + 1 - j
  {
    if j > |p.t| then
      if Stop(w) == |p.s| + 1 then Some(w.cells[|w.cells| - 1]) else None
    else
      var next := Advance(p, j, w);
      if p.maxD < 0 then Sweep(p, j + 1, next)
      else
        var kept := TrimLeft(p, j, TrimRight(p, j, next));
        if kept.cells == [] then Some(p.maxD + 1) else Sweep(p, j + 1, kept)
  }

  /** Row 0: deletions only. */
  ghost function FirstWindow(p: Problem, stop: nat): Window {
    Window(0, seq(stop, i => i * p.c.del))
  }

  // ----- windows keep the cells that count -----

  ghost predicate WindowOk(p: Problem, j: nat, w: Window)
    requires j <= |p.t| && Stop(w) <= |p.s| + 1
  {
    && (forall i :: w.start <= i < Stop(w) ==> CellOk(p, i, j, Look(p, w, i)))
    && OutsideOver(p, j, w.start, Stop(w))
  }

  lemma {:induction false} LookOk(p: Problem, j: nat, w: Window, i: nat)
    requires Sensible(p) && j <= |p.t| && Stop(w) <= |p.s| + 1 && WindowOk(p, j, w) && i <= |p.s|
    ensures CellOk(p, i, j, Look(p, w, i))
  {
    if !(w.start <= i < Stop(w)) {
      assert Over(p, i, j);
      SentinelOk(p, i, j);
    }
  }

  lemma {:induction false} LeftEdgeOk(p: Problem, j: nat, w: Window)
    requires Sensible(p) && 1 <= j <= |p.t| && Stop(w) <= |p.s| + 1 && WindowOk(p, j - 1, w) && 0 < w.start <= |p.s|
    ensures CellOk(p, w.start - 1, j, p.maxD + 1)
  {
    BandMovesDown(p, j, w.start, Stop(w));
    SentinelOk(p, w.start - 1, j);
  }

  lemma {:induction false} NewCellOk(p: Problem, j: nat, w: Window, i: nat, left: int)
    requires Sensible(p) && 1 <= j <= |p.t| && Stop(w) <= |p.s| + 1 && WindowOk(p, j - 1, w)
    requires i <= |p.s| && (i > 0 ==> CellOk(p, i - 1, j, left))
    ensures CellOk(p, i, j, NewCell(p, j, w, i, left))
  {
    if i == 0 {
      EdgeCells(p.c, p.s, p.t);
      if Over(p, 0, j) {
        assert DP(p, 0, j) == j * p.c.ins;
      }
    } else {
      LookOk(p, j - 1, w, i);
      LookOk(p, j - 1, w, i - 1);
      CellStep(p, i, j, Look(p, w, i), left, Look(p, w, i - 1));
    }
  }

  lemma {:induction false} BelowOk(p: Problem, j: nat, w: Window, k: nat)
    requires Sensible(p) && 1 <= j <= |p.t| && Stop(w) <= |p.s| + 1 && WindowOk(p, j - 1, w)
    requires w.start + k <= |p.s| + 1
    ensures forall q :: 0 <= q < k ==> CellOk(p, w.start + q, j, Below(p, j, w, k)[q])
  {
    if k > 0 {
      BelowOk(p, j, w, k - 1);
      LastBelowOk(p, j, w, k);
      forall q | 0 <= q < k - 1 ensures Below(p, j, w, k)[q] == Below(p, j, w, k - 1)[q] {
      }
    }
  }

  lemma {:induction false} LastBelowOk(p: Problem, j: nat, w: Window, k: nat)
    requires Sensible(p) && 1 <= j <= |p.t| && Stop(w) <= |p.s| + 1 && WindowOk(p, j - 1, w)
    requires 0 < k && w.start + k <= |p.s| + 1
    requires k > 1 ==> CellOk(p, w.start + (k - 2), j, Below(p, j, w, k - 1)[k - 2])
    ensures CellOk(p, w.start + (k - 1), j, Below(p, j, w, k)[k - 1])
  {
    if k == 1 && w.start > 0 {
      LeftEdgeOk(p, j, w);
    }
    NewCellOk(p, j, w, w.start + k - 1, if k == 1 then p.maxD + 1 else Below(p, j, w, k - 1)[k - 2]);
  }

  lemma {:induction false} AdvanceOk(p: Problem, j: nat, w: Window)
    requires Sensible(p) && 1 <= j <= |p.t| && Stop(w) <= |p.s| + 1 && WindowOk(p, j - 1, w)
    ensures WindowOk(p, j, Advance(p, j, w))
  {
    var v := Advance(p, j, w);
    BelowOk(p, j, w, |v.cells|);
    forall i | v.start <= i < Stop(v) ensures CellOk(p, i, j, Look(p, v, i)) {
      assert CellOk(p, w.start + (i - w.start), j, v.cells[i - w.start]);
    }
    BandMovesDown(p, j, w.start, Stop(w));
  }

  /** The test of the sliding loops decides exactly whether the cell is over the bound. */
  lemma {:induction false} SlideTest(p: Problem, i: nat, j: nat, v: int)
    requires i <= |p.s| && j <= |p.t| && 0 <= p.maxD && CellOk(p, i, j, v)
    ensures Over(p, i, j) <==> Drops(p, i, j, v)
  {
  }

  lemma {:induction false} TrimRightOk(p: Problem, j: nat, w: Window)
    requires j <= |p.t| && 0 <= p.maxD && Stop(w) <= |p.s| + 1 && WindowOk(p, j, w)
    ensures WindowOk(p, j, TrimRight(p, j, w))
    decreases |w.cells|
  {
    if w.cells != [] {
      var i, v := Stop(w) - 1, w.cells[|w.cells| - 1];
      assert Look(p, w, i) == v;
      SlideTest(p, i, j, v);
      if Drops(p, i, j, v) {
        var u := Window(w.start, w.cells[..|w.cells| - 1]);
        assert forall k :: u.start <= k < Stop(u) ==> Look(p, u, k) == Look(p, w, k);
        TrimRightOk(p, j, u);
      }
    }
  }

  lemma {:induction false} TrimLeftOk(p: Problem, j: nat, w: Window)
    requires j <= |p.t| && 0 <= p.maxD && Stop(w) <= |p.s| + 1 && WindowOk(p, j, w)
    ensures var v := TrimLeft(p, j, w); WindowOk(p, j, v) && (v.cells != [] ==> !Over(p, v.start, j))
    decreases |w.cells|
  {
    if w.cells != [] {
      assert Look(p, w, w.start) == w.cells[0];
      SlideTest(p, w.start, j, w.cells[0]);
      if Drops(p, w.start, j, w.cells[0]) {
        var v := Window(w.start + 1, w.cells[1..]);
        assert forall k :: v.start <= k < Stop(v) ==> Look(p, v, k) == Look(p, w, k);
        TrimLeftOk(p, j, v);
      }
    }
  }

  /** The exact distance, or the bound plus one if that is exceeded. */
  ghost function Capped(p: Problem): int {
    if p.maxD < 0 || Dist(p.c, p.s, p.t) <= p.maxD then Dist(p.c, p.s, p.t) else p.maxD + 1
  }

  lemma {:induction false} LastRowAnswers(p: Problem, w: Window)
    requires Sensible(p) && w.cells != [] && Stop(w) <= |p.s| + 1 && WindowOk(p, |p.t|, w)
    requires if p.maxD < 0 then Stop(w) == |p.s| + 1 else !Over(p, w.start, |p.t|)
    ensures Sweep(p, |p.t| + 1, w) == Some(Capped(p))
  {
    var m := |p.s|;
    if p.maxD >= 0 {
      WithinInLastRow(p, w.start);
    }
    assert w.start <= m < Stop(w);
    assert CellOk(p, m, |p.t|, Look(p, w, m));
    assert p.s[..m] == p.s && p.t[..|p.t|] == p.t;
    assert Rest(p, m, |p.t|) == 0;
  }

  /** For sensible problems the windowed programme computes the capped distance. */
  lemma {:induction false} SweepExact(p: Problem, j: nat, w: Window)
    requires Sensible(p) && 1 <= j <= |p.t| + 1 && w.cells != [] && Stop(w) <= |p.s| + 1 && WindowOk(p, j - 1, w)
    requires if p.maxD < 0 then Stop(w) == |p.s| + 1 else j > 1 ==> !Over(p, w.start, j - 1)
    ensures Sweep(p, j, w) == Some(Capped(p))
    decreases |p.t| + 1 - j
  {
    if j > |p.t| {
      LastRowAnswers(p, w);
    } else {
      AdvanceOk(p, j, w);
      var next := Advance(p, j, w);
      if p.maxD < 0 {
        SweepExact(p, j + 1, next);
      } else {
        TrimmedOk(p, j, next);
        var rest := TrimLeft(p, j, TrimRight(p, j, next));
        if rest.cells != [] {
          SweepExact(p, j + 1, rest);
        }
      }
    }
  }

  /** After both slides the window is still right and starts within the bound, or the bound is exceeded. */
  lemma {:induction false} TrimmedOk(p: Problem, j: nat, w: Window)
    requires Sensible(p) && j <= |p.t| && 0 <= p.maxD && Stop(w) <= |p.s| + 1 && WindowOk(p, j, w)
    ensures var v := TrimLeft(p, j, TrimRight(p, j, w));
      && WindowOk(p, j, v)
      && (if v.cells == [] then Capped(p) == p.maxD + 1 else !Over(p, v.start, j))
  {
    TrimRightOk(p, j, w);
    TrimLeftOk(p, j, TrimRight(p, j, w));
    var v := TrimLeft(p, j, TrimRight(p, j, w));
    if v.cells == [] {
      assert forall i :: 0 <= i <= |p.s| ==> Over(p, i, j);
      CrossedMeansOver(p, j);
    }
  }

  // ----- what the bound allows before the first row -----

  /** Hopeless at once, or the costs, bound and first window to go on with. */
  datatype Plan = Hopeless | Plan(c: Costs, maxD: int, stop: int)

  function CappedCosts(c: Costs): Costs {
    if c.ins + c.del < c.sub then c.(sub := c.ins + c.del) else c
  }

  /** Columns of row 0 that can stay within the bound. */
  function FirstStop(c: Costs, m: nat, n: nat, bound: int): (stop: int)
    requires 1 <= m && Residual(c, m, n) <= bound
    ensures 1 <= stop <= m + 1
  {
    if c.ins + c.del > 0 then
      var best := if n < m then m - n else 0;
      var stop := best + (bound - Residual(c, m, n)) / (c.ins + c.del) + 1;
      if stop > m then m + 1 else stop
    else m + 1
  }

  /** Decides whether the bound is hopeless, useless, or narrows the first row. */
  function Prepare(costs: Costs, m: nat, n: nat, bound: int): (plan: Plan)
    requires 1 <= m && 1 <= n
    ensures plan.Hopeless? <==> 0 <= bound < Residual(costs, m, n)
    ensures plan.Plan? ==> 1 <= plan.stop <= m + 1 && (plan.maxD < 0 ==> plan.stop == m + 1)
  {
    var minTheo := Residual(costs, m, n);
    if bound < 0 then Plan(costs, bound, m + 1)
    else if minTheo > bound then Hopeless
    else
      var c := CappedCosts(costs);
      if bound >= minTheo + c.sub * Min(m, n) then Plan(c, -1, m + 1)
      else Plan(c, bound, FirstStop(c, m, n, bound))
  }

  /** Columns of row 0 from `stop` on are over the bound. */
  ghost predicate StopsInTime(c: Costs, m: int, n: int, maxD: int, stop: int) {
    forall i {:trigger Residual(c, m - i, n)} :: stop <= i <= m ==> i * c.del + Residual(c, m - i, n) > maxD
  }

  lemma {:induction false} FirstRowStop(c: Costs, m: int, n: int, maxD: int, stop: int)
    requires 1 <= m && 1 <= n && 0 < c.ins + c.del
    requires Residual(c, m, n) <= maxD && stop == FirstStop(c, m, n, maxD)
    ensures StopsInTime(c, m, n, maxD, stop)
  {
    var w, slack := c.ins + c.del, maxD - Residual(c, m, n);
    var best := if n < m then m - n else 0;
    forall i | stop <= i <= m
      ensures i * c.del + Residual(c, m - i, n) > maxD
    {
      var k := i - best;
      FirstRowCost(c, m, n, i);
      BeyondQuotient(slack, w, k);
    }
  }

  lemma {:induction false} BeyondQuotient(slack: int, w: int, k: int)
    requires 0 <= slack && 0 < w && slack / w + 1 <= k
    ensures slack < k * w
  {
    var q := slack / w;
    assert slack < (q + 1) * w;
    assert (q + 1) * w <= k * w;
  }

  lemma {:induction false} FirstRowCost(c: Costs, m: int, n: int, i: int)
    requires 1 <= m && 1 <= n && (if n < m then m - n else 0) < i <= m
    ensures i * c.del + Residual(c, m - i, n)
            == Residual(c, m, n) + (i - (if n < m then m - n else 0)) * (c.ins + c.del)
  {
    if n < m {
      var k := i - (m - n);
      assert i * c.del == (m - n) * c.del + k * c.del;
      assert k * (c.ins + c.del) == k * c.ins + k * c.del;
    } else {
      assert (n - m + i) * c.ins == (n - m) * c.ins + i * c.ins;
      assert i * (c.ins + c.del) == i * c.ins + i * c.del;
    }
  }

  /** The answer of the bounded programme for non-empty strings. */
  ghost function Bounded(costs: Costs, s: string, t: string, bound: int): Option<int>
    requires s != [] && t != []
  {
    match Prepare(costs, |s|, |t|, bound)
    case Hopeless => Some(bound + 1)
    case Plan(c, maxD, stop) => var p := Problem(c, s, t, maxD); Sweep(p, 1, FirstWindow(p, stop))
  }

  lemma {:induction false} FirstWindowOk(p: Problem, stop: nat)
    requires Sensible(p) && 1 <= stop <= |p.s| + 1 && (p.maxD < 0 ==> stop == |p.s| + 1)
    requires 0 <= p.maxD ==> StopsInTime(p.c, |p.s|, |p.t|, p.maxD, stop)
    ensures WindowOk(p, 0, FirstWindow(p, stop))
  {
    var w := FirstWindow(p, stop);
    EdgeCells(p.c, p.s, p.t);
    forall i | 0 <= i < stop ensures CellOk(p, i, 0, Look(p, w, i)) {
      assert DP(p, i, 0) == i * p.c.del;
    }
    forall i | stop <= i <= |p.s| ensures Over(p, i, 0) {
      assert DP(p, i, 0) == i * p.c.del;
    }
  }

  // ----- for which costs the bound is respected -----

  /** Costs for which no early exit and no pruned cell misleads: none is negative, or none of the length
      costs is positive, or the bound is decided by the length difference alone. */
  predicate RightCosts(c: Costs) {
    || NonNegative(c)
    || (c.ins <= 0 && c.del <= 0)
    || (c.ins + c.del == 0 && c.sub >= 0)
    || (c.ins + c.del >= 0 && c.sub == 0)
  }

  lemma {:induction false} PlanKeepsDistance(costs: Costs, s: string, t: string, bound: int)
    requires s != [] && t != [] && Prepare(costs, |s|, |t|, bound).Plan?
    ensures Dist(Prepare(costs, |s|, |t|, bound).c, s, t) == Dist(costs, s, t)
  {
    if 0 <= bound && costs.ins + costs.del < costs.sub {
      CapSubstitution(costs, s, t);
    }
  }

  /** A plan without a bound leads to the exact distance, whatever the costs. */
  lemma {:induction false} UnboundedExact(costs: Costs, s: string, t: string, bound: int)
    requires s != [] && t != []
    requires var plan := Prepare(costs, |s|, |t|, bound); plan.Plan? && plan.maxD < 0
    ensures Bounded(costs, s, t, bound) == Some(Dist(costs, s, t))
  {
    var plan := Prepare(costs, |s|, |t|, bound);
    var p := Problem(plan.c, s, t, plan.maxD);
    FirstWindowOk(p, plan.stop);
    SweepExact(p, 1, FirstWindow(p, plan.stop));
    PlanKeepsDistance(costs, s, t, bound);
  }

  lemma {:induction false} NonNegativeExact(costs: Costs, s: string, t: string, bound: int)
    requires s != [] && t != [] && NonNegative(costs) && 0 <= bound
    ensures Bounded(costs, s, t, bound) == Some(Min(Dist(costs, s, t), bound + 1))
  {
    var plan := Prepare(costs, |s|, |t|, bound);
    if plan.Hopeless? {
      DistLowerBound(costs, s, t);
    } else if plan.maxD < 0 {
      UnboundedExact(costs, s, t, bound);
      UselessBound(costs, s, t, bound);
    } else {
      WindowedExact(costs, s, t, bound);
    }
  }

  lemma {:induction false} WindowedExact(costs: Costs, s: string, t: string, bound: int)
    requires s != [] && t != [] && NonNegative(costs) && 0 <= bound
    requires var plan := Prepare(costs, |s|, |t|, bound); plan.Plan? && plan.maxD >= 0
    ensures Bounded(costs, s, t, bound) == Some(Min(Dist(costs, s, t), bound + 1))
  {
    var plan := Prepare(costs, |s|, |t|, bound);
    PlanStops(costs, |s|, |t|, bound);
    PlanKeepsDistance(costs, s, t, bound);
    FirstSweepExact(Problem(plan.c, s, t, bound), plan.stop);
  }

  lemma {:induction false} FirstSweepExact(p: Problem, stop: nat)
    requires Sensible(p) && p.s != [] && p.t != [] && 0 <= p.maxD && 1 <= stop <= |p.s| + 1
    requires StopsInTime(p.c, |p.s|, |p.t|, p.maxD, stop)
    ensures Sweep(p, 1, FirstWindow(p, stop)) == Some(Min(Dist(p.c, p.s, p.t), p.maxD + 1))
  {
    FirstWindowOk(p, stop);
    SweepExact(p, 1, FirstWindow(p, stop));
  }

  lemma {:induction false} PlanStops(costs: Costs, m: nat, n: nat, bound: int)
    requires 1 <= m && 1 <= n && NonNegative(costs) && 0 <= bound
    requires var plan := Prepare(costs, m, n, bound); plan.Plan? && plan.maxD >= 0
    ensures var plan := Prepare(costs, m, n, bound);
      NonNegative(plan.c) && plan.maxD == bound && StopsInTime(plan.c, m, n, bound, plan.stop)
  {
    var plan := Prepare(costs, m, n, bound);
    if plan.c.ins + plan.c.del > 0 {
      FirstRowStop(plan.c, m, n, bound, plan.stop);
    }
  }

  /** A bound is dropped only if no distance exceeds it. */
  lemma {:induction false} UselessBound(costs: Costs, s: string, t: string, bound: int)
    requires s != [] && t != [] && NonNegative(costs) && 0 <= bound
    requires var plan := Prepare(costs, |s|, |t|, bound); plan.Plan? && plan.maxD < 0
    ensures Dist(costs, s, t) <= bound
  {
    var plan := Prepare(costs, |s|, |t|, bound);
    PlanKeepsDistance(costs, s, t, bound);
    DistUpperBound(plan.c, s, t);
    Commutes(plan.c.sub, Min(|s|, |t|));
    assert Residual(plan.c, |s|, |t|) == Residual(costs, |s|, |t|);
  }

  lemma {:induction false} Commutes(x: int, y: int)
    ensures x * y == y * x
  {
  }

  lemma {:induction false} Signs(n: nat, x: int)
    ensures x <= 0 ==> n * x <= 0
    ensures x == 0 ==> n * x == 0
  {
  }

  /** Both length costs at most 0: the length difference never exceeds the bound, nor does the distance. */
  lemma {:induction false} CheapLengths(c: Costs, s: string, t: string)
    requires c.ins <= 0 && c.del <= 0
    ensures Residual(c, |s|, |t|) <= 0 && Dist(c, s, t) <= 0
  {
    RewriteBound(c, s, t);
    Signs(|s|, c.del);
    Signs(|t|, c.ins);
    if |t| > |s| {
      Signs(|t| - |s|, c.ins);
    } else {
      Signs(|s| - |t|, c.del);
    }
  }

  lemma {:induction false} RewriteIsResidual(c: Costs, a: nat, b: nat)
    requires c.ins + c.del == 0
    ensures a * c.del + b * c.ins == Residual(c, a, b)
  {
    assert c.ins == -c.del;
    assert b * c.ins == -(b * c.del);
    assert (a - b) * c.del == a * c.del - b * c.del;
    assert (b - a) * c.ins == b * c.ins - a * c.ins && a * c.ins == -(a * c.del);
  }

  /** A free substitution, or a free round trip: the distance is the length difference. */
  lemma {:induction false} LengthDecides(c: Costs, s: string, t: string)
    requires 0 <= c.ins + c.del && 0 <= c.sub && (c.ins + c.del == 0 || c.sub == 0)
    ensures Dist(c, s, t) == Residual(c, |s|, |t|)
  {
    DistLowerBound(c, s, t);
    if c.sub == 0 {
      DistUpperBound(c, s, t);
      Signs(Min(|s|, |t|), c.sub);
    } else {
      RewriteBound(c, s, t);
      RewriteIsResidual(c, |s|, |t|);
    }
  }

  /** Then the plan drops the bound, since no substitution costs anything either. */
  lemma {:induction false} CheapPlan(c: Costs, m: nat, n: nat, bound: int)
    requires c.ins <= 0 && c.del <= 0 && 0 <= bound && 1 <= m && 1 <= n && Residual(c, m, n) <= 0
    ensures var plan := Prepare(c, m, n, bound); plan.Plan? && plan.maxD < 0
  {
    Signs(Min(m, n), CappedCosts(c).sub);
    Commutes(CappedCosts(c).sub, Min(m, n));
  }

  /** If the length difference decides, the plan is hopeless or drops the bound. */
  lemma {:induction false} LengthPlan(c: Costs, m: nat, n: nat, bound: int)
    requires 0 <= c.ins + c.del && 0 <= c.sub && (c.ins + c.del == 0 || c.sub == 0)
    requires 0 <= bound && 1 <= m && 1 <= n
    ensures var plan := Prepare(c, m, n, bound); plan.Hopeless? || plan.maxD < 0
  {
    Signs(Min(m, n), CappedCosts(c).sub);
    Commutes(CappedCosts(c).sub, Min(m, n));
  }

  /** For the right costs the bounded programme is exact up to the bound and returns the bound plus one
      beyond it. */
  lemma {:induction false} RightCostsSuffice(c: Costs, s: string, t: string, bound: int)
    requires s != [] && t != [] && RightCosts(c) && 0 <= bound
    ensures Bounded(c, s, t, bound) == Some(Min(Dist(c, s, t), bound + 1))
  {
    if NonNegative(c) {
      NonNegativeExact(c, s, t, bound);
    } else if c.ins <= 0 && c.del <= 0 {
      CheapLengths(c, s, t);
      CheapPlan(c, |s|, |t|, bound);
      UnboundedExact(c, s, t, bound);
    } else {
      LengthDecides(c, s, t);
      LengthPlan(c, |s|, |t|, bound);
      if bound < Residual(c, |s|, |t|) {
        ExitTaken(c, s, t, bound);
      } else {
        UnboundedExact(c, s, t, bound);
      }
    }
  }

  // ----- and for no others -----

  /** What the manual promises: the exact distance up to the bound, something larger beyond it. */
  ghost predicate Promised(c: Costs, s: string, t: string, bound: int)
    requires s != [] && t != []
  {
    var r, d := Bounded(c, s, t, bound), Dist(c, s, t);
    r.Some? && if d <= bound then r.value == d else r.value > bound
  }

  /** The programme answers, and the answer breaks the promise. */
  ghost predicate Misleads(c: Costs, s: string, t: string, bound: int) {
    s != [] && t != [] && !Rejected(s, t) && 0 <= bound && Bounded(c, s, t, bound).Some? && !Promised(c, s, t, bound)
  }

  /** The early exit misleads if a round trip or a substitution costs less than nothing. */
  lemma {:induction false} ExitMisleads(c: Costs) returns (s: string, t: string, bound: int)
    requires (c.ins > 0 || c.del > 0) && (c.ins + c.del < 0 || c.sub < 0)
    ensures Misleads(c, s, t, bound)
  {
    if c.del > 0 {
      s, t, bound := "aa", "b", c.del - 1;
      assert Front(s) == "a";
      DropSource(c, s, t);
    } else {
      s, t, bound := "a", "bb", c.ins - 1;
      assert Front(t) == "b";
      DropTarget(c, s, t);
    }
    OneToOne(c, "a", "b");
    ExitTaken(c, s, t, bound);
  }

  lemma {:induction false} ExitTaken(c: Costs, s: string, t: string, bound: int)
    requires s != [] && t != [] && 0 <= bound < Residual(c, |s|, |t|)
    ensures Bounded(c, s, t, bound) == Some(bound + 1)
  {
  }

  lemma {:induction false} OneToOne(c: Costs, s: string, t: string)
    requires |s| == |t| == 1
    requires s[0] != t[0]
    ensures Dist(c, s, t) == Min(c.ins + c.del, c.sub)
  {
    assert Front(s) == [] && Front(t) == [];
  }

  /** An insertion that pays makes the unfilled cell above look cheap: one character against another. */
  lemma {:induction false} SentinelAboveMisleads(c: Costs)
    requires c.ins < 0 < c.ins + c.del && 0 < c.sub
    ensures Misleads(c, "a", "b", 0)
  {
    var plan := Prepare(c, 1, 1, 0);
    var k := plan.c;
    assert plan == Plan(k, 0, 1);
    var p := Problem(k, "a", "b", 0);
    var w := FirstWindow(p, 1);
    assert w.cells == [0 * k.del] == [0];
    OneByOne(p, w);
    OneToOne(c, "a", "b");
  }

  /** One row, one column. */
  lemma {:induction false} OneByOne(p: Problem, w: Window)
    requires p.s == "a" && p.t == "b" && p.maxD == 0 && p.c.ins < 0 < p.c.ins + p.c.del && 0 < p.c.sub
    requires w == Window(0, [0])
    ensures Sweep(p, 1, w) == Some(1 + p.c.ins)
  {
    var row := [p.c.ins, 1 + p.c.ins];
    assert Below(p, 1, w, 1) == [1 * p.c.ins];
    assert Look(p, w, 1) == 1 && Look(p, w, 0) == 0;
    assert Below(p, 1, w, 2) == row;
    var next := Advance(p, 1, w);
    assert next == Window(0, row);
    assert Rest(p, 1, 1) == 0 && Rest(p, 0, 1) == p.c.del;
    assert TrimRight(p, 1, next) == next;
    var kept := Window(1, [1 + p.c.ins]);
    assert row[1..] == [1 + p.c.ins];
    assert TrimLeft(p, 1, kept) == kept;
    assert TrimLeft(p, 1, next) == kept;
    assert Sweep(p, 2, kept) == Some(1 + p.c.ins);
  }

  /** A deletion that pays makes the unfilled cell to the left look cheap: two characters against the same. */
  lemma {:induction false} SentinelLeftMisleads(c: Costs)
    requires c.del < 0 < c.ins + c.del && 0 < c.sub
    ensures Misleads(c, "aa", "aa", 0)
  {
    var plan := Prepare(c, 2, 2, 0);
    var k := plan.c;
    assert plan == Plan(k, 0, 1);
    var p := Problem(k, "aa", "aa", 0);
    var w := FirstWindow(p, 1);
    assert w.cells == [0 * k.del] == [0];
    FirstRowOfTwo(p, w);
    SecondRowOfTwo(p, Window(1, [0]));
    SameStrings(c);
  }

  lemma {:induction false} SameStrings(c: Costs)
    requires 0 <= c.ins + c.del && 0 <= c.sub
    ensures Dist(c, "aa", "aa") == 0
  {
    DistLowerBound(c, "aa", "aa");
    assert Front("aa") == "a" && Front("a") == "" && Last("aa") == 'a' && Last("a") == 'a';
    assert Dist(c, "", "") == 0 * c.ins == 0;
    assert Dist(c, "a", "a") <= 0;
  }

  lemma {:induction false} FirstRowOfTwo(p: Problem, w: Window)
    requires p.s == "aa" && p.t == "aa" && p.maxD == 0 && p.c.del < 0 < p.c.ins + p.c.del && 0 < p.c.sub
    requires w == Window(0, [0])
    ensures Sweep(p, 1, w) == Sweep(p, 2, Window(1, [0]))
  {
    var row := [p.c.ins, 0];
    assert Below(p, 1, w, 1) == [1 * p.c.ins];
    assert Look(p, w, 1) == 1 && Look(p, w, 0) == 0;
    assert Below(p, 1, w, 2) == row;
    var next := Advance(p, 1, w);
    assert next == Window(0, row);
    assert Rest(p, 1, 1) == 0 && Rest(p, 0, 1) == p.c.del;
    assert TrimRight(p, 1, next) == next;
    var kept := Window(1, [0]);
    assert row[1..] == [0];
    assert TrimLeft(p, 1, kept) == kept;
    assert TrimLeft(p, 1, next) == kept;
  }

  lemma {:induction false} SecondRowOfTwo(p: Problem, w: Window)
    requires p.s == "aa" && p.t == "aa" && p.maxD == 0 && p.c.del < 0 < p.c.ins + p.c.del && 0 < p.c.sub
    requires w == Window(1, [0])
    ensures Sweep(p, 2, w) == Some(1 + 2 * p.c.del)
  {
    var d := p.c.del;
    var row := [1 + d, 1 + 2 * d];
    assert Look(p, w, 0) == 1 && Look(p, w, 1) == 0 && Look(p, w, 2) == 1;
    assert Below(p, 2, w, 0) == [];
    assert Below(p, 2, w, 1) == [1 + d];
    assert Below(p, 2, w, 2) == row;
    var next := Advance(p, 2, w);
    assert next == Window(1, row);
    assert Rest(p, 2, 2) == 0 && Rest(p, 1, 2) == d;
    assert TrimRight(p, 2, next) == next;
    assert TrimLeft(p, 2, next) == next;
    assert Sweep(p, 3, next) == Some(1 + 2 * d);
  }

  lemma {:induction false} OtherCostsMislead(c: Costs) returns (s: string, t: string, bound: int)
    requires !RightCosts(c)
    ensures Misleads(c, s, t, bound)
  {
    if c.ins + c.del < 0 || c.sub < 0 {
      s, t, bound := ExitMisleads(c);
    } else if c.ins < 0 {
      s, t, bound := "a", "b", 0;
      SentinelAboveMisleads(c);
    } else {
      s, t, bound := "aa", "aa", 0;
      SentinelLeftMisleads(c);
    }
  }

  /** The bounded programme keeps its promise for all strings and bounds if and only if the costs are right;
      for any other costs it gives a wrong answer somewhere. */
  lemma {:induction false} RightCostsExactly(c: Costs)
    ensures RightCosts(c) <==>
      forall s, t, bound :: s != [] && t != [] && !Rejected(s, t) && 0 <= bound ==> Promised(c, s, t, bound)
    ensures !RightCosts(c) <==> exists s, t, bound :: Misleads(c, s, t, bound)
  {
    if RightCosts(c) {
      forall s, t, bound | s != [] && t != [] && 0 <= bound ensures Promised(c, s, t, bound) {
        RightCostsSuffice(c, s, t, bound);
      }
    } else {
      var s, t, bound := OtherCostsMislead(c);
      assert !Promised(c, s, t, bound);
    }
  }
}
