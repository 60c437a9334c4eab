/** The two goal-distance estimates of a board: the Hamming count of
    misplaced tiles and the Manhattan sum of tile distances, both as sums
    over the cells in the row-major order the board's loops visit them. */
module Heuristics {
  import opened Grids

  /** Which estimate a sum computes. */
  datatype Measure = Hamming | Manhattan

  function Abs(x: int): nat {
    if x < 0 then -x else x
  }

  /** The number of single-step moves between cells (r1, c1) and (r2, c2). */
  function Distance(r1: int, c1: int, r2: int, c2: int): (d: nat)
    ensures d == 0 <==> r1 == r2 && c1 == c2
  {
    Abs(r1 - r2) + Abs(c1 - c2)
  }

  /** What the tile v standing in cell (i, j) adds to measure m; the blank
      adds nothing. */
  function CellCost(m: Measure, n: int, i: int, j: int, v: int): nat
    requires n >= 1
  {
    if v == 0 then 0
    else match m
      case Hamming => if v != GoalAt(n, i, j) then 1 else 0
      case Manhattan =>
        var (gi, gj) := GoalCoord(n, v);
        Distance(i, j, gi, gj)
  }

  /** The cost of the first j cells of row i. */
  function RowCost(m: Measure, g: Grid, n: int, i: int, j: int): nat
    requires n >= 1 && IsSquare(g, n) && 0 <= i < n && 0 <= j <= n
  {
    if j == 0 then 0 else RowCost(m, g, n, i, j - 1) + CellCost(m, n, i, j - 1, g[i][j - 1])
  }

  /** The cost of the first i rows. */
  function PrefixCost(m: Measure, g: Grid, n: int, i: int): nat
    requires n >= 1 && IsSquare(g, n) && 0 <= i <= n
  {
    if i == 0 then 0 else PrefixCost(m, g, n, i - 1) + RowCost(m, g, n, i - 1, n)
  }

  /** Measure m of the whole board. */
  function Total(m: Measure, g: Grid, n: int): nat
    requires n >= 1 && IsSquare(g, n)
  {
    PrefixCost(m, g, n, n)
  }

  /** A sum of cell costs is 0 exactly when every cell in it costs 0. */
  lemma {:induction false} RowCostZeroIff(m: Measure, g: Grid, n: int, i: int, j: int)
    requires n >= 1 && IsSquare(g, n) && 0 <= i < n && 0 <= j <= n
    ensures RowCost(m, g, n, i, j) == 0 <==> forall c :: 0 <= c < j ==> CellCost(m, n, i, c, g[i][c]) == 0
  {
    if j > 0 {
      RowCostZeroIff(m, g, n, i, j - 1);
    }
  }

  lemma {:induction false} PrefixCostZeroIff(m: Measure, g: Grid, n: int, i: int)
    requires n >= 1 && IsSquare(g, n) && 0 <= i <= n
    ensures PrefixCost(m, g, n, i) == 0 <==>
      forall r, c :: 0 <= r < i && 0 <= c < n ==> CellCost(m, n, r, c, g[r][c]) == 0
  {
    if i > 0 {
      PrefixCostZeroIff(m, g, n, i - 1);
      RowCostZeroIff(m, g, n, i - 1, n);
    }
  }

  /** Measure m of a board is 0 exactly when no cell contributes to it. */
  lemma TotalZeroIff(m: Measure, g: Grid, n: int)
    requires n >= 1 && IsSquare(g, n)
    ensures Total(m, g, n) == 0 <==>
      forall r, c :: 0 <= r < n && 0 <= c < n ==> CellCost(m, n, r, c, g[r][c]) == 0
  {
    PrefixCostZeroIff(m, g, n, n);
  }

  /** For a tile value in range, a misplaced tile is at least one move from
      its goal cell, and a tile costs nothing under one measure exactly when
      it costs nothing under the other. */
  lemma CellCostsCompare(n: int, i: int, j: int, v: int)
    requires n >= 1 && 0 <= i < n && 0 <= j < n && 0 <= v < n * n
    ensures CellCost(Hamming, n, i, j, v) <= CellCost(Manhattan, n, i, j, v)
    ensures CellCost(Hamming, n, i, j, v) == 0 <==> CellCost(Manhattan, n, i, j, v) == 0
  {
    GoalAtIff(n, i, j, v);
  }

  lemma {:induction false} RowDominance(g: Grid, n: int, i: int, j: int)
    requires n >= 1 && InRange(g, n) && 0 <= i < n && 0 <= j <= n
    ensures RowCost(Hamming, g, n, i, j) <= RowCost(Manhattan, g, n, i, j)
  {
    if j > 0 {
      RowDominance(g, n, i, j - 1);
      CellCostsCompare(n, i, j - 1, g[i][j - 1]);
    }
  }

  lemma {:induction false} PrefixDominance(g: Grid, n: int, i: int)
    requires n >= 1 && InRange(g, n) && 0 <= i <= n
    ensures PrefixCost(Hamming, g, n, i) <= PrefixCost(Manhattan, g, n, i)
  {
    if i > 0 {
      PrefixDominance(g, n, i - 1);
      RowDominance(g, n, i - 1, n);
    }
  }

  /** Manhattan never falls below Hamming when all tile values are in
      range: every misplaced tile is at least one move from home. */
  lemma ManhattanDominatesHamming(g: Grid, n: int)
    requires n >= 1 && InRange(g, n)
    ensures Total(Hamming, g, n) <= Total(Manhattan, g, n)
  {
    PrefixDominance(g, n, n);
  }

  lemma {:induction false} RowHammingBound(g: Grid, n: int, i: int, j: int)
    requires n >= 1 && IsSquare(g, n) && 0 <= i < n && 0 <= j <= n
    ensures RowCost(Hamming, g, n, i, j) <= j
  {
    if j > 0 {
      RowHammingBound(g, n, i, j - 1);
    }
  }

  lemma {:induction false} PrefixHammingBound(g: Grid, n: int, i: int)
    requires n >= 1 && IsSquare(g, n) && 0 <= i <= n
    ensures PrefixCost(Hamming, g, n, i) <= i * n
  {
    if i > 0 {
      PrefixHammingBound(g, n, i - 1);
      RowHammingBound(g, n, i - 1, n);
      assert (i - 1) * n + n == i * n;
    }
  }

  /** Hamming counts cells, so it lies in 0 .. n*n. */
  lemma HammingBound(g: Grid, n: int)
    requires n >= 1 && IsSquare(g, n)
    ensures 0 <= Total(Hamming, g, n) <= n * n
  {
    PrefixHammingBound(g, n, n);
  }

  /** On a legal board, Hamming is 0 exactly on the solved board: once every
      tile is home the blank can only be in the last cell. */
  lemma HammingZeroIffGoal(g: Grid, n: int)
    requires n >= 1 && IsPermutation(g, n)
    ensures Total(Hamming, g, n) == 0 <==> IsGoalGrid(g, n)
  {
    TotalZeroIff(Hamming, g, n);
    if Total(Hamming, g, n) == 0 {
      assert CellCost(Hamming, n, n - 1, n - 1, g[n - 1][n - 1]) == 0;
      assert g[n - 1][n - 1] == 0;
      forall r, c | 0 <= r < n && 0 <= c < n
        ensures g[r][c] == GoalAt(n, r, c)
      {
        assert CellCost(Hamming, n, r, c, g[r][c]) == 0;
      }
    }
  }

  /** On a legal board, Manhattan is 0 exactly when Hamming is, that is,
      exactly on the solved board. */
  lemma ManhattanZeroIffGoal(g: Grid, n: int)
    requires n >= 1 && IsPermutation(g, n)
    ensures Total(Manhattan, g, n) == 0 <==> Total(Hamming, g, n) == 0
    ensures Total(Manhattan, g, n) == 0 <==> IsGoalGrid(g, n)
  {
    TotalZeroIff(Hamming, g, n);
    TotalZeroIff(Manhattan, g, n);
    forall r, c | 0 <= r < n && 0 <= c < n
      ensures CellCost(Hamming, n, r, c, g[r][c]) == 0 <==> CellCost(Manhattan, n, r, c, g[r][c]) == 0
    {
      CellCostsCompare(n, r, c, g[r][c]);
    }
    HammingZeroIffGoal(g, n);
  }

  /** Both measures are 0 on the solved board. */
  lemma GoalCostsNothing(m: Measure, n: int)
    requires n >= 1
    ensures Total(m, GoalGrid(n), n) == 0
  {
    GoalIsPermutation(n);
    ManhattanZeroIffGoal(GoalGrid(n), n);
  }
}
