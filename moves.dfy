/** Which cells the board exchanges: the fixed pair of its twin, and the
    cells next to the blank that its successors move into the blank. */
module Moves {
  import opened Grids
  import opened Heuristics

  /** Two cells to exchange, (r1, c1) and (r2, c2). */
  datatype Exchange = Exchange(r1: int, c1: int, r2: int, c2: int)

  /** Both cells of e lie on a board of side n. */
  predicate Fits(e: Exchange, n: int) {
    0 <= e.r1 < n && 0 <= e.c1 < n && 0 <= e.r2 < n && 0 <= e.c2 < n
  }

  /** g with the two cells of e exchanged. */
  function Apply(g: Grid, n: int, e: Exchange): Grid
    requires IsSquare(g, n) && Fits(e, n)
  {
    Swapped(g, e.r1, e.c1, e.r2, e.c2)
  }

  /** The pair the twin exchanges as written in Board.java: always in row 0,
      (0,0)/(0,1), or (0,0)/(0,2) when (0,1) is blank, or (0,1)/(0,2)
      when (0,0) is blank. */
  function TwinCellsAsWritten(g: Grid): (e: Exchange)
    requires |g| >= 1 && |g[0]| >= 2
    ensures e.r1 == 0 && e.r2 == 0 && e.c1 < e.c2 <= 2
  {
    if g[0][0] != 0 then
      if g[0][1] != 0 then Exchange(0, 0, 0, 1) else Exchange(0, 0, 0, 2)
    else Exchange(0, 1, 0, 2)
  }

  /** On a legal 2-by-2 board whose blank is in the top row, the choice
      written in Board.java names column 2, which does not exist. */
  lemma TwinAsWrittenLeavesBoard()
    ensures IsPermutation([[1, 0], [2, 3]], 2) && !Fits(TwinCellsAsWritten([[1, 0], [2, 3]]), 2)
    ensures IsPermutation([[0, 1], [2, 3]], 2) && !Fits(TwinCellsAsWritten([[0, 1], [2, 3]]), 2)
  {
    var g, h := [[1, 0], [2, 3]], [[0, 1], [2, 3]];
    assert g[0][1] == 0 && g[0][0] == 1 && g[1][0] == 2 && g[1][1] == 3;
    assert h[0][0] == 0 && h[0][1] == 1 && h[1][0] == 2 && h[1][1] == 3;
  }

  /** The pair the twin exchanges: the choice written in Board.java
      whenever that fits the board (always for n >= 3), and the bottom row
      of a 2-by-2 board whose blank is in the top row. */
  function TwinCells(g: Grid, n: int): (e: Exchange)
    requires n >= 2 && IsSquare(g, n)
    ensures Fits(e, n) && e.r1 == e.r2 && e.c1 < e.c2
    ensures Fits(TwinCellsAsWritten(g), n) ==> e == TwinCellsAsWritten(g)
    ensures n >= 3 ==> e == TwinCellsAsWritten(g)
  {
    if n < 3 && (g[0][0] == 0 || g[0][1] == 0) then Exchange(1, 0, 1, 1)
    else TwinCellsAsWritten(g)
  }

  /** When no two cells hold 0, the twin exchanges two tiles: neither of
      its cells is the blank, so the twin changes the board, keeps every
      blank where it was, and keeps a legal board legal. */
  lemma TwinExchangesTiles(g: Grid, n: int)
    requires n >= 2 && Distinct(g, n)
    ensures var e := TwinCells(g, n);
      g[e.r1][e.c1] != 0 && g[e.r2][e.c2] != 0 &&
      Apply(g, n, e) != g &&
      (forall i, j :: 0 <= i < n && 0 <= j < n ==> (Apply(g, n, e)[i][j] == 0 <==> g[i][j] == 0)) &&
      (IsPermutation(g, n) ==> IsPermutation(Apply(g, n, e), n))
  {
    var e := TwinCells(g, n);
    var s := Apply(g, n, e);
    assert g[e.r1][e.c1] != g[e.r2][e.c2];
    assert s[e.r1][e.c1] != g[e.r1][e.c1];
    if IsPermutation(g, n) {
      SwapPreservesPermutation(g, n, e.r1, e.c1, e.r2, e.c2);
    }
  }

  /** The cells next to (r, c) in the order the board tries them: up,
      down, left, right, each only when it lies on the board. */
  function Targets(r: int, c: int, n: int): seq<(int, int)> {
    (if r - 1 >= 0 then [(r - 1, c)] else []) +
    (if r + 1 < n then [(r + 1, c)] else []) +
    (if c - 1 >= 0 then [(r, c - 1)] else []) +
    (if c + 1 < n then [(r, c + 1)] else [])
  }

  /** For a cell on the board, the targets are exactly the cells of the
      board one move away, each once; there are at most four, and at least
      two once n >= 2. */
  lemma TargetsAreAdjacentCells(r: int, c: int, n: int)
    requires 0 <= r < n && 0 <= c < n
    ensures forall t: (int, int) :: t in Targets(r, c, n) <==> 0 <= t.0 < n && 0 <= t.1 < n && Distance(r, c, t.0, t.1) == 1
    ensures forall a, b :: 0 <= a < b < |Targets(r, c, n)| ==> Targets(r, c, n)[a] != Targets(r, c, n)[b]
    ensures |Targets(r, c, n)| <= 4
    ensures n >= 2 ==> 2 <= |Targets(r, c, n)|
  {
    var ts := Targets(r, c, n);
    forall t: (int, int) | 0 <= t.0 < n && 0 <= t.1 < n && Distance(r, c, t.0, t.1) == 1
      ensures t in ts
    {
      if t.0 == r - 1 {
        assert t == (r - 1, c);
      } else if t.0 == r + 1 {
        assert t == (r + 1, c);
      } else if t.1 == c - 1 {
        assert t == (r, c - 1);
      } else {
        assert t == (r, c + 1);
      }
    }
  }

  /** Moving a tile into the blank of a legal board gives a legal board
      whose blank is where the tile was, and moving it back restores the
      board. */
  lemma MoveIntoBlank(g: Grid, n: int, r: int, c: int, t: (int, int))
    requires IsPermutation(g, n) && 0 <= r < n && 0 <= c < n && g[r][c] == 0
    requires t in Targets(r, c, n)
    ensures var s := Swapped(g, r, c, t.0, t.1);
      IsPermutation(s, n) && s[t.0][t.1] == 0 && s[r][c] == g[t.0][t.1] &&
      s[r][c] != 0 &&
      Swapped(s, r, c, t.0, t.1) == g
  {
    TargetsAreAdjacentCells(r, c, n);
    SwapPreservesPermutation(g, n, r, c, t.0, t.1);
    SwapInvolution(g, r, c, t.0, t.1);
    assert g[t.0][t.1] != g[r][c];
  }

  /** The grids one move away from a blank at (r, c): the tile of each
      target cell, in the order of Targets, moved into the blank. */
  function MovesFrom(g: Grid, n: int, r: int, c: int): (gs: seq<Grid>)
    requires IsSquare(g, n) && 0 <= r < n && 0 <= c < n
    ensures |gs| == |Targets(r, c, n)|
  {
    var ts := Targets(r, c, n);
    TargetsAreAdjacentCells(r, c, n);
    seq(|ts|, k requires 0 <= k < |ts| => Swapped(g, r, c, ts[k].0, ts[k].1))
  }

  lemma MovesFromAt(g: Grid, n: int, r: int, c: int, k: int)
    requires IsSquare(g, n) && 0 <= r < n && 0 <= c < n && 0 <= k < |Targets(r, c, n)|
    ensures var t := Targets(r, c, n)[k];
      0 <= t.0 < n && 0 <= t.1 < n && MovesFrom(g, n, r, c)[k] == Swapped(g, r, c, t.0, t.1)
  {
    TargetsAreAdjacentCells(r, c, n);
  }

  /** The successors of a board: the moves from the cell its scan for the
      blank reports. */
  function Successors(g: Grid, n: int): seq<Grid>
    requires n >= 1 && IsSquare(g, n)
  {
    var (r, c) := ScanRows(g, 0, n);
    MovesFrom(g, n, r, c)
  }

  /** Move k from a blank at (r, c) of a legal board: a legal board whose
      blank stands on target k, where the moved tile stood; moving the tile
      back restores the board. */
  lemma MoveAt(g: Grid, n: int, r: int, c: int, k: int)
    requires IsPermutation(g, n) && 0 <= r < n && 0 <= c < n && g[r][c] == 0
    requires 0 <= k < |Targets(r, c, n)|
    ensures var t := Targets(r, c, n)[k];
      var h := MovesFrom(g, n, r, c)[k];
      0 <= t.0 < n && 0 <= t.1 < n && IsPermutation(h, n) && h[t.0][t.1] == 0 &&
      h[r][c] == g[t.0][t.1] && h[r][c] != 0 && Swapped(h, r, c, t.0, t.1) == g
  {
    var ts := Targets(r, c, n);
    assert ts[k] in ts;
    MovesFromAt(g, n, r, c, k);
    MoveIntoBlank(g, n, r, c, ts[k]);
  }

  /** Different moves from the same blank give different boards: their
      blanks stand on different cells. */
  lemma MovesDiffer(g: Grid, n: int, r: int, c: int, a: int, b: int)
    requires IsPermutation(g, n) && 0 <= r < n && 0 <= c < n && g[r][c] == 0
    requires 0 <= a < b < |Targets(r, c, n)|
    ensures MovesFrom(g, n, r, c)[a] != MovesFrom(g, n, r, c)[b]
  {
    var ts := Targets(r, c, n);
    TargetsAreAdjacentCells(r, c, n);
    MoveAt(g, n, r, c, a);
    MoveAt(g, n, r, c, b);
    var hb := MovesFrom(g, n, r, c)[b];
    assert hb[ts[b].0][ts[b].1] == 0 && ts[a] != ts[b];
    assert hb[ts[a].0][ts[a].1] != 0;
  }

  /** A legal board has two to four successors once n >= 2, all of them
      legal boards, all different from each other and from the board. */
  lemma SuccessorsAreMoves(g: Grid, n: int)
    requires n >= 1 && IsPermutation(g, n)
    ensures |Successors(g, n)| <= 4 && (n >= 2 ==> 2 <= |Successors(g, n)|)
    ensures forall k :: 0 <= k < |Successors(g, n)| ==>
      IsPermutation(Successors(g, n)[k], n) && Successors(g, n)[k] != g
    ensures forall a, b :: 0 <= a < b < |Successors(g, n)| ==> Successors(g, n)[a] != Successors(g, n)[b]
  {
    var (r, c) := ScanRows(g, 0, n);
    ScanBlank(g, n);
    TargetsAreAdjacentCells(r, c, n);
    forall k | 0 <= k < |Successors(g, n)|
      ensures IsPermutation(Successors(g, n)[k], n) && Successors(g, n)[k] != g
    {
      MoveAt(g, n, r, c, k);
    }
    forall a, b | 0 <= a < b < |Successors(g, n)|
      ensures Successors(g, n)[a] != Successors(g, n)[b]
    {
      MovesDiffer(g, n, r, c, a, b);
    }
  }

  /** h arises from g by exchanging the blank with a cell one move away:
      the reference the successors are checked against. */
  ghost predicate OneMoveFrom(g: Grid, n: int, h: Grid) {
    IsSquare(g, n) &&
    exists a, b, i, j :: 0 <= a < n && 0 <= b < n && 0 <= i < n && 0 <= j < n &&
      g[a][b] == 0 && Distance(a, b, i, j) == 1 && h == Swapped(g, a, b, i, j)
  }

  /** The blank of g stands at (r, c) and nowhere else. */
  ghost predicate BlankAt(g: Grid, n: int, r: int, c: int) {
    IsSquare(g, n) && 0 <= r < n && 0 <= c < n && g[r][c] == 0 &&
    forall i, j :: 0 <= i < n && 0 <= j < n && g[i][j] == 0 ==> i == r && j == c
  }

  lemma MoveIsOneMove(g: Grid, n: int, r: int, c: int, k: int)
    requires IsSquare(g, n) && 0 <= r < n && 0 <= c < n && g[r][c] == 0
    requires 0 <= k < |Targets(r, c, n)|
    ensures OneMoveFrom(g, n, MovesFrom(g, n, r, c)[k])
  {
    var ts := Targets(r, c, n);
    TargetsAreAdjacentCells(r, c, n);
    MovesFromAt(g, n, r, c, k);
    assert ts[k] in ts;
    var (i, j) := ts[k];
    assert Distance(r, c, i, j) == 1 && MovesFrom(g, n, r, c)[k] == Swapped(g, r, c, i, j);
  }

  lemma OneMoveIsMove(g: Grid, n: int, r: int, c: int, h: Grid)
    requires BlankAt(g, n, r, c) && OneMoveFrom(g, n, h)
    ensures h in MovesFrom(g, n, r, c)
  {
    var a, b, i, j :| 0 <= a < n && 0 <= b < n && 0 <= i < n && 0 <= j < n &&
      g[a][b] == 0 && Distance(a, b, i, j) == 1 && h == Swapped(g, a, b, i, j);
    assert a == r && b == c;
    var ts := Targets(r, c, n);
    TargetsAreAdjacentCells(r, c, n);
    assert (i, j) in ts;
    var k :| 0 <= k < |ts| && ts[k] == (i, j);
    MovesFromAt(g, n, r, c, k);
  }

  /** The move to target k can be undone: g is one move away from it. */
  lemma MoveUndone(g: Grid, n: int, r: int, c: int, k: int)
    requires IsSquare(g, n) && 0 <= r < n && 0 <= c < n && g[r][c] == 0
    requires 0 <= k < |Targets(r, c, n)|
    ensures OneMoveFrom(MovesFrom(g, n, r, c)[k], n, g)
  {
    var ts := Targets(r, c, n);
    TargetsAreAdjacentCells(r, c, n);
    MovesFromAt(g, n, r, c, k);
    assert ts[k] in ts;
    var (i, j) := ts[k];
    var h := MovesFrom(g, n, r, c)[k];
    SwapInvolution(g, r, c, i, j);
    SwapSymmetric(h, r, c, i, j);
    assert h[i][j] == 0 && Distance(i, j, r, c) == 1 && g == Swapped(h, i, j, r, c);
  }

  /** On a legal board, the successors are exactly the grids one move away. */
  lemma SuccessorsAreOneMoveAway(g: Grid, n: int)
    requires n >= 1 && IsPermutation(g, n)
    ensures forall h :: h in Successors(g, n) <==> OneMoveFrom(g, n, h)
  {
    var (r, c) := ScanRows(g, 0, n);
    ScanBlank(g, n);
    assert BlankAt(g, n, r, c);
    var ss := Successors(g, n);
    forall h | h in ss
      ensures OneMoveFrom(g, n, h)
    {
      var k :| 0 <= k < |ss| && ss[k] == h;
      MoveIsOneMove(g, n, r, c, k);
    }
    forall h | OneMoveFrom(g, n, h)
      ensures h in ss
    {
      OneMoveIsMove(g, n, r, c, h);
    }
  }

  /** Every successor of a legal board has that board among its own
      successors: a move can always be undone. */
  lemma SuccessorsAreMutual(g: Grid, n: int, h: Grid)
    requires n >= 1 && IsPermutation(g, n) && h in Successors(g, n)
    ensures g in Successors(h, n)
  {
    var (r, c) := ScanRows(g, 0, n);
    ScanBlank(g, n);
    var ss := Successors(g, n);
    var k :| 0 <= k < |ss| && ss[k] == h;
    MoveAt(g, n, r, c, k);
    MoveUndone(g, n, r, c, k);
    SuccessorsAreOneMoveAway(h, n);
  }
}
