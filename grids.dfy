/** The tile grid of the N-by-N sliding puzzle as a value: its shape, the
    solved configuration, permutations of the tiles, the exchange of two
    cells, and the row-major scan the board uses to locate a value. */
module Grids {

  /** Tile values, row by row; 0 is the blank. */
  type Grid = seq<seq<int>>

  /** g has n rows of n cells each. */
  predicate IsSquare(g: Grid, n: int) {
    |g| == n && forall i :: 0 <= i < n ==> |g[i]| == n
  }

  /** The value of cell (i, j) on the solved board of side n: the tiles
      1 .. n*n-1 in row-major order, then the blank in the last cell. */
  function GoalAt(n: int, i: int, j: int): int {
    if i == n - 1 && j == n - 1 then 0 else i * n + j + 1
  }

  /** The solved board of side n. */
  function GoalGrid(n: nat): (g: Grid)
    ensures IsSquare(g, n)
    ensures forall i, j :: 0 <= i < n && 0 <= j < n ==> g[i][j] == GoalAt(n, i, j)
  {
    seq(n, i => seq(n, j => GoalAt(n, i, j)))
  }

  /** Every cell of g holds its value on the solved board. */
  predicate IsGoalGrid(g: Grid, n: int) {
    IsSquare(g, n) && forall i, j :: 0 <= i < n && 0 <= j < n ==> g[i][j] == GoalAt(n, i, j)
  }

  /** The cell at which the solved board holds v; a value the solved
      board does not hold is reported at (0, 0), as the board's scan does. */
  function GoalCoord(n: int, v: int): (int, int)
    requires n >= 1
  {
    if 1 <= v < n * n then ((v - 1) / n, (v - 1) % n)
    else if v == 0 then (n - 1, n - 1)
    else (0, 0)
  }

  /** Every tile value lies in 0 .. n*n-1. */
  predicate InRange(g: Grid, n: int) {
    IsSquare(g, n) && forall i, j :: 0 <= i < n && 0 <= j < n ==> 0 <= g[i][j] < n * n
  }

  /** No value occurs in two cells. */
  predicate Distinct(g: Grid, n: int) {
    IsSquare(g, n) &&
    forall i1, j1, i2, j2 ::
      0 <= i1 < n && 0 <= j1 < n && 0 <= i2 < n && 0 <= j2 < n && g[i1][j1] == g[i2][j2] ==>
        i1 == i2 && j1 == j2
  }

  /** Some cell of g holds v. */
  predicate Occurs(g: Grid, n: int, v: int)
    requires IsSquare(g, n)
  {
    exists i, j :: 0 <= i < n && 0 <= j < n && g[i][j] == v
  }

  /** g is a legal board: each of 0 .. n*n-1 occurs exactly once. */
  predicate IsPermutation(g: Grid, n: int) {
    InRange(g, n) && Distinct(g, n) && forall v :: 0 <= v < n * n ==> Occurs(g, n, v)
  }

  /** g with cells (r1, c1) and (r2, c2) exchanged. */
  function Swapped(g: Grid, r1: int, c1: int, r2: int, c2: int): (s: Grid)
    requires 0 <= r1 < |g| && 0 <= c1 < |g[r1]| && 0 <= r2 < |g| && 0 <= c2 < |g[r2]|
    ensures |s| == |g| && forall i :: 0 <= i < |g| ==> |s[i]| == |g[i]|
    ensures s[r1][c1] == g[r2][c2] && s[r2][c2] == g[r1][c1]
    ensures forall i, j :: 0 <= i < |g| && 0 <= j < |g[i]| && !(i == r1 && j == c1) && !(i == r2 && j == c2) ==>
      s[i][j] == g[i][j]
  {
    seq(|g|, i requires 0 <= i < |g| =>
      seq(|g[i]|, j requires 0 <= j < |g[i]| =>
        if i == r1 && j == c1 then g[r2][c2]
        else if i == r2 && j == c2 then g[r1][c1]
        else g[i][j]))
  }

  /** Exchanging the same two cells twice restores the grid. */
  lemma SwapInvolution(g: Grid, r1: int, c1: int, r2: int, c2: int)
    requires 0 <= r1 < |g| && 0 <= c1 < |g[r1]| && 0 <= r2 < |g| && 0 <= c2 < |g[r2]|
    ensures Swapped(Swapped(g, r1, c1, r2, c2), r1, c1, r2, c2) == g
  {
    var s := Swapped(Swapped(g, r1, c1, r2, c2), r1, c1, r2, c2);
    forall i | 0 <= i < |g|
      ensures s[i] == g[i]
    {
      assert |s[i]| == |g[i]|;
    }
  }

  /** Naming the two cells in the other order gives the same exchange. */
  lemma SwapSymmetric(g: Grid, r1: int, c1: int, r2: int, c2: int)
    requires 0 <= r1 < |g| && 0 <= c1 < |g[r1]| && 0 <= r2 < |g| && 0 <= c2 < |g[r2]|
    ensures Swapped(g, r1, c1, r2, c2) == Swapped(g, r2, c2, r1, c1)
  {
    var s, s' := Swapped(g, r1, c1, r2, c2), Swapped(g, r2, c2, r1, c1);
    forall i | 0 <= i < |g|
      ensures s[i] == s'[i]
    {
      assert |s[i]| == |s'[i]|;
    }
  }

  /** Exchanging two cells of a legal board gives a legal board. */
  lemma SwapPreservesPermutation(g: Grid, n: int, r1: int, c1: int, r2: int, c2: int)
    requires IsPermutation(g, n)
    requires 0 <= r1 < n && 0 <= c1 < n && 0 <= r2 < n && 0 <= c2 < n
    ensures IsPermutation(Swapped(g, r1, c1, r2, c2), n)
  {
    var s := Swapped(g, r1, c1, r2, c2);
    forall i, j | 0 <= i < n && 0 <= j < n
      ensures 0 <= s[i][j] < n * n
    {
      SwapSource(g, n, r1, c1, r2, c2, i, j);
    }
    forall i1, j1, i2, j2 |
      0 <= i1 < n && 0 <= j1 < n && 0 <= i2 < n && 0 <= j2 < n && s[i1][j1] == s[i2][j2]
      ensures i1 == i2 && j1 == j2
    {
      SwapSource(g, n, r1, c1, r2, c2, i1, j1);
      SwapSource(g, n, r1, c1, r2, c2, i2, j2);
    }
    forall v | 0 <= v < n * n
      ensures Occurs(s, n, v)
    {
      assert Occurs(g, n, v);
      var a, b :| 0 <= a < n && 0 <= b < n && g[a][b] == v;
      var (a', b') := Source(a, b, r1, c1, r2, c2);
      SwapSource(g, n, r1, c1, r2, c2, a', b');
      assert s[a'][b'] == v;
    }
  }

  /** The cell of g whose value cell (i, j) receives when (r1, c1) and
      (r2, c2) are exchanged; the exchange is its own inverse. */
  function Source(i: int, j: int, r1: int, c1: int, r2: int, c2: int): (int, int) {
    if i == r1 && j == c1 then (r2, c2)
    else if i == r2 && j == c2 then (r1, c1)
    else (i, j)
  }

  /** Cell (i, j) of the exchanged grid holds the value of its source cell. */
  lemma SwapSource(g: Grid, n: int, r1: int, c1: int, r2: int, c2: int, i: int, j: int)
    requires IsSquare(g, n)
    requires 0 <= r1 < n && 0 <= c1 < n && 0 <= r2 < n && 0 <= c2 < n && 0 <= i < n && 0 <= j < n
    ensures var (a, b) := Source(i, j, r1, c1, r2, c2);
      0 <= a < n && 0 <= b < n && Swapped(g, r1, c1, r2, c2)[i][j] == g[a][b] &&
      Source(a, b, r1, c1, r2, c2) == (i, j)
  {
  }

  /** A multiple of n strictly between -n and n is 0. */
  lemma SmallMultiple(d: int, n: int)
    requires n >= 1 && -n < d * n < n
    ensures d == 0
  {
    assert d >= 1 ==> d * n >= n;
    assert d <= -1 ==> d * n <= -n;
  }

  /** x = q*n + r with 0 <= r < n determines q and r. */
  lemma DivModUnique(x: int, n: int, q: int, r: int)
    requires n >= 1 && 0 <= r < n && x == q * n + r
    ensures x / n == q && x % n == r
  {
    var q', r' := x / n, x % n;
    assert (q' - q) * n == r - r';
    SmallMultiple(q' - q, n);
  }

  /** The row-major index i*n + j of a cell lies in 0 .. n*n-1 and is
      n*n-1 only at the last cell. */
  lemma CellIndex(n: int, i: int, j: int)
    requires n >= 1 && 0 <= i < n && 0 <= j < n
    ensures 0 <= i * n + j < n * n
    ensures i * n + j == n * n - 1 <==> i == n - 1 && j == n - 1
  {
    assert 0 <= i * n <= (n - 1) * n == n * n - n;
    assert i < n - 1 ==> i * n <= (n - 2) * n == n * n - 2 * n;
  }

  /** Every x in 0 .. n*n-1 is the row-major index of the cell
      (x / n, x % n). */
  lemma IndexCell(n: int, x: int)
    requires n >= 1 && 0 <= x < n * n
    ensures 0 <= x / n < n && 0 <= x % n < n && x == x / n * n + x % n
  {
    var q := x / n;
    assert x == q * n + x % n;
    assert q >= n ==> q * n >= n * n;
  }

  /** The solved board holds v at (i, j) exactly when v is one of its
      values and (i, j) is the cell GoalCoord names for v. */
  lemma GoalAtIff(n: int, i: int, j: int, v: int)
    requires n >= 1 && 0 <= i < n && 0 <= j < n
    ensures GoalAt(n, i, j) == v <==> 0 <= v < n * n && (i, j) == GoalCoord(n, v)
  {
    CellIndex(n, i, j);
    if 1 <= v < n * n {
      IndexCell(n, v - 1);
      CellIndex(n, (v - 1) / n, (v - 1) % n);
      DivModUnique(i * n + j, n, i, j);
    }
  }

  /** The solved board is a legal board. */
  lemma GoalIsPermutation(n: int)
    requires n >= 1
    ensures IsPermutation(GoalGrid(n), n)
  {
    var g := GoalGrid(n);
    forall i, j | 0 <= i < n && 0 <= j < n
      ensures 0 <= g[i][j] < n * n
    {
      GoalAtIff(n, i, j, g[i][j]);
    }
    forall i1, j1, i2, j2 | 0 <= i1 < n && 0 <= j1 < n && 0 <= i2 < n && 0 <= j2 < n && g[i1][j1] == g[i2][j2]
      ensures i1 == i2 && j1 == j2
    {
      GoalAtIff(n, i1, j1, g[i1][j1]);
      GoalAtIff(n, i2, j2, g[i1][j1]);
    }
    forall v | 0 <= v < n * n
      ensures Occurs(g, n, v)
    {
      if v != 0 {
        IndexCell(n, v - 1);
      }
      var (a, b) := GoalCoord(n, v);
      GoalAtIff(n, a, b, v);
      assert g[a][b] == v;
    }
  }

  /** The position of the first v in s. */
  function FirstIndex(s: seq<int>, v: int): (k: nat)
    requires v in s
    ensures k < |s| && s[k] == v && v !in s[..k]
  {
    if s[0] == v then 0 else
      assert s == [s[0]] + s[1..];
      var k := 1 + FirstIndex(s[1..], v);
      assert s[..k] == [s[0]] + s[1..][..k - 1];
      k
  }

  /** What the board's coordinate search reports for v after scanning
      rows 0 .. k-1: the last of those rows that holds v, with the column of
      the first v in it, or (0, 0) if none does (the search breaks out of
      the column loop only, so later rows override earlier ones). */
  function ScanRows(g: Grid, v: int, k: int): (p: (int, int))
    requires 0 <= k <= |g|
    ensures p == (0, 0) || (0 <= p.0 < k && 0 <= p.1 < |g[p.0]| && g[p.0][p.1] == v)
  {
    if k == 0 then (0, 0)
    else if v in g[k - 1] then (k - 1, FirstIndex(g[k - 1], v))
    else ScanRows(g, v, k - 1)
  }

  /** When v occurs nowhere in the first k rows, the scan reports (0, 0). */
  lemma {:induction false} ScanMissing(g: Grid, n: int, v: int, k: int)
    requires IsSquare(g, n) && 0 <= k <= n
    requires forall i, j :: 0 <= i < k && 0 <= j < n ==> g[i][j] != v
    ensures ScanRows(g, v, k) == (0, 0)
  {
    if k > 0 {
      var row := g[k - 1];
      assert forall j :: 0 <= j < n ==> row[j] != v;
      ScanMissing(g, n, v, k - 1);
    }
  }

  /** When v occurs in exactly one cell (a, b), the scan of all rows
      reports (a, b). */
  lemma {:induction false} ScanFindsOnly(g: Grid, n: int, v: int, a: int, b: int, k: int)
    requires IsSquare(g, n) && 0 <= a < n && 0 <= b < n && g[a][b] == v
    requires forall i, j :: 0 <= i < n && 0 <= j < n && g[i][j] == v ==> i == a && j == b
    requires a < k <= n
    ensures ScanRows(g, v, k) == (a, b)
  {
    if k - 1 == a {
      assert v in g[a] by { assert g[a][b] == v; }
      var j := FirstIndex(g[a], v);
      assert g[a][j] == v;
    } else {
      var row := g[k - 1];
      assert forall j :: 0 <= j < n ==> row[j] != v;
      ScanFindsOnly(g, n, v, a, b, k - 1);
    }
  }

  /** Scanning the solved board for v finds the goal cell of v. */
  lemma ScanGoal(n: int, v: int)
    requires n >= 1
    ensures ScanRows(GoalGrid(n), v, n) == GoalCoord(n, v)
  {
    var g := GoalGrid(n);
    GoalIsPermutation(n);
    if 0 <= v < n * n {
      assert Occurs(g, n, v);
      var a, b :| 0 <= a < n && 0 <= b < n && g[a][b] == v;
      GoalAtIff(n, a, b, v);
      ScanFindsOnly(g, n, v, a, b, n);
    } else {
      ScanMissing(g, n, v, n);
    }
  }

  /** On a legal board the scan for 0 finds the blank, the only cell
      holding 0. */
  lemma ScanBlank(g: Grid, n: int)
    requires n >= 1 && IsPermutation(g, n)
    ensures var (r, c) := ScanRows(g, 0, n);
      0 <= r < n && 0 <= c < n && g[r][c] == 0 &&
      forall i, j :: 0 <= i < n && 0 <= j < n && g[i][j] == 0 ==> i == r && j == c
  {
    assert Occurs(g, n, 0);
    var a, b :| 0 <= a < n && 0 <= b < n && g[a][b] == 0;
    ScanFindsOnly(g, n, 0, a, b, n);
  }

  /** Two square grids of side n that agree on every cell are equal. */
  lemma CellwiseEqual(g: Grid, h: Grid, n: int)
    requires IsSquare(g, n) && IsSquare(h, n)
    ensures g == h <==> forall i, j :: 0 <= i < n && 0 <= j < n ==> g[i][j] == h[i][j]
  {
    if forall i, j :: 0 <= i < n && 0 <= j < n ==> g[i][j] == h[i][j] {
      forall i | 0 <= i < n
        ensures g[i] == h[i]
      {
      }
    }
  }

  /** IsGoalGrid is equality with the solved board. */
  lemma IsGoalGridIff(g: Grid, n: nat)
    ensures IsGoalGrid(g, n) <==> g == GoalGrid(n)
  {
    if IsGoalGrid(g, n) {
      var goal := GoalGrid(n);
      forall i | 0 <= i < n
        ensures g[i] == goal[i]
      {
      }
    }
  }
}
