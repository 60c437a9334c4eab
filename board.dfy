/** The board of the N-by-N sliding puzzle: its tiles in a two-dimensional
    array, the solved board of the same side beside it, and the operations
    that read the tiles or build new boards from them. No operation changes
    an existing board. */
module Boards {
  import opened Grids
  import opened Heuristics
  import opened Moves
  import opened Text

  /** The grid of values an array holds. */
  ghost function Contents(a: array2<int>): (g: Grid)
    reads a
    ensures |g| == a.Length0 && forall i :: 0 <= i < a.Length0 ==> |g[i]| == a.Length1
    ensures forall i, j :: 0 <= i < a.Length0 && 0 <= j < a.Length1 ==> g[i][j] == a[i, j]
  {
    seq(a.Length0, i requires 0 <= i < a.Length0 reads a =>
      seq(a.Length1, j requires 0 <= j < a.Length1 reads a => a[i, j]))
  }

  class Board {
    /** The side of the board. */
    const N: nat
    /** The tiles, row by row; 0 is the blank. */
    const blocks: array2<int>
    /** The solved board of side N, built when the board is. */
    const goalBlocks: array2<int>

    ghost predicate Valid()
      reads blocks, goalBlocks
    {
      N >= 1 &&
      blocks.Length0 == N && blocks.Length1 == N &&
      goalBlocks.Length0 == N && goalBlocks.Length1 == N &&
      forall i, j :: 0 <= i < N && 0 <= j < N ==> goalBlocks[i, j] == GoalAt(N, i, j)
    }

    /** The tiles as a grid. */
    ghost function Cells(): Grid
      reads blocks
    {
      Contents(blocks)
    }

    /** A board over the given tiles; the board takes the array as its own. */
    constructor (tiles: array2<int>)
      requires tiles.Length0 == tiles.Length1 >= 1
      ensures Valid() && blocks == tiles && N == tiles.Length0
      ensures fresh(goalBlocks)
    {
      var goal := InitGoalBoard(tiles.Length0);
      N := tiles.Length0;
      blocks := tiles;
      goalBlocks := goal;
    }

    /** A fresh array holding the solved board of side n. */
    static method InitGoalBoard(n: nat) returns (g: array2<int>)
      requires n >= 1
      ensures fresh(g) && g.Length0 == n && g.Length1 == n
      ensures forall i, j :: 0 <= i < n && 0 <= j < n ==> g[i, j] == GoalAt(n, i, j)
      ensures Contents(g) == GoalGrid(n)
    {
      g := new int[n, n];
      for i := 0 to n
        invariant forall a, b :: 0 <= a < i && 0 <= b < n ==> g[a, b] == a * n + b + 1
      {
        for j := 0 to n
          invariant forall a, b :: 0 <= a < i && 0 <= b < n ==> g[a, b] == a * n + b + 1
          invariant forall b :: 0 <= b < j ==> g[i, b] == i * n + b + 1
        {
          g[i, j] := i * n + j + 1;
        }
      }
      g[n - 1, n - 1] := 0;
      CellwiseEqual(Contents(g), GoalGrid(n), n);
    }

    /** The number of tiles out of place. */
    method Hamming() returns (priority: int)
      requires Valid()
      ensures priority == Total(Measure.Hamming, Cells(), N)
    {
      ghost var g := Cells();
      priority := 0;
      for i := 0 to N
        invariant priority == PrefixCost(Measure.Hamming, g, N, i)
      {
        for j := 0 to N
          invariant priority == PrefixCost(Measure.Hamming, g, N, i) + RowCost(Measure.Hamming, g, N, i, j)
        {
          if blocks[i, j] == 0 {
            continue;
          }
          if blocks[i, j] != goalBlocks[i, j] {
            priority := priority + 1;
          }
        }
      }
    }

    /** The sum over the tiles of their distances to their goal cells. */
    method Manhattan() returns (priority: int)
      requires Valid()
      ensures priority == Total(Measure.Manhattan, Cells(), N)
    {
      ghost var g := Cells();
      priority := 0;
      for i := 0 to N
        invariant priority == PrefixCost(Measure.Manhattan, g, N, i)
      {
        for j := 0 to N
          invariant priority == PrefixCost(Measure.Manhattan, g, N, i) + RowCost(Measure.Manhattan, g, N, i, j)
        {
          var val := blocks[i, j];
          if val == 0 {
            continue;
          }
          var goalRow, goalCol := FindGoalCoord(val);
          var valPriority := Distance(i, j, goalRow, goalCol);
          priority := priority + valPriority;
        }
      }
    }

    /** The cell of the solved board that holds val, (0, 0) if none does. */
    method FindGoalCoord(val: int) returns (row: int, col: int)
      requires Valid()
      ensures (row, col) == GoalCoord(N, val)
    {
      ghost var goal := GoalGrid(N);
      row, col := 0, 0;
      for i := 0 to N
        invariant (row, col) == ScanRows(goal, val, i)
      {
        for j := 0 to N
          invariant (row, col) == ScanRows(goal, val, i)
          invariant val !in goal[i][..j]
        {
          if goalBlocks[i, j] == val {
            row, col := i, j;
            FoundFirst(goal[i], val, j);
            break;
          }
        }
        assert goal[i][..N] == goal[i];
      }
      ScanGoal(N, val);
    }

    /** The cell holding the blank: the last row that holds a 0 and the
        first 0 in it, or (0, 0) if no cell holds 0. */
    method FindZeroCoord() returns (row: int, col: int)
      requires Valid()
      ensures (row, col) == ScanRows(Cells(), 0, N)
      ensures 0 <= row < N && 0 <= col < N
      ensures IsPermutation(Cells(), N) ==> blocks[row, col] == 0
    {
      ghost var g := Cells();
      row, col := 0, 0;
      for i := 0 to N
        invariant (row, col) == ScanRows(g, 0, i)
      {
        for j := 0 to N
          invariant (row, col) == ScanRows(g, 0, i)
          invariant 0 !in g[i][..j]
        {
          if blocks[i, j] == 0 {
            row, col := i, j;
            FoundFirst(g[i], 0, j);
            break;
          }
        }
        assert g[i][..N] == g[i];
      }
      if IsPermutation(g, N) {
        ScanBlank(g, N);
      }
    }

    /** Whether every cell holds its value on the solved board. */
    method IsGoal() returns (b: bool)
      requires Valid()
      ensures b <==> IsGoalGrid(Cells(), N)
    {
      for i := 0 to N
        invariant forall a, c :: 0 <= a < i && 0 <= c < N ==> blocks[a, c] == GoalAt(N, a, c)
      {
        for j := 0 to N
          invariant forall a, c :: 0 <= a < i && 0 <= c < N ==> blocks[a, c] == GoalAt(N, a, c)
          invariant forall c :: 0 <= c < j ==> blocks[i, c] == GoalAt(N, i, c)
        {
          if goalBlocks[i, j] != blocks[i, j] {
            assert Cells()[i][j] != GoalAt(N, i, j);
            return false;
          }
        }
      }
      return true;
    }

    /** A new board with two tiles of one row exchanged (see TwinCells). */
    method Twin() returns (t: Board)
      requires Valid() && N >= 2
      ensures fresh(t) && fresh(t.blocks) && t.Valid() && t.N == N
      ensures t.Cells() == Apply(Cells(), N, TwinCells(Cells(), N))
      ensures Distinct(Cells(), N) ==> t.Cells() != Cells()
    {
      var twinArr: array2<int>;
      if blocks[0, 0] != 0 {
        if blocks[0, 1] != 0 {
          twinArr := Swap(0, 0, 0, 1);
        } else if N >= 3 {
          twinArr := Swap(0, 0, 0, 2);
        } else {
          twinArr := Swap(1, 0, 1, 1);
        }
      } else if N >= 3 {
        twinArr := Swap(0, 1, 0, 2);
      } else {
        twinArr := Swap(1, 0, 1, 1);
      }
      t := new Board(twinArr);
      if Distinct(Cells(), N) {
        TwinExchangesTiles(Cells(), N);
      }
    }

    /** Whether other holds the same tiles in the N-by-N cells this board has. */
    method Equals(other: Board) returns (b: bool)
      requires Valid()
      requires other.blocks.Length0 >= N && other.blocks.Length1 >= N
      ensures b <==> forall i, j :: 0 <= i < N && 0 <= j < N ==> other.blocks[i, j] == blocks[i, j]
      ensures other.N == N && other.Valid() ==> (b <==> other.Cells() == Cells())
    {
      if other == this {
        b := true;
      } else {
        b := true;
        var i := 0;
        while i < N && b
          invariant 0 <= i <= N
          invariant b <==> forall a, c :: 0 <= a < i && 0 <= c < N ==> other.blocks[a, c] == blocks[a, c]
        {
          var j := 0;
          while j < N && b
            invariant 0 <= j <= N
            invariant b <==> forall a, c :: (0 <= a < i && 0 <= c < N) || (a == i && 0 <= c < j) ==>
              other.blocks[a, c] == blocks[a, c]
          {
            if other.blocks[i, j] != blocks[i, j] {
              b := false;
            }
            j := j + 1;
          }
          i := i + 1;
        }
      }
      if other.N == N && other.Valid() {
        CellwiseEqual(other.Cells(), Cells(), N);
      }
    }

    /** The boards one move away: the blank exchanged with the cell above,
        below, left and right of it, in that order, skipping cells off the
        board. Each is a new board over a new array. */
    method Neighbors() returns (boards: seq<Board>)
      requires Valid()
      ensures |boards| == |Successors(Cells(), N)|
      ensures forall k :: 0 <= k < |boards| ==> fresh(boards[k]) && fresh(boards[k].blocks)
      ensures BoardsHold(boards, Successors(Cells(), N))
    {
      var row, col := FindZeroCoord();
      boards := NeighborsOf(row, col);
    }

    /** The four guarded steps of Neighbors around the blank at (row, col). */
    method NeighborsOf(row: int, col: int) returns (boards: seq<Board>)
      requires Valid() && 0 <= row < N && 0 <= col < N
      ensures |boards| == |Targets(row, col, N)|
      ensures forall k :: 0 <= k < |boards| ==> fresh(boards[k]) && fresh(boards[k].blocks)
      ensures BoardsHold(boards, MovesFrom(Cells(), N, row, col))
    {
      ghost var g := Cells();
      ghost var ts := Targets(row, col, N);
      ghost var succ := MovesFrom(g, N, row, col);
      ghost var up := if row - 1 >= 0 then [(row - 1, col)] else [];
      ghost var down := if row + 1 < N then [(row + 1, col)] else [];
      ghost var left := if col - 1 >= 0 then [(row, col - 1)] else [];
      ghost var right := if col + 1 < N then [(row, col + 1)] else [];
      assert ts == up + down + left + right;
      boards := [];
      boards := AddNeighbor(boards, g, succ, ts, row - 1 >= 0, row, col, row - 1, col);
      boards := AddNeighbor(boards, g, succ, ts, row + 1 < N, row, col, row + 1, col);
      boards := AddNeighbor(boards, g, succ, ts, col - 1 >= 0, row, col, row, col - 1);
      boards := AddNeighbor(boards, g, succ, ts, col + 1 < N, row, col, row, col + 1);
    }

    /** Each of bs is a board of side N holding the grid of the same index. */
    ghost predicate BoardsHold(bs: seq<Board>, grids: seq<Grid>)
      reads set k | 0 <= k < |bs| :: bs[k].blocks
      reads set k | 0 <= k < |bs| :: bs[k].goalBlocks
    {
      |bs| <= |grids| &&
      forall k :: 0 <= k < |bs| ==> bs[k].Valid() && bs[k].N == N && bs[k].Cells() == grids[k]
    }

    lemma BoardsHoldSnoc(bs: seq<Board>, grids: seq<Grid>, b: Board)
      requires BoardsHold(bs, grids) && |bs| < |grids|
      requires b.Valid() && b.N == N && b.Cells() == grids[|bs|]
      ensures BoardsHold(bs + [b], grids)
    {
    }

    /** One guarded step of Neighbors: when inside holds, the board with
        (row, col), the blank, and (row2, col2) exchanged is appended; it is
        the next of the moves succ from the blank. */
    method AddNeighbor(boards: seq<Board>, ghost g: Grid, ghost succ: seq<Grid>, ghost ts: seq<(int, int)>,
                       inside: bool, row: int, col: int, row2: int, col2: int)
      returns (boards': seq<Board>)
      requires Valid() && 0 <= row < N && 0 <= col < N
      requires g == Cells() && ts == Targets(row, col, N) && succ == MovesFrom(g, N, row, col)
      requires BoardsHold(boards, succ)
      requires inside ==> |boards| < |ts| && ts[|boards|] == (row2, col2)
      ensures |boards'| == |boards| + (if inside then 1 else 0)
      ensures forall k :: 0 <= k < |boards| ==> boards'[k] == boards[k]
      ensures forall k :: |boards| <= k < |boards'| ==> fresh(boards'[k]) && fresh(boards'[k].blocks)
      ensures BoardsHold(boards', succ)
    {
      boards' := boards;
      if inside {
        MovesFromAt(g, N, row, col, |boards|);
        var moved := Swap(row, col, row2, col2);
        var b := new Board(moved);
        BoardsHoldSnoc(boards, succ, b);
        boards' := boards + [b];
      }
    }

    /** A fresh copy of the tiles with cells (row1, col1) and (row2, col2)
        exchanged; this board's own tiles are left as they are. */
    method Swap(row1: int, col1: int, row2: int, col2: int) returns (copy: array2<int>)
      requires Valid()
      requires 0 <= row1 < N && 0 <= col1 < N && 0 <= row2 < N && 0 <= col2 < N
      ensures fresh(copy) && copy.Length0 == N && copy.Length1 == N
      ensures Contents(copy) == Swapped(Cells(), row1, col1, row2, col2)
    {
      copy := CopyBlocks();
      var t := copy[row1, col1];
      copy[row1, col1] := copy[row2, col2];
      copy[row2, col2] := t;
      CellwiseEqual(Contents(copy), Swapped(Cells(), row1, col1, row2, col2), N);
    }

    /** A fresh array holding the same tiles. */
    method CopyBlocks() returns (copy: array2<int>)
      requires Valid()
      ensures fresh(copy) && copy.Length0 == N && copy.Length1 == N
      ensures Contents(copy) == Cells()
    {
      copy := new int[N, N];
      for i := 0 to N
        invariant forall a, c :: 0 <= a < i && 0 <= c < N ==> copy[a, c] == blocks[a, c]
      {
        for j := 0 to N
          invariant forall a, c :: 0 <= a < i && 0 <= c < N ==> copy[a, c] == blocks[a, c]
          invariant forall c :: 0 <= c < j ==> copy[i, c] == blocks[i, c]
        {
          copy[i, j] := blocks[i, j];
        }
      }
      CellwiseEqual(Contents(copy), Cells(), N);
    }

    /** The board's text: N, then each row after a newline, every value
        followed by a space. */
    method ToString() returns (s: string)
      requires Valid()
      ensures s == Render(Cells(), N)
    {
      ghost var g := Cells();
      s := "";
      for i := 0 to N
        invariant s == if i == 0 then "" else NatStr(N) + RowsText(g[..i])
      {
        if i == 0 {
          s := s + NatStr(N);
          assert s == NatStr(N) + RowsText(g[..0]);
        }
        ghost var before := s;
        s := s + "\n";
        for j := 0 to N
          invariant s == before + "\n" + RowText(g[i][..j])
        {
          s := s + (IntStr(blocks[i, j]) + " ");
          RowTextStep(before + "\n", g[i], j);
        }
        Whole(g[i]);
        RenderStep(N, g, i);
      }
      Whole(g);
    }
  }

  lemma Whole<T>(s: seq<T>)
    ensures s[..|s|] == s
  {
  }

  /** The first occurrence of v in s is at j when s[j] is v and no earlier
      cell holds it. */
  lemma FoundFirst(s: seq<int>, v: int, j: int)
    requires 0 <= j < |s| && s[j] == v && v !in s[..j]
    ensures v in s && FirstIndex(s, v) == j
  {
  }
}
