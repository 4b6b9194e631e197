/** The board grid: cell numbering of the 10 x 10 grid, the snake/ladder
    lookup for one cell, and the player tokens standing on a cell. */
module Grid {
  import opened Schema
  import opened Board

  /** Number shown in the cell at column `col` of the row the loop calls
      `row` (rows are produced for row = 9 down to 0). Even rows count left to
      right, odd rows right to left. */
  function CellNumber(row: int, col: int): (n: int)
    requires 0 <= row < 10 && 0 <= col < 10
    ensures (9 - row) * 10 + 1 <= n <= (9 - row) * 10 + 10
    ensures (n - 1) / 10 == 9 - row
  {
    if row % 2 == 0 then (9 - row) * 10 + col + 1
    else (9 - row) * 10 + (9 - col) + 1
  }

  /** Index, in the produced grid, of the row that shows cell n. */
  function RowIndexOf(n: int): int {
    (n - 1) / 10
  }

  /** Column that shows cell n. */
  function ColumnOf(n: int): int {
    if (9 - RowIndexOf(n)) % 2 == 0 then (n - 1) % 10 else 9 - (n - 1) % 10
  }

  /** Every number of 1..100 is shown, at the place RowIndexOf/ColumnOf name. */
  lemma CellNumberCovers(n: int)
    requires OnBoard(n)
    ensures 0 <= RowIndexOf(n) < 10 && 0 <= ColumnOf(n) < 10
    ensures CellNumber(9 - RowIndexOf(n), ColumnOf(n)) == n
  {
  }

  /** No number is shown twice. */
  lemma CellNumberInjective(r1: int, c1: int, r2: int, c2: int)
    requires 0 <= r1 < 10 && 0 <= c1 < 10 && 0 <= r2 < 10 && 0 <= c2 < 10
    requires CellNumber(r1, c1) == CellNumber(r2, c2)
    ensures r1 == r2 && c1 == c2
  {
  }

  /** Neighbours in a row differ by one; the direction alternates with the
      parity of the loop row. */
  lemma CellNumberAdjacent(row: int, col: int)
    requires 0 <= row < 10 && 0 <= col < 9
    ensures CellNumber(row, col + 1) - CellNumber(row, col) == (if row % 2 == 0 then 1 else -1)
  {
  }

  /** Builds the grid row by row, top row first, as the nested loops of the
      component do. Row index i of the result is loop row 9 - i. */
  method CreateGrid() returns (grid: seq<seq<int>>)
    ensures |grid| == 10
    ensures forall i :: 0 <= i < 10 ==> |grid[i]| == 10
    ensures forall i, j :: 0 <= i < 10 && 0 <= j < 10 ==> grid[i][j] == CellNumber(9 - i, j)
    ensures forall i, j :: 0 <= i < 10 && 0 <= j < 10 ==> i * 10 + 1 <= grid[i][j] <= i * 10 + 10
    ensures forall n :: OnBoard(n) ==>
              (0 <= RowIndexOf(n) < 10 && 0 <= ColumnOf(n) < 10 && grid[RowIndexOf(n)][ColumnOf(n)] == n)
    ensures forall i1, j1, i2, j2 ::
              0 <= i1 < 10 && 0 <= j1 < 10 && 0 <= i2 < 10 && 0 <= j2 < 10 && grid[i1][j1] == grid[i2][j2]
              ==> i1 == i2 && j1 == j2
    ensures forall i, j :: 0 <= i < 10 && 0 <= j < 9 ==>
              grid[i][j + 1] - grid[i][j] == (if (9 - i) % 2 == 0 then 1 else -1)
  {
    grid := [];
    var row := 9;
    while row >= 0
      invariant -1 <= row <= 9
      invariant |grid| == 9 - row
      invariant forall i :: 0 <= i < |grid| ==> |grid[i]| == 10
      invariant forall i, j :: 0 <= i < |grid| && 0 <= j < 10 ==> grid[i][j] == CellNumber(9 - i, j)
    {
      var rowCells := [];
      var col := 0;
      while col < 10
        invariant 0 <= col <= 10
        invariant |rowCells| == col
        invariant forall j :: 0 <= j < col ==> rowCells[j] == CellNumber(row, j)
      {
        var cellNumber := if row % 2 == 0 then (9 - row) * 10 + col + 1
                          else (9 - row) * 10 + (9 - col) + 1;
        rowCells := rowCells + [cellNumber];
        col := col + 1;
      }
      grid := grid + [rowCells];
      row := row - 1;
    }
    forall n | OnBoard(n)
      ensures 0 <= RowIndexOf(n) < 10 && 0 <= ColumnOf(n) < 10 && grid[RowIndexOf(n)][ColumnOf(n)] == n
    {
      CellNumberCovers(n);
    }
    forall i1, j1, i2, j2 |
      0 <= i1 < 10 && 0 <= j1 < 10 && 0 <= i2 < 10 && 0 <= j2 < 10 && grid[i1][j1] == grid[i2][j2]
      ensures i1 == i2 && j1 == j2
    {
      CellNumberInjective(9 - i1, j1, 9 - i2, j2);
    }
    forall i, j | 0 <= i < 10 && 0 <= j < 9
      ensures grid[i][j + 1] - grid[i][j] == (if (9 - i) % 2 == 0 then 1 else -1)
    {
      CellNumberAdjacent(9 - i, j);
    }
  }

  /** Index of the first snake from index `i` on whose head is `cell`
      (|snakes| when none), as Array.prototype.find scans. */
  function FirstSnakeAt(snakes: seq<Snake>, cell: int, i: nat): (k: nat)
    requires i <= |snakes|
    ensures i <= k <= |snakes|
    ensures k < |snakes| ==> snakes[k].head == cell
    ensures forall m :: i <= m < k ==> snakes[m].head != cell
    decreases |snakes| - i
  {
    if i == |snakes| || snakes[i].head == cell then i else FirstSnakeAt(snakes, cell, i + 1)
  }

  /** Index of the first ladder from index `i` on whose bottom is `cell`
      (|ladders| when none). */
  function FirstLadderAt(ladders: seq<Ladder>, cell: int, i: nat): (k: nat)
    requires i <= |ladders|
    ensures i <= k <= |ladders|
    ensures k < |ladders| ==> ladders[k].bottom == cell
    ensures forall m :: i <= m < k ==> ladders[m].bottom != cell
    decreases |ladders| - i
  {
    if i == |ladders| || ladders[i].bottom == cell then i else FirstLadderAt(ladders, cell, i + 1)
  }

  datatype SpecialKind = SnakeCell | LadderCell
  datatype Special = Special(kind: SpecialKind, target: int)

  /** What a cell starts: a snake (to its tail), else a ladder (to its top),
      else nothing. Snakes are looked up before ladders. */
  function SpecialCell(t: Topology, cell: int): (r: Option<Special>)
    ensures IsSnakeHead(t, cell) ==>
              r.Some? && r.value.kind == SnakeCell && Snake(cell, r.value.target) in t.snakes
    ensures !IsSnakeHead(t, cell) && IsLadderBottom(t, cell) ==>
              r.Some? && r.value.kind == LadderCell && Ladder(cell, r.value.target) in t.ladders
    ensures r.None? <==> !IsSnakeHead(t, cell) && !IsLadderBottom(t, cell)
  {
    var s := FirstSnakeAt(t.snakes, cell, 0);
    var l := FirstLadderAt(t.ladders, cell, 0);
    if s < |t.snakes| then Some(Special(SnakeCell, t.snakes[s].tail))
    else if l < |t.ladders| then Some(Special(LadderCell, t.ladders[l].top))
    else None
  }

  /** When several snakes share a head, the first one listed decides. */
  lemma SpecialCellFirstSnakeWins(t: Topology, cell: int, k: nat)
    requires k < |t.snakes| && t.snakes[k].head == cell
    requires forall m :: 0 <= m < k ==> t.snakes[m].head != cell
    ensures SpecialCell(t, cell) == Some(Special(SnakeCell, t.snakes[k].tail))
  {
  }

  /** With no snake on the cell, when several ladders share a bottom the
      first one listed decides. */
  lemma SpecialCellFirstLadderWins(t: Topology, cell: int, k: nat)
    requires !IsSnakeHead(t, cell)
    requires k < |t.ladders| && t.ladders[k].bottom == cell
    requires forall m :: 0 <= m < k ==> t.ladders[m].bottom != cell
    ensures SpecialCell(t, cell) == Some(Special(LadderCell, t.ladders[k].top))
  {
  }

  /** On the default board, the ladder from 9 lands on 21, which is itself a
      ladder bottom: looking the landing cell up once does not give a resting
      cell. */
  lemma DefaultLookupNotIdempotent()
    ensures SpecialCell(DefaultSnakesAndLadders, 9) == Some(Special(LadderCell, 21))
    ensures SpecialCell(DefaultSnakesAndLadders, 21) == Some(Special(LadderCell, 42))
  {
    var t := DefaultSnakesAndLadders;
    assert !IsSnakeHead(t, 9) && !IsSnakeHead(t, 21);
    assert FirstLadderAt(t.ladders, 9, 0) == 2 by {
      assert t.ladders[2].bottom == 9;
    }
    assert FirstLadderAt(t.ladders, 21, 0) == 3 by {
      assert t.ladders[3].bottom == 21;
    }
  }

  /** A player token drawn on a cell. */
  datatype Token = Token(color: string, player: Player)

  /** The tokens standing on `cell`: player 1's first, then player 2's. */
  function PlayersOn(player1Position: int, player1Color: string,
                     player2Position: int, player2Color: string, cell: int): (r: seq<Token>)
    ensures |r| <= 2
    ensures Token(player1Color, One) in r <==> player1Position == cell
    ensures Token(player2Color, Two) in r <==> player2Position == cell
    ensures forall i :: 0 <= i < |r| ==>
              r[i].color == (if r[i].player == One then player1Color else player2Color)
    ensures |r| == 2 ==> r[0].player == One && r[1].player == Two
  {
    if player1Position == cell && player2Position == cell then
      [Token(player1Color, One), Token(player2Color, Two)]
    else if player1Position == cell then [Token(player1Color, One)]
    else if player2Position == cell then [Token(player2Color, Two)]
    else []
  }
}
