/**
 * The board as the program keeps it: a mutable 5 x 5 grid of cells, read by
 * the move check and the win check and written one cell at a time.
 *
 * Each operation takes the array together with a ghost board value `g` that
 * it mirrors, and is proved against the predicates of module Rules on `g`.
 */
module Board {
  import opened Rules

  /** The array `b` holds exactly the board value `g`. */
  ghost predicate Mirrors(b: array2<Cell>, g: Grid)
    reads b
  {
    && b.Length0 == BoardSize && b.Length1 == BoardSize && WellFormed(g)
    && forall r, c :: InGrid(r, c) ==> b[r, c] == g[r][c]
  }

  /** The four steps to a neighbour, in the order the program tries them. */
  const Directions: seq<(int, int)> := [(0, 1), (0, -1), (1, 0), (-1, 0)]

  /** Every orthogonal neighbour of (row, col) is one step of Directions away. */
  lemma NeighbourIsDirection(row: int, col: int, r: int, c: int)
    requires Adjacent(row, col, r, c)
    ensures exists k :: 0 <= k < |Directions| && r == row + Directions[k].0 && c == col + Directions[k].1
  {
    if r == row && c == col + 1 {
      assert Directions[0] == (0, 1);
    } else if r == row {
      assert Directions[1] == (0, -1);
    } else if r == row + 1 {
      assert Directions[2] == (1, 0);
    } else {
      assert Directions[3] == (-1, 0);
    }
  }

  /**
   * The move check: tries the four neighbours in turn and answers false at
   * the first in-grid one that already holds `color`.
   */
  method IsValidMove(b: array2<Cell>, ghost g: Grid, row: int, col: int, color: Cell) returns (ok: bool)
    requires Mirrors(b, g)
    ensures ok <==> ValidMove(g, row, col, color)
  {
    for k := 0 to |Directions|
      invariant forall j :: 0 <= j < k && InGrid(row + Directions[j].0, col + Directions[j].1) ==>
                  g[row + Directions[j].0][col + Directions[j].1] != color
    {
      var (dx, dy) := Directions[k];
      var newRow, newCol := row + dx, col + dy;
      if 0 <= newRow < BoardSize && 0 <= newCol < BoardSize {
        if b[newRow, newCol] == color {
          assert Adjacent(row, col, newRow, newCol) && g[newRow][newCol] == color;
          return false;
        }
      }
    }
    forall r, c | InGrid(r, c) && Adjacent(row, col, r, c)
      ensures g[r][c] != color
    {
      NeighbourIsDirection(row, col, r, c);
    }
    return true;
  }

  /** Writes one cell in place; every other cell keeps its value. */
  method UpdateBoard(b: array2<Cell>, ghost g: Grid, row: int, col: int, color: Cell)
    requires Mirrors(b, g) && InGrid(row, col)
    modifies b
    ensures Mirrors(b, Paint(g, row, col, color))
  {
    b[row, col] := color;
  }

  /**
   * The win check, in two passes over the board: first any White cell
   * answers false; then any cell with an in-grid neighbour of its own
   * colour answers false.
   */
  method IsWinningState(b: array2<Cell>, ghost g: Grid) returns (ok: bool)
    requires Mirrors(b, g)
    ensures ok <==> Winning(g)
  {
    for row := 0 to BoardSize
      invariant forall r, c :: 0 <= r < row && 0 <= c < BoardSize ==> g[r][c] != White
    {
      for col := 0 to BoardSize
        invariant forall r, c :: 0 <= r < row && 0 <= c < BoardSize ==> g[r][c] != White
        invariant forall c :: 0 <= c < col ==> g[row][c] != White
      {
        if b[row, col] == White {
          assert InGrid(row, col) && g[row][col] == White;
          return false;
        }
      }
    }
    ConflictIffSomeCellInvalid(g);
    for row := 0 to BoardSize
      invariant forall r, c :: 0 <= r < row && 0 <= c < BoardSize ==> ValidMove(g, r, c, g[r][c])
    {
      for col := 0 to BoardSize
        invariant forall r, c :: 0 <= r < row && 0 <= c < BoardSize ==> ValidMove(g, r, c, g[r][c])
        invariant forall c :: 0 <= c < col ==> ValidMove(g, row, c, g[row][c])
      {
        var color := b[row, col];
        var valid := IsValidMove(b, g, row, col, color);
        if !valid {
          assert InGrid(row, col) && !ValidMove(g, row, col, g[row][col]);
          return false;
        }
      }
    }
    return true;
  }
}
