/**
 * The rules of the colour-fill puzzle, stated on board values.
 *
 * A board is a 5 x 5 grid of cells. A cell is either White, the "not yet
 * painted" sentinel, or one of the four palette colours. The four RGB
 * triples of the palette are pairwise distinct and none of them is white,
 * so comparing cells is comparing these five constructors.
 */
module Rules {

  datatype Cell = White | R | G | B | Y

  /** BOARD_SIZE: the board has this many rows and this many columns. */
  const BoardSize: nat := 5

  /** The palette, in the order of its keys 'R', 'G', 'B', 'Y'. */
  const Palette: seq<Cell> := [R, G, B, Y]

  /** A board value: a list of rows, each a list of cells. */
  type Grid = seq<seq<Cell>>

  ghost predicate WellFormed(g: Grid) {
    |g| == BoardSize && forall r :: 0 <= r < |g| ==> |g[r]| == BoardSize
  }

  predicate InGrid(row: int, col: int) {
    0 <= row < BoardSize && 0 <= col < BoardSize
  }

  /** (r1, c1) and (r2, c2) are orthogonal neighbours: one step up, down, left or right. */
  predicate Adjacent(r1: int, c1: int, r2: int, c2: int) {
    || (r1 == r2 && (c2 == c1 + 1 || c2 == c1 - 1))
    || (c1 == c2 && (r2 == r1 + 1 || r2 == r1 - 1))
  }

  /**
   * Painting (row, col) with `color` is allowed unless one of its in-grid
   * orthogonal neighbours already holds `color`. The cell (row, col) itself
   * is not consulted, and neighbours outside the grid impose nothing.
   */
  ghost predicate ValidMove(g: Grid, row: int, col: int, color: Cell)
    requires WellFormed(g)
  {
    forall r, c :: InGrid(r, c) && Adjacent(row, col, r, c) ==> g[r][c] != color
  }

  /** No cell is still White. */
  ghost predicate Filled(g: Grid)
    requires WellFormed(g)
  {
    forall r, c :: InGrid(r, c) ==> g[r][c] != White
  }

  /** Some in-grid orthogonal pair of cells holds the same value (White included). */
  ghost predicate Conflict(g: Grid)
    requires WellFormed(g)
  {
    exists r1, c1, r2, c2 ::
      InGrid(r1, c1) && InGrid(r2, c2) && Adjacent(r1, c1, r2, c2) && g[r1][c1] == g[r2][c2]
  }

  /** No in-grid orthogonal pair of cells shares a colour other than White. */
  ghost predicate Proper(g: Grid)
    requires WellFormed(g)
  {
    forall r1, c1, r2, c2 ::
      InGrid(r1, c1) && InGrid(r2, c2) && Adjacent(r1, c1, r2, c2) && g[r1][c1] == g[r2][c2]
      ==> g[r1][c1] == White
  }

  /** The winning condition: every cell painted and no adjacent pair alike. */
  ghost predicate Winning(g: Grid)
    requires WellFormed(g)
  {
    Filled(g) && !Conflict(g)
  }

  /** The board with cell (row, col) set to `color`; nothing else changes. */
  function Paint(g: Grid, row: int, col: int, color: Cell): (h: Grid)
    requires WellFormed(g) && InGrid(row, col)
    ensures WellFormed(h)
    ensures h[row][col] == color
    ensures forall r, c :: InGrid(r, c) && (r != row || c != col) ==> h[r][c] == g[r][c]
  {
    g[row := g[row][col := color]]
  }

  /** The all-White board the game starts from and resets to. */
  function Blank(): (g: Grid)
    ensures WellFormed(g)
    ensures forall r, c :: InGrid(r, c) ==> g[r][c] == White
  {
    seq(BoardSize, _ => seq(BoardSize, _ => White))
  }

  /** Every cell holds `color`. */
  function Uniform(color: Cell): (g: Grid)
    ensures WellFormed(g)
    ensures forall r, c :: InGrid(r, c) ==> g[r][c] == color
  {
    seq(BoardSize, _ => seq(BoardSize, _ => color))
  }

  /** Cells whose row and column sum to an even number hold `even`, the others `odd`. */
  function Checkerboard(even: Cell, odd: Cell): (g: Grid)
    ensures WellFormed(g)
    ensures forall r, c :: InGrid(r, c) ==> g[r][c] == if (r + c) % 2 == 0 then even else odd
  {
    seq(BoardSize, r => seq(BoardSize, c => if (r + c) % 2 == 0 then even else odd))
  }

  /** The board mirrored in its main diagonal: row r of the result is column r of `g`. */
  function Transpose(g: Grid): (t: Grid)
    requires WellFormed(g)
    ensures WellFormed(t)
    ensures forall r, c :: InGrid(r, c) ==> t[r][c] == g[c][r]
  {
    seq(BoardSize, r requires 0 <= r < BoardSize => seq(BoardSize, c requires 0 <= c < BoardSize => g[c][r]))
  }

  /** The board mirrored top to bottom: row r of the result is row BoardSize - 1 - r of `g`. */
  function FlipRows(g: Grid): (f: Grid)
    requires WellFormed(g)
    ensures WellFormed(f)
    ensures forall r, c :: InGrid(r, c) ==> f[r][c] == g[BoardSize - 1 - r][c]
  {
    seq(BoardSize, r requires 0 <= r < BoardSize => g[BoardSize - 1 - r])
  }

  // ---------------------------------------------------------------------------
  // Properties of the rules
  // ---------------------------------------------------------------------------

  /** On a board with no White cell, "no conflict" and "no same-colour neighbours" agree. */
  lemma WinningIffFilledAndProper(g: Grid)
    requires WellFormed(g)
    ensures Winning(g) <==> Filled(g) && Proper(g)
  {
  }

  /** A cell conflicts with a neighbour exactly when painting it again with its own colour would be refused. */
  lemma ConflictIffSomeCellInvalid(g: Grid)
    requires WellFormed(g)
    ensures Conflict(g) <==> exists r, c :: InGrid(r, c) && !ValidMove(g, r, c, g[r][c])
  {
  }

  /** Painting the same cell with the same colour twice gives the board painting it once gives. */
  lemma PaintIdempotent(g: Grid, row: int, col: int, color: Cell)
    requires WellFormed(g) && InGrid(row, col)
    ensures Paint(Paint(g, row, col, color), row, col, color) == Paint(g, row, col, color)
  {
    var once := Paint(g, row, col, color);
    var twice := Paint(once, row, col, color);
    forall r | 0 <= r < BoardSize
      ensures twice[r] == once[r]
    {
      assert |twice[r]| == |once[r]|;
      forall c | 0 <= c < BoardSize
        ensures twice[r][c] == once[r][c]
      {
      }
    }
  }

  /**
   * Validity of a move does not look at the target cell: whatever the cell
   * holds, including a colour painted earlier, the answer is the same.
   */
  lemma ValidMoveIgnoresTarget(g: Grid, row: int, col: int, prior: Cell, color: Cell)
    requires WellFormed(g) && InGrid(row, col)
    ensures ValidMove(Paint(g, row, col, prior), row, col, color) <==> ValidMove(g, row, col, color)
  {
  }

  /**
   * The inductive step of the game's invariant: a paint with a palette
   * colour that the move check allows keeps "no two neighbours share a
   * colour other than White".
   */
  lemma PaintKeepsProper(g: Grid, row: int, col: int, color: Cell)
    requires WellFormed(g) && InGrid(row, col)
    requires Proper(g) && ValidMove(g, row, col, color) && color != White
    ensures Proper(Paint(g, row, col, color))
  {
  }

  /** The blank board is not winning: its cells are White. */
  lemma BlankNotWinning()
    ensures !Filled(Blank()) && !Winning(Blank())
  {
    assert Blank()[0][0] == White;
  }

  /** The blank board has no two neighbours sharing a palette colour. */
  lemma BlankProper()
    ensures Proper(Blank())
  {
  }

  /**
   * The move check does not depend on orientation: mirroring the board and
   * the queried cell in the main diagonal gives the same answer.
   */
  lemma ValidMoveTransposed(g: Grid, row: int, col: int, color: Cell)
    requires WellFormed(g)
    ensures ValidMove(Transpose(g), col, row, color) <==> ValidMove(g, row, col, color)
  {
    var t := Transpose(g);
    if ValidMove(g, row, col, color) {
      forall r, c | InGrid(r, c) && Adjacent(col, row, r, c)
        ensures t[r][c] != color
      {
        assert InGrid(c, r) && Adjacent(row, col, c, r);
      }
    } else {
      var r, c :| InGrid(r, c) && Adjacent(row, col, r, c) && g[r][c] == color;
      assert InGrid(c, r) && Adjacent(col, row, c, r) && t[c][r] == color;
    }
  }

  /** Mirroring in the main diagonal keeps a winning board winning, and a losing one losing. */
  lemma WinningTransposed(g: Grid)
    requires WellFormed(g)
    ensures Winning(Transpose(g)) <==> Winning(g)
  {
    var t := Transpose(g);
    if Filled(g) {
      forall r, c | InGrid(r, c) ensures t[r][c] != White {
        assert InGrid(c, r);
      }
    } else {
      var r, c :| InGrid(r, c) && g[r][c] == White;
      assert InGrid(c, r) && t[c][r] == White;
    }
    if Conflict(g) {
      var r1, c1, r2, c2 :| InGrid(r1, c1) && InGrid(r2, c2) && Adjacent(r1, c1, r2, c2)
                            && g[r1][c1] == g[r2][c2];
      assert InGrid(c1, r1) && InGrid(c2, r2) && Adjacent(c1, r1, c2, r2) && t[c1][r1] == t[c2][r2];
    }
    if Conflict(t) {
      var r1, c1, r2, c2 :| InGrid(r1, c1) && InGrid(r2, c2) && Adjacent(r1, c1, r2, c2)
                            && t[r1][c1] == t[r2][c2];
      assert InGrid(c1, r1) && InGrid(c2, r2) && Adjacent(c1, r1, c2, r2) && g[c1][r1] == g[c2][r2];
    }
  }

  /**
   * The move check does not depend on the board's vertical orientation:
   * flipping the board and the queried cell top to bottom gives the same
   * answer. With ValidMoveTransposed this covers every reflection and
   * rotation of the square board.
   */
  lemma ValidMoveFlipped(g: Grid, row: int, col: int, color: Cell)
    requires WellFormed(g)
    ensures ValidMove(FlipRows(g), BoardSize - 1 - row, col, color) <==> ValidMove(g, row, col, color)
  {
    var f := FlipRows(g);
    var n := BoardSize - 1;
    if ValidMove(g, row, col, color) {
      forall r, c | InGrid(r, c) && Adjacent(n - row, col, r, c)
        ensures f[r][c] != color
      {
        assert InGrid(n - r, c) && Adjacent(row, col, n - r, c);
      }
    } else {
      var r, c :| InGrid(r, c) && Adjacent(row, col, r, c) && g[r][c] == color;
      assert InGrid(n - r, c) && Adjacent(n - row, col, n - r, c) && f[n - r][c] == color;
    }
  }

  /** Flipping the board top to bottom keeps it filled, or not filled. */
  lemma FilledFlipped(g: Grid)
    requires WellFormed(g)
    ensures Filled(FlipRows(g)) <==> Filled(g)
  {
    var f := FlipRows(g);
    var n := BoardSize - 1;
    if Filled(g) {
      forall r, c | InGrid(r, c) ensures f[r][c] != White {
        assert InGrid(n - r, c);
      }
    } else {
      var r, c :| InGrid(r, c) && g[r][c] == White;
      assert InGrid(n - r, c) && f[n - r][c] == White;
    }
  }

  /** A conflict on the board appears, flipped top to bottom, on the flipped board. */
  lemma ConflictFlipped(g: Grid)
    requires WellFormed(g) && Conflict(g)
    ensures Conflict(FlipRows(g))
  {
    var f := FlipRows(g);
    var n := BoardSize - 1;
    var r1, c1, r2, c2 :| InGrid(r1, c1) && InGrid(r2, c2) && Adjacent(r1, c1, r2, c2)
                          && g[r1][c1] == g[r2][c2];
    assert InGrid(n - r1, c1) && InGrid(n - r2, c2) && Adjacent(n - r1, c1, n - r2, c2)
           && f[n - r1][c1] == f[n - r2][c2];
  }

  /** Flipping the board top to bottom keeps a winning board winning, and a losing one losing. */
  lemma WinningFlipped(g: Grid)
    requires WellFormed(g)
    ensures Winning(FlipRows(g)) <==> Winning(g)
  {
    var f := FlipRows(g);
    assert FlipRows(f) == g by {
      forall r | 0 <= r < BoardSize ensures FlipRows(f)[r] == g[r] {
        assert forall c :: 0 <= c < BoardSize ==> FlipRows(f)[r][c] == g[r][c];
      }
    }
    FilledFlipped(g);
    if Conflict(g) {
      ConflictFlipped(g);
    }
    if Conflict(f) {
      ConflictFlipped(f);
    }
  }

  /** A board filled with one palette colour is filled yet not winning. */
  lemma UniformNotWinning(color: Cell)
    requires color != White
    ensures Filled(Uniform(color)) && Conflict(Uniform(color)) && !Winning(Uniform(color))
  {
    var g := Uniform(color);
    assert InGrid(0, 0) && InGrid(0, 1) && Adjacent(0, 0, 0, 1) && g[0][0] == g[0][1];
  }

  /** A checkerboard of two distinct palette colours is a winning board. */
  lemma CheckerboardWinning(even: Cell, odd: Cell)
    requires even != White && odd != White && even != odd
    ensures Winning(Checkerboard(even, odd))
  {
  }

  /**
   * The opening of a game: on the blank board (0, 0) may be painted red;
   * after that red is refused at (0, 1) and green is allowed there.
   */
  lemma OpeningMoves()
    ensures ValidMove(Blank(), 0, 0, R)
    ensures !ValidMove(Paint(Blank(), 0, 0, R), 0, 1, R)
    ensures ValidMove(Paint(Blank(), 0, 0, R), 0, 1, G)
  {
  }
}
