/**
 * The game loop's handling of a mouse click, as a state machine with two
 * phases: playing, and won (the `game_won` flag).
 *
 * `Step` is the specification of one click on the game's state as a value;
 * class `Game` holds the state the program mutates (the board array, the
 * selected colour and the won flag) and its `Click` is proved to perform
 * `Step`. The lemmas below state what the click handling guarantees: every
 * reachable board has no two neighbours sharing a palette colour, the won
 * flag is set exactly when the board is winning, and in the won phase only
 * the restart button does anything.
 */
module Game {
  import opened Rules
  import opened Wrappers
  import opened Input
  import Board

  /** The state a click reads and writes: the board, the selected colour and the won flag. */
  datatype State = State(grid: Grid, selected: Option<Cell>, won: bool)

  /** At start-up the board is blank, no colour is selected and the game is not won. */
  function Start(): State {
    State(Blank(), None, false)
  }

  /**
   * One click at (x, y). In the won phase only a click on the restart button
   * does something: it clears the flag and blanks the board. Otherwise a
   * click on the palette selects a colour; any other click names a cell, and
   * when that cell is on the board, a colour is selected and the move check
   * allows it, the cell is painted and the flag is set if the board now wins.
   */
  ghost function Step(s: State, x: nat, y: nat): (t: State)
    requires WellFormed(s.grid)
    ensures WellFormed(t.grid)
  {
    if s.won then
      if OnRestartButton(x, y) then State(Blank(), s.selected, false) else s
    else
      match ColorFromPanel(x, y)
      case Some(color) => s.(selected := Some(color))
      case None =>
        var (row, col) := CellAt(x, y);
        if InGrid(row, col) && s.selected.Some? && ValidMove(s.grid, row, col, s.selected.value) then
          var g := Paint(s.grid, row, col, s.selected.value);
          s.(grid := g, won := Winning(g))
        else
          s
  }

  /** The state after a sequence of clicks, in order. */
  ghost function Run(s: State, clicks: seq<(nat, nat)>): (t: State)
    requires WellFormed(s.grid)
    ensures WellFormed(t.grid)
    decreases |clicks|
  {
    if clicks == [] then s else Run(Step(s, clicks[0].0, clicks[0].1), clicks[1..])
  }

  /**
   * What every reachable state satisfies: no two neighbours share a palette
   * colour, the won flag is set exactly when the board is winning, and the
   * selected colour, if any, is a palette colour.
   */
  ghost predicate Inv(s: State) {
    && WellFormed(s.grid)
    && Proper(s.grid)
    && (s.won <==> Winning(s.grid))
    && (s.selected.Some? ==> s.selected.value in Palette)
  }

  lemma StartInv()
    ensures Inv(Start())
  {
    BlankNotWinning();
    BlankProper();
  }

  /** One click keeps the invariant: every paint is gated by the move check. */
  lemma StepKeepsInv(s: State, x: nat, y: nat)
    requires Inv(s)
    ensures Inv(Step(s, x, y))
  {
    if s.won {
      if OnRestartButton(x, y) {
        BlankNotWinning();
        BlankProper();
      }
    } else if ColorFromPanel(x, y).None? {
      var (row, col) := CellAt(x, y);
      if InGrid(row, col) && s.selected.Some? && ValidMove(s.grid, row, col, s.selected.value) {
        PaintKeepsProper(s.grid, row, col, s.selected.value);
      }
    }
  }

  /** Any sequence of clicks keeps the invariant. */
  lemma {:induction false} RunKeepsInv(s: State, clicks: seq<(nat, nat)>)
    requires Inv(s)
    ensures Inv(Run(s, clicks))
    decreases |clicks|
  {
    if clicks != [] {
      StepKeepsInv(s, clicks[0].0, clicks[0].1);
      RunKeepsInv(Step(s, clicks[0].0, clicks[0].1), clicks[1..]);
    }
  }

  /**
   * Whatever the player clicks from start-up, no two orthogonally adjacent
   * cells ever hold the same palette colour, and the won flag is set exactly
   * when the board is winning.
   */
  lemma ReachableStates(clicks: seq<(nat, nat)>)
    ensures Proper(Run(Start(), clicks).grid)
    ensures Run(Start(), clicks).won <==> Winning(Run(Start(), clicks).grid)
  {
    StartInv();
    RunKeepsInv(Start(), clicks);
  }

  /**
   * In the won phase a click changes nothing unless it is on the restart
   * button, which blanks the board and clears the flag; the selected colour
   * is kept either way.
   */
  lemma WonPhase(s: State, x: nat, y: nat)
    requires WellFormed(s.grid) && s.won
    ensures Step(s, x, y).selected == s.selected
    ensures OnRestartButton(x, y) ==> Step(s, x, y).grid == Blank() && !Step(s, x, y).won
    ensures !OnRestartButton(x, y) ==> Step(s, x, y) == s
  {
  }

  /**
   * While playing, a click leaves the board and the flag alone when it
   * selects a colour, when no colour is selected, when it falls outside the
   * board, or when the move check refuses the paint.
   */
  lemma IgnoredClicks(s: State, x: nat, y: nat)
    requires WellFormed(s.grid) && !s.won
    requires
      || ColorFromPanel(x, y).Some?
      || s.selected.None?
      || !InGrid(CellAt(x, y).0, CellAt(x, y).1)
      || !ValidMove(s.grid, CellAt(x, y).0, CellAt(x, y).1, s.selected.value)
    ensures Step(s, x, y).grid == s.grid && !Step(s, x, y).won
  {
  }

  /** A click changes the board only by painting the clicked cell with the selected colour, after the move check allowed it. */
  lemma BoardChangesOnlyByCheckedPaint(s: State, x: nat, y: nat)
    requires WellFormed(s.grid)
    requires Step(s, x, y).grid != s.grid && !s.won
    ensures ColorFromPanel(x, y).None? && s.selected.Some?
    ensures InGrid(CellAt(x, y).0, CellAt(x, y).1)
    ensures ValidMove(s.grid, CellAt(x, y).0, CellAt(x, y).1, s.selected.value)
    ensures Step(s, x, y).grid == Paint(s.grid, CellAt(x, y).0, CellAt(x, y).1, s.selected.value)
  {
  }

  /** The selected colour changes only through a palette click while playing. */
  lemma SelectionOnlyFromPalette(s: State, x: nat, y: nat)
    requires WellFormed(s.grid)
    requires Step(s, x, y).selected != s.selected
    ensures !s.won && Step(s, x, y).selected == ColorFromPanel(x, y)
    ensures Step(s, x, y).selected.Some? && Step(s, x, y).selected.value != White
  {
  }

  /**
   * What a click does while playing: a palette click selects that colour
   * and changes nothing else; a click on a board cell that the move check
   * allows for the selected colour paints that cell, and the won flag
   * becomes whether the new board is winning.
   */
  lemma PlayingClick(s: State, x: nat, y: nat)
    requires WellFormed(s.grid) && !s.won
    ensures ColorFromPanel(x, y).Some? ==> Step(s, x, y) == s.(selected := ColorFromPanel(x, y))
    ensures ColorFromPanel(x, y).None? && s.selected.Some? && InGrid(CellAt(x, y).0, CellAt(x, y).1)
            && ValidMove(s.grid, CellAt(x, y).0, CellAt(x, y).1, s.selected.value) ==>
              var g := Paint(s.grid, CellAt(x, y).0, CellAt(x, y).1, s.selected.value);
              Step(s, x, y) == s.(grid := g, won := Winning(g))
  {
  }

  /** The won flag is raised only by a checked paint of the clicked cell that leaves a winning board. */
  lemma WonOnlyAfterWinningPaint(s: State, x: nat, y: nat)
    requires WellFormed(s.grid) && !s.won && Step(s, x, y).won
    ensures ColorFromPanel(x, y).None? && s.selected.Some?
    ensures InGrid(CellAt(x, y).0, CellAt(x, y).1)
    ensures ValidMove(s.grid, CellAt(x, y).0, CellAt(x, y).1, s.selected.value)
    ensures Step(s, x, y).grid == Paint(s.grid, CellAt(x, y).0, CellAt(x, y).1, s.selected.value)
    ensures Winning(Step(s, x, y).grid)
  {
  }

  /** The state the program keeps between clicks, updated in place. */
  class Game {
    /** The board array; restarting replaces it with a fresh blank one. */
    var board: array2<Cell>
    /** The board value the array holds. */
    ghost var grid: Grid
    /** `selected_color`: None until the player picks a palette colour. */
    var selected: Option<Cell>
    /** `game_won`. */
    var won: bool

    ghost predicate Valid()
      reads this, board
    {
      Board.Mirrors(board, grid)
    }

    ghost function Snapshot(): State
      reads this
    {
      State(grid, selected, won)
    }

    constructor ()
      ensures Valid() && fresh(board) && Snapshot() == Start()
    {
      board := new Cell[BoardSize, BoardSize]((_, _) => White);
      grid := Blank();
      selected := None;
      won := false;
    }

    /** Replaces the board with a fresh all-White one; the selection and the flag are kept. */
    method ResetBoard()
      modifies this
      ensures Valid() && fresh(board) && grid == Blank()
      ensures selected == old(selected) && won == old(won)
    {
      board := new Cell[BoardSize, BoardSize]((_, _) => White);
      grid := Blank();
    }

    /** Handles one mouse click at (x, y). */
    method Click(x: nat, y: nat)
      requires Valid()
      modifies this, board
      ensures Valid()
      ensures Snapshot() == Step(old(Snapshot()), x, y)
      ensures Inv(old(Snapshot())) ==> Inv(Snapshot())
    {
      ghost var before := Snapshot();
      if won {
        if OnRestartButton(x, y) {
          won := false;
          ResetBoard();
        }
      } else {
        var color := ColorFromPanel(x, y);
        if color.Some? {
          selected := color;
        } else {
          var (row, col) := CellAt(x, y);
          if 0 <= row < BoardSize && 0 <= col < BoardSize && selected.Some? {
            var valid := Board.IsValidMove(board, grid, row, col, selected.value);
            if valid {
              Board.UpdateBoard(board, grid, row, col, selected.value);
              grid := Paint(grid, row, col, selected.value);
              var win := Board.IsWinningState(board, grid);
              if win {
                won := true;
              }
            }
          }
        }
      }
      if Inv(before) {
        StepKeepsInv(before, x, y);
      }
    }
  }
}
