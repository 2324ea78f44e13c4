# Colour Fill Puzzle: rule engine and click handling, in Dafny

This project models the core of a small single-player puzzle. The player paints the cells of a 5 x 5 board
with four colours (red, green, blue, yellow). A paint is refused when an orthogonal neighbour already holds the
same colour. The game is won when no cell is left white and no two neighbours share a colour. A "Start Over"
button then blanks the board.

The model has four modules:

- `Rules` (rules.dfy) states the board rules on board values (`seq<seq<Cell>>`):
  - the move check `ValidMove`;
  - the win condition `Winning`, which is `Filled` and not `Conflict`;
  - the one-cell write `Paint` and the blank board `Blank`;
  - lemmas about them.
- `Board` (board.dfy) holds the program's operations on the mutable board, an `array2<Cell>`. These are the
  move check (`IsValidMove`), the in-place write (`UpdateBoard`) and the two-pass win check
  (`IsWinningState`). Each one is proved against the `Rules` predicates on the board value that the array
  holds.
- `Input` (input.dfy) maps a click in window pixels to a palette colour, a board cell or the restart button.
  It uses the program's integer constants.
- `Game` (game.dfy) covers the click handling.
  - `Step` specifies what one mouse click does to the state. The state is the board, the selected colour and
    the won flag.
  - Class `Game` keeps that state and updates it in place. Its `Click` is proved to perform `Step`.
  - The lemmas state the game's guarantees. From start-up, no two adjacent cells ever share a palette colour.
    The won flag is set exactly when the board is winning. While the game is won, only the restart button
    does anything, and it keeps the selected colour.

Cells are the datatype `White | R | G | B | Y`. The program's four RGB triples are pairwise distinct and
none of them is white (255, 255, 255), so comparing colours is comparing constructors.

The program has exactly two phases, playing and won, held in the `game_won` flag. The code has no
instructions screen, so the model has none. The code checks moves when they are made: an invalid paint is
refused. The model does the same.

## Model

| member | source | states |
|---|---|---|
| `Rules.Paint` | main.py:37-38 | the board after the write holds `color` at (row, col), and every other cell keeps its value |
| `Rules.PaintIdempotent` | main.py:37-38 | writing the same colour to the same cell twice gives the same board as writing it once |
| `Rules.Blank` | main.py:80-82 | the reset board is 5 x 5 and every cell is White |
| `Rules.ValidMoveIgnoresTarget` | main.py:29-35 | the move check gives the same answer whatever the target cell holds, so a painted cell can be repainted |
| `Rules.ValidMoveTransposed` | main.py:29-35 | the move check gives the same answer on the mirrored board at the mirrored cell |
| `Rules.OpeningMoves` | main.py:29-35 | on the blank board red is allowed at (0,0); after painting it, red is refused at (0,1) and green is allowed |
| `Rules.WinningIffFilledAndProper` | main.py:40-54 | the win condition holds iff no cell is White and no two neighbours share a non-White colour |
| `Rules.ConflictIffSomeCellInvalid` | main.py:46-54 | two neighbours are alike iff some cell fails the move check for its own colour, which is what the second pass tests |
| `Rules.WinningTransposed` | main.py:40-54 | the mirrored board wins iff the board wins |
| `Rules.ValidMoveFlipped` | main.py:29-35 | the move check gives the same answer on the board flipped top to bottom at the flipped cell; with the diagonal mirror this covers every reflection and rotation |
| `Rules.WinningFlipped` | main.py:40-54 | the board flipped top to bottom wins iff the board wins |
| `Rules.UniformNotWinning` | main.py:40-54 | a board painted all one colour is filled, has a conflict and is not winning |
| `Rules.CheckerboardWinning` | main.py:40-54 | a checkerboard of two distinct palette colours is winning |
| `Rules.BlankNotWinning` | main.py:80-82 | the reset board is not filled and not winning |
| `Rules.BlankProper` | main.py:25 | the blank board has no two neighbours sharing a palette colour |
| `Rules.PaintKeepsProper` | main.py:107-109 | a paint with a palette colour that the move check allows keeps "no two neighbours share a palette colour" |
| `Board.NeighbourIsDirection` | main.py:30-31 | the four direction offsets reach every orthogonal neighbour |
| `Board.IsValidMove` | main.py:29-35 | answers true iff no in-grid orthogonal neighbour of (row, col) holds `color`; the target cell and out-of-grid positions are not consulted |
| `Board.UpdateBoard` | main.py:37-38 | after the in-place write, the array holds the board with (row, col) set to `color`; every other cell is unchanged |
| `Board.IsWinningState` | main.py:40-54 | answers true iff no cell is White and no in-grid orthogonal pair of cells holds the same colour |
| `Input.ColorFromPanel` | main.py:73-78 | a colour is returned iff y is at or below the top of the palette strip (450) and x < 320; it is the colour whose 80-pixel swatch column contains x, and never White |
| `Input.CellAt` | main.py:106 | the click falls on a board cell iff x < 400 and y < 400, and that cell's 80 x 80 square contains the click |
| `Input.PanelIsOffBoard` | main.py:102-107 | a click that selects a colour never names a board cell |
| `Input.RestartButtonSelectsColor` | main.py:94-104 | a click on the restart button's area with x < 320 lies in the palette's hit area, so while playing it selects a colour |
| `Game.Step` | main.py:93-111 | one click keeps the board 5 x 5 (what the click does is stated by `PlayingClick` and `WonPhase`, and the lemmas below) |
| `Game.Run` | main.py:89-93 | a sequence of clicks, handled one after another, keeps the board 5 x 5 |
| `Game.StartInv` | main.py:23-25 | the start-up state satisfies the invariant: no same-colour neighbours, not won, nothing selected |
| `Game.StepKeepsInv` | main.py:93-111 | each click keeps the invariant: no two neighbours share a palette colour, the won flag holds iff the board is winning, and any selected colour is a palette colour |
| `Game.RunKeepsInv` | main.py:89-111 | any sequence of clicks keeps the invariant |
| `Game.ReachableStates` | main.py:89-111 | from start-up, whatever is clicked, no two orthogonal neighbours share a palette colour and the won flag holds iff the board is winning |
| `Game.WonPhase` | main.py:94-98 | while won, a click on the restart button blanks the board and clears the flag; any other click changes nothing; the selected colour is kept either way |
| `Game.PlayingClick` | main.py:102-111 | while playing, a palette click sets the selection to that colour and changes nothing else; a click on a board cell that the move check allows for the selected colour paints that cell, and the won flag becomes whether the new board is winning |
| `Game.IgnoredClicks` | main.py:102-109 | while playing, the board and the flag stay unchanged after a palette click, or with no colour selected, or for a click off the board, or for a move the check refuses |
| `Game.BoardChangesOnlyByCheckedPaint` | main.py:106-109 | while playing, the board changes only when the clicked cell is painted with the selected colour after the move check allowed it |
| `Game.SelectionOnlyFromPalette` | main.py:102-104 | the selected colour changes only through a palette click while playing, and it is never White |
| `Game.WonOnlyAfterWinningPaint` | main.py:108-111 | the won flag is raised only by a click off the palette on a board cell that the move check allows for the selected colour, which paints that clicked cell and leaves a winning board |
| `Game.Game.constructor` | main.py:23-25 | the game starts with a fresh all-White 5 x 5 board and nothing selected, and the won flag is clear as `game_won = False` sets it at main.py:87 |
| `Game.Game.ResetBoard` | main.py:80-82 | the board is replaced by a fresh all-White array; the selection and the flag are kept |
| `Game.Game.Click` | main.py:93-111 | one click changes the board, the selection and the flag exactly as `Step` says, and keeps the invariant |

## Left out

- pygame set-up, the window and its caption, fonts and all drawing are not modelled. This covers the board,
  the palette, the win banner and the restart button. They are presentation and have no effect on the state.
- The event loop, the QUIT event and `pygame.quit()` are not modelled. One call of `Click` (or one `Step`) is
  one mouse-button-down event, and `Run` is a sequence of them.
- The program reads the click position from `event.pos` in the won phase and from `pygame.mouse.get_pos()`
  while playing. Both are modelled as the click coordinates (x, y), passed as parameters.
- Negative click coordinates are not modelled: x and y are `nat`, which is what a click inside the window
  gives. With a negative x the program would index `color_keys` with a negative index, which Python wraps
  around or rejects with IndexError. For non-negative numbers Python's `//` and Dafny's `/` agree.
- The RGB display values are not modelled. Only their distinctness matters, and the `Cell` datatype gives it.
- `game_won` is a local variable of `main`, and `board` and `selected_color` are module globals. The model
  holds all three as fields of one `Game` object.
- Board.IsWinningState: its second pass calls `IsValidMove` for each cell with that cell's colour. The
  program repeats the same four-direction loop inline. The answer and the early exit are the same.
- The symmetry of the rules is stated for two generators: the mirror in the main diagonal
  (`ValidMoveTransposed`, `WinningTransposed`) and the top-to-bottom flip (`ValidMoveFlipped`,
  `WinningFlipped`). Every other reflection and rotation of the square board is a composition of these two.
  That composition is not written out as a lemma.
- Game.Step: its own contract states only that the board stays 5 x 5. What a click does is stated by the
  lemmas. `PlayingClick` gives the effect of a palette click and of an allowed paint while playing. `WonPhase`
  gives the effect of every click in the won phase. `IgnoredClicks`, `BoardChangesOnlyByCheckedPaint`,
  `SelectionOnlyFromPalette` and `WonOnlyAfterWinningPaint` give the frames, and `StepKeepsInv` the
  invariant. `Game.Click` is proved to perform `Step`.
- Game.Run: its own contract states only that the board stays 5 x 5. `RunKeepsInv` and `ReachableStates`
  state what every sequence of clicks guarantees.
