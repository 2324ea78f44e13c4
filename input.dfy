/**
 * Mapping a mouse click, in window pixels, to what it hits: a palette
 * swatch, a board cell or the restart button. Pixel coordinates are whole
 * non-negative numbers, and every division is by a positive constant.
 */
module Input {
  import opened Rules
  import opened Wrappers

  /** SQUARE_SIZE: the side of a board cell and the width of a palette swatch. */
  const SquareSize: nat := 80

  /** COLOR_PANEL_Y: the top of the palette strip, 50 pixels below the board. */
  const ColorPanelY: nat := BoardSize * SquareSize + 50

  /** COLOR_PANEL_HEIGHT: the height of the palette swatches as drawn. */
  const ColorPanelHeight: nat := 100

  /**
   * The palette colour a click selects, if any. Any click at or below the
   * top of the palette strip whose swatch index x / SquareSize names one of
   * the four colours selects that colour; the strip's drawn height is not
   * checked, so the hit area reaches the bottom of the window.
   */
  function ColorFromPanel(x: nat, y: nat): (r: Option<Cell>)
    ensures r.Some? <==> ColorPanelY <= y && x < |Palette| * SquareSize
    ensures r.Some? ==> r.value != White
    ensures r.Some? ==> exists k :: 0 <= k < |Palette| && r.value == Palette[k]
                                    && k * SquareSize <= x < (k + 1) * SquareSize
  {
    if y >= ColorPanelY then
      var idx := x / SquareSize;
      if idx < |Palette| then Some(Palette[idx]) else None
    else
      None
  }

  /** The board cell (row, col) that a click falls on, before any bounds check. */
  function CellAt(x: nat, y: nat): (rc: (int, int))
    ensures InGrid(rc.0, rc.1) <==> x < BoardSize * SquareSize && y < BoardSize * SquareSize
    ensures InGrid(rc.0, rc.1) ==>
              && rc.0 * SquareSize <= y < (rc.0 + 1) * SquareSize
              && rc.1 * SquareSize <= x < (rc.1 + 1) * SquareSize
  {
    (y / SquareSize, x / SquareSize)
  }

  /** The restart button's hit box, both ends inclusive: x in 150..350, y in 570..620. */
  predicate OnRestartButton(x: nat, y: nat) {
    && 150 <= x <= 350
    && ColorPanelY + ColorPanelHeight + 20 <= y <= ColorPanelY + ColorPanelHeight + 70
  }

  /** A click that selects a colour never lands on a board cell. */
  lemma PanelIsOffBoard(x: nat, y: nat)
    requires ColorFromPanel(x, y).Some?
    ensures !InGrid(CellAt(x, y).0, CellAt(x, y).1)
  {
  }

  /**
   * The restart button lies inside the palette's hit area: while no game is
   * won, a click on it picks the colour of the swatch column above it.
   */
  lemma RestartButtonSelectsColor(x: nat, y: nat)
    requires OnRestartButton(x, y) && x < |Palette| * SquareSize
    ensures ColorFromPanel(x, y).Some?
  {
  }
}
