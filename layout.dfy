/**
 * Screen geometry of the main view: the margins and command-box height that
 * termquest_init fixes, the box that interface_render draws, and the content
 * area that termquest_width, termquest_height and termquest_render expose to
 * mods. The terminal size is a parameter; the results of termquest_width and
 * termquest_height are u32 and wrap modulo 2^32 as the C does.
 */
module Layout {

  /** game_state.margin_x, margin_y and command_box_height as termquest_init sets them. */
  const MarginX: nat := 4
  const MarginY: nat := 4
  const CommandBoxHeight: nat := 8

  const U32Modulus: int := 0x1_0000_0000

  /** Conversion of an integer result to u32 (wrap-around). */
  function ToU32(x: int): (r: nat)
    ensures r < U32Modulus
    ensures (x - r) % U32Modulus == 0
    ensures 0 <= x < U32Modulus ==> r == x
  {
    x % U32Modulus
  }

  /**
   * Columns strictly between the two vertical borders of the box that
   * interface_render draws for a terminal `termWidth` columns wide: the left
   * border is at MarginX and the right one at MarginX + (termWidth - 2 * MarginX) - 1.
   */
  predicate InteriorColumn(termWidth: int, col: int) {
    MarginX < col < termWidth - MarginX - 1
  }

  /**
   * Rows of the content area that interface_render leaves free: below the
   * title separator (row MarginY + 2) and above the separator of the command
   * box (row termHeight - MarginY - 1 - CommandBoxHeight).
   */
  predicate InteriorRow(termHeight: int, row: int) {
    MarginY + 2 < row < termHeight - MarginY - 1 - CommandBoxHeight
  }

  /**
   * termquest_render: the screen column content column `x` is drawn at.
   * Column 0 lands just right of the box's left border at column MarginX.
   */
  function ScreenColumn(x: int): (r: int)
    ensures 0 <= x <==> MarginX < r
  {
    x + MarginX + 1
  }

  /**
   * termquest_render: the screen row content row `y` is drawn at. Row 0
   * lands just below the separator under the title, at row MarginY + 2.
   */
  function ScreenRow(y: int): (r: int)
    ensures 0 <= y <==> MarginY + 2 < r
  {
    y + MarginY + 3
  }

  /** termquest_width as written: the terminal width less both margins, as u32. */
  function ContentWidthAsWritten(termWidth: int): (r: nat)
    ensures r < U32Modulus
    ensures 2 * MarginX <= termWidth < U32Modulus ==> r + 2 * MarginX == termWidth
  {
    ToU32(termWidth - 2 * MarginX)
  }

  /** The width termquest_width evidently means: the columns between the box borders, 0 when there are none. */
  function ContentWidth(termWidth: int): (r: nat)
    ensures 2 * MarginX + 2 <= termWidth < U32Modulus ==> r + 2 == ContentWidthAsWritten(termWidth)
    ensures termWidth < 2 * MarginX + 2 ==> r == 0
  {
    if termWidth >= 2 * MarginX + 2 then termWidth - 2 * MarginX - 2 else 0
  }

  /** termquest_height: the terminal height less both margins, the command box and five frame rows, as u32. */
  function ContentHeight(termHeight: int): (r: nat)
    ensures r < U32Modulus
    ensures 2 * MarginY + CommandBoxHeight + 5 <= termHeight < U32Modulus ==>
              r + 2 * MarginY + CommandBoxHeight + 5 == termHeight
  {
    ToU32(termHeight - 2 * MarginY - CommandBoxHeight - 5)
  }

  /**
   * As written, termquest_width reports two columns more than the box has
   * room for: on an 80-column terminal it reports 72, and content column 71
   * is drawn on screen column 76, right of the box's right border (75).
   */
  lemma ContentWidthOverrunsBox()
    ensures ContentWidthAsWritten(80) == 72
    ensures ScreenColumn(71) == 76 && !InteriorColumn(80, ScreenColumn(71))
  {
  }

  /** The last two columns termquest_width reports land on or past the right border on every terminal. */
  lemma LastReportedColumnsOutsideBox(termWidth: int, x: int)
    requires 2 * MarginX <= termWidth < U32Modulus
    requires ContentWidthAsWritten(termWidth) - 2 <= x < ContentWidthAsWritten(termWidth)
    ensures !InteriorColumn(termWidth, ScreenColumn(x))
  {
  }

  /** As written, termquest_width wraps to a huge value on a terminal narrower than both margins. */
  lemma NarrowTerminalWidthWraps(termWidth: int)
    requires 0 <= termWidth < 2 * MarginX
    ensures ContentWidthAsWritten(termWidth) == U32Modulus - 2 * MarginX + termWidth
  {
  }

  /** The intended width: every content column is drawn strictly inside the box. */
  lemma ContentColumnsInsideBox(termWidth: int, x: int)
    requires 0 <= x < ContentWidth(termWidth)
    ensures InteriorColumn(termWidth, ScreenColumn(x))
  {
  }

  /** The intended width uses the whole interior: every interior column is some content column. */
  lemma InteriorColumnsAreContent(termWidth: int, col: int)
    requires InteriorColumn(termWidth, col)
    ensures 0 <= col - MarginX - 1 < ContentWidth(termWidth)
    ensures ScreenColumn(col - MarginX - 1) == col
  {
  }

  /**
   * termquest_height, when it does not wrap, lies inside the free rows (it
   * leaves the last free row unused).
   */
  lemma ContentRowsInsideBox(termHeight: int, y: int)
    requires 2 * MarginY + CommandBoxHeight + 5 <= termHeight < U32Modulus
    requires 0 <= y < ContentHeight(termHeight)
    ensures InteriorRow(termHeight, ScreenRow(y))
    ensures InteriorRow(termHeight, ScreenRow(ContentHeight(termHeight)))
  {
  }

  /** termquest_height wraps to a huge value on a terminal too short for the frame. */
  lemma ShortTerminalHeightWraps(termHeight: int)
    requires 0 <= termHeight < 2 * MarginY + CommandBoxHeight + 5
    ensures ContentHeight(termHeight) == U32Modulus - (2 * MarginY + CommandBoxHeight + 5) + termHeight
  {
  }
}
