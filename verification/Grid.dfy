/** The emulator's grid as the driver sees it: rows of cells, a bounded history
    above a screen, and a display offset into that history.  The emulator itself
    is foreign code; the functions here are the contract the driver's comments
    rely on, and nothing more.
  */
module Grid {
  /** One grid cell: its character, whether it is the spacer behind a wide
      character, and the zero-width marks attached to it. */
  datatype TextCell = TextCell(c: char, spacer: bool, zerowidth: seq<char>)

  /** A row and its WRAPLINE flag: whether its text continues on the next row. */
  datatype Row = Row(cells: seq<TextCell>, wrapped: bool)

  datatype Grid = Grid(
    history: seq<Row>, screen: seq<Row>, displayOffset: nat, limit: nat, cursorLine: int, cursorCol: nat)
  {
    predicate Valid() {
      |history| <= limit && displayOffset <= |history|
    }

    /** Every row of the grid, oldest first: grid line `l` is index `|history| + l`. */
    function Rows(): seq<Row> { history + screen }
  }

  function Min(a: int, b: int): int { if a < b then a else b }

  function Max(a: int, b: int): int { if a < b then b else a }

  /** The last `limit` of `rows`: what a bounded history retains. */
  function Retained(rows: seq<Row>, limit: nat): (r: seq<Row>)
    ensures |r| == Min(|rows|, limit)
  {
    rows[|rows| - Min(|rows|, limit)..]
  }

  /** `scroll_up`: the top `|blank|` rows rotate into the history and a non-zero
      display offset advances with them, saturating at the scrollback limit. */
  function ScrollUp(g: Grid, blank: seq<Row>): (r: Grid)
    requires g.Valid() && |blank| <= |g.screen|
    ensures r.Valid()
  {
    var n := |blank|;
    g.(history := Retained(g.history + g.screen[..n], g.limit),
       screen := g.screen[n..] + blank,
       displayOffset := if g.displayOffset == 0 then 0 else Min(g.displayOffset + n, g.limit))
  }

  /** `scroll_display(Delta(d))`: the display offset moves, clamped to the history. */
  function ScrollDisplay(g: Grid, delta: int): (r: Grid)
    requires g.Valid()
    ensures r.Valid()
  {
    g.(displayOffset := Max(0, Min(|g.history|, g.displayOffset + delta)))
  }

  /** A row-only resize of the primary grid.  A shorter viewport pushes `pushed`
      rows into the history and drops the rest from the bottom; a taller one
      pulls rows back out and fills up with `blank` ones.  The cursor moves with
      its row; the display offset may land anywhere in the history. */
  datatype Shape = Shape(rows: nat, pushed: nat, blank: seq<Row>, displayOffset: nat)

  function Pulled(g: Grid, rows: nat): nat
    requires |g.screen| <= rows
  {
    Min(|g.history|, rows - |g.screen|)
  }

  predicate ShapeOk(g: Grid, shape: Shape) {
    if shape.rows < |g.screen| then
      && shape.pushed + shape.rows <= |g.screen|
      && shape.displayOffset <= Min(|g.history| + shape.pushed, g.limit)
    else
      && shape.pushed == 0
      && |g.screen| + Pulled(g, shape.rows) + |shape.blank| == shape.rows
      && shape.displayOffset <= |g.history| - Pulled(g, shape.rows)
  }

  function ResizeGrid(g: Grid, shape: Shape): (r: Grid)
    requires g.Valid() && ShapeOk(g, shape)
    ensures r.Valid() && |r.screen| == shape.rows
  {
    if shape.rows < |g.screen| then
      g.(history := Retained(g.history + g.screen[..shape.pushed], g.limit),
         screen := g.screen[shape.pushed..shape.pushed + shape.rows],
         displayOffset := shape.displayOffset,
         cursorLine := g.cursorLine - shape.pushed)
    else
      var kept := |g.history| - Pulled(g, shape.rows);
      g.(history := g.history[..kept],
         screen := g.history[kept..] + g.screen + shape.blank,
         displayOffset := shape.displayOffset,
         cursorLine := g.cursorLine + Pulled(g, shape.rows))
  }

  // ------------------------------------------------------------ the terminal

  /** The two screens.  The alternate one has no scrollback. */
  datatype Term = Term(primary: Grid, alternate: Grid, onAlt: bool) {
    predicate Valid() {
      primary.Valid() && alternate.Valid() && alternate.limit == 0
    }

    function Current(): Grid { if onAlt then alternate else primary }

    function WithCurrent(g: Grid): Term {
      if onAlt then this.(alternate := g) else this.(primary := g)
    }
  }

  /** What one escape sequence or run of text does to the terminal. */
  datatype Op =
    | Scroll(blank: seq<Row>)
    | Write(line: nat, row: Row)
    | MoveCursor(cursorLine: int, cursorCol: nat)
    | EnterAlt(cleared: seq<Row>)
    | LeaveAlt

  predicate OpOk(t: Term, op: Op) {
    match op
    case Scroll(blank) => |blank| <= |t.Current().screen|
    case Write(line, _) => line < |t.Current().screen|
    case _ => true
  }

  function Apply(t: Term, op: Op): (r: Term)
    requires t.Valid() && OpOk(t, op)
    ensures r.Valid()
  {
    match op
    case Scroll(blank) => t.WithCurrent(ScrollUp(t.Current(), blank))
    case Write(line, row) => t.WithCurrent(t.Current().(screen := t.Current().screen[line := row]))
    case MoveCursor(line, col) => t.WithCurrent(t.Current().(cursorLine := line, cursorCol := col))
    case EnterAlt(cleared) => if t.onAlt then t else t.(alternate := Grid([], cleared, 0, 0, 0, 0), onAlt := true)
    case LeaveAlt => t.(onAlt := false)
  }

  predicate OpsOk(t: Term, ops: seq<Op>)
    requires t.Valid()
    decreases |ops|
  {
    ops == [] || (OpOk(t, ops[0]) && OpsOk(Apply(t, ops[0]), ops[1..]))
  }

  /** The emulator's reaction to one chunk of output. */
  function Advance(t: Term, ops: seq<Op>): (r: Term)
    requires t.Valid() && OpsOk(t, ops)
    ensures r.Valid()
    decreases |ops|
  {
    if ops == [] then t else Advance(Apply(t, ops[0]), ops[1..])
  }

  /** Rows one operation rotates out of the primary viewport. */
  function OpRotation(t: Term, op: Op): nat {
    if op.Scroll? && !t.onAlt then |op.blank| else 0
  }

  /** Rows a chunk rotates out of the primary viewport. */
  function Rotation(t: Term, ops: seq<Op>): nat
    requires t.Valid() && OpsOk(t, ops)
    decreases |ops|
  {
    if ops == [] then 0 else OpRotation(t, ops[0]) + Rotation(Apply(t, ops[0]), ops[1..])
  }
}
