/** The cursor the driver reports, and a read resumed there: over the driver's own
    chunks, for the line and column the emulator's grid says the cursor is at. */
module DriverCursor {
  import opened Common
  import opened Grid
  import opened Scrollback
  import opened Strings
  import opened SeqText
  import C = CursorContract

  // ------------------------------------------------------------ the cursor reported

  lemma {:induction false} AdvanceNext(t: Term, ops: seq<Op>, op: Op)
    requires t.Valid() && OpsOk(t, ops) && OpOk(Advance(t, ops), op)
    ensures OpsOk(t, ops + [op]) && Advance(t, ops + [op]) == Apply(Advance(t, ops), op)
    decreases |ops|
  {
    if ops == [] {
      assert ops + [op] == [op] && [op][1..] == [];
    } else {
      assert (ops + [op])[1..] == ops[1..] + [op];
      AdvanceNext(Apply(t, ops[0]), ops[1..], op);
    }
  }

  /** After a chunk that leaves the cursor on a row of the screen, the driver reports the
      number of that row and the column. */
  lemma CursorIsReported(d: Driver, ops: seq<Op>, line: nat, col: nat)
    requires d.term.Valid() && OpsOk(Armed(d.term), ops) && line < |Advance(Armed(d.term), ops).Current().screen|
    ensures OpsOk(Armed(d.term), ops + [MoveCursor(line, col)])
    ensures var e := Processed(d, ops + [MoveCursor(line, col)]);
            var g, s := e.term.Current(), CursorSeqOf(e).0;
            && CursorSeqOf(e).1 == col
            && line < |g.screen| && Names(g, e.rotated, s) && RowAt(g, e.rotated, s) == g.screen[line]
  {
    hide Advance, OpsOk;
    AdvanceNext(Armed(d.term), ops, MoveCursor(line, col));
  }

  // ------------------------------------------------------------ without a limit

  /** `u` is `t` with a longer memory. */
  predicate Like(t: Term, u: Term) {
    && t.onAlt == u.onAlt && t.alternate == u.alternate
    && t.primary.screen == u.primary.screen && t.primary.limit <= u.primary.limit
    && t.primary.cursorLine == u.primary.cursorLine && t.primary.cursorCol == u.primary.cursorCol
    && t.primary.history == Retained(u.primary.history, t.primary.limit)
  }

  lemma ApplyLike(t: Term, u: Term, op: Op)
    requires t.Valid() && u.Valid() && Like(t, u) && OpOk(t, op)
    ensures OpOk(u, op) && Like(Apply(t, op), Apply(u, op)) && OpRotation(t, op) == OpRotation(u, op)
  {
    if op.Scroll? && !t.onAlt {
      RetainedTwice(u.primary.history, u.primary.screen[..|op.blank|], t.primary.limit, u.primary.limit);
    }
  }

  lemma RetainedTwice(rows: seq<Row>, more: seq<Row>, limit: nat, longer: nat)
    requires limit <= longer
    ensures Retained(Retained(rows, limit) + more, limit) == Retained(Retained(rows + more, longer), limit)
  {
  }

  lemma {:induction false} AdvanceLike(t: Term, u: Term, ops: seq<Op>)
    requires t.Valid() && u.Valid() && Like(t, u) && OpsOk(t, ops)
    ensures OpsOk(u, ops) && Like(Advance(t, ops), Advance(u, ops)) && Rotation(t, ops) == Rotation(u, ops)
    decreases |ops|
  {
    hide Apply, Like, OpOk, OpRotation;
    if ops != [] {
      ApplyLike(t, u, ops[0]);
      AdvanceLike(Apply(t, ops[0]), Apply(u, ops[0]), ops[1..]);
    }
  }

  /** The terminal with room for `more` further rows. */
  function Roomy(t: Term, more: nat): (u: Term)
    requires t.Valid()
    ensures u.Valid() && Like(t, u)
  {
    t.(primary := t.primary.(limit := t.primary.limit + more))
  }

  // ------------------------------------------------------------ two views

  /** What the primary grid shows, with the cursor where the emulator has it. */
  function GridView(g: Grid, rotated: nat, cols: nat): View
    requires |g.history| <= rotated && 0 <= g.cursorLine
  {
    View(g.Rows(), rotated - |g.history|, rotated, |g.screen|, cols, rotated + g.cursorLine, g.cursorCol)
  }

  /** The driver reads exactly that. */
  lemma ReadsTheGrid(d: Driver, cols: nat)
    requires d.term.Valid() && !d.term.onAlt && |d.term.primary.history| <= d.rotated && 0 <= d.term.primary.cursorLine
    ensures Readable(d) && ViewOf(d, cols) == GridView(d.term.primary, d.rotated, cols)
  {
  }

  /** The chunk writes at and past the cell `(s, c)` only: to later rows, or to row `s`
      without changing what is before column `c`. */
  predicate WritesPast(t: Term, ops: seq<Op>, rotated: int, s: int, c: nat)
    requires t.Valid() && OpsOk(t, ops)
    decreases |ops|
  {
    ops != [] ==>
      && (ops[0].Write? && !t.onAlt ==>
            || rotated + ops[0].line > s
            || (rotated + ops[0].line == s && SameFront(t.primary.screen[ops[0].line], ops[0].row, c)))
      && WritesPast(Apply(t, ops[0]), ops[1..], rotated + OpRotation(t, ops[0]), s, c)
  }

  predicate SameFront(a: Row, b: Row, c: nat) {
    |a.cells| >= c && |b.cells| >= c && a.cells[..c] == b.cells[..c]
  }

  lemma {:induction false} PastIsNotTouched(t: Term, ops: seq<Op>, rotated: int, s: int, c: nat, x: int)
    requires t.Valid() && OpsOk(t, ops) && WritesPast(t, ops, rotated, s, c) && x < s
    ensures !Touches(t, ops, rotated, x)
    decreases |ops|
  {
    hide Apply, OpRotation, SameFront;
    if ops != [] {
      PastIsNotTouched(Apply(t, ops[0]), ops[1..], rotated + OpRotation(t, ops[0]), s, c, x);
    }
  }

  lemma OpKeepsFront(t: Term, op: Op, rotated: int, s: int, c: nat)
    requires t.Valid() && OpOk(t, op) && Names(t.primary, rotated, s) && |RowAt(t.primary, rotated, s).cells| >= c
    requires op.Write? && !t.onAlt && rotated + op.line == s ==> SameFront(t.primary.screen[op.line], op.row, c)
    ensures var u, r := Apply(t, op).primary, rotated + OpRotation(t, op);
            Base(u, r) <= s ==> Names(u, r, s) && SameFront(RowAt(t.primary, rotated, s), RowAt(u, r, s), c)
  {
    if op.Write? && !t.onAlt && rotated + op.line == s {
      assert t.primary.Rows()[s - Base(t.primary, rotated)] == t.primary.screen[op.line];
    } else {
      OpKeepsNames(t, op, rotated, s);
    }
  }

  /** The cells before the cursor stay as they are. */
  lemma {:induction false} AdvanceKeepsFront(t: Term, ops: seq<Op>, rotated: int, s: int, c: nat)
    requires t.Valid() && OpsOk(t, ops) && WritesPast(t, ops, rotated, s, c)
    requires Names(t.primary, rotated, s) && |RowAt(t.primary, rotated, s).cells| >= c
    requires Base(Advance(t, ops).primary, rotated + Rotation(t, ops)) <= s
    ensures var r, end := Advance(t, ops).primary, rotated + Rotation(t, ops);
            Names(r, end, s) && SameFront(RowAt(t.primary, rotated, s), RowAt(r, end, s), c)
    decreases |ops|
  {
    hide Apply, RowAt, OpRotation;
    if ops != [] {
      var u, m := Apply(t, ops[0]), OpRotation(t, ops[0]);
      AdvancePrimary(u, ops[1..]);
      OpKeepsFront(t, ops[0], rotated, s, c);
      AdvanceKeepsFront(u, ops[1..], rotated + m, s, c);
    }
  }

  // ------------------------------------------------------------ one chunk later

  /** The primary grid after the chunk, had nothing been forgotten meanwhile. */
  function Unforgotten(d: Driver, ops: seq<Op>): Grid
    requires d.term.Valid() && OpsOk(Armed(d.term), ops)
  {
    var t := Armed(d.term);
    var u := Roomy(t, Rotation(t, ops));
    AdvanceLike(t, u, ops);
    Advance(u, ops).primary
  }

  lemma UnforgottenIs(d: Driver, ops: seq<Op>)
    requires Inv(d) && !d.term.onAlt && OpsOk(Armed(d.term), ops) && Accountable(d.term, ops)
    requires !Processed(d, ops).term.onAlt
    ensures var u, e, n := Unforgotten(d, ops), Processed(d, ops), Rotation(Armed(d.term), ops);
            && e.rotated == d.rotated + n && |u.history| == |d.term.primary.history| + n
            && u.screen == e.term.primary.screen && |u.screen| == |d.term.primary.screen|
            && u.cursorLine == e.term.primary.cursorLine && u.cursorCol == e.term.primary.cursorCol
            && e.term.primary.history == Retained(u.history, d.term.primary.limit)
  {
    hide Advance, Rotation, OpsOk, Retained;
    var t := Armed(d.term);
    var u := Roomy(t, Rotation(t, ops));
    AccountedExactly(d, ops);
    AdvanceLike(t, u, ops);
    AdvancePrimary(u, ops);
    AdvancePrimary(t, ops);
  }

  predicate Settled(g: Grid, cols: nat) {
    && 0 <= g.cursorLine < |g.screen| && g.cursorCol < cols
    && forall i | 0 <= i < |g.history| + |g.screen| :: |g.Rows()[i].cells| == cols
  }

  /** Two moments on the primary screen with a chunk between them that is counted, writes
      at and past the cursor only, and does not leave it before where it was. */
  predicate GoesOn(d: Driver, ops: seq<Op>, cols: nat, from: nat, col: nat) {
    && Inv(d) && !d.term.onAlt && OpsOk(Armed(d.term), ops) && Accountable(d.term, ops)
    && !Processed(d, ops).term.onAlt
    && var g, e, u := d.term.primary, Processed(d, ops), Unforgotten(d, ops);
       var here, there := d.rotated + g.cursorLine, e.rotated + u.cursorLine;
       && Settled(g, cols) && Settled(u, cols)
       && d.rotated - |g.history| <= from <= here <= there
       && (from == here ==> col <= g.cursorCol) && (from == there ==> col <= u.cursorCol)
       && WritesPast(Armed(d.term), ops, d.rotated, here, g.cursorCol)
       && '\n' !in C.Text(g.Rows()[|g.history| + g.cursorLine], 0, cols)
  }

  /** What the terminal shows before and after, nothing forgotten. */
  function Before(d: Driver, cols: nat): View
    requires Inv(d) && !d.term.onAlt && Settled(d.term.primary, cols)
  {
    GridView(d.term.primary, d.rotated, cols)
  }

  function After(d: Driver, ops: seq<Op>, cols: nat, from: nat, col: nat): View
    requires GoesOn(d, ops, cols, from, col)
  {
    UnforgottenIs(d, ops);
    GridView(Unforgotten(d, ops), Processed(d, ops).rotated, cols)
  }

  lemma RowOfGrid(g: Grid, rotated: nat, cols: nat, s: nat)
    requires Settled(g, cols) && |g.history| <= rotated && Names(g, rotated, s)
    ensures GridView(g, rotated, cols).Valid() && C.RowOf(GridView(g, rotated, cols), s) == RowAt(g, rotated, s)
  {
    var v := GridView(g, rotated, cols);
    assert forall i | 0 <= i < |v.rows| :: |v.rows[i].cells| == cols;
  }

  lemma SettledHolds(g: Grid, rotated: nat, cols: nat, from: nat, col: nat)
    requires Settled(g, cols) && |g.history| <= rotated && rotated - |g.history| <= from <= rotated + g.cursorLine
    requires from == rotated + g.cursorLine ==> col <= g.cursorCol
    ensures C.Holds(GridView(g, rotated, cols), from, col)
  {
    var v := GridView(g, rotated, cols);
    assert forall i | 0 <= i < |v.rows| :: |v.rows[i].cells| == cols;
  }

  /** The chunk changes nothing before the cursor. */
  lemma RowsStay(d: Driver, ops: seq<Op>, cols: nat, from: nat, col: nat, s: nat)
    requires GoesOn(d, ops, cols, from, col) && from <= s <= d.rotated + d.term.primary.cursorLine
    ensures var g, u, end := d.term.primary, Unforgotten(d, ops), Processed(d, ops).rotated;
            && Names(g, d.rotated, s) && Names(u, end, s)
            && (s < d.rotated + g.cursorLine ==> RowAt(u, end, s) == RowAt(g, d.rotated, s))
            && (s == d.rotated + g.cursorLine ==> SameFront(RowAt(g, d.rotated, s), RowAt(u, end, s), g.cursorCol))
  {
    hide Advance, Rotation, OpsOk, RowAt, Retained, WritesPast, Touches, Accountable, C.Text, SameFront;
    var g, t := d.term.primary, Armed(d.term);
    var u := Roomy(t, Rotation(t, ops));
    UnforgottenIs(d, ops);
    AdvanceLike(t, u, ops);
    ArmedRows(d.term, d.rotated, s);
    RoomyRows(t, Rotation(t, ops), d.rotated, s);
    if s < d.rotated + g.cursorLine {
      PastIsNotTouched(t, ops, d.rotated, d.rotated + g.cursorLine, g.cursorCol, s);
      TouchesLike(t, u, ops, d.rotated, s);
      AdvanceKeepsNames(u, ops, d.rotated, s);
    } else {
      CursorRow(g, d.rotated, cols);
      PastLike(t, u, ops, d.rotated, s, g.cursorCol);
      AdvanceKeepsFront(u, ops, d.rotated, s, g.cursorCol);
    }
  }

  lemma CursorRow(g: Grid, rotated: nat, cols: nat)
    requires Settled(g, cols)
    ensures var s := rotated + g.cursorLine;
            && Names(g, rotated, s) && |RowAt(g, rotated, s).cells| == cols
            && RowAt(g, rotated, s) == g.Rows()[|g.history| + g.cursorLine]
  {
    assert g.Rows()[|g.history| + g.cursorLine] == g.screen[g.cursorLine];
  }

  lemma RoomyRows(t: Term, more: nat, rotated: int, s: int)
    requires t.Valid() && Names(t.primary, rotated, s)
    ensures var u := Roomy(t, more).primary;
            Base(u, rotated) == Base(t.primary, rotated) && Names(u, rotated, s)
            && RowAt(u, rotated, s) == RowAt(t.primary, rotated, s)
  {
  }

  lemma {:induction false} TouchesLike(t: Term, u: Term, ops: seq<Op>, rotated: int, s: int)
    requires t.Valid() && u.Valid() && Like(t, u) && OpsOk(t, ops) && OpsOk(u, ops)
    ensures Touches(t, ops, rotated, s) <==> Touches(u, ops, rotated, s)
    decreases |ops|
  {
    hide Apply, OpRotation;
    if ops != [] {
      ApplyLike(t, u, ops[0]);
      TouchesLike(Apply(t, ops[0]), Apply(u, ops[0]), ops[1..], rotated + OpRotation(t, ops[0]), s);
    }
  }

  lemma {:induction false} PastLike(t: Term, u: Term, ops: seq<Op>, rotated: int, s: int, c: nat)
    requires t.Valid() && u.Valid() && Like(t, u) && OpsOk(t, ops) && OpsOk(u, ops)
    ensures WritesPast(t, ops, rotated, s, c) <==> WritesPast(u, ops, rotated, s, c)
    decreases |ops|
  {
    hide Apply, OpRotation, SameFront;
    if ops != [] {
      ApplyLike(t, u, ops[0]);
      PastLike(Apply(t, ops[0]), Apply(u, ops[0]), ops[1..], rotated + OpRotation(t, ops[0]), s, c);
    }
  }

  /** The second view continues the first. */
  lemma ChunkContinues(d: Driver, ops: seq<Op>, cols: nat, from: nat, col: nat)
    requires GoesOn(d, ops, cols, from, col)
    ensures C.Continues(Before(d, cols), After(d, ops, cols, from, col), from, col)
  {
    hide WritesPast, OpsOk, Accountable, Settled, GridView, RowAt, C.RowOf, C.Text, Retained, SameFront;
    var g, u, end := d.term.primary, Unforgotten(d, ops), Processed(d, ops).rotated;
    UnforgottenIs(d, ops);
    ViewsAre(d, ops, cols, from, col);
    var v, w := Before(d, cols), After(d, ops, cols, from, col);
    forall s | from <= s <= v.cursorSeq
      ensures Names(g, d.rotated, s) && Names(u, end, s)
      ensures C.RowOf(v, s) == RowAt(g, d.rotated, s) && C.RowOf(w, s) == RowAt(u, end, s)
    {
      RowsStay(d, ops, cols, from, col, s);
      RowOfGrid(g, d.rotated, cols, s);
      RowOfGrid(u, end, cols, s);
    }
    forall s | from <= s < v.cursorSeq ensures C.RowOf(v, s) == C.RowOf(w, s) {
      RowsStay(d, ops, cols, from, col, s);
    }
    RowsStay(d, ops, cols, from, col, v.cursorSeq);
    FrontIs(RowAt(g, d.rotated, v.cursorSeq), RowAt(u, end, v.cursorSeq), g.cursorCol);
    CursorRow(g, d.rotated, cols);
  }

  lemma FrontIs(a: Row, b: Row, c: nat)
    requires SameFront(a, b, c)
    ensures |a.cells| >= c && |b.cells| >= c && a.cells[..c] == b.cells[..c]
  {
  }

  lemma ViewsAre(d: Driver, ops: seq<Op>, cols: nat, from: nat, col: nat)
    requires GoesOn(d, ops, cols, from, col)
    ensures var g, v, w := d.term.primary, Before(d, cols), After(d, ops, cols, from, col);
            && C.Holds(v, from, col) && C.Holds(w, from, col) && v.cols == w.cols == cols
            && v.cursorSeq == d.rotated + g.cursorLine && v.cursorCol == g.cursorCol && v.cursorSeq <= w.cursorSeq
  {
    hide WritesPast, OpsOk, Accountable, C.Text, Retained, C.Holds;
    UnforgottenIs(d, ops);
    SettledHolds(d.term.primary, d.rotated, cols, from, col);
    SettledHolds(Unforgotten(d, ops), Processed(d, ops).rotated, cols, from, col);
  }

  // ------------------------------------------------------------ the resumed read

  /** What the driver still has of the second view is what it reads. */
  lemma ReadsWhatIsLeft(d: Driver, ops: seq<Op>, cols: nat, from: nat, col: nat)
    requires GoesOn(d, ops, cols, from, col)
    ensures var e, w := Processed(d, ops), After(d, ops, cols, from, col);
            && Readable(e) && w.Valid() && w.oldest <= OldestSeqOf(e) <= w.rotated
            && C.Evicted(w, OldestSeqOf(e)) == ViewOf(e, cols)
  {
    hide WritesPast, OpsOk, Accountable, C.Text, Advance, Rotation;
    UnforgottenIs(d, ops);
    var u, e, w := Unforgotten(d, ops), Processed(d, ops), After(d, ops, cols, from, col);
    SettledHolds(u, e.rotated, cols, from, col);
    ReadsTheGrid(e, cols);
    var gone := |u.history| - |e.term.primary.history|;
    assert u.Rows()[gone..] == e.term.primary.Rows();
  }

  /** A read of `v` to its end, and one resumed where it ended, of what is left of `w`. */
  predicate ReadsOn(v: View, w: View, from: nat, col: nat, oldest: nat, max: nat)
    requires C.Continues(v, w, from, col) && w.oldest <= oldest <= w.rotated
  {
    C.EvictedValid(w, oldest);
    var first := Read(v, from, col, None, max);
    var next := Read(C.Evicted(w, oldest), first.nextSeq, first.nextCol, None, max);
    && !first.truncated && (first.nextSeq, first.nextCol) == (v.cursorSeq, v.cursorCol)
    && !next.truncated && (next.nextSeq, next.nextCol) == (w.cursorSeq, w.cursorCol)
    && (oldest <= v.cursorSeq ==>
          var row := C.RowOf(w, v.cursorSeq);
          next.text == C.Cut(C.Text(row, v.cursorCol, w.cols), row.wrapped) + C.Rest(w, v.cursorSeq, w.cursorSeq + 1))
    && first.text == C.Out(v, from, col)
    && (first.text + next.text == C.Out(w, from, col) <==> C.Resumes(v, w, from, col, oldest))
  }

  lemma ViewsReadOn(v: View, w: View, from: nat, col: nat, oldest: nat, max: nat)
    requires C.Continues(v, w, from, col) && w.oldest <= oldest <= w.rotated
    requires Bytes(FullText(v, from, col, None)) <= max && Bytes(C.Reply(v, w, oldest)) <= max
    ensures ReadsOn(v, w, from, col, oldest, max)
  {
    hide C.Text, C.Resumes, Read, FullText, C.Out, C.Cut, C.Rest, C.Reply, Bytes, C.Evicted;
    WholeOut(v, from, col, max);
    C.ReplyRead(v, w, oldest, max);
    C.ResumedReadExact(v, w, from, col, oldest);
    if oldest <= v.cursorSeq { C.ReplyHeld(v, w, from, col, oldest); }
  }

  lemma WholeOut(v: View, from: nat, col: nat, max: nat)
    requires C.Holds(v, from, col) && Bytes(FullText(v, from, col, None)) <= max
    ensures var page := Read(v, from, col, None, max);
            && !page.truncated && page.text == C.Out(v, from, col)
            && (page.nextSeq, page.nextCol) == (v.cursorSeq, v.cursorCol)
  {
    hide Join, Pieces, Bytes, Fitting;
    UnbudgetedRead(v, from, col, None, max);
  }

  /** Reading the driver to the end answers with the grid's own cursor.  The read resumed
      there, after a chunk that goes on from it, returns the text from that cell on:
      while the cursor's row is held, nothing before the cursor is repeated.  The two
      texts are together what was put out if and only if the cursor contract's condition
      holds. */
  lemma ChunkIsReadOn(d: Driver, ops: seq<Op>, cols: nat, from: nat, col: nat, max: nat)
    requires GoesOn(d, ops, cols, from, col)
    requires Bytes(FullText(Before(d, cols), from, col, None)) <= max
    requires var w, oldest := After(d, ops, cols, from, col), OldestSeqOf(Processed(d, ops));
             w.Valid() && w.oldest <= oldest <= w.rotated ==> Bytes(C.Reply(Before(d, cols), w, oldest)) <= max
    ensures var g, e, v, w := d.term.primary, Processed(d, ops), Before(d, cols), After(d, ops, cols, from, col);
            && Readable(d) && ViewOf(d, cols) == v
            && (v.cursorSeq, v.cursorCol) == (d.rotated + g.cursorLine, g.cursorCol)
            && w.Valid() && w.oldest <= OldestSeqOf(e) <= w.rotated
            && Readable(e) && ViewOf(e, cols) == C.Evicted(w, OldestSeqOf(e))
            && (w.cursorSeq, w.cursorCol) == (e.rotated + e.term.primary.cursorLine, e.term.primary.cursorCol)
            && C.Continues(v, w, from, col) && ReadsOn(v, w, from, col, OldestSeqOf(e), max)
  {
    hide WritesPast, OpsOk, Accountable, C.Text, Retained, ReadsOn, C.Continues, C.Reply, FullText, Settled, C.Holds;
    ChunkContinues(d, ops, cols, from, col);
    ReadsWhatIsLeft(d, ops, cols, from, col);
    CursorsAre(d, ops, cols, from, col);
    ViewsReadOn(Before(d, cols), After(d, ops, cols, from, col), from, col, OldestSeqOf(Processed(d, ops)), max);
  }

  lemma CursorsAre(d: Driver, ops: seq<Op>, cols: nat, from: nat, col: nat)
    requires GoesOn(d, ops, cols, from, col)
    ensures var g, e, v, w := d.term.primary, Processed(d, ops), Before(d, cols), After(d, ops, cols, from, col);
            && Readable(d) && ViewOf(d, cols) == v
            && (v.cursorSeq, v.cursorCol) == (d.rotated + g.cursorLine, g.cursorCol)
            && (w.cursorSeq, w.cursorCol) == (e.rotated + e.term.primary.cursorLine, e.term.primary.cursorCol)
  {
    hide WritesPast, OpsOk, Accountable, C.Text, Retained;
    ReadsTheGrid(d, cols);
    UnforgottenIs(d, ops);
  }
}
