/** Sequence numbers over the scrollback: the driver numbers every row for good
    although the grid renumbers its lines on every scroll, resize and screen swap. */
module Scrollback {
  import opened Grid

  const SCROLL_PROBE: nat := 1

  /** The part of the driver sequence numbers depend on. */
  datatype Driver = Driver(term: Term, scrolled: nat, rotated: nat)

  // ------------------------------------------------------------ specification

  /** Park the display offset at the probe position. */
  function Armed(t: Term): (r: Term)
    requires t.Valid()
    ensures r.Valid()
  {
    var g := t.Current();
    if g.displayOffset == SCROLL_PROBE then t
    else t.WithCurrent(ScrollDisplay(g, SCROLL_PROBE - g.displayOffset))
  }

  function Saturating(a: int): nat { Max(0, a) }

  /** What the display-offset probe reports after the chunk. */
  function Probed(t: Term, ops: seq<Op>): nat
    requires t.Valid() && OpsOk(Armed(t), ops)
  {
    Saturating(Advance(Armed(t), ops).Current().displayOffset - SCROLL_PROBE)
  }

  /** What the growth of the history reports after the chunk. */
  function Grown(t: Term, ops: seq<Op>): nat
    requires t.Valid() && OpsOk(Armed(t), ops)
  {
    var after := Advance(Armed(t), ops);
    if after.onAlt != t.onAlt then 0 else Saturating(|after.Current().history| - |t.Current().history|)
  }

  function Processed(d: Driver, ops: seq<Op>): Driver
    requires d.term.Valid() && OpsOk(Armed(d.term), ops)
  {
    Driver(Advance(Armed(d.term), ops),
           d.scrolled + Probed(d.term, ops),
           d.rotated + Max(Probed(d.term, ops), Grown(d.term, ops)))
  }

  /** `term` is the terminal as the emulator has resized it. */
  function Resized(d: Driver, term: Term): Driver
    requires d.term.Valid() && term.Valid()
  {
    Driver(Armed(term), d.scrolled, Saturating(d.rotated + |term.Current().history| - |d.term.Current().history|))
  }

  /** A resize of rows only, as far as the primary grid sees it. */
  function RowResized(t: Term, shape: Shape): (r: Term)
    requires t.Valid() && ShapeOk(t.primary, shape)
    ensures r.Valid() && r.onAlt == t.onAlt
  {
    t.(primary := ResizeGrid(t.primary, shape))
  }

  function CursorSeqOf(d: Driver): (nat, nat) {
    var g := d.term.Current();
    (d.rotated + Max(g.cursorLine, 0), g.cursorCol)
  }

  function OldestSeqOf(d: Driver): nat {
    Saturating(d.rotated - |d.term.Current().history|)
  }

  // ------------------------------------------------------------ the driver

  class TerminalDriver {
    var term: Term
    var scrolledLines: nat
    var rotatedLines: nat

    ghost predicate Valid() reads this { term.Valid() }

    ghost function State(): Driver reads this { Driver(term, scrolledLines, rotatedLines) }

    constructor (rows: seq<Row>, scrollback: nat)
      ensures Valid() && Inv(State()) && !term.onAlt
      ensures State() == Driver(Term(Grid([], rows, 0, scrollback, 0, 0), Grid([], rows, 0, 0, 0, 0), false), 0, 0)
    {
      term := Term(Grid([], rows, 0, scrollback, 0, 0), Grid([], rows, 0, 0, 0, 0), false);
      scrolledLines := 0;
      rotatedLines := 0;
    }

    method HistoryLen() returns (r: nat)
      ensures r == |term.Current().history|
    {
      // total_lines().saturating_sub(screen_lines())
      var g := term.Current();
      r := Saturating(|g.Rows()| - |g.screen|);
    }

    method ArmScrollProbe()
      requires Valid()
      modifies this`term
      ensures term == Armed(old(term)) && Valid()
      ensures term.Current().displayOffset == Min(SCROLL_PROBE, |term.Current().history|)
    {
      var g := term.Current();
      if g.displayOffset == SCROLL_PROBE { return; }
      var delta := SCROLL_PROBE - g.displayOffset;
      term := term.WithCurrent(ScrollDisplay(g, delta));
    }

    method ReadScrollProbe(historyBefore: nat, crossedAltScreen: bool)
      modifies this`scrolledLines, this`rotatedLines
      ensures
        var probed := Saturating(term.Current().displayOffset - SCROLL_PROBE);
        var grown := if crossedAltScreen then 0 else Saturating(|term.Current().history| - historyBefore);
        scrolledLines == old(scrolledLines) + probed && rotatedLines == old(rotatedLines) + Max(probed, grown)
    {
      var after := term.Current().displayOffset;
      var probed := Saturating(after - SCROLL_PROBE);
      scrolledLines := scrolledLines + probed;
      var grown := 0;
      if !crossedAltScreen {
        var now := HistoryLen();
        grown := Saturating(now - historyBefore);
      }
      rotatedLines := rotatedLines + Max(probed, grown);
    }

    /** One chunk of output.  It advances `rotatedLines` by exactly the rows the
        chunk rotated out of the primary viewport if and only if `Countable`, and
        accounts for them, now or on return from the alternate screen, if and only
        if `Accountable`. */
    method Process(ops: seq<Op>)
      requires Valid() && OpsOk(Armed(term), ops)
      modifies this
      ensures Valid() && State() == Processed(old(State()), ops)
      ensures rotatedLines == old(rotatedLines) + Rotation(Armed(old(term)), ops) <==> Countable(old(term), ops)
      ensures Due(State()) == Due(old(State())) + Rotation(Armed(old(term)), ops) <==> Accountable(old(term), ops)
    {
      var altScreenBefore := term.onAlt;
      var historyBefore := HistoryLen();
      ArmScrollProbe();
      term := Advance(term, ops);
      var crossedAltScreen := term.onAlt != altScreenBefore;
      ReadScrollProbe(historyBefore, crossedAltScreen);
      CountedExactly(old(term), ops);
      AccountedExactly(old(State()), ops);
    }

    /** A resize, of rows or columns and on either screen; `resized` is what the
        emulator made of the grids.  When only rows change on the primary screen,
        the cursor keeps its sequence number if and only if the history had room
        for the rows pushed into it. */
    method Resize(resized: Term)
      requires Valid() && resized.Valid()
      modifies this
      ensures Valid() && State() == Resized(old(State()), resized) && scrolledLines == old(scrolledLines)
      ensures Inv(old(State())) ==> forall shape | !resized.onAlt && IsRowResize(old(term), shape, resized) ::
                CursorSeqOf(State()) == CursorSeqOf(old(State())) <==> Fits(old(term).primary, shape)
    {
      forall shape | Inv(State()) && !resized.onAlt && IsRowResize(term, shape, resized)
        ensures CursorSeqOf(Resized(State(), resized)) == CursorSeqOf(State()) <==> Fits(term.primary, shape)
      {
        ResizeMovesCursor(State(), shape, resized);
      }
      var historyBefore := HistoryLen();
      term := resized;
      ArmScrollProbe();
      var historyAfter := HistoryLen();
      var delta := (historyAfter as int) - historyBefore;
      if delta >= 0 {
        rotatedLines := rotatedLines + delta;
      } else {
        rotatedLines := Saturating(rotatedLines - (-delta));
      }
    }

    /** The number of the cursor's row, whatever is on screen, and the cursor's own column. */
    method CursorSeq() returns (seqNo: nat, col: nat)
      ensures (seqNo, col) == CursorSeqOf(State())
      ensures col == term.Current().cursorCol
      ensures var g := term.Current();
              0 <= g.cursorLine < |g.screen| ==>
                Names(g, rotatedLines, seqNo) && RowAt(g, rotatedLines, seqNo) == g.screen[g.cursorLine]
      ensures term.Current().cursorLine < 0 ==> seqNo == rotatedLines
    {
      var g := term.Current();
      var row := Max(g.cursorLine, 0);
      return rotatedLines + row, g.cursorCol;
    }

    method OldestSeq() returns (r: nat)
      ensures r == OldestSeqOf(State())
    {
      var h := HistoryLen();
      r := Saturating(rotatedLines - h);
    }
  }

  // ------------------------------------------------------------ the two sensors

  /** What a display offset left above the probe on the primary screen still
      stands for: coming back from the alternate screen adds it. */
  function Owed(t: Term): nat {
    if t.onAlt && t.primary.displayOffset > 0 then t.primary.displayOffset - SCROLL_PROBE else 0
  }

  /** `rotatedLines` as it stands on the primary screen, now or once the terminal
      comes back to it. */
  function Due(d: Driver): nat { d.rotated + Owed(d.term) }

  /** The counter never falls below the history length, so no saturating
      subtraction clips. */
  predicate Inv(d: Driver) {
    d.term.Valid() && Due(d) >= |d.term.primary.history|
  }

  /** What any chunk does to the primary history and its display offset. */
  lemma {:induction false} AdvancePrimary(t: Term, ops: seq<Op>)
    requires t.Valid() && OpsOk(t, ops)
    ensures var n, g, r := Rotation(t, ops), t.primary, Advance(t, ops).primary;
            && r.limit == g.limit
            && |r.screen| == |g.screen|
            && |r.history| == Min(|g.history| + n, g.limit)
            && r.displayOffset == (if g.displayOffset == 0 then 0 else Min(g.displayOffset + n, g.limit))
    decreases |ops|
  {
    if ops != [] {
      AdvancePrimary(Apply(t, ops[0]), ops[1..]);
    }
  }

  /** The alternate screen never shows a history or an offset. */
  lemma {:induction false} AdvanceAlternate(t: Term, ops: seq<Op>)
    requires t.Valid() && OpsOk(t, ops)
    ensures Advance(t, ops).alternate.history == [] && Advance(t, ops).alternate.displayOffset == 0
    decreases |ops|
  {
    if ops != [] {
      AdvanceAlternate(Apply(t, ops[0]), ops[1..]);
    }
  }

  /** For a chunk that starts and ends on the primary screen, the probe is right
      exactly when it was armed and did not saturate. */
  lemma ProbeExact(t: Term, ops: seq<Op>)
    requires t.Valid() && OpsOk(Armed(t), ops) && !t.onAlt && !Advance(Armed(t), ops).onAlt
    ensures var n := Rotation(Armed(t), ops);
            Probed(t, ops) == n <==> n == 0 || (t.primary.history != [] && n < t.primary.limit)
  {
    AdvancePrimary(Armed(t), ops);
  }

  /** `scrolledLines` follows the probe alone: over such a chunk it never grows by more
      than the rotation, and by all of it in exactly those cases. */
  lemma ScrolledExactly(d: Driver, ops: seq<Op>)
    requires d.term.Valid() && OpsOk(Armed(d.term), ops) && !d.term.onAlt && !Advance(Armed(d.term), ops).onAlt
    ensures var n, e := Rotation(Armed(d.term), ops), Processed(d, ops);
            && d.scrolled <= e.scrolled <= d.scrolled + n
            && (e.scrolled == d.scrolled + n <==> n == 0 || (d.term.primary.history != [] && n < d.term.primary.limit))
  {
    ProbeExact(d.term, ops);
    AdvancePrimary(Armed(d.term), ops);
  }

  /** ... and the growth exactly when the history had room for the chunk. */
  lemma GrowthExact(t: Term, ops: seq<Op>)
    requires t.Valid() && OpsOk(Armed(t), ops) && !t.onAlt && !Advance(Armed(t), ops).onAlt
    ensures Grown(t, ops) == Rotation(Armed(t), ops) <==>
            |t.primary.history| + Rotation(Armed(t), ops) <= t.primary.limit
  {
    AdvancePrimary(Armed(t), ops);
  }

  /** The chunks that advance `rotatedLines` by exactly their own motion. */
  predicate Countable(t: Term, ops: seq<Op>)
    requires t.Valid() && OpsOk(Armed(t), ops)
  {
    var n, limit, parked := Rotation(Armed(t), ops), t.primary.limit, t.primary.displayOffset;
    if Advance(Armed(t), ops).onAlt then n == 0
    else if !t.onAlt then n < limit || n == 0 || (t.primary.history == [] && n == limit)
    else if parked == 0 then n == 0
    else n == limit - 1 || (parked == SCROLL_PROBE && n < limit)
  }

  /** The larger of the two sensors is the true motion, for exactly the countable chunks. */
  lemma CountedExactly(t: Term, ops: seq<Op>)
    requires t.Valid() && OpsOk(Armed(t), ops)
    ensures Max(Probed(t, ops), Grown(t, ops)) == Rotation(Armed(t), ops) <==> Countable(t, ops)
  {
    AdvancePrimary(Armed(t), ops);
    AdvanceAlternate(Armed(t), ops);
  }

  /** The chunks whose motion is counted at the latest when the terminal comes back
      to the primary screen: the probe is armed there and does not saturate, or the
      terminal never leaves that screen and the history was empty. */
  predicate Accountable(t: Term, ops: seq<Op>)
    requires t.Valid() && OpsOk(Armed(t), ops)
  {
    var n, limit, parked := Rotation(Armed(t), ops), t.primary.limit, Armed(t).primary.displayOffset;
    || n == 0
    || (parked > 0 && parked + n <= limit)
    || (!t.onAlt && !Advance(Armed(t), ops).onAlt && t.primary.history == [] && n <= limit)
  }

  /** No chunk is counted for more than its motion, whichever screens it crosses, and
      exactly the accountable ones for all of it. */
  lemma AccountedExactly(d: Driver, ops: seq<Op>)
    requires d.term.Valid() && OpsOk(Armed(d.term), ops)
    ensures Due(Processed(d, ops)) <= Due(d) + Rotation(Armed(d.term), ops)
    ensures Due(Processed(d, ops)) == Due(d) + Rotation(Armed(d.term), ops) <==> Accountable(d.term, ops)
  {
    hide Advance, Rotation, OpsOk, Retained;
    AdvancePrimary(Armed(d.term), ops);
    AdvanceAlternate(Armed(d.term), ops);
  }

  /** What a chunk that comes back from the alternate screen adds: all that the
      parked offset has gathered, of this chunk and of those before it. */
  lemma ReturnPays(d: Driver, ops: seq<Op>)
    requires d.term.Valid() && OpsOk(Armed(d.term), ops) && d.term.onAlt && !Processed(d, ops).term.onAlt
    ensures var n, g := Rotation(Armed(d.term), ops), d.term.primary;
            Processed(d, ops).rotated ==
              d.rotated + if g.displayOffset == 0 then 0 else Min(g.displayOffset + n, g.limit) - SCROLL_PROBE
  {
    AdvancePrimary(Armed(d.term), ops);
  }

  /** Rows rotated on the way to the alternate screen are counted on the way back, if
      there was a history and the parked offset stays below the limit. */
  lemma DeferredIsPaid(d: Driver, out: seq<Op>, back: seq<Op>)
    requires d.term.Valid() && !d.term.onAlt && d.term.primary.history != [] && OpsOk(Armed(d.term), out)
    requires var e := Processed(d, out);
             && e.term.onAlt && OpsOk(Armed(e.term), back) && !Processed(e, back).term.onAlt
             && Rotation(Armed(d.term), out) + Rotation(Armed(e.term), back) < d.term.primary.limit
    ensures var e := Processed(d, out);
            && e.rotated == d.rotated
            && Processed(e, back).rotated == d.rotated + Rotation(Armed(d.term), out) + Rotation(Armed(e.term), back)
  {
    hide Advance, Rotation, OpsOk, Retained;
    AdvancePrimary(Armed(d.term), out);
    AdvanceAlternate(Armed(d.term), out);
    ReturnPays(Processed(d, out), back);
  }

  /** Rows that leave for an empty history in the very chunk that enters the
      alternate screen are lost for good. */
  lemma FirstRowsAreMissed(d: Driver, ops: seq<Op>)
    requires d.term.Valid() && OpsOk(Armed(d.term), ops) && !d.term.onAlt && Processed(d, ops).term.onAlt
    requires d.term.primary.history == []
    ensures Due(Processed(d, ops)) == Due(d)
  {
    AdvancePrimary(Armed(d.term), ops);
    AdvanceAlternate(Armed(d.term), ops);
  }

  // ------------------------------------------------------------ names

  /** The sequence number of the first row the primary grid still holds. */
  function Base(g: Grid, rotated: int): int { rotated - |g.history| }

  /** `s` is the sequence number of a row of the primary grid. */
  predicate Names(g: Grid, rotated: int, s: int) {
    Base(g, rotated) <= s < rotated + |g.screen|
  }

  function RowAt(g: Grid, rotated: int, s: int): Row
    requires Names(g, rotated, s)
  {
    g.Rows()[s - Base(g, rotated)]
  }

  /** A chunk writes to the row numbered `s`. */
  predicate Touches(t: Term, ops: seq<Op>, rotated: int, s: int)
    requires t.Valid() && OpsOk(t, ops)
    decreases |ops|
  {
    ops != []
    && (|| (ops[0].Write? && !t.onAlt && rotated + ops[0].line == s)
        || Touches(Apply(t, ops[0]), ops[1..], rotated + OpRotation(t, ops[0]), s))
  }

  /** One rotation: every row keeps its number as long as it is retained. */
  lemma ScrollKeepsNames(g: Grid, blank: seq<Row>, rotated: int, s: int)
    requires g.Valid() && |blank| <= |g.screen|
    requires Names(g, rotated, s)
    ensures var r := ScrollUp(g, blank);
            Base(r, rotated + |blank|) <= s ==>
              Names(r, rotated + |blank|, s) && RowAt(r, rotated + |blank|, s) == RowAt(g, rotated, s)
  {
    var r, n := ScrollUp(g, blank), |blank|;
    var gone := |g.history| + n - |r.history|;
    assert r.Rows() == g.Rows()[gone..] + blank;
  }

  lemma OpKeepsNames(t: Term, op: Op, rotated: int, s: int)
    requires t.Valid() && OpOk(t, op) && Names(t.primary, rotated, s)
    requires !(op.Write? && !t.onAlt && rotated + op.line == s)
    ensures var u, r := Apply(t, op).primary, rotated + OpRotation(t, op);
            Base(u, r) <= s ==> Names(u, r, s) && RowAt(u, r, s) == RowAt(t.primary, rotated, s)
  {
    if op.Scroll? && !t.onAlt {
      ScrollKeepsNames(t.primary, op.blank, rotated, s);
    }
  }

  /** A chunk keeps the name of every retained row it does not write to. */
  lemma {:induction false} AdvanceKeepsNames(t: Term, ops: seq<Op>, rotated: int, s: int)
    requires t.Valid() && OpsOk(t, ops)
    requires Names(t.primary, rotated, s) && !Touches(t, ops, rotated, s)
    requires Base(Advance(t, ops).primary, rotated + Rotation(t, ops)) <= s
    ensures var r := Advance(t, ops).primary;
            && Names(r, rotated + Rotation(t, ops), s)
            && RowAt(r, rotated + Rotation(t, ops), s) == RowAt(t.primary, rotated, s)
    decreases |ops|
  {
    hide Apply, RowAt, OpRotation;
    if ops != [] {
      var u, m := Apply(t, ops[0]), OpRotation(t, ops[0]);
      AdvancePrimary(u, ops[1..]);
      OpKeepsNames(t, ops[0], rotated, s);
      AdvanceKeepsNames(u, ops[1..], rotated + m, s);
    }
  }

  /** The history has room for the rows a shorter viewport pushes into it. */
  predicate Fits(g: Grid, shape: Shape) {
    |g.history| + shape.pushed <= g.limit
  }

  /** `resized` is the terminal after a resize of rows only that left the primary
      cursor on the screen. */
  predicate IsRowResize(t: Term, shape: Shape, resized: Term)
    requires t.Valid()
  {
    && ShapeOk(t.primary, shape)
    && shape.pushed <= t.primary.cursorLine
    && resized.Valid() && resized.onAlt == t.onAlt
    && resized.primary == ResizeGrid(t.primary, shape)
  }

  /** The signed change of `rotatedLines` cancels the cursor's own move. */
  lemma ResizeMovesCursor(d: Driver, shape: Shape, resized: Term)
    requires Inv(d) && !d.term.onAlt && IsRowResize(d.term, shape, resized)
    ensures CursorSeqOf(Resized(d, resized)) == CursorSeqOf(d) <==> Fits(d.term.primary, shape)
  {
    hide Retained;
  }

  /** Rows that go up into the history on a resize of rows only; negative when
      rows come down. */
  function Pushed(g: Grid, shape: Shape): int {
    if shape.rows < |g.screen| then shape.pushed else -(Pulled(g, shape.rows) as int)
  }

  /** Every row a resize retains moves by exactly that, whether or not it fits. */
  lemma ResizeMovesRows(g: Grid, shape: Shape, rotated: int, s: int)
    requires g.Valid() && ShapeOk(g, shape)
    requires Names(g, rotated, s)
    ensures var r, rotated' := ResizeGrid(g, shape), rotated + Pushed(g, shape);
            && Base(g, rotated) <= Base(r, rotated')
            && (Names(r, rotated', s) ==> RowAt(r, rotated', s) == RowAt(g, rotated, s))
  {
    if shape.rows < |g.screen| {
      ShrunkRows(g, shape);
    } else {
      GrownRows(g, shape);
    }
  }

  lemma ShrunkRows(g: Grid, shape: Shape)
    requires g.Valid() && ShapeOk(g, shape) && shape.rows < |g.screen|
    ensures var r := ResizeGrid(g, shape);
            var gone := |g.history| + shape.pushed - |r.history|;
            0 <= gone && r.Rows() == g.Rows()[gone..|g.history| + shape.pushed + shape.rows]
  {
    var r, all := ResizeGrid(g, shape), g.history + g.screen[..shape.pushed];
    var gone := |all| - |r.history|;
    assert r.history == all[gone..];
    assert all == g.Rows()[..|all|];
    assert g.Rows()[gone..|all| + shape.rows] == all[gone..] + g.screen[shape.pushed..shape.pushed + shape.rows];
  }

  lemma GrownRows(g: Grid, shape: Shape)
    requires g.Valid() && ShapeOk(g, shape) && |g.screen| <= shape.rows
    ensures ResizeGrid(g, shape).Rows() == g.Rows() + shape.blank
  {
    var kept := |g.history| - Pulled(g, shape.rows);
    assert g.history[..kept] + g.history[kept..] == g.history;
    assert ResizeGrid(g, shape).Rows() == g.history[..kept] + (g.history[kept..] + g.screen + shape.blank);
  }

  /** On the alternate screen a resize corrects nothing, because it measures the
      history of the wrong grid; only what the emulator adds to a parked offset is
      made good on return.  Every row of the primary screen goes by a number that is
      off by the rest: by the rows pushed, if the offset stays parked. */
  lemma ResizeOnAltShiftsNames(d: Driver, shape: Shape, resized: Term, s: int)
    requires d.term.Valid() && d.term.onAlt && IsRowResize(d.term, shape, resized)
    requires Names(d.term.primary, Due(d), s)
    ensures var g, e := d.term.primary, Resized(d, resized);
            var drift := Pushed(g, shape) - (Owed(resized) - Owed(d.term));
            && e.rotated == d.rotated
            && (Names(e.term.primary, Due(e), s - drift) ==>
                  RowAt(e.term.primary, Due(e), s - drift) == RowAt(g, Due(d), s))
            && (g.displayOffset <= SCROLL_PROBE && resized.primary.displayOffset <= SCROLL_PROBE ==>
                  drift == Pushed(g, shape))
  {
    ResizeMovesRows(d.term.primary, shape, Due(d), s);
  }

  // ------------------------------------------------------------ whole runs

  /** A chunk of output, or a resize of rows only on either screen. */
  datatype Step = Chunk(ops: seq<Op>) | Resize(shape: Shape)

  predicate StepOk(d: Driver, step: Step)
    requires d.term.Valid()
  {
    match step
    case Chunk(ops) => OpsOk(Armed(d.term), ops)
    case Resize(shape) => ShapeOk(d.term.primary, shape)
  }

  function Next(d: Driver, step: Step): (r: Driver)
    requires d.term.Valid() && StepOk(d, step)
    ensures r.term.Valid()
  {
    match step
    case Chunk(ops) => Processed(d, ops)
    case Resize(shape) => Resized(d, RowResized(d.term, shape))
  }

  /** How far the rows of the primary screen move up. */
  function Motion(d: Driver, step: Step): int
    requires d.term.Valid() && StepOk(d, step)
  {
    match step
    case Chunk(ops) => Rotation(Armed(d.term), ops)
    case Resize(shape) => Pushed(d.term.primary, shape)
  }

  /** How far the count falls behind the motion. */
  function Drift(d: Driver, step: Step): int
    requires d.term.Valid() && StepOk(d, step)
  {
    Motion(d, step) - (Due(Next(d, step)) - Due(d))
  }

  /** Neither overwritten by the application nor dropped off a shrinking screen. */
  predicate Undisturbed(d: Driver, step: Step, s: int)
    requires d.term.Valid() && StepOk(d, step)
  {
    match step
    case Chunk(ops) => !Touches(Armed(d.term), ops, Due(d), s)
    case Resize(_) => s < Due(d) + Motion(d, step) + |Next(d, step).term.primary.screen|
  }

  /** The rows the primary grid has lost never come back. */
  lemma LostStaysLost(d: Driver, step: Step)
    requires d.term.Valid() && StepOk(d, step)
    ensures Base(d.term.primary, Due(d)) - Drift(d, step) <= Base(Next(d, step).term.primary, Due(Next(d, step)))
  {
    if step.Chunk? {
      AdvancePrimary(Armed(d.term), step.ops);
    }
  }

  /** A row that is still held goes by its old number less the drift. */
  lemma StepMovesNames(d: Driver, step: Step, s: int)
    requires d.term.Valid() && StepOk(d, step) && Undisturbed(d, step, s)
    requires Names(d.term.primary, Due(d), s)
    requires Base(Next(d, step).term.primary, Due(Next(d, step))) <= s - Drift(d, step)
    ensures var e, s' := Next(d, step), s - Drift(d, step);
            && Names(e.term.primary, Due(e), s')
            && RowAt(e.term.primary, Due(e), s') == RowAt(d.term.primary, Due(d), s)
  {
    hide Touches, OpsOk, RowAt, Due;
    match step {
      case Chunk(ops) =>
        ArmedRows(d.term, Due(d), s);
        AdvanceKeepsNames(Armed(d.term), ops, Due(d), s);
      case Resize(shape) =>
        ResizeMovesRows(d.term.primary, shape, Due(d), s);
        ArmedRows(RowResized(d.term, shape), Due(d) + Motion(d, step), s);
    }
    NamesShift(Next(d, step).term.primary, Due(d) + Motion(d, step), Due(Next(d, step)), s);
  }

  /** Parking the probe moves no row. */
  lemma ArmedRows(t: Term, rotated: int, s: int)
    requires t.Valid() && Names(t.primary, rotated, s)
    ensures Base(Armed(t).primary, rotated) == Base(t.primary, rotated)
    ensures Names(Armed(t).primary, rotated, s) && RowAt(Armed(t).primary, rotated, s) == RowAt(t.primary, rotated, s)
  {
  }

  /** Numbers follow the counter. */
  lemma NamesShift(g: Grid, rotated: int, rotated': int, s: int)
    ensures var s' := s - rotated + rotated';
            && Base(g, rotated') - s' == Base(g, rotated) - s
            && (Names(g, rotated, s) <==> Names(g, rotated', s'))
            && (Names(g, rotated, s) ==> RowAt(g, rotated, s) == RowAt(g, rotated', s'))
  {
  }

  /** The steps that leave every number on its row. */
  predicate Exact(d: Driver, step: Step)
    requires d.term.Valid() && StepOk(d, step)
  {
    match step
    case Chunk(ops) => Accountable(d.term, ops)
    case Resize(shape) =>
      if d.term.onAlt then Pushed(d.term.primary, shape) == Owed(Next(d, step).term) - Owed(d.term)
      else Fits(d.term.primary, shape)
  }

  /** The drift of every step: none for exactly the steps above, never one that
      raises a number for chunks, and for a resize the rows that fall off a full
      history or, on the alternate screen, all that the parked offset misses. */
  lemma DriftOf(d: Driver, step: Step)
    requires Inv(d) && StepOk(d, step)
    ensures Drift(d, step) == 0 <==> Exact(d, step)
    ensures step.Chunk? ==> 0 <= Drift(d, step)
    ensures step.Resize? && !d.term.onAlt ==>
              var g := d.term.primary;
              Drift(d, step) == Max(0, |g.history| + step.shape.pushed - g.limit)
    ensures step.Resize? && d.term.onAlt ==>
              && Next(d, step).rotated == d.rotated
              && Drift(d, step) == Pushed(d.term.primary, step.shape) - (Owed(Next(d, step).term) - Owed(d.term))
  {
    if step.Chunk? {
      AccountedExactly(d, step.ops);
    }
  }

  /** Exact steps keep the invariant, and the first number still held never falls. */
  lemma StepKeepsInv(d: Driver, step: Step)
    requires Inv(d) && StepOk(d, step) && Exact(d, step)
    ensures Inv(Next(d, step))
    ensures Base(d.term.primary, Due(d)) <= Base(Next(d, step).term.primary, Due(Next(d, step)))
  {
    hide Next, Motion, Exact, StepOk;
    DriftOf(d, step);
    LostStaysLost(d, step);
  }

  predicate RunOk(d: Driver, steps: seq<Step>)
    requires d.term.Valid()
    decreases |steps|
  {
    steps == [] || (StepOk(d, steps[0]) && RunOk(Next(d, steps[0]), steps[1..]))
  }

  function Run(d: Driver, steps: seq<Step>): (r: Driver)
    requires d.term.Valid() && RunOk(d, steps)
    ensures r.term.Valid()
    decreases |steps|
  {
    if steps == [] then d else Run(Next(d, steps[0]), steps[1..])
  }

  function Drifts(d: Driver, steps: seq<Step>): int
    requires d.term.Valid() && RunOk(d, steps)
    decreases |steps|
  {
    if steps == [] then 0 else Drift(d, steps[0]) + Drifts(Next(d, steps[0]), steps[1..])
  }

  /** The row numbered `s` at the start is undisturbed throughout. */
  predicate UndisturbedRun(d: Driver, steps: seq<Step>, s: int)
    requires d.term.Valid() && RunOk(d, steps)
    decreases |steps|
  {
    steps == []
    || (Undisturbed(d, steps[0], s) && UndisturbedRun(Next(d, steps[0]), steps[1..], s - Drift(d, steps[0])))
  }

  lemma {:induction false} LostStaysLostForGood(d: Driver, steps: seq<Step>)
    requires d.term.Valid() && RunOk(d, steps)
    ensures Base(d.term.primary, Due(d)) - Drifts(d, steps)
            <= Base(Run(d, steps).term.primary, Due(Run(d, steps)))
    decreases |steps|
  {
    hide Next, Drift, StepOk;
    if steps != [] {
      LostStaysLost(d, steps[0]);
      LostStaysLostForGood(Next(d, steps[0]), steps[1..]);
    }
  }

  /** Over every run whatever, exact or not: a row that is retained and undisturbed
      goes by its old number less the drift of the run. */
  lemma {:induction false} RunMovesNames(d: Driver, steps: seq<Step>, s: int)
    requires d.term.Valid() && RunOk(d, steps) && UndisturbedRun(d, steps, s)
    requires Names(d.term.primary, Due(d), s)
    requires Base(Run(d, steps).term.primary, Due(Run(d, steps))) <= s - Drifts(d, steps)
    ensures var e, s' := Run(d, steps), s - Drifts(d, steps);
            && Names(e.term.primary, Due(e), s')
            && RowAt(e.term.primary, Due(e), s') == RowAt(d.term.primary, Due(d), s)
    decreases |steps|
  {
    hide Next, Drift, StepOk, Undisturbed, RowAt;
    if steps != [] {
      LostStaysLostForGood(Next(d, steps[0]), steps[1..]);
      StepMovesNames(d, steps[0], s);
      RunMovesNames(Next(d, steps[0]), steps[1..], s - Drift(d, steps[0]));
    }
  }

  function Motions(d: Driver, steps: seq<Step>): int
    requires d.term.Valid() && RunOk(d, steps)
    decreases |steps|
  {
    if steps == [] then 0 else Motion(d, steps[0]) + Motions(Next(d, steps[0]), steps[1..])
  }

  lemma {:induction false} DriftsAre(d: Driver, steps: seq<Step>)
    requires d.term.Valid() && RunOk(d, steps)
    ensures Drifts(d, steps) == Motions(d, steps) - (Due(Run(d, steps)) - Due(d))
    decreases |steps|
  {
    if steps != [] {
      DriftsAre(Next(d, steps[0]), steps[1..]);
    }
  }

  predicate ExactRun(d: Driver, steps: seq<Step>)
    requires d.term.Valid() && RunOk(d, steps)
    decreases |steps|
  {
    steps == [] || (Exact(d, steps[0]) && ExactRun(Next(d, steps[0]), steps[1..]))
  }

  lemma {:induction false} BaseNeverFalls(d: Driver, steps: seq<Step>)
    requires Inv(d) && RunOk(d, steps) && ExactRun(d, steps)
    ensures Inv(Run(d, steps)) && Drifts(d, steps) == 0
    ensures Base(d.term.primary, Due(d)) <= Base(Run(d, steps).term.primary, Due(Run(d, steps)))
    decreases |steps|
  {
    hide Next, Drift, StepOk, Exact;
    if steps != [] {
      StepKeepsInv(d, steps[0]);
      DriftOf(d, steps[0]);
      BaseNeverFalls(Next(d, steps[0]), steps[1..]);
    }
  }

  /** Every row that moves between two moments on the primary screen is counted by
      the second, also when it moved on the way to the alternate screen or back. */
  lemma RunCountsAll(d: Driver, steps: seq<Step>)
    requires Inv(d) && RunOk(d, steps) && ExactRun(d, steps) && !d.term.onAlt && !Run(d, steps).term.onAlt
    ensures Run(d, steps).rotated == d.rotated + Motions(d, steps)
  {
    BaseNeverFalls(d, steps);
    DriftsAre(d, steps);
  }

  /** Over every run of exact steps, a sequence number names the same row for as long
      as the row is retained and nobody writes to it. */
  lemma RunKeepsNames(d: Driver, steps: seq<Step>, s: int)
    requires Inv(d) && RunOk(d, steps) && ExactRun(d, steps) && UndisturbedRun(d, steps, s)
    requires Names(d.term.primary, Due(d), s)
    requires Base(Run(d, steps).term.primary, Due(Run(d, steps))) <= s
    ensures var e := Run(d, steps);
            && Names(e.term.primary, Due(e), s)
            && RowAt(e.term.primary, Due(e), s) == RowAt(d.term.primary, Due(d), s)
  {
    hide RunOk, Run, Drifts, ExactRun, UndisturbedRun, Due, RowAt;
    BaseNeverFalls(d, steps);
    RunMovesNames(d, steps, s);
  }

  /** The row numbered `s` is in the history, not on the screen, after every step. */
  predicate StaysInHistory(d: Driver, steps: seq<Step>, s: int)
    requires d.term.Valid() && RunOk(d, steps)
    decreases |steps|
  {
    && s < Due(d)
    && (steps == [] || StaysInHistory(Next(d, steps[0]), steps[1..], s - Drift(d, steps[0])))
  }

  lemma {:induction false} HistoryIsNotTouched(t: Term, ops: seq<Op>, rotated: int, s: int)
    requires t.Valid() && OpsOk(t, ops) && s < rotated
    ensures !Touches(t, ops, rotated, s)
    decreases |ops|
  {
    if ops != [] {
      HistoryIsNotTouched(Apply(t, ops[0]), ops[1..], rotated + OpRotation(t, ops[0]), s);
    }
  }

  /** No condition on the application is needed for rows that stay in the history. */
  lemma {:induction false} HistoryRowsAreUndisturbed(d: Driver, steps: seq<Step>, s: int)
    requires d.term.Valid() && RunOk(d, steps) && StaysInHistory(d, steps, s)
    ensures UndisturbedRun(d, steps, s)
    decreases |steps|
  {
    if steps != [] {
      HistoryRowsAreUndisturbed(Next(d, steps[0]), steps[1..], s - Drift(d, steps[0]));
      if steps[0].Chunk? {
        HistoryIsNotTouched(Armed(d.term), steps[0].ops, Due(d), s);
      } else {
        assert s - Drift(d, steps[0]) < Due(Next(d, steps[0]));
      }
    }
  }

  // ------------------------------------------------------------ the oldest number

  /** `OldestSeq` falls at exactly the steps that leave the alternate screen with
      a history to come back to: on that screen it reports `rotatedLines`. */
  lemma OldestFallsOnlyLeavingAlt(d: Driver, step: Step)
    requires Inv(d) && StepOk(d, step) && Exact(d, step)
    ensures OldestSeqOf(Next(d, step)) < OldestSeqOf(d) <==>
            d.term.onAlt && !Next(d, step).term.onAlt && d.term.primary.history != []
  {
    StepKeepsInv(d, step);
    if step.Chunk? {
      AccountedExactly(d, step.ops);
      AdvancePrimary(Armed(d.term), step.ops);
      AdvanceAlternate(Armed(d.term), step.ops);
    }
  }

  /** Between any two moments of a run on the primary screen it never falls. */
  lemma OldestNeverFallsOnPrimary(d: Driver, steps: seq<Step>)
    requires Inv(d) && RunOk(d, steps) && ExactRun(d, steps) && !d.term.onAlt && !Run(d, steps).term.onAlt
    ensures OldestSeqOf(d) == Base(d.term.primary, d.rotated)
    ensures OldestSeqOf(d) <= OldestSeqOf(Run(d, steps))
  {
    BaseNeverFalls(d, steps);
  }

  // ------------------------------------------------------------ where it fails

  /** Leaving the alternate screen for a history of one row. */
  lemma OldestCanFall(r: Row)
    ensures var d := Driver(Term(Grid([r], [r], 1, 1, 0, 0), Grid([], [r], 0, 0, 0, 0), true), 0, 1);
            && Inv(d) && StepOk(d, Chunk([LeaveAlt])) && Exact(d, Chunk([LeaveAlt]))
            && OldestSeqOf(d) == 1 && OldestSeqOf(Next(d, Chunk([LeaveAlt]))) == 0
  {
    var d := Driver(Term(Grid([r], [r], 1, 1, 0, 0), Grid([], [r], 0, 0, 0, 0), true), 0, 1);
    assert [LeaveAlt][1..] == [];
    assert Advance(d.term, [LeaveAlt]) == Apply(d.term, LeaveAlt);
    assert Rotation(d.term, [LeaveAlt]) == 0;
  }

  /** Two rows rotated at once into a history that holds one. */
  lemma LargeRotationIsMissed(r: Row)
    ensures var t, ops := Term(Grid([], [r, r], 0, 1, 0, 0), Grid([], [r, r], 0, 0, 0, 0), false), [Scroll([r, r])];
            && t.Valid() && OpsOk(Armed(t), ops)
            && Rotation(Armed(t), ops) == 2 && Max(Probed(t, ops), Grown(t, ops)) != 2
  {
    var t, ops := Term(Grid([], [r, r], 0, 1, 0, 0), Grid([], [r, r], 0, 0, 0, 0), false), [Scroll([r, r])];
    assert ops[1..] == [];
    assert Advance(Armed(t), ops) == Apply(Armed(t), ops[0]);
    CountedExactly(t, ops);
  }

  /** A screen of two rows made one row high without any scrollback. */
  lemma ResizeCanMoveCursor(r: Row)
    ensures var g, shape := Grid([], [r, r], 0, 0, 1, 0), Shape(1, 1, [], 0);
            var d := Driver(Term(g, Grid([], [r, r], 0, 0, 0, 0), false), 0, 0);
            && Inv(d) && ShapeOk(g, shape)
            && CursorSeqOf(d) == (1, 0) && CursorSeqOf(Resized(d, RowResized(d.term, shape))) != (1, 0)
  {
    var g, shape := Grid([], [r, r], 0, 0, 1, 0), Shape(1, 1, [], 0);
    var d := Driver(Term(g, Grid([], [r, r], 0, 0, 0, 0), false), 0, 0);
    ResizeMovesCursor(d, shape, RowResized(d.term, shape));
  }

  /** The same resize while a full-screen program runs: number 0, which named the
      first row, names the second one afterwards. */
  lemma ResizeOnAltRenames(a: Row, b: Row)
    ensures var g, step := Grid([], [a, b], 0, 1, 1, 0), Resize(Shape(1, 1, [], 0));
            var d := Driver(Term(g, Grid([], [a, b], 0, 0, 0, 0), true), 0, 0);
            && Inv(d) && StepOk(d, step)
            && var e := Next(d, step);
            && Names(g, Due(d), 0) && RowAt(g, Due(d), 0) == a
            && Names(e.term.primary, Due(e), 0) && RowAt(e.term.primary, Due(e), 0) == b
  {
    var t, shape := Term(Grid([], [a, b], 0, 1, 1, 0), Grid([], [a, b], 0, 0, 0, 0), true), Shape(1, 1, [], 0);
    assert RowResized(t, shape).primary == Grid([a], [b], 0, 1, 0, 0);
  }

  /** And on a full history: its length stays, but number 1 moves on by a row. */
  lemma FullHistoryRenames(a: Row, b: Row, c: Row)
    ensures var g, step := Grid([a], [b, c], 1, 1, 1, 0), Resize(Shape(1, 1, [], 1));
            var d := Driver(Term(g, Grid([], [b, c], 0, 0, 0, 0), true), 0, 1);
            && Inv(d) && StepOk(d, step)
            && var e := Next(d, step);
            && |e.term.primary.history| == |g.history|
            && Names(g, Due(d), 1) && RowAt(g, Due(d), 1) == b
            && Names(e.term.primary, Due(e), 1) && RowAt(e.term.primary, Due(e), 1) == c
  {
    var t, shape := Term(Grid([a], [b, c], 1, 1, 1, 0), Grid([], [b, c], 0, 0, 0, 0), true), Shape(1, 1, [], 1);
    assert RowResized(t, shape).primary == Grid([b], [c], 1, 1, 0, 0);
  }
}
