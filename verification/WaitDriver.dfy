/** The pattern wait over the driver's own replies: the server answers every read with
    what the driver reads from its grid, page by page, at the moment it answers. */
module WaitDriver {
  import opened Common
  import opened Grid
  import opened LineMatcher
  import opened SeqText
  import C = CursorContract
  import W = WaitPattern

  // ------------------------------------------------------------ places

  /** Where the next read resumes: at the cursor of the view read last, or, if that page
      was cut short, at a row of it. */
  datatype Place = AtCursor(v: View) | AtRow(v: View, row: nat)

  predicate PlaceOk(p: Place, from: nat, col: nat) {
    C.Holds(p.v, from, col) && (p.AtRow? ==> from < p.row <= p.v.cursorSeq)
  }

  function SeqOf(p: Place): nat { if p.AtCursor? then p.v.cursorSeq else p.row }

  function ColOf(p: Place): nat { if p.AtCursor? then p.v.cursorCol else 0 }

  /** What has been read by then. */
  function SoFar(p: Place, from: nat, col: nat): string
    requires PlaceOk(p, from, col)
  {
    if p.AtCursor? then C.Out(p.v, from, col) else Join(Pieces(p.v, from, col, p.row))
  }

  /** A read of `w` goes on where the last one ended: at a cursor under the condition of
      the cursor contract, at a row if the row before it soft-wraps into it and neither
      has been rewritten or has fallen off. */
  predicate ReadsOn(p: Place, w: View, oldest: nat, from: nat, col: nat)
    requires PlaceOk(p, from, col)
  {
    if p.AtCursor? then C.ReadsOn(p.v, w, oldest, from, col)
    else
      && C.Holds(w, from, col) && w.cols == p.v.cols && p.row <= w.cursorSeq
         && w.oldest <= oldest <= Min(p.row, w.rotated)
      && (forall s | from <= s < p.row :: C.RowOf(p.v, s) == C.RowOf(w, s))
      && C.RowOf(p.v, p.row - 1).wrapped
  }

  /** The rest of the text, as the driver still has it. */
  function Unread(p: Place, w: View, oldest: nat): string
    requires w.Valid() && w.oldest <= oldest <= w.rotated
  {
    C.EvictedValid(w, oldest);
    FullText(C.Evicted(w, oldest), SeqOf(p), ColOf(p), None)
  }

  function Page(p: Place, w: View, oldest: nat, max: nat): SeqText
    requires w.Valid() && w.oldest <= oldest <= w.rotated
  {
    C.EvictedValid(w, oldest);
    Read(C.Evicted(w, oldest), SeqOf(p), ColOf(p), None, max)
  }

  /** The place a page leads to. */
  function Reached(p: Place, w: View, oldest: nat, max: nat): Place
    requires w.Valid() && w.oldest <= oldest <= w.rotated
  {
    var page := Page(p, w, oldest, max);
    if page.truncated then AtRow(w, page.nextSeq) else AtCursor(w)
  }

  /** The page, if cut short, ends on a row that soft-wraps into the next. */
  predicate BreakOk(p: Place, w: View, oldest: nat, max: nat)
    requires w.Valid() && w.oldest <= oldest <= w.rotated
  {
    var page := Page(p, w, oldest, max);
    C.EvictedValid(w, oldest);
    page.truncated ==> BreakWraps(C.Evicted(w, oldest), page)
  }

  /** Everything up to a row after a soft wrap, and the rest. */
  lemma SplitAtRow(w: View, from: nat, col: nat, row: nat, oldest: nat)
    requires C.Holds(w, from, col) && from < row <= w.cursorSeq && w.oldest <= oldest <= Min(row, w.rotated)
    requires C.RowOf(w, row - 1).wrapped
    ensures C.Evicted(w, oldest).Valid()
    ensures Join(Pieces(w, from, col, row)) + FullText(C.Evicted(w, oldest), row, 0, None) == C.Out(w, from, col)
  {
    hide Join, Pieces, FullText, C.Evicted, C.Out;
    C.OutIs(w, from, col);
    C.FrontThenRow(w, from, col, row, w.cursorSeq + 1);
    C.EvictedRows(w, oldest, row, 0, w.cursorSeq + 1);
    RestFromRow(w, row, oldest);
    assert Join(Pieces(w, from, col, row)) + "" == Join(Pieces(w, from, col, row));
  }

  lemma RestFromRow(w: View, row: nat, oldest: nat)
    requires w.Valid() && w.cols > 0 && w.oldest <= oldest <= Min(row, w.rotated)
    requires row <= w.cursorSeq && w.rotated <= w.cursorSeq < w.rotated + w.screen
    ensures C.Evicted(w, oldest).Valid()
    ensures FullText(C.Evicted(w, oldest), row, 0, None) == Join(Pieces(C.Evicted(w, oldest), row, 0, w.cursorSeq + 1))
  {
    hide Join, Pieces;
    C.EvictedValid(w, oldest);
    var e := C.Evicted(w, oldest);
    assert Stop(e, None) == w.cursorSeq + 1 && Start(e, row) == row && StartCol(e, row, 0) == 0;
  }

  /** What was read and what is left are the text put out. */
  lemma ReadOn(p: Place, w: View, oldest: nat, from: nat, col: nat)
    requires PlaceOk(p, from, col) && ReadsOn(p, w, oldest, from, col)
    ensures C.Holds(w, from, col) && w.oldest <= oldest <= w.rotated
    ensures SoFar(p, from, col) + Unread(p, w, oldest) == C.Out(w, from, col)
  {
    hide Join, Pieces, FullText, C.Out, C.Resumes, C.Evicted;
    if p.AtCursor? {
      C.ContinuesHolds(p.v, w, from, col);
      C.ResumedReadExact(p.v, w, from, col, oldest);
    } else {
      SameRow(p, w, oldest, from, col);
      C.SamePieces(p.v, w, from, col, p.row);
      SplitAtRow(w, from, col, p.row, oldest);
    }
  }

  lemma SameRow(p: Place, w: View, oldest: nat, from: nat, col: nat)
    requires PlaceOk(p, from, col) && p.AtRow? && ReadsOn(p, w, oldest, from, col)
    ensures C.RowOf(w, p.row - 1).wrapped
  {
    assert C.RowOf(p.v, p.row - 1) == C.RowOf(w, p.row - 1);
  }

  /** Every page moves the place by exactly its text. */
  lemma PageReads(p: Place, w: View, oldest: nat, from: nat, col: nat, max: nat)
    requires PlaceOk(p, from, col) && ReadsOn(p, w, oldest, from, col)
    requires C.Holds(w, from, col) && w.oldest <= oldest <= w.rotated && BreakOk(p, w, oldest, max)
    ensures var page, q := Page(p, w, oldest, max), Reached(p, w, oldest, max);
            && PlaceOk(q, from, col) && SeqOf(q) == page.nextSeq && ColOf(q) == page.nextCol
            && SoFar(q, from, col) == SoFar(p, from, col) + page.text
            && SoFar(q, from, col) <= C.Out(w, from, col)
            && (!page.truncated ==> SoFar(q, from, col) == C.Out(w, from, col))
  {
    hide Join, Pieces, FullText, Read, C.Out, ReadsOn, BreakWraps;
    C.EvictedValid(w, oldest);
    var e, page := C.Evicted(w, oldest), Page(p, w, oldest, max);
    ReadOn(p, w, oldest, from, col);
    if page.truncated {
      ReadProgress(e, SeqOf(p), ColOf(p), None, max);
      FullTextSplit(e, SeqOf(p), ColOf(p), None, max);
      PlaceAfter(p, w, oldest, from, col, max);
      var rest := FullText(e, page.nextSeq, 0, None);
      SplitAtRow(w, from, col, page.nextSeq, oldest);
      assert page.text + "" + rest == page.text + rest;
      assert SoFar(p, from, col) + (page.text + rest) == SoFar(p, from, col) + page.text + rest;
      C.CancelEnd(SoFar(p, from, col) + page.text, Join(Pieces(w, from, col, page.nextSeq)), rest);
      PrefixOf(Join(Pieces(w, from, col, page.nextSeq)), rest, C.Out(w, from, col));
    } else {
      WholeRead(e, SeqOf(p), ColOf(p), None, max);
      CursorAfter(p, w, oldest, from, col, max);
    }
  }

  lemma PrefixOf(a: string, b: string, c: string)
    requires a + b == c
    ensures a <= c
  {
  }

  lemma PlaceAfter(p: Place, w: View, oldest: nat, from: nat, col: nat, max: nat)
    requires PlaceOk(p, from, col) && C.Holds(w, from, col) && w.oldest <= oldest <= w.rotated
    requires BreakOk(p, w, oldest, max) && Page(p, w, oldest, max).truncated
    ensures var row := Page(p, w, oldest, max).nextSeq;
            && from < row <= w.cursorSeq && oldest <= row && C.RowOf(w, row - 1).wrapped
  {
    hide Read, FullText, Pieces;
    C.EvictedValid(w, oldest);
    var e, page := C.Evicted(w, oldest), Page(p, w, oldest, max);
    ReadProgress(e, SeqOf(p), ColOf(p), None, max);
    assert e.rows[page.nextSeq - 1 - oldest] == w.rows[page.nextSeq - 1 - w.oldest];
  }

  lemma CursorAfter(p: Place, w: View, oldest: nat, from: nat, col: nat, max: nat)
    requires PlaceOk(p, from, col) && C.Holds(w, from, col) && w.oldest <= oldest <= w.rotated
    requires !Page(p, w, oldest, max).truncated
    ensures var page := Page(p, w, oldest, max); page.nextSeq == w.cursorSeq && page.nextCol == w.cursorCol
  {
    hide Join, Pieces, Fitting;
  }

  // ------------------------------------------------------------ the composed system

  /** The wait, its server and the wire, with the driver behind the server: `place` is
      where the next read resumes, `now` the grid, of which the rows below `oldest` have
      fallen off, and `issued` counts the cursors given out. */
  datatype System = System(s: W.System, place: Place, now: View, oldest: nat, issued: nat)

  datatype Step =
    | Print(view: View, oldest: nat)
    | Exit(status: int, reason: nat)
    | Answer(max: nat)
    | Other(step: W.Step)

  /** The probed place, and the wait. */
  datatype Setup = Setup(wait: W.Wait, from: nat, col: nat)

  function CursorOf(p: Place, issue: nat): W.Cursor { W.Cursor(SeqOf(p), ColOf(p), issue) }

  predicate Initial(w: Setup, d: System) {
    && C.Holds(d.now, w.from, w.col) && d.place == AtCursor(d.now) && d.now.oldest <= d.oldest <= d.now.rotated
       && d.issued == 0
    && W.Initial(w.wait, d.s) && d.s.client.cursor == CursorOf(d.place, 0)
    && d.s.server.out == C.Out(d.now, w.from, w.col) && w.wait.base == |d.s.server.out|
    && d.s.server.at == map[d.s.client.cursor := w.wait.base]
  }

  /** What of the text the server's record holds: what was read, or after an exit all. */
  function Recorded(w: Setup, d: System): string
    requires PlaceOk(d.place, w.from, w.col) && C.Holds(d.now, w.from, w.col)
  {
    if d.s.server.exited.Some? then C.Out(d.now, w.from, w.col) else SoFar(d.place, w.from, w.col)
  }

  predicate Inv(w: Setup, d: System) {
    && W.Inv(w.wait, d.s)
    && PlaceOk(d.place, w.from, w.col) && C.Holds(d.now, w.from, w.col) && d.now.oldest <= d.oldest <= d.now.rotated
    && d.s.server.out == Recorded(w, d)
    && (d.s.outcome == W.Waiting ==> Resting(w, d))
  }

  /** The read that is out, or the next one, resumes at `place`. */
  predicate Resting(w: Setup, d: System)
    requires PlaceOk(d.place, w.from, w.col)
  {
    var v, cursor := d.s.server, CursorOf(d.place, d.issued);
    && W.After(w.wait, W.HeadOf(d.s.client), d.s.replies).cursor == cursor
    && cursor in v.at && v.at[cursor] == |SoFar(d.place, w.from, w.col)| && SoFar(d.place, w.from, w.col) <= v.out
    && (forall c | c in v.at :: c.issue <= d.issued)
  }

  /** A read is answered under the conditions the places depend on; the text there is at
      an exit is one that a read could go on with. */
  predicate Enabled(w: Setup, d: System, step: Step)
    requires Inv(w, d)
  {
    && d.s.outcome == W.Waiting
    && match step
       case Print(view, oldest) =>
         d.s.server.exited.None? && C.Holds(view, w.from, w.col) && view.oldest <= oldest <= view.rotated
       case Exit(_, _) => d.s.server.exited.None? && ReadsOn(d.place, d.now, d.oldest, w.from, w.col)
       case Answer(max) =>
         && d.s.requests != [] && d.s.requests[0].Since?
         && ReadsOn(d.place, d.now, d.oldest, w.from, w.col) && BreakOk(d.place, d.now, d.oldest, max)
       case Other(s) => !s.Produce? && !s.Exit? && !s.Answer? && W.Enabled(w.wait, d.s, s)
  }

  function Next(w: Setup, d: System, step: Step): System
    requires Inv(w, d) && Enabled(w, d, step)
  {
    var s, v := d.s, d.s.server;
    match step
    case Print(view, oldest) =>
      d.(now := view, oldest := oldest, s := s.(server := v.(dirty := v.dirty || v.subscribed)))
    case Exit(status, reason) =>
      var all := C.Out(d.now, w.from, w.col);
      d.(s := s.(server := v.(out := all, dirty := v.dirty || v.subscribed, exited := Some((status, reason))),
                 replies := s.replies + [W.Exited(w.wait.pty, status, reason)]))
    case Answer(max) =>
      var page, place := Page(d.place, d.now, d.oldest, max), Reached(d.place, d.now, d.oldest, max);
      var cursor := W.Cursor(page.nextSeq, page.nextCol, d.issued + 1);
      var read := if v.exited.Some? then v else v.(out := v.out + page.text, dirty := v.dirty || v.subscribed);
      var upTo := |SoFar(d.place, w.from, w.col)| + |page.text|;
      d.(s := s.(requests := s.requests[1..], server := read.(at := v.at[cursor := upTo]),
                 replies := s.replies + [W.Output(W.Reply(W.READ, W.STATUS_OK, page.text, cursor, page.truncated))]),
         place := place, issued := d.issued + 1)
    case Other(o) => d.(s := W.Next(w.wait, s, o))
  }

  // ------------------------------------------------------------ it is a wait

  /** What a step is to a server that only knows the text. */
  function Moves(w: Setup, d: System, step: Step): seq<W.Step>
    requires Inv(w, d) && Enabled(w, d, step)
  {
    match step
    case Print(_, _) => [W.Produce("")]
    case Exit(status, reason) => [W.Produce(Unread(d.place, d.now, d.oldest)), W.Exit(status, reason)]
    case Answer(max) =>
      var page := Page(d.place, d.now, d.oldest, max);
      var upTo := |SoFar(d.place, w.from, w.col)| + |page.text|;
      var answer := W.Answer(upTo, W.Cursor(page.nextSeq, page.nextCol, d.issued + 1), page.truncated);
      if d.s.server.exited.Some? then [answer] else [W.Produce(page.text), answer]
    case Other(o) => [o]
  }

  lemma RunOne(w: W.Wait, s: W.System, a: W.Step)
    requires W.Enabled(w, s, a)
    ensures W.RunOk(w, s, [a]) && W.Run(w, s, [a]) == W.Next(w, s, a)
  {
    hide W.Enabled, W.Next;
    var t := W.Next(w, s, a);
    assert [a][1..] == [];
    assert W.RunOk(w, t, []) && W.Run(w, t, []) == t;
  }

  lemma RunTwo(w: W.Wait, s: W.System, a: W.Step, b: W.Step)
    requires W.Enabled(w, s, a) && W.Enabled(w, W.Next(w, s, a), b)
    ensures W.RunOk(w, s, [a, b]) && W.Run(w, s, [a, b]) == W.Next(w, W.Next(w, s, a), b)
  {
    hide W.Enabled, W.Next;
    RunOne(w, W.Next(w, s, a), b);
    assert [a, b][1..] == [b];
  }

  lemma {:induction false} RunConcat(w: W.Wait, s: W.System, a: seq<W.Step>, b: seq<W.Step>)
    requires W.RunOk(w, s, a) && W.RunOk(w, W.Run(w, s, a), b)
    ensures W.RunOk(w, s, a + b) && W.Run(w, s, a + b) == W.Run(w, W.Run(w, s, a), b)
    decreases |a|
  {
    hide W.Enabled, W.Next;
    if a == [] {
      assert a + b == b;
    } else {
      assert (a + b)[1..] == a[1..] + b;
      RunConcat(w, W.Next(w, s, a[0]), a[1..], b);
    }
  }

  /** The read that is out resumes at `place`. */
  lemma AsksHere(w: Setup, d: System)
    requires Inv(w, d) && d.s.outcome == W.Waiting && d.s.requests != [] && d.s.requests[0].Since?
    ensures d.s.requests[0].cursor == CursorOf(d.place, d.issued)
  {
    hide W.Pass, W.After, W.Sinces, W.ReadExactly, W.Updates, W.Acks, SoFar, ReadsOn;
    W.TakeRequest(d.s.requests);
    assert W.Sinces(d.s.requests)[0] == d.s.requests[0].cursor;
  }

  lemma Between(a: string, text: string, b: string, out: string)
    requires b == a + text && b <= out
    ensures |b| <= |out| && out[|a|..|b|] == text
  {
    assert out[..|b|] == b;
    assert out[|a|..|b|] == out[..|b|][|a|..];
  }

  /** The driver's reply is one that the cursor contract allows, with the same text. */
  lemma AnswerIsRun(w: Setup, d: System, max: nat)
    requires Inv(w, d) && Enabled(w, d, Answer(max))
    ensures var moves := Moves(w, d, Answer(max));
            W.RunOk(w.wait, d.s, moves) && W.Run(w.wait, d.s, moves) == Next(w, d, Answer(max)).s
  {
    hide W.Inv, W.After, Page, Reached, SoFar, ReadsOn, BreakOk, C.Out;
    AsksHere(w, d);
    PageReads(d.place, d.now, d.oldest, w.from, w.col, max);
    var page := Page(d.place, d.now, d.oldest, max);
    var a, b := SoFar(d.place, w.from, w.col), SoFar(Reached(d.place, d.now, d.oldest, max), w.from, w.col);
    var moves, s := Moves(w, d, Answer(max)), d.s;
    if s.server.exited.None? {
      var t := W.Next(w.wait, s, moves[0]);
      assert t.server.out == b;
      Between(a, page.text, b, t.server.out);
      RunTwo(w.wait, s, moves[0], moves[1]);
    } else {
      Between(a, page.text, b, s.server.out);
      RunOne(w.wait, s, moves[0]);
    }
  }

  lemma StepIsRun(w: Setup, d: System, step: Step)
    requires Inv(w, d) && Enabled(w, d, step)
    ensures var moves := Moves(w, d, step);
            W.RunOk(w.wait, d.s, moves) && W.Run(w.wait, d.s, moves) == Next(w, d, step).s
  {
    hide W.Inv, W.After, Page, Reached, SoFar, ReadsOn, BreakOk, C.Out, Unread;
    var moves := Moves(w, d, step);
    match step
    case Print(_, _) =>
      assert d.s.server.out + "" == d.s.server.out;
      RunOne(w.wait, d.s, moves[0]);
    case Exit(_, _) =>
      ReadOn(d.place, d.now, d.oldest, w.from, w.col);
      RunTwo(w.wait, d.s, moves[0], moves[1]);
    case Answer(max) => AnswerIsRun(w, d, max);
    case Other(o) => RunOne(w.wait, d.s, o);
  }

  // ------------------------------------------------------------ every step, every run

  /** Where a queue of messages leads depends on the cursor alone. */
  lemma {:induction false} SameCursor(w: W.Wait, h: W.Head, k: W.Head, q: seq<W.Message>)
    requires h.cursor == k.cursor
    ensures W.After(w, h, q).cursor == W.After(w, k, q).cursor
  {
    if q != [] { SameCursor(w, h, k, q[..|q| - 1]); }
  }

  /** The client's side of a step leads to the same cursor. */
  lemma OtherLeads(w: Setup, d: System, o: W.Step)
    requires Inv(w, d) && Enabled(w, d, Other(o))
    ensures var t := W.Next(w.wait, d.s, o);
            && t.server.out == d.s.server.out && t.server.at == d.s.server.at && t.server.exited == d.s.server.exited
            && (t.outcome == W.Waiting ==>
                  W.After(w.wait, W.HeadOf(t.client), t.replies).cursor ==
                  W.After(w.wait, W.HeadOf(d.s.client), d.s.replies).cursor)
  {
    hide W.Pass, W.After, W.ReadExactly, W.Updates, W.Acks, W.Sinces, SoFar, Scan, Resting, Recorded;
    var s, h := d.s, W.HeadOf(d.s.client);
    match o {
      case Receive =>
        W.TakeReply(w.wait, h, s.replies, s.server);
        W.ClientMeets(w.wait, s.client, s.replies[0]);
        var t := W.Next(w.wait, s, o);
        if t.outcome == W.Waiting {
          SameCursor(w.wait, W.HeadOf(t.client), W.Meet(w.wait, h, s.replies[0]), s.replies[1..]);
        }
      case Notify => W.AddReply(w.wait, h, s.replies, W.Update(w.wait.pty), s.server);
      case Refuse(error) =>
        W.AddReply(w.wait, h, s.replies, W.Output(W.Reply(W.READ, error, "", s.requests[0].cursor, false)), s.server);
      case Noise(m) => W.AddReply(w.wait, h, s.replies, m, s.server);
      case _ =>
    }
  }

  lemma AnswerKeeps(w: Setup, d: System, max: nat)
    requires Inv(w, d) && Enabled(w, d, Answer(max)) && W.Inv(w.wait, Next(w, d, Answer(max)).s)
    ensures Inv(w, Next(w, d, Answer(max)))
  {
    hide W.Inv, W.After, Page, Reached, SoFar, ReadsOn, BreakOk, C.Out;
    PageReads(d.place, d.now, d.oldest, w.from, w.col, max);
    var e := Next(w, d, Answer(max));
    W.AddReply(w.wait, W.HeadOf(d.s.client), d.s.replies, e.s.replies[|d.s.replies|], d.s.server);
    ReachedHere(d.place, d.now, d.oldest, max);
  }

  lemma ReachedHere(p: Place, w: View, oldest: nat, max: nat)
    requires w.Valid() && w.oldest <= oldest <= w.rotated
    ensures Reached(p, w, oldest, max).v == w
  {
    hide Read;
  }

  lemma ExitKeeps(w: Setup, d: System, status: int, reason: nat)
    requires Inv(w, d) && Enabled(w, d, Exit(status, reason)) && W.Inv(w.wait, Next(w, d, Exit(status, reason)).s)
    ensures Inv(w, Next(w, d, Exit(status, reason)))
  {
    hide W.Inv, W.After, SoFar, ReadsOn, C.Out, C.Holds, Unread;
    ReadOn(d.place, d.now, d.oldest, w.from, w.col);
    W.AddReply(w.wait, W.HeadOf(d.s.client), d.s.replies, W.Exited(w.wait.pty, status, reason), d.s.server);
  }

  lemma StepKeeps(w: Setup, d: System, step: Step)
    requires Inv(w, d) && Enabled(w, d, step)
    ensures Inv(w, Next(w, d, step))
  {
    hide W.Inv, W.After, SoFar, ReadsOn, BreakOk, C.Out, C.Holds, Page, Reached, Unread, Moves;
    StepIsRun(w, d, step);
    W.RunKeepsInv(w.wait, d.s, Moves(w, d, step));
    match step
    case Print(_, _) =>
    case Exit(status, reason) => ExitKeeps(w, d, status, reason);
    case Answer(max) => AnswerKeeps(w, d, max);
    case Other(o) => OtherLeads(w, d, o);
  }

  lemma InitialOk(w: Setup, d: System)
    requires Initial(w, d)
    ensures Inv(w, d)
  {
    hide W.Inv, C.Out, C.Holds;
    W.InitialOk(w.wait, d.s);
  }

  predicate RunOk(w: Setup, d: System, steps: seq<Step>)
    requires Inv(w, d)
    decreases |steps|
  {
    steps == [] || (Enabled(w, d, steps[0]) && (StepKeeps(w, d, steps[0]); RunOk(w, Next(w, d, steps[0]), steps[1..])))
  }

  function Run(w: Setup, d: System, steps: seq<Step>): (r: System)
    requires Inv(w, d) && RunOk(w, d, steps)
    ensures Inv(w, r)
    decreases |steps|
  {
    if steps == [] then d else StepKeeps(w, d, steps[0]); Run(w, Next(w, d, steps[0]), steps[1..])
  }

  function AllMoves(w: Setup, d: System, steps: seq<Step>): seq<W.Step>
    requires Inv(w, d) && RunOk(w, d, steps)
    decreases |steps|
  {
    if steps == [] then []
    else StepKeeps(w, d, steps[0]); Moves(w, d, steps[0]) + AllMoves(w, Next(w, d, steps[0]), steps[1..])
  }

  /** Every run over the driver is a run of the wait against the cursor contract. */
  lemma {:induction false} RunIsWait(w: Setup, d: System, steps: seq<Step>)
    requires Inv(w, d) && RunOk(w, d, steps)
    ensures W.RunOk(w.wait, d.s, AllMoves(w, d, steps))
    ensures W.Run(w.wait, d.s, AllMoves(w, d, steps)) == Run(w, d, steps).s
    decreases |steps|
  {
    hide Inv, Enabled, Next, Moves;
    if steps == [] {
      assert W.RunOk(w.wait, d.s, []) && W.Run(w.wait, d.s, []) == d.s;
    } else {
      StepKeeps(w, d, steps[0]);
      StepIsRun(w, d, steps[0]);
      var e := Next(w, d, steps[0]);
      RunIsWait(w, e, steps[1..]);
      RunConcat(w.wait, d.s, Moves(w, d, steps[0]), AllMoves(w, e, steps[1..]));
    }
  }

  /** What a wait may report of the text `since` the probe. */
  predicate ReportsSoundly(t: W.System, re: Regex, since: string) {
    match t.outcome
    case Found(line) =>
      && re(line) && Concat(t.chunks) <= since
      && exists k | 0 < k <= |t.chunks| :: EndsLineOf(line, Concat(t.chunks[..k]))
    case ExitReported(status, reason) =>
      && t.server.exited == Some((status, reason)) && Concat(t.chunks) == since
      && NoShortMatch(Lines(since), re, W.PENDING_MAX) && NoTailMatch(since, re, W.PENDING_MAX)
    case _ => true
  }

  lemma WaitReports(w: W.Wait, s: W.System, steps: seq<W.Step>)
    requires W.Initial(w, s) && W.RunOk(w, s, steps) && |s.server.out| == w.base
    ensures var t := W.Run(w, s, steps);
            s.server.out <= t.server.out && ReportsSoundly(t, w.re, t.server.out[w.base..])
  {
    hide W.Run, W.RunOk, EndsLineOf, NoShortMatch, NoTailMatch, Lines, Concat;
    W.WaitIsSound(w, s, steps);
    W.OutputStays(w, s, steps);
  }

  /** The wait over the driver: success is for the end of a line that was on the terminal
      after the probe, and an exit is reported only when everything on it, from the probe
      to the exit, was read and no line up to the pending limit matches.  (`InitialOk`
      shows that the invariant holds at the start.) */
  lemma DriverWaitIsSound(w: Setup, d: System, steps: seq<Step>)
    requires Initial(w, d) && Inv(w, d) && RunOk(w, d, steps)
    ensures var t := Run(w, d, steps);
            var before, after := C.Out(d.now, w.from, w.col), Recorded(w, t);
            && before <= after && ReportsSoundly(t.s, w.wait.re, after[|before|..])
            && (t.s.outcome.ExitReported? ==> after == C.Out(t.now, w.from, w.col))
  {
    hide W.Run, W.RunOk, W.Inv, W.Initial, Run, RunOk, AllMoves, C.Out, C.Holds, SoFar, ReportsSoundly;
    RunIsWait(w, d, steps);
    WaitReports(w.wait, d.s, AllMoves(w, d, steps));
    ReportsExit(Run(w, d, steps).s, w.wait.re, Run(w, d, steps).s.server.out[w.wait.base..]);
  }

  lemma ReportsExit(t: W.System, re: Regex, since: string)
    requires ReportsSoundly(t, re, since)
    ensures t.outcome.ExitReported? ==> t.server.exited.Some?
  {
  }
}
