/** Resuming a read at the cursor of an earlier one: when the text read so far and the
    next reply together are the text that was put out. */
module CursorContract {
  import opened Common
  import opened Grid
  import opened Strings
  import opened SeqText
  import W = WaitPattern

  // ------------------------------------------------------------ text

  lemma {:induction false} TrimConcat(a: string, b: string)
    ensures TrimEnd(a + b) == if TrimEnd(b) != "" then a + TrimEnd(b) else TrimEnd(a)
    decreases |b|
  {
    if b == "" {
      assert a + b == a;
    } else {
      var front := b[..|b| - 1];
      assert (a + b)[..|a + b| - 1] == a + front;
      if IsWhitespace(b[|b| - 1]) { TrimConcat(a, front); }
    }
  }

  lemma {:induction false} CellsConcat(a: seq<TextCell>, b: seq<TextCell>)
    ensures CellsText(a + b) == CellsText(a) + CellsText(b)
  {
    hide CellText;
    if b == [] {
      assert a + b == a;
    } else {
      var front := b[..|b| - 1];
      assert (a + b)[..|a + b| - 1] == a + front;
      CellsConcat(a, front);
    }
  }

  /** A row's text in a column range, and what a read makes of it. */
  function Text(row: Row, c0: nat, c1: nat): string
    requires c0 <= c1 <= |row.cells|
  {
    CellsText(row.cells[c0..c1])
  }

  function Cut(text: string, wrapped: bool): string { if wrapped then text else TrimEnd(text) }

  lemma RenderedIs(row: Row, c0: nat, mid: nat)
    requires c0 <= mid < |row.cells|
    ensures Rendered(row, c0, |row.cells| - 1) ==
            (Cut(Text(row, c0, mid) + Text(row, mid, |row.cells|), row.wrapped), row.wrapped)
  {
    hide CellsText, TrimEnd;
    CellsConcat(row.cells[c0..mid], row.cells[mid..]);
    assert row.cells[mid..] == row.cells[mid..|row.cells|];
    assert row.cells[c0..mid] + row.cells[mid..] == row.cells[c0..|row.cells| - 1 + 1];
  }

  // ------------------------------------------------------------ two moments

  function RowOf(v: View, s: nat): Row
    requires v.Valid() && v.oldest <= s < v.rotated + v.screen
  {
    v.rows[s - v.oldest]
  }

  /** A settled view that still holds row `from`, with the cursor on its screen and not
      before `(from, col)`. */
  predicate Holds(v: View, from: nat, col: nat) {
    && v.Valid() && v.cols > 0 && v.oldest <= from <= v.cursorSeq
    && v.rotated <= v.cursorSeq < v.rotated + v.screen && v.cursorCol < v.cols
    && (from == v.cursorSeq ==> col <= v.cursorCol)
  }

  /** `w` is what `v` has become: the same up to the cursor of `v`. */
  predicate Continues(v: View, w: View, from: nat, col: nat) {
    && Holds(v, from, col) && Holds(w, from, col) && w.cols == v.cols && v.cursorSeq <= w.cursorSeq
    && (forall s | from <= s < v.cursorSeq :: RowOf(v, s) == RowOf(w, s))
    && RowOf(v, v.cursorSeq).cells[..v.cursorCol] == RowOf(w, v.cursorSeq).cells[..v.cursorCol]
    && '\n' !in Text(RowOf(v, v.cursorSeq), 0, v.cols)
  }

  /** The same view when the rows below number `oldest` have fallen off. */
  function Evicted(w: View, oldest: nat): View
    requires w.Valid() && w.oldest <= oldest <= w.rotated
  {
    w.(oldest := oldest, rows := w.rows[oldest - w.oldest..])
  }

  /** Everything from `(from, col)` to the cursor. */
  function Out(v: View, from: nat, col: nat): string
    requires Holds(v, from, col)
  {
    FullText(v, from, col, None)
  }

  /** What the resumed read returns. */
  function Reply(v: View, w: View, oldest: nat): string
    requires w.Valid() && w.oldest <= oldest <= w.rotated
  {
    FullText(Evicted(w, oldest), v.cursorSeq, v.cursorCol, None)
  }

  // ------------------------------------------------------------ what decides

  function StartOn(v: View, from: nat, col: nat): nat { if from == v.cursorSeq then col else 0 }

  /** The cursor row of `v`: before the cursor, and what was read at or past it. */
  function Before(v: View, from: nat, col: nat): string
    requires Holds(v, from, col)
  {
    Text(RowOf(v, v.cursorSeq), StartOn(v, from, col), v.cursorCol)
  }

  function Past(v: View): string
    requires v.Valid() && v.oldest <= v.cursorSeq < v.rotated + v.screen && v.cursorCol <= v.cols
  {
    var row := RowOf(v, v.cursorSeq); Cut(Text(row, v.cursorCol, v.cols), row.wrapped)
  }

  /** What the same row went on with in `w`. */
  function Added(v: View, w: View): Piece
    requires w.Valid() && w.oldest <= v.cursorSeq < w.rotated + w.screen && v.cursorCol <= w.cols
  {
    var row := RowOf(w, v.cursorSeq); (Cut(Text(row, v.cursorCol, w.cols), row.wrapped), row.wrapped)
  }

  predicate GoesOn(v: View, w: View)
    requires w.Valid() && w.oldest <= v.cursorSeq < w.rotated + w.screen && v.cursorCol <= w.cols
  {
    Added(v, w).1 || Added(v, w).0 != ""
  }

  predicate Trimmed(s: string) { TrimEnd(s) == s }

  /** The unread text that fell off: from the cursor of `v` to row `oldest`. */
  function Lost(v: View, w: View, oldest: nat): string
    requires w.Valid() && w.cols > 0 && w.oldest <= v.cursorSeq < oldest <= w.rotated
  {
    var ps := Pieces(w, v.cursorSeq, v.cursorCol, oldest);
    Join(ps) + Sep(ps[|ps| - 1])
  }

  /** Reading on at the cursor of `v` misses and repeats nothing:
      - while its row is still held, nothing was written at or past the cursor, and no
        blank in front of it was trimmed that more text has turned into a gap;
      - once it has fallen off, what fell off unread is what had been read ahead. */
  predicate Resumes(v: View, w: View, from: nat, col: nat, oldest: nat)
    requires Continues(v, w, from, col) && w.oldest <= oldest <= w.rotated
  {
    var ends := Trimmed(Before(v, from, col));
    var wrapped := RowOf(v, v.cursorSeq).wrapped;
    if oldest <= v.cursorSeq then Past(v) == "" && (ends || (wrapped <==> GoesOn(v, w)))
    else Past(v) == Lost(v, w, oldest) && (ends || wrapped || Past(v) != "")
  }

  // ------------------------------------------------------------ one row

  /** The cursor row still held: `l` before the cursor, `rv` and `rw` after it then and now. */
  lemma RowHeld(l: string, rv: string, vw: bool, rw: string, ww: bool)
    ensures Cut(l + rv, vw) + Cut(rw, ww) == Cut(l + rw, ww) <==>
            Cut(rv, vw) == "" && (Trimmed(l) || (vw <==> ww || Cut(rw, ww) != ""))
  {
    hide TrimEnd;
    TrimConcat(l, rv);
    TrimConcat(l, rw);
    var read, more, whole := Cut(l + rv, vw), Cut(rw, ww), Cut(l + rw, ww);
    if Cut(rv, vw) != "" || vw {
      assert read == l + Cut(rv, vw);
      if ww || more != "" {
        assert whole == l + more;
        Cancel(l, Cut(rv, vw), more);
      } else {
        assert whole == TrimEnd(l) && more == "" && read + more == read;
        TrimShorter(l);
      }
    } else {
      assert read == TrimEnd(l);
      if ww || more != "" {
        assert whole == l + more;
        CancelEnd(TrimEnd(l), l, more);
      } else {
        assert whole == TrimEnd(l) && read + more == read;
      }
    }
  }

  lemma TrimShorter(s: string)
    ensures |TrimEnd(s)| <= |s|
  {
  }

  lemma Cancel(l: string, x: string, more: string)
    ensures l + x + more == l + more <==> x == ""
  {
    assert |l + x + more| == |l| + |x| + |more|;
    assert x == "" ==> l + x == l;
  }

  lemma CancelEnd(a: string, b: string, c: string)
    ensures a + c == b + c <==> a == b
  {
    if a + c == b + c {
      assert a == (a + c)[..|a|] && b == (b + c)[..|b|];
    }
  }

  lemma CancelFront(a: string, b: string, c: string)
    ensures a + b == a + c <==> b == c
  {
    if a + b == a + c {
      assert b == (a + b)[|a|..] && c == (a + c)[|a|..];
    }
  }

  /** The cursor row fallen off, with `tail` the unread text from its end on. */
  lemma RowGone(l: string, rv: string, vw: bool, rw: string, ww: bool, tail: string)
    requires '\n' !in l + rv && (!ww ==> tail != "" && tail[0] == '\n')
    ensures Cut(l + rv, vw) == Cut(l + rw, ww) + tail <==>
            Cut(rv, vw) == Cut(rw, ww) + tail && (Trimmed(l) || vw || Cut(rv, vw) != "")
  {
    hide Trimmed;
    var more := Cut(rw, ww);
    CutAfter(l, rw, ww);
    if ww || more != "" {
      assert Cut(l + rw, ww) + tail == l + (more + tail);
      GoneText(l, rv, vw, more + tail);
    } else {
      assert more + tail == tail;
      NoBreak(l, rv, vw, TrimEnd(l), tail);
    }
  }

  /** Cutting after more text cuts the text before it only when nothing is left of it. */
  lemma CutAfter(l: string, r: string, wrapped: bool)
    ensures Cut(l + r, wrapped) == if wrapped || Cut(r, wrapped) != "" then l + Cut(r, wrapped) else TrimEnd(l)
  {
    hide TrimEnd;
    TrimConcat(l, r);
  }

  lemma GoneText(l: string, rv: string, vw: bool, lost: string)
    ensures Cut(l + rv, vw) == l + lost <==> Cut(rv, vw) == lost && (Trimmed(l) || vw || Cut(rv, vw) != "")
  {
    hide TrimEnd;
    CutAfter(l, rv, vw);
    if Cut(rv, vw) != "" || vw { CancelFront(l, Cut(rv, vw), lost); } else { Longer(l, lost); }
  }

  lemma Longer(l: string, lost: string)
    ensures TrimEnd(l) == l + lost <==> Trimmed(l) && lost == ""
  {
    hide TrimEnd;
    TrimShorter(l);
    assert lost == "" ==> l + lost == l;
    assert |l + lost| == |l| + |lost|;
  }

  /** A text without a newline is not one that holds one. */
  lemma NoBreak(l: string, rv: string, vw: bool, whole: string, tail: string)
    requires '\n' !in l + rv && tail != "" && tail[0] == '\n'
    ensures Cut(l + rv, vw) != whole + tail && Cut(rv, vw) != tail
  {
    hide TrimEnd;
    var read, ahead := Cut(l + rv, vw), Cut(rv, vw);
    CutPrefix(l + rv, vw);
    CutPrefix(rv, vw);
    assert forall c | c in read :: c in l + rv;
    assert forall c | c in ahead :: c in l + rv;
    assert (whole + tail)[|whole|] == '\n';
  }

  lemma CutPrefix(s: string, wrapped: bool)
    ensures Cut(s, wrapped) <= s
  {
  }

  // ------------------------------------------------------------ all rows

  /** From the end of row `s` to the end of row `stop - 1`. */
  function Rest(v: View, s: nat, stop: nat): string
    requires v.Valid() && v.cols > 0 && v.oldest <= s < stop <= v.rotated + v.screen
  {
    if s + 1 == stop then "" else (if RowOf(v, s).wrapped then "" else "\n") + Join(Pieces(v, s + 1, 0, stop))
  }

  lemma FromRow(v: View, s: nat, col: nat, stop: nat)
    requires v.Valid() && v.cols > 0 && v.oldest <= s < stop <= v.rotated + v.screen
    ensures Join(Pieces(v, s, col, stop)) == PieceAt(v, s, col).0 + Rest(v, s, stop)
  {
    hide Rendered, Join;
    var ps := Pieces(v, s, col, stop);
    assert Pieces(v, s, col, s + 1) == [PieceAt(v, s, col)];
    JoinOne([PieceAt(v, s, col)]);
    assert [PieceAt(v, s, col)][..1] == [PieceAt(v, s, col)];
    if s + 1 < stop {
      PiecesSplit(v, s, col, s + 1, stop);
      JoinConcat([PieceAt(v, s, col)], Pieces(v, s + 1, 0, stop));
      PieceWraps(v, s, col);
    }
  }

  lemma PieceWraps(v: View, s: nat, col: nat)
    requires v.Valid() && v.cols > 0 && v.oldest <= s < v.rotated + v.screen
    ensures PieceAt(v, s, col).1 == RowOf(v, s).wrapped
  {
  }

  /** The rows before `mid` with their separator. */
  function Front(v: View, from: nat, col: nat, mid: nat): string
    requires v.Valid() && v.cols > 0 && v.oldest <= from <= mid <= v.rotated + v.screen
  {
    if from == mid then "" else Join(Pieces(v, from, col, mid)) + (if RowOf(v, mid - 1).wrapped then "" else "\n")
  }

  lemma FrontThenRow(v: View, from: nat, col: nat, mid: nat, stop: nat)
    requires v.Valid() && v.cols > 0 && v.oldest <= from <= mid < stop <= v.rotated + v.screen
    ensures Join(Pieces(v, from, col, stop)) ==
            Front(v, from, col, mid) + Join(Pieces(v, mid, if from == mid then col else 0, stop))
  {
    hide Rendered, Join;
    if from < mid {
      PiecesSplit(v, from, col, mid, stop);
      JoinConcat(Pieces(v, from, col, mid), Pieces(v, mid, 0, stop));
      LastPiece(v, from, col, mid);
    }
  }

  lemma LastPiece(v: View, from: nat, col: nat, stop: nat)
    requires v.Valid() && v.cols > 0 && v.oldest <= from < stop <= v.rotated + v.screen
    ensures var ps := Pieces(v, from, col, stop); Sep(ps[|ps| - 1]) == if RowOf(v, stop - 1).wrapped then "" else "\n"
  {
    hide Rendered, PieceAt;
    PiecesAt(v, from, col, stop, stop - from - 1);
    PieceWraps(v, stop - 1, if stop - from == 1 then col else 0);
  }

  /** Rows two views share read the same. */
  lemma SamePieces(v: View, w: View, from: nat, col: nat, stop: nat)
    requires v.Valid() && w.Valid() && v.cols == w.cols > 0
    requires v.oldest <= from <= stop <= v.rotated + v.screen && w.oldest <= from <= stop <= w.rotated + w.screen
    requires forall s | from <= s < stop :: RowOf(v, s) == RowOf(w, s)
    ensures Pieces(v, from, col, stop) == Pieces(w, from, col, stop)
  {
    hide Rendered;
    var ps, qs := Pieces(v, from, col, stop), Pieces(w, from, col, stop);
    forall i | 0 <= i < |ps| ensures ps[i] == qs[i] {
      PiecesAt(v, from, col, stop, i);
      PiecesAt(w, from, col, stop, i);
      assert RowOf(v, from + i) == RowOf(w, from + i);
    }
  }

  lemma SameFront(v: View, w: View, from: nat, col: nat)
    requires Continues(v, w, from, col)
    ensures Front(v, from, col, v.cursorSeq) == Front(w, from, col, v.cursorSeq)
  {
    hide Rendered, Join, Pieces;
    SamePieces(v, w, from, col, v.cursorSeq);
    assert from < v.cursorSeq ==> RowOf(v, v.cursorSeq - 1) == RowOf(w, v.cursorSeq - 1);
  }

  lemma OutIs(v: View, from: nat, col: nat)
    requires Holds(v, from, col)
    ensures Out(v, from, col) == Join(Pieces(v, from, col, v.cursorSeq + 1))
  {
  }

  /** A read around column `cc` of row `mid`. */
  lemma Around(v: View, from: nat, col: nat, mid: nat, cc: nat, stop: nat)
    requires v.Valid() && v.cols > 0 && v.oldest <= from <= mid < stop <= v.rotated + v.screen && cc < v.cols
    requires from == mid ==> col <= cc
    ensures var row, c0 := RowOf(v, mid), if from == mid then col else 0;
            Join(Pieces(v, from, col, stop)) ==
            Front(v, from, col, mid) + (Cut(Text(row, c0, cc) + Text(row, cc, v.cols), row.wrapped)
                                        + Rest(v, mid, stop))
  {
    hide Join, Cut, Text, Front, Rest, Pieces, Rendered;
    var c0 := if from == mid then col else 0;
    FrontThenRow(v, from, col, mid, stop);
    FromRow(v, mid, c0, stop);
    RenderedIs(RowOf(v, mid), c0, cc);
  }

  /** The read so far ends in the cursor row, cut at its end. */
  lemma ReadSoFar(v: View, from: nat, col: nat)
    requires Holds(v, from, col)
    ensures var row := RowOf(v, v.cursorSeq);
            Out(v, from, col) == Front(v, from, col, v.cursorSeq)
              + Cut(Before(v, from, col) + Text(row, v.cursorCol, v.cols), row.wrapped)
  {
    hide Join, Cut, Text, Front, Pieces, Out;
    OutIs(v, from, col);
    Around(v, from, col, v.cursorSeq, v.cursorCol, v.cursorSeq + 1);
    var row := RowOf(v, v.cursorSeq);
    var piece := Cut(Before(v, from, col) + Text(row, v.cursorCol, v.cols), row.wrapped);
    assert Rest(v, v.cursorSeq, v.cursorSeq + 1) == "" && piece + "" == piece;
  }

  /** The text before the cursor of `v` is the same in `w`. */
  lemma SameBefore(v: View, w: View, from: nat, col: nat)
    requires Continues(v, w, from, col)
    ensures Text(RowOf(w, v.cursorSeq), StartOn(v, from, col), v.cursorCol) == Before(v, from, col)
  {
    var c0, a, b := StartOn(v, from, col), RowOf(v, v.cursorSeq).cells, RowOf(w, v.cursorSeq).cells;
    assert a[c0..v.cursorCol] == a[..v.cursorCol][c0..] && b[c0..v.cursorCol] == b[..v.cursorCol][c0..];
  }

  lemma WholeText(v: View, w: View, from: nat, col: nat)
    requires Continues(v, w, from, col)
    ensures var row := RowOf(w, v.cursorSeq);
            Out(w, from, col) == Front(v, from, col, v.cursorSeq)
                                 + (Cut(Before(v, from, col) + Text(row, v.cursorCol, v.cols), row.wrapped)
                                    + Rest(w, v.cursorSeq, w.cursorSeq + 1))
  {
    hide Join, Cut, Text, Front, Rest, Pieces, Out;
    OutIs(w, from, col);
    SameFront(v, w, from, col);
    SameBefore(v, w, from, col);
    Around(w, from, col, v.cursorSeq, v.cursorCol, w.cursorSeq + 1);
  }

  /** Rows that are still held read the same after others have fallen off. */
  lemma EvictedRows(w: View, oldest: nat, from: nat, col: nat, stop: nat)
    requires w.Valid() && w.cols > 0 && w.oldest <= oldest <= w.rotated
             && oldest <= from <= stop <= w.rotated + w.screen
    ensures Evicted(w, oldest).Valid() && Pieces(Evicted(w, oldest), from, col, stop) == Pieces(w, from, col, stop)
  {
    hide Rendered, Pieces;
    EvictedValid(w, oldest);
    var e := Evicted(w, oldest);
    forall s | from <= s < stop ensures RowOf(e, s) == RowOf(w, s) {
      assert e.rows[s - e.oldest] == w.rows[s - w.oldest];
    }
    SamePieces(e, w, from, col, stop);
  }

  lemma EvictedValid(w: View, oldest: nat)
    requires w.Valid() && w.oldest <= oldest <= w.rotated
    ensures Evicted(w, oldest).Valid()
  {
    var e := Evicted(w, oldest);
    assert forall i | 0 <= i < |e.rows| :: e.rows[i] == w.rows[i + oldest - w.oldest];
  }

  // ------------------------------------------------------------ the theorem

  /** The reply while the cursor row is held: from the cursor to the end. */
  lemma ReplyHeld(v: View, w: View, from: nat, col: nat, oldest: nat)
    requires Continues(v, w, from, col) && w.oldest <= oldest <= w.rotated && oldest <= v.cursorSeq
    ensures Reply(v, w, oldest) == Added(v, w).0 + Rest(w, v.cursorSeq, w.cursorSeq + 1)
  {
    hide Join, Cut, Text, Rest, Pieces, Reply, Added, PieceAt, Evicted, RowOf;
    EvictedRows(w, oldest, v.cursorSeq, v.cursorCol, w.cursorSeq + 1);
    EvictedRead(v, w, oldest);
    AddedIs(v, w);
    FromRow(w, v.cursorSeq, v.cursorCol, w.cursorSeq + 1);
  }

  lemma NoText(row: Row, c: nat)
    requires c <= |row.cells|
    ensures Text(row, c, c) == ""
  {
  }

  lemma EvictedRead(v: View, w: View, oldest: nat)
    requires w.Valid() && w.cols > 0 && w.oldest <= oldest <= w.rotated && oldest <= w.cursorSeq < w.rotated + w.screen
    requires v.cursorSeq <= w.cursorSeq && w.screen > 0
    ensures Evicted(w, oldest).Valid()
    ensures Reply(v, w, oldest) ==
            if oldest <= v.cursorSeq then Join(Pieces(Evicted(w, oldest), v.cursorSeq, v.cursorCol, w.cursorSeq + 1))
                                   else Join(Pieces(Evicted(w, oldest), oldest, 0, w.cursorSeq + 1))
  {
    hide Join;
    EvictedValid(w, oldest);
    var e := Evicted(w, oldest);
    assert Stop(e, None) == w.cursorSeq + 1 && Start(e, v.cursorSeq) == Max(v.cursorSeq, oldest) < Stop(e, None);
    assert StartCol(e, v.cursorSeq, v.cursorCol) == if v.cursorSeq < oldest then 0 else v.cursorCol;
  }

  function EndOf(w: View, s: nat): string
    requires w.Valid() && w.oldest <= s < w.rotated + w.screen
  {
    if RowOf(w, s).wrapped then "" else "\n"
  }

  lemma RestSplits(w: View, s: nat, mid: nat, stop: nat)
    requires w.Valid() && w.cols > 0 && w.oldest <= s < mid < stop <= w.rotated + w.screen
    ensures Rest(w, s, stop) == Rest(w, s, mid) + EndOf(w, mid - 1) + Join(Pieces(w, mid, 0, stop))
  {
    hide Join, Pieces;
    if s + 1 < mid {
      FrontThenRow(w, s + 1, 0, mid, stop);
    }
  }

  lemma AddedIs(v: View, w: View)
    requires w.Valid() && w.cols > 0 && w.oldest <= v.cursorSeq < w.rotated + w.screen && v.cursorCol < w.cols
    ensures PieceAt(w, v.cursorSeq, v.cursorCol) == Added(v, w)
  {
    hide Cut, Text, Rendered;
    var row := RowOf(w, v.cursorSeq);
    RenderedIs(row, v.cursorCol, v.cursorCol);
    NoText(row, v.cursorCol);
    assert "" + Text(row, v.cursorCol, w.cols) == Text(row, v.cursorCol, w.cols);
  }

  lemma LostIs(v: View, w: View, oldest: nat)
    requires w.Valid() && w.cols > 0 && w.oldest <= v.cursorSeq < oldest <= w.rotated && v.cursorCol < w.cols
    ensures Lost(v, w, oldest) == Added(v, w).0 + (Rest(w, v.cursorSeq, oldest) + EndOf(w, oldest - 1))
  {
    hide Join, Pieces, Rest, PieceAt, Added, RowOf;
    AddedIs(v, w);
    LastPiece(w, v.cursorSeq, v.cursorCol, oldest);
    FromRow(w, v.cursorSeq, v.cursorCol, oldest);
    assert EndOf(w, oldest - 1) == if RowOf(w, oldest - 1).wrapped then "" else "\n";
  }

  lemma ReplyGone(v: View, w: View, from: nat, col: nat, oldest: nat)
    requires Continues(v, w, from, col) && v.cursorSeq < oldest <= w.rotated
    ensures Rest(w, v.cursorSeq, w.cursorSeq + 1) ==
            Rest(w, v.cursorSeq, oldest) + EndOf(w, oldest - 1) + Reply(v, w, oldest)
  {
    hide Join, Cut, Text, Pieces, Rest, Reply, EndOf;
    EvictedRows(w, oldest, oldest, 0, w.cursorSeq + 1);
    EvictedRead(v, w, oldest);
    RestSplits(w, v.cursorSeq, oldest, w.cursorSeq + 1);
  }

  /** Reading on at the cursor gives the text that was put out, no more and no less, if
      and only if `Resumes`. */
  lemma ResumedReadExact(v: View, w: View, from: nat, col: nat, oldest: nat)
    requires Continues(v, w, from, col) && w.oldest <= oldest <= w.rotated
    ensures Out(v, from, col) + Reply(v, w, oldest) == Out(w, from, col) <==> Resumes(v, w, from, col, oldest)
  {
    hide Join, Text, Pieces, Front, Rest, Out, Reply, Lost, EndOf;
    var rowV, rowW := RowOf(v, v.cursorSeq), RowOf(w, v.cursorSeq);
    var l, rv, rw := Before(v, from, col), Text(rowV, v.cursorCol, v.cols), Text(rowW, v.cursorCol, w.cols);
    ReadSoFar(v, from, col);
    WholeText(v, w, from, col);
    var front, rest := Front(v, from, col, v.cursorSeq), Rest(w, v.cursorSeq, w.cursorSeq + 1);
    var read, whole := Cut(l + rv, rowV.wrapped), Cut(l + rw, rowW.wrapped);
    if oldest <= v.cursorSeq {
      ReplyHeld(v, w, from, col, oldest);
      RowHeld(l, rv, rowV.wrapped, rw, rowW.wrapped);
      Middle(front, read + Cut(rw, rowW.wrapped), whole, rest);
      assert front + read + (Cut(rw, rowW.wrapped) + rest) == front + (read + Cut(rw, rowW.wrapped) + rest);
    } else {
      ReplyGone(v, w, from, col, oldest);
      LostIs(v, w, oldest);
      var tail := Rest(w, v.cursorSeq, oldest) + EndOf(w, oldest - 1);
      BreaksAfter(w, v.cursorSeq, oldest);
      NoBreakOnRow(v, from, col);
      RowGone(l, rv, rowV.wrapped, rw, rowW.wrapped, tail);
      Middle(front, read, whole + tail, Reply(v, w, oldest));
      assert front + (read + Reply(v, w, oldest)) == front + read + Reply(v, w, oldest);
      assert whole + (tail + Reply(v, w, oldest)) == whole + tail + Reply(v, w, oldest);
    }
  }

  lemma Middle(front: string, a: string, b: string, rest: string)
    ensures front + (a + rest) == front + (b + rest) <==> a == b
  {
    CancelFront(front, a + rest, b + rest);
    CancelEnd(a, b, rest);
  }

  lemma BreaksAfter(w: View, s: nat, oldest: nat)
    requires w.Valid() && w.cols > 0 && w.oldest <= s < oldest <= w.rotated
    ensures var tail := Rest(w, s, oldest) + EndOf(w, oldest - 1);
            !RowOf(w, s).wrapped ==> tail != "" && tail[0] == '\n'
  {
    hide Join, Pieces;
  }

  lemma NoBreakOnRow(v: View, from: nat, col: nat)
    requires Holds(v, from, col) && '\n' !in Text(RowOf(v, v.cursorSeq), 0, v.cols)
    ensures '\n' !in Before(v, from, col) + Text(RowOf(v, v.cursorSeq), v.cursorCol, v.cols)
  {
    hide CellsText;
    var cells, c0 := RowOf(v, v.cursorSeq).cells, StartOn(v, from, col);
    CellsConcat(cells[0..c0], cells[c0..v.cols]);
    CellsConcat(cells[c0..v.cursorCol], cells[v.cursorCol..v.cols]);
    assert cells[0..c0] + cells[c0..v.cols] == cells[0..v.cols];
    assert cells[c0..v.cursorCol] + cells[v.cursorCol..v.cols] == cells[c0..v.cols];
  }

  /** With the cursor at the start of a row not written yet, as after a newline, every
      later read resumes for as long as that row is held. */
  lemma FreshRowResumes(v: View, w: View, from: nat, col: nat, oldest: nat)
    requires Continues(v, w, from, col) && w.oldest <= oldest <= w.rotated && oldest <= v.cursorSeq
    requires v.cursorCol == 0 && Past(v) == ""
    ensures Resumes(v, w, from, col, oldest) && Out(v, from, col) + Reply(v, w, oldest) == Out(w, from, col)
  {
    hide Out, Reply, Past, GoesOn;
    NoText(RowOf(v, v.cursorSeq), 0);
    ResumedReadExact(v, w, from, col, oldest);
  }

  // ------------------------------------------------------------ the contract of the pattern wait

  /** The reply to a resumed read whose budget does not bind meets the cursor contract of
      the pattern wait, for the text put out since `(from, col)`, if and only if `Resumes`. */
  lemma ContractMet(v: View, w: View, from: nat, col: nat, oldest: nat, max: nat, s: W.Server,
                    issue: nat, nextIssue: nat)
    requires Continues(v, w, from, col) && w.oldest <= oldest <= w.rotated && Bytes(Reply(v, w, oldest)) <= max
    requires var cursor, next := W.Cursor(v.cursorSeq, v.cursorCol, issue),
             W.Cursor(w.cursorSeq, w.cursorCol, nextIssue);
             && s.out == Out(w, from, col) && cursor in s.at && s.at[cursor] == |Out(v, from, col)|
             && (next in s.at ==> s.at[next] == |s.out|)
    ensures Evicted(w, oldest).Valid()
    ensures var page := Read(Evicted(w, oldest), v.cursorSeq, v.cursorCol, None, max);
            var cursor, next := W.Cursor(v.cursorSeq, v.cursorCol, issue),
              W.Cursor(page.nextSeq, page.nextCol, nextIssue);
            && !page.truncated && (page.nextSeq, page.nextCol) == (w.cursorSeq, w.cursorCol)
            && (Out(v, from, col) <= s.out && W.AnswerOk(s, cursor, |s.out|, next, page.truncated)
                && page.text == s.out[s.at[cursor]..]
                <==> Resumes(v, w, from, col, oldest))
  {
    hide Out, Reply, Resumes, Read, FullText;
    EvictedValid(w, oldest);
    ReplyRead(v, w, oldest, max);
    ResumedReadExact(v, w, from, col, oldest);
    var a, b, out := Out(v, from, col), Reply(v, w, oldest), Out(w, from, col);
    assert a + b == out <==> a <= out && b == out[|a|..];
  }

  lemma ReplyRead(v: View, w: View, oldest: nat, max: nat)
    requires w.Valid() && w.cols > 0 && w.screen > 0 && w.oldest <= oldest <= w.rotated
             && Bytes(Reply(v, w, oldest)) <= max
    ensures Evicted(w, oldest).Valid()
    ensures var page := Read(Evicted(w, oldest), v.cursorSeq, v.cursorCol, None, max);
            page.text == Reply(v, w, oldest) && !page.truncated
              && (page.nextSeq, page.nextCol) == (w.cursorSeq, w.cursorCol)
  {
    hide Join, Pieces, Bytes, Fitting;
    EvictedValid(w, oldest);
    UnbudgetedRead(Evicted(w, oldest), v.cursorSeq, v.cursorCol, None, max);
  }

  /** A session of reads, each resumed at the cursor the one before it left. */
  predicate Session(views: seq<View>, oldests: seq<nat>, from: nat, col: nat) {
    && 0 < |views| == |oldests| && Holds(views[0], from, col)
    && forall i | 0 < i < |views| :: ReadsOn(views[i - 1], views[i], oldests[i], from, col)
  }

  predicate ReadsOn(v: View, w: View, oldest: nat, from: nat, col: nat) {
    && Continues(v, w, from, col) && w.oldest <= oldest <= w.rotated
    && Resumes(v, w, from, col, oldest)
  }

  /** The replies after the first, appended. */
  function Replies(views: seq<View>, oldests: seq<nat>, from: nat, col: nat): string
    requires Session(views, oldests, from, col)
  {
    var last := |views| - 1;
    if last == 0 then ""
    else
      assert ReadsOn(views[last - 1], views[last], oldests[last], from, col);
      Replies(views[..last], oldests[..last], from, col) + Reply(views[last - 1], views[last], oldests[last])
  }

  /** As long as every read resumes, the client has exactly the text put out. */
  lemma {:induction false} SessionReadsAll(views: seq<View>, oldests: seq<nat>, from: nat, col: nat)
    requires Session(views, oldests, from, col)
    ensures var last := views[|views| - 1];
            && Holds(last, from, col)
            && Out(views[0], from, col) + Replies(views, oldests, from, col) == Out(last, from, col)
  {
    hide Out, Reply, Resumes, Continues;
    var last := |views| - 1;
    if last == 0 {
      assert Out(views[0], from, col) + "" == Out(views[0], from, col);
    } else {
      SessionReadsAll(views[..last], oldests[..last], from, col);
      assert ReadsOn(views[last - 1], views[last], oldests[last], from, col);
      ResumedReadExact(views[last - 1], views[last], from, col, oldests[last]);
      ContinuesHolds(views[last - 1], views[last], from, col);
      assert Out(views[0], from, col) + Replies(views, oldests, from, col)
          == Out(views[0], from, col) + Replies(views[..last], oldests[..last], from, col)
            + Reply(views[last - 1], views[last], oldests[last]);
    }
  }

  lemma ContinuesHolds(v: View, w: View, from: nat, col: nat)
    requires Continues(v, w, from, col)
    ensures Holds(w, from, col)
  {
  }

  // ------------------------------------------------------------ where it fails

  /** A row that shows `s`. */
  function Line(s: string): Row { Row(seq(|s|, i requires 0 <= i < |s| => TextCell(s[i], false, "")), false) }

  lemma {:induction false} LineText(s: string, c0: nat, c1: nat)
    requires c0 <= c1 <= |s| && '\0' !in s
    ensures Text(Line(s), c0, c1) == s[c0..c1]
    decreases c1
  {
    hide CellText;
    if c0 < c1 {
      LineText(s, c0, c1 - 1);
      CellsTextNext(Line(s).cells, c0, c1 - 1);
      CharText(s[c1 - 1]);
      assert s[c0..c1] == s[c0..c1 - 1] + [s[c1 - 1]];
    }
  }

  lemma CharText(c: char)
    requires c != '\0'
    ensures CellText(TextCell(c, false, "")) == [c]
  {
  }

  /** One row on the screen, and the cursor on it. */
  function OneLine(s: string, cursorCol: nat): View { View([Line(s)], 0, 0, 1, |s|, 0, cursorCol) }

  lemma OneLineRow(s: string, cursorCol: nat)
    requires '\0' !in s && '\n' !in s && cursorCol < |s|
    ensures var v := OneLine(s, cursorCol);
            && Holds(v, 0, 0) && RowOf(v, 0) == Line(s) && !Line(s).wrapped
            && Text(Line(s), 0, v.cols) == s && Before(v, 0, 0) == s[..cursorCol] && Past(v) == TrimEnd(s[cursorCol..])
  {
    hide Text, TrimEnd;
    LineText(s, 0, |s|);
    LineText(s, 0, cursorCol);
    LineText(s, cursorCol, |s|);
    assert s[0..|s|] == s && s[0..cursorCol] == s[..cursorCol] && s[cursorCol..|s|] == s[cursorCol..];
  }

  /** A blank printed before the cursor is trimmed from the read.  When `more` is printed
      next, it is lost: the row says `shown + more`, the two reads say less. */
  lemma BlankIsLost(shown: string, more: string, unwritten: string)
    requires shown != "" && IsWhitespace(shown[|shown| - 1]) && more != "" && !IsWhitespace(more[|more| - 1])
    requires |unwritten| == |more| && TrimEnd(unwritten) == ""
    requires '\0' !in shown + more + unwritten && '\n' !in shown + more + unwritten
    ensures var v, w := OneLine(shown + unwritten, |shown|), OneLine(shown + more, |shown|);
            && Continues(v, w, 0, 0) && !Resumes(v, w, 0, 0, 0)
            && Out(v, 0, 0) + Reply(v, w, 0) != Out(w, 0, 0)
  {
    hide TrimEnd, Line, RowOf, Text, Out, Reply;
    var v, w := OneLine(shown + unwritten, |shown|), OneLine(shown + more, |shown|);
    OneLineRow(shown + unwritten, |shown|);
    OneLineRow(shown + more, |shown|);
    SameStart(shown, unwritten, more);
    TrimLast(shown);
    Dark(more);
    assert (shown + unwritten)[|shown|..] == unwritten && (shown + more)[|shown|..] == more;
    AddedText(v, w, shown + more);
    ResumedReadExact(v, w, 0, 0, 0);
  }

  lemma SameStart(a: string, b: string, c: string)
    ensures Line(a + b).cells[..|a|] == Line(a + c).cells[..|a|]
    ensures (a + b)[..|a|] == a == (a + c)[..|a|]
  {
  }

  lemma AddedText(v: View, w: View, s: string)
    requires v.cursorSeq == 0 && v.cursorCol < |s| && '\0' !in s && w == OneLine(s, v.cursorCol)
    ensures Added(v, w) == (TrimEnd(s[v.cursorCol..]), false)
  {
    hide Text, TrimEnd;
    LineText(s, v.cursorCol, |s|);
    assert s[v.cursorCol..|s|] == s[v.cursorCol..];
  }

  /** Text without the cell the emulator leaves empty, ending in something to see. */
  predicate IsDark(s: string) { s != "" && !IsWhitespace(s[|s| - 1]) && '\0' !in s && '\n' !in s }

  lemma LineReads(s: string)
    requires IsDark(s)
    ensures Rendered(Line(s), 0, |s| - 1) == (s, false)
  {
    hide Text, TrimEnd;
    LineText(s, 0, |s|);
    RenderedIs(Line(s), 0, 0);
    NoText(Line(s), 0);
    Dark(s);
    assert s[0..|s|] == s && "" + s == s;
  }

  lemma TrimLast(s: string)
    requires s != "" && IsWhitespace(s[|s| - 1])
    ensures !Trimmed(s)
  {
    TrimShorter(s[..|s| - 1]);
  }

  lemma Dark(s: string)
    requires s != "" && !IsWhitespace(s[|s| - 1])
    ensures TrimEnd(s) == s
  {
  }

  /** With a wrap pending on a full row the cursor stays on the last column, whose
      character is read twice. */
  lemma PendingWrapIsRepeated(s: string)
    requires s != "" && !IsWhitespace(s[|s| - 1]) && '\0' !in s && '\n' !in s
    ensures var v := OneLine(s, |s| - 1);
            && Continues(v, v, 0, 0) && !Resumes(v, v, 0, 0, 0)
            && Out(v, 0, 0) + Reply(v, v, 0) != Out(v, 0, 0)
  {
    hide TrimEnd, Line, RowOf, Text, Out, Reply;
    var v := OneLine(s, |s| - 1);
    OneLineRow(s, |s| - 1);
    Dark(s[|s| - 1..]);
    ResumedReadExact(v, v, 0, 0, 0);
  }

  /** Rows that fall off unread are skipped: of three lines the client, having read the
      first, is given the third. */
  lemma EvictedRowsAreSkipped(a: string, b: string, c: string)
    requires |a| == |b| == |c| > 0 && IsWhitespace(a[|a| - 1]) && '\0' !in a && '\n' !in a
    ensures var n := |a|;
            var v, w := OneLine(a, n - 1), View([Line(a), Line(b), Line(c)], 0, 2, 1, n, 2, n - 1);
            && Continues(v, w, 0, 0) && !Resumes(v, w, 0, 0, 2)
            && Out(v, 0, 0) + Reply(v, w, 2) != Out(w, 0, 0)
  {
    hide TrimEnd, Rest, Join, Text, Out, Reply, Lost, Added;
    var n := |a|;
    var v, w := OneLine(a, n - 1), View([Line(a), Line(b), Line(c)], 0, 2, 1, n, 2, n - 1);
    OneLineRow(a, n - 1);
    assert RowOf(w, 0) == Line(a);
    LostIs(v, w, 2);
    BreaksAfter(w, 0, 2);
    TrimOne(a[n - 1..]);
    ResumedReadExact(v, w, 0, 0, 2);
  }

  lemma TrimOne(s: string)
    requires |s| == 1 && IsWhitespace(s[0])
    ensures TrimEnd(s) == ""
  {
  }
}
