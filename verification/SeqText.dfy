/** Reading the grid as text: by sequence number with a byte budget (`seq_text`),
    and by distance from the bottom (`get_text_range`). */
module SeqText {
  import opened Common
  import opened Grid
  import opened Scrollback
  import opened Strings

  /** A rendered row and whether it soft-wraps into the next. */
  type Piece = (string, bool)

  /** A sequence-addressed read, and the cursor to resume from. */
  datatype SeqText = SeqText(
    text: string, startSeq: nat, startCol: nat, nextSeq: nat, nextCol: nat, truncated: bool, evicted: bool)

  /** A settled grid as the two readers see it. */
  datatype View = View(
    rows: seq<Row>, oldest: nat, rotated: nat, screen: nat, cols: nat, cursorSeq: nat, cursorCol: nat)
  {
    predicate Valid() {
      && oldest <= rotated
      && |rows| == rotated - oldest + screen
      && forall i | 0 <= i < |rows| :: |rows[i].cells| == cols
    }
  }

  predicate Readable(d: Driver) {
    d.term.Valid() && |d.term.Current().history| <= d.rotated
  }

  function ViewOf(d: Driver, cols: nat): View
    requires Readable(d)
  {
    var g := d.term.Current();
    View(g.Rows(), d.rotated - |g.history|, d.rotated, |g.screen|, cols, CursorSeqOf(d).0, CursorSeqOf(d).1)
  }

  // ------------------------------------------------------------ rows

  function CellText(cell: TextCell): string {
    if cell.spacer then "" else [if cell.c == '\0' then ' ' else cell.c] + cell.zerowidth
  }

  function CellsText(cells: seq<TextCell>): string {
    if cells == [] then "" else CellsText(cells[..|cells| - 1]) + CellText(cells[|cells| - 1])
  }

  /** Columns `c0..=c1` of a row; only a soft-wrapped row keeps its trailing space. */
  function Rendered(row: Row, c0: nat, c1: nat): Piece
    requires c0 < |row.cells| && c1 < |row.cells|
  {
    var text := if c0 <= c1 then CellsText(row.cells[c0..c1 + 1]) else "";
    (if row.wrapped then text else TrimEnd(text), row.wrapped)
  }

  method RowText(row: Row, c0: nat, c1: nat) returns (text: string, wrapped: bool)
    requires c0 < |row.cells| && c1 < |row.cells|
    ensures (text, wrapped) == Rendered(row, c0, c1)
  {
    hide TrimEnd, CellsText, CellText;
    text := "";
    if c0 <= c1 {
      CellsTextNil(row.cells[c0..c0]);
      for col := c0 to c1 + 1
        invariant text == CellsText(row.cells[c0..col])
      {
        text := PushCell(text, row.cells[col]);
        CellsTextNext(row.cells, c0, col);
      }
    }
    wrapped := row.wrapped;
    if !wrapped { text := TrimEnd(text); }
  }

  lemma CellsTextNil(cells: seq<TextCell>)
    requires cells == []
    ensures CellsText(cells) == ""
  {
  }

  lemma CellsTextNext(cells: seq<TextCell>, c0: nat, col: nat)
    requires c0 <= col < |cells|
    ensures CellsText(cells[c0..col + 1]) == CellsText(cells[c0..col]) + CellText(cells[col])
  {
    hide CellText;
    var next := cells[c0..col + 1];
    assert next[..|next| - 1] == cells[c0..col];
  }

  method PushCell(text: string, cell: TextCell) returns (r: string)
    ensures r == text + CellText(cell)
  {
    r := text;
    if cell.spacer { return; }
    var c := if cell.c == '\0' then ' ' else cell.c;
    r := r + [c];
    for k := 0 to |cell.zerowidth|
      invariant r == text + ([c] + cell.zerowidth[..k])
    {
      r := r + [cell.zerowidth[k]];
    }
  }

  // ------------------------------------------------------------ joining

  function Sep(p: Piece): string { if p.1 then "" else "\n" }

  /** Rows joined with a newline wherever the previous one did not wrap. */
  function Join(ps: seq<Piece>): string {
    if |ps| == 0 then ""
    else if |ps| == 1 then ps[0].0
    else Join(ps[..|ps| - 1]) + Sep(ps[|ps| - 2]) + ps[|ps| - 1].0
  }

  lemma {:induction false} JoinConcat(a: seq<Piece>, b: seq<Piece>)
    requires a != [] && b != []
    ensures Join(a + b) == Join(a) + Sep(a[|a| - 1]) + Join(b)
  {
    var front, last := b[..|b| - 1], b[|b| - 1];
    assert (a + b)[..|a + b| - 1] == a + front;
    if |b| == 1 {
      assert a + front == a;
    } else {
      JoinConcat(a, front);
      var sep := Sep(b[|b| - 2]);
      assert Join(a + b) == Join(a + front) + sep + last.0;
      assert Join(b) == Join(front) + sep + last.0;
      assert Join(a) + Sep(a[|a| - 1]) + Join(front) + sep + last.0 ==
             Join(a) + Sep(a[|a| - 1]) + (Join(front) + sep + last.0);
    }
  }

  /** Bytes of the first `k` rows, joined. */
  function Size(ps: seq<Piece>, k: nat): nat
    requires k <= |ps|
  {
    Bytes(Join(ps[..k]))
  }

  lemma JoinNext(ps: seq<Piece>, k: nat)
    requires 0 < k < |ps|
    ensures Join(ps[..k + 1]) == Join(ps[..k]) + Sep(ps[k - 1]) + ps[k].0
    ensures Size(ps, k + 1) == Size(ps, k) + (if ps[k - 1].1 then 0 else 1) + Bytes(ps[k].0)
  {
    var a, b, c := Join(ps[..k]), Sep(ps[k - 1]), ps[k].0;
    assert ps[..k + 1][..k] == ps[..k];
    BytesConcat(a + b, c);
    BytesConcat(a, b);
    assert Bytes("\n") == CharLen('\n') == 1 by { assert "\n"[..0] == ""; }
  }

  // ------------------------------------------------------------ seq_text

  /** Row `s` of a view, from column `col`. */
  function PieceAt(v: View, s: int, col: nat): Piece
    requires v.Valid() && v.cols > 0 && v.oldest <= s < v.rotated + v.screen
  {
    Rendered(v.rows[s - v.oldest], Min(col, v.cols - 1), v.cols - 1)
  }

  /** Rows `from..stop` of a view, the first of them from column `col`. */
  function Pieces(v: View, from: int, col: nat, stop: int): (ps: seq<Piece>)
    requires v.Valid() && v.cols > 0 && v.oldest <= from <= stop <= v.rotated + v.screen
    ensures |ps| == stop - from
  {
    seq(stop - from, i requires 0 <= i < stop - from => PieceAt(v, from + i, if i == 0 then col else 0))
  }

  /** How many of the rows fit: always the first, then as many as the budget holds. */
  function Fitting(ps: seq<Piece>, max: nat, k: nat): (m: nat)
    requires 1 <= k <= |ps|
    ensures k <= m <= |ps|
    decreases |ps| - k
  {
    if k < |ps| && Size(ps, k + 1) <= max then Fitting(ps, max, k + 1) else k
  }

  /** The rows that fit are the longest non-empty prefix within the budget. */
  lemma {:induction false} FittingIsLongest(ps: seq<Piece>, max: nat, k: nat)
    requires 1 <= k <= |ps|
    ensures forall j | k < j <= Fitting(ps, max, k) :: Size(ps, j) <= max
    ensures Fitting(ps, max, k) < |ps| ==> Size(ps, Fitting(ps, max, k) + 1) > max
    decreases |ps| - k
  {
    hide Size;
    if k < |ps| && Size(ps, k + 1) <= max {
      FittingIsLongest(ps, max, k + 1);
    }
  }

  /** First row of the read, after clamping to what the scrollback still holds. */
  function Start(v: View, from: nat): nat { Max(from, v.oldest) }

  function StartCol(v: View, from: nat, col: nat): nat { if from < v.oldest then 0 else col }

  /** One past the last row of the read. */
  function Stop(v: View, end: Option<nat>): nat
    requires v.screen > 0
  {
    var last := v.rotated + v.screen - 1;
    1 + match end
        case Some(e) => Min(Saturating(e - 1), last)
        case None => Min(v.cursorSeq, last)
  }

  function Done(v: View, end: Option<nat>): (nat, nat) {
    match end
    case Some(e) => (Min(e, v.rotated + v.screen), 0)
    case None => (v.cursorSeq, v.cursorCol)
  }

  /** The read as a whole. */
  function Read(v: View, from: nat, col: nat, end: Option<nat>, max: nat): SeqText
    requires v.Valid()
  {
    var start, startCol, done, evicted := Start(v, from), StartCol(v, from, col), Done(v, end), from < v.oldest;
    if v.screen == 0 || v.cols == 0 then SeqText("", from, col, v.cursorSeq, v.cursorCol, false, false)
    else if start >= Stop(v, end) then SeqText("", start, startCol, done.0, done.1, false, evicted)
    else
      var ps := Pieces(v, start, startCol, Stop(v, end));
      Taken(ps, Fitting(ps, max, 1), SeqText("", start, startCol, done.0, done.1, false, evicted))
  }

  /** `page` with the first `m` rows; the rest, if any, starts the next page. */
  function Taken(ps: seq<Piece>, m: nat, page: SeqText): SeqText
    requires m <= |ps|
  {
    if m < |ps| then page.(text := Join(ps[..m]), nextSeq := page.startSeq + m, nextCol := 0, truncated := true)
    else page.(text := Join(ps))
  }

  method ReadSeqText(driver: TerminalDriver, cols: nat, fromSeq: nat, fromCol: nat, endSeq: Option<nat>, maxBytes: nat)
    returns (out: SeqText)
    requires Readable(driver.State()) && ViewOf(driver.State(), cols).Valid()
    ensures out == Read(ViewOf(driver.State(), cols), fromSeq, fromCol, endSeq, maxBytes)
  {
    hide Names, RowAt, Join, Bytes, Rendered, Fitting, Pieces, Taken, PieceAt;
    var g := driver.term.Current();
    var screen := |g.screen|;
    var cursorSeq, cursorCol := driver.CursorSeq();
    var oldest := driver.OldestSeq();
    ghost var v := ViewOf(driver.State(), cols);
    assert v.cursorSeq == cursorSeq && v.cursorCol == cursorCol && v.oldest == oldest;
    assert v.rotated == driver.rotatedLines && v.screen == screen && v.cols == cols;
    hide ViewOf, CursorSeqOf, OldestSeqOf, Readable;
    out := SeqText("", fromSeq, fromCol, cursorSeq, cursorCol, false, false);
    if screen == 0 || cols == 0 { return; }

    var lastSeq := driver.rotatedLines + screen - 1;
    var endInclusive := match endSeq
      case Some(end) => Min(Saturating(end - 1), lastSeq)
      case None => Min(cursorSeq, lastSeq);
    var done := match endSeq case Some(end) => (Min(end, lastSeq + 1), 0) case None => (cursorSeq, cursorCol);
    out := out.(nextSeq := done.0, nextCol := done.1);

    var seqNo := fromSeq;
    if seqNo < oldest {
      seqNo := oldest;
      out := out.(startCol := 0, evicted := true);
    }
    out := out.(startSeq := seqNo);
    if seqNo > endInclusive { return; }

    out := ReadRows(driver, cols, out, endInclusive, maxBytes);
  }

  /** The row loop: it fills `page`, which already says where the read starts and,
      should everything fit, where it ends. */
  method ReadRows(driver: TerminalDriver, cols: nat, page: SeqText, endInclusive: nat, maxBytes: nat)
    returns (out: SeqText)
    requires Readable(driver.State()) && ViewOf(driver.State(), cols).Valid() && cols > 0
    requires page.text == "" && !page.truncated
    requires var v := ViewOf(driver.State(), cols); v.oldest <= page.startSeq <= endInclusive < v.rotated + v.screen
    ensures var ps := Pieces(ViewOf(driver.State(), cols), page.startSeq, page.startCol, endInclusive + 1);
            out == Taken(ps, Fitting(ps, maxBytes, 1), page)
  {
    hide Join, Bytes, Rendered, Fitting, Pieces;
    ghost var v := ViewOf(driver.State(), cols);
    var g := driver.term.Current();
    out := page;
    var seqNo, prevWrapped, first := page.startSeq, false, true;
    ghost var ps := Pieces(v, page.startSeq, page.startCol, endInclusive + 1);
    JoinOne(ps);
    while seqNo <= endInclusive
      invariant page.startSeq <= seqNo <= endInclusive + 1
      invariant first <==> seqNo == page.startSeq
      invariant out == page.(text := Join(ps[..seqNo - page.startSeq]))
      invariant !first ==> prevWrapped == ps[seqNo - page.startSeq - 1].1
      invariant !first ==> Fitting(ps, maxBytes, 1) == Fitting(ps, maxBytes, seqNo - page.startSeq)
      decreases endInclusive - seqNo
    {
      ghost var k := seqNo - page.startSeq;
      var line := (seqNo as int) - driver.rotatedLines;
      var c0 := if seqNo == out.startSeq then Min(out.startCol, cols - 1) else 0;
      var row, wrapped := RowText(g.Rows()[|g.history| + line], c0, cols - 1);
      PiecesAt(v, page.startSeq, page.startCol, endInclusive + 1, k);
      assert (row, wrapped) == ps[k];
      var sep := if !first && !prevWrapped then 1 else 0;
      if !first {
        JoinNext(ps, k);
        FittingStep(ps, maxBytes, k);
      }
      if !first && Bytes(out.text) + sep + Bytes(row) > maxBytes {
        out := out.(truncated := true, nextSeq := seqNo, nextCol := 0);
        return;
      }
      if sep == 1 { out := out.(text := out.text + "\n"); }
      out := out.(text := out.text + row);
      prevWrapped := wrapped;
      first := false;
      seqNo := seqNo + 1;
    }
    assert ps[..seqNo - page.startSeq] == ps;
    FittingStep(ps, maxBytes, |ps|);
  }

  lemma PiecesAt(v: View, from: nat, col: nat, stop: nat, k: nat)
    requires v.Valid() && v.cols > 0 && v.oldest <= from <= stop <= v.rotated + v.screen && k < stop - from
    ensures Pieces(v, from, col, stop)[k] == PieceAt(v, from + k, if k == 0 then col else 0)
  {
    hide Rendered;
  }

  lemma JoinOne(ps: seq<Piece>)
    requires ps != []
    ensures Join(ps[..0]) == "" && Join(ps[..1]) == ps[0].0
  {
  }

  lemma FittingStep(ps: seq<Piece>, max: nat, k: nat)
    requires 1 <= k <= |ps|
    ensures Fitting(ps, max, k) == if k < |ps| && Size(ps, k + 1) <= max then Fitting(ps, max, k + 1) else k
  {
    hide Size;
  }

  // ------------------------------------------------------------ get_text_range

  /** Grid line `line` of a selection: only its first and last lines are cut. */
  function LinePiece(row: Row, cols: nat, line: int, startLine: int, startCol: nat, endLine: int, endCol: nat): Piece
    requires cols > 0 && |row.cells| == cols
  {
    Rendered(row, if line == startLine then Min(startCol, cols - 1) else 0,
             if line == endLine then Min(endCol, cols - 1) else cols - 1)
  }

  /** Grid lines `lo..=hi` of a selection; line `l` is row `history + l`. */
  function LinePieces(rows: seq<Row>, history: nat, cols: nat, lo: int, hi: int, startLine: int, startCol: nat,
                      endLine: int, endCol: nat): (ps: seq<Piece>)
    requires cols > 0 && 0 <= history + lo && lo <= hi < |rows| - history
    requires forall i | 0 <= i < |rows| :: |rows[i].cells| == cols
    ensures |ps| == hi + 1 - lo
  {
    seq(hi + 1 - lo, i requires 0 <= i < hi + 1 - lo =>
      LinePiece(rows[history + lo + i], cols, lo + i, startLine, startCol, endLine, endCol))
  }

  /** The rows between two distances from the bottom, as the selection copies them. */
  function RangeRead(v: View, startTail: nat, startCol: nat, endTail: nat, endCol: nat): string
    requires v.Valid() && v.cols > 0
  {
    var history := v.rotated - v.oldest;
    var startLine, endLine := v.screen - 1 - startTail, v.screen - 1 - endTail;
    var lo, hi := Max(startLine, -history), Min(endLine, v.screen - 1);
    if lo > hi then "" else Join(LinePieces(v.rows, history, v.cols, lo, hi, startLine, startCol, endLine, endCol))
  }

  method GetTextRange(driver: TerminalDriver, cols: nat, startTail: nat, startCol: nat, endTail: nat, endCol: nat)
    returns (result: string)
    requires Readable(driver.State()) && ViewOf(driver.State(), cols).Valid() && cols > 0
    ensures result == RangeRead(ViewOf(driver.State(), cols), startTail, startCol, endTail, endCol)
  {
    hide Join, LinePieces;
    var g := driver.term.Current();
    var history, screen := |g.history|, |g.screen|;
    var lastLine := screen - 1;
    var startLine := lastLine - startTail;
    var endLine := lastLine - endTail;
    var line := Max(startLine, -(history as int));
    var end := Min(endLine, lastLine);
    result := "";
    if line <= end {
      result := CopyLines(g.Rows(), history, cols, line, end, startLine, startCol, endLine, endCol);
    }
  }

  /** The line loop of the selection. */
  lemma LinePiecesAt(rows: seq<Row>, history: nat, cols: nat, lo: int, hi: int, startLine: int, startCol: nat,
                     endLine: int, endCol: nat, k: nat)
    requires cols > 0 && 0 <= history + lo && lo <= hi < |rows| - history && k <= hi - lo
    requires forall i | 0 <= i < |rows| :: |rows[i].cells| == cols
    ensures var line := lo + k;
            LinePieces(rows, history, cols, lo, hi, startLine, startCol, endLine, endCol)[k] ==
            Rendered(rows[history + line], if line == startLine then Min(startCol, cols - 1) else 0,
                     if line == endLine then Min(endCol, cols - 1) else cols - 1)
  {
    hide Rendered;
    assert LinePieces(rows, history, cols, lo, hi, startLine, startCol, endLine, endCol)[k] ==
           LinePiece(rows[history + lo + k], cols, lo + k, startLine, startCol, endLine, endCol);
  }

  lemma SepOf(p: Piece)
    ensures Sep(p) == if p.1 then "" else "\n"
  {
  }

  method CopyLines(rows: seq<Row>, history: nat, cols: nat, lo: int, hi: int, startLine: int, startCol: nat,
                   endLine: int, endCol: nat)
    returns (result: string)
    requires cols > 0 && 0 <= history + lo && lo <= hi < |rows| - history
    requires forall i | 0 <= i < |rows| :: |rows[i].cells| == cols
    ensures result == Join(LinePieces(rows, history, cols, lo, hi, startLine, startCol, endLine, endCol))
  {
    hide Join, Rendered, Bytes, Size, LinePieces, LinePiece, Sep;
    ghost var ps := LinePieces(rows, history, cols, lo, hi, startLine, startCol, endLine, endCol);
    result := "";
    var line := lo;
    JoinOne(ps);
    while line <= hi
      invariant lo <= line <= hi + 1
      invariant result == Join(ps[..line - lo]) + (if lo < line <= hi then Sep(ps[line - lo - 1]) else "")
      decreases hi - line
    {
      var c0 := if line == startLine then Min(startCol, cols - 1) else 0;
      var c1 := if line == endLine then Min(endCol, cols - 1) else cols - 1;
      var text, wrapped := RowText(rows[history + line], c0, c1);
      LinePiecesAt(rows, history, cols, lo, hi, startLine, startCol, endLine, endCol, line - lo);
      assert (text, wrapped) == ps[line - lo];
      if line > lo { JoinNext(ps, line - lo); }
      result := result + text;
      assert result == Join(ps[..line - lo + 1]);
      SepOf(ps[line - lo]);
      if line < hi && !wrapped { result := result + "\n"; }
      line := line + 1;
    }
    assert ps[..line - lo] == ps;
  }

  /** Reading retained rows by sequence number, with no binding budget, and reading
      the same rows by distance from the bottom give the same text. */
  lemma SeqReadIsTailRead(v: View, from: nat, col: nat, end: nat, endCol: nat, max: nat)
    requires v.Valid() && v.screen > 0 && v.cols > 0 && v.oldest <= from < end <= v.rotated + v.screen
    requires endCol >= v.cols - 1
    requires Bytes(Join(Pieces(v, from, col, end))) <= max
    ensures var bottom := v.rotated + v.screen - 1;
            Read(v, from, col, Some(end), max).text == RangeRead(v, bottom - from, col, bottom - (end - 1), endCol)
  {
    hide Join, Bytes, Rendered, Fitting;
    var ps := Pieces(v, from, col, end);
    FullBudget(ps, max, 1);
    var first, last := (from as int) - v.rotated, end - 1 - v.rotated;
    var qs := LinePieces(v.rows, v.rotated - v.oldest, v.cols, first, last, first, col, last, endCol);
    forall i | 0 <= i < |ps| ensures ps[i] == qs[i] {
      assert ps[i] == PieceAt(v, from + i, if i == 0 then col else 0);
      assert qs[i] == LinePiece(v.rows[from - v.oldest + i], v.cols, first + i, first, col, last, endCol);
    }
    assert ps == qs;
  }

  lemma {:induction false} FullBudget(ps: seq<Piece>, max: nat, k: nat)
    requires 1 <= k <= |ps| && Bytes(Join(ps)) <= max
    ensures Fitting(ps, max, k) == |ps|
    decreases |ps| - k
  {
    hide Join, Bytes;
    FittingStep(ps, max, k);
    if k < |ps| {
      SizeGrows(ps, k + 1);
      FullBudget(ps, max, k + 1);
    }
  }

  lemma {:induction false} SizeGrows(ps: seq<Piece>, k: nat)
    requires 1 <= k <= |ps|
    ensures Size(ps, k) <= Bytes(Join(ps))
    decreases |ps| - k
  {
    hide Join, Bytes;
    if k < |ps| {
      JoinNext(ps, k);
      SizeGrows(ps, k + 1);
    } else {
      assert ps[..k] == ps;
    }
  }

  // ------------------------------------------------------------ paging

  lemma ReadProgress(v: View, from: nat, col: nat, end: Option<nat>, max: nat)
    requires v.Valid() && Read(v, from, col, end, max).truncated
    ensures v.screen > 0 && v.cols > 0 && Start(v, from) < Stop(v, end)
    ensures from <= Start(v, from) < Read(v, from, col, end, max).nextSeq < Stop(v, end)
    ensures Read(v, from, col, end, max).nextCol == 0
  {
    hide Join, Bytes, Rendered;
  }

  /** The pages a client sees when it keeps asking from `next_seq`/`next_col`. */
  function Pages(v: View, from: nat, col: nat, end: Option<nat>, max: nat): (pages: seq<SeqText>)
    requires v.Valid()
    ensures pages != []
    decreases if v.screen == 0 then 0 else Saturating(Stop(v, end) - from)
  {
    hide Read;
    var page := Read(v, from, col, end, max);
    if page.truncated then
      ReadProgress(v, from, col, end, max);
      [page] + Pages(v, page.nextSeq, page.nextCol, end, max)
    else [page]
  }

  /** The unbudgeted text of the requested rows. */
  function FullText(v: View, from: nat, col: nat, end: Option<nat>): string
    requires v.Valid()
  {
    if v.screen == 0 || v.cols == 0 || Start(v, from) >= Stop(v, end) then ""
    else Join(Pieces(v, Start(v, from), StartCol(v, from, col), Stop(v, end)))
  }

  /** The last row of a truncated page soft-wraps into the first row of the next. */
  predicate BreakWraps(v: View, page: SeqText)
    requires v.Valid()
  {
    v.oldest < page.nextSeq <= v.rotated + v.screen && v.rows[page.nextSeq - 1 - v.oldest].wrapped
  }

  /** Page texts joined with one newline wherever a page ends on a hard row end. */
  function Joined(v: View, pages: seq<SeqText>): string
    requires v.Valid()
  {
    if pages == [] then ""
    else if |pages| == 1 then pages[0].text
    else pages[0].text + (if BreakWraps(v, pages[0]) then "" else "\n") + Joined(v, pages[1..])
  }

  /** Page texts as a client that just appends them sees them. */
  function Appended(pages: seq<SeqText>): string {
    if pages == [] then "" else pages[0].text + Appended(pages[1..])
  }

  /** The rows of a read that starts on a retained row split at any point. */
  lemma PiecesSplit(v: View, from: nat, col: nat, mid: nat, stop: nat)
    requires v.Valid() && v.cols > 0 && v.oldest <= from < mid < stop <= v.rotated + v.screen
    ensures Pieces(v, from, col, mid) + Pieces(v, mid, 0, stop) == Pieces(v, from, col, stop)
  {
  }

  /** One past the last row of a page. */
  function UpTo(v: View, page: SeqText, end: Option<nat>): nat
    requires v.screen > 0
  {
    if page.truncated then page.nextSeq else Stop(v, end)
  }

  /** The page is the text of rows `startSeq..UpTo`, and stays within the larger of
      the budget and its first row. */
  predicate PageOk(v: View, page: SeqText, end: Option<nat>, max: nat)
    requires v.Valid() && v.screen > 0 && v.cols > 0
  {
    && v.oldest <= page.startSeq < UpTo(v, page, end) <= v.rotated + v.screen
    && page.text == Join(Pieces(v, page.startSeq, page.startCol, UpTo(v, page, end)))
    && Bytes(page.text) <= Max(max, Bytes(PieceAt(v, page.startSeq, page.startCol).0))
  }

  lemma PageText(v: View, from: nat, col: nat, end: Option<nat>, max: nat)
    requires v.Valid() && v.screen > 0 && v.cols > 0 && Start(v, from) < Stop(v, end)
    ensures var page := Read(v, from, col, end, max);
            && PageOk(v, page, end, max)
            && page.startSeq == Start(v, from) && page.startCol == StartCol(v, from, col)
            && (page.truncated ==> page.nextSeq < Stop(v, end) && page.nextCol == 0)
  {
    hide Join, Bytes, Rendered, Fitting;
    var start, startCol := Start(v, from), StartCol(v, from, col);
    var ps := Pieces(v, start, startCol, Stop(v, end));
    var m := Fitting(ps, max, 1);
    assert Pieces(v, start, startCol, start + m) == ps[..m];
    assert ps[..|ps|] == ps;
    JoinOne(ps);
    FittingIsLongest(ps, max, 1);
    assert m == 1 || Size(ps, m) <= max;
    assert ps[0] == PieceAt(v, start, startCol);
  }

  /** Paging loses and repeats nothing: the pages cover consecutive, non-empty row
      ranges from the first requested row to the last, each within its budget. */
  lemma {:induction false} PagesPartition(v: View, from: nat, col: nat, end: Option<nat>, max: nat)
    requires v.Valid() && v.screen > 0 && v.cols > 0 && Start(v, from) < Stop(v, end)
    ensures var pages := Pages(v, from, col, end, max);
            && pages[0].startSeq == Start(v, from) && pages[0].startCol == StartCol(v, from, col)
            && (forall i | 0 <= i < |pages| :: pages[i].truncated <==> i < |pages| - 1)
            && (forall i | 0 < i < |pages| :: pages[i].startSeq == pages[i - 1].nextSeq && pages[i].startCol == 0)
            && (forall i | 0 <= i < |pages| :: PageOk(v, pages[i], end, max))
    decreases Stop(v, end) - from
  {
    hide Read, PageOk;
    var page := Read(v, from, col, end, max);
    PageText(v, from, col, end, max);
    if page.truncated {
      ReadProgress(v, from, col, end, max);
      PagesPartition(v, page.nextSeq, 0, end, max);
      var rest := Pages(v, page.nextSeq, 0, end, max);
      var pages := Pages(v, from, col, end, max);
      assert pages == [page] + rest;
      forall i | 0 < i < |pages| ensures pages[i].startSeq == pages[i - 1].nextSeq && pages[i].startCol == 0 {
        assert pages[i] == rest[i - 1];
        assert i > 1 ==> pages[i - 1] == rest[i - 2];
      }
    }
  }

  /** The pages, joined at hard row ends, are the unbudgeted read. */
  lemma {:induction false} PagesJoinToFullText(v: View, from: nat, col: nat, end: Option<nat>, max: nat)
    requires v.Valid()
    ensures Joined(v, Pages(v, from, col, end, max)) == FullText(v, from, col, end)
    decreases if v.screen == 0 then 0 else Saturating(Stop(v, end) - from)
  {
    hide Read, Join, Bytes, Pieces, Rendered, FullText, Joined, BreakWraps;
    var page := Read(v, from, col, end, max);
    if !page.truncated {
      WholeRead(v, from, col, end, max);
      JoinedOne(v, page);
    } else {
      ReadProgress(v, from, col, end, max);
      PagesJoinToFullText(v, page.nextSeq, 0, end, max);
      JoinedCons(v, page, Pages(v, page.nextSeq, 0, end, max));
      FullTextSplit(v, from, col, end, max);
    }
  }

  lemma FullTextSplit(v: View, from: nat, col: nat, end: Option<nat>, max: nat)
    requires v.Valid() && Read(v, from, col, end, max).truncated
    ensures var page := Read(v, from, col, end, max);
            FullText(v, from, col, end) ==
              page.text + (if BreakWraps(v, page) then "" else "\n") + FullText(v, page.nextSeq, 0, end)
  {
    hide Read, Join, Bytes, Rendered, Pieces;
    var page := Read(v, from, col, end, max);
    ReadProgress(v, from, col, end, max);
    var start, mid, stop := Start(v, from), page.nextSeq, Stop(v, end);
    PageText(v, from, col, end, max);
    var a, b := Pieces(v, start, page.startCol, mid), Pieces(v, mid, 0, stop);
    PiecesSplit(v, start, page.startCol, mid, stop);
    JoinConcat(a, b);
    LastPieceWraps(v, start, page.startCol, mid);
  }

  lemma JoinedOne(v: View, page: SeqText)
    requires v.Valid()
    ensures Joined(v, [page]) == page.text
  {
  }

  lemma WholeRead(v: View, from: nat, col: nat, end: Option<nat>, max: nat)
    requires v.Valid() && !Read(v, from, col, end, max).truncated
    ensures Read(v, from, col, end, max).text == FullText(v, from, col, end)
  {
    hide Join, Pieces, Fitting;
  }

  lemma LastPieceWraps(v: View, from: nat, col: nat, mid: nat)
    requires v.Valid() && v.cols > 0 && v.oldest <= from < mid <= v.rotated + v.screen
    ensures Pieces(v, from, col, mid)[mid - from - 1].1 == v.rows[mid - 1 - v.oldest].wrapped
  {
    hide CellsText, TrimEnd;
    assert Pieces(v, from, col, mid)[mid - from - 1] == PieceAt(v, mid - 1, if mid - from == 1 then col else 0);
  }

  lemma JoinedCons(v: View, page: SeqText, rest: seq<SeqText>)
    requires v.Valid() && rest != []
    ensures Joined(v, [page] + rest) == page.text + (if BreakWraps(v, page) then "" else "\n") + Joined(v, rest)
  {
    assert ([page] + rest)[1..] == rest;
  }

  /** A single budgeted page is the whole text as soon as the text fits. */
  lemma UnbudgetedRead(v: View, from: nat, col: nat, end: Option<nat>, max: nat)
    requires v.Valid() && Bytes(FullText(v, from, col, end)) <= max
    ensures Read(v, from, col, end, max).text == FullText(v, from, col, end) && !Read(v, from, col, end, max).truncated
  {
    if v.screen > 0 && v.cols > 0 && Start(v, from) < Stop(v, end) {
      FullBudget(Pieces(v, Start(v, from), StartCol(v, from, col), Stop(v, end)), max, 1);
    }
  }

  lemma {:induction false} AppendedLength(v: View, pages: seq<SeqText>)
    requires v.Valid()
    ensures |Appended(pages)| <= |Joined(v, pages)|
    ensures Appended(pages) == Joined(v, pages) <==> forall i | 0 <= i < |pages| - 1 :: BreakWraps(v, pages[i])
  {
    if |pages| > 1 {
      AppendedLength(v, pages[1..]);
      var rest := pages[1..];
      assert forall i | 0 < i < |pages| - 1 :: pages[i] == rest[i - 1];
      assert forall i | 0 <= i < |rest| - 1 :: rest[i] == pages[i + 1];
      if BreakWraps(v, pages[0]) {
        assert Joined(v, pages) == pages[0].text + Joined(v, rest);
        assert Appended(pages)[|pages[0].text|..] == Appended(rest);
        assert Joined(v, pages)[|pages[0].text|..] == Joined(v, rest);
      }
    } else if |pages| == 1 {
      assert pages[0].text + Appended([]) == pages[0].text;
    }
  }

  /** A client that simply appends truncated pages, as `wait --pattern` does, gets
      exactly the appended text if and only if every page break soft-wraps. */
  lemma AppendingPagesExact(v: View, from: nat, col: nat, end: Option<nat>, max: nat)
    requires v.Valid()
    ensures var pages := Pages(v, from, col, end, max);
            Appended(pages) == FullText(v, from, col, end) <==>
              forall i | 0 <= i < |pages| - 1 :: BreakWraps(v, pages[i])
  {
    PagesJoinToFullText(v, from, col, end, max);
    AppendedLength(v, Pages(v, from, col, end, max));
  }

  // ------------------------------------------------------------ the exclusive end

  /** `s` is one of the rows a bounded read returns. */
  predicate IsRead(v: View, from: nat, end: nat, s: nat)
    requires v.screen > 0
  {
    Start(v, from) <= s < Stop(v, Some(end))
  }

  /** The rows read are those below `end`, for every request but one: an end of 0
      saturates, so reading from 0 returns row 0 as long as it is retained. */
  lemma EndIsExclusive(v: View, from: nat, end: nat)
    requires v.Valid() && v.screen > 0
    ensures (forall s: nat :: IsRead(v, from, end, s) <==> Start(v, from) <= s < Min(end, v.rotated + v.screen))
            <==> !(end == 0 && from == 0 && v.oldest == 0)
  {
    assert IsRead(v, from, end, 0) <==> Start(v, from) == 0;
  }

  // ------------------------------------------------------------ over whole runs

  /** A row that stays in the history reads back the same text before and after
      any run between two moments on the primary screen, under its old number less
      the drift of the run; that is none for exact steps. */
  lemma RunKeepsText(d: Driver, steps: seq<Step>, s: nat, cols: nat, max: nat)
    requires Inv(d) && RunOk(d, steps) && StaysInHistory(d, steps, s)
    requires var e := Run(d, steps);
             && Readable(d) && Readable(e) && !d.term.onAlt && !e.term.onAlt
             && d.term.primary.screen != [] && e.term.primary.screen != []
             && ViewOf(d, cols).Valid() && ViewOf(e, cols).Valid()
             && OldestSeqOf(d) <= s && OldestSeqOf(e) <= s - Drifts(d, steps)
    ensures var s' := s - Drifts(d, steps);
            && Read(ViewOf(Run(d, steps), cols), s', 0, Some(s' + 1), max).text ==
               Read(ViewOf(d, cols), s, 0, Some(s + 1), max).text
            && (ExactRun(d, steps) ==> s' == s)
  {
    hide Read, Rendered, Bytes, Run, RunOk, StaysInHistory, UndisturbedRun, CursorSeqOf, Drifts, ExactRun;
    var e, s' := Run(d, steps), s - Drifts(d, steps);
    HistoryRowsAreUndisturbed(d, steps, s);
    StaysAtEnd(d, steps, s);
    RunMovesNames(d, steps, s);
    if ExactRun(d, steps) {
      BaseNeverFalls(d, steps);
    }
    var v, w := ViewOf(d, cols), ViewOf(e, cols);
    assert v.rows[s - v.oldest] == w.rows[s' - w.oldest];
    SingleRow(v, s, max);
    SingleRow(w, s', max);
  }

  lemma SingleRow(v: View, s: nat, max: nat)
    requires v.Valid() && v.oldest <= s < v.rotated + v.screen && v.screen > 0
    ensures Read(v, s, 0, Some(s + 1), max).text == if v.cols == 0 then "" else PieceAt(v, s, 0).0
  {
    hide Rendered, Bytes;
  }

  lemma {:induction false} StaysAtEnd(d: Driver, steps: seq<Step>, s: int)
    requires d.term.Valid() && RunOk(d, steps) && StaysInHistory(d, steps, s)
    ensures s < Due(d) && s - Drifts(d, steps) < Due(Run(d, steps))
    decreases |steps|
  {
    hide Next, Drift, StepOk, Due;
    if steps != [] {
      StaysAtEnd(Next(d, steps[0]), steps[1..], s - Drift(d, steps[0]));
    }
  }

  /** Reading up to 0 returns row 0 for as long as it is held. */
  lemma EndZeroReadsRowZero(v: View, max: nat)
    requires v.Valid() && v.oldest == 0 && v.screen > 0 && v.cols > 0
    ensures Read(v, 0, 0, Some(0), max).text == PieceAt(v, 0, 0).0
  {
    hide Rendered, Bytes;
  }

  // ------------------------------------------------------------ what is laid out

  /** A character as the emulator lays it out: a wide one takes a second cell behind it,
      whatever that cell holds, and marks go with the character. */
  datatype Glyph = Glyph(c: char, wide: bool, behind: TextCell, marks: seq<char>)

  function Laid(glyphs: seq<Glyph>): seq<TextCell> {
    if glyphs == [] then []
    else
      var g := glyphs[|glyphs| - 1];
      Laid(glyphs[..|glyphs| - 1]) + [TextCell(g.c, false, g.marks)]
      + (if g.wide then [g.behind.(spacer := true)] else [])
  }

  /** The characters with their marks; a cell never written to is a blank. */
  function Spoken(glyphs: seq<Glyph>): string {
    if glyphs == [] then ""
    else
      var g := glyphs[|glyphs| - 1];
      Spoken(glyphs[..|glyphs| - 1]) + [if g.c == '\0' then ' ' else g.c] + g.marks
  }

  lemma OneCellText(cells: seq<TextCell>, cell: TextCell)
    ensures CellsText(cells + [cell]) == CellsText(cells) + CellText(cell)
  {
    hide CellText;
    assert (cells + [cell])[..|cells|] == cells;
  }

  lemma {:induction false} LaidReads(glyphs: seq<Glyph>)
    ensures CellsText(Laid(glyphs)) == Spoken(glyphs)
  {
    hide CellsText;
    if glyphs == [] {
      CellsTextNil([]);
    } else {
      var front, g := glyphs[..|glyphs| - 1], glyphs[|glyphs| - 1];
      var cell, before := TextCell(g.c, false, g.marks), Laid(front);
      LaidReads(front);
      OneCellText(before, cell);
      assert Spoken(front) + ([if g.c == '\0' then ' ' else g.c] + g.marks) == Spoken(glyphs);
      if g.wide {
        OneCellText(before + [cell], g.behind.(spacer := true));
        assert Spoken(glyphs) + "" == Spoken(glyphs);
      } else {
        assert before + [cell] + [] == before + [cell];
      }
    }
  }

  /** A row reads as what was laid out in it: wide characters once, marks kept, cells never
      written to as blanks, and trailing space kept only if the row soft-wraps. */
  lemma RowReadsAsLaid(glyphs: seq<Glyph>, wrapped: bool)
    requires glyphs != []
    ensures |Laid(glyphs)| > 0
    ensures var (text, soft) := Rendered(Row(Laid(glyphs), wrapped), 0, |Laid(glyphs)| - 1);
            && soft == wrapped
            && (wrapped ==> text == Spoken(glyphs))
            && (!wrapped ==> text == TrimEnd(Spoken(glyphs)))
  {
    hide TrimEnd, CellsText, Spoken;
    LaidReads(glyphs);
    assert Laid(glyphs)[0..|Laid(glyphs)| - 1 + 1] == Laid(glyphs);
  }

  // ------------------------------------------------------------ selections and bounds

  /** A selection that starts above the first row held is the one that starts with it, at
      its first column; one that ends above it, or before it starts, is empty. */
  lemma SelectionIsClipped(v: View, startTail: nat, startCol: nat, endTail: nat, endCol: nat)
    requires v.Valid() && v.screen > 0 && v.cols > 0
    ensures var top := v.rotated + v.screen - 1 - v.oldest;
            && (startTail > top && endTail <= top ==>
                  RangeRead(v, startTail, startCol, endTail, endCol) == RangeRead(v, top, 0, endTail, endCol))
            && (endTail > top || startTail < endTail ==> RangeRead(v, startTail, startCol, endTail, endCol) == "")
  {
    hide Join, Rendered;
    var top, history := v.rotated + v.screen - 1 - v.oldest, v.rotated - v.oldest;
    var end := v.screen - 1 - endTail;
    if startTail > top && endTail <= top {
      var a := LinePieces(v.rows, history, v.cols, -history, end, v.screen - 1 - startTail, startCol, end, endCol);
      var b := LinePieces(v.rows, history, v.cols, -history, end, -history, 0, end, endCol);
      forall i | 0 <= i < |a| ensures a[i] == b[i] {
        assert a[i] == LinePiece(v.rows[i], v.cols, i - history, v.screen - 1 - startTail, startCol, end, endCol);
        assert b[i] == LinePiece(v.rows[i], v.cols, i - history, -history, 0, end, endCol);
      }
      assert a == b;
    }
  }

  /** A selection of one row ends at its last column. */
  lemma SelectionInOneRow(v: View, row: nat, col: nat, endCol: nat)
    requires v.Valid() && v.screen > 0 && v.cols > 0 && v.oldest <= row < v.rotated + v.screen
    ensures var tail := v.rotated + v.screen - 1 - row;
            RangeRead(v, tail, col, tail, endCol) ==
            Rendered(v.rows[row - v.oldest], Min(col, v.cols - 1), Min(endCol, v.cols - 1)).0
  {
    hide Bytes, Rendered;
    var line := row - v.rotated;
    var qs := LinePieces(v.rows, v.rotated - v.oldest, v.cols, line, line, line, col, line, endCol);
    assert qs == [LinePiece(v.rows[row - v.oldest], v.cols, line, line, col, line, endCol)];
  }

  /** A selection that ends before the last column cuts its last row there, and reads the
      rows before it as a sequence-addressed read does. */
  lemma SelectionCutsItsLastRow(v: View, from: nat, col: nat, last: nat, endCol: nat, max: nat)
    requires v.Valid() && v.screen > 0 && v.cols > 0 && v.oldest <= from < last < v.rotated + v.screen
    requires Bytes(Join(Pieces(v, from, col, last))) <= max
    ensures var bottom, row := v.rotated + v.screen - 1, v.rows[last - v.oldest];
            RangeRead(v, bottom - from, col, bottom - last, endCol) ==
            Read(v, from, col, Some(last), max).text
            + (if v.rows[last - 1 - v.oldest].wrapped then "" else "\n") + Rendered(row, 0, Min(endCol, v.cols - 1)).0
  {
    hide Join, Bytes, Rendered, Fitting, Pieces;
    var first, end := (from as int) - v.rotated, last - v.rotated;
    var qs := LinePieces(v.rows, v.rotated - v.oldest, v.cols, first, end, first, col, end, endCol);
    var ps := Pieces(v, from, col, last);
    FullBudget(ps, max, 1);
    SelectionRows(v, from, col, last, endCol);
    JoinNext(qs, |ps|);
    LastPieceWraps(v, from, col, last);
    assert qs[..|ps| + 1] == qs;
  }

  lemma SelectionRows(v: View, from: nat, col: nat, last: nat, endCol: nat)
    requires v.Valid() && v.screen > 0 && v.cols > 0 && v.oldest <= from < last < v.rotated + v.screen
    ensures var first, end := (from as int) - v.rotated, last - v.rotated;
            var ps := Pieces(v, from, col, last);
            var qs := LinePieces(v.rows, v.rotated - v.oldest, v.cols, first, end, first, col, end, endCol);
            && |qs| == |ps| + 1 && qs[..|ps|] == ps
            && qs[|ps|] == Rendered(v.rows[last - v.oldest], 0, Min(endCol, v.cols - 1))
  {
    hide Bytes, Rendered, Join;
    var first, end := (from as int) - v.rotated, last - v.rotated;
    var ps := Pieces(v, from, col, last);
    var qs := LinePieces(v.rows, v.rotated - v.oldest, v.cols, first, end, first, col, end, endCol);
    forall i | 0 <= i < |ps| ensures ps[i] == qs[i] {
      assert ps[i] == PieceAt(v, from + i, if i == 0 then col else 0);
      assert qs[i] == LinePiece(v.rows[from - v.oldest + i], v.cols, first + i, first, col, end, endCol);
    }
    assert qs[|ps|] == LinePiece(v.rows[last - v.oldest], v.cols, end, first, col, end, endCol);
  }

  /** A bounded read leaves off where it was told to stop: with the break in between, it and
      a read from there to the cursor are the read of everything. */
  lemma BoundedReadsMeet(v: View, from: nat, col: nat, mid: nat, max: nat)
    requires v.Valid() && v.screen > 0 && v.cols > 0 && v.rotated <= v.cursorSeq < v.rotated + v.screen
    requires Start(v, from) < mid <= v.cursorSeq && Bytes(FullText(v, from, col, Some(mid))) <= max
    ensures var page := Read(v, from, col, Some(mid), max);
            && !page.truncated && page.nextSeq == mid && page.nextCol == 0
            && FullText(v, from, col, None) ==
               page.text + (if v.rows[mid - 1 - v.oldest].wrapped then "" else "\n")
               + FullText(v, page.nextSeq, page.nextCol, None)
  {
    hide Join, Bytes, Rendered, Pieces;
    var start, startCol, stop := Start(v, from), StartCol(v, from, col), v.cursorSeq + 1;
    assert Stop(v, Some(mid)) == mid && Stop(v, None) == stop;
    UnbudgetedRead(v, from, col, Some(mid), max);
    PiecesSplit(v, start, startCol, mid, stop);
    JoinConcat(Pieces(v, start, startCol, mid), Pieces(v, mid, 0, stop));
    LastPieceWraps(v, start, startCol, mid);
  }

  /** A page says that rows are missing exactly when the read starts before the first row
      still held; it then starts there, at its first column. */
  lemma EvictionIsReported(v: View, from: nat, col: nat, end: Option<nat>, max: nat)
    requires v.Valid() && v.screen > 0 && v.cols > 0
    ensures var page := Read(v, from, col, end, max);
            && (page.evicted <==> from < v.oldest)
            && (page.evicted ==> page.startSeq == v.oldest && page.startCol == 0)
            && (!page.evicted ==> page.startSeq == from && page.startCol == col)
  {
    hide Join, Bytes, Rendered, Fitting, Pieces;
  }
}
