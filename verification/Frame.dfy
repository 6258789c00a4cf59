/** Encoding a whole frame: hyperlink interning, the cell bytes, and the text kept
    beside cells that are too long for them. */
module Frame {
  import opened Common
  import opened Strings
  import opened CellCodec

  const MAX_LINK_ID: nat := 0xfffe
  const MAX_LINK_URI: nat := 4096

  // ------------------------------------------------------------ hyperlinks

  predicate Acceptable(uri: string) { uri != "" && Bytes(uri) <= MAX_LINK_URI }

  /** Interns link targets: equal targets share an id, and ids are handed out in order. */
  class LinkCollector {
    var cellLinks: seq<nat>
    var uris: map<nat, string>
    var byUri: map<string, nat>
    var lastId: nat

    /** The two tables are inverse to each other, and every cell's id resolves. */
    predicate Valid()
      reads this
    {
      && lastId <= MAX_LINK_ID
      && (forall id | id in uris ::
            1 <= id <= lastId && Acceptable(uris[id]) && uris[id] in byUri && byUri[uris[id]] == id)
      && (forall uri | uri in byUri :: byUri[uri] in uris && uris[byUri[uri]] == uri)
      && (forall i | 0 <= i < |cellLinks| :: cellLinks[i] == 0 || cellLinks[i] in uris)
    }

    /** The target of a cell, if it has one. */
    function Resolve(flat: nat): Option<string>
      requires Valid()
      reads this
    {
      if flat < |cellLinks| && cellLinks[flat] != 0 then Some(uris[cellLinks[flat]]) else None
    }

    constructor ()
      ensures Valid() && cellLinks == [] && lastId == 0
    {
      cellLinks, uris, byUri, lastId := [], map[], map[], 0;
    }

    /** The targets of the first `n` positions. */
    ghost function Targets(n: nat): (ts: seq<Option<string>>)
      requires Valid()
      reads this
      ensures |ts| == n && forall f | 0 <= f < n :: ts[f] == Resolve(f)
    {
      if n == 0 then [] else Targets(n - 1) + [Resolve(n - 1)]
    }

    /** A known target, or a new one while there are ids left. */
    predicate HasId(uri: string)
      reads this
    {
      Acceptable(uri) && (uri in byUri || lastId < MAX_LINK_ID)
    }

    /** Records a link on a cell; the answer says whether the cell now resolves to it. */
    method Record(flat: nat, total: nat, uri: string) returns (linked: bool)
      requires Valid()
      modifies this
      ensures Valid()
      ensures linked <==> old(HasId(uri)) && flat < (if old(cellLinks) == [] then total else |old(cellLinks)|)
      ensures linked ==> Resolve(flat) == Some(uri)
      ensures forall f: nat | !(linked && f == flat) :: Resolve(f) == old(Resolve(f))
      ensures cellLinks == old(cellLinks) || |cellLinks| == (if old(cellLinks) == [] then total else |old(cellLinks)|)
      ensures lastId == if old(HasId(uri) && uri !in byUri) then old(lastId) + 1 else old(lastId)
    {
      hide Bytes;
      if uri == "" || Bytes(uri) > MAX_LINK_URI { return false; }
      var id := Intern(uri);
      if id == 0 { return false; }
      if cellLinks == [] { cellLinks := seq(total, _ => 0); }
      if flat >= |cellLinks| { return false; }
      cellLinks := cellLinks[flat := id];
      return true;
    }

    /** The id of a target, or 0 when there is none left for a new one. */
    method Intern(uri: string) returns (id: nat)
      requires Valid() && Acceptable(uri)
      modifies this`uris, this`byUri, this`lastId
      ensures Valid() && (id != 0 <==> old(HasId(uri))) && (id != 0 ==> id in uris && uris[id] == uri)
      ensures forall i | i in old(uris) :: i in uris && uris[i] == old(uris[i])
      ensures lastId == if old(HasId(uri) && uri !in byUri) then old(lastId) + 1 else old(lastId)
    {
      hide Acceptable;
      if uri in byUri { return byUri[uri]; }
      if lastId >= MAX_LINK_ID { return 0; }
      lastId := lastId + 1;
      byUri := byUri[uri := lastId];
      uris := uris[lastId := uri];
      return lastId;
    }

    /** Two linked cells carry the same id exactly when they have the same target. */
    lemma SameIdSameTarget(a: nat, b: nat)
      requires Valid() && Resolve(a).Some? && Resolve(b).Some?
      ensures cellLinks[a] == cellLinks[b] <==> Resolve(a) == Resolve(b)
    {
    }
  }

  // ------------------------------------------------------------ the frame

  /** A visible cell and the target of its hyperlink, if it has one. */
  datatype Linked = Linked(cell: Cell, uri: Option<string>)

  function Chunk(bytes: seq<Byte>, flat: nat): seq<Byte>
    requires CELL_SIZE * (flat + 1) <= |bytes|
  {
    bytes[CELL_SIZE * flat..CELL_SIZE * flat + CELL_SIZE]
  }

  function Lookup(overflow: map<nat, string>, flat: nat): Option<string> {
    if flat in overflow then Some(overflow[flat]) else None
  }

  /** The browser sees the cell as it is, marked as a link exactly when it resolves to its
      target; a position outside the history stays all zeros. */
  predicate CellOk(view: Option<Linked>, chunk: seq<Byte>, beside: Option<string>, target: Option<string>) {
    && |chunk| == CELL_SIZE
    && match view
       case None => chunk == Zeros(CELL_SIZE) && beside == None && target == None
       case Some(l) =>
         && chunk[1] / 8 % 8 == ContentCode(l.cell) && beside == Beside(l.cell)
         && Decoded(chunk, beside) == Some(Shown(l.cell, target.Some?))
         && (target.Some? ==> target == l.uri && Acceptable(target.value))
  }

  /** While ids last, every acceptable target is resolved. */
  predicate LinkKept(view: Option<Linked>, target: Option<string>) {
    view.Some? && view.value.uri.Some? && Acceptable(view.value.uri.value) ==> target == view.value.uri
  }

  predicate HasCode7(view: Option<Linked>) { view.Some? && ContentCode(view.value.cell) == 7 }

  /** The first `n` positions are encoded, and the rest untouched. */
  ghost predicate Done(view: seq<Option<Linked>>, n: nat, cells: seq<Byte>, overflow: map<nat, string>,
                       targets: seq<Option<string>>)
    requires n <= |view| == |targets| && |cells| == CELL_SIZE * |view|
  {
    && (forall f | 0 <= f < n :: CellOk(view[f], Chunk(cells, f), Lookup(overflow, f), targets[f]))
    && (forall f | n <= f < |view| :: targets[f] == None && Chunk(cells, f) == Zeros(CELL_SIZE))
    && (forall f :: f in overflow <==> 0 <= f < n && HasCode7(view[f]))
  }

  /** Positions other than `flat` keep what they had. */
  predicate Others(flat: nat, cells: seq<Byte>, after: seq<Byte>, targets: seq<Option<string>>,
                   now: seq<Option<string>>) {
    && |after| == |cells| && |now| == |targets|
    && (forall i | 0 <= i < |cells| && !(CELL_SIZE * flat <= i < CELL_SIZE * flat + CELL_SIZE) :: after[i] == cells[i])
    && (forall f | 0 <= f < |targets| && f != flat :: now[f] == targets[f])
  }

  lemma OtherChunks(cells: seq<Byte>, after: seq<Byte>, flat: nat, f: nat)
    requires |after| == |cells| && CELL_SIZE * (f + 1) <= |cells| && f != flat
    requires forall i | 0 <= i < |cells| && !(CELL_SIZE * flat <= i < CELL_SIZE * flat + CELL_SIZE) ::
               after[i] == cells[i]
    ensures Chunk(after, f) == Chunk(cells, f)
  {
  }

  lemma DoneNext(view: seq<Option<Linked>>, flat: nat, cells: seq<Byte>, overflow: map<nat, string>,
                 targets: seq<Option<string>>,
                 after: seq<Byte>, more: map<nat, string>, now: seq<Option<string>>)
    requires flat < |view| == |targets| && |cells| == CELL_SIZE * |view| && Done(view, flat, cells, overflow, targets)
    requires Others(flat, cells, after, targets, now)
             && CellOk(view[flat], Chunk(after, flat), Lookup(more, flat), now[flat])
    requires more == if HasCode7(view[flat]) then overflow[flat := Full(view[flat].value.cell)] else overflow
    ensures Done(view, flat + 1, after, more, now)
  {
    hide CellOk, HasCode7, Chunk;
    forall f | 0 <= f < |view| && f != flat ensures Chunk(after, f) == Chunk(cells, f) {
      OtherChunks(cells, after, flat, f);
    }
  }

  lemma NothingDone(view: seq<Option<Linked>>, cells: seq<Byte>, targets: seq<Option<string>>)
    requires |targets| == |view| && |cells| == CELL_SIZE * |view|
    requires (forall i | 0 <= i < |cells| :: cells[i] == 0) && forall f | 0 <= f < |view| :: targets[f] == None
    ensures Done(view, 0, cells, map[], targets)
  {
  }

  /** What the browser makes of one position. */
  lemma OneCell(l: Linked, linked: bool, hash: seq<Byte>, before: seq<Byte>, target: Option<string>)
    requires |hash| == 4 && |before| == CELL_SIZE
    requires if linked then target == l.uri && target.Some? && Acceptable(target.value) else target == None
    ensures CellOk(Some(l), Encoded(l.cell, linked, hash, before), Beside(l.cell), target)
  {
    hide Encoded, Decoded, Shown, Acceptable, ContentCode;
    DecodeSeesShown(l.cell, linked, hash, before);
    CodeWritten(l.cell, linked, hash, before);
  }

  /** Nothing has been written at `flat` yet. */
  lemma StillClear(view: seq<Option<Linked>>, flat: nat, cells: seq<Byte>, overflow: map<nat, string>,
                   targets: seq<Option<string>>)
    requires flat < |view| == |targets| && |cells| == CELL_SIZE * |view| && Done(view, flat, cells, overflow, targets)
    ensures Chunk(cells, flat) == Zeros(CELL_SIZE) && flat !in overflow && targets[flat] == None
  {
  }

  lemma BlankPosition(chunk: seq<Byte>)
    requires chunk == Zeros(CELL_SIZE)
    ensures CellOk(None, chunk, None, None) && !HasCode7(None)
  {
  }

  lemma HasCode7Beside(l: Linked)
    ensures HasCode7(Some(l)) <==> Beside(l.cell) == Some(Full(l.cell))
    ensures Beside(l.cell) == Some(Full(l.cell)) || Beside(l.cell) == None
  {
  }

  /** A frame reads back as its cells say, wherever the format can carry them; its content
      codes are 0 to 4 or 7, and the text kept beside it belongs to exactly the cells with
      code 7. */
  lemma FrameReadsBack(view: seq<Option<Linked>>, cells: seq<Byte>, overflow: map<nat, string>,
                       targets: seq<Option<string>>)
    requires |targets| == |view| && |cells| == CELL_SIZE * |view| && Done(view, |view|, cells, overflow, targets)
    ensures forall f | 0 <= f < |view| && view[f].Some? ::
              Decoded(Chunk(cells, f), Lookup(overflow, f)) == Some(Says(view[f].value.cell, targets[f].Some?)) <==>
                Faithful(view[f].value.cell)
    ensures forall f | 0 <= f < |view| :: Chunk(cells, f)[1] / 8 % 8 in {0, 1, 2, 3, 4, 7}
    ensures forall f :: f in overflow <==> 0 <= f < |view| && Chunk(cells, f)[1] / 8 % 8 == 7
  {
    hide Decoded, Shown, Says, Faithful, ContentCode, Beside;
    forall f | 0 <= f < |view| && view[f].Some?
      ensures Decoded(Chunk(cells, f), Lookup(overflow, f)) == Some(Says(view[f].value.cell, targets[f].Some?)) <==>
              Faithful(view[f].value.cell)
    {
      ShownIsSaid(view[f].value.cell, targets[f].Some?);
    }
  }

  /** The body of the loop: one position. */
  method EncodePosition(view: Option<Linked>, hash: seq<Byte> -> nat, cells: array<Byte>, flat: nat, total: nat,
                        overflow: map<nat, string>, links: LinkCollector)
    returns (more: map<nat, string>)
    requires flat < total && cells.Length == CELL_SIZE * total && links.Valid()
    requires links.cellLinks == [] || |links.cellLinks| == total
    requires Chunk(cells[..], flat) == Zeros(CELL_SIZE) && flat !in overflow && links.Resolve(flat) == None
    modifies cells, links
    ensures links.Valid() && (links.cellLinks == [] || |links.cellLinks| == total) && old(links.lastId) <= links.lastId
    ensures OnlyChanges(cells, CELL_SIZE * flat, CELL_SIZE)
    ensures forall f: nat | f != flat :: links.Resolve(f) == old(links.Resolve(f))
    ensures CellOk(view, Chunk(cells[..], flat), Lookup(more, flat), links.Resolve(flat))
    ensures more == if HasCode7(view) then overflow[flat := Full(view.value.cell)] else overflow
    ensures links.lastId < MAX_LINK_ID ==> LinkKept(view, links.Resolve(flat))
  {
    hide CellOk, HasCode7, Beside, Encoded, Utf8Of, Full, Acceptable, Bytes, Zeros, LeBytes;
    more := overflow;
    if view.None? {
      BlankPosition(Chunk(cells[..], flat));
      return;
    }
    var cell, uri := view.value.cell, view.value.uri;
    var linked := false;
    if uri.Some? { linked := links.Record(flat, total, uri.value); }
    ghost var before := Chunk(cells[..], flat);
    more := EncodeCell(cell, hash, cells, CELL_SIZE * flat, flat, overflow, linked);
    HasCode7Beside(view.value);
    OneCell(view.value, linked, LeBytes(hash(Utf8Of(Full(cell)))), before, links.Resolve(flat));
  }

  /** `build_frame` over the visible positions in row-major order. */
  method BuildFrame(view: seq<Option<Linked>>, hash: seq<Byte> -> nat)
    returns (cells: array<Byte>, overflow: map<nat, string>, links: LinkCollector)
    ensures fresh(cells) && cells.Length == CELL_SIZE * |view| && fresh(links) && links.Valid()
    ensures Done(view, |view|, cells[..], overflow, links.Targets(|view|))
    ensures links.lastId < MAX_LINK_ID ==> forall f | 0 <= f < |view| :: LinkKept(view[f], links.Resolve(f))
  {
    hide Done, CellOk, LinkKept, HasCode7, Chunk, Full;
    cells := new Byte[CELL_SIZE * |view|](_ => 0);
    overflow := map[];
    links := new LinkCollector();
    NothingDone(view, cells[..], links.Targets(|view|));
    for flat := 0 to |view|
      invariant fresh(cells) && fresh(links) && links.Valid()
      invariant links.cellLinks == [] || |links.cellLinks| == |view|
      invariant Done(view, flat, cells[..], overflow, links.Targets(|view|))
      invariant links.lastId < MAX_LINK_ID ==> forall f | 0 <= f < flat :: LinkKept(view[f], links.Resolve(f))
    {
      ghost var before, had, targets := cells[..], overflow, links.Targets(|view|);
      StillClear(view, flat, before, had, targets);
      overflow := EncodePosition(view[flat], hash, cells, flat, |view|, overflow, links);
      DoneNext(view, flat, before, had, targets, cells[..], overflow, links.Targets(|view|));
    }
  }

  // ------------------------------------------------------------ the viewport

  /** A grid as the frame builder sees it: `history` rows above the screen, each of `cols` cells. */
  datatype Lines = Lines(rows: seq<seq<Linked>>, history: nat, cols: nat) {
    predicate Valid() { history <= |rows| && forall r | 0 <= r < |rows| :: |rows[r]| == cols }
  }

  /** What position `(r, c)` shows with the viewport scrolled back by `offset` rows. */
  function At(g: Lines, offset: nat, r: nat, c: nat): Option<Linked>
    requires g.Valid() && c < g.cols
  {
    var index := g.history - offset + r;
    if 0 <= index < |g.rows| then Some(g.rows[index][c]) else None
  }

  /** The first `height` rows of the viewport, row by row. */
  function Viewport(g: Lines, offset: nat, height: nat): seq<Option<Linked>>
    requires g.Valid()
  {
    if height == 0 then []
    else Viewport(g, offset, height - 1) + seq(g.cols, c requires 0 <= c < g.cols => At(g, offset, height - 1, c))
  }

  /** Row `r` of the viewport is row `history - offset + r` of the grid, cell by cell. */
  lemma {:induction false} ViewportAt(g: Lines, offset: nat, height: nat, r: nat, c: nat)
    requires g.Valid() && r < height && c < g.cols
    ensures |Viewport(g, offset, height)| == height * g.cols && 0 <= r * g.cols + c < height * g.cols
    ensures Viewport(g, offset, height)[r * g.cols + c] == At(g, offset, r, c)
  {
    hide At;
    ViewportLength(g, offset, height - 1);
    ViewportLength(g, offset, height);
    if r == height - 1 {
      assert r * g.cols + c - |Viewport(g, offset, height - 1)| == c;
    } else {
      ViewportAt(g, offset, height - 1, r, c);
    }
  }

  lemma {:induction false} ViewportLength(g: Lines, offset: nat, height: nat)
    requires g.Valid()
    ensures |Viewport(g, offset, height)| == height * g.cols
  {
    if height > 0 {
      ViewportLength(g, offset, height - 1);
      assert height * g.cols == (height - 1) * g.cols + g.cols;
    }
  }

  lemma PositionInside(g: Lines, height: nat, r: nat, c: nat)
    requires r < height && c < g.cols
    ensures 0 <= r * g.cols + c < height * g.cols
  {
    assert (r + 1) * g.cols <= height * g.cols;
  }

  /** Not scrolled back, the viewport shows the screen: its first row is the one right
      after the history. */
  lemma LiveViewport(g: Lines, height: nat, r: nat, c: nat)
    requires g.Valid() && r < height && c < g.cols && g.history + r < |g.rows|
    ensures |Viewport(g, 0, height)| == height * g.cols && 0 <= r * g.cols + c < height * g.cols
    ensures Viewport(g, 0, height)[r * g.cols + c] == Some(g.rows[g.history + r][c])
  {
    ViewportAt(g, 0, height, r, c);
  }

  /** Scrolled back all the way, it starts with the oldest row there is. */
  lemma OldestViewport(g: Lines, height: nat, r: nat, c: nat)
    requires g.Valid() && r < height && c < g.cols && r < |g.rows|
    ensures |Viewport(g, g.history, height)| == height * g.cols && 0 <= r * g.cols + c < height * g.cols
    ensures Viewport(g, g.history, height)[r * g.cols + c] == Some(g.rows[r][c])
  {
    ViewportAt(g, g.history, height, r, c);
  }

  /** Scrolling back by one more row moves every row down by one. */
  lemma ScrollingMovesRows(g: Lines, offset: nat, height: nat, r: nat, c: nat)
    requires g.Valid() && r + 1 < height && c < g.cols
    ensures |Viewport(g, offset, height)| == |Viewport(g, offset + 1, height)| == height * g.cols
    ensures 0 <= r * g.cols + c < height * g.cols && 0 <= (r + 1) * g.cols + c < height * g.cols
    ensures Viewport(g, offset + 1, height)[(r + 1) * g.cols + c] == Viewport(g, offset, height)[r * g.cols + c]
  {
    ViewportAt(g, offset, height, r, c);
    ViewportAt(g, offset + 1, height, r + 1, c);
  }

  /** Rows above the oldest and below the last are blank. */
  lemma OutsideIsBlank(g: Lines, offset: nat, height: nat, r: nat, c: nat)
    requires g.Valid() && r < height && c < g.cols
    requires g.history + r < offset || |g.rows| <= g.history + r - offset
    ensures |Viewport(g, offset, height)| == height * g.cols && 0 <= r * g.cols + c < height * g.cols
    ensures Viewport(g, offset, height)[r * g.cols + c] == None
  {
    ViewportAt(g, offset, height, r, c);
  }

  /** Position `(r, c)` of a frame reads back as the cell of grid row
      `history - offset + r`, wherever the format can carry it; outside the grid it is
      all zeros. */
  predicate Reads(g: Lines, offset: nat, height: nat, cells: seq<Byte>, overflow: map<nat, string>,
                  targets: seq<Option<string>>, r: nat, c: nat)
    requires g.Valid() && r < height && c < g.cols
    requires |targets| == height * g.cols && |cells| == CELL_SIZE * |targets|
  {
    PositionInside(g, height, r, c);
    var flat, row := r * g.cols + c, g.history + r - offset;
    var chunk, beside := Chunk(cells, flat), Lookup(overflow, flat);
    if row < 0 || row >= |g.rows| then
      chunk == Zeros(CELL_SIZE) && beside == None && targets[flat] == None
    else
      var shown := g.rows[row][c];
      && |chunk| == CELL_SIZE
      && (Decoded(chunk, beside) == Some(Says(shown.cell, targets[flat].Some?)) <==> Faithful(shown.cell))
      && (targets[flat].Some? ==> targets[flat] == shown.uri)
  }

  lemma FrameReads(g: Lines, offset: nat, height: nat, cells: seq<Byte>, overflow: map<nat, string>,
                   targets: seq<Option<string>>, r: nat, c: nat)
    requires g.Valid() && r < height && c < g.cols
    requires var view := Viewport(g, offset, height);
             && |targets| == |view| && |cells| == CELL_SIZE * |view|
             && Done(view, |view|, cells, overflow, targets)
    ensures |targets| == height * g.cols && Reads(g, offset, height, cells, overflow, targets, r, c)
  {
    hide Viewport, Decoded, Shown, Says, Faithful, ContentCode, Beside, Acceptable, Chunk;
    var view, flat := Viewport(g, offset, height), r * g.cols + c;
    ViewportAt(g, offset, height, r, c);
    assert CellOk(view[flat], Chunk(cells, flat), Lookup(overflow, flat), targets[flat]);
    if view[flat].Some? { ShownIsSaid(view[flat].value.cell, targets[flat].Some?); }
  }

  /** The lines a frame takes from the grid: lines above the history and below the screen
      are left blank. */
  method TakeLines(g: Lines, offset: nat, height: nat) returns (view: seq<Option<Linked>>)
    requires g.Valid()
    ensures view == Viewport(g, offset, height)
  {
    view := [];
    var screen := |g.rows| - g.history;
    for r := 0 to height
      invariant view == Viewport(g, offset, r)
    {
      var line := r - offset;
      var blank := (offset > 0 && g.history - offset + r < 0) || g.history + line < 0 || line >= screen;
      var cells: seq<Option<Linked>> := [];
      for c := 0 to g.cols
        invariant |cells| == c && forall i | 0 <= i < c :: cells[i] == At(g, offset, r, i)
      {
        cells := cells + [if blank then None else Some(g.rows[g.history + line][c])];
      }
      assert cells == seq(g.cols, c requires 0 <= c < g.cols => At(g, offset, r, c));
      view := view + cells;
    }
  }

  /** A frame of the screen, or of the history `offset` rows back. */
  method FrameAt(g: Lines, offset: nat, height: nat, hash: seq<Byte> -> nat)
    returns (cells: array<Byte>, overflow: map<nat, string>, links: LinkCollector)
    requires g.Valid()
    ensures fresh(cells) && cells.Length == CELL_SIZE * (height * g.cols) && fresh(links) && links.Valid()
    ensures var view := Viewport(g, offset, height);
            |view| == height * g.cols && Done(view, |view|, cells[..], overflow, links.Targets(|view|))
    ensures forall r, c | 0 <= r < height && 0 <= c < g.cols ::
              Reads(g, offset, height, cells[..], overflow, links.Targets(height * g.cols), r, c)
    ensures links.lastId < MAX_LINK_ID ==>
              var view := Viewport(g, offset, height);
              forall f | 0 <= f < |view| :: LinkKept(view[f], links.Resolve(f))
  {
    hide Viewport, Done, Reads, LinkKept;
    var view := TakeLines(g, offset, height);
    ViewportLength(g, offset, height);
    cells, overflow, links := BuildFrame(view, hash);
    forall r, c | 0 <= r < height && 0 <= c < g.cols
      ensures Reads(g, offset, height, cells[..], overflow, links.Targets(height * g.cols), r, c)
    {
      FrameReads(g, offset, height, cells[..], overflow, links.Targets(height * g.cols), r, c);
    }
  }
}
