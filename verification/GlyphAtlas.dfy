/** The glyph atlas: a shelf allocator that hands out areas of one canvas, and a cache
    of the glyphs drawn there. */
module GlyphAtlas {
  import opened Common
  import Utf8

  const MIN_SIZE: nat := 2048
  const MAX_SIZE: nat := 8192
  const PADDING: nat := 1
  const VERT_PAD: nat := 2
  const MIN_HORIZ_PAD: nat := 2
  const U32_MAX: nat := 0xffff_ffff

  type Octets = s: seq<Byte> | 1 <= |s| <= 4 witness [0x20]

  datatype GlyphKey = GlyphKey(bytes: Octets, bold: bool, italic: bool, underline: bool, wide: bool)

  datatype GlyphSlot = GlyphSlot(x: nat, y: nat, width: nat, height: nat)

  /** A key is drawable when its bytes are exactly one character. */
  function CodePoint(key: GlyphKey): Option<Utf8.Scalar> {
    if Utf8.Utf8Char(key.bytes) then Some(Utf8.DecodeChar(key.bytes)) else None
  }

  function Max(a: nat, b: nat): nat { if a < b then b else a }

  function Min(a: nat, b: nat): nat { if a < b then a else b }

  function Clamp(size: nat): nat { Max(MIN_SIZE, Min(size, MAX_SIZE)) }

  /** `wrapping_add(1)` on a 32-bit counter. */
  function WrappingNext(version: nat): nat { if version >= U32_MAX then 0 else version + 1 }

  /** A step is always seen: the counter changes, by one unless it wraps round to 0. */
  lemma VersionMoves(version: nat)
    requires version <= U32_MAX
    ensures var next := WrappingNext(version);
            next != version && next <= U32_MAX && next == (version + 1) % 0x1_0000_0000
  {
  }

  /** The glyph of a character is drawable, and any other key is not. */
  lemma DrawableExactly(key: GlyphKey)
    ensures CodePoint(key).Some? <==> exists c: Utf8.Scalar :: key.bytes == Utf8.EncodeScalar(c)
    ensures CodePoint(key).Some? ==> key.bytes == Utf8.EncodeScalar(CodePoint(key).value)
  {
    hide Utf8.EncodeScalar, Utf8.Utf8Char, Utf8.DecodeChar;
    if Utf8.Utf8Char(key.bytes) { Utf8.EncodeDecodeChar(key.bytes); }
    if c: Utf8.Scalar :| key.bytes == Utf8.EncodeScalar(c) { Utf8.EncodeScalarIsChar(c); }
  }

  // ------------------------------------------------------------ the shelf

  /** Where the next area goes: on a shelf at `y`, `height` tall so far, from `x` on. */
  datatype Shelf = Shelf(size: nat, x: nat, y: nat, height: nat)

  datatype Rect = Rect(left: nat, top: nat, right: nat, bottom: nat)

  function Empty(size: nat): Shelf { Shelf(size, PADDING, PADDING, 0) }

  /** A slot with its padding: what is cleared before the glyph is drawn. */
  function Area(slot: GlyphSlot): Rect
    requires slot.x >= PADDING && slot.y >= PADDING
  {
    Rect(slot.x - PADDING, slot.y - PADDING, slot.x + slot.width + PADDING, slot.y + slot.height + PADDING)
  }

  predicate Disjoint(a: Rect, b: Rect) {
    a.right <= b.left || b.right <= a.left || a.bottom <= b.top || b.bottom <= a.top
  }

  function Wrap(s: Shelf): Shelf {
    s.(x := PADDING, y := Min(s.y + Max(s.height, PADDING), U32_MAX), height := 0)
  }

  /** The sums the allocator forms stay within 32 bits. */
  predicate InRange(s: Shelf, width: nat, height: nat) {
    s.x + width + 2 * PADDING <= U32_MAX && Wrap(s).y + height + 2 * PADDING <= U32_MAX
  }

  /** The shelf after asking for a slot, and the slot if there is room. */
  function Allocate(s: Shelf, width: nat, height: nat): (Shelf, Option<GlyphSlot>) {
    var w, h := width + 2 * PADDING, height + 2 * PADDING;
    if w >= s.size || h >= s.size then (s, None)
    else
      var t := if s.x + w >= s.size then Wrap(s) else s;
      if t.y + h >= t.size then (t, None)
      else (t.(x := Min(t.x + w + PADDING, U32_MAX), height := Max(t.height, h + PADDING)),
            Some(GlyphSlot(t.x + PADDING, t.y + PADDING, width, height)))
  }

  /** An area already handed out: inside the atlas, and either above the shelf or on it
      and to the left of what comes next. */
  predicate Placed(s: Shelf, r: Rect) {
    && r.left < r.right <= s.size && r.top < r.bottom <= s.size && s.size <= MAX_SIZE
    && (r.bottom <= s.y || (r.right <= s.x && r.bottom <= s.y + s.height))
  }

  /** A new area overlaps no earlier one, and every area stays placed, whether or not
      the allocation succeeds and whether or not it starts a new shelf. */
  lemma AllocateApart(s: Shelf, width: nat, height: nat, r: Rect)
    requires Placed(s, r)
    ensures var (t, slot) := Allocate(s, width, height);
            Placed(t, r) && (slot.Some? ==> Disjoint(r, Area(slot.value)))
  {
  }

  lemma AllocateInside(s: Shelf, width: nat, height: nat)
    requires s.size <= MAX_SIZE
    ensures var (t, slot) := Allocate(s, width, height);
            slot.Some? ==> Placed(t, Area(slot.value)) && slot.value.width == width && slot.value.height == height
  {
  }

  lemma AllocateKeepsSize(s: Shelf, width: nat, height: nat)
    ensures Allocate(s, width, height).0.size == s.size
    ensures var slot := Allocate(s, width, height).1; slot.Some? ==> slot.value.x >= PADDING && slot.value.y >= PADDING
  {
  }

  predicate Apart(areas: seq<Rect>) {
    forall i, j | 0 <= i < j < |areas| :: Disjoint(areas[i], areas[j])
  }

  predicate AllPlaced(s: Shelf, areas: seq<Rect>) {
    Apart(areas) && forall r | r in areas :: Placed(s, r)
  }

  lemma AllocatePlaced(s: Shelf, areas: seq<Rect>, width: nat, height: nat)
    requires AllPlaced(s, areas) && s.size <= MAX_SIZE
    ensures var (t, slot) := Allocate(s, width, height);
            match slot
            case None => AllPlaced(t, areas)
            case Some(v) =>
              && v.x >= PADDING && v.y >= PADDING && AllPlaced(t, areas + [Area(v)])
              && forall r | r in areas :: Disjoint(r, Area(v))
  {
    hide Placed, Disjoint, Allocate;
    AllocateKeepsSize(s, width, height);
    AllocateInside(s, width, height);
    forall r | r in areas
      ensures var (t, slot) := Allocate(s, width, height);
              Placed(t, r) && (slot.Some? ==> Disjoint(r, Area(slot.value)))
    {
      AllocateApart(s, width, height, r);
    }
    assert forall i | 0 <= i < |areas| :: areas[i] in areas;
  }

  /** The areas handed out for a list of requests, refused ones left out. */
  function AreasOf(s: Shelf, requests: seq<(nat, nat)>): (Shelf, seq<Rect>) {
    if requests == [] then (s, [])
    else
      var (before, areas) := AreasOf(s, requests[..|requests| - 1]);
      var (width, height) := requests[|requests| - 1];
      var (after, slot) := Allocate(before, width, height);
      (after, if slot.Some? then areas + [Area(slot.value)] else areas)
  }

  /** Over any list of requests on an empty atlas, all areas are pairwise disjoint and
      inside the atlas. */
  lemma {:induction false} AllocationsAreApart(size: nat, requests: seq<(nat, nat)>)
    requires size <= MAX_SIZE
    ensures var (s, areas) := AreasOf(Empty(size), requests); s.size == size && AllPlaced(s, areas)
  {
    hide AllPlaced, Allocate;
    if requests == [] {
      NoneYet(Empty(size));
    } else {
      AllocationsAreApart(size, requests[..|requests| - 1]);
      var (before, areas) := AreasOf(Empty(size), requests[..|requests| - 1]);
      var (width, height) := requests[|requests| - 1];
      AllocateKeepsSize(before, width, height);
      AllocatePlaced(before, areas, width, height);
    }
  }

  lemma NoneYet(s: Shelf)
    ensures AllPlaced(s, [])
  {
  }

  // ------------------------------------------------------------ capacity

  /** `n` requests for the same size. */
  function Same(width: nat, height: nat, n: nat): seq<(nat, nat)> { seq(n, i => (width, height)) }

  /** How many areas fit side by side along `size`, each followed by one pixel of padding. */
  function PerSide(size: nat, length: nat): nat
    requires size > 0
  {
    (size - 1) / (length + 3 * PADDING)
  }

  function Capacity(size: nat, width: nat, height: nat): nat
    requires size > 0
  {
    PerSide(size, width) * PerSide(size, height)
  }

  lemma FitsAlong(size: nat, length: nat, i: nat)
    requires size > 0
    ensures PADDING + i * (length + 3 * PADDING) + (length + 2 * PADDING) < size <==> i < PerSide(size, length)
  {
    var pitch := length + 3 * PADDING;
    Multiples(size - 1, pitch, i);
    Next(i, pitch);
  }

  lemma Next(i: nat, pitch: nat)
    ensures (i + 1) * pitch == i * pitch + pitch
  {
  }

  lemma Scale(a: nat, b: nat, pitch: nat)
    requires a <= b
    ensures a * pitch <= b * pitch
  {
  }

  lemma Multiples(a: nat, pitch: nat, i: nat)
    requires pitch > 0
    ensures (i + 1) * pitch <= a <==> i < a / pitch
  {
    var q, r := a / pitch, a % pitch;
    assert a == q * pitch + r && 0 <= r < pitch;
    if i < q {
      Scale(i + 1, q, pitch);
    } else {
      Scale(q, i, pitch);
      Next(i, pitch);
    }
  }

  /** `j` full shelves, and `k` areas on the next one. */
  function At(size: nat, width: nat, height: nat, j: nat, k: nat): Shelf {
    Shelf(size, PADDING + k * (width + 3 * PADDING), PADDING + j * (height + 3 * PADDING),
          if k > 0 then height + 3 * PADDING else 0)
  }

  predicate Usable(size: nat, width: nat, height: nat) {
    width + 3 * PADDING < size <= MAX_SIZE && height + 3 * PADDING < size
  }

  lemma PlaceRight(size: nat, width: nat, height: nat, j: nat, k: nat)
    requires Usable(size, width, height) && k < PerSide(size, width) && j < PerSide(size, height)
    ensures Allocate(At(size, width, height, j, k), width, height).0 == At(size, width, height, j, k + 1)
    ensures Allocate(At(size, width, height, j, k), width, height).1.Some?
  {
    hide PerSide;
    FitsAlong(size, width, k);
    FitsAlong(size, height, j);
    assert (k + 1) * (width + 3 * PADDING) == k * (width + 3 * PADDING) + (width + 3 * PADDING);
  }

  lemma PlaceBelow(size: nat, width: nat, height: nat, j: nat)
    requires Usable(size, width, height) && j + 1 < PerSide(size, height) && 0 < PerSide(size, width)
    ensures Allocate(At(size, width, height, j, PerSide(size, width)), width, height).0 ==
            At(size, width, height, j + 1, 1)
    ensures Allocate(At(size, width, height, j, PerSide(size, width)), width, height).1.Some?
  {
    hide PerSide;
    var columns := PerSide(size, width);
    FitsAlong(size, width, columns);
    FitsAlong(size, height, j + 1);
    FitsAlong(size, height, j);
    assert (j + 1) * (height + 3 * PADDING) == j * (height + 3 * PADDING) + (height + 3 * PADDING);
    assert At(size, width, height, j, columns).height == height + 3 * PADDING;
  }

  /** Where `n` areas of one size leave the allocator. */
  lemma {:induction false} Filled(size: nat, width: nat, height: nat, n: nat) returns (j: nat, k: nat)
    requires Usable(size, width, height) && n <= Capacity(size, width, height)
    ensures n == j * PerSide(size, width) + k && k <= PerSide(size, width)
    ensures if n > 0 then k > 0 && j < PerSide(size, height) else j == k == 0
    ensures var (s, areas) := AreasOf(Empty(size), Same(width, height, n));
            |areas| == n && s == At(size, width, height, j, k)
  {
    hide PerSide, Allocate, At;
    var columns, rows := PerSide(size, width), PerSide(size, height);
    if n == 0 {
      j, k := 0, 0;
      StartsEmpty(size, width, height);
    } else {
      assert Same(width, height, n)[..n - 1] == Same(width, height, n - 1);
      j, k := Filled(size, width, height, n - 1);
      if k < columns {
        if n == 1 { FirstFits(columns, rows); }
        PlaceRight(size, width, height, j, k);
        k := k + 1;
      } else {
        NextShelf(j, columns, rows, n - 1);
        PlaceBelow(size, width, height, j);
        j, k := j + 1, 1;
      }
    }
  }

  lemma StartsEmpty(size: nat, width: nat, height: nat)
    ensures At(size, width, height, 0, 0) == Empty(size)
  {
  }

  /** No room for another area of this size, nor will there be. */
  predicate Full(s: Shelf, width: nat, height: nat) {
    var t := if s.x + width + 2 * PADDING >= s.size then Wrap(s) else s;
    t.y + height + 2 * PADDING >= s.size
  }

  lemma FullStaysFull(s: Shelf, width: nat, height: nat)
    requires Full(s, width, height) && s.y <= U32_MAX && s.size <= MAX_SIZE
    ensures var (t, slot) := Allocate(s, width, height);
            slot.None? && Full(t, width, height) && t.y <= U32_MAX && t.size == s.size
  {
  }

  lemma FilledIsFull(size: nat, width: nat, height: nat, j: nat, k: nat)
    requires Usable(size, width, height) && 0 < k <= PerSide(size, width) && j < PerSide(size, height)
    requires j * PerSide(size, width) + k == Capacity(size, width, height)
    ensures Full(At(size, width, height, j, k), width, height) && At(size, width, height, j, k).y <= size
  {
    hide PerSide;
    var columns, rows := PerSide(size, width), PerSide(size, height);
    LastShelf(j, k, columns, rows);
    FitsAlong(size, width, columns);
    FitsAlong(size, height, rows);
    FitsAlong(size, height, j);
    assert rows * (height + 3 * PADDING) == j * (height + 3 * PADDING) + (height + 3 * PADDING);
  }

  lemma LastShelf(j: nat, k: nat, columns: nat, rows: nat)
    requires 0 < k <= columns && j < rows && j * columns + k == columns * rows
    ensures j + 1 == rows && k == columns
  {
    assert j * columns + k <= j * columns + columns == (j + 1) * columns;
    assert (j + 2) * columns == (j + 1) * columns + columns;
    assert j + 1 < rows ==> (j + 2) * columns <= rows * columns;
    assert j + 1 == rows ==> rows * columns == j * columns + columns;
  }

  /** Of any number of areas of one size, an empty atlas takes exactly as many as its
      capacity allows. */
  lemma {:induction false} TakesItsCapacity(size: nat, width: nat, height: nat, n: nat)
    requires Usable(size, width, height)
    ensures var (s, areas) := AreasOf(Empty(size), Same(width, height, n));
            && |areas| == Min(n, Capacity(size, width, height))
            && (n >= Capacity(size, width, height) ==> Full(s, width, height) && s.y <= U32_MAX && s.size == size)
  {
    hide PerSide, Allocate, At, Full;
    if n <= Capacity(size, width, height) {
      var j, k := Filled(size, width, height, n);
      if n == Capacity(size, width, height) {
        CapacityPositive(size, width, height);
        FilledIsFull(size, width, height, j, k);
        AtKeepsSize(size, width, height, j, k);
      }
    } else {
      assert Same(width, height, n)[..n - 1] == Same(width, height, n - 1);
      TakesItsCapacity(size, width, height, n - 1);
      FullStaysFull(AreasOf(Empty(size), Same(width, height, n - 1)).0, width, height);
    }
  }

  lemma AtKeepsSize(size: nat, width: nat, height: nat, j: nat, k: nat)
    ensures At(size, width, height, j, k).size == size
  {
  }

  lemma CapacityPositive(size: nat, width: nat, height: nat)
    requires Usable(size, width, height)
    ensures Capacity(size, width, height) > 0
  {
    hide PerSide;
    FitsAlong(size, width, 0);
    FitsAlong(size, height, 0);
    assert PerSide(size, width) * PerSide(size, height) >= 1 * PerSide(size, height);
  }

  lemma FirstFits(columns: nat, rows: nat)
    requires 1 <= columns * rows
    ensures rows > 0
  {
  }

  lemma NextShelf(j: nat, columns: nat, rows: nat, n: nat)
    requires n == j * columns + columns && n < columns * rows
    ensures j + 1 < rows && n + 1 == (j + 1) * columns + 1
  {
    assert n == (j + 1) * columns;
    assert j + 1 >= rows ==> (j + 1) * columns >= rows * columns;
  }

  /** Smallest of the allowed sizes that covers `need`, as far as the largest does. */
  predicate Covers(size: nat, need: nat) {
    && (size == MIN_SIZE || size == 2 * MIN_SIZE || size == MAX_SIZE)
    && (need <= size || size == MAX_SIZE) && (size == MIN_SIZE || size / 2 < need)
  }

  /** The side length computed for `count` glyphs, before rounding. */
  function NeededSide(cellWidth: nat, cellHeight: nat, horizPad: nat, count: nat): nat {
    var cw := Max(cellWidth, 1) + horizPad * 2 + PADDING * 3;
    var ch := Max(cellHeight, 1) + PADDING * 3;
    if count == 0 then 0 else if cw > MAX_SIZE then cw else
    Multiples(MAX_SIZE, cw, 0);
    Max(RowsOf(count, ColsOf(cw)) * ch, cw)
  }

  /** Columns of the largest atlas. */
  function ColsOf(cw: nat): nat
    requires cw > 0
  {
    MAX_SIZE / cw
  }

  /** `count.div_ceil(cols)`. */
  function RowsOf(count: nat, cols: nat): nat
    requires cols > 0
  {
    (count + cols - 1) / cols
  }

  /** The side is that of as many rows of cells as the count needs in an atlas of the
      largest width, and no more, or of one cell if that is wider. */
  lemma RowsAreNeeded(cellWidth: nat, cellHeight: nat, horizPad: nat, count: nat)
    requires count > 0 && Max(cellWidth, 1) + 2 * horizPad + 3 <= MAX_SIZE
    ensures var cw := Max(cellWidth, 1) + 2 * horizPad + 3;
            exists cols: nat, rows: nat ::
              && cols * cw <= MAX_SIZE < (cols + 1) * cw && (rows - 1) * cols < count <= rows * cols
              && NeededSide(cellWidth, cellHeight, horizPad, count) == Max(rows * (Max(cellHeight, 1) + 3), cw)
  {
    hide NeededSide, ColsOf, RowsOf;
    var cw := Max(cellWidth, 1) + 2 * horizPad + 3;
    SideIs(cellWidth, cellHeight, horizPad, count);
    ColsFit(cw);
    RowsFillUp(count, ColsOf(cw));
  }

  lemma ColsFit(cw: nat)
    requires 0 < cw <= MAX_SIZE
    ensures 0 < ColsOf(cw) && ColsOf(cw) * cw <= MAX_SIZE < (ColsOf(cw) + 1) * cw
  {
    Multiples(MAX_SIZE, cw, 0);
  }

  lemma RowsFillUp(count: nat, cols: nat)
    requires count > 0 && cols > 0
    ensures (RowsOf(count, cols) - 1) * cols < count <= RowsOf(count, cols) * cols
  {
    var a := count + cols - 1;
    assert a == a / cols * cols + a % cols && 0 <= a % cols < cols;
    assert (a / cols - 1) * cols == a / cols * cols - cols;
  }

  lemma CoversClamped(size: nat, need: nat)
    requires Covers(size, need)
    ensures Clamp(size) == size
  {
  }

  lemma SideIs(cellWidth: nat, cellHeight: nat, horizPad: nat, count: nat)
    ensures var need, cw := NeededSide(cellWidth, cellHeight, horizPad, count),
            Max(cellWidth, 1) + horizPad * 2 + PADDING * 3;
            var cols := ColsOf(cw);
            && Covers(MIN_SIZE, 0)
            && (count == 0 ==> need == 0)
            && (count > 0 && cols == 0 ==> Covers(MAX_SIZE, need))
            && (count > 0 && cols > 0 ==> need == Max(RowsOf(count, cols) * (Max(cellHeight, 1) + PADDING * 3), cw))
  {
    hide RowsOf;
    Multiples(MAX_SIZE, Max(cellWidth, 1) + horizPad * 2 + PADDING * 3, 0);
  }

  function NarrowWidth(cellWidth: nat, horizPad: nat): nat { Max(cellWidth, 1) + horizPad * 2 }

  function SlotHeight(cellHeight: nat): nat { Max(cellHeight, 1) + VERT_PAD }

  // ------------------------------------------------------------ how many glyphs there can be

  /** Columns of areas at least `width` wide; an area too wide for the left padding still
      gets a shelf of its own. */
  function Columns(size: nat, width: nat): nat
    requires size > 0
  {
    Max(1, PerSide(size, width))
  }

  /** The most areas of at least this width and height an atlas ever hands out. */
  function MostAreas(size: nat, width: nat, height: nat): nat
    requires size > 0
  {
    Columns(size, width) * PerSide(size, height)
  }

  /** `count` areas, none smaller than `width` by `height`, have filled `j` shelves and
      `k` columns of the current one. */
  predicate Packed(s: Shelf, count: nat, width: nat, height: nat, j: nat, k: nat)
    requires s.size > 0
  {
    && count <= j * Columns(s.size, width) + k && k <= Columns(s.size, width)
    && s.x >= PADDING + k * (width + 3 * PADDING) && s.y >= PADDING + j * (height + 3 * PADDING)
    && j <= PerSide(s.size, height)
    && (k > 0 ==> j < PerSide(s.size, height) && s.height >= height + 3 * PADDING)
    && (count > 0 ==> width + 2 * PADDING < s.size)
  }

  /** ... for some `j` and `k`. */
  ghost predicate Bounded(s: Shelf, count: nat, width: nat, height: nat)
    requires s.size > 0
  {
    exists j: nat, k: nat :: Packed(s, count, width, height, j, k)
  }

  lemma EmptyBounded(size: nat, width: nat, height: nat)
    requires size > 0
    ensures Bounded(Empty(size), 0, width, height)
  {
    assert Packed(Empty(size), 0, width, height, 0, 0);
  }

  lemma WithinSize(size: nat, length: nat, j: nat)
    requires size > 0 && j <= PerSide(size, length)
    ensures PADDING + j * (length + 3 * PADDING) <= size
  {
    if j > 0 { Multiples(size - 1, length + 3 * PADDING, j - 1); }
  }

  /** A new shelf starts below everything on the old one. */
  lemma WrapLowers(s: Shelf, top: nat, height: nat)
    requires s.y >= top && s.height >= height && top + height <= U32_MAX
    ensures Wrap(s).y >= top + height && Wrap(s).x == PADDING && Wrap(s).size == s.size
  {
  }

  lemma PackedWrap(s: Shelf, count: nat, width: nat, height: nat, j: nat, k: nat) returns (row: nat)
    requires 0 < s.size <= MAX_SIZE && Packed(s, count, width, height, j, k)
    ensures Packed(Wrap(s), count, width, height, row, 0)
  {
    hide PerSide, Columns, Wrap;
    var pitch, columns := height + 3 * PADDING, Columns(s.size, width);
    WithinSize(s.size, height, j);
    if k > 0 {
      WithinSize(s.size, height, j + 1);
      Next(j, pitch);
      Next(j, columns);
      WrapLowers(s, PADDING + j * pitch, pitch);
      row := j + 1;
    } else {
      WrapLowers(s, PADDING + j * pitch, 0);
      row := j;
    }
  }

  lemma PackedPlace(s: Shelf, count: nat, width: nat, height: nat, j: nat, k: nat, w: nat, h: nat)
    requires 0 < s.size <= MAX_SIZE && Packed(s, count, width, height, j, k) && width <= w && height <= h
    requires s.x + w + 2 * PADDING < s.size || (k == 0 && w + 2 * PADDING < s.size && s.x == PADDING)
    requires s.y + h + 2 * PADDING < s.size
    ensures var t := s.(x := Min(s.x + w + 3 * PADDING, U32_MAX), height := Max(s.height, h + 3 * PADDING));
            Packed(t, count + 1, width, height, j, k + 1)
  {
    hide PerSide;
    FitsAlong(s.size, height, j);
    FitsAlong(s.size, width, k);
    Next(k, width + 3 * PADDING);
  }

  lemma AllocateBounded(s: Shelf, count: nat, width: nat, height: nat, w: nat, h: nat)
    requires 0 < s.size <= MAX_SIZE && Bounded(s, count, width, height) && width <= w && height <= h
    ensures var (t, slot) := Allocate(s, w, h);
            t.size == s.size && Bounded(t, if slot.Some? then count + 1 else count, width, height)
  {
    hide Packed;
    var j: nat, k: nat :| Packed(s, count, width, height, j, k);
    var t := s;
    if s.x + w + 2 * PADDING >= s.size {
      j := PackedWrap(s, count, width, height, j, k);
      t, k := Wrap(s), 0;
    }
    if w + 2 * PADDING < s.size && h + 2 * PADDING < s.size && t.y + h + 2 * PADDING < s.size {
      PackedPlace(t, count, width, height, j, k, w, h);
    }
  }

  lemma BoundedCount(s: Shelf, count: nat, width: nat, height: nat)
    requires s.size > 0 && Bounded(s, count, width, height)
    ensures count <= MostAreas(s.size, width, height) && (count > 0 ==> width + 2 * PADDING < s.size)
  {
    hide PerSide;
    var j: nat, k: nat :| Packed(s, count, width, height, j, k);
    var columns, rows := Columns(s.size, width), PerSide(s.size, height);
    if k > 0 {
      Scale(j + 1, rows, columns);
      Next(j, columns);
    } else {
      Scale(j, rows, columns);
    }
  }

  /** Whatever mix of sizes is asked for, none of them under `width` by `height`. */
  lemma {:induction false} MixedAreasBounded(size: nat, requests: seq<(nat, nat)>, width: nat, height: nat)
    requires 0 < size <= MAX_SIZE && forall r | r in requests :: width <= r.0 && height <= r.1
    ensures var (s, areas) := AreasOf(Empty(size), requests);
            s.size == size && Bounded(s, |areas|, width, height) && |areas| <= MostAreas(size, width, height)
  {
    hide Bounded, Allocate, MostAreas;
    if requests == [] {
      EmptyBounded(size, width, height);
    } else {
      var front := requests[..|requests| - 1];
      var (w, h) := requests[|requests| - 1];
      MixedAreasBounded(size, front, width, height);
      var (s, areas) := AreasOf(Empty(size), front);
      AllocateBounded(s, |areas|, width, height, w, h);
    }
    var (s, areas) := AreasOf(Empty(size), requests);
    BoundedCount(s, |areas|, width, height);
  }

  /** How far the allocator can have got after `n` requests. */
  predicate Low(s: Shelf, n: nat) {
    s.x <= s.size + 2 * PADDING && s.y <= s.size + n && (s.height > 0 ==> s.y + s.height <= s.size)
  }

  lemma AllocateLow(s: Shelf, n: nat, width: nat, height: nat)
    requires Low(s, n)
    ensures Low(Allocate(s, width, height).0, n + 1)
  {
  }

  /** Far more requests than any session makes before the sums of the allocator overflow. */
  const MANY: nat := 0x7000_0000

  const LARGE: nat := 0x8000_0000

  lemma LowLater(s: Shelf, n: nat)
    requires Low(s, n)
    ensures Low(s, n + 1)
  {
  }

  lemma EmptySteady(n: nat)
    ensures Low(Empty(MIN_SIZE), n)
    ensures forall width, height :: Bounded(Empty(MIN_SIZE), 0, width, height)
  {
    forall width: nat, height: nat ensures Bounded(Empty(MIN_SIZE), 0, width, height) {
      EmptyBounded(MIN_SIZE, width, height);
    }
  }

  lemma LowInRange(s: Shelf, n: nat, width: nat, height: nat)
    requires Low(s, n) && n <= MANY && s.size <= MAX_SIZE && width <= LARGE && height <= LARGE + VERT_PAD
    ensures InRange(s, width, height)
  {
  }

  /** As many glyphs as the smallest atlas can hold never ask for a larger one. */
  lemma HeldGlyphsFit(cellWidth: nat, cellHeight: nat, horizPad: nat, count: nat)
    requires var w := NarrowWidth(cellWidth, horizPad);
             count <= MostAreas(MIN_SIZE, w, SlotHeight(cellHeight)) && (count > 0 ==> w + 2 * PADDING < MIN_SIZE)
    ensures NeededSide(cellWidth, cellHeight, horizPad, count) <= MIN_SIZE
  {
    var cw, ch := NarrowWidth(cellWidth, horizPad) + 3 * PADDING, Max(cellHeight, 1) + 3 * PADDING;
    if count > 0 {
      var columns, rows := Columns(MIN_SIZE, NarrowWidth(cellWidth, horizPad)),
        PerSide(MIN_SIZE, SlotHeight(cellHeight));
      var cols := ColsOf(cw);
      ColumnsGrow(cw);
      RowsNeeded(count, columns, rows, cols);
      RowsFit(rows, RowsOf(count, cols), ch);
    }
  }

  lemma ColumnsGrow(cw: nat)
    requires 0 < cw <= MIN_SIZE
    ensures Max(1, (MIN_SIZE - 1) / cw) <= MAX_SIZE / cw
  {
    Multiples(MAX_SIZE, cw, 0);
    var q := (MIN_SIZE - 1) / cw;
    if q > 0 {
      Multiples(MIN_SIZE - 1, cw, q - 1);
      Multiples(MAX_SIZE, cw, q - 1);
    }
  }

  lemma RowsNeeded(count: nat, columns: nat, rows: nat, cols: nat)
    requires count <= columns * rows && 0 < columns <= cols
    ensures RowsOf(count, cols) <= rows
  {
    Scale(columns, cols, rows);
    assert columns * rows <= cols * rows == rows * cols;
    Multiples(count + cols - 1, cols, rows);
    Next(rows, cols);
  }

  lemma RowsFit(rows: nat, needed: nat, ch: nat)
    requires needed <= rows && rows <= (MIN_SIZE - 1) / (ch + VERT_PAD)
    ensures needed * ch <= MIN_SIZE
  {
    Scale(needed, rows, ch);
    if rows > 0 {
      Multiples(MIN_SIZE - 1, ch + VERT_PAD, rows - 1);
      assert rows * (ch + VERT_PAD) == rows * ch + rows * VERT_PAD;
    }
  }

  lemma AllocatedSize(s: Shelf, width: nat, height: nat)
    ensures var slot := Allocate(s, width, height).1;
            slot.Some? ==> slot.value.width == width && slot.value.height == height
  {
  }

  // ------------------------------------------------------------ the atlas

  /** Which glyph each pixel of the canvas shows, if any. */
  type Pixels = (int, int) -> Option<GlyphKey>

  predicate In(x: int, y: int, r: Rect) { r.left <= x < r.right && r.top <= y < r.bottom }

  function Inside(slot: GlyphSlot): Rect { Rect(slot.x, slot.y, slot.x + slot.width, slot.y + slot.height) }

  ghost function Painted(pixels: Pixels, r: Rect, what: Option<GlyphKey>): Pixels {
    (x, y) => if In(x, y, r) then what else pixels(x, y)
  }

  ghost predicate Shows(pixels: Pixels, slot: GlyphSlot, key: GlyphKey) {
    forall x, y :: In(x, y, Inside(slot)) ==> pixels(x, y) == Some(key)
  }

  /** Clearing an area and drawing in it leaves every disjoint slot as it was. */
  lemma DrawingSpares(pixels: Pixels, slot: GlyphSlot, key: GlyphKey, slots: map<GlyphKey, GlyphSlot>, areas: seq<Rect>)
    requires slot.x >= PADDING && slot.y >= PADDING
    requires Cached(slots, areas, pixels) && forall r | r in areas :: Disjoint(r, Area(slot))
    ensures var after := Painted(Painted(pixels, Area(slot), None), Inside(slot), Some(key));
            Shows(after, slot, key) && forall k | k in slots :: Shows(after, slots[k], k)
  {
    forall k | k in slots
      ensures Shows(Painted(Painted(pixels, Area(slot), None), Inside(slot), Some(key)), slots[k], k)
    {
      assert Holds(slots[k], k, areas, pixels);
      DrawingSparesOne(pixels, slot, key, slots[k], k);
    }
  }

  lemma DrawingSparesOne(pixels: Pixels, slot: GlyphSlot, key: GlyphKey, other: GlyphSlot, otherKey: GlyphKey)
    requires slot.x >= PADDING && slot.y >= PADDING && other.x >= PADDING && other.y >= PADDING
    requires Shows(pixels, other, otherKey) && Disjoint(Area(other), Area(slot))
    ensures Shows(Painted(Painted(pixels, Area(slot), None), Inside(slot), Some(key)), other, otherKey)
  {
    forall x, y | In(x, y, Inside(other)) ensures !In(x, y, Inside(slot)) && !In(x, y, Area(slot)) {
      assert In(x, y, Area(other));
    }
  }

  /** Every cached slot was handed out, and still shows its own glyph. */
  ghost predicate Cached(slots: map<GlyphKey, GlyphSlot>, areas: seq<Rect>, pixels: Pixels) {
    forall key | key in slots :: Holds(slots[key], key, areas, pixels)
  }

  ghost predicate Holds(slot: GlyphSlot, key: GlyphKey, areas: seq<Rect>, pixels: Pixels) {
    slot.x >= PADDING && slot.y >= PADDING && Area(slot) in areas && Shows(pixels, slot, key)
  }

  lemma NothingYet(s: Shelf, pixels: Pixels)
    ensures AllPlaced(s, []) && Cached(map[], [], pixels)
  {
  }

  lemma DrawingCaches(slots: map<GlyphKey, GlyphSlot>, areas: seq<Rect>, pixels: Pixels, slot: GlyphSlot, key: GlyphKey)
    requires Cached(slots, areas, pixels) && slot.x >= PADDING && slot.y >= PADDING
    requires forall r | r in areas :: Disjoint(r, Area(slot))
    ensures var after := Painted(Painted(pixels, Area(slot), None), Inside(slot), Some(key));
            Cached(slots[key := slot], areas + [Area(slot)], after)
  {
    hide Shows, Disjoint;
    var after := Painted(Painted(pixels, Area(slot), None), Inside(slot), Some(key));
    DrawingSpares(pixels, slot, key, slots, areas);
    var more := slots[key := slot];
    forall k | k in more ensures Holds(more[k], k, areas + [Area(slot)], after) {
      assert Area(slot) in areas + [Area(slot)];
      if k != key { assert Holds(slots[k], k, areas, pixels); }
    }
  }

  lemma AreasGrow(slots: map<GlyphKey, GlyphSlot>, areas: seq<Rect>, pixels: Pixels, more: seq<Rect>)
    requires Cached(slots, areas, pixels)
    ensures Cached(slots, areas + more, pixels)
  {
    hide Shows;
    forall k | k in slots ensures Holds(slots[k], k, areas + more, pixels) {
      assert Holds(slots[k], k, areas, pixels);
    }
  }

  /** What the browser grants when asked. */
  datatype Dom = Dom(document: bool, element: bool, context: bool)

  /** Cell metrics in whole pixels, and the measured overhang. */
  datatype Metrics = Metrics(width: nat, height: nat, wideWidth: nat, overhang: nat)

  /** `x.ceil().max(1.0)`. */
  function Pixels1(x: real): (n: nat)
    ensures n >= 1 && (x > 1.0 ==> x <= n as real < x + 1.0)
  {
    var up := -((-x).Floor);
    if up < 1 then 1 else up
  }

  /** The metrics of a cell; a wide glyph is never narrower than a narrow one. */
  function MetricsOf(cellWidth: real, cellHeight: real, overhang: nat): (m: Metrics)
    ensures 1 <= m.width <= m.wideWidth && 1 <= m.height
  {
    Metrics(Pixels1(cellWidth), Pixels1(cellHeight), Pixels1(cellWidth * 2.0), overhang)
  }

  predicate Sensible(m: Metrics) {
    m.width <= m.wideWidth && 1 <= m.wideWidth && m.wideWidth + Max(m.overhang, MIN_HORIZ_PAD) * 2 <= LARGE
      && m.height <= LARGE
  }

  class GlyphAtlas {
    var hasCanvas: bool
    var hasContext: bool
    var slots: map<GlyphKey, GlyphSlot>
    var version: nat
    var nextX: nat
    var nextY: nat
    var rowHeight: nat
    var cellWidth: nat
    var cellHeight: nat
    var wideCellWidth: nat
    var horizPad: nat
    var cachedSize: nat
    /** Areas handed out since the atlas was last emptied, and what the canvas shows. */
    ghost var areas: seq<Rect>
    ghost var pixels: Pixels

    function AtlasSize(): nat reads this { if cachedSize > 0 then cachedSize else MIN_SIZE }

    function Layout(): Shelf reads this { Shelf(AtlasSize(), nextX, nextY, rowHeight) }

    /** No two areas handed out overlap, and every cached slot still shows its glyph and
        has the size its glyph needs. */
    ghost predicate Valid()
      reads this
    {
      && (cachedSize == 0 || MIN_SIZE <= cachedSize <= MAX_SIZE)
      && hasCanvas == hasContext && (hasContext ==> cachedSize > 0) && (slots != map[] ==> hasContext)
      && AllPlaced(Layout(), areas)
      && Cached(slots, areas, pixels)
      && (forall key | key in slots :: FitsCell(slots[key], key))
    }

    /** The slot has room for its glyph, wide or narrow, and for the padding around it. */
    predicate FitsCell(slot: GlyphSlot, key: GlyphKey)
      reads this
    {
      && (key.wide ==> slot.width == Max(wideCellWidth, 1) + 2 * horizPad)
      && (!key.wide ==> slot.width == Max(cellWidth, 1) + 2 * horizPad)
      && slot.height == Max(cellHeight, 1) + VERT_PAD
    }

    constructor ()
      ensures Valid() && slots == map[] && areas == [] && Steady(0)
    {
      hasCanvas, hasContext, slots, version := false, false, map[], 0;
      nextX, nextY, rowHeight, cellWidth, cellHeight, wideCellWidth, horizPad, cachedSize := 0, 0, 0, 0, 0, 0, 0, 0;
      areas, pixels := [], (_, _) => None;
      new;
      NothingYet(Layout(), pixels);
    }

    /** The atlas has its first size, and after `n` requests holds no more glyphs than
        that size has room for. */
    ghost predicate Steady(n: nat)
      reads this
    {
      && Valid() && AtlasSize() == MIN_SIZE && |slots| <= |areas|
      && 0 <= cellWidth <= wideCellWidth && Max(wideCellWidth, 1) + horizPad * 2 <= LARGE && cellHeight <= LARGE
      && Low(Layout(), n)
      && (hasContext ==> Bounded(Layout(), |areas|, NarrowWidth(cellWidth, horizPad), SlotHeight(cellHeight)))
    }

    /** Forgets every slot and starts over at the top left. */
    method Restart()
      modifies this`slots, this`version, this`nextX, this`nextY, this`rowHeight, this`areas
      ensures slots == map[] && areas == [] && version == WrappingNext(old(version)) && Layout() == Empty(AtlasSize())
      ensures AllPlaced(Layout(), areas) && Cached(slots, areas, pixels)
    {
      slots := map[];
      version := WrappingNext(version);
      nextX, nextY, rowHeight := PADDING, PADDING, 0;
      areas := [];
      NothingYet(Layout(), pixels);
    }

    method Invalidate(ghost n: nat)
      requires Valid()
      modifies this
      ensures old(Steady(n)) ==> Steady(n)
      ensures Valid() && slots == map[] && areas == [] && Layout() == Empty(AtlasSize())
      ensures hasCanvas == old(hasCanvas) && cachedSize == old(cachedSize) && version == WrappingNext(old(version))
      ensures cellWidth == cellHeight == wideCellWidth == 0 && horizPad == MIN_HORIZ_PAD
    {
      hide AllPlaced, Cached, WrappingNext, Bounded, Low;
      EmptySteady(n);
      if hasContext && cachedSize > 0 {
        pixels := Painted(pixels, Rect(0, 0, cachedSize, cachedSize), None);
      }
      cellWidth, cellHeight, wideCellWidth, horizPad := 0, 0, 0, MIN_HORIZ_PAD;
      Restart();
    }

    /** A canvas of the given size, empty if it had to be made or resized. */
    method EnsureCanvasSized(size: nat, dom: Dom) returns (ok: bool)
      requires Valid()
      modifies this
      ensures Valid()
      ensures ok ==> hasContext && cachedSize == Clamp(size)
      ensures if old(cachedSize) == Clamp(size) && old(hasContext) then ok && Untouched() && hasContext
              else if ok then slots == map[] && areas == [] && Layout() == Empty(Clamp(size))
                   && version == WrappingNext(old(version))
              else Untouched() && hasContext == old(hasContext) && !(dom.document && dom.element && dom.context)
      ensures SameMetrics()
    {
      hide AllPlaced, Cached, WrappingNext;
      var size := Clamp(size);
      if cachedSize == size && hasCanvas && hasContext { return true; }
      if !dom.document { return false; }
      if hasCanvas {
        hasCanvas := false;
      } else if !dom.element {
        return false;
      }
      if !hasContext && !dom.context { return false; }
      hasCanvas, hasContext := true, true;
      cachedSize := size;
      pixels := (_, _) => None;
      Restart();
      return true;
    }

    /** Nothing cached and nothing allocated has changed. */
    twostate predicate Untouched()
      reads this
    {
      slots == old(slots) && Layout() == old(Layout()) && cachedSize == old(cachedSize) && areas == old(areas)
      && pixels == old(pixels) && version == old(version)
    }

    twostate predicate SameMetrics()
      reads this
    {
      cellWidth == old(cellWidth) && cellHeight == old(cellHeight) && wideCellWidth == old(wideCellWidth)
        && horizPad == old(horizPad)
    }

    predicate HasMetrics(m: Metrics)
      reads this
    {
      cellWidth == m.width && cellHeight == m.height && wideCellWidth == m.wideWidth
    }

    method EnsureMetrics(m: Metrics, dom: Dom, ghost n: nat) returns (ok: bool)
      requires Valid()
      modifies this
      ensures Valid()
      ensures old(Steady(n)) && Sensible(m) ==> Steady(n)
      ensures ok ==> hasContext && HasMetrics(m)
      ensures if ok && !old(HasMetrics(m)) then slots == map[] && areas == []
              && horizPad == Max(m.overhang, MIN_HORIZ_PAD)
              else SameMetrics() && slots == old(slots)
      ensures old(hasContext) && old(HasMetrics(m)) ==> ok && Untouched() && SameMetrics()
      ensures ok || (hasContext == old(hasContext) && Untouched() && SameMetrics())
      ensures AtlasSize() == old(AtlasSize())
      ensures (Untouched() && hasContext == old(hasContext))
              || (slots == map[] && areas == [] && Layout() == Empty(AtlasSize()))
      ensures ok && !old(HasMetrics(m)) ==> Layout() == Empty(AtlasSize())
    {
      hide AllPlaced, Cached, Bounded, Low;
      if old(Steady(n)) { EmptySteady(n); }
      ok := EnsureCanvasSized(AtlasSize(), dom);
      if !ok { return; }
      if !HasMetrics(m) {
        Invalidate(n);
        cellWidth, cellHeight, wideCellWidth := m.width, m.height, m.wideWidth;
        if hasContext { horizPad := Max(m.overhang, MIN_HORIZ_PAD); }
      }
    }

    method AllocateSlot(width: nat, height: nat) returns (slot: Option<GlyphSlot>)
      requires Valid() && InRange(Layout(), width, height)
      modifies this`nextX, this`nextY, this`rowHeight, this`areas
      ensures Valid() && (Layout(), slot) == Allocate(old(Layout()), width, height)
      ensures match slot
              case None => areas == old(areas)
              case Some(v) =>
                && v.x >= PADDING && v.y >= PADDING && areas == old(areas) + [Area(v)]
                && forall r | r in old(areas) :: Disjoint(r, Area(v))
    {
      hide AllPlaced, Cached, Disjoint;
      AllocatePlaced(Layout(), areas, width, height);
      var allocWidth := width + PADDING * 2;
      var allocHeight := height + PADDING * 2;
      var size := AtlasSize();
      if allocWidth >= size || allocHeight >= size { return None; }
      if nextX + allocWidth >= size {
        nextX := PADDING;
        nextY := Min(nextY + Max(rowHeight, PADDING), U32_MAX);
        rowHeight := 0;
      }
      if nextY + allocHeight >= size { return None; }
      slot := Some(GlyphSlot(nextX + PADDING, nextY + PADDING, width, height));
      nextX := Min(nextX + allocWidth + PADDING, U32_MAX);
      rowHeight := Max(rowHeight, allocHeight + PADDING);
      AreasGrow(slots, areas, pixels, [Area(slot.value)]);
      areas := areas + [Area(slot.value)];
    }

    method SizeForGlyphs(count: nat) returns (size: nat)
      ensures Covers(size, NeededSide(cellWidth, cellHeight, horizPad, count))
    {
      hide NeededSide, Covers, RowsOf, ColsOf, Clamp;
      SideIs(cellWidth, cellHeight, horizPad, count);
      if count == 0 { return MIN_SIZE; }
      var cw := Max(cellWidth, 1) + horizPad * 2 + PADDING * 3;
      var ch := Max(cellHeight, 1) + PADDING * 3;
      var cols := ColsOf(cw);
      if cols == 0 { return MAX_SIZE; }
      var heightNeeded := RowsOf(count, cols) * ch;
      size := Doubled(MIN_SIZE, heightNeeded, 0);
      // The width has to take at least one glyph as well.
      size := Doubled(size, cw, heightNeeded);
      CoversClamped(size, Max(heightNeeded, cw));
      size := Clamp(size);
    }

    /** Doubles a size until it covers `need`, or cannot be doubled further. */
    static method Doubled(from: nat, need: nat, ghost covered: nat) returns (size: nat)
      requires Covers(from, covered)
      ensures Covers(size, Max(covered, need))
    {
      size := from;
      while size < need && size < MAX_SIZE
        invariant size == MIN_SIZE || size == 2 * MIN_SIZE || size == MAX_SIZE
        invariant covered <= size || size == MAX_SIZE
        invariant size == MIN_SIZE || size / 2 < Max(covered, need)
      {
        size := size * 2;
      }
    }

    /** Grows the atlas if the wanted size is larger, which empties it; never shrinks it. */
    method EnsureCapacity(count: nat, dom: Dom, ghost n: nat) returns (ok: bool)
      requires Valid()
      modifies this
      ensures Valid() && SameMetrics()
      ensures old(Steady(n)) && count == |old(slots)| ==> Untouched() && hasContext == old(hasContext) && Steady(n)
      ensures ok ==> exists size ::
                Covers(size, NeededSide(cellWidth, cellHeight, horizPad, count))
                  && AtlasSize() == Max(size, old(AtlasSize()))
      ensures AtlasSize() == old(AtlasSize()) ==> Untouched()
      ensures AtlasSize() != old(AtlasSize()) ==> ok && AtlasSize() > old(AtlasSize()) && slots == map[] && areas == []
    {
      hide AllPlaced, Cached, WrappingNext, NeededSide, Bounded, Low, MostAreas;
      if old(Steady(n)) && count == |slots| {
        if hasContext {
          BoundedCount(Layout(), |areas|, NarrowWidth(cellWidth, horizPad), SlotHeight(cellHeight));
        }
        HeldGlyphsFit(cellWidth, cellHeight, horizPad, count);
      }
      var required := SizeForGlyphs(count);
      ok := true;
      if required > AtlasSize() { ok := EnsureCanvasSized(required, dom); }
    }

    function RenderWidth(key: GlyphKey): nat
      reads this
    {
      Max(if key.wide then wideCellWidth else cellWidth, 1) + horizPad * 2
    }

    function RenderHeight(): nat reads this { SlotHeight(cellHeight) }

    /** The sums the source forms fit in 32 bits, whether the metrics and the canvas stay
        as they are or are replaced first. */
    predicate SumsFit(key: GlyphKey, m: Metrics)
      reads this
    {
      && InRange(Layout(), RenderWidth(key), RenderHeight())
      && InRange(Empty(AtlasSize()), RenderWidth(key), RenderHeight())
      && InRange(Empty(AtlasSize()),
                 Max(if key.wide then m.wideWidth else m.width, 1) + Max(m.overhang, MIN_HORIZ_PAD) * 2,
                 SlotHeight(m.height))
    }

    /** The cached slot of a glyph, drawing it first if it is new. */
    method EnsureGlyph(key: GlyphKey, m: Metrics, dom: Dom, ghost n: nat) returns (slot: Option<GlyphSlot>)
      requires Valid() && SumsFit(key, m)
      modifies this
      ensures Valid()
      ensures old(Steady(n)) && Sensible(m) ==> Steady(n + 1)
      ensures slot == if key in slots then Some(slots[key]) else None
      ensures slots.Keys <= old(slots.Keys) + {key}
      ensures old(HasMetrics(m)) ==> forall k | k in old(slots) :: k in slots && slots[k] == old(slots[k])
      ensures old(hasContext && HasMetrics(m)) ==>
                if old(key in slots) then Untouched() && slot == Some(old(slots[key])) else Added(key, slot)
    {
      hide AllPlaced, Cached, Allocate, CodePoint, InRange, Bounded, Low;
      var ok := EnsureMetrics(m, dom, n);
      slot := FindGlyph(key, n);
    }

    method FindGlyph(key: GlyphKey, ghost n: nat) returns (slot: Option<GlyphSlot>)
      requires Valid() && InRange(Layout(), RenderWidth(key), RenderHeight())
      modifies this`nextX, this`nextY, this`rowHeight, this`areas, this`slots, this`version, this`pixels
      ensures Valid()
      ensures old(Steady(n)) ==> Steady(n + 1)
      ensures slot == if key in slots then Some(slots[key]) else None
      ensures if old(key in slots) then Untouched() else Added(key, slot)
    {
      hide AllPlaced, Cached, Allocate, CodePoint, InRange, Bounded, Low;
      if Steady(n) { LowLater(Layout(), n); }
      if key in slots { return Some(slots[key]); }
      slot := AddGlyph(key, n);
    }

    /** One slot was asked for; it is remembered if it was given and the glyph can be
        drawn, and its area is taken either way. */
    twostate predicate Added(key: GlyphKey, new slot: Option<GlyphSlot>)
      reads this
    {
      var (after, given) := Allocate(old(Layout()), RenderWidth(key), RenderHeight());
      && Layout() == after && SameMetrics()
      && slot == (if CodePoint(key).Some? && hasContext then given else None)
      && slots == (if slot.Some? then old(slots)[key := slot.value] else old(slots))
      && areas == (if given.Some? then AllocateKeepsSize(old(Layout()), RenderWidth(key), RenderHeight());
                   old(areas) + [Area(given.value)] else old(areas))
      && version == (if slot.Some? then WrappingNext(old(version)) else old(version))
    }

    /** A glyph that is not cached yet.  Its area is taken even if nothing can be drawn there. */
    method AddGlyph(key: GlyphKey, ghost n: nat) returns (slot: Option<GlyphSlot>)
      requires Valid() && key !in slots && InRange(Layout(), RenderWidth(key), RenderHeight())
      modifies this`nextX, this`nextY, this`rowHeight, this`areas, this`slots, this`version, this`pixels
      ensures Valid()
      ensures old(Steady(n)) ==> Steady(n + 1)
      ensures Added(key, slot)
    {
      hide AllPlaced, Cached, WrappingNext, Disjoint, Shows, Allocate, CodePoint, Bounded, Low, InRange;
      if Steady(n) { SteadyAllocate(n, key); }
      var renderWidth := RenderWidth(key);
      var renderHeight := RenderHeight();
      AllocatedSize(Layout(), renderWidth, renderHeight);
      slot := AllocateSlot(renderWidth, renderHeight);
      if slot.None? { return None; }
      if !hasContext { return None; }
      if CodePoint(key).None? { return None; }
      Draw(key, slot.value, old(areas));
    }

    lemma SteadyAllocate(n: nat, key: GlyphKey)
      requires Steady(n)
      ensures var (after, given) := Allocate(Layout(), RenderWidth(key), RenderHeight());
              && Low(after, n + 1)
              && (hasContext ==> Bounded(after, if given.Some? then |areas| + 1 else |areas|,
                                         NarrowWidth(cellWidth, horizPad), SlotHeight(cellHeight)))
    {
      hide Bounded, Low, Allocate, AllPlaced, Cached;
      AllocateLow(Layout(), n, RenderWidth(key), RenderHeight());
      if hasContext {
        AllocateBounded(Layout(), |areas|, NarrowWidth(cellWidth, horizPad), SlotHeight(cellHeight), RenderWidth(key),
                        RenderHeight());
      }
    }

    /** Clears the area, draws the glyph clipped to its slot, and remembers it. */
    method Draw(key: GlyphKey, slot: GlyphSlot, ghost earlier: seq<Rect>)
      requires slot.x >= PADDING && slot.y >= PADDING && areas == earlier + [Area(slot)]
      requires Cached(slots, earlier, pixels) && forall r | r in earlier :: Disjoint(r, Area(slot))
      modifies this`slots, this`version, this`pixels
      ensures Cached(slots, areas, pixels) && slots == old(slots)[key := slot] && Shows(pixels, slot, key)
      ensures version == WrappingNext(old(version))
    {
      hide Cached, Disjoint, Shows, WrappingNext;
      DrawingCaches(slots, earlier, pixels, slot, key);
      DrawingSpares(pixels, slot, key, slots, earlier);
      pixels := Painted(pixels, Area(slot), None);
      pixels := Painted(pixels, Inside(slot), Some(key));
      slots := slots[key := slot];
      version := WrappingNext(version);
    }
  }

  // ------------------------------------------------------------ whole sessions

  /** One `prepare_render_ops`: the cell size, the measured overhang, and the glyphs the
      frame shows; the browser may answer differently every time it is asked. */
  datatype Frame = Frame(cellWidth: real, cellHeight: real, overhang: nat, dom: Dom, glyphs: seq<(GlyphKey, Dom)>)
  {
    function Metrics(): Metrics { MetricsOf(cellWidth, cellHeight, overhang) }
  }

  /** The cache is dropped, or a frame is drawn. */
  datatype Call = Forget | Draw(frame: Frame)

  function Requests(calls: seq<Call>): nat {
    if calls == [] then 0
    else Requests(calls[..|calls| - 1]) + (match calls[|calls| - 1] case Forget => 0 case Draw(f) => |f.glyphs|)
  }

  lemma FrameFits(atlas: GlyphAtlas, n: nat, key: GlyphKey, m: Metrics)
    requires atlas.Steady(n) && Sensible(m) && n <= MANY
    ensures atlas.SumsFit(key, m)
  {
    hide Low, InRange, Bounded, AllPlaced, Cached;
    EmptySteady(n);
    LowInRange(atlas.Layout(), n, atlas.RenderWidth(key), atlas.RenderHeight());
    LowInRange(Empty(MIN_SIZE), n, atlas.RenderWidth(key), atlas.RenderHeight());
    LowInRange(Empty(MIN_SIZE), n,
               Max(if key.wide then m.wideWidth else m.width, 1) + Max(m.overhang, MIN_HORIZ_PAD) * 2,
               SlotHeight(m.height));
  }

  /** The atlas part of a frame: it grows for the glyphs it already holds, so never. */
  method DrawFrame(atlas: GlyphAtlas, frame: Frame, ghost n: nat)
    requires atlas.Steady(n) && Sensible(frame.Metrics()) && n + |frame.glyphs| <= MANY
    modifies atlas
    ensures atlas.Steady(n + |frame.glyphs|)
  {
    var m := frame.Metrics();
    var ok := atlas.EnsureMetrics(m, frame.dom, n);
    ok := atlas.EnsureCapacity(|atlas.slots|, frame.dom, n);
    for i := 0 to |frame.glyphs|
      invariant atlas.Steady(n + i)
    {
      FrameFits(atlas, n + i, frame.glyphs[i].0, m);
      var slot := atlas.EnsureGlyph(frame.glyphs[i].0, m, frame.glyphs[i].1, n + i);
    }
  }

  /** Over every session, whatever mix of narrow and wide glyphs is shown and whenever the
      cache is dropped, the atlas keeps its first size and never holds more glyphs than
      that size has room for. */
  method DrawAll(calls: seq<Call>) returns (atlas: GlyphAtlas)
    requires Requests(calls) <= MANY && forall c | c in calls && c.Draw? :: Sensible(c.frame.Metrics())
    ensures fresh(atlas) && atlas.Valid() && atlas.AtlasSize() == MIN_SIZE
    ensures |atlas.slots| <= MostAreas(MIN_SIZE, NarrowWidth(atlas.cellWidth, atlas.horizPad),
                                       SlotHeight(atlas.cellHeight))
  {
    hide MostAreas, Sensible;
    atlas := new GlyphAtlas();
    for i := 0 to |calls|
      invariant fresh(atlas) && Requests(calls[..i]) <= Requests(calls) && atlas.Steady(Requests(calls[..i]))
    {
      assert calls[..i + 1][..i] == calls[..i];
      RequestsGrow(calls, i + 1);
      ghost var n := Requests(calls[..i]);
      match calls[i]
      case Forget => atlas.Invalidate(n);
      case Draw(frame) => DrawFrame(atlas, frame, n);
    }
    if atlas.hasContext {
      BoundedCount(atlas.Layout(), |atlas.areas|, NarrowWidth(atlas.cellWidth, atlas.horizPad),
                   SlotHeight(atlas.cellHeight));
    }
  }

  lemma {:induction false} RequestsGrow(calls: seq<Call>, i: nat)
    requires i <= |calls|
    ensures Requests(calls[..i]) <= Requests(calls)
    decreases |calls| - i
  {
    if i < |calls| {
      assert calls[..i + 1][..i] == calls[..i];
      RequestsGrow(calls, i + 1);
    } else {
      assert calls[..i] == calls;
    }
  }
}
