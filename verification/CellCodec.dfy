/** The 12-byte cell format: written by the terminal driver, read by the browser.
    Bits are written with `+`, `/` and `%`; reading every field back shows that no two
    fields share a bit. */
module CellCodec {
  import opened Common
  import opened Utf8
  import opened Strings

  const FOREGROUND: nat := 256
  const BACKGROUND: nat := 257
  const CELL_SIZE: nat := 12

  datatype Color = Named(name: nat) | Indexed(index: Byte) | Spec(r: Byte, g: Byte, b: Byte)

  /** A terminal cell.  `extra` is the cell's side allocation, holding the zero-width
      marks; it can be there without any. */
  datatype Cell = Cell(
    c: char, fg: Color, bg: Color, bold: bool, dim: bool, italic: bool, underline: bool, inverse: bool,
    wide: bool, spacer: bool, extra: Option<string>)

  // ------------------------------------------------------------ UTF-8 strings

  function Utf8Of(s: string): seq<Byte> {
    if s == "" then [] else EncodeScalar(ScalarOf(s[0])) + Utf8Of(s[1..])
  }

  function CharOf(c: Scalar): char {
    assert !IsSurrogate(c);
    c as char
  }

  /** `std::str::from_utf8`. */
  function FromUtf8(s: seq<Byte>): Option<string> {
    hide Utf8Char, DecodeChar, CharOf;
    if s == [] then Some("")
    else
      var n := CharWidth(s, 0);
      if n == 0 then None
      else
        var rest := FromUtf8(s[n..]);
        if rest.None? then None else (assert s[0..0 + n] == s[..n]; Some([CharOf(DecodeChar(s[..n]))] + rest.value))
  }

  lemma {:induction false} FromUtf8Of(s: string)
    ensures FromUtf8(Utf8Of(s)) == Some(s)
  {
    hide EncodeScalar, DecodeChar, Utf8Char, CharWidth;
    if s != "" {
      var p, rest := EncodeScalar(ScalarOf(s[0])), Utf8Of(s[1..]);
      EncodeScalarIsChar(ScalarOf(s[0]));
      FromUtf8Of(s[1..]);
      assert (p + rest)[0..0 + |p|] == p && (p + rest)[..|p|] == p && (p + rest)[|p|..] == rest;
      assert CharAt(p + rest, 0, |p|);
      assert [s[0]] + s[1..] == s;
    }
  }

  lemma {:induction false} Utf8OfLength(s: string)
    ensures |Utf8Of(s)| == Bytes(s)
  {
    hide EncodeScalar;
    if s != "" {
      Utf8OfLength(s[1..]);
      BytesConcat([s[0]], s[1..]);
      assert [s[0]] + s[1..] == s;
      assert Bytes([s[0]]) == CharLen(s[0]) by { assert [s[0]][..0] == ""; }
    }
  }

  // ------------------------------------------------------------ the format

  function Bit(b: bool, value: nat): nat { if b then value else 0 }

  /** 0: default, 1: palette index, 2: RGB. */
  function ColorType(color: Color, normal: nat): (kind: nat)
    ensures kind <= 2
  {
    if color == Named(normal) then 0 else if color.Spec? then 2 else 1
  }

  function ColorBytes(color: Color): (bytes: seq<Byte>)
    ensures |bytes| == 3
  {
    match color
    case Named(n) => [n % 0x100, 0, 0]
    case Indexed(i) => [i, 0, 0]
    case Spec(r, g, b) => [r, g, b]
  }

  predicate Blank(c: char) { c == '\0' || c == ' ' }

  function Marks(cell: Cell): string { if cell.extra.Some? then cell.extra.value else "" }

  /** The text of a cell that is not blank. */
  function Full(cell: Cell): string { [cell.c] + Marks(cell) }

  /** Content code: the number of bytes in the cell, or 7 for text kept beside it. */
  function ContentCode(cell: Cell): (code: nat)
    ensures code <= 4 || code == 7
  {
    if Blank(cell.c) then 0 else if Bytes(Full(cell)) <= 4 then Bytes(Full(cell)) else 7
  }

  function F0(cell: Cell): (f0: nat)
    ensures f0 < 0x100
  {
    ColorType(cell.fg, FOREGROUND) + 4 * ColorType(cell.bg, BACKGROUND)
    + Bit(cell.bold, 16) + Bit(cell.dim, 32) + Bit(cell.italic, 64) + Bit(cell.underline, 128)
  }

  function F1(cell: Cell, linked: bool): (f1: nat)
    ensures f1 < 0x100
  {
    Bit(cell.inverse, 1) + Bit(cell.wide, 2) + Bit(cell.spacer, 4) + 8 * ContentCode(cell) + Bit(linked, 64)
  }

  function Zeros(n: nat): seq<Byte> { seq(n, _ => 0) }

  /** The content bytes, where `hash` stands for text kept beside the cell. */
  function ContentBytes(cell: Cell, hash: seq<Byte>): seq<Byte>
    requires |hash| == 4
  {
    var code := ContentCode(cell);
    if code == 7 then hash
    else if code == 0 then Zeros(4)
    else Utf8OfLength(Full(cell)); Utf8Of(Full(cell)) + Zeros(4 - code)
  }

  /** The twelve bytes of a cell.  A default foreground leaves its colour bytes as they were. */
  function Encoded(cell: Cell, linked: bool, hash: seq<Byte>, before: seq<Byte>): seq<Byte>
    requires |hash| == 4 && |before| == CELL_SIZE
  {
    [F0(cell), F1(cell, linked)]
    + (if ColorType(cell.fg, FOREGROUND) == 0 then before[2..5] else ColorBytes(cell.fg))
    + (if ColorType(cell.bg, BACKGROUND) == 0 then Zeros(3) else ColorBytes(cell.bg))
    + ContentBytes(cell, hash)
  }

  // ------------------------------------------------------------ writing in place

  /** `u32::to_le_bytes`. */
  function LeBytes(n: nat): (bytes: seq<Byte>)
    ensures |bytes| == 4
  {
    [n % 0x100, n / 0x100 % 0x100, n / 0x1_0000 % 0x100, n / 0x100_0000 % 0x100]
  }

  /** Only `count` bytes from `at` on may differ. */
  twostate predicate OnlyChanges(buf: array<Byte>, at: nat, count: nat)
    reads buf
  {
    forall i | 0 <= i < buf.Length && !(at <= i < at + count) :: buf[i] == old(buf[i])
  }

  method PutColor(color: Color, normal: nat, clears: bool, buf: array<Byte>, at: nat) returns (kind: nat)
    requires at + 3 <= buf.Length
    modifies buf
    ensures kind == ColorType(color, normal) && OnlyChanges(buf, at, 3)
    ensures buf[at..at + 3] == if kind != 0 then ColorBytes(color) else if clears then Zeros(3)
            else old(buf[at..at + 3])
  {
    match color {
      case Named(n) =>
        if n == normal {
          if clears { buf[at], buf[at + 1], buf[at + 2] := 0, 0, 0; }
          return 0;
        }
        buf[at], buf[at + 1], buf[at + 2] := n % 0x100, 0, 0;
        kind := 1;
      case Indexed(i) =>
        buf[at], buf[at + 1], buf[at + 2] := i, 0, 0;
        kind := 1;
      case Spec(r, g, b) =>
        buf[at], buf[at + 1], buf[at + 2] := r, g, b;
        kind := 2;
    }
  }

  /** Copies at most four bytes and fills the rest with zeros. */
  method PutBytes(bytes: seq<Byte>, buf: array<Byte>, at: nat)
    requires |bytes| <= 4 && at + 4 <= buf.Length
    modifies buf
    ensures OnlyChanges(buf, at, 4) && buf[at..at + 4] == bytes + Zeros(4 - |bytes|)
  {
    ghost var filled := bytes + Zeros(4 - |bytes|);
    forall k | 0 <= k < 4 {
      buf[at + k] := if k < |bytes| then bytes[k] else 0;
    }
    assert buf[at] == filled[0] && buf[at + 1] == filled[1] && buf[at + 2] == filled[2] && buf[at + 3] == filled[3];
  }

  lemma AsciiBytes(c: char)
    requires c as int <= 0x7f
    ensures Utf8Of([c]) == [c as int] && Bytes([c]) == 1
  {
    assert [c][1..] == "" && [c][..0] == "";
  }

  method PutContent(cell: Cell, hash: seq<Byte> -> nat, buf: array<Byte>, at: nat, flat: nat,
                    overflow: map<nat, string>)
    returns (code: nat, more: map<nat, string>)
    requires at + 4 <= buf.Length
    modifies buf
    ensures code == ContentCode(cell) && OnlyChanges(buf, at, 4)
    ensures buf[at..at + 4] == ContentBytes(cell, LeBytes(hash(Utf8Of(Full(cell)))))
    ensures more == if code == 7 then overflow[flat := Full(cell)] else overflow
  {
    hide Utf8Of, Bytes;
    more := overflow;
    var c := cell.c;
    Utf8OfLength(Full(cell));
    if ' ' < c && c as int <= 0x7f && cell.extra.None? {
      assert Full(cell) == [c];
      AsciiBytes(c);
      PutBytes([c as int], buf, at);
      code := 1;
    } else if c == '\0' || c == ' ' {
      PutBytes([], buf, at);
      code := 0;
    } else if cell.extra.Some? {
      var full := [c] + cell.extra.value;
      var bytes := Utf8Of(full);
      if |bytes| <= 4 {
        NotEmpty(cell);
        PutBytes(bytes, buf, at);
        code := |bytes|;
      } else {
        PutBytes(LeBytes(hash(bytes)), buf, at);
        code := 7;
        more := overflow[flat := full];
      }
    } else {
      assert Full(cell) == [c];
      OneCharFits(c);
      NotEmpty(cell);
      PutBytes(Utf8Of([c]), buf, at);
      code := |Utf8Of([c])|;
    }
  }

  lemma OneCharFits(c: char)
    ensures Bytes([c]) <= 4
  {
    assert [c][..0] == "";
  }

  lemma NotEmpty(cell: Cell)
    ensures Bytes(Full(cell)) >= 1
  {
    BytesAtLeastLength(Full(cell));
  }

  method StyleBits(cell: Cell, colors: nat) returns (f0: nat)
    ensures f0 == colors + Bit(cell.bold, 16) + Bit(cell.dim, 32) + Bit(cell.italic, 64) + Bit(cell.underline, 128)
  {
    f0 := colors;
    if cell.bold { f0 := f0 + 16; }
    if cell.dim { f0 := f0 + 32; }
    if cell.italic { f0 := f0 + 64; }
    if cell.underline { f0 := f0 + 128; }
  }

  method LayoutBits(cell: Cell, linked: bool, content: nat) returns (f1: nat)
    ensures f1 == Bit(cell.inverse, 1) + Bit(cell.wide, 2) + Bit(cell.spacer, 4) + content + Bit(linked, 64)
  {
    f1 := 0;
    if cell.inverse { f1 := f1 + 1; }
    if cell.wide { f1 := f1 + 2; }
    if cell.spacer { f1 := f1 + 4; }
    if linked { f1 := f1 + 64; }
    f1 := f1 + content;
  }

  /** `encode_cell`: the twelve bytes at `at`, and the overflow map when they do not hold
      the text. */
  method EncodeCell(cell: Cell, hash: seq<Byte> -> nat, buf: array<Byte>, at: nat, flat: nat,
                    overflow: map<nat, string>, linked: bool)
    returns (more: map<nat, string>)
    requires at + CELL_SIZE <= buf.Length
    modifies buf
    ensures OnlyChanges(buf, at, CELL_SIZE)
    ensures buf[at..at + CELL_SIZE] ==
            Encoded(cell, linked, LeBytes(hash(Utf8Of(Full(cell)))), old(buf[at..at + CELL_SIZE]))
    ensures more == if Beside(cell).Some? then overflow[flat := Full(cell)] else overflow
  {
    hide ColorType, ColorBytes, ContentCode, ContentBytes, Utf8Of, LeBytes, Bit, Zeros;
    SliceOfSlice(buf[..], at);
    var f0 := PutColor(cell.fg, FOREGROUND, false, buf, at + 2);
    ghost var fg := buf[at + 2..at + 5];
    var background := PutColor(cell.bg, BACKGROUND, true, buf, at + 5);
    ghost var bg := buf[at + 5..at + 8];
    assert buf[at + 2..at + 5] == fg;
    f0 := StyleBits(cell, f0 + 4 * background);
    var code;
    code, more := PutContent(cell, hash, buf, at + 8, flat, overflow);
    var f1 := LayoutBits(cell, linked, 8 * code);
    ghost var content := buf[at + 8..at + 12];
    assert buf[at + 2..at + 5] == fg && buf[at + 5..at + 8] == bg;
    assert f0 == F0(cell) && f1 == F1(cell, linked);
    buf[at], buf[at + 1] := f0, f1;
    assert buf[at + 2..at + 5] == fg && buf[at + 5..at + 8] == bg && buf[at + 8..at + 12] == content;
    Twelve(buf[..], at);
  }

  lemma SliceOfSlice(s: seq<Byte>, at: nat)
    requires at + 12 <= |s|
    ensures s[at..at + 12][2..5] == s[at + 2..at + 5]
  {
    var t := s[at..at + 12];
    assert t[2..5] == [t[2], t[3], t[4]] && s[at + 2..at + 5] == [s[at + 2], s[at + 3], s[at + 4]];
  }

  lemma Twelve(s: seq<Byte>, at: nat)
    requires at + 12 <= |s|
    ensures s[at..at + 12] == [s[at], s[at + 1]] + s[at + 2..at + 5] + s[at + 5..at + 8] + s[at + 8..at + 12]
  {
  }

  // ------------------------------------------------------------ the browser's reading

  /** `Special` is a named colour outside the 256-colour palette; it is never read back. */
  datatype Shade = Default | Palette(index: nat) | Rgb(r: nat, g: nat, b: nat) | Special(name: nat)

  datatype Seen = Seen(
    text: string, fg: Shade, bg: Shade, bold: bool, dim: bool, italic: bool, underline: bool, inverse: bool,
    wide: bool, spacer: bool, link: bool)

  function ReadShade(kind: nat, r: nat, g: nat, b: nat): Shade {
    if kind == 1 then Palette(r) else if kind == 2 then Rgb(r, g, b) else Default
  }

  predicate HasBit(flags: nat, value: nat)
    requires value > 0
  {
    flags / value % 2 == 1
  }

  /** Slicing the content panics unless the code is at most 4 or exactly 7. */
  function Decoded(cell: seq<Byte>, beside: Option<string>): Option<Seen>
    requires |cell| == CELL_SIZE
  {
    var f0, f1 := cell[0], cell[1];
    var code := f1 / 8 % 8;
    if code == 5 || code == 6 then None
    else
      var text :=
        if code == 7 then (if beside.Some? then beside.value else " ")
        else if code > 0 then (var t := FromUtf8(cell[8..8 + code]); if t.Some? then t.value else " ")
        else " ";
      Some(Seen(text, ReadShade(f0 % 4, cell[2], cell[3], cell[4]), ReadShade(f0 / 4 % 4, cell[5], cell[6], cell[7]),
                HasBit(f0, 16), HasBit(f0, 32), HasBit(f0, 64), HasBit(f0, 128), HasBit(f1, 1), HasBit(f1, 2),
                HasBit(f1, 4),
                HasBit(f1, 64)))
  }

  // ------------------------------------------------------------ round trip

  function Meaning(color: Color, normal: nat): Shade {
    match color
    case Named(n) => if n == normal then Default else if n < 0x100 then Palette(n) else Special(n)
    case Indexed(i) => Palette(i)
    case Spec(r, g, b) => Rgb(r, g, b)
  }

  /** What a cell says: an empty cell reads as a space, with its marks. */
  function Says(cell: Cell, linked: bool): Seen {
    Seen([if cell.c == '\0' then ' ' else cell.c] + Marks(cell), Meaning(cell.fg, FOREGROUND),
         Meaning(cell.bg, BACKGROUND),
         cell.bold, cell.dim, cell.italic, cell.underline, cell.inverse, cell.wide, cell.spacer, linked)
  }

  /** What the overflow map holds for the cell. */
  function Beside(cell: Cell): Option<string> { if ContentCode(cell) == 7 then Some(Full(cell)) else None }

  predicate InPalette(color: Color, normal: nat) { color.Named? ==> color.name == normal || color.name < 0x100 }

  lemma F0Fields(f: int, fg: int, bg: int, b: int, d: int, i: int, u: int)
    requires 0 <= fg < 4 && 0 <= bg < 4 && 0 <= b <= 1 && 0 <= d <= 1 && 0 <= i <= 1 && 0 <= u <= 1
    requires f == fg + 4 * bg + 16 * b + 32 * d + 64 * i + 128 * u
    ensures f % 4 == fg && f / 4 % 4 == bg && f / 16 % 2 == b && f / 32 % 2 == d && f / 64 % 2 == i && f / 128 % 2 == u
  {
    assert f / 4 == bg + 4 * b + 8 * d + 16 * i + 32 * u;
    assert f / 16 == b + 2 * d + 4 * i + 8 * u;
    assert f / 32 == d + 2 * i + 4 * u;
    assert f / 64 == i + 2 * u;
    assert f / 128 == u;
  }

  lemma F1Fields(f: int, i: int, w: int, s: int, code: int, l: int)
    requires 0 <= i <= 1 && 0 <= w <= 1 && 0 <= s <= 1 && 0 <= code < 8 && 0 <= l <= 1
    requires f == i + 2 * w + 4 * s + 8 * code + 64 * l
    ensures f / 1 % 2 == i && f / 2 % 2 == w && f / 4 % 2 == s && f / 8 % 8 == code && f / 64 % 2 == l
  {
    assert f / 2 == w + 2 * s + 4 * code + 32 * l;
    assert f / 4 == s + 2 * code + 16 * l;
    assert f / 8 == code + 8 * l;
    assert f / 64 == l;
  }

  lemma F0Read(cell: Cell)
    ensures var f0 := F0(cell);
            && f0 % 4 == ColorType(cell.fg, FOREGROUND) && f0 / 4 % 4 == ColorType(cell.bg, BACKGROUND)
            && HasBit(f0, 16) == cell.bold && HasBit(f0, 32) == cell.dim
            && HasBit(f0, 64) == cell.italic && HasBit(f0, 128) == cell.underline
  {
    hide ColorType;
    F0Fields(F0(cell), ColorType(cell.fg, FOREGROUND), ColorType(cell.bg, BACKGROUND),
             Bit(cell.bold, 1), Bit(cell.dim, 1), Bit(cell.italic, 1), Bit(cell.underline, 1));
  }

  lemma F1Read(cell: Cell, linked: bool)
    ensures var f1 := F1(cell, linked);
            && HasBit(f1, 1) == cell.inverse && HasBit(f1, 2) == cell.wide && HasBit(f1, 4) == cell.spacer
            && f1 / 8 % 8 == ContentCode(cell) && HasBit(f1, 64) == linked
  {
    hide ContentCode;
    F1Fields(F1(cell, linked), Bit(cell.inverse, 1), Bit(cell.wide, 1), Bit(cell.spacer, 1), ContentCode(cell),
             Bit(linked, 1));
  }

  lemma CodeZero(cell: Cell)
    ensures ContentCode(cell) == 0 <==> Blank(cell.c)
  {
    BytesAtLeastLength(Full(cell));
  }

  lemma ContentRead(cell: Cell, hash: seq<Byte>)
    requires |hash| == 4
    ensures |ContentBytes(cell, hash)| == 4
    ensures 0 < ContentCode(cell) <= 4 ==> FromUtf8(ContentBytes(cell, hash)[..ContentCode(cell)]) == Some(Full(cell))
  {
    hide Utf8Of, FromUtf8;
    Utf8OfLength(Full(cell));
    FromUtf8Of(Full(cell));
    var code := ContentCode(cell);
    if 0 < code <= 4 { assert ContentBytes(cell, hash)[..code] == Utf8Of(Full(cell)); }
  }

  /** A palette index keeps only the low byte of a colour's number. */
  function Carried(color: Color, normal: nat): Shade {
    var meant := Meaning(color, normal);
    if meant.Special? then Palette(meant.name % 0x100) else meant
  }

  /** What the browser sees of a cell. */
  function Shown(cell: Cell, linked: bool): Seen {
    Says(cell, linked).(text := if Blank(cell.c) then " " else Full(cell),
                        fg := Carried(cell.fg, FOREGROUND), bg := Carried(cell.bg, BACKGROUND))
  }

  lemma ShadeRead(color: Color, normal: nat, bytes: seq<Byte>)
    requires |bytes| == 3 && (ColorType(color, normal) != 0 ==> bytes == ColorBytes(color))
    ensures ReadShade(ColorType(color, normal), bytes[0], bytes[1], bytes[2]) == Carried(color, normal)
  {
  }

  lemma Parts(cell: Cell, linked: bool, hash: seq<Byte>, before: seq<Byte>)
    requires |hash| == 4 && |before| == CELL_SIZE
    ensures var e := Encoded(cell, linked, hash, before);
            && |e| == CELL_SIZE && e[0] == F0(cell) && e[1] == F1(cell, linked)
            && (ColorType(cell.fg, FOREGROUND) != 0 ==> [e[2], e[3], e[4]] == ColorBytes(cell.fg))
            && (ColorType(cell.bg, BACKGROUND) != 0 ==> [e[5], e[6], e[7]] == ColorBytes(cell.bg))
            && e[8..12] == ContentBytes(cell, hash)
  {
    hide ContentBytes, F0, F1, ContentCode, ColorType, ColorBytes;
    ContentRead(cell, hash);
  }

  /** The content part of what the browser reads. */
  lemma TextRead(cell: Cell, hash: seq<Byte>, e: seq<Byte>)
    requires |hash| == 4 && |e| == CELL_SIZE && e[8..12] == ContentBytes(cell, hash)
    ensures var code := ContentCode(cell);
            && (code == 0 <==> Blank(cell.c)) && (code == 7 <==> Beside(cell).Some?)
            && (0 < code <= 4 ==> FromUtf8(e[8..8 + code]) == Some(Full(cell)))
  {
    hide ContentBytes, FromUtf8;
    ContentRead(cell, hash);
    CodeZero(cell);
    var code := ContentCode(cell);
    assert code <= 4 ==> e[8..8 + code] == e[8..12][..code];
  }

  /** The browser never fails on an encoded cell. */
  lemma DecodeSeesShown(cell: Cell, linked: bool, hash: seq<Byte>, before: seq<Byte>)
    requires |hash| == 4 && |before| == CELL_SIZE
    ensures |Encoded(cell, linked, hash, before)| == CELL_SIZE
    ensures Decoded(Encoded(cell, linked, hash, before), Beside(cell)) == Some(Shown(cell, linked))
  {
    hide Encoded, FromUtf8, HasBit, ContentBytes, F0, F1, ContentCode, ColorType, ColorBytes, ReadShade, Carried,
         Meaning, Blank;
    var e := Encoded(cell, linked, hash, before);
    Parts(cell, linked, hash, before);
    F0Read(cell);
    F1Read(cell, linked);
    TextRead(cell, hash, e);
    ShadeRead(cell.fg, FOREGROUND, [e[2], e[3], e[4]]);
    ShadeRead(cell.bg, BACKGROUND, [e[5], e[6], e[7]]);
  }

  lemma CodeWritten(cell: Cell, linked: bool, hash: seq<Byte>, before: seq<Byte>)
    requires |hash| == 4 && |before| == CELL_SIZE
    ensures var e := Encoded(cell, linked, hash, before); |e| == CELL_SIZE && e[1] / 8 % 8 == ContentCode(cell)
  {
    hide Encoded, F1, ContentCode, HasBit;
    Parts(cell, linked, hash, before);
    F1Read(cell, linked);
  }

  /** The colours are in the palette, and the cell is not a blank with marks. */
  predicate Faithful(cell: Cell) {
    InPalette(cell.fg, FOREGROUND) && InPalette(cell.bg, BACKGROUND) && (Blank(cell.c) ==> Marks(cell) == "")
  }

  lemma ShownIsSaid(cell: Cell, linked: bool)
    ensures Shown(cell, linked) == Says(cell, linked) <==> Faithful(cell)
  {
    var said := Says(cell, linked).text;
    assert |said| == 1 + |Marks(cell)|;
    assert Blank(cell.c) && Marks(cell) == "" ==> said == " ";
  }

  /** It sees exactly what the cell says if and only if the cell is one the format can
      carry faithfully. */
  lemma DecodeUndoesEncode(cell: Cell, linked: bool, hash: seq<Byte>, before: seq<Byte>)
    requires |hash| == 4 && |before| == CELL_SIZE
    ensures |Encoded(cell, linked, hash, before)| == CELL_SIZE
    ensures Decoded(Encoded(cell, linked, hash, before), Beside(cell)) == Some(Says(cell, linked)) <==> Faithful(cell)
  {
    hide Encoded, Decoded, Faithful, Shown, Says;
    DecodeSeesShown(cell, linked, hash, before);
    ShownIsSaid(cell, linked);
  }

  /** A plain space with marks on it reads back as a plain space. */
  lemma SpaceLosesMarks(marks: string, hash: seq<Byte>, before: seq<Byte>)
    requires marks != "" && |hash| == 4 && |before| == CELL_SIZE
    ensures var cell := Cell(' ', Named(FOREGROUND), Named(BACKGROUND), false, false, false, false, false, false, false,
                             Some(marks));
            && |Encoded(cell, false, hash, before)| == CELL_SIZE
            && Decoded(Encoded(cell, false, hash, before), Beside(cell)).Some?
            && Decoded(Encoded(cell, false, hash, before), Beside(cell)).value.text == " "
            && Says(cell, false).text == " " + marks
  {
    hide Encoded, Decoded, Beside;
    var cell := Cell(' ', Named(FOREGROUND), Named(BACKGROUND), false, false, false, false, false, false, false,
                     Some(marks));
    DecodeSeesShown(cell, false, hash, before);
  }
}
