/** The driver's own scan of the output stream for mode changes, the packing of the
    modes into one word, and the browser's accessors for it. */
module ModeTracker {
  import opened Common

  type U16 = n: int | 0 <= n < 0x1_0000

  datatype CsiState = CsiState(isPrivate: bool, bang: bool, space: bool, params: seq<U16>, current: Option<U16>)

  datatype ParseState = Ground | Escape | Csi(csi: CsiState)

  datatype Modes = Modes(
    appCursor: bool, appKeypad: bool, altScreen: bool, mouseMode: nat, mouseEncoding: nat, cursorStyle: nat,
    syncedOutput: bool)

  datatype Tracker = Tracker(modes: Modes, parse: ParseState)

  const ESC: Byte := 0x1b
  const NEW_CSI := CsiState(false, false, false, [], None)
  const DEFAULT_MODES := Modes(false, false, false, 0, 0, 0, false)
  const MAX_PARAMS := 8

  // ------------------------------------------------------------ specification

  function Pushed(csi: CsiState): CsiState {
    var value := if csi.current.Some? then csi.current.value else 0;
    csi.(params := if |csi.params| < MAX_PARAMS then csi.params + [value] else csi.params, current := None)
  }

  function SaturatingDigit(current: U16, digit: nat): U16 {
    Saturate(Saturate(current * 10) + digit)
  }

  function Saturate(n: nat): U16 { if n > 0xffff then 0xffff else n }

  function StyleOf(style: U16): nat { if style <= 6 then style else 0 }

  function MouseModeOf(param: U16): nat {
    match param case 9 => 1 case 1000 => 2 case 1002 => 3 case 1003 => 4 case _ => 0
  }

  function MouseEncodingOf(param: U16): nat {
    match param case 1005 => 1 case 1006 => 2 case 1016 => 3 case _ => 0
  }

  /** Setting selects a mode; resetting clears it only if it is the selected one. */
  function Select(current: nat, which: nat, on: bool): nat {
    if on then which else if current == which then 0 else current
  }

  /** One private-mode parameter of `CSI ? ... h` (set) or `CSI ? ... l` (reset). */
  function SetPrivate(m: Modes, param: U16, on: bool): Modes {
    if param == 1 then m.(appCursor := on)
    else if param in {47, 1047, 1049} then m.(altScreen := on)
    else if MouseModeOf(param) != 0 then m.(mouseMode := Select(m.mouseMode, MouseModeOf(param), on))
    else if MouseEncodingOf(param) != 0 then m.(mouseEncoding := Select(m.mouseEncoding, MouseEncodingOf(param), on))
    else if param == 2026 then m.(syncedOutput := on)
    else m
  }

  function SetAll(m: Modes, params: seq<U16>, on: bool): Modes {
    if params == [] then m else SetPrivate(SetAll(m, params[..|params| - 1], on), params[|params| - 1], on)
  }

  function SoftReset(m: Modes): Modes { m.(appCursor := false, appKeypad := false, cursorStyle := 0) }

  predicate Erases(csi: CsiState) {
    csi.params == [] || 2 in csi.params || 3 in csi.params
  }

  /** A complete control sequence: the modes after it, and whether it resets the used rows. */
  function Handled(m: Modes, csi: CsiState, final: Byte): (Modes, bool) {
    if csi.bang && final == 0x70 then (SoftReset(m), true)
    else if csi.space && final == 0x71 then
      (m.(cursorStyle := StyleOf(if csi.params == [] then 0 else csi.params[0])), false)
    else if !csi.isPrivate && final in {0x4a, 0x4b} && Erases(csi) then (m, true)
    else if csi.isPrivate && final in {0x68, 0x6c} then (SetAll(m, csi.params, final == 0x68), false)
    else (m, false)
  }

  function CsiByte(m: Modes, csi: CsiState, byte: Byte): (Tracker, bool) {
    if byte == ESC then (Tracker(m, Escape), false)
    else if byte == 0x3f && !csi.isPrivate && csi.params == [] && csi.current.None? && !csi.bang then
      (Tracker(m, Csi(csi.(isPrivate := true))), false)
    else if 0x30 <= byte <= 0x39 then
      var digits := if csi.current.Some? then csi.current.value else 0;
      (Tracker(m, Csi(csi.(current := Some(SaturatingDigit(digits, byte - 0x30))))), false)
    else if byte == 0x3b then (Tracker(m, Csi(Pushed(csi))), false)
    else if byte == 0x21 then (Tracker(m, Csi(csi.(bang := true))), false)
    else if byte == 0x20 then (Tracker(m, Csi(csi.(space := true))), false)
    else if 0x40 <= byte <= 0x7e then
      var (after, reset) := Handled(m, Pushed(csi), byte);
      (Tracker(after, Ground), reset)
    else (Tracker(m, Ground), false)
  }

  /** One byte of output: the next state, and whether it resets the used rows. */
  function Step(t: Tracker, byte: Byte): (Tracker, bool) {
    match t.parse
    case Ground =>
      if byte == 0x0c then (t, true) else if byte == ESC then (t.(parse := Escape), false) else (t, false)
    case Escape =>
      if byte == 0x5b then (t.(parse := Csi(NEW_CSI)), false)
      else if byte == 0x3d then (Tracker(t.modes.(appKeypad := true), Ground), false)
      else if byte == 0x3e then (Tracker(t.modes.(appKeypad := false), Ground), false)
      else if byte == 0x63 then (Tracker(DEFAULT_MODES, Ground), true)
      else if byte == ESC then (t, false)
      else (t.(parse := Ground), false)
    case Csi(csi) => CsiByte(t.modes, csi, byte)
  }

  function Feed(t: Tracker, data: seq<Byte>): (Tracker, bool) {
    if data == [] then (t, false)
    else
      var (before, reset) := Feed(t, data[..|data| - 1]);
      var (after, again) := Step(before, data[|data| - 1]);
      (after, reset || again)
  }

  // ------------------------------------------------------------ the tracker

  class ModeTracker {
    var appCursor: bool
    var appKeypad: bool
    var altScreen: bool
    var mouseMode: nat
    var mouseEncoding: nat
    var cursorStyle: nat
    var syncedOutput: bool
    var parseState: ParseState

    ghost function CurrentModes(): Modes reads this {
      Modes(appCursor, appKeypad, altScreen, mouseMode, mouseEncoding, cursorStyle, syncedOutput)
    }

    ghost function State(): Tracker reads this { Tracker(CurrentModes(), parseState) }

    constructor ()
      ensures State() == Tracker(DEFAULT_MODES, Ground)
    {
      appCursor, appKeypad, altScreen, syncedOutput := false, false, false, false;
      mouseMode, mouseEncoding, cursorStyle := 0, 0, 0;
      parseState := Ground;
    }

    method Process(data: seq<Byte>) returns (reset: bool)
      modifies this
      ensures (State(), reset) == Feed(old(State()), data)
      ensures old(Bounded(CurrentModes())) ==> Bounded(CurrentModes())
    {
      if Bounded(CurrentModes()) { FeedBounded(State(), data); }
      reset := false;
      for n := 0 to |data|
        invariant (State(), reset) == Feed(old(State()), data[..n])
      {
        assert data[..n + 1][..n] == data[..n];
        var again := ProcessByte(data[n]);
        if again { reset := true; }
      }
      assert data[..|data|] == data;
    }

    method ProcessByte(byte: Byte) returns (reset: bool)
      modifies this
      ensures (State(), reset) == Step(old(State()), byte)
    {
      reset := false;
      match parseState
      case Ground =>
        if byte == 0x0c { reset := true; } else if byte == ESC { parseState := Escape; }
      case Escape =>
        if byte == 0x5b { parseState := Csi(NEW_CSI); }
        else if byte == 0x3d { appKeypad := true; parseState := Ground; }
        else if byte == 0x3e { appKeypad := false; parseState := Ground; }
        else if byte == 0x63 { Reset(); reset := true; parseState := Ground; }
        else if byte == ESC { }
        else { parseState := Ground; }
      case Csi(csi) =>
        if byte == ESC { parseState := Escape; return; }
        if byte == 0x3f && !csi.isPrivate && csi.params == [] && csi.current.None? && !csi.bang {
          parseState := Csi(csi.(isPrivate := true));
        } else if 0x30 <= byte <= 0x39 {
          var current := if csi.current.Some? then csi.current.value else 0;
          parseState := Csi(csi.(current := Some(SaturatingDigit(current, byte - 0x30))));
        } else if byte == 0x3b { parseState := Csi(Pushed(csi)); }
        else if byte == 0x21 { parseState := Csi(csi.(bang := true)); }
        else if byte == 0x20 { parseState := Csi(csi.(space := true)); }
        else if 0x40 <= byte <= 0x7e {
          reset := HandleCsi(Pushed(csi), byte);
          parseState := Ground;
        } else { parseState := Ground; }
    }

    method Reset()
      modifies this
      ensures State() == Tracker(DEFAULT_MODES, old(parseState))
    {
      appCursor, appKeypad, altScreen, syncedOutput := false, false, false, false;
      mouseMode, mouseEncoding, cursorStyle := 0, 0, 0;
    }

    method HandleCsi(csi: CsiState, final: Byte) returns (reset: bool)
      modifies this
      ensures (CurrentModes(), reset) == Handled(old(CurrentModes()), csi, final) && parseState == old(parseState)
    {
      if csi.bang && final == 0x70 {
        appCursor, appKeypad, cursorStyle := false, false, 0;
        return true;
      }
      if csi.space && final == 0x71 {
        var style := if csi.params == [] then 0 else csi.params[0];
        cursorStyle := StyleOf(style);
        return false;
      }
      if !csi.isPrivate && (final == 0x4a || final == 0x4b) {
        if Erases(csi) { return true; }
      }
      if final != 0x68 && final != 0x6c { return false; }
      var on := final == 0x68;
      for n := 0 to |csi.params|
        invariant parseState == old(parseState)
        invariant CurrentModes() == if csi.isPrivate then SetAll(old(CurrentModes()), csi.params[..n], on)
                  else old(CurrentModes())
      {
        assert csi.params[..n + 1][..n] == csi.params[..n];
        if csi.isPrivate { ApplyParam(csi.params[n], on); }
      }
      assert csi.params[..|csi.params|] == csi.params;
      return false;
    }

    method ApplyParam(param: U16, on: bool)
      modifies this
      ensures CurrentModes() == SetPrivate(old(CurrentModes()), param, on) && parseState == old(parseState)
    {
      match param
      case 1 => appCursor := on;
      case 47 => altScreen := on;
      case 1047 => altScreen := on;
      case 1049 => altScreen := on;
      case 9 => UpdateMouseMode(param, on);
      case 1000 => UpdateMouseMode(param, on);
      case 1002 => UpdateMouseMode(param, on);
      case 1003 => UpdateMouseMode(param, on);
      case 1005 => UpdateMouseEncoding(param, on);
      case 1006 => UpdateMouseEncoding(param, on);
      case 1016 => UpdateMouseEncoding(param, on);
      case 2026 => syncedOutput := on;
      case _ =>
    }

    method UpdateMouseMode(param: U16, on: bool)
      modifies this`mouseMode
      ensures mouseMode == if MouseModeOf(param) == 0 then old(mouseMode)
              else Select(old(mouseMode), MouseModeOf(param), on)
    {
      var mode := MouseModeOf(param);
      if mode == 0 { return; }
      if on { mouseMode := mode; } else if mouseMode == mode { mouseMode := 0; }
    }

    method UpdateMouseEncoding(param: U16, on: bool)
      modifies this`mouseEncoding
      ensures mouseEncoding == if MouseEncodingOf(param) == 0 then old(mouseEncoding)
                                else Select(old(mouseEncoding), MouseEncodingOf(param), on)
    {
      var encoding := MouseEncodingOf(param);
      if encoding == 0 { return; }
      if on { mouseEncoding := encoding; } else if mouseEncoding == encoding { mouseEncoding := 0; }
    }

    /** The mode word: every accessor of the browser recovers what went in. */
    function Pack(cursorVisible: bool, bracketedPaste: bool, echo: bool, icanon: bool): (mode: bv16)
      reads this
      requires Bounded(CurrentModes())
      ensures Accessors(mode) == Seen(cursorVisible, appCursor, bracketedPaste, Bits(mouseMode), Bits(mouseEncoding),
                                      echo, icanon, altScreen, Bits(cursorStyle))
    {
      hide PackWord, Bits;
      FieldsAreDisjoint(cursorVisible, appCursor, appKeypad, bracketedPaste, Bits(mouseMode), Bits(mouseEncoding),
                        echo, icanon, altScreen, Bits(cursorStyle));
      PackWord(cursorVisible, appCursor, appKeypad, bracketedPaste, Bits(mouseMode), Bits(mouseEncoding),
               echo, icanon, altScreen, Bits(cursorStyle))
    }
  }

  function Bit(on: bool, bit: bv16): bv16 { if on then bit else 0 }

  /** The packing itself; each `if flag { mode |= bit }` is one `|` with `Bit(flag, bit)`. */
  function PackWord(visible: bool, appCursor: bool, appKeypad: bool, paste: bool, mouseMode: bv16, mouseEncoding: bv16,
                    echo: bool, icanon: bool, altScreen: bool, cursorStyle: bv16): bv16
  {
    Bit(visible, 1) | Bit(appCursor, 2) | Bit(appKeypad, 4) | Bit(paste, 8) | (mouseMode << 4) | (mouseEncoding << 7)
    | Bit(echo, 0x200) | Bit(icanon, 0x400) | Bit(altScreen, 0x800) | ((cursorStyle & 7) << 12)
  }

  /** The packed fields share no bit, so each is read back unchanged. */
  lemma FieldsAreDisjoint(visible: bool, appCursor: bool, appKeypad: bool, paste: bool, mouseMode: bv16,
                          mouseEncoding: bv16,
                          echo: bool, icanon: bool, altScreen: bool, cursorStyle: bv16)
    requires mouseMode <= 4 && mouseEncoding <= 3 && cursorStyle <= 6
    ensures var mode := PackWord(visible, appCursor, appKeypad, paste, mouseMode, mouseEncoding, echo, icanon,
                                 altScreen, cursorStyle);
            && (mode >> 4) & 7 == mouseMode && (mode >> 7) & 3 == mouseEncoding && (mode >> 12) & 7 == cursorStyle
            && (mode & 1 != 0 <==> visible) && (mode & 2 != 0 <==> appCursor) && (mode & 4 != 0 <==> appKeypad)
            && (mode & 8 != 0 <==> paste)
            && (mode & 0x200 != 0 <==> echo) && (mode & 0x400 != 0 <==> icanon) && (mode & 0x800 != 0 <==> altScreen)
  {
  }

  /** The 16-bit word of a small number. */
  function Bits(n: nat): (r: bv16)
    requires n <= 6
    ensures r <= 6 && r as int == n && (n <= 4 ==> r <= 4) && (n <= 3 ==> r <= 3)
  {
    match n case 0 => 0 case 1 => 1 case 2 => 2 case 3 => 3 case 4 => 4 case 5 => 5 case _ => 6
  }

  /** What the browser's accessors report. */
  datatype Seen = Seen(
    cursorVisible: bool, appCursor: bool, bracketedPaste: bool, mouseMode: bv16, mouseEncoding: bv16,
    echo: bool, icanon: bool, altScreen: bool, cursorStyle: bv16)

  function Accessors(mode: bv16): Seen {
    Seen(mode & 1 != 0, mode & 2 != 0, mode & 8 != 0, (mode >> 4) & 7, (mode >> 7) & 3,
         mode & 0x200 != 0, mode & 0x400 != 0, mode & 0x800 != 0, (mode >> 12) & 7)
  }

  // ------------------------------------------------------------ bounds

  /** Each packed field fits its bits. */
  predicate Bounded(m: Modes) {
    m.mouseMode <= 4 && m.mouseEncoding <= 3 && m.cursorStyle <= 6
  }

  lemma SetPrivateBounded(m: Modes, param: U16, on: bool)
    requires Bounded(m)
    ensures Bounded(SetPrivate(m, param, on))
  {
  }

  lemma {:induction false} SetAllBounded(m: Modes, params: seq<U16>, on: bool)
    requires Bounded(m)
    ensures Bounded(SetAll(m, params, on))
  {
    hide Bounded, SetPrivate;
    if params != [] {
      SetAllBounded(m, params[..|params| - 1], on);
      SetPrivateBounded(SetAll(m, params[..|params| - 1], on), params[|params| - 1], on);
    }
  }

  lemma StepBounded(t: Tracker, byte: Byte)
    requires Bounded(t.modes)
    ensures Bounded(Step(t, byte).0.modes)
  {
    hide SetAll, Pushed;
    if t.parse.Csi? {
      var csi := Pushed(t.parse.csi);
      SetAllBounded(t.modes, csi.params, byte == 0x68);
    }
  }

  /** For every byte stream, in whatever pieces it arrives, the fields stay in range. */
  lemma {:induction false} FeedBounded(t: Tracker, data: seq<Byte>)
    requires Bounded(t.modes)
    ensures Bounded(Feed(t, data).0.modes)
  {
    hide Bounded, Step;
    if data != [] {
      FeedBounded(t, data[..|data| - 1]);
      StepBounded(Feed(t, data[..|data| - 1]).0, data[|data| - 1]);
    }
  }

  // ------------------------------------------------------------ streaming

  /** Splitting the stream anywhere changes neither the final state nor the action. */
  lemma {:induction false} FeedConcat(t: Tracker, a: seq<Byte>, b: seq<Byte>)
    ensures var (mid, first) := Feed(t, a);
            var (end, second) := Feed(mid, b);
            Feed(t, a + b) == (end, first || second)
  {
    if b == [] {
      assert a + b == a;
    } else {
      FeedConcat(t, a, b[..|b| - 1]);
      assert (a + b)[..|a + b| - 1] == a + b[..|b| - 1];
    }
  }

  lemma FeedOne(t: Tracker, byte: Byte)
    ensures Feed(t, [byte]) == Step(t, byte)
  {
    assert [byte][..0] == [];
  }

  // ------------------------------------------------------------ printed sequences

  predicate Digits(s: seq<Byte>) { forall i | 0 <= i < |s| :: 0x30 <= s[i] <= 0x39 }

  function Value(s: seq<Byte>): nat
    requires Digits(s)
  {
    if s == [] then 0 else
      Value(s[..|s| - 1]) * 10 + (s[|s| - 1] - 0x30)
  }

  /** Parameters as a program prints them: decimal strings separated by semicolons. */
  function Printed(ps: seq<seq<Byte>>): seq<Byte> {
    if ps == [] then [] else if |ps| == 1 then ps[0] else Printed(ps[..|ps| - 1]) + [0x3b] + ps[|ps| - 1]
  }

  /** The first eight values, each saturated to 16 bits. */
  function Params(ps: seq<seq<Byte>>): (r: seq<U16>)
    requires AllDigits(ps)
    ensures |r| == if |ps| < MAX_PARAMS then |ps| else MAX_PARAMS
  {
    var n := if |ps| < MAX_PARAMS then |ps| else MAX_PARAMS;
    seq(n, i requires 0 <= i < n => Saturate(Value(ps[i])))
  }

  lemma {:induction false} FeedDigits(m: Modes, csi: CsiState, digits: seq<Byte>)
    requires Digits(digits) && csi.current.None?
    ensures Feed(Tracker(m, Csi(csi)), digits) ==
            (Tracker(m, Csi(csi.(current := if digits == [] then None else Some(Saturate(Value(digits)))))), false)
  {
    if digits != [] {
      var front, last := digits[..|digits| - 1], digits[|digits| - 1];
      FeedDigits(m, csi, front);
      assert SaturatingDigit(Saturate(Value(front)), last - 0x30) == Saturate(Value(digits));
    }
  }

  predicate AllDigits(ps: seq<seq<Byte>>) { forall i | 0 <= i < |ps| :: Digits(ps[i]) }

  /** The scanner's state after `Printed(ps)`: the last parameter is still open. */
  function Open(csi: CsiState, ps: seq<seq<Byte>>): CsiState
    requires ps != [] && AllDigits(ps)
  {
    var last := ps[|ps| - 1];
    csi.(params := Params(ps[..|ps| - 1]), current := if last == [] then None else Some(Saturate(Value(last))))
  }

  lemma OpenPushed(csi: CsiState, ps: seq<seq<Byte>>)
    requires ps != [] && AllDigits(ps) && csi.current.None?
    ensures Pushed(Open(csi, ps)) == csi.(params := Params(ps))
  {
    var front, last := ps[..|ps| - 1], ps[|ps| - 1];
    assert Params(ps) == if |front| < MAX_PARAMS then Params(front) + [Saturate(Value(last))] else Params(front);
  }

  lemma {:induction false} FeedParams(m: Modes, csi: CsiState, ps: seq<seq<Byte>>)
    requires ps != [] && AllDigits(ps) && csi.params == [] && csi.current.None?
    ensures Feed(Tracker(m, Csi(csi)), Printed(ps)) == (Tracker(m, Csi(Open(csi, ps))), false)
    decreases |ps|
  {
    hide Feed, Params;
    var front, last, t := ps[..|ps| - 1], ps[|ps| - 1], Tracker(m, Csi(csi));
    if |ps| == 1 {
      FeedDigits(m, csi, last);
      assert Params(front) == [];
    } else {
      FeedParams(m, csi, front);
      OpenPushed(csi, front);
      FeedConcat(t, Printed(front), [0x3b]);
      FeedOne(Tracker(m, Csi(Open(csi, front))), 0x3b);
      FeedConcat(t, Printed(front) + [0x3b], last);
      FeedDigits(m, csi.(params := Params(front)), last);
    }
  }

  /** `CSI [?] Pm final` (ECMA-48, section 5.4). */
  function Sequence(isPrivate: bool, ps: seq<seq<Byte>>, final: Byte): seq<Byte> {
    [ESC, 0x5b] + (if isPrivate then [0x3f] else []) + Printed(ps) + [final]
  }

  /** A printed control sequence does exactly what its first eight parameters,
      saturated to 16 bits, say, and then the scanner is back on the ground. */
  lemma SequenceApplies(m: Modes, isPrivate: bool, ps: seq<seq<Byte>>, final: Byte)
    requires ps != [] && AllDigits(ps) && 0x40 <= final <= 0x7e
    ensures var (after, reset) := Handled(m, CsiState(isPrivate, false, false, Params(ps), None), final);
            Feed(Tracker(m, Ground), Sequence(isPrivate, ps, final)) == (Tracker(after, Ground), reset)
  {
    var start, csi := Tracker(m, Ground), NEW_CSI.(isPrivate := isPrivate);
    var intro := [ESC, 0x5b] + (if isPrivate then [0x3f] else []);
    Introduced(m, isPrivate);
    FeedParams(m, csi, ps);
    FeedConcat(start, intro, Printed(ps));
    FeedConcat(start, intro + Printed(ps), [final]);
    OpenPushed(csi, ps);
    FeedOne(Tracker(m, Csi(Open(csi, ps))), final);
  }

  lemma Introduced(m: Modes, isPrivate: bool)
    ensures Feed(Tracker(m, Ground), [ESC, 0x5b] + (if isPrivate then [0x3f] else [])) ==
            (Tracker(m, Csi(NEW_CSI.(isPrivate := isPrivate))), false)
  {
    var start := Tracker(m, Ground);
    FeedConcat(start, [ESC], [0x5b]);
    FeedOne(start, ESC);
    FeedOne(Tracker(m, Escape), 0x5b);
    assert [ESC] + [0x5b] == [ESC, 0x5b];
    if isPrivate {
      FeedConcat(start, [ESC, 0x5b], [0x3f]);
      FeedOne(Tracker(m, Csi(NEW_CSI)), 0x3f);
    } else {
      assert [ESC, 0x5b] + [] == [ESC, 0x5b];
    }
  }

  /** The private modes: every one of the first eight parameters is set or reset, in order. */
  lemma PrivateModesApply(m: Modes, ps: seq<seq<Byte>>, on: bool)
    requires ps != [] && AllDigits(ps)
    ensures Feed(Tracker(m, Ground), Sequence(true, ps, if on then 0x68 else 0x6c)) ==
            (Tracker(SetAll(m, Params(ps), on), Ground), false)
  {
    SequenceApplies(m, true, ps, if on then 0x68 else 0x6c);
  }

  /** Erasing resets the used rows if and only if one of the first eight parameters
      is 2 or 3: the code's test for an empty list never fires, since the final
      byte has already pushed a parameter. */
  lemma EraseResets(m: Modes, ps: seq<seq<Byte>>, final: Byte)
    requires ps != [] && AllDigits(ps) && final in {0x4a, 0x4b}
    ensures Feed(Tracker(m, Ground), Sequence(false, ps, final)) ==
            (Tracker(m, Ground), 2 in Params(ps) || 3 in Params(ps))
  {
    SequenceApplies(m, false, ps, final);
  }

  // ------------------------------------------------------------ what the modes are

  /** The mouse protocols by their private mode, as the browser numbers them: X10, button,
      drag and any motion. */
  predicate Reports(param: U16, mouseMode: nat) {
    || (param == 9 && mouseMode == 1)
    || (param == 1000 && mouseMode == 2)
    || (param == 1002 && mouseMode == 3)
    || (param == 1003 && mouseMode == 4)
  }

  /** ... and the encodings: UTF-8, SGR and SGR in pixels. */
  predicate Encodes(param: U16, mouseEncoding: nat) {
    || (param == 1005 && mouseEncoding == 1)
    || (param == 1006 && mouseEncoding == 2)
    || (param == 1016 && mouseEncoding == 3)
  }

  /** The field after setting `params`: that of the last of them that selects one. */
  predicate LastSelects(selects: (U16, nat) -> bool, params: seq<U16>, before: nat, after: nat) {
    if params == [] then after == before
    else
      var last := params[|params| - 1];
      if exists n: nat :: n <= 4 && selects(last, n) then selects(last, after)
      else LastSelects(selects, params[..|params| - 1], before, after)
  }

  /** The modes after `CSI ? params h`. */
  predicate AreSet(m: Modes, params: seq<U16>, after: Modes) {
    && (after.appCursor <==> m.appCursor || 1 in params)
    && (after.altScreen <==> m.altScreen || 47 in params || 1047 in params || 1049 in params)
    && (after.syncedOutput <==> m.syncedOutput || 2026 in params)
    && LastSelects(Reports, params, m.mouseMode, after.mouseMode)
    && LastSelects(Encodes, params, m.mouseEncoding, after.mouseEncoding)
    && after.appKeypad == m.appKeypad && after.cursorStyle == m.cursorStyle
  }

  /** One of `params` stands for `n`. */
  predicate Names(selects: (U16, nat) -> bool, params: seq<U16>, n: nat) {
    exists p | p in params :: selects(p, n)
  }

  lemma NamesAfter(selects: (U16, nat) -> bool, params: seq<U16>, last: U16, n: nat)
    ensures Names(selects, params + [last], n) <==> Names(selects, params, n) || selects(last, n)
  {
    var all := params + [last];
    assert last in all && (forall p | p in params :: p in all) && forall p | p in all :: p in params || p == last;
  }

  /** The modes after `CSI ? params l`: a mouse field is cleared only by its own mode. */
  predicate AreReset(m: Modes, params: seq<U16>, after: Modes) {
    && (after.appCursor <==> m.appCursor && 1 !in params)
    && (after.altScreen <==> m.altScreen && 47 !in params && 1047 !in params && 1049 !in params)
    && (after.syncedOutput <==> m.syncedOutput && 2026 !in params)
    && after.mouseMode == (if Names(Reports, params, m.mouseMode) then 0 else m.mouseMode)
    && after.mouseEncoding == (if Names(Encodes, params, m.mouseEncoding) then 0 else m.mouseEncoding)
    && after.appKeypad == m.appKeypad && after.cursorStyle == m.cursorStyle
  }

  lemma SelectsAfter(selects: (U16, nat) -> bool, params: seq<U16>, last: U16, before: nat, after: nat)
    ensures LastSelects(selects, params + [last], before, after) <==>
            if exists n: nat :: n <= 4 && selects(last, n) then selects(last, after)
            else LastSelects(selects, params, before, after)
  {
    assert (params + [last])[..|params|] == params;
  }

  lemma OneSet(m: Modes, params: seq<U16>, between: Modes, last: U16)
    requires AreSet(m, params, between)
    ensures AreSet(m, params + [last], SetPrivate(between, last, true))
  {
    hide LastSelects, Reports, Encodes;
    var after := SetPrivate(between, last, true);
    SelectsAfter(Reports, params, last, m.mouseMode, after.mouseMode);
    SelectsAfter(Encodes, params, last, m.mouseEncoding, after.mouseEncoding);
    SelectedIs(last);
  }

  /** What one parameter selects, as the driver numbers it. */
  lemma SelectedIs(param: U16)
    ensures (exists n: nat :: n <= 4 && Reports(param, n)) <==> MouseModeOf(param) != 0
    ensures MouseModeOf(param) != 0 ==> Reports(param, MouseModeOf(param))
    ensures (exists n: nat :: n <= 4 && Encodes(param, n)) <==> MouseEncodingOf(param) != 0
    ensures MouseEncodingOf(param) != 0 ==> Encodes(param, MouseEncodingOf(param))
  {
    assert Reports(9, 1) && Reports(1000, 2) && Reports(1002, 3) && Reports(1003, 4);
    assert Encodes(1005, 1) && Encodes(1006, 2) && Encodes(1016, 3);
  }

  lemma OneReset(m: Modes, params: seq<U16>, between: Modes, last: U16)
    requires Bounded(m) && AreReset(m, params, between)
    ensures AreReset(m, params + [last], SetPrivate(between, last, false))
  {
    hide Names, Reports, Encodes;
    NamesAfter(Reports, params, last, m.mouseMode);
    NamesAfter(Encodes, params, last, m.mouseEncoding);
    StandsFor(last, m);
  }

  /** A parameter stands for a field of the modes exactly when resetting it clears it. */
  lemma StandsFor(param: U16, m: Modes)
    requires Bounded(m)
    ensures Reports(param, m.mouseMode) <==> MouseModeOf(param) != 0 && MouseModeOf(param) == m.mouseMode
    ensures Encodes(param, m.mouseEncoding) <==>
            MouseEncodingOf(param) != 0 && MouseEncodingOf(param) == m.mouseEncoding
  {
  }

  lemma {:induction false} AllSet(m: Modes, params: seq<U16>)
    ensures AreSet(m, params, SetAll(m, params, true))
  {
    hide AreSet, SetPrivate;
    if params == [] {
      NoneSet(m);
    } else {
      var front, last := params[..|params| - 1], params[|params| - 1];
      AllSet(m, front);
      OneSet(m, front, SetAll(m, front, true), last);
      assert front + [last] == params;
    }
  }

  lemma NoneSet(m: Modes)
    ensures AreSet(m, [], m)
  {
  }

  lemma NoneReset(m: Modes)
    ensures AreReset(m, [], m)
  {
  }

  lemma {:induction false} AllReset(m: Modes, params: seq<U16>)
    requires Bounded(m)
    ensures AreReset(m, params, SetAll(m, params, false))
  {
    hide AreReset, SetPrivate, Bounded;
    if params == [] {
      NoneReset(m);
    } else {
      var front, last := params[..|params| - 1], params[|params| - 1];
      AllReset(m, front);
      OneReset(m, front, SetAll(m, front, false), last);
      assert front + [last] == params;
    }
  }

  /** A printed private-mode sequence sets exactly the modes it names, or resets them. */
  lemma NamedModesChange(m: Modes, ps: seq<seq<Byte>>)
    requires ps != [] && AllDigits(ps)
    ensures var (after, again) := Feed(Tracker(m, Ground), Sequence(true, ps, 0x68));
            after.parse == Ground && !again && AreSet(m, Params(ps), after.modes)
    ensures Bounded(m) ==>
              var (after, again) := Feed(Tracker(m, Ground), Sequence(true, ps, 0x6c));
              after.parse == Ground && !again && AreReset(m, Params(ps), after.modes)
  {
    hide Feed, AreSet, AreReset;
    PrivateModesApply(m, ps, true);
    PrivateModesApply(m, ps, false);
    AllSet(m, Params(ps));
    if Bounded(m) { AllReset(m, Params(ps)); }
  }

  /** The sequences without a private mark leave the modes alone, but for the erasing ones. */
  lemma OthersChangeNothing(m: Modes, isPrivate: bool, ps: seq<seq<Byte>>, final: Byte)
    requires ps != [] && AllDigits(ps) && 0x40 <= final <= 0x7e
    requires isPrivate ==> final != 0x68 && final != 0x6c
    ensures var (after, again) := Feed(Tracker(m, Ground), Sequence(isPrivate, ps, final));
            && after == Tracker(m, Ground)
            && (again <==> !isPrivate && final in {0x4a, 0x4b} && (2 in Params(ps) || 3 in Params(ps)))
  {
    hide Feed;
    SequenceApplies(m, isPrivate, ps, final);
  }

  lemma FeedTwo(t: Tracker, a: seq<Byte>, byte: Byte)
    ensures var (mid, first) := Feed(t, a);
            Feed(t, a + [byte]) == (Step(mid, byte).0, first || Step(mid, byte).1)
  {
    hide Step;
    assert (a + [byte])[..|a|] == a;
  }

  /** The escapes that are not control sequences: a full reset (`ESC c`) and the keypad
      modes (`ESC =`, `ESC >`). */
  lemma EscapesApply(m: Modes)
    ensures Feed(Tracker(m, Ground), [ESC, 0x63]) == (Tracker(Modes(false, false, false, 0, 0, 0, false), Ground), true)
    ensures Feed(Tracker(m, Ground), [ESC, 0x3d]) == (Tracker(m.(appKeypad := true), Ground), false)
    ensures Feed(Tracker(m, Ground), [ESC, 0x3e]) == (Tracker(m.(appKeypad := false), Ground), false)
    ensures Feed(Tracker(m, Ground), [0x0c]) == (Tracker(m, Ground), true)
  {
    hide Feed;
    var start := Tracker(m, Ground);
    FeedOne(start, 0x0c);
    FeedOne(start, ESC);
    FeedTwo(start, [ESC], 0x63);
    FeedTwo(start, [ESC], 0x3d);
    FeedTwo(start, [ESC], 0x3e);
    assert [ESC] + [0x63] == [ESC, 0x63] && [ESC] + [0x3d] == [ESC, 0x3d] && [ESC] + [0x3e] == [ESC, 0x3e];
  }

  /** A soft reset (`CSI ! p`) turns off the application modes and the cursor style, and
      nothing else; `CSI Ps SP q` sets the cursor style, to the default one if it is
      not one of the six. */
  lemma ResetAndStyle(m: Modes, digits: seq<Byte>)
    requires Digits(digits)
    ensures Feed(Tracker(m, Ground), [ESC, 0x5b] + [0x21] + [0x70]) ==
            (Tracker(m.(appCursor := false, appKeypad := false, cursorStyle := 0), Ground), true)
    ensures Feed(Tracker(m, Ground), [ESC, 0x5b] + digits + [0x20] + [0x71]) ==
            (Tracker(m.(cursorStyle := if Value(digits) <= 6 then Value(digits) else 0), Ground), false)
  {
    hide Feed, Value;
    var start := Tracker(m, Ground);
    Introduced(m, false);
    assert [ESC, 0x5b] + [] == [ESC, 0x5b];
    FeedTwo(start, [ESC, 0x5b], 0x21);
    FeedTwo(start, [ESC, 0x5b] + [0x21], 0x70);
    FeedConcat(start, [ESC, 0x5b], digits);
    FeedDigits(m, NEW_CSI, digits);
    FeedTwo(start, [ESC, 0x5b] + digits, 0x20);
    FeedTwo(start, [ESC, 0x5b] + digits + [0x20], 0x71);
    NoDigits(digits);
  }

  /** A control sequence is given up for a new one at an escape, and without effect at a
      byte that cannot be part of one, such as a private mark behind a parameter. */
  lemma SequencesAreGivenUp(m: Modes, digits: seq<Byte>, stray: Byte)
    requires Digits(digits) && digits != [] && (stray < 0x20 || stray > 0x7e || stray == 0x3f || stray == 0x3a)
    ensures Feed(Tracker(m, Ground), [ESC, 0x5b] + digits + [stray]) ==
            (Tracker(m, if stray == ESC then Escape else Ground), false)
  {
    hide Feed, Value;
    var start := Tracker(m, Ground);
    Introduced(m, false);
    assert [ESC, 0x5b] + [] == [ESC, 0x5b];
    FeedConcat(start, [ESC, 0x5b], digits);
    FeedDigits(m, NEW_CSI, digits);
    FeedTwo(start, [ESC, 0x5b] + digits, stray);
  }

  lemma NoDigits(digits: seq<Byte>)
    requires Digits(digits)
    ensures digits == [] ==> Value(digits) == 0
  {
  }
}
