/** The incremental line matcher of `blit wait --pattern`: output arrives in chunks
    split anywhere, and only an unfinished last line is kept between them. */
module LineMatcher {
  import opened Common
  import opened Strings

  /** A compiled regular expression, as the set of strings it matches. */
  type Regex = string -> bool

  // ------------------------------------------------------------ lines

  /** No newline between positions `i` and `j`. */
  predicate NoBreak(s: string, i: nat, j: nat)
    requires j <= |s|
  {
    forall k | i <= k < j :: s[k] != '\n'
  }

  predicate OneLine(s: string) { NoBreak(s, 0, |s|) }

  function NewlineAt(s: string): (i: nat)
    ensures i <= |s|
  {
    if s == "" || s[0] == '\n' then 0 else 1 + NewlineAt(s[1..])
  }

  lemma {:induction false} NewlineIsFirst(s: string)
    ensures var i := NewlineAt(s); (i < |s| ==> s[i] == '\n') && NoBreak(s, 0, i)
  {
    if s != "" && s[0] != '\n' {
      NewlineIsFirst(s[1..]);
      assert forall k | 1 <= k < NewlineAt(s) :: s[k] == s[1..][k - 1];
    }
  }

  /** The complete lines of `s`, without their newlines. */
  function Lines(s: string): seq<string> {
    var i := NewlineAt(s);
    if i == |s| then [] else [s[..i]] + Lines(s[i + 1..])
  }

  /** What follows the last newline. */
  function Tail(s: string): string {
    var i := NewlineAt(s);
    if i == |s| then s else Tail(s[i + 1..])
  }

  lemma {:induction false} TailIsOneLine(s: string)
    ensures OneLine(Tail(s))
    decreases |s|
  {
    NewlineIsFirst(s);
    if NewlineAt(s) < |s| { TailIsOneLine(s[NewlineAt(s) + 1..]); }
  }

  /** `str::lines` also drops one carriage return before the newline. */
  function Stripped(line: string): string {
    if line != "" && line[|line| - 1] == '\r' then line[..|line| - 1] else line
  }

  /** A line is tested without the carriage return of its line end, and only without that. */
  lemma ReturnIsDropped(line: string)
    ensures Stripped(line + "\r") == line
    ensures '\r' !in line ==> Stripped(line) == line
    ensures Stripped(line) == line || Stripped(line) + "\r" == line
  {
    assert line == "" || line == line[..|line| - 1] + [line[|line| - 1]];
  }

  /** The longest suffix of at most `max` bytes. */
  function Keep(s: string, max: nat): string {
    if Bytes(s) <= max then s else if s == "" then "" else Keep(s[1..], max)
  }

  /** The first line that matches. */
  function FirstHit(lines: seq<string>, re: Regex): Option<string> {
    if lines == [] then None
    else if re(Stripped(lines[0])) then Some(Stripped(lines[0]))
    else FirstHit(lines[1..], re)
  }

  /** One pass over `pending`: the match, or what to keep for the next chunk. */
  function Scan(pending: string, re: Regex, max: nat): (Option<string>, string) {
    var hit := FirstHit(Lines(pending), re);
    var tail := Tail(pending);
    if hit.Some? then (hit, pending)
    else if tail != "" && re(tail) then (Some(tail), pending)
    else (None, Keep(tail, max))
  }

  // ------------------------------------------------------------ the matcher

  method FirstMatch(pending: string, re: Regex, max: nat) returns (found: Option<string>, rest: string)
    ensures (found, rest) == Scan(pending, re, max)
  {
    hide Keep, Bytes, Lines, Tail, NewlineAt, FirstHit;
    var tailAt: nat := |pending|;
    while tailAt > 0 && pending[tailAt - 1] != '\n'
      invariant tailAt <= |pending| && NoBreak(pending, tailAt, |pending|)
    {
      tailAt := tailAt - 1;
    }
    TailIs(pending, tailAt);
    var at := 0;
    assert pending[0..] == pending;
    while at < tailAt
      invariant at <= tailAt
      invariant FirstHit(Lines(pending), re) == FirstHit(Lines(pending[at..]), re)
    {
      var end := FindNewline(pending, at, tailAt);
      HitStep(pending, at, end, re);
      var line := Stripped(pending[at..end]);
      if re(line) { return Some(line), pending; }
      at := end + 1;
    }
    NoLines(pending[at..], re);
    var tail := pending[tailAt..];
    if tail != "" && re(tail) { return Some(tail), pending; }
    rest := tail;
    if Bytes(rest) > max { rest := DropFront(rest, max); } else { KeepFits(tail, max); }
    found := None;
  }

  method FindNewline(s: string, at: nat, stop: nat) returns (end: nat)
    requires at < stop <= |s| && s[stop - 1] == '\n'
    ensures at <= end < stop && s[end] == '\n' && NoBreak(s, at, end)
  {
    end := at;
    while s[end] != '\n'
      invariant at <= end < stop && NoBreak(s, at, end)
      decreases stop - end
    {
      end := end + 1;
    }
  }

  lemma HitStep(s: string, at: nat, end: nat, re: Regex)
    requires at <= end < |s| && s[end] == '\n' && NoBreak(s, at, end)
    ensures FirstHit(Lines(s[at..]), re) ==
            var line := Stripped(s[at..end]);
            if re(line) then Some(line) else FirstHit(Lines(s[end + 1..]), re)
  {
    hide Lines, Tail, NewlineAt;
    LinesUnfold(s[at..], end - at);
    assert s[at..][..end - at] == s[at..end] && s[at..][end - at + 1..] == s[end + 1..];
  }

  lemma NoLines(s: string, re: Regex)
    requires OneLine(s)
    ensures FirstHit(Lines(s), re).None?
  {
    LinesUnfold(s, |s|);
  }

  /** Cuts at the first character boundary that leaves at most `max` bytes. */
  method DropFront(s: string, max: nat) returns (r: string)
    requires Bytes(s) > max
    ensures r == Keep(s, max)
  {
    var cut := Bytes(s) - max;
    while cut < Bytes(s) && !IsBoundary(s, cut)
      invariant Bytes(s) - max <= cut <= Bytes(s)
      invariant forall b | Bytes(s) - max <= b < cut :: !IsBoundary(s, b)
    {
      cut := cut + 1;
    }
    assert IsBoundary(s, Bytes(s)) by { assert s[..|s|] == s; }
    var i :| 0 <= i <= |s| && Bytes(s[..i]) == cut;
    BytesSplit(s, i);
    forall j | 0 <= j < i ensures Bytes(s[j..]) > max {
      BytesSplit(s, j);
      BytesGrow(s, j, i);
      assert IsBoundary(s, Bytes(s[..j]));
    }
    KeepCuts(s, max, i);
    return s[i..];
  }

  /** `str::is_char_boundary`. */
  predicate IsBoundary(s: string, cut: nat) {
    exists i | 0 <= i <= |s| :: Bytes(s[..i]) == cut
  }

  lemma LinesUnfold(s: string, i: nat)
    requires i <= |s| && NoBreak(s, 0, i) && (i < |s| ==> s[i] == '\n')
    ensures NewlineAt(s) == i
    ensures Lines(s) == if i == |s| then [] else [s[..i]] + Lines(s[i + 1..])
    ensures Tail(s) == if i == |s| then s else Tail(s[i + 1..])
  {
    hide NewlineAt;
    NewlineIs(s, i);
    assert NewlineAt(s) == i;
    hide Lines, Tail;
    LinesStep(s);
    TailStep(s);
  }

  lemma NewlineIs(s: string, i: nat)
    requires i <= |s| && NoBreak(s, 0, i) && (i < |s| ==> s[i] == '\n')
    ensures NewlineAt(s) == i
  {
    NewlineIsFirst(s);
    hide NewlineAt;
  }

  lemma LinesStep(s: string)
    ensures var i := NewlineAt(s); Lines(s) == if i == |s| then [] else [s[..i]] + Lines(s[i + 1..])
  {
    hide NewlineAt;
  }

  lemma TailStep(s: string)
    ensures var i := NewlineAt(s); Tail(s) == if i == |s| then s else Tail(s[i + 1..])
  {
    hide NewlineAt;
  }

  lemma {:induction false} TailIs(s: string, at: nat)
    requires at <= |s| && NoBreak(s, at, |s|) && (at > 0 ==> s[at - 1] == '\n')
    ensures Tail(s) == s[at..]
  {
    NewlineIsFirst(s);
    var i := NewlineAt(s);
    if i < |s| {
      assert i < at;
      assert s[i + 1..][at - i - 1..] == s[at..];
      TailIs(s[i + 1..], at - i - 1);
    }
  }

  lemma BytesSplit(s: string, i: nat)
    requires i <= |s|
    ensures Bytes(s) == Bytes(s[..i]) + Bytes(s[i..])
  {
    hide Bytes;
    BytesConcat(s[..i], s[i..]);
    assert s[..i] + s[i..] == s;
  }

  lemma BytesGrow(s: string, j: nat, i: nat)
    requires j < i <= |s|
    ensures Bytes(s[..j]) < Bytes(s[..i])
  {
    BytesSplit(s[..i], j);
    assert s[..i][..j] == s[..j];
    BytesAtLeastLength(s[..i][j..]);
  }

  lemma KeepFits(s: string, max: nat)
    requires Bytes(s) <= max
    ensures Keep(s, max) == s
  {
  }

  lemma {:induction false} KeepCuts(s: string, max: nat, i: nat)
    requires i <= |s| && Bytes(s[i..]) <= max
    requires forall j | 0 <= j < i :: Bytes(s[j..]) > max
    ensures Keep(s, max) == s[i..]
  {
    assert s[0..] == s;
    if i > 0 {
      forall j | 0 <= j < i - 1 ensures Bytes(s[1..][j..]) > max { assert s[1..][j..] == s[j + 1..]; }
      assert s[1..][i - 1..] == s[i..];
      KeepCuts(s[1..], max, i - 1);
    }
  }

  /** The kept text is the longest suffix that fits. */
  lemma {:induction false} KeepIsLongest(s: string, max: nat)
    ensures var k := Keep(s, max);
            && SuffixOf(k, s) && Bytes(k) <= max
            && forall t | SuffixOf(t, s) && Bytes(t) <= max :: |t| <= |k|
  {
    if Bytes(s) > max {
      KeepIsLongest(s[1..], max);
      forall t | SuffixOf(t, s) && Bytes(t) <= max ensures |t| <= |Keep(s, max)| {
        assert |t| < |s| && SuffixOf(t, s[1..]);
      }
    }
  }

  predicate SuffixOf(t: string, s: string) { |t| <= |s| && t == s[|s| - |t|..] }

  /** Cutting now and cutting again after more text has arrived is cutting once. */
  lemma {:induction false} KeepAppend(a: string, b: string, max: nat)
    ensures Keep(Keep(a, max) + b, max) == Keep(a + b, max)
  {
    hide Keep, Bytes;
    BytesConcat(a, b);
    KeepUnfolds(a, max);
    KeepUnfolds(a + b, max);
    if Bytes(a) > max {
      KeepAppend(a[1..], b, max);
      assert (a + b)[1..] == a[1..] + b;
    }
  }

  lemma KeepUnfolds(s: string, max: nat)
    ensures if Bytes(s) <= max then Keep(s, max) == s else s != "" && Keep(s, max) == Keep(s[1..], max)
  {
  }

  // ------------------------------------------------------------ chunks

  function Concat(chunks: seq<string>): string {
    if chunks == [] then "" else Concat(chunks[..|chunks| - 1]) + chunks[|chunks| - 1]
  }

  /** Feeding chunks one by one until a line matches. */
  function Feed(chunks: seq<string>, re: Regex, max: nat): (Option<string>, string) {
    if chunks == [] then (None, "")
    else
      var (found, pending) := Feed(chunks[..|chunks| - 1], re, max);
      if found.Some? then (found, pending) else Scan(pending + chunks[|chunks| - 1], re, max)
  }

  /** A line without a newline goes on until the next one. */
  lemma LineAcross(t: string, c: string)
    requires OneLine(t)
    ensures var i := NewlineAt(c);
            && Lines(t + c) == (if i == |c| then [] else [t + c[..i]] + Lines(c[i + 1..]))
            && Tail(t + c) == (if i == |c| then t + c else Tail(c[i + 1..]))
  {
    hide Lines, Tail, NewlineAt;
    NewlineIsFirst(c);
    var i := NewlineAt(c);
    LinesUnfold(t + c, |t| + i);
    if i < |c| { assert (t + c)[..|t| + i] == t + c[..i] && (t + c)[|t| + i + 1..] == c[i + 1..]; }
  }

  /** Everything after a prefix is told by the prefix's lines and its tail. */
  lemma {:induction false} LinesConcat(a: string, b: string)
    ensures Lines(a + b) == Lines(a) + Lines(Tail(a) + b)
    ensures Tail(a + b) == Tail(Tail(a) + b)
    decreases |a|
  {
    hide Lines, Tail, NewlineAt;
    NewlineIsFirst(a);
    var i := NewlineAt(a);
    LinesUnfold(a, i);
    if i < |a| {
      assert (a + b)[..i] == a[..i] && (a + b)[i + 1..] == a[i + 1..] + b;
      LinesUnfold(a + b, i);
      LinesConcat(a[i + 1..], b);
    }
  }

  /** What is kept of a tail can stand in for it: only the first line can lose its front. */
  lemma KeptLines(t: string, c: string, max: nat)
    requires OneLine(t)
    ensures var a, b := Lines(Keep(t, max) + c), Lines(t + c);
            && |a| == |b|
            && (|a| > 0 ==> a[1..] == b[1..] && SuffixOf(a[0], b[0]) && (Bytes(b[0]) <= max ==> a[0] == b[0]))
  {
    hide Lines, Tail, Bytes, Keep, NewlineAt;
    var k, i := Keep(t, max), NewlineAt(c);
    KeepOneLine(t, max);
    LineAcross(t, c);
    LineAcross(k, c);
    BytesConcat(t, c[..i]);
    SuffixAppend(k, t, c[..i]);
    if Bytes(t) <= max { KeepFits(t, max); }
  }

  lemma KeptTail(t: string, c: string, max: nat)
    requires OneLine(t)
    ensures Keep(Tail(Keep(t, max) + c), max) == Keep(Tail(t + c), max)
    ensures SuffixOf(Tail(Keep(t, max) + c), Tail(t + c))
    ensures Bytes(Tail(t + c)) <= max ==> Tail(Keep(t, max) + c) == Tail(t + c)
  {
    hide Lines, Tail, Bytes, Keep, NewlineAt;
    KeepOneLine(t, max);
    LineAcross(t, c);
    LineAcross(Keep(t, max), c);
    KeepAppend(t, c, max);
    BytesConcat(t, c);
    SuffixAppend(Keep(t, max), t, c);
    if Bytes(t) <= max { KeepFits(t, max); }
  }

  lemma KeepOneLine(t: string, max: nat)
    requires OneLine(t)
    ensures OneLine(Keep(t, max)) && SuffixOf(Keep(t, max), t)
  {
    KeepIsLongest(t, max);
  }

  lemma SuffixAppend(a: string, b: string, c: string)
    requires SuffixOf(a, b)
    ensures SuffixOf(a + c, b + c)
  {
  }

  /** However the text was split, what is kept is the end of its unfinished line. */
  lemma {:induction false} PendingIsTail(chunks: seq<string>, re: Regex, max: nat)
    requires Feed(chunks, re, max).0.None?
    ensures Feed(chunks, re, max).1 == Keep(Tail(Concat(chunks)), max)
  {
    hide Keep, Tail, Lines;
    if chunks == [] {
      NothingKept(max);
    } else {
      var front, c := chunks[..|chunks| - 1], chunks[|chunks| - 1];
      PendingIsTail(front, re, max);
      var t := Tail(Concat(front));
      TailIsOneLine(Concat(front));
      KeptLines(t, c, max);
      KeptTail(t, c, max);
      LinesConcat(Concat(front), c);
    }
  }

  lemma NothingKept(max: nat)
    ensures Keep(Tail(""), max) == ""
  {
  }

  lemma SplittingIsIrrelevant(xs: seq<string>, ys: seq<string>, re: Regex, max: nat)
    requires Concat(xs) == Concat(ys)
    ensures Feed(xs, re, max).0.None? && Feed(ys, re, max).0.None? ==>
              Feed(xs, re, max) == Feed(ys, re, max) && Bytes(Feed(xs, re, max).1) <= max
  {
    hide Feed, Keep, Bytes, Tail;
    if Feed(xs, re, max).0.None? && Feed(ys, re, max).0.None? {
      PendingIsTail(xs, re, max);
      PendingIsTail(ys, re, max);
      KeepIsLongest(Tail(Concat(xs)), max);
    }
  }

  // ------------------------------------------------------------ whole lines

  lemma {:induction false} FirstHitIs(lines: seq<string>, re: Regex)
    ensures match FirstHit(lines, re)
            case None => forall i | 0 <= i < |lines| :: !re(Stripped(lines[i]))
            case Some(x) => re(x) && exists i | 0 <= i < |lines| :: HitAt(lines, re, i, x)
  {
    if lines != [] && !re(Stripped(lines[0])) {
      FirstHitIs(lines[1..], re);
      match FirstHit(lines, re)
      case None =>
      case Some(x) =>
        var i :| 0 <= i < |lines| - 1 && HitAt(lines[1..], re, i, x);
        assert HitAt(lines, re, i + 1, x);
    } else if lines != [] {
      assert HitAt(lines, re, 0, Stripped(lines[0]));
    }
  }

  /** Line `i` matches as `x` and no line before it does. */
  predicate HitAt(lines: seq<string>, re: Regex, i: nat, x: string)
    requires i < |lines|
  {
    x == Stripped(lines[i]) && re(x) && forall j | 0 <= j < i :: !re(Stripped(lines[j]))
  }

  /** No line of at most `max` bytes matches. */
  predicate NoShortMatch(lines: seq<string>, re: Regex, max: nat) {
    forall i | 0 <= i < |lines| && Bytes(lines[i]) <= max :: !re(Stripped(lines[i]))
  }

  predicate NoTailMatch(text: string, re: Regex, max: nat) {
    Tail(text) != "" && Bytes(Tail(text)) <= max ==> !re(Tail(text))
  }

  /** One more chunk without a match, on top of `text`. */
  lemma MissesNothing(text: string, c: string, re: Regex, max: nat)
    requires var pending := Keep(Tail(text), max) + c; Scan(pending, re, max).0.None?
    ensures NoShortMatch(Lines(text), re, max) ==> NoShortMatch(Lines(text + c), re, max)
    ensures NoTailMatch(text + c, re, max)
  {
    hide Keep, Tail, Lines, Bytes, FirstHit, NoShortMatch, SuffixOf;
    var t := Tail(text);
    TailIsOneLine(text);
    KeptLines(t, c, max);
    KeptTail(t, c, max);
    LinesConcat(text, c);
    NoneShort(Lines(Keep(t, max) + c), Lines(t + c), re, max);
    ShortConcat(Lines(text), Lines(t + c), re, max);
  }

  lemma NoneShort(a: seq<string>, b: seq<string>, re: Regex, max: nat)
    requires FirstHit(a, re).None? && |a| == |b|
    requires |a| > 0 ==> a[1..] == b[1..] && (Bytes(b[0]) <= max ==> a[0] == b[0])
    ensures NoShortMatch(b, re, max)
  {
    hide Bytes, FirstHit;
    FirstHitIs(a, re);
    forall i | 0 <= i < |b| && Bytes(b[i]) <= max ensures !re(Stripped(b[i])) {
      assert i > 0 ==> a[1..][i - 1] == b[1..][i - 1];
      assert a[i] == b[i];
    }
  }

  lemma ShortConcat(a: seq<string>, b: seq<string>, re: Regex, max: nat)
    requires NoShortMatch(b, re, max)
    ensures NoShortMatch(a, re, max) ==> NoShortMatch(a + b, re, max)
  {
    hide Bytes, Stripped;
  }

  /** While nothing matched, every complete line up to the pending limit was tested whole,
      and so was the unfinished line after every chunk. */
  lemma {:induction false} NothingMissed(chunks: seq<string>, re: Regex, max: nat)
    requires Feed(chunks, re, max).0.None?
    ensures NoShortMatch(Lines(Concat(chunks)), re, max)
    ensures forall k | 0 <= k <= |chunks| :: NoTailMatch(Concat(chunks[..k]), re, max)
  {
    hide Keep, Tail, Lines, Bytes, Scan, NoShortMatch, NoTailMatch;
    if chunks == [] {
      NothingInEmpty(re, max);
    } else {
      var front, c := chunks[..|chunks| - 1], chunks[|chunks| - 1];
      NothingMissed(front, re, max);
      PendingIsTail(front, re, max);
      MissesNothing(Concat(front), c, re, max);
      forall k | 0 <= k <= |chunks| ensures NoTailMatch(Concat(chunks[..k]), re, max) {
        if k < |chunks| { assert chunks[..k] == front[..k]; } else { assert chunks[..k] == chunks; }
      }
    }
  }

  lemma NothingInEmpty(re: Regex, max: nat)
    ensures NoShortMatch(Lines(""), re, max) && NoTailMatch("", re, max)
  {
  }

  /** `x` is the end of a line of the text, or of its unfinished last line. */
  predicate EndsLineOf(x: string, text: string) {
    || SuffixOf(x, Tail(text))
    || exists i | 0 <= i < |Lines(text)| :: SuffixOf(x, Stripped(Lines(text)[i]))
  }

  lemma HitIsOutput(text: string, c: string, re: Regex, max: nat)
    requires Scan(Keep(Tail(text), max) + c, re, max).0.Some?
    ensures var x := Scan(Keep(Tail(text), max) + c, re, max).0.value; re(x) && EndsLineOf(x, text + c)
  {
    hide Keep, Tail, Lines, Bytes, FirstHit, OneLine, SuffixOf, Stripped;
    var pending, t := Keep(Tail(text), max) + c, Tail(text);
    TailIsOneLine(text);
    LinesConcat(text, c);
    if FirstHit(Lines(pending), re).Some? {
      HitLine(t, c, re, max, FirstHit(Lines(pending), re).value);
      LaterLine(FirstHit(Lines(pending), re).value, text, c);
    } else {
      KeptTail(t, c, max);
    }
  }

  lemma LaterLine(x: string, text: string, c: string)
    requires exists i | 0 <= i < |Lines(Tail(text) + c)| :: SuffixOf(x, Stripped(Lines(Tail(text) + c)[i]))
    ensures EndsLineOf(x, text + c)
  {
    hide Tail, Lines, SuffixOf, Stripped;
    LinesConcat(text, c);
    var i :| 0 <= i < |Lines(Tail(text) + c)| && SuffixOf(x, Stripped(Lines(Tail(text) + c)[i]));
    assert Lines(text + c)[|Lines(text)| + i] == Lines(Tail(text) + c)[i];
  }

  lemma HitLine(t: string, c: string, re: Regex, max: nat, x: string)
    requires OneLine(t) && FirstHit(Lines(Keep(t, max) + c), re) == Some(x)
    ensures re(x) && exists i | 0 <= i < |Lines(t + c)| :: SuffixOf(x, Stripped(Lines(t + c)[i]))
  {
    hide Keep, Tail, Lines, Bytes, FirstHit, OneLine, Stripped;
    KeptLines(t, c, max);
    var a, b := Lines(Keep(t, max) + c), Lines(t + c);
    FirstHitIs(a, re);
    var i :| 0 <= i < |a| && HitAt(a, re, i, x);
    assert i > 0 ==> a[1..][i - 1] == b[1..][i - 1];
    SuffixStripped(a[i], b[i]);
  }

  /** What is reported was really output: the end of a line, complete or not, as it was
      after some chunk. */
  lemma {:induction false} OnlyOutputIsFound(chunks: seq<string>, re: Regex, max: nat)
    requires Feed(chunks, re, max).0.Some?
    ensures var x := Feed(chunks, re, max).0.value;
            re(x) && exists k | 0 < k <= |chunks| :: EndsLineOf(x, Concat(chunks[..k]))
  {
    hide Keep, Tail, Lines, Bytes, Scan, EndsLineOf;
    var front, c := chunks[..|chunks| - 1], chunks[|chunks| - 1];
    var (found, pending) := Feed(front, re, max);
    if found.Some? {
      OnlyOutputIsFound(front, re, max);
      var k :| 0 < k <= |front| && EndsLineOf(found.value, Concat(front[..k]));
      assert chunks[..k] == front[..k];
    } else {
      PendingIsTail(front, re, max);
      HitIsOutput(Concat(front), c, re, max);
      assert chunks[..|chunks|] == chunks;
    }
  }

  lemma SuffixStripped(a: string, b: string)
    requires SuffixOf(a, b)
    ensures SuffixOf(Stripped(a), Stripped(b))
  {
  }

  // ------------------------------------------------------------ the simple matcher it refines

  predicate Short(text: string, max: nat) {
    Bytes(Tail(text)) <= max && forall i | 0 <= i < |Lines(text)| :: Bytes(Lines(text)[i]) <= max
  }

  /** Looking at all of the text at once. */
  function Rescan(text: string, re: Regex): Option<string> {
    var hit := FirstHit(Lines(text), re);
    if hit.None? && Tail(text) != "" && re(Tail(text)) then Some(Tail(text)) else hit
  }

  /** Remembering everything and looking at all of it after every chunk. */
  function RescanEach(chunks: seq<string>, re: Regex): Option<string> {
    if chunks == [] then None
    else
      var found := RescanEach(chunks[..|chunks| - 1], re);
      if found.Some? then found else Rescan(Concat(chunks), re)
  }

  lemma {:induction false} FirstHitConcat(a: seq<string>, b: seq<string>, re: Regex)
    ensures FirstHit(a + b, re) == if FirstHit(a, re).Some? then FirstHit(a, re) else FirstHit(b, re)
  {
    if a == [] {
      assert a + b == b;
    } else {
      assert (a + b)[1..] == a[1..] + b;
      FirstHitConcat(a[1..], b, re);
    }
  }

  lemma ShortPrefix(a: string, b: string, max: nat)
    requires Short(a + b, max)
    ensures Short(a, max) && Short(Tail(a) + b, max)
  {
    hide Lines, Tail, Bytes, NewlineAt;
    LinesConcat(a, b);
    var more, n := Lines(Tail(a) + b), |Lines(a)|;
    forall i | 0 <= i < n ensures Bytes(Lines(a)[i]) <= max { assert Lines(a)[i] == Lines(a + b)[i]; }
    forall i | 0 <= i < |more| ensures Bytes(more[i]) <= max { assert more[i] == Lines(a + b)[n + i]; }
    TailIsOneLine(a);
    LineAcross(Tail(a), b);
    BytesConcat(Tail(a), b[..NewlineAt(b)]);
    BytesConcat(Tail(a), b);
    assert NewlineAt(b) < |b| ==> more[0] == Tail(a) + b[..NewlineAt(b)];
  }

  /** With no line over the limit, the incremental matcher reports exactly what
      rescanning the whole output after every chunk would. */
  lemma {:induction false} MatchesWholeLines(chunks: seq<string>, re: Regex, max: nat)
    requires Short(Concat(chunks), max)
    ensures Feed(chunks, re, max).0 == RescanEach(chunks, re)
  {
    hide Keep, Tail, Lines, Bytes, FirstHit;
    if chunks != [] {
      var front, c := chunks[..|chunks| - 1], chunks[|chunks| - 1];
      ShortPrefix(Concat(front), c, max);
      MatchesWholeLines(front, re, max);
      if Feed(front, re, max).0.None? {
        PendingIsTail(front, re, max);
        var t := Tail(Concat(front));
        TailIsOneLine(Concat(front));
        KeptLines(t, c, max);
        KeptTail(t, c, max);
        KeepFits(t, max);
        LinesConcat(Concat(front), c);
        FirstHitConcat(Lines(Concat(front)), Lines(t + c), re);
        NoHitBefore(front, re);
      }
    }
  }

  lemma NoHitBefore(chunks: seq<string>, re: Regex)
    requires RescanEach(chunks, re).None?
    ensures FirstHit(Lines(Concat(chunks)), re).None?
  {
  }
}
