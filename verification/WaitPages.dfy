/** What the pattern wait makes of budgeted reads: the client appends page texts as they
    come, with nothing between them. */
module WaitPages {
  import opened Common
  import C = CursorContract
  import S = SeqText
  import opened LineMatcher
  import Strings

  /** The chunks the client is given. */
  function Texts(pages: seq<S.SeqText>): seq<string> {
    seq(|pages|, i requires 0 <= i < |pages| => pages[i].text)
  }

  lemma {:induction false} ConcatFront(chunks: seq<string>)
    requires chunks != []
    ensures Concat(chunks) == chunks[0] + Concat(chunks[1..])
  {
    var front := chunks[..|chunks| - 1];
    if front == [] {
      assert chunks[1..] == [];
    } else {
      ConcatFront(front);
      assert chunks[1..][..|chunks[1..]| - 1] == front[1..];
    }
  }

  lemma {:induction false} ConcatIsAppended(pages: seq<S.SeqText>)
    ensures Concat(Texts(pages)) == S.Appended(pages)
  {
    if pages != [] {
      ConcatFront(Texts(pages));
      assert Texts(pages)[1..] == Texts(pages[1..]);
      ConcatIsAppended(pages[1..]);
    }
  }

  /** The matcher works on the text that was really put out if and only if every page
      ends on a row that soft-wraps into the next one. */
  lemma ChunksAreTheOutput(v: S.View, from: nat, col: nat, end: Option<nat>, max: nat)
    requires v.Valid()
    ensures var pages := S.Pages(v, from, col, end, max);
            Concat(Texts(pages)) == S.FullText(v, from, col, end)
            <==> forall i | 0 <= i < |pages| - 1 :: S.BreakWraps(v, pages[i])
  {
    ConcatIsAppended(S.Pages(v, from, col, end, max));
    S.AppendingPagesExact(v, from, col, end, max);
  }

  // ------------------------------------------------------------ lines run together

  /** The first line of `s`, complete or not. */
  function FirstLine(s: string): string { s[..NewlineAt(s)] }

  lemma ScanNone(s: string, re: Regex, max: nat)
    requires FirstHit(Lines(s), re).None? && !(Tail(s) != "" && re(Tail(s)))
    ensures Scan(s, re, max) == (None, Keep(Tail(s), max))
  {
    hide Lines, Tail, Keep, FirstHit;
  }

  /** The first line decides if it matches. */
  lemma ScanFirst(t: string, c: string, re: Regex, max: nat)
    requires OneLine(t) && re(t + FirstLine(c)) && t + FirstLine(c) != ""
    requires Stripped(t + FirstLine(c)) == t + FirstLine(c)
    ensures Scan(t + c, re, max).0 == Some(t + FirstLine(c))
  {
    hide Lines, Tail, NewlineAt;
    LineAcross(t, c);
    if NewlineAt(c) == |c| {
      assert c[..|c|] == c;
    }
  }

  lemma FeedTwo(a: string, b: string, re: Regex, max: nat)
    requires Scan(a, re, max) == (None, Tail(a))
    ensures Feed([a, b], re, max) == Scan(Tail(a) + b, re, max)
  {
    hide Scan, Tail;
    assert [a, b][..1] == [a] && [a][..0] == [] && "" + a == a;
    assert Feed([], re, max) == (None, "");
    assert Feed([a], re, max) == (None, Tail(a));
  }

  /** What was found stays found. */
  lemma {:induction false} FeedMore(chunks: seq<string>, k: nat, re: Regex, max: nat)
    requires k <= |chunks| && Feed(chunks[..k], re, max).0.Some?
    ensures Feed(chunks, re, max).0 == Feed(chunks[..k], re, max).0
    decreases |chunks|
  {
    hide Scan;
    if k == |chunks| {
      assert chunks[..k] == chunks;
    } else {
      assert chunks[..|chunks| - 1][..k] == chunks[..k];
      FeedMore(chunks[..|chunks| - 1], k, re, max);
    }
  }

  /** No line of `c + "\n" + rest` matches: then none of `c` does either. */
  lemma NoneBefore(c: string, rest: string, re: Regex)
    requires Rescan(c + "\n" + rest, re).None?
    ensures FirstHit(Lines(c), re).None? && !re(Stripped(Tail(c)))
  {
    hide Lines, Tail, FirstHit, NewlineAt;
    var t := Tail(c);
    TailIsOneLine(c);
    assert c + "\n" + rest == c + ("\n" + rest);
    LinesConcat(c, "\n" + rest);
    FirstHitConcat(Lines(c), Lines(t + ("\n" + rest)), re);
    var s := t + ("\n" + rest);
    LinesUnfold(s, |t|);
    assert s[..|t|] == t;
    assert Lines(s)[0] == t;
    FirstHitIs(Lines(s), re);
  }

  /** Two chunks of which the second really starts a new line. */
  lemma ChunksAreGlued(a: string, b: string, rest: string, re: Regex, limit: nat)
    requires Strings.Bytes(Tail(a)) <= limit && '\r' !in a && '\r' !in b
    requires re(Tail(a) + FirstLine(b)) && Rescan(a + "\n" + rest, re).None?
    ensures Feed([a, b], re, limit).0 == Some(Tail(a) + FirstLine(b))
  {
    hide Lines, Tail, Scan, Feed, FirstHit, Rescan, NewlineAt;
    NoneBefore(a, rest, re);
    TailIsOneLine(a);
    TailIsPart(a);
    assert Stripped(Tail(a)) == Tail(a);
    ScanNone(a, re, limit);
    KeepFits(Tail(a), limit);
    FeedTwo(a, b, re, limit);
    ScanFirst(Tail(a), b, re, limit);
  }

  lemma {:induction false} TailIsPart(s: string)
    ensures '\r' !in s ==> '\r' !in Tail(s)
    decreases |s|
  {
    var i := NewlineAt(s);
    if i < |s| { TailIsPart(s[i + 1..]); }
  }

  /** The first page is cut short after a row that ends hard. */
  predicate BreaksHard(v: S.View, from: nat, col: nat, end: Option<nat>, max: nat)
    requires v.Valid()
  {
    var page := S.Read(v, from, col, end, max);
    page.truncated && !S.BreakWraps(v, page)
  }

  /** The second page. */
  function Second(v: S.View, from: nat, col: nat, end: Option<nat>, max: nat): S.SeqText
    requires v.Valid()
  {
    var page := S.Read(v, from, col, end, max);
    S.Read(v, page.nextSeq, page.nextCol, end, max)
  }

  lemma FirstTwo(v: S.View, from: nat, col: nat, end: Option<nat>, max: nat)
    requires v.Valid() && S.Read(v, from, col, end, max).truncated
    ensures var pages := S.Pages(v, from, col, end, max);
            |pages| >= 2 && Texts(pages)[..2] ==
              [S.Read(v, from, col, end, max).text, Second(v, from, col, end, max).text]
  {
    hide S.Read;
    var page := S.Read(v, from, col, end, max);
    S.ReadProgress(v, from, col, end, max);
    var rest := S.Pages(v, page.nextSeq, page.nextCol, end, max);
    assert S.Pages(v, from, col, end, max) == [page] + rest;
    assert rest[0] == Second(v, from, col, end, max);
  }

  /** Whatever the screen: if the first page ends on a hard row end, a pattern for its
      last line run together with the first line of the second page matches, although
      no line of the text the client is reading does. */
  lemma LinesAreGlued(v: S.View, from: nat, col: nat, end: Option<nat>, max: nat, re: Regex, limit: nat)
    requires v.Valid() && BreaksHard(v, from, col, end, max)
    requires var page, next := S.Read(v, from, col, end, max), Second(v, from, col, end, max);
             && '\r' !in page.text && '\r' !in next.text && Strings.Bytes(Tail(page.text)) <= limit
             && re(Tail(page.text) + FirstLine(next.text))
    requires Rescan(S.FullText(v, from, col, end), re).None?
    ensures var page, next := S.Read(v, from, col, end, max), Second(v, from, col, end, max);
            Feed(Texts(S.Pages(v, from, col, end, max)), re, limit).0 == Some(Tail(page.text) + FirstLine(next.text))
  {
    hide Lines, Tail, Feed, Rescan, FirstLine, S.Read, S.Pages, S.FullText, S.BreakWraps, Second;
    var page, next := S.Read(v, from, col, end, max), Second(v, from, col, end, max);
    S.FullTextSplit(v, from, col, end, max);
    ChunksAreGlued(page.text, next.text, S.FullText(v, page.nextSeq, 0, end), re, limit);
    FirstTwo(v, from, col, end, max);
    FeedMore(Texts(S.Pages(v, from, col, end, max)), 2, re, limit);
  }

  // ------------------------------------------------------------ screens it happens on

  /** Every row is one hard-ended line `a`. */
  predicate AllRead(ps: seq<S.Piece>, a: string) {
    forall i | 0 <= i < |ps| :: ps[i] == (a, false)
  }

  lemma {:induction false} RepeatedLines(a: string, ps: seq<S.Piece>)
    requires ps != [] && OneLine(a) && AllRead(ps, a)
    ensures var s := S.Join(ps); Tail(s) == a && FirstLine(s) == a && forall l | l in Lines(s) :: l == a
  {
    hide Lines, Tail, NewlineAt, S.Join;
    S.JoinOne(ps);
    assert ps[..1] == [ps[0]];
    if |ps| == 1 {
      assert ps[..1] == ps;
      LinesUnfold(a, |a|);
      assert a[..|a|] == a;
    } else {
      var n := |ps| - 1;
      var front := S.Join(ps[..n]);
      RepeatedLines(a, ps[..n]);
      S.JoinNext(ps, n);
      assert ps[..n + 1] == ps && S.Sep(ps[n - 1]) == "\n";
      assert S.Join(ps) == front + ("\n" + a);
      LinesConcat(front, "\n" + a);
      OneMoreLine(a);
      StartsWith(front, "\n" + a);
      assert front[..|front|] == front;
    }
  }

  lemma OneMoreLine(a: string)
    requires OneLine(a)
    ensures Lines(a + ("\n" + a)) == [a] && Tail(a + ("\n" + a)) == a
  {
    hide Lines, Tail, NewlineAt;
    var s := a + ("\n" + a);
    assert s[..|a|] == a && s[|a| + 1..] == a;
    LinesUnfold(s, |a|);
    LinesUnfold(a, |a|);
  }

  /** A newline put behind `s` does not change its first line. */
  lemma StartsWith(s: string, c: string)
    requires c != "" && c[0] == '\n'
    ensures FirstLine(s + c) == FirstLine(s)
  {
    hide NewlineAt;
    NewlineIsFirst(s);
    NewlineIs(s + c, NewlineAt(s));
  }

  lemma {:induction false} RepeatedSize(a: string, ps: seq<S.Piece>, k: nat)
    requires 1 <= k <= |ps| && AllRead(ps, a)
    ensures S.Size(ps, k) + 1 == k * (Strings.Bytes(a) + 1)
    decreases k
  {
    hide S.Join, Strings.Bytes;
    if k == 1 {
      S.JoinOne(ps);
    } else {
      RepeatedSize(a, ps, k - 1);
      S.JoinNext(ps, k - 1);
      assert k * (Strings.Bytes(a) + 1) == (k - 1) * (Strings.Bytes(a) + 1) + (Strings.Bytes(a) + 1);
    }
  }

  /** `n` rows that read `a`, the last `n - h` of them on the screen. */
  function Repeated(a: string, n: nat, h: nat): S.View
    requires h < n
  {
    S.View(seq(n, i => C.Line(a)), 0, h, n - h, |a|, n - 1, 0)
  }

  lemma RepeatedPieces(a: string, n: nat, h: nat, from: nat, stop: nat)
    requires h < n && C.IsDark(a) && from <= stop <= n
    ensures Repeated(a, n, h).Valid()
    ensures AllRead(S.Pieces(Repeated(a, n, h), from, 0, stop), a)
  {
    hide S.Rendered;
    C.LineReads(a);
    var v := Repeated(a, n, h);
    forall s | 0 <= s < n ensures S.PieceAt(v, s, 0) == (a, false) {
      assert v.rows[s] == C.Line(a);
    }
  }

  lemma RepeatedTail(a: string)
    requires C.IsDark(a)
    ensures OneLine(a)
  {
  }

  lemma NoLineTwice(a: string, s: string)
    requires a != "" && Tail(s) == a && forall l | l in Lines(s) :: l == a
    ensures Rescan(s, line => line == a + a).None?
  {
    hide Lines, Tail, FirstHit;
    var lines, re := Lines(s), (line: string) => line == a + a;
    FirstHitIs(lines, re);
    assert forall i | 0 <= i < |lines| :: lines[i] in lines;
    assert |Stripped(a)| <= |a| < |a + a|;
  }

  /** Any line, repeated until the budget is exceeded, is found twice over on one line. */
  lemma RepeatedRowsAreGlued(a: string, n: nat, h: nat, max: nat, limit: nat)
    requires C.IsDark(a) && '\r' !in a && Strings.Bytes(a) <= limit
    requires h < n && 2 <= n && max + 1 < n * (Strings.Bytes(a) + 1)
    ensures var v, re := Repeated(a, n, h), (line: string) => line == a + a;
            && v.Valid() && BreaksHard(v, 0, 0, None, max)
            && Feed(Texts(S.Pages(v, 0, 0, None, max)), re, limit).0 == Some(a + a)
            && Rescan(S.FullText(v, 0, 0, None), re).None?
  {
    hide Lines, Tail, Feed, FirstLine, S.Pages, S.Join, S.Rendered, Strings.Bytes, Texts, Stripped, FirstHit;
    var v := Repeated(a, n, h);
    var re: Regex := line => line == a + a;
    RepeatedTail(a);
    RepeatedPieces(a, n, h, 0, n);
    var ps := S.Pieces(v, 0, 0, n);
    RepeatedLines(a, ps);
    NoLineTwice(a, S.Join(ps));
    RepeatedSize(a, ps, n);
    S.FittingIsLongest(ps, max, 1);
    var m := S.Fitting(ps, max, 1);
    var page := S.Read(v, 0, 0, None, max);
    assert m < n && page.truncated && page.nextSeq == m && page.nextCol == 0;
    PageReads(a, n, h, 0, max);
    PageReads(a, n, h, m, max);
    LinesAreGlued(v, 0, 0, None, max, re, limit);
  }

  /** A page of such a screen starts and ends with that line. */
  lemma PageReads(a: string, n: nat, h: nat, from: nat, max: nat)
    requires C.IsDark(a) && h < n && from < n && '\r' !in a
    ensures var page := S.Read(Repeated(a, n, h), from, 0, None, max);
            '\r' !in page.text && Tail(page.text) == a && FirstLine(page.text) == a
  {
    hide Lines, Tail, FirstLine, S.Join, S.Rendered, S.Fitting;
    RepeatedPieces(a, n, h, from, n);
    var v := Repeated(a, n, h);
    S.PageText(v, from, 0, None, max);
    var ps := S.Pieces(v, from, 0, n);
    var m := S.Fitting(ps, max, 1);
    assert ps[..|ps|] == ps;
    RepeatedLines(a, ps[..m]);
    NoReturns(a, ps[..m]);
  }

  lemma {:induction false} NoReturns(a: string, ps: seq<S.Piece>)
    requires AllRead(ps, a) && '\r' !in a
    ensures '\r' !in S.Join(ps)
  {
    if |ps| > 1 { NoReturns(a, ps[..|ps| - 1]); }
  }

  const OUTPUT_MAX_BYTES: nat := 256 * 1024
  const PENDING_MAX: nat := 64 * 1024

  /** With the client's own budget and limit, four thousand lines of 80 bytes do. */
  lemma GluedByDefault(a: string, h: nat)
    requires C.IsDark(a) && '\r' !in a && Strings.Bytes(a) == 80 && h < 4000
    ensures var v, re := Repeated(a, 4000, h), (line: string) => line == a + a;
            && v.Valid()
            && Feed(Texts(S.Pages(v, 0, 0, None, OUTPUT_MAX_BYTES)), re, PENDING_MAX).0 == Some(a + a)
            && Rescan(S.FullText(v, 0, 0, None), re).None?
  {
    RepeatedRowsAreGlued(a, 4000, h, OUTPUT_MAX_BYTES, PENDING_MAX);
  }
}
