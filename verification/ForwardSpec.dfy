/** The grammar of port-forward specs: `[kind/][bind:]local_port:host:host_port`,
    with `[...]` atomic so that colon-bearing addresses survive. */
module ForwardSpec {
  import opened Common

  type U16 = n: int | 0 <= n < 0x1_0000

  datatype Kind = Tcp | Udp | Tls

  datatype Spec = Spec(kind: Kind, bind: string, localPort: U16, host: string, hostPort: U16)

  datatype Error = UnknownKind | Unterminated | BadShape | BadTargetPort | EmptyHost | BadLocalPort | EmptyBind

  datatype Result = Ok(spec: Spec) | Err(error: Error)

  const DEFAULT_BIND := "127.0.0.1"

  // ------------------------------------------------------------ numbers

  predicate IsDigit(c: char) { '0' <= c <= '9' }

  function DigitOf(c: char): nat
    requires IsDigit(c)
  {
    (c as int) - ('0' as int)
  }

  function Dec(n: nat): (s: string)
    ensures s != "" && forall c | c in s :: IsDigit(c)
  {
    if n < 10 then ['0' + n as char] else Dec(n / 10) + ['0' + (n % 10) as char]
  }

  function Value(s: string): nat
    requires forall c | c in s :: IsDigit(c)
  {
    if s == "" then 0 else
      var c := s[|s| - 1];
      assert c in s;
      Value(s[..|s| - 1]) * 10 + DigitOf(c)
  }

  lemma {:induction false} ValueOfDec(n: nat)
    ensures Value(Dec(n)) == n
  {
    if n >= 10 {
      ValueOfDec(n / 10);
      assert Dec(n)[..|Dec(n)| - 1] == Dec(n / 10);
    } else {
      assert Dec(n)[..0] == "";
    }
  }

  /** `str::parse::<u16>`: digits with at most one leading `+`, and no overflow. */
  function ParseU16(s: string): Option<U16> {
    var digits := if |s| > 1 && s[0] == '+' then s[1..] else s;
    if digits != "" && (forall c | c in digits :: IsDigit(c)) && Value(digits) < 0x1_0000 then Some(Value(digits))
      else None
  }

  lemma ParseDec(n: U16)
    ensures ParseU16(Dec(n)) == Some(n)
  {
    ValueOfDec(n);
    assert Dec(n)[0] in Dec(n);
  }

  // ------------------------------------------------------------ printing

  function Bracket(addr: string): string {
    if ':' in addr then "[" + addr + "]" else addr
  }

  function Prefix(kind: Kind): string {
    match kind case Udp => "udp/" case Tls => "tls/" case Tcp => ""
  }

  function Target(spec: Spec): string { Bracket(spec.host) + (":" + Dec(spec.hostPort)) }

  function PortAndTarget(spec: Spec): string { Dec(spec.localPort) + (":" + Target(spec)) }

  /** Everything after the kind; the default bind address is left out. */
  function Body(spec: Spec): string {
    if spec.bind != DEFAULT_BIND then Bracket(spec.bind) + (":" + PortAndTarget(spec)) else PortAndTarget(spec)
  }

  function Display(spec: Spec): string { Prefix(spec.kind) + Body(spec) }

  // ------------------------------------------------------------ fields

  /** Index of the first `c` in `s`, or its length. */
  function IndexOf(s: string, c: char): (i: nat)
    ensures i <= |s| && (i < |s| ==> s[i] == c) && forall k | 0 <= k < i :: s[k] != c
  {
    if s == "" || s[0] == c then 0 else 1 + IndexOf(s[1..], c)
  }

  function Cons(field: string, rest: Option<seq<string>>): Option<seq<string>> {
    if rest.Some? then Some([field] + rest.value) else None
  }

  /** What may follow a closing bracket: the end, or a colon and more fields. */
  function AfterBracket(field: string, rest: string): (r: Option<seq<string>>)
    ensures r.Some? ==> r.value != [] && r.value[0] == field
    decreases |rest|, 0
  {
    if rest == "" then Some([field])
    else if rest[0] == ':' then Cons(field, Fields(rest[1..]))
    else None
  }

  /** The fields of `s`, by recursive descent: a bracketed field runs to the next
      `]`, any other one to the next colon. */
  function Fields(s: string): (r: Option<seq<string>>)
    ensures r.Some? ==> r.value != []
    decreases |s|, 1
  {
    if s != "" && s[0] == '[' then
      var i := IndexOf(s, ']');
      if i == |s| then None else AfterBracket(s[1..i], s[i + 1..])
    else
      var i := IndexOf(s, ':');
      if i == |s| then Some([s]) else Cons(s[..i], Fields(s[i + 1..]))
  }

  /** What the scanner still has to deliver in the middle of a field. */
  function Resume(cur: string, inBracket: bool, closed: bool, rest: string): Option<seq<string>> {
    if inBracket then Fields("[" + cur + rest)
    else if closed then AfterBracket(cur, rest)
    else Fields(cur + rest)
  }

  function Extend(fields: seq<string>, rest: Option<seq<string>>): Option<seq<string>> {
    if rest.Some? then Some(fields + rest.value) else None
  }

  lemma ExtendNil(r: Option<seq<string>>)
    ensures Extend([], r) == r
  {
    if r.Some? { assert [] + r.value == r.value; }
  }

  lemma ExtendCons(fields: seq<string>, f: string, rest: Option<seq<string>>)
    ensures Extend(fields, Cons(f, rest)) == Extend(fields + [f], rest)
  {
    if rest.Some? {
      assert fields + ([f] + rest.value) == fields + [f] + rest.value;
    }
  }

  lemma IndexOfAt(s: string, c: char, i: nat)
    requires i <= |s| && (i < |s| ==> s[i] == c) && forall k | 0 <= k < i :: s[k] != c
    ensures IndexOf(s, c) == i
  {
  }

  method SplitFields(s: string) returns (r: Option<seq<string>>)
    ensures r == Fields(s)
  {
    hide Fields, AfterBracket;
    var fields, cur, inBracket, closed := [], "", false, false;
    assert "" + s[0..] == s && Extend([], Fields(s)) == Fields(s) by { ExtendNil(Fields(s)); }
    for n := 0 to |s|
      invariant !(inBracket && closed)
      invariant inBracket ==> ']' !in cur
      invariant !inBracket && !closed ==> ':' !in cur && (cur == "" || cur[0] != '[')
      invariant Fields(s) == Extend(fields, Resume(cur, inBracket, closed, s[n..]))
    {
      var c, rest := s[n], s[n + 1..];
      assert s[n..] == [c] + rest;
      if c == '[' && !inBracket && cur == "" && !closed {
        assert cur + s[n..] == "[" + "" + rest;
        inBracket := true;
      } else if c == ']' && inBracket {
        CloseBracket(cur, rest);
        inBracket := false;
        closed := true;
      } else if c == ':' && !inBracket {
        EndField(cur, closed, rest);
        ExtendCons(fields, cur, Fields(rest));
        fields, cur := fields + [cur], "";
        assert "" + rest == rest;
        closed := false;
      } else if closed {
        AfterBracketJunk(cur, s[n..]);
        return None;
      } else {
        assert cur + [c] + rest == cur + s[n..] && "[" + (cur + [c]) + rest == "[" + cur + s[n..];
        cur := cur + [c];
      }
    }
    assert s[|s|..] == "";
    AtEnd(cur, inBracket, closed);
    if inBracket { return None; }
    fields := fields + [cur];
    return Some(fields);
  }

  lemma CloseBracket(cur: string, rest: string)
    requires ']' !in cur
    ensures Fields("[" + cur + ("]" + rest)) == AfterBracket(cur, rest)
  {
    var s := "[" + cur + ("]" + rest);
    IndexOfAt(s, ']', |cur| + 1);
    assert s[1..|cur| + 1] == cur && s[|cur| + 2..] == rest;
  }

  lemma EndField(cur: string, closed: bool, rest: string)
    requires !closed ==> ':' !in cur && (cur == "" || cur[0] != '[')
    ensures Resume(cur, false, closed, ":" + rest) == Cons(cur, Fields(rest))
  {
    hide IndexOf;
    var s := cur + (":" + rest);
    assert (":" + rest)[1..] == rest;
    assert s[..|cur|] == cur && s[|cur| + 1..] == rest && s[|cur|] == ':';
    if !closed {
      IndexOfAt(s, ':', |cur|);
    }
  }

  lemma AfterBracketJunk(cur: string, rest: string)
    requires rest != "" && rest[0] != ':'
    ensures AfterBracket(cur, rest) == None
  {
  }

  lemma AtEnd(cur: string, inBracket: bool, closed: bool)
    requires inBracket ==> ']' !in cur
    requires !inBracket && !closed ==> ':' !in cur && (cur == "" || cur[0] != '[')
    ensures Resume(cur, inBracket, closed, "") == if inBracket then None else Some([cur])
  {
    if inBracket {
      IndexOfAt("[" + cur + "", ']', |cur| + 1);
    } else if !closed {
      assert cur + "" == cur;
      IndexOfAt(cur, ':', |cur|);
    }
  }

  // ------------------------------------------------------------ parsing

  /** `split_once('/')`: the kind, and what follows it. */
  function SplitKind(s: string): Option<(Kind, string)> {
    var i := IndexOf(s, '/');
    if i == |s| then Some((Tcp, s))
    else match s[..i] {
      case "tcp" => Some((Tcp, s[i + 1..]))
      case "udp" => Some((Udp, s[i + 1..]))
      case "tls" => Some((Tls, s[i + 1..]))
      case _ => None
    }
  }

  function ParseFields(kind: Kind, fields: seq<string>): Result {
    if |fields| == 3 then ParseParts(kind, DEFAULT_BIND, fields[0], fields[1], fields[2])
    else if |fields| == 4 then ParseParts(kind, fields[0], fields[1], fields[2], fields[3])
    else Err(BadShape)
  }

  function ParseParts(kind: Kind, bind: string, port: string, host: string, hostPort: string): Result {
    match ParseU16(hostPort)
    case None => Err(BadTargetPort)
    case Some(hp) =>
      if hp == 0 then Err(BadTargetPort)
      else if host == "" then Err(EmptyHost)
      else match ParseU16(port)
        case None => Err(BadLocalPort)
        case Some(lp) => if bind == "" then Err(EmptyBind) else Ok(Spec(kind, bind, lp, host, hp))
  }

  function ParseSpec(s: string): Result {
    match SplitKind(s)
    case None => Err(UnknownKind)
    case Some((kind, rest)) =>
      match Fields(rest)
      case None => Err(Unterminated)
      case Some(fields) => ParseFields(kind, fields)
  }

  // ------------------------------------------------------------ round trip

  /** Printed with `Bracket`, the address comes back as one field. */
  predicate Atomic(f: string) {
    if ':' in f then ']' !in f else f == "" || f[0] != '['
  }

  /** The specs that survive printing. */
  predicate Printable(spec: Spec) {
    && spec.bind != "" && spec.host != "" && spec.hostPort > 0
    && Atomic(spec.bind) && Atomic(spec.host)
    && (spec.kind == Tcp ==> '/' !in spec.bind && '/' !in spec.host)
  }

  lemma AtomicField(f: string, rest: string)
    requires Atomic(f)
    ensures Fields(Bracket(f) + (":" + rest)) == Cons(f, Fields(rest))
  {
    if ':' in f {
      assert Bracket(f) + (":" + rest) == "[" + f + ("]" + (":" + rest));
      CloseBracket(f, ":" + rest);
      assert (":" + rest)[1..] == rest;
    } else {
      EndField(f, false, rest);
    }
  }

  lemma DecField(n: nat, rest: string)
    ensures Fields(Dec(n) + (":" + rest)) == Cons(Dec(n), Fields(rest))
    ensures Fields(Dec(n)) == Some([Dec(n)])
  {
    var d := Dec(n);
    assert d[0] in d;
    EndField(d, false, rest);
    AtEnd(d, false, false);
    assert d + "" == d;
  }

  /** The fields before the target host, when the bind address is atomic. */
  lemma LeadingFields(spec: Spec)
    requires Atomic(spec.bind)
    ensures Fields(PortAndTarget(spec)) == Cons(Dec(spec.localPort), Fields(Target(spec)))
    ensures Fields(Body(spec)) ==
            if spec.bind != DEFAULT_BIND then Cons(spec.bind, Fields(PortAndTarget(spec)))
              else Fields(PortAndTarget(spec))
  {
    hide Fields, Target, Bracket, Dec, Atomic;
    DecField(spec.localPort, Target(spec));
    AtomicField(spec.bind, PortAndTarget(spec));
  }

  lemma SplitPrefixed(kind: Kind, body: string)
    requires kind == Tcp ==> '/' !in body
    ensures SplitKind(Prefix(kind) + body) == Some((kind, body))
  {
    var s := Prefix(kind) + body;
    if kind == Tcp {
      assert s == body;
      IndexOfAt(s, '/', |s|);
    } else {
      IndexOfAt(s, '/', 3);
      assert s[..3] == (if kind == Udp then "udp" else "tls") && s[4..] == body;
    }
  }

  lemma BodySlash(spec: Spec)
    ensures '/' in Body(spec) <==> '/' in spec.host || (spec.bind != DEFAULT_BIND && '/' in spec.bind)
  {
    assert !IsDigit('/');
    assert '/' in Bracket(spec.host) <==> '/' in spec.host;
    assert '/' in Bracket(spec.bind) <==> '/' in spec.bind;
  }

  lemma PrintedParses(spec: Spec)
    requires Printable(spec)
    ensures ParseSpec(Display(spec)) == Ok(spec)
  {
    hide Fields, SplitKind, ParseU16, Dec, Bracket, Atomic, Body;
    BodySlash(spec);
    SplitPrefixed(spec.kind, Body(spec));
    LeadingFields(spec);
    AtomicField(spec.host, Dec(spec.hostPort));
    DecField(spec.hostPort, "");
    ParseDec(spec.localPort);
    ParseDec(spec.hostPort);
  }

  /** A field with a colon came out of brackets, so it holds no closing one. */
  predicate Closed(f: string) { ':' in f ==> ']' !in f }

  lemma ConsClosed(f: string, rest: Option<seq<string>>)
    requires Closed(f) && (rest.Some? ==> forall x | x in rest.value :: Closed(x))
    ensures Cons(f, rest).Some? ==> forall x | x in Cons(f, rest).value :: Closed(x)
  {
  }

  lemma {:induction false} FieldsAreClosed(s: string)
    ensures Fields(s).Some? ==> forall x | x in Fields(s).value :: Closed(x)
    decreases |s|
  {
    hide Closed;
    if s != "" && s[0] == '[' {
      var i := IndexOf(s, ']');
      if i < |s| {
        assert Closed(s[1..i]) by { NoBracketClosed(s[1..i]); }
        if s[i + 1..] != "" {
          FieldsAreClosed(s[i + 1..][1..]);
          ConsClosed(s[1..i], Fields(s[i + 1..][1..]));
        }
      }
    } else {
      var i := IndexOf(s, ':');
      NoColonClosed(s[..i]);
      if i < |s| {
        FieldsAreClosed(s[i + 1..]);
        ConsClosed(s[..i], Fields(s[i + 1..]));
      } else {
        assert s[..i] == s;
      }
    }
  }

  lemma NoBracketClosed(f: string)
    requires ']' !in f
    ensures Closed(f)
  {
  }

  lemma NoColonClosed(f: string)
    requires ':' !in f
    ensures Closed(f)
  {
  }

  /** What can come back as the first field of a raw `f`: `f` itself unless it opens
      a bracket, and otherwise something shorter or something with a colon in it. */
  lemma FirstField(f: string, rest: string)
    requires ':' !in f && Fields(f + (":" + rest)).Some?
    ensures var first := Fields(f + (":" + rest)).value[0];
            (first == f && (f == "" || f[0] != '[')) || |first| < |f| || ':' in first
  {
    hide AfterBracket;
    var s := f + (":" + rest);
    assert s[|f|] == ':';
    if f != "" && f[0] == '[' {
      var i := IndexOf(s, ']');
      if i > |f| { assert s[1..i][|f| - 1] == ':'; }
    } else {
      EndField(f, false, rest);
    }
  }

  /** A TCP spec printed with a slash is read as a `tcp/` prefix, if at all. */
  lemma SlashInTcp(spec: Spec)
    requires spec.kind == Tcp && '/' in Body(spec)
    requires SplitKind(Body(spec)).Some? && SplitKind(Body(spec)).value.0 == Tcp
    ensures ':' !in spec.bind && |spec.bind| >= 4 && spec.bind != DEFAULT_BIND
    ensures SplitKind(Body(spec)).value.1 == spec.bind[4..] + (":" + PortAndTarget(spec))
  {
    hide PortAndTarget;
    var s := Body(spec);
    var i := IndexOf(s, '/');
    assert s[..i] == "tcp";
    assert s[0] == "tcp"[0] == 't' && s[1] == "tcp"[1] && s[2] == "tcp"[2] && s[3] == '/';
    PortFirst(spec);
    assert s[|spec.bind|] == ':';
  }

  lemma PortFirst(spec: Spec)
    ensures PortAndTarget(spec)[0] != 't'
  {
    assert PortAndTarget(spec)[0] == Dec(spec.localPort)[0] && Dec(spec.localPort)[0] in Dec(spec.localPort);
  }

  lemma SlashIsLost(spec: Spec)
    requires spec.kind == Tcp && '/' in Body(spec)
    ensures ParseSpec(Display(spec)) != Ok(spec)
  {
    hide Fields, Body, PortAndTarget, SplitKind;
    assert Display(spec) == Body(spec);
    if ParseSpec(Display(spec)) == Ok(spec) {
      ParsedBindAndHost(spec, Display(spec));
      SlashInTcp(spec);
      FirstField(spec.bind[4..], PortAndTarget(spec));
    }
  }

  lemma ParsedBindAndHost(spec: Spec, s: string)
    requires ParseSpec(s) == Ok(spec)
    ensures SplitKind(s).Some? && Fields(SplitKind(s).value.1).Some?
    ensures var fields := Fields(SplitKind(s).value.1).value;
            || (|fields| == 3 && spec.bind == DEFAULT_BIND && spec.host == fields[1])
            || (|fields| == 4 && spec.bind == fields[0] && spec.host == fields[2])
    ensures SplitKind(s).value.0 == spec.kind
    ensures spec.bind != "" && spec.host != "" && spec.hostPort > 0
  {
  }

  lemma ParsedPrints(spec: Spec)
    requires ParseSpec(Display(spec)) == Ok(spec)
    ensures Printable(spec)
  {
    hide Fields, SplitKind, ParseSpec, Dec, Target, PortAndTarget;
    BodySlash(spec);
    if spec.kind == Tcp && '/' in Body(spec) { SlashIsLost(spec); }
    SplitPrefixed(spec.kind, Body(spec));
    ParsedBindAndHost(spec, Display(spec));
    BindIsAtomic(spec);
    HostIsAtomic(spec);
  }

  lemma BindIsAtomic(spec: Spec)
    requires Fields(Body(spec)).Some?
    requires spec.bind == DEFAULT_BIND || spec.bind == Fields(Body(spec)).value[0]
    ensures Atomic(spec.bind)
  {
    hide Fields, PortAndTarget;
    if spec.bind != DEFAULT_BIND {
      if ':' in spec.bind {
        FieldsAreClosed(Body(spec));
        assert spec.bind in Fields(Body(spec)).value;
      } else {
        FirstField(spec.bind, PortAndTarget(spec));
      }
    }
  }

  lemma HostIsAtomic(spec: Spec)
    requires Atomic(spec.bind) && Fields(Body(spec)).Some?
    requires var fields := Fields(Body(spec)).value;
             || (|fields| == 3 && spec.bind == DEFAULT_BIND && spec.host == fields[1])
             || (|fields| == 4 && spec.bind == fields[0] && spec.host == fields[2])
    ensures Atomic(spec.host)
  {
    hide Fields, PortAndTarget, Body, Dec;
    LeadingFields(spec);
    DecIsNotDefault(spec.localPort);
    if ':' in spec.host {
      FieldsAreClosed(Target(spec));
      assert spec.host in Fields(Target(spec)).value;
    } else {
      FirstField(spec.host, Dec(spec.hostPort));
    }
  }

  lemma DecIsNotDefault(n: nat)
    ensures Dec(n) != DEFAULT_BIND
  {
    assert '.' in DEFAULT_BIND by { assert DEFAULT_BIND[3] == '.'; }
  }

  /** Parsing undoes printing for exactly the printable specs. */
  lemma ParseUndoesDisplay(spec: Spec)
    ensures ParseSpec(Display(spec)) == Ok(spec) <==> Printable(spec)
  {
    if Printable(spec) { PrintedParses(spec); }
    if ParseSpec(Display(spec)) == Ok(spec) { ParsedPrints(spec); }
  }

  /** No two printable specs print alike. */
  lemma DisplayInjective(a: Spec, b: Spec)
    requires Printable(a) && Printable(b) && Display(a) == Display(b)
    ensures a == b
  {
    PrintedParses(a);
    PrintedParses(b);
  }

  /** A parsed spec survives printing if and only if neither of its addresses opens with
      a bracket, unless a colon puts it back into brackets, and a TCP spec has no slash. */
  lemma ParsedSpecSurvives(s: string, spec: Spec)
    requires ParseSpec(s) == Ok(spec)
    ensures ParseSpec(Display(spec)) == Ok(spec) <==>
            && OpensPlain(spec.bind) && OpensPlain(spec.host)
            && (spec.kind == Tcp ==> '/' !in spec.bind && '/' !in spec.host)
  {
    hide Fields, SplitKind, ParseSpec, Display;
    ParsedBindAndHost(spec, s);
    FieldsAreClosed(SplitKind(s).value.1);
    assert ':' !in DEFAULT_BIND;
    assert Closed(spec.bind) && Closed(spec.host);
    ParseUndoesDisplay(spec);
  }

  predicate OpensPlain(f: string) { ':' in f || f == "" || f[0] != '[' }

  /** An address that opens with a bracket and has no colon can be typed in brackets. */
  lemma TypedBracketIsLost(spec: Spec)
    requires ':' !in spec.bind && ']' !in spec.bind && spec.bind != "" && spec.bind[0] == '['
    requires Atomic(spec.host) && spec.host != "" && spec.hostPort > 0
    requires spec.kind == Tcp ==> '/' !in spec.bind && '/' !in spec.host
    ensures ParseSpec(Prefix(spec.kind) + ("[" + spec.bind + ("]" + (":" + PortAndTarget(spec))))) == Ok(spec)
    ensures ParseSpec(Display(spec)) != Ok(spec)
  {
    hide Fields, SplitKind, ParseU16, Dec, Bracket, Target;
    CloseBracket(spec.bind, ":" + PortAndTarget(spec));
    PortAndTargetSlash(spec);
    assert (":" + PortAndTarget(spec))[1..] == PortAndTarget(spec);
    SplitPrefixed(spec.kind, "[" + spec.bind + ("]" + (":" + PortAndTarget(spec))));
    DecField(spec.localPort, Target(spec));
    TargetFields(spec);
    ParseDec(spec.localPort);
    ParseDec(spec.hostPort);
    ParseUndoesDisplay(spec);
  }

  lemma TargetFields(spec: Spec)
    requires Atomic(spec.host)
    ensures Fields(Target(spec)) == Some([spec.host, Dec(spec.hostPort)])
  {
    hide Fields, Dec, Bracket, Atomic;
    AtomicField(spec.host, Dec(spec.hostPort));
    DecField(spec.hostPort, "");
    assert [spec.host] + [Dec(spec.hostPort)] == [spec.host, Dec(spec.hostPort)];
  }

  lemma PortAndTargetSlash(spec: Spec)
    ensures '/' in PortAndTarget(spec) <==> '/' in spec.host
  {
    assert !IsDigit('/');
    assert '/' in Bracket(spec.host) <==> '/' in spec.host;
  }

  /** Every address with a slash can be typed behind a `tcp/`; the spec it parses to is
      printed without the kind, and that does not parse back. */
  lemma TypedSlashIsLost(spec: Spec)
    requires spec.kind == Tcp && spec.bind != "" && spec.host != "" && spec.hostPort > 0
    requires Atomic(spec.bind) && Atomic(spec.host) && ('/' in spec.bind || '/' in spec.host)
    ensures ParseSpec("tcp/" + Body(spec)) == Ok(spec) && ParseSpec(Display(spec)) != Ok(spec)
  {
    hide Fields, SplitKind, ParseU16, Dec, Bracket, Atomic, Body;
    BodySlash(spec);
    assert '/' !in DEFAULT_BIND;
    SlashIsLost(spec);
    SplitTcp(Body(spec));
    LeadingFields(spec);
    AtomicField(spec.host, Dec(spec.hostPort));
    DecField(spec.hostPort, "");
    ParseDec(spec.localPort);
    ParseDec(spec.hostPort);
  }

  // ------------------------------------------------------------ what is accepted

  function Zeros(n: nat): (s: string)
    ensures |s| == n
  {
    if n == 0 then "" else Zeros(n - 1) + "0"
  }

  /** The decimal numeral of `n`, with any number of zeros in front and possibly a sign. */
  predicate Writes(s: string, n: nat) {
    exists z | 0 <= z <= |s| :: s == Zeros(z) + Dec(n) || s == "+" + (Zeros(z) + Dec(n))
  }

  lemma {:induction false} NumeralOf(s: string)
    requires s != "" && forall c | c in s :: IsDigit(c)
    ensures exists z | 0 <= z <= |s| :: s == Zeros(z) + Dec(Value(s))
  {
    hide Dec, Value, Zeros;
    var front, c := s[..|s| - 1], s[|s| - 1];
    assert c in s && s == front + [c];
    NextDigit(front, c);
    if front == "" {
      ZeroMore(0);
      assert s == Zeros(0) + Dec(Value(s));
    } else {
      assert forall d | d in front :: d in s;
      NumeralOf(front);
      var z :| 0 <= z <= |front| && front == Zeros(z) + Dec(Value(front));
      ZeroMore(z);
      if Value(front) == 0 {
        assert s == Zeros(z + 1) + Dec(Value(s));
      } else {
        assert s == Zeros(z) + Dec(Value(s));
      }
    }
  }

  lemma NextDigit(front: string, c: char)
    requires IsDigit(c) && forall d | d in front :: IsDigit(d)
    ensures forall d | d in front + [c] :: IsDigit(d)
    ensures Dec(Value(front + [c])) == if Value(front) == 0 then [c] else Dec(Value(front)) + [c]
    ensures front == "" ==> Value(front) == 0
  {
    assert (front + [c])[..|front|] == front;
    assert '0' + DigitOf(c) as char == c;
  }

  lemma ZeroMore(z: nat)
    ensures Zeros(z + 1) == Zeros(z) + Dec(0) && Zeros(0) == ""
  {
  }

  lemma {:induction false} ZerosAreNothing(z: nat, s: string)
    requires forall c | c in s :: IsDigit(c)
    ensures forall c | c in Zeros(z) + s :: IsDigit(c)
    ensures Value(Zeros(z) + s) == Value(s)
    decreases |s|, z
  {
    if s == "" {
      if z > 0 {
        ZerosAreNothing(z - 1, "");
        assert Zeros(z) + "" == Zeros(z) && Zeros(z - 1) + "" == Zeros(z - 1);
        assert Zeros(z)[..z - 1] == Zeros(z - 1) && Zeros(z)[z - 1] == '0';
      } else {
        assert Zeros(0) + "" == "";
      }
    } else {
      ZerosAreNothing(z, s[..|s| - 1]);
      assert (Zeros(z) + s)[..|Zeros(z) + s| - 1] == Zeros(z) + s[..|s| - 1];
      assert s[|s| - 1] in s;
    }
  }

  /** A port is read as `n` exactly when it is one of the ways to write `n`. */
  lemma PortsAre(s: string, n: U16)
    ensures ParseU16(s) == Some(n) <==> Writes(s, n)
  {
    hide Dec, Value, Zeros;
    var digits := if |s| > 1 && s[0] == '+' then s[1..] else s;
    if ParseU16(s) == Some(n) {
      NumeralOf(digits);
      var z :| 0 <= z <= |digits| && digits == Zeros(z) + Dec(n);
      assert digits != s ==> s == "+" + digits;
    }
    if Writes(s, n) {
      var z :| 0 <= z <= |s| && (s == Zeros(z) + Dec(n) || s == "+" + (Zeros(z) + Dec(n)));
      ZerosAreNothing(z, Dec(n));
      ValueOfDec(n);
      var numeral := Zeros(z) + Dec(n);
      assert numeral != "" && IsDigit(numeral[0]) by { assert numeral[0] in numeral; }
      assert s != numeral ==> s[1..] == numeral;
      assert digits == numeral;
    }
  }

  /** A kind that is not one of the three is refused; the three are taken off. */
  lemma KindsAre(kind: string, rest: string)
    requires '/' !in kind
    ensures kind !in {"tcp", "udp", "tls"} ==> ParseSpec(kind + ("/" + rest)) == Err(UnknownKind)
    ensures kind == "tcp" && '/' !in rest ==> ParseSpec(kind + ("/" + rest)) == ParseSpec(rest)
    ensures kind in {"udp", "tls"} && '/' !in rest ==>
              ParseSpec(kind + ("/" + rest)) ==
              match ParseSpec(rest)
              case Err(error) => Err(error)
              case Ok(spec) => Ok(spec.(kind := if kind == "udp" then Udp else Tls))
  {
    hide Fields, ParseU16;
    var s := kind + ("/" + rest);
    assert s[..|kind|] == kind && s[|kind| + 1..] == rest && s[|kind|] == '/';
    IndexOfAt(s, '/', |kind|);
    if '/' !in rest { IndexOfAt(rest, '/', |rest|); }
  }

  /** What is parsed: three or four fields, a bind address that is not empty, a local
      port, a host that is not empty, and a target port that is not zero. */
  lemma AcceptedExactly(s: string, spec: Spec)
    requires '/' !in s
    ensures ParseSpec(s) == Ok(spec) <==>
            && Fields(s).Some? && spec.kind == Tcp && spec.bind != "" && spec.host != "" && spec.hostPort != 0
            && var fields := Fields(s).value;
            && if |fields| == 3 then
                 spec.bind == "127.0.0.1" && Writes(fields[0], spec.localPort)
                 && fields[1] == spec.host && Writes(fields[2], spec.hostPort)
               else
                 |fields| == 4 && fields[0] == spec.bind && Writes(fields[1], spec.localPort)
                 && fields[2] == spec.host && Writes(fields[3], spec.hostPort)
  {
    hide Fields, ParseU16, Writes;
    IndexOfAt(s, '/', |s|);
    if Fields(s).Some? {
      var fields := Fields(s).value;
      if |fields| == 3 || |fields| == 4 {
        PortsAre(fields[|fields| - 3], spec.localPort);
        PortsAre(fields[|fields| - 1], spec.hostPort);
      }
    }
  }

  /** Why a spec without a kind prefix is refused: the first of the rules it breaks, in the
      order shape, target port, host, local port, bind address. */
  lemma RefusedFor(s: string)
    requires '/' !in s
    ensures ParseSpec(s) == Err(Unterminated) <==> Fields(s).None?
    ensures Fields(s).Some? ==>
              var fields, r := Fields(s).value, ParseSpec(s);
              var n := |fields|;
              && (r == Err(BadShape) <==> n != 3 && n != 4)
              && (n == 3 || n == 4 ==>
                    var goodTarget, goodLocal := IsPort(fields[n - 1], 1), IsPort(fields[n - 3], 0);
                    && (r == Err(BadTargetPort) <==> !goodTarget)
                    && (r == Err(EmptyHost) <==> goodTarget && fields[n - 2] == "")
                    && (r == Err(BadLocalPort) <==> goodTarget && fields[n - 2] != "" && !goodLocal)
                    && (r == Err(EmptyBind) <==>
                        goodTarget && fields[n - 2] != "" && goodLocal && n == 4 && fields[0] == ""))
  {
    hide Fields, ParseU16, Writes;
    IndexOfAt(s, '/', |s|);
    if Fields(s).Some? {
      var fields := Fields(s).value;
      if |fields| == 3 || |fields| == 4 {
        ReadablePort(fields[|fields| - 3]);
        ReadablePort(fields[|fields| - 1]);
      }
    }
  }

  /** Some way to write a port from `least` on. */
  ghost predicate IsPort(s: string, least: nat) { exists p: U16 :: Writes(s, p) && p >= least }

  lemma ReadablePort(s: string)
    ensures ParseU16(s).Some? <==> IsPort(s, 0)
    ensures ParseU16(s).Some? && ParseU16(s).value > 0 <==> IsPort(s, 1)
    ensures forall p: U16 | Writes(s, p) :: ParseU16(s) == Some(p)
  {
    hide ParseU16, Writes;
    forall p: U16 ensures ParseU16(s) == Some(p) <==> Writes(s, p) {
      PortsAre(s, p);
    }
    if ParseU16(s).Some? { assert Writes(s, ParseU16(s).value); }
  }

  lemma SplitTcp(body: string)
    ensures SplitKind("tcp/" + body) == Some((Tcp, body))
  {
    var s := "tcp/" + body;
    IndexOfAt(s, '/', 3);
    assert s[..3] == "tcp" && s[4..] == body;
  }
}
