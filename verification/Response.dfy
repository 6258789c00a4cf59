/** A command's response: the TypeScript provider writes it as a few DATA payloads,
    the Rust client reads them back one by one. */
module Response {
  import opened Common
  import opened Utf8
  import opened Wire

  const STDOUT: Byte := 1
  const STDERR: Byte := 2
  const RESULT: Byte := 4
  const EXIT: Byte := 5
  const CLOSE_NORMAL := 0
  const CLOSE_CANCELLED := 1
  const MAX_CONTENT_TYPE := 255
  const MAX_DETAIL := 4096

  // ------------------------------------------------------------ media types

  const SLASH: Byte := 0x2f

  predicate ComponentStart(u: int) { 0x61 <= u <= 0x7a || 0x30 <= u <= 0x39 }

  /** Lower-case letters, digits and `!#$&^_.+-`. */
  predicate ComponentChar(u: int) {
    ComponentStart(u) || u in {0x21, 0x23, 0x24, 0x26, 0x5e, 0x5f, 0x2e, 0x2b, 0x2d}
  }

  predicate Component(s: seq<int>) {
    s != [] && ComponentStart(s[0]) && forall i | 1 <= i < |s| :: ComponentChar(s[i])
  }

  /** The provider's regular expression: a component, a slash, a component. */
  ghost predicate MatchesMediaType(value: Text) {
    exists i | 0 <= i < |value| :: value[i] == SLASH && Component(value[..i]) && Component(value[i + 1..])
  }

  function IndexOfSlash(s: seq<int>): (i: nat)
    ensures i <= |s| && (i < |s| ==> s[i] == SLASH) && forall k | 0 <= k < i :: s[k] != SLASH
  {
    if s == [] || s[0] == SLASH then 0 else 1 + IndexOfSlash(s[1..])
  }

  /** The client's check: exactly two components between slashes, 255 bytes at most. */
  predicate ValidContentType(s: seq<Byte>) {
    var i := IndexOfSlash(s);
    && s != [] && |s| <= MAX_CONTENT_TYPE
    && i < |s|
    && IndexOfSlash(s[i + 1..]) == |s[i + 1..]|
    && Component(s[..i]) && Component(s[i + 1..])
  }

  predicate Ascii(s: seq<int>) { forall k | 0 <= k < |s| :: 0 <= s[k] < 0x80 }

  lemma AsciiConcat(a: seq<int>, b: seq<int>)
    ensures Ascii(a + b) <==> Ascii(a) && Ascii(b)
  {
    if Ascii(a + b) {
      assert forall k | 0 <= k < |a| :: a[k] == (a + b)[k];
      assert forall k | 0 <= k < |b| :: b[k] == (a + b)[|a| + k];
    }
  }

  /** ASCII text is its own encoding, and only ASCII text encodes to ASCII. */
  lemma {:induction false} AsciiEncoding(s: Text, i: nat)
    requires i <= |s|
    ensures Ascii(s[i..]) <==> Ascii(EncodeFrom(s, i))
    ensures Ascii(s[i..]) ==> EncodeFrom(s, i) == s[i..]
    decreases |s| - i
  {
    hide EncodeScalar, Ascii;
    if i < |s| {
      var (c, w) := ScalarAt(s, i);
      AsciiEncoding(s, i + w);
      AsciiScalar(s, i);
      AsciiConcat(EncodeScalar(c), EncodeFrom(s, i + w));
      AsciiConcat(s[i..i + w], s[i + w..]);
      assert s[i..] == s[i..i + w] + s[i + w..];
    } else {
      assert s[i..] == [];
    }
  }

  lemma AsciiScalar(s: Text, i: nat)
    requires i < |s|
    ensures var (c, w) := ScalarAt(s, i);
            && (Ascii(s[i..i + w]) <==> Ascii(EncodeScalar(c)))
            && (Ascii(s[i..i + w]) ==> EncodeScalar(c) == s[i..i + w])
  {
    var (c, w) := ScalarAt(s, i);
    assert s[i..i + w][0] == s[i];
    assert c >= 0x80 ==> EncodeScalar(c)[0] >= 0x80;
  }

  lemma ComponentIsAscii(s: seq<int>)
    requires Component(s)
    ensures forall i | 0 <= i < |s| :: 0 <= s[i] < 0x80 && s[i] != SLASH
  {
  }

  lemma SlashSplit(s: seq<int>, i: nat)
    requires i < |s| && s[i] == SLASH && Component(s[..i])
    ensures IndexOfSlash(s) == i
  {
    ComponentIsAscii(s[..i]);
    assert forall k | 0 <= k < i :: s[k] == s[..i][k];
  }

  lemma SplitIsAscii(s: seq<int>, i: nat)
    requires i < |s| && s[i] == SLASH && Component(s[..i]) && Component(s[i + 1..])
    ensures Ascii(s) && IndexOfSlash(s[i + 1..]) == |s[i + 1..]|
  {
    ComponentIsAscii(s[..i]);
    ComponentIsAscii(s[i + 1..]);
    forall k | 0 <= k < |s| ensures 0 <= s[k] < 0x80 {
      if k < i { assert s[k] == s[..i][k]; }
      if k > i { assert s[k] == s[i + 1..][k - i - 1]; }
    }
  }

  lemma TextMatchIsAccepted(value: Text)
    requires MatchesMediaType(value) && |Encode(value)| <= MAX_CONTENT_TYPE
    ensures ValidContentType(Encode(value))
  {
    hide Component, EncodeScalar;
    var i :| 0 <= i < |value| && value[i] == SLASH && Component(value[..i]) && Component(value[i + 1..]);
    SplitIsAscii(value, i);
    assert value[0..] == value;
    AsciiEncoding(value, 0);
    assert Encode(value) == value;
    SlashSplit(value, i);
  }

  lemma AcceptedMatchesText(value: Text)
    requires ValidContentType(Encode(value))
    ensures MatchesMediaType(value)
  {
    hide Component, EncodeScalar;
    var s := Encode(value);
    var i := IndexOfSlash(s);
    SplitIsAscii(s, i);
    assert value[0..] == value;
    AsciiEncoding(value, 0);
    assert s == value;
    assert value[i] == SLASH;
  }

  /** Both sides accept the same media types: the provider's expression together with
      its length check, and the client's split. */
  lemma MediaTypesAgree(value: Text)
    ensures MatchesMediaType(value) && |Encode(value)| <= MAX_CONTENT_TYPE <==> ValidContentType(Encode(value))
  {
    hide MatchesMediaType, Encode;
    if MatchesMediaType(value) && |Encode(value)| <= MAX_CONTENT_TYPE { TextMatchIsAccepted(value); }
    if ValidContentType(Encode(value)) { AcceptedMatchesText(value); }
  }

  // ------------------------------------------------------------ the client

  datatype Output =
    | Stdout(data: seq<Byte>)
    | Stderr(data: seq<Byte>)
    | Log(level: Byte, message: seq<Byte>)
    | Result(contentType: seq<Byte>, data: seq<Byte>)
    | Exit(code: int, detail: seq<Byte>)

  /** `i32::from_le_bytes`. */
  function I32At(s: seq<Byte>, i: nat): (v: int)
    requires i + 4 <= |s|
    ensures -0x8000_0000 <= v < 0x8000_0000
  {
    var v := U32At(s, i);
    if v < 0x8000_0000 then v else v - 0x1_0000_0000
  }

  /** One DATA payload, and whether a RESULT has been seen afterwards. */
  function DecodeOutput(payload: seq<Byte>, resultSeen: bool): Option<(Output, bool)> {
    if payload == [] then None
    else
      var body := payload[1..];
      match payload[0]
      case 1 => Some((Stdout(body), resultSeen))
      case 2 => Some((Stderr(body), resultSeen))
      case 3 =>
        if body == [] || body[0] > 4 || !IsString(body[1..]) then None else Some((Log(body[0], body[1..]), resultSeen))
      case 4 =>
        if resultSeen || |body| < 2 || 2 + U16At(body, 0) > |body| then None
        else
          var end := 2 + U16At(body, 0);
          if !IsString(body[2..end]) || !ValidContentType(body[2..end]) then None
          else Some((Result(body[2..end], body[end..]), true))
      case 5 =>
        if |body| < 4 || !IsString(body[4..]) then None else Some((Exit(I32At(body, 0), body[4..]), resultSeen))
      case _ => None
  }

  function DecodeAll(payloads: seq<seq<Byte>>, resultSeen: bool): Option<seq<Output>> {
    if payloads == [] then Some([])
    else match DecodeOutput(payloads[0], resultSeen) {
      case None => None
      case Some((output, seen)) =>
        match DecodeAll(payloads[1..], seen)
        case None => None
        case Some(rest) => Some([output] + rest)
    }
  }

  // ------------------------------------------------------------ the provider

  datatype CommandBytes = AsText(text: Text) | AsBytes(bytes: seq<Byte>)

  datatype ResultPart = ResultPart(contentType: Text, data: CommandBytes)

  /** A JavaScript number, as far as the exit code is concerned. */
  datatype Number = Integer(n: int) | NotInteger

  datatype CommandResponse = CommandResponse(
    stdout: Option<CommandBytes>, stderr: Option<CommandBytes>, result: Option<ResultPart>,
    code: Option<Number>, detail: Option<Text>)

  datatype Error =
    | OutputTooLarge | BadContentType | ContentTypeTooLong | ResultTooLarge | BadCode | DetailTooLong | WindowExceeded
    | BadInvocation

  datatype Packet =
    | Ack(channel: nat, bytes: nat)
    | Data(channel: nat, payload: seq<Byte>)
    | Close(channel: nat, reason: nat)

  class Host {
    var sent: seq<Packet>

    constructor ()
      ensures sent == []
    {
      sent := [];
    }

    method Send(packet: Packet)
      modifies this
      ensures sent == old(sent) + [packet]
    {
      sent := sent + [packet];
    }
  }

  function BytesOf(value: CommandBytes): seq<Byte> {
    match value case AsText(text) => Encode(text) case AsBytes(bytes) => bytes
  }

  function OptionalBytes(value: Option<CommandBytes>): seq<Byte> {
    if value.Some? then BytesOf(value.value) else []
  }

  /** Stream data as a payload; nothing is sent for no data. */
  function StreamPayload(kind: Byte, value: Option<CommandBytes>): seq<seq<Byte>> {
    if OptionalBytes(value) == [] then [] else [[kind] + OptionalBytes(value)]
  }

  function ResultPayload(part: ResultPart): seq<Byte> {
    [RESULT] + Le16(|Encode(part.contentType)|) + Encode(part.contentType) + BytesOf(part.data)
  }

  function ExitPayload(code: int, detail: Text): seq<Byte> {
    [EXIT] + Le32(code % 0x1_0000_0000) + Encode(detail)
  }

  function CodeOf(response: CommandResponse): Number {
    if response.code.Some? then response.code.value else Integer(0)
  }

  function DetailOf(response: CommandResponse): Text {
    if response.detail.Some? then response.detail.value else []
  }

  /** The responses the provider can send over a channel with this credit window. */
  ghost predicate Sendable(response: CommandResponse, window: nat) {
    && |OptionalBytes(response.stdout)| < CHANNEL_MAX_PAYLOAD
    && |OptionalBytes(response.stderr)| < CHANNEL_MAX_PAYLOAD
    && (response.result.Some? ==>
          && MatchesMediaType(response.result.value.contentType)
          && |Encode(response.result.value.contentType)| <= MAX_CONTENT_TYPE
          && |ResultPayload(response.result.value)| <= CHANNEL_MAX_PAYLOAD)
    && CodeOf(response).Integer? && -0x8000_0000 <= CodeOf(response).n <= 0x7fff_ffff
    && |Encode(DetailOf(response))| <= MAX_DETAIL
    && Sum(Payloads(response)) <= window
  }

  /** Why a result part is refused, if it is. */
  ghost function ResultError(part: ResultPart): Option<Error> {
    if !MatchesMediaType(part.contentType) then Some(BadContentType)
    else if |Encode(part.contentType)| > MAX_CONTENT_TYPE then Some(ContentTypeTooLong)
    else if |ResultPayload(part)| > CHANNEL_MAX_PAYLOAD then Some(ResultTooLarge)
    else None
  }

  /** Why a response is refused, if it is: the first limit it breaks. */
  ghost function ResponseError(response: CommandResponse, window: nat): Option<Error> {
    if |OptionalBytes(response.stdout)| >= CHANNEL_MAX_PAYLOAD
      || |OptionalBytes(response.stderr)| >= CHANNEL_MAX_PAYLOAD then
      Some(OutputTooLarge)
    else if response.result.Some? && ResultError(response.result.value).Some? then ResultError(response.result.value)
    else if CodeOf(response).NotInteger? || !(-0x8000_0000 <= CodeOf(response).n <= 0x7fff_ffff) then Some(BadCode)
    else if |Encode(DetailOf(response))| > MAX_DETAIL then Some(DetailTooLong)
    else if Sum(Payloads(response)) > window then Some(WindowExceeded)
    else None
  }

  lemma SendableWithoutError(response: CommandResponse, window: nat)
    ensures Sendable(response, window) <==> ResponseError(response, window).None?
  {
    hide MatchesMediaType, Encode, OptionalBytes, ResultPayload, Payloads, Sum;
  }

  /** The error names the first limit broken, in the order output, result, code, detail,
      credit. */
  lemma ErrorIsTheFirst(response: CommandResponse, window: nat)
    ensures var error := ResponseError(response, window);
            var outputs := |OptionalBytes(response.stdout)| < CHANNEL_MAX_PAYLOAD
                           && |OptionalBytes(response.stderr)| < CHANNEL_MAX_PAYLOAD;
            var result := response.result.None? || ResultError(response.result.value).None?;
            var code := CodeOf(response);
            var inRange := code.Integer? && -0x8000_0000 <= code.n < 0x8000_0000;
            var detail := |Encode(DetailOf(response))| <= 4096;
            && (error == Some(OutputTooLarge) <==> !outputs)
            && (outputs && !result ==> error == ResultError(response.result.value))
            && (error == Some(BadCode) <==> outputs && result && !inRange)
            && (error == Some(DetailTooLong) <==> outputs && result && inRange && !detail)
            && (error == Some(WindowExceeded) <==>
                outputs && result && inRange && detail && Sum(Payloads(response)) > window)
  {
    hide MatchesMediaType, Encode, OptionalBytes, ResultPayload, Payloads, Sum;
  }

  /** Nothing in particular is an exit with code 0 and no detail. */
  lemma EmptyResponse(window: nat)
    ensures var nothing := CommandResponse(None, None, None, None, None);
            && CodeOf(nothing).Integer? && Delivered(nothing) == [Exit(0, [])]
            && Payloads(nothing) == [[EXIT, 0, 0, 0, 0]]
            && (Sendable(nothing, window) <==> 5 <= window)
  {
    EncodeNothing();
    var nothing := CommandResponse(None, None, None, None, None);
    assert Le32(0) == [0, 0, 0, 0];
    assert ExitPayload(0, []) == [EXIT, 0, 0, 0, 0];
    assert Payloads(nothing) == [ExitPayload(0, [])];
    SumSnoc([], ExitPayload(0, []));
    assert [] + [ExitPayload(0, [])] == [ExitPayload(0, [])];
    SumNothing();
  }

  function Payloads(response: CommandResponse): seq<seq<Byte>>
    requires CodeOf(response).Integer?
  {
    StreamPayload(STDOUT, response.stdout) + StreamPayload(STDERR, response.stderr)
    + (if response.result.Some? then [ResultPayload(response.result.value)] else [])
    + [ExitPayload(CodeOf(response).n, DetailOf(response))]
  }

  method BytePayload(kind: Byte, value: Option<CommandBytes>) returns (ok: bool, payload: Option<seq<Byte>>)
    ensures ok <==> |OptionalBytes(value)| < CHANNEL_MAX_PAYLOAD
    ensures ok ==> StreamPayload(kind, value) == if payload.Some? then [payload.value] else []
  {
    if value.None? { return true, None; }
    var data := ToBytes(value.value);
    if data == [] { return true, None; }
    var writer := new ByteWriter();
    writer.U8(kind);
    writer.Bytes(data);
    assert writer.written == [kind] + data;
    if |writer.written| > CHANNEL_MAX_PAYLOAD { return false, None; }
    return true, Some(writer.written);
  }

  method ToBytes(value: CommandBytes) returns (r: seq<Byte>)
    ensures r == BytesOf(value)
  {
    match value
    case AsText(text) => r := EncodeUtf8(text);
    case AsBytes(bytes) => r := bytes;
  }

  /** The test of the provider's regular expression. */
  method TestMediaType(value: Text) returns (r: bool)
    ensures r <==> MatchesMediaType(value)
  {
    // A component holds no slash, so the first one is the only possible separator.
    var i := IndexOfSlash(value);
    r := i < |value| && Component(value[..i]) && Component(value[i + 1..]);
    if MatchesMediaType(value) {
      var j :| 0 <= j < |value| && value[j] == SLASH && Component(value[..j]) && Component(value[j + 1..]);
      SlashSplit(value, j);
    }
  }

  /** Everything is validated before anything is sent: a refused response leaves the
      channel untouched, an accepted one goes out whole and closes it. */
  method SendResponse(host: Host, channel: nat, window: nat, response: CommandResponse) returns (ok: bool, error: Error)
    modifies host
    ensures ok <==> Sendable(response, window)
    ensures !ok ==> ResponseError(response, window) == Some(error)
    ensures host.sent ==
            if ok then old(host.sent) + DataPackets(channel, Payloads(response)) + [Close(channel, CLOSE_NORMAL)]
                         else old(host.sent)
  {
    var payloads;
    ok, error, payloads := BuildPayloads(response, window);
    if !ok { return; }
    for n := 0 to |payloads|
      invariant host.sent == old(host.sent) + DataPackets(channel, payloads[..n])
    {
      assert payloads[..n + 1][..n] == payloads[..n];
      PayloadsFit(response, window, n);
      if payloads[n] == [] || |payloads[n]| > CHANNEL_MAX_PAYLOAD { assert false; }
      host.Send(Data(channel, payloads[n]));
    }
    assert payloads[..|payloads|] == payloads;
    host.Send(Close(channel, CLOSE_NORMAL));
  }

  method BuildPayloads(response: CommandResponse, window: nat)
    returns (ok: bool, error: Error, payloads: seq<seq<Byte>>)
    ensures ok <==> Sendable(response, window)
    ensures if ok then payloads == Payloads(response) else ResponseError(response, window) == Some(error)
  {
    hide MatchesMediaType, Le16, Le32, Encode, OptionalBytes, ResultPayload, ExitPayload, Sendable, ResultError, Sum;
    SendableWithoutError(response, window);
    payloads, error := [], OutputTooLarge;
    var stdout, stderr;
    ok, stdout := BytePayload(STDOUT, response.stdout);
    if !ok { return; }
    ok, stderr := BytePayload(STDERR, response.stderr);
    if !ok { return; }
    if stdout.Some? { payloads := payloads + [stdout.value]; }
    if stderr.Some? { payloads := payloads + [stderr.value]; }
    assert payloads == StreamPayload(STDOUT, response.stdout) + StreamPayload(STDERR, response.stderr);
    if response.result.Some? {
      var payload;
      ok, error, payload := BuildResult(response.result.value);
      if !ok { return; }
      payloads := payloads + [payload];
    }
    var code := if response.code.Some? then response.code.value else Integer(0);
    if code.NotInteger? || code.n < -0x8000_0000 || code.n > 0x7fff_ffff { return false, BadCode, []; }
    var exit;
    ok, exit := BuildExit(code.n, if response.detail.Some? then response.detail.value else []);
    if !ok { return false, DetailTooLong, []; }
    payloads := payloads + [exit];
    assert payloads == Payloads(response);
    var total := TotalLength(payloads);
    if total > window { return false, WindowExceeded, []; }
  }

  method BuildResult(part: ResultPart) returns (ok: bool, error: Error, payload: seq<Byte>)
    ensures payload == if ok then ResultPayload(part) else []
    ensures ResultError(part) == if ok then None else Some(error)
  {
    hide MatchesMediaType, Le16, Encode;
    var canonical := TestMediaType(part.contentType);
    if !canonical { return false, BadContentType, []; }
    var contentType := EncodeUtf8(part.contentType);
    if |contentType| > MAX_CONTENT_TYPE { return false, ContentTypeTooLong, []; }
    var data := ToBytes(part.data);
    var writer := new ByteWriter();
    writer.U8(RESULT);
    writer.U16(|contentType|);
    writer.Bytes(contentType);
    writer.Bytes(data);
    assert writer.written == ResultPayload(part);
    if |writer.written| > CHANNEL_MAX_PAYLOAD { return false, ResultTooLarge, []; }
    return true, ResultTooLarge, writer.written;
  }

  method BuildExit(code: int, text: Text) returns (ok: bool, payload: seq<Byte>)
    ensures ok <==> |Encode(text)| <= MAX_DETAIL
    ensures ok ==> payload == ExitPayload(code, text)
  {
    hide Le32, Encode;
    var detail := EncodeUtf8(text);
    if |detail| > MAX_DETAIL { return false, []; }
    var writer := new ByteWriter();
    writer.U8(EXIT);
    writer.I32(code);
    writer.Bytes(detail);
    assert writer.written == ExitPayload(code, text);
    return true, writer.written;
  }

  method TotalLength(payloads: seq<seq<Byte>>) returns (total: nat)
    ensures total == Sum(payloads)
  {
    total := 0;
    for n := 0 to |payloads|
      invariant total == Sum(payloads[..n])
    {
      assert payloads[..n + 1][..n] == payloads[..n];
      total := total + |payloads[n]|;
    }
    assert payloads[..|payloads|] == payloads;
  }

  function DataPackets(channel: nat, payloads: seq<seq<Byte>>): seq<Packet> {
    if payloads == [] then []
      else DataPackets(channel, payloads[..|payloads| - 1]) + [Data(channel, payloads[|payloads| - 1])]
  }

  lemma PayloadsFit(response: CommandResponse, window: nat, n: nat)
    requires Sendable(response, window) && n < |Payloads(response)|
    ensures 0 < |Payloads(response)[n]| <= CHANNEL_MAX_PAYLOAD
  {
    hide MatchesMediaType, Le16, Le32, Encode;
  }

  // ------------------------------------------------------------ agreement

  /** What the client should see of a response. */
  function Delivered(response: CommandResponse): seq<Output>
    requires CodeOf(response).Integer?
  {
    (if OptionalBytes(response.stdout) == [] then [] else [Stdout(OptionalBytes(response.stdout))])
    + (if OptionalBytes(response.stderr) == [] then [] else [Stderr(OptionalBytes(response.stderr))])
    + (if response.result.Some? then
       [Result(Encode(response.result.value.contentType), BytesOf(response.result.value.data))] else [])
    + [Exit(CodeOf(response).n, Encode(DetailOf(response)))]
  }

  lemma EncodedIsString(text: Text)
    ensures IsString(Encode(text))
  {
    Utf8.DecodeUndoesEncode(text);
  }

  lemma StreamDecodes(kind: Byte, data: seq<Byte>, seen: bool)
    requires kind in {STDOUT, STDERR}
    ensures DecodeOutput([kind] + data, seen) == Some((if kind == STDOUT then Stdout(data) else Stderr(data), seen))
  {
    assert ([kind] + data)[1..] == data;
  }

  lemma ResultDecodes(part: ResultPart)
    requires MatchesMediaType(part.contentType) && |Encode(part.contentType)| <= MAX_CONTENT_TYPE
    ensures DecodeOutput(ResultPayload(part), false) ==
            Some((Result(Encode(part.contentType), BytesOf(part.data)), true))
  {
    hide Encode, MatchesMediaType, Le16, ValidContentType, IsString, U16At;
    var contentType, data := Encode(part.contentType), BytesOf(part.data);
    MediaTypesAgree(part.contentType);
    EncodedIsString(part.contentType);
    ResultBody(contentType, data);
    TailOf(RESULT, Le16(|contentType|) + (contentType + data));
    assert ResultPayload(part) == [RESULT] + (Le16(|contentType|) + (contentType + data));
  }

  lemma ExitDecodes(code: int, detail: Text, seen: bool)
    requires -0x8000_0000 <= code <= 0x7fff_ffff
    ensures DecodeOutput(ExitPayload(code, detail), seen) == Some((Exit(code, Encode(detail)), seen))
  {
    hide Encode, Le32, IsString, U32At;
    EncodedIsString(detail);
    ExitBody(code, Encode(detail));
    TailOf(EXIT, Le32(code % 0x1_0000_0000) + Encode(detail));
    assert ExitPayload(code, detail) == [EXIT] + (Le32(code % 0x1_0000_0000) + Encode(detail));
  }

  lemma DecodeAllCons(payload: seq<Byte>, rest: seq<seq<Byte>>, seen: bool)
    requires DecodeOutput(payload, seen).Some? && DecodeAll(rest, DecodeOutput(payload, seen).value.1).Some?
    ensures DecodeAll([payload] + rest, seen) ==
            Some([DecodeOutput(payload, seen).value.0] + DecodeAll(rest, DecodeOutput(payload, seen).value.1).value)
  {
    hide DecodeOutput;
    assert ([payload] + rest)[1..] == rest;
  }

  /** If the provider accepts a response, the client accepts every payload of it and
      recovers stdout, stderr, result, exit code and detail. */
  lemma ClientRecoversResponse(response: CommandResponse, window: nat)
    requires Sendable(response, window)
    ensures DecodeAll(Payloads(response), false) == Some(Delivered(response))
  {
    hide DecodeOutput, Encode, MatchesMediaType, ExitPayload, ResultPayload, DecodeAll;
    var code, seen := CodeOf(response).n, response.result.Some?;
    var exit := ExitPayload(code, DetailOf(response));
    var tail, out := [exit], [Exit(code, Encode(DetailOf(response)))];
    ExitDecodes(code, DetailOf(response), seen);
    DecodeNothing(seen);
    DecodeAllCons(exit, [], seen);
    assert [exit] + [] == [exit] && out + [] == out;
    if seen {
      ResultDecodes(response.result.value);
      DecodeAllCons(ResultPayload(response.result.value), tail, false);
      tail, out := [ResultPayload(response.result.value)] + tail,
                   [Result(Encode(response.result.value.contentType), BytesOf(response.result.value.data))] + out;
    }
    var stderr, stdout := OptionalBytes(response.stderr), OptionalBytes(response.stdout);
    if stderr != [] {
      StreamDecodes(STDERR, stderr, false);
      DecodeAllCons([STDERR] + stderr, tail, false);
      tail, out := [[STDERR] + stderr] + tail, [Stderr(stderr)] + out;
    }
    if stdout != [] {
      StreamDecodes(STDOUT, stdout, false);
      DecodeAllCons([STDOUT] + stdout, tail, false);
      tail, out := [[STDOUT] + stdout] + tail, [Stdout(stdout)] + out;
    }
    assert tail == Payloads(response) && out == Delivered(response);
  }

  lemma DecodeNothing(seen: bool)
    ensures DecodeAll([], seen) == Some([])
  {
  }

  /** The payload that says `output`. */
  function Written(output: Output): seq<Byte> {
    match output
    case Stdout(data) => [STDOUT] + data
    case Stderr(data) => [STDERR] + data
    case Log(level, message) => [3, level] + message
    case Result(contentType, data) => [RESULT] + (Le16(|contentType|) + (contentType + data))
    case Exit(code, detail) => [EXIT] + (Le32(code % 0x1_0000_0000) + detail)
  }

  /** What may be said: at most one result, of a valid type, and text that is UTF-8. */
  predicate Legal(output: Output, resultSeen: bool) {
    match output
    case Stdout(_) => true
    case Stderr(_) => true
    case Log(level, message) => level <= 4 && IsString(message)
    case Result(contentType, _) => !resultSeen && IsString(contentType) && ValidContentType(contentType)
    case Exit(code, detail) => -0x8000_0000 <= code < 0x8000_0000 && IsString(detail)
  }

  /** The client accepts exactly the payloads of legal outputs, and remembers a result. */
  lemma DecodesExactly(payload: seq<Byte>, resultSeen: bool, output: Output)
    ensures DecodeOutput(payload, resultSeen) == Some((output, resultSeen || output.Result?)) <==>
            payload == Written(output) && Legal(output, resultSeen)
    ensures DecodeOutput(payload, resultSeen).Some? ==>
              var (said, seen) := DecodeOutput(payload, resultSeen).value;
              seen == (resultSeen || said.Result?)
  {
    hide IsString, ValidContentType, Le16, Le32, U16At, U32At;
    if payload == Written(output) && Legal(output, resultSeen) { WrittenDecodes(output, resultSeen); }
    if DecodeOutput(payload, resultSeen) == Some((output, resultSeen || output.Result?)) {
      DecodedIsWritten(payload, resultSeen);
    }
  }

  lemma TailOf(kind: Byte, body: seq<Byte>)
    ensures ([kind] + body)[1..] == body
  {
  }

  lemma ResultBody(contentType: seq<Byte>, data: seq<Byte>)
    requires |contentType| <= MAX_CONTENT_TYPE
    ensures var body := Le16(|contentType|) + (contentType + data);
            && |body| >= 2 && U16At(body, 0) == |contentType| && 2 + |contentType| <= |body|
            && body[2..2 + |contentType|] == contentType && body[2 + |contentType|..] == data
  {
    hide Le16, U16At;
    var body := Le16(|contentType|) + (contentType + data);
    assert body[0..2] == Le16(|contentType|);
    Le16Back(|contentType|, body, 0);
  }

  lemma ExitBody(code: int, detail: seq<Byte>)
    requires -0x8000_0000 <= code < 0x8000_0000
    ensures var body := Le32(code % 0x1_0000_0000) + detail;
            |body| >= 4 && I32At(body, 0) == code && body[4..] == detail
  {
    hide Le32, U32At;
    var body := Le32(code % 0x1_0000_0000) + detail;
    assert body[0..4] == Le32(code % 0x1_0000_0000);
    Le32Back(code % 0x1_0000_0000, body, 0);
  }

  lemma WrittenDecodes(output: Output, resultSeen: bool)
    requires Legal(output, resultSeen)
    ensures DecodeOutput(Written(output), resultSeen) == Some((output, resultSeen || output.Result?))
  {
    hide IsString, ValidContentType, Le16, Le32, U16At, I32At;
    match output {
      case Stdout(data) => TailOf(STDOUT, data);
      case Stderr(data) => TailOf(STDERR, data);
      case Log(level, message) =>
        assert [3, level] + message == [3] + ([level] + message) && ([level] + message)[1..] == message;
        TailOf(3, [level] + message);
      case Result(contentType, data) =>
        ContentTypeFits(contentType);
        ResultBody(contentType, data);
        TailOf(RESULT, Le16(|contentType|) + (contentType + data));
      case Exit(code, detail) =>
        ExitBody(code, detail);
        TailOf(EXIT, Le32(code % 0x1_0000_0000) + detail);
    }
  }

  lemma ContentTypeFits(contentType: seq<Byte>)
    requires ValidContentType(contentType)
    ensures |contentType| <= MAX_CONTENT_TYPE
  {
  }

  lemma ResultParts(body: seq<Byte>)
    requires |body| >= 2 && 2 + U16At(body, 0) <= |body|
    ensures var end := 2 + U16At(body, 0); body == Le16(end - 2) + (body[2..end] + body[end..])
  {
    hide Le16, U16At;
    Le16Of(body, 0);
    assert body == body[0..2] + body[2..];
  }

  lemma ExitParts(body: seq<Byte>)
    requires |body| >= 4
    ensures body == Le32(I32At(body, 0) % 0x1_0000_0000) + body[4..]
  {
    hide Le32;
    Le32Of(body, 0);
    assert I32At(body, 0) % 0x1_0000_0000 == U32At(body, 0);
    hide U32At;
    assert body == body[0..4] + body[4..];
  }

  lemma DecodedIsWritten(payload: seq<Byte>, resultSeen: bool)
    requires DecodeOutput(payload, resultSeen).Some?
    ensures var output := DecodeOutput(payload, resultSeen).value.0;
            payload == Written(output) && Legal(output, resultSeen)
  {
    hide IsString, ValidContentType, Le16, Le32, U16At, I32At;
    var output, body := DecodeOutput(payload, resultSeen).value.0, payload[1..];
    assert payload == [payload[0]] + body;
    match output {
      case Stdout(_) =>
      case Stderr(_) =>
      case Log(level, message) => assert body == [level] + message && [3] + ([level] + message) == [3, level] + message;
      case Result(_, _) => ResultParts(body);
      case Exit(_, _) => ExitParts(body);
    }
  }

  // ------------------------------------------------------------ serving

  datatype HandlerResult = Returned(response: CommandResponse) | Threw(message: Text)

  /** The response that reports a failure. */
  function Failure(prefix: Text, message: Text): CommandResponse {
    CommandResponse(None, Some(AsText(prefix + message + [0xa])), None, Some(Integer(1)), None)
  }

  /** One served invocation: at most one acknowledgement, then either the payloads of
      one response, whose only EXIT is the last, and a normal close, or no data and a
      cancelled close. */
  predicate ServedAs(channel: nat, trace: seq<Packet>, acks: seq<Packet>, payloads: seq<seq<Byte>>) {
    && |acks| <= 1 && (forall a | a in acks :: a.Ack? && a.channel == channel)
    && (if payloads == [] then trace == acks + [Close(channel, CLOSE_CANCELLED)]
        else OneExit(payloads) && trace == acks + DataPackets(channel, payloads) + [Close(channel, CLOSE_NORMAL)])
  }

  /** A parsed invocation is acknowledged in full, any other one not at all. */
  function AckFor(channel: nat, payload: seq<Byte>): seq<Packet> {
    if ParseInvocation(payload).Some? then [Ack(channel, |payload|)] else []
  }

  /** The last payload is the EXIT, and the only one. */
  predicate OneExit(payloads: seq<seq<Byte>>) {
    && payloads != []
    && (forall i | 0 <= i < |payloads| :: payloads[i] != [] && (payloads[i][0] == EXIT <==> i == |payloads| - 1))
  }

  lemma PayloadsHaveOneExit(response: CommandResponse)
    requires CodeOf(response).Integer?
    ensures OneExit(Payloads(response))
  {
    hide Encode, Le16, Le32;
  }

  /** What is sent back for an invocation: the handler's response, or a report of what
      went wrong. */
  ghost function AnswerTo(window: nat, payload: seq<Byte>, handler: Request -> HandlerResult, prefix: Text,
                          describe: Error -> Text): CommandResponse {
    var request := ParseInvocation(payload);
    if request.None? then Failure(prefix, describe(BadInvocation))
    else match handler(request.value) {
      case Threw(message) => Failure(prefix, message)
      case Returned(response) =>
        var error := ResponseError(response, window);
        if error.Some? then Failure(prefix, describe(error.value)) else response
    }
  }

  /** Everything one served invocation puts on the wire.  A report that cannot be sent
      either leaves nothing but a cancelled close. */
  ghost function Served(session: Session, handler: Request -> HandlerResult, prefix: Text,
                        describe: Error -> Text): seq<Packet> {
    var answer := AnswerTo(session.window, session.payload, handler, prefix, describe);
    AckFor(session.channel, session.payload)
    + (if Sendable(answer, session.window) then
       DataPackets(session.channel, Payloads(answer)) + [Close(session.channel, CLOSE_NORMAL)]
       else [Close(session.channel, CLOSE_CANCELLED)])
  }

  /** Each served invocation ends in one EXIT and a normal close, or in a cancelled close
      with no data. */
  lemma ServedEndsOnce(session: Session, handler: Request -> HandlerResult, prefix: Text, describe: Error -> Text)
    ensures exists payloads ::
            ServedAs(session.channel, Served(session, handler, prefix, describe),
                     AckFor(session.channel, session.payload), payloads)
  {
    hide Sendable, Payloads, AnswerTo, OneExit, DataPackets;
    var answer := AnswerTo(session.window, session.payload, handler, prefix, describe);
    var trace, acks := Served(session, handler, prefix, describe), AckFor(session.channel, session.payload);
    if Sendable(answer, session.window) {
      SendableCode(answer, session.window);
      PayloadsHaveOneExit(answer);
      PayloadsNonEmpty(Payloads(answer));
      assert ServedAs(session.channel, trace, acks, Payloads(answer));
    } else {
      var none: seq<seq<Byte>> := [];
      assert ServedAs(session.channel, trace, acks, none);
    }
  }

  lemma SendableCode(response: CommandResponse, window: nat)
    requires Sendable(response, window)
    ensures CodeOf(response).Integer?
  {
  }

  /** The DATA payloads among the packets, in order. */
  function DataSent(packets: seq<Packet>): seq<seq<Byte>> {
    if packets == [] then []
    else
      var last := packets[|packets| - 1];
      DataSent(packets[..|packets| - 1]) + (if last.Data? then [last.payload] else [])
  }

  lemma DataSentNext(packets: seq<Packet>, packet: Packet)
    ensures DataSent(packets + [packet]) == DataSent(packets) + (if packet.Data? then [packet.payload] else [])
  {
    assert (packets + [packet])[..|packets|] == packets;
  }

  lemma {:induction false} DataSentAfter(packets: seq<Packet>, channel: nat, payloads: seq<seq<Byte>>)
    ensures DataSent(packets + DataPackets(channel, payloads)) == DataSent(packets) + payloads
  {
    if payloads == [] {
      assert packets + [] == packets;
    } else {
      hide DataSent;
      var front, last := payloads[..|payloads| - 1], payloads[|payloads| - 1];
      DataSentAfter(packets, channel, front);
      assert DataPackets(channel, payloads) == DataPackets(channel, front) + [Data(channel, last)];
      hide DataPackets;
      var sent := packets + DataPackets(channel, front);
      DataSentNext(sent, Data(channel, last));
      assert packets + DataPackets(channel, payloads) == sent + [Data(channel, last)];
      assert DataSent(packets) + front + [last] == DataSent(packets) + payloads;
    }
  }

  lemma ServedData(session: Session, handler: Request -> HandlerResult, prefix: Text, describe: Error -> Text)
    ensures var answer := AnswerTo(session.window, session.payload, handler, prefix, describe);
            var trace := Served(session, handler, prefix, describe);
            && trace != []
            && DataSent(trace) == (if Sendable(answer, session.window) then Payloads(answer) else [])
            && trace[|trace| - 1] ==
               Close(session.channel, if Sendable(answer, session.window) then CLOSE_NORMAL else CLOSE_CANCELLED)
  {
    hide Sendable, Payloads, AnswerTo, DataPackets;
    var answer := AnswerTo(session.window, session.payload, handler, prefix, describe);
    var acks := AckFor(session.channel, session.payload);
    AckSendsNothing(session.channel, session.payload);
    if Sendable(answer, session.window) {
      SendableCode(answer, session.window);
      DataSentAfter(acks, session.channel, Payloads(answer));
      var sent, close := acks + DataPackets(session.channel, Payloads(answer)), Close(session.channel, CLOSE_NORMAL);
      DataSentNext(sent, close);
      assert Served(session, handler, prefix, describe) == sent + [close];
    } else {
      DataSentNext(acks, Close(session.channel, CLOSE_CANCELLED));
    }
  }

  /** The byte counts acknowledged, in order. */
  function AcksSent(packets: seq<Packet>): seq<nat> {
    if packets == [] then []
    else
      var last := packets[|packets| - 1];
      AcksSent(packets[..|packets| - 1]) + (if last.Ack? then [last.bytes] else [])
  }

  lemma AcksSentNext(packets: seq<Packet>, packet: Packet)
    ensures AcksSent(packets + [packet]) == AcksSent(packets) + (if packet.Ack? then [packet.bytes] else [])
  {
    assert (packets + [packet])[..|packets|] == packets;
  }

  lemma {:induction false} DataAcksNothing(packets: seq<Packet>, channel: nat, payloads: seq<seq<Byte>>)
    ensures AcksSent(packets + DataPackets(channel, payloads)) == AcksSent(packets)
  {
    if payloads == [] {
      assert packets + [] == packets;
    } else {
      var front, last := payloads[..|payloads| - 1], payloads[|payloads| - 1];
      DataAcksNothing(packets, channel, front);
      var sent := packets + DataPackets(channel, front);
      AcksSentNext(sent, Data(channel, last));
      assert packets + DataPackets(channel, payloads) == sent + [Data(channel, last)];
    }
  }

  /** An invocation that parses is acknowledged once, in full, and any other one never. */
  lemma ServedAcks(session: Session, handler: Request -> HandlerResult, prefix: Text, describe: Error -> Text)
    ensures AcksSent(Served(session, handler, prefix, describe)) ==
            if ParseInvocation(session.payload).Some? then [|session.payload|] else []
  {
    hide Sendable, Payloads, AnswerTo, DataPackets, ParseInvocation;
    var answer := AnswerTo(session.window, session.payload, handler, prefix, describe);
    var acks := AckFor(session.channel, session.payload);
    AcksSentNext([], Ack(session.channel, |session.payload|));
    assert [] + [Ack(session.channel, |session.payload|)] == [Ack(session.channel, |session.payload|)];
    if Sendable(answer, session.window) {
      SendableCode(answer, session.window);
      DataAcksNothing(acks, session.channel, Payloads(answer));
      var sent, close := acks + DataPackets(session.channel, Payloads(answer)), Close(session.channel, CLOSE_NORMAL);
      AcksSentNext(sent, close);
      assert Served(session, handler, prefix, describe) == sent + [close];
    } else {
      AcksSentNext(acks, Close(session.channel, CLOSE_CANCELLED));
    }
  }

  lemma AckSendsNothing(channel: nat, payload: seq<Byte>)
    ensures DataSent(AckFor(channel, payload)) == []
  {
    hide ParseInvocation;
    if ParseInvocation(payload).Some? {
      DataSentNext([], Ack(channel, |payload|));
      assert [] + [Ack(channel, |payload|)] == [Ack(channel, |payload|)];
    }
  }

  /** What went wrong with an invocation, in words: it does not parse, the handler threw,
      or what it returned breaks a limit. */
  ghost predicate Fails(session: Session, handler: Request -> HandlerResult, describe: Error -> Text, message: Text) {
    var request := ParseInvocation(session.payload);
    if request.None? then message == describe(BadInvocation)
    else match handler(request.value) {
      case Threw(thrown) => message == thrown
      case Returned(response) =>
        && !Sendable(response, session.window)
        && message == describe(ResponseError(response, session.window).value)
    }
  }

  /** A failure reaches the client as the message on stderr and exit code 1, if the report
      fits the channel; otherwise as nothing but a cancelled close. */
  lemma FailureIsReported(session: Session, handler: Request -> HandlerResult, prefix: Text, describe: Error -> Text,
                          message: Text)
    requires Fails(session, handler, describe, message)
    ensures var trace, report := Served(session, handler, prefix, describe), Encode(prefix + message + [0xa]);
            && trace != []
            && if |report| < CHANNEL_MAX_PAYLOAD && |report| + 6 <= session.window then
                 && DecodeAll(DataSent(trace), false) == Some([Stderr(report), Exit(1, [])])
                 && trace[|trace| - 1] == Close(session.channel, CLOSE_NORMAL)
               else
                 DataSent(trace) == [] && trace[|trace| - 1] == Close(session.channel, CLOSE_CANCELLED)
  {
    hide Sendable, Payloads, Served, DecodeAll, Delivered, AnswerTo, Failure, Encode;
    var answer := AnswerTo(session.window, session.payload, handler, prefix, describe);
    FailureAnswer(session, handler, prefix, describe, message);
    ServedData(session, handler, prefix, describe);
    FailureFits(prefix, message, session.window);
    if Sendable(answer, session.window) {
      SendableCode(answer, session.window);
      ClientRecoversResponse(answer, session.window);
    }
  }

  lemma FailureFits(prefix: Text, message: Text, window: nat)
    ensures var failure, report := Failure(prefix, message), Encode(prefix + message + [0xa]);
            && (Sendable(failure, window) <==> |report| < CHANNEL_MAX_PAYLOAD && |report| + 6 <= window)
            && CodeOf(failure).Integer? && Delivered(failure) == [Stderr(report), Exit(1, [])]
  {
    hide Encode, Sum, Le32;
    var failure, text := Failure(prefix, message), prefix + message + [0xa];
    EncodeNonEmpty(text);
    EncodeNothing();
    var stderr, exit := [STDERR] + Encode(text), ExitPayload(1, []);
    assert Payloads(failure) == [stderr] + [exit];
    SumSnoc([stderr], exit);
    SumSnoc([], stderr);
    assert [] + [stderr] == [stderr];
    SumNothing();
    assert |exit| == 5;
    assert Delivered(failure) == [Stderr(Encode(text))] + [Exit(1, [])];
  }

  lemma SumSnoc(payloads: seq<seq<Byte>>, payload: seq<Byte>)
    ensures Sum(payloads + [payload]) == Sum(payloads) + |payload|
  {
    assert (payloads + [payload])[..|payloads|] == payloads;
  }

  lemma SumNothing()
    ensures Sum([]) == 0
  {
  }

  lemma EncodeNonEmpty(text: Text)
    requires text != []
    ensures Encode(text) != []
  {
    hide EncodeScalar;
  }

  lemma EncodeNothing()
    ensures Encode([]) == []
  {
  }

  /** The handler returned a response that can be sent. */
  ghost predicate Returns(session: Session, handler: Request -> HandlerResult, response: CommandResponse) {
    var request := ParseInvocation(session.payload);
    request.Some? && handler(request.value) == Returned(response) && Sendable(response, session.window)
  }

  lemma FailureAnswer(session: Session, handler: Request -> HandlerResult, prefix: Text, describe: Error -> Text,
                      message: Text)
    requires Fails(session, handler, describe, message)
    ensures var answer := AnswerTo(session.window, session.payload, handler, prefix, describe);
            && answer == Failure(prefix, message) && CodeOf(answer) == Integer(1)
            && Delivered(answer) == [Stderr(Encode(prefix + message + [0xa])), Exit(1, [])]
  {
    hide Sendable, ParseInvocation, Delivered, ResponseError, Encode;
    if ParseInvocation(session.payload).Some? {
      var result := handler(ParseInvocation(session.payload).value);
      if result.Returned? { SendableWithoutError(result.response, session.window); }
    }
    FailureFits(prefix, message, session.window);
  }

  lemma ReturnedAnswer(session: Session, handler: Request -> HandlerResult, prefix: Text, describe: Error -> Text,
                       response: CommandResponse)
    requires Returns(session, handler, response)
    ensures AnswerTo(session.window, session.payload, handler, prefix, describe) == response
  {
    hide Sendable, ParseInvocation, ResponseError;
    SendableWithoutError(response, session.window);
  }

  /** A response that can be sent reaches the client whole. */
  lemma ResponseIsDelivered(session: Session, handler: Request -> HandlerResult, prefix: Text, describe: Error -> Text,
                            response: CommandResponse)
    requires Returns(session, handler, response)
    ensures var trace := Served(session, handler, prefix, describe);
            && DecodeAll(DataSent(trace), false) == Some(Delivered(response))
            && trace != [] && trace[|trace| - 1] == Close(session.channel, CLOSE_NORMAL)
  {
    hide Sendable, Payloads, Served, DecodeAll, Delivered, AnswerTo;
    ReturnedAnswer(session, handler, prefix, describe, response);
    ServedData(session, handler, prefix, describe);
    SendableCode(response, session.window);
    ClientRecoversResponse(response, session.window);
  }

  method ServeInvocation(host: Host, channel: nat, window: nat, payload: seq<Byte>,
                         handler: Request -> HandlerResult, prefix: Text, describe: Error -> Text)
    modifies host
    ensures host.sent == old(host.sent) + Served(Session(channel, window, payload), handler, prefix, describe)
  {
    hide Sendable, Payloads, ParseInvocation, ResponseError, Failure, DataPackets;
    ghost var acks: seq<Packet> := [];
    var failure: Text;
    var request := DecodeInvocation(payload);
    if request.Some? {
      host.Send(Ack(channel, |payload|));
      acks := [Ack(channel, |payload|)];
      var result := handler(request.value);
      match result {
        case Returned(response) =>
          SendableWithoutError(response, window);
          var ok, error := SendResponse(host, channel, window, response);
          if ok {
            assert AnswerTo(window, payload, handler, prefix, describe) == response;
            return;
          }
          failure := describe(error);
        case Threw(message) => failure := message;
      }
    } else {
      failure := describe(BadInvocation);
    }
    assert host.sent == old(host.sent) + acks && acks == AckFor(channel, payload);
    assert AnswerTo(window, payload, handler, prefix, describe) == Failure(prefix, failure);
    var ok, error := SendResponse(host, channel, window, Failure(prefix, failure));
    if !ok { host.Send(Close(channel, CLOSE_CANCELLED)); }
  }

  lemma PayloadsNonEmpty(payloads: seq<seq<Byte>>)
    requires OneExit(payloads)
    ensures payloads != []
  {
  }

  /** What the host delivers to the provider. */
  datatype Incoming =
    | Accepted(channel: nat, window: nat, ours: bool)
    | Invocation(channel: nat, payload: seq<Byte>)
    | Closed(channel: nat)
    | ListenerClosed
    | Other

  /** An accepted connection and the invocation that came over it. */
  datatype Session = Session(channel: nat, window: nat, payload: seq<Byte>)

  /** The sessions to serve, in order: wait for a connection to our listener, ... */
  function Sessions(incoming: seq<Incoming>): seq<Session>
    decreases |incoming|
  {
    if incoming == [] || incoming[0].ListenerClosed? then []
    else if incoming[0].Accepted? && incoming[0].ours then
      Awaiting(incoming[0].channel, incoming[0].window, incoming[1..])
    else Sessions(incoming[1..])
  }

  /** ... then for its first DATA, dropping everything else unless the channel closes. */
  function Awaiting(channel: nat, window: nat, incoming: seq<Incoming>): seq<Session>
    decreases |incoming|
  {
    if incoming == [] then []
    else if incoming[0].Closed? && incoming[0].channel == channel then Sessions(incoming[1..])
    else if incoming[0].Invocation? && incoming[0].channel == channel then
      [Session(channel, window, incoming[0].payload)] + Sessions(incoming[1..])
    else Awaiting(channel, window, incoming[1..])
  }

  /** The packet is about the channel. */
  predicate Concerns(packet: Incoming, channel: nat) {
    (packet.Invocation? || packet.Closed?) && packet.channel == channel
  }

  /** Nothing but a connection to our listener, or its end, ends the wait for one. */
  lemma {:induction false} WaitsForConnection(noise: seq<Incoming>, rest: seq<Incoming>)
    requires forall x | x in noise :: !x.ListenerClosed? && !(x.Accepted? && x.ours)
    ensures Sessions(noise + rest) == Sessions(rest)
    decreases |noise|
  {
    if noise == [] {
      assert noise + rest == rest;
    } else {
      assert (noise + rest)[1..] == noise[1..] + rest;
      WaitsForConnection(noise[1..], rest);
    }
  }

  /** A connection is served with the first DATA of its own channel, or not at all if
      that channel closes first; whatever else comes in between is dropped. */
  lemma WaitsForItsData(channel: nat, window: nat, noise: seq<Incoming>, payload: seq<Byte>, rest: seq<Incoming>)
    requires forall x | x in noise :: !Concerns(x, channel)
    ensures var accepted := [Accepted(channel, window, true)];
            && Sessions(accepted + noise) == []
            && Sessions(accepted + noise + [Closed(channel)] + rest) == Sessions(rest)
            && Sessions(accepted + noise + [Invocation(channel, payload)] + rest) ==
               [Session(channel, window, payload)] + Sessions(rest)
  {
    hide Awaiting, Concerns;
    var before := [Accepted(channel, window, true)] + noise;
    assert before + [] == before;
    assert before + ([Closed(channel)] + rest) == before + [Closed(channel)] + rest;
    assert before + ([Invocation(channel, payload)] + rest) == before + [Invocation(channel, payload)] + rest;
    AfterNoise(channel, window, noise, []);
    AfterNoise(channel, window, noise, [Closed(channel)] + rest);
    AfterNoise(channel, window, noise, [Invocation(channel, payload)] + rest);
    AtItsOwn(channel, window, payload, rest);
  }

  lemma AfterNoise(channel: nat, window: nat, noise: seq<Incoming>, rest: seq<Incoming>)
    requires forall x | x in noise :: !Concerns(x, channel)
    ensures Sessions([Accepted(channel, window, true)] + noise + rest) == Awaiting(channel, window, rest)
  {
    hide Awaiting, Concerns;
    assert ([Accepted(channel, window, true)] + noise + rest)[1..] == noise + rest;
    DropsNoise(channel, window, noise, rest);
  }

  lemma AtItsOwn(channel: nat, window: nat, payload: seq<Byte>, rest: seq<Incoming>)
    ensures Awaiting(channel, window, []) == []
    ensures Awaiting(channel, window, [Closed(channel)] + rest) == Sessions(rest)
    ensures Awaiting(channel, window, [Invocation(channel, payload)] + rest) ==
            [Session(channel, window, payload)] + Sessions(rest)
  {
    hide Sessions;
    assert ([Closed(channel)] + rest)[1..] == rest && ([Invocation(channel, payload)] + rest)[1..] == rest;
  }

  lemma {:induction false} DropsNoise(channel: nat, window: nat, noise: seq<Incoming>, rest: seq<Incoming>)
    requires forall x | x in noise :: !Concerns(x, channel)
    ensures Awaiting(channel, window, noise + rest) == Awaiting(channel, window, rest)
    decreases |noise|
  {
    if noise == [] {
      assert noise + rest == rest;
    } else {
      assert (noise + rest)[1..] == noise[1..] + rest;
      assert !Concerns(noise[0], channel);
      DropsNoise(channel, window, noise[1..], rest);
    }
  }

  /** Once our listener is closed nothing is served any more. */
  lemma EndsWithListener(rest: seq<Incoming>)
    ensures Sessions([ListenerClosed] + rest) == [] && Sessions([]) == []
  {
  }

  /** One served invocation after the other. */
  ghost function Transcript(sessions: seq<Session>, handler: Request -> HandlerResult, prefix: Text,
                            describe: Error -> Text): seq<Packet> {
    if sessions == [] then []
    else
      var last := |sessions| - 1;
      Transcript(sessions[..last], handler, prefix, describe) + Served(sessions[last], handler, prefix, describe)
  }

  method AwaitAccepted(incoming: seq<Incoming>, start: nat) returns (next: nat, accepted: Option<(nat, nat)>)
    requires start <= |incoming|
    ensures start <= next <= |incoming| && (accepted.Some? ==> start < next)
    ensures Sessions(incoming[start..]) ==
            if accepted.Some? then Awaiting(accepted.value.0, accepted.value.1, incoming[next..]) else []
  {
    next := start;
    while next < |incoming|
      invariant start <= next <= |incoming| && Sessions(incoming[start..]) == Sessions(incoming[next..])
    {
      var packet := incoming[next];
      assert incoming[next..][1..] == incoming[next + 1..];
      next := next + 1;
      if packet.ListenerClosed? { return next, None; }
      if packet.Accepted? && packet.ours { return next, Some((packet.channel, packet.window)); }
    }
    return next, None;
  }

  method AwaitInvocation(incoming: seq<Incoming>, start: nat, channel: nat, window: nat)
    returns (next: nat, payload: Option<seq<Byte>>)
    requires start <= |incoming|
    ensures start <= next <= |incoming|
    ensures Awaiting(channel, window, incoming[start..]) ==
            (if payload.Some? then [Session(channel, window, payload.value)] else []) + Sessions(incoming[next..])
  {
    next := start;
    while next < |incoming|
      invariant start <= next <= |incoming|
      invariant Awaiting(channel, window, incoming[start..]) == Awaiting(channel, window, incoming[next..])
    {
      var packet := incoming[next];
      assert incoming[next..][1..] == incoming[next + 1..];
      next := next + 1;
      assert [] + Sessions(incoming[next..]) == Sessions(incoming[next..]);
      if packet.Closed? && packet.channel == channel { return next, None; }
      if packet.Invocation? && packet.channel == channel { return next, Some(packet.payload); }
    }
    return next, None;
  }

  method ServeCommands(host: Host, incoming: seq<Incoming>, handler: Request -> HandlerResult, prefix: Text,
                       describe: Error -> Text)
    modifies host
    ensures host.sent == old(host.sent) + Transcript(Sessions(incoming), handler, prefix, describe)
  {
    hide Transcript, Served, Sessions, Awaiting;
    ghost var served: seq<Session> := [];
    TranscriptNone(handler, prefix, describe);
    var n := 0;
    assert incoming[0..] == incoming && served + Sessions(incoming) == Sessions(incoming)
           && host.sent + [] == host.sent;
    while true
      invariant n <= |incoming|
      invariant Sessions(incoming) == served + Sessions(incoming[n..])
      invariant host.sent == old(host.sent) + Transcript(served, handler, prefix, describe)
      decreases |incoming| - n
    {
      var next, accepted := AwaitAccepted(incoming, n);
      if accepted.None? {
        assert served + [] == served;
        return;
      }
      var (channel, window) := accepted.value;
      var payload;
      n, payload := AwaitInvocation(incoming, next, channel, window);
      if payload.None? {
        assert [] + Sessions(incoming[n..]) == Sessions(incoming[n..]);
        continue;
      }
      ghost var session := Session(channel, window, payload.value);
      ServeInvocation(host, channel, window, payload.value, handler, prefix, describe);
      TranscriptNext(served, session, handler, prefix, describe);
      assert served + ([session] + Sessions(incoming[n..])) == served + [session] + Sessions(incoming[n..]);
      served := served + [session];
    }
  }

  lemma TranscriptNone(handler: Request -> HandlerResult, prefix: Text, describe: Error -> Text)
    ensures Transcript([], handler, prefix, describe) == []
  {
  }

  lemma TranscriptNext(sessions: seq<Session>, session: Session, handler: Request -> HandlerResult, prefix: Text,
                       describe: Error -> Text)
    ensures Transcript(sessions + [session], handler, prefix, describe) ==
            Transcript(sessions, handler, prefix, describe) + Served(session, handler, prefix, describe)
  {
    hide Served;
    assert (sessions + [session])[..|sessions|] == sessions;
  }
}
