/** Reading and writing the bytes of the extension protocol, and the two ends of an
    INVOKE payload: the Rust client writes it, the TypeScript provider reads it. */
module Wire {
  import opened Common
  import opened Utf8

  const INVOKE: Byte := 1
  const EXT_MAX_ARGS := 1024
  const EXT_MAX_ARG := 64 * 1024
  const EXT_MAX_ARGUMENT_BYTES := 1024 * 1024
  const CHANNEL_MAX_PAYLOAD := 1024 * 1024

  /** A Rust `String`: any well-formed UTF-8. */
  predicate IsString(s: seq<Byte>) { Decode(s).Ok? }

  // ------------------------------------------------------------ integers

  function Low(v: int): Byte { v % 0x100 }

  function Le16(v: int): (r: seq<Byte>)
    ensures |r| == 2
  {
    [Low(v), Low(v / 0x100)]
  }

  function Le32(v: int): (r: seq<Byte>)
    ensures |r| == 4
  {
    [Low(v), Low(v / 0x100), Low(v / 0x1_0000), Low(v / 0x100_0000)]
  }

  function U16At(s: seq<Byte>, i: nat): (v: nat)
    requires i + 2 <= |s|
    ensures v < 0x1_0000
  {
    s[i] as int + s[i + 1] as int * 0x100
  }

  function U32At(s: seq<Byte>, i: nat): (v: nat)
    requires i + 4 <= |s|
    ensures v < 0x1_0000_0000
  {
    s[i] as int + s[i + 1] as int * 0x100 + s[i + 2] as int * 0x1_0000 + s[i + 3] as int * 0x100_0000
  }

  lemma Le16Back(v: nat, s: seq<Byte>, i: nat)
    requires v < 0x1_0000 && i + 2 <= |s| && s[i..i + 2] == Le16(v)
    ensures U16At(s, i) == v
  {
    assert s[i] == s[i..i + 2][0] && s[i + 1] == s[i..i + 2][1];
  }

  lemma Le32Back(v: nat, s: seq<Byte>, i: nat)
    requires v < 0x1_0000_0000 && i + 4 <= |s| && s[i..i + 4] == Le32(v)
    ensures U32At(s, i) == v
  {
    var t := s[i..i + 4];
    assert s[i] == t[0] && s[i + 1] == t[1] && s[i + 2] == t[2] && s[i + 3] == t[3];
    assert v / 0x1_0000 == v / 0x100 / 0x100 && v / 0x100_0000 == v / 0x1_0000 / 0x100;
  }

  lemma Le16Of(s: seq<Byte>, i: nat)
    requires i + 2 <= |s|
    ensures Le16(U16At(s, i)) == s[i..i + 2]
  {
  }

  lemma Le32Of(s: seq<Byte>, i: nat)
    requires i + 4 <= |s|
    ensures Le32(U32At(s, i)) == s[i..i + 4]
  {
    var a, b, c, d := s[i] as int, s[i + 1] as int, s[i + 2] as int, s[i + 3] as int;
    var v := U32At(s, i);
    assert v == a + 0x100 * (b + 0x100 * (c + 0x100 * d));
    Split(b + 0x100 * (c + 0x100 * d), a);
    Split(c + 0x100 * d, b);
    Split(d, c);
    assert v / 0x1_0000 == v / 0x100 / 0x100 && v / 0x100_0000 == v / 0x1_0000 / 0x100;
  }

  lemma Split(high: int, low: int)
    requires 0 <= low < 0x100
    ensures (low + 0x100 * high) / 0x100 == high && (low + 0x100 * high) % 0x100 == low
  {
  }

  // ------------------------------------------------------------ the writer

  class ByteWriter {
    var written: seq<Byte>

    constructor ()
      ensures written == []
    {
      written := [];
    }

    method U8(value: int)
      modifies this
      ensures written == old(written) + [Low(value)]
    {
      written := written + [Low(value)];
    }

    method U16(value: int)
      modifies this
      ensures written == old(written) + Le16(value)
    {
      written := written + [Low(value), Low(value / 0x100)];
    }

    method U32(value: int)
      modifies this
      ensures written == old(written) + Le32(value)
    {
      written := written + [Low(value), Low(value / 0x100), Low(value / 0x1_0000), Low(value / 0x100_0000)];
    }

    /** `value >>> 0`: the unsigned reading of a signed 32-bit integer. */
    method I32(value: int)
      modifies this
      ensures written == old(written) + Le32(value % 0x1_0000_0000)
    {
      U32(value % 0x1_0000_0000);
    }

    method Bytes(value: seq<Byte>)
      modifies this
      ensures written == old(written) + value
    {
      for n := 0 to |value|
        invariant written == old(written) + value[..n]
      {
        written := written + [value[n]];
      }
      assert value[..|value|] == value;
    }
  }

  // ------------------------------------------------------------ the reader

  class ByteReader {
    const source: seq<Byte>
    var offset: nat

    ghost predicate Valid() reads this { offset <= |source| }

    constructor (source: seq<Byte>)
      ensures Valid() && this.source == source && offset == 0
    {
      this.source := source;
      offset := 0;
    }

    /** The next `length` bytes, or nothing (a thrown error) if there are not as many. */
    method Take(length: nat) returns (r: Option<seq<Byte>>)
      requires Valid()
      modifies this
      ensures Valid()
      ensures if old(offset) + length <= |source|
              then r == Some(source[old(offset)..old(offset) + length]) && offset == old(offset) + length
              else r == None && offset == old(offset)
    {
      if length > |source| - offset { return None; }
      var start := offset;
      offset := offset + length;
      return Some(source[start..offset]);
    }

    method U8() returns (r: Option<Byte>)
      requires Valid()
      modifies this
      ensures Valid()
      ensures if old(offset) + 1 <= |source| then r == Some(source[old(offset)]) && offset == old(offset) + 1
              else r == None
    {
      var bytes := Take(1);
      r := if bytes.Some? then Some(bytes.value[0]) else None;
    }

    method U16() returns (r: Option<nat>)
      requires Valid()
      modifies this
      ensures Valid()
      ensures if old(offset) + 2 <= |source| then r == Some(U16At(source, old(offset))) && offset == old(offset) + 2
              else r == None
    {
      var bytes := Take(2);
      if bytes.None? { return None; }
      return Some((bytes.value[0] as int) + (bytes.value[1] as int) * 0x100);
    }

    method U32() returns (r: Option<nat>)
      requires Valid()
      modifies this
      ensures Valid()
      ensures if old(offset) + 4 <= |source| then r == Some(U32At(source, old(offset))) && offset == old(offset) + 4
              else r == None
    {
      var bytes := Take(4);
      if bytes.None? { return None; }
      var b := bytes.value;
      return Some((b[0] as int) + (b[1] as int) * 0x100 + (b[2] as int) * 0x1_0000 + (b[3] as int) * 0x100_0000);
    }

    method Text(length: nat) returns (r: Option<Text>)
      requires Valid()
      modifies this
      ensures Valid()
      ensures var end := old(offset) + length;
              if end <= |source| && Decode(source[old(offset)..end]).Ok?
              then r == Some(Decode(source[old(offset)..end]).value) && offset == end
              else r == None
    {
      var bytes := Take(length);
      if bytes.None? { return None; }
      var text := DecodeUtf8(bytes.value);
      return if text.Ok? then Some(text.value) else None;
    }

    method Done() returns (r: bool)
      requires Valid()
      ensures r <==> offset == |source|
    {
      r := |source| - offset == 0;
    }
  }

  // ------------------------------------------------------------ INVOKE: writing

  function Sum(args: seq<seq<Byte>>): nat {
    if args == [] then 0 else Sum(args[..|args| - 1]) + |args[|args| - 1]|
  }

  /** The limits the client checks before it encodes. */
  predicate ValidArgs(args: seq<seq<Byte>>) {
    && |args| <= EXT_MAX_ARGS
    && (forall i | 0 <= i < |args| :: |args[i]| <= EXT_MAX_ARG)
    && Sum(args) <= EXT_MAX_ARGUMENT_BYTES
    && 4 + 4 * |args| + Sum(args) <= CHANNEL_MAX_PAYLOAD
  }

  /** The checked additions of the source cannot overflow here: at most 1024
      arguments of at most 64 KiB each are ever added up. */
  method ValidateInvocationArgs(args: seq<seq<Byte>>) returns (ok: bool)
    ensures ok <==> ValidArgs(args)
  {
    if |args| > EXT_MAX_ARGS { return false; }
    var argumentBytes, encodedBytes := 0, 4;
    for n := 0 to |args|
      invariant forall i | 0 <= i < n :: |args[i]| <= EXT_MAX_ARG
      invariant argumentBytes == Sum(args[..n]) <= n * EXT_MAX_ARG
      invariant encodedBytes == 4 + 4 * n + Sum(args[..n])
    {
      assert args[..n + 1][..n] == args[..n];
      if |args[n]| > EXT_MAX_ARG { return false; }
      argumentBytes := argumentBytes + |args[n]|;
      encodedBytes := encodedBytes + 4 + |args[n]|;
    }
    assert args[..|args|] == args;
    return argumentBytes <= EXT_MAX_ARGUMENT_BYTES && encodedBytes <= CHANNEL_MAX_PAYLOAD;
  }

  function ArgBytes(args: seq<seq<Byte>>): seq<Byte> {
    if args == [] then [] else Le32(|args[0]|) + args[0] + ArgBytes(args[1..])
  }

  function InvokeBytes(args: seq<seq<Byte>>, streamsStdin: bool): seq<Byte> {
    [INVOKE, if streamsStdin then 1 else 0] + Le16(|args|) + ArgBytes(args)
  }

  method EncodeInvoke(args: seq<seq<Byte>>, streamsStdin: bool) returns (r: Option<seq<Byte>>)
    ensures r == if ValidArgs(args) then Some(InvokeBytes(args, streamsStdin)) else None
    ensures r.Some? ==> |r.value| <= CHANNEL_MAX_PAYLOAD
  {
    hide Le16, Le32, ArgBytes, ValidArgs;
    var ok := ValidateInvocationArgs(args);
    if !ok { return None; }
    assert args[0..] == args && 4 + 4 * |args| + Sum(args) <= CHANNEL_MAX_PAYLOAD by { FitsPayload(args); }
    var payload: seq<Byte> := [INVOKE];
    payload := payload + [if streamsStdin then 1 else 0];
    payload := payload + Le16(|args|);
    for n := 0 to |args|
      invariant payload + ArgBytes(args[n..]) == InvokeBytes(args, streamsStdin)
      invariant |payload| == 4 + 4 * n + Sum(args[..n])
    {
      assert args[..n + 1][..n] == args[..n];
      ArgBytesNext(payload, args, n);
      payload := payload + Le32(|args[n]|);
      payload := payload + args[n];
    }
    assert payload + ArgBytes([]) == payload by { ArgBytesNil(); }
    assert args[|args|..] == [] && args[..|args|] == args;
    return Some(payload);
  }

  /** The lists that can be sent: at most 1024 arguments of at most 64 KiB, one MiB of them
      in all, and no more than that once encoded. */
  lemma ValidExactly(args: seq<seq<Byte>>, streamsStdin: bool)
    ensures ValidArgs(args) <==>
            && |args| <= 1024 && (forall a | a in args :: |a| <= 65536) && Sum(args) <= 1048576
            && |InvokeBytes(args, streamsStdin)| <= 1048576
  {
    hide Sum, ArgBytes, Le16;
    ArgBytesLength(args);
  }

  lemma {:induction false} ArgBytesLength(args: seq<seq<Byte>>)
    ensures |ArgBytes(args)| == 4 * |args| + Sum(args)
  {
    hide Le32;
    if args != [] {
      ArgBytesLength(args[1..]);
      SumCons(args[0], args[1..]);
      assert args == [args[0]] + args[1..];
    }
  }

  lemma {:induction false} SumCons(arg: seq<Byte>, args: seq<seq<Byte>>)
    ensures Sum([arg] + args) == |arg| + Sum(args)
  {
    if args == [] {
      assert [arg] + args == [arg] && [arg][..0] == [];
    } else {
      var front, all := args[..|args| - 1], [arg] + args;
      assert all[..|all| - 1] == [arg] + front;
      SumCons(arg, front);
    }
  }

  lemma FitsPayload(args: seq<seq<Byte>>)
    requires ValidArgs(args)
    ensures 4 + 4 * |args| + Sum(args) <= CHANNEL_MAX_PAYLOAD
  {
  }

  lemma ArgBytesNil()
    ensures ArgBytes([]) == []
  {
  }

  lemma ArgBytesNext(payload: seq<Byte>, args: seq<seq<Byte>>, n: nat)
    requires n < |args|
    ensures payload + ArgBytes(args[n..]) == payload + Le32(|args[n]|) + args[n] + ArgBytes(args[n + 1..])
  {
    hide Le32;
    assert args[n..][1..] == args[n + 1..];
    assert payload + (Le32(|args[n]|) + args[n] + ArgBytes(args[n + 1..])) ==
           payload + Le32(|args[n]|) + args[n] + ArgBytes(args[n + 1..]);
  }

  // ------------------------------------------------------------ INVOKE: reading

  datatype Request = Request(args: seq<Text>, streamsStdin: bool)

  /** `count` length-prefixed texts from offset `i`, and the offset after them. */
  function ParseArgs(s: seq<Byte>, i: nat, count: nat): (r: Option<(seq<Text>, nat)>)
    ensures r.Some? ==> |r.value.0| == count && i <= r.value.1 && (i <= |s| ==> r.value.1 <= |s|)
    decreases count
  {
    if count == 0 then Some(([], i))
    else if i + 4 > |s| then None
    else
      var end := i + 4 + U32At(s, i);
      if end > |s| || Decode(s[i + 4..end]).Err? then None
      else match ParseArgs(s, end, count - 1) {
        case None => None
        case Some((rest, after)) => Some(([Decode(s[i + 4..end]).value] + rest, after))
      }
  }

  function ParseInvocation(s: seq<Byte>): Option<Request> {
    if |s| < 4 || s[0] != INVOKE || s[1] > 1 then None
    else match ParseArgs(s, 4, U16At(s, 2)) {
      case None => None
      case Some((args, end)) => if end == |s| then Some(Request(args, s[1] == 1)) else None
    }
  }

  function Join(args: seq<Text>, rest: Option<(seq<Text>, nat)>): Option<(seq<Text>, nat)> {
    if rest.Some? then Some((args + rest.value.0, rest.value.1)) else None
  }

  method DecodeInvocation(payload: seq<Byte>) returns (r: Option<Request>)
    ensures r == ParseInvocation(payload)
  {
    hide Decode, U16At, U32At;
    var reader := new ByteReader(payload);
    var kind := reader.U8();
    if kind != Some(INVOKE) { return None; }
    var flags := reader.U8();
    if flags.None? || flags.value / 2 != 0 { return None; }
    var count := reader.U16();
    if count.None? { return None; }
    var args: seq<Text> := [];
    JoinNil(ParseArgs(payload, 4, count.value));
    for index := 0 to count.value
      invariant reader.source == payload && reader.Valid()
      invariant ParseArgs(payload, 4, count.value) == Join(args, ParseArgs(payload, reader.offset, count.value - index))
    {
      ghost var start := reader.offset;
      var length := reader.U32();
      if length.None? { return None; }
      var text := reader.Text(length.value);
      if text.None? { return None; }
      JoinNext(payload, start, count.value - index, args);
      args := args + [text.value];
    }
    var done := reader.Done();
    assert args + [] == args;
    if !done { return None; }
    return Some(Request(args, flags.value % 2 != 0));
  }

  lemma JoinNil(r: Option<(seq<Text>, nat)>)
    ensures Join([], r) == r
  {
    if r.Some? { assert [] + r.value.0 == r.value.0; }
  }

  lemma JoinNext(s: seq<Byte>, i: nat, count: nat, args: seq<Text>)
    requires count > 0 && i + 4 <= |s|
    requires i + 4 + U32At(s, i) <= |s| && Decode(s[i + 4..i + 4 + U32At(s, i)]).Ok?
    ensures var end := i + 4 + U32At(s, i);
            Join(args, ParseArgs(s, i, count)) ==
              Join(args + [Decode(s[i + 4..end]).value], ParseArgs(s, end, count - 1))
  {
    hide Decode, U32At;
    var end := i + 4 + U32At(s, i);
    var rest := ParseArgs(s, end, count - 1);
    if rest.Some? {
      assert args + ([Decode(s[i + 4..end]).value] + rest.value.0) ==
             args + [Decode(s[i + 4..end]).value] + rest.value.0;
    }
  }

  // ------------------------------------------------------------ INVOKE: theorems

  /** The texts of well-formed byte strings, and back. */
  function Texts(args: seq<seq<Byte>>): (r: seq<Text>)
    requires forall i | 0 <= i < |args| :: IsString(args[i])
    ensures |r| == |args|
  {
    seq(|args|, i requires 0 <= i < |args| && IsString(args[i]) => Decode(args[i]).value)
  }

  function Encoded(args: seq<Text>): (r: seq<seq<Byte>>)
    ensures |r| == |args|
  {
    seq(|args|, i requires 0 <= i < |args| => Encode(args[i]))
  }

  lemma {:induction false} ArgsComeBack(before: seq<Byte>, args: seq<seq<Byte>>, after: seq<Byte>)
    requires forall i | 0 <= i < |args| :: IsString(args[i]) && |args[i]| < 0x1_0000_0000
    ensures ParseArgs(before + ArgBytes(args) + after, |before|, |args|) ==
            Some((Texts(args), |before + ArgBytes(args)|))
    decreases |args|
  {
    hide Decode, Le32, U32At;
    var s := before + ArgBytes(args) + after;
    if args != [] {
      var prefix := before + Le32(|args[0]|) + args[0];
      assert s == prefix + ArgBytes(args[1..]) + after;
      var i := |before|;
      assert s[i..i + 4] == Le32(|args[0]|);
      Le32Back(|args[0]|, s, i);
      assert s[i + 4..|prefix|] == args[0];
      ArgsComeBack(prefix, args[1..], after);
      assert Texts(args) == [Decode(args[0]).value] + Texts(args[1..]);
    } else {
      assert Texts(args) == [];
    }
  }

  /** The provider reads back every argument list the client can encode. */
  lemma DecodeUndoesEncode(args: seq<seq<Byte>>, streamsStdin: bool)
    requires forall i | 0 <= i < |args| :: IsString(args[i])
    requires ValidArgs(args)
    ensures ParseInvocation(InvokeBytes(args, streamsStdin)) == Some(Request(Texts(args), streamsStdin))
  {
    hide Decode, Le16, U16At;
    var s := InvokeBytes(args, streamsStdin);
    var head: seq<Byte> := [INVOKE, if streamsStdin then 1 else 0] + Le16(|args|);
    assert s[2..4] == Le16(|args|);
    Le16Back(|args|, s, 2);
    ArgsComeBack(head, args, []);
    assert head + ArgBytes(args) + [] == s;
  }

  /** Reading looks at nothing past the offset it reports. */
  lemma {:induction false} ParseIgnoresTail(s: seq<Byte>, tail: seq<Byte>, i: nat, count: nat)
    requires ParseArgs(s, i, count).Some? && i <= |s|
    ensures ParseArgs(s + tail, i, count) == ParseArgs(s, i, count)
    decreases count
  {
    hide Decode;
    if count > 0 {
      var end := i + 4 + U32At(s, i);
      assert U32At(s + tail, i) == U32At(s, i);
      assert (s + tail)[i + 4..end] == s[i + 4..end];
      ParseIgnoresTail(s, tail, end, count - 1);
    }
  }

  /** No payload the provider accepts is a proper prefix of another. */
  lemma AcceptedIsPrefixFree(s: seq<Byte>, tail: seq<Byte>)
    requires ParseInvocation(s).Some? && tail != []
    ensures ParseInvocation(s + tail).None?
  {
    hide Decode, ParseArgs;
    assert U16At(s + tail, 2) == U16At(s, 2);
    ParseIgnoresTail(s, tail, 4, U16At(s, 2));
  }

  /** Every extension and every truncation of an encoded payload is rejected. */
  lemma ExtensionOrTruncationRejected(args: seq<seq<Byte>>, streamsStdin: bool, other: seq<Byte>)
    requires (forall i | 0 <= i < |args| :: IsString(args[i])) && ValidArgs(args)
    requires var s := InvokeBytes(args, streamsStdin); other != s && (s <= other || other <= s)
    ensures ParseInvocation(other).None?
  {
    hide ParseInvocation, InvokeBytes;
    var s := InvokeBytes(args, streamsStdin);
    DecodeUndoesEncode(args, streamsStdin);
    if s <= other {
      AcceptedIsPrefixFree(s, other[|s|..]);
      assert s + other[|s|..] == other;
    } else if ParseInvocation(other).Some? {
      assert other + s[|other|..] == s;
      AcceptedIsPrefixFree(other, s[|other|..]);
    }
  }

  lemma {:induction false} ParsedArgsReencode(s: seq<Byte>, i: nat, count: nat)
    requires ParseArgs(s, i, count).Some? && i <= |s|
    ensures var (args, end) := ParseArgs(s, i, count).value; s[i..end] == ArgBytes(Encoded(args))
    decreases count
  {
    hide Decode, Encode, Le32, U32At;
    var (args, after) := ParseArgs(s, i, count).value;
    if count > 0 {
      var end := i + 4 + U32At(s, i);
      var bytes := s[i + 4..end];
      ParsedArgsReencode(s, end, count - 1);
      Reencode(bytes);
      Le32Of(s, i);
      var rest := ParseArgs(s, end, count - 1).value.0;
      assert Encoded(args)[0] == bytes && Encoded(args)[1..] == Encoded(rest);
      assert s[i..after] == s[i..i + 4] + s[i + 4..end] + s[end..after];
    }
  }

  lemma Reencode(bytes: seq<Byte>)
    requires Decode(bytes).Ok?
    ensures Encode(Decode(bytes).value) == bytes
  {
    EncodeUndoesDecode(bytes, 0);
    assert bytes[0..] == bytes;
  }

  /** The provider accepts nothing but what an encoder would have written: writing
      the decoded request out again gives the very same payload. */
  lemma EncodeUndoesDecodeInvocation(s: seq<Byte>)
    requires ParseInvocation(s).Some?
    ensures var request := ParseInvocation(s).value; InvokeBytes(Encoded(request.args), request.streamsStdin) == s
  {
    hide Decode, Le16, U16At, ArgBytes;
    ParsedArgsReencode(s, 4, U16At(s, 2));
    Le16Of(s, 2);
    assert s == [s[0], s[1]] + s[2..4] + s[4..];
  }

  /** Hence no two argument lists share an encoding. */
  lemma EncodingInjective(a: seq<seq<Byte>>, sa: bool, b: seq<seq<Byte>>, sb: bool)
    requires forall i | 0 <= i < |a| :: IsString(a[i])
    requires forall i | 0 <= i < |b| :: IsString(b[i])
    requires ValidArgs(a) && ValidArgs(b)
    ensures InvokeBytes(a, sa) == InvokeBytes(b, sb) ==> a == b && sa == sb
  {
    hide Decode, ParseInvocation, InvokeBytes;
    DecodeUndoesEncode(a, sa);
    DecodeUndoesEncode(b, sb);
    if InvokeBytes(a, sa) == InvokeBytes(b, sb) { SameTexts(a, b); }
  }

  lemma SameTexts(a: seq<seq<Byte>>, b: seq<seq<Byte>>)
    requires forall i | 0 <= i < |a| :: IsString(a[i])
    requires forall i | 0 <= i < |b| :: IsString(b[i])
    requires Texts(a) == Texts(b)
    ensures a == b
  {
    hide Decode;
    assert |a| == |Texts(a)| == |Texts(b)| == |b|;
    forall i | 0 <= i < |a| ensures a[i] == b[i] {
      assert Texts(a)[i] == Decode(a[i]).value && Texts(b)[i] == Decode(b[i]).value;
      DecodeInjective(a[i], b[i]);
    }
  }
}
