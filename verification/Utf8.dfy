/** Text codecs shared by the two ends of the extension protocol.

    A Rust `String` is the sequence of its UTF-8 octets; a TypeScript string is
    the sequence of its UTF-16 code units.  The masks and shifts of the source
    are written with `/`, `%` and `+`: at every use the operands have no bit in
    common, which is exactly what makes the fields recoverable below.
  */
module Utf8 {
  import opened Common

  type CodeUnit = u: int | 0 <= u < 0x1_0000
  type Text = seq<CodeUnit>

  datatype Result<+T> = Ok(value: T) | Err(at: nat)

  const REPLACEMENT: CodeUnit := 0xfffd

  // ---------------------------------------------------------------- scalars

  predicate IsHigh(u: int) { 0xd800 <= u <= 0xdbff }

  predicate IsLow(u: int) { 0xdc00 <= u <= 0xdfff }

  predicate IsSurrogate(u: int) { 0xd800 <= u <= 0xdfff }

  type Scalar = c: int | 0 <= c <= 0x10ffff && !IsSurrogate(c)

  /** RFC 3629, section 3: the octets of one scalar value. */
  function EncodeScalar(c: Scalar): (r: seq<Byte>)
    ensures 1 <= |r| <= 4
  {
    if c <= 0x7f then [c]
    else if c <= 0x7ff then [0xc0 + c / 0x40, 0x80 + c % 0x40]
    else if c <= 0xffff then [0xe0 + c / 0x1000, 0x80 + c / 0x40 % 0x40, 0x80 + c % 0x40]
    else [0xf0 + c / 0x4_0000, 0x80 + c / 0x1000 % 0x40, 0x80 + c / 0x40 % 0x40, 0x80 + c % 0x40]
  }

  /** RFC 2781, section 2.1: the code units of one scalar value. */
  function ScalarUnits(c: Scalar): (r: Text)
    ensures 1 <= |r| <= 2
  {
    if c <= 0xffff then [c] else [0xd800 + (c - 0x1_0000) / 0x400, 0xdc00 + (c - 0x1_0000) % 0x400]
  }

  // ---------------------------------------------------------------- grammar

  predicate Tail(b: int) { 0x80 <= b <= 0xbf }

  /** RFC 3629, section 4: `UTF8-char`, production by production. */
  predicate Utf8Char(s: seq<Byte>) {
    || (|s| == 1 && s[0] <= 0x7f)
    || (|s| == 2 && 0xc2 <= s[0] <= 0xdf && Tail(s[1]))
    || (|s| == 3 && s[0] == 0xe0 && 0xa0 <= s[1] <= 0xbf && Tail(s[2]))
    || (|s| == 3 && 0xe1 <= s[0] <= 0xec && Tail(s[1]) && Tail(s[2]))
    || (|s| == 3 && s[0] == 0xed && 0x80 <= s[1] <= 0x9f && Tail(s[2]))
    || (|s| == 3 && 0xee <= s[0] <= 0xef && Tail(s[1]) && Tail(s[2]))
    || (|s| == 4 && s[0] == 0xf0 && 0x90 <= s[1] <= 0xbf && Tail(s[2]) && Tail(s[3]))
    || (|s| == 4 && 0xf1 <= s[0] <= 0xf3 && Tail(s[1]) && Tail(s[2]) && Tail(s[3]))
    || (|s| == 4 && s[0] == 0xf4 && 0x80 <= s[1] <= 0x8f && Tail(s[2]) && Tail(s[3]))
  }

  /** RFC 3629, section 4: `UTF8-octets = *( UTF8-char )`. */
  ghost predicate Utf8Octets(s: seq<Byte>)
    decreases |s|
  {
    s == [] || exists n | 1 <= n <= |s| :: Utf8Char(s[..n]) && Utf8Octets(s[n..])
  }

  // ---------------------------------------------------------------- encoder

  /** RFC 2781, section 2.2: the scalar of a surrogate pair. */
  function PairScalar(high: int, low: int): (c: Scalar)
    requires IsHigh(high) && IsLow(low)
    ensures c > 0xffff && ScalarUnits(c) == [high, low]
  {
    0x1_0000 + (high - 0xd800) * 0x400 + (low - 0xdc00)
  }

  /** Scalar at `i` and the number of code units it takes, as `codePointAt` reads it. */
  function ScalarAt(s: Text, i: nat): (r: (Scalar, nat))
    requires i < |s|
    ensures 1 <= r.1 <= 2 && i + r.1 <= |s|
  {
    if IsHigh(s[i]) && i + 1 < |s| && IsLow(s[i + 1]) then
      (PairScalar(s[i], s[i + 1]), 2)
    else if IsSurrogate(s[i]) then (REPLACEMENT, 1)
    else (s[i], 1)
  }

  /** The octets of the code units from `i` on. */
  function EncodeFrom(s: Text, i: nat): seq<Byte>
    requires i <= |s|
    decreases |s| - i
  {
    if i == |s| then []
    else var (c, width) := ScalarAt(s, i); EncodeScalar(c) + EncodeFrom(s, i + width)
  }

  function Encode(s: Text): seq<Byte> { EncodeFrom(s, 0) }

  method EncodeUtf8(text: Text) returns (bytes: seq<Byte>)
    ensures bytes == Encode(text)
  {
    hide EncodeScalar, ScalarUnits;
    bytes := [];
    var index := 0;
    while index < |text|
      invariant 0 <= index <= |text|
      invariant bytes + EncodeFrom(text, index) == Encode(text)
    {
      ghost var start, before := index, bytes;
      // codePointAt: a high surrogate followed by a low one is one code point.
      var codePoint: int := text[index];
      if IsHigh(codePoint) && index + 1 < |text| && IsLow(text[index + 1]) {
        codePoint := PairScalar(codePoint, text[index + 1]);
      }
      if codePoint > 0xffff { index := index + 1; }
      if codePoint >= 0xd800 && codePoint <= 0xdfff { codePoint := 0xfffd; }
      bytes := PushScalar(bytes, codePoint);
      index := index + 1;
      assert (codePoint, index - start) == ScalarAt(text, start);
      assert before + (EncodeScalar(codePoint) + EncodeFrom(text, index)) == bytes + EncodeFrom(text, index);
    }
  }

  /** The four `push` branches of the encoder. */
  method PushScalar(bytes: seq<Byte>, codePoint: Scalar) returns (r: seq<Byte>)
    ensures r == bytes + EncodeScalar(codePoint)
  {
    if codePoint <= 0x7f {
      r := bytes + [codePoint];
    } else if codePoint <= 0x7ff {
      r := bytes + [0xc0 + codePoint / 0x40, 0x80 + codePoint % 0x40];
    } else if codePoint <= 0xffff {
      r := bytes + [0xe0 + codePoint / 0x1000, 0x80 + codePoint / 0x40 % 0x40, 0x80 + codePoint % 0x40];
    } else {
      r := bytes + [0xf0 + codePoint / 0x4_0000, 0x80 + codePoint / 0x1000 % 0x40,
                    0x80 + codePoint / 0x40 % 0x40, 0x80 + codePoint % 0x40];
    }
  }

  // ---------------------------------------------------------------- decoder

  function Two(a: int, b: int): int { a % 0x20 * 0x40 + b % 0x40 }

  function Three(a: int, b: int, c: int): int { a % 0x10 * 0x1000 + b % 0x40 * 0x40 + c % 0x40 }

  function Four(a: int, b: int, c: int, d: int): int {
    a % 0x8 * 0x4_0000 + b % 0x40 * 0x1000 + c % 0x40 * 0x40 + d % 0x40
  }

  /** The scalar the grammar's `UTF8-char` stands for. */
  function DecodeChar(s: seq<Byte>): Scalar
    requires Utf8Char(s)
  {
    hide Two, Three, Four;
    if |s| == 1 then s[0]
    else if |s| == 2 then TwoBack(s[0], s[1]); Two(s[0], s[1])
    else if |s| == 3 then ThreeBack(s[0], s[1], s[2]); Three(s[0], s[1], s[2])
    else FourBack(s[0], s[1], s[2], s[3]); Four(s[0], s[1], s[2], s[3])
  }

  /** `DecodeChar` inverts the encoding of RFC 3629, section 3. */
  lemma EncodeDecodeChar(s: seq<Byte>)
    requires Utf8Char(s)
    ensures EncodeScalar(DecodeChar(s)) == s
  {
    hide Two, Three, Four;
    if |s| == 2 { TwoBack(s[0], s[1]); }
    else if |s| == 3 { ThreeBack(s[0], s[1], s[2]); }
    else if |s| == 4 { FourBack(s[0], s[1], s[2], s[3]); }
  }

  lemma TwoBack(a: int, b: int)
    requires 0xc2 <= a <= 0xdf && Tail(b)
    ensures var c := Two(a, b); 0x80 <= c <= 0x7ff && 0xc0 + c / 0x40 == a && 0x80 + c % 0x40 == b
  {
  }

  lemma ThreeBack(a: int, b: int, c: int)
    requires 0xe0 <= a <= 0xef && Tail(b) && Tail(c)
    ensures var v := Three(a, b, c); v == (a - 0xe0) * 0x1000 + (b - 0x80) * 0x40 + (c - 0x80)
    ensures var v := Three(a, b, c); 0xe0 + v / 0x1000 == a && 0x80 + v / 0x40 % 0x40 == b && 0x80 + v % 0x40 == c
  {
    ThreeIs(a, b, c);
    hide Three;
    Digits(0, a - 0xe0, b - 0x80, c - 0x80);
  }

  lemma ThreeIs(a: int, b: int, c: int)
    requires 0xe0 <= a <= 0xef && Tail(b) && Tail(c)
    ensures Three(a, b, c) == (a - 0xe0) * 0x1000 + (b - 0x80) * 0x40 + (c - 0x80)
    ensures Three(a, b, c) < 0x4_0000
  {
  }

  lemma FourBack(a: int, b: int, c: int, d: int)
    requires 0xf0 <= a <= 0xf4 && Tail(b) && Tail(c) && Tail(d)
    ensures var v := Four(a, b, c, d);
            v == (a - 0xf0) * 0x4_0000 + (b - 0x80) * 0x1000 + (c - 0x80) * 0x40 + (d - 0x80)
    ensures var v := Four(a, b, c, d);
            && 0xf0 + v / 0x4_0000 == a && 0x80 + v / 0x1000 % 0x40 == b
            && 0x80 + v / 0x40 % 0x40 == c && 0x80 + v % 0x40 == d
  {
    FourIs(a, b, c, d);
    hide Four;
    Digits(a - 0xf0, b - 0x80, c - 0x80, d - 0x80);
  }

  lemma FourIs(a: int, b: int, c: int, d: int)
    requires 0xf0 <= a <= 0xf4 && Tail(b) && Tail(c) && Tail(d)
    ensures Four(a, b, c, d) == (a - 0xf0) * 0x4_0000 + (b - 0x80) * 0x1000 + (c - 0x80) * 0x40 + (d - 0x80)
  {
  }

  lemma Digits(x: nat, y: nat, z: nat, t: nat)
    requires y < 0x40 && z < 0x40 && t < 0x40
    ensures var v := x * 0x4_0000 + y * 0x1000 + z * 0x40 + t;
            v / 0x4_0000 == x && v / 0x1000 % 0x40 == y && v / 0x40 % 0x40 == z && v % 0x40 == t
  {
    var w := x * 0x40 + y;
    var u := w * 0x40 + z;
    Digit(u, t);
    Digit(w, z);
    Digit(x, y);
    Nested(u * 0x40 + t);
  }

  lemma Digit(q: int, r: int)
    requires 0 <= r < 0x40
    ensures (q * 0x40 + r) / 0x40 == q && (q * 0x40 + r) % 0x40 == r
  {
  }

  lemma Nested(c: int)
    requires 0 <= c
    ensures c / 0x1000 == c / 0x40 / 0x40 && c / 0x4_0000 == c / 0x40 / 0x40 / 0x40
  {
    assert c / 0x1000 == c / 0x40 / 0x40;
  }

  /** A `UTF8-char` of `n` octets starts at `i`. */
  predicate CharAt(s: seq<Byte>, i: nat, n: nat) {
    i + n <= |s| && Utf8Char(s[i..i + n])
  }

  /** Length of the `UTF8-char` that starts at `i`, or 0 if none does. */
  function CharWidth(s: seq<Byte>, i: nat): (n: nat)
    ensures n > 0 ==> CharAt(s, i, n)
    ensures forall k :: CharAt(s, i, k) ==> k == n
  {
    CharUnique(s, i);
    if CharAt(s, i, 1) then 1
    else if CharAt(s, i, 2) then 2
    else if CharAt(s, i, 3) then 3
    else if CharAt(s, i, 4) then 4
    else 0
  }

  /** No `UTF8-char` is a proper prefix of another, so the grammar splits one way only. */
  lemma CharUnique(s: seq<Byte>, i: nat)
    ensures forall k :: CharAt(s, i, k) ==> 1 <= k <= 4
    ensures forall k, m :: CharAt(s, i, k) && CharAt(s, i, m) ==> k == m
  {
    forall k, m | CharAt(s, i, k) && CharAt(s, i, m) ensures k == m {
      assert s[i..i + k][0] == s[i] == s[i..i + m][0];
    }
  }

  /** The code units of the octets from `i` on, or the index of the first bad one. */
  function DecodeFrom(s: seq<Byte>, i: nat): Result<Text>
    requires i <= |s|
    decreases |s| - i
  {
    if i == |s| then Ok([])
    else
      var n := CharWidth(s, i);
      if n == 0 then Err(i)
      else match DecodeFrom(s, i + n) {
        case Ok(rest) => Ok(ScalarUnits(DecodeChar(s[i..i + n])) + rest)
        case Err(at) => Err(at)
      }
  }

  function Decode(s: seq<Byte>): Result<Text> { DecodeFrom(s, 0) }

  /** The strict decoder.  A rejected input throws, reporting the offending index. */
  method DecodeUtf8(bytes: seq<Byte>) returns (r: Result<Text>)
    ensures r == Decode(bytes)
  {
    hide CharWidth, ScalarUnits, DecodeChar;
    var codeUnits: Text := [];
    var index := 0;
    PrependNil(Decode(bytes));
    while index < |bytes|
      invariant 0 <= index <= |bytes|
      invariant Decode(bytes) == Prepend(codeUnits, DecodeFrom(bytes, index))
    {
      var codePoint, width := DecodeStep(bytes, index);
      if width == 0 { return Err(index); }
      PrependStep(bytes, index, codeUnits);
      codeUnits := PushUnits(codeUnits, codePoint);
      index := index + width;
    }
    assert codeUnits + [] == codeUnits;
    return Ok(codeUnits);
  }

  predicate Continuation(byte: int) { byte / 0x40 == 2 }

  /** The four branches of the decoder; width 0 is the branch that throws. */
  method DecodeStep(bytes: seq<Byte>, index: nat) returns (codePoint: int, width: nat)
    requires index < |bytes|
    ensures width == CharWidth(bytes, index)
    ensures width > 0 ==> codePoint == DecodeChar(bytes[index..index + width])
  {
    var first: int := bytes[index];
    var second: int := if index + 1 < |bytes| then bytes[index + 1] else -1;
    var third: int := if index + 2 < |bytes| then bytes[index + 2] else -1;
    var fourth: int := if index + 3 < |bytes| then bytes[index + 3] else -1;
    if first <= 0x7f {
      codePoint, width := first, 1;
    } else if first >= 0xc2 && first <= 0xdf && index + 1 < |bytes| && Continuation(second) {
      codePoint, width := Two(first, second), 2;
    } else if first >= 0xe0 && first <= 0xef && index + 2 < |bytes|
              && Continuation(second) && Continuation(third)
              && !(first == 0xe0 && second < 0xa0) && !(first == 0xed && second >= 0xa0) {
      codePoint, width := Three(first, second, third), 3;
    } else if first >= 0xf0 && first <= 0xf4 && index + 3 < |bytes|
              && Continuation(second) && Continuation(third) && Continuation(fourth)
              && !(first == 0xf0 && second < 0x90) && !(first == 0xf4 && second >= 0x90) {
      codePoint, width := Four(first, second, third, fourth), 4;
    } else {
      codePoint, width := -1, 0;
    }
    assert width > 0 ==> CharAt(bytes, index, width);
  }

  method PushUnits(codeUnits: Text, codePoint: Scalar) returns (r: Text)
    ensures r == codeUnits + ScalarUnits(codePoint)
  {
    if codePoint <= 0xffff {
      r := codeUnits + [codePoint];
    } else {
      var scalar := codePoint - 0x1_0000;
      r := codeUnits + [0xd800 + scalar / 0x400, 0xdc00 + scalar % 0x400];
    }
  }

  function Prepend(a: Text, r: Result<Text>): Result<Text> {
    if r.Ok? then Ok(a + r.value) else r
  }

  lemma PrependNil(r: Result<Text>)
    ensures Prepend([], r) == r
  {
    if r.Ok? { assert [] + r.value == r.value; }
  }

  lemma PrependStep(s: seq<Byte>, i: nat, a: Text)
    requires i < |s| && CharWidth(s, i) > 0
    ensures var n := CharWidth(s, i);
            Prepend(a, DecodeFrom(s, i)) == Prepend(a + ScalarUnits(DecodeChar(s[i..i + n])), DecodeFrom(s, i + n))
  {
    var n := CharWidth(s, i);
    var rest := DecodeFrom(s, i + n);
    if rest.Ok? {
      assert a + (ScalarUnits(DecodeChar(s[i..i + n])) + rest.value) ==
             a + ScalarUnits(DecodeChar(s[i..i + n])) + rest.value;
    }
  }

  // ---------------------------------------------------------------- theorems

  /** Where decoding fails, everything before is well formed and no character starts there. */
  lemma {:induction false} FailsAtFirstBadOctet(s: seq<Byte>, i: nat)
    requires i <= |s| && DecodeFrom(s, i).Err?
    ensures var at := DecodeFrom(s, i).at;
            i <= at < |s| && Utf8Octets(s[i..at]) && forall n | n > 0 :: !CharAt(s, at, n)
    decreases |s| - i
  {
    hide Utf8Char, DecodeChar, ScalarUnits;
    var w := CharWidth(s, i);
    if w == 0 {
      assert s[i..i] == [];
    } else {
      FailsAtFirstBadOctet(s, i + w);
      var at := DecodeFrom(s, i).at;
      var t := s[i..at];
      assert t[..w] == s[i..i + w] && t[w..] == s[i + w..at];
    }
  }

  /** The decoder accepts exactly the octet strings of RFC 3629, section 4. */
  lemma {:induction false} DecodeAcceptsGrammar(s: seq<Byte>, i: nat)
    requires i <= |s|
    ensures DecodeFrom(s, i).Ok? <==> Utf8Octets(s[i..])
    decreases |s| - i
  {
    hide Utf8Char, DecodeChar, ScalarUnits;
    if i < |s| {
      var t, w := s[i..], CharWidth(s, i);
      if w > 0 {
        DecodeAcceptsGrammar(s, i + w);
        assert t[..w] == s[i..i + w] && t[w..] == s[i + w..];
      }
      if Utf8Octets(t) {
        var n :| 1 <= n <= |t| && Utf8Char(t[..n]) && Utf8Octets(t[n..]);
        assert t[..n] == s[i..i + n];
        assert CharAt(s, i, n);
      }
    }
  }

  lemma UnitsPair(c: Scalar)
    requires c > 0xffff
    ensures var u := ScalarUnits(c); |u| == 2 && IsHigh(u[0]) && IsLow(u[1]) && PairScalar(u[0], u[1]) == c
  {
    var d := c - 0x1_0000;
    assert d == d / 0x400 * 0x400 + d % 0x400;
  }

  lemma UnitsThenEncode(c: Scalar, s: Text)
    ensures Encode(ScalarUnits(c) + s) == EncodeScalar(c) + Encode(s)
  {
    hide EncodeScalar, PairScalar;
    var u := ScalarUnits(c);
    EncodeShift(u, s, 0);
    if c > 0xffff {
      UnitsPair(c);
      assert (u + s)[0] == u[0] && (u + s)[1] == u[1];
    } else {
      assert !IsSurrogate(c) && (u + s)[0] == c;
    }
    assert ScalarAt(u + s, 0) == (c, |u|);
  }

  /** Encoding a suffix is encoding from its offset. */
  lemma {:induction false} EncodeShift(u: Text, s: Text, i: nat)
    requires i <= |s|
    ensures EncodeFrom(u + s, |u| + i) == EncodeFrom(s, i)
    decreases |s| - i
  {
    hide EncodeScalar, PairScalar, ScalarAt;
    if i < |s| {
      ScalarShift(u, s, i);
      EncodeShift(u, s, i + ScalarAt(s, i).1);
    }
  }

  lemma ScalarShift(u: Text, s: Text, i: nat)
    requires i < |s|
    ensures ScalarAt(u + s, |u| + i) == ScalarAt(s, i)
  {
    hide PairScalar;
  }

  /** Re-encoding what the decoder accepted gives the same octets back. */
  lemma {:induction false} EncodeUndoesDecode(s: seq<Byte>, i: nat)
    requires i <= |s| && DecodeFrom(s, i).Ok?
    ensures Encode(DecodeFrom(s, i).value) == s[i..]
    decreases |s| - i
  {
    hide EncodeScalar, ScalarUnits, DecodeChar, Utf8Char;
    if i < |s| {
      var n := CharWidth(s, i);
      var c := DecodeChar(s[i..i + n]);
      EncodeUndoesDecode(s, i + n);
      EncodeDecodeChar(s[i..i + n]);
      UnitsThenEncode(c, DecodeFrom(s, i + n).value);
      assert s[i..] == s[i..i + n] + s[i + n..];
    }
  }

  lemma EncodeScalarIsChar(c: Scalar)
    ensures Utf8Char(EncodeScalar(c)) && DecodeChar(EncodeScalar(c)) == c
  {
    hide Two, Three, Four, Utf8Char;
    if c > 0xffff {
      ScalarSplit(c);
      FourChar(c, c / 0x4_0000, c / 0x1000 % 0x40, c / 0x40 % 0x40, c % 0x40);
    } else if c > 0x7ff {
      ScalarSplit(c);
      ThreeChar(c, c / 0x1000, c / 0x40 % 0x40, c % 0x40);
    } else if c > 0x7f {
      TwoChar(c, c / 0x40, c % 0x40);
    } else {
      OneChar(c);
    }
  }

  lemma OneChar(c: Byte)
    requires c <= 0x7f
    ensures Utf8Char([c])
  {
  }

  lemma TwoChar(c: Scalar, x: int, y: int)
    requires 0x7f < c <= 0x7ff && c == x * 0x40 + y && 0 <= y < 0x40
    ensures Utf8Char([0xc0 + x, 0x80 + y]) && Two(0xc0 + x, 0x80 + y) == c
  {
  }

  lemma ThreeChar(c: Scalar, x: int, y: int, z: int)
    requires 0x7ff < c <= 0xffff && c == x * 0x1000 + y * 0x40 + z && 0 <= y < 0x40 && 0 <= z < 0x40
    ensures Utf8Char([0xe0 + x, 0x80 + y, 0x80 + z]) && Three(0xe0 + x, 0x80 + y, 0x80 + z) == c
  {
    assert !IsSurrogate(c) && 0 <= x <= 0xf;
    assert x == 0 ==> y >= 0x20;
    assert x == 0xd ==> y < 0x20;
  }

  lemma FourChar(c: Scalar, w: int, x: int, y: int, z: int)
    requires c > 0xffff && c == w * 0x4_0000 + x * 0x1000 + y * 0x40 + z
    requires 0 <= x < 0x40 && 0 <= y < 0x40 && 0 <= z < 0x40
    ensures Utf8Char([0xf0 + w, 0x80 + x, 0x80 + y, 0x80 + z])
    ensures Four(0xf0 + w, 0x80 + x, 0x80 + y, 0x80 + z) == c
  {
  }

  lemma ScalarSplit(c: int)
    requires 0 <= c
    ensures c == c / 0x1000 * 0x1000 + c / 0x40 % 0x40 * 0x40 + c % 0x40
    ensures c == c / 0x4_0000 * 0x4_0000 + c / 0x1000 % 0x40 * 0x1000 + c / 0x40 % 0x40 * 0x40 + c % 0x40
  {
    Nested(c);
  }

  lemma {:induction false} DecodeShift(p: seq<Byte>, s: seq<Byte>, i: nat)
    requires i <= |s|
    ensures DecodeFrom(p + s, |p| + i) == Shifted(DecodeFrom(s, i), |p|)
    decreases |s| - i
  {
    hide ScalarUnits, DecodeChar, Utf8Char;
    if i < |s| {
      CharShift(p, s, i);
      var n := CharWidth(s, i);
      if n > 0 {
        assert (p + s)[|p| + i..|p| + i + n] == s[i..i + n];
        DecodeShift(p, s, i + n);
      }
    }
  }

  function Shifted(r: Result<Text>, shift: nat): Result<Text> {
    match r case Ok(v) => Ok(v) case Err(at) => Err(shift + at)
  }

  lemma CharShift(p: seq<Byte>, s: seq<Byte>, i: nat)
    requires i < |s|
    ensures CharWidth(p + s, |p| + i) == CharWidth(s, i)
  {
    forall n: nat ensures CharAt(p + s, |p| + i, n) == CharAt(s, i, n) {
      if i + n <= |s| {
        assert (p + s)[|p| + i..|p| + i + n] == s[i..i + n];
      }
    }
  }

  lemma ScalarThenDecode(c: Scalar, s: seq<Byte>)
    requires Decode(s).Ok?
    ensures Decode(EncodeScalar(c) + s) == Ok(ScalarUnits(c) + Decode(s).value)
  {
    var p := EncodeScalar(c);
    EncodeScalarIsChar(c);
    assert (p + s)[0..|p|] == p;
    assert CharAt(p + s, 0, |p|);
    assert (p + s)[|p|..] == s;
    DecodeShift(p, s, 0);
  }

  /** Unit `i` belongs to a surrogate pair of `s` (RFC 2781, section 2). */
  predicate Paired(s: Text, i: nat)
    requires i < |s|
  {
    || (IsHigh(s[i]) && i + 1 < |s| && IsLow(s[i + 1]))
    || (IsLow(s[i]) && i > 0 && IsHigh(s[i - 1]))
  }

  /** `s` with every unpaired surrogate replaced by U+FFFD, unit by unit. */
  function Sanitized(s: Text): (r: Text)
    ensures |r| == |s|
  {
    seq(|s|, i requires 0 <= i < |s| => if IsSurrogate(s[i]) && !Paired(s, i) then REPLACEMENT else s[i])
  }

  lemma SanitizedStep(s: Text, i: nat)
    requires i < |s|
    requires i == 0 || !(IsHigh(s[i - 1]) && IsLow(s[i]))
    ensures var (c, w) := ScalarAt(s, i); Sanitized(s)[i..] == ScalarUnits(c) + Sanitized(s)[i + w..]
  {
    var (c, w) := ScalarAt(s, i);
    var t := Sanitized(s);
    if w == 2 {
      assert ScalarUnits(c) == [s[i], s[i + 1]];
      assert t[i] == s[i] && t[i + 1] == s[i + 1];
      assert t[i..] == [t[i], t[i + 1]] + t[i + 2..];
    } else {
      assert t[i] == c;
      assert t[i..] == [t[i]] + t[i + 1..];
    }
  }

  lemma {:induction false} DecodeEncodeFrom(s: Text, i: nat)
    requires i <= |s|
    requires i == 0 || i == |s| || !(IsHigh(s[i - 1]) && IsLow(s[i]))
    ensures Decode(EncodeFrom(s, i)) == Ok(Sanitized(s)[i..])
    decreases |s| - i
  {
    hide EncodeScalar;
    if i < |s| {
      var (c, w) := ScalarAt(s, i);
      DecodeEncodeFrom(s, i + w);
      ScalarThenDecode(c, EncodeFrom(s, i + w));
      SanitizedStep(s, i);
    } else {
      assert Decode([]) == Ok([]);
    }
  }

  /** Decoding what the encoder wrote returns the text with unpaired surrogates replaced. */
  lemma DecodeUndoesEncode(s: Text)
    ensures Decode(Encode(s)) == Ok(Sanitized(s))
  {
    DecodeEncodeFrom(s, 0);
    assert Sanitized(s)[0..] == Sanitized(s);
  }

  /** Decoding is injective on what it accepts. */
  lemma DecodeInjective(a: seq<Byte>, b: seq<Byte>)
    requires Decode(a).Ok? && Decode(a) == Decode(b)
    ensures a == b
  {
    EncodeUndoesDecode(a, 0);
    EncodeUndoesDecode(b, 0);
    assert a[0..] == a && b[0..] == b;
  }
}
