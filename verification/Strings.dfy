/** Rust strings as sequences of scalar values, measured in UTF-8 bytes. */
module Strings {
  import Utf8

  /** The scalar value of a character. */
  function ScalarOf(c: char): Utf8.Scalar { c as int }

  /** `char::len_utf8`. */
  function CharLen(c: char): (n: nat)
    ensures 1 <= n <= 4
  {
    |Utf8.EncodeScalar(ScalarOf(c))|
  }

  /** `str::len`. */
  function Bytes(s: string): nat {
    if s == "" then 0 else Bytes(s[..|s| - 1]) + CharLen(s[|s| - 1])
  }

  lemma {:induction false} BytesConcat(a: string, b: string)
    ensures Bytes(a + b) == Bytes(a) + Bytes(b)
  {
    if b == "" {
      assert a + b == a;
    } else {
      assert (a + b)[..|a + b| - 1] == a + b[..|b| - 1];
      BytesConcat(a, b[..|b| - 1]);
    }
  }

  lemma {:induction false} BytesAtLeastLength(s: string)
    ensures |s| <= Bytes(s)
  {
    if s != "" { BytesAtLeastLength(s[..|s| - 1]); }
  }

  /** The Unicode White_Space property, as `char::is_whitespace` tests it. */
  predicate IsWhitespace(c: char) {
    var u := c as int;
    || 0x9 <= u <= 0xd || u == 0x20 || u == 0x85 || u == 0xa0 || u == 0x1680 || 0x2000 <= u <= 0x200a
    || u == 0x2028 || u == 0x2029 || u == 0x202f || u == 0x205f || u == 0x3000
  }

  /** `str::trim_end`. */
  function TrimEnd(s: string): (r: string)
    ensures r <= s
    ensures forall i | |r| <= i < |s| :: IsWhitespace(s[i])
    ensures r == "" || !IsWhitespace(r[|r| - 1])
  {
    if s != "" && IsWhitespace(s[|s| - 1]) then TrimEnd(s[..|s| - 1]) else s
  }
}
