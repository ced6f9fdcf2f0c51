/**
  Well-formed UTF-8 byte sequences, following the syntax of section 4 of
  RFC 3629 (the rule Rust's `String::from_utf8` checks).
 */
module Utf8 {
  import opened Endian

  predicate IsTail(b: byte) { 0x80 <= b <= 0xBF }

  /**
    The length of the well-formed character that starts `s`, or 0 when `s`
    is empty or does not start with one.
   */
  function LeadLength(s: seq<byte>): (n: nat)
    ensures n <= |s| && n <= 4
    ensures s != [] && s[0] < 0x80 ==> n == 1
  {
    if |s| == 0 then 0
    else if s[0] <= 0x7F then 1
    else if 0xC2 <= s[0] <= 0xDF then
      if |s| >= 2 && IsTail(s[1]) then 2 else 0
    else if s[0] == 0xE0 then
      if |s| >= 3 && 0xA0 <= s[1] <= 0xBF && IsTail(s[2]) then 3 else 0
    else if 0xE1 <= s[0] <= 0xEC || 0xEE <= s[0] <= 0xEF then
      if |s| >= 3 && IsTail(s[1]) && IsTail(s[2]) then 3 else 0
    else if s[0] == 0xED then
      if |s| >= 3 && 0x80 <= s[1] <= 0x9F && IsTail(s[2]) then 3 else 0
    else if s[0] == 0xF0 then
      if |s| >= 4 && 0x90 <= s[1] <= 0xBF && IsTail(s[2]) && IsTail(s[3]) then 4 else 0
    else if 0xF1 <= s[0] <= 0xF3 then
      if |s| >= 4 && IsTail(s[1]) && IsTail(s[2]) && IsTail(s[3]) then 4 else 0
    else if s[0] == 0xF4 then
      if |s| >= 4 && 0x80 <= s[1] <= 0x8F && IsTail(s[2]) && IsTail(s[3]) then 4 else 0
    else 0
  }

  /** `s` is a concatenation of well-formed characters. */
  predicate ValidUtf8(s: seq<byte>)
    decreases |s|
  {
    s == [] || (LeadLength(s) > 0 && ValidUtf8(s[LeadLength(s)..]))
  }

  /** A Rust `String`/`&str`: bytes that are valid UTF-8. */
  type Utf8Str = s: seq<byte> | ValidUtf8(s) witness []

  /** Every ASCII byte string, interface and table names included, is valid UTF-8. */
  lemma {:induction false} AsciiIsValid(s: seq<byte>)
    requires forall i :: 0 <= i < |s| ==> s[i] < 0x80
    ensures ValidUtf8(s)
  {
    if s != [] {
      AsciiIsValid(s[1..]);
    }
  }

  /** A byte that can only continue a character never starts a valid string. */
  lemma StrayTailIsInvalid(s: seq<byte>)
    requires s != [] && IsTail(s[0])
    ensures !ValidUtf8(s)
  {
  }
}
