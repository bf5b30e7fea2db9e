/** Well-formed UTF-8 byte sequences, by the byte ranges of Table 3-7 of the Unicode
    Standard (the syntax of section 4 of RFC 3629): no overlong forms, no surrogates,
    nothing above U+10FFFF. These are exactly the octet sequences that JavaScript's
    `decodeURIComponent` accepts once they are percent-escaped. */
module Utf8 {
  import opened Common

  predicate Continuation(b: Byte) {
    0x80 <= b <= 0xBF
  }

  predicate High(b: Byte) {
    b > 0x7F
  }

  /** The length of the sequence a lead byte above 0x7F announces, or 0 when the byte
      cannot start one (0x80-0xC1 and 0xF5-0xFF). */
  function LeadLength(lead: Byte): (n: nat)
    ensures n == 0 || 2 <= n <= 4
  {
    if 0xC2 <= lead <= 0xDF then 2
    else if 0xE0 <= lead <= 0xEF then 3
    else if 0xF0 <= lead <= 0xF4 then 4
    else 0
  }

  /** The range allowed for the second byte: narrower than 0x80-0xBF after 0xE0 and 0xF0
      (no overlong forms), 0xED (no surrogates) and 0xF4 (nothing above U+10FFFF). */
  function SecondLow(lead: Byte): Byte {
    if lead == 0xE0 then 0xA0 else if lead == 0xF0 then 0x90 else 0x80
  }

  function SecondHigh(lead: Byte): Byte {
    if lead == 0xED then 0x9F else if lead == 0xF4 then 0x8F else 0xBF
  }

  /** The length of the well-formed character at the start of `s`, or 0 when `s` does
      not start with one. */
  function CharLength(s: Bytes): (n: nat)
    ensures n <= |s| && n <= 4
    ensures n > 0 && !High(s[0]) ==> n == 1
  {
    if |s| == 0 then 0
    else if s[0] <= 0x7F then 1
    else
      var n := LeadLength(s[0]);
      if n > 0 && |s| >= n && SecondLow(s[0]) <= s[1] <= SecondHigh(s[0])
         && (n < 3 || Continuation(s[2])) && (n < 4 || Continuation(s[3]))
      then n else 0
  }

  predicate WellFormed(s: Bytes)
    decreases |s|
  {
    |s| == 0 || (CharLength(s) > 0 && WellFormed(s[CharLength(s)..]))
  }

  /** A character with a high lead byte consists of high bytes only. */
  lemma CharIsHigh(s: Bytes)
    requires CharLength(s) > 0 && High(s[0])
    ensures forall k :: 0 <= k < CharLength(s) ==> High(s[k])
  {
  }

  /** A character is recognised from its own bytes only. */
  lemma CharLengthOfPrefix(s: Bytes, t: Bytes)
    requires CharLength(s) > 0
    requires |t| >= CharLength(s) && t[..CharLength(s)] == s[..CharLength(s)]
    ensures CharLength(t) == CharLength(s)
  {
    var n := CharLength(s);
    assert t[0] == s[0];
    assert n >= 2 ==> t[1] == s[1];
    assert n >= 3 ==> t[2] == s[2];
    assert n >= 4 ==> t[3] == s[3];
  }
}
