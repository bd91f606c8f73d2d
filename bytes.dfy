/**
 * Bytes as the C source sees them: a `char` holding a value below 256.
 * Keeping bytes as characters lets the model write the source's literals
 * ('"', "null", "\\u00") as they are.
 */
module Bytes {

  type byte = c: char | c as int < 256

  const NUL: byte := 0 as char

  /** The four bytes RFC 8259, section 2, allows between tokens. */
  predicate IsWhitespace(c: byte) {
    c == ' ' || c == '\t' || c == '\n' || c == '\r'
  }

  /** `isdigit` in the C locale. */
  predicate IsDigit(c: byte) {
    '0' <= c <= '9'
  }

  predicate IsHexDigit(c: byte) {
    IsDigit(c) || 'a' <= c <= 'f' || 'A' <= c <= 'F'
  }

  function HexValue(c: byte): (v: nat)
    requires IsHexDigit(c)
    ensures v < 16
  {
    if IsDigit(c) then c as int - '0' as int
    else if 'a' <= c <= 'f' then c as int - 'a' as int + 10
    else c as int - 'A' as int + 10
  }

  /** The upper-case hexadecimal digit `%X` prints for a value below 16. */
  function HexUpper(v: nat): (c: byte)
    requires v < 16
    ensures IsHexDigit(c) && HexValue(c) == v
  {
    if v < 10 then ('0' as int + v) as char else ('A' as int + v - 10) as char
  }

  predicate NulFree(s: seq<byte>) {
    forall i :: 0 <= i < |s| ==> s[i] != NUL
  }

  /**
   * The text a NUL-terminated C string holds: everything before the
   * first NUL byte.
   */
  function UpToNul(s: seq<byte>): (r: seq<byte>)
    ensures NulFree(r)
    ensures r <= s
    ensures |r| < |s| ==> s[|r|] == NUL
  {
    if s == [] then []
    else if s[0] == NUL then []
    else [s[0]] + UpToNul(s[1..])
  }

  lemma {:induction false} UpToNulOfNulFree(s: seq<byte>)
    requires NulFree(s)
    ensures UpToNul(s) == s
  {
    if s != [] {
      UpToNulOfNulFree(s[1..]);
    }
  }
}
