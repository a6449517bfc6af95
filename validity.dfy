/**
 * The validator the UTF-8 truncator consults: does a byte buffer decode cleanly as
 * UTF-8? Well-formedness is the grammar of section 4 of RFC 3629 (UTF8-octets),
 * which is what a strict UTF-8 decoder set to report errors accepts.
 */
module Utf8Validity {
  import opened Bytes

  /** Outcome of decoding a whole buffer. */
  datatype Validity = Valid | Malformed | Unmappable

  /** UTF8-tail = %x80-BF */
  predicate IsTail(b: byte) {
    0x80 <= b <= 0xBF
  }

  /** An octet that never appears in UTF-8 text (RFC 3629, section 1). */
  predicate IsNeverUsed(b: byte) {
    b == 0xC0 || b == 0xC1 || b >= 0xF5
  }

  /**
   * The byte allowed right after a three- or four-byte lead: RFC 3629 narrows it
   * after E0 (no overlongs), ED (no surrogates), F0 (no overlongs) and F4 (nothing
   * above U+10FFFF); after every other lead it is any UTF8-tail.
   */
  predicate IsSecond(lead: byte, b: byte) {
    if lead == 0xE0 then 0xA0 <= b <= 0xBF
    else if lead == 0xED then 0x80 <= b <= 0x9F
    else if lead == 0xF0 then 0x90 <= b <= 0xBF
    else if lead == 0xF4 then 0x80 <= b <= 0x8F
    else IsTail(b)
  }

  /** Length of the UTF8-char that starts s (1 to 4 bytes), or 0 when s does not start with one. */
  function LeadingCharLength(s: seq<byte>): (n: nat)
    ensures n <= |s|
    ensures n > 0 ==> !IsTail(s[0])
    ensures forall j :: 0 <= j < n ==> !IsNeverUsed(s[j])
  {
    if |s| == 0 then 0
    else if s[0] <= 0x7F then 1
    else if 0xC2 <= s[0] <= 0xDF then
      if 2 <= |s| && IsTail(s[1]) then 2 else 0
    else if 0xE0 <= s[0] <= 0xEF then
      if 3 <= |s| && IsSecond(s[0], s[1]) && IsTail(s[2]) then 3 else 0
    else if 0xF0 <= s[0] <= 0xF4 then
      if 4 <= |s| && IsSecond(s[0], s[1]) && IsTail(s[2]) && IsTail(s[3]) then 4 else 0
    else 0
  }

  /**
   * Decodes the whole buffer: Valid when it is a sequence of UTF8-chars, Malformed at
   * the first byte pattern that is not (including a character cut off by the end of
   * the buffer).
   */
  function CheckValidity(s: seq<byte>): (r: Validity)
    ensures |s| == 0 ==> r == Valid
    ensures r == Valid && |s| > 0 ==> !IsTail(s[0])
    ensures r == Valid ==> forall j :: 0 <= j < |s| ==> !IsNeverUsed(s[j])
    decreases |s|
  {
    if |s| == 0 then Valid
    else
      var n := LeadingCharLength(s);
      if n == 0 then Malformed
      else
        var r := CheckValidity(s[n..]);
        assert r == Valid ==> forall j :: n <= j < |s| ==> s[j] == s[n..][j - n];
        r
  }

  /** A UTF-8 decoder never meets a well-formed sequence it cannot map. */
  lemma {:induction false} NeverUnmappable(s: seq<byte>)
    ensures CheckValidity(s) != Unmappable
    decreases |s|
  {
    if |s| > 0 && LeadingCharLength(s) > 0 {
      NeverUnmappable(s[LeadingCharLength(s)..]);
    }
  }

  /** Pure ASCII text is valid. */
  lemma {:induction false} AsciiIsValid(s: seq<byte>)
    requires forall j :: 0 <= j < |s| ==> s[j] <= 0x7F
    ensures CheckValidity(s) == Valid
    decreases |s|
  {
    if |s| > 0 {
      AsciiIsValid(s[1..]);
    }
  }

  /** A buffer that starts with a byte no UTF8-char starts with is malformed. */
  lemma NoLeadIsMalformed(s: seq<byte>)
    requires |s| > 0 && (IsTail(s[0]) || IsNeverUsed(s[0]))
    ensures CheckValidity(s) == Malformed
  {
  }
}
