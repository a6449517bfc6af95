/** Worked instances of the truncators on concrete values. */
module TruncatorExamples {
  import opened Bytes
  import opened Utf8Validity
  import opened BinaryTruncator

  /** "hello world" cut to 5 bytes: min "hello", max "hellp". */
  lemma HelloWorld()
    ensures var v: seq<byte> := [0x68, 0x65, 0x6C, 0x6C, 0x6F, 0x20, 0x77, 0x6F, 0x72, 0x6C, 0x64];
      && TruncatedMin(DefaultUtf8, v, 5) == [0x68, 0x65, 0x6C, 0x6C, 0x6F]
      && TruncatedMax(DefaultUtf8, v, 5) == [0x68, 0x65, 0x6C, 0x6C, 0x70]
  {
    var v: seq<byte> := [0x68, 0x65, 0x6C, 0x6C, 0x6F, 0x20, 0x77, 0x6F, 0x72, 0x6C, 0x64];
    AsciiIsValid(v);
    AsciiIsValid(v[..5]);
    var p := v[..5];
    AsciiIsValid(p[4 := 0x70]);
  }

  /** Not text (0xFF never starts a character): cut to 01 02 03, then incremented to 01 02 04. */
  lemma RawBytes()
    ensures var v: seq<byte> := [0x01, 0x02, 0x03, 0xFF, 0xFF];
      && TruncatedMin(DefaultUtf8, v, 3) == [0x01, 0x02, 0x03]
      && TruncatedMax(DefaultUtf8, v, 3) == [0x01, 0x02, 0x04]
  {
  }

  /**
   * "€A" (E2 82 AC 41) cut to 2 bytes: no prefix of 1 or 2 bytes is valid, so both
   * bounds keep the whole value rather than a raw cut.
   */
  lemma ThreeByteCharKeptWhole()
    ensures var v: seq<byte> := [0xE2, 0x82, 0xAC, 0x41];
      && TruncatedMin(DefaultUtf8, v, 2) == v
      && TruncatedMax(DefaultUtf8, v, 2) == v
  {
  }

  /**
   * "a" 0x7F "b" cut to 2 bytes: raising 0x7F gives the malformed 0x80, so the
   * increment moves one position left and yields "b" 0x7F.
   */
  lemma CarryIntoPreviousCharacter()
    ensures var v: seq<byte> := [0x61, 0x7F, 0x62];
      TruncatedMax(DefaultUtf8, v, 2) == [0x62, 0x7F]
  {
    var v: seq<byte> := [0x61, 0x7F, 0x62];
    AsciiIsValid(v);
    AsciiIsValid(v[..2]);
    var p := v[..2];
    assert p[1 := 0x80][1..] == [0x80];
    NoLeadIsMalformed(p[1 := 0x80][1..]);
    AsciiIsValid(p[0 := 0x62]);
  }

  /**
   * The UTF-8 increment only raises single bytes, so it can fail although a larger
   * valid value of the same length exists: 7F 7F cannot be raised at either position
   * (80 never starts a character), yet C2 80 is valid and above it.
   */
  lemma IncrementUtf8MissesLargerValue()
    ensures IncrementedUtf8([0x7F, 0x7F]).None?
    ensures IsValid([0xC2, 0x80]) && LexLt([0x7F, 0x7F], [0xC2, 0x80])
  {
    var s: seq<byte> := [0x7F, 0x7F];
    assert s[1 := 0x80][1..] == [0x80];
    NoLeadIsMalformed(s[1 := 0x80][1..]);
    NoLeadIsMalformed(s[0 := 0x80]);
    IncrementedUtf8Rightmost(s);
  }
}
