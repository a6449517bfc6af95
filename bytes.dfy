/**
 * Unsigned bytes and the unsigned lexicographic order on byte sequences that the
 * column index uses to compare binary min/max values.
 */
module Bytes {

  /** An unsigned byte; the source's signed Java bytes are read as 0..255. */
  newtype byte = x: int | 0 <= x < 256

  const MaxByte: byte := 0xFF

  /** Every byte is 0xFF: no sequence of this length is larger. */
  ghost predicate AllMax(s: seq<byte>) {
    forall j :: 0 <= j < |s| ==> s[j] == MaxByte
  }

  function Zeros(n: nat): (z: seq<byte>)
    ensures |z| == n && forall j :: 0 <= j < n ==> z[j] == 0
  {
    seq(n, _ => 0)
  }

  /** a <= b in unsigned lexicographic order: bytes compare as 0..255, a proper prefix is smaller. */
  predicate LexLe(a: seq<byte>, b: seq<byte>)
    decreases |a|
  {
    |a| == 0 || (|b| > 0 && (a[0] < b[0] || (a[0] == b[0] && LexLe(a[1..], b[1..]))))
  }

  predicate LexLt(a: seq<byte>, b: seq<byte>) {
    LexLe(a, b) && a != b
  }

  /** Any prefix of a sequence is below it. */
  lemma {:induction false} PrefixIsLexLe(s: seq<byte>, k: nat)
    requires k <= |s|
    ensures LexLe(s[..k], s)
    decreases k
  {
    if k > 0 {
      assert s[..k][1..] == s[1..][..k - 1];
      PrefixIsLexLe(s[1..], k - 1);
    }
  }

  /** Two sequences that agree up to i and differ upward at i are strictly ordered. */
  lemma {:induction false} LexLtAtDifference(a: seq<byte>, b: seq<byte>, i: nat)
    requires i < |a| && i < |b|
    requires a[..i] == b[..i] && a[i] < b[i]
    ensures LexLt(a, b)
    decreases i
  {
    if i > 0 {
      assert a[0] == a[..i][0] == b[..i][0] == b[0];
      assert a[1..][..i - 1] == a[..i][1..] == b[..i][1..] == b[1..][..i - 1];
      LexLtAtDifference(a[1..], b[1..], i - 1);
    }
    assert a != b by { assert a[i] != b[i]; }
  }

  /** A sequence that opens with more 0xFF bytes than r is long is above r. */
  lemma {:induction false} AboveMaxRun(v: seq<byte>, r: seq<byte>)
    requires |r| < |v| && forall j :: 0 <= j < |r| ==> v[j] == MaxByte
    ensures !LexLe(v, r)
    decreases |r|
  {
    if |r| > 0 {
      AboveMaxRun(v[1..], r[1..]);
    }
  }
}
