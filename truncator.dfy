/**
 * The two truncators of the column index: they shorten binary min/max statistics to
 * at most a given number of bytes while keeping them bounds of the real values
 * (truncated min <= min, truncated max >= max, in unsigned lexicographic order).
 *
 * The shape follows the source: the raw and UTF-8 helpers that change byte arrays in
 * place are methods over arrays, each proved equal to a specification function; the
 * entry points TruncateMin/TruncateMax compose those methods and are proved equal to
 * TruncatedMin/TruncatedMax, about which the bound, shape and idempotence lemmas speak.
 */
module BinaryTruncator {
  import opened Wrappers
  import opened Bytes
  import opened Utf8Validity

  /** The closed set of truncator variants. */
  datatype Truncator = NoOp | DefaultUtf8

  predicate IsValid(s: seq<byte>) {
    CheckValidity(s) == Valid
  }

  // ---------------------------------------------------------------------------
  // Raw increment: carry-propagating +1, rightmost byte first

  /** The next byte sequence of the same length, or None when every byte is 0xFF. */
  function Incremented(s: seq<byte>): Option<seq<byte>>
    decreases |s|
  {
    if |s| == 0 then None
    else
      var last := s[|s| - 1];
      if last < MaxByte then Some(s[..|s| - 1] + [last + 1])
      else match Incremented(s[..|s| - 1])
        case None => None
        case Some(p) => Some(p + [0])
  }

  /** t is s with the rightmost non-0xFF byte (at i) raised by one and every later byte reset to 0. */
  ghost predicate CarriedAt(s: seq<byte>, t: seq<byte>, i: int) {
    && |t| == |s| && 0 <= i < |s|
    && s[i] < MaxByte && t[i] == s[i] + 1
    && t[..i] == s[..i]
    && forall j :: i < j < |s| ==> s[j] == MaxByte && t[j] == 0
  }

  lemma {:induction false} IncrementedAt(s: seq<byte>, i: nat)
    requires i < |s| && s[i] < MaxByte
    requires forall j :: i < j < |s| ==> s[j] == MaxByte
    ensures Incremented(s) == Some(s[..i] + [s[i] + 1] + Zeros(|s| - 1 - i))
    decreases |s|
  {
    var init := s[..|s| - 1];
    if i == |s| - 1 {
      assert s[..i] == init;
      assert s[..i] + [s[i] + 1] + Zeros(|s| - 1 - i) == init + [s[|s| - 1] + 1];
    } else {
      IncrementedAt(init, i);
      assert init[..i] == s[..i] && init[i] == s[i];
      assert Zeros(|s| - 1 - i) == Zeros(|init| - 1 - i) + [0];
      assert s[..i] + [s[i] + 1] + Zeros(|s| - 1 - i)
          == (init[..i] + [init[i] + 1] + Zeros(|init| - 1 - i)) + [0];
    }
  }

  /** The increment fails exactly when every byte is 0xFF. */
  lemma {:induction false} IncrementedNoneIff(s: seq<byte>)
    ensures Incremented(s).None? <==> AllMax(s)
    decreases |s|
  {
    if |s| > 0 {
      var init := s[..|s| - 1];
      IncrementedNoneIff(init);
      if s[|s| - 1] == MaxByte {
        assert AllMax(s) <==> AllMax(init) by {
          if AllMax(init) {
            forall j | 0 <= j < |s| ensures s[j] == MaxByte {
              if j < |s| - 1 { assert s[j] == init[j]; }
            }
          }
        }
      } else {
        assert !AllMax(s) by { assert s[|s| - 1] != MaxByte; }
      }
    }
  }

  /** A successful increment raises the rightmost non-0xFF byte, zeroes the later ones, keeps the earlier ones. */
  lemma {:induction false} IncrementedShape(s: seq<byte>)
    ensures Incremented(s).Some? ==> exists i :: CarriedAt(s, Incremented(s).value, i)
    decreases |s|
  {
    if |s| > 0 {
      var init := s[..|s| - 1];
      if s[|s| - 1] < MaxByte {
        assert CarriedAt(s, Incremented(s).value, |s| - 1);
      } else {
        IncrementedShape(init);
        if Incremented(init).Some? {
          var p := Incremented(init).value;
          var i :| CarriedAt(init, p, i);
          assert (p + [0])[..i] == p[..i];
          assert CarriedAt(s, p + [0], i);
        }
      }
    }
  }

  /** A successful increment has the same length and is strictly greater. */
  lemma IncrementedIsGreater(s: seq<byte>)
    ensures Incremented(s).Some? ==> |Incremented(s).value| == |s| && LexLt(s, Incremented(s).value)
  {
    IncrementedShape(s);
    if Incremented(s).Some? {
      var i :| CarriedAt(s, Incremented(s).value, i);
      LexLtAtDifference(s, Incremented(s).value, i);
    }
  }

  /**
   * increment: adds one to the array in place, from the last byte to the first,
   * carrying over each 0xFF that wraps to 0x00. Returns the same array, or null when
   * every byte wrapped (the array is then all zeros).
   */
  method Increment(a: array<byte>) returns (r: array?<byte>)
    modifies a
    ensures r == null <==> AllMax(old(a[..]))
    ensures r != null ==> r == a && Incremented(old(a[..])) == Some(a[..])
    ensures r == null ==> Incremented(old(a[..])) == None && a[..] == Zeros(a.Length)
  {
    ghost var s := a[..];
    var i := a.Length - 1;
    while i >= 0
      invariant -1 <= i < a.Length
      invariant forall j :: i < j < a.Length ==> s[j] == MaxByte && a[j] == 0
      invariant forall j :: 0 <= j <= i ==> a[j] == s[j]
    {
      var elem := ((a[i] as int + 1) % 256) as byte;
      a[i] := elem;
      if elem != 0 {
        IncrementedAt(s, i);
        assert a[..] == s[..i] + [s[i] + 1] + Zeros(|s| - 1 - i);
        IncrementedNoneIff(s);
        return a;
      }
      i := i - 1;
    }
    IncrementedNoneIff(s);
    assert a[..] == Zeros(a.Length);
    return null;
  }

  // ---------------------------------------------------------------------------
  // Raw truncation

  /** truncate: a new array holding the first `length` bytes of the buffer. */
  method Truncate(buffer: seq<byte>, length: nat) returns (a: array<byte>)
    requires length < |buffer|
    ensures fresh(a) && a[..] == buffer[..length]
  {
    a := new byte[length](j requires 0 <= j < length => buffer[j]);
  }

  // ---------------------------------------------------------------------------
  // UTF-8 aware truncation: shrink the prefix one byte at a time until it decodes

  /** The prefix of s found by shrinking from k bytes down until it is valid; None once it would reach 0. */
  function ShrunkFrom(s: seq<byte>, k: nat): Option<seq<byte>>
    requires k <= |s|
    decreases k
  {
    if IsValid(s[..k]) then Some(s[..k])
    else if k <= 1 then None
    else ShrunkFrom(s, k - 1)
  }

  function TruncatedUtf8(s: seq<byte>, length: nat): Option<seq<byte>>
    requires length < |s|
  {
    ShrunkFrom(s, length)
  }

  /**
   * The shrink yields the longest valid prefix of at most k bytes; it is non-empty
   * unless k is 0, and it fails exactly when no prefix of 1..k bytes is valid.
   */
  lemma {:induction false} ShrunkFromLongest(s: seq<byte>, k: nat)
    requires k <= |s|
    ensures ShrunkFrom(s, k).None? <==> (0 < k && forall m :: 1 <= m <= k ==> !IsValid(s[..m]))
    ensures ShrunkFrom(s, k).Some? ==>
      var p := ShrunkFrom(s, k).value;
      && |p| <= k && p == s[..|p|] && IsValid(p)
      && (0 < k ==> 0 < |p|)
      && forall m :: |p| < m <= k ==> !IsValid(s[..m])
    decreases k
  {
    if !IsValid(s[..k]) {
      assert k != 0 by { assert s[..0] == []; }
      if k > 1 {
        ShrunkFromLongest(s, k - 1);
      }
    }
  }

  /**
   * truncateUtf8: the prefix of at most `length` bytes left after dropping bytes from
   * its end until it decodes; null when it would become empty.
   */
  method TruncateUtf8(buffer: seq<byte>, length: nat) returns (r: array?<byte>)
    requires length < |buffer|
    ensures r == null <==> TruncatedUtf8(buffer, length).None?
    ensures r != null ==> fresh(r) && TruncatedUtf8(buffer, length) == Some(r[..])
  {
    var limit := length;
    while CheckValidity(buffer[..limit]) != Valid
      invariant 0 <= limit <= length
      invariant ShrunkFrom(buffer, limit) == ShrunkFrom(buffer, length)
      decreases limit
    {
      limit := limit - 1;
      if limit == 0 {
        return null;
      }
    }
    r := new byte[limit](j requires 0 <= j < limit => buffer[j]);
    assert r[..] == buffer[..limit];
  }

  // ---------------------------------------------------------------------------
  // UTF-8 aware increment: raise one byte, rightmost position first, until the whole buffer decodes

  /**
   * Tries the values v, v+1, ..., 0xFF at position i of s: the first whose buffer
   * is valid is the answer, an unmappable one moves to the next value, a malformed
   * one (or running past 0xFF) gives up on position i.
   */
  function TryAt(s: seq<byte>, i: nat, v: int): (r: Option<seq<byte>>)
    requires i < |s| && 0 <= v <= 256
    ensures r.Some? ==> |r.value| == |s| && IsValid(r.value)
    ensures r.Some? ==> v <= r.value[i] as int && r.value == s[i := r.value[i]]
    decreases 256 - v
  {
    if v == 256 then None
    else
      var t := s[i := v as byte];
      match CheckValidity(t)
      case Valid => Some(t)
      case Unmappable => TryAt(s, i, v + 1)
      case Malformed => None
  }

  /** One trial of TryAt: the validity of the buffer with v at position i decides the next step. */
  lemma TryAtStep(s: seq<byte>, i: nat, v: int)
    requires i < |s| && 0 <= v < 256
    ensures var c := CheckValidity(s[i := v as byte]);
      && (c == Valid ==> TryAt(s, i, v) == Some(s[i := v as byte]))
      && (c == Malformed ==> TryAt(s, i, v) == None)
      && (c == Unmappable ==> TryAt(s, i, v) == TryAt(s, i, v + 1))
  {
  }

  /** The trials at position i, starting just above its current byte. */
  function TryNext(s: seq<byte>, i: nat): Option<seq<byte>>
    requires i < |s|
  {
    TryAt(s, i, s[i] as int + 1)
  }

  /** Trials at positions k-1, k-2, ..., 0: the first success is the answer. */
  function IncrementedUtf8From(s: seq<byte>, k: nat): Option<seq<byte>>
    requires k <= |s|
    decreases k
  {
    if k == 0 then None
    else
      var r := TryNext(s, k - 1);
      if r.Some? then r else IncrementedUtf8From(s, k - 1)
  }

  function IncrementedUtf8(s: seq<byte>): Option<seq<byte>> {
    IncrementedUtf8From(s, |s|)
  }

  /** t is s with the byte at i, and only that byte, replaced by a larger one. */
  ghost predicate BumpedAt(s: seq<byte>, t: seq<byte>, i: int) {
    && |t| == |s| && 0 <= i < |s|
    && s[i] < t[i]
    && t[..i] == s[..i] && t[i + 1..] == s[i + 1..]
  }

  /** The search result is the trial at the rightmost position that succeeds; it fails when none does. */
  lemma {:induction false} IncrementedUtf8FromRightmost(s: seq<byte>, k: nat)
    requires k <= |s|
    ensures IncrementedUtf8From(s, k).None? <==> forall j :: 0 <= j < k ==> TryNext(s, j).None?
    ensures IncrementedUtf8From(s, k).Some? ==>
      exists i :: 0 <= i < k && IncrementedUtf8From(s, k) == TryNext(s, i)
        && forall j :: i < j < k ==> TryNext(s, j).None?
    decreases k
  {
    if k > 0 {
      IncrementedUtf8FromRightmost(s, k - 1);
      if TryNext(s, k - 1).None? {
        if IncrementedUtf8From(s, k).Some? {
          var i :| 0 <= i < k - 1 && IncrementedUtf8From(s, k - 1) == TryNext(s, i)
            && forall j :: i < j < k - 1 ==> TryNext(s, j).None?;
          assert forall j :: i < j < k ==> TryNext(s, j).None?;
        }
      }
    }
  }

  /**
   * A successful UTF-8 increment is valid, has the same length, differs from its
   * input at exactly one position where it holds a larger byte (so it is strictly
   * greater), and every position to the right of that one failed its trials.
   */
  lemma IncrementedUtf8Shape(s: seq<byte>)
    ensures IncrementedUtf8(s).None? <==> forall j :: 0 <= j < |s| ==> TryNext(s, j).None?
    ensures IncrementedUtf8(s).Some? ==>
      var t := IncrementedUtf8(s).value;
      && IsValid(t) && LexLt(s, t)
      && exists i :: BumpedAt(s, t, i) && forall j :: i < j < |s| ==> TryNext(s, j).None?
  {
    IncrementedUtf8FromRightmost(s, |s|);
    if IncrementedUtf8(s).Some? {
      var t := IncrementedUtf8(s).value;
      var i :| 0 <= i < |s| && IncrementedUtf8(s) == TryNext(s, i)
        && forall j :: i < j < |s| ==> TryNext(s, j).None?;
      assert BumpedAt(s, t, i);
      LexLtAtDifference(s, t, i);
    }
  }

  /** With a UTF-8 decoder the trials at a position reduce to one: its byte plus one, kept if the buffer is then valid. */
  lemma TryNextUtf8(s: seq<byte>, i: nat)
    requires i < |s|
    ensures TryNext(s, i) ==
      if s[i] < MaxByte && IsValid(s[i := s[i] + 1]) then Some(s[i := s[i] + 1]) else None
  {
    if s[i] < MaxByte {
      NeverUnmappable(s[i := s[i] + 1]);
    }
  }

  /** Raising the byte at j by one leaves a valid buffer. */
  ghost predicate BumpsToValid(s: seq<byte>, j: int)
    requires 0 <= j < |s|
  {
    s[j] < MaxByte && IsValid(s[j := s[j] + 1])
  }

  /**
   * For UTF-8 the increment is: raise by one the rightmost byte whose raising leaves
   * the buffer valid; it fails exactly when no byte can be raised that way.
   */
  lemma IncrementedUtf8Rightmost(s: seq<byte>)
    ensures IncrementedUtf8(s).None? <==> forall j :: 0 <= j < |s| ==> !BumpsToValid(s, j)
    ensures IncrementedUtf8(s).Some? ==>
      exists i :: 0 <= i < |s| && BumpsToValid(s, i) && IncrementedUtf8(s).value == s[i := s[i] + 1]
        && forall j :: i < j < |s| ==> !BumpsToValid(s, j)
  {
    IncrementedUtf8FromRightmost(s, |s|);
    forall j | 0 <= j < |s| ensures TryNext(s, j).None? <==> !BumpsToValid(s, j) {
      TryNextUtf8(s, j);
    }
    if IncrementedUtf8(s).Some? {
      var i :| 0 <= i < |s| && IncrementedUtf8(s) == TryNext(s, i)
        && forall j :: i < j < |s| ==> TryNext(s, j).None?;
      TryNextUtf8(s, i);
    }
  }

  /**
   * The inner loop of incrementUtf8 at position i: tries every byte value above the
   * current one, checking the whole buffer after each try, and restores the byte
   * when the position fails.
   */
  method RaiseAt(a: array<byte>, i: nat) returns (found: bool)
    requires i < a.Length
    modifies a
    ensures found <==> TryNext(old(a[..]), i).Some?
    ensures found ==> TryNext(old(a[..]), i) == Some(a[..])
    ensures !found ==> a[..] == old(a[..])
  {
    ghost var s := a[..];
    var prev := a[i];
    var inc := prev as int + 1;
    while inc < 256
      invariant prev as int < inc <= 256
      invariant TryAt(s, i, inc) == TryNext(s, i)
      invariant forall j :: 0 <= j < a.Length && j != i ==> a[j] == s[j]
    {
      a[i] := inc as byte;
      assert a[..] == s[i := inc as byte];
      var validity := CheckValidity(a[..]);
      TryAtStep(s, i, inc);
      if validity == Valid {
        return true;
      } else if validity == Malformed {
        break;
      }
      inc := inc + 1;
    }
    a[i] := prev;
    assert a[..] == s;
    return false;
  }

  /**
   * incrementUtf8: for each position from the last to the first, runs the trials of
   * RaiseAt. Returns the same array on success, null otherwise (the array then holds
   * its original bytes).
   */
  method IncrementUtf8(a: array?<byte>) returns (r: array?<byte>)
    modifies a
    ensures a == null ==> r == null
    ensures a != null ==> (r == null <==> IncrementedUtf8(old(a[..])).None?)
    ensures r != null ==> r == a && IncrementedUtf8(old(a[..])) == Some(a[..])
    ensures a != null && r == null ==> a[..] == old(a[..])
  {
    if a == null {
      return null;
    }
    ghost var s := a[..];
    var i := a.Length - 1;
    while i >= 0
      invariant -1 <= i < a.Length
      invariant a[..] == s
      invariant IncrementedUtf8(s) == IncrementedUtf8From(s, i + 1)
    {
      var found := RaiseAt(a, i);
      if found {
        return a;
      }
      i := i - 1;
    }
    return null;
  }

  // ---------------------------------------------------------------------------
  // Entry points

  /** The value truncateMin returns. */
  function TruncatedMin(t: Truncator, v: seq<byte>, length: nat): seq<byte> {
    match t
    case NoOp => v
    case DefaultUtf8 =>
      if |v| <= length then v
      else if IsValid(v) then
        match TruncatedUtf8(v, length)
        case None => v
        case Some(p) => p
      else v[..length]
  }

  /** The value truncateMax returns. */
  function TruncatedMax(t: Truncator, v: seq<byte>, length: nat): seq<byte> {
    match t
    case NoOp => v
    case DefaultUtf8 =>
      if |v| <= length then v
      else
        var inc :=
          if IsValid(v) then
            match TruncatedUtf8(v, length)
            case None => None
            case Some(p) => IncrementedUtf8(p)
          else Incremented(v[..length]);
        match inc
        case None => v
        case Some(q) => q
  }

  /** truncateMin of either truncator. */
  method TruncateMin(t: Truncator, minValue: seq<byte>, length: nat) returns (r: seq<byte>)
    ensures r == TruncatedMin(t, minValue, length)
    ensures t == NoOp || |minValue| <= length ==> r == minValue
  {
    if t == NoOp || |minValue| <= length {
      return minValue;
    }
    var bytes: array?<byte>;
    if CheckValidity(minValue) == Valid {
      bytes := TruncateUtf8(minValue, length);
    } else {
      bytes := Truncate(minValue, length);
    }
    r := if bytes == null then minValue else bytes[..];
  }

  /** truncateMax of either truncator. */
  method TruncateMax(t: Truncator, maxValue: seq<byte>, length: nat) returns (r: seq<byte>)
    ensures r == TruncatedMax(t, maxValue, length)
    ensures t == NoOp || |maxValue| <= length ==> r == maxValue
  {
    if t == NoOp || |maxValue| <= length {
      return maxValue;
    }
    var bytes: array?<byte>;
    if CheckValidity(maxValue) == Valid {
      var shrunk := TruncateUtf8(maxValue, length);
      bytes := IncrementUtf8(shrunk);
    } else {
      var cut := Truncate(maxValue, length);
      bytes := Increment(cut);
    }
    r := if bytes == null then maxValue else bytes[..];
  }

  // ---------------------------------------------------------------------------
  // Properties of the entry points

  /**
   * truncateMin gives a lower bound: the value itself or one of its prefixes of at
   * most `length` bytes; valid text stays valid text.
   */
  lemma TruncatedMinIsLowerBound(t: Truncator, v: seq<byte>, length: nat)
    ensures var r := TruncatedMin(t, v, length);
      && LexLe(r, v)
      && (r == v || (|r| <= length && r == v[..|r|]))
      && (IsValid(v) ==> IsValid(r))
  {
    var r := TruncatedMin(t, v, length);
    if t == DefaultUtf8 && |v| > length && IsValid(v) {
      ShrunkFromLongest(v, length);
    }
    if r == v {
      PrefixIsLexLe(v, |v|);
      assert v[..|v|] == v;
    } else {
      PrefixIsLexLe(v, |r|);
    }
  }

  /**
   * What the UTF-8 truncator's min is when the value is too long: invalid text is cut
   * to exactly `length` bytes; valid text becomes its longest valid prefix of at most
   * `length` bytes, or stays whole exactly when no prefix of 1..length bytes is valid.
   */
  lemma TruncatedMinShape(v: seq<byte>, length: nat)
    requires |v| > length
    ensures !IsValid(v) ==> TruncatedMin(DefaultUtf8, v, length) == v[..length]
    ensures IsValid(v) ==>
      var r := TruncatedMin(DefaultUtf8, v, length);
      && (r == v <==> (0 < length && forall m :: 1 <= m <= length ==> !IsValid(v[..m])))
      && (r != v ==> |r| <= length && r == v[..|r|] && IsValid(r)
                     && forall m :: |r| < m <= length ==> !IsValid(v[..m]))
  {
    if IsValid(v) {
      ShrunkFromLongest(v, length);
    }
  }

  /**
   * truncateMax gives an upper bound: the value itself or a value of at most `length`
   * bytes strictly greater than it; valid text stays valid text.
   */
  lemma TruncatedMaxIsUpperBound(t: Truncator, v: seq<byte>, length: nat)
    ensures var r := TruncatedMax(t, v, length);
      && LexLe(v, r)
      && (r == v || (|r| <= length && LexLt(v, r)))
      && (t == DefaultUtf8 && IsValid(v) ==> IsValid(r))
  {
    var r := TruncatedMax(t, v, length);
    if t == DefaultUtf8 && |v| > length {
      if IsValid(v) {
        ShrunkFromLongest(v, length);
        if TruncatedUtf8(v, length).Some? {
          var p := TruncatedUtf8(v, length).value;
          IncrementedUtf8Shape(p);
          if IncrementedUtf8(p).Some? {
            var i :| BumpedAt(p, r, i) && forall j :: i < j < |p| ==> TryNext(p, j).None?;
            assert v[..i] == p[..i];
            LexLtAtDifference(v, r, i);
          }
        }
      } else {
        var p := v[..length];
        IncrementedShape(p);
        if Incremented(p).Some? {
          var i :| CarriedAt(p, r, i);
          assert v[..i] == p[..i];
          LexLtAtDifference(v, r, i);
        }
      }
    }
    if r == v {
      PrefixIsLexLe(v, |v|);
      assert v[..|v|] == v;
    }
  }

  /** Truncating a truncated min again changes nothing. */
  lemma TruncatedMinIdempotent(t: Truncator, v: seq<byte>, length: nat)
    ensures TruncatedMin(t, TruncatedMin(t, v, length), length) == TruncatedMin(t, v, length)
  {
    TruncatedMinIsLowerBound(t, v, length);
  }

  /** Truncating a truncated max again changes nothing. */
  lemma TruncatedMaxIdempotent(t: Truncator, v: seq<byte>, length: nat)
    ensures TruncatedMax(t, TruncatedMax(t, v, length), length) == TruncatedMax(t, v, length)
  {
    TruncatedMaxIsUpperBound(t, v, length);
  }

  /**
   * When the first `length` bytes are all 0xFF no shorter upper bound exists and the
   * max is kept whole.
   */
  lemma MaxPrefixKeepsMax(v: seq<byte>, length: nat)
    requires |v| > length && AllMax(v[..length])
    ensures TruncatedMax(DefaultUtf8, v, length) == v
    ensures forall r: seq<byte> :: |r| <= length ==> !LexLe(v, r)
  {
    forall r: seq<byte> | |r| <= length ensures !LexLe(v, r) {
      assert forall j :: 0 <= j < |r| ==> v[j] == v[..length][j];
      AboveMaxRun(v, r);
    }
    if length > 0 {
      assert v[0] == v[..length][0];
      NoLeadIsMalformed(v);
      IncrementedNoneIff(v[..length]);
    }
  }
}
