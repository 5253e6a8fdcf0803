/** Byte-level vocabulary shared by the decoder and the encoder: the byte type,
    the little-endian integer layouts the stream reader and writer use, and the
    byte-string operations that stand for the .NET string calls of the codec. */
module Bytes {

  newtype byte = x: int | 0 <= x < 0x100

  type Bytes = seq<byte>

  const NUL: byte := 0
  const SLASH: byte := 0x2F      // '/', the node library's path separator
  const BACKSLASH: byte := 0x5C  // '\'

  const TWO_32: nat := 0x1_0000_0000
  const TWO_63: nat := 0x8000_0000_0000_0000
  const TWO_64: nat := 0x1_0000_0000_0000_0000

  // ---------------------------------------------------------------------------
  // Little-endian integers

  /** The four bytes a `uint` (or an `int`, in two's complement) is written as:
      the value modulo 2^32, least significant byte first. */
  function U32Bytes(n: nat): (r: Bytes)
    ensures |r| == 4
  {
    var n1 := n / 0x100;
    var n2 := n1 / 0x100;
    var n3 := n2 / 0x100;
    [(n % 0x100) as byte, (n1 % 0x100) as byte, (n2 % 0x100) as byte, (n3 % 0x100) as byte]
  }

  /** The `uint` four little-endian bytes read back as. */
  function U32Of(b: Bytes): (r: nat)
    requires |b| == 4
    ensures r < TWO_32
  {
    b[0] as nat + 0x100 * (b[1] as nat + 0x100 * (b[2] as nat + 0x100 * b[3] as nat))
  }

  lemma U32RoundTrip(n: nat)
    requires n < TWO_32
    ensures U32Of(U32Bytes(n)) == n
  {
  }

  /** The eight bytes a `ulong` is written as: the value modulo 2^64, least
      significant byte first. */
  function U64Bytes(n: nat): (r: Bytes)
    ensures |r| == 8
  {
    U32Bytes(n % TWO_32) + U32Bytes(n / TWO_32 % TWO_32)
  }

  function U64Of(b: Bytes): (r: nat)
    requires |b| == 8
    ensures r < TWO_64
  {
    U32Of(b[..4]) + TWO_32 * U32Of(b[4..])
  }

  lemma U64RoundTrip(n: nat)
    requires n < TWO_64
    ensures U64Of(U64Bytes(n)) == n
  {
    var lo, hi := n % TWO_32, n / TWO_32 % TWO_32;
    U32RoundTrip(lo);
    U32RoundTrip(hi);
    assert U64Bytes(n)[..4] == U32Bytes(lo);
    assert U64Bytes(n)[4..] == U32Bytes(hi);
  }

  /** The eight bytes a `long` is written as (two's complement). */
  function I64Bytes(x: int): (r: Bytes)
    ensures |r| == 8
  {
    U64Bytes(x % TWO_64)
  }

  /** The `long` eight little-endian bytes read back as. */
  function I64Of(b: Bytes): (r: int)
    requires |b| == 8
    ensures -(TWO_63 as int) <= r < TWO_63
  {
    var u := U64Of(b);
    if u < TWO_63 then u else u - TWO_64
  }

  /** Every `long` survives being written and read back. */
  lemma I64RoundTrip(x: int)
    requires -(TWO_63 as int) <= x < TWO_63
    ensures I64Of(I64Bytes(x)) == x
  {
    U64RoundTrip(x % TWO_64);
  }

  // ---------------------------------------------------------------------------
  // NUL-terminated strings

  predicate NulFree(s: Bytes) {
    forall i :: 0 <= i < |s| ==> s[i] != NUL
  }

  /** A string as the stream writer emits it: its bytes and a terminating NUL. */
  function CString(s: Bytes): (r: Bytes)
    ensures |r| == |s| + 1 && r[|s|] == NUL
  {
    s + [NUL]
  }

  // ---------------------------------------------------------------------------
  // String operations of the codec, on bytes

  /** `string.Replace(char, char)`: every occurrence of `from` becomes `to`. */
  function ReplaceByte(s: Bytes, from: byte, to: byte): (r: Bytes)
    ensures |r| == |s|
  {
    seq(|s|, i requires 0 <= i < |s| => if s[i] == from then to else s[i])
  }

  /** After the replacement no `from` byte is left. */
  lemma ReplaceByteRemoves(s: Bytes, from: byte, to: byte)
    requires from != to
    ensures from !in ReplaceByte(s, from, to)
  {
    var r := ReplaceByte(s, from, to);
    forall k | 0 <= k < |r|
      ensures r[k] != from
    {
    }
  }

  /** `string.ToLower()`, restricted to ASCII letters. */
  function AsciiLower(s: Bytes): (r: Bytes)
    ensures |r| == |s|
  {
    seq(|s|, i requires 0 <= i < |s| => if 0x41 <= s[i] <= 0x5A then s[i] + 0x20 else s[i])
  }

  /** `string.Replace(pattern, "")`: an ordinal, left-to-right scan that removes
      every non-overlapping occurrence of `pattern`. */
  function RemoveAll(s: Bytes, pattern: Bytes): (r: Bytes)
    requires |pattern| > 0
    ensures |r| <= |s|
    decreases |s|
  {
    if |s| < |pattern| then s
    else if s[..|pattern|] == pattern then RemoveAll(s[|pattern|..], pattern)
    else [s[0]] + RemoveAll(s[1..], pattern)
  }

  predicate OccursAt(pattern: Bytes, s: Bytes, i: int) {
    0 <= i && i + |pattern| <= |s| && s[i..i + |pattern|] == pattern
  }

  /** Whether `pattern` occurs anywhere in `s`. */
  ghost predicate Occurs(pattern: Bytes, s: Bytes) {
    exists i :: OccursAt(pattern, s, i)
  }

  /** Removing a pattern that does not occur leaves the string as it was. */
  lemma {:induction false} RemoveAllAbsent(s: Bytes, pattern: Bytes)
    requires |pattern| > 0 && !Occurs(pattern, s)
    ensures RemoveAll(s, pattern) == s
    decreases |s|
  {
    if |s| >= |pattern| {
      assert !OccursAt(pattern, s, 0);
      assert s[0..|pattern|] == s[..|pattern|];
      if Occurs(pattern, s[1..]) {
        var i :| OccursAt(pattern, s[1..], i);
        assert s[1..][i..i + |pattern|] == s[i + 1..i + 1 + |pattern|];
        assert OccursAt(pattern, s, i + 1);
      }
      RemoveAllAbsent(s[1..], pattern);
    }
  }

  /** Removal keeps only bytes of the input, so it cannot introduce a NUL. */
  lemma {:induction false} RemoveAllNulFree(s: Bytes, pattern: Bytes)
    requires |pattern| > 0 && NulFree(s)
    ensures NulFree(RemoveAll(s, pattern))
    decreases |s|
  {
    if |s| >= |pattern| {
      if s[..|pattern|] == pattern {
        RemoveAllNulFree(s[|pattern|..], pattern);
      } else {
        RemoveAllNulFree(s[1..], pattern);
      }
    }
  }
}
