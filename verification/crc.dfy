/** The checksum of the format: the reflected CRC-32 of IEEE 802.3
    (polynomial 0xEDB88320, initial value and final mask 0xFFFFFFFF), and the
    byte-reversal wrapper through which the codec reads a hash as a `uint`. */
module Crc {
  import opened Bytes

  const POLYNOMIAL: bv32 := 0xEDB8_8320

  /** `k` bit steps of the reflected shift register. */
  function Shift(c: bv32, k: nat): bv32
    decreases k
  {
    if k == 0 then c
    else Shift(if c & 1 == 1 then (c >> 1) ^ POLYNOMIAL else c >> 1, k - 1)
  }

  /** The register after feeding the bytes of `s`, first byte first. */
  function Update(c: bv32, s: Bytes): bv32
    decreases |s|
  {
    if s == [] then c else Update(Shift(c ^ (s[0] as bv32), 8), s[1..])
  }

  function Crc32(s: Bytes): (r: nat)
    ensures r < TWO_32
  {
    (Update(0xFFFF_FFFF, s) ^ 0xFFFF_FFFF) as nat
  }

  /** The four bytes a hash algorithm's `ComputeHash` returns for `s`: the
      checksum, most significant byte first. */
  function HashBytes(s: Bytes): (r: Bytes)
    ensures |r| == 4
  {
    BigEndian(Crc32(s), 4)
  }

  /** The low `k` bytes of `n`, most significant first. */
  function BigEndian(n: nat, k: nat): (r: Bytes)
    ensures |r| == k
  {
    if k == 0 then [] else BigEndian(n / 0x100, k - 1) + [(n % 0x100) as byte]
  }

  /** `Array.Reverse`. */
  function Reverse(b: Bytes): (r: Bytes)
    ensures |r| == |b|
  {
    seq(|b|, i requires 0 <= i < |b| => b[|b| - 1 - i])
  }

  /** The checksum as the codec obtains it: the hash bytes reversed, then read
      by `BitConverter.ToUInt32` on a little-endian host. The reversal undoes
      the most-significant-first order of the hash bytes, so this is the
      CRC-32 itself. */
  function ReversedCrc(s: Bytes): (r: nat)
    ensures r == Crc32(s)
  {
    HashReversed(s);
    U32Of(Reverse(HashBytes(s)))
  }

  /** The value compared and written by the codec is the CRC-32, and it is
      written as the little-endian bytes of that CRC-32, which are the hash
      bytes reversed. */
  lemma ReversedCrcIsCrc(s: Bytes)
    ensures ReversedCrc(s) == Crc32(s)
    ensures U32Bytes(ReversedCrc(s)) == Reverse(HashBytes(s))
  {
    HashReversed(s);
  }

  /** The reversed hash bytes are the little-endian bytes of the CRC-32. */
  lemma HashReversed(s: Bytes)
    ensures Reverse(HashBytes(s)) == U32Bytes(Crc32(s))
    ensures U32Of(Reverse(HashBytes(s))) == Crc32(s)
  {
    var n := Crc32(s);
    var n1 := n / 0x100;
    var n2 := n1 / 0x100;
    var n3 := n2 / 0x100;
    assert BigEndian(n3, 1) == [(n3 % 0x100) as byte];
    assert BigEndian(n2, 2) == [(n3 % 0x100) as byte, (n2 % 0x100) as byte];
    assert BigEndian(n1, 3) == [(n3 % 0x100) as byte, (n2 % 0x100) as byte, (n1 % 0x100) as byte];
    assert HashBytes(s) == [(n3 % 0x100) as byte, (n2 % 0x100) as byte, (n1 % 0x100) as byte, (n % 0x100) as byte];
    assert Reverse(HashBytes(s)) == U32Bytes(n);
    U32RoundTrip(Crc32(s));
  }
}
