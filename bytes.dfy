/**
  Bytes and the little-endian integers an ELF32 file stores in them.
 */
module Bytes {

  newtype uint8 = x: int | 0 <= x < 0x100

  const U16_LIMIT: nat := 0x1_0000
  const U32_LIMIT: nat := 0x1_0000_0000

  /** `n` zero bytes. */
  function Zeros(n: nat): (z: seq<uint8>)
    ensures |z| == n
    ensures forall k :: 0 <= k < n ==> z[k] == 0
  {
    seq(n, _ => 0)
  }

  /** The unsigned 16-bit little-endian value stored at `s[off]`, `s[off + 1]`. */
  function LE16(s: seq<uint8>, off: nat): (v: nat)
    requires off + 2 <= |s|
    ensures v < U16_LIMIT
  {
    s[off] as nat + 0x100 * s[off + 1] as nat
  }

  /** The unsigned 32-bit little-endian value stored at `s[off .. off + 4]`. */
  function LE32(s: seq<uint8>, off: nat): (v: nat)
    requires off + 4 <= |s|
    ensures v < U32_LIMIT
  {
    LE16(s, off) + U16_LIMIT * LE16(s, off + 2)
  }

  function EncodeLE16(v: nat): (s: seq<uint8>)
    requires v < U16_LIMIT
    ensures |s| == 2
  {
    [(v % 0x100) as uint8, (v / 0x100) as uint8]
  }

  function EncodeLE32(v: nat): (s: seq<uint8>)
    requires v < U32_LIMIT
    ensures |s| == 4
  {
    EncodeLE16(v % U16_LIMIT) + EncodeLE16(v / U16_LIMIT)
  }

  /** Decoding an encoded 16-bit value gives it back, and encoding a decoded one gives back the bytes. */
  lemma LE16RoundTrip(v: nat, s: seq<uint8>, off: nat)
    requires v < U16_LIMIT && off + 2 <= |s|
    ensures LE16(EncodeLE16(v), 0) == v
    ensures EncodeLE16(LE16(s, off)) == s[off .. off + 2]
  {
  }

  lemma LE32RoundTrip(v: nat, s: seq<uint8>, off: nat)
    requires v < U32_LIMIT && off + 4 <= |s|
    ensures LE32(EncodeLE32(v), 0) == v
    ensures EncodeLE32(LE32(s, off)) == s[off .. off + 4]
  {
    LE16RoundTrip(v % U16_LIMIT, s, off);
    LE16RoundTrip(v / U16_LIMIT, s, off + 2);
    var e := EncodeLE32(v);
    assert LE16(e, 0) == v % U16_LIMIT by { assert e[..2] == EncodeLE16(v % U16_LIMIT); }
    assert LE16(e, 2) == v / U16_LIMIT by { assert e[2..] == EncodeLE16(v / U16_LIMIT); }
  }

  /** A value read from inside a longer sequence only depends on its own bytes. */
  lemma LE32Window(s: seq<uint8>, start: nat, off: nat)
    requires start + off + 4 <= |s|
    ensures LE32(s[start..], off) == LE32(s, start + off)
  {
  }
}
