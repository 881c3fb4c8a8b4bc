/** Bytes and the little-endian integers of the LoxCC container format. */
module Bytes {

  /** One byte of the container, as the decoder reads it with `ord` or `struct` format `B`. */
  type Byte = x: int | 0 <= x < 256

  /** A byte with every bit set; in a back-reference length chain it means "more follows". */
  const AllOnes: Byte := 0xFF

  /** The high nibble of a byte (`byte >> 4`). */
  function HighNibble(b: Byte): (n: nat)
    ensures n < 16
    ensures n * 16 <= b < n * 16 + 16
  {
    b / 16
  }

  /** The low nibble of a byte (`byte & 0xf`). */
  function LowNibble(b: Byte): (n: nat)
    ensures n < 16
    ensures b == HighNibble(b) * 16 + n
  {
    b % 16
  }

  /** The byte with the given high and low nibbles: the inverse of the nibble split. */
  function Nibbles(hi: nat, lo: nat): (b: Byte)
    requires hi < 16 && lo < 16
    ensures HighNibble(b) == hi && LowNibble(b) == lo
  {
    hi * 16 + lo
  }

  /** The unsigned 16-bit little-endian value of `s[at..at + 2]` (struct format `<H`). */
  function LeU16(s: seq<Byte>, at: nat): (v: nat)
    requires at + 2 <= |s|
    ensures v < 0x1_0000
  {
    s[at] as int + 256 * s[at + 1] as int
  }

  /** The unsigned 32-bit little-endian value of `s[at..at + 4]` (struct format `<L`). */
  function LeU32(s: seq<Byte>, at: nat): (v: nat)
    requires at + 4 <= |s|
    ensures v < 0x1_0000_0000
  {
    LeU16(s, at) + 0x1_0000 * LeU16(s, at + 2)
  }

  /** The two little-endian bytes of a 16-bit value. */
  function EncodeU16(v: nat): (s: seq<Byte>)
    requires v < 0x1_0000
    ensures |s| == 2
  {
    [v % 256, v / 256]
  }

  /** The four little-endian bytes of a 32-bit value. */
  function EncodeU32(v: nat): (s: seq<Byte>)
    requires v < 0x1_0000_0000
    ensures |s| == 4
  {
    EncodeU16(v % 0x1_0000) + EncodeU16(v / 0x1_0000)
  }

  /** Reading back the two bytes of `EncodeU16(v)`, wherever they sit, gives `v`. */
  lemma U16RoundTrip(v: nat, prefix: seq<Byte>, suffix: seq<Byte>)
    requires v < 0x1_0000
    ensures LeU16(prefix + EncodeU16(v) + suffix, |prefix|) == v
  {
    var s := prefix + EncodeU16(v) + suffix;
    assert s[|prefix|] == v % 256 && s[|prefix| + 1] == v / 256;
  }

  /** Reading back the four bytes of `EncodeU32(v)`, wherever they sit, gives `v`. */
  lemma U32RoundTrip(v: nat, prefix: seq<Byte>, suffix: seq<Byte>)
    requires v < 0x1_0000_0000
    ensures LeU32(prefix + EncodeU32(v) + suffix, |prefix|) == v
  {
    var lo, hi := v % 0x1_0000, v / 0x1_0000;
    assert prefix + EncodeU32(v) + suffix == prefix + EncodeU16(lo) + (EncodeU16(hi) + suffix);
    assert prefix + EncodeU32(v) + suffix == (prefix + EncodeU16(lo)) + EncodeU16(hi) + suffix;
    U16RoundTrip(lo, prefix, EncodeU16(hi) + suffix);
    U16RoundTrip(hi, prefix + EncodeU16(lo), suffix);
  }

  /** Every 16-bit value has exactly one two-byte little-endian encoding. */
  lemma U16Injective(s: seq<Byte>, t: seq<Byte>)
    requires |s| == 2 && |t| == 2
    requires LeU16(s, 0) == LeU16(t, 0)
    ensures s == t
  {
    assert s[0] == LeU16(s, 0) % 256 && t[0] == LeU16(t, 0) % 256;
  }
}
