/** Unsigned fixed-width integers as the C code's `uint8_t`, `uint16_t` and
    `uint32_t`, and their little-endian byte encodings. */
module Bytes {

  type Byte = x: int | 0 <= x < 0x100
  type U16 = x: int | 0 <= x < 0x1_0000
  type U32 = x: int | 0 <= x < 0x1_0000_0000

  /** The value of the two bytes at `at`, least significant first. */
  function Le16(b: seq<Byte>, at: nat): U16
    requires at + 2 <= |b|
  {
    b[at] as int + 0x100 * (b[at + 1] as int)
  }

  /** The value of the four bytes at `at`, least significant first. */
  function Le32(b: seq<Byte>, at: nat): U32
    requires at + 4 <= |b|
  {
    Le16(b, at) as int + 0x1_0000 * (Le16(b, at + 2) as int)
  }

  /** The two-byte little-endian encoding of `v`. */
  function ToLe16(v: U16): (r: seq<Byte>)
    ensures |r| == 2
  {
    [v % 0x100, v / 0x100]
  }

  /** The four-byte little-endian encoding of `v`. */
  function ToLe32(v: U32): (r: seq<Byte>)
    ensures |r| == 4
  {
    ToLe16(v % 0x1_0000) + ToLe16(v / 0x1_0000)
  }

  /** Reduction modulo 2^32, as C's unsigned 32-bit arithmetic does. */
  function Wrap32(x: int): (r: U32)
    ensures 0 <= x < 0x1_0000_0000 ==> r == x
  {
    x % 0x1_0000_0000
  }

  /** Decoding the encoding of a 16-bit value gives the value back. */
  lemma Le16OfToLe16(v: U16)
    ensures Le16(ToLe16(v), 0) == v
  {
  }

  /** Encoding the value decoded at `at` gives back the two bytes there. */
  lemma ToLe16OfLe16(b: seq<Byte>, at: nat)
    requires at + 2 <= |b|
    ensures ToLe16(Le16(b, at)) == b[at..at + 2]
  {
  }

  /** Decoding the encoding of a 32-bit value gives the value back. */
  lemma {:induction false} Le32OfToLe32(v: U32)
    ensures Le32(ToLe32(v), 0) == v
  {
    var e := ToLe32(v);
    Le16OfToLe16(v % 0x1_0000);
    Le16OfToLe16(v / 0x1_0000);
    assert Le16(e, 0) == Le16(ToLe16(v % 0x1_0000), 0);
    assert Le16(e, 2) == Le16(ToLe16(v / 0x1_0000), 0);
  }

  /** Encoding the value decoded at `at` gives back the four bytes there. */
  lemma {:induction false} ToLe32OfLe32(b: seq<Byte>, at: nat)
    requires at + 4 <= |b|
    ensures ToLe32(Le32(b, at)) == b[at..at + 4]
  {
    var lo, hi := Le16(b, at), Le16(b, at + 2);
    var v := Le32(b, at);
    assert v % 0x1_0000 == lo && v / 0x1_0000 == hi;
    ToLe16OfLe16(b, at);
    ToLe16OfLe16(b, at + 2);
    assert b[at..at + 4] == b[at..at + 2] + b[at + 2..at + 4];
  }

  /** A little-endian field read at an offset inside a concatenation reads the
      part that holds it. */
  lemma Le16Within(p: seq<Byte>, q: seq<Byte>, r: seq<Byte>)
    requires |q| == 2
    ensures Le16(p + q + r, |p|) == Le16(q, 0)
  {
    assert (p + q + r)[|p|] == q[0] && (p + q + r)[|p| + 1] == q[1];
  }

  /** As Le16Within, for four-byte fields. */
  lemma Le32Within(p: seq<Byte>, q: seq<Byte>, r: seq<Byte>)
    requires |q| == 4
    ensures Le32(p + q + r, |p|) == Le32(q, 0)
  {
    var s := p + q + r;
    assert s[|p|] == q[0] && s[|p| + 1] == q[1] && s[|p| + 2] == q[2] && s[|p| + 3] == q[3];
  }
}
