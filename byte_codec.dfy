/**
 * Bytes and the little-endian WORD (16-bit) and DWORD (32-bit) fields of the
 * icon container, decoded and encoded explicitly instead of by a struct overlay.
 */
module ByteCodec {

  type byte = x: int | 0 <= x < 0x100
  type u16 = x: int | 0 <= x < 0x1_0000
  type u32 = x: int | 0 <= x < 0x1_0000_0000

  /** 2^32: unsigned 32-bit (DWORD, ULONG) arithmetic wraps modulo this. */
  const U32Modulus: int := 0x1_0000_0000

  /** An unbounded integer reduced to an unsigned 32-bit value, as a DWORD assignment does. */
  function WrapU32(x: int): (r: u32)
    ensures 0 <= x < U32Modulus ==> r == x
  {
    x % U32Modulus
  }

  /** Adding into a DWORD accumulator step by step wraps like one addition of the exact total. */
  lemma WrapAdd(a: int, b: int)
    ensures WrapU32(WrapU32(a) + b) == WrapU32(a + b)
  {
    var q := a / U32Modulus;
    assert a == q * U32Modulus + WrapU32(a);
    assert WrapU32(a) + b == (a + b) - q * U32Modulus;
  }

  function EncodeU16(v: u16): (r: seq<byte>)
    ensures |r| == 2
    ensures r[0] as int + 0x100 * r[1] as int == v
  {
    [v % 0x100, v / 0x100]
  }

  function DecodeU16(b: seq<byte>): (v: u16)
    requires |b| == 2
  {
    b[0] as int + 0x100 * b[1] as int
  }

  /** Low WORD first, then high WORD. */
  function EncodeU32(v: u32): (r: seq<byte>)
    ensures |r| == 4
    ensures r[0] as int + 0x100 * r[1] as int + 0x1_0000 * r[2] as int + 0x100_0000 * r[3] as int == v
  {
    var lo := EncodeU16(v % 0x1_0000);
    var hi := EncodeU16(v / 0x1_0000);
    assert v == v % 0x1_0000 + 0x1_0000 * (v / 0x1_0000);
    lo + hi
  }

  function DecodeU32(b: seq<byte>): (v: u32)
    requires |b| == 4
  {
    b[0] as int + 0x100 * b[1] as int + 0x1_0000 * b[2] as int + 0x100_0000 * b[3] as int
  }

  lemma U16RoundTrip(v: u16)
    ensures DecodeU16(EncodeU16(v)) == v
  {
  }

  lemma U16BytesRoundTrip(b: seq<byte>)
    requires |b| == 2
    ensures EncodeU16(DecodeU16(b)) == b
  {
  }

  lemma U32RoundTrip(v: u32)
    ensures DecodeU32(EncodeU32(v)) == v
  {
  }

  lemma U32BytesRoundTrip(b: seq<byte>)
    requires |b| == 4
    ensures EncodeU32(DecodeU32(b)) == b
  {
    var v := DecodeU32(b);
    assert v % 0x1_0000 == DecodeU16(b[..2]);
    assert v / 0x1_0000 == DecodeU16(b[2..]);
    U16BytesRoundTrip(b[..2]);
    U16BytesRoundTrip(b[2..]);
    assert b == b[..2] + b[2..];
  }
}
