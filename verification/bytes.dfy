/**
 * Bytes and the unsigned 32-bit big-endian integers of the output header
 * (the ">I" format of Python's struct module).
 */
module Bytes {

  newtype byte = x: int | 0 <= x < 256

  /** 2^32: the first value an unsigned 32-bit field cannot hold. */
  const U32_LIMIT: int := 0x1_0000_0000

  predicate FitsU32(n: int) {
    0 <= n < U32_LIMIT
  }

  /** Reads four bytes as an unsigned big-endian integer, most significant byte first. */
  function DecodeU32BE(b: seq<byte>): (n: int)
    requires |b| == 4
    ensures FitsU32(n)
  {
    ((b[0] as int * 256 + b[1] as int) * 256 + b[2] as int) * 256 + b[3] as int
  }

  /** Writes `n` as four bytes, most significant byte first. */
  function EncodeU32BE(n: int): (r: seq<byte>)
    requires FitsU32(n)
    ensures |r| == 4
    ensures DecodeU32BE(r) == n
  {
    var n1 := n / 256;
    var n2 := n1 / 256;
    assert n == n1 * 256 + n % 256;
    assert n1 == n2 * 256 + n1 % 256;
    assert n2 == (n2 / 256) * 256 + n2 % 256;
    [(n2 / 256) as byte, (n2 % 256) as byte, (n1 % 256) as byte, (n % 256) as byte]
  }

  /** Every four-byte sequence is the encoding of the integer it decodes to. */
  lemma EncodeDecodeU32(b: seq<byte>)
    requires |b| == 4
    ensures EncodeU32BE(DecodeU32BE(b)) == b
  {
    var n := DecodeU32BE(b);
    var r := EncodeU32BE(n);
    assert r[0] == b[0];
    assert r[1] == b[1];
    assert r[2] == b[2];
    assert r[3] == b[3];
  }
}
