/** Bytes and little-endian 32-bit words. */
module Bytes {
  import opened Base

  type Byte = b: int | 0 <= b < 256

  function Le32(n: nat): (b: seq<Byte>)
    requires n < WORD
    ensures |b| == 4
  {
    [n % 256, n / 256 % 256, n / 65536 % 256, n / 16777216]
  }

  function FromLe32(b: seq<Byte>): (n: nat)
    requires |b| == 4
    ensures n < WORD
  {
    b[0] as int + 256 * (b[1] as int) + 65536 * (b[2] as int) + 16777216 * (b[3] as int)
  }

  lemma Le32RoundTrip(n: nat)
    requires n < WORD
    ensures FromLe32(Le32(n)) == n
  {
    assert n / 65536 == n / 256 / 256 && n / 16777216 == n / 256 / 256 / 256;
  }

  function FromLe16(b: seq<Byte>): (n: nat)
    requires |b| == 2
    ensures n < 65536
  {
    b[0] as int + 256 * (b[1] as int)
  }
}
