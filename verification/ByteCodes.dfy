/**
 Bytes, and lengths of four bytes with the lowest byte first.
 */
module ByteCodes {

  type byte = x: int | 0 <= x < 256
  type Bytes = seq<byte>

  const LENGTH_SIZE: nat := 4

  function Zeros(n: nat): (s: Bytes)
    ensures |s| == n
  {
    seq(n, i => 0)
  }

  function ToLittleEndian(n: nat): (s: Bytes)
    requires n < 0x1_0000_0000
    ensures |s| == LENGTH_SIZE
  {
    [n % 0x100, n / 0x100 % 0x100, n / 0x1_0000 % 0x100, n / 0x100_0000]
  }

  function FromLittleEndian(s: Bytes): (n: nat)
    requires |s| == LENGTH_SIZE
    ensures n < 0x1_0000_0000
  {
    s[0] as int + 0x100 * s[1] as int + 0x1_0000 * s[2] as int + 0x100_0000 * s[3] as int
  }

  lemma LittleEndianRoundTrip(n: nat)
    requires n < 0x1_0000_0000
    ensures FromLittleEndian(ToLittleEndian(n)) == n
  {
    assert n == n % 0x100 + 0x100 * (n / 0x100);
    assert n / 0x100 == n / 0x100 % 0x100 + 0x100 * (n / 0x100 / 0x100);
    assert n / 0x100 / 0x100 == n / 0x1_0000;
    assert n / 0x1_0000 == n / 0x1_0000 % 0x100 + 0x100 * (n / 0x100_0000);
  }
}
