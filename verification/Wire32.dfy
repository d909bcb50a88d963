/** 32-bit lengths on the wire, in either byte order. */
module Wire32 {
  import opened Bytes

  const LIMIT: nat := 0x1_0000_0000

  function Little(n: nat): (s: bytes)
    requires n < LIMIT
    ensures |s| == 4
  {
    [n % 256, n / 256 % 256, n / 256 / 256 % 256, n / 256 / 256 / 256]
  }

  function FromLittle(s: bytes): (n: nat)
    requires |s| == 4
    ensures n < LIMIT
  {
    s[0] as int + 256 * (s[1] as int + 256 * (s[2] as int + 256 * s[3] as int))
  }

  function Big(n: nat): (s: bytes)
    requires n < LIMIT
    ensures |s| == 4
  {
    var l := Little(n);
    [l[3], l[2], l[1], l[0]]
  }

  function FromBig(s: bytes): (n: nat)
    requires |s| == 4
    ensures n < LIMIT
  {
    FromLittle([s[3], s[2], s[1], s[0]])
  }

  lemma LittleBack(n: nat)
    requires n < LIMIT
    ensures FromLittle(Little(n)) == n
  {
  }

  lemma BigBack(n: nat)
    requires n < LIMIT
    ensures FromBig(Big(n)) == n
  {
  }

  /** Network order has the most significant byte first; little-endian order is the reverse. */
  lemma BytesOnTheWire(n: nat)
    requires n < LIMIT
    ensures Big(n) == [n / 0x100_0000, n / 0x1_0000 % 256, n / 0x100 % 256, n % 256]
    ensures Little(n) == [n % 256, n / 0x100 % 256, n / 0x1_0000 % 256, n / 0x100_0000]
  {
  }

  lemma NumberOnTheWire(s: bytes)
    requires |s| == 4
    ensures FromBig(s) == 0x100_0000 * s[0] as int + 0x1_0000 * s[1] as int + 0x100 * s[2] as int + s[3] as int
    ensures FromLittle(s) == s[0] as int + 0x100 * s[1] as int + 0x1_0000 * s[2] as int + 0x100_0000 * s[3] as int
  {
  }
}
