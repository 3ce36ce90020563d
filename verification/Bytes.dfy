/** Bytes, and words of four of them in little endian order. */
module Bytes {

  type byte = b: nat | b < 256

  type bytes = seq<byte>

  const U32: nat := 0x1_0000_0000

  type u32 = n: nat | n < U32

  function LE32(n: u32): (r: bytes)
    ensures |r| == 4
  {
    [n % 256, n / 256 % 256, n / 65536 % 256, n / 16777216]
  }

  function Word(b: bytes): (n: u32)
    requires |b| >= 4
  {
    var b0: int, b1: int, b2: int, b3: int := b[0], b[1], b[2], b[3];
    b0 + 256 * b1 + 65536 * b2 + 16777216 * b3
  }

  lemma WordRoundTrip(n: u32, rest: bytes)
    ensures Word(LE32(n) + rest) == n && (LE32(n) + rest)[4..] == rest
  {
    assert n == n % 256 + 256 * (n / 256 % 256) + 65536 * (n / 65536 % 256) + 16777216 * (n / 16777216);
  }

  lemma SameDigit(a: int, m: int, b: int, n: int)
    requires 0 <= a < 256 && 0 <= b < 256 && a + 256 * m == b + 256 * n
    ensures a == b && m == n
  {
  }

  lemma WordIsInjective(s: bytes, t: bytes)
    requires |s| >= 4 && |t| >= 4 && Word(s) == Word(t)
    ensures s[0] == t[0] && s[1] == t[1] && s[2] == t[2] && s[3] == t[3]
  {
    var s0: int, s1: int, s2: int, s3: int := s[0], s[1], s[2], s[3];
    var t0: int, t1: int, t2: int, t3: int := t[0], t[1], t[2], t[3];
    SameDigit(s0, s1 + 256 * s2 + 65536 * s3, t0, t1 + 256 * t2 + 65536 * t3);
    SameDigit(s1, s2 + 256 * s3, t1, t2 + 256 * t3);
    SameDigit(s2, s3, t2, t3);
  }

  /** The least significant byte comes first. */
  lemma LittleEndian(a: byte, b: byte, c: byte, d: byte)
    ensures a + 256 * b + 65536 * c + 16777216 * d < U32
    ensures LE32(a + 256 * b + 65536 * c + 16777216 * d) == [a, b, c, d]
  {
    hide LE32;
    var n := a + 256 * b + 65536 * c + 16777216 * d;
    assert Word([a, b, c, d]) == n;
    WordRoundTrip(n, []);
    assert LE32(n) + [] == LE32(n);
    WordIsInjective(LE32(n), [a, b, c, d]);
  }
}
