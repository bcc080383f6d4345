/** Fixed-width unsigned integers and the shift, mask and byte-order
    arithmetic the splitter performs on them.

    Everything is written over unbounded integers: on an unsigned value
    `v >> n` is `v / Pow2(n)`, `v & (2^n - 1)` is `v % Pow2(n)` and
    `v << n` is `v * Pow2(n)`. Where a C++ `uint32_t` computation can wrap,
    the wrap is written out explicitly with `% U32Modulus`. */
module Bits {

  type u8 = x: int | 0 <= x < 0x100
  type u16 = x: int | 0 <= x < 0x1_0000
  type u32 = x: int | 0 <= x < 0x1_0000_0000

  const U32Modulus: nat := 0x1_0000_0000

  /** A value stored into a `uint32_t`: reduced modulo 2^32. */
  function WrapU32(v: nat): (r: u32)
    ensures v < U32Modulus ==> r == v
    ensures v >= U32Modulus ==> r < v
  {
    v % U32Modulus
  }

  /** 2^n. */
  function Pow2(n: nat): (r: nat)
    ensures r >= 1
  {
    if n == 0 then 1 else 2 * Pow2(n - 1)
  }

  /** 4^n, the divisor of a right shift by 2*n bits. */
  function Pow4(n: nat): (r: nat)
    ensures r >= 1
  {
    if n == 0 then 1 else 4 * Pow4(n - 1)
  }

  /** Division with remainder has exactly one quotient and remainder. */
  lemma DivModUnique(n: int, d: int, q: int, r: int)
    requires d > 0 && 0 <= r < d && n == q * d + r
    ensures n / d == q && n % d == r
  {
    var k := q - n / d;
    assert k * d == n % d - r;
    MulAwayFromZero(k, d);
  }

  lemma Distribute(x: int, y: int, z: int)
    ensures (x + y) * z == x * z + y * z
  {
  }

  lemma MulAssoc(x: int, y: int, z: int)
    ensures x * y * z == x * (z * y)
  {
  }

  lemma MulMonoLeft(x: int, y: int, z: nat)
    requires x <= y
    ensures x * z <= y * z
  {
  }

  lemma MulLe(a: nat, b: nat, c: nat, d: nat)
    requires a <= b && c <= d
    ensures a * c <= b * d
  {
    MulMonoLeft(a, b, c);
  }

  /** Dividing a natural number by a positive one gives a natural number. */
  lemma DivNonneg(n: nat, d: nat)
    requires d > 0
    ensures n / d >= 0
  {
    MulAwayFromZero(n / d, d);
  }

  lemma MulAwayFromZero(k: int, d: int)
    requires d > 0
    ensures k >= 1 ==> k * d >= d
    ensures k <= -1 ==> k * d <= -d
  {
  }

  /** Shifting right by a then by b is shifting right by a + b. */
  lemma DivDiv(v: nat, a: nat, b: nat)
    requires a > 0 && b > 0
    ensures v / a / b == v / (a * b)
  {
    var q, r := v / a, v % a;
    var q2, r2 := q / b, q % b;
    assert v == q * a + r;
    assert q == q2 * b + r2;
    assert q * a == q2 * (a * b) + r2 * a by {
      Distribute(q2 * b, r2, a);
      MulAssoc(q2, b, a);
    }
    assert r2 * a + r < a * b by {
      MulMonoLeft(r2, b - 1, a);
      Distribute(b - 1, 1, a);
    }
    DivModUnique(v, a * b, q2, r2 * a + r);
  }

  /** `v >> n`: n successive one-bit shifts. */
  function Shr(v: nat, n: nat): nat
  {
    if n == 0 then v else Shr(v, n - 1) / 2
  }

  /** Shifting by n + 1 bits is shifting the halved value by n. */
  lemma {:induction false} ShrFirst(v: nat, n: nat)
    ensures Shr(v, n + 1) == Shr(v / 2, n)
  {
    if n > 0 {
      ShrFirst(v, n - 1);
    }
  }

  /** A right shift never increases a value. */
  lemma {:induction false} ShrLe(v: nat, n: nat)
    ensures Shr(v, n) <= v
  {
    if n > 0 {
      ShrLe(v, n - 1);
    }
  }

  /** Shifting out every set bit leaves 0. */
  lemma {:induction false} ShrSmall(v: nat, n: nat)
    requires v < Pow2(n)
    ensures Shr(v, n) == 0
  {
    if n > 0 {
      ShrFirst(v, n - 1);
      ShrSmall(v / 2, n - 1);
    }
  }

  /** `v >> (2 * t)`: t successive two-bit shifts, the way the texel loop
      moves from one 2-bit code to the next. */
  function ShrCodes(v: nat, t: nat): nat
  {
    if t == 0 then v else ShrCodes(v, t - 1) / 4
  }

  /** Shifting past t + 1 codes is shifting the value without its lowest
      code past t codes. */
  lemma {:induction false} ShrCodesFirst(v: nat, t: nat)
    ensures ShrCodes(v, t + 1) == ShrCodes(v / 4, t)
  {
    if t > 0 {
      ShrCodesFirst(v, t - 1);
    }
  }

  lemma {:induction false} ShrCodesZero(t: nat)
    ensures ShrCodes(0, t) == 0
  {
    if t > 0 {
      ShrCodesZero(t - 1);
    }
  }

  /** Little-endian 16-bit read, as a `memcpy` into a `uint16_t` on a
      little-endian host. */
  function U16At(s: seq<u8>, at: nat): u16
    requires at + 2 <= |s|
  {
    s[at] as int + 0x100 * s[at + 1] as int
  }

  /** Little-endian 32-bit read. */
  function U32At(s: seq<u8>, at: nat): u32
    requires at + 4 <= |s|
  {
    s[at] as int + 0x100 * s[at + 1] as int + 0x1_0000 * s[at + 2] as int + 0x100_0000 * s[at + 3] as int
  }

  /** The two bytes a `uint16_t` occupies in memory, low byte first. */
  function U16Bytes(v: u16): (s: seq<u8>)
    ensures |s| == 2
  {
    [v % 0x100, v / 0x100]
  }

  /** The four bytes a `uint32_t` occupies in memory, low byte first. */
  function U32Bytes(v: u32): (s: seq<u8>)
    ensures |s| == 4
  {
    [v % 0x100, v / 0x100 % 0x100, v / 0x1_0000 % 0x100, v / 0x100_0000]
  }

  lemma U16RoundTrip(v: u16)
    ensures U16At(U16Bytes(v), 0) == v
  {
  }

  lemma U16BytesOfRead(s: seq<u8>, at: nat)
    requires at + 2 <= |s|
    ensures U16Bytes(U16At(s, at)) == s[at..at + 2]
  {
    var v := U16At(s, at);
    DivModUnique(v, 0x100, s[at + 1], s[at]);
  }

  lemma U32RoundTrip(v: u32)
    ensures U32At(U32Bytes(v), 0) == v
  {
    var q1 := v / 0x100;
    var q2 := q1 / 0x100;
    DivDiv(v, 0x100, 0x100);
    DivDiv(v, 0x1_0000, 0x100);
    assert q2 == v / 0x1_0000;
    assert q2 / 0x100 == v / 0x100_0000;
    assert v == v % 0x100 + 0x100 * q1;
    assert q1 == q1 % 0x100 + 0x100 * q2;
    assert q2 == q2 % 0x100 + 0x100 * (q2 / 0x100);
  }

  lemma U32BytesOfRead(s: seq<u8>, at: nat)
    requires at + 4 <= |s|
    ensures U32Bytes(U32At(s, at)) == s[at..at + 4]
  {
    var v := U32At(s, at);
    var hi2: int := s[at + 2] as int + 0x100 * s[at + 3] as int;
    var hi1: int := s[at + 1] as int + 0x100 * hi2;
    assert v == hi1 * 0x100 + s[at] as int;
    DivModUnique(v, 0x100, hi1, s[at]);
    DivModUnique(hi1, 0x100, hi2, s[at + 1]);
    DivModUnique(hi2, 0x100, s[at + 3], s[at + 2]);
    DivDiv(v, 0x100, 0x100);
    DivDiv(v, 0x1_0000, 0x100);
    assert v / 0x1_0000 == hi2;
    assert v / 0x100_0000 == s[at + 3];
  }
}
