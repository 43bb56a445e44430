/**
 * Packed ARGB pixels, the channel arithmetic of the filter, and the
 * integer conversions it relies on.
 *
 * A pixel is the unsigned reading of a 32-bit Java `int` laid out as
 * A<<24 | R<<16 | G<<8 | B.  For such a value, `(p >> k) & 0xff` (an
 * arithmetic shift followed by a mask) is `(p / 2^k) % 256` on the
 * unsigned reading, and the bitwise or of byte-sized fields shifted into
 * disjoint positions is their sum.
 */
module Pixels {

  /** The unsigned view of a 32-bit word. */
  type u32 = x: int | 0 <= x < 0x1_0000_0000

  /** One 8-bit channel value. */
  type byte = x: int | 0 <= x < 256

  /** The four channels of a packed pixel. */
  datatype Chan = A | R | G | B

  /** `(p >> shift) & 0xff` for the channel's shift (24, 16, 8 or 0). */
  function Ch(p: u32, c: Chan): (v: byte)
  {
    match c
    case A => p / 0x100_0000
    case R => (p / 0x1_0000) % 0x100
    case G => (p / 0x100) % 0x100
    case B => p % 0x100
  }

  /** `(a << 24) | (r << 16) | (g << 8) | b` for channel values in [0,255]. */
  function Pack(a: byte, r: byte, g: byte, b: byte): (p: u32)
    ensures Ch(p, A) == a && Ch(p, R) == r && Ch(p, G) == g && Ch(p, B) == b
  {
    PackUnpack(a, r, g, b);
    a * 0x100_0000 + r * 0x1_0000 + g * 0x100 + b
  }

  /** Unpacking a packed pixel recovers each of its four channels. */
  lemma PackUnpack(a: byte, r: byte, g: byte, b: byte)
    ensures var p := a * 0x100_0000 + r * 0x1_0000 + g * 0x100 + b;
      0 <= p < 0x1_0000_0000 &&
      p / 0x100_0000 == a && (p / 0x1_0000) % 0x100 == r &&
      (p / 0x100) % 0x100 == g && p % 0x100 == b
  {
    var p := a * 0x100_0000 + r * 0x1_0000 + g * 0x100 + b;
    var lo := g * 0x100 + b;
    assert lo < 0x1_0000;
    DivModUnique(p, 0x1_0000, a * 0x100 + r, lo);
    DivModUnique(a * 0x100 + r, 0x100, a, r);
    DivModUnique(p, 0x100, a * 0x1_0000 + r * 0x100 + g, b);
    DivModUnique(a * 0x1_0000 + r * 0x100 + g, 0x100, a * 0x100 + r, g);
    DivModUnique(p, 0x100_0000, a, r * 0x1_0000 + lo);
  }

  /** The quotient and remainder of a division by a positive divisor are determined by the divisor equation. */
  lemma DivModUnique(n: int, d: int, q: int, r: int)
    requires d > 0 && 0 <= r < d && n == q * d + r
    ensures n / d == q && n % d == r
  {
    var q', r' := n / d, n % d;
    assert n == q' * d + r';
    if q' > q {
      MulAtLeast(q' - q, d);
    } else if q' < q {
      MulAtLeast(q - q', d);
    }
  }

  lemma MulAtLeast(k: int, d: int)
    requires k >= 1 && d > 0
    ensures k * d >= d
  {
  }

  /** Packing a pixel's own four channels gives the pixel back. */
  lemma {:induction false} UnpackPack(p: u32)
    ensures Pack(Ch(p, A), Ch(p, R), Ch(p, G), Ch(p, B)) == p
  {
    var hi := p / 0x100;
    assert p == hi * 0x100 + p % 0x100;
    var hi2 := hi / 0x100;
    assert hi == hi2 * 0x100 + hi % 0x100;
    var hi3 := hi2 / 0x100;
    assert hi2 == hi3 * 0x100 + hi2 % 0x100;
    DivModUnique(p, 0x1_0000, hi2, (hi % 0x100) * 0x100 + p % 0x100);
    DivModUnique(p, 0x100_0000, hi3, (hi2 % 0x100) * 0x1_0000 + (hi % 0x100) * 0x100 + p % 0x100);
  }

  /** The distance between two integers. */
  function Dist(a: int, b: int): nat
  {
    if a <= b then b - a else a - b
  }

  /** `PixelUtils.clamp`: the byte nearest to c. */
  function Clamp(c: int): (v: byte)
    ensures forall w: byte :: Dist(v, c) <= Dist(w, c)
  {
    if c < 0 then 0 else if c > 255 then 255 else c
  }

  /** Clamping keeps the order of its arguments. */
  lemma ClampMonotone(c: int, d: int)
    requires c <= d
    ensures Clamp(c) <= Clamp(d)
  {
  }

  /** Java's `(int)` cast of a (finite) float: truncation toward zero. */
  function Trunc(x: real): (n: int)
    ensures x >= 0.0 ==> n as real <= x < n as real + 1.0
    ensures x < 0.0 ==> n as real - 1.0 < x <= n as real
  {
    if x >= 0.0 then x.Floor else -((-x).Floor)
  }

  /** Java's `(int)(x + 0.5)`, the rounding used for convolution sums. */
  function Round(x: real): (n: int)
    ensures x >= -0.5 ==> n as real <= x + 0.5 < n as real + 1.0
    ensures x < -0.5 ==> n <= 0
  {
    Trunc(x + 0.5)
  }

  lemma TruncOfInt(n: int)
    ensures Trunc(n as real) == n
  {
  }

  lemma RoundOfInt(n: int)
    ensures n >= 0 ==> Round(n as real) == n
  {
    if n >= 0 {
      assert (n as real + 0.5).Floor == n;
    }
  }
}
