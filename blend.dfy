/**
 * The per-pixel rule of `UnsharpFilterThread.run`: each colour channel of
 * the original is pushed away from the blurred value when the two differ
 * by at least the threshold, and kept otherwise; alpha is the original's.
 */
module Blend {
  import opened Pixels

  function Abs(n: int): int { if n < 0 then -n else n }

  /** `(int)((a+1) * (orig-blurred) + blurred)`: the original pushed away
      from the blurred value by the factor a+1, truncated toward zero. */
  function Extrapolate(a: real, orig: int, blurred: int): int
  {
    Trunc((a + 1.0) * (orig - blurred) as real + blurred as real)
  }

  /** One colour channel: `orig` is the original value, `blurred` the blurred one. */
  function BlendChannel(orig: byte, blurred: byte, a: real, threshold: int): byte
  {
    if Abs(orig - blurred) >= threshold then
      Clamp(Extrapolate(a, orig, blurred))
    else
      orig
  }

  /** The sharpened pixel: alpha bits of the original, the three colour
      channels blended. */
  function BlendPixel(orig: u32, blurred: u32, a: real, threshold: int): (p: u32)
  {
    Pack(Ch(orig, A),
         BlendChannel(Ch(orig, R), Ch(blurred, R), a, threshold),
         BlendChannel(Ch(orig, G), Ch(blurred, G), a, threshold),
         BlendChannel(Ch(orig, B), Ch(blurred, B), a, threshold))
  }

  /** The output alpha byte is always the original pixel's; a colour channel
      whose difference is under the threshold keeps its original value, and
      any other colour channel is the clamped extrapolation. */
  lemma BlendPixelChannels(orig: u32, blurred: u32, a: real, threshold: int)
    ensures var p := BlendPixel(orig, blurred, a, threshold);
      Ch(p, A) == Ch(orig, A) &&
      forall c :: c != A ==>
        (Abs(Ch(orig, c) - Ch(blurred, c)) < threshold ==> Ch(p, c) == Ch(orig, c)) &&
        (Abs(Ch(orig, c) - Ch(blurred, c)) >= threshold ==> Ch(p, c) == Clamp(Extrapolate(a, Ch(orig, c), Ch(blurred, c))))
  {
  }

  /** For a non-negative amount, sharpening moves a channel away from its
      blurred value, never towards it: a channel above the blur does not
      drop, one below it does not rise. */
  lemma SharpenMovesAway(orig: byte, blurred: byte, a: real, threshold: int)
    requires a >= 0.0
    ensures orig >= blurred ==> BlendChannel(orig, blurred, a, threshold) >= orig
    ensures orig <= blurred ==> BlendChannel(orig, blurred, a, threshold) <= orig
  {
    ExtrapolateSplit(a, orig, blurred);
    var x := (a + 1.0) * (orig - blurred) as real + blurred as real;
    if orig >= blurred {
      ScaledSign(a, orig - blurred);
      ClampMonotone(orig, Trunc(x));
    } else {
      ScaledSign(a, orig - blurred);
      ClampMonotone(Trunc(x), orig);
    }
  }

  /** `(a+1)*(orig-blurred) + blurred` is the original plus `a` times the difference. */
  lemma ExtrapolateSplit(a: real, orig: int, blurred: int)
    ensures (a + 1.0) * (orig - blurred) as real + blurred as real == a * (orig - blurred) as real + orig as real
  {
  }

  /** A non-negative factor keeps the sign of a difference. */
  lemma ScaledSign(a: real, d: int)
    requires a >= 0.0
    ensures d >= 0 ==> a * d as real >= 0.0
    ensures d <= 0 ==> a * d as real <= 0.0
  {
  }

  /** A channel is unchanged when the blurred value equals the original,
      whatever the threshold and amount. */
  lemma BlendChannelSelf(v: byte, a: real, threshold: int)
    ensures BlendChannel(v, v, a, threshold) == v
  {
    assert (a + 1.0) * (v - v) as real + v as real == v as real;
    TruncOfInt(v);
  }

  /** With amount zero the extrapolation `(0+1)*(orig-blurred) + blurred` is
      the original, so the channel is unchanged. */
  lemma BlendChannelZeroAmount(orig: byte, blurred: byte, threshold: int)
    ensures BlendChannel(orig, blurred, 0.0, threshold) == orig
  {
    assert (0.0 + 1.0) * (orig - blurred) as real + blurred as real == orig as real;
    TruncOfInt(orig);
  }

  /** Blending a pixel with itself gives it back. */
  lemma BlendPixelSelf(p: u32, a: real, threshold: int)
    ensures BlendPixel(p, p, a, threshold) == p
  {
    BlendChannelSelf(Ch(p, R), a, threshold);
    BlendChannelSelf(Ch(p, G), a, threshold);
    BlendChannelSelf(Ch(p, B), a, threshold);
    UnpackPack(p);
  }

  /** Blending against a pixel of the same colour, whatever its alpha, gives
      the original back: the alpha bits come from the original anyway. */
  lemma BlendPixelSameColour(p: u32, q: u32, a: real, threshold: int)
    requires Ch(p, R) == Ch(q, R) && Ch(p, G) == Ch(q, G) && Ch(p, B) == Ch(q, B)
    ensures BlendPixel(p, q, a, threshold) == p
  {
    BlendChannelSelf(Ch(p, R), a, threshold);
    BlendChannelSelf(Ch(p, G), a, threshold);
    BlendChannelSelf(Ch(p, B), a, threshold);
    UnpackPack(p);
  }

  /** With amount zero the sharpened pixel is the original, whatever the blur. */
  lemma BlendPixelZeroAmount(orig: u32, blurred: u32, threshold: int)
    ensures BlendPixel(orig, blurred, 0.0, threshold) == orig
  {
    BlendChannelZeroAmount(Ch(orig, R), Ch(blurred, R), threshold);
    BlendChannelZeroAmount(Ch(orig, G), Ch(blurred, G), threshold);
    BlendChannelZeroAmount(Ch(orig, B), Ch(blurred, B), threshold);
    UnpackPack(orig);
  }

  /** The whole blend, cell by cell: `orig` and `blurred` are equally long buffers. */
  function BlendAll(orig: seq<u32>, blurred: seq<u32>, a: real, threshold: int): (out: seq<u32>)
    requires |orig| == |blurred|
    ensures |out| == |orig|
  {
    seq(|orig|, i requires 0 <= i < |orig| => BlendPixel(orig[i], blurred[i], a, threshold))
  }

  /** Blending a buffer with itself gives it back. */
  lemma BlendAllSelf(s: seq<u32>, a: real, threshold: int)
    ensures BlendAll(s, s, a, threshold) == s
  {
    forall i | 0 <= i < |s|
      ensures BlendAll(s, s, a, threshold)[i] == s[i]
    {
      BlendPixelSelf(s[i], a, threshold);
    }
  }

  /** With amount zero the blend returns the original buffer. */
  lemma BlendAllZeroAmount(orig: seq<u32>, blurred: seq<u32>, threshold: int)
    requires |orig| == |blurred|
    ensures BlendAll(orig, blurred, 0.0, threshold) == orig
  {
    forall i | 0 <= i < |orig|
      ensures BlendAll(orig, blurred, 0.0, threshold)[i] == orig[i]
    {
      BlendPixelZeroAmount(orig[i], blurred[i], threshold);
    }
  }
}
