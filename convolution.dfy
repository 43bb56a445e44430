/**
 * What one pass of `convolveAndTransposeThread` computes: a 1-D kernel
 * applied along each row of a width-by-height buffer, each result written
 * to the transposed position, so that a second pass with the dimensions
 * swapped blurs along the other axis.
 */
module Convolution {
  import opened Pixels
  import opened Stripes

  /** How a kernel tap that falls outside the row is resolved. */
  datatype EdgeAction = ClampEdges | WrapEdges

  /** A kernel has a centre tap exactly when its width is odd. */
  predicate ValidKernel(kernel: seq<real>)
  {
    |kernel| % 2 == 1
  }

  function Min(a: int, b: int): int { if a <= b then a else b }
  function Max(a: int, b: int): int { if a >= b then a else b }

  /** The column read for the tap at offset `col` from column x.  Under
      clamping an out-of-range tap reads the nearest edge column; under
      wrapping, as written, it reads `(x + width) % width`, the centre
      column x itself. */
  function Tap(x: int, col: int, width: int, edge: EdgeAction): (ix: int)
    requires 0 <= x < width
    ensures 0 <= ix < width
    ensures edge == ClampEdges ==> ix == Min(Max(x + col, 0), width - 1)
    ensures edge == WrapEdges ==> ix == if 0 <= x + col < width then x + col else x
  {
    DivModUnique(x + width, width, 1, x);
    var ix := x + col;
    if ix < 0 then
      match edge
      case ClampEdges => 0
      case WrapEdges => (x + width) % width
    else if ix >= width then
      match edge
      case ClampEdges => width - 1
      case WrapEdges => (x + width) % width
    else
      ix
  }

  /** Channel c of the pixel the tap at offset `col` from (x, y) reads. */
  function Sample(input: seq<u32>, width: int, height: int, y: int, x: int, col: int, edge: EdgeAction, c: Chan): byte
    requires |input| == width * height && 0 <= y < height && 0 <= x < width
  {
    var ix := Tap(x, col, width, edge);
    FlatInRange(y, ix, height, width);
    Ch(input[Flat(y, ix, width)], c)
  }

  /** The contribution `f * v` of one tap of weight f reading channel value v. */
  function Weigh(f: real, v: byte): real
  {
    f * v as real
  }

  /** The sum, accumulated left to right, of channel c over the first n taps
      of the kernel centred at (x, y); taps of weight zero are skipped. */
  function TapSum(kernel: seq<real>, input: seq<u32>, width: int, height: int, y: int, x: int,
                  edge: EdgeAction, c: Chan, n: nat): real
    requires n <= |kernel|
    requires |input| == width * height && 0 <= y < height && 0 <= x < width
  {
    if n == 0 then 0.0
    else
      var f := kernel[n - 1];
      TapSum(kernel, input, width, height, y, x, edge, c, n - 1) +
        (if f != 0.0 then Weigh(f, Sample(input, width, height, y, x, n - 1 - |kernel| / 2, edge, c)) else 0.0)
  }

  /** The plain weighted sum over the first n taps, without the zero-weight shortcut. */
  function WeightedSum(kernel: seq<real>, input: seq<u32>, width: int, height: int, y: int, x: int,
                       edge: EdgeAction, c: Chan, n: nat): real
    requires n <= |kernel|
    requires |input| == width * height && 0 <= y < height && 0 <= x < width
  {
    if n == 0 then 0.0
    else
      WeightedSum(kernel, input, width, height, y, x, edge, c, n - 1) +
        Weigh(kernel[n - 1], Sample(input, width, height, y, x, n - 1 - |kernel| / 2, edge, c))
  }

  /** Skipping the taps of weight zero changes no sum. */
  lemma {:induction false} ZeroTapsContributeNothing(kernel: seq<real>, input: seq<u32>, width: int, height: int,
                                                      y: int, x: int, edge: EdgeAction, c: Chan, n: nat)
    requires n <= |kernel|
    requires |input| == width * height && 0 <= y < height && 0 <= x < width
    ensures TapSum(kernel, input, width, height, y, x, edge, c, n) == WeightedSum(kernel, input, width, height, y, x, edge, c, n)
  {
    if n > 0 {
      ZeroTapsContributeNothing(kernel, input, width, height, y, x, edge, c, n - 1);
    }
  }

  /** The packed result for input pixel (x, y): each colour sum rounded and
      clamped to [0,255]; alpha likewise when `alpha` holds, else opaque. */
  function ConvolvePixel(kernel: seq<real>, input: seq<u32>, width: int, height: int, y: int, x: int,
                         alpha: bool, edge: EdgeAction): (p: u32)
    requires |input| == width * height && 0 <= y < height && 0 <= x < width
  {
    var n := |kernel|;
    Pack(if alpha then Clamp(Round(TapSum(kernel, input, width, height, y, x, edge, A, n))) else 0xff,
         Clamp(Round(TapSum(kernel, input, width, height, y, x, edge, R, n))),
         Clamp(Round(TapSum(kernel, input, width, height, y, x, edge, G, n))),
         Clamp(Round(TapSum(kernel, input, width, height, y, x, edge, B, n))))
  }

  /** Unpacking a convolved pixel gives the clamped, rounded channel sums,
      and an alpha of 0xff when alpha does not take part. */
  lemma ConvolvePixelChannels(kernel: seq<real>, input: seq<u32>, width: int, height: int, y: int, x: int,
                              alpha: bool, edge: EdgeAction)
    requires |input| == width * height && 0 <= y < height && 0 <= x < width
    ensures var p := ConvolvePixel(kernel, input, width, height, y, x, alpha, edge);
      var n := |kernel|;
      (!alpha ==> Ch(p, A) == 0xff) &&
      (alpha ==> Ch(p, A) == Clamp(Round(TapSum(kernel, input, width, height, y, x, edge, A, n)))) &&
      Ch(p, R) == Clamp(Round(TapSum(kernel, input, width, height, y, x, edge, R, n))) &&
      Ch(p, G) == Clamp(Round(TapSum(kernel, input, width, height, y, x, edge, G, n))) &&
      Ch(p, B) == Clamp(Round(TapSum(kernel, input, width, height, y, x, edge, B, n)))
  {
  }

  /** Cell j of the transposed result buffer: the convolved input pixel
      (j / height, j % height). */
  function TransposedAt(kernel: seq<real>, input: seq<u32>, width: int, height: int, alpha: bool, edge: EdgeAction, j: int): u32
    requires width >= 0 && |input| == width * height && 0 <= j < width * height
  {
    FlatOnto(j, width, height);
    ConvolvePixel(kernel, input, width, height, j % height, j / height, alpha, edge)
  }

  /** A whole pass: the buffer that all stripes together produce. */
  function ConvolveAndTranspose(kernel: seq<real>, input: seq<u32>, width: int, height: int, alpha: bool, edge: EdgeAction): (out: seq<u32>)
    requires width >= 0 && |input| == width * height
    ensures |out| == width * height
  {
    seq(width * height, j requires 0 <= j < width * height => TransposedAt(kernel, input, width, height, alpha, edge, j))
  }

  /** The transpose contract: input pixel (x, y) is written to `x*height + y`,
      a cell whose coordinates read back as (x, y), so it is owned by row y. */
  lemma TransposedWrite(kernel: seq<real>, input: seq<u32>, width: nat, height: nat, alpha: bool, edge: EdgeAction, x: int, y: int)
    requires width >= 0 && |input| == width * height && 0 <= x < width && 0 <= y < height
    ensures 0 <= Flat(x, y, height) < width * height
    ensures ConvolveAndTranspose(kernel, input, width, height, alpha, edge)[Flat(x, y, height)] ==
      ConvolvePixel(kernel, input, width, height, y, x, alpha, edge)
    ensures Majors(width, height)[Flat(x, y, height)] == x && Minors(width, height)[Flat(x, y, height)] == y
  {
    CellOf(width, height, x, y);
  }

  /** The size-1 identity kernel reproduces every input pixel when alpha takes part. */
  lemma IdentityPixel(input: seq<u32>, width: int, height: int, y: int, x: int, edge: EdgeAction)
    requires |input| == width * height && 0 <= y < height && 0 <= x < width
    ensures 0 <= Flat(y, x, width) < |input|
    ensures ConvolvePixel([1.0], input, width, height, y, x, true, edge) == input[Flat(y, x, width)]
  {
    FlatInRange(y, x, height, width);
    var p := input[Flat(y, x, width)];
    forall c: Chan
      ensures Clamp(Round(TapSum([1.0], input, width, height, y, x, edge, c, 1))) == Ch(p, c)
    {
      assert TapSum([1.0], input, width, height, y, x, edge, c, 1) == Ch(p, c) as real;
      RoundOfInt(Ch(p, c));
    }
    UnpackPack(p);
  }

  /** With the size-1 identity kernel and alpha taking part, the row pass at
      (width, height) followed by the pass at (height, width) gives back the
      input buffer: the two transposes cancel. */
  lemma {:induction false} IdentityRoundTrip(input: seq<u32>, width: nat, height: nat, edge: EdgeAction)
    requires |input| == width * height
    ensures ConvolveAndTranspose([1.0], ConvolveAndTranspose([1.0], input, width, height, true, edge), height, width, true, edge) == input
  {
    var mid := ConvolveAndTranspose([1.0], input, width, height, true, edge);
    var out := ConvolveAndTranspose([1.0], mid, height, width, true, edge);
    forall j | 0 <= j < |input|
      ensures out[j] == input[j]
    {
      FlatOnto(j, height, width);
      var y, x := j / width, j % width;
      TransposedWrite([1.0], mid, height, width, true, edge, y, x);
      IdentityPixel(mid, height, width, x, y, edge);
      TransposedWrite([1.0], input, width, height, true, edge, x, y);
      IdentityPixel(input, width, height, y, x, edge);
    }
  }

  /** The sum of the first n kernel weights. */
  function WeightTotal(kernel: seq<real>, n: nat): real
    requires n <= |kernel|
  {
    if n == 0 then 0.0 else WeightTotal(kernel, n - 1) + kernel[n - 1]
  }

  /** The sum of the first n weights, each times a fixed value v, zero weights skipped. */
  function ScaledTotal(kernel: seq<real>, v: byte, n: nat): real
    requires n <= |kernel|
  {
    if n == 0 then 0.0
    else ScaledTotal(kernel, v, n - 1) + (if kernel[n - 1] != 0.0 then Weigh(kernel[n - 1], v) else 0.0)
  }

  lemma {:induction false} ScaledTotalIsProduct(kernel: seq<real>, v: byte, n: nat)
    requires n <= |kernel|
    ensures ScaledTotal(kernel, v, n) == v as real * WeightTotal(kernel, n)
  {
    if n > 0 {
      ScaledTotalIsProduct(kernel, v, n - 1);
      var w, f := WeightTotal(kernel, n - 1), kernel[n - 1];
      assert v as real * (w + f) == v as real * w + f * v as real;
    }
  }

  /** Over a buffer of one colour, every tap reads the same channel value v,
      so the channel sum is v times the total weight. */
  lemma {:induction false} ConstantTapSum(kernel: seq<real>, input: seq<u32>, width: int, height: int, y: int, x: int,
                                          edge: EdgeAction, c: Chan, n: nat, p: u32)
    requires n <= |kernel|
    requires |input| == width * height && 0 <= y < height && 0 <= x < width
    requires forall i :: 0 <= i < |input| ==> input[i] == p
    ensures TapSum(kernel, input, width, height, y, x, edge, c, n) == ScaledTotal(kernel, Ch(p, c), n)
  {
    if n > 0 {
      ConstantTapSum(kernel, input, width, height, y, x, edge, c, n - 1, p);
      var ix := Tap(x, n - 1 - |kernel| / 2, width, edge);
      FlatInRange(y, ix, height, width);
      assert Sample(input, width, height, y, x, n - 1 - |kernel| / 2, edge, c) == Ch(p, c);
    }
  }

  /** Over a buffer of one colour p, a normalised kernel gives back each
      channel value of p once rounded and clamped. */
  lemma ConstantChannel(kernel: seq<real>, input: seq<u32>, width: int, height: int, y: int, x: int,
                        edge: EdgeAction, c: Chan, p: u32)
    requires |input| == width * height && 0 <= y < height && 0 <= x < width
    requires WeightTotal(kernel, |kernel|) == 1.0
    requires forall i :: 0 <= i < |input| ==> input[i] == p
    ensures Clamp(Round(TapSum(kernel, input, width, height, y, x, edge, c, |kernel|))) == Ch(p, c)
  {
    ConstantTapSum(kernel, input, width, height, y, x, edge, c, |kernel|, p);
    ScaledTotalIsProduct(kernel, Ch(p, c), |kernel|);
    RoundOfInt(Ch(p, c));
  }

  /** A normalised kernel leaves a one-colour buffer unchanged (when alpha
      takes part), wherever the taps fall. */
  lemma ConstantImageFixed(kernel: seq<real>, input: seq<u32>, width: nat, height: nat, edge: EdgeAction, p: u32)
    requires |input| == width * height && WeightTotal(kernel, |kernel|) == 1.0
    requires forall i :: 0 <= i < |input| ==> input[i] == p
    ensures ConvolveAndTranspose(kernel, input, width, height, true, edge) == input
  {
    var out := ConvolveAndTranspose(kernel, input, width, height, true, edge);
    forall i | 0 <= i < |input|
      ensures out[i] == input[i]
    {
      FlatOnto(i, width, height);
      var y, x := i % height, i / height;
      forall c: Chan
        ensures Clamp(Round(TapSum(kernel, input, width, height, y, x, edge, c, |kernel|))) == Ch(p, c)
      {
        ConstantChannel(kernel, input, width, height, y, x, edge, c, p);
      }
      UnpackPack(p);
    }
  }

  /** When alpha does not take part, a normalised kernel turns a one-colour
      buffer into the same colour made opaque: alpha 0xff, red, green and
      blue kept. */
  lemma ConstantImageOpaque(kernel: seq<real>, input: seq<u32>, width: nat, height: nat, edge: EdgeAction, p: u32)
    requires |input| == width * height && WeightTotal(kernel, |kernel|) == 1.0
    requires forall i :: 0 <= i < |input| ==> input[i] == p
    ensures forall i :: 0 <= i < |input| ==>
      ConvolveAndTranspose(kernel, input, width, height, false, edge)[i] == Pack(0xff, Ch(p, R), Ch(p, G), Ch(p, B))
  {
    var out := ConvolveAndTranspose(kernel, input, width, height, false, edge);
    forall i | 0 <= i < |input|
      ensures out[i] == Pack(0xff, Ch(p, R), Ch(p, G), Ch(p, B))
    {
      FlatOnto(i, width, height);
      var y, x := i % height, i / height;
      ConstantChannel(kernel, input, width, height, y, x, edge, R, p);
      ConstantChannel(kernel, input, width, height, y, x, edge, G, p);
      ConstantChannel(kernel, input, width, height, y, x, edge, B, p);
    }
  }
}
