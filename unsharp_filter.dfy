/**
 * The multi-threaded unsharp-mask filter: two transposing convolution
 * passes blur the image, then a threshold-gated blend sharpens the original
 * against the blur.  Each pass is split into `numThreads` interleaved row
 * stripes; the pool is modelled as running stripe 0, 1, ... in turn, and
 * Stripes.AnyOrderCovers (convolution) and BlendAnyOrder (blend) show that
 * any other order of the tasks gives the same buffer.
 */
module UnsharpFilter {
  import opened Pixels
  import opened Stripes
  import opened Convolution
  import opened Blend

  /** The 2-D blur: a pass along the rows at (width, height), then a pass
      along the rows of the transposed result at (height, width), both
      clamping at the edges. */
  function Blurred(kernel: seq<real>, src: seq<u32>, width: nat, height: nat, alpha: bool): (out: seq<u32>)
    requires |src| == width * height
    ensures |out| == width * height
  {
    ConvolveAndTranspose(kernel, ConvolveAndTranspose(kernel, src, width, height, alpha, ClampEdges), height, width, alpha, ClampEdges)
  }

  /** The image the filter produces: the original blended against its blur
      (against itself when the radius is not positive) with `a = 4 * amount`. */
  function UnsharpMask(src: seq<u32>, width: nat, height: nat, radius: real, kernel: seq<real>, alpha: bool,
                       amount: real, threshold: int): (out: seq<u32>)
    requires |src| == width * height
    ensures |out| == width * height
  {
    BlendAll(src, if radius > 0.0 then Blurred(kernel, src, width, height, alpha) else src, 4.0 * amount, threshold)
  }

  /** With a non-positive radius both buffers hold the source, so the filter
      returns the source unchanged. */
  lemma NonPositiveRadiusIsIdentity(src: seq<u32>, width: nat, height: nat, radius: real, kernel: seq<real>, alpha: bool,
                                    amount: real, threshold: int)
    requires |src| == width * height && radius <= 0.0
    ensures UnsharpMask(src, width, height, radius, kernel, alpha, amount, threshold) == src
  {
    BlendAllSelf(src, 4.0 * amount, threshold);
  }

  /** With amount zero the filter returns the source, whatever the blur. */
  lemma ZeroAmountIsIdentity(src: seq<u32>, width: nat, height: nat, radius: real, kernel: seq<real>, alpha: bool,
                             threshold: int)
    requires |src| == width * height
    ensures UnsharpMask(src, width, height, radius, kernel, alpha, 0.0, threshold) == src
  {
    var blurred := if radius > 0.0 then Blurred(kernel, src, width, height, alpha) else src;
    BlendAllZeroAmount(src, blurred, threshold);
  }

  /** The identity kernel blurs nothing, so the filter returns the source. */
  lemma IdentityKernelIsIdentity(src: seq<u32>, width: nat, height: nat, radius: real, amount: real, threshold: int)
    requires |src| == width * height
    ensures Blurred([1.0], src, width, height, true) == src
    ensures UnsharpMask(src, width, height, radius, [1.0], true, amount, threshold) == src
  {
    IdentityRoundTrip(src, width, height, ClampEdges);
    BlendAllSelf(src, 4.0 * amount, threshold);
  }

  /** A one-colour image has no edges: with a normalised kernel its blur has
      the same colour (made opaque when alpha does not take part), and the
      filter returns the image unchanged for every threshold, since the
      alpha bits come from the original. */
  lemma FlatImageIsUnchanged(src: seq<u32>, width: nat, height: nat, radius: real, kernel: seq<real>, alpha: bool,
                             amount: real, threshold: int, p: u32)
    requires |src| == width * height && WeightTotal(kernel, |kernel|) == 1.0
    requires forall i :: 0 <= i < |src| ==> src[i] == p
    ensures UnsharpMask(src, width, height, radius, kernel, alpha, amount, threshold) == src
  {
    if radius <= 0.0 {
      BlendAllSelf(src, 4.0 * amount, threshold);
    } else if alpha {
      ConstantImageFixed(kernel, src, width, height, ClampEdges, p);
      assert |src| == height * width;
      ConstantImageFixed(kernel, src, height, width, ClampEdges, p);
      BlendAllSelf(src, 4.0 * amount, threshold);
    } else {
      var q := Pack(0xff, Ch(p, R), Ch(p, G), Ch(p, B));
      var mid := ConvolveAndTranspose(kernel, src, width, height, false, ClampEdges);
      ConstantImageOpaque(kernel, src, width, height, ClampEdges, p);
      assert |mid| == height * width;
      ConstantImageOpaque(kernel, mid, height, width, ClampEdges, q);
      var blur := Blurred(kernel, src, width, height, alpha);
      assert forall i :: 0 <= i < |blur| ==> blur[i] == q;
      var out := UnsharpMask(src, width, height, radius, kernel, alpha, amount, threshold);
      forall i | 0 <= i < |src|
        ensures out[i] == src[i]
      {
        BlendPixelSameColour(p, q, 4.0 * amount, threshold);
      }
    }
  }

  /** The kernel sums for input pixel (x, y): the inner loop of
      `convolveAndTransposeThread` over the taps -cols2..cols2. */
  method SumTaps(matrix: seq<real>, inPixels: array<u32>, width: nat, height: nat, y: int, x: int, edgeAction: EdgeAction)
    returns (a: real, r: real, g: real, b: real)
    requires ValidKernel(matrix)
    requires inPixels.Length == width * height && 0 <= y < height && 0 <= x < width
    ensures a == TapSum(matrix, inPixels[..], width, height, y, x, edgeAction, A, |matrix|)
    ensures r == TapSum(matrix, inPixels[..], width, height, y, x, edgeAction, R, |matrix|)
    ensures g == TapSum(matrix, inPixels[..], width, height, y, x, edgeAction, G, |matrix|)
    ensures b == TapSum(matrix, inPixels[..], width, height, y, x, edgeAction, B, |matrix|)
  {
    ghost var input := inPixels[..];
    var cols := |matrix|;
    var cols2 := cols / 2;
    var ioffset := y * width;
    a, r, g, b := 0.0, 0.0, 0.0, 0.0;
    var moffset := cols2;
    var col := -cols2;
    while col <= cols2
      invariant -cols2 <= col <= cols2 + 1
      invariant a == TapSum(matrix, input, width, height, y, x, edgeAction, A, col + cols2)
      invariant r == TapSum(matrix, input, width, height, y, x, edgeAction, R, col + cols2)
      invariant g == TapSum(matrix, input, width, height, y, x, edgeAction, G, col + cols2)
      invariant b == TapSum(matrix, input, width, height, y, x, edgeAction, B, col + cols2)
    {
      var f := matrix[moffset + col];
      if f != 0.0 {
        var ix := Tap(x, col, width, edgeAction);
        FlatInRange(y, ix, height, width);
        var rgb := inPixels[ioffset + ix];
        TapSumStep(matrix, input, width, height, y, x, edgeAction, col + cols2, rgb);
        a := a + Weigh(f, Ch(rgb, A));
        r := r + Weigh(f, Ch(rgb, R));
        g := g + Weigh(f, Ch(rgb, G));
        b := b + Weigh(f, Ch(rgb, B));
      } else {
        TapSumSkip(matrix, input, width, height, y, x, edgeAction, col + cols2);
      }
      col := col + 1;
    }
  }

  /** The body of the column loop of `convolveAndTransposeThread` for input
      pixel (x, y): the kernel sums rounded, clamped and packed. */
  method ConvolveAt(kernel: seq<real>, inPixels: array<u32>, width: nat, height: nat, y: int, x: int,
                    alpha: bool, edgeAction: EdgeAction) returns (p: u32)
    requires ValidKernel(kernel)
    requires inPixels.Length == width * height && 0 <= y < height && 0 <= x < width
    ensures p == ConvolvePixel(kernel, inPixels[..], width, height, y, x, alpha, edgeAction)
  {
    var sa, sr, sg, sb := SumTaps(kernel, inPixels, width, height, y, x, edgeAction);
    var ia := if alpha then Clamp(Round(sa)) else 0xff;
    var ir := Clamp(Round(sr));
    var ig := Clamp(Round(sg));
    var ib := Clamp(Round(sb));
    p := Pack(ia, ir, ig, ib);
  }

  /** The buffer after the blend tasks of `order` ran one after another.
      A blend task reads the blurred value of each of its cells from the
      buffer that it and the other tasks write, so each step blends against
      what the buffer holds when the task runs. */
  function BlendOrder(orig: seq<u32>, cur: seq<u32>, a: real, threshold: int, rows: seq<int>, order: seq<int>, delta: int): (r: seq<u32>)
    requires |orig| == |cur| == |rows|
    requires forall k :: 0 <= k < |order| ==> 0 <= order[k] < delta
    ensures |r| == |cur|
    decreases |order|
  {
    if order == [] then cur
    else
      var prev := BlendOrder(orig, cur, a, threshold, rows, order[..|order| - 1], delta);
      ApplyStripe(prev, BlendAll(orig, prev, a, threshold), rows, order[|order| - 1], delta)
  }

  /** When no stripe runs twice, every blend task still blends against the
      blur: the tasks before it never write the cells of its rows.  So the
      blend tasks behave like tasks with a fixed target. */
  lemma {:induction false} BlendOrderIsRunOrder(orig: seq<u32>, before: seq<u32>, a: real, threshold: int,
                                                rows: seq<int>, order: seq<int>, delta: int)
    requires |orig| == |before| == |rows|
    requires forall j :: 0 <= j < |rows| ==> rows[j] >= 0
    requires forall k :: 0 <= k < |order| ==> 0 <= order[k] < delta
    requires Distinct(order)
    ensures BlendOrder(orig, before, a, threshold, rows, order, delta) ==
      RunOrder(before, BlendAll(orig, before, a, threshold), rows, order, delta)
  {
    if order != [] {
      var init, s := order[..|order| - 1], order[|order| - 1];
      var target := BlendAll(orig, before, a, threshold);
      BlendOrderIsRunOrder(orig, before, a, threshold, rows, init, delta);
      var prev := RunOrder(before, target, rows, init, delta);
      var l := ApplyStripe(prev, BlendAll(orig, prev, a, threshold), rows, s, delta);
      var r := ApplyStripe(prev, target, rows, s, delta);
      forall j | 0 <= j < |before|
        ensures l[j] == r[j]
      {
        if InStripe(rows[j], s, delta) {
          RunOrderAt(before, target, rows, init, delta, j);
          StripeOwner(rows[j], delta);
          assert forall k :: 0 <= k < |init| ==> init[k] != s;
        }
      }
    }
  }

  /** The blend pass gives the same image whatever order its tasks run in,
      provided each stripe runs exactly once. */
  lemma BlendAnyOrder(orig: seq<u32>, before: seq<u32>, a: real, threshold: int, rows: seq<int>, order: seq<int>, delta: int)
    requires |orig| == |before| == |rows| && delta >= 1
    requires forall j :: 0 <= j < |rows| ==> rows[j] >= 0
    requires forall k :: 0 <= k < |order| ==> 0 <= order[k] < delta
    requires Distinct(order) && forall s :: 0 <= s < delta ==> s in order
    ensures BlendOrder(orig, before, a, threshold, rows, order, delta) == BlendAll(orig, before, a, threshold)
  {
    BlendOrderIsRunOrder(orig, before, a, threshold, rows, order, delta);
    AnyOrderCovers(before, BlendAll(orig, before, a, threshold), rows, order, delta);
  }

  /** `UnsharpMask` is the blend against the blur the radius selects. */
  lemma UnsharpMaskOfBlur(src: seq<u32>, width: nat, height: nat, radius: real, kernel: seq<real>, alpha: bool,
                          amount: real, threshold: int, blur: seq<u32>)
    requires |src| == width * height
    requires blur == if radius > 0.0 then Blurred(kernel, src, width, height, alpha) else src
    ensures UnsharpMask(src, width, height, radius, kernel, alpha, amount, threshold) == BlendAll(src, blur, 4.0 * amount, threshold)
  {
  }

  /** A tap of weight zero leaves every channel's sum as it was. */
  lemma TapSumSkip(kernel: seq<real>, input: seq<u32>, width: int, height: int, y: int, x: int,
                   edge: EdgeAction, n: nat)
    requires n < |kernel| && kernel[n] == 0.0
    requires |input| == width * height && 0 <= y < height && 0 <= x < width
    ensures forall c :: TapSum(kernel, input, width, height, y, x, edge, c, n + 1) == TapSum(kernel, input, width, height, y, x, edge, c, n)
  {
  }

  /** One more tap, of non-zero weight, adds its weight times the channel
      of the pixel it reads. */
  lemma TapSumStep(kernel: seq<real>, input: seq<u32>, width: int, height: int, y: int, x: int,
                   edge: EdgeAction, n: nat, rgb: u32)
    requires n < |kernel| && kernel[n] != 0.0
    requires |input| == width * height && 0 <= y < height && 0 <= x < width
    requires var ix := Tap(x, n - |kernel| / 2, width, edge);
      0 <= Flat(y, ix, width) < |input| && input[Flat(y, ix, width)] == rgb
    ensures forall c :: (TapSum(kernel, input, width, height, y, x, edge, c, n + 1) ==
      TapSum(kernel, input, width, height, y, x, edge, c, n) + Weigh(kernel[n], Ch(rgb, c)))
  {
  }

  class MultiThreadedUnsharpFilter {
    /** The number of stripes each pass is split into (one task each). */
    const numThreads: int
    /** The blur radius; a non-positive radius skips the blur. */
    const radius: real
    /** The 1-D blur kernel, as its weight sequence. */
    const kernel: seq<real>
    /** Whether the alpha channel is convolved (otherwise it becomes 0xff). */
    const alpha: bool
    /** The sharpening amount; the blend uses four times it. */
    const amount: real
    /** The minimum channel difference that is sharpened. */
    const threshold: int

    constructor (numThreads: int, radius: real, kernel: seq<real>, alpha: bool, amount: real, threshold: int)
      ensures this.numThreads == numThreads && this.radius == radius && this.kernel == kernel
      ensures this.alpha == alpha && this.amount == amount && this.threshold == threshold
    {
      this.numThreads := numThreads;
      this.radius := radius;
      this.kernel := kernel;
      this.alpha := alpha;
      this.amount := amount;
      this.threshold := threshold;
    }

    /** The sharpened image.  With no threads at all no stripe runs and the
        source comes back as it was; otherwise the result is the unsharp
        mask, the same for every number of threads. */
    method Filter(src: seq<u32>, width: nat, height: nat) returns (dst: seq<u32>)
      requires numThreads >= 0 && (radius > 0.0 && numThreads > 0 ==> ValidKernel(kernel))
      requires |src| == width * height
      ensures dst == if numThreads == 0 then src
                     else UnsharpMask(src, width, height, radius, kernel, alpha, amount, threshold)
    {
      var inPixels := new u32[width * height];
      var outPixels := new u32[width * height];
      CopyInto(inPixels, src);
      ghost var blur := src;
      if radius > 0.0 {
        BlurPasses(inPixels, outPixels, width, height);
        blur := Blurred(kernel, src, width, height, alpha);
        assert inPixels[..] == if numThreads == 0 then src else blur;
      }
      ghost var blurred := inPixels[..];

      CopyInto(outPixels, src);
      assert inPixels[..] == blurred;

      var a := 4.0 * amount;
      BlendPass(inPixels, outPixels, width, height, a);
      dst := inPixels[..];
      if numThreads > 0 {
        assert dst == BlendAll(src, blur, a, threshold);
        UnsharpMaskOfBlur(src, width, height, radius, kernel, alpha, amount, threshold, blur);
      } else {
        assert dst == src;
      }
    }

    /** `getRGB` into a scratch buffer: the buffer receives the pixels of the image. */
    static method CopyInto(pixels: array<u32>, src: seq<u32>)
      requires pixels.Length == |src|
      modifies pixels
      ensures pixels[..] == src
    {
      forall i | 0 <= i < pixels.Length {
        pixels[i] := src[i];
      }
    }

    /** The two convolution passes of `filter`: rows of the image into the
        transposed buffer, then rows of the transposed buffer back. */
    method BlurPasses(inPixels: array<u32>, outPixels: array<u32>, width: nat, height: nat)
      requires numThreads >= 0 && (numThreads > 0 ==> ValidKernel(kernel))
      requires inPixels.Length == width * height && outPixels.Length == width * height
      requires inPixels != outPixels
      modifies inPixels, outPixels
      ensures numThreads == 0 ==> inPixels[..] == old(inPixels[..]) && outPixels[..] == old(outPixels[..])
      ensures numThreads > 0 ==> inPixels[..] == Blurred(kernel, old(inPixels[..]), width, height, alpha)
      ensures numThreads > 0 ==> outPixels[..] == ConvolveAndTranspose(kernel, old(inPixels[..]), width, height, alpha, ClampEdges)
    {
      ConvolvePass(inPixels, outPixels, width, height);
      ConvolvePass(outPixels, inPixels, height, width);
    }

    /** One convolution pass of `filter`: a `convolveAndTransposeThread` task
        per stripe 0 .. numThreads-1, all awaited before the pass ends.  The
        tasks write disjoint cells, so running them one after the other in
        submission order gives what any other order gives (see
        `Stripes.AnyOrderCovers`); with no tasks the target is untouched. */
    method ConvolvePass(inPixels: array<u32>, outPixels: array<u32>, width: nat, height: nat)
      requires numThreads >= 0 && (numThreads > 0 ==> ValidKernel(kernel))
      requires inPixels.Length == width * height && outPixels.Length == width * height
      requires inPixels != outPixels
      modifies outPixels
      ensures outPixels[..] == if numThreads == 0 then old(outPixels[..])
                               else ConvolveAndTranspose(kernel, inPixels[..], width, height, alpha, ClampEdges)
    {
      ghost var before := outPixels[..];
      ghost var target := ConvolveAndTranspose(kernel, inPixels[..], width, height, alpha, ClampEdges);
      ghost var rows := Minors(width, height);
      var i := 0;
      while i < numThreads
        invariant 0 <= i <= numThreads
        invariant outPixels[..] == RunOrder(before, target, rows, Iota(i), numThreads)
      {
        ConvolveAndTransposeThread(i, numThreads, kernel, inPixels, outPixels, width, height, alpha, ClampEdges);
        IotaSnoc(before, target, rows, i, numThreads);
        i := i + 1;
      }
      if numThreads > 0 {
        IotaCovers(before, target, rows, numThreads);
      }
    }

    /** The blend pass of `filter`: an `UnsharpFilterThread` per stripe
        0 .. numThreads-1 over the rows of the image, all awaited.  `inPixels`
        holds the blur and receives the result; `outPixels` holds the original. */
    method BlendPass(inPixels: array<u32>, outPixels: array<u32>, width: nat, height: nat, a: real)
      requires numThreads >= 0
      requires inPixels.Length == width * height && outPixels.Length == width * height
      requires inPixels != outPixels
      modifies inPixels
      ensures inPixels[..] == if numThreads == 0 then old(inPixels[..])
                              else BlendAll(old(outPixels[..]), old(inPixels[..]), a, threshold)
    {
      ghost var before := inPixels[..];
      ghost var orig := outPixels[..];
      ghost var rows := Majors(height, width);
      var i := 0;
      while i < numThreads
        invariant 0 <= i <= numThreads
        invariant outPixels[..] == orig
        invariant inPixels[..] == BlendOrder(orig, before, a, threshold, rows, Iota(i), numThreads)
      {
        var task := new UnsharpFilterThread(i, numThreads, height, width, inPixels, outPixels, a, threshold);
        task.Run();
        assert Iota(i + 1)[..i] == Iota(i);
        i := i + 1;
      }
      if numThreads > 0 {
        IotaPermutation(numThreads);
        BlendAnyOrder(orig, before, a, threshold, rows, Iota(numThreads), numThreads);
      }
    }

    /** One stripe of a convolution pass: for each row `start, start+delta, ...`
        below `height`, convolve every pixel of the row and write it to its
        transposed cell.  Exactly the cells owned by the stripe's rows change. */
    method ConvolveAndTransposeThread(start: int, delta: int, kernel: seq<real>, inPixels: array<u32>, outPixels: array<u32>,
                                      width: nat, height: nat, alpha: bool, edgeAction: EdgeAction)
      requires 0 <= start && delta >= 1 && ValidKernel(kernel)
      requires inPixels.Length == width * height && outPixels.Length == width * height
      requires inPixels != outPixels
      modifies outPixels
      ensures outPixels[..] == ApplyStripe(old(outPixels[..]), ConvolveAndTranspose(kernel, inPixels[..], width, height, alpha, edgeAction),
                                           Minors(width, height), start, delta)
    {
      ghost var input := inPixels[..];
      ghost var before := outPixels[..];
      ghost var target := ConvolveAndTranspose(kernel, input, width, height, alpha, edgeAction);
      ghost var rows, cols := Minors(width, height), Majors(width, height);
      ProgressStart(target, before, rows, cols, start, delta);
      var y := start;
      ghost var k := 0;
      while y < height
        invariant k >= 0 && y == start + k * delta
        invariant Progress(outPixels[..], target, before, rows, cols, start, delta, y, 0)
      {
        StripeStep(start, delta, k, y);
        ConvolveRow(start, delta, kernel, inPixels, outPixels, width, height, alpha, edgeAction, y, target, before);
        ProgressRow(outPixels[..], target, before, rows, cols, start, delta, y, width);
        y := y + delta;
        k := k + 1;
      }
      ProgressDone(outPixels[..], target, before, rows, cols, start, delta, y);
    }

    /** The inner loop of `convolveAndTransposeThread`: convolve the pixels of
        row y, which belongs to the stripe, one column after the other,
        writing pixel (x, y) to the transposed cell `x * height + y`. */
    method ConvolveRow(start: int, delta: int, kernel: seq<real>, inPixels: array<u32>, outPixels: array<u32>,
                       width: nat, height: nat, alpha: bool, edgeAction: EdgeAction,
                       y: int, ghost target: seq<u32>, ghost before: seq<u32>)
      requires delta >= 1 && ValidKernel(kernel) && 0 <= y < height && InStripe(y, start, delta)
      requires inPixels.Length == width * height && outPixels.Length == width * height
      requires inPixels != outPixels
      requires |before| == width * height
      requires target == ConvolveAndTranspose(kernel, inPixels[..], width, height, alpha, edgeAction)
      requires Progress(outPixels[..], target, before, Minors(width, height), Majors(width, height), start, delta, y, 0)
      modifies outPixels
      ensures Progress(outPixels[..], target, before, Minors(width, height), Majors(width, height), start, delta, y, width)
    {
      var index := y;
      var x := 0;
      while x < width
        invariant 0 <= x <= width
        invariant index == Flat(x, y, height)
        invariant Progress(outPixels[..], target, before, Minors(width, height), Majors(width, height), start, delta, y, x)
      {
        var p := ConvolveAt(kernel, inPixels, width, height, y, x, alpha, edgeAction);
        assert p == target[index] by {
          TransposedWrite(kernel, inPixels[..], width, height, alpha, edgeAction, x, y);
        }
        ghost var prev := outPixels[..];
        outPixels[index] := p;
        assert outPixels[..] == prev[index := target[index]];
        ProgressWriteColumnMajor(prev, target, before, width, height, start, delta, y, x);
        FlatSucc(x, y, height);
        index := index + height;
        x := x + 1;
      }
    }
  }

  /** The body of the blend loop for one cell: `rgb1` is the original
      pixel, `rgb2` the blurred one. */
  method SharpenPixel(rgb1: u32, rgb2: u32, a: real, threshold: int) returns (p: u32)
    ensures p == BlendPixel(rgb1, rgb2, a, threshold)
  {
    var r1: int := Ch(rgb1, R);
    var g1: int := Ch(rgb1, G);
    var b1: int := Ch(rgb1, B);

    var r2: int := Ch(rgb2, R);
    var g2: int := Ch(rgb2, G);
    var b2: int := Ch(rgb2, B);

    if Abs(r1 - r2) >= threshold {
      r1 := Clamp(Extrapolate(a, r1, r2));
    }
    if Abs(g1 - g2) >= threshold {
      g1 := Clamp(Extrapolate(a, g1, g2));
    }
    if Abs(b1 - b2) >= threshold {
      b1 := Clamp(Extrapolate(a, b1, b2));
    }

    p := Pack(Ch(rgb1, A), r1, g1, b1);
  }

  /** One blend task: the object `filter` submits for stripe `start`.
      `outPixels` holds the original image, `inPixels` the blur, which the
      task overwrites with the sharpened pixels of its rows. */
  class UnsharpFilterThread {
    const start: int
    const delta: int
    const height: int
    const width: int
    const inPixels: array<u32>
    const outPixels: array<u32>
    const a: real
    /** The filter's threshold, read by the task from its enclosing filter. */
    const threshold: int

    constructor (start: int, delta: int, height: int, width: int, inPixels: array<u32>, outPixels: array<u32>, a: real, threshold: int)
      ensures this.start == start && this.delta == delta && this.height == height && this.width == width
      ensures this.inPixels == inPixels && this.outPixels == outPixels && this.a == a && this.threshold == threshold
    {
      this.start := start;
      this.delta := delta;
      this.height := height;
      this.width := width;
      this.inPixels := inPixels;
      this.outPixels := outPixels;
      this.a := a;
      this.threshold := threshold;
    }

    /** Blend every pixel of the rows `start, start+delta, ...` in place:
        exactly the cells of the stripe's rows change, each to the blend of
        the original and the blurred value it held before. */
    method Run()
      requires 0 <= start && delta >= 1 && 0 <= width && 0 <= height
      requires inPixels.Length == width * height && outPixels.Length == width * height
      requires inPixels != outPixels
      modifies inPixels
      ensures inPixels[..] == ApplyStripe(old(inPixels[..]), BlendAll(outPixels[..], old(inPixels[..]), a, threshold),
                                          Majors(height, width), start, delta)
    {
      ghost var blurred := inPixels[..];
      ghost var target := BlendAll(outPixels[..], blurred, a, threshold);
      ghost var rows, cols := Majors(height, width), Minors(height, width);
      ProgressStart(target, blurred, rows, cols, start, delta);
      var y := start;
      ghost var k := 0;
      while y < height
        invariant k >= 0 && y == start + k * delta
        invariant Progress(inPixels[..], target, blurred, rows, cols, start, delta, y, 0)
      {
        StripeStep(start, delta, k, y);
        SharpenRow(y, target, blurred);
        ProgressRow(inPixels[..], target, blurred, rows, cols, start, delta, y, width);
        y := y + delta;
        k := k + 1;
      }
      ProgressDone(inPixels[..], target, blurred, rows, cols, start, delta, y);
    }

    /** The inner loop of `run`: blend the cells of row y, which belongs to
        this task's stripe, one column after the other. */
    method SharpenRow(y: int, ghost target: seq<u32>, ghost blurred: seq<u32>)
      requires delta >= 1 && 0 <= width && 0 <= y < height && InStripe(y, start, delta)
      requires inPixels.Length == width * height && outPixels.Length == width * height
      requires inPixels != outPixels
      requires |blurred| == width * height && target == BlendAll(outPixels[..], blurred, a, threshold)
      requires Progress(inPixels[..], target, blurred, Majors(height, width), Minors(height, width), start, delta, y, 0)
      modifies inPixels
      ensures Progress(inPixels[..], target, blurred, Majors(height, width), Minors(height, width), start, delta, y, width)
    {
      var index := y * width;
      var x := 0;
      while x < width
        invariant 0 <= x <= width
        invariant index == Flat(y, x, width)
        invariant Progress(inPixels[..], target, blurred, Majors(height, width), Minors(height, width), start, delta, y, x)
      {
        CellOf(height, width, y, x);
        var rgb1 := outPixels[index];
        var rgb2 := inPixels[index];
        var p := SharpenPixel(rgb1, rgb2, a, threshold);
        assert p == target[index];
        ghost var prev := inPixels[..];
        inPixels[index] := p;
        assert inPixels[..] == prev[index := target[index]];
        ProgressWriteRowMajor(prev, target, blurred, height, width, start, delta, y, x);
        index := index + 1;
        x := x + 1;
      }
    }
  }
}
