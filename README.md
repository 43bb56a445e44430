# Multi-threaded unsharp mask

A Dafny model of the sharpening engine of `MultiThreadedUnsharpFilter`.
The filter loads an ARGB image into a flat `int[]` buffer and blurs it.
The blur is two 1-D convolution passes. Each pass writes its result
transposed, so the second pass, run with width and height swapped, blurs
along the other axis and brings the buffer back to row-major order. Then
the original is copied into the other buffer, and each colour channel of
each pixel is pushed away from its blurred value when the two differ by at
least the threshold. Every pass is split into `numThreads` interleaved row
stripes, `start, start+delta, ...`, with one pool task per stripe.

The model is imperative, as the source is:

- `MultiThreadedUnsharpFilter` is a class. Its `Filter` method allocates
  the two `array<u32>` scratch buffers and swaps their roles between the
  passes.
- `ConvolveAndTransposeThread` and `UnsharpFilterThread.Run` are loops
  over the stripe's rows and columns. They write the arrays in place.
- Each loop is proved against a specification function on sequences:
  `ConvolveAndTranspose` for a convolution pass, `BlendAll` for the blend,
  and `UnsharpMask` for the whole filter.

Modules:

- `Pixels`: packed pixels (`u32`, the unsigned reading of Java's `int`),
  channel extraction, packing, clamping, and Java's `(int)` cast
  (truncation toward zero).
- `Stripes`: flat-buffer offsets and the transpose bijection; stripe
  membership; the effect of one stripe of a pass (`ApplyStripe`); and
  stripes run in any order (`RunOrder`).
- `Convolution`: edge handling; the kernel sum for one pixel; and one
  whole transposing pass.
- `Blend`: the threshold-gated per-channel rule.
- `UnsharpFilter`: the filter class, its passes, the blend task class, and
  the end-to-end properties.

The thread pool is modelled as running the tasks of a pass one after the
other, in submission order. In the code the tasks of a pass run at the same
time, so their reads and writes interleave. The sequential model is sound
because each task writes only the cells of its own stripe's rows, and a
blend task also reads only those cells. So no task sees another's writes,
and each task's effect is the same whatever the interleaving. The model
proves that every order of the tasks gives the same buffer:

- `Stripes.AnyOrderCovers` proves it for the convolution passes.
- `UnsharpFilter.BlendAnyOrder` proves it for the blend.

The blend needs more care. A blend task reads the blurred value from the
very buffer that it and the other tasks write. The proof shows that no
task ever overwrites a cell of another task's rows.

Floating point is modelled as `real`. A kernel is its sequence of weights,
and its length must be odd.

Three behaviours of the code that are easy to misread, modelled as
written:

- The sharpened pixel takes its alpha bits from the original image
  (`rgb1 & 0xff000000`, with `rgb1` read from `outPixels`). It does not
  take them from the blurred one.
- Under wrap-around edges, an out-of-range tap reads column
  `(x+width) % width`, which is the centre column `x`. It does not read
  the wrapped column.
- `numThreads` may be zero. Then no task runs, and the filter returns the
  source unchanged.

## Model

| member | source | states |
|---|---|---|
| Pixels.Pack | src/main/java/com/mortennobel/imagescaling/MultiThreadedUnsharpFilter.java:103 | the or of four bytes shifted to bits 24, 16, 8 and 0 is a 32-bit word whose four channels read back as a, r, g, b |
| Pixels.PackUnpack | src/main/java/com/mortennobel/imagescaling/MultiThreadedUnsharpFilter.java:99-103 | the packed value fits in 32 bits and each of its shifted-and-masked channels is the byte packed there |
| Pixels.UnpackPack | src/main/java/com/mortennobel/imagescaling/MultiThreadedUnsharpFilter.java:144-161 | repacking a pixel's own alpha, red, green and blue gives the pixel back |
| Pixels.Clamp | src/main/java/com/mortennobel/imagescaling/MultiThreadedUnsharpFilter.java:99-102 | the result is the byte nearest to its argument: no value in [0,255] is closer |
| Pixels.ClampMonotone | src/main/java/com/mortennobel/imagescaling/MultiThreadedUnsharpFilter.java:99-102 | clamping keeps the order of its arguments |
| Pixels.Trunc | src/main/java/com/mortennobel/imagescaling/MultiThreadedUnsharpFilter.java:155 | the `(int)` cast rounds toward zero: the floor for non-negative values, the ceiling for negative ones |
| Pixels.Round | src/main/java/com/mortennobel/imagescaling/MultiThreadedUnsharpFilter.java:99-102 | `(int)(x+0.5)` is the nearest integer, halves rounded up, for sums of at least -0.5, and at most 0 below that |
| Pixels.RoundOfInt | src/main/java/com/mortennobel/imagescaling/MultiThreadedUnsharpFilter.java:100 | rounding a non-negative whole sum gives that number |
| Stripes.FlatInRange | src/main/java/com/mortennobel/imagescaling/MultiThreadedUnsharpFilter.java:92 | `y*width+x` with x, y in range is inside the buffer, and its quotient and remainder by width are y and x |
| Stripes.FlatOnto | src/main/java/com/mortennobel/imagescaling/MultiThreadedUnsharpFilter.java:103-104 | every buffer offset is `x*height+y` for one in-range cell (x, y) |
| Stripes.FlatInjective | src/main/java/com/mortennobel/imagescaling/MultiThreadedUnsharpFilter.java:103-104 | two in-range cells with the same offset are the same cell, so no output index is written twice |
| Stripes.CellUnique | src/main/java/com/mortennobel/imagescaling/MultiThreadedUnsharpFilter.java:71-73 | exactly one offset of the buffer has coordinates (x, y), namely `Flat(x, y)` |
| Stripes.StripeOwner | src/main/java/com/mortennobel/imagescaling/MultiThreadedUnsharpFilter.java:70 | for stripes 0..delta-1, row y belongs to stripe `y % delta` and to no other: the stripes partition the rows |
| Stripes.StripeStep | src/main/java/com/mortennobel/imagescaling/MultiThreadedUnsharpFilter.java:141 | the k-th row the stripe loop visits is in the stripe, and no stripe row lies between two consecutive visits |
| Stripes.RunOrderAt | src/main/java/com/mortennobel/imagescaling/MultiThreadedUnsharpFilter.java:32-39 | after any sequence of stripe tasks a cell holds the pass result exactly when a task that ran owns its row, and its old value otherwise |
| Stripes.AnyOrderCovers | src/main/java/com/mortennobel/imagescaling/MultiThreadedUnsharpFilter.java:32-49 | any order of tasks that runs every stripe 0..delta-1 leaves the full pass result: the outcome does not depend on scheduling |
| Stripes.IotaPermutation | src/main/java/com/mortennobel/imagescaling/MultiThreadedUnsharpFilter.java:32 | the submission loop names each stripe 0..n-1 exactly once |
| Stripes.IotaCovers | src/main/java/com/mortennobel/imagescaling/MultiThreadedUnsharpFilter.java:32-40 | running the stripes in submission order completes the pass |
| Stripes.IotaSnoc | src/main/java/com/mortennobel/imagescaling/MultiThreadedUnsharpFilter.java:32-39 | submitting stripe n after stripes 0..n-1 applies that one stripe to the buffer they left |
| Convolution.Tap | src/main/java/com/mortennobel/imagescaling/MultiThreadedUnsharpFilter.java:80-91 | the resolved column lies in [0,width); under clamping it is `min(max(x+col,0),width-1)`; under wrap it is `x+col` when in range and the centre column x otherwise |
| Convolution.ZeroTapsContributeNothing | src/main/java/com/mortennobel/imagescaling/MultiThreadedUnsharpFilter.java:79-97 | skipping the taps of weight zero gives the same channel sum as the plain weighted sum over all taps |
| Convolution.ConvolvePixelChannels | src/main/java/com/mortennobel/imagescaling/MultiThreadedUnsharpFilter.java:99-103 | each colour channel of a convolved pixel is the clamped rounded kernel sum; alpha is 0xff when alpha does not take part and the clamped rounded sum when it does |
| Convolution.TransposedWrite | src/main/java/com/mortennobel/imagescaling/MultiThreadedUnsharpFilter.java:103-104 | input pixel (x, y) is convolved into output cell `x*height+y`, whose coordinates read back as (x, y) |
| Convolution.IdentityPixel | src/main/java/com/mortennobel/imagescaling/MultiThreadedUnsharpFilter.java:74-103 | with the size-1 identity kernel and alpha taking part a convolved pixel equals the input pixel |
| Convolution.IdentityRoundTrip | src/main/java/com/mortennobel/imagescaling/MultiThreadedUnsharpFilter.java:36-45 | with the identity kernel and alpha on, the pass at (width, height) then the pass at (height, width) restore the input buffer |
| Convolution.ScaledTotalIsProduct | src/main/java/com/mortennobel/imagescaling/MultiThreadedUnsharpFilter.java:93-96 | summing weight times a fixed value over the taps gives the value times the total weight |
| Convolution.ConstantTapSum | src/main/java/com/mortennobel/imagescaling/MultiThreadedUnsharpFilter.java:76-97 | over a one-colour buffer a channel sum is the channel value times the total weight, wherever the taps fall |
| Convolution.ConstantImageFixed | src/main/java/com/mortennobel/imagescaling/MultiThreadedUnsharpFilter.java:65-106 | when alpha takes part, a kernel whose weights sum to 1 leaves a one-colour buffer unchanged through a transposing pass |
| Convolution.ConstantImageOpaque | src/main/java/com/mortennobel/imagescaling/MultiThreadedUnsharpFilter.java:99-103 | when alpha does not take part, a kernel whose weights sum to 1 turns a one-colour buffer into that colour with alpha 0xff |
| Blend.BlendPixelChannels | src/main/java/com/mortennobel/imagescaling/MultiThreadedUnsharpFilter.java:144-161 | output alpha is the original's; a colour channel differing from the blur by less than the threshold keeps its original value; any other is `clamp(trunc((a+1)*(orig-blurred)+blurred))` |
| Blend.SharpenMovesAway | src/main/java/com/mortennobel/imagescaling/MultiThreadedUnsharpFilter.java:154-159 | for a non-negative amount a channel above its blur never drops and one below it never rises |
| Blend.BlendChannelSelf | src/main/java/com/mortennobel/imagescaling/MultiThreadedUnsharpFilter.java:154-159 | a channel equal to its blurred value is unchanged for every threshold and amount |
| Blend.BlendChannelZeroAmount | src/main/java/com/mortennobel/imagescaling/MultiThreadedUnsharpFilter.java:154-159 | with a = 0, `(0+1)*(orig-blurred)+blurred` is the original, so the channel is unchanged |
| Blend.BlendPixelSelf | src/main/java/com/mortennobel/imagescaling/MultiThreadedUnsharpFilter.java:144-161 | a pixel blended against itself is returned unchanged |
| Blend.BlendPixelSameColour | src/main/java/com/mortennobel/imagescaling/MultiThreadedUnsharpFilter.java:144-161 | blending against a pixel with the same red, green and blue, whatever its alpha, returns the original pixel |
| Blend.BlendPixelZeroAmount | src/main/java/com/mortennobel/imagescaling/MultiThreadedUnsharpFilter.java:144-161 | with a = 0 the blended pixel is the original, whatever the blur |
| Blend.BlendAllSelf | src/main/java/com/mortennobel/imagescaling/MultiThreadedUnsharpFilter.java:139-166 | a buffer blended against itself is returned unchanged |
| Blend.BlendAllZeroAmount | src/main/java/com/mortennobel/imagescaling/MultiThreadedUnsharpFilter.java:139-166 | with a = 0 the blended buffer is the original buffer |
| UnsharpFilter.NonPositiveRadiusIsIdentity | src/main/java/com/mortennobel/imagescaling/MultiThreadedUnsharpFilter.java:31-54 | with radius <= 0 both buffers hold the source and the filter returns it unchanged |
| UnsharpFilter.ZeroAmountIsIdentity | src/main/java/com/mortennobel/imagescaling/MultiThreadedUnsharpFilter.java:54-59 | with amount 0 the filter returns the source, whatever the radius and kernel |
| UnsharpFilter.IdentityKernelIsIdentity | src/main/java/com/mortennobel/imagescaling/MultiThreadedUnsharpFilter.java:31-59 | with the identity kernel and alpha on, the blur is the source and the filter returns the source |
| UnsharpFilter.FlatImageIsUnchanged | src/main/java/com/mortennobel/imagescaling/MultiThreadedUnsharpFilter.java:19-63 | a one-colour image comes back unchanged from a kernel whose weights sum to 1, for every radius, threshold and amount, whether alpha takes part or not |
| UnsharpFilter.SumTaps | src/main/java/com/mortennobel/imagescaling/MultiThreadedUnsharpFilter.java:74-98 | the tap loop leaves in a, r, g, b the kernel sums of the four channels for pixel (x, y) |
| UnsharpFilter.ConvolveAt | src/main/java/com/mortennobel/imagescaling/MultiThreadedUnsharpFilter.java:74-103 | the packed value computed for pixel (x, y) is `ConvolvePixel` of the input buffer at (x, y) |
| UnsharpFilter.SharpenPixel | src/main/java/com/mortennobel/imagescaling/MultiThreadedUnsharpFilter.java:144-161 | the value stored for one cell is the blend of the original pixel against the blurred one |
| UnsharpFilter.BlendOrderIsRunOrder | src/main/java/com/mortennobel/imagescaling/MultiThreadedUnsharpFilter.java:56-59 | when no stripe runs twice, blend tasks that read the shared buffer behave like tasks writing a fixed target: no task overwrites a cell another task still reads |
| UnsharpFilter.BlendAnyOrder | src/main/java/com/mortennobel/imagescaling/MultiThreadedUnsharpFilter.java:56-59 | the blend tasks give the full blend in every order that runs each stripe exactly once |
| UnsharpFilter.MultiThreadedUnsharpFilter.constructor | src/main/java/com/mortennobel/imagescaling/MultiThreadedUnsharpFilter.java:15-18 | the filter keeps its thread count and its blur and blend settings |
| UnsharpFilter.MultiThreadedUnsharpFilter.Filter | src/main/java/com/mortennobel/imagescaling/MultiThreadedUnsharpFilter.java:19-63 | the returned image is the unsharp mask of the source for every positive thread count, so the result does not depend on the thread count; with no threads it is the source |
| UnsharpFilter.MultiThreadedUnsharpFilter.CopyInto | src/main/java/com/mortennobel/imagescaling/MultiThreadedUnsharpFilter.java:52 | reading the image into a scratch buffer leaves the buffer holding exactly the image's pixels, as at lines 28 and 52 |
| UnsharpFilter.MultiThreadedUnsharpFilter.BlurPasses | src/main/java/com/mortennobel/imagescaling/MultiThreadedUnsharpFilter.java:31-50 | after both passes `inPixels` holds the 2-D blur of its old contents and `outPixels` the first pass's transposed result; with no threads neither changes |
| UnsharpFilter.MultiThreadedUnsharpFilter.ConvolvePass | src/main/java/com/mortennobel/imagescaling/MultiThreadedUnsharpFilter.java:32-40 | after the tasks of stripes 0..numThreads-1 the target buffer holds the whole transposed convolution of the input |
| UnsharpFilter.MultiThreadedUnsharpFilter.BlendPass | src/main/java/com/mortennobel/imagescaling/MultiThreadedUnsharpFilter.java:56-59 | after every blend task `inPixels` holds the original blended against the blur it held before |
| UnsharpFilter.MultiThreadedUnsharpFilter.ConvolveAndTransposeThread | src/main/java/com/mortennobel/imagescaling/MultiThreadedUnsharpFilter.java:65-107 | exactly the output cells owned by the stripe's rows take the transposed convolution; every other cell is untouched |
| UnsharpFilter.MultiThreadedUnsharpFilter.ConvolveRow | src/main/java/com/mortennobel/imagescaling/MultiThreadedUnsharpFilter.java:71-105 | the column loop writes the convolved pixels of row y to their transposed cells and nothing else |
| UnsharpFilter.UnsharpFilterThread.constructor | src/main/java/com/mortennobel/imagescaling/MultiThreadedUnsharpFilter.java:129-137 | the task keeps its stripe, dimensions, buffers and amount |
| UnsharpFilter.UnsharpFilterThread.Run | src/main/java/com/mortennobel/imagescaling/MultiThreadedUnsharpFilter.java:139-166 | exactly the cells of the stripe's rows change, each to the blend of the original with the blurred value it held before |
| UnsharpFilter.UnsharpFilterThread.SharpenRow | src/main/java/com/mortennobel/imagescaling/MultiThreadedUnsharpFilter.java:142-163 | the column loop blends the cells of row y in place and changes nothing else |

## Left out

- `BufferedImage` input and output (`getRGB`, `setRGB`, `createCompatibleDestImage`, lines 23-28, 52, 61): the source and destination images are pixel sequences of length width*height, and a `getRGB` into a scratch buffer is the copy `CopyInto`.
- The thread pool and `Future`s (lines 30, 34, 43, 57) are not modelled as concurrent. The tasks of a pass run one after another, and the reads and writes of concurrent tasks do not interleave in the model. This is sound only because each task writes only the cells of its own stripe's rows, and a blend task also reads only those cells (`UnsharpFilterThread.Run`'s contract, `BlendOrderIsRunOrder`).
- `waitForAllThreads` (lines 108-120) is not modelled. It waits for every task, prints the stack trace of a failed or interrupted task and rethrows it as a `RuntimeException`. In the model no task fails, and a pass ends once all its tasks have run.
- Floating point: kernel weights, channel sums and `a = 4*getAmount()` are exact reals, not IEEE `float`s.
- `PixelUtils.clamp`, the `UnsharpFilter` base class (`radius`, `kernel`, `alpha`, `getAmount`, `getThreshold`, the edge constants) and `java.awt.image.Kernel` are not part of this model. Clamp is taken to clamp to [0,255]. The base-class settings are constructor arguments. A kernel is its weight sequence.
- UnsharpFilter.MultiThreadedUnsharpFilter.constructor: it takes the base-class settings directly instead of an `ExecutorService`.
- UnsharpFilter.UnsharpFilterThread.constructor: it also takes the filter's threshold, which the Java inner class reads from its enclosing object.
- Edge actions other than clamp and wrap (such as zero edges) are not modelled.
- UnsharpFilter.MultiThreadedUnsharpFilter.Filter: it requires `numThreads >= 0`, because a negative count throws at line 30.
- UnsharpFilter.MultiThreadedUnsharpFilter.Filter: it requires an odd-length kernel when the radius is positive and there is at least one thread, because an even length reads past the kernel at line 77.
- UnsharpFilter.MultiThreadedUnsharpFilter.Filter: width*height is unbounded, so the 32-bit overflow of `width*height` at lines 26-27 is not modelled.
- UnsharpFilter.MultiThreadedUnsharpFilter.ConvolveAndTransposeThread: it requires `inPixels` and `outPixels` to be distinct arrays and `start >= 0`, as they are at both calls (lines 36 and 45); ConvolvePass and BlurPasses require distinct arrays for the same reason.
- UnsharpFilter.UnsharpFilterThread.Run: it requires `inPixels` and `outPixels` to be distinct arrays, which they always are in `filter`.
- UnsharpFilter.MultiThreadedUnsharpFilter.ConvolveAndTransposeThread: it requires `delta >= 1`, because with zero the row loop at line 70 never ends.
- `SpeedSingleThreadTest` is a timing benchmark with no assertions, so it is not modelled.
