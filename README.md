# Fotoshoppi raster engine in Dafny

This project models the raster-transform engine of `class ImageWidget` in
`image_widget.cpp`. Every transform reads the widget's pixmap as a flat,
row-major buffer of `width * height` RGB pixels. It computes a new buffer
and shows it with `updateImage`.

- `Raster` (raster.dfy) holds the shared pieces:
  - pixels and images;
  - the `onPixels` traversal and its index arithmetic (`row * width + column == index`);
  - `coerceWithinRange`;
  - the truncating per-channel mean of `average`.
- `ColorMaps` (color_maps.dfy) holds the per-pixel maps: `grayscale`,
  `negative`, `addBrightness`, `addContrast` and `quantize` with
  `retrieveNewQuantizedColor`.
- `Histograms` (histograms.dfy) holds:
  - `calculateHistogram` and `calculateNormalizedHistogram`;
  - `equalize`;
  - `matchHistogram` with `findClosestShade`.
- `Geometry` (geometry.dfy) holds:
  - `mirrorVertically`, an in-place swap on an array;
  - `rotateLeft` and `rotateRight`, each a scatter into a fresh buffer;
  - `zoomOut`, with its block means and running output counter;
  - `zoomIn`, with its scatter pass and in-place gap-filling pass.
- `Convolution` (convolution.dfy) holds `flip` and `convolve`, which read a
  snapshot and write the traversal buffer.
- `Widget` (widget.dfy) holds the class `ImageWidget`. Its one field is the
  pixmap. Each method runs a pass and replaces the pixmap.

## How it is structured

**Specification functions.** Each transform is first a pure function from
image to image: `Grayscale`, `Quantize`, `MirrorVertically`, `ZoomOut`,
`ZoomIn`, `Convolve` and so on. Lemmas state its properties:

- involutions (mirror, negative, flip);
- the left/right rotation round trip;
- the bijection between input and output cells;
- counts (histogram total, number of zoomed-out cells);
- monotonicity (normalised table, quantization, equalization);
- argmin characterisation (`findClosestShade`);
- behaviour on single-colour images.

**Imperative passes.** The imperative code of the source becomes methods
over arrays, proved equal to those functions:

- the `onPixels` loop;
- the row swaps;
- the counters `currentPixel` and `currentPixelIndex`;
- the histogram counting and prefix-sum loops;
- the loops of `findClosestShade`, `average` and `flip`.

**Defects.** Where the code as written does something its authors evidently
did not intend, both versions are modelled. The as-written member comes with
a concrete input that shows the difference. The widget uses the corrected
member (see "## Findings").

**Truncation, not rounding.** The code truncates in four places where
rounding might be expected: luminance, the normalised histogram, the
zoom-out means and the quantized midpoint. It does so by int conversions,
integer division and `uint8_t` narrowing, and the model follows the code.

**Arithmetic.** Floating point is replaced by exact integer arithmetic:

- luminance is `(299 R + 587 G + 114 B) / 1000`;
- the normalisation factor is `255 * count / (width * height)`;
- a kernel is integer numerators over a positive `scale`. The kernels of
  `mainwindow.cpp` are multiples of 1/16, so this is exact for them.

`int` conversion of a negative value truncates toward zero. This is
modelled by `Convolution.TruncDiv`, because Dafny's `/` is Euclidean.

## Model

| member | source | states |
|---|---|---|
| Raster.Traversal | image_widget.cpp:334-338 | traversal index `i` has column `i % width` and row `i / width` inside the image, and `row * width + column == i` |
| Raster.PosDivMod | image_widget.cpp:336-337 | a cell's row and column are recovered from its linear index by `/` and `%` |
| Raster.CoerceWithinRange | image_widget.cpp:343-349 | in-range values pass through unchanged; the result is the channel value nearest to the input |
| Raster.CoerceMonotone | image_widget.cpp:343-349 | clamping keeps the order of its inputs |
| Raster.OnPixels | image_widget.cpp:324-341 | the image keeps its dimensions and cell `k` becomes the action applied to the original cell `k` |
| Raster.MeanBounds | image_widget.cpp:450-458 | each channel of `average` is the largest value whose multiple by the count does not exceed the channel's sum |
| Raster.MeanBySums | image_widget.cpp:450-458 | each channel of `average` is the channel's sum divided by the list length, and lies in 0..255 |
| Raster.MeanOfCopies | image_widget.cpp:450-458 | averaging copies of one pixel gives that pixel back |
| ColorMaps.Luminance | image_widget.cpp:354 | the truncated luminance lies between the least and the greatest channel; with the exact weights a gray pixel keeps its value |
| ColorMaps.GrayscaleIsGray | image_widget.cpp:351-357 | every grayscaled pixel has three equal channels, equal to the luminance of the original pixel |
| ColorMaps.GrayscaleIdempotent | image_widget.cpp:351-357 | with the exact luminance, grayscaling twice is grayscaling once |
| ColorMaps.NegativeInvolutive | image_widget.cpp:142-151 | the negative of the negative is the original image |
| ColorMaps.BrightnessShifts | image_widget.cpp:120-129 | each channel moves by the offset when that stays in range, and otherwise saturates at 0 or 255 |
| ColorMaps.BrightnessZeroIsIdentity | image_widget.cpp:120-129 | a brightness of 0 leaves the image unchanged |
| ColorMaps.ContrastOneIsIdentity | image_widget.cpp:131-140 | a contrast of 1 leaves the image unchanged |
| ColorMaps.ContrastNonPositiveIsBlack | image_widget.cpp:131-140 | a contrast of 0 or less turns every pixel black |
| ColorMaps.MinToneOf | image_widget.cpp:92-99 | after `n` pixels `min_tone` is 256 if `n == 0`, and otherwise a red tone of one of them that is no greater than any of them |
| ColorMaps.MaxToneOf | image_widget.cpp:92-99 | after `n` pixels `max_tone` is 0 if `n == 0`, and otherwise a red tone of one of them that is no less than any of them |
| ColorMaps.ToneRange | image_widget.cpp:92-99 | the first scan of `quantize` yields the least and greatest red tone of the image |
| ColorMaps.BucketStart | image_widget.cpp:302-303 | the bucket holding a tone starts at or below the tone, at a whole number of bucket widths above the least tone, and the tone lies inside it |
| ColorMaps.BucketMidpoint | image_widget.cpp:303-305 | the truncated midpoint lies in the bucket, and twice it is within one of the bucket's exact double midpoint |
| ColorMaps.RetrieveNewQuantizedColorAsWritten | image_widget.cpp:301-306 | as written, the result is a byte and equals the bucket midpoint whenever that midpoint fits in a byte |
| ColorMaps.QuantizedColorWrapsAsWritten | image_widget.cpp:301-306 | as written, tone 255 with buckets of 85 from 0 comes out as 41, below its own bucket and below tone 254's 212 |
| ColorMaps.QuantizedColorInBucket | image_widget.cpp:301-306 | the quantized tone lies in the tone's own bucket; unless it saturates at 255 it is the truncated midpoint and agrees with the as-written value |
| ColorMaps.BucketStartMonotone | image_widget.cpp:302-303 | a greater tone never lies in an earlier bucket |
| ColorMaps.QuantizedColorMonotone | image_widget.cpp:301-306 | quantizing keeps the order of tones |
| ColorMaps.QuantizedColorIdempotent | image_widget.cpp:301-306 | a quantized tone quantizes to itself |
| ColorMaps.IntervalLength | image_widget.cpp:104 | with work to do and `intervals < 256 * tones`, the bucket width `intervals / tones` lies in 1..255 |
| ColorMaps.Rgb | image_widget.cpp:107 | an opaque pixel's QRgb word is at least `0xFF000000`, and its low three bytes are blue, green and red |
| ColorMaps.QuantizeWriteIndexAsWritten | image_widget.cpp:107 | as written, the index written to is at least `0xFF000000` and spells out the pixel's red, green and blue bytes |
| ColorMaps.QuantizeWritesOutsideImageAsWritten | image_widget.cpp:107 | as written, no write lands on its own pixel, nor inside any image of fewer than `0xFF000000` pixels |
| ColorMaps.QuantizedTonesInBucket | image_widget.cpp:105-108 | every quantized pixel is gray, its tone lies in the bucket of the pixel's red tone, and the order of red tones is kept |
| ColorMaps.QuantizePass | image_widget.cpp:89-110 | the two traversals of `quantize` produce `Quantize`: nothing for 0 tones or when tones ≥ intervals, and otherwise each pixel's quantized gray |
| ColorMaps.QuantizeTones | image_widget.cpp:105-108 | the second traversal of `quantize` produces `Quantize` |
| ColorMaps.QuantizedPixel | image_widget.cpp:100-108 | where there is work, pixel `k` of the result is the gray of its quantized red tone, buckets `intervals / tones` wide from the least tone |
| ColorMaps.QuantizePreservesOrder | image_widget.cpp:89-110 | quantizing keeps the order of red tones between any two pixels |
| Histograms.HistogramCounts | image_widget.cpp:367-369 | bucket `t` counts exactly the positions whose red tone is `t` |
| Histograms.HistogramTotal | image_widget.cpp:363-371 | the 256 counts add up to the number of pixels |
| Histograms.CountTones | image_widget.cpp:366-369 | the counting loop yields the histogram of the tones |
| Histograms.CalculateHistogram | image_widget.cpp:363-371 | 256 counts of the grayscaled red tone; bucket `t` counts the pixels of tone `t`; the counts add up to `width * height` |
| Histograms.CumulativeMonotone | image_widget.cpp:381-383 | the cumulative table never decreases |
| Histograms.CumulativeBound | image_widget.cpp:381-383 | an entry times the pixel count is at most 255 times the count of pixels up to that tone |
| Histograms.NormalizedHistogramIsChannelMap | image_widget.cpp:373-385 | when the counts add up to the pixel count, every entry lies in 0..255 and the table never decreases |
| Histograms.EqualizationTableMonotone | image_widget.cpp:373-385 | the equalization table of an image never decreases |
| Histograms.CumulativeTable | image_widget.cpp:380-384 | the prefix-sum loop over the 256 counts yields the cumulative table, each entry the previous one plus the scaled count |
| Histograms.CalculateNormalizedHistogram | image_widget.cpp:378-385 | the prefix-sum loop yields the image's equalization table, every entry in 0..255 |
| Histograms.EqualizePass | image_widget.cpp:153-163 | `equalize` looks up each of R, G and B in the one luminance table |
| Histograms.EqualizeKeepsOrder | image_widget.cpp:153-163 | equalization keeps the order of channel values across pixels and channels, and maps a value through the table |
| Histograms.ClosestFromKeepsState | image_widget.cpp:440-446 | the remaining scan of `findClosestShade` keeps the scan invariant up to index 256 |
| Histograms.ClosestShadeIsArgmin | image_widget.cpp:438-448 | the closest shade minimises the distance; it is `shade` itself when that is minimal, and otherwise strictly closer than every smaller index |
| Histograms.FindClosestShade | image_widget.cpp:438-448 | the loop returns the closest shade, in 0..255 and at least as close as any other |
| Histograms.ClosestShades | image_widget.cpp:170-171 | `histogramMatch[s]` is the closest shade to `s` for every `s` |
| Histograms.MatchHistogramPass | image_widget.cpp:165-178 | `matchHistogram` grayscales, builds both tables, matches every shade and recolours every pixel |
| Histograms.MatchHistogramOfGray | image_widget.cpp:166-168 | with the exact luminance, matching the grayscaled pixmap gives the same result as matching the pixmap |
| Histograms.MatchHistogramIsClosest | image_widget.cpp:165-178 | every matched pixel is gray, with a shade whose target entry is as close as any to the source entry of the pixel's luminance |
| Geometry.MirrorVerticallyAt | image_widget.cpp:61-69 | the mirrored image holds at (`r`, `c`) the original pixel at (`height - 1 - r`, `c`) |
| Geometry.MirrorVerticallyKeepsMiddleRow | image_widget.cpp:62 | the middle row of an image of odd height stays in place |
| Geometry.MirrorVerticallyInvolutive | image_widget.cpp:55-71 | mirroring twice gives back the image |
| Geometry.MirrorSwapStep | image_widget.cpp:63-67 | one swap of a cell with its mirror advances the loop invariant by one row |
| Geometry.MirrorDone | image_widget.cpp:61-69 | once every column is swapped, the buffer holds the mirrored image |
| Geometry.MirrorColumn | image_widget.cpp:62-68 | the inner loop swaps one whole column top to bottom |
| Geometry.MirrorRows | image_widget.cpp:61-69 | the nested swap loops leave the array holding the mirrored image |
| Geometry.LeftTargetBijective | image_widget.cpp:215 | the left turn's target index is a bijection of the cells, with an explicit inverse |
| Geometry.RightTargetBijective | image_widget.cpp:224 | the right turn's target index is a bijection of the cells, with an explicit inverse |
| Geometry.RotateLeftAt | image_widget.cpp:215 | input cell (`r`, `c`) lands at `(w - 1 - c) * h + r` of the left turn |
| Geometry.RotateRightAt | image_widget.cpp:224 | input cell (`r`, `c`) lands at `c * h + (h - 1 - r)` of the right turn |
| Geometry.RotateLeft | image_widget.cpp:211-218 | the left turn is a valid image with width and height swapped |
| Geometry.RotateRight | image_widget.cpp:220-227 | the right turn is a valid image with width and height swapped |
| Geometry.RotateRoundTrip | image_widget.cpp:211-227 | turning left then right, or right then left, restores the image |
| Geometry.RotateLeftPass | image_widget.cpp:211-218 | the scatter loop of `rotateLeft` produces the left turn |
| Geometry.RotateRightPass | image_widget.cpp:220-227 | the scatter loop of `rotateRight` produces the right turn |
| Geometry.CeilDivExact | image_widget.cpp:181 | `ceil(a / b)` is `a / b`, plus one when the division leaves a remainder |
| Geometry.BlockSamplesSize | image_widget.cpp:191-202 | a block contributes `min(fx, w - c) * min(fy, h - r)` in-bounds cells |
| Geometry.BlockNonEmpty | image_widget.cpp:191-205 | the block of an in-bounds anchor is never empty, so `count == 0` never returns |
| Geometry.BlockAverageBySums | image_widget.cpp:198-206 | the stored mean is each channel's block sum divided by the block's cell count |
| Geometry.AnchorCount | image_widget.cpp:187-190 | the anchors before cell (`r`, `c`) number `ceil(r / fy) * ceil(w / fx)`, plus `ceil(c / fx)` on an anchor row |
| Geometry.AnchorAveragesSize | image_widget.cpp:206 | `currentPixel` advances once per anchor visited |
| Geometry.ZoomOutSize | image_widget.cpp:181-206 | exactly `ceil(w / fx) * ceil(h / fy)` means are written |
| Geometry.ZoomOut | image_widget.cpp:180-209 | the zoomed-out image is valid and `ceil(w / fx)` by `ceil(h / fy)` |
| Geometry.ZoomOutAt | image_widget.cpp:180-209 | output cell (`r`, `c`) is the mean of the block anchored at (`fy * r`, `fx * c`), which lies inside the image |
| Geometry.ZoomOutUniform | image_widget.cpp:180-209 | zooming out a single-colour image gives that colour everywhere |
| Geometry.AccumulateColumn | image_widget.cpp:192-202 | the `y` loop adds the in-bounds cells of one block column to the sums and count |
| Geometry.AverageBlock | image_widget.cpp:185-206 | the closure at an anchor computes the block mean |
| Geometry.ZoomOutStep | image_widget.cpp:184-207 | visiting cell `i` appends its block mean exactly when `i` is an anchor |
| Geometry.ZoomOutPass | image_widget.cpp:180-209 | the traversal with the running `currentPixel` produces the zoomed-out image |
| Geometry.Neighbours | image_widget.cpp:244-258 | the left, right, upper and lower neighbours of a cell have the expected rows and columns whenever the closure reads them |
| Geometry.ZoomIn | image_widget.cpp:229-261 | the zoomed-in image is valid and `2w - 1` by `2h - 1` |
| Geometry.ZoomInCell | image_widget.cpp:243-259 | an even-row cell is an original or a horizontal mean; an odd-row cell is the mean of the cells above and below |
| Geometry.ZoomInKeepsOriginals | image_widget.cpp:235 | original pixel (`r`, `c`) sits at (`2r`, `2c`) |
| Geometry.ZoomInBetweenColumns | image_widget.cpp:244-250 | between two horizontal neighbours lies their mean |
| Geometry.ZoomInBetweenRows | image_widget.cpp:252-258 | between two vertical neighbours lies their mean |
| Geometry.ZoomInCentre | image_widget.cpp:252-258 | a centre cell is the mean of the interpolated cells above and below it |
| Geometry.ZoomInUniform | image_widget.cpp:229-261 | zooming in a single-colour image gives that colour everywhere |
| Geometry.ZoomInAsWritten | image_widget.cpp:229-261 | as written, the zoomed-in image is valid and `2w - 1` by `2h - 1` |
| Geometry.ZoomInAsWrittenOddCell | image_widget.cpp:252-258 | as written, a centre cell mixes the row above with the fresh buffer's cell below |
| Geometry.ZoomInAsWrittenCentre | image_widget.cpp:252-258 | as written, a centre cell is the mean of the interpolated cell above and the uninitialised cell below |
| Geometry.ZoomInReadsUninitialisedBuffer | image_widget.cpp:252-258 | as written, a black 2x2 image over a white buffer gets a gray(127) centre, where the intended result is black |
| Geometry.CursorStep | image_widget.cpp:236-241 | `currentPixelIndex` moves two columns right, or to the start of the next even row |
| Geometry.ScatterStep | image_widget.cpp:235 | one scatter write advances the first-pass invariant by one input cell |
| Geometry.ScatterOriginals | image_widget.cpp:230-242 | the first traversal puts each original pixel at (`2r`, `2c`) and leaves every other cell as it was |
| Geometry.Average | image_widget.cpp:450-458 | `average` computes the truncated per-channel mean |
| Geometry.InterpolateRowCell | image_widget.cpp:244-251 | the first closure branch replaces an odd cell of an even row by the mean of its left and (if any) right neighbours |
| Geometry.InterpolateColumnCell | image_widget.cpp:252-258 | the second closure branch replaces a cell of an odd row by the mean of the cell above and (if any) the cell below |
| Geometry.EvenRowNeighbours | image_widget.cpp:244-250 | an odd cell of an even row reads a finished left neighbour and a first-pass right neighbour |
| Geometry.OddRowNeighbours | image_widget.cpp:252-258 | once the even rows are complete, an odd-row cell reads the finished cell above and the filled even row below |
| Geometry.OddRowNeighboursAsWritten | image_widget.cpp:252-258 | in the single traversal as written, an odd-row cell reads the finished cell above and the first-pass cell below |
| Geometry.ZoomInAsWrittenPass | image_widget.cpp:229-261 | the scatter pass plus the single in-place traversal as written produce `ZoomInAsWritten` |
| Geometry.ZoomInPass | image_widget.cpp:229-261 | with the gap-filling traversal split in two, the passes produce `ZoomIn` |
| Convolution.Flipped | image_widget.cpp:460-466 | entry `t` of the flipped kernel is entry `8 - t` of the kernel |
| Convolution.FlipInvolutive | image_widget.cpp:460-466 | flipping twice gives the kernel back |
| Convolution.FlipOfMainWindowKernels | mainwindow.cpp:9-15 | the flip leaves the Gaussian, Laplacian and high-pass kernels unchanged and negates the Prewitt and Sobel kernels |
| Convolution.MainWindowKernelSums | mainwindow.cpp:9-15 | the Gaussian's weights add up to 1; the other six kernels add up to 0 |
| Convolution.Flip | image_widget.cpp:460-466 | the nested loops leave the array holding the flipped kernel |
| Convolution.TruncDiv | image_widget.cpp:279-281 | `int` conversion of `a / b`: truncation toward zero, with both bounds for each sign |
| Convolution.TruncDivExact | image_widget.cpp:279-281 | a multiple of the scale converts exactly |
| Convolution.WeightedSumExpanded | image_widget.cpp:271-283 | the exact window sum is the nine weight-times-channel products |
| Convolution.ConvolveKeepsBorder | image_widget.cpp:273-276 | a pixel whose window leaves the image keeps its value, both as written and corrected |
| Convolution.ConvolveSmallImage | image_widget.cpp:263-288 | an image less than 3 wide or high comes back unchanged, both as written and corrected |
| Convolution.ConvolveUniformInterior | image_widget.cpp:263-288 | inside a single-colour image every channel becomes the colour times the kernel's total weight, plus the increment, clamped |
| Convolution.ConvolveNormalisedKeepsUniform | image_widget.cpp:263-288 | a kernel with weights summing to 1 and no increment leaves a single-colour image unchanged |
| Convolution.ConvolveZeroSumFlattens | image_widget.cpp:284-285 | a zero-sum kernel turns the interior of a single-colour image into the gray of the increment |
| Convolution.TruncatedSumScaleOne | image_widget.cpp:277-281 | with whole weights (scale 1) the accumulator as written equals the exact weighted sum after every window cell |
| Convolution.ConvolveScaleOneAsWritten | image_widget.cpp:263-288 | a kernel of whole weights convolves the same as written and corrected, so the per-cell truncation only matters for fractional weights |
| Convolution.IdentityWindow | image_widget.cpp:277-281 | the window sum of the identity kernel is the centre cell's channel |
| Convolution.ConvolveIdentityKernel | image_widget.cpp:263-288 | the identity kernel without the increment leaves every image unchanged, both as written and corrected |
| Convolution.GaussianWhiteChannelAsWritten | image_widget.cpp:279-281 | as written, each channel of the Gaussian over a white window accumulates to 247 |
| Convolution.GaussianDarkensWhiteAsWritten | image_widget.cpp:279-281 | as written, the Gaussian turns the centre of a white 3x3 image into 247, where the corrected convolution keeps 255 |
| Convolution.TruncatedTotalsStep | image_widget.cpp:277-281 | as written, one window cell truncates `acc + factor * value` back to an int |
| Convolution.WeightedTotalsStep | image_widget.cpp:277-281 | one window cell adds `weight * value` to the exact accumulators |
| Convolution.WindowIndex | image_widget.cpp:277 | `index + i * width + j` is the cell at the window offset, inside the buffer |
| Convolution.AddTapAsWritten | image_widget.cpp:277-281 | as written, one window cell advances the truncating accumulators by one step |
| Convolution.WindowRowAsWritten | image_widget.cpp:272-282 | as written, one window row either returns (a cell is outside) or takes its three cells into the accumulators |
| Convolution.ConvolveCellAsWritten | image_widget.cpp:269-286 | as written, the closure writes exactly for interior cells, and then writes the clamped truncated sums plus the increment |
| Convolution.AddTap | image_widget.cpp:277-281 | one window cell advances the exact accumulators |
| Convolution.WindowRow | image_widget.cpp:272-282 | one window row either returns or takes its three cells into the exact accumulators |
| Convolution.ConvolveCell | image_widget.cpp:269-286 | the closure writes exactly for interior cells, and then writes the sums truncated once, plus the increment, clamped |
| Convolution.ConvolveStepAsWritten | image_widget.cpp:285 | as written, a traversal step changes only its own cell, to the as-written result |
| Convolution.ConvolveAsWrittenPass | image_widget.cpp:263-288 | flip, snapshot and traversal as written produce `ConvolveAsWritten` |
| Convolution.ConvolveStep | image_widget.cpp:285 | a traversal step changes only its own cell, to the corrected result |
| Convolution.ConvolvePass | image_widget.cpp:263-288 | flip, snapshot and traversal produce `Convolve` |
| Widget.ImageWidget.constructor | image_widget.cpp:32-45 | `create` makes a widget showing the decoded image |
| Widget.ImageWidget.UpdateImage | image_widget.cpp:308-317 | the pixmap becomes the target image |
| Widget.ImageWidget.Grayscale | image_widget.cpp:51-53 | the pixmap becomes its grayscale |
| Widget.ImageWidget.MirrorVertically | image_widget.cpp:55-71 | the pixmap becomes its vertical mirror |
| Widget.ImageWidget.Quantize | image_widget.cpp:89-110 | the pixmap becomes its quantization, written at each pixel's own position |
| Widget.ImageWidget.AddBrightness | image_widget.cpp:120-129 | the pixmap becomes its brightness shift |
| Widget.ImageWidget.AddContrast | image_widget.cpp:131-140 | the pixmap becomes its contrast scaling |
| Widget.ImageWidget.Negative | image_widget.cpp:142-151 | the pixmap becomes its negative |
| Widget.ImageWidget.Equalize | image_widget.cpp:153-163 | the pixmap becomes its equalization |
| Widget.ImageWidget.MatchHistogram | image_widget.cpp:165-178 | the pixmap becomes the histogram match of its original state against the target |
| Widget.ImageWidget.ZoomOut | image_widget.cpp:180-209 | the pixmap becomes its zoom-out by positive (`offsetX`, `offsetY`); a negative offset leaves the empty image |
| Widget.ImageWidget.RotateLeft | image_widget.cpp:211-218 | the pixmap becomes its left turn |
| Widget.ImageWidget.RotateRight | image_widget.cpp:220-227 | the pixmap becomes its right turn |
| Widget.ImageWidget.ZoomIn | image_widget.cpp:229-261 | the pixmap becomes its zoom-in, with every gap filled from finished neighbours; an empty pixmap becomes the empty image |
| Widget.ImageWidget.Convolve | image_widget.cpp:263-288 | the pixmap becomes its convolution, truncated once per channel |

## Left out

- `mirrorHorizontally` (image_widget.cpp:73-87) is not modelled. Its copies overrun `aux` and the row, so the code has no defined result to model.
- `showHistogram`, `saveAsJPG`, `refreshImage` and `getImagePath` are not modelled. They cover chart construction, file I/O and the window, label and path plumbing.
- The `showHistogram` calls inside `equalize` are not modelled, because they only display.
- Decoding an image file into pixels is not modelled. Neither is `image.cpp`/`io.cpp`; the constructor takes the decoded image.
- The QRgb alpha byte, QImage formats and scanline padding are not modelled. A pixel is three channels in 0..255; `ColorMaps.Rgb` gives the 32-bit word only where the quantize finding needs it.
- ColorMaps.Luminance: the double sum `0.299 R + 0.587 G + 0.114 B` is taken as the exact rational `(299 R + 587 G + 114 B) / 1000`. For a gray pixel the double sum lands just below the exact value for about a quarter of the 256 tones (254 gives 253), and the program truncates it one lower; this is not modelled.
- ColorMaps.GrayscaleIdempotent: holds for the exact luminance only. In the program, grayscaling a gray image lowers about a quarter of the tones by one (254 becomes 253), so the program's `grayscale` is not idempotent.
- An empty image with one non-zero side (`Image(0, h, [])`) is admitted by `Image.Valid`, though Qt cannot hold it: an empty QImage is null, 0x0. On such an image `Geometry.ZoomOut` is `0` by `ceil(h / fy)` where the code gives the null image; the widget's invariant does not exclude this shape.
- Histograms.MatchHistogramOfGray: holds for the exact luminance only. In the program, `calculateHistogram` grayscales the already grayscaled pixmap again (image_widget.cpp:364), so the source table is built over tones one lower for about a quarter of the shades (254 counted as 253) than the `qRed` it is looked up with (image_widget.cpp:173).
- ColorMaps.AddBrightness: `brightness + qRed(...)` is C++ `int` arithmetic, which overflows (undefined behaviour) for a brightness within 255 of `INT_MAX`. The model's unbounded integers clamp those cases to 255 instead.
- ColorMaps.AddContrast: `contrast * qRed(...)` is C++ `int` arithmetic, which overflows (undefined behaviour) once `|contrast|` reaches 8,421,505. The model's unbounded integers clamp those cases to 255 or 0 instead.
- Histograms.Scaled: `factor * count` with `factor = 255.0 / (w * h)` as a `float` is taken as the exact `255 * count / (w * h)`. Float rounding of the factor is not modelled, and neither is 32-bit wrap-around of the counts.
- Convolution.Kernel: a `double` kernel narrowed to `float` is modelled as integer numerators over one positive scale. This is exact for every kernel of `mainwindow.cpp`; arbitrary real kernels are not modelled.
- Convolution.TruncatedTotalsStep: the accumulators are unbounded integers, so `int` overflow of `red`, `green` and `blue` is not modelled. It would need weights far beyond the kernels in use.
- The rule in `mainwindow.cpp` that chooses `add` is not modelled; `add` is a parameter.
- Widget.ImageWidget.Quantize: requires `tones <= 255`, the `uint8_t` range of the parameter.
- Widget.ImageWidget.Quantize: requires `ColorMaps.QuantizeFits`, that is `intervals / tones <= 255`. A bucket width of 256 (one tone over the full range) does not fit the `uint8_t` parameter of `retrieveNewQuantizedColor`; that float-to-`uint8_t` conversion is undefined in C++, so the case is excluded.
- Widget.ImageWidget.Quantize: writes each quantized gray at the pixel's own position. The code as written writes at the pixel's colour word; see "## Findings".
- Widget.ImageWidget.Equalize: requires a non-empty pixmap. For an empty pixmap `factor` is `255 / 0`, whose conversion to an integer is undefined.
- Widget.ImageWidget.MatchHistogram: requires a non-empty pixmap and target, for the same reason.
- Widget.ImageWidget.ZoomOut: requires `offsetX != 0` and `offsetY != 0`. The code takes both as divisors of `%`, which is undefined for 0. A negative offset is modelled: it gives the null image and no block is averaged.
- Widget.ImageWidget.ZoomIn: uses the corrected gap-filling order of `Geometry.ZoomInPass`. The as-written pass `Geometry.ZoomInAsWrittenPass` reads uninitialised memory, which the model takes as an arbitrary parameter `blank`; see "## Findings".
- Widget.ImageWidget.Convolve: uses the sum truncated once, as in `Convolution.ConvolvePass`. The as-written truncation after every window cell is `Convolution.ConvolveAsWrittenPass`; see "## Findings".
- Widget.ImageWidget.Quantize: saturates the quantized tone at 255 (`ColorMaps.RetrieveNewQuantizedColor`). The code converts a midpoint above 255 to `uint8_t`, which C++ leaves undefined; `ColorMaps.RetrieveNewQuantizedColorAsWritten` takes the low byte, as common x86 targets produce; see "## Findings".

## Findings

| source | as written | input that shows it | evidently intended | confidence | as-written member | corrected member |
|---|---|---|---|---|---|---|
| image_widget.cpp:301-306 | the float bucket midpoint is returned through `uint8_t`; for a midpoint above 255 this conversion is undefined in C++, and common x86 targets keep the low byte | min tone 0, max tone 255, 3 tones: buckets are 85 wide; tone 255 falls in the partial bucket `[255, 340)`, whose midpoint 297 becomes 41, below the 212 of tone 254 | the quantized tone stays in its bucket and quantizing keeps the order of tones (saturate at 255) | high (not executed) | ColorMaps.QuantizedColorWrapsAsWritten | ColorMaps.QuantizedColorMonotone |
| image_widget.cpp:107 | the new gray is written at `pixels[pixels[index]]`, using the pixel's QRgb word as the index | any pixel: an opaque QRgb word is at least `0xFF000000`, far past the end of any real image | write at `pixels[index]`, the pixel being quantized | high (not executed) | ColorMaps.QuantizeWritesOutsideImageAsWritten | ColorMaps.QuantizePass |
| image_widget.cpp:243-259 | one traversal fills odd rows in place, so a centre cell reads the cell below before that cell's row has been interpolated | a black 2x2 image with the new buffer holding white: the centre becomes gray 127 instead of black | every odd row averages two finished even rows | high (not executed) | Geometry.ZoomInReadsUninitialisedBuffer | Geometry.ZoomInUniform |
| image_widget.cpp:279-281 | `red += factor * qRed(...)` stores into an `int` after every window cell, dropping the fraction nine times | a white 3x3 image with the Gaussian kernel of mainwindow.cpp:9: the centre becomes 247 instead of 255 | the weighted sum truncated once, so a kernel of total weight 1 keeps a flat image | medium (not executed) | Convolution.GaussianDarkensWhiteAsWritten | Convolution.ConvolveNormalisedKeepsUniform |
