/**
 * `convolve`: a 3x3 kernel, flipped first, is slid over a snapshot of the
 * image; every pixel whose whole 3x3 window lies inside the image takes the
 * clamped weighted sum of its window (plus 127 when `add` is set), every other
 * pixel keeps its value.
 *
 * The `double` weights are modelled as integer numerators over a positive
 * `scale`; the kernels of the main window are all multiples of 1/16, so their
 * products and partial sums with channel values are exact in floating point
 * and the model's arithmetic is exact too.
 */
module Convolution {
  import opened Raster

  /** The kernel `kernel[r][c] == weights[3 * r + c] / scale`. */
  datatype Kernel = Kernel(weights: seq<int>, scale: nat)
  {
    predicate Valid()
    {
      |weights| == 9 && scale > 0
    }
  }

  // The kernels the main window passes to `convolve`.
  const Gaussian := Kernel([1, 2, 1, 2, 4, 2, 1, 2, 1], 16)
  const Laplacian := Kernel([0, -1, 0, -1, 4, -1, 0, -1, 0], 1)
  const HighPass := Kernel([-1, -1, -1, -1, 8, -1, -1, -1, -1], 1)
  const PrewittHx := Kernel([-1, 0, 1, -1, 0, 1, -1, 0, 1], 1)
  const PrewittHy := Kernel([-1, -1, -1, 0, 0, 0, 1, 1, 1], 1)
  const SobelHx := Kernel([-1, 0, 1, -2, 0, 2, -1, 0, 1], 1)
  const SobelHy := Kernel([-1, -2, -1, 0, 0, 0, 1, 2, 1], 1)

  // ------------------------------------------------------------------ flip

  /** `flip`: entry (`r`, `c`) takes entry (`2 - r`, `2 - c`), which reverses the nine weights. */
  function Flipped(w: seq<int>): (r: seq<int>)
    requires |w| == 9
    ensures |r| == 9 && forall t :: 0 <= t < 9 ==> r[t] == w[8 - t]
  {
    seq(9, t requires 0 <= t < 9 => w[3 * (2 - t / 3) + (2 - t % 3)])
  }

  lemma FlipInvolutive(w: seq<int>)
    requires |w| == 9
    ensures Flipped(Flipped(w)) == w
  {
  }

  /** The flip written out entry by entry. */
  lemma FlippedExplicit(w: seq<int>)
    requires |w| == 9
    ensures Flipped(w) == [w[8], w[7], w[6], w[5], w[4], w[3], w[2], w[1], w[0]]
  {
    var r := [w[8], w[7], w[6], w[5], w[4], w[3], w[2], w[1], w[0]];
    assert forall t :: 0 <= t < 9 ==> r[t] == w[8 - t];
  }

  /**
   * The Gaussian, Laplacian and high-pass kernels of the main window are
   * unchanged by the flip; the Prewitt and Sobel kernels change sign.
   */
  lemma FlipOfMainWindowKernels()
    ensures Flipped(Gaussian.weights) == Gaussian.weights
    ensures Flipped(Laplacian.weights) == Laplacian.weights
    ensures Flipped(HighPass.weights) == HighPass.weights
    ensures Flipped(PrewittHx.weights) == [1, 0, -1, 1, 0, -1, 1, 0, -1]
    ensures Flipped(PrewittHy.weights) == [1, 1, 1, 0, 0, 0, -1, -1, -1]
    ensures Flipped(SobelHx.weights) == [1, 0, -1, 2, 0, -2, 1, 0, -1]
    ensures Flipped(SobelHy.weights) == [1, 2, 1, 0, 0, 0, -1, -2, -1]
  {
    FlippedExplicit(Gaussian.weights);
    FlippedExplicit(Laplacian.weights);
    FlippedExplicit(HighPass.weights);
    FlippedExplicit(PrewittHx.weights);
    FlippedExplicit(PrewittHy.weights);
    FlippedExplicit(SobelHx.weights);
    FlippedExplicit(SobelHy.weights);
  }

  /** `flip` on the kernel's storage: a snapshot of the nine weights, then each entry from its mirror. */
  method Flip(kernel: array<int>)
    requires kernel.Length == 9
    modifies kernel
    ensures kernel[..] == Flipped(old(kernel[..]))
  {
    var copy := kernel[..];
    for i := 0 to 3
      invariant forall t :: 0 <= t < 9 ==> kernel[t] == if t < 3 * i then Flipped(copy)[t] else copy[t]
    {
      for j := 0 to 3
        invariant forall t :: 0 <= t < 9 ==> kernel[t] == if t < 3 * i + j then Flipped(copy)[t] else copy[t]
      {
        kernel[3 * i + j] := copy[3 * (2 - i) + (2 - j)];
      }
    }
    assert kernel[..] == Flipped(copy);
  }

  // ------------------------------------------------------------ arithmetic

  /** Conversion of `a / b` to `int` for a positive `b`: the quotient truncated toward zero. */
  function TruncDiv(a: int, b: int): (q: int)
    requires b > 0
    ensures a >= 0 ==> 0 <= q && q * b <= a < (q + 1) * b
    ensures a < 0 ==> q <= 0 && (q - 1) * b < a <= q * b
  {
    if a >= 0 then
      DivFacts(a, b);
      a / b
    else
      DivFacts(-a, b);
      -((-a) / b)
  }

  /** Euclidean division of a non-negative `n`, and the same bounds with the quotient negated. */
  lemma DivFacts(n: int, b: int)
    requires n >= 0 && b > 0
    ensures 0 <= n / b && (n / b) * b <= n < (n / b + 1) * b
    ensures (-(n / b) - 1) * b == -((n / b + 1) * b) && -(n / b) * b == -((n / b) * b)
  {
  }

  /** A multiple of `b` divides exactly, whatever its sign. */
  lemma TruncDivExact(q: int, b: int)
    requires b > 0
    ensures TruncDiv(q * b, b) == q
  {
    var r := TruncDiv(q * b, b);
    if q * b >= 0 {
      assert r * b <= q * b < (r + 1) * b;
      QuotientUnique(r, q, b);
    } else {
      assert (r - 1) * b < q * b <= r * b;
      assert (-r) * b <= (-q) * b < (-r + 1) * b;
      QuotientUnique(-r, -q, b);
    }
  }

  function Increment(add: bool): int
  {
    if add then 127 else 0
  }

  /** The nine weights added up. */
  function KernelSum(w: seq<int>): int
    requires |w| == 9
  {
    w[0] + w[1] + w[2] + w[3] + w[4] + w[5] + w[6] + w[7] + w[8]
  }

  // ---------------------------------------------------------- the window

  /**
   * Channel `ch` of window cell `t` around (`row`, `column`): row offset
   * `t / 3 - 1`, column offset `t % 3 - 1`; zero outside the image.
   */
  function Tap(img: Image, row: int, column: int, t: int, ch: Component): Channel
    requires img.Valid()
  {
    var r, c := row + t / 3 - 1, column + t % 3 - 1;
    if 0 <= r < img.height && 0 <= c < img.width then Get(img.At(r, c), ch) else 0
  }

  /** The whole window of (`row`, `column`) lies inside the image. */
  predicate Interior(width: int, height: int, row: int, column: int)
  {
    1 <= row && row + 1 < height && 1 <= column && column + 1 < width
  }

  /**
   * The channel accumulator as written, after the first `steps` window cells:
   * `acc += factor * value` converts back to `int` after every cell.
   */
  function TruncatedSum(img: Image, row: int, column: int, w: seq<int>, scale: nat, ch: Component, steps: nat): int
    requires img.Valid() && |w| == 9 && scale > 0 && steps <= 9
  {
    if steps == 0 then 0
    else TruncDiv(TruncatedSum(img, row, column, w, scale, ch, steps - 1) * scale
                  + w[steps - 1] * Tap(img, row, column, steps - 1, ch), scale)
  }

  /** The exact numerator of the weighted sum over the first `steps` window cells. */
  function WeightedSum(img: Image, row: int, column: int, w: seq<int>, ch: Component, steps: nat): int
    requires img.Valid() && |w| == 9 && steps <= 9
  {
    if steps == 0 then 0
    else WeightedSum(img, row, column, w, ch, steps - 1) + w[steps - 1] * Tap(img, row, column, steps - 1, ch)
  }

  /** The new pixel of an interior cell as written: truncation after every cell. */
  function WindowPixelAsWritten(img: Image, row: int, column: int, w: seq<int>, scale: nat, add: bool): Pixel
    requires img.Valid() && |w| == 9 && scale > 0
  {
    Pixel(CoerceWithinRange(TruncatedSum(img, row, column, w, scale, Red, 9) + Increment(add)),
          CoerceWithinRange(TruncatedSum(img, row, column, w, scale, Green, 9) + Increment(add)),
          CoerceWithinRange(TruncatedSum(img, row, column, w, scale, Blue, 9) + Increment(add)))
  }

  /** The new pixel of an interior cell: the weighted sum truncated once. */
  function WindowPixel(img: Image, row: int, column: int, w: seq<int>, scale: nat, add: bool): Pixel
    requires img.Valid() && |w| == 9 && scale > 0
  {
    Pixel(CoerceWithinRange(TruncDiv(WeightedSum(img, row, column, w, Red, 9), scale) + Increment(add)),
          CoerceWithinRange(TruncDiv(WeightedSum(img, row, column, w, Green, 9), scale) + Increment(add)),
          CoerceWithinRange(TruncDiv(WeightedSum(img, row, column, w, Blue, 9), scale) + Increment(add)))
  }

  function ConvolvedAsWrittenAt(img: Image, kernel: Kernel, add: bool, k: int): Pixel
    requires img.Valid() && kernel.Valid() && 0 <= k < |img.pixels|
  {
    Traversal(k, img.width, img.height);
    var row, column := k / img.width, k % img.width;
    if Interior(img.width, img.height, row, column)
    then WindowPixelAsWritten(img, row, column, Flipped(kernel.weights), kernel.scale, add)
    else img.pixels[k]
  }

  /** `convolve` as written. */
  function ConvolveAsWritten(img: Image, kernel: Kernel, add: bool): (r: Image)
    requires img.Valid() && kernel.Valid()
    ensures r.Valid() && r.width == img.width && r.height == img.height
  {
    Image(img.width, img.height,
          seq(|img.pixels|, k requires 0 <= k < |img.pixels| => ConvolvedAsWrittenAt(img, kernel, add, k)))
  }

  function ConvolvedAt(img: Image, kernel: Kernel, add: bool, k: int): Pixel
    requires img.Valid() && kernel.Valid() && 0 <= k < |img.pixels|
  {
    Traversal(k, img.width, img.height);
    var row, column := k / img.width, k % img.width;
    if Interior(img.width, img.height, row, column)
    then WindowPixel(img, row, column, Flipped(kernel.weights), kernel.scale, add)
    else img.pixels[k]
  }

  /** `convolve` with the weighted sum accumulated exactly and truncated once. */
  function Convolve(img: Image, kernel: Kernel, add: bool): (r: Image)
    requires img.Valid() && kernel.Valid()
    ensures r.Valid() && r.width == img.width && r.height == img.height
  {
    Image(img.width, img.height,
          seq(|img.pixels|, k requires 0 <= k < |img.pixels| => ConvolvedAt(img, kernel, add, k)))
  }

  // ------------------------------------------------------------ properties

  /** The weighted sum written out over the nine window cells. */
  lemma WeightedSumExpanded(img: Image, row: int, column: int, w: seq<int>, ch: Component)
    requires img.Valid() && |w| == 9
    ensures WeightedSum(img, row, column, w, ch, 9)
         == w[0] * Tap(img, row, column, 0, ch) + w[1] * Tap(img, row, column, 1, ch)
          + w[2] * Tap(img, row, column, 2, ch) + w[3] * Tap(img, row, column, 3, ch)
          + w[4] * Tap(img, row, column, 4, ch) + w[5] * Tap(img, row, column, 5, ch)
          + w[6] * Tap(img, row, column, 6, ch) + w[7] * Tap(img, row, column, 7, ch)
          + w[8] * Tap(img, row, column, 8, ch)
  {
    assert WeightedSum(img, row, column, w, ch, 1) == w[0] * Tap(img, row, column, 0, ch);
    assert WeightedSum(img, row, column, w, ch, 3)
        == WeightedSum(img, row, column, w, ch, 1) + w[1] * Tap(img, row, column, 1, ch) + w[2] * Tap(img, row, column, 2, ch);
    assert WeightedSum(img, row, column, w, ch, 5)
        == WeightedSum(img, row, column, w, ch, 3) + w[3] * Tap(img, row, column, 3, ch) + w[4] * Tap(img, row, column, 4, ch);
    assert WeightedSum(img, row, column, w, ch, 7)
        == WeightedSum(img, row, column, w, ch, 5) + w[5] * Tap(img, row, column, 5, ch) + w[6] * Tap(img, row, column, 6, ch);
  }

  /** Pixels whose window leaves the image keep their value. */
  lemma ConvolveKeepsBorder(img: Image, kernel: Kernel, add: bool, row: int, column: int)
    requires img.Valid() && kernel.Valid() && 0 <= row < img.height && 0 <= column < img.width
    requires !Interior(img.width, img.height, row, column)
    ensures Convolve(img, kernel, add).At(row, column) == img.At(row, column)
    ensures ConvolveAsWritten(img, kernel, add).At(row, column) == img.At(row, column)
  {
    PosInRange(img.width, img.height, row, column);
    PosDivMod(img.width, row, column);
  }

  /** An image less than three pixels wide or high has no interior and comes back unchanged. */
  lemma ConvolveSmallImage(img: Image, kernel: Kernel, add: bool)
    requires img.Valid() && kernel.Valid() && (img.width < 3 || img.height < 3)
    ensures Convolve(img, kernel, add) == img
    ensures ConvolveAsWritten(img, kernel, add) == img
  {
    forall k | 0 <= k < |img.pixels|
      ensures Convolve(img, kernel, add).pixels[k] == img.pixels[k]
      ensures ConvolveAsWritten(img, kernel, add).pixels[k] == img.pixels[k]
    {
      Traversal(k, img.width, img.height);
    }
  }

  lemma UniformTap(img: Image, p: Pixel, row: int, column: int, t: int, ch: Component)
    requires img.Valid() && Interior(img.width, img.height, row, column) && 0 <= t < 9
    requires forall k :: 0 <= k < |img.pixels| ==> img.pixels[k] == p
    ensures Tap(img, row, column, t, ch) == Get(p, ch)
  {
    PosInRange(img.width, img.height, row + t / 3 - 1, column + t % 3 - 1);
  }

  /** Nine weights applied to one value add up to the value times the kernel's total. */
  lemma ScaledKernelSum(w: seq<int>, v: int)
    requires |w| == 9
    ensures w[0] * v + w[1] * v + w[2] * v + w[3] * v + w[4] * v + w[5] * v + w[6] * v + w[7] * v + w[8] * v
         == v * KernelSum(w)
  {
  }

  /** The interior of a single-colour image: the weighted sum is the colour times the total weight. */
  lemma UniformWindow(img: Image, p: Pixel, row: int, column: int, w: seq<int>, ch: Component)
    requires img.Valid() && |w| == 9 && Interior(img.width, img.height, row, column)
    requires forall k :: 0 <= k < |img.pixels| ==> img.pixels[k] == p
    ensures WeightedSum(img, row, column, w, ch, 9) == Get(p, ch) * KernelSum(w)
  {
    forall t | 0 <= t < 9
      ensures Tap(img, row, column, t, ch) == Get(p, ch)
    {
      UniformTap(img, p, row, column, t, ch);
    }
    WeightedSumExpanded(img, row, column, w, ch);
    ScaledKernelSum(w, Get(p, ch));
  }

  lemma FlipKeepsSum(w: seq<int>)
    requires |w| == 9
    ensures KernelSum(Flipped(w)) == KernelSum(w)
  {
  }

  /** The channel a single-colour image's interior takes: the colour's channel times the total weight. */
  function UniformChannel(v: Channel, kernel: Kernel, add: bool): Channel
    requires kernel.Valid()
  {
    CoerceWithinRange(TruncDiv(v * KernelSum(kernel.weights), kernel.scale) + Increment(add))
  }

  /**
   * Inside a single-colour image every channel becomes the colour's channel
   * times the kernel's total weight, clamped after the increment.
   */
  lemma ConvolveUniformInterior(img: Image, p: Pixel, kernel: Kernel, add: bool, row: int, column: int)
    requires img.Valid() && kernel.Valid() && Interior(img.width, img.height, row, column)
    requires forall k :: 0 <= k < |img.pixels| ==> img.pixels[k] == p
    ensures Convolve(img, kernel, add).At(row, column)
         == Pixel(UniformChannel(p.red, kernel, add), UniformChannel(p.green, kernel, add), UniformChannel(p.blue, kernel, add))
  {
    PosInRange(img.width, img.height, row, column);
    PosDivMod(img.width, row, column);
    FlipKeepsSum(kernel.weights);
    UniformWindow(img, p, row, column, Flipped(kernel.weights), Red);
    UniformWindow(img, p, row, column, Flipped(kernel.weights), Green);
    UniformWindow(img, p, row, column, Flipped(kernel.weights), Blue);
  }

  /** A kernel whose weights add up to its scale, without the increment, leaves a single-colour image as it is. */
  lemma ConvolveNormalisedKeepsUniform(img: Image, p: Pixel, kernel: Kernel)
    requires img.Valid() && kernel.Valid() && KernelSum(kernel.weights) == kernel.scale
    requires forall k :: 0 <= k < |img.pixels| ==> img.pixels[k] == p
    ensures Convolve(img, kernel, false) == img
  {
    TruncDivExact(p.red, kernel.scale);
    TruncDivExact(p.green, kernel.scale);
    TruncDivExact(p.blue, kernel.scale);
    assert UniformChannel(p.red, kernel, false) == p.red;
    assert UniformChannel(p.green, kernel, false) == p.green;
    assert UniformChannel(p.blue, kernel, false) == p.blue;
    forall k | 0 <= k < |img.pixels|
      ensures Convolve(img, kernel, false).pixels[k] == img.pixels[k]
    {
      Traversal(k, img.width, img.height);
      var row, column := k / img.width, k % img.width;
      if Interior(img.width, img.height, row, column) {
        ConvolveUniformInterior(img, p, kernel, false, row, column);
        assert Convolve(img, kernel, false).pixels[k] == Convolve(img, kernel, false).At(row, column);
      }
    }
  }

  /**
   * A kernel whose weights add up to zero (the edge detectors) turns the
   * interior of a single-colour image into the grey of the increment.
   */
  lemma ConvolveZeroSumFlattens(img: Image, p: Pixel, kernel: Kernel, add: bool, row: int, column: int)
    requires img.Valid() && kernel.Valid() && KernelSum(kernel.weights) == 0
    requires Interior(img.width, img.height, row, column)
    requires forall k :: 0 <= k < |img.pixels| ==> img.pixels[k] == p
    ensures Convolve(img, kernel, add).At(row, column) == Gray(Increment(add))
  {
    ConvolveUniformInterior(img, p, kernel, add, row, column);
    TruncDivExact(0, kernel.scale);
  }

  /** With scale 1 the accumulator as written loses nothing: every step converts an integer. */
  lemma {:induction false} TruncatedSumScaleOne(img: Image, row: int, column: int, w: seq<int>, ch: Component, steps: nat)
    requires img.Valid() && |w| == 9 && steps <= 9
    ensures TruncatedSum(img, row, column, w, 1, ch, steps) == WeightedSum(img, row, column, w, ch, steps)
  {
    if steps > 0 {
      TruncatedSumScaleOne(img, row, column, w, ch, steps - 1);
      TruncDivExact(WeightedSum(img, row, column, w, ch, steps), 1);
    }
  }

  /**
   * A kernel of whole weights (scale 1: every kernel of the main window but
   * the Gaussian) convolves the same as written and corrected.
   */
  lemma ConvolveScaleOneAsWritten(img: Image, kernel: Kernel, add: bool)
    requires img.Valid() && kernel.Valid() && kernel.scale == 1
    ensures ConvolveAsWritten(img, kernel, add) == Convolve(img, kernel, add)
  {
    forall k | 0 <= k < |img.pixels|
      ensures ConvolveAsWritten(img, kernel, add).pixels[k] == Convolve(img, kernel, add).pixels[k]
    {
      Traversal(k, img.width, img.height);
      var row, column, w := k / img.width, k % img.width, Flipped(kernel.weights);
      TruncatedSumScaleOne(img, row, column, w, Red, 9);
      TruncatedSumScaleOne(img, row, column, w, Green, 9);
      TruncatedSumScaleOne(img, row, column, w, Blue, 9);
      TruncDivExact(WeightedSum(img, row, column, w, Red, 9), 1);
      TruncDivExact(WeightedSum(img, row, column, w, Green, 9), 1);
      TruncDivExact(WeightedSum(img, row, column, w, Blue, 9), 1);
    }
  }

  /** The kernel whose only weight is 1 at the centre. */
  const Identity := Kernel([0, 0, 0, 0, 1, 0, 0, 0, 0], 1)

  /** The identity kernel's window sum is the centre cell's channel. */
  lemma IdentityWindow(img: Image, row: int, column: int, ch: Component)
    requires img.Valid() && Interior(img.width, img.height, row, column)
    ensures WeightedSum(img, row, column, Identity.weights, ch, 9) == Get(img.At(row, column), ch)
  {
    WeightedSumExpanded(img, row, column, Identity.weights, ch);
  }

  /** Over an interior cell the identity kernel yields the cell itself. */
  lemma IdentityPixel(img: Image, row: int, column: int)
    requires img.Valid() && Interior(img.width, img.height, row, column)
    ensures WindowPixel(img, row, column, Identity.weights, Identity.scale, false) == img.At(row, column)
  {
    var p := img.At(row, column);
    IdentityWindow(img, row, column, Red);
    IdentityWindow(img, row, column, Green);
    IdentityWindow(img, row, column, Blue);
    TruncDivExact(p.red, 1);
    TruncDivExact(p.green, 1);
    TruncDivExact(p.blue, 1);
  }

  /** The identity kernel is unchanged by the flip. */
  lemma IdentitySymmetric()
    ensures Flipped(Identity.weights) == Identity.weights
  {
    FlippedExplicit(Identity.weights);
  }

  /** The identity kernel keeps cell `k`, inside or on the border. */
  lemma IdentityKeepsCell(img: Image, k: int)
    requires img.Valid() && 0 <= k < |img.pixels|
    ensures Convolve(img, Identity, false).pixels[k] == img.pixels[k]
  {
    Traversal(k, img.width, img.height);
    var row, column := k / img.width, k % img.width;
    if Interior(img.width, img.height, row, column) {
      IdentitySymmetric();
      IdentityPixel(img, row, column);
    }
  }

  /** The identity kernel without the increment leaves every image unchanged, as written and corrected. */
  lemma ConvolveIdentityKernel(img: Image)
    requires img.Valid()
    ensures Convolve(img, Identity, false) == img
    ensures ConvolveAsWritten(img, Identity, false) == img
  {
    forall k | 0 <= k < |img.pixels|
      ensures Convolve(img, Identity, false).pixels[k] == img.pixels[k]
    {
      IdentityKeepsCell(img, k);
    }
    ConvolveScaleOneAsWritten(img, Identity, false);
  }

  lemma MainWindowKernelSums()
    ensures KernelSum(Gaussian.weights) == Gaussian.scale
    ensures KernelSum(Laplacian.weights) == 0 && KernelSum(HighPass.weights) == 0
    ensures KernelSum(PrewittHx.weights) == 0 && KernelSum(PrewittHy.weights) == 0
    ensures KernelSum(SobelHx.weights) == 0 && KernelSum(SobelHy.weights) == 0
  {
  }

  /** One step of the accumulator as written over a window whose cells all hold `v`. */
  lemma TruncatedSumOverUniform(img: Image, row: int, column: int, w: seq<int>, scale: nat, ch: Component, steps: nat, v: int)
    requires img.Valid() && |w| == 9 && scale > 0 && 1 <= steps <= 9
    requires Tap(img, row, column, steps - 1, ch) == v
    ensures TruncatedSum(img, row, column, w, scale, ch, steps)
         == TruncDiv(TruncatedSum(img, row, column, w, scale, ch, steps - 1) * scale + w[steps - 1] * v, scale)
  {
  }

  /** One window cell of the Gaussian over the white window, as written. */
  lemma GaussianWhiteStep(white: Image, ch: Component, steps: nat, before: int, weight: int, after: int)
    requires white.width == 3 && white.height == 3 && |white.pixels| == 9
    requires forall k :: 0 <= k < 9 ==> white.pixels[k] == Gray(255)
    requires 1 <= steps <= 9 && Gaussian.weights[steps - 1] == weight
    requires TruncatedSum(white, 1, 1, Gaussian.weights, 16, ch, steps - 1) == before
    requires 0 <= before && 0 <= weight && after * 16 <= before * 16 + weight * 255 < after * 16 + 16
    ensures TruncatedSum(white, 1, 1, Gaussian.weights, 16, ch, steps) == after
  {
    var q := TruncDiv(before * 16 + weight * 255, 16);
    assert q * 16 <= before * 16 + weight * 255 < q * 16 + 16;
    UniformTap(white, Gray(255), 1, 1, steps - 1, ch);
    TruncatedSumOverUniform(white, 1, 1, Gaussian.weights, 16, ch, steps, 255);
  }

  /** Channel `ch` of the accumulator as written over the white 3x3 window. */
  lemma GaussianWhiteChannelAsWritten(white: Image, ch: Component)
    requires white.width == 3 && white.height == 3 && |white.pixels| == 9
    requires forall k :: 0 <= k < 9 ==> white.pixels[k] == Gray(255)
    ensures TruncatedSum(white, 1, 1, Gaussian.weights, 16, ch, 9) == 247
  {
    GaussianWhiteMiddleRow(white, ch);
    GaussianWhiteStep(white, ch, 7, 186, 1, 201);
    GaussianWhiteStep(white, ch, 8, 201, 2, 232);
    GaussianWhiteStep(white, ch, 9, 232, 1, 247);
  }

  /** The accumulator as written after the top two rows of the white window. */
  lemma GaussianWhiteMiddleRow(white: Image, ch: Component)
    requires white.width == 3 && white.height == 3 && |white.pixels| == 9
    requires forall k :: 0 <= k < 9 ==> white.pixels[k] == Gray(255)
    ensures TruncatedSum(white, 1, 1, Gaussian.weights, 16, ch, 6) == 186
  {
    GaussianWhiteTopRow(white, ch);
    GaussianWhiteStep(white, ch, 4, 61, 2, 92);
    GaussianWhiteStep(white, ch, 5, 92, 4, 155);
    GaussianWhiteStep(white, ch, 6, 155, 2, 186);
  }

  /** The accumulator as written after the top row of the white window. */
  lemma GaussianWhiteTopRow(white: Image, ch: Component)
    requires white.width == 3 && white.height == 3 && |white.pixels| == 9
    requires forall k :: 0 <= k < 9 ==> white.pixels[k] == Gray(255)
    ensures TruncatedSum(white, 1, 1, Gaussian.weights, 16, ch, 3) == 61
  {
    GaussianWhiteStep(white, ch, 1, 0, 1, 15);
    GaussianWhiteStep(white, ch, 2, 15, 2, 46);
    GaussianWhiteStep(white, ch, 3, 46, 1, 61);
  }

  /**
   * As written, the Gaussian blur darkens a white image: the accumulator
   * drops the fraction after each of the nine cells, so the centre of a
   * white 3x3 image comes out 247 instead of 255.
   */
  lemma GaussianDarkensWhiteAsWritten(white: Image)
    requires white.width == 3 && white.height == 3 && |white.pixels| == 9
    requires forall k :: 0 <= k < 9 ==> white.pixels[k] == Gray(255)
    ensures ConvolveAsWritten(white, Gaussian, false).At(1, 1) == Gray(247)
    ensures Convolve(white, Gaussian, false).At(1, 1) == Gray(255)
  {
    MainWindowKernelSums();
    ConvolveNormalisedKeepsUniform(white, Gray(255), Gaussian);
    FlipOfMainWindowKernels();
    GaussianWhiteChannelAsWritten(white, Red);
    GaussianWhiteChannelAsWritten(white, Green);
    GaussianWhiteChannelAsWritten(white, Blue);
    PosDivMod(3, 1, 1);
    assert ConvolveAsWritten(white, Gaussian, false).At(1, 1) == ConvolvedAsWrittenAt(white, Gaussian, false, 4);
  }

  // ---------------------------------------------------------------- passes

  /** The three channel accumulators of the closure as written, after `steps` window cells. */
  ghost predicate TruncatedTotals(img: Image, row: int, column: int, w: seq<int>, scale: nat, steps: nat,
                                  red: int, green: int, blue: int)
    requires img.Valid() && |w| == 9 && scale > 0 && steps <= 9
  {
    red == TruncatedSum(img, row, column, w, scale, Red, steps)
    && green == TruncatedSum(img, row, column, w, scale, Green, steps)
    && blue == TruncatedSum(img, row, column, w, scale, Blue, steps)
  }

  /** The three exact channel accumulators after `steps` window cells. */
  ghost predicate WeightedTotals(img: Image, row: int, column: int, w: seq<int>, steps: nat,
                                 red: int, green: int, blue: int)
    requires img.Valid() && |w| == 9 && steps <= 9
  {
    red == WeightedSum(img, row, column, w, Red, steps)
    && green == WeightedSum(img, row, column, w, Green, steps)
    && blue == WeightedSum(img, row, column, w, Blue, steps)
  }

  /** Window offset (`i`, `j`) is window cell `3 * (i + 1) + (j + 1)`. */
  lemma TapOffsets(i: int, j: int)
    requires -1 <= i <= 1 && -1 <= j <= 1
    ensures (3 * (i + 1) + (j + 1)) / 3 - 1 == i && (3 * (i + 1) + (j + 1)) % 3 - 1 == j
  {
  }

  /** One step of the closure as written: the window cell at offset (`i`, `j`) holds `p`. */
  lemma TruncatedTotalsStep(img: Image, row: int, column: int, w: seq<int>, scale: nat, i: int, j: int,
                            red: int, green: int, blue: int, p: Pixel)
    requires img.Valid() && |w| == 9 && scale > 0 && -1 <= i <= 1 && -1 <= j <= 1
    requires TruncatedTotals(img, row, column, w, scale, 3 * (i + 1) + (j + 1), red, green, blue)
    requires 0 <= row + i < img.height && 0 <= column + j < img.width && p == img.At(row + i, column + j)
    ensures TruncatedTotals(img, row, column, w, scale, 3 * (i + 1) + (j + 1) + 1,
                            TruncDiv(red * scale + w[3 * (i + 1) + (j + 1)] * p.red, scale),
                            TruncDiv(green * scale + w[3 * (i + 1) + (j + 1)] * p.green, scale),
                            TruncDiv(blue * scale + w[3 * (i + 1) + (j + 1)] * p.blue, scale))
  {
    TapOffsets(i, j);
  }

  /** One step of the exact accumulation: the window cell at offset (`i`, `j`) holds `p`. */
  lemma WeightedTotalsStep(img: Image, row: int, column: int, w: seq<int>, i: int, j: int,
                           red: int, green: int, blue: int, p: Pixel)
    requires img.Valid() && |w| == 9 && -1 <= i <= 1 && -1 <= j <= 1
    requires WeightedTotals(img, row, column, w, 3 * (i + 1) + (j + 1), red, green, blue)
    requires 0 <= row + i < img.height && 0 <= column + j < img.width && p == img.At(row + i, column + j)
    ensures WeightedTotals(img, row, column, w, 3 * (i + 1) + (j + 1) + 1,
                           red + w[3 * (i + 1) + (j + 1)] * p.red,
                           green + w[3 * (i + 1) + (j + 1)] * p.green,
                           blue + w[3 * (i + 1) + (j + 1)] * p.blue)
  {
    TapOffsets(i, j);
  }

  /** The buffer cell of window offset (`i`, `j`) of cell `index`: `index + i * width + j`. */
  lemma WindowIndex(width: nat, height: nat, index: int, i: int, j: int)
    requires 0 <= index < width * height && -1 <= i <= 1 && -1 <= j <= 1
    requires 0 <= index / width + i < height && 0 <= index % width + j < width
    ensures index + i * width + j == Pos(width, index / width + i, index % width + j)
    ensures 0 <= index + i * width + j < width * height
  {
    Traversal(index, width, height);
    var row, column := index / width, index % width;
    if i == -1 {
      MulSucc(row - 1, width);
    } else if i == 1 {
      MulSucc(row, width);
    }
    PosInRange(width, height, row + i, column + j);
  }

  /**
   * The closure of `convolve` as written, for cell `index`: nine steps over
   * the window reading the snapshot `img`, returning before any write as
   * soon as a window cell falls outside the image.
   */
  method ConvolveCellAsWritten(img: Image, index: int, flipped: seq<int>, scale: nat, add: bool)
    returns (written: bool, value: Pixel)
    requires img.Valid() && 0 <= index < |img.pixels| && |flipped| == 9 && scale > 0
    ensures img.width > 0
    ensures written <==> Interior(img.width, img.height, index / img.width, index % img.width)
    ensures written ==> value == WindowPixelAsWritten(img, index / img.width, index % img.width, flipped, scale, add)
  {
    Traversal(index, img.width, img.height);
    var row, column := index / img.width, index % img.width;
    written, value := false, img.pixels[index];
    var red, green, blue := 0, 0, 0;
    for i := -1 to 2
      invariant i > -1 ==> 1 <= row && 1 <= column && column + 1 < img.width
      invariant i > 1 ==> row + 1 < img.height
      invariant TruncatedTotals(img, row, column, flipped, scale, 3 * (i + 1), red, green, blue)
    {
      var inside;
      inside, red, green, blue := WindowRowAsWritten(img, index, i, flipped, scale, red, green, blue);
      if !inside {
        return;
      }
    }
    var increment := Increment(add);
    value := Pixel(CoerceWithinRange(red + increment), CoerceWithinRange(green + increment), CoerceWithinRange(blue + increment));
    written := true;
  }

  /**
   * The inner loop of the closure as written, over window row `i`: `inside`
   * tells whether all three cells of the row lie in the image, and then the
   * accumulators have taken them in.
   */
  method WindowRowAsWritten(img: Image, index: int, i: int, flipped: seq<int>, scale: nat, red0: int, green0: int, blue0: int)
    returns (inside: bool, red: int, green: int, blue: int)
    requires img.Valid() && 0 <= index < |img.pixels| && |flipped| == 9 && scale > 0 && -1 <= i <= 1
    requires img.width > 0
    requires TruncatedTotals(img, index / img.width, index % img.width, flipped, scale, 3 * (i + 1), red0, green0, blue0)
    ensures inside <==> 1 <= index % img.width && index % img.width + 1 < img.width && 0 <= index / img.width + i < img.height
    ensures inside ==> TruncatedTotals(img, index / img.width, index % img.width, flipped, scale, 3 * (i + 1) + 3, red, green, blue)
  {
    var row, column := index / img.width, index % img.width;
    inside, red, green, blue := false, red0, green0, blue0;
    for j := -1 to 2
      invariant j > -1 ==> 1 <= column && 0 <= row + i < img.height
      invariant j > 1 ==> column + 1 < img.width
      invariant TruncatedTotals(img, row, column, flipped, scale, 3 * (i + 1) + (j + 1), red, green, blue)
    {
      if column + j < 0 || column + j >= img.width {
        return;
      }
      if row + i < 0 || row + i >= img.height {
        return;
      }
      red, green, blue := AddTapAsWritten(img, index, i, j, flipped, scale, red, green, blue);
    }
    inside := true;
  }

  /** One window cell of the closure as written: `acc += factor * value`, truncated back to `int`. */
  method AddTapAsWritten(img: Image, index: int, i: int, j: int, flipped: seq<int>, scale: nat, red0: int, green0: int, blue0: int)
    returns (red: int, green: int, blue: int)
    requires img.Valid() && 0 <= index < |img.pixels| && |flipped| == 9 && scale > 0 && -1 <= i <= 1 && -1 <= j <= 1
    requires img.width > 0
    requires 0 <= index / img.width + i < img.height && 0 <= index % img.width + j < img.width
    requires TruncatedTotals(img, index / img.width, index % img.width, flipped, scale, 3 * (i + 1) + (j + 1), red0, green0, blue0)
    ensures TruncatedTotals(img, index / img.width, index % img.width, flipped, scale, 3 * (i + 1) + (j + 1) + 1, red, green, blue)
  {
    var row, column := index / img.width, index % img.width;
    WindowIndex(img.width, img.height, index, i, j);
    var targetPixel := img.pixels[index + i * img.width + j];
    assert targetPixel == img.At(row + i, column + j);
    var factor := flipped[3 * (i + 1) + (j + 1)];
    TruncatedTotalsStep(img, row, column, flipped, scale, i, j, red0, green0, blue0, targetPixel);
    red := TruncDiv(red0 * scale + factor * targetPixel.red, scale);
    green := TruncDiv(green0 * scale + factor * targetPixel.green, scale);
    blue := TruncDiv(blue0 * scale + factor * targetPixel.blue, scale);
  }

  /** The closure of `convolve` with an exact accumulator that is truncated once, at the end. */
  method ConvolveCell(img: Image, index: int, flipped: seq<int>, scale: nat, add: bool)
    returns (written: bool, value: Pixel)
    requires img.Valid() && 0 <= index < |img.pixels| && |flipped| == 9 && scale > 0
    ensures img.width > 0
    ensures written <==> Interior(img.width, img.height, index / img.width, index % img.width)
    ensures written ==> value == WindowPixel(img, index / img.width, index % img.width, flipped, scale, add)
  {
    Traversal(index, img.width, img.height);
    var row, column := index / img.width, index % img.width;
    written, value := false, img.pixels[index];
    var red, green, blue := 0, 0, 0;
    for i := -1 to 2
      invariant i > -1 ==> 1 <= row && 1 <= column && column + 1 < img.width
      invariant i > 1 ==> row + 1 < img.height
      invariant WeightedTotals(img, row, column, flipped, 3 * (i + 1), red, green, blue)
    {
      var inside;
      inside, red, green, blue := WindowRow(img, index, i, flipped, red, green, blue);
      if !inside {
        return;
      }
    }
    var increment := Increment(add);
    value := Pixel(CoerceWithinRange(TruncDiv(red, scale) + increment),
                   CoerceWithinRange(TruncDiv(green, scale) + increment),
                   CoerceWithinRange(TruncDiv(blue, scale) + increment));
    written := true;
  }

  /** The inner loop of the closure with exact accumulators, over window row `i`. */
  method WindowRow(img: Image, index: int, i: int, flipped: seq<int>, red0: int, green0: int, blue0: int)
    returns (inside: bool, red: int, green: int, blue: int)
    requires img.Valid() && 0 <= index < |img.pixels| && |flipped| == 9 && -1 <= i <= 1
    requires img.width > 0
    requires WeightedTotals(img, index / img.width, index % img.width, flipped, 3 * (i + 1), red0, green0, blue0)
    ensures inside <==> 1 <= index % img.width && index % img.width + 1 < img.width && 0 <= index / img.width + i < img.height
    ensures inside ==> WeightedTotals(img, index / img.width, index % img.width, flipped, 3 * (i + 1) + 3, red, green, blue)
  {
    var row, column := index / img.width, index % img.width;
    inside, red, green, blue := false, red0, green0, blue0;
    for j := -1 to 2
      invariant j > -1 ==> 1 <= column && 0 <= row + i < img.height
      invariant j > 1 ==> column + 1 < img.width
      invariant WeightedTotals(img, row, column, flipped, 3 * (i + 1) + (j + 1), red, green, blue)
    {
      if column + j < 0 || column + j >= img.width {
        return;
      }
      if row + i < 0 || row + i >= img.height {
        return;
      }
      red, green, blue := AddTap(img, index, i, j, flipped, red, green, blue);
    }
    inside := true;
  }

  /** One window cell with exact accumulators: `acc += weight * value`. */
  method AddTap(img: Image, index: int, i: int, j: int, flipped: seq<int>, red0: int, green0: int, blue0: int)
    returns (red: int, green: int, blue: int)
    requires img.Valid() && 0 <= index < |img.pixels| && |flipped| == 9 && -1 <= i <= 1 && -1 <= j <= 1
    requires img.width > 0
    requires 0 <= index / img.width + i < img.height && 0 <= index % img.width + j < img.width
    requires WeightedTotals(img, index / img.width, index % img.width, flipped, 3 * (i + 1) + (j + 1), red0, green0, blue0)
    ensures WeightedTotals(img, index / img.width, index % img.width, flipped, 3 * (i + 1) + (j + 1) + 1, red, green, blue)
  {
    var row, column := index / img.width, index % img.width;
    WindowIndex(img.width, img.height, index, i, j);
    var targetPixel := img.pixels[index + i * img.width + j];
    assert targetPixel == img.At(row + i, column + j);
    var factor := flipped[3 * (i + 1) + (j + 1)];
    WeightedTotalsStep(img, row, column, flipped, i, j, red0, green0, blue0, targetPixel);
    red := red0 + factor * targetPixel.red;
    green := green0 + factor * targetPixel.green;
    blue := blue0 + factor * targetPixel.blue;
  }

  /** Cell `index` of the traversal: the closure's write, when it reaches it, lands on that cell. */
  method ConvolveStepAsWritten(img: Image, kernel: Kernel, add: bool, flipped: seq<int>, buffer: array<Pixel>, index: int)
    requires img.Valid() && kernel.Valid() && flipped == Flipped(kernel.weights)
    requires buffer.Length == |img.pixels| && 0 <= index < |img.pixels| && buffer[index] == img.pixels[index]
    modifies buffer
    ensures buffer[..] == old(buffer[..])[index := ConvolveAsWritten(img, kernel, add).pixels[index]]
  {
    var written, value := ConvolveCellAsWritten(img, index, flipped, kernel.scale, add);
    if written {
      buffer[index] := value;
    }
  }

  /**
   * `convolve` as written: a flipped copy of the kernel, a snapshot of the
   * image to read from, and a traversal that writes only the pixels the
   * closure reaches the end for.
   */
  method ConvolveAsWrittenPass(img: Image, kernel: Kernel, add: bool) returns (result: Image)
    requires img.Valid() && kernel.Valid()
    ensures result == ConvolveAsWritten(img, kernel, add)
  {
    var kernelCopy := new int[9](t requires 0 <= t < 9 => kernel.weights[t]);
    assert kernelCopy[..] == kernel.weights;
    Flip(kernelCopy);
    var flipped := kernelCopy[..];
    var size := img.width * img.height;
    var buffer := new Pixel[size](k requires 0 <= k < size => img.pixels[k]);
    ghost var after := ConvolveAsWritten(img, kernel, add).pixels;
    assert Stage(buffer[..], img.pixels, after, 0);
    for i := 0 to size
      invariant Stage(buffer[..], img.pixels, after, i)
    {
      StageStep(buffer[..], img.pixels, after, i);
      ConvolveStepAsWritten(img, kernel, add, flipped, buffer, i);
    }
    StageDone(buffer[..], img.pixels, after);
    result := Image(img.width, img.height, buffer[..]);
  }

  /** Cell `index` of the traversal: the closure's write, when it reaches it, lands on that cell. */
  method ConvolveStep(img: Image, kernel: Kernel, add: bool, flipped: seq<int>, buffer: array<Pixel>, index: int)
    requires img.Valid() && kernel.Valid() && flipped == Flipped(kernel.weights)
    requires buffer.Length == |img.pixels| && 0 <= index < |img.pixels| && buffer[index] == img.pixels[index]
    modifies buffer
    ensures buffer[..] == old(buffer[..])[index := Convolve(img, kernel, add).pixels[index]]
  {
    var written, value := ConvolveCell(img, index, flipped, kernel.scale, add);
    if written {
      buffer[index] := value;
    }
  }

  /** `convolve` with the accumulator truncated once per channel. */
  method ConvolvePass(img: Image, kernel: Kernel, add: bool) returns (result: Image)
    requires img.Valid() && kernel.Valid()
    ensures result == Convolve(img, kernel, add)
  {
    var kernelCopy := new int[9](t requires 0 <= t < 9 => kernel.weights[t]);
    assert kernelCopy[..] == kernel.weights;
    Flip(kernelCopy);
    var flipped := kernelCopy[..];
    var size := img.width * img.height;
    var buffer := new Pixel[size](k requires 0 <= k < size => img.pixels[k]);
    ghost var after := Convolve(img, kernel, add).pixels;
    assert Stage(buffer[..], img.pixels, after, 0);
    for i := 0 to size
      invariant Stage(buffer[..], img.pixels, after, i)
    {
      StageStep(buffer[..], img.pixels, after, i);
      ConvolveStep(img, kernel, add, flipped, buffer, i);
    }
    StageDone(buffer[..], img.pixels, after);
    result := Image(img.width, img.height, buffer[..]);
  }
}
