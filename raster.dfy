/**
 * The raster every transform of the image widget reads and writes: a flat,
 * row-major buffer of `width * height` RGB pixels, the arithmetic of the
 * pixel traversal (`onPixels`), the clamp shared by the colour maps and the
 * convolution, and the truncating per-channel mean used by the zoom passes.
 */
module Raster {

  /** One 8-bit colour channel (a `qRed`/`qGreen`/`qBlue` value). */
  type Channel = x: int | 0 <= x <= 255

  /** An opaque RGB pixel; the QRgb alpha byte is not modelled. */
  datatype Pixel = Pixel(red: Channel, green: Channel, blue: Channel)

  datatype Component = Red | Green | Blue

  function Get(p: Pixel, ch: Component): Channel
  {
    match ch
    case Red => p.red
    case Green => p.green
    case Blue => p.blue
  }

  /** `QColor(v, v, v)`. */
  function Gray(v: Channel): Pixel
  {
    Pixel(v, v, v)
  }

  /** A decoded image: row-major pixels, `pixels[row * width + column]`. */
  datatype Image = Image(width: nat, height: nat, pixels: seq<Pixel>)
  {
    predicate Valid()
    {
      |pixels| == width * height
    }

    /** The pixel at (`row`, `column`). */
    function At(row: int, column: int): Pixel
      requires Valid() && 0 <= row < height && 0 <= column < width
    {
      PosInRange(width, height, row, column);
      pixels[Pos(width, row, column)]
    }
  }

  /** Linear index of the cell at (`row`, `column`) in a buffer `width` wide. */
  function Pos(width: int, row: int, column: int): int
  {
    row * width + column
  }

  lemma PosInRange(width: nat, height: nat, row: int, column: int)
    requires 0 <= row < height && 0 <= column < width
    ensures 0 <= Pos(width, row, column) < width * height
  {
    assert (height - 1 - row) * width >= 0;
    assert Pos(width, row, column) < (row + 1) * width;
  }

  lemma MulAtLeast(d: int, w: int)
    requires d >= 1 && w > 0
    ensures d * w >= w
  {
  }

  lemma MulSucc(a: int, b: int)
    ensures (a + 1) * b == a * b + b
  {
  }

  /** The only multiple of a positive `w` strictly between `-w` and `w` is zero. */
  lemma MulSmall(d: int, w: int)
    requires w > 0 && -w < d * w < w
    ensures d == 0
  {
    if d > 0 {
      MulAtLeast(d, w);
    } else if d < 0 {
      MulAtLeast(-d, w);
    }
  }

  /** Row and column are recovered from a linear index by `/` and `%`. */
  lemma PosDivMod(width: int, row: int, column: int)
    requires 0 <= column < width
    ensures Pos(width, row, column) / width == row
    ensures Pos(width, row, column) % width == column
  {
    var p := Pos(width, row, column);
    var d := row - p / width;
    assert d * width == p % width - column;
    MulSmall(d, width);
  }

  /**
   * The traversal of `onPixels`: cell `index` has column `index % width` and
   * row `index / width`, inside the image, and `row * width + column == index`.
   */
  lemma Traversal(index: int, width: nat, height: nat)
    requires 0 <= index < width * height
    ensures width > 0
    ensures 0 <= index / width < height && 0 <= index % width < width
    ensures Pos(width, index / width, index % width) == index
  {
  }

  /** Distance between two integers. */
  function Distance(a: int, b: int): nat
  {
    if a <= b then b - a else a - b
  }

  /**
   * `coerceWithinRange`: the channel value nearest to `value`; values already
   * in range pass through.
   */
  function CoerceWithinRange(value: int): (r: Channel)
    ensures 0 <= value <= 255 ==> r == value
    ensures forall c: Channel :: Distance(r, value) <= Distance(c, value)
  {
    if value > 255 then 255
    else if value < 0 then 0
    else value
  }

  lemma CoerceMonotone(a: int, b: int)
    requires a <= b
    ensures CoerceWithinRange(a) <= CoerceWithinRange(b)
  {
  }

  /** Sum of one channel over a list of pixels, accumulated front to back. */
  function Sum(s: seq<Pixel>, ch: Component): int
  {
    if s == [] then 0 else Sum(s[..|s| - 1], ch) + Get(s[|s| - 1], ch)
  }

  lemma SumAppend(s: seq<Pixel>, p: Pixel)
    ensures forall ch :: Sum(s + [p], ch) == Sum(s, ch) + Get(p, ch)
  {
    assert (s + [p])[..|s|] == s;
  }

  lemma {:induction false} SumBounds(s: seq<Pixel>, ch: Component)
    ensures 0 <= Sum(s, ch) <= 255 * |s|
  {
    if s != [] {
      SumBounds(s[..|s| - 1], ch);
    }
  }

  lemma {:induction false} SumOfCopies(s: seq<Pixel>, p: Pixel, ch: Component)
    requires forall k :: 0 <= k < |s| ==> s[k] == p
    ensures Sum(s, ch) == |s| * Get(p, ch)
  {
    if s != [] {
      SumOfCopies(s[..|s| - 1], p, ch);
    }
  }

  /** Integer quotient of a non-negative sum by a positive count. */
  function MeanOf(total: int, count: int): (r: Channel)
    requires 0 <= total <= 255 * count && count > 0
    ensures r * count <= total < (r + 1) * count
  {
    total / count
  }

  /**
   * The truncating per-channel mean of a non-empty list of pixels
   * (`QColor(red / n, green / n, blue / n)`): each channel is the largest
   * value whose multiple by the count does not exceed the channel's sum.
   */
  function Mean(s: seq<Pixel>): Pixel
    requires |s| > 0
  {
    SumBounds(s, Red);
    SumBounds(s, Green);
    SumBounds(s, Blue);
    Pixel(MeanOf(Sum(s, Red), |s|), MeanOf(Sum(s, Green), |s|), MeanOf(Sum(s, Blue), |s|))
  }

  /** Each channel of the mean is the largest value whose multiple by the count fits in the channel's sum. */
  lemma MeanBounds(s: seq<Pixel>, ch: Component)
    requires |s| > 0
    ensures Get(Mean(s), ch) * |s| <= Sum(s, ch) < (Get(Mean(s), ch) + 1) * |s|
  {
    SumBounds(s, ch);
  }

  /** Each channel of the mean is the channel's sum divided by the count. */
  lemma MeanBySums(s: seq<Pixel>)
    requires |s| > 0
    ensures 0 <= Sum(s, Red) / |s| <= 255 && 0 <= Sum(s, Green) / |s| <= 255 && 0 <= Sum(s, Blue) / |s| <= 255
    ensures Mean(s) == Pixel(Sum(s, Red) / |s|, Sum(s, Green) / |s|, Sum(s, Blue) / |s|)
  {
    SumBounds(s, Red);
    SumBounds(s, Green);
    SumBounds(s, Blue);
    var p := Mean(s);
    assert p.red == MeanOf(Sum(s, Red), |s|) == Sum(s, Red) / |s|;
    assert p.green == MeanOf(Sum(s, Green), |s|) == Sum(s, Green) / |s|;
    assert p.blue == MeanOf(Sum(s, Blue), |s|) == Sum(s, Blue) / |s|;
  }

  lemma QuotientUnique(m: int, v: int, n: int)
    requires n > 0 && m * n <= v * n < (m + 1) * n
    ensures m == v
  {
    assert (v - m) * n == v * n - m * n;
    assert (m + 1) * n == m * n + n;
    MulSmall(v - m, n);
  }

  lemma MeanChannelOfCopies(s: seq<Pixel>, p: Pixel, ch: Component)
    requires |s| > 0
    requires forall k :: 0 <= k < |s| ==> s[k] == p
    ensures Get(Mean(s), ch) == Get(p, ch)
  {
    SumOfCopies(s, p, ch);
    MeanBounds(s, ch);
    var m, v, n := Get(Mean(s), ch), Get(p, ch), |s|;
    assert m * n <= Sum(s, ch) < (m + 1) * n;
    assert Sum(s, ch) == v * n;
    QuotientUnique(m, v, n);
  }

  /** Averaging copies of one pixel gives that pixel back. */
  lemma MeanOfCopies(s: seq<Pixel>, p: Pixel)
    requires |s| > 0
    requires forall k :: 0 <= k < |s| ==> s[k] == p
    ensures Mean(s) == p
  {
    MeanChannelOfCopies(s, p, Red);
    MeanChannelOfCopies(s, p, Green);
    MeanChannelOfCopies(s, p, Blue);
  }

  /**
   * `onPixels` driving an action that rewrites each pixel from its own value
   * (the closures of the colour maps): the image is copied into a buffer,
   * every cell is visited in row-major order and the action's result replaces
   * the pixel at `data.index`.
   */
  method OnPixels(base: Image, action: Pixel --> Pixel) returns (result: Image)
    requires base.Valid()
    requires forall k :: 0 <= k < |base.pixels| ==> action.requires(base.pixels[k])
    ensures result.width == base.width && result.height == base.height
    ensures |result.pixels| == |base.pixels|
    ensures forall k :: 0 <= k < |base.pixels| ==> result.pixels[k] == action(base.pixels[k])
  {
    var size := base.width * base.height;
    var buffer := new Pixel[size](k requires 0 <= k < size => base.pixels[k]);
    for i := 0 to size
      invariant forall k :: 0 <= k < i ==> buffer[k] == action(base.pixels[k])
      invariant forall k :: i <= k < size ==> buffer[k] == base.pixels[k]
    {
      buffer[i] := action(buffer[i]);
    }
    result := Image(base.width, base.height, buffer[..]);
  }

  /** A traversal that has replaced the cells before `i` of `before` by those of `after`. */
  ghost predicate Stage(s: seq<Pixel>, before: seq<Pixel>, after: seq<Pixel>, i: int)
  {
    |s| == |before| == |after|
    && forall k :: 0 <= k < |s| ==> s[k] == if k < i then after[k] else before[k]
  }

  lemma StageStep(s: seq<Pixel>, before: seq<Pixel>, after: seq<Pixel>, i: int)
    requires Stage(s, before, after, i) && 0 <= i < |s|
    ensures s[i] == before[i]
    ensures Stage(s[i := after[i]], before, after, i + 1)
  {
  }

  lemma StageDone(s: seq<Pixel>, before: seq<Pixel>, after: seq<Pixel>)
    requires Stage(s, before, after, |s|)
    ensures s == after
  {
  }
}
