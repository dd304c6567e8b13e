/**
 * The geometric transforms of the image widget: the vertical mirror, done by
 * swapping rows in place, and the two quarter turns, which scatter each
 * pixel into a fresh buffer with width and height swapped.
 */
module Geometry {
  import opened Raster

  // ------------------------------------------------------------ mirroring

  /** Index of the cell in the same column and the mirrored row. */
  function MirrorIndex(width: nat, height: nat, index: int): (m: int)
    requires 0 <= index < width * height
    ensures 0 <= m < width * height
  {
    Traversal(index, width, height);
    PosInRange(width, height, height - 1 - index / width, index % width);
    Pos(width, height - 1 - index / width, index % width)
  }

  function MirroredAt(img: Image, index: int): Pixel
    requires img.Valid() && 0 <= index < |img.pixels|
  {
    img.pixels[MirrorIndex(img.width, img.height, index)]
  }

  /** `mirrorVertically`: row `r` and row `height - 1 - r` trade places. */
  function MirrorVertically(img: Image): (r: Image)
    requires img.Valid()
    ensures r.Valid() && r.width == img.width && r.height == img.height
  {
    img.(pixels := seq(|img.pixels|, k requires 0 <= k < |img.pixels| => MirroredAt(img, k)))
  }

  /** The mirrored image holds at (`row`, `column`) the original pixel at (`height - 1 - row`, `column`). */
  lemma MirrorVerticallyAt(img: Image, row: int, column: int)
    requires img.Valid() && 0 <= row < img.height && 0 <= column < img.width
    ensures 0 <= Pos(img.width, row, column) < |img.pixels|
    ensures 0 <= Pos(img.width, img.height - 1 - row, column) < |img.pixels|
    ensures MirrorVertically(img).pixels[Pos(img.width, row, column)]
         == img.pixels[Pos(img.width, img.height - 1 - row, column)]
  {
    PosInRange(img.width, img.height, row, column);
    PosInRange(img.width, img.height, img.height - 1 - row, column);
    PosDivMod(img.width, row, column);
  }

  /** The middle row of an image of odd height stays where it is. */
  lemma MirrorVerticallyKeepsMiddleRow(img: Image, column: int)
    requires img.Valid() && img.height % 2 == 1 && 0 <= column < img.width
    ensures 0 <= Pos(img.width, img.height / 2, column) < |img.pixels|
    ensures MirrorVertically(img).pixels[Pos(img.width, img.height / 2, column)]
         == img.pixels[Pos(img.width, img.height / 2, column)]
  {
    MirrorVerticallyAt(img, img.height / 2, column);
  }

  lemma MirrorVerticallyInvolutive(img: Image)
    requires img.Valid()
    ensures MirrorVertically(MirrorVertically(img)) == img
  {
    var once := MirrorVertically(img);
    var twice := MirrorVertically(once);
    forall k | 0 <= k < |img.pixels|
      ensures twice.pixels[k] == img.pixels[k]
    {
      Traversal(k, img.width, img.height);
      var row, column := k / img.width, k % img.width;
      MirrorVerticallyAt(once, row, column);
      MirrorVerticallyAt(img, img.height - 1 - row, column);
    }
    assert twice.pixels == img.pixels;
  }

  /** Cell `index` has been swapped once the column loop has passed it. */
  ghost predicate Swapped(width: nat, height: nat, column: int, row: int, index: int)
    requires width > 0
  {
    index % width < column
    || (index % width == column && (index / width < row || index / width > height - 1 - row))
  }

  /** The buffer `s` after the swaps before (`column`, `row`) of the loops over `original`. */
  ghost predicate MirrorStage(s: seq<Pixel>, original: seq<Pixel>, width: nat, height: nat, column: int, row: int)
  {
    |s| == |original| == width * height
    && (width == 0 || forall k :: 0 <= k < |s| ==>
          s[k] == if Swapped(width, height, column, row, k) then original[MirrorIndex(width, height, k)] else original[k])
  }

  /** Before the loops nothing has been swapped. */
  lemma MirrorStart(original: seq<Pixel>, width: nat, height: nat)
    requires |original| == width * height
    ensures MirrorStage(original, original, width, height, 0, 0)
  {
    forall k | 0 <= k < |original|
      ensures !Swapped(width, height, 0, 0, k) || width == 0
    {
      if width > 0 {
        Traversal(k, width, height);
      }
    }
  }

  /** One swap of cell (`row`, `column`) with its mirror advances the stage by one row. */
  lemma MirrorSwapStep(s: seq<Pixel>, original: seq<Pixel>, width: nat, height: nat, column: int, row: int)
    requires MirrorStage(s, original, width, height, column, row)
    requires 0 <= column < width && 0 <= row < height / 2
    ensures 0 <= Pos(width, row, column) < |s| && 0 <= Pos(width, height - 1 - row, column) < |s|
    ensures MirrorStage(s[Pos(width, row, column) := s[Pos(width, height - 1 - row, column)]]
                         [Pos(width, height - 1 - row, column) := s[Pos(width, row, column)]],
                        original, width, height, column, row + 1)
  {
    var pixel, mirrorPixel := Pos(width, row, column), Pos(width, height - 1 - row, column);
    PosInRange(width, height, row, column);
    PosInRange(width, height, height - 1 - row, column);
    PosDivMod(width, row, column);
    PosDivMod(width, height - 1 - row, column);
    var t := s[pixel := s[mirrorPixel]][mirrorPixel := s[pixel]];
    forall k | 0 <= k < |t|
      ensures t[k] == if Swapped(width, height, column, row + 1, k) then original[MirrorIndex(width, height, k)] else original[k]
    {
      Traversal(k, width, height);
    }
  }

  /** Once the rows of a column are exhausted, the whole column counts as swapped. */
  lemma MirrorColumnDone(s: seq<Pixel>, original: seq<Pixel>, width: nat, height: nat, column: int)
    requires MirrorStage(s, original, width, height, column, height / 2)
    requires 0 <= column < width
    ensures MirrorStage(s, original, width, height, column + 1, 0)
  {
    forall k | 0 <= k < |s|
      ensures s[k] == if Swapped(width, height, column + 1, 0, k) then original[MirrorIndex(width, height, k)] else original[k]
    {
      Traversal(k, width, height);
    }
  }

  /**
   * The loops of `mirrorVertically`: for every column, swap each cell of the
   * top half with its mirror in the bottom half, in place.
   */
  method MirrorRows(bits: array<Pixel>, width: nat, height: nat)
    requires bits.Length == width * height
    modifies bits
    ensures bits[..] == MirrorVertically(Image(width, height, old(bits[..]))).pixels
  {
    ghost var original := bits[..];
    MirrorStart(original, width, height);
    for column := 0 to width
      invariant MirrorStage(bits[..], original, width, height, column, 0)
    {
      MirrorColumn(bits, original, width, height, column);
    }
    MirrorDone(bits[..], original, width, height);
  }

  /** The inner loop of `mirrorVertically`: one column is swapped top to bottom. */
  method MirrorColumn(bits: array<Pixel>, ghost original: seq<Pixel>, width: nat, height: nat, column: nat)
    requires MirrorStage(bits[..], original, width, height, column, 0) && column < width
    modifies bits
    ensures MirrorStage(bits[..], original, width, height, column + 1, 0)
  {
    for row := 0 to height / 2
      invariant MirrorStage(bits[..], original, width, height, column, row)
    {
      var pixel := column + row * width;
      var mirrorPixel := column + (height - 1 - row) * width;
      MirrorSwapStep(bits[..], original, width, height, column, row);
      var aux := bits[pixel];
      bits[pixel] := bits[mirrorPixel];
      bits[mirrorPixel] := aux;
    }
    MirrorColumnDone(bits[..], original, width, height, column);
  }

  /** Once every column is done, the buffer holds the mirrored image. */
  lemma MirrorDone(s: seq<Pixel>, original: seq<Pixel>, width: nat, height: nat)
    requires MirrorStage(s, original, width, height, width, 0)
    ensures s == MirrorVertically(Image(width, height, original)).pixels
  {
    forall k | 0 <= k < |s|
      ensures s[k] == MirrorVertically(Image(width, height, original)).pixels[k]
    {
      Traversal(k, width, height);
    }
  }

  // -------------------------------------------------------------- rotation

  /** Where `rotateLeft` writes input cell `index`: `(width - column - 1) * height + row`. */
  function LeftTarget(width: nat, height: nat, index: int): (t: int)
    requires 0 <= index < width * height
    ensures 0 <= t < width * height
  {
    Traversal(index, width, height);
    PosInRange(height, width, width - 1 - index % width, index / width);
    Pos(height, width - 1 - index % width, index / width)
  }

  /** The input cell `rotateLeft` stores at output cell `k` of the `height`-wide result. */
  function LeftSource(width: nat, height: nat, k: int): (s: int)
    requires 0 <= k < width * height
    ensures 0 <= s < width * height
  {
    Traversal(k, height, width);
    PosInRange(width, height, k % height, width - 1 - k / height);
    Pos(width, k % height, width - 1 - k / height)
  }

  /** Where `rotateRight` writes input cell `index`: `column * height + (height - row - 1)`. */
  function RightTarget(width: nat, height: nat, index: int): (t: int)
    requires 0 <= index < width * height
    ensures 0 <= t < width * height
  {
    Traversal(index, width, height);
    PosInRange(height, width, index % width, height - 1 - index / width);
    Pos(height, index % width, height - 1 - index / width)
  }

  /** The input cell `rotateRight` stores at output cell `k` of the `height`-wide result. */
  function RightSource(width: nat, height: nat, k: int): (s: int)
    requires 0 <= k < width * height
    ensures 0 <= s < width * height
  {
    Traversal(k, height, width);
    PosInRange(width, height, height - 1 - k % height, k / height);
    Pos(width, height - 1 - k % height, k / height)
  }

  /** `LeftTarget` is a bijection of the cells, with `LeftSource` its inverse. */
  lemma LeftTargetBijective(width: nat, height: nat, index: int, k: int)
    requires 0 <= index < width * height && 0 <= k < width * height
    ensures LeftSource(width, height, LeftTarget(width, height, index)) == index
    ensures LeftTarget(width, height, LeftSource(width, height, k)) == k
  {
    Traversal(index, width, height);
    var row, column := index / width, index % width;
    PosInRange(height, width, width - 1 - column, row);
    PosDivMod(height, width - 1 - column, row);
    Traversal(k, height, width);
    PosInRange(width, height, k % height, width - 1 - k / height);
    PosDivMod(width, k % height, width - 1 - k / height);
  }

  /** `RightTarget` is a bijection of the cells, with `RightSource` its inverse. */
  lemma RightTargetBijective(width: nat, height: nat, index: int, k: int)
    requires 0 <= index < width * height && 0 <= k < width * height
    ensures RightSource(width, height, RightTarget(width, height, index)) == index
    ensures RightTarget(width, height, RightSource(width, height, k)) == k
  {
    Traversal(index, width, height);
    var row, column := index / width, index % width;
    PosInRange(height, width, column, height - 1 - row);
    PosDivMod(height, column, height - 1 - row);
    Traversal(k, height, width);
    PosInRange(width, height, height - 1 - k % height, k / height);
    PosDivMod(width, height - 1 - k % height, k / height);
  }

  function RotatedLeftAt(img: Image, k: int): Pixel
    requires img.Valid() && 0 <= k < |img.pixels|
  {
    img.pixels[LeftSource(img.width, img.height, k)]
  }

  function RotatedRightAt(img: Image, k: int): Pixel
    requires img.Valid() && 0 <= k < |img.pixels|
  {
    img.pixels[RightSource(img.width, img.height, k)]
  }

  /** `rotateLeft`: a quarter turn counter-clockwise into a `height x width` image. */
  function RotateLeft(img: Image): (r: Image)
    requires img.Valid()
    ensures r.Valid() && r.width == img.height && r.height == img.width
  {
    Image(img.height, img.width, seq(|img.pixels|, k requires 0 <= k < |img.pixels| => RotatedLeftAt(img, k)))
  }

  /** `rotateRight`: a quarter turn clockwise into a `height x width` image. */
  function RotateRight(img: Image): (r: Image)
    requires img.Valid()
    ensures r.Valid() && r.width == img.height && r.height == img.width
  {
    Image(img.height, img.width, seq(|img.pixels|, k requires 0 <= k < |img.pixels| => RotatedRightAt(img, k)))
  }

  /** Input cell (`row`, `column`) lands at `(width - 1 - column) * height + row` of the left turn. */
  lemma RotateLeftAt(img: Image, index: int)
    requires img.Valid() && 0 <= index < |img.pixels|
    ensures RotateLeft(img).pixels[LeftTarget(img.width, img.height, index)] == img.pixels[index]
  {
    LeftTargetBijective(img.width, img.height, index, index);
  }

  /** Input cell (`row`, `column`) lands at `column * height + (height - 1 - row)` of the right turn. */
  lemma RotateRightAt(img: Image, index: int)
    requires img.Valid() && 0 <= index < |img.pixels|
    ensures RotateRight(img).pixels[RightTarget(img.width, img.height, index)] == img.pixels[index]
  {
    RightTargetBijective(img.width, img.height, index, index);
  }

  /** Turning left and then right gives back the original image, and so does the reverse. */
  lemma RotateRoundTrip(img: Image)
    requires img.Valid()
    ensures RotateRight(RotateLeft(img)) == img
    ensures RotateLeft(RotateRight(img)) == img
  {
    var w, h := img.width, img.height;
    var left, right := RotateLeft(img), RotateRight(img);
    forall k | 0 <= k < |img.pixels|
      ensures RotateRight(left).pixels[k] == img.pixels[k]
      ensures RotateLeft(right).pixels[k] == img.pixels[k]
    {
      Traversal(k, w, h);
      var row, column := k / w, k % w;
      // the right turn of `left` reads cell (w - 1 - column, row) of `left`, which came from (row, column)
      PosDivMod(h, w - 1 - column, row);
      PosDivMod(h, column, h - 1 - row);
    }
    assert RotateRight(left).pixels == img.pixels;
    assert RotateLeft(right).pixels == img.pixels;
  }

  /** The cells of a left-turn buffer whose source precedes input cell `i` hold that source. */
  ghost predicate LeftStage(s: seq<Pixel>, img: Image, i: int)
    requires img.Valid()
  {
    |s| == |img.pixels|
    && forall k :: 0 <= k < |s| && LeftSource(img.width, img.height, k) < i ==>
         s[k] == RotatedLeftAt(img, k)
  }

  lemma LeftScatterStep(s: seq<Pixel>, img: Image, i: int)
    requires img.Valid() && LeftStage(s, img, i) && 0 <= i < |img.pixels|
    ensures LeftStage(s[LeftTarget(img.width, img.height, i) := img.pixels[i]], img, i + 1)
  {
    LeftTargetBijective(img.width, img.height, i, i);
    var target := LeftTarget(img.width, img.height, i);
    var t := s[target := img.pixels[i]];
    forall k | 0 <= k < |t| && LeftSource(img.width, img.height, k) < i + 1
      ensures t[k] == RotatedLeftAt(img, k)
    {
      LeftTargetBijective(img.width, img.height, i, k);
    }
  }

  /** The cells of a right-turn buffer whose source precedes input cell `i` hold that source. */
  ghost predicate RightStage(s: seq<Pixel>, img: Image, i: int)
    requires img.Valid()
  {
    |s| == |img.pixels|
    && forall k :: 0 <= k < |s| && RightSource(img.width, img.height, k) < i ==>
         s[k] == RotatedRightAt(img, k)
  }

  lemma RightScatterStep(s: seq<Pixel>, img: Image, i: int)
    requires img.Valid() && RightStage(s, img, i) && 0 <= i < |img.pixels|
    ensures RightStage(s[RightTarget(img.width, img.height, i) := img.pixels[i]], img, i + 1)
  {
    RightTargetBijective(img.width, img.height, i, i);
    var target := RightTarget(img.width, img.height, i);
    var t := s[target := img.pixels[i]];
    forall k | 0 <= k < |t| && RightSource(img.width, img.height, k) < i + 1
      ensures t[k] == RotatedRightAt(img, k)
    {
      RightTargetBijective(img.width, img.height, i, k);
    }
  }

  /** Once every input cell has been scattered, every output cell holds its source. */
  lemma LeftScatterDone(s: seq<Pixel>, img: Image)
    requires img.Valid() && LeftStage(s, img, |img.pixels|)
    ensures s == RotateLeft(img).pixels
  {
    forall k | 0 <= k < |s|
      ensures s[k] == RotateLeft(img).pixels[k]
    {
      LeftTargetBijective(img.width, img.height, k, k);
    }
  }

  lemma RightScatterDone(s: seq<Pixel>, img: Image)
    requires img.Valid() && RightStage(s, img, |img.pixels|)
    ensures s == RotateRight(img).pixels
  {
    forall k | 0 <= k < |s|
      ensures s[k] == RotateRight(img).pixels[k]
    {
      RightTargetBijective(img.width, img.height, k, k);
    }
  }

  /**
   * `rotateLeft`: traverse the input and store cell (`row`, `column`) at
   * `(width - column - 1) * height + row` of a fresh `height x width` buffer.
   */
  method RotateLeftPass(img: Image) returns (result: Image)
    requires img.Valid()
    ensures result == RotateLeft(img)
  {
    var width, height := img.width, img.height;
    var size := width * height;
    var pixels := new Pixel[size];
    for i := 0 to size
      invariant LeftStage(pixels[..], img, i)
    {
      Traversal(i, width, height);
      var column, row := i % width, i / width;
      var target := (width - column - 1) * height + row;
      LeftScatterStep(pixels[..], img, i);
      pixels[target] := img.pixels[i];
    }
    LeftScatterDone(pixels[..], img);
    result := Image(height, width, pixels[..]);
  }

  /**
   * `rotateRight`: traverse the input and store cell (`row`, `column`) at
   * `column * height + (height - row - 1)` of a fresh `height x width` buffer.
   */
  method RotateRightPass(img: Image) returns (result: Image)
    requires img.Valid()
    ensures result == RotateRight(img)
  {
    var width, height := img.width, img.height;
    var size := width * height;
    var pixels := new Pixel[size];
    for i := 0 to size
      invariant RightStage(pixels[..], img, i)
    {
      Traversal(i, width, height);
      var column, row := i % width, i / width;
      var target := column * height + (height - row - 1);
      RightScatterStep(pixels[..], img, i);
      pixels[target] := img.pixels[i];
    }
    RightScatterDone(pixels[..], img);
    result := Image(height, width, pixels[..]);
  }

  // ------------------------------------------------------------- zoom out

  /** `ceil(a / (double) b)` for a non-negative `a` and a positive `b`. */
  function CeilDiv(a: nat, b: nat): nat
    requires b > 0
  {
    (a + b - 1) / b
  }

  lemma DivPlusMultiple(q: int, b: int, e: int)
    requires b > 0 && e >= 0
    ensures (q * b + e) / b == q + e / b
  {
    assert (q + e / b) * b + e % b == q * b + e;
    PosDivMod(b, q + e / b, e % b);
  }

  /** Rounding up adds one to the quotient exactly when the division leaves a remainder. */
  lemma CeilDivExact(a: nat, b: nat)
    requires b > 0
    ensures CeilDiv(a, b) == a / b + if a % b == 0 then 0 else 1
  {
    var q, m := a / b, a % b;
    assert a + b - 1 == q * b + (m + b - 1);
    DivPlusMultiple(q, b, m + b - 1);
    assert CeilDiv(a, b) == q + (m + b - 1) / b;
    if m == 0 {
      PosDivMod(b, 0, b - 1);
      assert (m + b - 1) / b == 0;
    } else {
      PosDivMod(b, 1, m - 1);
      assert (m + b - 1) / b == 1;
    }
  }

  /** The rounded-up quotient grows by one exactly when `a` passes a multiple of `b`. */
  lemma CeilStep(a: nat, b: nat)
    requires b > 0
    ensures CeilDiv(a + 1, b) == CeilDiv(a, b) + if a % b == 0 then 1 else 0
  {
    var q, m := a / b, a % b;
    CeilDivExact(a, b);
    CeilDivExact(a + 1, b);
    assert a + 1 == Pos(b, q, m + 1);
    if m + 1 < b {
      PosDivMod(b, q, m + 1);
      assert (a + 1) / b == q && (a + 1) % b == m + 1;
    } else {
      assert a + 1 == Pos(b, q + 1, 0);
      PosDivMod(b, q + 1, 0);
      assert (a + 1) / b == q + 1 && (a + 1) % b == 0;
    }
  }

  lemma CeilOfMultiple(r: nat, b: nat)
    requires b > 0
    ensures CeilDiv(b * r, b) == r
  {
    assert b * r + b - 1 == r * b + (b - 1);
    DivPlusMultiple(r, b, b - 1);
    PosDivMod(b, 0, b - 1);
  }

  /** An index below the rounded-up quotient, scaled back, starts inside the range. */
  lemma CeilBelow(r: nat, a: nat, b: nat)
    requires b > 0 && r < CeilDiv(a, b)
    ensures b * r < a
  {
    var q, m := a / b, a % b;
    CeilDivExact(a, b);
    assert a == q * b + m;
    if m == 0 {
      assert r <= q - 1;
      assert (q - 1 - r) * b >= 0;
    } else {
      assert r <= q;
      assert (q - r) * b >= 0;
    }
  }

  /** The in-bounds cells (`row + y`, `column`) for `y < count`, top to bottom. */
  function ColumnSamples(img: Image, row: nat, column: nat, count: nat): seq<Pixel>
    requires img.Valid()
  {
    if count == 0 then []
    else ColumnSamples(img, row, column, count - 1)
         + if column < img.width && row + count - 1 < img.height then [img.At(row + count - 1, column)] else []
  }

  lemma ColumnSamplesStep(img: Image, row: nat, column: nat, y: nat)
    requires img.Valid()
    ensures ColumnSamples(img, row, column, y + 1)
         == ColumnSamples(img, row, column, y)
            + if column < img.width && row + y < img.height then [img.At(row + y, column)] else []
  {
  }

  /**
   * The cells of the block anchored at (`row`, `column`) that lie inside the
   * image, in the order the loops of `zoomOut` visit them: `count` columns,
   * each from top to bottom over `offsetY` rows.
   */
  function BlockSamples(img: Image, row: nat, column: nat, offsetY: nat, count: nat): seq<Pixel>
    requires img.Valid()
  {
    if count == 0 then []
    else BlockSamples(img, row, column, offsetY, count - 1) + ColumnSamples(img, row, column + count - 1, offsetY)
  }

  lemma BlockSamplesStep(img: Image, row: nat, column: nat, offsetY: nat, x: nat)
    requires img.Valid()
    ensures BlockSamples(img, row, column, offsetY, x + 1)
         == BlockSamples(img, row, column, offsetY, x) + ColumnSamples(img, row, column + x, offsetY)
  {
  }

  function Min(a: int, b: int): int
  {
    if a <= b then a else b
  }

  lemma {:induction false} ColumnSamplesSize(img: Image, row: nat, column: nat, count: nat)
    requires img.Valid() && row <= img.height
    ensures |ColumnSamples(img, row, column, count)| == if column < img.width then Min(count, img.height - row) else 0
  {
    if count > 0 {
      ColumnSamplesSize(img, row, column, count - 1);
    }
  }

  /** A block holds `min(count, width - column) * min(offsetY, height - row)` cells. */
  lemma {:induction false} BlockSamplesSize(img: Image, row: nat, column: nat, offsetY: nat, count: nat)
    requires img.Valid() && row <= img.height && column <= img.width
    ensures |BlockSamples(img, row, column, offsetY, count)|
         == Min(count, img.width - column) * Min(offsetY, img.height - row)
  {
    if count > 0 {
      BlockSamplesSize(img, row, column, offsetY, count - 1);
      ColumnSamplesSize(img, row, column + count - 1, offsetY);
      var columns, rows := Min(count - 1, img.width - column), Min(offsetY, img.height - row);
      if column + count - 1 < img.width {
        assert Min(count, img.width - column) == columns + 1;
        MulSucc(columns, rows);
      } else {
        assert Min(count, img.width - column) == columns;
      }
    }
  }

  /** Every sample of a block of an image of one colour is that colour. */
  lemma {:induction false} BlockSamplesUniform(img: Image, row: nat, column: nat, offsetY: nat, count: nat, p: Pixel)
    requires img.Valid() && forall k :: 0 <= k < |img.pixels| ==> img.pixels[k] == p
    ensures forall k :: 0 <= k < |BlockSamples(img, row, column, offsetY, count)| ==>
              BlockSamples(img, row, column, offsetY, count)[k] == p
  {
    if count > 0 {
      BlockSamplesUniform(img, row, column, offsetY, count - 1, p);
      ColumnSamplesUniform(img, row, column + count - 1, offsetY, p);
    }
  }

  lemma {:induction false} ColumnSamplesUniform(img: Image, row: nat, column: nat, count: nat, p: Pixel)
    requires img.Valid() && forall k :: 0 <= k < |img.pixels| ==> img.pixels[k] == p
    ensures forall k :: 0 <= k < |ColumnSamples(img, row, column, count)| ==> ColumnSamples(img, row, column, count)[k] == p
  {
    if count > 0 {
      ColumnSamplesUniform(img, row, column, count - 1, p);
      if column < img.width && row + count - 1 < img.height {
        PosInRange(img.width, img.height, row + count - 1, column);
      }
    }
  }

  /** A block whose anchor lies inside the image holds at least its anchor. */
  lemma BlockNonEmpty(img: Image, row: nat, column: nat, offsetX: nat, offsetY: nat)
    requires img.Valid() && row < img.height && column < img.width && offsetX >= 1 && offsetY >= 1
    ensures |BlockSamples(img, row, column, offsetY, offsetX)| > 0
  {
    BlockSamplesSize(img, row, column, offsetY, offsetX);
    MulAtLeast(Min(offsetX, img.width - column), Min(offsetY, img.height - row));
  }

  /** The truncated mean the closure of `zoomOut` stores for the block anchored at (`row`, `column`). */
  function BlockAverage(img: Image, row: nat, column: nat, offsetX: nat, offsetY: nat): Pixel
    requires img.Valid() && row < img.height && column < img.width && offsetX >= 1 && offsetY >= 1
  {
    BlockNonEmpty(img, row, column, offsetX, offsetY);
    Mean(BlockSamples(img, row, column, offsetY, offsetX))
  }

  /** The block mean is each channel's sum over the block divided by the number of cells. */
  lemma BlockAverageBySums(img: Image, row: nat, column: nat, offsetX: nat, offsetY: nat)
    requires img.Valid() && row < img.height && column < img.width && offsetX >= 1 && offsetY >= 1
    ensures var s := BlockSamples(img, row, column, offsetY, offsetX);
      |s| > 0
      && 0 <= Sum(s, Red) / |s| <= 255 && 0 <= Sum(s, Green) / |s| <= 255 && 0 <= Sum(s, Blue) / |s| <= 255
      && BlockAverage(img, row, column, offsetX, offsetY) == Pixel(Sum(s, Red) / |s|, Sum(s, Green) / |s|, Sum(s, Blue) / |s|)
  {
    BlockNonEmpty(img, row, column, offsetX, offsetY);
    MeanBySums(BlockSamples(img, row, column, offsetY, offsetX));
  }

  /** Cell `index` anchors a block: its column is a multiple of `offsetX` and its row one of `offsetY`. */
  predicate IsAnchor(width: nat, index: int, offsetX: nat, offsetY: nat)
    requires width > 0 && offsetX > 0 && offsetY > 0
  {
    (index % width) % offsetX == 0 && (index / width) % offsetY == 0
  }

  /** What `zoomOut` has stored after visiting the first `count` cells: one block mean per anchor. */
  function AnchorAverages(img: Image, offsetX: nat, offsetY: nat, count: nat): seq<Pixel>
    requires img.Valid() && offsetX >= 1 && offsetY >= 1 && count <= |img.pixels|
  {
    if count == 0 then []
    else
      Traversal(count - 1, img.width, img.height);
      AnchorAverages(img, offsetX, offsetY, count - 1)
      + if IsAnchor(img.width, count - 1, offsetX, offsetY)
        then [BlockAverage(img, (count - 1) / img.width, (count - 1) % img.width, offsetX, offsetY)]
        else []
  }

  /** How many of the first `count` cells of a `width`-wide traversal are anchors. */
  function AnchorsBefore(width: nat, offsetX: nat, offsetY: nat, count: nat): nat
    requires width > 0 && offsetX > 0 && offsetY > 0
  {
    if count == 0 then 0
    else AnchorsBefore(width, offsetX, offsetY, count - 1) + if IsAnchor(width, count - 1, offsetX, offsetY) then 1 else 0
  }

  /**
   * The number of anchors before cell (`row`, `column`) in closed form:
   * `ceil(row / offsetY)` full rows of anchors, plus `ceil(column / offsetX)`
   * anchors of the current row when that row holds anchors.
   */
  function AnchorsBeforeCell(width: nat, offsetX: nat, offsetY: nat, row: nat, column: nat): nat
    requires offsetX >= 1 && offsetY >= 1
  {
    CeilDiv(row, offsetY) * CeilDiv(width, offsetX) + if row % offsetY == 0 then CeilDiv(column, offsetX) else 0
  }

  lemma AnchorCountInRow(width: nat, offsetX: nat, offsetY: nat, row: nat, column: nat)
    requires offsetX >= 1 && offsetY >= 1 && 0 < column < width
    requires AnchorsBefore(width, offsetX, offsetY, Pos(width, row, column - 1))
          == AnchorsBeforeCell(width, offsetX, offsetY, row, column - 1)
    ensures AnchorsBefore(width, offsetX, offsetY, Pos(width, row, column))
         == AnchorsBeforeCell(width, offsetX, offsetY, row, column)
  {
    var i := Pos(width, row, column - 1);
    PosDivMod(width, row, column - 1);
    CeilStep(column - 1, offsetX);
    assert i + 1 == Pos(width, row, column);
  }

  lemma AnchorCountNextRow(width: nat, offsetX: nat, offsetY: nat, row: nat)
    requires offsetX >= 1 && offsetY >= 1 && 0 < width && 0 < row
    requires AnchorsBefore(width, offsetX, offsetY, Pos(width, row - 1, width - 1))
          == AnchorsBeforeCell(width, offsetX, offsetY, row - 1, width - 1)
    ensures AnchorsBefore(width, offsetX, offsetY, Pos(width, row, 0))
         == AnchorsBeforeCell(width, offsetX, offsetY, row, 0)
  {
    var perRow := CeilDiv(width, offsetX);
    var i := Pos(width, row - 1, width - 1);
    var before := CeilDiv(row - 1, offsetY);
    PosDivMod(width, row - 1, width - 1);
    assert i + 1 == Pos(width, row, 0) by {
      MulSucc(row - 1, width);
    }
    CeilStep(width - 1, offsetX);
    CeilStep(row - 1, offsetY);
    CeilDivExact(0, offsetX);
    if (row - 1) % offsetY == 0 {
      MulSucc(before, perRow);
    }
  }

  /** The traversal's anchor count agrees with the closed form at every cell. */
  lemma {:induction false} AnchorCount(width: nat, offsetX: nat, offsetY: nat, row: nat, column: nat)
    requires offsetX >= 1 && offsetY >= 1 && column < width
    ensures AnchorsBefore(width, offsetX, offsetY, Pos(width, row, column))
         == AnchorsBeforeCell(width, offsetX, offsetY, row, column)
    decreases Pos(width, row, column)
  {
    if column > 0 {
      AnchorCount(width, offsetX, offsetY, row, column - 1);
      AnchorCountInRow(width, offsetX, offsetY, row, column);
    } else if row > 0 {
      AnchorCount(width, offsetX, offsetY, row - 1, width - 1);
      AnchorCountNextRow(width, offsetX, offsetY, row);
    } else {
      CeilDivExact(0, offsetX);
      CeilDivExact(0, offsetY);
    }
  }

  /** `zoomOut` stores exactly one value per anchor it has visited. */
  lemma {:induction false} AnchorAveragesSize(img: Image, offsetX: nat, offsetY: nat, count: nat)
    requires img.Valid() && offsetX >= 1 && offsetY >= 1 && count <= |img.pixels| && img.width > 0
    ensures |AnchorAverages(img, offsetX, offsetY, count)| == AnchorsBefore(img.width, offsetX, offsetY, count)
  {
    if count > 0 {
      AnchorAveragesSize(img, offsetX, offsetY, count - 1);
    }
  }

  lemma ZoomOutSize(img: Image, offsetX: nat, offsetY: nat)
    requires img.Valid() && offsetX >= 1 && offsetY >= 1
    ensures |AnchorAverages(img, offsetX, offsetY, |img.pixels|)|
         == CeilDiv(img.width, offsetX) * CeilDiv(img.height, offsetY)
  {
    PosDivMod(offsetX, 0, offsetX - 1);
    if img.width > 0 {
      AnchorAveragesSize(img, offsetX, offsetY, |img.pixels|);
      AnchorCount(img.width, offsetX, offsetY, img.height, 0);
    } else {
      CeilDivExact(0, offsetX);
    }
  }

  lemma {:induction false} AnchorAveragesPrefix(img: Image, offsetX: nat, offsetY: nat, count: nat, total: nat)
    requires img.Valid() && offsetX >= 1 && offsetY >= 1 && count <= total <= |img.pixels|
    ensures |AnchorAverages(img, offsetX, offsetY, count)| <= |AnchorAverages(img, offsetX, offsetY, total)|
    ensures AnchorAverages(img, offsetX, offsetY, total)[..|AnchorAverages(img, offsetX, offsetY, count)|]
         == AnchorAverages(img, offsetX, offsetY, count)
    decreases total - count
  {
    if count < total {
      AnchorAveragesPrefix(img, offsetX, offsetY, count, total - 1);
    }
  }

  /**
   * `zoomOut(offsetX, offsetY)`: one block mean per anchor, in an image of
   * `ceil(width / offsetX)` by `ceil(height / offsetY)` cells.
   */
  function ZoomOut(img: Image, offsetX: nat, offsetY: nat): (r: Image)
    requires img.Valid() && offsetX >= 1 && offsetY >= 1
    ensures r.Valid() && r.width == CeilDiv(img.width, offsetX) && r.height == CeilDiv(img.height, offsetY)
  {
    ZoomOutSize(img, offsetX, offsetY);
    Image(CeilDiv(img.width, offsetX), CeilDiv(img.height, offsetY), AnchorAverages(img, offsetX, offsetY, |img.pixels|))
  }

  /**
   * Cell (`row`, `column`) of the zoomed-out image is the mean of the block
   * anchored at (`offsetY * row`, `offsetX * column`), which lies inside the
   * original image.
   */
  lemma ZoomOutAt(img: Image, offsetX: nat, offsetY: nat, row: nat, column: nat)
    requires img.Valid() && offsetX >= 1 && offsetY >= 1
    requires row < CeilDiv(img.height, offsetY) && column < CeilDiv(img.width, offsetX)
    ensures offsetY * row < img.height && offsetX * column < img.width
    ensures ZoomOut(img, offsetX, offsetY).At(row, column)
         == BlockAverage(img, offsetY * row, offsetX * column, offsetX, offsetY)
  {
    var w, h := img.width, img.height;
    var newWidth := CeilDiv(w, offsetX);
    CeilBelow(row, h, offsetY);
    CeilBelow(column, w, offsetX);
    var anchorRow, anchorColumn := offsetY * row, offsetX * column;
    var i := Pos(w, anchorRow, anchorColumn);
    PosInRange(w, h, anchorRow, anchorColumn);
    PosDivMod(w, anchorRow, anchorColumn);
    assert anchorColumn == Pos(offsetX, column, 0) && anchorRow == Pos(offsetY, row, 0);
    PosDivMod(offsetX, column, 0);
    PosDivMod(offsetY, row, 0);
    assert IsAnchor(w, i, offsetX, offsetY);
    AnchorAveragesSize(img, offsetX, offsetY, i);
    AnchorCount(w, offsetX, offsetY, anchorRow, anchorColumn);
    CeilOfMultiple(row, offsetY);
    CeilOfMultiple(column, offsetX);
    assert |AnchorAverages(img, offsetX, offsetY, i)| == Pos(newWidth, row, column);
    AnchorAveragesPrefix(img, offsetX, offsetY, i + 1, |img.pixels|);
    PosInRange(newWidth, CeilDiv(h, offsetY), row, column);
  }

  /** Zooming out an image of one colour gives that colour everywhere. */
  lemma ZoomOutUniform(img: Image, offsetX: nat, offsetY: nat, p: Pixel, row: nat, column: nat)
    requires img.Valid() && offsetX >= 1 && offsetY >= 1
    requires forall k :: 0 <= k < |img.pixels| ==> img.pixels[k] == p
    requires row < CeilDiv(img.height, offsetY) && column < CeilDiv(img.width, offsetX)
    ensures ZoomOut(img, offsetX, offsetY).At(row, column) == p
  {
    ZoomOutAt(img, offsetX, offsetY, row, column);
    BlockSamplesSize(img, offsetY * row, offsetX * column, offsetY, offsetX);
    BlockSamplesUniform(img, offsetY * row, offsetX * column, offsetY, offsetX, p);
    MeanOfCopies(BlockSamples(img, offsetY * row, offsetX * column, offsetY, offsetX), p);
  }

  /** `count`, `red`, `green` and `blue` are the size and the channel sums of `s`. */
  ghost predicate Totals(s: seq<Pixel>, count: int, red: int, green: int, blue: int)
  {
    count == |s| && red == Sum(s, Red) && green == Sum(s, Green) && blue == Sum(s, Blue)
  }

  /**
   * The inner `y` loop of the closure of `zoomOut`: add the in-bounds cells
   * of one column of the block to the running sums and count.
   */
  method AccumulateColumn(img: Image, row: nat, column: nat, offsetY: nat, ghost done: seq<Pixel>,
                          count: int, red: int, green: int, blue: int)
    returns (count': int, red': int, green': int, blue': int)
    requires img.Valid()
    requires Totals(done, count, red, green, blue)
    ensures Totals(done + ColumnSamples(img, row, column, offsetY), count', red', green', blue')
  {
    count', red', green', blue' := count, red, green, blue;
    ghost var sofar := done;
    assert done + ColumnSamples(img, row, column, 0) == done;
    for y := 0 to offsetY
      invariant sofar == done + ColumnSamples(img, row, column, y)
      invariant Totals(sofar, count', red', green', blue')
    {
      ColumnSamplesStep(img, row, column, y);
      if column < img.width && row + y < img.height {
        var target := img.At(row + y, column);
        SumAppend(sofar, target);
        sofar := sofar + [target];
        red' := red' + target.red;
        green' := green' + target.green;
        blue' := blue' + target.blue;
        count' := count' + 1;
      }
    }
  }

  /**
   * The closure of `zoomOut` at an anchor: sum the in-bounds cells of the
   * block, `x` over columns and `y` over rows, then divide by their count.
   */
  method AverageBlock(img: Image, row: nat, column: nat, offsetX: nat, offsetY: nat) returns (average: Pixel)
    requires img.Valid() && row < img.height && column < img.width && offsetX >= 1 && offsetY >= 1
    ensures average == BlockAverage(img, row, column, offsetX, offsetY)
  {
    var count := 0;
    var red, green, blue := 0, 0, 0;
    ghost var done: seq<Pixel> := [];
    for x := 0 to offsetX
      invariant done == BlockSamples(img, row, column, offsetY, x)
      invariant Totals(done, count, red, green, blue)
    {
      BlockSamplesStep(img, row, column, offsetY, x);
      count, red, green, blue := AccumulateColumn(img, row, column + x, offsetY, done, count, red, green, blue);
      done := done + ColumnSamples(img, row, column + x, offsetY);
    }
    BlockAverageBySums(img, row, column, offsetX, offsetY);
    average := Pixel(red / count, green / count, blue / count);
  }

  /** Visiting cell `i` appends its block mean exactly when it is an anchor. */
  lemma ZoomOutStep(img: Image, offsetX: nat, offsetY: nat, i: nat)
    requires img.Valid() && offsetX >= 1 && offsetY >= 1 && i < |img.pixels|
    ensures img.width > 0 && 0 <= i / img.width < img.height && 0 <= i % img.width < img.width
    ensures |AnchorAverages(img, offsetX, offsetY, i + 1)| <= |AnchorAverages(img, offsetX, offsetY, |img.pixels|)|
    ensures AnchorAverages(img, offsetX, offsetY, i + 1)
         == AnchorAverages(img, offsetX, offsetY, i)
            + if (i % img.width) % offsetX == 0 && (i / img.width) % offsetY == 0
              then [BlockAverage(img, i / img.width, i % img.width, offsetX, offsetY)]
              else []
  {
    AnchorAveragesPrefix(img, offsetX, offsetY, i + 1, |img.pixels|);
    Traversal(i, img.width, img.height);
  }

  /**
   * `zoomOut`: traverse the image and, at every anchor, store the mean of its
   * block at `currentPixel` of a fresh buffer, which then advances.
   */
  method ZoomOutPass(img: Image, offsetX: nat, offsetY: nat) returns (result: Image)
    requires img.Valid() && offsetX >= 1 && offsetY >= 1
    ensures result == ZoomOut(img, offsetX, offsetY)
  {
    var width, height := img.width, img.height;
    var newWidth, newHeight := CeilDiv(width, offsetX), CeilDiv(height, offsetY);
    var pixels := new Pixel[newWidth * newHeight];
    var currentPixel := 0;
    ZoomOutSize(img, offsetX, offsetY);
    for i := 0 to width * height
      invariant currentPixel == |AnchorAverages(img, offsetX, offsetY, i)| <= pixels.Length
      invariant pixels[..currentPixel] == AnchorAverages(img, offsetX, offsetY, i)
    {
      ZoomOutStep(img, offsetX, offsetY, i);
      ghost var stored := AnchorAverages(img, offsetX, offsetY, i);
      var column, row := i % width, i / width;
      if column % offsetX == 0 && row % offsetY == 0 {
        var average := AverageBlock(img, row, column, offsetX, offsetY);
        assert AnchorAverages(img, offsetX, offsetY, i + 1) == stored + [average];
        pixels[currentPixel] := average;
        assert pixels[..currentPixel + 1] == stored + [average];
        currentPixel := currentPixel + 1;
      } else {
        assert AnchorAverages(img, offsetX, offsetY, i + 1) == stored;
      }
    }
    assert pixels[..] == pixels[..currentPixel];
    result := Image(newWidth, newHeight, pixels[..]);
  }

  // -------------------------------------------------------------- zoom in

  /** The second traversal reads its neighbours through these index facts. */
  lemma Neighbours(width: nat, height: nat, index: int)
    requires 0 <= index < width * height
    ensures width > 0
    ensures 0 <= index / width < height && 0 <= index % width < width
    ensures index % width >= 1 ==>
      index - 1 >= 0 && (index - 1) / width == index / width && (index - 1) % width == index % width - 1
    ensures index % width < width - 1 ==>
      index + 1 < width * height && (index + 1) / width == index / width && (index + 1) % width == index % width + 1
    ensures index / width >= 1 ==>
      index - width >= 0 && (index - width) / width == index / width - 1 && (index - width) % width == index % width
    ensures index / width < height - 1 ==>
      index + width < width * height && (index + width) / width == index / width + 1 && (index + width) % width == index % width
  {
    Traversal(index, width, height);
    var row, column := index / width, index % width;
    if column >= 1 {
      PosDivMod(width, row, column - 1);
    }
    if column < width - 1 {
      PosInRange(width, height, row, column + 1);
      PosDivMod(width, row, column + 1);
    }
    if row >= 1 {
      MulSucc(row - 1, width);
      PosDivMod(width, row - 1, column);
    }
    if row < height - 1 {
      MulSucc(row, width);
      PosInRange(width, height, row + 1, column);
      PosDivMod(width, row + 1, column);
    }
  }

  /** The image is non-empty and `blank` holds one pixel per cell of the `2w-1 x 2h-1` result. */
  predicate ZoomInFits(img: Image, blank: seq<Pixel>)
  {
    img.Valid() && img.width >= 1 && img.height >= 1
    && |blank| == (2 * img.width - 1) * (2 * img.height - 1)
  }

  /** An odd coordinate of the zoomed-in image lies strictly between two even ones. */
  lemma OddBetween(x: int, n: int)
    requires 0 <= x < 2 * n - 1 && x % 2 == 1
    ensures 1 <= x && x + 1 < 2 * n - 1
    ensures (x - 1) % 2 == 0 && (x + 1) % 2 == 0 && (x - 1) / 2 == x / 2 && (x + 1) / 2 == x / 2 + 1
  {
  }

  /** Doubling a coordinate, and doubling it plus one, keep it as the half. */
  lemma Halves(x: int)
    ensures (2 * x) % 2 == 0 && (2 * x) / 2 == x
    ensures (2 * x + 1) % 2 == 1 && (2 * x + 1) / 2 == x
    ensures (2 * x + 2) % 2 == 0 && (2 * x + 2) / 2 == x + 1
  {
  }

  /**
   * A cell of an even row of the zoomed-in image: a copy of an original
   * pixel at an even column, the mean of its two horizontal neighbours at
   * an odd one.
   */
  function EvenRowCell(img: Image, row: int, column: int): Pixel
    requires img.Valid() && 0 <= row < 2 * img.height - 1 && row % 2 == 0
    requires 0 <= column < 2 * img.width - 1
  {
    if column % 2 == 0 then img.At(row / 2, column / 2)
    else
      OddBetween(column, img.width);
      Mean([img.At(row / 2, column / 2), img.At(row / 2, column / 2 + 1)])
  }

  /** A cell of an odd row: the mean of the cells above and below it. */
  function OddRowCell(img: Image, row: int, column: int): Pixel
    requires img.Valid() && 0 <= row < 2 * img.height - 1 && row % 2 == 1
    requires 0 <= column < 2 * img.width - 1
  {
    OddBetween(row, img.height);
    Mean([EvenRowCell(img, row - 1, column), EvenRowCell(img, row + 1, column)])
  }

  function ZoomedInAt(img: Image, k: int): Pixel
    requires img.Valid() && img.width >= 1 && img.height >= 1
    requires 0 <= k < (2 * img.width - 1) * (2 * img.height - 1)
  {
    var newWidth, newHeight := 2 * img.width - 1, 2 * img.height - 1;
    Traversal(k, newWidth, newHeight);
    if (k / newWidth) % 2 == 0 then EvenRowCell(img, k / newWidth, k % newWidth)
    else OddRowCell(img, k / newWidth, k % newWidth)
  }

  /**
   * `zoomIn`, with the interpolation completed as intended: a `2w-1 x 2h-1`
   * image holding the original pixels at even rows and columns, horizontal
   * means between them, and vertical means of those rows in the odd rows.
   */
  function ZoomIn(img: Image): (r: Image)
    requires img.Valid() && img.width >= 1 && img.height >= 1
    ensures r.Valid() && r.width == 2 * img.width - 1 && r.height == 2 * img.height - 1
  {
    var size := (2 * img.width - 1) * (2 * img.height - 1);
    MulAtLeast(2 * img.height - 1, 2 * img.width - 1);
    Image(2 * img.width - 1, 2 * img.height - 1, seq(size, k requires 0 <= k < size => ZoomedInAt(img, k)))
  }

  function ZoomedInAsWrittenAt(img: Image, blank: seq<Pixel>, k: int): Pixel
    requires ZoomInFits(img, blank) && 0 <= k < |blank|
  {
    var newWidth, newHeight := 2 * img.width - 1, 2 * img.height - 1;
    Neighbours(newWidth, newHeight, k);
    var row, column := k / newWidth, k % newWidth;
    if row % 2 == 1 && column % 2 == 1 then
      OddBetween(row, img.height);
      Mean([EvenRowCell(img, row - 1, column), blank[k + newWidth]])
    else ZoomedInAt(img, k)
  }

  /**
   * `zoomIn` as written: the single second traversal reaches an odd cell of
   * an odd row before the cell below it has been interpolated, so it
   * averages the row above with whatever the fresh buffer held below
   * (`blank`).
   */
  function ZoomInAsWritten(img: Image, blank: seq<Pixel>): (r: Image)
    requires ZoomInFits(img, blank)
    ensures r.Valid() && r.width == 2 * img.width - 1 && r.height == 2 * img.height - 1
  {
    Image(2 * img.width - 1, 2 * img.height - 1, seq(|blank|, k requires 0 <= k < |blank| => ZoomedInAsWrittenAt(img, blank, k)))
  }

  /** Cell (`row`, `column`) of the zoomed-in image, by the parity of its row. */
  lemma ZoomInCell(img: Image, row: int, column: int)
    requires img.Valid() && img.width >= 1 && img.height >= 1
    requires 0 <= row < 2 * img.height - 1 && 0 <= column < 2 * img.width - 1
    ensures ZoomIn(img).At(row, column)
         == if row % 2 == 0 then EvenRowCell(img, row, column) else OddRowCell(img, row, column)
  {
    ZoomInPixel(img, row, column);
  }

  /** The original pixel (`row`, `column`) sits at (`2 row`, `2 column`) of the zoomed-in image. */
  lemma ZoomInKeepsOriginals(img: Image, row: int, column: int)
    requires img.Valid() && 0 <= row < img.height && 0 <= column < img.width
    ensures ZoomIn(img).At(2 * row, 2 * column) == img.At(row, column)
  {
    Halves(row);
    Halves(column);
    ZoomInCell(img, 2 * row, 2 * column);
  }

  /** Between two horizontal neighbours lies their mean. */
  lemma ZoomInBetweenColumns(img: Image, row: int, column: int)
    requires img.Valid() && 0 <= row < img.height && 0 <= column && column + 1 < img.width
    ensures ZoomIn(img).At(2 * row, 2 * column + 1) == Mean([img.At(row, column), img.At(row, column + 1)])
  {
    Halves(row);
    Halves(column);
    ZoomInCell(img, 2 * row, 2 * column + 1);
    assert EvenRowCell(img, 2 * row, 2 * column + 1) == Mean([img.At(row, column), img.At(row, column + 1)]);
  }

  /** Between two vertical neighbours lies their mean. */
  lemma ZoomInBetweenRows(img: Image, row: int, column: int)
    requires img.Valid() && 0 <= row && row + 1 < img.height && 0 <= column < img.width
    ensures ZoomIn(img).At(2 * row + 1, 2 * column) == Mean([img.At(row, column), img.At(row + 1, column)])
  {
    Halves(row);
    Halves(column);
    ZoomInCell(img, 2 * row + 1, 2 * column);
    assert EvenRowCell(img, 2 * row, 2 * column) == img.At(row, column);
    assert EvenRowCell(img, 2 * row + 2, 2 * column) == img.At(row + 1, column);
  }

  /** A centre cell is the mean of the interpolated cells above and below it. */
  lemma ZoomInCentre(img: Image, row: int, column: int)
    requires img.Valid() && 0 <= row && row + 1 < img.height && 0 <= column && column + 1 < img.width
    ensures ZoomIn(img).At(2 * row + 1, 2 * column + 1)
         == Mean([ZoomIn(img).At(2 * row, 2 * column + 1), ZoomIn(img).At(2 * row + 2, 2 * column + 1)])
  {
    var above, below := EvenRowCell(img, 2 * row, 2 * column + 1), EvenRowCell(img, 2 * row + 2, 2 * column + 1);
    ZoomInCell(img, 2 * row + 1, 2 * column + 1);
    assert ZoomIn(img).At(2 * row + 1, 2 * column + 1) == OddRowCell(img, 2 * row + 1, 2 * column + 1) == Mean([above, below]);
    ZoomInCell(img, 2 * row, 2 * column + 1);
    ZoomInCell(img, 2 * row + 2, 2 * column + 1);
  }

  /** As written, a centre cell mixes the cell above with the fresh buffer's cell below. */
  lemma ZoomInAsWrittenOddCell(img: Image, blank: seq<Pixel>, row: int, column: int)
    requires ZoomInFits(img, blank)
    requires 0 <= row && row + 1 < img.height && 0 <= column && column + 1 < img.width
    ensures 0 <= Pos(2 * img.width - 1, 2 * row + 2, 2 * column + 1) < |blank|
    ensures ZoomInAsWritten(img, blank).At(2 * row + 1, 2 * column + 1)
         == Mean([EvenRowCell(img, 2 * row, 2 * column + 1), blank[Pos(2 * img.width - 1, 2 * row + 2, 2 * column + 1)]])
  {
    ZoomInAsWrittenOddPixel(img, blank, 2 * row + 1, 2 * column + 1);
  }

  /** As written, a centre cell mixes the row above with the fresh buffer's content below. */
  lemma ZoomInAsWrittenCentre(img: Image, blank: seq<Pixel>, row: int, column: int)
    requires ZoomInFits(img, blank)
    requires 0 <= row && row + 1 < img.height && 0 <= column && column + 1 < img.width
    ensures 0 <= Pos(2 * img.width - 1, 2 * row + 2, 2 * column + 1) < |blank|
    ensures ZoomInAsWritten(img, blank).At(2 * row + 1, 2 * column + 1)
         == Mean([ZoomIn(img).At(2 * row, 2 * column + 1), blank[Pos(2 * img.width - 1, 2 * row + 2, 2 * column + 1)]])
  {
    ZoomInAsWrittenOddCell(img, blank, row, column);
    ZoomInCell(img, 2 * row, 2 * column + 1);
  }

  /** Zooming in an image of one colour gives that colour everywhere. */
  lemma ZoomInUniform(img: Image, p: Pixel)
    requires img.Valid() && img.width >= 1 && img.height >= 1
    requires forall k :: 0 <= k < |img.pixels| ==> img.pixels[k] == p
    ensures forall k :: 0 <= k < |ZoomIn(img).pixels| ==> ZoomIn(img).pixels[k] == p
  {
    var newWidth, newHeight := 2 * img.width - 1, 2 * img.height - 1;
    forall k | 0 <= k < |ZoomIn(img).pixels|
      ensures ZoomIn(img).pixels[k] == p
    {
      Traversal(k, newWidth, newHeight);
      var row, column := k / newWidth, k % newWidth;
      ZoomInPixel(img, row, column);
      if row % 2 == 1 {
        OddBetween(row, img.height);
        EvenRowCellUniform(img, p, row - 1, column);
        EvenRowCellUniform(img, p, row + 1, column);
        MeanOfCopies([EvenRowCell(img, row - 1, column), EvenRowCell(img, row + 1, column)], p);
      } else {
        EvenRowCellUniform(img, p, row, column);
      }
    }
  }

  /** Every cell of an even row of a uniform image is the image's one colour. */
  lemma EvenRowCellUniform(img: Image, p: Pixel, row: int, column: int)
    requires img.Valid() && 0 <= row < 2 * img.height - 1 && row % 2 == 0
    requires 0 <= column < 2 * img.width - 1
    requires forall k :: 0 <= k < |img.pixels| ==> img.pixels[k] == p
    ensures EvenRowCell(img, row, column) == p
  {
    PosInRange(img.width, img.height, row / 2, column / 2);
    if column % 2 == 1 {
      OddBetween(column, img.width);
      PosInRange(img.width, img.height, row / 2, column / 2 + 1);
      MeanOfCopies([img.At(row / 2, column / 2), img.At(row / 2, column / 2 + 1)], p);
    }
  }

  /**
   * As written, a black `2 x 2` image zoomed in over a buffer that happened
   * to hold white comes out with a grey centre, although every pixel of the
   * original is black.
   */
  lemma ZoomInReadsUninitialisedBuffer(black: Image, blank: seq<Pixel>)
    requires black == Image(2, 2, [Gray(0), Gray(0), Gray(0), Gray(0)])
    requires |blank| == 9 && forall k :: 0 <= k < 9 ==> blank[k] == Gray(255)
    ensures ZoomInFits(black, blank)
    ensures ZoomInAsWritten(black, blank).At(1, 1) == Gray(127)
    ensures ZoomIn(black).At(1, 1) == Gray(0)
  {
    var zoomed, written := ZoomIn(black), ZoomInAsWritten(black, blank);
    ZoomInUniform(black, Gray(0));
    PosInRange(3, 3, 0, 1);
    PosInRange(3, 3, 1, 1);
    assert zoomed.At(0, 1) == zoomed.pixels[1] == Gray(0);
    assert zoomed.At(1, 1) == zoomed.pixels[4] == Gray(0);
    ZoomInAsWrittenCentre(black, blank, 0, 0);
    assert Pos(3, 2, 1) == 7;
    var pair := [Gray(0), Gray(255)];
    assert written.At(1, 1) == Mean(pair);
    assert pair[..1] == [Gray(0)] && pair[..1][..0] == [];
    assert Sum(pair, Red) == 255 && Sum(pair, Green) == 255 && Sum(pair, Blue) == 255;
    MeanBySums(pair);
    assert |pair| == 2 && 255 / 2 == 127;
    assert Mean(pair) == Pixel(127, 127, 127);
  }

  // The buffers of the `zoomIn` passes.

  /** After the first traversal: original pixels at even rows and columns, the fresh buffer elsewhere. */
  function FirstPassAt(img: Image, blank: seq<Pixel>, k: int): Pixel
    requires ZoomInFits(img, blank) && 0 <= k < |blank|
  {
    var newWidth, newHeight := 2 * img.width - 1, 2 * img.height - 1;
    Traversal(k, newWidth, newHeight);
    var row, column := k / newWidth, k % newWidth;
    if row % 2 == 0 && column % 2 == 0 then img.At(row / 2, column / 2) else blank[k]
  }

  function FirstPass(img: Image, blank: seq<Pixel>): (s: seq<Pixel>)
    requires ZoomInFits(img, blank)
    ensures |s| == |blank|
  {
    seq(|blank|, k requires 0 <= k < |blank| => FirstPassAt(img, blank, k))
  }

  /** After the even rows have been interpolated; the odd rows still hold the fresh buffer. */
  function RowsFilled(img: Image, blank: seq<Pixel>): (s: seq<Pixel>)
    requires ZoomInFits(img, blank)
    ensures |s| == |blank|
  {
    var newWidth, newHeight := 2 * img.width - 1, 2 * img.height - 1;
    seq(|blank|, k requires 0 <= k < |blank| =>
      Traversal(k, newWidth, newHeight);
      if (k / newWidth) % 2 == 0 then EvenRowCell(img, k / newWidth, k % newWidth) else blank[k])
  }

  /** Where the first traversal writes input cell `i`: row `2 (i / w)`, column `2 (i % w)`. */
  function ScatterTarget(width: nat, i: int): int
    requires width > 0
  {
    Pos(2 * width - 1, 2 * (i / width), 2 * (i % width))
  }

  /** `currentPixelIndex` moves two columns right, or to the start of the next even row. */
  lemma CursorStep(width: nat, height: nat, i: int)
    requires width >= 1 && 0 <= i < width * height
    ensures var current := ScatterTarget(width, i);
      var column := current % (2 * width - 1);
      (if column + 2 >= 2 * width - 1 then current + 2 * (2 * width - 1) - column else current + 2)
      == ScatterTarget(width, i + 1)
  {
    var newWidth := 2 * width - 1;
    Traversal(i, width, height);
    var row, column := i / width, i % width;
    PosDivMod(newWidth, 2 * row, 2 * column);
    if column == width - 1 {
      MulSucc(row, width);
      PosDivMod(width, row + 1, 0);
      assert i + 1 == Pos(width, row + 1, 0);
      MulSucc(2 * row, newWidth);
      MulSucc(2 * row + 1, newWidth);
    } else {
      PosDivMod(width, row, column + 1);
    }
  }

  /** The corner cell (`2r`, `2c`) takes original cell (`r`, `c`). */
  predicate IsCorner(newWidth: nat, k: int)
    requires newWidth > 0
  {
    (k / newWidth) % 2 == 0 && (k % newWidth) % 2 == 0
  }

  function CornerSource(width: nat, k: int): int
    requires width > 0
  {
    Pos(width, (k / (2 * width - 1)) / 2, (k % (2 * width - 1)) / 2)
  }

  ghost predicate ScatterStage(s: seq<Pixel>, img: Image, blank: seq<Pixel>, i: int)
    requires ZoomInFits(img, blank)
  {
    |s| == |blank|
    && forall k :: 0 <= k < |s| ==>
         s[k] == if IsCorner(2 * img.width - 1, k) && CornerSource(img.width, k) < i
                 then FirstPassAt(img, blank, k) else blank[k]
  }

  lemma ScatterStep(s: seq<Pixel>, img: Image, blank: seq<Pixel>, i: int)
    requires ZoomInFits(img, blank) && ScatterStage(s, img, blank, i) && 0 <= i < |img.pixels|
    ensures 0 <= ScatterTarget(img.width, i) < |s|
    ensures ScatterStage(s[ScatterTarget(img.width, i) := img.pixels[i]], img, blank, i + 1)
  {
    var w, h := img.width, img.height;
    var newWidth, newHeight := 2 * w - 1, 2 * h - 1;
    Traversal(i, w, h);
    var row, column := i / w, i % w;
    var target := ScatterTarget(w, i);
    PosInRange(newWidth, newHeight, 2 * row, 2 * column);
    PosDivMod(newWidth, 2 * row, 2 * column);
    assert FirstPassAt(img, blank, target) == img.pixels[i];
    var t := s[target := img.pixels[i]];
    forall k | 0 <= k < |t|
      ensures t[k] == if IsCorner(newWidth, k) && CornerSource(w, k) < i + 1 then FirstPassAt(img, blank, k) else blank[k]
    {
      Traversal(k, newWidth, newHeight);
      var r, c := k / newWidth, k % newWidth;
      if IsCorner(newWidth, k) && CornerSource(w, k) == i {
        PosDivMod(w, r / 2, c / 2);
        assert k == target;
      }
    }
  }

  lemma ScatterStart(img: Image, blank: seq<Pixel>)
    requires ZoomInFits(img, blank)
    ensures ScatterStage(blank, img, blank, 0)
  {
    var newWidth, newHeight := 2 * img.width - 1, 2 * img.height - 1;
    forall k | 0 <= k < |blank| && IsCorner(newWidth, k)
      ensures CornerSource(img.width, k) >= 0
    {
      Traversal(k, newWidth, newHeight);
      PosInRange(img.width, img.height, (k / newWidth) / 2, (k % newWidth) / 2);
    }
  }

  lemma ScatterDone(s: seq<Pixel>, img: Image, blank: seq<Pixel>)
    requires ZoomInFits(img, blank) && ScatterStage(s, img, blank, |img.pixels|)
    ensures s == FirstPass(img, blank)
  {
    var newWidth, newHeight := 2 * img.width - 1, 2 * img.height - 1;
    forall k | 0 <= k < |s|
      ensures s[k] == FirstPass(img, blank)[k]
    {
      Traversal(k, newWidth, newHeight);
      var r, c := k / newWidth, k % newWidth;
      if IsCorner(newWidth, k) {
        PosInRange(img.width, img.height, r / 2, c / 2);
      }
    }
  }

  /**
   * The first traversal of `zoomIn`: copy each original pixel to
   * `currentPixelIndex`, which then moves two columns right, or past the
   * following odd row at the end of a row.
   */
  method ScatterOriginals(img: Image, pixels: array<Pixel>)
    requires img.Valid() && img.width >= 1 && img.height >= 1
    requires pixels.Length == (2 * img.width - 1) * (2 * img.height - 1)
    modifies pixels
    ensures ZoomInFits(img, old(pixels[..])) && pixels[..] == FirstPass(img, old(pixels[..]))
  {
    ghost var blank := pixels[..];
    var newWidth := 2 * img.width - 1;
    var currentPixelIndex := 0;
    PosDivMod(img.width, 0, 0);
    ScatterStart(img, blank);
    for i := 0 to |img.pixels|
      invariant ZoomInFits(img, blank)
      invariant currentPixelIndex == ScatterTarget(img.width, i)
      invariant ScatterStage(pixels[..], img, blank, i)
    {
      ghost var before := pixels[..];
      ScatterStep(before, img, blank, i);
      CursorStep(img.width, img.height, i);
      pixels[currentPixelIndex] := img.pixels[i];
      assert pixels[..] == before[currentPixelIndex := img.pixels[i]];
      var columnIndex := currentPixelIndex % newWidth;
      if columnIndex + 2 >= newWidth {
        currentPixelIndex := currentPixelIndex + 2 * newWidth - columnIndex;
      } else {
        currentPixelIndex := currentPixelIndex + 2;
      }
    }
    ScatterDone(pixels[..], img, blank);
  }

  /**
   * The first branch of the second closure of `zoomIn`: an odd cell of an
   * even row takes the mean of its left neighbour and, when there is one,
   * its right neighbour.
   */
  function RowInterpolation(s: seq<Pixel>, width: nat, height: nat, index: int): Pixel
    requires |s| == width * height && 0 <= index < |s|
  {
    Neighbours(width, height, index);
    var row, column := index / width, index % width;
    if row % 2 == 0 && column % 2 == 1 then
      if column < width - 1 then Mean([s[index - 1], s[index + 1]]) else Mean([s[index - 1]])
    else s[index]
  }

  /**
   * The second branch: a cell of an odd row takes the mean of the cell above
   * and, when there is one, the cell below.
   */
  function ColumnInterpolation(s: seq<Pixel>, width: nat, height: nat, index: int): Pixel
    requires |s| == width * height && 0 <= index < |s|
  {
    Neighbours(width, height, index);
    var row := index / width;
    if row % 2 == 1 then
      if row < height - 1 then Mean([s[index - width], s[index + width]]) else Mean([s[index - width]])
    else s[index]
  }

  // Each buffer at the cell (`row`, `column`) of the `2w-1 x 2h-1` grid.

  lemma ZoomInPixel(img: Image, row: int, column: int)
    requires img.Valid() && img.width >= 1 && img.height >= 1
    requires 0 <= row < 2 * img.height - 1 && 0 <= column < 2 * img.width - 1
    ensures 0 <= Pos(2 * img.width - 1, row, column) < |ZoomIn(img).pixels|
    ensures ZoomIn(img).pixels[Pos(2 * img.width - 1, row, column)]
         == if row % 2 == 0 then EvenRowCell(img, row, column) else OddRowCell(img, row, column)
  {
    PosInRange(2 * img.width - 1, 2 * img.height - 1, row, column);
    PosDivMod(2 * img.width - 1, row, column);
  }

  lemma ZoomInAsWrittenPixel(img: Image, blank: seq<Pixel>, row: int, column: int)
    requires ZoomInFits(img, blank)
    requires 0 <= row < 2 * img.height - 1 && 0 <= column < 2 * img.width - 1
    requires !(row % 2 == 1 && column % 2 == 1)
    ensures 0 <= Pos(2 * img.width - 1, row, column) < |blank|
    ensures ZoomInAsWritten(img, blank).pixels[Pos(2 * img.width - 1, row, column)]
         == ZoomIn(img).pixels[Pos(2 * img.width - 1, row, column)]
  {
    PosInRange(2 * img.width - 1, 2 * img.height - 1, row, column);
    PosDivMod(2 * img.width - 1, row, column);
  }

  lemma ZoomInAsWrittenOddPixel(img: Image, blank: seq<Pixel>, row: int, column: int)
    requires ZoomInFits(img, blank)
    requires 0 <= row < 2 * img.height - 1 && 0 <= column < 2 * img.width - 1
    requires row % 2 == 1 && column % 2 == 1
    ensures 1 <= row && row + 1 < 2 * img.height - 1 && (row - 1) % 2 == 0
    ensures 0 <= Pos(2 * img.width - 1, row, column) < |blank| && 0 <= Pos(2 * img.width - 1, row + 1, column) < |blank|
    ensures ZoomInAsWritten(img, blank).pixels[Pos(2 * img.width - 1, row, column)]
         == Mean([EvenRowCell(img, row - 1, column), blank[Pos(2 * img.width - 1, row + 1, column)]])
  {
    var newWidth, newHeight := 2 * img.width - 1, 2 * img.height - 1;
    OddBetween(row, img.height);
    var k := Pos(newWidth, row, column);
    PosInRange(newWidth, newHeight, row, column);
    PosInRange(newWidth, newHeight, row + 1, column);
    PosDivMod(newWidth, row, column);
    MulSucc(row, newWidth);
    assert k + newWidth == Pos(newWidth, row + 1, column);
    assert ZoomInAsWritten(img, blank).pixels[k] == ZoomedInAsWrittenAt(img, blank, k);
  }

  lemma FirstPassPixel(img: Image, blank: seq<Pixel>, row: int, column: int)
    requires ZoomInFits(img, blank)
    requires 0 <= row < 2 * img.height - 1 && 0 <= column < 2 * img.width - 1
    ensures 0 <= Pos(2 * img.width - 1, row, column) < |blank|
    ensures FirstPass(img, blank)[Pos(2 * img.width - 1, row, column)]
         == if row % 2 == 0 && column % 2 == 0 then EvenRowCell(img, row, column)
            else blank[Pos(2 * img.width - 1, row, column)]
  {
    PosInRange(2 * img.width - 1, 2 * img.height - 1, row, column);
    PosDivMod(2 * img.width - 1, row, column);
  }

  lemma RowsFilledPixel(img: Image, blank: seq<Pixel>, row: int, column: int)
    requires ZoomInFits(img, blank)
    requires 0 <= row < 2 * img.height - 1 && 0 <= column < 2 * img.width - 1
    ensures 0 <= Pos(2 * img.width - 1, row, column) < |blank|
    ensures RowsFilled(img, blank)[Pos(2 * img.width - 1, row, column)]
         == if row % 2 == 0 then EvenRowCell(img, row, column) else blank[Pos(2 * img.width - 1, row, column)]
  {
    PosInRange(2 * img.width - 1, 2 * img.height - 1, row, column);
    PosDivMod(2 * img.width - 1, row, column);
  }

  /** The neighbours an odd cell of an even row reads, in each buffer. */
  lemma EvenRowNeighbours(img: Image, blank: seq<Pixel>, i: int)
    requires ZoomInFits(img, blank) && 0 <= i < |blank|
    requires ((i / (2 * img.width - 1)) % 2 == 0 && (i % (2 * img.width - 1)) % 2 == 1)
    ensures 1 <= i && i + 1 < |blank| && i % (2 * img.width - 1) < 2 * img.width - 2
    ensures RowsFilled(img, blank)[i - 1] == ZoomInAsWritten(img, blank).pixels[i - 1]
    ensures RowsFilled(img, blank)[i] == ZoomInAsWritten(img, blank).pixels[i]
         == Mean([RowsFilled(img, blank)[i - 1], FirstPass(img, blank)[i + 1]])
  {
    var newWidth := 2 * img.width - 1;
    Traversal(i, newWidth, 2 * img.height - 1);
    var row, column := i / newWidth, i % newWidth;
    OddBetween(column, img.width);
    assert i - 1 == Pos(newWidth, row, column - 1) && i + 1 == Pos(newWidth, row, column + 1);
    var left, right := EvenRowCell(img, row, column - 1), EvenRowCell(img, row, column + 1);
    RowsFilledPixel(img, blank, row, column - 1);
    RowsFilledPixel(img, blank, row, column);
    FirstPassPixel(img, blank, row, column + 1);
    ZoomInPixel(img, row, column - 1);
    ZoomInPixel(img, row, column);
    ZoomInAsWrittenPixel(img, blank, row, column - 1);
    ZoomInAsWrittenPixel(img, blank, row, column);
    assert left == img.At(row / 2, column / 2) && right == img.At(row / 2, column / 2 + 1);
  }

  /** The neighbours a cell of an odd row reads, once the even rows are complete. */
  lemma OddRowNeighbours(img: Image, blank: seq<Pixel>, i: int)
    requires ZoomInFits(img, blank) && 0 <= i < |blank|
    requires (i / (2 * img.width - 1)) % 2 == 1
    ensures 2 * img.width - 1 <= i && i + (2 * img.width - 1) < |blank|
    ensures i / (2 * img.width - 1) < 2 * img.height - 2
    ensures ZoomIn(img).pixels[i]
         == Mean([ZoomIn(img).pixels[i - (2 * img.width - 1)], RowsFilled(img, blank)[i + (2 * img.width - 1)]])
  {
    OddRowIndex(i, 2 * img.width - 1, img.height);
    OddRowCellFilled(img, blank, i / (2 * img.width - 1), i % (2 * img.width - 1));
  }

  /** Cell `i` of an odd row of a `width`-wide buffer of `2 * height - 1` rows has a row above and below it. */
  lemma OddRowIndex(i: int, width: int, height: int)
    requires width > 0 && 0 <= i < width * (2 * height - 1) && (i / width) % 2 == 1
    ensures 1 <= i / width && i / width + 1 < 2 * height - 1 && 0 <= i % width < width
    ensures width <= i && i + width < width * (2 * height - 1)
    ensures i == Pos(width, i / width, i % width)
    ensures i - width == Pos(width, i / width - 1, i % width) && i + width == Pos(width, i / width + 1, i % width)
  {
    Traversal(i, width, 2 * height - 1);
    var row, column := i / width, i % width;
    OddBetween(row, height);
    MulSucc(row - 1, width);
    MulSucc(row, width);
    PosInRange(width, 2 * height - 1, row + 1, column);
  }

  /** Cell (`row`, `column`) of an odd row of the zoomed image, read from the cell above and the filled cell below. */
  lemma OddRowCellFilled(img: Image, blank: seq<Pixel>, row: int, column: int)
    requires ZoomInFits(img, blank)
    requires 0 <= row < 2 * img.height - 1 && row % 2 == 1 && 0 <= column < 2 * img.width - 1
    ensures 1 <= row && row + 1 < 2 * img.height - 1
    ensures 0 <= Pos(2 * img.width - 1, row - 1, column) < |blank|
    ensures 0 <= Pos(2 * img.width - 1, row + 1, column) < |blank|
    ensures 0 <= Pos(2 * img.width - 1, row, column) < |blank|
    ensures ZoomIn(img).pixels[Pos(2 * img.width - 1, row, column)]
         == Mean([ZoomIn(img).pixels[Pos(2 * img.width - 1, row - 1, column)],
                  RowsFilled(img, blank)[Pos(2 * img.width - 1, row + 1, column)]])
  {
    OddBetween(row, img.height);
    ZoomInPixel(img, row, column);
    ZoomInPixel(img, row - 1, column);
    RowsFilledPixel(img, blank, row + 1, column);
  }

  /** The neighbours a cell of an odd row reads in the single traversal as written. */
  lemma OddRowNeighboursAsWritten(img: Image, blank: seq<Pixel>, i: int)
    requires ZoomInFits(img, blank) && 0 <= i < |blank|
    requires (i / (2 * img.width - 1)) % 2 == 1
    ensures 2 * img.width - 1 <= i && i + (2 * img.width - 1) < |blank|
    ensures i / (2 * img.width - 1) < 2 * img.height - 2
    ensures ZoomInAsWritten(img, blank).pixels[i - (2 * img.width - 1)] == ZoomIn(img).pixels[i - (2 * img.width - 1)]
    ensures ZoomInAsWritten(img, blank).pixels[i]
         == Mean([ZoomIn(img).pixels[i - (2 * img.width - 1)], FirstPass(img, blank)[i + (2 * img.width - 1)]])
  {
    var newWidth := 2 * img.width - 1;
    Traversal(i, newWidth, 2 * img.height - 1);
    var row, column := i / newWidth, i % newWidth;
    OddBetween(row, img.height);
    MulSucc(row - 1, newWidth);
    MulSucc(row, newWidth);
    assert i - newWidth == Pos(newWidth, row - 1, column) && i + newWidth == Pos(newWidth, row + 1, column);
    OddRowCellAsWritten(img, blank, row, column);
  }

  /** Cell (`row`, `column`) of an odd row as written, with the cells above and below it. */
  lemma OddRowCellAsWritten(img: Image, blank: seq<Pixel>, row: int, column: int)
    requires ZoomInFits(img, blank)
    requires 0 <= row < 2 * img.height - 1 && row % 2 == 1 && 0 <= column < 2 * img.width - 1
    ensures 1 <= row && row + 1 < 2 * img.height - 1
    ensures 0 <= Pos(2 * img.width - 1, row - 1, column) < |blank|
    ensures 0 <= Pos(2 * img.width - 1, row + 1, column) < |blank|
    ensures 0 <= Pos(2 * img.width - 1, row, column) < |blank|
    ensures ZoomInAsWritten(img, blank).pixels[Pos(2 * img.width - 1, row - 1, column)]
         == ZoomIn(img).pixels[Pos(2 * img.width - 1, row - 1, column)]
    ensures ZoomInAsWritten(img, blank).pixels[Pos(2 * img.width - 1, row, column)]
         == Mean([ZoomIn(img).pixels[Pos(2 * img.width - 1, row - 1, column)],
                  FirstPass(img, blank)[Pos(2 * img.width - 1, row + 1, column)]])
  {
    OddBetween(row, img.height);
    ZoomInPixel(img, row - 1, column);
    ZoomInAsWrittenPixel(img, blank, row - 1, column);
    FirstPassPixel(img, blank, row + 1, column);
    if column % 2 == 0 {
      ZoomInPixel(img, row, column);
      ZoomInAsWrittenPixel(img, blank, row, column);
    } else {
      ZoomInAsWrittenOddPixel(img, blank, row, column);
    }
  }

  lemma RowStep(s: seq<Pixel>, img: Image, blank: seq<Pixel>, i: int)
    requires ZoomInFits(img, blank) && Stage(s, FirstPass(img, blank), RowsFilled(img, blank), i)
    requires 0 <= i < |s|
    ensures RowInterpolation(s, 2 * img.width - 1, 2 * img.height - 1, i) == RowsFilled(img, blank)[i]
  {
    var newWidth := 2 * img.width - 1;
    if (i / newWidth) % 2 == 0 && (i % newWidth) % 2 == 1 {
      EvenRowNeighbours(img, blank, i);
      assert s[i - 1] == RowsFilled(img, blank)[i - 1];
      assert s[i + 1] == FirstPass(img, blank)[i + 1];
    } else {
      assert s[i] == FirstPass(img, blank)[i];
      Neighbours(newWidth, 2 * img.height - 1, i);
    }
  }

  lemma ColumnStep(s: seq<Pixel>, img: Image, blank: seq<Pixel>, i: int)
    requires ZoomInFits(img, blank) && Stage(s, RowsFilled(img, blank), ZoomIn(img).pixels, i)
    requires 0 <= i < |s|
    ensures ColumnInterpolation(s, 2 * img.width - 1, 2 * img.height - 1, i) == ZoomIn(img).pixels[i]
  {
    var newWidth := 2 * img.width - 1;
    if (i / newWidth) % 2 == 1 {
      OddRowNeighbours(img, blank, i);
      assert s[i - newWidth] == ZoomIn(img).pixels[i - newWidth];
      assert s[i + newWidth] == RowsFilled(img, blank)[i + newWidth];
    } else {
      assert s[i] == RowsFilled(img, blank)[i];
      Neighbours(newWidth, 2 * img.height - 1, i);
    }
  }

  lemma AsWrittenRowStep(s: seq<Pixel>, img: Image, blank: seq<Pixel>, i: int)
    requires ZoomInFits(img, blank) && Stage(s, FirstPass(img, blank), ZoomInAsWritten(img, blank).pixels, i)
    requires 0 <= i < |s|
    requires (i / (2 * img.width - 1)) % 2 == 0 && (i % (2 * img.width - 1)) % 2 == 1
    ensures RowInterpolation(s, 2 * img.width - 1, 2 * img.height - 1, i) == ZoomInAsWritten(img, blank).pixels[i]
  {
    EvenRowNeighbours(img, blank, i);
    assert s[i - 1] == RowsFilled(img, blank)[i - 1];
    assert s[i + 1] == FirstPass(img, blank)[i + 1];
  }

  lemma AsWrittenColumnStep(s: seq<Pixel>, img: Image, blank: seq<Pixel>, i: int)
    requires ZoomInFits(img, blank) && Stage(s, FirstPass(img, blank), ZoomInAsWritten(img, blank).pixels, i)
    requires 0 <= i < |s|
    requires !((i / (2 * img.width - 1)) % 2 == 0 && (i % (2 * img.width - 1)) % 2 == 1)
    ensures ColumnInterpolation(s, 2 * img.width - 1, 2 * img.height - 1, i) == ZoomInAsWritten(img, blank).pixels[i]
  {
    var newWidth := 2 * img.width - 1;
    if (i / newWidth) % 2 == 1 {
      AsWrittenOddRowStep(s, img, blank, i);
    } else {
      EvenCellAsWritten(img, blank, i);
      assert s[i] == FirstPass(img, blank)[i];
    }
  }

  /** A cell of an odd row, as written: the finished cell above and the first-pass cell below. */
  lemma AsWrittenOddRowStep(s: seq<Pixel>, img: Image, blank: seq<Pixel>, i: int)
    requires ZoomInFits(img, blank) && Stage(s, FirstPass(img, blank), ZoomInAsWritten(img, blank).pixels, i)
    requires 0 <= i < |s| && (i / (2 * img.width - 1)) % 2 == 1
    ensures ColumnInterpolation(s, 2 * img.width - 1, 2 * img.height - 1, i) == ZoomInAsWritten(img, blank).pixels[i]
  {
    var newWidth := 2 * img.width - 1;
    OddRowNeighboursAsWritten(img, blank, i);
    var above, below := s[i - newWidth], s[i + newWidth];
    assert above == ZoomIn(img).pixels[i - newWidth];
    assert below == FirstPass(img, blank)[i + newWidth];
    assert ColumnInterpolation(s, newWidth, 2 * img.height - 1, i) == Mean([above, below]);
  }

  /** A cell of an even row and even column holds its original pixel from the first traversal on. */
  lemma EvenCellAsWritten(img: Image, blank: seq<Pixel>, i: int)
    requires ZoomInFits(img, blank) && 0 <= i < |blank|
    requires (i / (2 * img.width - 1)) % 2 == 0 && (i % (2 * img.width - 1)) % 2 == 0
    ensures FirstPass(img, blank)[i] == ZoomInAsWritten(img, blank).pixels[i]
  {
    var newWidth := 2 * img.width - 1;
    Traversal(i, newWidth, 2 * img.height - 1);
    var row, column := i / newWidth, i % newWidth;
    FirstPassPixel(img, blank, row, column);
    ZoomInPixel(img, row, column);
    ZoomInAsWrittenPixel(img, blank, row, column);
  }

  /** The source's `average`: per-channel sums over the list, each divided by its length. */
  method Average(values: seq<Pixel>) returns (average: Pixel)
    requires |values| > 0
    ensures average == Mean(values)
  {
    var red, green, blue := 0, 0, 0;
    for i := 0 to |values|
      invariant Totals(values[..i], i, red, green, blue)
    {
      assert values[..i + 1] == values[..i] + [values[i]];
      SumAppend(values[..i], values[i]);
      red := red + values[i].red;
      green := green + values[i].green;
      blue := blue + values[i].blue;
    }
    assert values[..|values|] == values;
    MeanBySums(values);
    average := Pixel(red / |values|, green / |values|, blue / |values|);
  }

  /** The first branch of the second closure of `zoomIn`, run on cell `index` of the buffer. */
  method InterpolateRowCell(pixels: array<Pixel>, width: nat, height: nat, index: int)
    requires pixels.Length == width * height && 0 <= index < pixels.Length
    modifies pixels
    ensures pixels[..] == old(pixels[..])[index := RowInterpolation(old(pixels[..]), width, height, index)]
  {
    Neighbours(width, height, index);
    var row, column := index / width, index % width;
    if row % 2 == 0 && column % 2 == 1 {
      var list := [pixels[index - 1]];
      if column < width - 1 {
        list := list + [pixels[index + 1]];
        assert list == [pixels[index - 1], pixels[index + 1]];
      }
      var value := Average(list);
      pixels[index] := value;
    }
  }

  /** The second branch of the second closure of `zoomIn`, run on cell `index` of the buffer. */
  method InterpolateColumnCell(pixels: array<Pixel>, width: nat, height: nat, index: int)
    requires pixels.Length == width * height && 0 <= index < pixels.Length
    modifies pixels
    ensures pixels[..] == old(pixels[..])[index := ColumnInterpolation(old(pixels[..]), width, height, index)]
  {
    Neighbours(width, height, index);
    var row := index / width;
    if row % 2 == 1 {
      var list := [pixels[index - width]];
      if row < height - 1 {
        list := list + [pixels[index + width]];
        assert list == [pixels[index - width], pixels[index + width]];
      }
      var value := Average(list);
      pixels[index] := value;
    }
  }

  /**
   * `zoomIn` as written: scatter the originals, then one traversal in which
   * the closure fills the odd cells of even rows and, in the same sweep, the
   * cells of odd rows.
   */
  method ZoomInAsWrittenPass(img: Image, blank: seq<Pixel>) returns (result: Image)
    requires ZoomInFits(img, blank)
    ensures result == ZoomInAsWritten(img, blank)
  {
    var newWidth, newHeight := 2 * img.width - 1, 2 * img.height - 1;
    var size := newWidth * newHeight;
    var pixels := new Pixel[size](k requires 0 <= k < size => blank[k]);
    assert pixels[..] == blank;
    ScatterOriginals(img, pixels);
    ghost var after := ZoomInAsWritten(img, blank).pixels;
    for i := 0 to size
      invariant Stage(pixels[..], FirstPass(img, blank), after, i)
    {
      Neighbours(newWidth, newHeight, i);
      if (i / newWidth) % 2 == 0 && (i % newWidth) % 2 == 1 {
        AsWrittenRowStep(pixels[..], img, blank, i);
        InterpolateRowCell(pixels, newWidth, newHeight, i);
      } else {
        AsWrittenColumnStep(pixels[..], img, blank, i);
        InterpolateColumnCell(pixels, newWidth, newHeight, i);
      }
    }
    result := Image(newWidth, newHeight, pixels[..]);
  }

  /**
   * `zoomIn` with the second traversal split in two, so that every odd row
   * is interpolated from two even rows that are already complete; whatever
   * the fresh buffer held is overwritten before it is read.
   */
  method ZoomInPass(img: Image) returns (result: Image)
    requires img.Valid() && img.width >= 1 && img.height >= 1
    ensures result == ZoomIn(img)
  {
    var newWidth, newHeight := 2 * img.width - 1, 2 * img.height - 1;
    var size := newWidth * newHeight;
    var pixels := new Pixel[size];
    ghost var blank := pixels[..];
    ScatterOriginals(img, pixels);
    for i := 0 to size
      invariant Stage(pixels[..], FirstPass(img, blank), RowsFilled(img, blank), i)
    {
      RowStep(pixels[..], img, blank, i);
      InterpolateRowCell(pixels, newWidth, newHeight, i);
    }
    for i := 0 to size
      invariant Stage(pixels[..], RowsFilled(img, blank), ZoomIn(img).pixels, i)
    {
      ColumnStep(pixels[..], img, blank, i);
      InterpolateColumnCell(pixels, newWidth, newHeight, i);
    }
    result := Image(newWidth, newHeight, pixels[..]);
  }
}
