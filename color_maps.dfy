/**
 * The per-pixel colour maps of the image widget: grayscale, negative,
 * brightness, contrast and quantization. Each recolours every pixel from its
 * own value; the image keeps its dimensions.
 */
module ColorMaps {
  import opened Raster

  /** The least of the three channels. */
  function LeastChannel(p: Pixel): Channel
  {
    if p.red <= p.green && p.red <= p.blue then p.red
    else if p.green <= p.blue then p.green
    else p.blue
  }

  /** The greatest of the three channels. */
  function GreatestChannel(p: Pixel): Channel
  {
    if p.red >= p.green && p.red >= p.blue then p.red
    else if p.green >= p.blue then p.green
    else p.blue
  }

  /**
   * Luminance as `grayscale` computes it: `0.299 R + 0.587 G + 0.114 B`,
   * truncated to an int. Modelled exactly as `(299 R + 587 G + 114 B) / 1000`.
   * In double arithmetic the sum for a gray pixel falls just below the exact
   * value for about a quarter of the 256 gray tones (254 gives 253), so the
   * second ensures holds of this exact model, not of the double computation.
   * A weighted average, it lies between the least and the greatest channel.
   */
  function Luminance(p: Pixel): (v: Channel)
    ensures LeastChannel(p) <= v <= GreatestChannel(p)
    ensures p.red == p.green == p.blue ==> v == p.red
  {
    var weighted := 299 * p.red + 587 * p.green + 114 * p.blue;
    assert 1000 * LeastChannel(p) <= weighted <= 1000 * GreatestChannel(p);
    assert p.red == p.green == p.blue ==> weighted == 1000 * p.red;
    weighted / 1000
  }

  function GrayscalePixel(p: Pixel): Pixel
  {
    Gray(Luminance(p))
  }

  /** `grayscale(QImage)`: every pixel becomes the gray of its luminance. */
  function Grayscale(img: Image): (r: Image)
    ensures r.width == img.width && r.height == img.height && |r.pixels| == |img.pixels|
  {
    img.(pixels := seq(|img.pixels|, k requires 0 <= k < |img.pixels| => GrayscalePixel(img.pixels[k])))
  }

  lemma GrayscaleIsGray(img: Image, k: int)
    requires 0 <= k < |img.pixels|
    ensures var q := Grayscale(img).pixels[k]; q.red == q.green == q.blue
    ensures Grayscale(img).pixels[k].red == Luminance(img.pixels[k])
  {
  }

  /** With the exact luminance, grayscaling an already gray image changes nothing. */
  lemma GrayscaleIdempotent(img: Image)
    ensures Grayscale(Grayscale(img)) == Grayscale(img)
  {
    var once := Grayscale(img);
    assert Grayscale(once).pixels == once.pixels by {
      forall k | 0 <= k < |once.pixels|
        ensures Grayscale(once).pixels[k] == once.pixels[k]
      {
        GrayscaleIsGray(img, k);
      }
    }
  }

  function NegativePixel(p: Pixel): Pixel
  {
    Pixel(255 - p.red, 255 - p.green, 255 - p.blue)
  }

  /** `negative`: every channel `c` becomes `255 - c`. */
  function Negative(img: Image): Image
  {
    img.(pixels := seq(|img.pixels|, k requires 0 <= k < |img.pixels| => NegativePixel(img.pixels[k])))
  }

  lemma NegativeInvolutive(img: Image)
    ensures Negative(Negative(img)) == img
  {
    assert Negative(Negative(img)).pixels == img.pixels;
  }

  /** `addBrightness`: each channel becomes `coerceWithinRange(channel + brightness)`. */
  function BrightnessPixel(p: Pixel, brightness: int): Pixel
  {
    Pixel(CoerceWithinRange(p.red + brightness), CoerceWithinRange(p.green + brightness),
          CoerceWithinRange(p.blue + brightness))
  }

  function AddBrightness(img: Image, brightness: int): Image
  {
    img.(pixels := seq(|img.pixels|, k requires 0 <= k < |img.pixels| => BrightnessPixel(img.pixels[k], brightness)))
  }

  /**
   * Brightness shifts every channel by the offset wherever that stays in
   * range, and otherwise saturates at 0 or 255.
   */
  lemma BrightnessShifts(img: Image, brightness: int, k: int, ch: Component)
    requires 0 <= k < |img.pixels|
    ensures var before, after := Get(img.pixels[k], ch), Get(AddBrightness(img, brightness).pixels[k], ch);
      && (0 <= before + brightness <= 255 ==> after == before + brightness)
      && (before + brightness > 255 ==> after == 255)
      && (before + brightness < 0 ==> after == 0)
  {
    var p := img.pixels[k];
    var c := CoerceWithinRange(Get(p, ch) + brightness);
    assert Distance(c, Get(p, ch) + brightness) <= Distance(255, Get(p, ch) + brightness);
    assert Distance(c, Get(p, ch) + brightness) <= Distance(0, Get(p, ch) + brightness);
  }

  lemma BrightnessZeroIsIdentity(img: Image)
    ensures AddBrightness(img, 0) == img
  {
    assert AddBrightness(img, 0).pixels == img.pixels;
  }

  /** `addContrast`: each channel becomes `coerceWithinRange(contrast * channel)`. */
  function ContrastPixel(p: Pixel, contrast: int): Pixel
  {
    Pixel(CoerceWithinRange(contrast * p.red), CoerceWithinRange(contrast * p.green),
          CoerceWithinRange(contrast * p.blue))
  }

  function AddContrast(img: Image, contrast: int): Image
  {
    img.(pixels := seq(|img.pixels|, k requires 0 <= k < |img.pixels| => ContrastPixel(img.pixels[k], contrast)))
  }

  lemma ContrastOneIsIdentity(img: Image)
    ensures AddContrast(img, 1) == img
  {
    assert AddContrast(img, 1).pixels == img.pixels;
  }

  /** A non-positive contrast factor turns every pixel black. */
  lemma ContrastNonPositiveIsBlack(img: Image, contrast: int, k: int)
    requires contrast <= 0 && 0 <= k < |img.pixels|
    ensures AddContrast(img, contrast).pixels[k] == Pixel(0, 0, 0)
  {
    var p := img.pixels[k];
    NonPositiveProduct(contrast, p.red);
    NonPositiveProduct(contrast, p.green);
    NonPositiveProduct(contrast, p.blue);
  }

  lemma NonPositiveProduct(c: int, x: int)
    requires c <= 0 <= x
    ensures c * x <= 0
  {
    assert c * x == -((-c) * x);
  }

  // ---------------------------------------------------------------- quantize

  /** `min_tone` after the scan of `quantize` over the first `n` pixels: starts at 256, keeps the least red. */
  function MinToneOf(s: seq<Pixel>, n: nat): (r: int)
    requires n <= |s|
    ensures n == 0 ==> r == 256
    ensures n > 0 ==> 0 <= r <= 255 && (exists k :: 0 <= k < n && s[k].red == r)
    ensures forall k :: 0 <= k < n ==> r <= s[k].red
  {
    if n == 0 then 256
    else
      var prev := MinToneOf(s, n - 1);
      if s[n - 1].red < prev then s[n - 1].red else prev
  }

  /** `max_tone` after the scan of `quantize` over the first `n` pixels: starts at 0, keeps the greatest red. */
  function MaxToneOf(s: seq<Pixel>, n: nat): (r: int)
    requires n <= |s|
    ensures 0 <= r <= 255 && (n == 0 ==> r == 0)
    ensures n > 0 ==> exists k :: 0 <= k < n && s[k].red == r
    ensures forall k :: 0 <= k < n ==> s[k].red <= r
  {
    if n == 0 then 0
    else
      var prev := MaxToneOf(s, n - 1);
      if s[n - 1].red > prev then s[n - 1].red else prev
  }

  /** The least red tone of the image, or 256 when it has no pixels. */
  function MinTone(s: seq<Pixel>): int
  {
    MinToneOf(s, |s|)
  }

  /** The greatest red tone of the image, or 0 when it has no pixels. */
  function MaxTone(s: seq<Pixel>): int
  {
    MaxToneOf(s, |s|)
  }

  /** The first traversal of `quantize`: the least and greatest red tone. */
  method ToneRange(img: Image) returns (minTone: int, maxTone: int)
    ensures minTone == MinTone(img.pixels) && maxTone == MaxTone(img.pixels)
  {
    minTone, maxTone := 256, 0;
    var s := img.pixels;
    for i := 0 to |s|
      invariant minTone == MinToneOf(s, i) && maxTone == MaxToneOf(s, i)
    {
      var tone := s[i].red;
      if tone > maxTone {
        maxTone := tone;
      }
      if tone < minTone {
        minTone := tone;
      }
    }
  }

  /** Start of the bucket of width `intervalLength` holding `tone`, buckets starting at `minTone`. */
  function BucketStart(tone: int, minTone: int, intervalLength: int): (start: int)
    requires minTone <= tone && intervalLength >= 1
    ensures minTone <= start <= tone < start + intervalLength
    ensures (start - minTone) % intervalLength == 0
  {
    var index := (tone - minTone) / intervalLength;
    assert index >= 0;
    PosDivMod(intervalLength, index, 0);
    minTone + intervalLength * index
  }

  /**
   * Truncated midpoint of the bucket. With `offset = minTone - 0.5` the source's
   * bucket is `[start - 0.5, start + L - 0.5)` and its float midpoint is
   * `start + (L - 1) / 2`, exactly; the conversion to `uint8_t` truncates it.
   */
  function BucketMidpoint(tone: int, minTone: int, intervalLength: int): (mid: int)
    requires minTone <= tone && intervalLength >= 1
    ensures var start := BucketStart(tone, minTone, intervalLength);
      start <= mid <= start + intervalLength - 1 && 2 * mid <= 2 * start + intervalLength - 1 <= 2 * mid + 1
  {
    BucketStart(tone, minTone, intervalLength) + (intervalLength - 1) / 2
  }

  /**
   * `retrieveNewQuantizedColor` as written: the midpoint is returned through
   * `uint8_t`, which keeps only its low byte once it passes 255 (the
   * conversion is undefined in C++; on the usual targets it wraps like this).
   */
  function RetrieveNewQuantizedColorAsWritten(tone: Channel, minTone: Channel, intervalLength: int): (r: int)
    requires minTone <= tone && 1 <= intervalLength <= 255
    ensures 0 <= r <= 255
    ensures BucketMidpoint(tone, minTone, intervalLength) <= 255 ==> r == BucketMidpoint(tone, minTone, intervalLength)
  {
    BucketMidpoint(tone, minTone, intervalLength) % 256
  }

  /**
   * Counterexample: three tones over the full range 0..255 give buckets of 85;
   * tone 254 lands on 212 but tone 255, in the partial fourth bucket
   * `[255, 340)`, wraps from 297 to 41, below its own bucket and below the
   * quantized value of a darker tone.
   */
  lemma QuantizedColorWrapsAsWritten()
    ensures 256 / 3 == 85
    ensures RetrieveNewQuantizedColorAsWritten(254, 0, 85) == 212
    ensures RetrieveNewQuantizedColorAsWritten(255, 0, 85) == 41
    ensures RetrieveNewQuantizedColorAsWritten(255, 0, 85) < BucketStart(255, 0, 85)
  {
    assert BucketStart(254, 0, 85) == 170;
    assert BucketStart(255, 0, 85) == 255;
  }

  /**
   * `retrieveNewQuantizedColor` with the narrowing saturated: the truncated
   * midpoint of the tone's bucket, or 255 when that midpoint lies past 255.
   * The result stays in the tone's own bucket.
   */
  function RetrieveNewQuantizedColor(tone: Channel, minTone: Channel, intervalLength: int): Channel
    requires minTone <= tone && 1 <= intervalLength <= 255
  {
    CoerceWithinRange(BucketMidpoint(tone, minTone, intervalLength))
  }

  /**
   * The quantized tone lies in the tone's own bucket; short of saturating at
   * 255 it is the bucket's truncated midpoint, the value the code computes
   * before the narrowing.
   */
  lemma QuantizedColorInBucket(tone: Channel, minTone: Channel, intervalLength: int)
    requires minTone <= tone && 1 <= intervalLength <= 255
    ensures var r, start := RetrieveNewQuantizedColor(tone, minTone, intervalLength), BucketStart(tone, minTone, intervalLength);
      && start <= r <= start + intervalLength - 1
      && (r == 255 || 2 * r <= 2 * start + intervalLength - 1 <= 2 * r + 1)
      && (r == 255 || r == RetrieveNewQuantizedColorAsWritten(tone, minTone, intervalLength))
  {
  }

  /** Two tones in the same bucket have the same bucket start; later buckets start later. */
  lemma BucketStartMonotone(t1: int, t2: int, minTone: int, intervalLength: int)
    requires minTone <= t1 <= t2 && intervalLength >= 1
    ensures BucketStart(t1, minTone, intervalLength) <= BucketStart(t2, minTone, intervalLength)
  {
    var i1, i2 := (t1 - minTone) / intervalLength, (t2 - minTone) / intervalLength;
    QuotientMonotone(t1 - minTone, t2 - minTone, intervalLength);
    MulMonotone(intervalLength, i1, i2);
  }

  /** Dividing by the same positive width keeps the order. */
  lemma QuotientMonotone(a: int, b: int, width: int)
    requires 0 <= a <= b && width >= 1
    ensures a / width <= b / width
  {
    var q1, q2 := a / width, b / width;
    assert q1 * width <= a && b < q2 * width + width;
    assert (q1 - q2 - 1) * width == q1 * width - q2 * width - width;
    NegativeFactor(q1 - q2 - 1, width);
  }

  lemma NegativeFactor(d: int, width: int)
    requires width >= 1 && d * width < 0
    ensures d < 0
  {
  }

  lemma MulMonotone(width: int, x: int, y: int)
    requires width >= 1 && x <= y
    ensures width * x <= width * y
  {
    assert width * y - width * x == width * (y - x);
  }

  /** Quantization keeps the order of tones. */
  lemma QuantizedColorMonotone(t1: Channel, t2: Channel, minTone: Channel, intervalLength: int)
    requires minTone <= t1 <= t2 && 1 <= intervalLength <= 255
    ensures RetrieveNewQuantizedColor(t1, minTone, intervalLength) <= RetrieveNewQuantizedColor(t2, minTone, intervalLength)
  {
    BucketStartMonotone(t1, t2, minTone, intervalLength);
    CoerceMonotone(BucketMidpoint(t1, minTone, intervalLength), BucketMidpoint(t2, minTone, intervalLength));
  }

  /** The quantized tone lies in its own bucket, so quantizing it again gives it back. */
  lemma QuantizedColorIdempotent(tone: Channel, minTone: Channel, intervalLength: int)
    requires minTone <= tone && 1 <= intervalLength <= 255
    ensures var q := RetrieveNewQuantizedColor(tone, minTone, intervalLength);
      RetrieveNewQuantizedColor(q, minTone, intervalLength) == q
  {
    var q := RetrieveNewQuantizedColor(tone, minTone, intervalLength);
    BucketStartsAgree(tone, q, minTone, intervalLength);
  }

  /** Two tones lying in the same bucket window share the bucket start. */
  lemma BucketStartsAgree(t1: int, t2: int, minTone: int, intervalLength: int)
    requires minTone <= t1 && minTone <= t2 && intervalLength >= 1
    requires var s := BucketStart(t1, minTone, intervalLength); s <= t2 < s + intervalLength
    ensures BucketStart(t2, minTone, intervalLength) == BucketStart(t1, minTone, intervalLength)
  {
    var s1 := BucketStart(t1, minTone, intervalLength);
    var i1 := (t1 - minTone) / intervalLength;
    assert t2 - minTone == Pos(intervalLength, i1, t2 - s1);
    PosDivMod(intervalLength, i1, t2 - s1);
  }

  /**
   * `intervals / tones` fits the `uint8_t` parameter of
   * `retrieveNewQuantizedColor`: the quotient is at most 255 exactly when
   * `intervals < 256 * tones`.
   */
  predicate QuantizeFits(img: Image, tones: int)
  {
    var intervals := MaxTone(img.pixels) - MinTone(img.pixels) + 1;
    tones <= 0 || tones >= intervals || intervals < 256 * tones
  }

  /** The bucket width `intervals / tones` of a quantization with work to do. */
  function IntervalLength(intervals: int, tones: int): (r: int)
    requires 1 <= tones < intervals < 256 * tones
    ensures 1 <= r <= 255
  {
    QuotientBounds(intervals, tones);
    intervals / tones
  }

  /**
   * The 32-bit QRgb word of an opaque pixel, `0xAARRGGBB` with alpha `0xFF`
   * (the format of a pixmap converted to an image).
   */
  function Rgb(p: Pixel): (v: int)
    ensures 0xFF00_0000 <= v <= 0xFFFF_FFFF
    ensures v % 0x100 == p.blue && v / 0x100 % 0x100 == p.green && v / 0x1_0000 % 0x100 == p.red
  {
    PosDivMod(0x100, Pos(0x100, 0xFF, p.red) * 0x100 + p.green, p.blue);
    PosDivMod(0x100, Pos(0x100, 0xFF, p.red), p.green);
    PosDivMod(0x1_0000, Pos(0x100, 0xFF, p.red), p.green * 0x100 + p.blue);
    PosDivMod(0x100, 0xFF, p.red);
    0xFF00_0000 + p.red * 0x1_0000 + p.green * 0x100 + p.blue
  }

  /**
   * The index the second pass of `quantize` writes to, as written: the
   * pixel's own QRgb word is used as the position (`pixels[pixels[index]]`).
   */
  function QuantizeWriteIndexAsWritten(s: seq<Pixel>, index: int): (target: int)
    requires 0 <= index < |s|
    ensures 0xFF00_0000 <= target <= 0xFFFF_FFFF
    ensures target % 0x100 == s[index].blue && target / 0x100 % 0x100 == s[index].green
    ensures target / 0x1_0000 % 0x100 == s[index].red
  {
    Rgb(s[index])
  }

  /**
   * As written, no write of the quantize pass lands on the pixel it was
   * computed for, nor anywhere inside any image of fewer than `0xFF000000`
   * pixels: the quantized tones never reach the image.
   */
  lemma QuantizeWritesOutsideImageAsWritten(img: Image, index: int)
    requires 0 <= index < |img.pixels| <= 0xFF00_0000
    ensures QuantizeWriteIndexAsWritten(img.pixels, index) != index
    ensures QuantizeWriteIndexAsWritten(img.pixels, index) >= |img.pixels|
  {
  }

  /**
   * `quantize(tones)` on the red tone: nothing when `tones == 0` or when there
   * are no more tones than `intervals = max - min + 1`; otherwise every pixel
   * becomes the gray of its quantized red tone, buckets `intervals / tones`
   * wide starting at the least tone. The write goes to the pixel's own
   * position (`QuantizeWriteIndexAsWritten` is the position written as the
   * code stands).
   */
  function Quantize(img: Image, tones: nat): Image
    requires QuantizeFits(img, tones)
  {
    var intervals := MaxTone(img.pixels) - MinTone(img.pixels) + 1;
    if tones == 0 || tones >= intervals then img
    else Image(img.width, img.height, QuantizedTones(img.pixels, MinTone(img.pixels), IntervalLength(intervals, tones)))
  }

  /** Every pixel of `s` as the gray of its quantized red tone. */
  function QuantizedTones(s: seq<Pixel>, minTone: Channel, intervalLength: int): (r: seq<Pixel>)
    requires 1 <= intervalLength <= 255 && forall k :: 0 <= k < |s| ==> minTone <= s[k].red
    ensures |r| == |s|
    ensures forall k :: 0 <= k < |s| ==> r[k] == Gray(RetrieveNewQuantizedColor(s[k].red, minTone, intervalLength))
  {
    seq(|s|, k requires 0 <= k < |s| => Gray(RetrieveNewQuantizedColor(s[k].red, minTone, intervalLength)))
  }

  /**
   * The quantized tones are gray, each lies in the bucket of its pixel's red
   * tone, and the order of red tones is kept.
   */
  lemma QuantizedTonesInBucket(s: seq<Pixel>, minTone: Channel, intervalLength: int)
    requires 1 <= intervalLength <= 255 && forall k :: 0 <= k < |s| ==> minTone <= s[k].red
    ensures var r := QuantizedTones(s, minTone, intervalLength);
      && (forall k :: 0 <= k < |s| ==> r[k].red == r[k].green == r[k].blue)
      && (forall k :: 0 <= k < |s| ==>
            BucketStart(s[k].red, minTone, intervalLength) <= r[k].red
            < BucketStart(s[k].red, minTone, intervalLength) + intervalLength)
      && (forall i, j :: 0 <= i < |s| && 0 <= j < |s| && s[i].red <= s[j].red ==> r[i].red <= r[j].red)
  {
    var r := QuantizedTones(s, minTone, intervalLength);
    forall k | 0 <= k < |s|
      ensures BucketStart(s[k].red, minTone, intervalLength) <= r[k].red
            < BucketStart(s[k].red, minTone, intervalLength) + intervalLength
    {
      QuantizedColorInBucket(s[k].red, minTone, intervalLength);
    }
    forall i, j | 0 <= i < |s| && 0 <= j < |s| && s[i].red <= s[j].red
      ensures r[i].red <= r[j].red
    {
      QuantizedColorMonotone(s[i].red, s[j].red, minTone, intervalLength);
    }
  }

  /**
   * The two traversals of `quantize`: the tone range first, then, unless
   * there is nothing to do, every pixel through `retrieveNewQuantizedColor`.
   */
  method QuantizePass(img: Image, tones: nat) returns (result: Image)
    requires img.Valid() && QuantizeFits(img, tones)
    ensures result == Quantize(img, tones)
  {
    if tones == 0 {
      return img;
    }
    var minTone, maxTone := ToneRange(img);
    var intervals := maxTone - minTone + 1;
    if tones >= intervals {
      return img;
    }
    var intervalLength := intervals / tones;
    var low: Channel := minTone;
    result := QuantizeTones(img, tones, low, intervalLength);
  }

  /** The second traversal of `quantize`: every pixel becomes the gray of its quantized red tone. */
  method QuantizeTones(img: Image, tones: nat, low: Channel, intervalLength: int) returns (result: Image)
    requires img.Valid() && QuantizeFits(img, tones)
    requires low == MinTone(img.pixels) && 0 < tones < MaxTone(img.pixels) - MinTone(img.pixels) + 1
    requires intervalLength == IntervalLength(MaxTone(img.pixels) - MinTone(img.pixels) + 1, tones)
    ensures result == Quantize(img, tones)
  {
    ghost var quantized := Quantize(img, tones);
    QuantizedPixels(img, tones, low, intervalLength);
    assert |quantized.pixels| == |img.pixels|;
    result := OnPixels(img, (p: Pixel) requires low <= p.red && 1 <= intervalLength <= 255 =>
      Gray(RetrieveNewQuantizedColor(p.red, low, intervalLength)));
    assert result.pixels == quantized.pixels;
  }

  lemma QuantizedPixels(img: Image, tones: nat, low: Channel, intervalLength: int)
    requires QuantizeFits(img, tones)
    requires low == MinTone(img.pixels) && 0 < tones < MaxTone(img.pixels) - MinTone(img.pixels) + 1
    requires intervalLength == IntervalLength(MaxTone(img.pixels) - MinTone(img.pixels) + 1, tones)
    ensures forall k :: 0 <= k < |img.pixels| ==>
      && low <= img.pixels[k].red && 1 <= intervalLength <= 255
      && Quantize(img, tones).pixels[k] == Gray(RetrieveNewQuantizedColor(img.pixels[k].red, low, intervalLength))
  {
    forall k | 0 <= k < |img.pixels|
      ensures low <= img.pixels[k].red && 1 <= intervalLength <= 255
      ensures Quantize(img, tones).pixels[k] == Gray(RetrieveNewQuantizedColor(img.pixels[k].red, low, intervalLength))
    {
      QuantizedPixel(img, tones, k, low, intervalLength);
    }
  }

  /** Where quantize has work to do, pixel `k` becomes the gray of its quantized red tone. */
  lemma QuantizedPixel(img: Image, tones: nat, k: int, low: Channel, intervalLength: int)
    requires QuantizeFits(img, tones) && 0 <= k < |img.pixels|
    requires low == MinTone(img.pixels) && 0 < tones < MaxTone(img.pixels) - MinTone(img.pixels) + 1
    requires intervalLength == IntervalLength(MaxTone(img.pixels) - MinTone(img.pixels) + 1, tones)
    ensures low <= img.pixels[k].red && 1 <= intervalLength <= 255
    ensures Quantize(img, tones).pixels[k] == Gray(RetrieveNewQuantizedColor(img.pixels[k].red, low, intervalLength))
  {
    assert Quantize(img, tones) == Image(img.width, img.height, QuantizedTones(img.pixels, MinTone(img.pixels),
      IntervalLength(MaxTone(img.pixels) - MinTone(img.pixels) + 1, tones)));
  }

  lemma QuotientBounds(a: int, b: int)
    requires 1 <= b <= a < 256 * b
    ensures 1 <= a / b <= 255 && (a / b) * b <= a < (a / b + 1) * b
  {
  }

  /** Quantizing keeps the order of red tones between any two pixels. */
  lemma QuantizePreservesOrder(img: Image, tones: nat, i: int, j: int)
    requires QuantizeFits(img, tones)
    requires 0 <= i < |img.pixels| && 0 <= j < |img.pixels|
    requires img.pixels[i].red <= img.pixels[j].red
    ensures Quantize(img, tones).pixels[i].red <= Quantize(img, tones).pixels[j].red
  {
    var lo, hi := MinTone(img.pixels), MaxTone(img.pixels);
    var intervals := hi - lo + 1;
    if !(tones == 0 || tones >= intervals) {
      var intervalLength := IntervalLength(intervals, tones);
      QuantizedPixel(img, tones, i, lo, intervalLength);
      QuantizedPixel(img, tones, j, lo, intervalLength);
      QuantizedColorMonotone(img.pixels[i].red, img.pixels[j].red, lo, intervalLength);
    }
  }
}
