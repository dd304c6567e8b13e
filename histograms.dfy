/**
 * The histogram engine of the image widget: the 256-bucket count of the
 * grayscaled red tone, the normalised cumulative table built from it,
 * equalization through that table and histogram matching by closest shade.
 */
module Histograms {
  import opened Raster
  import opened ColorMaps

  /** Sum of a list of counts, accumulated front to back. */
  function Total(h: seq<int>): int
  {
    if h == [] then 0 else Total(h[..|h| - 1]) + h[|h| - 1]
  }

  lemma {:induction false} TotalIncrement(h: seq<int>, i: int)
    requires 0 <= i < |h|
    ensures Total(h[i := h[i] + 1]) == Total(h) + 1
  {
    var h' := h[i := h[i] + 1];
    if i < |h| - 1 {
      assert h'[..|h| - 1] == h[..|h| - 1][i := h[i] + 1];
      TotalIncrement(h[..|h| - 1], i);
    } else {
      assert h'[..|h| - 1] == h[..|h| - 1];
    }
  }

  lemma {:induction false} TotalOfZeros(n: nat)
    ensures Total(seq(n, _ => 0)) == 0
  {
    if n > 0 {
      assert seq(n, _ => 0)[..n - 1] == seq(n - 1, _ => 0);
      TotalOfZeros(n - 1);
    }
  }

  lemma {:induction false} TotalPrefix(h: seq<nat>, i: int)
    requires 0 <= i <= |h|
    ensures Total(h[..i]) <= Total(h)
  {
    if i < |h| {
      assert h[..|h| - 1][..i] == h[..i];
      TotalPrefix(h[..|h| - 1], i);
    } else {
      assert h[..i] == h;
    }
  }

  /** The counts after tallying the red tones of `s` front to back. */
  function Histogram(s: seq<Pixel>): (counts: seq<nat>)
    ensures |counts| == 256
  {
    if s == [] then seq(256, _ => 0)
    else
      var prev := Histogram(s[..|s| - 1]);
      var tone := s[|s| - 1].red;
      prev[tone := prev[tone] + 1]
  }

  /** The positions of `s` whose red tone is `tone`. */
  function Positions(s: seq<Pixel>, tone: int): set<int>
  {
    set k | 0 <= k < |s| && s[k].red == tone
  }

  /** Bucket `tone` counts exactly the pixels of that tone. */
  lemma {:induction false} HistogramCounts(s: seq<Pixel>, tone: int)
    requires 0 <= tone < 256
    ensures Histogram(s)[tone] == |Positions(s, tone)|
  {
    if s == [] {
      assert Positions(s, tone) == {};
    } else {
      var n := |s| - 1;
      HistogramCounts(s[..n], tone);
      var before := Positions(s[..n], tone);
      if s[n].red == tone {
        assert Positions(s, tone) == before + {n};
      } else {
        assert Positions(s, tone) == before;
      }
    }
  }

  /** The counts add up to the number of pixels. */
  lemma {:induction false} HistogramTotal(s: seq<Pixel>)
    ensures Total(Histogram(s)) == |s|
  {
    if s == [] {
      TotalOfZeros(256);
    } else {
      HistogramTotal(s[..|s| - 1]);
      TotalIncrement(Histogram(s[..|s| - 1]), s[|s| - 1].red);
    }
  }

  /**
   * `calculateHistogram(QImage)`: grayscale the image, then add one to the
   * bucket of each pixel's red tone.
   */
  method CalculateHistogram(target: Image) returns (counts: seq<nat>)
    requires target.Valid()
    ensures counts == Histogram(Grayscale(target).pixels)
    ensures Total(counts) == |target.pixels|
    ensures forall tone :: 0 <= tone < 256 ==> counts[tone] == |Positions(Grayscale(target).pixels, tone)|
  {
    var grayscaled := OnPixels(target, GrayscalePixel);
    var g := grayscaled.pixels;
    assert g == Grayscale(target).pixels;
    counts := CountTones(g);
    HistogramTotal(g);
    forall tone | 0 <= tone < 256
      ensures counts[tone] == |Positions(g, tone)|
    {
      HistogramCounts(g, tone);
    }
  }

  /** The counting traversal of `calculateHistogram`: one more in the bucket of each red tone. */
  method CountTones(g: seq<Pixel>) returns (counts: seq<nat>)
    ensures counts == Histogram(g)
  {
    var buckets := new nat[256](_ => 0);
    assert buckets[..] == Histogram(g[..0]);
    for i := 0 to |g|
      invariant buckets[..] == Histogram(g[..i])
    {
      assert g[..i + 1][..i] == g[..i];
      var tone := g[i].red;
      buckets[tone] := buckets[tone] + 1;
    }
    assert g[..|g|] == g;
    counts := buckets[..];
  }

  // ------------------------------------------------- normalised histogram

  /** `factor * count` stored into an integer, with `factor = 255 / total` taken exactly. */
  function Scaled(count: nat, total: nat): nat
    requires total > 0
  {
    255 * count / total
  }

  /** Entry `i` of the cumulative table: the previous entry plus the scaled count. */
  function Cumulative(hist: seq<nat>, total: nat, i: nat): nat
    requires total > 0 && i < |hist|
  {
    if i == 0 then Scaled(hist[0], total)
    else Cumulative(hist, total, i - 1) + Scaled(hist[i], total)
  }

  function NormalizedHistogram(hist: seq<nat>, total: nat): (table: seq<nat>)
    requires total > 0
    ensures |table| == |hist|
  {
    seq(|hist|, i requires 0 <= i < |hist| => Cumulative(hist, total, i))
  }

  /** The cumulative table never decreases. */
  lemma {:induction false} CumulativeMonotone(hist: seq<nat>, total: nat, i: nat, j: nat)
    requires total > 0 && i <= j < |hist|
    ensures Cumulative(hist, total, i) <= Cumulative(hist, total, j)
    decreases j
  {
    if i < j {
      CumulativeMonotone(hist, total, i, j - 1);
    }
  }

  /** A sum of truncated quotients is at most the truncated quotient of the sum. */
  lemma {:induction false} CumulativeBound(hist: seq<nat>, total: nat, i: nat)
    requires total > 0 && i < |hist|
    ensures Cumulative(hist, total, i) * total <= 255 * Total(hist[..i + 1])
  {
    assert hist[..i + 1][..i] == hist[..i];
    var scaled := Scaled(hist[i], total);
    assert scaled * total <= 255 * hist[i];
    if i > 0 {
      CumulativeBound(hist, total, i - 1);
      assert Cumulative(hist, total, i) * total
          == Cumulative(hist, total, i - 1) * total + scaled * total;
    } else {
      assert hist[..0] == [];
    }
  }

  lemma MulLeCancel(a: int, b: int, t: int)
    requires t > 0 && a * t <= b * t
    ensures a <= b
  {
    if a > b {
      MulAtLeast(a - b, t);
    }
  }

  /**
   * When the counts add up to `total`, every entry of the table lies in
   * 0..255 and the table never decreases, so it maps channels to channels.
   */
  lemma NormalizedHistogramIsChannelMap(hist: seq<nat>, total: nat)
    requires total > 0 && Total(hist) == total
    ensures forall i :: 0 <= i < |hist| ==> NormalizedHistogram(hist, total)[i] <= 255
    ensures forall i, j :: 0 <= i <= j < |hist| ==> NormalizedHistogram(hist, total)[i] <= NormalizedHistogram(hist, total)[j]
  {
    forall i | 0 <= i < |hist|
      ensures Cumulative(hist, total, i) <= 255
    {
      CumulativeBound(hist, total, i);
      TotalPrefix(hist, i + 1);
      MulLeCancel(Cumulative(hist, total, i), 255, total);
    }
    forall i, j | 0 <= i <= j < |hist|
      ensures Cumulative(hist, total, i) <= Cumulative(hist, total, j)
    {
      CumulativeMonotone(hist, total, i, j);
    }
  }

  /**
   * `calculateNormalizedHistogram(QImage)`: the cumulative table of the
   * image's histogram with `factor = 255 / (width * height)`.
   */
  function EqualizationTable(img: Image): (table: seq<Channel>)
    requires img.Valid() && |img.pixels| > 0
    ensures |table| == 256
  {
    var hist := Histogram(Grayscale(img).pixels);
    HistogramTotal(Grayscale(img).pixels);
    NormalizedHistogramIsChannelMap(hist, |img.pixels|);
    NormalizedHistogram(hist, |img.pixels|)
  }

  /** The equalization table never decreases. */
  lemma EqualizationTableMonotone(img: Image, i: int, j: int)
    requires img.Valid() && |img.pixels| > 0 && 0 <= i <= j < 256
    ensures EqualizationTable(img)[i] <= EqualizationTable(img)[j]
  {
    HistogramTotal(Grayscale(img).pixels);
    CumulativeMonotone(Histogram(Grayscale(img).pixels), |img.pixels|, i, j);
  }

  /**
   * `calculateNormalizedHistogram(QImage, double)`: the histogram, then the
   * running sum of scaled counts.
   */
  method CalculateNormalizedHistogram(target: Image) returns (table: seq<int>)
    requires target.Valid() && |target.pixels| > 0
    ensures table == EqualizationTable(target)
    ensures forall i :: 0 <= i < 256 ==> 0 <= table[i] <= 255
  {
    var total := target.width * target.height;
    var histogram := CalculateHistogram(target);
    assert total == |target.pixels|;
    table := CumulativeTable(histogram, total);
    assert histogram == Histogram(Grayscale(target).pixels);
    ghost var channels := EqualizationTable(target);
    assert table == channels;
    forall i | 0 <= i < 256
      ensures 0 <= table[i] <= 255
    {
      var c: Channel := channels[i];
    }
  }

  /** The prefix-sum loop of `calculateNormalizedHistogram`: entry `i` adds the scaled count of tone `i` to entry `i - 1`. */
  method CumulativeTable(histogram: seq<nat>, total: nat) returns (table: seq<int>)
    requires total > 0 && |histogram| == 256
    ensures table == NormalizedHistogram(histogram, total)
  {
    var cumulative := new int[256];
    cumulative[0] := Scaled(histogram[0], total);
    for i := 1 to 256
      invariant forall j :: 0 <= j < i ==> cumulative[j] == Cumulative(histogram, total, j)
    {
      var next := cumulative[i - 1] + Scaled(histogram[i], total);
      assert next == Cumulative(histogram, total, i);
      cumulative[i] := next;
    }
    table := cumulative[..];
  }

  function EqualizePixel(p: Pixel, table: seq<Channel>): Pixel
    requires |table| == 256
  {
    Pixel(table[p.red], table[p.green], table[p.blue])
  }

  /**
   * `equalize`: one table from the luminance histogram, through which the
   * red, green and blue channels are each looked up.
   */
  function Equalize(img: Image): Image
    requires img.Valid() && |img.pixels| > 0
  {
    var table := EqualizationTable(img);
    img.(pixels := seq(|img.pixels|, k requires 0 <= k < |img.pixels| => EqualizePixel(img.pixels[k], table)))
  }

  /** `equalize()`: the cumulative table, then every channel looked up in it. */
  method EqualizePass(img: Image) returns (result: Image)
    requires img.Valid() && |img.pixels| > 0
    ensures result == Equalize(img)
  {
    var cumulativeHistogram := CalculateNormalizedHistogram(img);
    var table: seq<Channel> := cumulativeHistogram;
    result := OnPixels(img, (p: Pixel) => EqualizePixel(p, table));
    assert result.pixels == Equalize(img).pixels;
  }

  /**
   * Equalization keeps the order of channel values across all pixels and all
   * three channels, since one non-decreasing table serves them all.
   */
  lemma EqualizeKeepsOrder(img: Image, i: int, j: int, ch1: Component, ch2: Component)
    requires img.Valid() && 0 <= i < |img.pixels| && 0 <= j < |img.pixels|
    requires Get(img.pixels[i], ch1) <= Get(img.pixels[j], ch2)
    ensures Get(Equalize(img).pixels[i], ch1) <= Get(Equalize(img).pixels[j], ch2)
    ensures Get(Equalize(img).pixels[i], ch1) == EqualizationTable(img)[Get(img.pixels[i], ch1)]
  {
    var table := EqualizationTable(img);
    EqualizationTableMonotone(img, Get(img.pixels[i], ch1), Get(img.pixels[j], ch2));
    assert Get(Equalize(img).pixels[i], ch1) == table[Get(img.pixels[i], ch1)] by {
      match ch1 case Red => {} case Green => {} case Blue => {}
    }
    assert Get(Equalize(img).pixels[j], ch2) == table[Get(img.pixels[j], ch2)] by {
      match ch2 case Red => {} case Green => {} case Blue => {}
    }
  }

  // ---------------------------------------------------- histogram matching

  /** The scan of `findClosestShade` from index `i` with `best` the current closest shade. */
  function ClosestFrom(source: seq<int>, target: seq<int>, shade: int, i: int, best: int): (r: Channel)
    requires |source| == 256 && |target| == 256 && 0 <= shade < 256
    requires 0 <= i <= 256 && 0 <= best < 256
    decreases 256 - i
  {
    if i == 256 then best
    else
      var next := if Distance(target[i], source[shade]) < Distance(target[best], source[shade]) then i else best;
      ClosestFrom(source, target, shade, i + 1, next)
  }

  function ClosestShade(source: seq<int>, target: seq<int>, shade: int): Channel
    requires |source| == 256 && |target| == 256 && 0 <= shade < 256
  {
    ClosestFrom(source, target, shade, 0, shade)
  }

  /** How far target entry `t` lies from the source entry of `shade`. */
  function Gap(source: seq<int>, target: seq<int>, shade: int, t: int): nat
    requires |source| == 256 && |target| == 256 && 0 <= shade < 256 && 0 <= t < 256
  {
    Distance(target[t], source[shade])
  }

  /** `best` is the shade the scan holds after looking at indices `0..i-1`. */
  ghost predicate ScanState(source: seq<int>, target: seq<int>, shade: int, i: int, best: int)
    requires |source| == 256 && |target| == 256 && 0 <= shade < 256 && 0 <= i <= 256 && 0 <= best < 256
  {
    && Gap(source, target, shade, best) <= Gap(source, target, shade, shade)
    && (forall t :: 0 <= t < i ==> Gap(source, target, shade, best) <= Gap(source, target, shade, t))
    && (|| best == shade
        || (&& best < i
            && Gap(source, target, shade, best) < Gap(source, target, shade, shade)
            && forall t :: 0 <= t < best ==> Gap(source, target, shade, best) < Gap(source, target, shade, t)))
  }

  lemma {:induction false} ClosestFromKeepsState(source: seq<int>, target: seq<int>, shade: int, i: int, best: int)
    requires |source| == 256 && |target| == 256 && 0 <= shade < 256 && 0 <= i <= 256 && 0 <= best < 256
    requires ScanState(source, target, shade, i, best)
    ensures ScanState(source, target, shade, 256, ClosestFrom(source, target, shade, i, best))
    decreases 256 - i
  {
    if i < 256 {
      var next := if Distance(target[i], source[shade]) < Distance(target[best], source[shade]) then i else best;
      ClosestFromKeepsState(source, target, shade, i + 1, next);
    }
  }

  /**
   * `findClosestShade` returns a shade minimising the distance between its
   * target entry and the source entry of `shade`; `shade` itself when it is
   * minimal, and otherwise the first minimising shade, since the scan only
   * moves on a strict improvement.
   */
  lemma ClosestShadeIsArgmin(source: seq<int>, target: seq<int>, shade: int)
    requires |source| == 256 && |target| == 256 && 0 <= shade < 256
    ensures var r := ClosestShade(source, target, shade);
      && (forall t :: 0 <= t < 256 ==> Gap(source, target, shade, r) <= Gap(source, target, shade, t))
      && ((forall t :: 0 <= t < 256 ==> Gap(source, target, shade, shade) <= Gap(source, target, shade, t)) ==> r == shade)
      && (r != shade ==> forall t :: 0 <= t < r ==> Gap(source, target, shade, r) < Gap(source, target, shade, t))
  {
    ClosestFromKeepsState(source, target, shade, 0, shade);
  }

  /** `findClosestShade`: a linear scan that keeps the first strictly closer shade. */
  method FindClosestShade(source: seq<int>, target: seq<int>, shade: int) returns (minShade: int)
    requires |source| == 256 && |target| == 256 && 0 <= shade < 256
    ensures minShade == ClosestShade(source, target, shade)
    ensures 0 <= minShade < 256
    ensures forall t :: 0 <= t < 256 ==> Gap(source, target, shade, minShade) <= Gap(source, target, shade, t)
  {
    minShade := shade;
    var minDiff := Gap(source, target, shade, shade);
    for i := 0 to 256
      invariant 0 <= minShade < 256 && minDiff == Gap(source, target, shade, minShade)
      invariant ClosestFrom(source, target, shade, i, minShade) == ClosestShade(source, target, shade)
    {
      var diff := Distance(target[i], source[shade]);
      if diff < minDiff {
        minShade := i;
        minDiff := diff;
      }
    }
    ClosestShadeIsArgmin(source, target, shade);
  }

  /** The shade mapping of `matchHistogram`: entry `s` is the closest shade to `s`. */
  function ShadeMapping(img: Image, target: Image): (mapping: seq<Channel>)
    requires img.Valid() && |img.pixels| > 0 && target.Valid() && |target.pixels| > 0
    ensures |mapping| == 256
  {
    var sourceTable := EqualizationTable(Grayscale(img));
    var targetTable := EqualizationTable(Grayscale(target));
    seq(256, s requires 0 <= s < 256 => ClosestShade(sourceTable, targetTable, s))
  }

  /**
   * `matchHistogram(target)`: grayscale the image, map each shade to the
   * shade whose cumulative target entry is closest to the shade's cumulative
   * source entry.
   */
  function MatchHistogram(img: Image, target: Image): Image
    requires img.Valid() && |img.pixels| > 0 && target.Valid() && |target.pixels| > 0
  {
    var gray := Grayscale(img);
    var mapping := ShadeMapping(img, target);
    gray.(pixels := seq(|gray.pixels|, k requires 0 <= k < |gray.pixels| => Gray(mapping[gray.pixels[k].red])))
  }

  /** The loop of `matchHistogram` filling `histogramMatch` through `findClosestShade`. */
  method ClosestShades(source: seq<int>, target: seq<int>) returns (histogramMatch: seq<Channel>)
    requires |source| == 256 && |target| == 256
    ensures |histogramMatch| == 256
    ensures forall s :: 0 <= s < 256 ==> histogramMatch[s] == ClosestShade(source, target, s)
  {
    var matches := new int[256];
    for i := 0 to 256
      invariant forall j :: 0 <= j < i ==> 0 <= matches[j] < 256 && matches[j] == ClosestShade(source, target, j)
    {
      matches[i] := FindClosestShade(source, target, i);
    }
    histogramMatch := matches[..];
  }

  /**
   * `matchHistogram(target)` on the pixmap: grayscale it, build both
   * cumulative tables, match every shade, then recolour every pixel.
   */
  method MatchHistogramPass(img: Image, target: Image) returns (result: Image)
    requires img.Valid() && |img.pixels| > 0 && target.Valid() && |target.pixels| > 0
    ensures result == MatchHistogram(img, target)
  {
    var gray := OnPixels(img, GrayscalePixel);
    assert gray.pixels == Grayscale(img).pixels;
    var sourceHistogram := CalculateNormalizedHistogram(gray);
    var grayTarget := OnPixels(target, GrayscalePixel);
    assert grayTarget.pixels == Grayscale(target).pixels;
    var targetHistogram := CalculateNormalizedHistogram(grayTarget);
    var histogramMatch := ClosestShades(sourceHistogram, targetHistogram);
    assert histogramMatch == ShadeMapping(img, target);
    result := OnPixels(gray, (p: Pixel) => Gray(histogramMatch[p.red]));
    assert result.pixels == MatchHistogram(img, target).pixels;
  }

  /** With the exact luminance, matching an image and matching its grayscale give the same result. */
  lemma MatchHistogramOfGray(img: Image, target: Image)
    requires img.Valid() && |img.pixels| > 0 && target.Valid() && |target.pixels| > 0
    ensures Grayscale(img).Valid() && MatchHistogram(Grayscale(img), target) == MatchHistogram(img, target)
  {
    GrayscaleIdempotent(img);
  }

  /**
   * Every matched pixel is gray, and its shade is one whose cumulative target
   * entry is as close as any to the cumulative source entry of the pixel's
   * grayscaled shade.
   */
  lemma MatchHistogramIsClosest(img: Image, target: Image, k: int)
    requires img.Valid() && |img.pixels| > 0 && target.Valid() && |target.pixels| > 0
    requires 0 <= k < |img.pixels|
    ensures var out := MatchHistogram(img, target).pixels[k];
      var shade := Luminance(img.pixels[k]);
      var sourceTable, targetTable := EqualizationTable(Grayscale(img)), EqualizationTable(Grayscale(target));
      && out == Gray(out.red)
      && forall t :: 0 <= t < 256 ==>
           Gap(sourceTable, targetTable, shade, out.red) <= Gap(sourceTable, targetTable, shade, t)
  {
    var sourceTable, targetTable := EqualizationTable(Grayscale(img)), EqualizationTable(Grayscale(target));
    ClosestShadeIsArgmin(sourceTable, targetTable, Luminance(img.pixels[k]));
  }
}
