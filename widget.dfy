/**
 * The image widget: it holds the pixmap on screen, and every transform reads
 * that pixmap, computes a new image through the passes of the other modules
 * and shows the result in its place (`updateImage`). The window, label and
 * path the widget also keeps are not modelled; the pixmap is the state.
 */
module Widget {
  import opened Raster
  import ColorMaps
  import Histograms
  import Geometry
  import Convolution

  class ImageWidget {
    /** The image the label shows, decoded to pixels. */
    var pixmap: Image

    predicate Valid()
      reads this
    {
      pixmap.Valid()
    }

    /** `create`: a widget showing the decoded image. */
    constructor(image: Image)
      requires image.Valid()
      ensures Valid() && pixmap == image
    {
      pixmap := image;
    }

    /** `updateImage`: the label shows `target` from now on. */
    method UpdateImage(target: Image)
      requires target.Valid()
      modifies this
      ensures Valid() && pixmap == target
    {
      pixmap := target;
    }

    /** `grayscale()`: every pixel becomes the gray of its luminance. */
    method Grayscale()
      requires Valid()
      modifies this
      ensures Valid() && pixmap == ColorMaps.Grayscale(old(pixmap))
    {
      var result := OnPixels(pixmap, ColorMaps.GrayscalePixel);
      assert result.pixels == ColorMaps.Grayscale(pixmap).pixels;
      UpdateImage(result);
    }

    /** `mirrorVertically`: the rows are swapped in place in a copy of the pixmap. */
    method MirrorVertically()
      requires Valid()
      modifies this
      ensures Valid() && pixmap == Geometry.MirrorVertically(old(pixmap))
    {
      var original := pixmap;
      var size := original.width * original.height;
      var bits := new Pixel[size](k requires 0 <= k < size => original.pixels[k]);
      assert bits[..] == original.pixels;
      Geometry.MirrorRows(bits, original.width, original.height);
      UpdateImage(Image(original.width, original.height, bits[..]));
    }

    /**
     * `quantize(tones)`: nothing for zero tones or when the image has no more
     * distinct red tones than requested; otherwise the red tone range is cut
     * into buckets and each pixel becomes the gray of its bucket's midpoint.
     */
    method Quantize(tones: nat)
      requires Valid() && tones <= 255 && ColorMaps.QuantizeFits(pixmap, tones)
      modifies this
      ensures Valid() && pixmap == ColorMaps.Quantize(old(pixmap), tones)
    {
      var result := ColorMaps.QuantizePass(pixmap, tones);
      UpdateImage(result);
    }

    /** `addBrightness(brightness)`. */
    method AddBrightness(brightness: int)
      requires Valid()
      modifies this
      ensures Valid() && pixmap == ColorMaps.AddBrightness(old(pixmap), brightness)
    {
      var result := OnPixels(pixmap, p => ColorMaps.BrightnessPixel(p, brightness));
      assert result.pixels == ColorMaps.AddBrightness(pixmap, brightness).pixels;
      UpdateImage(result);
    }

    /** `addContrast(contrast)`. */
    method AddContrast(contrast: int)
      requires Valid()
      modifies this
      ensures Valid() && pixmap == ColorMaps.AddContrast(old(pixmap), contrast)
    {
      var result := OnPixels(pixmap, p => ColorMaps.ContrastPixel(p, contrast));
      assert result.pixels == ColorMaps.AddContrast(pixmap, contrast).pixels;
      UpdateImage(result);
    }

    /** `negative()`. */
    method Negative()
      requires Valid()
      modifies this
      ensures Valid() && pixmap == ColorMaps.Negative(old(pixmap))
    {
      var result := OnPixels(pixmap, ColorMaps.NegativePixel);
      assert result.pixels == ColorMaps.Negative(pixmap).pixels;
      UpdateImage(result);
    }

    /** `equalize()`: every channel is looked up in the cumulative luminance table. */
    method Equalize()
      requires Valid() && |pixmap.pixels| > 0
      modifies this
      ensures Valid() && pixmap == Histograms.Equalize(old(pixmap))
    {
      var result := Histograms.EqualizePass(pixmap);
      UpdateImage(result);
    }

    /**
     * `matchHistogram(target)`: the pixmap is grayscaled, then each shade is
     * replaced by the closest shade of the target's cumulative table.
     */
    method MatchHistogram(target: Image)
      requires Valid() && |pixmap.pixels| > 0 && target.Valid() && |target.pixels| > 0
      modifies this
      ensures Valid() && pixmap == Histograms.MatchHistogram(old(pixmap), target)
    {
      var result := Histograms.MatchHistogramPass(pixmap, target);
      UpdateImage(result);
    }

    /**
     * `zoomOut(offsetX, offsetY)`: block averages into a smaller image. A
     * negative offset asks for an image of size zero or less, which is the
     * null image; its block loops never run, so nothing is written and the
     * widget shows the empty image.
     */
    method ZoomOut(offsetX: int, offsetY: int)
      requires Valid() && offsetX != 0 && offsetY != 0
      modifies this
      ensures Valid()
      ensures offsetX >= 1 && offsetY >= 1 ==> pixmap == Geometry.ZoomOut(old(pixmap), offsetX, offsetY)
      ensures offsetX < 0 || offsetY < 0 ==> pixmap == Image(0, 0, [])
    {
      if offsetX < 0 || offsetY < 0 {
        UpdateImage(Image(0, 0, []));
      } else {
        var result := Geometry.ZoomOutPass(pixmap, offsetX, offsetY);
        UpdateImage(result);
      }
    }

    /** `rotateLeft()`. */
    method RotateLeft()
      requires Valid()
      modifies this
      ensures Valid() && pixmap == Geometry.RotateLeft(old(pixmap))
    {
      var result := Geometry.RotateLeftPass(pixmap);
      UpdateImage(result);
    }

    /** `rotateRight()`. */
    method RotateRight()
      requires Valid()
      modifies this
      ensures Valid() && pixmap == Geometry.RotateRight(old(pixmap))
    {
      var result := Geometry.RotateRightPass(pixmap);
      UpdateImage(result);
    }

    /**
     * `zoomIn()`, with the interpolation reading only cells it has already
     * filled. An empty pixmap asks for an image of negative size, which is the
     * null image; neither traversal then visits a cell, and the widget shows
     * the empty image.
     */
    method ZoomIn()
      requires Valid()
      modifies this
      ensures Valid()
      ensures old(pixmap).width >= 1 && old(pixmap).height >= 1 ==> pixmap == Geometry.ZoomIn(old(pixmap))
      ensures old(pixmap).width == 0 || old(pixmap).height == 0 ==> pixmap == Image(0, 0, [])
    {
      if pixmap.width == 0 || pixmap.height == 0 {
        UpdateImage(Image(0, 0, []));
      } else {
        var result := Geometry.ZoomInPass(pixmap);
        UpdateImage(result);
      }
    }

    /** `convolve(kernel, add)`, with the weighted sums truncated once per channel. */
    method Convolve(kernel: Convolution.Kernel, add: bool)
      requires Valid() && kernel.Valid()
      modifies this
      ensures Valid() && pixmap == Convolution.Convolve(old(pixmap), kernel, add)
    {
      var result := Convolution.ConvolvePass(pixmap, kernel, add);
      UpdateImage(result);
    }
  }
}
