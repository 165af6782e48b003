/**
 The page geometry of `run.py`, over exact reals standing in for Python floats:
 the stamp's size and anchor on a layout page, and the aspect-preserving fit
 and centring of a photo on a landscape A4 page.
 */
module Geometry {

  /** A rectangle in PDF points: lower-left corner, width and height. */
  datatype Box = Box(x: real, y: real, width: real, height: real)

  /** The resolution of the reference stamp asset, hard-coded rather than read from the file. */
  const StampDpiX: real := 295.0
  const StampDpiY: real := 301.0
  const PointsPerInch: real := 72.0
  /** Gap between the stamp's right edge and the page's right edge. */
  const StampInsetRight: real := 12.0
  /** Gap between the stamp's top edge and the page's top edge. */
  const StampInsetTop: real := 47.0

  /** reportlab's `landscape(A4)`: 297 mm by 210 mm in points. */
  const LandscapeA4Width: real := 297.0 * 72.0 / 25.4
  const LandscapeA4Height: real := 210.0 * 72.0 / 25.4

  lemma LandscapeA4IsLandscape()
    ensures 0.0 < LandscapeA4Height < LandscapeA4Width
  {
  }

  /**
   `add_stamp_to_page_with_precise_dpi`: the stamp of `widthPx` by `heightPx`
   pixels drawn on a page whose upper-right corner is (`pageWidth`, `pageHeight`).
   Its size is its pixel size at the fixed resolution, and its top-right corner
   sits at the fixed insets from the page's top-right corner.
   */
  function StampBox(pageWidth: real, pageHeight: real, widthPx: nat, heightPx: nat): (b: Box)
    ensures b.width * StampDpiX == widthPx as real * PointsPerInch
    ensures b.height * StampDpiY == heightPx as real * PointsPerInch
    ensures b.x + b.width == pageWidth - StampInsetRight
    ensures b.y + b.height == pageHeight - StampInsetTop
  {
    var widthPoints := widthPx as real / StampDpiX * PointsPerInch;
    var heightPoints := heightPx as real / StampDpiY * PointsPerInch;
    Box(pageWidth - widthPoints - StampInsetRight, pageHeight - heightPoints - StampInsetTop, widthPoints, heightPoints)
  }

  /**
   Every page gets a stamp of the same size, at the same offset from its
   top-right corner, whatever the page's own size.
   */
  lemma StampIsReproducible(w1: real, h1: real, w2: real, h2: real, widthPx: nat, heightPx: nat)
    ensures var b1 := StampBox(w1, h1, widthPx, heightPx);
      var b2 := StampBox(w2, h2, widthPx, heightPx);
      b1.width == b2.width && b1.height == b2.height
      && w1 - b1.x == w2 - b2.x && h1 - b1.y == h2 - b2.y
  {
  }

  /** The stamp's lower-left corner is on the page exactly when the stamp fits inside the insets. */
  lemma StampOnPageIff(pageWidth: real, pageHeight: real, widthPx: nat, heightPx: nat)
    ensures var b := StampBox(pageWidth, pageHeight, widthPx, heightPx);
      (0.0 <= b.x <==> widthPx as real * PointsPerInch <= (pageWidth - StampInsetRight) * StampDpiX)
      && (0.0 <= b.y <==> heightPx as real * PointsPerInch <= (pageHeight - StampInsetTop) * StampDpiY)
  {
  }

  /** The box lies inside the page of the given size. */
  predicate Within(b: Box, pageWidth: real, pageHeight: real) {
    0.0 <= b.x && 0.0 <= b.y && b.x + b.width <= pageWidth && b.y + b.height <= pageHeight
  }

  /**
   The photo placement of `process_pdf_with_stamp_and_images`: an image of
   `widthPx` by `heightPx` scaled to fill one axis of the page with its aspect
   ratio kept, and centred on the other axis.
   */
  function FitBox(widthPx: nat, heightPx: nat, pageWidth: real, pageHeight: real): (b: Box)
    requires heightPx > 0 && pageWidth > 0.0 && pageHeight > 0.0
    ensures 0.0 <= b.width <= pageWidth && 0.0 <= b.height <= pageHeight
    ensures b.width * heightPx as real == b.height * widthPx as real
    ensures widthPx as real * pageHeight > pageWidth * heightPx as real ==> b.width == pageWidth
    ensures widthPx as real * pageHeight <= pageWidth * heightPx as real ==> b.height == pageHeight
    ensures 0.0 <= b.x && b.x + b.width + b.x == pageWidth
    ensures 0.0 <= b.y && b.y + b.height + b.y == pageHeight
    ensures b.x == 0.0 || b.y == 0.0
    ensures Within(b, pageWidth, pageHeight)
  {
    var aspect := widthPx as real / heightPx as real;
    var pageAspect := pageWidth / pageHeight;
    if aspect > pageAspect then
      FitWideLemma(widthPx, heightPx, pageWidth, pageHeight);
      Centred(pageWidth, pageWidth / aspect, pageWidth, pageHeight)
    else
      FitTallLemma(widthPx, heightPx, pageWidth, pageHeight);
      Centred(pageHeight * aspect, pageHeight, pageWidth, pageHeight)
  }

  /** A box of the given size placed with equal margins left and right, and equal margins above and below. */
  function Centred(scaledWidth: real, scaledHeight: real, pageWidth: real, pageHeight: real): Box {
    Box((pageWidth - scaledWidth) / 2.0, (pageHeight - scaledHeight) / 2.0, scaledWidth, scaledHeight)
  }

  /** The image is relatively wider than the page: full width, and the height that keeps the aspect. */
  lemma FitWideLemma(widthPx: nat, heightPx: nat, pageWidth: real, pageHeight: real)
    requires heightPx > 0 && pageWidth > 0.0 && pageHeight > 0.0
    requires widthPx as real / heightPx as real > pageWidth / pageHeight
    ensures widthPx > 0
    ensures var h := pageWidth / (widthPx as real / heightPx as real);
      0.0 < h <= pageHeight && pageWidth * heightPx as real == h * widthPx as real
  {
    var w := widthPx as real;
    var hp := heightPx as real;
    var aspect := w / hp;
    assert aspect > 0.0 by {
      assert pageWidth / pageHeight > 0.0;
    }
    assert w > 0.0;
    var h := pageWidth / aspect;
    assert h * aspect == pageWidth;
    assert aspect * hp == w;
    assert h * w == pageWidth * hp by {
      calc {
        h * w;
        h * (aspect * hp);
        (h * aspect) * hp;
        pageWidth * hp;
      }
    }
    assert aspect * pageHeight > pageWidth by {
      assert (pageWidth / pageHeight) * pageHeight == pageWidth;
    }
    assert h * aspect < pageHeight * aspect;
    ScaleCancel(h, pageHeight, aspect);
  }

  /** The image is relatively no wider than the page: full height, and the width that keeps the aspect. */
  lemma FitTallLemma(widthPx: nat, heightPx: nat, pageWidth: real, pageHeight: real)
    requires heightPx > 0 && pageWidth > 0.0 && pageHeight > 0.0
    requires !(widthPx as real / heightPx as real > pageWidth / pageHeight)
    ensures var w := pageHeight * (widthPx as real / heightPx as real);
      0.0 <= w <= pageWidth && w * heightPx as real == pageHeight * widthPx as real
  {
    var aspect := widthPx as real / heightPx as real;
    var w := pageHeight * aspect;
    assert aspect * heightPx as real == widthPx as real;
    assert aspect <= pageWidth / pageHeight;
    assert pageHeight * aspect <= pageHeight * (pageWidth / pageHeight);
    assert pageHeight * (pageWidth / pageHeight) == pageWidth;
  }

  /**
   No larger copy of the image fits: any scale `s` at which the whole image
   lies within the page gives a box no larger than the fitted one.
   */
  lemma FitIsLargest(widthPx: nat, heightPx: nat, pageWidth: real, pageHeight: real, s: real)
    requires heightPx > 0 && pageWidth > 0.0 && pageHeight > 0.0
    requires s > 0.0 && s * widthPx as real <= pageWidth && s * heightPx as real <= pageHeight
    ensures var b := FitBox(widthPx, heightPx, pageWidth, pageHeight);
      s * widthPx as real <= b.width && s * heightPx as real <= b.height
  {
    var b := FitBox(widthPx, heightPx, pageWidth, pageHeight);
    var w := widthPx as real;
    var h := heightPx as real;
    if b.width == pageWidth {
      // b.height * w == pageWidth * h >= s * w * h
      assert b.width * h == b.height * w;
      assert s * h * w <= b.width * h by {
        assert s * w <= b.width;
      }
      assert (s * h) * w <= b.height * w;
      assert w > 0.0;
      ScaleCancel(s * h, b.height, w);
    } else {
      assert b.height == pageHeight;
      assert b.width * h == b.height * w;
      assert (s * w) * h <= b.height * w by {
        assert s * h <= b.height;
        assert (s * h) * w <= b.height * w;
      }
      assert (s * w) * h <= b.width * h;
      ScaleCancel(s * w, b.width, h);
    }
  }

  lemma ScaleCancel(a: real, b: real, c: real)
    requires c > 0.0 && a * c <= b * c
    ensures a <= b
  {
  }
}
