/**
 The page sequence `process_pdf_with_stamp_and_images` writes: every layout
 page stamped and then laid onto a blank landscape A4 page (origin-aligned,
 unscaled), followed by one landscape A4 page per photo. Pages are abstract
 values; the PDF and image libraries are not modelled.
 */
module Assembly {
  import opened Wrappers
  import opened Geometry

  /** A page as the model sees it. */
  datatype Page =
    | Source(id: nat, width: real, height: real)    // a layout page; width and height are its media box's upper-right corner
    | Stamped(base: Page, stamp: Box)               // `page.merge_page(stamp_page)`: the page with the stamp drawn in its coordinates
    | OnLandscapeA4(content: Page)                  // a blank landscape A4 page with `content` merged at the origin
    | Photo(path: string, placed: Box)              // the one-page PDF reportlab draws for a photo

  /** The stamp asset's pixel size; its resolution is the fixed one in `Geometry`. */
  datatype StampImage = StampImage(widthPx: nat, heightPx: nat)

  /** A photo file and its decoded pixel size. */
  datatype ImageFile = ImageFile(path: string, widthPx: nat, heightPx: nat)

  /** The media box of a page: merging keeps the receiving page's box. */
  function Width(p: Page): real {
    match p
    case Source(_, w, _) => w
    case Stamped(b, _) => Width(b)
    case OnLandscapeA4(_) => LandscapeA4Width
    case Photo(_, _) => LandscapeA4Width
  }

  function Height(p: Page): real {
    match p
    case Source(_, _, h) => h
    case Stamped(b, _) => Height(b)
    case OnLandscapeA4(_) => LandscapeA4Height
    case Photo(_, _) => LandscapeA4Height
  }

  /**
   `add_stamp_to_page_with_precise_dpi(page, stamp)`: the page keeps its size
   and gets the stamp, measured at the stamp's resolution, with its top-right
   corner at the fixed insets from the page's top-right corner.
   */
  function StampPage(p: Page, stamp: StampImage): (q: Page)
    ensures q.Stamped? && q.base == p
    ensures Width(q) == Width(p) && Height(q) == Height(p)
    ensures q.stamp.width * StampDpiX == stamp.widthPx as real * PointsPerInch
    ensures q.stamp.height * StampDpiY == stamp.heightPx as real * PointsPerInch
    ensures Width(p) - (q.stamp.x + q.stamp.width) == StampInsetRight
    ensures Height(p) - (q.stamp.y + q.stamp.height) == StampInsetTop
  {
    Stamped(p, StampBox(Width(p), Height(p), stamp.widthPx, stamp.heightPx))
  }

  /** The body of the loop in `convert_to_landscape_a4`. */
  function ToLandscapeA4(p: Page): (q: Page)
    ensures Width(q) == LandscapeA4Width && Height(q) == LandscapeA4Height
  {
    OnLandscapeA4(p)
  }

  /** The page for one photo, or the photo's path when `image_width / image_height` divides by zero. */
  function PhotoPage(image: ImageFile): (r: Result<Page, string>)
    ensures r.Err? <==> image.heightPx == 0
    ensures r.Ok? ==> Width(r.value) == LandscapeA4Width && Height(r.value) == LandscapeA4Height
    ensures r.Ok? ==>
      (r.value.Photo? && r.value.path == image.path
       && Within(r.value.placed, LandscapeA4Width, LandscapeA4Height)
       && r.value.placed.width * image.heightPx as real == r.value.placed.height * image.widthPx as real)
    ensures r.Ok? ==> r.value.placed == FitBox(image.widthPx, image.heightPx, LandscapeA4Width, LandscapeA4Height)
  {
    if image.heightPx == 0 then Err(image.path)
    else Ok(Photo(image.path, FitBox(image.widthPx, image.heightPx, LandscapeA4Width, LandscapeA4Height)))
  }

  /** The page a layout page becomes in the output. */
  function LayoutOutputPage(p: Page, stamp: StampImage): Page {
    ToLandscapeA4(StampPage(p, stamp))
  }

  /**
   `process_pdf_with_stamp_and_images` on pages already read: the stamped,
   normalised layout pages in their order, then one page per photo in the given
   order. A photo of zero height raises `ZeroDivisionError`, which aborts the
   whole document: the result is then the first such photo's path.
   */
  method Compose(layout: seq<Page>, images: seq<ImageFile>, stamp: StampImage) returns (r: Result<seq<Page>, string>)
    ensures r.Ok? <==> forall j :: 0 <= j < |images| ==> images[j].heightPx > 0
    ensures r.Err? ==>
      exists j :: (0 <= j < |images| && images[j].heightPx == 0 && r.error == images[j].path
                   && forall i :: 0 <= i < j ==> images[i].heightPx > 0)
    ensures r.Ok? ==> |r.value| == |layout| + |images|
    ensures r.Ok? ==> forall i :: 0 <= i < |layout| ==> r.value[i] == LayoutOutputPage(layout[i], stamp)
    ensures r.Ok? ==> forall j :: 0 <= j < |images| ==> Ok(r.value[|layout| + j]) == PhotoPage(images[j])
  {
    // Step 1: stamp every page.
    var stamped: seq<Page> := [];
    var i := 0;
    while i < |layout|
      invariant 0 <= i <= |layout|
      invariant |stamped| == i
      invariant forall k :: 0 <= k < i ==> stamped[k] == StampPage(layout[k], stamp)
    {
      stamped := stamped + [StampPage(layout[i], stamp)];
      i := i + 1;
    }
    // Step 2: lay every stamped page onto landscape A4.
    var pages: seq<Page> := [];
    i := 0;
    while i < |stamped|
      invariant 0 <= i <= |stamped|
      invariant |pages| == i
      invariant forall k :: 0 <= k < i ==> pages[k] == ToLandscapeA4(stamped[k])
    {
      pages := pages + [ToLandscapeA4(stamped[i])];
      i := i + 1;
    }
    // Step 3: one page per photo.
    var j := 0;
    while j < |images|
      invariant 0 <= j <= |images|
      invariant |pages| == |layout| + j
      invariant forall k :: 0 <= k < |layout| ==> pages[k] == LayoutOutputPage(layout[k], stamp)
      invariant forall k :: 0 <= k < j ==> images[k].heightPx > 0 && Ok(pages[|layout| + k]) == PhotoPage(images[k])
    {
      var page := PhotoPage(images[j]);
      if page.Err? {
        return Err(page.error);
      }
      pages := pages + [page.value];
      j := j + 1;
    }
    r := Ok(pages);
  }

  /** Every page of a composed document is landscape A4. */
  lemma ComposedPagesAreLandscapeA4(layout: seq<Page>, images: seq<ImageFile>, stamp: StampImage, pages: seq<Page>)
    requires |pages| == |layout| + |images|
    requires forall i :: 0 <= i < |layout| ==> pages[i] == LayoutOutputPage(layout[i], stamp)
    requires forall j :: 0 <= j < |images| ==> Ok(pages[|layout| + j]) == PhotoPage(images[j])
    ensures forall k :: 0 <= k < |pages| ==> Width(pages[k]) == LandscapeA4Width && Height(pages[k]) == LandscapeA4Height
  {
    forall k | 0 <= k < |pages|
      ensures Width(pages[k]) == LandscapeA4Width && Height(pages[k]) == LandscapeA4Height
    {
      if k >= |layout| {
        assert Ok(pages[|layout| + (k - |layout|)]) == PhotoPage(images[k - |layout|]);
      }
    }
  }

  /** The layout page a composed output page came from, if any. */
  function LayoutSource(p: Page): Option<Page> {
    match p
    case OnLandscapeA4(Stamped(base, _)) => Some(base)
    case _ => None
  }

  /** The layout part of the output gives back the layout pages, in order; the photo part gives back the photo paths, in order. */
  lemma ComposedPagesRecoverInputs(layout: seq<Page>, images: seq<ImageFile>, stamp: StampImage, pages: seq<Page>)
    requires |pages| == |layout| + |images|
    requires forall i :: 0 <= i < |layout| ==> pages[i] == LayoutOutputPage(layout[i], stamp)
    requires forall j :: 0 <= j < |images| ==> Ok(pages[|layout| + j]) == PhotoPage(images[j])
    ensures forall i :: 0 <= i < |layout| ==> LayoutSource(pages[i]) == Some(layout[i])
    ensures forall k :: |layout| <= k < |pages| ==>
      LayoutSource(pages[k]).None? && PhotoPath(pages[k]) == Some(images[k - |layout|].path)
  {
    forall k | |layout| <= k < |pages|
      ensures LayoutSource(pages[k]).None? && PhotoPath(pages[k]) == Some(images[k - |layout|].path)
    {
      var j := k - |layout|;
      assert Ok(pages[|layout| + j]) == PhotoPage(images[j]);
    }
  }

  /** The photo a composed output page shows, if any. */
  function PhotoPath(p: Page): Option<string> {
    match p
    case Photo(path, _) => Some(path)
    case _ => None
  }

  /**
   The stamp keeps its coordinates when its page is laid onto landscape A4,
   so it is wholly visible exactly when its box, anchored to the ORIGINAL
   page's top-right corner, lies inside the landscape A4 page.
   */
  lemma StampVisibleOnLandscapeA4(p: Page, stamp: StampImage)
    ensures var out := LayoutOutputPage(p, stamp);
      var b := out.content.stamp;
      (Within(b, LandscapeA4Width, LandscapeA4Height) <==>
        0.0 <= b.x && 0.0 <= b.y
        && Width(p) - StampInsetRight <= LandscapeA4Width
        && Height(p) - StampInsetTop <= LandscapeA4Height)
  {
  }

  /** A portrait A4 layout page puts a stamp up to 199 points tall wholly above the landscape page. */
  lemma StampLostOnPortraitPage(id: nat, stamp: StampImage)
    requires stamp.heightPx as real * PointsPerInch <= 199.0 * StampDpiY
    ensures var out := LayoutOutputPage(Source(id, LandscapeA4Height, LandscapeA4Width), stamp);
      out.content.stamp.y >= LandscapeA4Height
  {
  }
}
