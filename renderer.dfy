/** The content-bounds rendering pipeline: the bounds detector that scans an
    image's alpha channel, the checkerboard behind previews, and the layout
    arithmetic of the raster compositor and the SVG rasterizer.  Painting,
    resampling and SVG rendering are Qt's work and stay outside the model:
    what is modelled is every rectangle, offset and scale factor handed to Qt. */
module Renderer {
  import opened Text
  import opened Models

  /** Pixels whose alpha is at or below this count as transparent. */
  const AlphaThreshold := 10

  /** Side of the square image an SVG is rendered into to measure its bounds. */
  const MeasureSize := 512

  /** `(pixel >> 24) & 0xFF`: the alpha channel of an ARGB32 pixel value. */
  function Alpha(pixel: int): (a: int)
    ensures 0 <= a < 256
  {
    (pixel / 0x100_0000) % 0x100
  }

  // ----------------------------------------------------------------------
  // Bounds detector
  // ----------------------------------------------------------------------

  /** An image is a grid of ARGB32 pixels, `image[y, x]`, `Length0` rows of
      `Length1` pixels.  A QImage with no pixels is a null image. */
  predicate IsNull(image: array2<int>) {
    image.Length0 == 0 || image.Length1 == 0
  }

  predicate InImage(image: array2<int>, x: int, y: int) {
    0 <= x < image.Length1 && 0 <= y < image.Length0
  }

  predicate Visible(image: array2<int>, x: int, y: int)
    reads image
    requires InImage(image, x, y)
  {
    Alpha(image[y, x]) > AlphaThreshold
  }

  ghost predicate AnyVisible(image: array2<int>)
    reads image
  {
    exists x, y :: InImage(image, x, y) && Visible(image, x, y)
  }

  /** Every visible pixel lies in the box. */
  ghost predicate Encloses(image: array2<int>, b: IconBounds)
    reads image
  {
    forall x, y :: InImage(image, x, y) && Visible(image, x, y) ==> Covers(b, x, y)
  }

  /** Column `x` of the image holds a visible pixel. */
  ghost predicate ColumnVisible(image: array2<int>, x: int)
    reads image
  {
    exists y :: InImage(image, x, y) && Visible(image, x, y)
  }

  /** Row `y` of the image holds a visible pixel. */
  ghost predicate RowVisible(image: array2<int>, y: int)
    reads image
  {
    exists x :: InImage(image, x, y) && Visible(image, x, y)
  }

  /** Each of the four edges of the box holds a visible pixel. */
  ghost predicate EdgesTouched(image: array2<int>, b: IconBounds)
    reads image
  {
    ColumnVisible(image, b.x) && ColumnVisible(image, b.x + b.width - 1) &&
    RowVisible(image, b.y) && RowVisible(image, b.y + b.height - 1)
  }

  /** The full extent of a non-null image. */
  function FullBounds(image: array2<int>): IconBounds {
    IconBounds(0, 0, image.Length1, image.Length0, image.Length1, image.Length0)
  }

  /** What `get_image_bounds` returns for an image: all zeros for a null
      image; the whole image when nothing is visible; otherwise the tight box
      around the visible pixels, inside the image. */
  ghost predicate BoundsContract(image: array2<int>, b: IconBounds)
    reads image
  {
    if IsNull(image) then b == NoBounds
    else if !AnyVisible(image) then b == FullBounds(image)
    else
      b.imageWidth == image.Length1 && b.imageHeight == image.Length0 &&
      Inside(b) && b.width >= 1 && b.height >= 1 &&
      Encloses(image, b) && EdgesTouched(image, b)
  }

  /** Pixel (px, py) comes before position (x, y) in row-major scan order. */
  predicate Scanned(px: int, py: int, x: int, y: int) {
    py < y || (py == y && px < x)
  }

  /** No pixel scanned before (x, y) is visible. */
  ghost predicate ClearBefore(image: array2<int>, x: int, y: int)
    reads image
  {
    forall px, py :: InImage(image, px, py) && Scanned(px, py, x, y) ==> !Visible(image, px, py)
  }

  /** The running box of the scan: minimum and maximum x and y so far. */
  datatype Running = Running(minX: int, minY: int, maxX: int, maxY: int)

  /** One visible pixel on each edge of the running box (proof bookkeeping). */
  datatype EdgePixels = EdgePixels(lx: int, ly: int, rx: int, ry: int, tx: int, ty: int, bottomX: int, bottomY: int)

  /** The scan state before position (x, y): while nothing visible has been
      seen the box keeps its start values (width, height, 0, 0) and every
      scanned pixel is transparent; afterwards the box lies in the image,
      holds every visible scanned pixel, and each of its edges is a visible
      pixel. */
  ghost predicate ScanState(image: array2<int>, x: int, y: int, found: bool, r: Running, e: EdgePixels)
    reads image
  {
    (!found ==> r == Running(image.Length1, image.Length0, 0, 0) && ClearBefore(image, x, y)) &&
    (found ==>
      0 <= r.minX <= r.maxX < image.Length1 && 0 <= r.minY <= r.maxY < image.Length0 &&
      (forall px, py :: InImage(image, px, py) && Scanned(px, py, x, y) && Visible(image, px, py) ==>
         r.minX <= px <= r.maxX && r.minY <= py <= r.maxY) &&
      InImage(image, e.lx, e.ly) && Visible(image, e.lx, e.ly) && e.lx == r.minX &&
      InImage(image, e.rx, e.ry) && Visible(image, e.rx, e.ry) && e.rx == r.maxX &&
      InImage(image, e.tx, e.ty) && Visible(image, e.tx, e.ty) && e.ty == r.minY &&
      InImage(image, e.bottomX, e.bottomY) && Visible(image, e.bottomX, e.bottomY) && e.bottomY == r.maxY)
  }

  /** Scanning to the end of row y is scanning to the start of row y + 1. */
  lemma RowDone(image: array2<int>, y: int, found: bool, r: Running, e: EdgePixels)
    requires ScanState(image, image.Length1, y, found, r, e)
    ensures ScanState(image, 0, y + 1, found, r, e)
  {
    forall px, py | InImage(image, px, py) && Scanned(px, py, 0, y + 1)
      ensures Scanned(px, py, image.Length1, y)
    {
    }
  }

  /** `get_image_bounds`: scans every pixel, row by row, keeping the running
      minimum and maximum x and y of the visible ones.  The running values
      start at (width, height, 0, 0); the test `max_x < min_x` afterwards
      detects "nothing visible" only because a non-null image has at least
      one row and one column. */
  method GetImageBounds(image: array2<int>) returns (b: IconBounds)
    ensures BoundsContract(image, b)
  {
    if IsNull(image) {
      return NoBounds;
    }
    var width, height := image.Length1, image.Length0;
    var r := Running(width, height, 0, 0);
    ghost var found := false;
    ghost var e := EdgePixels(0, 0, 0, 0, 0, 0, 0, 0);
    var y := 0;
    while y < height
      invariant 0 <= y <= height
      invariant ScanState(image, 0, y, found, r, e)
    {
      found, r, e := ScanRow(image, y, found, r, e);
      y := y + 1;
    }
    assert Scanned(0, 0, 0, y);
    if r.maxX < r.minX || r.maxY < r.minY {
      assert !found;
      return IconBounds(0, 0, width, height, width, height);
    }
    assert found;
    b := IconBounds(r.minX, r.minY, r.maxX - r.minX + 1, r.maxY - r.minY + 1, width, height);
    assert InImage(image, e.lx, e.ly) && Visible(image, e.lx, e.ly);
  }

  /** The inner loop of `get_image_bounds`: one row, pixel by pixel. */
  method ScanRow(image: array2<int>, y: int, ghost found: bool, r: Running, ghost e: EdgePixels)
    returns (ghost found': bool, r': Running, ghost e': EdgePixels)
    requires 0 <= y < image.Length0
    requires ScanState(image, 0, y, found, r, e)
    ensures ScanState(image, 0, y + 1, found', r', e')
  {
    found', r', e' := found, r, e;
    var x := 0;
    while x < image.Length1
      invariant 0 <= x <= image.Length1
      invariant ScanState(image, x, y, found', r', e')
    {
      if Alpha(image[y, x]) > AlphaThreshold {
        if x < r'.minX { e' := e'.(lx := x, ly := y); }
        if !found' || x > r'.maxX { e' := e'.(rx := x, ry := y); }
        if y < r'.minY { e' := e'.(tx := x, ty := y); }
        if !found' || y > r'.maxY { e' := e'.(bottomX := x, bottomY := y); }
        r' := Running(if x < r'.minX then x else r'.minX, if y < r'.minY then y else r'.minY,
                      if x > r'.maxX then x else r'.maxX, if y > r'.maxY then y else r'.maxY);
        found' := true;
      }
      x := x + 1;
    }
    RowDone(image, y, found', r', e');
  }

  /** The crop rectangle of a box. */
  function BoxRect(b: IconBounds): Rect {
    Rect(b.x, b.y, b.width, b.height)
  }

  /** Some row or column along the border of the image is fully transparent
      while something in the image is visible: the content has padding. */
  ghost predicate HasPadding(image: array2<int>)
    reads image
  {
    !IsNull(image) && AnyVisible(image) &&
    (!ColumnVisible(image, 0) || !ColumnVisible(image, image.Length1 - 1) ||
     !RowVisible(image, 0) || !RowVisible(image, image.Length0 - 1))
  }

  /** Whether bounds lead to cropping: neither full nor empty. */
  predicate ShouldCrop(b: IconBounds) {
    !IsFull(b) && !IsEmpty(b)
  }

  /** For detector output, "neither full nor empty" means exactly that the
      image has padding on some side, so cropping happens exactly then. */
  lemma CropIffPadding(image: array2<int>, b: IconBounds)
    requires BoundsContract(image, b)
    ensures ShouldCrop(b) <==> HasPadding(image)
  {
    if !IsNull(image) && AnyVisible(image) && !IsFull(b) {
      var w, h := image.Length1, image.Length0;
      if b.x != 0 {
        ColumnOutside(image, b, 0);
      } else if b.y != 0 {
        RowOutside(image, b, 0);
      } else if b.width != w {
        ColumnOutside(image, b, w - 1);
      } else {
        RowOutside(image, b, h - 1);
      }
    }
  }

  /** A column the box does not reach holds no visible pixel. */
  lemma ColumnOutside(image: array2<int>, b: IconBounds, x: int)
    requires Encloses(image, b)
    requires x < b.x || b.x + b.width <= x
    ensures !ColumnVisible(image, x)
  {
  }

  /** A row the box does not reach holds no visible pixel. */
  lemma RowOutside(image: array2<int>, b: IconBounds, y: int)
    requires Encloses(image, b)
    requires y < b.y || b.y + b.height <= y
    ensures !RowVisible(image, y)
  {
  }

  /** Pixels at or below the threshold never affect the bounds: two images of
      the same size whose pixels are visible at the same places get the same
      bounds. */
  lemma OnlyVisiblePixelsMatter(a1: array2<int>, a2: array2<int>, b1: IconBounds, b2: IconBounds)
    requires a1.Length0 == a2.Length0 && a1.Length1 == a2.Length1
    requires forall x, y :: InImage(a1, x, y) ==> (Visible(a1, x, y) <==> Visible(a2, x, y))
    requires BoundsContract(a1, b1) && BoundsContract(a2, b2)
    ensures b1 == b2
  {
    if !IsNull(a1) {
      if AnyVisible(a1) {
        var px, py :| InImage(a1, px, py) && Visible(a1, px, py);
        assert Visible(a2, px, py);
        TightBoxWithin(a1, a2, b1, b2);
        TightBoxWithin(a2, a1, b2, b1);
      }
    }
  }

  /** The edges of one tight box hold visible pixels of the other image, so
      they lie within the other image's box. */
  lemma TightBoxWithin(a1: array2<int>, a2: array2<int>, b1: IconBounds, b2: IconBounds)
    requires a1.Length0 == a2.Length0 && a1.Length1 == a2.Length1
    requires forall x, y :: InImage(a1, x, y) ==> (Visible(a1, x, y) <==> Visible(a2, x, y))
    requires !IsNull(a1) && AnyVisible(a1) && AnyVisible(a2)
    requires BoundsContract(a1, b1) && BoundsContract(a2, b2)
    ensures b2.x <= b1.x && b1.x + b1.width <= b2.x + b2.width
    ensures b2.y <= b1.y && b1.y + b1.height <= b2.y + b2.height
  {
    var left, right := b1.x, b1.x + b1.width - 1;
    var top, bottom := b1.y, b1.y + b1.height - 1;
    var y1 :| InImage(a1, left, y1) && Visible(a1, left, y1);
    assert Covers(b2, left, y1);
    var y2 :| InImage(a1, right, y2) && Visible(a1, right, y2);
    assert Covers(b2, right, y2);
    var x1 :| InImage(a1, x1, top) && Visible(a1, x1, top);
    assert Covers(b2, x1, top);
    var x2 :| InImage(a1, x2, bottom) && Visible(a1, x2, bottom);
    assert Covers(b2, x2, bottom);
  }

  /** A single visible pixel at (px, py) gives the 1x1 box at (px, py). */
  lemma SingleVisiblePixel(image: array2<int>, b: IconBounds, px: int, py: int)
    requires InImage(image, px, py) && Visible(image, px, py)
    requires forall x, y :: InImage(image, x, y) && Visible(image, x, y) ==> x == px && y == py
    requires BoundsContract(image, b)
    ensures b == IconBounds(px, py, 1, 1, image.Length1, image.Length0)
  {
    assert AnyVisible(image);
    var left, right := b.x, b.x + b.width - 1;
    var top, bottom := b.y, b.y + b.height - 1;
    var y1 :| InImage(image, left, y1) && Visible(image, left, y1);
    var y2 :| InImage(image, right, y2) && Visible(image, right, y2);
    var x1 :| InImage(image, x1, top) && Visible(image, x1, top);
    var x2 :| InImage(image, x2, bottom) && Visible(image, x2, bottom);
  }

  /** A solid block of visible pixels covering columns [left, right) and rows
      [top, bottom), with nothing visible elsewhere, gives exactly that block. */
  lemma SolidBlock(image: array2<int>, b: IconBounds, left: int, top: int, right: int, bottom: int)
    requires 0 <= left < right <= image.Length1 && 0 <= top < bottom <= image.Length0
    requires forall x, y :: InImage(image, x, y) ==> (Visible(image, x, y) <==> left <= x < right && top <= y < bottom)
    requires BoundsContract(image, b)
    ensures b.x == left && b.y == top && b.width == right - left && b.height == bottom - top
  {
    assert Visible(image, left, top);
    assert AnyVisible(image);
    var bl, br := b.x, b.x + b.width - 1;
    var bt, bb := b.y, b.y + b.height - 1;
    var y1 :| InImage(image, bl, y1) && Visible(image, bl, y1);
    var y2 :| InImage(image, br, y2) && Visible(image, br, y2);
    var x1 :| InImage(image, x1, bt) && Visible(image, x1, bt);
    var x2 :| InImage(image, x2, bb) && Visible(image, x2, bb);
    assert Visible(image, right - 1, bottom - 1);
    assert Covers(b, left, top) && Covers(b, right - 1, bottom - 1);
  }

  /** `get_svg_content_bounds`: the bounds of an SVG rendered into a
      transparent 512x512 image.  The rendering is Qt's; `rendered` is its
      result.  The bounds are never those of a null image, so later divisions
      by `image_width` and `image_height` are safe. */
  method GetSvgContentBounds(rendered: array2<int>) returns (b: IconBounds)
    requires rendered.Length0 == MeasureSize && rendered.Length1 == MeasureSize
    ensures BoundsContract(rendered, b)
    ensures b.imageWidth == MeasureSize && b.imageHeight == MeasureSize
    ensures Inside(b) && b.width >= 1 && b.height >= 1
  {
    b := GetImageBounds(rendered);
  }

  // ----------------------------------------------------------------------
  // Checkerboard
  // ----------------------------------------------------------------------

  /** The colour of the tile in tile column `col` and tile row `row`. */
  predicate LightTile(col: int, row: int) {
    (col + row) % 2 == 0
  }

  /** Tiles that share an edge have different colours. */
  lemma AdjacentTilesDiffer(col: int, row: int)
    ensures LightTile(col, row) != LightTile(col + 1, row)
    ensures LightTile(col, row) != LightTile(col, row + 1)
  {
  }

  lemma DivOfMultiple(k: int, t: int)
    requires t > 0
    ensures (k * t) / t == k
  {
    var q, r := (k * t) / t, (k * t) % t;
    assert (k - q) * t == r by {
      assert k * t == q * t + r;
      assert (k - q) * t == k * t - q * t;
    }
    MultipleBelowDivisor(k - q, t);
  }

  /** The only multiple of t in [0, t) is 0. */
  lemma MultipleBelowDivisor(m: int, t: int)
    requires t > 0 && 0 <= m * t < t
    ensures m == 0
  {
  }

  /** `create_checkerboard`: for y in range(0, height, tile), for x in
      range(0, width, tile), a tile at (x, y) is light when
      x // tile + y // tile is even.  The result lists the colours row by row
      (true for light); the tiles start at every multiple of the tile size
      below the width and the height. */
  method Checkerboard(width: int, height: int, tileSize: int) returns (tiles: seq<seq<bool>>)
    requires tileSize > 0
    ensures forall r :: 0 <= r < |tiles| ==> r * tileSize < height
    ensures |tiles| * tileSize >= height
    ensures forall r :: 0 <= r < |tiles| ==>
      (forall c :: 0 <= c < |tiles[r]| ==> c * tileSize < width && tiles[r][c] == LightTile(c, r)) &&
      |tiles[r]| * tileSize >= width
  {
    tiles := [];
    var y := 0;
    while y < height
      invariant y == |tiles| * tileSize
      invariant forall r :: 0 <= r < |tiles| ==> r * tileSize < height
      invariant forall r :: 0 <= r < |tiles| ==>
        (forall c :: 0 <= c < |tiles[r]| ==> c * tileSize < width && tiles[r][c] == LightTile(c, r)) &&
        |tiles[r]| * tileSize >= width
    {
      var row: seq<bool> := [];
      var x := 0;
      while x < width
        invariant x == |row| * tileSize
        invariant forall c :: 0 <= c < |row| ==> c * tileSize < width && row[c] == LightTile(c, |tiles|)
      {
        DivOfMultiple(|row|, tileSize);
        DivOfMultiple(|tiles|, tileSize);
        row := row + [(x / tileSize + y / tileSize) % 2 == 0];
        x := x + tileSize;
        assert x == |row| * tileSize by {
          assert (|row| - 1) * tileSize + tileSize == |row| * tileSize;
        }
      }
      tiles := tiles + [row];
      y := y + tileSize;
      assert y == |tiles| * tileSize by {
        assert (|tiles| - 1) * tileSize + tileSize == |tiles| * tileSize;
      }
    }
  }

  // ----------------------------------------------------------------------
  // Layout of the raster compositor
  // ----------------------------------------------------------------------

  /** A rectangle with integer corner and size: the `QRectF`s that the
      compositors build from integer fields. */
  datatype Rect = Rect(x: int, y: int, width: int, height: int)

  /** `inner` lies within `outer`. */
  predicate Within(inner: Rect, outer: Rect) {
    outer.x <= inner.x && inner.x + inner.width <= outer.x + outer.width &&
    outer.y <= inner.y && inner.y + inner.height <= outer.y + outer.height
  }

  /** The target's bounds, if any, lie inside its canvas. */
  predicate BoundsFitCanvas(t: IconTarget) {
    t.width >= 0 && t.height >= 0 &&
    (t.bounds.Some? ==> Within(BoxRect(t.bounds.value), Rect(0, 0, t.width, t.height)) &&
                        t.bounds.value.width >= 0 && t.bounds.value.height >= 0)
  }

  /** The destination rectangle of both compositors: the target's own content
      bounds when present and not full, otherwise the whole canvas.  It lies
      inside the canvas whenever the target's bounds do; nothing checks that
      they do, since the bounds are measured from the file on disk while the
      canvas size comes from the size tables. */
  function DestRect(t: IconTarget): (r: Rect)
    ensures BoundsFitCanvas(t) ==> Within(r, Rect(0, 0, t.width, t.height)) && r.width >= 0 && r.height >= 0
    ensures r == Rect(0, 0, t.width, t.height) <==>
      t.bounds.None? || IsFull(t.bounds.value) || BoxRect(t.bounds.value) == Rect(0, 0, t.width, t.height)
  {
    if t.bounds.Some? && !IsFull(t.bounds.value) then BoxRect(t.bounds.value)
    else Rect(0, 0, t.width, t.height)
  }

  /** Python's `int(r)`: truncation toward zero. */
  function Trunc(r: real): (n: int)
    ensures r >= 0.0 ==> n as real <= r < n as real + 1.0
    ensures r < 0.0 ==> n as real - 1.0 < r <= n as real
  {
    if r >= 0.0 then r.Floor else -((-r).Floor)
  }

  /** Where `render_png_to_bounds` draws a raster of `sw` x `sh` pixels:
      `int(dest.x + (dest.width - sw) / 2)` and likewise for y.  Qt's
      `scaled(..., KeepAspectRatio)` returns an image that fits the requested
      size; given that, the drawn raster lies within the destination and its
      margins on opposite sides differ by at most one pixel, the extra pixel
      going right and down when the destination has non-negative corners. */
  function DrawOrigin(dest: Rect, sw: int, sh: int): (o: (int, int))
    requires 0 <= sw <= dest.width && 0 <= sh <= dest.height
    ensures Within(Rect(o.0, o.1, sw, sh), dest)
    ensures -1 <= (dest.x + dest.width - (o.0 + sw)) - (o.0 - dest.x) <= 1
    ensures -1 <= (dest.y + dest.height - (o.1 + sh)) - (o.1 - dest.y) <= 1
    ensures dest.x >= 0 ==> o.0 - dest.x <= dest.x + dest.width - (o.0 + sw)
    ensures dest.y >= 0 ==> o.1 - dest.y <= dest.y + dest.height - (o.1 + sh)
  {
    var ox := dest.x as real + (dest.width - sw) as real / 2.0;
    var oy := dest.y as real + (dest.height - sh) as real / 2.0;
    (Trunc(ox), Trunc(oy))
  }

  /** What `render_png_to_bounds` does with a non-null source: where it draws
      (`dest`), the source's bounds, the crop it takes (if any) and the size
      it asks Qt to scale the (cropped) source into. */
  datatype PngDraw = PngDraw(dest: Rect, sourceBounds: IconBounds, crop: Option<Rect>, requestWidth: int, requestHeight: int)

  /** The canvas `render_png_to_bounds` returns: its size, and what is drawn
      on it (nothing: the canvas stays transparent). */
  datatype PngRender = PngRender(canvasWidth: int, canvasHeight: int, draw: Option<PngDraw>)

  /** `render_png_to_bounds`: a transparent canvas of the target's size; a
      null source leaves it transparent; otherwise the source is cropped to
      its own content bounds exactly when it has padding and is scaled to fit
      the destination rectangle. */
  method RenderPngToBounds(source: array2<int>, t: IconTarget) returns (r: PngRender)
    ensures r.canvasWidth == t.width && r.canvasHeight == t.height
    ensures r.draw.None? <==> IsNull(source)
    ensures r.draw.Some? ==>
      var d := r.draw.value;
      d.dest == DestRect(t) &&
      BoundsContract(source, d.sourceBounds) &&
      (d.crop.Some? <==> HasPadding(source)) &&
      (d.crop.Some? ==> d.crop.value == BoxRect(d.sourceBounds) &&
                        Within(d.crop.value, Rect(0, 0, source.Length1, source.Length0))) &&
      d.requestWidth == d.dest.width && d.requestHeight == d.dest.height
  {
    if IsNull(source) {
      return PngRender(t.width, t.height, None);
    }
    var dest := DestRect(t);
    var sourceBounds := GetImageBounds(source);
    CropIffPadding(source, sourceBounds);
    var crop := if ShouldCrop(sourceBounds) then Some(BoxRect(sourceBounds)) else None;
    r := PngRender(t.width, t.height, Some(PngDraw(dest, sourceBounds, crop, dest.width, dest.height)));
  }

  // ----------------------------------------------------------------------
  // Layout of the SVG rasterizer
  // ----------------------------------------------------------------------

  /** The SVG's own size: `renderer.defaultSize()`, or the measuring image's
      size when that is empty (a side not positive). */
  function ViewSize(defaultWidth: int, defaultHeight: int, b: IconBounds): (v: (int, int))
    ensures defaultWidth > 0 && defaultHeight > 0 ==> v == (defaultWidth, defaultHeight)
    ensures b.imageWidth > 0 && b.imageHeight > 0 ==> v.0 > 0 && v.1 > 0
  {
    if defaultWidth <= 0 || defaultHeight <= 0 then (b.imageWidth, b.imageHeight)
    else (defaultWidth, defaultHeight)
  }

  /** The painter transform of the cropping branch: translate by
      (offsetX, offsetY), scale by `scale`, translate by (-contentX,
      -contentY); the content rectangle is in the SVG's own coordinates. */
  datatype SvgTransform = SvgTransform(
    offsetX: real, offsetY: real, scale: real,
    contentX: real, contentY: real, contentWidth: real, contentHeight: real,
    viewWidth: int, viewHeight: int)

  /** Where the transform sends a point of the SVG's coordinate space. */
  function MapX(t: SvgTransform, u: real): real { t.offsetX + t.scale * (u - t.contentX) }
  function MapY(t: SvgTransform, v: real): real { t.offsetY + t.scale * (v - t.contentY) }

  /** The cropping arithmetic shared by `render_svg_cropped` and
      `render_svg_to_size`: map the 512-px bounds back into the SVG's
      coordinates, scale by min(dest.width / content width, dest.height /
      content height) and centre.  Dividing by the measuring image's size and
      by the content size needs them non-zero, which detector bounds that are
      not empty always satisfy.
      The content rectangle takes the same fraction of the SVG as the
      measured box takes of the measuring image; the scaled content fits the
      destination in both directions, fills it in at least one, and leaves
      equal margins on opposite sides. */
  function CropTransform(dest: Rect, b: IconBounds, defaultWidth: int, defaultHeight: int): (t: SvgTransform)
    requires b.imageWidth > 0 && b.imageHeight > 0 && b.width > 0 && b.height > 0
    requires dest.width >= 0 && dest.height >= 0
    ensures t.contentWidth > 0.0 && t.contentHeight > 0.0 && t.scale >= 0.0
    ensures (t.viewWidth, t.viewHeight) == ViewSize(defaultWidth, defaultHeight, b)
    ensures t.contentX * b.imageWidth as real == b.x as real * t.viewWidth as real
    ensures t.contentWidth * b.imageWidth as real == b.width as real * t.viewWidth as real
    ensures t.contentY * b.imageHeight as real == b.y as real * t.viewHeight as real
    ensures t.contentHeight * b.imageHeight as real == b.height as real * t.viewHeight as real
    ensures t.contentWidth * t.scale <= dest.width as real && t.contentHeight * t.scale <= dest.height as real
    ensures t.contentWidth * t.scale == dest.width as real || t.contentHeight * t.scale == dest.height as real
    ensures t.offsetX - dest.x as real == (dest.x + dest.width) as real - (t.offsetX + t.contentWidth * t.scale)
    ensures t.offsetY - dest.y as real == (dest.y + dest.height) as real - (t.offsetY + t.contentHeight * t.scale)
  {
    var view := ViewSize(defaultWidth, defaultHeight, b);
    var vw, vh := view.0, view.1;
    assert vw > 0 && vh > 0;
    var cw := ToView(b.width, b.imageWidth, vw);
    var ch := ToView(b.height, b.imageHeight, vh);
    var s := FitScale(cw, ch, dest.width as real, dest.height as real);
    SvgTransform(Centre(dest.x, dest.width, cw * s), Centre(dest.y, dest.height, ch * s), s,
                 ToView(b.x, b.imageWidth, vw), ToView(b.y, b.imageHeight, vh), cw, ch, vw, vh)
  }

  /** A coordinate of the measuring image carried over to the SVG's view:
      `n * (view / image)`, the same fraction of the view. */
  function ToView(n: int, image: int, view: int): (r: real)
    requires image > 0
    ensures r * image as real == n as real * view as real
    ensures n > 0 && view > 0 ==> r > 0.0
  {
    FractionOf(n as real, view as real, image as real);
    var r := n as real * (view as real / image as real);
    assert n > 0 && view > 0 ==> r > 0.0 by {
      if n > 0 && view > 0 {
        PositiveProduct(n as real, view as real / image as real);
      }
    }
    r
  }

  /** The start that centres `size` in the span of `extent` from `lo`. */
  function Centre(lo: int, extent: int, size: real): (o: real)
    ensures o - lo as real == (lo + extent) as real - (o + size)
  {
    lo as real + (extent as real - size) / 2.0
  }

  /** Scaling by n/d and multiplying back by d is scaling by n. */
  lemma FractionOf(a: real, n: real, d: real)
    requires d > 0.0
    ensures (a * (n / d)) * d == a * n
  {
    assert (n / d) * d == n;
    assert (a * (n / d)) * d == a * ((n / d) * d);
  }

  lemma PositiveProduct(a: real, c: real)
    requires a > 0.0 && c > 0.0
    ensures a * c > 0.0
  {
  }

  /** The aspect-preserving scale min(w / cw, h / ch): it fits both sides and
      fills at least one. */
  function FitScale(cw: real, ch: real, w: real, h: real): (s: real)
    requires cw > 0.0 && ch > 0.0 && w >= 0.0 && h >= 0.0
    ensures s >= 0.0 && cw * s <= w && ch * s <= h
    ensures cw * s == w || ch * s == h
  {
    var sx, sy := w / cw, h / ch;
    assert cw * sx == w && ch * sy == h;
    assert sx >= 0.0 && sy >= 0.0;
    if sx <= sy then
      assert ch * (sy - sx) >= 0.0;
      sx
    else
      assert cw * (sx - sy) >= 0.0;
      sy
  }

  /** The transform sends the SVG's content rectangle into the destination
      rectangle: its corners go to the centred, scaled box, and every point
      of the content rectangle lands inside the destination.  Geometry
      outside the content rectangle is what the canvas clips away. */
  lemma CropTransformMapsContentIntoDest(dest: Rect, b: IconBounds, defaultWidth: int, defaultHeight: int, u: real, v: real)
    requires b.imageWidth > 0 && b.imageHeight > 0 && b.width > 0 && b.height > 0
    requires dest.width >= 0 && dest.height >= 0
    requires var t := CropTransform(dest, b, defaultWidth, defaultHeight);
      t.contentX <= u <= t.contentX + t.contentWidth && t.contentY <= v <= t.contentY + t.contentHeight
    ensures var t := CropTransform(dest, b, defaultWidth, defaultHeight);
      dest.x as real <= t.offsetX <= MapX(t, u) <= t.offsetX + t.contentWidth * t.scale <= (dest.x + dest.width) as real &&
      dest.y as real <= t.offsetY <= MapY(t, v) <= t.offsetY + t.contentHeight * t.scale <= (dest.y + dest.height) as real
  {
    var t := CropTransform(dest, b, defaultWidth, defaultHeight);
    TransformMapsX(t, dest, u);
    TransformMapsY(t, dest, v);
  }

  /** The scaled content box lies inside `d` and fills it in at least one
      direction. */
  predicate Fitted(t: SvgTransform, d: Rect) {
    d.x as real <= t.offsetX && t.offsetX + t.contentWidth * t.scale <= (d.x + d.width) as real &&
    d.y as real <= t.offsetY && t.offsetY + t.contentHeight * t.scale <= (d.y + d.height) as real &&
    (t.contentWidth * t.scale == d.width as real || t.contentHeight * t.scale == d.height as real)
  }

  /** The cropping transform puts the scaled content inside the destination
      and fills it in at least one direction. */
  lemma CropTransformFits(dest: Rect, b: IconBounds, defaultWidth: int, defaultHeight: int)
    requires b.imageWidth > 0 && b.imageHeight > 0 && b.width > 0 && b.height > 0
    requires dest.width >= 0 && dest.height >= 0
    ensures Fitted(CropTransform(dest, b, defaultWidth, defaultHeight), dest)
  {
    CentredFits(CropTransform(dest, b, defaultWidth, defaultHeight), dest);
  }

  /** A transform whose scaled content fits the destination, fills it in
      one direction and is centred in both is fitted to it. */
  lemma CentredFits(t: SvgTransform, dest: Rect)
    requires t.contentWidth > 0.0 && t.contentHeight > 0.0 && t.scale >= 0.0
    requires t.contentWidth * t.scale <= dest.width as real && t.contentHeight * t.scale <= dest.height as real
    requires t.contentWidth * t.scale == dest.width as real || t.contentHeight * t.scale == dest.height as real
    requires t.offsetX - dest.x as real == (dest.x + dest.width) as real - (t.offsetX + t.contentWidth * t.scale)
    requires t.offsetY - dest.y as real == (dest.y + dest.height) as real - (t.offsetY + t.contentHeight * t.scale)
    ensures Fitted(t, dest)
  {
    TransformMapsX(t, dest, t.contentX);
    TransformMapsY(t, dest, t.contentY);
  }

  /** The horizontal axis of a centred, fitting transform: every point of
      the content span lands inside the destination span. */
  lemma TransformMapsX(t: SvgTransform, dest: Rect, u: real)
    requires t.scale >= 0.0 && t.contentX <= u <= t.contentX + t.contentWidth
    requires t.contentWidth * t.scale <= dest.width as real
    requires t.offsetX - dest.x as real == (dest.x + dest.width) as real - (t.offsetX + t.contentWidth * t.scale)
    ensures dest.x as real <= t.offsetX <= MapX(t, u) <= t.offsetX + t.contentWidth * t.scale <= (dest.x + dest.width) as real
  {
    ScaleMonotone(t.scale, u - t.contentX, t.contentWidth);
    assert t.contentWidth * t.scale == t.scale * t.contentWidth;
  }

  /** The vertical axis, likewise. */
  lemma TransformMapsY(t: SvgTransform, dest: Rect, v: real)
    requires t.scale >= 0.0 && t.contentY <= v <= t.contentY + t.contentHeight
    requires t.contentHeight * t.scale <= dest.height as real
    requires t.offsetY - dest.y as real == (dest.y + dest.height) as real - (t.offsetY + t.contentHeight * t.scale)
    ensures dest.y as real <= t.offsetY <= MapY(t, v) <= t.offsetY + t.contentHeight * t.scale <= (dest.y + dest.height) as real
  {
    ScaleMonotone(t.scale, v - t.contentY, t.contentHeight);
    assert t.contentHeight * t.scale == t.scale * t.contentHeight;
  }

  lemma ScaleMonotone(s: real, a: real, c: real)
    requires s >= 0.0 && 0.0 <= a <= c
    ensures 0.0 <= s * a <= s * c
  {
    assert s * (c - a) >= 0.0;
  }

  /** With no padding and a destination of the SVG's own proportions, the
      cropping transform is the plain mapping of the SVG onto the destination
      rectangle, which is what the direct branch renders. */
  lemma FullBoundsTransformIsDirect(dest: Rect, b: IconBounds, defaultWidth: int, defaultHeight: int)
    requires b.imageWidth > 0 && b.imageHeight > 0 && IsFull(b)
    requires dest.width >= 0 && dest.height >= 0
    requires var (vw, vh) := ViewSize(defaultWidth, defaultHeight, b); dest.width * vh == dest.height * vw
    ensures var t := CropTransform(dest, b, defaultWidth, defaultHeight);
      t.contentX == 0.0 && t.contentY == 0.0 &&
      t.contentWidth == t.viewWidth as real && t.contentHeight == t.viewHeight as real &&
      t.contentWidth * t.scale == dest.width as real && t.contentHeight * t.scale == dest.height as real &&
      t.offsetX == dest.x as real && t.offsetY == dest.y as real
  {
    var t := CropTransform(dest, b, defaultWidth, defaultHeight);
    var vw, vh := t.viewWidth as real, t.viewHeight as real;
    assert t.contentWidth == vw by {
      assert t.contentWidth * b.imageWidth as real == b.imageWidth as real * vw;
    }
    assert t.contentHeight == vh by {
      assert t.contentHeight * b.imageHeight as real == b.imageHeight as real * vh;
    }
    assert dest.width as real / vw == dest.height as real / vh by {
      assert dest.width as real * vh == dest.height as real * vw;
    }
  }

  /** How an SVG is painted onto the canvas: straight into a rectangle, or
      through the cropping transform. */
  datatype SvgDraw = Direct(dest: Rect) | Cropped(transform: SvgTransform)

  datatype SvgRender = SvgRender(canvasWidth: int, canvasHeight: int, draw: SvgDraw)

  /** `render_svg_cropped`: a transparent canvas of the target's size; the
      SVG is drawn through the cropping transform into the destination
      rectangle when its measured bounds have padding, and straight into the
      destination rectangle otherwise.  The target's bounds come from the
      file on disk and are never checked against the canvas, so the drawing
      stays on the canvas only when they fit it. */
  function RenderSvgCropped(t: IconTarget, svgBounds: IconBounds, defaultWidth: int, defaultHeight: int): (r: SvgRender)
    requires Inside(svgBounds)
    requires DestRect(t).width >= 0 && DestRect(t).height >= 0
    ensures r.canvasWidth == t.width && r.canvasHeight == t.height
    ensures BoundsFitCanvas(t) ==> Within(DestRect(t), Rect(0, 0, r.canvasWidth, r.canvasHeight))
    ensures r.draw.Direct? <==> !ShouldCrop(svgBounds)
    ensures r.draw.Direct? ==> r.draw.dest == DestRect(t)
    ensures r.draw.Cropped? ==>
      var tr := r.draw.transform;
      var d := DestRect(t);
      tr == CropTransform(d, svgBounds, defaultWidth, defaultHeight) && Fitted(tr, d)
  {
    var dest := DestRect(t);
    if ShouldCrop(svgBounds) then
      var tr := CropTransform(dest, svgBounds, defaultWidth, defaultHeight);
      CropTransformFits(dest, svgBounds, defaultWidth, defaultHeight);
      SvgRender(t.width, t.height, Cropped(tr))
    else
      SvgRender(t.width, t.height, Direct(dest))
  }

  /** `render_svg_to_size`: the preview variant on a size x size canvas,
      whose destination is always the whole canvas; bounds are optional. */
  function RenderSvgToSize(size: int, svgBounds: Option<IconBounds>, defaultWidth: int, defaultHeight: int): (r: SvgRender)
    requires size >= 0
    requires svgBounds.Some? ==> Inside(svgBounds.value)
    ensures r.canvasWidth == size && r.canvasHeight == size
    ensures r.draw.Direct? <==> svgBounds.None? || !ShouldCrop(svgBounds.value)
    ensures r.draw.Direct? ==> r.draw.dest == Rect(0, 0, size, size)
    ensures r.draw.Cropped? ==>
      var tr := r.draw.transform;
      tr == CropTransform(Rect(0, 0, size, size), svgBounds.value, defaultWidth, defaultHeight) &&
      Fitted(tr, Rect(0, 0, size, size))
  {
    if svgBounds.Some? && ShouldCrop(svgBounds.value) then
      var dest := Rect(0, 0, size, size);
      var tr := CropTransform(dest, svgBounds.value, defaultWidth, defaultHeight);
      CropTransformFits(dest, svgBounds.value, defaultWidth, defaultHeight);
      SvgRender(size, size, Cropped(tr))
    else
      SvgRender(size, size, Direct(Rect(0, 0, size, size)))
  }
}
