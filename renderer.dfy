/**
 * Renderer: the view state (image, zoom, pan, rotation, crop selection,
 * markup) and the geometry derived from it: where the image lands on
 * screen, how a screen selection maps into image pixels, and the draw
 * commands of the crop overlay and of the markup strokes. Floats are
 * exact reals; nothing is claimed about rounding.
 */
module Renderer {

  import opened Wrappers
  import opened Geometry

  const MinZoom: real := 0.1
  const MaxZoom: real := 10.0
  const CropDimOpacity: real := 0.5
  const CropBorderWidth: real := 2.0
  const Background := Color(0.1, 0.1, 0.1, 1.0)
  const CropDim := Color(0.0, 0.0, 0.0, CropDimOpacity)

  /** A freehand stroke: points, colour and width. */
  datatype MarkupStroke = MarkupStroke(points: seq<Point>, color: Color, width: real)

  /** A text annotation anchored at (x, y). */
  datatype TextOverlay = TextOverlay(text: string, x: real, y: real, color: Color, fontSize: real)

  /** The Direct2D calls a frame is made of. */
  datatype DrawCommand =
    | Clear(color: Color)
    | DrawBitmap(dest: Rect, rotation: int)
    | FillRectangle(rect: Rect, color: Color)
    | DrawRectangle(rect: Rect, color: Color, strokeWidth: real)
    | DrawLine(from: Point, to: Point, color: Color, strokeWidth: real)

  /** The rotation values that swap the image's width and height on screen. */
  predicate IsQuarterTurn(rotation: int) { rotation == 90 || rotation == 270 }

  /** The image's width and height as displayed: swapped for 90 and 270 degrees. */
  function DisplayWidth(b: Bitmap, rotation: int): real {
    if IsQuarterTurn(rotation) then b.height as real else b.width as real
  }

  function DisplayHeight(b: Bitmap, rotation: int): real {
    if IsQuarterTurn(rotation) then b.width as real else b.height as real
  }

  /** The largest scale at which the displayed image fits the viewport. */
  function FitScale(b: Bitmap, rotation: int, vw: int, vh: int): real {
    Min(vw as real / DisplayWidth(b, rotation), vh as real / DisplayHeight(b, rotation))
  }

  /**
   * CalculateImageRect: the image scaled to fit the viewport, times the zoom,
   * centred, then moved by the pan; the zero rectangle without an image.
   */
  function ImageRect(image: Option<Bitmap>, rotation: int, vw: int, vh: int, zoom: real, panX: real, panY: real): Rect
  {
    match image
    case None => ZeroRect
    case Some(b) =>
      var scale := FitScale(b, rotation, vw, vh) * zoom;
      var w := DisplayWidth(b, rotation) * scale;
      var h := DisplayHeight(b, rotation) * scale;
      var x := (vw as real - w) / 2.0 + panX;
      var y := (vh as real - h) / 2.0 + panY;
      Rect(x, y, x + w, y + h)
  }

  lemma ImageRectWithoutImage(rotation: int, vw: int, vh: int, zoom: real, panX: real, panY: real)
    ensures ImageRect(None, rotation, vw, vh, zoom, panX, panY) == ZeroRect
  {
  }

  /** With no pan the rectangle is centred in the viewport. */
  lemma ImageRectCentred(b: Bitmap, rotation: int, vw: int, vh: int, zoom: real)
    ensures var r := ImageRect(Some(b), rotation, vw, vh, zoom, 0.0, 0.0);
      r.left + r.right == vw as real && r.top + r.bottom == vh as real
  {
  }

  /** Panning moves both edges by exactly the pan. */
  lemma ImageRectPanned(image: Option<Bitmap>, rotation: int, vw: int, vh: int, zoom: real, panX: real, panY: real)
    requires image.Some?
    ensures ImageRect(image, rotation, vw, vh, zoom, panX, panY) ==
            Shift(ImageRect(image, rotation, vw, vh, zoom, 0.0, 0.0), panX, panY)
  {
  }

  /** A quarter turn lays the image out as if its width and height were exchanged. */
  lemma ImageRectQuarterTurn(b: Bitmap, rotation: int, vw: int, vh: int, zoom: real, panX: real, panY: real)
    requires IsQuarterTurn(rotation)
    ensures ImageRect(Some(b), rotation, vw, vh, zoom, panX, panY) ==
            ImageRect(Some(Bitmap(b.height, b.width)), 0, vw, vh, zoom, panX, panY)
  {
  }

  /** The scale is uniform: the displayed aspect ratio is the image's. */
  lemma ImageRectKeepsAspect(b: Bitmap, rotation: int, vw: int, vh: int, zoom: real, panX: real, panY: real)
    ensures var r := ImageRect(Some(b), rotation, vw, vh, zoom, panX, panY);
      Width(r) * DisplayHeight(b, rotation) == Height(r) * DisplayWidth(b, rotation)
  {
    var s := FitScale(b, rotation, vw, vh) * zoom;
    var dw, dh := DisplayWidth(b, rotation), DisplayHeight(b, rotation);
    assert dw * s * dh == dh * s * dw;
  }

  lemma ScaledFits(v: real, d: real, fit: real, zoom: real)
    requires v >= 0.0 && d > 0.0 && 0.0 <= fit <= v / d && 0.0 <= zoom <= 1.0
    ensures 0.0 <= d * (fit * zoom) <= v
  {
    var g := v / d - fit;
    assert d * g >= 0.0;
    assert d * (v / d) == v;
    assert d * fit == v - d * g;
    var f := d * fit;
    assert f >= 0.0;
    assert f * (1.0 - zoom) >= 0.0;
    assert f * zoom >= 0.0;
    assert d * (fit * zoom) == f * zoom;
  }

  lemma QuotientNonNegative(v: real, d: real)
    requires v >= 0.0 && d > 0.0
    ensures v / d >= 0.0
  {
  }

  lemma ScaledFills(v: real, d: real)
    requires d > 0.0
    ensures d * ((v / d) * 1.0) == v
  {
  }

  /** The rectangle's width and height are the displayed size times the fit scale times the zoom. */
  lemma ImageRectSize(b: Bitmap, rotation: int, vw: int, vh: int, zoom: real, panX: real, panY: real)
    ensures var r := ImageRect(Some(b), rotation, vw, vh, zoom, panX, panY);
      var s := FitScale(b, rotation, vw, vh) * zoom;
      Width(r) == DisplayWidth(b, rotation) * s && Height(r) == DisplayHeight(b, rotation) * s
  {
    var dw, dh := DisplayWidth(b, rotation), DisplayHeight(b, rotation);
    var s := FitScale(b, rotation, vw, vh) * zoom;
    var x := (vw as real - dw * s) / 2.0 + panX;
    var y := (vh as real - dh * s) / 2.0 + panY;
    assert ImageRect(Some(b), rotation, vw, vh, zoom, panX, panY) == Rect(x, y, x + dw * s, y + dh * s);
  }

  /** Scaling by the smaller of the two fit ratios, and by a zoom of at most 1, stays within both limits. */
  lemma FitsWithin(dw: real, dh: real, vw: real, vh: real, zoom: real)
    requires dw > 0.0 && dh > 0.0 && vw >= 0.0 && vh >= 0.0 && 0.0 <= zoom <= 1.0
    ensures var s := Min(vw / dw, vh / dh) * zoom;
      0.0 <= dw * s <= vw && 0.0 <= dh * s <= vh
  {
    QuotientNonNegative(vw, dw);
    QuotientNonNegative(vh, dh);
    var fit := Min(vw / dw, vh / dh);
    ScaledFits(vw, dw, fit, zoom);
    ScaledFits(vh, dh, fit, zoom);
  }

  /** The fitted, zoomed display size lies within the viewport. */
  lemma FitScaleWithin(b: Bitmap, rotation: int, vw: nat, vh: nat, zoom: real)
    requires 0.0 <= zoom <= 1.0
    ensures var s := FitScale(b, rotation, vw, vh) * zoom;
      0.0 <= DisplayWidth(b, rotation) * s <= vw as real && 0.0 <= DisplayHeight(b, rotation) * s <= vh as real
  {
    FitsWithin(DisplayWidth(b, rotation), DisplayHeight(b, rotation), vw as real, vh as real, zoom);
  }

  lemma ImageRectWidthFits(b: Bitmap, rotation: int, vw: nat, vh: nat, zoom: real, panX: real, panY: real)
    requires 0.0 <= zoom <= 1.0
    ensures 0.0 <= Width(ImageRect(Some(b), rotation, vw, vh, zoom, panX, panY)) <= vw as real
  {
    ImageRectSize(b, rotation, vw, vh, zoom, panX, panY);
    FitScaleWithin(b, rotation, vw, vh, zoom);
  }

  lemma ImageRectHeightFits(b: Bitmap, rotation: int, vw: nat, vh: nat, zoom: real, panX: real, panY: real)
    requires 0.0 <= zoom <= 1.0
    ensures 0.0 <= Height(ImageRect(Some(b), rotation, vw, vh, zoom, panX, panY)) <= vh as real
  {
    ImageRectSize(b, rotation, vw, vh, zoom, panX, panY);
    FitScaleWithin(b, rotation, vw, vh, zoom);
  }

  /** At a zoom of at most 1 the image rectangle fits inside the viewport. */
  lemma ImageRectFits(b: Bitmap, rotation: int, vw: nat, vh: nat, zoom: real, panX: real, panY: real)
    requires 0.0 <= zoom <= 1.0
    ensures var r := ImageRect(Some(b), rotation, vw, vh, zoom, panX, panY);
      0.0 <= Width(r) <= vw as real && 0.0 <= Height(r) <= vh as real
  {
    ImageRectWidthFits(b, rotation, vw, vh, zoom, panX, panY);
    ImageRectHeightFits(b, rotation, vw, vh, zoom, panX, panY);
  }

  /** At zoom 1 the image fills the viewport along at least one axis. */
  lemma ImageRectFillsAtZoomOne(b: Bitmap, rotation: int, vw: nat, vh: nat, panX: real, panY: real)
    ensures var r := ImageRect(Some(b), rotation, vw, vh, 1.0, panX, panY);
      Width(r) == vw as real || Height(r) == vh as real
  {
    var dw, dh := DisplayWidth(b, rotation), DisplayHeight(b, rotation);
    var sx, sy := vw as real / dw, vh as real / dh;
    ImageRectSize(b, rotation, vw, vh, 1.0, panX, panY);
    if sx <= sy {
      assert FitScale(b, rotation, vw, vh) == sx;
      ScaledFills(vw as real, dw);
    } else {
      assert FitScale(b, rotation, vw, vh) == sy;
      ScaledFills(vh as real, dh);
    }
  }

  /** Each coordinate clamped into [0, limit] as max(0, min(v, limit)). */
  function ClampToImage(v: real, limit: real): (r: real)
    requires limit >= 0.0
    ensures 0.0 <= r <= limit
    ensures 0.0 <= v <= limit ==> r == v
  {
    Max(0.0, Min(v, limit))
  }

  /** The screen rectangle of the image has positive area exactly when the viewport and zoom are positive. */
  predicate HasArea(image: Option<Bitmap>, rotation: int, vw: int, vh: int, zoom: real) {
    image.None? || (vw > 0 && vh > 0 && zoom > 0.0)
  }

  lemma ImageRectPositive(b: Bitmap, rotation: int, vw: int, vh: int, zoom: real, panX: real, panY: real)
    requires vw > 0 && vh > 0 && zoom > 0.0
    ensures var r := ImageRect(Some(b), rotation, vw, vh, zoom, panX, panY);
      Width(r) > 0.0 && Height(r) > 0.0
  {
    var dw, dh := DisplayWidth(b, rotation), DisplayHeight(b, rotation);
    var fit := FitScale(b, rotation, vw, vh);
    assert vw as real / dw > 0.0 && vh as real / dh > 0.0;
    assert fit > 0.0;
    assert fit * zoom > 0.0;
  }

  /** The image-pixel coordinate of screen coordinate v, along one axis. */
  function ToImage(v: real, origin: real, extent: real, size: real): real
    requires extent != 0.0
  {
    (v - origin) * (size / extent)
  }

  /**
   * GetCropRectInImageCoords: the selection mapped from screen into image
   * pixels (using the unrotated image size) and clamped to the image.
   */
  function CropRectInImage(image: Option<Bitmap>, rotation: int, vw: int, vh: int, zoom: real,
                           panX: real, panY: real, crop: Rect): (r: Rect)
    requires HasArea(image, rotation, vw, vh, zoom)
    ensures image.None? ==> r == ZeroRect
    ensures image.Some? ==>
      0.0 <= r.left <= image.value.width as real && 0.0 <= r.right <= image.value.width as real &&
      0.0 <= r.top <= image.value.height as real && 0.0 <= r.bottom <= image.value.height as real
  {
    match image
    case None => ZeroRect
    case Some(b) =>
      var ir := ImageRect(image, rotation, vw, vh, zoom, panX, panY);
      ImageRectPositive(b, rotation, vw, vh, zoom, panX, panY);
      var w, h := b.width as real, b.height as real;
      Rect(ClampToImage(ToImage(crop.left, ir.left, Width(ir), w), w),
           ClampToImage(ToImage(crop.top, ir.top, Height(ir), h), h),
           ClampToImage(ToImage(crop.right, ir.left, Width(ir), w), w),
           ClampToImage(ToImage(crop.bottom, ir.top, Height(ir), h), h))
  }

  lemma ToImageMonotone(a: real, c: real, origin: real, extent: real, size: real)
    requires extent > 0.0 && size > 0.0 && a <= c
    ensures ToImage(a, origin, extent, size) <= ToImage(c, origin, extent, size)
  {
    var k := size / extent;
    assert k > 0.0;
    assert (c - origin) * k - (a - origin) * k == (c - a) * k;
  }

  /** Mapping keeps the order of the edges: a well-formed selection stays well-formed. */
  lemma CropRectInImageKeepsOrder(image: Option<Bitmap>, rotation: int, vw: int, vh: int, zoom: real,
                                  panX: real, panY: real, crop: Rect)
    requires HasArea(image, rotation, vw, vh, zoom)
    requires crop.left <= crop.right && crop.top <= crop.bottom
    ensures var r := CropRectInImage(image, rotation, vw, vh, zoom, panX, panY, crop);
      r.left <= r.right && r.top <= r.bottom
  {
    if image.Some? {
      var b := image.value;
      var ir := ImageRect(image, rotation, vw, vh, zoom, panX, panY);
      ImageRectPositive(b, rotation, vw, vh, zoom, panX, panY);
      ToImageMonotone(crop.left, crop.right, ir.left, Width(ir), b.width as real);
      ToImageMonotone(crop.top, crop.bottom, ir.top, Height(ir), b.height as real);
    }
  }

  lemma ToImageEnds(origin: real, extent: real, size: real)
    requires extent > 0.0
    ensures ToImage(origin, origin, extent, size) == 0.0
    ensures ToImage(origin + extent, origin, extent, size) == size
  {
    assert (origin + extent - origin) * (size / extent) == extent * (size / extent) == size;
  }

  /** Selecting exactly the displayed image selects the whole bitmap, whatever the rotation. */
  lemma CropRectInImageWholeImage(b: Bitmap, rotation: int, vw: int, vh: int, zoom: real, panX: real, panY: real)
    requires vw > 0 && vh > 0 && zoom > 0.0
    ensures var ir := ImageRect(Some(b), rotation, vw, vh, zoom, panX, panY);
      CropRectInImage(Some(b), rotation, vw, vh, zoom, panX, panY, ir) ==
      Rect(0.0, 0.0, b.width as real, b.height as real)
  {
    var ir := ImageRect(Some(b), rotation, vw, vh, zoom, panX, panY);
    ImageRectPositive(b, rotation, vw, vh, zoom, panX, panY);
    ToImageEnds(ir.left, Width(ir), b.width as real);
    ToImageEnds(ir.top, Height(ir), b.height as real);
    assert ir.right == ir.left + Width(ir) && ir.bottom == ir.top + Height(ir);
  }

  /** Inverse of ToImage: back from image pixels to the screen. */
  function ToScreen(v: real, origin: real, extent: real, size: real): real
    requires size != 0.0
  {
    origin + v * (extent / size)
  }

  lemma ToImageRoundTrip(v: real, origin: real, extent: real, size: real)
    requires extent > 0.0 && size > 0.0
    ensures ToScreen(ToImage(v, origin, extent, size), origin, extent, size) == v
  {
    assert (size / extent) * (extent / size) == 1.0;
    assert (v - origin) * (size / extent) * (extent / size) == v - origin;
  }

  lemma ToImageWithin(v: real, origin: real, extent: real, size: real)
    requires extent > 0.0 && size > 0.0 && origin <= v <= origin + extent
    ensures 0.0 <= ToImage(v, origin, extent, size) <= size
  {
    ToImageMonotone(origin, v, origin, extent, size);
    ToImageMonotone(v, origin + extent, origin, extent, size);
    ToImageEnds(origin, extent, size);
  }

  /**
   * A selection inside an unrotated image is not clamped: mapping its image
   * coordinates back to the screen gives the selection again.
   */
  lemma CropRectInImageRoundTrip(b: Bitmap, vw: int, vh: int, zoom: real, panX: real, panY: real, crop: Rect)
    requires vw > 0 && vh > 0 && zoom > 0.0
    requires var ir := ImageRect(Some(b), 0, vw, vh, zoom, panX, panY);
      Contains(ir, crop.left, crop.top) && Contains(ir, crop.right, crop.bottom)
    ensures var ir := ImageRect(Some(b), 0, vw, vh, zoom, panX, panY);
      var r := CropRectInImage(Some(b), 0, vw, vh, zoom, panX, panY, crop);
      var w, h := b.width as real, b.height as real;
      ToScreen(r.left, ir.left, Width(ir), w) == crop.left &&
      ToScreen(r.top, ir.top, Height(ir), h) == crop.top &&
      ToScreen(r.right, ir.left, Width(ir), w) == crop.right &&
      ToScreen(r.bottom, ir.top, Height(ir), h) == crop.bottom
  {
    var ir := ImageRect(Some(b), 0, vw, vh, zoom, panX, panY);
    ImageRectPositive(b, 0, vw, vh, zoom, panX, panY);
    var w, h := b.width as real, b.height as real;
    assert ir.right == ir.left + Width(ir) && ir.bottom == ir.top + Height(ir);
    ToImageWithin(crop.left, ir.left, Width(ir), w);
    ToImageWithin(crop.right, ir.left, Width(ir), w);
    ToImageWithin(crop.top, ir.top, Height(ir), h);
    ToImageWithin(crop.bottom, ir.top, Height(ir), h);
    ToImageRoundTrip(crop.left, ir.left, Width(ir), w);
    ToImageRoundTrip(crop.right, ir.left, Width(ir), w);
    ToImageRoundTrip(crop.top, ir.top, Height(ir), h);
    ToImageRoundTrip(crop.bottom, ir.top, Height(ir), h);
  }

  /**
   * RenderCropOverlay: nothing unless crop mode is on and the selection is
   * non-empty; otherwise four dimming bands around the selection and its border.
   */
  function CropOverlay(cropMode: bool, crop: Rect, vw: int, vh: int): (cmds: seq<DrawCommand>)
    ensures !cropMode || IsEmpty(crop) ==> cmds == []
    ensures cropMode && !IsEmpty(crop) ==>
      |cmds| == 5 && cmds[4] == DrawRectangle(crop, White, CropBorderWidth) &&
      forall i :: 0 <= i < 4 ==> cmds[i].FillRectangle? && cmds[i].color == CropDim
  {
    if !cropMode || IsEmpty(crop) then []
    else
      var w, h := vw as real, vh as real;
      [FillRectangle(Rect(0.0, 0.0, w, crop.top), CropDim),
       FillRectangle(Rect(0.0, crop.bottom, w, h), CropDim),
       FillRectangle(Rect(0.0, crop.top, crop.left, crop.bottom), CropDim),
       FillRectangle(Rect(crop.right, crop.top, w, crop.bottom), CropDim),
       DrawRectangle(crop, White, CropBorderWidth)]
  }

  /** Every point of the viewport that is not strictly inside the selection is dimmed. */
  lemma CropOverlayCoversOutside(crop: Rect, vw: int, vh: int, x: real, y: real)
    requires !IsEmpty(crop)
    requires 0.0 <= x <= vw as real && 0.0 <= y <= vh as real
    requires !StrictlyInside(crop, x, y)
    ensures var cmds := CropOverlay(true, crop, vw, vh);
      exists i :: 0 <= i < 4 && Contains(cmds[i].rect, x, y)
  {
    var cmds := CropOverlay(true, crop, vw, vh);
    if y <= crop.top {
      assert Contains(cmds[0].rect, x, y);
    } else if y >= crop.bottom {
      assert Contains(cmds[1].rect, x, y);
    } else if x <= crop.left {
      assert Contains(cmds[2].rect, x, y);
    } else {
      assert Contains(cmds[3].rect, x, y);
    }
  }

  /** No dimming band reaches into the interior of the selection. */
  lemma CropOverlayKeepsInsideClear(crop: Rect, vw: int, vh: int, x: real, y: real)
    requires !IsEmpty(crop) && StrictlyInside(crop, x, y)
    ensures var cmds := CropOverlay(true, crop, vw, vh);
      forall i :: 0 <= i < 4 ==> !StrictlyInside(cmds[i].rect, x, y)
  {
  }

  /** A stroke point on screen: normalized coordinates scaled into the image rectangle. */
  function StrokePoint(p: Point, screen: Rect): Point {
    Point(screen.left + p.x * Width(screen), screen.top + p.y * Height(screen))
  }

  /** The corners of the normalized square land on the corners of the image rectangle. */
  lemma StrokePointCorners(screen: Rect)
    ensures StrokePoint(Point(0.0, 0.0), screen) == Point(screen.left, screen.top)
    ensures StrokePoint(Point(1.0, 1.0), screen) == Point(screen.right, screen.bottom)
  {
  }

  /** The segments of one stroke: one line between each pair of consecutive points. */
  function StrokeSegments(points: seq<Point>, color: Color, width: real, screen: Rect): (cmds: seq<DrawCommand>)
    ensures |cmds| == if |points| < 2 then 0 else |points| - 1
    ensures forall i :: 0 <= i < |cmds| ==> cmds[i].DrawLine?
    ensures forall i :: 0 <= i < |cmds| ==>
      cmds[i] == DrawLine(StrokePoint(points[i], screen), StrokePoint(points[i + 1], screen), color, width)
  {
    if |points| < 2 then []
    else
      var n := |points|;
      StrokeSegments(points[..n - 1], color, width, screen) +
        [DrawLine(StrokePoint(points[n - 2], screen), StrokePoint(points[n - 1], screen), color, width)]
  }

  /** Consecutive segments of a stroke join: each starts where the previous one ended. */
  lemma StrokeSegmentsConnected(points: seq<Point>, color: Color, width: real, screen: Rect)
    ensures var cmds := StrokeSegments(points, color, width, screen);
      forall i, j :: 0 <= i && j == i + 1 && j < |cmds| ==> cmds[i].DrawLine? && cmds[j].DrawLine? && cmds[i].to == cmds[j].from
  {
  }

  /** The commands for one stroke: nothing below two points, else its segments at its width times the screen width. */
  function StrokeCommands(stroke: MarkupStroke, screen: Rect): (cmds: seq<DrawCommand>)
    ensures forall i :: 0 <= i < |cmds| ==> cmds[i].DrawLine?
  {
    if |stroke.points| < 2 then []
    else StrokeSegments(stroke.points, stroke.color, stroke.width * Width(screen), screen)
  }

  /** RenderMarkupStrokes: the commands of every stroke, in order. */
  function MarkupCommands(strokes: seq<MarkupStroke>, screen: Rect): seq<DrawCommand>
  {
    if strokes == [] then []
    else MarkupCommands(strokes[..|strokes| - 1], screen) + StrokeCommands(strokes[|strokes| - 1], screen)
  }

  /** The number of segments a list of strokes yields: n - 1 for each stroke of n >= 2 points. */
  function SegmentCount(strokes: seq<MarkupStroke>): nat
  {
    if strokes == [] then 0
    else
      var n := |strokes[|strokes| - 1].points|;
      SegmentCount(strokes[..|strokes| - 1]) + (if n < 2 then 0 else n - 1)
  }

  lemma {:induction false} MarkupCommandsCount(strokes: seq<MarkupStroke>, screen: Rect)
    ensures |MarkupCommands(strokes, screen)| == SegmentCount(strokes)
  {
    if strokes != [] {
      MarkupCommandsCount(strokes[..|strokes| - 1], screen);
    }
  }

  /** Drawing two lists of strokes draws the first list, then the second. */
  lemma {:induction false} MarkupCommandsAppend(a: seq<MarkupStroke>, b: seq<MarkupStroke>, screen: Rect)
    ensures MarkupCommands(a + b, screen) == MarkupCommands(a, screen) + MarkupCommands(b, screen)
    decreases |b|
  {
    if b == [] {
      assert a + b == a;
    } else {
      var init, last := b[..|b| - 1], b[|b| - 1];
      assert (a + b)[..|a + b| - 1] == a + init && (a + b)[|a + b| - 1] == last;
      calc {
        MarkupCommands(a + b, screen);
        MarkupCommands(a + init, screen) + StrokeCommands(last, screen);
        { MarkupCommandsAppend(a, init, screen); }
        MarkupCommands(a, screen) + MarkupCommands(init, screen) + StrokeCommands(last, screen);
        MarkupCommands(a, screen) + MarkupCommands(b, screen);
      }
    }
  }

  /** Every markup command is a line; strokes with fewer than two points draw nothing. */
  lemma {:induction false} MarkupCommandsAreLines(strokes: seq<MarkupStroke>, screen: Rect)
    ensures forall c :: c in MarkupCommands(strokes, screen) ==> c.DrawLine?
  {
    if strokes != [] {
      MarkupCommandsAreLines(strokes[..|strokes| - 1], screen);
      var sc := StrokeCommands(strokes[|strokes| - 1], screen);
      assert forall c :: c in sc ==> c.DrawLine?;
    }
  }

  /**
   * The rectangle DrawBitmap receives: the image rectangle, or for a
   * quarter turn the same centre with width and height exchanged, so that
   * the rotation about the centre covers the image rectangle.
   */
  function BitmapDest(r: Rect, rotation: int): (d: Rect)
    ensures d.left + d.right == r.left + r.right && d.top + d.bottom == r.top + r.bottom
    ensures IsQuarterTurn(rotation) ==> Width(d) == Height(r) && Height(d) == Width(r)
    ensures !IsQuarterTurn(rotation) ==> d == r
  {
    if IsQuarterTurn(rotation) then
      var cx, cy := (r.left + r.right) / 2.0, (r.top + r.bottom) / 2.0;
      var w, h := Width(r), Height(r);
      Rect(cx - h / 2.0, cy - w / 2.0, cx + h / 2.0, cy + w / 2.0)
    else r
  }

  /** Everything the renderer keeps, as one value. */
  datatype RendererState = RendererState(
    image: Option<Bitmap>,
    width: int,
    height: int,
    zoom: real,
    panX: real,
    panY: real,
    rotation: int,
    cropMode: bool,
    cropRect: Rect,
    strokes: seq<MarkupStroke>,
    texts: seq<TextOverlay>)

  /** The viewport is never empty, the zoom stays within its limits and the rotation is a remainder of 360. */
  predicate ValidState(s: RendererState) {
    s.width > 0 && s.height > 0 && MinZoom <= s.zoom <= MaxZoom && -360 < s.rotation < 360
  }

  function ScreenRect(s: RendererState): Rect {
    ImageRect(s.image, s.rotation, s.width, s.height, s.zoom, s.panX, s.panY)
  }

  /**
   * Render: clear the background and, with an image, draw it, then the
   * markup strokes and the crop overlay over the image rectangle.
   */
  function Frame(s: RendererState): (cmds: seq<DrawCommand>)
    ensures |cmds| >= 1 && cmds[0] == Clear(Background)
    ensures s.image.None? ==> cmds == [Clear(Background)]
    ensures s.image.Some? ==> |cmds| >= 2 && cmds[1] == DrawBitmap(BitmapDest(ScreenRect(s), s.rotation), s.rotation)
  {
    if s.image.None? then [Clear(Background)]
    else
      var screen := ScreenRect(s);
      [Clear(Background), DrawBitmap(BitmapDest(screen, s.rotation), s.rotation)] +
        MarkupCommands(s.strokes, screen) + CropOverlay(s.cropMode, s.cropRect, s.width, s.height)
  }

  /** A frame draws the overlay last: with crop mode off it ends with the markup. */
  lemma FrameWithoutCrop(s: RendererState)
    requires s.image.Some? && !s.cropMode
    ensures Frame(s) == [Clear(Background), DrawBitmap(BitmapDest(ScreenRect(s), s.rotation), s.rotation)] +
                        MarkupCommands(s.strokes, ScreenRect(s))
  {
  }

  /**
   * The layout of a frame with an image: clear, bitmap, one line per stroke
   * segment, then the five crop-overlay commands in crop mode with a
   * non-empty rectangle, the white border last.
   */
  lemma FrameLayout(s: RendererState)
    requires s.image.Some?
    ensures var n := 2 + SegmentCount(s.strokes);
      |Frame(s)| == n + (if s.cropMode && !IsEmpty(s.cropRect) then 5 else 0) &&
      (forall i :: 2 <= i < n ==> Frame(s)[i].DrawLine?) &&
      (s.cropMode && !IsEmpty(s.cropRect) ==>
         Frame(s)[|Frame(s)| - 1] == DrawRectangle(s.cropRect, White, CropBorderWidth) &&
         forall i :: n <= i < n + 4 ==> Frame(s)[i].FillRectangle? && Frame(s)[i].color == CropDim)
  {
    var screen := ScreenRect(s);
    var head := [Clear(Background), DrawBitmap(BitmapDest(screen, s.rotation), s.rotation)];
    var m := MarkupCommands(s.strokes, screen);
    var o := CropOverlay(s.cropMode, s.cropRect, s.width, s.height);
    MarkupCommandsCount(s.strokes, screen);
    MarkupCommandsAreLines(s.strokes, screen);
    assert Frame(s) == head + m + o;
    forall i | 2 <= i < 2 + |m|
      ensures Frame(s)[i].DrawLine?
    {
      assert Frame(s)[i] == m[i - 2];
    }
    forall i | 2 + |m| <= i < |Frame(s)|
      ensures Frame(s)[i] == o[i - 2 - |m|]
    {
    }
  }

  /** ResetView: zoom 1, no pan. */
  function ViewReset(s: RendererState): (r: RendererState)
    ensures ValidState(s) ==> ValidState(r)
  {
    s.(zoom := 1.0, panX := 0.0, panY := 0.0)
  }

  /** AddPan: the pan accumulates. */
  function PannedBy(s: RendererState, dx: real, dy: real): RendererState {
    s.(panX := s.panX + dx, panY := s.panY + dy)
  }

  /** Two pans in a row are one pan by the summed distances. */
  lemma PannedByTwice(s: RendererState, dx1: real, dy1: real, dx2: real, dy2: real)
    ensures PannedBy(PannedBy(s, dx1, dy1), dx2, dy2) == PannedBy(s, dx1 + dx2, dy1 + dy2)
  {
  }

  /** SetZoom: the requested zoom, clamped into [MinZoom, MaxZoom]. */
  function Zoomed(s: RendererState, zoom: real): (r: RendererState)
    ensures MinZoom <= r.zoom <= MaxZoom
    ensures MinZoom <= zoom <= MaxZoom ==> r.zoom == zoom
    ensures ValidState(s) ==> ValidState(r)
  {
    s.(zoom := Clamp(zoom, MinZoom, MaxZoom))
  }

  /** Setting the zoom twice keeps only the second request. */
  lemma ZoomedTwice(s: RendererState, z1: real, z2: real)
    ensures Zoomed(Zoomed(s, z1), z2) == Zoomed(s, z2)
  {
  }

  /** SetCropMode: leaving crop mode forgets the selection; entering keeps it. */
  function CropModeSet(s: RendererState, enabled: bool): (r: RendererState)
    ensures r.cropMode == enabled
    ensures !enabled ==> r.cropRect == ZeroRect
    ensures enabled ==> r.cropRect == s.cropRect
  {
    if enabled then s.(cropMode := true) else s.(cropMode := false, cropRect := ZeroRect)
  }

  /** After leaving crop mode the overlay draws nothing. */
  lemma NoOverlayOutsideCropMode(s: RendererState)
    ensures CropOverlay(CropModeSet(s, false).cropMode, CropModeSet(s, false).cropRect, s.width, s.height) == []
  {
  }

  class Renderer {
    var image: Option<Bitmap>
    var width: int
    var height: int
    var zoom: real
    var panX: real
    var panY: real
    var rotation: int
    var cropMode: bool
    var cropRect: Rect
    var strokes: seq<MarkupStroke>
    var texts: seq<TextOverlay>

    function State(): RendererState
      reads this
    {
      RendererState(image, width, height, zoom, panX, panY, rotation, cropMode, cropRect, strokes, texts)
    }

    ghost predicate Valid()
      reads this
    {
      ValidState(State())
    }

    /** The renderer after Initialize with a client area of width by height. */
    constructor(clientWidth: int, clientHeight: int)
      requires clientWidth > 0 && clientHeight > 0
      ensures Valid()
      ensures State() == RendererState(None, clientWidth, clientHeight, 1.0, 0.0, 0.0, 0, false, ZeroRect, [], [])
    {
      image := None;
      width, height := clientWidth, clientHeight;
      zoom, panX, panY := 1.0, 0.0, 0.0;
      rotation := 0;
      cropMode := false;
      cropRect := ZeroRect;
      strokes, texts := [], [];
    }

    /** Resize: a positive size that differs from the current one is recorded. */
    method Resize(w: int, h: int)
      requires Valid()
      modifies this
      ensures Valid()
      ensures w <= 0 || h <= 0 ==> State() == old(State())
      ensures w > 0 && h > 0 ==> State() == old(State()).(width := w, height := h)
    {
      if w <= 0 || h <= 0 {
        return;
      }
      if w == width && h == height {
        return;
      }
      width, height := w, h;
    }

    /** SetImage: show a new image (possibly a null bitmap) with the view reset. */
    method SetImage(b: Option<Bitmap>)
      requires Valid()
      modifies this
      ensures Valid()
      ensures State() == ViewReset(old(State())).(image := b)
    {
      image := b;
      ResetView();
    }

    method ClearImage()
      requires Valid()
      modifies this
      ensures Valid()
      ensures State() == old(State()).(image := None)
    {
      image := None;
    }

    method SetZoom(z: real)
      requires Valid()
      modifies this
      ensures Valid()
      ensures State() == Zoomed(old(State()), z)
    {
      zoom := Clamp(z, MinZoom, MaxZoom);
    }

    method SetPan(x: real, y: real)
      requires Valid()
      modifies this
      ensures Valid()
      ensures State() == old(State()).(panX := x, panY := y)
    {
      panX, panY := x, y;
    }

    method AddPan(dx: real, dy: real)
      requires Valid()
      modifies this
      ensures Valid()
      ensures State() == PannedBy(old(State()), dx, dy)
    {
      panX := panX + dx;
      panY := panY + dy;
    }

    method ResetView()
      requires Valid()
      modifies this
      ensures Valid()
      ensures State() == ViewReset(old(State()))
    {
      zoom, panX, panY := 1.0, 0.0, 0.0;
    }

    /** SetRotation: the C++ remainder of the degrees by 360. */
    method SetRotation(degrees: int)
      requires Valid()
      modifies this
      ensures Valid()
      ensures State() == old(State()).(rotation := CppRem360(degrees))
      ensures 0 <= degrees ==> rotation == degrees % 360
    {
      rotation := CppRem360(degrees);
    }

    method SetCropMode(enabled: bool)
      requires Valid()
      modifies this
      ensures Valid()
      ensures State() == CropModeSet(old(State()), enabled)
    {
      cropMode := enabled;
      if !enabled {
        cropRect := ZeroRect;
      }
    }

    method SetCropRect(r: Rect)
      requires Valid()
      modifies this
      ensures Valid()
      ensures State() == old(State()).(cropRect := r)
    {
      cropRect := r;
    }

    method SetMarkupStrokes(s: seq<MarkupStroke>)
      requires Valid()
      modifies this
      ensures Valid()
      ensures State() == old(State()).(strokes := s)
    {
      strokes := s;
    }

    method SetTextOverlays(t: seq<TextOverlay>)
      requires Valid()
      modifies this
      ensures Valid()
      ensures State() == old(State()).(texts := t)
    {
      texts := t;
    }

    /** GetScreenImageRect. */
    function ScreenImageRect(): Rect
      reads this
    {
      ScreenRect(State())
    }

    /** GetCropRectInImageCoords. */
    function CropRectInImageCoords(): (r: Rect)
      reads this
      requires Valid()
      ensures image.None? ==> r == ZeroRect
      ensures image.Some? ==> 0.0 <= r.left <= image.value.width as real && 0.0 <= r.top <= image.value.height as real
      ensures image.Some? ==> 0.0 <= r.right <= image.value.width as real && 0.0 <= r.bottom <= image.value.height as real
    {
      CropRectInImage(image, rotation, width, height, zoom, panX, panY, cropRect)
    }
  }
}
