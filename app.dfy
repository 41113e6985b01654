/**
 * App: the viewer's interaction and edit state (rotation, edit mode, crop
 * drag, applied crop, markup strokes, text overlays, drawing and panning),
 * the transitions the keyboard and mouse handlers make on it, and the
 * format decisions taken when an edited image is written out. The window,
 * the file dialogs, the clipboard and the WIC encoder are not modelled;
 * their outcomes are inputs.
 */
module App {

  import Wrappers
  import opened Geometry
  import opened Paths
  import opened ImageLoader
  import ImageCache
  import FolderNavigator
  import R = Renderer

  /** The edit modes; Erase has no mouse behaviour of its own and pans like None. */
  datatype EditMode = None | Crop | Markup | Text | Erase

  const MarkupStrokeWidth: real := 3.0
  const TextFontSize: real := 24.0
  const DefaultText: string := "Text"

  // ---------------------------------------------------------------- rotation

  predicate IsQuarterTurnAngle(r: int) { r == 0 || r == 90 || r == 180 || r == 270 }

  /** RotateCW: (rotation + 90) % 360. */
  function RotatedCW(rotation: int): (r: int)
    ensures IsQuarterTurnAngle(rotation) ==> IsQuarterTurnAngle(r)
  {
    CppRem360(rotation + 90)
  }

  /** RotateCCW: (rotation + 270) % 360. */
  function RotatedCCW(rotation: int): (r: int)
    ensures IsQuarterTurnAngle(rotation) ==> IsQuarterTurnAngle(r)
  {
    CppRem360(rotation + 270)
  }

  /** Four clockwise turns come back to the start. */
  lemma FourTurnsIdentity(rotation: int)
    requires IsQuarterTurnAngle(rotation)
    ensures RotatedCW(RotatedCW(RotatedCW(RotatedCW(rotation)))) == rotation
  {
  }

  /** A clockwise turn followed by a counter-clockwise turn, or the reverse, changes nothing. */
  lemma TurnsCancel(rotation: int)
    requires 0 <= rotation < 360
    ensures RotatedCCW(RotatedCW(rotation)) == rotation
    ensures RotatedCW(RotatedCCW(rotation)) == rotation
  {
    var a := RotatedCW(rotation);
    assert a == (rotation + 90) % 360;
    assert RotatedCCW(a) == (a + 270) % 360 == (rotation + 360) % 360;
    var b := RotatedCCW(rotation);
    assert b == (rotation + 270) % 360;
    assert RotatedCW(b) == (b + 90) % 360 == (rotation + 360) % 360;
  }

  // ------------------------------------------------------------- edit modes

  /** The Toggle*Mode rule: the active mode switches off, any other mode switches on directly. */
  function Toggled(mode: EditMode, target: EditMode): (r: EditMode)
    ensures mode == target ==> r == None
    ensures mode != target ==> r == target
  {
    if mode == target then None else target
  }

  /** Toggling the same mode twice from None comes back to None; from another mode it lands on None too. */
  lemma ToggledTwice(mode: EditMode, target: EditMode)
    requires target != None
    ensures Toggled(Toggled(mode, target), target) == if mode == target then target else None
  {
  }

  // ------------------------------------------------------------- mouse input

  /** The crop selection spanned by the drag start and end, in either drag direction. */
  function SelectionRect(startX: int, startY: int, endX: int, endY: int): (r: Rect)
    ensures r.left <= r.right && r.top <= r.bottom
    ensures Contains(r, startX as real, startY as real) && Contains(r, endX as real, endY as real)
    ensures r.left == startX as real || r.left == endX as real
    ensures r.right == startX as real || r.right == endX as real
    ensures r.top == startY as real || r.top == endY as real
    ensures r.bottom == startY as real || r.bottom == endY as real
  {
    Rect(MinInt(startX, endX) as real, MinInt(startY, endY) as real,
         MaxInt(startX, endX) as real, MaxInt(startY, endY) as real)
  }

  /** Dragging from either corner selects the same rectangle. */
  lemma SelectionRectSymmetric(startX: int, startY: int, endX: int, endY: int)
    ensures SelectionRect(startX, startY, endX, endY) == SelectionRect(endX, endY, startX, startY)
  {
  }

  /** A point appended to the last stroke; the other strokes are untouched. */
  function WithPointAdded(strokes: seq<R.MarkupStroke>, p: Point): (r: seq<R.MarkupStroke>)
    requires strokes != []
    ensures |r| == |strokes| && r[..|r| - 1] == strokes[..|strokes| - 1]
    ensures r[|r| - 1].points == strokes[|strokes| - 1].points + [p]
    ensures r[|r| - 1].color == strokes[|strokes| - 1].color && r[|r| - 1].width == strokes[|strokes| - 1].width
  {
    var last := strokes[|strokes| - 1];
    strokes[..|strokes| - 1] + [last.(points := last.points + [p])]
  }

  // --------------------------------------------------------------- cropping

  /**
   * The guards and truncations of ApplyCrop: a non-empty selection whose
   * truncated width and height are positive becomes an integer rectangle.
   */
  function CropRegion(crop: Rect): (r: Wrappers.Option<IntRect>)
    ensures r.Some? ==> !IsEmpty(crop) && r.value.width > 0 && r.value.height > 0
    ensures r.Some? && 0.0 <= crop.left && 0.0 <= crop.top ==>
      0 <= r.value.x && r.value.x as real <= crop.left && (r.value.x + r.value.width) as real <= crop.right &&
      0 <= r.value.y && r.value.y as real <= crop.top && (r.value.y + r.value.height) as real <= crop.bottom
    ensures r.None? <==> IsEmpty(crop) || Trunc(crop.right - crop.left) <= 0 || Trunc(crop.bottom - crop.top) <= 0
  {
    if IsEmpty(crop) then Wrappers.None
    else
      var w := Trunc(crop.right - crop.left);
      var h := Trunc(crop.bottom - crop.top);
      if w <= 0 || h <= 0 then Wrappers.None
      else Wrappers.Some(IntRect(Trunc(crop.left), Trunc(crop.top), w, h))
  }

  /** A selection at least one pixel wide and high inside the image always yields a crop. */
  lemma CropRegionOfPixelSelection(crop: Rect)
    requires crop.right - crop.left >= 1.0 && crop.bottom - crop.top >= 1.0
    ensures CropRegion(crop).Some?
  {
  }

  /** A selection less than a pixel wide is rejected. */
  lemma CropRegionRejectsSliver(crop: Rect)
    requires 0.0 < crop.right - crop.left < 1.0
    ensures CropRegion(crop).None?
  {
  }

  /** A selection inside the image yields a crop that lies inside the image's pixels. */
  lemma CropRegionWithin(crop: Rect, image: Bitmap)
    requires 0.0 <= crop.left <= image.width as real && 0.0 <= crop.top <= image.height as real
    requires 0.0 <= crop.right <= image.width as real && 0.0 <= crop.bottom <= image.height as real
    ensures CropRegion(crop).Some? ==>
      var c := CropRegion(crop).value;
      0 <= c.x && c.x + c.width <= image.width && 0 <= c.y && c.y + c.height <= image.height
  {
  }

  // ------------------------------------------------------------------ export

  datatype ContainerFormat = Jpeg | Bmp | Png

  datatype PixelFormat = Bgr24 | Bgra32

  /** The container chosen by extension: JPEG for .jpg/.jpeg, BMP for .bmp, PNG for anything else. */
  function ContainerFormatFor(filePath: Path): (c: ContainerFormat)
    ensures c == Jpeg <==> Lower(Extension(filePath)) in {".jpg", ".jpeg"}
    ensures c == Bmp <==> Lower(Extension(filePath)) == ".bmp"
  {
    var ext := Lower(Extension(filePath));
    if ext == ".jpg" || ext == ".jpeg" then Jpeg
    else if ext == ".bmp" then Bmp
    else Png
  }

  /** The choice does not depend on letter case. */
  lemma ContainerFormatIgnoresCase(p: Path, q: Path)
    requires Lower(p) == Lower(q)
    ensures ContainerFormatFor(p) == ContainerFormatFor(q)
  {
    ExtensionLower(p);
    ExtensionLower(q);
  }

  /** A file without an extension is written as PNG. */
  lemma NoExtensionIsPng(p: Path)
    requires Extension(p) == ""
    ensures ContainerFormatFor(p) == Png
  {
  }

  /** 32bpp BGRA whenever there is markup or text, otherwise 24bpp for JPEG and BMP and 32bpp for PNG. */
  function PixelFormatFor(c: ContainerFormat, hasOverlays: bool): (f: PixelFormat)
    ensures f.Bgr24? <==> !hasOverlays && !c.Png?
  {
    if hasOverlays then Bgra32
    else if c == Jpeg || c == Bmp then Bgr24
    else Bgra32
  }

  function BytesPerPixel(f: PixelFormat): (n: nat)
    ensures n == 3 || n == 4
    ensures n == 4 <==> f == Bgra32
  {
    if f == Bgra32 then 4 else 3
  }

  const Two32: int := 0x1_0000_0000

  /** An unsigned 32-bit value (UINT). */
  type UInt32 = n: int | 0 <= n < 0x1_0000_0000

  /**
   * The row stride ((width * bpp) + 3) & ~3, computed in 32-bit unsigned
   * arithmetic: the sum wraps modulo 2^32 and & ~3 clears the two low bits.
   */
  function Stride(width: UInt32, bpp: nat): (s: UInt32)
    requires bpp == 3 || bpp == 4
  {
    var t := ((width * bpp) % Two32 + 3) % Two32;
    t - t % 4
  }

  /**
   * The stride is DWORD-aligned and, unless width * bpp + 3 overflows 32
   * bits, is the smallest multiple of 4 not below width * bpp.
   */
  lemma StrideAligned(width: UInt32, bpp: nat)
    requires bpp == 3 || bpp == 4
    ensures Stride(width, bpp) % 4 == 0
    ensures width * bpp + 3 < Two32 ==>
      width * bpp <= Stride(width, bpp) < width * bpp + 4
  {
    var t := ((width * bpp) % Two32 + 3) % Two32;
    assert (t - t % 4) % 4 == 0;
    if width * bpp + 3 < Two32 {
      assert (width * bpp) % Two32 == width * bpp;
      assert t == width * bpp + 3;
    }
  }

  /**
   * The 32-bit arithmetic gives a zero stride exactly when width * bpp is 0
   * modulo 2^32 or lies within 3 below a multiple of 2^32, where adding 3
   * wraps past zero.
   */
  lemma StrideWraps(width: UInt32, bpp: nat)
    requires bpp == 3 || bpp == 4
    ensures Stride(width, bpp) == 0 <==>
      (width * bpp) % Two32 == 0 || (width * bpp) % Two32 >= Two32 - 3
  {
    var m := (width * bpp) % Two32;
    var t := (m + 3) % Two32;
    if m + 3 < Two32 {
      assert t == m + 3;
    } else {
      assert t == m + 3 - Two32;
    }
  }

  /** The file SaveImage writes first: "~temp_" and the filename, in the same folder. */
  function TempPath(filePath: Path): (t: Path)
    ensures |t| >= |ParentPath(filePath)| && t[..|ParentPath(filePath)|] == ParentPath(filePath)
  {
    var name := "~temp_" + Filename(filePath);
    assert RootName(name) == [] && !HasRootDirectory(name) by {
      assert name[0] == '~' && name[1] == 't';
    }
    Join(ParentPath(filePath), name)
  }

  /** The temporary file's name is the original's with the "~temp_" prefix. */
  lemma TempPathFilename(filePath: Path)
    ensures Filename(TempPath(filePath)) == "~temp_" + Filename(filePath)
  {
    var name := "~temp_" + Filename(filePath);
    forall k | 0 <= k < |name| ensures !IsSeparator(name[k]) {
      if k >= 6 {
        assert name[k] == Filename(filePath)[k - 6];
      }
    }
    PlainNameOfJoin(ParentPath(filePath), name);
  }

  /**
   * SaveImageToFile chooses the encoder from the temporary path. When the
   * image's filename has an extension, the temporary file has the same one,
   * so the image is written in the container its own name calls for.
   */
  lemma TempPathKeepsExtension(filePath: Path)
    requires Extension(filePath) != ""
    ensures Extension(TempPath(filePath)) == Extension(filePath)
    ensures ContainerFormatFor(TempPath(filePath)) == ContainerFormatFor(filePath)
  {
    TempPathFilename(filePath);
    ExtensionAfterPrefix("~temp_", Filename(filePath));
  }

  /**
   * A dot file, whose filename's only period is its first character, has no
   * extension; its temporary file "~temp_" + filename has the whole filename
   * as its extension.
   */
  lemma TempPathOfDotFile(filePath: Path)
    requires |Filename(filePath)| >= 2 && Filename(filePath)[0] == '.'
    requires forall j :: 1 <= j < |Filename(filePath)| ==> Filename(filePath)[j] != '.'
    ensures Extension(filePath) == ""
    ensures Extension(TempPath(filePath)) == Filename(filePath)
  {
    LeadingPeriodOnly(filePath);
    TempPathFilename(filePath);
    var f := Filename(filePath);
    var t := "~temp_" + f;
    assert t[|t| - |f|..] == f;
    ExtensionOfSuffix(t, f);
  }

  /** The filename of "photos\\.jpg" is the dot file ".jpg". */
  lemma DotFileName()
    ensures Filename("photos\\.jpg") == ".jpg"
  {
    var name := ".jpg";
    assert NoSeparator(name);
    assert "photos\\.jpg" == "photos" + ['\\'] + name;
    FilenameAfterSeparator("photos", '\\', name);
  }

  /**
   * So a file named ".jpg", such as "photos\\.jpg", would be saved as PNG by
   * its own name, but is written as JPEG through "~temp_.jpg".
   */
  lemma DotFileSavedAsJpeg(filePath: Path)
    requires Filename(filePath) == ".jpg"
    ensures ContainerFormatFor(filePath) == Png
    ensures ContainerFormatFor(TempPath(filePath)) == Jpeg
  {
    var f := Filename(filePath);
    assert Extension(filePath) == "" && Extension(TempPath(filePath)) == f by {
      assert f[1] != '.' && f[2] != '.' && f[3] != '.';
      TempPathOfDotFile(filePath);
    }
    JpgIsLowerCase();
  }

  /** ".jpg" holds no upper-case letter, so lower-casing keeps it. */
  lemma JpgIsLowerCase()
    ensures Lower(".jpg") == ".jpg"
  {
    LowerKeepsLowerCase(".jpg");
  }

  /** The encoder settings SaveImageToFile derives from the target path and the overlays. */
  datatype ExportFormat = ExportFormat(container: ContainerFormat, pixels: PixelFormat)

  function ExportFormatFor(filePath: Path, strokes: seq<R.MarkupStroke>, texts: seq<R.TextOverlay>): (e: ExportFormat)
    ensures e.container == ContainerFormatFor(filePath)
    ensures e.pixels == Bgra32 <==> strokes != [] || texts != [] || e.container == Png
  {
    var c := ContainerFormatFor(filePath);
    ExportFormat(c, PixelFormatFor(c, strokes != [] || texts != []))
  }

  // ------------------------------------------------------------------- state

  /** The App's own fields, as one value. */
  datatype AppState = AppState(
    currentImage: Wrappers.Option<ImageData>,
    rotation: int,
    editMode: EditMode,
    isCropDragging: bool,
    cropStartX: int, cropStartY: int, cropEndX: int, cropEndY: int,
    hasCrop: bool,
    appliedCrop: IntRect,
    markupStrokes: seq<R.MarkupStroke>,
    textOverlays: seq<R.TextOverlay>,
    isDrawing: bool,
    isPanning: bool,
    lastMouseX: int, lastMouseY: int)

  /** The state a load or a save leaves behind: no rotation, no crop, no markup, no text. */
  predicate EditsCleared(s: AppState) {
    s.rotation == 0 && !s.hasCrop && s.appliedCrop == ZeroIntRect && s.markupStrokes == [] && s.textOverlays == []
  }

  class App {
    const renderer: R.Renderer
    const navigator: FolderNavigator.Navigator
    const cache: ImageCache.Cache

    var currentImage: Wrappers.Option<ImageData>
    var rotation: int
    var editMode: EditMode
    var isCropDragging: bool
    var cropStartX: int
    var cropStartY: int
    var cropEndX: int
    var cropEndY: int
    var hasCrop: bool
    var appliedCrop: IntRect
    var markupStrokes: seq<R.MarkupStroke>
    var textOverlays: seq<R.TextOverlay>
    var isDrawing: bool
    var isPanning: bool
    var lastMouseX: int
    var lastMouseY: int

    function State(): AppState
      reads this
    {
      AppState(currentImage, rotation, editMode, isCropDragging, cropStartX, cropStartY, cropEndX, cropEndY,
               hasCrop, appliedCrop, markupStrokes, textOverlays, isDrawing, isPanning, lastMouseX, lastMouseY)
    }

    /**
     * The rotation is a quarter turn and the renderer shows the same one, and
     * an applied crop always has a positive size.
     */
    ghost predicate Valid()
      reads this, renderer
    {
      renderer.Valid() &&
      IsQuarterTurnAngle(rotation) && renderer.rotation == rotation &&
      (hasCrop ==> appliedCrop.width > 0 && appliedCrop.height > 0)
    }

    constructor(r: R.Renderer, n: FolderNavigator.Navigator, c: ImageCache.Cache)
      requires r.Valid() && r.rotation == 0
      ensures Valid()
      ensures renderer == r && navigator == n && cache == c
      ensures State() == AppState(Wrappers.None, 0, None, false, 0, 0, 0, 0, false, ZeroIntRect, [], [], false, false, 0, 0)
    {
      renderer, navigator, cache := r, n, c;
      currentImage := Wrappers.None;
      rotation := 0;
      editMode := None;
      isCropDragging := false;
      cropStartX, cropStartY, cropEndX, cropEndY := 0, 0, 0, 0;
      hasCrop := false;
      appliedCrop := ZeroIntRect;
      markupStrokes, textOverlays := [], [];
      isDrawing, isPanning := false, false;
      lastMouseX, lastMouseY := 0, 0;
    }

    method RotateCW()
      requires Valid()
      modifies this, renderer
      ensures Valid()
      ensures State() == old(State()).(rotation := RotatedCW(old(rotation)))
      ensures renderer.State() == old(renderer.State()).(rotation := rotation)
    {
      rotation := RotatedCW(rotation);
      renderer.SetRotation(rotation);
    }

    method RotateCCW()
      requires Valid()
      modifies this, renderer
      ensures Valid()
      ensures State() == old(State()).(rotation := RotatedCCW(old(rotation)))
      ensures renderer.State() == old(renderer.State()).(rotation := rotation)
    {
      rotation := RotatedCCW(rotation);
      renderer.SetRotation(rotation);
    }

    /** ToggleCropMode: entering Crop also abandons any drag; the renderer's crop mode follows. */
    method ToggleCropMode()
      requires Valid()
      modifies this, renderer
      ensures Valid()
      ensures old(editMode) == Crop ==> State() == old(State()).(editMode := None)
      ensures old(editMode) != Crop ==> State() == old(State()).(editMode := Crop, isCropDragging := false)
      ensures renderer.State() == R.CropModeSet(old(renderer.State()), editMode == Crop)
    {
      if editMode == Crop {
        editMode := None;
      } else {
        editMode := Crop;
        isCropDragging := false;
      }
      renderer.SetCropMode(editMode == Crop);
    }

    /** ToggleMarkupMode: only the mode changes; leaving Crop this way leaves the renderer's crop mode on. */
    method ToggleMarkupMode()
      requires Valid()
      modifies this
      ensures Valid()
      ensures State() == old(State()).(editMode := Toggled(old(editMode), Markup))
    {
      ghost var r0 := renderer.State();
      if editMode == Markup {
        editMode := None;
      } else {
        editMode := Markup;
      }
      assert renderer.State() == r0;
    }

    /** ToggleTextMode: only the mode changes. */
    method ToggleTextMode()
      requires Valid()
      modifies this
      ensures Valid()
      ensures State() == old(State()).(editMode := Toggled(old(editMode), Text))
    {
      ghost var r0 := renderer.State();
      if editMode == Text {
        editMode := None;
      } else {
        editMode := Text;
      }
      assert renderer.State() == r0;
    }

    /** CancelCurrentMode: back to None, no drag, and the renderer leaves crop mode with an empty selection. */
    method CancelCurrentMode()
      requires Valid()
      modifies this, renderer
      ensures Valid()
      ensures State() == old(State()).(editMode := None, isCropDragging := false)
      ensures renderer.State() == old(renderer.State()).(cropMode := false, cropRect := ZeroRect)
    {
      editMode := None;
      isCropDragging := false;
      renderer.SetCropMode(false);
      renderer.SetCropRect(ZeroRect);
    }

    /** UpdateRendererMarkup: hand a stroke-by-stroke copy of the markup to the renderer. */
    method UpdateRendererMarkup()
      requires Valid()
      modifies renderer
      ensures Valid()
      ensures renderer.State() == old(renderer.State()).(strokes := markupStrokes)
    {
      var rendererStrokes: seq<R.MarkupStroke> := [];
      for i := 0 to |markupStrokes|
        invariant rendererStrokes == markupStrokes[..i]
      {
        var stroke := markupStrokes[i];
        rendererStrokes := rendererStrokes + [R.MarkupStroke(stroke.points, stroke.color, stroke.width)];
      }
      assert markupStrokes[..|markupStrokes|] == markupStrokes;
      renderer.SetMarkupStrokes(rendererStrokes);
    }

    /** The crop branch of OnMouseDown: a drag starts and ends at (x, y). */
    method StartCropDrag(x: int, y: int)
      requires Valid()
      modifies this
      ensures Valid()
      ensures State() == old(State()).(isCropDragging := true, cropStartX := x, cropStartY := y, cropEndX := x, cropEndY := y)
    {
      ghost var r0 := renderer.State();
      isCropDragging := true;
      cropStartX, cropStartY := x, y;
      cropEndX, cropEndY := x, y;
      assert renderer.State() == r0;
    }

    /** The markup branch of OnMouseDown: a one-point red stroke starts at (x, y). */
    method StartStroke(x: int, y: int)
      requires Valid()
      modifies this, renderer
      ensures Valid()
      ensures State() == old(State()).(isDrawing := true,
        markupStrokes := old(markupStrokes) + [R.MarkupStroke([Point(x as real, y as real)], Red, MarkupStrokeWidth)])
      ensures renderer.State() == old(renderer.State()).(strokes := markupStrokes)
    {
      isDrawing := true;
      var stroke := R.MarkupStroke([Point(x as real, y as real)], Red, MarkupStrokeWidth);
      markupStrokes := markupStrokes + [stroke];
      UpdateRendererMarkup();
    }

    /** The text branch of OnMouseDown: a white "Text" overlay is placed at (x, y). */
    method PlaceText(x: int, y: int)
      requires Valid()
      modifies this
      ensures Valid()
      ensures State() == old(State()).(textOverlays := old(textOverlays) + [R.TextOverlay(DefaultText, x as real, y as real, White, TextFontSize)])
    {
      var text := R.TextOverlay(DefaultText, x as real, y as real, White, TextFontSize);
      ghost var r0 := renderer.State();
      textOverlays := textOverlays + [text];
      assert renderer.State() == r0;
    }

    /** The remaining branch of OnMouseDown: a pan starts from (x, y). */
    method StartPan(x: int, y: int)
      requires Valid()
      modifies this
      ensures Valid()
      ensures State() == old(State()).(isPanning := true, lastMouseX := x, lastMouseY := y)
    {
      ghost var r0 := renderer.State();
      isPanning := true;
      lastMouseX, lastMouseY := x, y;
      assert renderer.State() == r0;
    }

    /**
     * OnMouseDown: Crop starts a drag at (x, y); Markup starts a one-point red
     * stroke; Text drops a "Text" overlay at (x, y); None and Erase start a pan.
     */
    method OnMouseDown(x: int, y: int)
      requires Valid()
      modifies this, renderer
      ensures Valid()
      ensures old(editMode) == Crop ==>
        State() == old(State()).(isCropDragging := true, cropStartX := x, cropStartY := y, cropEndX := x, cropEndY := y) &&
        renderer.State() == old(renderer.State())
      ensures old(editMode) == Markup ==>
        State() == old(State()).(isDrawing := true,
          markupStrokes := old(markupStrokes) + [R.MarkupStroke([Point(x as real, y as real)], Red, MarkupStrokeWidth)]) &&
        renderer.State() == old(renderer.State()).(strokes := markupStrokes)
      ensures old(editMode) == Text ==>
        State() == old(State()).(textOverlays := old(textOverlays) + [R.TextOverlay(DefaultText, x as real, y as real, White, TextFontSize)]) &&
        renderer.State() == old(renderer.State())
      ensures old(editMode) in {None, Erase} ==>
        State() == old(State()).(isPanning := true, lastMouseX := x, lastMouseY := y) &&
        renderer.State() == old(renderer.State())
    {
      if editMode == Crop {
        StartCropDrag(x, y);
      } else if editMode == Markup {
        StartStroke(x, y);
      } else if editMode == Text {
        PlaceText(x, y);
      } else {
        StartPan(x, y);
      }
    }

    /** OnMouseUp: ends the crop drag, else the stroke, else the pan; exactly one flag is cleared. */
    method OnMouseUp(x: int, y: int)
      requires Valid()
      modifies this
      ensures Valid()
      ensures old(isCropDragging) ==> State() == old(State()).(isCropDragging := false)
      ensures !old(isCropDragging) && old(isDrawing) ==> State() == old(State()).(isDrawing := false)
      ensures !old(isCropDragging) && !old(isDrawing) ==> State() == old(State()).(isPanning := false)
    {
      ghost var r0 := renderer.State();
      if isCropDragging {
        isCropDragging := false;
      } else if isDrawing {
        isDrawing := false;
      } else {
        isPanning := false;
      }
      assert renderer.State() == r0;
    }

    /** The crop-drag branch of OnMouseMove: the drag ends at (x, y) and the renderer shows the new selection. */
    method ExtendCropDrag(x: int, y: int)
      requires Valid()
      modifies this, renderer
      ensures Valid()
      ensures State() == old(State()).(cropEndX := x, cropEndY := y)
      ensures renderer.State() == old(renderer.State()).(cropRect := SelectionRect(cropStartX, cropStartY, x, y))
    {
      cropEndX, cropEndY := x, y;
      renderer.SetCropRect(SelectionRect(cropStartX, cropStartY, cropEndX, cropEndY));
    }

    /** The drawing branch of OnMouseMove: the stroke in progress gains (x, y). */
    method ExtendStroke(x: int, y: int)
      requires Valid() && markupStrokes != []
      modifies this, renderer
      ensures Valid()
      ensures State() == old(State()).(markupStrokes := WithPointAdded(old(markupStrokes), Point(x as real, y as real)))
      ensures renderer.State() == old(renderer.State()).(strokes := markupStrokes)
    {
      markupStrokes := WithPointAdded(markupStrokes, Point(x as real, y as real));
      UpdateRendererMarkup();
    }

    /** The panning branch of OnMouseMove: the view moves by the mouse delta. */
    method PanTo(x: int, y: int)
      requires Valid()
      modifies this, renderer
      ensures Valid()
      ensures State() == old(State()).(lastMouseX := x, lastMouseY := y)
      ensures renderer.State() == R.PannedBy(old(renderer.State()), (x - old(lastMouseX)) as real, (y - old(lastMouseY)) as real)
    {
      var dx := (x - lastMouseX) as real;
      var dy := (y - lastMouseY) as real;
      renderer.AddPan(dx, dy);
      lastMouseX, lastMouseY := x, y;
    }

    /**
     * OnMouseMove: a crop drag moves its end and reselects; a stroke in
     * progress gains a point; a pan moves the view by the mouse delta.
     */
    method OnMouseMove(x: int, y: int)
      requires Valid()
      modifies this, renderer
      ensures Valid()
      ensures old(isCropDragging) ==>
        State() == old(State()).(cropEndX := x, cropEndY := y) &&
        renderer.State() == old(renderer.State()).(cropRect := SelectionRect(cropStartX, cropStartY, x, y))
      ensures !old(isCropDragging) && old(isDrawing) && old(markupStrokes) != [] ==>
        State() == old(State()).(markupStrokes := WithPointAdded(old(markupStrokes), Point(x as real, y as real))) &&
        renderer.State() == old(renderer.State()).(strokes := markupStrokes)
      ensures !old(isCropDragging) && !(old(isDrawing) && old(markupStrokes) != []) && old(isPanning) ==>
        State() == old(State()).(lastMouseX := x, lastMouseY := y) &&
        renderer.State() == R.PannedBy(old(renderer.State()), (x - old(lastMouseX)) as real, (y - old(lastMouseY)) as real)
      ensures !old(isCropDragging) && !(old(isDrawing) && old(markupStrokes) != []) && !old(isPanning) ==>
        State() == old(State()) && renderer.State() == old(renderer.State())
    {
      if isCropDragging {
        ExtendCropDrag(x, y);
      } else if isDrawing && markupStrokes != [] {
        ExtendStroke(x, y);
      } else if isPanning {
        PanTo(x, y);
      }
    }

    /** The first half of a successful ApplyCrop: the region becomes the applied crop. */
    method RecordCrop(region: IntRect)
      requires Valid() && region.width > 0 && region.height > 0
      modifies this
      ensures Valid()
      ensures State() == old(State()).(hasCrop := true, appliedCrop := region)
    {
      ghost var r0 := renderer.State();
      hasCrop := true;
      appliedCrop := region;
      assert renderer.State() == r0;
    }

    /**
     * The second half of a successful ApplyCrop: a bitmap of the region's size
     * replaces the image, the view is reset and the mode is cancelled.
     */
    method ShowCropped(region: IntRect)
      requires Valid() && currentImage.Some? && region.width > 0 && region.height > 0
      modifies this, renderer
      ensures Valid()
      ensures var img := Bitmap(region.width, region.height);
        State() == old(State()).(editMode := None, isCropDragging := false,
          currentImage := Wrappers.Some(old(currentImage).value.(bitmap := Wrappers.Some(img),
            width := region.width, height := region.height)))
      ensures renderer.State() ==
        R.ViewReset(old(renderer.State())).(image := Wrappers.Some(Bitmap(region.width, region.height)), cropMode := false, cropRect := ZeroRect)
    {
      var cropped := Bitmap(region.width, region.height);
      currentImage := Wrappers.Some(currentImage.value.(bitmap := Wrappers.Some(cropped), width := region.width, height := region.height));
      renderer.SetImage(Wrappers.Some(cropped));
      CancelCurrentMode();
    }

    /**
     * ApplyCrop: in Crop mode with an image, a selection that truncates to a
     * positive size is recorded as the applied crop (even when creating the
     * cropped bitmap then fails); on success the cropped bitmap replaces the
     * image and the mode is cancelled.
     */
    method ApplyCrop(bitmapCreated: bool)
      requires Valid()
      modifies this, renderer
      ensures Valid()
      ensures var region := CropRegion(old(renderer.CropRectInImageCoords()));
        old(editMode) != Crop || old(currentImage).None? || region.None? ==>
          State() == old(State()) && renderer.State() == old(renderer.State())
      ensures var region := CropRegion(old(renderer.CropRectInImageCoords()));
        old(editMode) == Crop && old(currentImage).Some? && region.Some? && !bitmapCreated ==>
          State() == old(State()).(hasCrop := true, appliedCrop := region.value) &&
          renderer.State() == old(renderer.State())
      ensures var region := CropRegion(old(renderer.CropRectInImageCoords()));
        old(editMode) == Crop && old(currentImage).Some? && region.Some? && bitmapCreated ==>
          var img := Bitmap(region.value.width, region.value.height);
          State() == old(State()).(hasCrop := true, appliedCrop := region.value, editMode := None, isCropDragging := false,
            currentImage := Wrappers.Some(old(currentImage).value.(bitmap := Wrappers.Some(img),
              width := region.value.width, height := region.value.height))) &&
          renderer.State() == R.ViewReset(old(renderer.State())).(image := Wrappers.Some(img), cropMode := false, cropRect := ZeroRect)
      ensures old(renderer.image).Some? && hasCrop && !old(hasCrop) ==>
        0 <= appliedCrop.x && appliedCrop.x + appliedCrop.width <= old(renderer.image).value.width &&
        0 <= appliedCrop.y && appliedCrop.y + appliedCrop.height <= old(renderer.image).value.height
    {
      if editMode != Crop || currentImage.None? {
        return;
      }
      var cropRect := renderer.CropRectInImageCoords();
      if cropRect.right <= cropRect.left || cropRect.bottom <= cropRect.top {
        assert CropRegion(cropRect).None?;
        return;
      }
      var cropX := Trunc(cropRect.left);
      var cropY := Trunc(cropRect.top);
      var cropW := Trunc(cropRect.right - cropRect.left);
      var cropH := Trunc(cropRect.bottom - cropRect.top);
      if cropW <= 0 || cropH <= 0 {
        assert CropRegion(cropRect).None?;
        return;
      }
      var region := IntRect(cropX, cropY, cropW, cropH);
      assert CropRegion(cropRect) == Wrappers.Some(region);
      if renderer.image.Some? {
        CropRegionWithin(cropRect, renderer.image.value);
      }
      RecordCrop(region);
      if bitmapCreated {
        ShowCropped(region);
      }
    }

    /** The reset of the edit state that loading and saving share; the edit mode is not touched. */
    method ResetEdits()
      requires Valid()
      modifies this, renderer
      ensures Valid() && EditsCleared(State())
      ensures State() == old(State()).(rotation := 0, hasCrop := false, appliedCrop := ZeroIntRect,
                                       markupStrokes := [], textOverlays := [])
      ensures renderer.State() == old(renderer.State()).(rotation := 0)
    {
      ResetRotation();
      ClearOverlays();
    }

    /** The rotation part of ResetEdits: the image and the renderer go back to 0 degrees. */
    method ResetRotation()
      requires Valid()
      modifies this, renderer
      ensures Valid()
      ensures State() == old(State()).(rotation := 0)
      ensures renderer.State() == old(renderer.State()).(rotation := 0)
    {
      rotation := 0;
      renderer.SetRotation(0);
    }

    /** The rest of ResetEdits: no applied crop, no markup and no text. */
    method ClearOverlays()
      requires Valid()
      modifies this
      ensures Valid()
      ensures State() == old(State()).(hasCrop := false, appliedCrop := ZeroIntRect, markupStrokes := [], textOverlays := [])
    {
      ghost var r0 := renderer.State();
      hasCrop := false;
      appliedCrop := ZeroIntRect;
      markupStrokes := [];
      textOverlays := [];
      assert renderer.State() == r0;
    }

    /** Hand the current image's bitmap to the renderer, or clear the renderer when there is no image. */
    method ShowCurrentImage()
      requires Valid()
      modifies renderer
      ensures Valid()
      ensures currentImage.Some? ==> renderer.State() == R.ViewReset(old(renderer.State())).(image := currentImage.value.bitmap)
      ensures currentImage.None? ==> renderer.State() == old(renderer.State()).(image := Wrappers.None)
    {
      if currentImage.Some? {
        renderer.SetImage(currentImage.value.bitmap);
      } else {
        renderer.ClearImage();
      }
    }

    /** The image for a non-empty path: from the cache when it holds one, else from the loader. */
    method FetchImage(filePath: Path, d: Decoder) returns (image: Wrappers.Option<ImageData>)
      requires cache.Valid()
      modifies cache
      ensures cache.Valid() && cache.entries == old(cache.entries)
      ensures cache.State() == ImageCache.Looked(old(cache.State()), filePath)
      ensures image == if filePath in old(cache.entries) then Wrappers.Some(old(cache.entries)[filePath])
                       else LoadedImage(filePath, d)
    {
      image := cache.Get(filePath);
      if image.None? {
        image := LoadImage(filePath, d);
      }
    }

    /**
     * LoadCurrentImage: reset the edits, then take the image for the
     * navigator's current path from the cache or the loader. The renderer's
     * markup is not refreshed here.
     */
    method LoadCurrentImage(d: Decoder)
      requires Valid() && cache.Valid()
      modifies this, renderer, cache
      ensures Valid() && cache.Valid() && EditsCleared(State())
      ensures State() == old(State()).(rotation := 0, hasCrop := false, appliedCrop := ZeroIntRect,
                                       markupStrokes := [], textOverlays := [], currentImage := currentImage)
      ensures cache.entries == old(cache.entries)
      ensures var path := old(navigator.CurrentFilePath());
        cache.State() == if path == "" then old(cache.State()) else ImageCache.Looked(old(cache.State()), path)
      ensures var path := old(navigator.CurrentFilePath());
        currentImage == if path == "" then Wrappers.None
                        else if path in old(cache.entries) then Wrappers.Some(old(cache.entries)[path])
                        else LoadedImage(path, d)
      ensures currentImage.Some? ==>
        renderer.State() == R.ViewReset(old(renderer.State()).(rotation := 0)).(image := currentImage.value.bitmap)
      ensures currentImage.None? ==> renderer.State() == old(renderer.State()).(rotation := 0, image := Wrappers.None)
    {
      ResetEdits();
      var filePath := navigator.CurrentFilePath();
      ShowImageAt(filePath, d);
    }

    /** The second half of LoadCurrentImage: the image for filePath becomes current and is shown. */
    method ShowImageAt(filePath: Path, d: Decoder)
      requires Valid() && cache.Valid()
      modifies this, renderer, cache
      ensures Valid() && cache.Valid() && cache.entries == old(cache.entries)
      ensures State() == old(State()).(currentImage := currentImage)
      ensures cache.State() == if filePath == "" then old(cache.State()) else ImageCache.Looked(old(cache.State()), filePath)
      ensures currentImage == if filePath == "" then Wrappers.None
                              else if filePath in old(cache.entries) then Wrappers.Some(old(cache.entries)[filePath])
                              else LoadedImage(filePath, d)
      ensures currentImage.Some? ==> renderer.State() == R.ViewReset(old(renderer.State())).(image := currentImage.value.bitmap)
      ensures currentImage.None? ==> renderer.State() == old(renderer.State()).(image := Wrappers.None)
    {
      var image: Wrappers.Option<ImageData> := Wrappers.None;
      if filePath != "" {
        image := FetchImage(filePath, d);
      }
      currentImage := image;
      ShowCurrentImage();
    }

    /**
     * SaveImage: with a current image that has a path and a successful write
     * of the edited copy, drop the image, clear every edit, re-select the
     * saved file in its folder and load it again. The edit mode is kept.
     */
    method SaveImage(written: bool, fileExists: bool, scanned: seq<Path>, d: Decoder)
      requires Valid() && cache.Valid()
      modifies this, renderer, navigator, cache
      ensures Valid() && cache.Valid()
      ensures old(currentImage).None? || old(currentImage).value.filePath == "" || !written ==>
        State() == old(State()) && renderer.State() == old(renderer.State()) &&
        navigator.State() == old(navigator.State()) && cache.State() == old(cache.State())
      ensures old(currentImage).Some? && old(currentImage).value.filePath != "" && written ==>
        EditsCleared(State()) &&
        State() == old(State()).(rotation := 0, hasCrop := false, appliedCrop := ZeroIntRect,
                                 markupStrokes := [], textOverlays := [], currentImage := currentImage) &&
        navigator.State() == FolderNavigator.CurrentFileSet(old(navigator.State()), old(currentImage).value.filePath, fileExists, scanned) &&
        var path := navigator.CurrentFilePath();
        cache.State() == (if path == "" then old(cache.State()) else ImageCache.Looked(old(cache.State()), path)) &&
        currentImage == (if path == "" then Wrappers.None
                         else if path in old(cache.entries) then Wrappers.Some(old(cache.entries)[path])
                         else LoadedImage(path, d)) &&
        (currentImage.Some? ==>
           renderer.State() == R.ViewReset(old(renderer.State()).(rotation := 0, image := Wrappers.None)).(image := currentImage.value.bitmap)) &&
        (currentImage.None? ==> renderer.State() == old(renderer.State()).(rotation := 0, image := Wrappers.None))
    {
      if currentImage.None? || currentImage.value.filePath == "" {
        return;
      }
      var savedFilePath := currentImage.value.filePath;
      if !written {
        return;
      }
      currentImage := Wrappers.None;
      renderer.ClearImage();
      ResetEdits();
      navigator.SetCurrentFile(savedFilePath, fileExists, scanned);
      LoadCurrentImage(d);
    }

    /**
     * The decisions SaveImageToFile takes before encoding: nothing is written
     * without a current image that has a path; otherwise the container and
     * pixel format follow from the target path and the overlays.
     */
    function SaveDecision(filePath: Path): (e: Wrappers.Option<ExportFormat>)
      reads this
      ensures e.None? <==> currentImage.None? || currentImage.value.filePath == ""
      ensures e.Some? ==> e.value == ExportFormatFor(filePath, markupStrokes, textOverlays)
    {
      if currentImage.None? || currentImage.value.filePath == "" then Wrappers.None
      else Wrappers.Some(ExportFormatFor(filePath, markupStrokes, textOverlays))
    }
  }
}
