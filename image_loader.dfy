/**
 * ImageLoader: which paths count as images, how an animated GIF's frames and
 * frame delays are collected, and how LoadImage chooses between the animated
 * and the static result. Every WIC and Direct2D call is replaced by its
 * outcome, given as input.
 */
module ImageLoader {

  import opened Wrappers
  import opened Geometry
  import opened Paths

  /** ImageData: the decoded image with, for GIFs, its frames and their delays in milliseconds. */
  datatype ImageData = ImageData(
    bitmap: Option<Bitmap>,
    filePath: Path,
    width: int,
    height: int,
    isAnimated: bool,
    frames: seq<Bitmap>,
    frameDelays: seq<nat>)

  const SupportedExtensions: seq<string> :=
    [".jpg", ".jpeg", ".png", ".bmp", ".gif", ".tiff", ".tif",
     ".webp", ".heic", ".heif", ".ico", ".jfif"]

  const DefaultFrameDelayMs: nat := 100
  const MinFrameDelayMs: nat := 20
  const CentisecondsToMs: nat := 10

  /** The range of the PROPVARIANT uiVal read for a frame delay (a USHORT). */
  type UShort = n: int | 0 <= n < 0x1_0000

  /** What decoding one GIF frame produced. */
  datatype FrameDecode =
    | FrameUnavailable                                    // GetFrame failed
    | FrameDecoded(delay: Option<UShort>, converted: Option<Bitmap>)
      // delay: the /grctlext/Delay value, if the metadata could be read;
      // converted: the Direct2D bitmap, if conversion and creation succeeded

  /** What the WIC decoder reports for a GIF: whether it opened and counted frames, and each frame. */
  datatype GifDecode = GifDecode(isOpen: bool, frames: seq<FrameDecode>)

  /** Everything LoadImage's collaborators report for one path. */
  datatype Decoder = Decoder(
    ready: bool,               // Initialize supplied a device context and a WIC factory
    gif: GifDecode,            // what LoadAnimatedGif's decoder sees
    still: Option<Bitmap>)     // what LoadBitmapFromFile returns

  /** IsSupportedFormat: the lower-cased extension is one of the listed ones. */
  predicate IsSupportedFormat(filePath: Path) {
    Lower(Extension(filePath)) in SupportedExtensions
  }

  /** An extension that begins with its only period. */
  predicate DotSuffix(e: string) {
    |e| >= 2 && e[0] == '.' && forall j :: 1 <= j < |e| ==> e[j] != '.'
  }

  lemma ListedIsDotSuffix(e: string)
    requires e in SupportedExtensions
    ensures DotSuffix(e) && |e| >= 4
  {
  }

  /** Paths that differ only in letter case are accepted or rejected together. */
  lemma SupportedIgnoresCase(p: Path, q: Path)
    requires Lower(p) == Lower(q)
    ensures IsSupportedFormat(p) == IsSupportedFormat(q)
  {
    ExtensionLower(p);
    ExtensionLower(q);
  }

  /** A path without an extension (including a dot-file such as ".jpg") is never supported. */
  lemma NoExtensionUnsupported(p: Path)
    requires Extension(p) == ""
    ensures !IsSupportedFormat(p)
  {
  }

  /** "photos\.jpg" names a file whose extension is empty, so it is rejected. */
  lemma DotFileRejected()
    ensures Extension("photos\\.jpg") == ""
    ensures !IsSupportedFormat("photos\\.jpg")
  {
    var name := ".jpg";
    assert NoSeparator(name) && name[0] == '.' && name[1] != '.' && name[2] != '.' && name[3] != '.';
    assert "photos\\.jpg" == "photos" + ['\\'] + name;
    FilenameAfterSeparator("photos", '\\', name);
    LeadingPeriodOnly("photos\\.jpg");
  }

  /** The lower-cased filename ends with e, with at least one character before it. */
  predicate EndsWithAfterStem(p: Path, e: string) {
    |e| < |Filename(p)| && Lower(Filename(p))[|Filename(p)| - |e|..] == e
  }

  lemma SupportedHasListedSuffix(p: Path)
    requires IsSupportedFormat(p)
    ensures Lower(Extension(p)) in SupportedExtensions && EndsWithAfterStem(p, Lower(Extension(p)))
  {
    ListedIsDotSuffix(Lower(Extension(p)));
    NonEmptyExtensionAfterStem(p);
  }

  /** A non-empty extension is a suffix of the filename with something before it. */
  lemma NonEmptyExtensionAfterStem(p: Path)
    requires Extension(p) != []
    ensures EndsWithAfterStem(p, Lower(Extension(p)))
  {
    var f := Filename(p);
    var k := LastIndexOf(f, '.');
    assert 0 < k && FilenameExtension(f) == f[k..];
    LowerSlice(f, k, |f|);
  }

  lemma ListedSuffixSupported(p: Path, e: string)
    requires e in SupportedExtensions && EndsWithAfterStem(p, e)
    ensures IsSupportedFormat(p) && Lower(Extension(p)) == e
  {
    ListedIsDotSuffix(e);
    DotSuffixIsExtension(p, e);
  }

  /** A lower-cased filename that ends with a dot suffix after a stem has that suffix as its extension. */
  lemma DotSuffixIsExtension(p: Path, e: string)
    requires DotSuffix(e) && EndsWithAfterStem(p, e)
    ensures Lower(Extension(p)) == e
  {
    var f := Filename(p);
    ExtensionOfSuffix(Lower(f), e);
    FilenameExtensionLower(f);
  }

  /**
   * A path is supported exactly when its lower-cased filename ends with one
   * of the listed extensions and has at least one character before it.
   */
  lemma SupportedIffListedSuffix(p: Path)
    ensures IsSupportedFormat(p) <==> exists e :: e in SupportedExtensions && EndsWithAfterStem(p, e)
  {
    if IsSupportedFormat(p) {
      SupportedHasListedSuffix(p);
    }
    if exists e :: e in SupportedExtensions && EndsWithAfterStem(p, e) {
      var e :| e in SupportedExtensions && EndsWithAfterStem(p, e);
      ListedSuffixSupported(p, e);
    }
  }

  /** The delay of one frame: uiVal centiseconds, with 100 ms for missing or too-short delays. */
  function FrameDelay(delay: Option<UShort>): (ms: nat)
    ensures ms >= MinFrameDelayMs
    ensures delay.None? ==> ms == DefaultFrameDelayMs
    ensures delay.Some? && delay.value >= 2 ==> ms == delay.value * CentisecondsToMs
    ensures delay.Some? && delay.value < 2 ==> ms == DefaultFrameDelayMs
  {
    match delay
    case None => DefaultFrameDelayMs
    case Some(v) =>
      var d := v * CentisecondsToMs;
      if d < MinFrameDelayMs then DefaultFrameDelayMs else d
  }

  /** The delays LoadAnimatedGif pushes: one for each frame that GetFrame returned. */
  function Delays(frames: seq<FrameDecode>): (ds: seq<nat>)
    ensures forall i :: 0 <= i < |ds| ==> ds[i] >= MinFrameDelayMs
  {
    if frames == [] then []
    else
      var last := frames[|frames| - 1];
      Delays(frames[..|frames| - 1]) + (if last.FrameDecoded? then [FrameDelay(last.delay)] else [])
  }

  /** The bitmaps LoadAnimatedGif pushes: one for each frame that was also converted. */
  function Converted(frames: seq<FrameDecode>): seq<Bitmap>
  {
    if frames == [] then []
    else
      var last := frames[|frames| - 1];
      Converted(frames[..|frames| - 1]) +
        (if last.FrameDecoded? && last.converted.Some? then [last.converted.value] else [])
  }

  /** The first frame's bitmap, which becomes the image's bitmap when it converted. */
  function FirstBitmap(frames: seq<FrameDecode>): Option<Bitmap>
  {
    if |frames| > 0 && frames[0].FrameDecoded? then frames[0].converted else None
  }

  /** A delay is pushed before the frame is converted, so there are never fewer delays than frames. */
  lemma {:induction false} DelaysCoverFrames(frames: seq<FrameDecode>)
    ensures |Converted(frames)| <= |Delays(frames)| <= |frames|
  {
    if frames != [] {
      DelaysCoverFrames(frames[..|frames| - 1]);
    }
  }

  /** A frame converted successfully. */
  predicate ConvertedAt(frames: seq<FrameDecode>, i: int)
    requires 0 <= i < |frames|
  {
    frames[i].FrameDecoded? && frames[i].converted.Some?
  }

  /** No bitmap is collected exactly when no frame converted. */
  lemma {:induction false} ConvertedEmpty(frames: seq<FrameDecode>)
    ensures Converted(frames) == [] <==> forall i :: 0 <= i < |frames| ==> !ConvertedAt(frames, i)
  {
    if frames != [] {
      var init := frames[..|frames| - 1];
      ConvertedEmpty(init);
      if Converted(frames) == [] {
        forall i | 0 <= i < |frames| ensures !ConvertedAt(frames, i) {
          if i < |frames| - 1 {
            assert !ConvertedAt(init, i);
          }
        }
      }
      if forall i :: 0 <= i < |frames| ==> !ConvertedAt(frames, i) {
        forall i | 0 <= i < |init| ensures !ConvertedAt(init, i) {
          assert !ConvertedAt(frames, i);
        }
        assert !ConvertedAt(frames, |frames| - 1);
      }
    }
  }

  /** LoadAnimatedGif as a function of the decoder's outcomes. */
  function AnimatedGif(filePath: Path, gif: GifDecode): Option<ImageData>
  {
    if !gif.isOpen || |gif.frames| == 0 then None
    else
      var first := FirstBitmap(gif.frames);
      var bitmaps := Converted(gif.frames);
      if bitmaps == [] then None
      else Some(ImageData(
        first, filePath,
        if first.Some? then first.value.width else 0,
        if first.Some? then first.value.height else 0,
        |gif.frames| > 1, bitmaps, Delays(gif.frames)))
  }

  /** LoadAnimatedGif: decode every frame, recording its delay and, when it converts, its bitmap. */
  method LoadAnimatedGif(filePath: Path, gif: GifDecode) returns (r: Option<ImageData>)
    ensures r == AnimatedGif(filePath, gif)
    ensures r.Some? ==> r.value.isAnimated == (|gif.frames| > 1)
    ensures r.Some? ==> |r.value.frames| >= 1 && |r.value.frames| <= |r.value.frameDelays| <= |gif.frames|
    ensures r.Some? ==> forall i :: 0 <= i < |r.value.frameDelays| ==> r.value.frameDelays[i] >= MinFrameDelayMs
    ensures r.None? <==> !gif.isOpen || forall i :: 0 <= i < |gif.frames| ==> !ConvertedAt(gif.frames, i)
  {
    if !gif.isOpen || |gif.frames| == 0 {
      return None;
    }
    var frameCount := |gif.frames|;
    var delays: seq<nat> := [];
    var bitmaps: seq<Bitmap> := [];
    var bitmap: Option<Bitmap> := None;
    var width: int, height: int := 0, 0;
    for i := 0 to frameCount
      invariant delays == Delays(gif.frames[..i])
      invariant bitmaps == Converted(gif.frames[..i])
      invariant bitmap == (if i == 0 then None else FirstBitmap(gif.frames))
      invariant width == (if bitmap.Some? then bitmap.value.width else 0)
      invariant height == (if bitmap.Some? then bitmap.value.height else 0)
    {
      assert gif.frames[..i + 1][..i] == gif.frames[..i];
      var frame := gif.frames[i];
      if frame.FrameUnavailable? {
        continue;
      }
      delays := delays + [FrameDelay(frame.delay)];
      if frame.converted.None? {
        continue;
      }
      bitmaps := bitmaps + [frame.converted.value];
      if i == 0 {
        bitmap := frame.converted;
        width := bitmap.value.width;
        height := bitmap.value.height;
      }
    }
    assert gif.frames[..frameCount] == gif.frames;
    DelaysCoverFrames(gif.frames);
    ConvertedEmpty(gif.frames);
    if bitmaps == [] {
      return None;
    }
    r := Some(ImageData(bitmap, filePath, width, height, frameCount > 1, bitmaps, delays));
  }

  /** LoadImage as a function of the collaborators' outcomes. */
  function LoadedImage(filePath: Path, d: Decoder): Option<ImageData>
  {
    if !d.ready then None
    else
      var gif := if Lower(Extension(filePath)) == ".gif" then AnimatedGif(filePath, d.gif) else None;
      if gif.Some? && gif.value.isAnimated then gif
      else if d.still.None? then None
      else Some(ImageData(d.still, filePath, d.still.value.width, d.still.value.height, false, [], []))
  }

  /**
   * LoadImage: an animated .gif keeps its frames; everything else (a static
   * GIF included) is loaded as one bitmap whose size gives width and height.
   */
  method LoadImage(filePath: Path, d: Decoder) returns (r: Option<ImageData>)
    ensures r == LoadedImage(filePath, d)
    ensures !d.ready ==> r.None?
    ensures r.Some? ==> r.value.filePath == filePath
    ensures r.Some? && r.value.isAnimated ==>
      Lower(Extension(filePath)) == ".gif" && |d.gif.frames| > 1 && r.value.frames != []
    ensures r.Some? && !r.value.isAnimated ==>
      d.still.Some? && r.value.bitmap == d.still && r.value.frames == [] &&
      r.value.width == d.still.value.width && r.value.height == d.still.value.height
  {
    if !d.ready {
      return None;
    }
    var ext := Lower(Extension(filePath));
    if ext == ".gif" {
      var gifData := LoadAnimatedGif(filePath, d.gif);
      if gifData.Some? && gifData.value.isAnimated {
        return gifData;
      }
    }
    if d.still.None? {
      return None;
    }
    var b := d.still.value;
    r := Some(ImageData(d.still, filePath, b.width, b.height, false, [], []));
  }
}
