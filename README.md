# angel-foto core, modelled in Dafny

angel-foto is a Windows image viewer. It opens an image given on the command
line and steps through the other images of its folder. It rotates, crops,
draws markup and places text, and saves the result back over the file. This
project models the viewer's logic. The Win32, Direct2D and WIC calls are
replaced by the values they produce.

Modules, one per source file:

- `CommandLine` (`main.cpp`) works out the initial file: it reads the
  NUL-terminated command line and strips one pair of surrounding quotes.
- `Paths` holds the parts of `std::filesystem::path` and `towlower` the
  viewer relies on: filename, extension, parent (which drops the whole run of
  separators before the filename, but never the root), ASCII lower-casing and
  `operator/`, including its drive-letter root names: an absolute name, or one
  on another drive, replaces the parent, and a name with a root directory keeps
  only the parent's drive.
- `ImageLoader` (`ImageLoader.cpp`) holds the supported-format test, GIF
  frame delays and the choice between an animated GIF and a still image. The
  decoders are a `Decoder` value that holds what WIC would return.
- `ImageCache` (`ImageCache.cpp`) is a class. It holds the cache entries, the
  LRU access order, the prefetch queue and the worker's pop. A lookup moves
  its key to the back of the access order. Prefetch enqueues each path that
  is neither cached nor already queued.
- `FolderNavigator` (`FolderNavigator.cpp`) is a class over the sorted file
  list, the current index and the folder. It covers navigation, the window
  of adjacent files, delete, rename and refresh. The directory listing and
  the file-system outcomes are parameters.
- `Renderer` (`Renderer.cpp`) is a class over the view state: image, viewport
  size, zoom, pan, rotation, crop mode and rectangle, strokes and texts.
  `Render` becomes a function `Frame` from that state to the list of draw
  commands. The fitted image rectangle, the screen-to-image crop mapping and
  the crop overlay are functions, with lemmas about them.
- `App` (`App.cpp`) is a class over the editing state: current image,
  rotation, edit mode, crop drag, applied crop, strokes, texts and mouse
  state. It drives the other three objects. Each method states the App's whole
  new state and the new state of each object it changes.
- `Geometry`, `Sequences` and `Wrappers` hold the rectangles, points,
  `std::clamp`, `static_cast<int>`, C++ `%`, `std::find` and `Option`.

Where the code and the design description of the viewer disagree, the model
follows the code:

- The crop, markup and text modes toggle directly. Entering markup or text
  mode from crop mode leaves the renderer's crop mode switched on.
- Markup points and text anchors are stored in screen pixels. The renderer
  reads stroke points as coordinates normalised to the image rectangle.
- Text overlays are never handed to the renderer (`SetTextOverlays` has no
  caller), so they are never drawn.
- `LoadCurrentImage` clears the strokes but does not pass the empty list to
  the renderer. The renderer keeps the old strokes until the next
  `UpdateRendererMarkup`.
- `ApplyCrop` records the applied crop before creating the cropped bitmap. If
  bitmap creation fails, the crop stays recorded although the displayed image
  is unchanged.
- `SetCurrentFile` keeps the previous index when no listed file has the same
  filename.
- Nothing ever inserts into the image cache. `Get` therefore always misses
  after start-up, and the size limit is stored but never used.
- A file such as `photos\.jpg` has an empty extension, because its only
  period is its filename's first character. It is not a supported image.
- Saving such a dot file writes `~temp_.jpg`, whose extension is `.jpg`. The
  file is written as JPEG, although `SaveImageToFile` would pick PNG for the
  original name.

## Model

| member | source | states |
|---|---|---|
| CommandLine.SizeT | src/main.cpp:20 | `size_t` conversion: values in range kept, negatives wrap modulo 2^64 |
| CommandLine.SubStr | src/main.cpp:20 | `substr(pos, count)`: the slice starting at pos, cut short only at the end of the string |
| CommandLine.WideString | src/main.cpp:16 | building a wstring from a C string: the prefix before the first NUL, holding no NUL |
| CommandLine.StripQuotes | src/main.cpp:19-21 | the quote removal never lengthens the string |
| CommandLine.InitialFile | src/main.cpp:14-22 | the initial file never holds a NUL and is no longer than the command line |
| CommandLine.NoCommandLine | src/main.cpp:15 | an absent or empty command line gives the empty initial file |
| CommandLine.StopsAtNul | src/main.cpp:16 | whatever follows the first NUL has no effect |
| CommandLine.QuotedStripped | src/main.cpp:19-21 | a command line quoted at both ends loses exactly its first and last character |
| CommandLine.UnquotedKept | src/main.cpp:19 | a command line not quoted at both ends is kept unchanged |
| CommandLine.StripQuotesChangesIffQuoted | src/main.cpp:19-21 | the quote removal changes the string if and only if it starts and ends with a quote |
| CommandLine.LoneQuoteEmpty | src/main.cpp:20 | a single `"` gives length - 2 wrapping to 2^64 - 1, and the empty initial file |
| CommandLine.OneLayerOnly | src/main.cpp:19-21 | only the outer pair of quotes is removed |
| Paths.Lower | src/ImageLoader.cpp:21 | `towlower` over a string: same length, each character lower-cased ('A'..'Z' only) |
| Paths.Filename | src/FolderNavigator.cpp:18 | `path.filename()` holds no separator and is no longer than the path |
| Paths.ParentPath | src/FolderNavigator.cpp:14 | `parent_path()` is a prefix of the path; its shape is ParentPathShape |
| Paths.ParentPathShape | src/FolderNavigator.cpp:14 | the parent keeps the root name and root directory, stops before the filename, leaves only separators between itself and the filename, and ends in a separator only when it is the root |
| Paths.ParentPathUnique | src/FolderNavigator.cpp:14 | the properties of ParentPathShape determine the parent: any prefix having them is the parent path |
| Paths.ParentPathDropsSeparatorRun | src/App.cpp:440-441 | for a folder past its root, any run of separators and a plain name, the parent is the folder without any of the separators |
| Paths.ParentPathOfDoubledSeparator | src/App.cpp:440-441 | the parent of `C:\a\\b.jpg` is `C:\a` |
| Paths.Extension | src/ImageLoader.cpp:18 | `path.extension()`: its properties are the lemmas LeadingPeriodOnly, ExtensionOfSuffix, ExtensionAfterPrefix and ExtensionLower |
| Paths.Join | src/FolderNavigator.cpp:158 | `parent / name` for a name with neither drive nor root directory starts with the parent |
| Paths.JoinKeepsName | src/FolderNavigator.cpp:158 | `parent / name` ends with the name without its drive; an absolute name, or one on another drive, replaces the parent; a rooted name gives a rooted result |
| Paths.FilenameOfJoin | src/FolderNavigator.cpp:158 | for every parent and name, the filename of `parent / name` is the filename of the name |
| Paths.PlainNameOfJoin | src/App.cpp:441 | a name with no separator and no drive is the filename of `parent / name` |
| Paths.ExtensionAfterPrefix | src/App.cpp:441 | putting a prefix before a filename that has an extension keeps that extension |
| Paths.FilenameLower | src/ImageLoader.cpp:17-21 | lower-casing commutes with taking the filename |
| Paths.ExtensionLower | src/ImageLoader.cpp:17-21 | lower-casing commutes with taking the extension |
| Paths.LeadingPeriodOnly | src/ImageLoader.cpp:18 | a filename whose only period is its first character has no extension |
| Paths.ExtensionOfSuffix | src/ImageLoader.cpp:18 | a filename ending in a one-period suffix after a non-empty stem has that suffix as its extension |
| Sequences.FirstIndex | src/ImageCache.cpp:36 | `std::find`: the first position holding the value, or the length when it is absent |
| Geometry.Clamp | src/Renderer.cpp:232 | `std::clamp`: inside the bounds, unchanged inside them, the nearer bound outside |
| Geometry.Trunc | src/App.cpp:814-817 | `static_cast<int>` truncates toward zero |
| Geometry.CppRem360 | src/Renderer.cpp:252 | C++ `% 360`: the Euclidean remainder for non-negative angles, a non-positive congruent value for negative ones |
| ImageLoader.IsSupportedFormat | src/ImageLoader.cpp:16-25 | the lower-cased extension is one of the listed ones; its properties are the Supported lemmas below |
| ImageLoader.ListedIsDotSuffix | src/ImageLoader.cpp:4-7 | every listed extension is a period followed by at least three period-free characters |
| ImageLoader.SupportedIgnoresCase | src/ImageLoader.cpp:16-25 | paths that are equal once lower-cased are both supported or both not |
| ImageLoader.NoExtensionUnsupported | src/ImageLoader.cpp:16-25 | a path without an extension is not supported |
| ImageLoader.DotFileRejected | src/ImageLoader.cpp:16-25 | `photos\.jpg` has no extension and is not supported |
| ImageLoader.SupportedHasListedSuffix | src/ImageLoader.cpp:16-25 | a supported path's lower-cased filename ends, after a non-empty stem, in its listed extension |
| ImageLoader.ListedSuffixSupported | src/ImageLoader.cpp:16-25 | a lower-cased filename ending in a listed extension after a non-empty stem is supported |
| ImageLoader.SupportedIffListedSuffix | src/ImageLoader.cpp:16-25 | supported if and only if the lower-cased filename ends in a listed extension after a non-empty stem |
| ImageLoader.FrameDelay | src/ImageLoader.cpp:161-173 | frame delay: 100 ms without metadata, centiseconds x 10, 100 ms when that is below 20 ms; never below 20 ms |
| ImageLoader.Delays | src/ImageLoader.cpp:156-173 | every recorded frame delay is at least 20 ms |
| ImageLoader.DelaysCoverFrames | src/ImageLoader.cpp:156-203 | at most one delay per decoded frame and at least one delay per converted frame |
| ImageLoader.ConvertedEmpty | src/ImageLoader.cpp:176-203 | no frame is kept exactly when every frame fails conversion |
| ImageLoader.AnimatedGif | src/ImageLoader.cpp:112-214 | the image LoadAnimatedGif builds; its contract is on the method LoadAnimatedGif |
| ImageLoader.LoadAnimatedGif | src/ImageLoader.cpp:112-214 | animated exactly when there is more than one frame; at least one frame kept; delays never below 20 ms; no image exactly when the decoder fails or no frame converts |
| ImageLoader.LoadedImage | src/ImageLoader.cpp:27-59 | the image LoadImage returns; its contract is on the method LoadImage |
| ImageLoader.LoadImage | src/ImageLoader.cpp:27-59 | no image without a device; an animated result only for a `.gif` of several frames; otherwise the still bitmap with its size and no frames |
| ImageCache.Touched | src/ImageCache.cpp:36-40 | the access order after a hit; its properties are the Touched lemmas below |
| ImageCache.TouchedSplit | src/ImageCache.cpp:36-40 | a hit removes the key at its first position and appends it |
| ImageCache.TouchedMovesToBack | src/ImageCache.cpp:36-40 | after a hit the key is last and the access order is a permutation of the old one |
| ImageCache.TouchedKeepsOthersOrder | src/ImageCache.cpp:36-40 | a hit keeps the relative order of every other key |
| ImageCache.TouchedMissUnchanged | src/ImageCache.cpp:36-40 | a key absent from the access order leaves it unchanged |
| ImageCache.TouchedKeepsNoDuplicates | src/ImageCache.cpp:36-40 | a hit keeps the access order free of duplicates |
| ImageCache.Enqueued | src/ImageCache.cpp:51-71 | the queue after a prefetch; its properties are the Enqueued lemmas below |
| ImageCache.EnqueuedConcat | src/ImageCache.cpp:51-71 | prefetching two lists is prefetching one and then the other |
| ImageCache.EnqueuedSnoc | src/ImageCache.cpp:51-71 | one more path is appended unless it is cached or already queued |
| ImageCache.EnqueuedContents | src/ImageCache.cpp:51-71 | the old queue is kept as a prefix; afterwards a path is queued if and only if it was queued before or was requested and not cached |
| ImageCache.EnqueuedKeepsNoDuplicates | src/ImageCache.cpp:57-65 | prefetch never queues a path twice |
| ImageCache.CachedNeverQueued | src/ImageCache.cpp:51-52 | a cached path is never added to the queue |
| ImageCache.InQueue | src/ImageCache.cpp:57-65 | the scan of a copy of the queue finds the path if and only if it is queued |
| ImageCache.Looked | src/ImageCache.cpp:30-45 | a lookup keeps entries, queue and size limit; a miss keeps the whole state |
| ImageCache.Cache.constructor | src/ImageCache.h:34 | an empty cache with the size limit 10 |
| ImageCache.Cache.Get | src/ImageCache.cpp:30-45 | a hit returns the entry and moves its key to the back of the access order; a miss returns nothing and changes nothing; the new state is the old one after Looked |
| ImageCache.Cache.Prefetch | src/ImageCache.cpp:47-73 | the queue becomes the old queue extended by the requested paths that are neither cached nor queued |
| ImageCache.Cache.Clear | src/ImageCache.cpp:75-83 | entries, access order and queue become empty; the size limit is kept |
| ImageCache.Cache.PopNext | src/ImageCache.cpp:105-108 | pops the front of a non-empty queue; an empty queue yields the empty path and changes nothing |
| ImageCache.Cache.SetMaxSize | src/ImageCache.h:23 | only the size limit changes |
| FolderNavigator.Filenames | src/FolderNavigator.cpp:19-21 | the filename of each listed path, in order |
| FolderNavigator.FirstFilenameMatch | src/FolderNavigator.cpp:19-25 | the first listed path with the given filename, or the length when there is none |
| FolderNavigator.Before | src/FolderNavigator.cpp:103-107 | the files before the current one, nearest first; bounded by BeforeAt and Predecessors |
| FolderNavigator.After | src/FolderNavigator.cpp:110-114 | the files after the current one, nearest first; bounded by AfterAt |
| FolderNavigator.Successors | src/FolderNavigator.cpp:110-114 | the forward half of the window, at most count files; see SuccessorCount |
| FolderNavigator.BeforeAt | src/FolderNavigator.cpp:103-107 | the k-th file of the window before the current one is the one k + 1 places back |
| FolderNavigator.AfterAt | src/FolderNavigator.cpp:110-114 | the k-th file of the window after the current one is the one k + 1 places on |
| FolderNavigator.Predecessors | src/FolderNavigator.cpp:103-107 | min(count, index) files precede the current one in the window |
| FolderNavigator.SuccessorCount | src/FolderNavigator.cpp:110-114 | min(count, files after the current one) files follow it, none at the end |
| FolderNavigator.AdjacentWithin | src/FolderNavigator.cpp:99-117 | the window holds at most 2 x count listed files: nearest first backwards, then nearest first forwards; without duplicates it never holds the current file |
| FolderNavigator.CurrentFileSet | src/FolderNavigator.cpp:7-26 | a missing file leaves the navigator as it was; otherwise the list is the scan and the folder the file's parent |
| FolderNavigator.Navigator.constructor | src/FolderNavigator.h:43 | no files, index 0, no folder |
| FolderNavigator.Navigator.CurrentFilePath | src/FolderNavigator.cpp:92-97 | the file at the index, or the empty path past the end |
| FolderNavigator.Navigator.SetCurrentFile | src/FolderNavigator.cpp:7-26 | a missing file changes nothing; otherwise the folder is the parent, the list is rescanned and the index moves to the first file of the same name, else stays; the new state is CurrentFileSet of the old one |
| FolderNavigator.Navigator.GoToNext | src/FolderNavigator.cpp:52-58 | moves one forward if and only if a next file exists |
| FolderNavigator.Navigator.GoToPrevious | src/FolderNavigator.cpp:60-66 | moves one back if and only if the index is positive |
| FolderNavigator.Navigator.GoToFirst | src/FolderNavigator.cpp:68-74 | moves to 0 if and only if the list is non-empty and the index is not 0 |
| FolderNavigator.Navigator.GoToLast | src/FolderNavigator.cpp:76-82 | moves to the last file if and only if the list is non-empty and the index is elsewhere |
| FolderNavigator.Navigator.GoToIndex | src/FolderNavigator.cpp:84-90 | moves to i if and only if i is a valid index; the current path is then the i-th file |
| FolderNavigator.Navigator.GetAdjacentFiles | src/FolderNavigator.cpp:99-117 | empty for an empty list; otherwise the files before the current one (nearest first) followed by the files after it |
| FolderNavigator.Navigator.DeleteCurrentFile | src/FolderNavigator.cpp:119-150 | succeeds if and only if there is a file and the delete succeeds; the current file leaves the list and the index steps back only from past the end |
| FolderNavigator.Navigator.RenameCurrentFile | src/FolderNavigator.cpp:152-168 | succeeds if and only if there is a file and the rename succeeds; the entry becomes parent / new name, whose filename is the new name's filename; an absolute new name replaces the whole path; a plain new name is the new filename |
| FolderNavigator.Navigator.Refresh | src/FolderNavigator.cpp:170-190 | without a folder nothing changes; otherwise the list is rescanned, the current path is kept if still listed, else the index is clamped to the new list |
| Renderer.ImageRect | src/Renderer.cpp:311-340 | CalculateImageRect; its properties are the ImageRect lemmas below |
| Renderer.ImageRectWithoutImage | src/Renderer.cpp:312-314 | without an image the image rectangle is the zero rectangle |
| Renderer.ImageRectCentred | src/Renderer.cpp:333-339 | without pan the image rectangle is centred in the viewport |
| Renderer.ImageRectPanned | src/Renderer.cpp:333-339 | the pan shifts the centred rectangle by exactly the pan |
| Renderer.ImageRectQuarterTurn | src/Renderer.cpp:320-322 | at 90 and 270 degrees the image is fitted with width and height swapped |
| Renderer.ImageRectKeepsAspect | src/Renderer.cpp:311-340 | the image rectangle keeps the aspect ratio of the displayed image |
| Renderer.ImageRectSize | src/Renderer.cpp:325-331 | the rectangle is the displayed size times fit scale times zoom |
| Renderer.FitScaleWithin | src/Renderer.cpp:325-331 | up to zoom 1 the fitted display width and height stay within the viewport |
| Renderer.ImageRectFits | src/Renderer.cpp:325-331 | up to zoom 1 the image rectangle fits inside the viewport |
| Renderer.ImageRectFillsAtZoomOne | src/Renderer.cpp:325-331 | at zoom 1 the image fills the viewport in width or in height |
| Renderer.ImageRectPositive | src/Renderer.cpp:311-340 | with an image, a non-empty viewport and positive zoom, the rectangle has positive area |
| Renderer.ClampToImage | src/Renderer.cpp:303-306 | `max(0, min(v, limit))` lies in [0, limit] and keeps values already inside |
| Renderer.CropRectInImage | src/Renderer.cpp:286-309 | the crop rectangle in image pixels lies inside the image; zero without an image |
| Renderer.CropRectInImageKeepsOrder | src/Renderer.cpp:286-309 | an ordered screen rectangle maps to an ordered image rectangle |
| Renderer.CropRectInImageWholeImage | src/Renderer.cpp:286-309 | selecting the whole image rectangle yields the whole image |
| Renderer.ToImage | src/Renderer.cpp:295-301 | one axis of the screen-to-image mapping; see ToImageMonotone, ToImageEnds, ToImageWithin |
| Renderer.ToScreen | src/Renderer.cpp:295-301 | the inverse of ToImage, the reference for ToImageRoundTrip |
| Renderer.ToImageMonotone | src/Renderer.cpp:295-301 | the mapping keeps the order of coordinates |
| Renderer.ToImageEnds | src/Renderer.cpp:295-301 | the image rectangle's edges map to 0 and the image size |
| Renderer.ToImageRoundTrip | src/Renderer.cpp:295-301 | mapping a screen coordinate to image pixels and back gives it again |
| Renderer.ToImageWithin | src/Renderer.cpp:295-301 | a coordinate inside the image rectangle maps inside the image |
| Renderer.CropRectInImageRoundTrip | src/Renderer.cpp:286-309 | unrotated, a crop inside the image rectangle maps back to itself |
| Renderer.CropOverlay | src/Renderer.cpp:394-413 | nothing outside crop mode or for an empty crop; otherwise four dimming rectangles and a white border |
| Renderer.CropOverlayCoversOutside | src/Renderer.cpp:398-409 | every viewport point not strictly inside the crop is dimmed |
| Renderer.CropOverlayKeepsInsideClear | src/Renderer.cpp:398-409 | no dimming rectangle reaches into the crop |
| Renderer.StrokePointCorners | src/Renderer.cpp:355-363 | normalised (0,0) and (1,1) land on the corners of the image rectangle |
| Renderer.StrokeSegments | src/Renderer.cpp:353-364 | a stroke of n >= 2 points draws the n - 1 lines joining consecutive points |
| Renderer.StrokeSegmentsConnected | src/Renderer.cpp:353-364 | each line starts where the previous one ends |
| Renderer.StrokeCommands | src/Renderer.cpp:353-364 | a stroke draws only lines, none for fewer than two points |
| Renderer.MarkupCommands | src/Renderer.cpp:342-367 | RenderMarkupStrokes; its properties are the MarkupCommands lemmas below |
| Renderer.MarkupCommandsCount | src/Renderer.cpp:342-367 | one line per pair of consecutive points over all strokes |
| Renderer.MarkupCommandsAppend | src/Renderer.cpp:342-367 | the strokes are drawn one after the other, in order |
| Renderer.MarkupCommandsAreLines | src/Renderer.cpp:342-367 | markup draws only lines |
| Renderer.BitmapDest | src/Renderer.cpp:421-437 | the bitmap target keeps the centre; at a quarter turn width and height swap, otherwise it is the image rectangle |
| Renderer.Frame | src/Renderer.cpp:415-472 | a frame clears the background first; without an image that is all, with one the bitmap is drawn next |
| Renderer.FrameWithoutCrop | src/Renderer.cpp:415-472 | outside crop mode a frame is clear, bitmap, then the markup lines |
| Renderer.FrameLayout | src/Renderer.cpp:415-472 | with an image a frame holds clear, bitmap, one line per stroke segment, then in crop mode with a non-empty crop four dimming rectangles and the white border last |
| Renderer.ViewReset | src/Renderer.cpp:245-249 | the reset view keeps the renderer state well-formed |
| Renderer.PannedBy | src/Renderer.cpp:240-243 | AddPan on the state; see PannedByTwice |
| Renderer.PannedByTwice | src/Renderer.cpp:240-243 | two pans add up |
| Renderer.Zoomed | src/Renderer.cpp:231-233 | the zoom is kept within [0.1, 10] and unchanged when already inside |
| Renderer.ZoomedTwice | src/Renderer.cpp:231-233 | only the last zoom counts |
| Renderer.CropModeSet | src/Renderer.cpp:255-268 | switching crop mode off zeroes the crop rectangle; switching it on keeps it |
| Renderer.NoOverlayOutsideCropMode | src/Renderer.cpp:255-268 | after leaving crop mode no overlay is drawn |
| Renderer.Renderer.constructor | src/Renderer.h:66-88 | no image, zoom 1, no pan, rotation 0, crop mode off |
| Renderer.Renderer.Resize | src/Renderer.cpp:185-191 | a positive size is stored, any other size is ignored |
| Renderer.Renderer.SetImage | src/Renderer.cpp:222-225 | the image is replaced and the view reset |
| Renderer.Renderer.ClearImage | src/Renderer.cpp:227-229 | only the image is removed |
| Renderer.Renderer.SetZoom | src/Renderer.cpp:231-233 | the zoom becomes the clamped value |
| Renderer.Renderer.SetPan | src/Renderer.cpp:235-238 | only the pan changes |
| Renderer.Renderer.AddPan | src/Renderer.cpp:240-243 | the pan moves by the offsets |
| Renderer.Renderer.ResetView | src/Renderer.cpp:245-249 | zoom 1, no pan |
| Renderer.Renderer.SetRotation | src/Renderer.cpp:251-253 | the rotation becomes degrees % 360 with C++ sign rules |
| Renderer.Renderer.SetCropMode | src/Renderer.cpp:255-268 | crop mode set; the rectangle is zeroed when switched off |
| Renderer.Renderer.SetCropRect | src/Renderer.cpp:270-272 | only the crop rectangle changes |
| Renderer.Renderer.SetMarkupStrokes | src/Renderer.cpp:274-276 | only the strokes change |
| Renderer.Renderer.SetTextOverlays | src/Renderer.cpp:278-280 | only the texts change |
| Renderer.Renderer.ScreenImageRect | src/Renderer.cpp:282-284 | GetScreenImageRect: the image rectangle of the current state |
| Renderer.Renderer.CropRectInImageCoords | src/Renderer.cpp:286-309 | the crop in image pixels lies inside the image; zero without an image |
| App.RotatedCW | src/App.cpp:742-746 | a quarter turn clockwise keeps the angle one of 0, 90, 180, 270 |
| App.RotatedCCW | src/App.cpp:748-752 | a quarter turn counter-clockwise keeps the angle one of 0, 90, 180, 270 |
| App.FourTurnsIdentity | src/App.cpp:742-746 | four clockwise turns restore the rotation |
| App.TurnsCancel | src/App.cpp:742-752 | a clockwise and a counter-clockwise turn cancel, in either order |
| App.Toggled | src/App.cpp:766-784 | toggling the active mode leaves it; toggling another mode enters that one |
| App.ToggledTwice | src/App.cpp:766-784 | toggling twice returns to the mode, or to none when it was already active |
| App.SelectionRect | src/App.cpp:1068-1072 | the drag rectangle is ordered, spans both corners and has its edges at their coordinates |
| App.SelectionRectSymmetric | src/App.cpp:1068-1072 | swapping the drag's start and end gives the same rectangle |
| App.WithPointAdded | src/App.cpp:1075-1076 | the point is appended to the last stroke; every other stroke and the stroke's colour and width are kept |
| App.CropRegion | src/App.cpp:810-820 | no region exactly for an empty rectangle or a truncated size <= 0; a region has positive size and lies within the rectangle |
| App.CropRegionOfPixelSelection | src/App.cpp:810-820 | a selection at least one pixel wide and high yields a region |
| App.CropRegionRejectsSliver | src/App.cpp:810-820 | a selection under one pixel wide yields none |
| App.CropRegionWithin | src/App.cpp:810-820 | a rectangle inside the image yields a region inside the image |
| App.ContainerFormatFor | src/App.cpp:532-543 | JPEG exactly for `.jpg`/`.jpeg`, BMP exactly for `.bmp`, in any case; PNG otherwise |
| App.ContainerFormatIgnoresCase | src/App.cpp:532-543 | paths equal once lower-cased are saved in the same container |
| App.NoExtensionIsPng | src/App.cpp:536-543 | a path without an extension is saved as PNG |
| App.PixelFormatFor | src/App.cpp:545-551 | 24-bit BGR exactly when there are no overlays and the container is not PNG |
| App.BytesPerPixel | src/App.cpp:609 | 4 bytes for 32-bit BGRA, 3 for 24-bit BGR |
| App.StrideAligned | src/App.cpp:610 | the row stride is a multiple of 4 and, without 32-bit overflow, the smallest one holding a row |
| App.Stride | src/App.cpp:609-610 | the row stride in 32-bit arithmetic; see StrideAligned and StrideWraps |
| App.StrideWraps | src/App.cpp:610 | the stride is 0 exactly when width x bpp is 0 modulo 2^32 or lies within 3 below a multiple of 2^32 |
| App.TempPath | src/App.cpp:440-441 | the temporary file lies in the image's folder |
| App.TempPathFilename | src/App.cpp:440-441 | its filename is `~temp_` followed by the image's filename, for every path |
| App.TempPathKeepsExtension | src/App.cpp:440-445 | a path with an extension and its temporary file have the same extension, so they are saved in the same container |
| App.TempPathOfDotFile | src/App.cpp:440-445 | a dot file has no extension, but its temporary file has the whole dot name as extension |
| App.DotFileName | src/App.cpp:440 | the filename of `photos\.jpg` is `.jpg` |
| App.DotFileSavedAsJpeg | src/App.cpp:440-445 | a file named `.jpg`, such as `photos\.jpg`, maps to PNG by its own name but is written as JPEG through `~temp_.jpg` |
| App.ExportFormatFor | src/App.cpp:532-551 | the container follows the extension; BGRA exactly with overlays or for PNG |
| App.App.constructor | src/App.h:240-254 | no image, rotation 0, no mode, no crop, no strokes or texts |
| App.App.RotateCW | src/App.cpp:742-746 | the rotation turns a quarter clockwise and the renderer receives it |
| App.App.RotateCCW | src/App.cpp:748-752 | the rotation turns a quarter counter-clockwise and the renderer receives it |
| App.App.ToggleCropMode | src/App.cpp:754-764 | leaves crop mode, or enters it and cancels the drag; the renderer's crop mode follows |
| App.App.ToggleMarkupMode | src/App.cpp:766-774 | only the edit mode toggles |
| App.App.ToggleTextMode | src/App.cpp:776-784 | only the edit mode toggles |
| App.App.CancelCurrentMode | src/App.cpp:786-793 | no mode, no drag; the renderer leaves crop mode with a zero crop rectangle |
| App.App.UpdateRendererMarkup | src/App.cpp:795-805 | the renderer receives a copy of every stroke, in order |
| App.App.StartCropDrag | src/App.cpp:1015-1021 | a crop drag starts and ends at the point; nothing else changes |
| App.App.StartStroke | src/App.cpp:1022-1030 | a one-point red stroke of width 3 is appended and the renderer receives the strokes |
| App.App.PlaceText | src/App.cpp:1031-1040 | a white "Text" overlay of size 24 is appended at the point |
| App.App.StartPan | src/App.cpp:1041-1046 | panning starts from the point |
| App.App.OnMouseDown | src/App.cpp:1014-1047 | crop mode starts a drag at the point; markup starts a red stroke and updates the renderer; text adds a "Text" overlay; otherwise panning starts |
| App.App.OnMouseUp | src/App.cpp:1049-1061 | ends the crop drag, else the stroke, else the pan |
| App.App.ExtendCropDrag | src/App.cpp:1064-1073 | the drag ends at the point and the renderer's crop is the ordered selection |
| App.App.ExtendStroke | src/App.cpp:1074-1078 | the last stroke gains the point and the renderer receives the strokes |
| App.App.PanTo | src/App.cpp:1079-1089 | the renderer pans by the mouse delta and the point is remembered |
| App.App.OnMouseMove | src/App.cpp:1063-1090 | extends the crop drag and its renderer rectangle, else the current stroke, else pans by the mouse movement, else does nothing |
| App.App.RecordCrop | src/App.cpp:821-823 | only the applied crop is recorded |
| App.App.ShowCropped | src/App.cpp:842-848 | the image becomes a bitmap of the region's size, the renderer shows it with a reset view and crop mode ends |
| App.App.ApplyCrop | src/App.cpp:807-849 | outside crop mode, without an image or with an empty region nothing changes; else the crop is recorded and, if the bitmap is created, the image becomes the region's size, the view resets and crop mode ends; a new crop lies within the image |
| App.App.ResetEdits | src/App.cpp:88-93 | rotation 0, no crop, no strokes, no texts; the renderer's rotation is 0 |
| App.App.ResetRotation | src/App.cpp:88-89 | rotation 0 for the App and the renderer; nothing else changes |
| App.App.ClearOverlays | src/App.cpp:90-93 | no applied crop, no strokes, no texts; nothing else changes |
| App.App.LoadCurrentImage | src/App.cpp:84-127 | edits cleared; the image is none for an empty path, the cached entry on a hit, else the decoded file; the renderer shows it with a reset view; the cache sees one lookup |
| App.App.FetchImage | src/App.cpp:104-111 | the cached entry when present, the decoded file otherwise; the entries are unchanged and a hit moves its key to the back |
| App.App.ShowCurrentImage | src/App.cpp:114-123 | the renderer shows the current bitmap with a reset view, or is cleared without an image |
| App.App.ShowImageAt | src/App.cpp:95-123 | the image for the path becomes current and is shown; an empty path clears it without touching the cache |
| App.App.SaveImage | src/App.cpp:437-474 | without an image, a path or a successful write nothing changes; otherwise the edits are cleared and the edit mode kept, the navigator re-selects the saved file (unchanged when it is gone), the image at the navigator's path is fetched through the cache and the renderer shows it at rotation 0 with a reset view |
| App.App.SaveDecision | src/App.cpp:524-551 | no save without an image or its path; otherwise the format chosen from the path and the overlays |

## Left out

- Win32 windows, messages, timers, dialogs, title updates and repaint requests: I/O.
- `Window.cpp`, `SaveImageAs` and its file dialog, and the App's key, wheel, resize, zoom, navigation and open-file handlers: outside this model.
- Direct2D, DirectWrite and WIC objects and their failures become values or boolean parameters: `Decoder`, `bitmapCreated`, `written`.
- `SaveImageToFile`'s encoder sequence (stream, frame, pixel copy and commit) is not modelled. Only the container, pixel format, bytes per pixel and stride decisions are.
- The cache's worker thread, mutex and condition variable: concurrency. The worker's queue pop is modelled as a method and the loading it skips is absent.
- The folder scan (`ScanFolder`: directory listing, format filter and case-insensitive sort), `fs::exists`, `SHFileOperation` and `fs::rename` are parameters.
- `RenderTextOverlays` and any text drawing are not modelled.
- Floating point: coordinates, zoom and pan are exact reals, so float rounding is not captured.
- GIF playback (frame timer, current frame, pause) is not modelled.
- Paths: UNC roots (`\\server\share`) are not treated as roots by `Paths.ParentPath`.
- Paths.Join: UNC root names are not root names, so `parent / name` with a UNC name or parent appends instead of replacing.
- Renderer.MarkupCommands: a stroke whose brush cannot be created is skipped (Renderer.cpp:350-351); the model assumes brush creation succeeds.
- Renderer.Frame: without a device context or target bitmap `Render` draws nothing (Renderer.cpp:416); the model always yields the frame. Text overlays are not part of it.
- App.App.SaveImage: `written` stands for the outcome of `SaveImageToFile` on `TempPath`; removing the original and renaming the temporary file (App.cpp:453-458) are file-system effects outside the model.
- `ApplyCrop` changes the `ImageData` shared with the cache in place. The model replaces the app's own copy, so that aliasing is not captured.
- Renderer.Renderer.Valid requires a positive viewport; the zero-size window before the first resize is not modelled.
- Renderer.Renderer.Resize: the guard on a missing swap chain or device and the swap-chain resize are not modelled.
- Renderer.Renderer.SetCropMode: brush creation and its failure are not modelled; only the state change is.
- Renderer.ImageRectFits: proved only up to zoom 1, because above it the image is meant to overflow the viewport.
- App.StrideAligned: bounds the stride only when `width * bpp + 3` fits in 32 bits; the wrapped value is modelled but not bounded.
- FolderNavigator.Navigator.GetAdjacentFiles: requires index <= size when count > 0, because reading before a past-the-end index is undefined behaviour in the source.
- FolderNavigator.Navigator.DeleteCurrentFile: requires index < size on a non-empty list, because the source reads the current entry unchecked.
- FolderNavigator.Navigator.RenameCurrentFile: requires index < size on a non-empty list, for the same reason.
- CommandLine.QuotedStripped: requires the command line to be shorter than 2^64 characters, the `size_t` range.
- The navigator's index is a natural number; a `size_t` wrap-around is not modelled.
