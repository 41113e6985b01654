/**
 * Value types shared by the renderer and the application: Direct2D points,
 * rectangles and colours, the WIC integer rectangle, the size of a decoded
 * bitmap, and the C++ integer operations the source relies on.
 */
module Geometry {

  /** D2D1_POINT_2F, with exact reals in place of floats. */
  datatype Point = Point(x: real, y: real)

  /** D2D1_RECT_F: left, top, right and bottom edges. */
  datatype Rect = Rect(left: real, top: real, right: real, bottom: real)

  /** WICRect: an integer origin and an integer size. */
  datatype IntRect = IntRect(x: int, y: int, width: int, height: int)

  /** D2D1_COLOR_F. */
  datatype Color = Color(r: real, g: real, b: real, a: real)

  const Red := Color(1.0, 0.0, 0.0, 1.0)
  const White := Color(1.0, 1.0, 1.0, 1.0)

  const ZeroRect := Rect(0.0, 0.0, 0.0, 0.0)
  const ZeroIntRect := IntRect(0, 0, 0, 0)

  /** A pixel dimension of a decoded bitmap: decoders never produce an empty bitmap. */
  type Dim = n: int | n > 0 witness 1

  /** An ID2D1Bitmap, represented by its pixel size (GetSize at 96 DPI). */
  datatype Bitmap = Bitmap(width: Dim, height: Dim)

  function Width(r: Rect): real { r.right - r.left }

  function Height(r: Rect): real { r.bottom - r.top }

  /** The test RenderCropOverlay and ApplyCrop use to reject a selection. */
  predicate IsEmpty(r: Rect) { r.right <= r.left || r.bottom <= r.top }

  /** Closed containment of a point in a rectangle. */
  predicate Contains(r: Rect, x: real, y: real) {
    r.left <= x <= r.right && r.top <= y <= r.bottom
  }

  /** Open containment: the point lies strictly inside the rectangle. */
  predicate StrictlyInside(r: Rect, x: real, y: real) {
    r.left < x < r.right && r.top < y < r.bottom
  }

  function Shift(r: Rect, dx: real, dy: real): Rect {
    Rect(r.left + dx, r.top + dy, r.right + dx, r.bottom + dy)
  }

  function Min(a: real, b: real): real { if a <= b then a else b }

  function Max(a: real, b: real): real { if a <= b then b else a }

  function MinInt(a: int, b: int): int { if a <= b then a else b }

  function MaxInt(a: int, b: int): int { if a <= b then b else a }

  /** std::clamp(v, lo, hi). */
  function Clamp(v: real, lo: real, hi: real): (r: real)
    requires lo <= hi
    ensures lo <= r <= hi
    ensures lo <= v <= hi ==> r == v
    ensures v < lo ==> r == lo
    ensures hi < v ==> r == hi
  {
    if v < lo then lo else if hi < v then hi else v
  }

  /** static_cast<int> of a float: truncation toward zero. */
  function Trunc(x: real): (r: int)
    ensures 0.0 <= x ==> 0 <= r && r as real <= x < r as real + 1.0
    ensures x < 0.0 ==> r <= 0 && r as real - 1.0 < x <= r as real
  {
    if 0.0 <= x then x.Floor else -((-x).Floor)
  }

  /** The C++ expression `a % 360`, which truncates toward zero (Dafny's % is Euclidean). */
  function CppRem360(a: int): (r: int)
    ensures 0 <= a ==> 0 <= r < 360 && r == a % 360
    ensures 0 <= a < 360 ==> r == a
    ensures a < 0 ==> -360 < r <= 0 && (a - r) % 360 == 0
  {
    if 0 <= a then a % 360 else -((-a) % 360)
  }
}
