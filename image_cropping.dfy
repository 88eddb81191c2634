/** image_croping.py: finding the sheet in the photograph. The corners of a
    four-sided border are put in a fixed order and warped onto an upright rectangle;
    without such a border the sheet is straightened and cropped to the padded
    bounding box of the largest contour. Every OpenCV call is replaced by the
    numbers it would report (the contour's approximation, its minimum-area
    rectangle and its bounding box), and images by their sizes. */
module ImageCropping {
  import opened Basics
  import opened Raster
  import opened Shape

  /** A pixel position: x counts columns to the right, y counts rows downward. */
  datatype Point = Point(x: int, y: int)

  /** The two per-point quantities `order_points` ranks the points by:
      `pts.sum(axis=1)`, x + y, and `np.diff(pts, axis=1)`, y - x. */
  datatype Measure = Sum | Diff

  function Key(m: Measure, p: Point): int
  {
    match m
    case Sum => p.x + p.y
    case Diff => p.y - p.x
  }

  /** `np.argmin` of a key over the points: the first position holding the least key. */
  function ArgMinBy(pts: seq<Point>, key: Measure): (i: nat)
    requires |pts| > 0
    ensures i < |pts|
    ensures forall j :: 0 <= j < |pts| ==> Key(key, pts[i]) <= Key(key, pts[j])
    ensures forall j :: 0 <= j < i ==> Key(key, pts[j]) > Key(key, pts[i])
  {
    if |pts| == 1 then 0
    else
      var i := ArgMinBy(pts[..|pts| - 1], key);
      if Key(key, pts[|pts| - 1]) < Key(key, pts[i]) then |pts| - 1 else i
  }

  /** `np.argmax` of a key over the points: the first position holding the greatest key. */
  function ArgMaxBy(pts: seq<Point>, key: Measure): (i: nat)
    requires |pts| > 0
    ensures i < |pts|
    ensures forall j :: 0 <= j < |pts| ==> Key(key, pts[i]) >= Key(key, pts[j])
    ensures forall j :: 0 <= j < i ==> Key(key, pts[j]) < Key(key, pts[i])
  {
    if |pts| == 1 then 0
    else
      var i := ArgMaxBy(pts[..|pts| - 1], key);
      if Key(key, pts[|pts| - 1]) > Key(key, pts[i]) then |pts| - 1 else i
  }

  /** The corners `order_points` picks: least sum, least difference, greatest sum,
      greatest difference, in that order (top-left, top-right, bottom-right,
      bottom-left for an upright quadrilateral). */
  function OrderedCorners(pts: seq<Point>): (rect: seq<Point>)
    requires |pts| > 0
    ensures |rect| == 4 && forall k :: 0 <= k < 4 ==> rect[k] in pts
  {
    [pts[ArgMinBy(pts, Sum)], pts[ArgMinBy(pts, Diff)], pts[ArgMaxBy(pts, Sum)], pts[ArgMaxBy(pts, Diff)]]
  }

  /** `order_points`: fills a zeroed four-corner array in place. */
  method OrderPoints(pts: seq<Point>) returns (rect: seq<Point>)
    requires |pts| > 0
    ensures rect == OrderedCorners(pts)
    ensures forall k :: 0 <= k < 4 ==> rect[k] in pts
  {
    var topLeft, bottomRight := pts[ArgMinBy(pts, Sum)], pts[ArgMaxBy(pts, Sum)];
    var topRight, bottomLeft := pts[ArgMinBy(pts, Diff)], pts[ArgMaxBy(pts, Diff)];
    var corners := new Point[4](_ => Point(0, 0));
    corners[0] := topLeft;
    corners[2] := bottomRight;
    corners[1] := topRight;
    corners[3] := bottomLeft;
    rect := corners[..];
  }

  /** The corners of the axis-parallel rectangle [x0, x1] × [y0, y1]. */
  function Rectangle(x0: int, y0: int, x1: int, y1: int): seq<Point>
  {
    [Point(x0, y0), Point(x1, y0), Point(x1, y1), Point(x0, y1)]
  }

  /** Whichever order the four corners of an upright rectangle come in,
      `order_points` returns them as top-left, top-right, bottom-right, bottom-left. */
  lemma OrdersUprightRectangle(pts: seq<Point>, x0: int, y0: int, x1: int, y1: int)
    requires x0 < x1 && y0 < y1
    requires multiset(pts) == multiset(Rectangle(x0, y0, x1, y1))
    ensures OrderedCorners(pts) == Rectangle(x0, y0, x1, y1)
  {
    SameCorners(pts, Rectangle(x0, y0, x1, y1));
    SumPicksDiagonal(pts, x0, y0, x1, y1);
    DiffPicksAntiDiagonal(pts, x0, y0, x1, y1);
  }

  lemma SameCorners(pts: seq<Point>, r: seq<Point>)
    requires multiset(pts) == multiset(r)
    ensures |pts| == |r|
    ensures forall k :: 0 <= k < |r| ==> r[k] in pts
    ensures forall j :: 0 <= j < |pts| ==> pts[j] in r
  {
    assert |pts| == |multiset(pts)| == |multiset(r)| == |r|;
    forall k | 0 <= k < |r| ensures r[k] in pts {
      assert r[k] in multiset(r);
    }
    forall j | 0 <= j < |pts| ensures pts[j] in r {
      assert pts[j] in multiset(pts);
    }
  }

  /** The least and greatest sums of an upright rectangle's corners are at its
      top-left and bottom-right corners. */
  lemma SumPicksDiagonal(pts: seq<Point>, x0: int, y0: int, x1: int, y1: int)
    requires x0 < x1 && y0 < y1 && |pts| == 4
    requires forall k :: 0 <= k < 4 ==> Rectangle(x0, y0, x1, y1)[k] in pts
    requires forall j :: 0 <= j < |pts| ==> pts[j] in Rectangle(x0, y0, x1, y1)
    ensures pts[ArgMinBy(pts, Sum)] == Point(x0, y0)
    ensures pts[ArgMaxBy(pts, Sum)] == Point(x1, y1)
  {
    var r := Rectangle(x0, y0, x1, y1);
    ExtremeIsCorner(pts, r, Sum, ArgMinBy(pts, Sum), 0, false);
    ExtremeIsCorner(pts, r, Sum, ArgMaxBy(pts, Sum), 2, true);
  }

  /** The least and greatest differences y - x are at the top-right and bottom-left
      corners. */
  lemma DiffPicksAntiDiagonal(pts: seq<Point>, x0: int, y0: int, x1: int, y1: int)
    requires x0 < x1 && y0 < y1 && |pts| == 4
    requires forall k :: 0 <= k < 4 ==> Rectangle(x0, y0, x1, y1)[k] in pts
    requires forall j :: 0 <= j < |pts| ==> pts[j] in Rectangle(x0, y0, x1, y1)
    ensures pts[ArgMinBy(pts, Diff)] == Point(x1, y0)
    ensures pts[ArgMaxBy(pts, Diff)] == Point(x0, y1)
  {
    var r := Rectangle(x0, y0, x1, y1);
    assert Key(Diff, r[0]) == y0 - x0 && Key(Diff, r[1]) == y0 - x1;
    assert Key(Diff, r[2]) == y1 - x1 && Key(Diff, r[3]) == y1 - x0;
    var lo, hi := ArgMinBy(pts, Diff), ArgMaxBy(pts, Diff);
    ExtremeIsCorner(pts, r, Diff, lo, 1, false);
    ExtremeIsCorner(pts, r, Diff, hi, 3, true);
  }

  /** When the points are the corners `r`, and corner `c` alone holds the least (or
      greatest) measure among them, a point of least (greatest) measure is that corner. */
  lemma ExtremeIsCorner(pts: seq<Point>, r: seq<Point>, m: Measure, a: nat, c: nat, greatest: bool)
    requires forall j :: 0 <= j < |pts| ==> pts[j] in r
    requires c < |r| && r[c] in pts && a < |pts|
    requires !greatest ==> forall j :: 0 <= j < |pts| ==> Key(m, pts[a]) <= Key(m, pts[j])
    requires greatest ==> forall j :: 0 <= j < |pts| ==> Key(m, pts[a]) >= Key(m, pts[j])
    requires !greatest ==> forall k :: 0 <= k < |r| && k != c ==> Key(m, r[c]) < Key(m, r[k])
    requires greatest ==> forall k :: 0 <= k < |r| && k != c ==> Key(m, r[c]) > Key(m, r[k])
    ensures pts[a] == r[c]
  {
    var j :| 0 <= j < |pts| && pts[j] == r[c];
    var k :| 0 <= k < |r| && r[k] == pts[a];
    assert Key(m, pts[j]) == Key(m, r[c]);
  }

  /** The sum/difference rule can pick the same point twice: for a square turned by
      45 degrees the top vertex has both the least sum and the least difference. */
  lemma DiamondRepeatsCorner()
    ensures var rect := OrderedCorners([Point(1, 0), Point(2, 1), Point(1, 2), Point(0, 1)]);
            rect[0] == rect[1] == Point(1, 0)
  {
    var pts := [Point(1, 0), Point(2, 1), Point(1, 2), Point(0, 1)];
    assert Key(Sum, pts[0]) == 1 && Key(Sum, pts[3]) == 1;
    assert ArgMinBy(pts, Sum) == 0;
    assert Key(Diff, pts[0]) == -1 && Key(Diff, pts[1]) == -1;
    assert ArgMinBy(pts, Diff) == 0;
  }

  /** `int(np.sqrt(n))` for a whole number n: the integer square root. */
  function ISqrt(n: nat): (r: nat)
    ensures r * r <= n < (r + 1) * (r + 1)
    decreases n
  {
    if n < 2 then n
    else
      var s := ISqrt(n / 4);
      var r := 2 * s;
      SqrtStep(n, s);
      if (r + 1) * (r + 1) <= n then r + 1 else r
  }

  lemma SqrtStep(n: nat, s: nat)
    requires s * s <= n / 4 < (s + 1) * (s + 1)
    ensures (2 * s) * (2 * s) <= n < (2 * s + 2) * (2 * s + 2)
  {
    DivBrackets(n, 4);
    assert (2 * s) * (2 * s) == 4 * (s * s);
    assert (2 * s + 2) * (2 * s + 2) == 4 * ((s + 1) * (s + 1));
  }

  lemma SquareMonotonic(a: nat, b: nat)
    requires a <= b
    ensures a * a <= b * b
  {
    MulMonotonic(a, b, a);
    MulMonotonic(a, b, b);
    assert b * a == a * b;
  }

  /** The square root of a perfect square is exact. */
  lemma ISqrtOfSquare(d: nat)
    ensures ISqrt(d * d) == d
  {
    var n := d * d;
    assert (d + 1) * (d + 1) == n + 2 * d + 1;
    SqrtUnique(n, ISqrt(n), d);
  }

  /** A whole number has one integer square root. */
  lemma SqrtUnique(n: nat, r: nat, d: nat)
    requires r * r <= n < (r + 1) * (r + 1)
    requires d * d <= n < (d + 1) * (d + 1)
    ensures r == d
  {
    if r < d {
      SquareMonotonic(r + 1, d);
    } else if d < r {
      SquareMonotonic(d + 1, r);
    }
  }

  /** `int(np.sqrt((p.x - q.x)**2 + (p.y - q.y)**2))`: a Euclidean edge length, truncated. */
  function EdgeLength(p: Point, q: Point): nat
  {
    var dx, dy := p.x - q.x, p.y - q.y;
    SquareNonNegative(dx);
    SquareNonNegative(dy);
    ISqrt(dx * dx + dy * dy)
  }

  lemma SquareNonNegative(d: int)
    ensures d * d >= 0
  {
    if d < 0 {
      MulMonotonic(d, 0, -d);
    }
  }

  /** A width and a height in pixels, in NumPy's `shape[:2]` order. */
  datatype Size = Size(height: nat, width: nat)

  /** `four_point_transform`'s output size from the ordered corners (tl, tr, br, bl):
      the longer of the bottom and top edges wide, the longer of the right and left
      edges high. */
  function WarpSize(rect: seq<Point>): (size: Size)
    requires |rect| == 4
    ensures size.width >= EdgeLength(rect[2], rect[3]) && size.width >= EdgeLength(rect[1], rect[0])
    ensures size.width == EdgeLength(rect[2], rect[3]) || size.width == EdgeLength(rect[1], rect[0])
    ensures size.height >= EdgeLength(rect[1], rect[2]) && size.height >= EdgeLength(rect[0], rect[3])
    ensures size.height == EdgeLength(rect[1], rect[2]) || size.height == EdgeLength(rect[0], rect[3])
  {
    var tl, tr, br, bl := rect[0], rect[1], rect[2], rect[3];
    Size(Max(EdgeLength(tr, br), EdgeLength(tl, bl)), Max(EdgeLength(br, bl), EdgeLength(tr, tl)))
  }

  /** `dst`: the corners of the output image, in the same order as `rect`: an upright
      box from the origin to (width - 1, height - 1), clockwise from the top left.
      Measured as `rect` is, its edges are one pixel shorter than the output size. */
  function Destination(size: Size): (dst: seq<Point>)
    ensures |dst| == 4 && dst[0] == Point(0, 0) && dst[2] == Point(size.width - 1, size.height - 1)
    ensures dst[1].y == dst[0].y && dst[1].x == dst[2].x && dst[3].x == dst[0].x && dst[3].y == dst[2].y
    ensures size.width >= 2 && size.height >= 2 ==> WarpSize(dst) == Size(size.height - 1, size.width - 1)
  {
    var dst := Rectangle(0, 0, size.width - 1, size.height - 1);
    assert size.width >= 2 && size.height >= 2 ==> WarpSize(dst) == Size(size.height - 1, size.width - 1) by {
      if size.width >= 2 && size.height >= 2 {
        UprightWarpSize(0, 0, size.width - 1, size.height - 1);
      }
    }
    dst
  }

  /** An edge parallel to an axis is measured exactly. */
  lemma AxisEdgeLength(p: Point, q: Point)
    requires p.x == q.x || p.y == q.y
    ensures EdgeLength(p, q) == if p.x == q.x then Abs(p.y - q.y) else Abs(p.x - q.x)
  {
    var dx, dy := p.x - q.x, p.y - q.y;
    var d := if p.x == q.x then Abs(dy) else Abs(dx);
    assert dx * dx + dy * dy == d * d by {
      if p.x == q.x {
        assert dx * dx == 0;
        assert dy * dy == d * d;
      } else {
        assert dy * dy == 0;
        assert dx * dx == d * d;
      }
    }
    ISqrtOfSquare(d);
  }

  function Abs(v: int): nat { if v < 0 then -v else v }

  /** A sheet photographed squarely is warped onto an image exactly its size. */
  lemma UprightWarpSize(x0: int, y0: int, x1: int, y1: int)
    requires x0 < x1 && y0 < y1
    ensures WarpSize(Rectangle(x0, y0, x1, y1)) == Size(y1 - y0, x1 - x0)
  {
    var r := Rectangle(x0, y0, x1, y1);
    AxisEdgeLength(r[1], r[2]);
    AxisEdgeLength(r[0], r[3]);
    AxisEdgeLength(r[2], r[3]);
    AxisEdgeLength(r[1], r[0]);
  }

  /** The size of `cv2.warpPerspective(image, M, (maxWidth, maxHeight))`: the requested
      size, except that OpenCV reads a size with a zero side as "empty" and then gives
      the output the size of the source image. */
  function WarpOutput(source: Size, rect: seq<Point>): (out: Size)
    requires |rect| == 4
    ensures WarpSize(rect).width > 0 && WarpSize(rect).height > 0 ==> out == WarpSize(rect)
    ensures WarpSize(rect).width == 0 || WarpSize(rect).height == 0 ==> out == source
  {
    var ws := WarpSize(rect);
    if ws.width == 0 || ws.height == 0 then source else ws
  }

  /** An upright rectangle's corners, in any order, warp onto an image of exactly the
      rectangle's size, whatever the source. */
  lemma UprightWarpOutput(source: Size, pts: seq<Point>, x0: int, y0: int, x1: int, y1: int)
    requires x0 < x1 && y0 < y1
    requires multiset(pts) == multiset(Rectangle(x0, y0, x1, y1))
    ensures WarpOutput(source, OrderedCorners(pts)) == Size(y1 - y0, x1 - x0)
  {
    OrdersUprightRectangle(pts, x0, y0, x1, y1);
    UprightWarpSize(x0, y0, x1, y1);
  }

  /** A tall, narrow kite makes `order_points` repeat two corners, so the requested
      width is 0 and the warp keeps the size of the source image. */
  lemma KiteKeepsSourceSize(source: Size)
    ensures var rect := OrderedCorners([Point(5, 0), Point(8, 5), Point(5, 20), Point(2, 5)]);
            rect == [Point(5, 0), Point(5, 0), Point(5, 20), Point(5, 20)] &&
            WarpSize(rect) == Size(20, 0) &&
            WarpOutput(source, rect) == source
  {
    var pts := [Point(5, 0), Point(8, 5), Point(5, 20), Point(2, 5)];
    assert ArgMinBy(pts, Sum) == 0 && ArgMaxBy(pts, Sum) == 2;
    assert ArgMinBy(pts, Diff) == 0 && ArgMaxBy(pts, Diff) == 2;
    var rect := OrderedCorners(pts);
    AxisEdgeLength(rect[1], rect[2]);
    AxisEdgeLength(rect[0], rect[3]);
    AxisEdgeLength(rect[2], rect[3]);
    AxisEdgeLength(rect[1], rect[0]);
  }

  /** The destination corners are already in the order `order_points` produces. */
  lemma DestinationInOrder(size: Size)
    requires size.height >= 2 && size.width >= 2
    ensures OrderedCorners(Destination(size)) == Destination(size)
  {
    OrdersUprightRectangle(Destination(size), 0, 0, size.width - 1, size.height - 1);
  }

  /** `padding` around the warped sheet and around the fallback crop. */
  const Padding: int := 10

  /** What the contour search found in the oriented image: nothing; a largest
      contour whose polygon approximation has four vertices; or one that does not,
      with its minimum-area rectangle (width, height, angle) and bounding box. */
  datatype Border =
    | NoContours
    | Quadrilateral(corners: seq<Point>)
    | Irregular(rectWidth: real, rectHeight: real, rectAngle: real,
                boxX: int, boxY: int, boxWidth: int, boxHeight: int)

  /** What `detect_and_crop_border` returns: the oriented image itself; the padded
      warp of the quadrilateral; or the window of the rotated image that is cropped. */
  datatype Cropped =
    | Unchanged(size: Size)
    | Warped(corners: seq<Point>, size: Size)
    | Straightened(angle: real, rows: Span, cols: Span)

  /** `height < width`: the photograph is rotated a quarter turn clockwise. */
  function Orient(size: Size): (oriented: Size)
    ensures oriented.height >= oriented.width
    ensures oriented == size || oriented == Size(size.width, size.height)
    ensures size.height >= size.width ==> oriented == size
  {
    if size.height < size.width then Size(size.width, size.height) else size
  }

  /** `detect_and_crop_border`, with the image read by the caller (None when it could
      not be read) and the contour search's findings given as `border`. */
  method DetectAndCropBorder(image: Option<Size>, border: Border) returns (r: Outcome<Cropped>)
    requires border.Quadrilateral? ==> |border.corners| == 4
    ensures image.None? <==> r.Raised?
    ensures image.Some? && border.NoContours? ==> r == Done(Unchanged(Orient(image.value)))
    ensures image.Some? && border.Quadrilateral? ==>
              var rect := OrderedCorners(border.corners);
              var ws := WarpOutput(Orient(image.value), rect);
              r == Done(Warped(rect, Size(ws.height + 2 * Padding, ws.width + 2 * Padding)))
    ensures image.Some? && border.Irregular? ==>
              r.Done? && r.value.Straightened? &&
              r.value == FallbackCrop(Orient(image.value), border)
  {
    if image.None? {
      return Raised("ValueError");
    }
    var size := image.value;
    if size.height < size.width {
      size := Size(size.width, size.height);
    }
    assert size == Orient(image.value);
    match border {
      case NoContours =>
        return Done(Unchanged(size));
      case Quadrilateral(corners) =>
        var rect := OrderPoints(corners);
        var warped := WarpSize(rect);
        if warped.width == 0 || warped.height == 0 {
          warped := size;
        }
        return Done(Warped(rect, Size(warped.height + 2 * Padding, warped.width + 2 * Padding)));
      case Irregular(_, _, _, _, _, _, _) =>
        var cropped := StraightenAndCrop(size, border);
        return Done(cropped);
    }
  }

  /** The fallback path of `detect_and_crop_border`, reassigning the angle and the
      bounding box step by step as the source does. */
  method StraightenAndCrop(size: Size, border: Border) returns (cropped: Cropped)
    requires border.Irregular?
    ensures cropped == FallbackCrop(size, border)
  {
    var width := Trunc(border.rectWidth);
    var height := Trunc(border.rectHeight);
    var angle := border.rectAngle;
    if width < height {
      angle := angle + 90.0;
    }
    var x, y, w, h := border.boxX, border.boxY, border.boxWidth, border.boxHeight;
    x := Max(0, x - Padding);
    y := Max(0, y - Padding);
    w := Min(size.width - x, w + 2 * Padding);
    h := Min(size.height - y, h + 2 * Padding);
    cropped := Straightened(angle, Slice(size.height, Some(y), Some(y + h)), Slice(size.width, Some(x), Some(x + w)));
  }

  /** The fallback path: the angle is turned by 90 degrees when the rectangle's
      truncated width is below its height, and the bounding box is padded by 10 on
      every side, clamped to the image, and cut out of the straightened image. */
  function FallbackCrop(size: Size, border: Border): (c: Cropped)
    requires border.Irregular?
    ensures c.Straightened? && c.rows.Valid() && c.cols.Valid()
    ensures c.rows.hi <= size.height && c.cols.hi <= size.width
    ensures Trunc(border.rectWidth) < Trunc(border.rectHeight) ==> c.angle == border.rectAngle + 90.0
    ensures Trunc(border.rectWidth) >= Trunc(border.rectHeight) ==> c.angle == border.rectAngle
  {
    var angle := if Trunc(border.rectWidth) < Trunc(border.rectHeight) then border.rectAngle + 90.0 else border.rectAngle;
    var x := Max(0, border.boxX - Padding);
    var y := Max(0, border.boxY - Padding);
    var w := Min(size.width - x, border.boxWidth + 2 * Padding);
    var h := Min(size.height - y, border.boxHeight + 2 * Padding);
    Straightened(angle, Slice(size.height, Some(y), Some(y + h)), Slice(size.width, Some(x), Some(x + w)))
  }

  /** The fallback window never leaves the image and is at most 20 pixels wider and
      higher than the bounding box. For a bounding box inside the image it contains
      the whole box and starts at most 10 pixels before it. */
  lemma FallbackWindow(size: Size, border: Border)
    requires border.Irregular? && border.boxWidth >= 0 && border.boxHeight >= 0
    ensures var c := FallbackCrop(size, border);
            c.rows.hi <= size.height && c.cols.hi <= size.width &&
            c.rows.Length() <= border.boxHeight + 2 * Padding &&
            c.cols.Length() <= border.boxWidth + 2 * Padding
    ensures var c := FallbackCrop(size, border);
            0 <= border.boxX && border.boxX + border.boxWidth <= size.width ==>
              border.boxX - Padding <= c.cols.lo <= border.boxX && border.boxX + border.boxWidth <= c.cols.hi
    ensures var c := FallbackCrop(size, border);
            0 <= border.boxY && border.boxY + border.boxHeight <= size.height ==>
              border.boxY - Padding <= c.rows.lo <= border.boxY && border.boxY + border.boxHeight <= c.rows.hi
  {
  }

  /** The padding clamped away at the left edge is not given up but moved to the
      right: a box that starts in the first 10 columns gets a window that starts at
      column 0 and runs 20 columns past the box's width (when the image is wide
      enough), so it extends 20 - x columns beyond the box on the right. */
  lemma FallbackShiftsClampedPadding(size: Size, border: Border)
    requires border.Irregular? && 0 <= border.boxX < Padding && 0 <= border.boxWidth
    requires border.boxWidth + 2 * Padding <= size.width
    ensures FallbackCrop(size, border).cols == Span(0, border.boxWidth + 2 * Padding)
    ensures FallbackCrop(size, border).cols.hi - (border.boxX + border.boxWidth) == 2 * Padding - border.boxX
  {
  }

  /** `standard_height` and `standard_width`. */
  const StandardSize: Size := Size(600, 800)

  /** Whether a result of `detect_and_crop_border` holds no pixels, which makes the
      grayscale conversion that follows raise. */
  predicate IsEmpty(c: Cropped)
  {
    match c
    case Unchanged(size) => size.height <= 0 || size.width <= 0
    case Warped(_, size) => size.height <= 0 || size.width <= 0
    case Straightened(_, rows, cols) => rows.hi <= rows.lo || cols.hi <= cols.lo
  }

  /** `process_images`: any exception yields None (an unreadable photograph, or a
      crop without pixels); otherwise the enhanced image is resized to 600 rows by
      800 columns. The padded warp always has pixels. */
  method ProcessImages(image: Option<Size>, border: Border) returns (result: Option<Size>)
    requires border.Quadrilateral? ==> |border.corners| == 4
    ensures image.None? ==> result.None?
    ensures result.Some? ==> result.value == StandardSize
    ensures image.Some? && border.NoContours? ==>
              (result.Some? <==> image.value.height > 0 && image.value.width > 0)
    ensures image.Some? && border.Quadrilateral? ==> result == Some(StandardSize)
    ensures image.Some? && border.Irregular? ==>
              (result.Some? <==> !IsEmpty(FallbackCrop(Orient(image.value), border)))
  {
    var cropped := DetectAndCropBorder(image, border);
    if cropped.Raised? || IsEmpty(cropped.value) {
      return None;
    }
    return Some(StandardSize);
  }
}
