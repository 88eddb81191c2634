/** image_check.py, `has_black_border`: whether the four edges of a grayscale image
    are each at least half black. The grayscale image is given (None when the file
    cannot be read); the per-edge report that the script writes to a JSON file is
    returned instead. */
module ImageCheck {
  import opened Basics
  import opened Raster

  /** The defaults of `has_black_border`. */
  const DefaultThickness: int := 1
  const DefaultBlackThreshold: int := 10

  /** The edges in the order of the `edges` dictionary. */
  const EdgeNames: seq<string> := ["top", "bottom", "left", "right"]
  const EdgeCount: nat := 4

  /** The rows and columns of edge k (top, bottom, left, right) of an image with
      `height` rows and `width` columns: `gray[:t, :]`, `gray[-t:, :]`,
      `gray[:, :t]` and `gray[:, -t:]`. */
  function EdgeSpans(height: nat, width: nat, t: int, k: nat): (s: (Span, Span))
    requires k < EdgeCount
    ensures s.0.Valid() && s.0.hi <= height && s.1.Valid() && s.1.hi <= width
  {
    if k == 0 then (Slice(height, None, Some(t)), Slice(width, None, None))
    else if k == 1 then (Slice(height, Some(-t), None), Slice(width, None, None))
    else if k == 2 then (Slice(height, None, None), Slice(width, None, Some(t)))
    else (Slice(height, None, None), Slice(width, Some(-t), None))
  }

  function Edge(gray: Image<int>, t: int, k: nat): (edge: Image<int>)
    requires gray.Valid() && k < EdgeCount
    ensures edge.Valid()
  {
    var (rows, cols) := EdgeSpans(gray.Height(), gray.width, t, k);
    Crop(gray, rows, cols)
  }

  /** `np.sum(pixels < threshold)`. */
  function CountBelow(pixels: seq<int>, threshold: int): (n: nat)
    ensures n <= |pixels|
  {
    if pixels == [] then 0
    else CountBelow(pixels[..|pixels| - 1], threshold) + (if pixels[|pixels| - 1] < threshold then 1 else 0)
  }

  /** One entry of `results['edges']`. The percentage is None where NumPy's 0/0
      gives NaN, which compares false both with `>= 50` and with `< 50`. */
  datatype EdgeReport = EdgeReport(blackPixels: nat, totalPixels: nat, percentage: Option<real>, hasBorder: bool)

  function EdgeReportOf(edge: Image<int>, threshold: int): EdgeReport
  {
    var pixels := Flatten(edge.rows);
    var black := CountBelow(pixels, threshold);
    var total := edge.Height() * edge.width;
    var percentage := if total == 0 then None else Some(black as real / total as real * 100.0);
    EdgeReport(black, total, percentage, percentage.Some? && percentage.value >= 50.0)
  }

  /** `black_percentage < 50`: the test that clears the flag. */
  predicate ClearsFlag(e: EdgeReport)
  {
    e.percentage.Some? && e.percentage.value < 50.0
  }

  /** What `has_black_border` returns: False for an unreadable image, otherwise
      True unless some edge is less than half black. */
  function HasBorder(gray: Option<Image<int>>, t: int, threshold: int): bool
    requires gray.Some? ==> gray.value.Valid()
  {
    match gray
    case None => false
    case Some(g) =>
      forall k: nat :: k < EdgeCount ==> !ClearsFlag(EdgeReportOf(Edge(g, t, k), threshold))
  }

  /** `has_black_border` step by step: the loop over the four edges fills in the
      report and lowers the flag. */
  method HasBlackBorder(gray: Option<Image<int>>, t: int, threshold: int)
    returns (hasBorder: bool, report: seq<(string, EdgeReport)>)
    requires gray.Some? ==> gray.value.Valid()
    ensures hasBorder == HasBorder(gray, t, threshold)
    ensures gray.None? ==> report == []
    ensures gray.Some? ==>
              |report| == EdgeCount &&
              forall k :: 0 <= k < |report| ==>
                report[k] == (EdgeNames[k], EdgeReportOf(Edge(gray.value, t, k), threshold))
  {
    if gray.None? {
      return false, [];
    }
    hasBorder := true;
    report := [];
    assert |EdgeNames| == EdgeCount;
    for k := 0 to EdgeCount
      invariant |report| == k
      invariant forall j :: 0 <= j < k ==> report[j] == (EdgeNames[j], EdgeReportOf(Edge(gray.value, t, j), threshold))
      invariant hasBorder == forall j: nat :: j < k ==> !ClearsFlag(EdgeReportOf(Edge(gray.value, t, j), threshold))
    {
      var e := EdgeReportOf(Edge(gray.value, t, k), threshold);
      report := report + [(EdgeNames[k], e)];
      if e.percentage.Some? && e.percentage.value < 50.0 {
        hasBorder := false;
      }
    }
  }

  /** The 50 % rule in integers: `black / total * 100 >= 50` iff `2 * black >= total`. */
  lemma PercentageRule(black: nat, total: nat)
    requires total > 0
    ensures black as real / total as real * 100.0 >= 50.0 <==> 2 * black >= total
  {
    var q := black as real / total as real;
    assert q * total as real == black as real;
    if q * 100.0 >= 50.0 {
      assert q >= 0.5;
      assert q * total as real >= 0.5 * total as real;
    } else {
      assert q < 0.5;
      assert q * total as real < 0.5 * total as real;
    }
  }

  /** An edge is reported bordered iff it has pixels and at least half of them are
      black; it lowers the flag iff it has pixels and fewer than half are black, so an
      edge without pixels (NaN) leaves the flag as it was. The counts are the edge's
      size and its pixels below the threshold. */
  lemma EdgeReportSpec(edge: Image<int>, threshold: int)
    requires edge.Valid()
    ensures var e := EdgeReportOf(edge, threshold);
            e.totalPixels == |Flatten(edge.rows)| && e.blackPixels <= e.totalPixels &&
            (e.hasBorder <==> e.totalPixels > 0 && 2 * e.blackPixels >= e.totalPixels) &&
            (ClearsFlag(e) <==> e.totalPixels > 0 && 2 * e.blackPixels < e.totalPixels)
  {
    FlattenLength(edge.rows, edge.width);
    var e := EdgeReportOf(edge, threshold);
    if e.totalPixels > 0 {
      PercentageRule(e.blackPixels, e.totalPixels);
    }
  }

  /** With 1 <= t <= height and t <= width the edges are the top t rows, the bottom t
      rows, the left t columns and the right t columns, each across the whole image. */
  lemma EdgeSpansWithin(height: nat, width: nat, t: int)
    requires 1 <= t <= height && t <= width
    ensures EdgeSpans(height, width, t, 0) == (Span(0, t), Span(0, width))
    ensures EdgeSpans(height, width, t, 1) == (Span(height - t, height), Span(0, width))
    ensures EdgeSpans(height, width, t, 2) == (Span(0, height), Span(0, t))
    ensures EdgeSpans(height, width, t, 3) == (Span(0, height), Span(width - t, width))
  {
  }

  /** For an image and a thickness of at least one pixel every edge has pixels. */
  lemma EdgesHavePixels(gray: Image<int>, t: int, k: nat)
    requires gray.Valid() && gray.Height() >= 1 && gray.width >= 1 && t >= 1 && k < EdgeCount
    ensures Edge(gray, t, k).Height() * Edge(gray, t, k).width >= 1
  {
    var (rows, cols) := EdgeSpans(gray.Height(), gray.width, t, k);
    assert rows.Length() >= 1 && cols.Length() >= 1;
    var e := Edge(gray, t, k);
    Basics.MulMonotonic(1, e.Height(), e.width);
  }

  /** So with a thickness of at least one pixel the result is True iff each edge is
      at least half black. */
  lemma BorderRule(gray: Image<int>, t: int, threshold: int)
    requires gray.Valid() && gray.Height() >= 1 && gray.width >= 1 && t >= 1
    ensures HasBorder(Some(gray), t, threshold) <==>
              forall k: nat :: k < EdgeCount ==>
                var e := EdgeReportOf(Edge(gray, t, k), threshold);
                2 * e.blackPixels >= e.totalPixels
  {
    forall k: nat | k < EdgeCount
      ensures var e := EdgeReportOf(Edge(gray, t, k), threshold);
              ClearsFlag(e) <==> 2 * e.blackPixels < e.totalPixels
    {
      EdgeReportSpec(Edge(gray, t, k), threshold);
      EdgesHavePixels(gray, t, k);
    }
  }

  /** At the defaults of `has_black_border` (a one-pixel frame, pixels below 10 count
      as black) the edges are the first and last row and the first and last column,
      and a readable image has a border iff each of them is at least half black. */
  lemma DefaultBorder(gray: Image<int>)
    requires gray.Valid() && gray.Height() >= 1 && gray.width >= 1
    ensures var (h, w) := (gray.Height(), gray.width);
            EdgeSpans(h, w, DefaultThickness, 0) == (Span(0, 1), Span(0, w)) &&
            EdgeSpans(h, w, DefaultThickness, 1) == (Span(h - 1, h), Span(0, w)) &&
            EdgeSpans(h, w, DefaultThickness, 2) == (Span(0, h), Span(0, 1)) &&
            EdgeSpans(h, w, DefaultThickness, 3) == (Span(0, h), Span(w - 1, w))
    ensures HasBorder(Some(gray), DefaultThickness, DefaultBlackThreshold) <==>
              forall k: nat :: k < EdgeCount ==>
                var e := EdgeReportOf(Edge(gray, DefaultThickness, k), DefaultBlackThreshold);
                2 * e.blackPixels >= e.totalPixels
  {
    EdgeSpansWithin(gray.Height(), gray.width, DefaultThickness);
    BorderRule(gray, DefaultThickness, DefaultBlackThreshold);
  }

  /** `img[0:h, 0:w]` is the image itself. */
  lemma CropWhole(gray: Image<int>)
    requires gray.Valid()
    ensures Crop(gray, Span(0, gray.Height()), Span(0, gray.width)) == gray
  {
    var c := Crop(gray, Span(0, gray.Height()), Span(0, gray.width));
    forall r | 0 <= r < gray.Height() ensures c.rows[r] == gray.rows[r] {
      assert gray.rows[r][0..gray.width] == gray.rows[r];
    }
  }

  /** A thickness of 0 selects no rows for the top edge and no columns for the left
      one, ... */
  lemma ZeroThicknessTop(gray: Image<int>)
    requires gray.Valid()
    ensures Edge(gray, 0, 0).Height() == 0
  {
  }

  lemma ZeroThicknessLeft(gray: Image<int>)
    requires gray.Valid()
    ensures Edge(gray, 0, 2).width == 0
  {
  }

  /** ... while `gray[-0:]` is the whole image. */
  lemma ZeroThicknessWholeEdges(gray: Image<int>)
    requires gray.Valid()
    ensures Edge(gray, 0, 1) == gray && Edge(gray, 0, 3) == gray
  {
    var whole := (Span(0, gray.Height()), Span(0, gray.width));
    assert EdgeSpans(gray.Height(), gray.width, 0, 1) == whole;
    assert EdgeSpans(gray.Height(), gray.width, 0, 3) == whole;
    CropWhole(gray);
  }

  /** An edge without pixels never lowers the flag. */
  lemma EmptyEdgeKeepsFlag(edge: Image<int>, threshold: int)
    requires edge.Height() == 0 || edge.width == 0
    ensures !ClearsFlag(EdgeReportOf(edge, threshold))
  {
  }

  /** So with a thickness of 0 the top and left edges leave the flag alone, ... */
  lemma ZeroTopKeepsFlag(gray: Image<int>, threshold: int)
    requires gray.Valid()
    ensures !ClearsFlag(EdgeReportOf(Edge(gray, 0, 0), threshold))
  {
    var e := Edge(gray, 0, 0);
    ZeroThicknessTop(gray);
    EmptyEdgeKeepsFlag(e, threshold);
    assert !ClearsFlag(EdgeReportOf(e, threshold));
  }

  lemma ZeroLeftKeepsFlag(gray: Image<int>, threshold: int)
    requires gray.Valid()
    ensures !ClearsFlag(EdgeReportOf(Edge(gray, 0, 2), threshold))
  {
    ZeroThicknessLeft(gray);
    EmptyEdgeKeepsFlag(Edge(gray, 0, 2), threshold);
  }

  /** The result is the conjunction of the four edges' tests. */
  lemma HasBorderEdges(gray: Image<int>, t: int, threshold: int)
    requires gray.Valid()
    ensures HasBorder(Some(gray), t, threshold) <==>
              !ClearsFlag(EdgeReportOf(Edge(gray, t, 0), threshold)) &&
              !ClearsFlag(EdgeReportOf(Edge(gray, t, 1), threshold)) &&
              !ClearsFlag(EdgeReportOf(Edge(gray, t, 2), threshold)) &&
              !ClearsFlag(EdgeReportOf(Edge(gray, t, 3), threshold))
  {
    if !ClearsFlag(EdgeReportOf(Edge(gray, t, 0), threshold)) &&
       !ClearsFlag(EdgeReportOf(Edge(gray, t, 1), threshold)) &&
       !ClearsFlag(EdgeReportOf(Edge(gray, t, 2), threshold)) &&
       !ClearsFlag(EdgeReportOf(Edge(gray, t, 3), threshold))
    {
      forall k: nat | k < EdgeCount ensures !ClearsFlag(EdgeReportOf(Edge(gray, t, k), threshold)) {
        assert k == 0 || k == 1 || k == 2 || k == 3;
      }
    }
  }

  /** ... so the flag is lowered only by the whole image, ... */
  lemma ZeroThicknessFlag(gray: Image<int>, threshold: int)
    requires gray.Valid()
    ensures HasBorder(Some(gray), 0, threshold) <==> !ClearsFlag(EdgeReportOf(gray, threshold))
  {
    HasBorderEdges(gray, 0, threshold);
    ZeroTopKeepsFlag(gray, threshold);
    ZeroLeftKeepsFlag(gray, threshold);
    ZeroThicknessWholeEdges(gray);
  }

  /** ... and the result is whether the whole image is at least half black. */
  lemma ZeroThickness(gray: Image<int>, threshold: int)
    requires gray.Valid() && gray.Height() >= 1 && gray.width >= 1
    ensures var e := EdgeReportOf(gray, threshold);
            HasBorder(Some(gray), 0, threshold) <==> 2 * e.blackPixels >= e.totalPixels
  {
    ZeroThicknessFlag(gray, threshold);
    EdgeReportSpec(gray, threshold);
    Basics.MulMonotonic(1, gray.Height(), gray.width);
  }
}
