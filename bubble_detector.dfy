/** The bubble detector of bubble_detector.py: contour acceptance by size and shape,
    rejection diagnostics, fill ratio, right-to-left ordering, and mark selection.
    A contour is given by the metrics OpenCV would report for it, together with the
    intensities of the enhanced image at the pixels of its filled mask. */
module BubbleDetector {
  import opened Basics
  import opened Shape
  import StableSort

  const MinDiameter: real := 25.0
  const MaxDiameter: real := 100.0
  const MinCircularity: real := 0.20
  const MaxAspectRatio: real := 2.5
  const DarkThreshold: int := 120
  const FillRatioThreshold: real := 0.46
  /** How many bubbles a row keeps: positions 0 to 3. */
  const MaxBubbles: nat := 4

  /** `int(np.pi * (d/2)**2)`: the area of a circle of diameter d, truncated. */
  function AreaFromDiameter(d: real): int
  {
    Trunc(Pi * (d / 2.0) * (d / 2.0))
  }

  const MinArea: int := AreaFromDiameter(MinDiameter)
  const MaxArea: int := AreaFromDiameter(MaxDiameter)

  /** The area bounds the detector derives from its diameter range. */
  lemma AreaBounds()
    ensures MinArea == 490 && MaxArea == 7853
  {
    assert 490.0 <= Pi * 12.5 * 12.5 < 491.0;
    assert 7853.0 <= Pi * 50.0 * 50.0 < 7854.0;
  }

  /** What OpenCV reports for one external contour: `cv2.contourArea`, `cv2.arcLength`,
      the width and height of `cv2.boundingRect`, the moments m00, m10, m01, and the
      enhanced-image intensities of the pixels inside its filled mask. */
  datatype Contour = Contour(
    area: real, perimeter: real,
    boxWidth: int, boxHeight: int,
    m00: real, m10: real, m01: real,
    mask: seq<int>)

  /** An accepted contour with its measurements. */
  datatype Bubble = Bubble(
    contour: Contour, center: (int, int),
    area: real, circularity: real, aspectRatio: real, fillRatio: real)

  /** A refused contour with the reason it was refused. */
  datatype Rejection = Rejection(
    contour: Contour, area: real, circularity: real, aspectRatio: real, reason: string)

  const TooSmall: string := "Too small"
  const TooLarge: string := "Too large"
  const LowCircularity: string := "Low circularity"
  const HighAspectRatio: string := "High aspect ratio"
  const ReasonSeparator: string := " & "

  predicate SizeOk(c: Contour)
  {
    MinArea as real < c.area < MaxArea as real
  }

  predicate ShapeOk(c: Contour)
  {
    Circularity(c.area, c.perimeter) > MinCircularity &&
    AspectRatio(c.boxWidth, c.boxHeight) < MaxAspectRatio
  }

  predicate IsBubble(c: Contour)
  {
    SizeOk(c) && ShapeOk(c)
  }

  /** The reasons a contour fails, one tag per failed bound. */
  function RejectionReasons(c: Contour): (r: seq<string>)
    ensures r == [] <==> IsBubble(c)
    ensures |r| <= 3
    ensures forall p :: p in r ==> p in [TooSmall, TooLarge, LowCircularity, HighAspectRatio]
  {
    (if SizeOk(c) then [] else if c.area <= MinArea as real then [TooSmall] else [TooLarge]) +
    (if Circularity(c.area, c.perimeter) <= MinCircularity then [LowCircularity] else []) +
    (if AspectRatio(c.boxWidth, c.boxHeight) >= MaxAspectRatio then [HighAspectRatio] else [])
  }

  /** `sep.join(parts)`. */
  function Join(parts: seq<string>, sep: string): string
  {
    if |parts| == 0 then ""
    else if |parts| == 1 then parts[0]
    else parts[0] + sep + Join(parts[1..], sep)
  }

  /** The number of mask pixels darker than the threshold
      (`np.sum(enhanced[mask > 0] < dark_threshold)`). */
  function CountDark(mask: seq<int>): (n: nat)
    ensures n <= |mask|
  {
    if mask == [] then 0
    else (if mask[0] < DarkThreshold then 1 else 0) + CountDark(mask[1..])
  }

  /** Dark pixels over mask pixels; 0 for an empty mask. */
  function FillRatio(mask: seq<int>): (r: real)
    ensures 0.0 <= r <= 1.0
    ensures CountDark(mask) == 0 ==> r == 0.0
    ensures |mask| > 0 && CountDark(mask) == |mask| ==> r == 1.0
    ensures |mask| > 0 ==> r * |mask| as real == CountDark(mask) as real
  {
    if |mask| > 0 then CountDark(mask) as real / |mask| as real else 0.0
  }

  /** The fill ratio grows with the number of dark pixels in a mask of a given size. */
  lemma FillRatioMonotonic(a: seq<int>, b: seq<int>)
    requires |a| == |b| && CountDark(a) <= CountDark(b)
    ensures FillRatio(a) <= FillRatio(b)
  {
    if |a| > 0 {
      DivMonotonic(CountDark(a) as real, CountDark(b) as real, |a| as real);
    }
  }

  lemma DivMonotonic(x: real, y: real, n: real)
    requires x <= y && n > 0.0
    ensures x / n <= y / n
  {
    assert y / n - x / n == (y - x) / n;
  }

  /** `get_contour_center`: the centroid from the moments, each coordinate truncated;
      (0, 0) for a contour of zero area moment. */
  function Center(c: Contour): (p: (int, int))
    ensures c.m00 <= 0.0 ==> p == (0, 0)
    ensures c.m00 > 0.0 && c.m10 >= 0.0 ==> 0 <= p.0 && p.0 as real <= c.m10 / c.m00 < p.0 as real + 1.0
    ensures c.m00 > 0.0 && c.m01 >= 0.0 ==> 0 <= p.1 && p.1 as real <= c.m01 / c.m00 < p.1 as real + 1.0
  {
    if c.m00 > 0.0 then (Trunc(c.m10 / c.m00), Trunc(c.m01 / c.m00)) else (0, 0)
  }

  function MeasureBubble(c: Contour): Bubble
  {
    Bubble(c, Center(c), c.area, Circularity(c.area, c.perimeter),
           AspectRatio(c.boxWidth, c.boxHeight), FillRatio(c.mask))
  }

  function MeasureRejection(c: Contour): Rejection
  {
    Rejection(c, c.area, Circularity(c.area, c.perimeter),
              AspectRatio(c.boxWidth, c.boxHeight), Join(RejectionReasons(c), ReasonSeparator))
  }

  /** The accepted contours of `cs`, measured, in discovery order. */
  function AcceptedOf(cs: seq<Contour>): seq<Bubble>
  {
    if cs == [] then []
    else AcceptedOf(cs[..|cs| - 1]) +
         (if IsBubble(cs[|cs| - 1]) then [MeasureBubble(cs[|cs| - 1])] else [])
  }

  /** The refused contours of `cs` with their reasons, in discovery order. */
  function RejectedOf(cs: seq<Contour>): seq<Rejection>
  {
    if cs == [] then []
    else RejectedOf(cs[..|cs| - 1]) +
         (if IsBubble(cs[|cs| - 1]) then [] else [MeasureRejection(cs[|cs| - 1])])
  }

  /** The sort key of `bubbles.sort(key=lambda b: b['center'][0], reverse=True)`. */
  function CenterX(b: Bubble): real
  {
    b.center.0 as real
  }

  /** The bubbles `find_bubbles` returns: the accepted ones sorted right to left by
      the x of their centres (a stable sort) and cut to the first four. */
  function KeptOf(contours: seq<Contour>): seq<Bubble>
  {
    Take(StableSort.SortBy(AcceptedOf(contours), CenterX, true), MaxBubbles)
  }

  /** `find_bubbles` after contour extraction: sorts every contour into the accepted
      bubbles or the rejections, orders the bubbles right to left and keeps four. */
  method FindBubbles(contours: seq<Contour>) returns (bubbles: seq<Bubble>, rejected: seq<Rejection>)
    ensures bubbles == KeptOf(contours)
    ensures rejected == RejectedOf(contours)
    ensures |bubbles| <= MaxBubbles
    ensures forall b :: b in bubbles ==> IsBubble(b.contour) && b == MeasureBubble(b.contour)
    ensures forall i, j :: 0 <= i < j < |bubbles| ==> bubbles[i].center.0 >= bubbles[j].center.0
    ensures forall r :: r in rejected ==> !IsBubble(r.contour) && r.reason != ""
  {
    var accepted;
    accepted, rejected := Classify(contours);
    bubbles := Take(StableSort.SortBy(accepted, CenterX, true), MaxBubbles);
    KeptBubbles(contours);
    RejectedAreExplained(contours);
  }

  /** The loop of `find_bubbles`: each contour is measured and either accepted as a
      bubble or refused with the reasons it failed. */
  method Classify(contours: seq<Contour>) returns (accepted: seq<Bubble>, rejected: seq<Rejection>)
    ensures accepted == AcceptedOf(contours)
    ensures rejected == RejectedOf(contours)
  {
    accepted := [];
    rejected := [];
    var i := 0;
    while i < |contours|
      invariant 0 <= i <= |contours|
      invariant accepted == AcceptedOf(contours[..i])
      invariant rejected == RejectedOf(contours[..i])
    {
      var c := contours[i];
      var circularity := Circularity(c.area, c.perimeter);
      var aspectRatio := AspectRatio(c.boxWidth, c.boxHeight);
      var sizeOk := MinArea as real < c.area < MaxArea as real;
      var shapeOk := circularity > MinCircularity && aspectRatio < MaxAspectRatio;
      if sizeOk && shapeOk {
        accepted := accepted + [Bubble(c, Center(c), c.area, circularity, aspectRatio, FillRatio(c.mask))];
      } else {
        var reasons: seq<string> := [];
        if !sizeOk {
          if c.area <= MinArea as real {
            reasons := reasons + [TooSmall];
          } else {
            reasons := reasons + [TooLarge];
          }
        }
        if !shapeOk {
          if circularity <= MinCircularity {
            reasons := reasons + [LowCircularity];
          }
          if aspectRatio >= MaxAspectRatio {
            reasons := reasons + [HighAspectRatio];
          }
        }
        assert reasons == RejectionReasons(c);
        rejected := rejected + [Rejection(c, c.area, circularity, aspectRatio, Join(reasons, ReasonSeparator))];
      }
      assert contours[..i + 1][..i] == contours[..i];
      i := i + 1;
    }
    assert contours[..i] == contours;
  }

  /** The bubbles `find_bubbles` keeps are accepted contours, at most four,
      ordered right to left by the x coordinate of their centres. */
  lemma KeptBubbles(contours: seq<Contour>)
    ensures var kept := KeptOf(contours);
            |kept| <= MaxBubbles &&
            (forall b :: b in kept ==> IsBubble(b.contour) && b == MeasureBubble(b.contour)) &&
            (forall i, j :: 0 <= i < j < |kept| ==> kept[i].center.0 >= kept[j].center.0)
  {
    var accepted := AcceptedOf(contours);
    var sorted := StableSort.SortBy(accepted, CenterX, true);
    AcceptedAreBubbles(contours);
    forall b | b in sorted ensures IsBubble(b.contour) && b == MeasureBubble(b.contour) {
      assert b in multiset(accepted);
    }
    var kept := Take(sorted, MaxBubbles);
    forall i, j | 0 <= i < j < |kept| ensures kept[i].center.0 >= kept[j].center.0 {
      assert kept[i] == sorted[i] && kept[j] == sorted[j];
      assert StableSort.Precedes(CenterX(sorted[i]), CenterX(sorted[j]), true);
    }
    forall b | b in kept ensures b in sorted {
      var k :| 0 <= k < |kept| && kept[k] == b;
      assert sorted[k] == b;
    }
  }

  /** The kept bubbles are the rightmost four accepted ones: as many as were accepted
      up to four, drawn from the accepted bubbles, and none of the accepted bubbles left
      out has its centre further right than any kept one. */
  lemma KeptAreRightmost(contours: seq<Contour>)
    ensures |KeptOf(contours)| == Min(|AcceptedOf(contours)|, MaxBubbles)
    ensures multiset(KeptOf(contours)) <= multiset(AcceptedOf(contours))
    ensures forall b, c ::
              b in KeptOf(contours) && c in multiset(AcceptedOf(contours)) - multiset(KeptOf(contours)) ==>
                b.center.0 >= c.center.0
  {
    var accepted := AcceptedOf(contours);
    var kept := KeptOf(contours);
    assert kept == StableSort.SortBy(accepted, CenterX, true)[..|kept|];
    StableSort.SortPrefixIsTop(accepted, CenterX, true, |kept|);
  }

  /** Bubbles whose centres share an x coordinate are kept in the order their
      contours were found: among them the kept list is a prefix of the accepted list. */
  lemma KeptTiesInDiscoveryOrder(contours: seq<Contour>, x: int)
    ensures var kept := StableSort.WithKey(KeptOf(contours), CenterX, x as real);
            var found := StableSort.WithKey(AcceptedOf(contours), CenterX, x as real);
            |kept| <= |found| && kept == found[..|kept|]
  {
    var sorted := StableSort.SortBy(AcceptedOf(contours), CenterX, true);
    var kept := KeptOf(contours);
    StableSort.SortIsStable(AcceptedOf(contours), CenterX, true, x as real);
    assert sorted == kept + sorted[|kept|..];
    StableSort.WithKeyAppend(kept, sorted[|kept|..], CenterX, x as real);
  }

  lemma {:induction false} AcceptedAreBubbles(cs: seq<Contour>)
    ensures forall b :: b in AcceptedOf(cs) ==> IsBubble(b.contour) && b == MeasureBubble(b.contour)
  {
    if cs != [] {
      AcceptedAreBubbles(cs[..|cs| - 1]);
    }
  }

  lemma {:induction false} RejectedAreExplained(cs: seq<Contour>)
    ensures forall r :: r in RejectedOf(cs) ==> !IsBubble(r.contour) && r.reason != ""
  {
    if cs != [] {
      RejectedAreExplained(cs[..|cs| - 1]);
      var c := cs[|cs| - 1];
      if !IsBubble(c) {
        ReasonsExplainRejection(c);
        JoinNonEmpty(RejectionReasons(c), ReasonSeparator);
      }
    }
  }

  /** Every contour is either accepted or rejected, never both and never neither. */
  lemma {:induction false} EveryContourClassified(cs: seq<Contour>)
    ensures |AcceptedOf(cs)| + |RejectedOf(cs)| == |cs|
  {
    if cs != [] {
      EveryContourClassified(cs[..|cs| - 1]);
    }
  }

  /** The rejection tags say exactly which bounds failed: a contour has no reason
      if and only if it is accepted, a size failure carries exactly one of
      "Too small" (area at most the minimum) and "Too large", and each shape
      tag is present exactly when its bound fails. */
  lemma ReasonsExplainRejection(c: Contour)
    ensures RejectionReasons(c) == [] <==> IsBubble(c)
    ensures !SizeOk(c) ==> (TooSmall in RejectionReasons(c) <==> c.area <= MinArea as real)
    ensures !SizeOk(c) ==> (TooLarge in RejectionReasons(c) <==> c.area > MinArea as real)
    ensures SizeOk(c) ==> TooSmall !in RejectionReasons(c) && TooLarge !in RejectionReasons(c)
    ensures LowCircularity in RejectionReasons(c) <==> Circularity(c.area, c.perimeter) <= MinCircularity
    ensures HighAspectRatio in RejectionReasons(c) <==> AspectRatio(c.boxWidth, c.boxHeight) >= MaxAspectRatio
    ensures forall p :: p in RejectionReasons(c) ==> p != ""
  {
    var r := RejectionReasons(c);
    assert TooSmall != TooLarge && TooSmall != LowCircularity && TooSmall != HighAspectRatio;
    assert TooLarge != LowCircularity && TooLarge != HighAspectRatio;
    assert LowCircularity != HighAspectRatio;
  }

  lemma {:induction false} JoinNonEmpty(parts: seq<string>, sep: string)
    requires |parts| > 0 && parts[0] != ""
    ensures Join(parts, sep) != ""
  {
    if |parts| > 1 {
      assert |Join(parts, sep)| >= |parts[0]|;
    }
  }

  /** An index of a bubble paired with its fill ratio, as the selection sorts them. */
  datatype Scored = Scored(index: nat, ratio: real)

  function Ratio(s: Scored): real { s.ratio }

  function Position(s: Scored): int { s.index }

  /** `[i for i, b in enumerate(bubbles) if b['fill_ratio'] > threshold]`, starting at `from`. */
  function Candidates(bubbles: seq<Bubble>, from: nat): (cs: seq<Scored>)
    ensures forall x :: x in cs ==>
              from <= x.index < |bubbles| && x.ratio == bubbles[x.index].fillRatio &&
              x.ratio > FillRatioThreshold
    ensures forall i :: from <= i < |bubbles| && bubbles[i].fillRatio > FillRatioThreshold ==>
              Scored(i, bubbles[i].fillRatio) in cs
    ensures forall j, k :: 0 <= j < k < |cs| ==> cs[j].index < cs[k].index
    decreases |bubbles| - from
  {
    if from >= |bubbles| then []
    else
      var rest := Candidates(bubbles, from + 1);
      if bubbles[from].fillRatio > FillRatioThreshold then [Scored(from, bubbles[from].fillRatio)] + rest
      else rest
  }

  /** The bubble positions carried by scored candidates, in order. */
  function Indices(ss: seq<Scored>): (r: seq<nat>)
    ensures |r| == |ss| && forall k :: 0 <= k < |ss| ==> r[k] == ss[k].index
  {
    if ss == [] then [] else [ss[0].index] + Indices(ss[1..])
  }

  /** `analyze_selections`: the positions whose fill ratio exceeds the threshold,
      most filled first; `list.sort` is stable, so equally filled positions keep
      their left-to-right index order. The contract here gives only soundness (each
      position is a bubble filled beyond the threshold); completeness and the order
      are proved in `AnalyzeSelectionsSpec`. */
  function AnalyzeSelections(bubbles: seq<Bubble>): (sel: seq<nat>)
    ensures bubbles == [] ==> sel == []
    ensures forall k :: 0 <= k < |sel| ==> sel[k] < |bubbles| && bubbles[sel[k]].fillRatio > FillRatioThreshold
  {
    if bubbles == [] then []
    else
      var sorted := StableSort.SortBy(Candidates(bubbles, 0), Ratio, true);
      SortedAreCandidates(bubbles, sorted);
      Indices(sorted)
  }

  /** What the selection promises: exactly the positions above the threshold, each
      once, in non-increasing fill ratio, ties broken by position. */
  lemma AnalyzeSelectionsSpec(bubbles: seq<Bubble>)
    ensures forall k :: 0 <= k < |AnalyzeSelections(bubbles)| ==> AnalyzeSelections(bubbles)[k] < |bubbles|
    ensures forall i: nat :: i in AnalyzeSelections(bubbles) <==>
              i < |bubbles| && bubbles[i].fillRatio > FillRatioThreshold
    ensures var sel := AnalyzeSelections(bubbles);
            forall j, k :: 0 <= j < k < |sel| ==>
              sel[j] != sel[k] && bubbles[sel[j]].fillRatio >= bubbles[sel[k]].fillRatio &&
              (bubbles[sel[j]].fillRatio == bubbles[sel[k]].fillRatio ==> sel[j] < sel[k])
  {
    if bubbles != [] {
      var sorted := StableSort.SortBy(Candidates(bubbles, 0), Ratio, true);
      assert AnalyzeSelections(bubbles) == Indices(sorted);
      CandidateTiesByPosition(bubbles);
      SortedCandidates(bubbles, sorted);
    }
  }

  /** Candidates are listed by position, so the stable sort leaves equally filled
      ones in position order. */
  lemma CandidateTiesByPosition(bubbles: seq<Bubble>)
    ensures StableSort.TiesInRankOrder(StableSort.SortBy(Candidates(bubbles, 0), Ratio, true), Ratio, Position)
  {
    var candidates := Candidates(bubbles, 0);
    assert forall j, k :: 0 <= j < k < |candidates| ==> Position(candidates[j]) < Position(candidates[k]);
    StableSort.SortKeepsTieOrder(candidates, Ratio, true, Position);
  }

  /** The selection properties hold for any arrangement of the candidates that is
      sorted by fill ratio, highest first, with ties in position order. */
  lemma SortedCandidates(bubbles: seq<Bubble>, sorted: seq<Scored>)
    requires multiset(sorted) == multiset(Candidates(bubbles, 0))
    requires StableSort.SortedBy(sorted, Ratio, true)
    requires StableSort.TiesInRankOrder(sorted, Ratio, Position)
    ensures forall k :: 0 <= k < |Indices(sorted)| ==> Indices(sorted)[k] < |bubbles|
    ensures forall i: nat :: i in Indices(sorted) <==>
              i < |bubbles| && bubbles[i].fillRatio > FillRatioThreshold
    ensures var sel := Indices(sorted);
            forall j, k :: 0 <= j < k < |sel| ==>
              sel[j] != sel[k] && bubbles[sel[j]].fillRatio >= bubbles[sel[k]].fillRatio &&
              (bubbles[sel[j]].fillRatio == bubbles[sel[k]].fillRatio ==> sel[j] < sel[k])
  {
    SortedAreCandidates(bubbles, sorted);
    SortedHoldsEveryCandidate(bubbles, sorted);
    SortedOrder(bubbles, sorted);
  }

  /** Each sorted entry is a candidate: a position above the threshold with its ratio. */
  lemma SortedAreCandidates(bubbles: seq<Bubble>, sorted: seq<Scored>)
    requires multiset(sorted) == multiset(Candidates(bubbles, 0))
    ensures forall k :: 0 <= k < |sorted| ==>
              sorted[k].index < |bubbles| && sorted[k].ratio == bubbles[sorted[k].index].fillRatio &&
              sorted[k].ratio > FillRatioThreshold
  {
    var candidates := Candidates(bubbles, 0);
    forall k | 0 <= k < |sorted|
      ensures sorted[k].index < |bubbles| && sorted[k].ratio == bubbles[sorted[k].index].fillRatio
      ensures sorted[k].ratio > FillRatioThreshold
    {
      assert sorted[k] in multiset(candidates);
    }
  }

  /** Every position above the threshold is among the sorted entries. */
  lemma SortedHoldsEveryCandidate(bubbles: seq<Bubble>, sorted: seq<Scored>)
    requires multiset(sorted) == multiset(Candidates(bubbles, 0))
    ensures forall i: nat :: i in Indices(sorted) <==>
              i < |bubbles| && bubbles[i].fillRatio > FillRatioThreshold
  {
    var sel := Indices(sorted);
    SortedAreCandidates(bubbles, sorted);
    forall i: nat | i < |bubbles| && bubbles[i].fillRatio > FillRatioThreshold
      ensures i in sel
    {
      var x := Scored(i, bubbles[i].fillRatio);
      assert x in multiset(sorted);
      var k :| 0 <= k < |sorted| && sorted[k] == x;
      assert sel[k] == i;
    }
    forall i: nat | i in sel
      ensures i < |bubbles| && bubbles[i].fillRatio > FillRatioThreshold
    {
      var k :| 0 <= k < |sel| && sel[k] == i;
      assert sorted[k].index == i;
    }
  }

  /** The sorted positions are distinct, in non-increasing fill ratio, ties by position. */
  lemma SortedOrder(bubbles: seq<Bubble>, sorted: seq<Scored>)
    requires forall k :: 0 <= k < |sorted| ==>
               sorted[k].index < |bubbles| && sorted[k].ratio == bubbles[sorted[k].index].fillRatio
    requires StableSort.SortedBy(sorted, Ratio, true)
    requires StableSort.TiesInRankOrder(sorted, Ratio, Position)
    ensures var sel := Indices(sorted);
            forall j, k :: 0 <= j < k < |sel| ==>
              sel[j] != sel[k] && bubbles[sel[j]].fillRatio >= bubbles[sel[k]].fillRatio &&
              (bubbles[sel[j]].fillRatio == bubbles[sel[k]].fillRatio ==> sel[j] < sel[k])
  {
    var sel := Indices(sorted);
    forall j, k | 0 <= j < k < |sel|
      ensures sel[j] != sel[k] && bubbles[sel[j]].fillRatio >= bubbles[sel[k]].fillRatio
      ensures bubbles[sel[j]].fillRatio == bubbles[sel[k]].fillRatio ==> sel[j] < sel[k]
    {
      assert StableSort.Precedes(Ratio(sorted[j]), Ratio(sorted[k]), true);
      if sorted[j].ratio == sorted[k].ratio {
        assert Position(sorted[j]) < Position(sorted[k]);
      }
    }
  }
}
