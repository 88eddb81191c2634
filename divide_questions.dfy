/** divide_questions.py: a section image is cut into fifteen horizontal question rows
    that overlap their neighbours, and a preview marks where the cuts fall. */
module DivideQuestions {
  import opened Basics
  import opened Raster
  import opened QuestionFiles
  import ImageProcessing
  import ImageCropping

  /** `num_questions` in `divide_image_into_questions`. */
  const NumQuestions: nat := 15
  /** The default `overlap` of `divide_image_into_questions`. */
  const DefaultOverlap: int := 5

  /** `section_height = height // num_questions`. */
  function SectionHeight(height: nat, n: nat): nat
    requires n > 0
  {
    height / n
  }

  /** `start_y = max(0, i * section_height - overlap)`. */
  function RowStart(height: nat, i: nat, overlap: int): int
  {
    Max(0, i * SectionHeight(height, NumQuestions) - overlap)
  }

  /** `end_y = min(height, (i + 1) * section_height + overlap)`. */
  function RowEnd(height: nat, i: nat, overlap: int): int
  {
    Min(height, (i + 1) * SectionHeight(height, NumQuestions) + overlap)
  }

  /** The rows `img[start_y:end_y, :]` selects for question row i. */
  function RowSpan(height: nat, i: nat, overlap: int): (s: Span)
    ensures s.Valid() && s.hi <= height
  {
    Slice(height, Some(RowStart(height, i, overlap)), Some(RowEnd(height, i, overlap)))
  }

  /** For a non-negative overlap the row bounds need no further clamping:
      0 <= start <= end <= height and the crop is exactly [start, end). */
  lemma RowBounds(height: nat, i: nat, overlap: int)
    requires i < NumQuestions && overlap >= 0
    ensures 0 <= RowStart(height, i, overlap) <= RowEnd(height, i, overlap) <= height
    ensures RowSpan(height, i, overlap) == Span(RowStart(height, i, overlap), RowEnd(height, i, overlap))
  {
    var h := SectionHeight(height, NumQuestions);
    MulMonotonic(i, NumQuestions, h);
    MulMonotonic(i, i + 1, h);
    DivBrackets(height, NumQuestions);
  }

  /** Where neither is clamped, row i ends exactly 2·overlap pixels below where row
      i + 1 starts. */
  lemma AdjacentRowsOverlap(height: nat, i: nat, overlap: int)
    requires i + 1 < NumQuestions && overlap >= 0
    requires (i + 1) * SectionHeight(height, NumQuestions) - overlap >= 0
    requires (i + 1) * SectionHeight(height, NumQuestions) + overlap <= height
    ensures RowEnd(height, i, overlap) - RowStart(height, i + 1, overlap) == 2 * overlap
  {
  }

  /** The last row ends at min(height, 15·h + overlap); the rows below it lie in no
      crop exactly when height mod 15 exceeds the overlap. */
  lemma Coverage(height: nat, overlap: int)
    requires overlap >= 0
    ensures RowEnd(height, NumQuestions - 1, overlap) ==
              Min(height, NumQuestions * SectionHeight(height, NumQuestions) + overlap)
    ensures (forall y :: 0 <= y < height ==> InSomeRow(height, overlap, y)) <==>
              height % NumQuestions <= overlap
  {
    var h := SectionHeight(height, NumQuestions);
    DivBrackets(height, NumQuestions);
    if height % NumQuestions <= overlap {
      forall y | 0 <= y < height ensures InSomeRow(height, overlap, y) {
        RowOfLine(height, overlap, y);
      }
    } else {
      forall i | 0 <= i < NumQuestions ensures !RowSpan(height, i, overlap).Contains(height - 1) {
        RowBounds(height, i, overlap);
        MulMonotonic(i + 1, NumQuestions, h);
      }
      assert !InSomeRow(height, overlap, height - 1);
    }
  }

  /** The sections this script receives are cut from the standard 600-row sheet and
      are 480 rows high once the margins are dropped. At the default overlap of 5
      such a section is covered completely and row i spans lines 32·i - 5 to
      32·(i + 1) + 5, clamped to the section, so neighbours share 10 lines. */
  lemma DefaultRowsOfStandardSection(i: nat)
    requires i < NumQuestions
    ensures var height := ImageProcessing.SectionRows(ImageCropping.StandardSize.height).Length();
            height == 480 &&
            RowSpan(height, i, DefaultOverlap) == Span(Max(0, 32 * i - 5), Min(480, 32 * (i + 1) + 5)) &&
            forall y :: 0 <= y < height ==> InSomeRow(height, DefaultOverlap, y)
  {
    ImageProcessing.SectionRowsSpan(ImageCropping.StandardSize.height);
    assert SectionHeight(480, NumQuestions) == 32;
    RowBounds(480, i, DefaultOverlap);
    Coverage(480, DefaultOverlap);
  }

  ghost predicate InSomeRow(height: nat, overlap: int, y: int)
  {
    exists i :: 0 <= i < NumQuestions && RowSpan(height, i, overlap).Contains(y)
  }

  /** Below the last row's end, every line y lies in row min(y / h, 14). */
  lemma RowOfLine(height: nat, overlap: int, y: int)
    requires overlap >= 0 && 0 <= y < height && height % NumQuestions <= overlap
    ensures InSomeRow(height, overlap, y)
  {
    var h := SectionHeight(height, NumQuestions);
    DivBrackets(height, NumQuestions);
    if h == 0 {
      RowBounds(height, 0, overlap);
      assert RowSpan(height, 0, overlap).Contains(y);
    } else {
      DivBrackets(y, h);
      var q := y / h;
      if q < NumQuestions - 1 {
        RowBounds(height, q, overlap);
        assert RowSpan(height, q, overlap).Contains(y);
      } else {
        var i := NumQuestions - 1;
        RowBounds(height, i, overlap);
        MulMonotonic(i, q, h);
        assert RowSpan(height, i, overlap).Contains(y);
      }
    }
  }

  /** `divide_image_into_questions` without the file writes: one crop per question row,
      in increasing row order, each paired with the name it is saved under. */
  method DivideIntoQuestions<T>(img: Image<T>, overlap: int) returns (crops: seq<(string, Image<T>)>)
    requires img.Valid()
    ensures |crops| == NumQuestions
    ensures forall i :: 0 <= i < NumQuestions ==>
              crops[i] == (FileName(i + 1), Crop(img, RowSpan(img.Height(), i, overlap), Span(0, img.width)))
    ensures forall i :: 0 <= i < NumQuestions ==>
              FileNumber(crops[i].0) == Some(i + 1) && crops[i].1.width == img.width
  {
    crops := [];
    for i := 0 to NumQuestions
      invariant |crops| == i
      invariant forall j :: 0 <= j < i ==>
                  crops[j] == (FileName(j + 1), Crop(img, RowSpan(img.Height(), j, overlap), Span(0, img.width)))
    {
      var rows := RowSpan(img.Height(), i, overlap);
      var section := Crop(img, rows, Span(0, img.width));
      crops := crops + [(FileName(i + 1), section)];
    }
    forall i | 0 <= i < NumQuestions ensures FileNumber(crops[i].0) == Some(i + 1) {
      assert crops[i].0 == FileName(i + 1);
    }
  }

  /** y of the i-th cut line in the preview. */
  function CutLine(height: nat, n: nat, i: nat): nat
    requires n > 0
  {
    i * SectionHeight(height, n)
  }

  /** y of the label of question i + 1 in the preview: the middle of its section. */
  function LabelLine(height: nat, n: nat, i: nat): nat
    requires n > 0
  {
    i * SectionHeight(height, n) + SectionHeight(height, n) / 2
  }

  /** What `create_cut_visualization` draws, as coordinates: a line at every cut
      between consecutive sections, a label per section, and a band of half-width
      `overlap` around every cut. `num_questions` must be positive (Python raises
      ZeroDivisionError otherwise). */
  method CutVisualization(height: nat, n: nat, overlap: int) returns (lines: seq<nat>, labels: seq<nat>, bands: seq<(int, int)>)
    requires n > 0
    ensures |lines| == n - 1 && |labels| == n && |bands| == n - 1
    ensures forall k :: 0 <= k < n - 1 ==> lines[k] == CutLine(height, n, k + 1)
    ensures forall k :: 0 <= k < n ==> labels[k] == LabelLine(height, n, k)
    ensures forall k :: 0 <= k < n - 1 ==> bands[k] == (lines[k] - overlap, lines[k] + overlap)
    ensures forall k :: 0 <= k < n - 1 ==> lines[k] < height || height < n
  {
    var h := height / n;
    assert h == SectionHeight(height, n);
    lines := [];
    for i := 1 to n
      invariant |lines| == i - 1
      invariant forall k :: 0 <= k < i - 1 ==> lines[k] == CutLine(height, n, k + 1)
    {
      assert i * h == CutLine(height, n, (i - 1) + 1);
      lines := lines + [i * h];
    }
    labels := [];
    for i := 0 to n
      invariant |labels| == i
      invariant forall k :: 0 <= k < i ==> labels[k] == LabelLine(height, n, k)
    {
      assert i * h + h / 2 == LabelLine(height, n, i);
      labels := labels + [i * h + h / 2];
    }
    bands := [];
    for i := 1 to n
      invariant |bands| == i - 1
      invariant forall k :: 0 <= k < i - 1 ==> bands[k] == (lines[k] - overlap, lines[k] + overlap)
    {
      var y := i * h;
      bands := bands + [(y - overlap, y + overlap)];
    }
    forall k | 0 <= k < n - 1 && height >= n ensures lines[k] < height {
      CutLineInsideImage(height, n, k + 1);
    }
  }

  /** Every cut line falls strictly inside an image with at least one row per section. */
  lemma CutLineInsideImage(height: nat, n: nat, i: nat)
    requires n > 0 && height >= n && i < n
    ensures CutLine(height, n, i) < height
  {
    var h := SectionHeight(height, n);
    DivBrackets(height, n);
    MulMonotonic(i, n - 1, h);
    assert (n - 1) * h + h == h * n;
  }

  /** With a positive overlap and at least one pixel row per section, each cut line
      of the preview lies inside both crops that meet there, and each label lies
      inside its own question's crop. */
  lemma CutLinesInsideCrops(height: nat, overlap: int, i: nat)
    requires overlap > 0 && height >= NumQuestions && 1 <= i < NumQuestions
    ensures RowSpan(height, i - 1, overlap).Contains(CutLine(height, NumQuestions, i))
    ensures RowSpan(height, i, overlap).Contains(CutLine(height, NumQuestions, i))
    ensures RowSpan(height, i, overlap).Contains(LabelLine(height, NumQuestions, i))
  {
    var h := SectionHeight(height, NumQuestions);
    DivBrackets(height, NumQuestions);
    assert h >= 1;
    RowBounds(height, i - 1, overlap);
    RowBounds(height, i, overlap);
    MulMonotonic(i - 1, i, h);
    MulMonotonic(i + 1, NumQuestions, h);
    assert (i + 1) * h == i * h + h;
    assert (i - 1 + 1) * h == i * h;
    assert CutLine(height, NumQuestions, i) == i * h;
    assert LabelLine(height, NumQuestions, i) == i * h + h / 2;
  }
}
