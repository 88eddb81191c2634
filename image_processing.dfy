/** image_processing.py: the warped sheet is cut into three vertical sections
    (left, middle, right) with a 60-pixel margin removed at the top and bottom. */
module ImageProcessing {
  import opened Basics
  import opened Raster

  /** Rows dropped at the top and at the bottom of every section. */
  const Margin: int := 60

  /** `segment_width = width // 3`. */
  function SegmentWidth(width: nat): nat
  {
    width / 3
  }

  /** `image[60:height-60]`: the rows every section keeps. */
  function SectionRows(height: nat): Span
  {
    Slice(height, Some(Margin), Some(height - Margin))
  }

  /** The columns of the left, middle and right sections: the first two are one
      segment wide and the right one runs to the last column. */
  function LeftColumns(width: nat): Span
  {
    Slice(width, Some(0), Some(SegmentWidth(width)))
  }

  function MiddleColumns(width: nat): Span
  {
    Slice(width, Some(SegmentWidth(width)), Some(SegmentWidth(width) * 2))
  }

  function RightColumns(width: nat): Span
  {
    Slice(width, Some(SegmentWidth(width) * 2), Some(width))
  }

  /** `crop_into_thirds`: the three sections, returned as (left, middle, right). */
  function CropIntoThirds<T>(img: Image<T>): (parts: (Image<T>, Image<T>, Image<T>))
    requires img.Valid()
    ensures parts.0.Valid() && parts.1.Valid() && parts.2.Valid()
    ensures parts.0.width == SegmentWidth(img.width) && parts.1.width == SegmentWidth(img.width)
    ensures parts.2.width == SegmentWidth(img.width) + img.width % 3
    ensures parts.0.Height() == parts.1.Height() == parts.2.Height() == Max(0, img.Height() - 2 * Margin)
    ensures forall r, k :: 0 <= r < parts.0.Height() && 0 <= k < parts.0.width ==>
              parts.0.rows[r][k] == img.rows[Margin + r][k]
    ensures forall r, k :: 0 <= r < parts.1.Height() && 0 <= k < parts.1.width ==>
              parts.1.rows[r][k] == img.rows[Margin + r][SegmentWidth(img.width) + k]
    ensures forall r, k :: 0 <= r < parts.2.Height() && 0 <= k < parts.2.width ==>
              parts.2.rows[r][k] == img.rows[Margin + r][2 * SegmentWidth(img.width) + k]
  {
    var rows := SectionRows(img.Height());
    ThirdsPartitionColumns(img.width);
    SectionRowsSpan(img.Height());
    (Crop(img, rows, LeftColumns(img.width)),
     Crop(img, rows, MiddleColumns(img.width)),
     Crop(img, rows, RightColumns(img.width)))
  }

  /** The three column ranges are [0, sw), [sw, 2sw) and [2sw, width): every column of
      the image belongs to exactly one section, and the right section absorbs the
      `width % 3` remainder columns. */
  lemma ThirdsPartitionColumns(width: nat)
    ensures LeftColumns(width) == Span(0, SegmentWidth(width))
    ensures MiddleColumns(width) == Span(SegmentWidth(width), 2 * SegmentWidth(width))
    ensures RightColumns(width) == Span(2 * SegmentWidth(width), width)
    ensures RightColumns(width).Length() == SegmentWidth(width) + width % 3
    ensures forall c :: 0 <= c < width ==>
              (LeftColumns(width).Contains(c) && !MiddleColumns(width).Contains(c) && !RightColumns(width).Contains(c)) ||
              (!LeftColumns(width).Contains(c) && MiddleColumns(width).Contains(c) && !RightColumns(width).Contains(c)) ||
              (!LeftColumns(width).Contains(c) && !MiddleColumns(width).Contains(c) && RightColumns(width).Contains(c))
    ensures forall c :: (LeftColumns(width).Contains(c) || MiddleColumns(width).Contains(c) ||
                         RightColumns(width).Contains(c)) ==> 0 <= c < width
  {
    var sw := SegmentWidth(width);
    assert width == 3 * sw + width % 3;
  }

  /** Every section keeps rows [60, height - 60), which is empty for an image of at
      most 120 rows, so each section is max(0, height - 120) rows high. */
  lemma SectionRowsSpan(height: nat)
    ensures SectionRows(height).Length() == Max(0, height - 2 * Margin)
    ensures height >= 2 * Margin ==> SectionRows(height) == Span(Margin, height - Margin)
  {
  }
}
