/** Images as row-major pixel grids, and the slice arithmetic that NumPy applies
    when the scanner writes `img[a:b, c:d]`. */
module Raster {
  import opened Basics

  /** The half-open index range [lo, hi). */
  datatype Span = Span(lo: nat, hi: nat) {
    predicate Valid() { lo <= hi }
    function Length(): nat requires Valid() { hi - lo }
    predicate Contains(i: int) { lo <= i < hi }
  }

  /** Python's normalisation of one slice bound against a sequence of length n:
      a negative bound counts from the end, and every bound is clamped to [0, n]. */
  function Bound(n: nat, v: int): (r: nat)
    ensures r <= n
    ensures 0 <= v <= n ==> r == v
    ensures v > n ==> r == n
    ensures -(n as int) <= v < 0 ==> r as int == n as int + v
  {
    if v < 0 then (if v + n < 0 then 0 else v + n)
    else if v > n then n
    else v
  }

  /** The positions `a[start:stop]` selects from a sequence of length n (a missing
      bound is the Python default); a slice whose start lies past its stop is empty. */
  function Slice(n: nat, start: Option<int>, stop: Option<int>): (s: Span)
    ensures s.Valid() && s.hi <= n
    ensures start.Some? && stop.Some? && 0 <= start.value <= stop.value <= n ==>
              s == Span(start.value, stop.value)
    ensures start.None? && stop.None? ==> s == Span(0, n)
  {
    var lo := if start.Some? then Bound(n, start.value) else 0;
    var hi := if stop.Some? then Bound(n, stop.value) else n;
    Span(lo, if hi < lo then lo else hi)
  }

  /** A pixel grid: `rows` holds the image rows, each exactly `width` pixels long.
      The width is kept explicitly because an image with no rows still has one. */
  datatype Image<T> = Image(width: nat, rows: seq<seq<T>>) {
    predicate Valid() { forall r :: 0 <= r < |rows| ==> |rows[r]| == width }
    function Height(): nat { |rows| }
  }

  /** `img[rows.lo:rows.hi, cols.lo:cols.hi]` for spans already normalised by Slice. */
  function Crop<T>(img: Image<T>, rows: Span, cols: Span): (c: Image<T>)
    requires img.Valid() && rows.Valid() && cols.Valid()
    requires rows.hi <= img.Height() && cols.hi <= img.width
    ensures c.Valid()
    ensures c.Height() == rows.Length() && c.width == cols.Length()
    ensures forall r, k :: 0 <= r < c.Height() && 0 <= k < c.width ==>
              c.rows[r][k] == img.rows[rows.lo + r][cols.lo + k]
  {
    Image(cols.Length(), seq(rows.Length(), r requires 0 <= r < rows.Length() => img.rows[rows.lo + r][cols.lo..cols.hi]))
  }

  /** All pixels of a grid, row after row. */
  function Flatten<T>(g: seq<seq<T>>): seq<T>
  {
    if g == [] then [] else g[0] + Flatten(g[1..])
  }

  /** One more row adds its pixels at the end. */
  lemma {:induction false} FlattenAppend<T>(g: seq<seq<T>>, row: seq<T>)
    ensures Flatten(g + [row]) == Flatten(g) + row
  {
    if g == [] {
      assert [] + [row] == [row] && [row][1..] == [];
    } else {
      assert (g + [row])[1..] == g[1..] + [row];
      FlattenAppend(g[1..], row);
    }
  }

  lemma {:induction false} FlattenLength<T>(g: seq<seq<T>>, w: nat)
    requires forall r :: 0 <= r < |g| ==> |g[r]| == w
    ensures |Flatten(g)| == |g| * w
  {
    if g != [] {
      FlattenLength(g[1..], w);
    }
  }
}
