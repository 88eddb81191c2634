/** Shape measures computed from the metrics OpenCV reports for a contour
    (cv2.contourArea, cv2.arcLength, cv2.boundingRect), shared by both bubble detectors. */
module Shape {
  import opened Basics

  /** `np.pi`, to the 16 significant digits of the double that NumPy uses. */
  const Pi: real := 3.141592653589793

  /** Python's `int()` applied to a float: truncation toward zero. */
  function Trunc(r: real): (t: int)
    ensures r >= 0.0 ==> 0 <= t && t as real <= r < t as real + 1.0
    ensures r < 0.0 ==> t <= 0 && t as real - 1.0 < r <= t as real
  {
    if r >= 0.0 then r.Floor else -((-r).Floor)
  }

  /** `4*pi*area/perimeter**2`, guarded to 0 for a contour without perimeter. */
  function Circularity(area: real, perimeter: real): (c: real)
    ensures perimeter <= 0.0 ==> c == 0.0
    ensures perimeter > 0.0 ==> c * perimeter * perimeter == 4.0 * Pi * area
  {
    if perimeter > 0.0 then 4.0 * Pi * area / (perimeter * perimeter) else 0.0
  }

  /** `max(w, h) / min(w, h)` of a bounding box, guarded to 0 for a degenerate box. */
  function AspectRatio(w: int, h: int): (a: real)
    ensures Min(w, h) <= 0 ==> a == 0.0
    ensures Min(w, h) > 0 ==> a >= 1.0 && a * Min(w, h) as real == Max(w, h) as real
  {
    if Min(w, h) > 0 then Max(w, h) as real / Min(w, h) as real else 0.0
  }

  /** The aspect ratio does not depend on which side is the width. */
  lemma AspectRatioSymmetric(w: int, h: int)
    ensures AspectRatio(w, h) == AspectRatio(h, w)
  {
  }
}
