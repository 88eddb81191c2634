/** Small value types shared by every stage of the scanner model. */
module Basics {

  /** Python's `None` or a present value. */
  datatype Option<T> = None | Some(value: T)

  /** A computation that either produced a value or raised an exception
      (the exception's kind is kept as a short tag for diagnostics). */
  datatype Outcome<T> = Done(value: T) | Raised(exception: string)

  function Min(a: int, b: int): int { if a <= b then a else b }

  function Max(a: int, b: int): int { if a >= b then a else b }

  /** `s[:n]`. */
  function Take<T>(s: seq<T>, n: nat): (t: seq<T>)
    ensures |t| == Min(|s|, n) && t == s[..|t|]
  {
    if |s| <= n then s else s[..n]
  }

  /** Multiplying by a non-negative factor keeps the order. */
  lemma MulMonotonic(a: int, b: int, h: nat)
    requires a <= b
    ensures a * h <= b * h
  {
  }

  /** Euclidean division by a positive divisor brackets the dividend. */
  lemma DivBrackets(x: nat, d: nat)
    requires d > 0
    ensures x == (x / d) * d + x % d && 0 <= x % d < d
    ensures (x / d) * d <= x < (x / d + 1) * d
  {
  }
}
