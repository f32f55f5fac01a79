/** Facts about truncating division by a positive divisor. */
module Arithmetic {

  /** `x / t` is the floor of x/t for a positive divisor. */
  lemma FloorDiv(x: int, t: int)
    requires t > 0
    ensures t * (x / t) <= x < t * (x / t) + t
  {
  }

  lemma CancelPositive(t: int, a: int, b: int)
    requires t > 0 && t * a <= t * b
    ensures a <= b
  {
  }

  lemma CancelPositiveStrict(t: int, a: int, b: int)
    requires t > 0 && t * a < t * b
    ensures a < b
  {
  }

  /** Truncating `source * w / t` for non-negative weights loses less than one unit per part. */
  lemma PartBounds(source: int, w: int, t: int)
    requires source >= 0 && w >= 0 && t > 0
    ensures 0 <= source * w / t
    ensures t * (source * w / t) <= source * w < t * (source * w / t) + t
  {
    FloorDiv(source * w, t);
  }
}
