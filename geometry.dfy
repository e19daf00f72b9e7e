/** Value types shared by the crop solver and the print checks. */
module Geometry {

  /** A `Magick::Geometry` as the toolkit uses it: an extent (`size_t` in the
      library, so never negative) and an offset of its top-left corner. The
      constructor takes them in the library's order: width, height, x, y. */
  datatype Rect = Rect(width: nat, height: nat, xOff: int, yOff: int)

  /** Width and height of an image or of a requested extent. */
  datatype Size = Size(width: int, height: int)

  datatype Option<T> = None | Some(value: T)

  function Min(a: int, b: int): int { if a <= b then a else b }

  function Max(a: int, b: int): int { if a >= b then a else b }

  /** Half of a natural number, rounded down: the `h` with
      `2 * h <= n <= 2 * h + 1`, found by taking 2 away until less than 2 is
      left. It equals `n / 2`; it is written by recursion so that the proofs
      about the crop trims see only its linear contract, never the
      non-linear `/`. */
  function HalfNat(n: nat): (h: nat)
    ensures 2 * h <= n <= 2 * h + 1
  {
    if n < 2 then 0 else HalfNat(n - 2) + 1
  }

  /** `x / 2` on a C `int`: the quotient is truncated toward zero, whereas
      Dafny's `/` rounds toward negative infinity for a negative `x`. */
  function Half(x: int): (h: int)
    ensures x >= 0 ==> 0 <= 2 * h <= x <= 2 * h + 1
    ensures x < 0 ==> 2 * h - 1 <= x <= 2 * h <= 0
  {
    if x >= 0 then HalfNat(x) else -(HalfNat(-x) as int)
  }

  /** Column of the far (right) edge of `r`. */
  function XEnd(r: Rect): int { r.xOff + r.width }

  /** Row of the far edge of `r` along the height. */
  function YEnd(r: Rect): int { r.yOff + r.height }

  /** `r` lies inside a `width` x `height` image. */
  predicate Inside(r: Rect, width: int, height: int)
  {
    0 <= r.xOff && XEnd(r) <= width &&
    0 <= r.yOff && YEnd(r) <= height
  }
}
