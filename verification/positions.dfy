/** Grid coordinates (`pos_t` in grid.h): an immutable pair of integers, with
    the constructor, addition and equality test of grid.c. */
module Positions {

  /** A position; `y` grows upwards, `x` to the right. */
  datatype Pos = Pos(x: int, y: int)

  /** `mk_pos`: the position with the given coordinates. */
  function MkPos(x: int, y: int): (p: Pos)
    ensures p.x == x && p.y == y
  {
    Pos(x, y)
  }

  /** `pos_add`: component-wise sum, documented as `mk_pos(a.x+b.x, a.y+b.y)`. */
  function PosAdd(a: Pos, b: Pos): (p: Pos)
    ensures p == MkPos(a.x + b.x, a.y + b.y)
  {
    Pos(a.x + b.x, a.y + b.y)
  }

  /** `pos_equals`: the C truth value 1 when both coordinates agree, 0 otherwise. */
  function PosEquals(a: Pos, b: Pos): (r: int)
    ensures r == 0 || r == 1
    ensures r == 1 <==> a == b
  {
    if a.x == b.x && a.y == b.y then 1 else 0
  }

  /** Squared Euclidean distance. It orders pairs of positions exactly
      as their exact (real) Euclidean distances do, the square root that
      `pos_distance` approximates in floating point. */
  function SqDist(a: Pos, b: Pos): (d: nat)
    ensures d == 0 <==> a == b
  {
    (b.x - a.x) * (b.x - a.x) + (b.y - a.y) * (b.y - a.y)
  }

  /** `r` is the Euclidean distance `pos_distance(a, b)` computes, taken as an
      exact real: the non-negative square root of the squared distance. */
  ghost predicate IsDistance(a: Pos, b: Pos, r: real) {
    0.0 <= r && r * r == SqDist(a, b) as real
  }

  /** A product of two positive reals is positive. */
  lemma PositiveProduct(x: real, y: real)
    requires 0.0 < x && 0.0 < y
    ensures 0.0 < x * y
  {
  }

  /** The difference of two squares factors. */
  lemma DifferenceOfSquares(r: real, s: real)
    ensures (s - r) * (s + r) == s * s - r * r
  {
  }

  /** Squaring is strictly monotone on the non-negative reals. */
  lemma SquareMonotone(r: real, s: real)
    requires 0.0 <= r && 0.0 <= s
    ensures r < s <==> r * r < s * s
  {
    if r < s {
      PositiveProduct(s - r, s + r);
      DifferenceOfSquares(r, s);
    } else if s < r {
      PositiveProduct(r - s, r + s);
      DifferenceOfSquares(s, r);
    }
  }

  /** Comparing squared distances gives the same answer as comparing the
      Euclidean distances, both for `<` (the planner's test) and for ties. */
  lemma SqDistOrder(a: Pos, b: Pos, c: Pos, e: Pos, r: real, s: real)
    requires IsDistance(a, b, r) && IsDistance(c, e, s)
    ensures SqDist(a, b) < SqDist(c, e) <==> r < s
    ensures SqDist(a, b) == SqDist(c, e) <==> r == s
  {
    SquareMonotone(r, s);
    SquareMonotone(s, r);
  }

  /** Adding an offset is cancellable: different offsets from one position
      reach different positions, and only the zero offset stays in place. */
  lemma PosAddCancel(a: Pos, b: Pos, c: Pos)
    ensures PosAdd(a, b) == PosAdd(a, c) <==> b == c
    ensures PosAdd(a, b) == a <==> b == Pos(0, 0)
  {
  }
}
