/** The slice of the game library's 2D math the core relies on: vectors, integer
    points and rectangles, rectangle overlap, and the MathF rounding, floor,
    ceiling and sign functions. Floats become `real`; integer fields become `int`. */
module Geometry {

  /** A 2D vector (`Vector2`). */
  datatype Vec = Vec(x: real, y: real)

  const Zero: Vec := Vec(0.0, 0.0)

  function Add(a: Vec, b: Vec): Vec { Vec(a.x + b.x, a.y + b.y) }

  function Scale(a: Vec, k: real): Vec { Vec(a.x * k, a.y * k) }

  function Sub(a: Vec, b: Vec): Vec { Vec(a.x - b.x, a.y - b.y) }

  /** `Vector2.LengthSquared`. */
  function LengthSquared(v: Vec): real { v.x * v.x + v.y * v.y }

  /** An integer point (`Point`). */
  datatype Point = Point(x: int, y: int)

  /** An integer axis-aligned rectangle (`Rectangle`): top-left corner and size. */
  datatype Box = Box(x: int, y: int, width: int, height: int)

  /** `Rectangle.Empty`. */
  const EmptyBox: Box := Box(0, 0, 0, 0)

  function Right(b: Box): int { b.x + b.width }
  function Bottom(b: Box): int { b.y + b.height }

  /** `Rectangle.Intersects`, taken as an assumption about the library: two boxes
      overlap when each one's left/top edge lies strictly before the other's
      right/bottom edge (half-open overlap on both axes). */
  predicate Intersects(a: Box, b: Box) {
    b.x < Right(a) && a.x < Right(b) && b.y < Bottom(a) && a.y < Bottom(b)
  }

  lemma IntersectsSymmetric(a: Box, b: Box)
    ensures Intersects(a, b) <==> Intersects(b, a)
  {
  }

  /** `MathF.Sign`. */
  function Sign(v: real): (s: int)
    ensures s == 1 <==> v > 0.0
    ensures s == -1 <==> v < 0.0
    ensures s == 0 <==> v == 0.0
  {
    if v > 0.0 then 1 else if v < 0.0 then -1 else 0
  }

  function Abs(v: real): (a: real)
    ensures a >= 0.0 && (a == v || a == -v)
  {
    if v < 0.0 then -v else v
  }

  /** `MathF.Floor`: the greatest integer not above `v`. */
  function Floor(v: real): (n: int)
    ensures n as real <= v < n as real + 1.0
  {
    v.Floor
  }

  /** `MathF.Ceiling`: the least integer not below `v`. */
  function Ceiling(v: real): (n: int)
    ensures n as real - 1.0 < v <= n as real
  {
    -((-v).Floor)
  }

  /** `MathF.Round` with its default midpoint rule: to the nearest integer, and
      an exact half goes to the even neighbour. */
  function Round(v: real): (n: int)
    ensures -0.5 <= n as real - v <= 0.5
    ensures (n as real - v == 0.5 || v - n as real == 0.5) ==> n % 2 == 0
  {
    var f := v.Floor;
    var d := v - f as real;
    if d < 0.5 then f
    else if d > 0.5 then f + 1
    else if f % 2 == 0 then f
    else f + 1
  }

  /** The two properties of `Round`'s contract pin its result down: any integer
      within one half of `v`, and even at a tie, is `Round(v)`. */
  lemma RoundUnique(v: real, m: int)
    requires -0.5 <= m as real - v <= 0.5
    requires (m as real - v == 0.5 || v - m as real == 0.5) ==> m % 2 == 0
    ensures m == Round(v)
  {
  }

  /** No integer is strictly closer to `v` than `Round(v)`. */
  lemma RoundNearest(v: real, m: int)
    ensures Abs(Round(v) as real - v) <= Abs(m as real - v)
  {
    var n := Round(v);
    if m < n {
      assert m as real <= n as real - 1.0;
    } else if m > n {
      assert m as real >= n as real + 1.0;
    }
  }

  /** Ties go to the even neighbour, not away from zero. */
  lemma RoundTiesToEven()
    ensures Round(0.5) == 0 && Round(1.5) == 2 && Round(2.5) == 2
    ensures Round(-0.5) == 0 && Round(-2.5) == -2
  {
    RoundUnique(0.5, 0);
    RoundUnique(1.5, 2);
    RoundUnique(2.5, 2);
    RoundUnique(-0.5, 0);
    RoundUnique(-2.5, -2);
  }

  lemma RoundInteger(n: int)
    ensures Round(n as real) == n
  {
  }
}
