/** The two conversion helpers between vectors and integer points. */
module ExtensionMethods {
  import opened Geometry

  /** `Point.FromVector`: both coordinates of the incoming point are overwritten
      with the rounded coordinates of `vector` (ties to even), and that point is
      returned. The float-to-int cast is taken to be exact. */
  function FromVector(point: Point, vector: Vec): (r: Point)
    ensures -0.5 <= r.x as real - vector.x <= 0.5
    ensures -0.5 <= r.y as real - vector.y <= 0.5
    ensures (r.x as real - vector.x == 0.5 || vector.x - r.x as real == 0.5) ==> r.x % 2 == 0
    ensures (r.y as real - vector.y == 0.5 || vector.y - r.y as real == 0.5) ==> r.y % 2 == 0
  {
    point.(x := Round(vector.x)).(y := Round(vector.y))
  }

  /** The incoming point's own coordinates never reach the result. */
  lemma FromVectorIgnoresPoint(p: Point, q: Point, vector: Vec)
    ensures FromVector(p, vector) == FromVector(q, vector)
  {
  }

  /** Each coordinate of the result is a nearest integer to the vector's. */
  lemma FromVectorNearest(point: Point, vector: Vec, other: Point)
    ensures Abs(FromVector(point, vector).x as real - vector.x) <= Abs(other.x as real - vector.x)
    ensures Abs(FromVector(point, vector).y as real - vector.y) <= Abs(other.y as real - vector.y)
  {
    RoundNearest(vector.x, other.x);
    RoundNearest(vector.y, other.y);
  }

  /** `Vector2.FromPoint` as written: the vector is received by value, so the two
      field writes land on the method's own copy. The result is the vector the
      caller holds once the call returns. */
  function FromPoint(vector: Vec, point: Point): (callerVector: Vec)
    ensures callerVector == vector
  {
    vector
  }

  /** Exhibits the lost write: after `FromPoint(Zero, (1, 2))` the caller still
      holds the zero vector, not the point's coordinates. */
  lemma FromPointLosesWrite()
    ensures FromPoint(Zero, Point(1, 2)) != PointToVector(Point(1, 2))
  {
  }

  /** What `FromPoint` is evidently meant to produce: the vector with the point's
      coordinates. */
  function PointToVector(point: Point): (v: Vec)
    ensures v.x == point.x as real && v.y == point.y as real
  {
    Vec(point.x as real, point.y as real)
  }

  /** The corrected conversion is undone by `FromVector`, whatever point it writes into. */
  lemma PointToVectorRoundTrip(seed: Point, point: Point)
    ensures FromVector(seed, PointToVector(point)) == point
  {
    RoundInteger(point.x);
    RoundInteger(point.y);
  }
}
