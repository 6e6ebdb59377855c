/** Points, difference vectors, the point ordering and the integer cross and
    dot products that the hull algorithms are built from. */
module Geometry {

  /** A coordinate triple; a planar point has z == 0. Equality of two points
      is componentwise, which is Dafny's equality on this datatype. */
  datatype Point = Point(x: int, y: int, z: int)

  /** The three-element difference list that point subtraction returns. */
  datatype Vector = Vector(x: int, y: int, z: int)

  const Zero := Vector(0, 0, 0)

  datatype Option<T> = None | Some(value: T)

  /** What a hull construction did: built the hull, or left the state as it
      was for one of the degenerate cases. `NotClosed` stands for a gift
      wrapping run that would never return to its starting point. */
  datatype HullOutcome = Built | InsufficientPoints | DegenerateNoArea | DegenerateNoVolume | NotClosed

  /** `p + v`, the inverse of subtraction. */
  function Translate(p: Point, v: Vector): Point {
    Point(p.x + v.x, p.y + v.y, p.z + v.z)
  }

  /** `p - q`. */
  function Sub(p: Point, q: Point): Vector {
    Vector(p.x - q.x, p.y - q.y, p.z - q.z)
  }

  /** Subtraction is undone by translation, and the difference of two
      points is zero exactly when they are equal. */
  lemma SubInverse(p: Point, q: Point)
    ensures Translate(q, Sub(p, q)) == p
    ensures Sub(p, q) == Zero <==> p == q
  {
  }

  /** The coordinate tuple under which a point is kept in the membership sets. */
  function Key(p: Point): (int, int, int) {
    (p.x, p.y, p.z)
  }

  /** The planar key the 2D hull construction uses: z is ignored. */
  function Key2(p: Point): (int, int) {
    (p.x, p.y)
  }

  function Keys(s: seq<Point>): set<(int, int, int)> {
    set p | p in s :: Key(p)
  }

  function Keys2(s: seq<Point>): set<(int, int)> {
    set p | p in s :: Key2(p)
  }

  lemma KeyInjective(p: Point, q: Point)
    ensures Key(p) == Key(q) <==> p == q
  {
  }

  lemma {:induction false} KeyInKeys(s: seq<Point>, p: Point)
    ensures Key(p) in Keys(s) <==> p in s
  {
    if Key(p) in Keys(s) {
      var q :| q in s && Key(q) == Key(p);
      KeyInjective(p, q);
    }
  }

  /** The point ordering: lexicographic on x then y; when x and y agree the
      z values are compared only if neither of them is zero. */
  predicate Lt(p: Point, q: Point) {
    if p.x < q.x then true
    else if p.x == q.x then
      if p.y < q.y then true
      else if p.y == q.y && p.z != 0 && q.z != 0 then p.z < q.z
      else false
    else false
  }

  /** The ordering spelled out: x first, then y, then z only when both z
      values are non-zero. */
  lemma LtOrder(p: Point, q: Point)
    ensures Lt(p, q) <==> || p.x < q.x
                          || (p.x == q.x && p.y < q.y)
                          || (p.x == q.x && p.y == q.y && p.z != 0 && q.z != 0 && p.z < q.z)
  {
  }

  lemma LtIrreflexive(p: Point)
    ensures !Lt(p, p)
  {
  }

  lemma LtAsymmetric(p: Point, q: Point)
    ensures Lt(p, q) ==> !Lt(q, p)
  {
  }

  lemma LtTransitive(p: Point, q: Point, r: Point)
    ensures Lt(p, q) && Lt(q, r) ==> Lt(p, r)
  {
  }

  /** The ordering is not total: on equal x and y, a zero z makes two
      distinct points incomparable. */
  lemma LtNotTotal()
    ensures Point(0, 0, 0) != Point(0, 0, 5)
    ensures !Lt(Point(0, 0, 0), Point(0, 0, 5)) && !Lt(Point(0, 0, 5), Point(0, 0, 0))
  {
  }

  /** The 2x2 determinant | a b ; c d |. */
  function Det(a: int, b: int, c: int, d: int): int {
    a * d - b * c
  }

  /** The cross product u x v, one determinant per component. */
  function Cross(u: Vector, v: Vector): Vector {
    Vector(Det(u.y, u.z, v.y, v.z), Det(u.z, u.x, v.z, v.x), Det(u.x, u.y, v.x, v.y))
  }

  /** The z component of u x v, the only one the planar algorithms read. */
  function CrossZ(u: Vector, v: Vector): int {
    Det(u.x, u.y, v.x, v.y)
  }

  lemma CrossZComponent(u: Vector, v: Vector)
    ensures CrossZ(u, v) == Cross(u, v).z
  {
  }

  function Dot(u: Vector, v: Vector): int {
    u.x * v.x + u.y * v.y + u.z * v.z
  }

  /** The signed volume `(p - a) . ((b - a) x (c - a))`: which side of the
      plane through a, b, c the point p is on. */
  function Orient(a: Point, b: Point, c: Point, p: Point): int {
    Dot(Sub(p, a), Cross(Sub(b, a), Sub(c, a)))
  }

  /** The cross product is orthogonal to both of its arguments. */
  lemma CrossOrthogonal(u: Vector, v: Vector)
    ensures Dot(u, Cross(u, v)) == 0 && Dot(v, Cross(u, v)) == 0
  {
  }

  lemma CrossAntisymmetric(u: Vector, v: Vector)
    ensures Cross(v, u) == Vector(-Cross(u, v).x, -Cross(u, v).y, -Cross(u, v).z)
  {
  }

  /** Exchanging the second and third vertex negates the signed volume. */
  lemma OrientSwapLast(a: Point, b: Point, c: Point, p: Point)
    ensures Orient(a, c, b, p) == -Orient(a, b, c, p)
  {
    CrossAntisymmetric(Sub(b, a), Sub(c, a));
  }

  /** Exchanging the first and second vertex negates the signed volume. */
  lemma OrientSwapFirst(a: Point, b: Point, c: Point, p: Point)
    ensures Orient(b, a, c, p) == -Orient(a, b, c, p)
  {
    var u, v, w := Sub(b, a), Sub(c, a), Sub(p, a);
    assert Sub(a, b) == Vector(-u.x, -u.y, -u.z);
    assert Sub(c, b) == Vector(v.x - u.x, v.y - u.y, v.z - u.z);
    assert Sub(p, b) == Vector(w.x - u.x, w.y - u.y, w.z - u.z);
    var n := Cross(u, v);
    assert Cross(Sub(a, b), Sub(c, b)) == Vector(-n.x, -n.y, -n.z);
    CrossOrthogonal(u, v);
  }

  lemma CrossZeroLeft(v: Vector)
    ensures Cross(Zero, v) == Zero
  {
  }

  lemma CrossZeroRight(u: Vector)
    ensures Cross(u, Zero) == Zero
  {
  }

  lemma CrossSelf(u: Vector)
    ensures Cross(u, u) == Zero
  {
  }

  lemma DotZero(w: Vector)
    ensures Dot(w, Zero) == 0
  {
  }

  /** The signed volume vanishes when two vertices coincide. */
  lemma OrientRepeatedVertex(a: Point, b: Point, c: Point, p: Point)
    requires a == b || b == c || a == c
    ensures Orient(a, b, c, p) == 0
  {
    var u, v, w := Sub(b, a), Sub(c, a), Sub(p, a);
    if a == b {
      CrossZeroLeft(v);
    } else if a == c {
      CrossZeroRight(u);
    } else {
      CrossSelf(u);
    }
    DotZero(w);
  }

  /** The signed volume of a vertex is zero. */
  lemma OrientAtVertex(a: Point, b: Point, c: Point, p: Point)
    requires p == a || p == b || p == c
    ensures Orient(a, b, c, p) == 0
  {
    var u, v, w := Sub(b, a), Sub(c, a), Sub(p, a);
    if p == a {
      assert w == Zero;
    } else if p == b {
      assert w == u;
    } else {
      assert w == v;
    }
  }

  /** The signed volume vanishes when the plane is not determined because
      two of its vertices coincide, and for a point that is one of them. */
  lemma OrientDegenerate(a: Point, b: Point, c: Point, p: Point)
    ensures (a == b || b == c || a == c) ==> Orient(a, b, c, p) == 0
    ensures (p == a || p == b || p == c) ==> Orient(a, b, c, p) == 0
  {
    if a == b || b == c || a == c {
      OrientRepeatedVertex(a, b, c, p);
    }
    if p == a || p == b || p == c {
      OrientAtVertex(a, b, c, p);
    }
  }
}
