/** The planar point-in-polygon test as a function: a crossing-number walk
    over the edges of the stored hull boundary with a parity flag. The
    imperative `ConvexHull2D.Within` is proved to compute it. */
module Crossing {
  import opened Geometry

  /** Index of the vertex before vertex i, wrapping around. */
  function Prev(n: nat, i: nat): nat
    requires i < n
  {
    if i == 0 then n - 1 else i - 1
  }

  /** The edge (hp[i-1], hp[i]) straddles the horizontal line through q:
      exactly one endpoint is strictly above it. */
  predicate Straddles(p0: Point, p1: Point, q: Point) {
    (p1.y > q.y) != (p0.y > q.y)
  }

  /** The walk over edges i.. with parity c: true as soon as q is a vertex
      or lies on a straddling edge, else the parity flipped once per edge
      that the horizontal ray from q crosses. */
  function Crossings(hp: seq<Point>, q: Point, i: nat, c: bool): bool
    requires i <= |hp|
    decreases |hp| - i
  {
    if i == |hp| then c
    else
      var p0, p1 := hp[Prev(|hp|, i)], hp[i];
      if q == p1 then true
      else if Straddles(p0, p1, q) then
        var cp := CrossZ(Sub(q, p0), Sub(p1, p0));
        if cp == 0 then true
        else Crossings(hp, q, i + 1, if (cp > 0) != (p0.y > p1.y) then !c else c)
      else Crossings(hp, q, i + 1, c)
  }

  /** Whether q is inside or on the boundary `hp`; false without a boundary. */
  function Within2D(hp: seq<Point>, q: Point): (r: bool)
    ensures hp == [] ==> !r
  {
    if hp == [] then false else Crossings(hp, q, 0, false)
  }

  /** From any edge up to and including the one ending at vertex k, the walk
      answers true when q is that vertex: every early exit returns true. */
  lemma {:induction false} CrossingsReachVertex(hp: seq<Point>, q: Point, i: nat, c: bool, k: nat)
    requires i <= k < |hp| && hp[k] == q
    ensures Crossings(hp, q, i, c)
    decreases |hp| - i
  {
    if q != hp[i] {
      var p0, p1 := hp[Prev(|hp|, i)], hp[i];
      if Straddles(p0, p1, q) {
        var cp := CrossZ(Sub(q, p0), Sub(p1, p0));
        if cp != 0 {
          CrossingsReachVertex(hp, q, i + 1, if (cp > 0) != (p0.y > p1.y) then !c else c, k);
        }
      } else {
        CrossingsReachVertex(hp, q, i + 1, c, k);
      }
    }
  }

  /** A query equal to a boundary vertex is within. */
  lemma WithinVertex(hp: seq<Point>, q: Point)
    requires q in hp
    ensures Within2D(hp, q)
  {
    var k :| 0 <= k < |hp| && hp[k] == q;
    CrossingsReachVertex(hp, q, 0, false, k);
  }

  /** Edges none of which straddles q's horizontal line leave the parity
      flag as it is. */
  lemma {:induction false} NoStraddleKeepsParity(hp: seq<Point>, q: Point, i: nat, c: bool)
    requires i <= |hp|
    requires q !in hp
    requires forall m :: 0 <= m < |hp| ==> !Straddles(hp[Prev(|hp|, m)], hp[m], q)
    ensures Crossings(hp, q, i, c) == c
    decreases |hp| - i
  {
    if i < |hp| {
      NoStraddleKeepsParity(hp, q, i + 1, c);
    }
  }

  /** A query that is not a vertex and lies strictly below every vertex, or
      at or above every vertex, is not within. */
  lemma OutsideBand(hp: seq<Point>, q: Point)
    requires q !in hp
    requires (forall v :: v in hp ==> v.y > q.y) || (forall v :: v in hp ==> v.y <= q.y)
    ensures !Within2D(hp, q)
  {
    if hp != [] {
      forall m | 0 <= m < |hp|
        ensures !Straddles(hp[Prev(|hp|, m)], hp[m], q)
      {
        assert hp[Prev(|hp|, m)] in hp && hp[m] in hp;
      }
      NoStraddleKeepsParity(hp, q, 0, false);
    }
  }
}
