/** The spatial container: the planar container's point stores, which it
    shares, plus the faces of the last construction, a brute-force hull over
    all triples, its coplanarity guard and the half-space containment test. */
module Hull3D {
  import opened Geometry
  import opened Facets
  import opened Hull2D

  /** The sign counts of one triple, in one pass over the points. */
  method CountSides(pts: seq<Point>, a: Point, b: Point, c: Point) returns (pos: nat, zero: nat, neg: nat)
    ensures Tally(pos, zero, neg) == Classify(pts, a, b, c)
  {
    var q := Cross(Sub(b, a), Sub(c, a));
    pos, zero, neg := 0, 0, 0;
    for m := 0 to |pts|
      invariant Tally(pos, zero, neg) == Classify(pts[..m], a, b, c)
    {
      var p := pts[m];
      assert pts[..m + 1][..m] == pts[..m];
      if p == a || p == b || p == c {
        continue;
      }
      var sign := Dot(Sub(p, a), q);
      if sign > 0 {
        pos := pos + 1;
      } else if sign == 0 {
        zero := zero + 1;
      } else {
        neg := neg + 1;
      }
    }
    assert pts[..|pts|] == pts;
  }

  /** Whether the triple is a face, and how it is oriented. */
  method TripleFace(pts: seq<Point>, a: Point, b: Point, c: Point) returns (o: Option<Face>)
    ensures o == FaceOf(pts, a, b, c)
  {
    var pos, zero, neg := CountSides(pts, a, b, c);
    if (pos > 0) != (neg > 0) {
      o := Some(if pos > 0 then Face(a, b, c) else Face(a, c, b));
    } else {
      o := None;
    }
  }

  lemma KeysAppend(s: seq<Point>, t: seq<Point>)
    ensures Keys(s + t) == Keys(s) + Keys(t)
  {
  }

  /** Dropping a point's key from a set of keys of hull points, and the
      point from the hull points, leaves every remaining key with a hull
      point. */
  lemma RemoveFirstKeys(hp: seq<Point>, point: Point, ks: set<(int, int, int)>)
    requires point in hp && ks <= Keys(hp)
    ensures ks - {Key(point)} <= Keys(RemoveFirst(hp, point))
  {
    forall k | k in ks - {Key(point)}
      ensures k in Keys(RemoveFirst(hp, point))
    {
      var q :| q in hp && Key(q) == k;
      KeyInjective(q, point);
      RemoveFirstKeeps(hp, point, q);
    }
  }

  class ConvexHull3D {
    /** The point and hull stores, with the planar container's add and
        remove. */
    const base: ConvexHull2D
    /** The faces of the last construction, each oriented inwards. */
    var faces: seq<Face>

    /** The stores agree, and every recorded hull key belongs to a hull
        point. */
    ghost predicate Valid()
      reads this, base
    {
      base.Valid() && base.hullPointsSet <= Keys(base.hullPoints)
    }

    constructor ()
      ensures Valid() && fresh(base)
      ensures base.points == [] && base.hullPoints == [] && base.hullPointsSet == {} && faces == []
    {
      base := new ConvexHull2D();
      faces := [];
    }

    /** Adds a point as the planar container does; faces and hull stores
        stay as they are. */
    method Add(point: Point)
      requires Valid()
      modifies base
      ensures Valid()
      ensures base.hullPoints == old(base.hullPoints) && base.hullPointsSet == old(base.hullPointsSet)
      ensures point in base.points
      ensures point in old(base.points) ==> base.points == old(base.points)
      ensures point !in old(base.points) ==>
                base.points == if old(base.points) != [] && Lt(point, old(base.points)[0]) then [point] + old(base.points)
                               else old(base.points) + [point]
      ensures FrontMinimal(old(base.points)) ==> FrontMinimal(base.points)
    {
      base.Add(point);
    }

    /** Removes a point as the planar container does. A recorded hull key
        always has a hull point, so the removal never fails here; the
        faces are left as they are. */
    method Remove(point: Point)
      requires Valid()
      modifies base
      ensures Valid()
      ensures base.points == if point in old(base.points) then RemoveFirst(old(base.points), point) else old(base.points)
      ensures point !in base.points
      ensures Key(point) in old(base.hullPointsSet) ==>
                && base.hullPoints == RemoveFirst(old(base.hullPoints), point)
                && base.hullPointsSet == old(base.hullPointsSet) - {Key(point)}
      ensures Key(point) !in old(base.hullPointsSet) ==>
                base.hullPoints == old(base.hullPoints) && base.hullPointsSet == old(base.hullPointsSet)
    {
      ghost var hp := base.hullPoints;
      KeyInKeys(base.hullPoints, point);
      KeyInKeys(base.points, point);
      var raised := base.Remove(point);
      assert !raised;
      if Key(point) in old(base.hullPointsSet) {
        RemoveFirstKeys(hp, point, old(base.hullPointsSet));
      }
    }

    /** The half-space test: false without hull points; otherwise true for
        a face vertex or a point in a face plane, false for a point on the
        outer side of a face met before either. */
    method Within(point: Point) returns (r: bool)
      ensures r == Within3D(base.hullPoints, faces, point)
    {
      if base.hullPoints == [] {
        return false;
      }
      for idx := 0 to |faces|
        invariant FacesAdmit(faces[idx..], point) == FacesAdmit(faces, point)
      {
        assert faces[idx..][1..] == faces[idx + 1..];
        var face := faces[idx];
        var a, b, c := face.a, face.b, face.c;
        if point == a || point == b || point == c {
          return true;
        }
        var q := Cross(Sub(b, a), Sub(c, a));
        var sign := Dot(Sub(point, a), q);
        if sign > 0 {
        } else if sign == 0 {
          return true;
        } else {
          return false;
        }
      }
      return true;
    }

    /** The coplanarity guard: for every i in [0, n-2), j in [1, n-1) and
        k in [2, n) the plane equation through points i, j, k is evaluated
        at every point, and any non-zero value answers false. */
    method AllInOnePlane() returns (r: bool)
      ensures r == Coplanar(base.points)
    {
      var pts := base.points;
      var n := |pts|;
      var i := 0;
      while i < n - 2
        invariant 0 <= i && (n >= 2 ==> i <= n - 2)
        invariant forall i', j', k' :: 0 <= i' < i && 1 <= j' < n - 1 && 2 <= k' < n ==> Vanishes(pts, i', j', k')
      {
        var j := 1;
        while j < n - 1
          invariant 1 <= j <= n - 1
          invariant forall j', k' :: 1 <= j' < j && 2 <= k' < n ==> Vanishes(pts, i, j', k')
        {
          var k := 2;
          while k < n
            invariant 2 <= k <= n
            invariant forall k' :: 2 <= k' < k ==> Vanishes(pts, i, j, k')
          {
            var (a, b, c, d) := Plane(pts[i], pts[j], pts[k]);
            for m := 0 to n
              invariant forall m' :: 0 <= m' < m ==> Orient(pts[i], pts[j], pts[k], pts[m']) == 0
            {
              var p := pts[m];
              assert a * p.x + b * p.y + c * p.z + d == PlaneValue(pts[i], pts[j], pts[k], p);
              if a * p.x + b * p.y + c * p.z + d != 0 {
                if Coplanar(pts) {
                  CoplanarEveryTriple(pts, i, j, k);
                }
                return false;
              }
            }
            k := k + 1;
          }
          j := j + 1;
        }
        i := i + 1;
      }
      return true;
    }

    /** The hull stores are `h0` and `s0` extended by the vertices of the
        faces built so far and their keys. */
    ghost predicate Extends(h0: seq<Point>, s0: set<(int, int, int)>)
      reads this, base
    {
      base.hullPoints == h0 + Flatten(faces) && base.hullPointsSet == s0 + Keys(Flatten(faces))
    }

    /** Records an accepted face: its vertices, in face order, go to the
        hull points, their keys to the hull keys, the face to the faces. */
    method AppendFace(order: Face, ghost h0: seq<Point>, ghost s0: set<(int, int, int)>)
      requires Extends(h0, s0)
      modifies this, base`hullPoints, base`hullPointsSet
      ensures Extends(h0, s0) && faces == old(faces) + [order]
    {
      var vs := [order.a, order.b, order.c];
      assert Flatten(faces + [order]) == Flatten(faces) + vs by {
        assert (faces + [order])[..|faces|] == faces;
      }
      KeysAppend(Flatten(faces), vs);
      assert Keys(vs) == {Key(order.a), Key(order.b), Key(order.c)};
      base.hullPoints := base.hullPoints + vs;
      faces := faces + [order];
      base.hullPointsSet := base.hullPointsSet + {Key(order.a), Key(order.b), Key(order.c)};
    }

    /** The innermost loop of the construction: the triples (i, j, k) for
        every k after j. */
    method FacesOfPair(pts: seq<Point>, i: nat, j: nat, ghost h0: seq<Point>, ghost s0: set<(int, int, int)>)
      requires i < j < |pts|
      requires Extends(h0, s0)
      modifies this, base`hullPoints, base`hullPointsSet
      ensures Extends(h0, s0) && faces == old(faces) + KRow(pts, FaceRule(pts), i, j, j + 1)
    {
      ghost var rule := FaceRule(pts);
      for k := j + 1 to |pts|
        invariant Extends(h0, s0)
        invariant faces + KRow(pts, rule, i, j, k) == old(faces) + KRow(pts, rule, i, j, j + 1)
      {
        var accepted := TripleFace(pts, pts[i], pts[j], pts[k]);
        assert accepted == rule(pts[i], pts[j], pts[k]);
        ghost var before := faces;
        ghost var later := KRow(pts, rule, i, j, k + 1);
        assert KRow(pts, rule, i, j, k) == Maybe(accepted) + later;
        Regroup(before, Maybe(accepted), later);
        if accepted.Some? {
          AppendFace(accepted.value, h0, s0);
          assert faces == before + Maybe(accepted);
        } else {
          assert before + Maybe(accepted) == before;
        }
      }
      assert KRow(pts, rule, i, j, |pts|) == [];
    }

    /** The middle loop of the construction: the triples (i, j, k) for
        every j after i. */
    method FacesFrom(pts: seq<Point>, i: nat, ghost h0: seq<Point>, ghost s0: set<(int, int, int)>)
      requires i + 2 < |pts|
      requires Extends(h0, s0)
      modifies this, base`hullPoints, base`hullPointsSet
      ensures Extends(h0, s0) && faces == old(faces) + JRow(pts, FaceRule(pts), i, i + 1)
    {
      ghost var rule := FaceRule(pts);
      for j := i + 1 to |pts| - 1
        invariant Extends(h0, s0)
        invariant faces + JRow(pts, rule, i, j) == old(faces) + JRow(pts, rule, i, i + 1)
      {
        ghost var before := faces;
        ghost var here, later := KRow(pts, rule, i, j, j + 1), JRow(pts, rule, i, j + 1);
        assert JRow(pts, rule, i, j) == here + later;
        Regroup(before, here, later);
        FacesOfPair(pts, i, j, h0, s0);
        assert faces == before + here;
      }
      assert JRow(pts, rule, i, |pts| - 1) == [];
    }

    /** The outer loop of the construction: the triples (i, j, k) for every
        i, starting from no faces. */
    method BuildFaces(pts: seq<Point>, ghost h0: seq<Point>, ghost s0: set<(int, int, int)>)
      requires faces == [] && Extends(h0, s0)
      modifies this, base`hullPoints, base`hullPointsSet
      ensures Extends(h0, s0) && faces == AllFaces(pts)
    {
      ghost var rule := FaceRule(pts);
      if |pts| < 2 {
        assert IRow(pts, rule, 0) == [];
        return;
      }
      for i := 0 to |pts| - 2
        invariant Extends(h0, s0)
        invariant faces + IRow(pts, rule, i) == AllFaces(pts)
      {
        ghost var before := faces;
        ghost var here, later := JRow(pts, rule, i, i + 1), IRow(pts, rule, i + 1);
        assert IRow(pts, rule, i) == here + later;
        Regroup(before, here, later);
        FacesFrom(pts, i, h0, s0);
        assert faces == before + here;
      }
      assert IRow(pts, rule, |pts| - 2) == [];
    }

    /** Brute force: with fewer than four points or all points in one plane
        nothing changes; otherwise every triple i < j < k whose plane has
        the other points on exactly one side becomes a face, oriented
        towards them, and its vertices are appended to the hull stores. */
    method Hull() returns (outcome: HullOutcome)
      requires Valid()
      modifies this, base`hullPoints, base`hullPointsSet
      ensures Valid()
      ensures outcome == InsufficientPoints <==> |base.points| < 4
      ensures outcome == DegenerateNoVolume <==> |base.points| >= 4 && Coplanar(base.points)
      ensures outcome == Built <==> |base.points| >= 4 && !Coplanar(base.points)
      ensures outcome != Built ==>
                faces == old(faces) && base.hullPoints == old(base.hullPoints) && base.hullPointsSet == old(base.hullPointsSet)
      ensures outcome == Built ==>
                && faces == AllFaces(base.points)
                && base.hullPoints == old(base.hullPoints) + Flatten(faces)
                && base.hullPointsSet == old(base.hullPointsSet) + Keys(Flatten(faces))
      ensures outcome == Built ==>
                forall p :: p in base.points ==> Within3D(base.hullPoints, faces, p) == (base.hullPoints != [])
    {
      var n := |base.points|;
      if n < 4 {
        return InsufficientPoints;
      }
      var coplanar := AllInOnePlane();
      if coplanar {
        return DegenerateNoVolume;
      }
      var pts := base.points;
      ghost var h0, s0 := base.hullPoints, base.hullPointsSet;
      faces := [];
      BuildFaces(pts, h0, s0);
      KeysAppend(h0, Flatten(faces));
      forall p | p in pts
        ensures Within3D(base.hullPoints, faces, p) == (base.hullPoints != [])
      {
        HullContainsItsPoints(pts, base.hullPoints, p);
      }
      return Built;
    }
  }
}
