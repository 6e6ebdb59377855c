/** The spatial construction as functions: the coplanarity test, the
    classification of the other points against the plane of a triple, the
    enumeration of triples i < j < k with the orientation rule, and the
    half-space containment test. The imperative `ConvexHull3D` methods are
    proved to compute these. */
module Facets {
  import opened Geometry

  /** An oriented triangle; its normal (b - a) x (c - a) points into the hull. */
  datatype Face = Face(a: Point, b: Point, c: Point)

  function Normal(f: Face): Vector {
    Cross(Sub(f.b, f.a), Sub(f.c, f.a))
  }

  /** The signed volume of p against the face: positive on the inner side. */
  function Side(f: Face, p: Point): int {
    Dot(Sub(p, f.a), Normal(f))
  }

  /** A face that has every point on its inner side or in its plane, and some
      point strictly inside. */
  ghost predicate Supporting(pts: seq<Point>, f: Face) {
    && (forall p :: p in pts ==> Side(f, p) >= 0)
    && (exists p :: p in pts && Side(f, p) > 0)
  }

  /** The coefficients (a, b, c, d) of the plane a*x + b*y + c*z + d = 0
      through p1, p2, p3, written out as the cross product of the two edge
      vectors from p1 and the offset that puts p1 on the plane. */
  function Plane(p1: Point, p2: Point, p3: Point): (int, int, int, int) {
    var a1, b1, c1 := p2.x - p1.x, p2.y - p1.y, p2.z - p1.z;
    var a2, b2, c2 := p3.x - p1.x, p3.y - p1.y, p3.z - p1.z;
    var a := b1 * c2 - b2 * c1;
    var b := a2 * c1 - a1 * c2;
    var c := a1 * b2 - b1 * a2;
    (a, b, c, -a * p1.x - b * p1.y - c * p1.z)
  }

  /** The plane equation value a*x + b*y + c*z + d of p for the plane
      through p1, p2, p3; it is the signed volume of p against the
      triangle. */
  function PlaneValue(p1: Point, p2: Point, p3: Point, p: Point): (v: int)
    ensures v == Orient(p1, p2, p3, p)
  {
    var (a, b, c, d) := Plane(p1, p2, p3);
    a * p.x + b * p.y + c * p.z + d
  }

  /** Every point lies in the plane of the triple (i, j, k). */
  ghost predicate Vanishes(pts: seq<Point>, i: nat, j: nat, k: nat)
    requires i < |pts| && j < |pts| && k < |pts|
  {
    forall m :: 0 <= m < |pts| ==> Orient(pts[i], pts[j], pts[k], pts[m]) == 0
  }

  /** All points lie in one plane: every triple of distinct positions spans
      a plane (or none) that contains every point. */
  ghost predicate Coplanar(pts: seq<Point>) {
    forall i, j, k :: 0 <= i < j < k < |pts| ==> Vanishes(pts, i, j, k)
  }

  /** The signed volume under every reordering of the triangle. */
  lemma OrientPermutations(a: Point, b: Point, c: Point, p: Point)
    ensures Orient(b, a, c, p) == -Orient(a, b, c, p)
    ensures Orient(a, c, b, p) == -Orient(a, b, c, p)
    ensures Orient(b, c, a, p) == Orient(a, b, c, p)
    ensures Orient(c, a, b, p) == Orient(a, b, c, p)
    ensures Orient(c, b, a, p) == -Orient(a, b, c, p)
  {
    OrientSwapFirst(a, b, c, p);
    OrientSwapLast(a, b, c, p);
    OrientSwapLast(b, a, c, p);
    OrientSwapFirst(a, c, b, p);
    OrientSwapFirst(b, c, a, p);
  }

  /** Coplanar points vanish on every triple of positions, sorted or not,
      repeated or not. */
  lemma CoplanarEveryTriple(pts: seq<Point>, i: nat, j: nat, k: nat)
    requires Coplanar(pts)
    requires i < |pts| && j < |pts| && k < |pts|
    ensures Vanishes(pts, i, j, k)
  {
    forall m | 0 <= m < |pts|
      ensures Orient(pts[i], pts[j], pts[k], pts[m]) == 0
    {
      var a, b, c, p := pts[i], pts[j], pts[k], pts[m];
      OrientPermutations(a, b, c, p);
      if i == j || j == k || i == k {
        OrientDegenerate(a, b, c, p);
      } else if i < j < k {
        assert Vanishes(pts, i, j, k);
      } else if i < k < j {
        assert Vanishes(pts, i, k, j);
      } else if j < i < k {
        assert Vanishes(pts, j, i, k);
      } else if j < k < i {
        assert Vanishes(pts, j, k, i);
      } else if k < i < j {
        assert Vanishes(pts, k, i, j);
      } else {
        assert Vanishes(pts, k, j, i);
      }
    }
  }

  /** How many points other than a, b, c lie on the positive side, in the
      plane, and on the negative side of the plane through a, b, c. */
  datatype Tally = Tally(pos: nat, zero: nat, neg: nat)

  function Classify(pts: seq<Point>, a: Point, b: Point, c: Point): Tally
    decreases |pts|
  {
    if pts == [] then Tally(0, 0, 0)
    else
      var t := Classify(pts[..|pts| - 1], a, b, c);
      var p := pts[|pts| - 1];
      if p == a || p == b || p == c then t
      else
        var s := Orient(a, b, c, p);
        if s > 0 then t.(pos := t.pos + 1)
        else if s == 0 then t.(zero := t.zero + 1)
        else t.(neg := t.neg + 1)
  }

  /** The counts say which sides are occupied. */
  lemma {:induction false} ClassifyFacts(pts: seq<Point>, a: Point, b: Point, c: Point)
    ensures Classify(pts, a, b, c).pos > 0 <==> exists p :: p in pts && Orient(a, b, c, p) > 0
    ensures Classify(pts, a, b, c).neg > 0 <==> exists p :: p in pts && Orient(a, b, c, p) < 0
    decreases |pts|
  {
    if pts != [] {
      var init, p := pts[..|pts| - 1], pts[|pts| - 1];
      assert pts == init + [p];
      ClassifyFacts(init, a, b, c);
      OrientDegenerate(a, b, c, p);
      forall q | q in pts
        ensures q in init || q == p
      {
      }
    }
  }

  /** A triple is a face when the other points occupy exactly one side of
      its plane; it is oriented so that the occupied side is the inner one. */
  function FaceOf(pts: seq<Point>, a: Point, b: Point, c: Point): Option<Face> {
    var t := Classify(pts, a, b, c);
    if (t.pos > 0) != (t.neg > 0) then
      Some(if t.pos > 0 then Face(a, b, c) else Face(a, c, b))
    else None
  }

  /** An accepted face supports the whole point set, keeps its first vertex
      and has a non-zero normal. */
  lemma FaceOfSupporting(pts: seq<Point>, a: Point, b: Point, c: Point)
    requires FaceOf(pts, a, b, c).Some?
    ensures var f := FaceOf(pts, a, b, c).value;
            && Supporting(pts, f)
            && Normal(f) != Zero
            && f.a == a && ((f.b == b && f.c == c) || (f.b == c && f.c == b))
  {
    ClassifyFacts(pts, a, b, c);
    var f := FaceOf(pts, a, b, c).value;
    forall p | true
      ensures Side(f, p) == Orient(f.a, f.b, f.c, p)
      ensures Orient(a, c, b, p) == -Orient(a, b, c, p)
    {
      OrientSwapLast(a, b, c, p);
    }
    var w :| w in pts && Side(f, w) > 0;
    assert Normal(f) == Zero ==> Side(f, w) == 0;
  }

  /** A triple whose normal is zero is never a face. */
  lemma ZeroNormalRejected(pts: seq<Point>, a: Point, b: Point, c: Point)
    requires Cross(Sub(b, a), Sub(c, a)) == Zero
    ensures FaceOf(pts, a, b, c) == None
  {
    ClassifyFacts(pts, a, b, c);
    forall p | true
      ensures Orient(a, b, c, p) == 0
    {
    }
  }

  function Maybe(o: Option<Face>): seq<Face> {
    match o
    case None => []
    case Some(f) => [f]
  }

  /** What a triple of points contributes to the face list. */
  type Rule = (Point, Point, Point) -> Option<Face>

  /** The face rule of the construction over the point set `pts`. */
  function FaceRule(pts: seq<Point>): Rule {
    (a: Point, b: Point, c: Point) => FaceOf(pts, a, b, c)
  }

  /** The faces of the innermost loop: triples (i, j, k') for k' from k on. */
  function KRow(pts: seq<Point>, rule: Rule, i: nat, j: nat, k: nat): seq<Face>
    requires i < |pts| && j < |pts|
    decreases |pts| - k
  {
    if k >= |pts| then [] else Maybe(rule(pts[i], pts[j], pts[k])) + KRow(pts, rule, i, j, k + 1)
  }

  /** The faces of the middle loop: rows (i, j') for j' from j on, up to
      the last position but one, each with k running from j' + 1. */
  function JRow(pts: seq<Point>, rule: Rule, i: nat, j: nat): seq<Face>
    requires i < |pts|
    decreases |pts| - j
  {
    if j + 1 >= |pts| then [] else KRow(pts, rule, i, j, j + 1) + JRow(pts, rule, i, j + 1)
  }

  /** The faces of the outer loop: rows i' from i on, up to the last
      position but two, each with j running from i' + 1. */
  function IRow(pts: seq<Point>, rule: Rule, i: nat): seq<Face>
    decreases |pts| - i
  {
    if i + 2 >= |pts| then [] else JRow(pts, rule, i, i + 1) + IRow(pts, rule, i + 1)
  }

  /** The faces of the spatial construction, in the order of its loops. */
  function AllFaces(pts: seq<Point>): seq<Face> {
    IRow(pts, FaceRule(pts), 0)
  }

  lemma Regroup(a: seq<Face>, b: seq<Face>, c: seq<Face>)
    ensures (a + b) + c == a + (b + c)
  {
  }

  /** `rule` gives f for the positions i < j < k. */
  ghost predicate Gives(pts: seq<Point>, rule: Rule, f: Face, i: nat, j: nat, k: nat) {
    i < j < k < |pts| && rule(pts[i], pts[j], pts[k]) == Some(f)
  }

  /** Every face of `fs` is what `rule` gives for some triple of positions
      i < j < k. */
  ghost predicate AllGiven(pts: seq<Point>, rule: Rule, fs: seq<Face>) {
    forall f :: f in fs ==> exists i, j, k :: Gives(pts, rule, f, i, j, k)
  }

  lemma AllGivenAppend(pts: seq<Point>, rule: Rule, a: seq<Face>, b: seq<Face>)
    requires AllGiven(pts, rule, a) && AllGiven(pts, rule, b)
    ensures AllGiven(pts, rule, a + b)
  {
    forall f | f in a + b
      ensures exists i, j, k :: Gives(pts, rule, f, i, j, k)
    {
      if f in a {
      } else {
        assert f in b;
      }
    }
  }

  /** Every face of an inner row is given by a triple (i, j, k'). */
  lemma {:induction false} KRowFrom(pts: seq<Point>, rule: Rule, i: nat, j: nat, k: nat)
    requires i < j < k && j < |pts|
    ensures AllGiven(pts, rule, KRow(pts, rule, i, j, k))
    decreases |pts| - k
  {
    if k < |pts| {
      KRowFrom(pts, rule, i, j, k + 1);
      var m := Maybe(rule(pts[i], pts[j], pts[k]));
      forall f | f in m
        ensures exists i', j', k' :: Gives(pts, rule, f, i', j', k')
      {
        assert Gives(pts, rule, f, i, j, k);
      }
      AllGivenAppend(pts, rule, m, KRow(pts, rule, i, j, k + 1));
    }
  }

  /** Every face of a middle row is given by some triple. */
  lemma {:induction false} JRowFrom(pts: seq<Point>, rule: Rule, i: nat, j: nat)
    requires i < j && i < |pts|
    ensures AllGiven(pts, rule, JRow(pts, rule, i, j))
    decreases |pts| - j
  {
    if j + 1 < |pts| {
      KRowFrom(pts, rule, i, j, j + 1);
      JRowFrom(pts, rule, i, j + 1);
      AllGivenAppend(pts, rule, KRow(pts, rule, i, j, j + 1), JRow(pts, rule, i, j + 1));
    }
  }

  /** Every face of an outer row is given by some triple. */
  lemma {:induction false} IRowFrom(pts: seq<Point>, rule: Rule, i: nat)
    ensures AllGiven(pts, rule, IRow(pts, rule, i))
    decreases |pts| - i
  {
    if i + 2 < |pts| {
      JRowFrom(pts, rule, i, i + 1);
      IRowFrom(pts, rule, i + 1);
      AllGivenAppend(pts, rule, JRow(pts, rule, i, i + 1), IRow(pts, rule, i + 1));
    }
  }

  /** A triple (i, j, k') with k' from k on that `rule` accepts gives a face
      of the inner row. */
  lemma {:induction false} KRowComplete(pts: seq<Point>, rule: Rule, i: nat, j: nat, k: nat, k': nat, f: Face)
    requires i < |pts| && j < |pts| && k <= k' < |pts|
    requires rule(pts[i], pts[j], pts[k']) == Some(f)
    ensures f in KRow(pts, rule, i, j, k)
    decreases |pts| - k
  {
    var m := Maybe(rule(pts[i], pts[j], pts[k]));
    assert KRow(pts, rule, i, j, k) == m + KRow(pts, rule, i, j, k + 1);
    if k == k' {
      assert m == [f];
    } else {
      KRowComplete(pts, rule, i, j, k + 1, k', f);
    }
  }

  /** A triple (i, j', k') with j <= j' < k' that `rule` accepts gives a
      face of the middle row. */
  lemma {:induction false} JRowComplete(pts: seq<Point>, rule: Rule, i: nat, j: nat, j': nat, k': nat, f: Face)
    requires i < |pts| && j <= j' < k' < |pts|
    requires rule(pts[i], pts[j'], pts[k']) == Some(f)
    ensures f in JRow(pts, rule, i, j)
    decreases |pts| - j
  {
    assert JRow(pts, rule, i, j) == KRow(pts, rule, i, j, j + 1) + JRow(pts, rule, i, j + 1);
    if j == j' {
      KRowComplete(pts, rule, i, j, j + 1, k', f);
    } else {
      JRowComplete(pts, rule, i, j + 1, j', k', f);
    }
  }

  /** A triple (i', j', k') with i <= i' < j' < k' that `rule` accepts
      gives a face of the outer row. */
  lemma {:induction false} IRowComplete(pts: seq<Point>, rule: Rule, i: nat, i': nat, j': nat, k': nat, f: Face)
    requires i <= i' < j' < k' < |pts|
    requires rule(pts[i'], pts[j'], pts[k']) == Some(f)
    ensures f in IRow(pts, rule, i)
    decreases |pts| - i
  {
    assert IRow(pts, rule, i) == JRow(pts, rule, i, i + 1) + IRow(pts, rule, i + 1);
    if i == i' {
      JRowComplete(pts, rule, i, i + 1, j', k', f);
    } else {
      IRowComplete(pts, rule, i + 1, i', j', k', f);
    }
  }

  /** Every face comes from an accepted triple i < j < k. */
  lemma AllFacesFromTriples(pts: seq<Point>)
    ensures forall f :: f in AllFaces(pts) ==> exists i, j, k :: Gives(pts, FaceRule(pts), f, i, j, k)
  {
    IRowFrom(pts, FaceRule(pts), 0);
  }

  /** Every accepted triple i < j < k gives a face. */
  lemma AllFacesComplete(pts: seq<Point>, i: nat, j: nat, k: nat)
    requires i < j < k < |pts| && FaceOf(pts, pts[i], pts[j], pts[k]).Some?
    ensures FaceOf(pts, pts[i], pts[j], pts[k]).value in AllFaces(pts)
  {
    IRowComplete(pts, FaceRule(pts), 0, i, j, k, FaceOf(pts, pts[i], pts[j], pts[k]).value);
  }

  /** Every face supports the whole point set, has a non-zero normal and
      has its vertices among the points. */
  lemma AllFacesSupporting(pts: seq<Point>)
    ensures forall f :: f in AllFaces(pts) ==>
              Supporting(pts, f) && Normal(f) != Zero && f.a in pts && f.b in pts && f.c in pts
  {
    AllFacesFromTriples(pts);
    forall f | f in AllFaces(pts)
      ensures Supporting(pts, f) && Normal(f) != Zero && f.a in pts && f.b in pts && f.c in pts
    {
      var i, j, k :| Gives(pts, FaceRule(pts), f, i, j, k);
      GivenFaceSupporting(pts, f, i, j, k);
    }
  }

  lemma GivenFaceSupporting(pts: seq<Point>, f: Face, i: nat, j: nat, k: nat)
    requires Gives(pts, FaceRule(pts), f, i, j, k)
    ensures Supporting(pts, f) && Normal(f) != Zero && f.a in pts && f.b in pts && f.c in pts
  {
    assert FaceOf(pts, pts[i], pts[j], pts[k]) == Some(f);
    FaceOfSupporting(pts, pts[i], pts[j], pts[k]);
  }

  /** The hull points a list of faces contributes: its vertices face by face. */
  function Flatten(faces: seq<Face>): (r: seq<Point>)
    ensures |r| == 3 * |faces|
    decreases |faces|
  {
    if faces == [] then []
    else
      var f := faces[|faces| - 1];
      Flatten(faces[..|faces| - 1]) + [f.a, f.b, f.c]
  }

  /** The vertices of face k sit at positions 3k, 3k + 1, 3k + 2. */
  lemma {:induction false} FlattenAt(faces: seq<Face>, k: nat)
    requires k < |faces|
    ensures Flatten(faces)[3 * k] == faces[k].a
    ensures Flatten(faces)[3 * k + 1] == faces[k].b
    ensures Flatten(faces)[3 * k + 2] == faces[k].c
    decreases |faces|
  {
    var init := faces[..|faces| - 1];
    if k < |faces| - 1 {
      FlattenAt(init, k);
      assert faces[k] == init[k];
    }
  }

  /** The walk over faces: true for a vertex or a point in a face plane,
      false as soon as the point is on the outer side of a face. */
  function FacesAdmit(faces: seq<Face>, q: Point): bool
    decreases |faces|
  {
    if faces == [] then true
    else
      var f := faces[0];
      if q == f.a || q == f.b || q == f.c then true
      else
        var s := Side(f, q);
        if s > 0 then FacesAdmit(faces[1..], q)
        else if s == 0 then true
        else false
  }

  /** Whether q is inside or on the hull; false without hull points. */
  function Within3D(hp: seq<Point>, faces: seq<Face>, q: Point): (r: bool)
    ensures hp == [] ==> !r
  {
    if hp == [] then false else FacesAdmit(faces, q)
  }

  /** A point on the inner side of or in the plane of every face is
      admitted; a point the walk rejects is on the outer side of a face. */
  lemma {:induction false} FacesAdmitSides(faces: seq<Face>, q: Point)
    ensures (forall f :: f in faces ==> Side(f, q) >= 0) ==> FacesAdmit(faces, q)
    ensures !FacesAdmit(faces, q) ==> exists f :: f in faces && Side(f, q) < 0
    decreases |faces|
  {
    if faces != [] {
      FacesAdmitSides(faces[1..], q);
      assert forall f :: f in faces[1..] ==> f in faces;
    }
  }

  /** Once built, the hull contains every point it was built from. */
  lemma HullContainsItsPoints(pts: seq<Point>, hp: seq<Point>, q: Point)
    requires q in pts
    ensures Within3D(hp, AllFaces(pts), q) == (hp != [])
  {
    AllFacesSupporting(pts);
    FacesAdmitSides(AllFaces(pts), q);
  }
}
