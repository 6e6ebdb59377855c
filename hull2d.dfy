/** The planar hull object: a point container that keeps its leftmost,
    bottom-most point in front, the gift-wrapping construction of the hull
    boundary and the crossing-number containment test. */
module Hull2D {
  import opened Geometry
  import opened GiftWrap
  import opened Crossing

  /** No point occurs twice. */
  ghost predicate Distinct(s: seq<Point>) {
    forall i, j :: 0 <= i < j < |s| ==> s[i] != s[j]
  }

  /** No held point is strictly less than the front one. */
  ghost predicate FrontMinimal(s: seq<Point>) {
    s != [] ==> forall q :: q in s ==> !Lt(q, s[0])
  }

  /** The position of the first occurrence of x. */
  function IndexOf(s: seq<Point>, x: Point): (k: nat)
    requires x in s
    ensures k < |s| && s[k] == x && x !in s[..k]
  {
    if s[0] == x then 0 else 1 + IndexOf(s[1..], x)
  }

  /** `s` without its first occurrence of x, as list removal does it. */
  function RemoveFirst(s: seq<Point>, x: Point): (r: seq<Point>)
    requires x in s
    ensures |r| == |s| - 1
    ensures multiset(r) == multiset(s) - multiset{x}
    ensures exists k :: 0 <= k < |s| && s[k] == x && x !in s[..k] && r == s[..k] + s[k + 1..]
  {
    var k := IndexOf(s, x);
    assert s == s[..k] + [x] + s[k + 1..];
    s[..k] + s[k + 1..]
  }

  /** Removing the first occurrence of x keeps every other point. */
  lemma RemoveFirstKeeps(s: seq<Point>, x: Point, q: Point)
    requires x in s && q in s && q != x
    ensures q in RemoveFirst(s, x)
  {
    var k := IndexOf(s, x);
    var r := RemoveFirst(s, x);
    assert r == s[..k] + s[k + 1..];
    var m :| 0 <= m < |s| && s[m] == q;
    if m < k {
      assert r[m] == q;
    } else {
      assert r[m - 1] == q;
    }
  }

  /** Removing a point from a sequence without repetitions leaves exactly
      the other points, still without repetitions. */
  lemma RemoveFirstDistinct(s: seq<Point>, x: Point)
    requires x in s && Distinct(s)
    ensures var r := RemoveFirst(s, x);
            Distinct(r) && forall q :: q in r <==> q in s && q != x
  {
    var k := IndexOf(s, x);
    var r := RemoveFirst(s, x);
    assert r == s[..k] + s[k + 1..];
    assert forall i :: 0 <= i < |r| ==> r[i] == s[if i < k then i else i + 1];
    forall q | q in s && q != x
      ensures q in r
    {
      RemoveFirstKeeps(s, x, q);
    }
  }

  /** The front of a front-minimal sequence has the least x, and the least
      y among the points with that x. */
  lemma FrontIsLeftmostBottommost(s: seq<Point>)
    requires s != [] && FrontMinimal(s)
    ensures forall q :: q in s ==> s[0].x < q.x || (s[0].x == q.x && s[0].y <= q.y)
  {
  }

  /** Removal can break the front ordering: when the front is removed and
      the new front is not minimal, the result is no longer front-minimal,
      e.g. a = (0, 0, 0), b = (5, 5, 0), c = (1, 1, 0). */
  lemma RemoveCanBreakFront(a: Point, b: Point, c: Point)
    requires !Lt(b, a) && !Lt(c, a) && Lt(c, b)
    ensures FrontMinimal([a, b, c]) && !FrontMinimal(RemoveFirst([a, b, c], a))
  {
    LtIrreflexive(a);
    assert FrontMinimal([a, b, c]);
    RemoveFront([a, b, c]);
    assert [a, b, c][1..] == [b, c];
    NotFrontMinimal([b, c]);
  }

  /** A sequence whose second point is less than its first is not
      front-minimal. */
  lemma NotFrontMinimal(s: seq<Point>)
    requires |s| >= 2 && Lt(s[1], s[0])
    ensures !FrontMinimal(s)
  {
    assert s[1] in s;
  }

  /** Removing the front point drops exactly the front. */
  lemma RemoveFront(s: seq<Point>)
    requires s != []
    ensures RemoveFirst(s, s[0]) == s[1..]
  {
    assert IndexOf(s, s[0]) == 0;
  }

  /** The bad case of RemoveCanBreakFront occurs. */
  lemma RemoveCanBreakFrontExample()
    ensures var s := [Point(0, 0, 0), Point(5, 5, 0), Point(1, 1, 0)];
            FrontMinimal(s) && !FrontMinimal(RemoveFirst(s, s[0]))
  {
    RemoveCanBreakFront(Point(0, 0, 0), Point(5, 5, 0), Point(1, 1, 0));
  }

  class ConvexHull2D {
    /** The held points, front first. */
    var points: seq<Point>
    /** The coordinate tuples of `points`. */
    var pointsSet: set<(int, int, int)>
    /** The hull boundary from the last successful construction. */
    var hullPoints: seq<Point>
    /** Coordinate tuples of hull points; the planar construction never
        fills it, the spatial one does. */
    var hullPointsSet: set<(int, int, int)>

    /** The two stores of held points agree, and no point is held twice. */
    ghost predicate Valid()
      reads this
    {
      pointsSet == Keys(points) && Distinct(points)
    }

    constructor ()
      ensures Valid() && FrontMinimal(points)
      ensures points == [] && pointsSet == {} && hullPoints == [] && hullPointsSet == {}
    {
      points := [];
      pointsSet := {};
      hullPoints := [];
      hullPointsSet := {};
    }

    /** The current points (a value copy). */
    method GetAllPoints() returns (r: seq<Point>)
      ensures r == points
    {
      r := points;
    }

    /** The current hull points (a value copy). */
    method GetHullPoints() returns (r: seq<Point>)
      ensures r == hullPoints
    {
      r := hullPoints;
    }

    /** Ignores a point already held; otherwise puts it in front when it is
        less than the front point and at the back otherwise. */
    method Add(point: Point)
      requires Valid()
      modifies this
      ensures Valid()
      ensures hullPoints == old(hullPoints) && hullPointsSet == old(hullPointsSet)
      ensures point in points
      ensures point in old(points) <==> Key(point) in old(pointsSet)
      ensures point in old(points) ==> points == old(points) && pointsSet == old(pointsSet)
      ensures point !in old(points) ==>
                && pointsSet == old(pointsSet) + {Key(point)}
                && points == if old(points) != [] && Lt(point, old(points)[0]) then [point] + old(points)
                             else old(points) + [point]
      ensures FrontMinimal(old(points)) ==> FrontMinimal(points)
    {
      KeyInKeys(points, point);
      if Key(point) in pointsSet {
        return;
      }
      pointsSet := pointsSet + {Key(point)};
      if points == [] {
        points := points + [point];
      } else if Lt(point, points[0]) {
        points := [point] + points;
        if FrontMinimal(old(points)) {
          forall q | q in points
            ensures !Lt(q, point)
          {
            LtIrreflexive(point);
            LtTransitive(q, point, old(points)[0]);
          }
        }
      } else {
        points := points + [point];
      }
    }

    /** Deletes a held point from both stores, and a point recorded in
        `hullPointsSet` from the hull stores; `raised` reports the failure
        of list removal when a recorded hull point is absent from
        `hullPoints` (the recorded key is already gone by then). */
    method Remove(point: Point) returns (raised: bool)
      requires Valid()
      modifies this
      ensures Valid()
      ensures point in old(points) <==> Key(point) in old(pointsSet)
      ensures point in old(points) ==>
                && points == RemoveFirst(old(points), point)
                && pointsSet == old(pointsSet) - {Key(point)}
                && point !in points
      ensures point !in old(points) ==> points == old(points) && pointsSet == old(pointsSet)
      ensures Key(point) in old(hullPointsSet) ==>
                && hullPointsSet == old(hullPointsSet) - {Key(point)}
                && raised == (point !in old(hullPoints))
                && hullPoints == if raised then old(hullPoints) else RemoveFirst(old(hullPoints), point)
      ensures Key(point) !in old(hullPointsSet) ==>
                !raised && hullPoints == old(hullPoints) && hullPointsSet == old(hullPointsSet)
    {
      KeyInKeys(points, point);
      raised := false;
      if Key(point) in pointsSet {
        RemoveFirstDistinct(points, point);
        pointsSet := pointsSet - {Key(point)};
        points := RemoveFirst(points, point);
        forall k | k in pointsSet
          ensures k in Keys(points)
        {
          var q :| q in old(points) && Key(q) == k;
          KeyInjective(q, point);
        }
      }
      if Key(point) in hullPointsSet {
        hullPointsSet := hullPointsSet - {Key(point)};
        if point !in hullPoints {
          raised := true;
          return;
        }
        hullPoints := RemoveFirst(hullPoints, point);
      }
    }

    /** The crossing-number test of `point` against the stored boundary. */
    method Within(point: Point) returns (r: bool)
      ensures r == Within2D(hullPoints, point)
    {
      if hullPoints == [] {
        return false;
      }
      var c := false;
      var n := |hullPoints|;
      for i := 0 to n
        invariant Crossings(hullPoints, point, i, c) == Crossings(hullPoints, point, 0, false)
      {
        var p0 := hullPoints[if i == 0 then n - 1 else i - 1];
        var p1 := hullPoints[i];
        if point == p1 {
          return true;
        }
        if (p1.y > point.y) != (p0.y > point.y) {
          var crossProduct := CrossZ(Sub(point, p0), Sub(p1, p0));
          if crossProduct == 0 {
            return true;
          }
          if (crossProduct > 0) != (p0.y > p1.y) {
            c := !c;
          }
        }
      }
      return c;
    }

    /** Gift wrapping: with fewer than three points or all points on one
        line nothing changes; otherwise the march collects the extreme
        vertices, two candidate passes per step, and the post-pass splices
        in the points on each extreme edge. */
    method Hull() returns (outcome: HullOutcome)
      requires Valid()
      modifies this`hullPoints
      ensures outcome == InsufficientPoints <==> |points| < 3
      ensures outcome == DegenerateNoArea <==> |points| >= 3 && AllInOneLine(points)
      ensures outcome == NotClosed <==> |points| >= 3 && !AllInOneLine(points) && Extremes(points).None?
      ensures outcome == Built <==> |points| >= 3 && !AllInOneLine(points) && Extremes(points).Some?
      ensures outcome != Built ==> hullPoints == old(hullPoints)
      ensures outcome == Built ==>
                var ext := Extremes(points).value;
                && hullPoints == Splice(points, ext, 0, Keys2(ext))
                && hullPoints[0] == points[0]
                && (forall p :: p in hullPoints ==> p in points)
    {
      if |points| < 3 {
        return InsufficientPoints;
      }
      var allInOneLine := LineCheck(points);
      if allInOneLine {
        return DegenerateNoArea;
      }
      var closed, hullPts, hullSet := March(points);
      if !closed {
        return NotClosed;
      }
      hullPoints := SpliceEdges(points, hullPts, hullSet);
      ExtremesFacts(points);
      SpliceFresh(points, hullPts, 0, Keys2(hullPts));
      return Built;
    }
  }

  /** The degenerate-line check of the planar construction: every point
      after the second is tested against the first edge, stopping at the
      first that leaves the line. */
  method LineCheck(points: seq<Point>) returns (allInOneLine: bool)
    requires |points| >= 2
    ensures allInOneLine == AllInOneLine(points)
  {
    var p0 := points[0];
    var p1 := points[1];
    var v1 := Sub(p1, p0);
    allInOneLine := true;
    for i := 2 to |points|
      invariant allInOneLine
      invariant forall k :: 2 <= k < i ==> Cross(v1, Sub(points[k], p0)) == Zero
    {
      var v2 := Sub(points[i], p0);
      var crossProduct := Cross(v1, v2);
      if crossProduct != Zero {
        allInOneLine := false;
        assert !AllInOneLine(points);
        break;
      }
    }
  }

  /** One pass of the candidate scan: a point replaces the candidate when it
      is strictly further counter-clockwise seen from `cur`. */
  method CandidatePass(points: seq<Point>, cur: Point, next: Point) returns (r: Point)
    ensures r == Scan(points, cur, next)
  {
    r := next;
    for m := 0 to |points|
      invariant Scan(points[m..], cur, r) == Scan(points, cur, next)
    {
      var point := points[m];
      if point == r || point == cur {
        continue;
      }
      var crossProduct := CrossZ(Sub(point, cur), Sub(r, cur));
      if crossProduct < 0 {
        r := point;
      }
    }
    assert points[|points|..] == [];
  }

  /** The wrapping loop: from the first point, with the second as the
      candidate, append the current point, pick the next one with two
      candidate passes, and swap; until the first point comes round again,
      or the step bound is spent. */
  method March(points: seq<Point>) returns (closed: bool, hullPts: seq<Point>, hullSet: set<(int, int)>)
    requires |points| >= 2 && points[0] != points[1]
    ensures closed <==> Extremes(points).Some?
    ensures closed ==> Extremes(points) == Some(hullPts) && hullSet == Keys2(hullPts)
  {
    hullPts := [];
    hullSet := {};
    var firstRunFlag := true;
    var firstHullPoint := points[0];
    var curHullPoint := firstHullPoint;
    var nextHullPoint := points[1];
    var bound := MarchBound(|points|);
    var steps := 0;
    match Extremes(points) {
      case None =>
      case Some(t) => assert [] + t == t;
    }
    while (curHullPoint != firstHullPoint || firstRunFlag) && steps < bound
      invariant 0 <= steps <= bound
      invariant curHullPoint in points && nextHullPoint in points && curHullPoint != nextHullPoint
      invariant hullSet == Keys2(hullPts)
      invariant Prepend(hullPts, Walk(points, firstHullPoint, curHullPoint, nextHullPoint, bound - steps, firstRunFlag))
                == Extremes(points)
      decreases bound - steps
    {
      ghost var before := hullPts;
      firstRunFlag := false;
      hullPts := hullPts + [curHullPoint];
      hullSet := hullSet + {Key2(curHullPoint)};
      ghost var start := nextHullPoint;
      for pass := 0 to 2
        invariant nextHullPoint in points && nextHullPoint != curHullPoint
        invariant nextHullPoint == if pass == 0 then start
                                   else if pass == 1 then Scan(points, curHullPoint, start)
                                   else TwoPass(points, curHullPoint, start)
      {
        nextHullPoint := CandidatePass(points, curHullPoint, nextHullPoint);
      }
      PrependAppend(before, curHullPoint,
        Walk(points, firstHullPoint, nextHullPoint, curHullPoint, bound - steps - 1, false));
      curHullPoint, nextHullPoint := nextHullPoint, curHullPoint;
      steps := steps + 1;
    }
    closed := !(curHullPoint != firstHullPoint || firstRunFlag);
    assert hullPts + [] == hullPts;
  }

  /** The post-pass: each extreme vertex, followed by the points not yet on
      the hull (by planar key) whose cross product with the edge leaving
      that vertex is zero. */
  method SpliceEdges(points: seq<Point>, hullPts: seq<Point>, hullSet0: set<(int, int)>) returns (newHullPoints: seq<Point>)
    requires hullSet0 == Keys2(hullPts)
    ensures newHullPoints == Splice(points, hullPts, 0, Keys2(hullPts))
  {
    var hullSet := hullSet0;
    newHullPoints := [];
    var n := |hullPts|;
    for i := 0 to n
      invariant newHullPoints + Splice(points, hullPts, i, hullSet) == Splice(points, hullPts, 0, Keys2(hullPts))
    {
      var j := (i + 1) % n;
      var q0 := hullPts[i];
      var q1 := hullPts[j];
      ghost var before := newHullPoints;
      ghost var keysStart := hullSet;
      newHullPoints := newHullPoints + [q0];
      var added;
      added, hullSet := EdgePass(points, q0, q1, hullSet);
      newHullPoints := newHullPoints + added;
      assert Splice(points, hullPts, i, keysStart) == [q0] + added + Splice(points, hullPts, i + 1, hullSet);
      assert before + ([q0] + added + Splice(points, hullPts, i + 1, hullSet))
             == newHullPoints + Splice(points, hullPts, i + 1, hullSet);
    }
  }

  /** One edge of the post-pass. */
  method EdgePass(points: seq<Point>, q0: Point, q1: Point, keys: set<(int, int)>)
    returns (added: seq<Point>, hullSet: set<(int, int)>)
    ensures added == EdgeScan(points, q0, q1, keys).0
    ensures hullSet == EdgeScan(points, q0, q1, keys).1
  {
    added := [];
    hullSet := keys;
    for m := 0 to |points|
      invariant added + EdgeScan(points[m..], q0, q1, hullSet).0 == EdgeScan(points, q0, q1, keys).0
      invariant EdgeScan(points[m..], q0, q1, hullSet).1 == EdgeScan(points, q0, q1, keys).1
    {
      var p := points[m];
      EdgeScanUnfold(points[m..], q0, q1, hullSet);
      assert points[m..][1..] == points[m + 1..];
      if Key2(p) in hullSet {
        continue;
      }
      var vhull := Sub(q1, q0);
      var vp := Sub(p, q0);
      var crossProduct := CrossZ(vhull, vp);
      if crossProduct == 0 {
        ghost var rest := EdgeScan(points[m + 1..], q0, q1, hullSet + {Key2(p)}).0;
        assert (added + [p]) + rest == added + ([p] + rest);
        added := added + [p];
        hullSet := hullSet + {Key2(p)};
      }
    }
    assert points[|points|..] == [];
  }

  /** One step of the post-pass scan of an edge. */
  lemma EdgeScanUnfold(pts: seq<Point>, p0: Point, p1: Point, keys: set<(int, int)>)
    requires pts != []
    ensures var p := pts[0];
            EdgeScan(pts, p0, p1, keys) ==
              if Key2(p) in keys then EdgeScan(pts[1..], p0, p1, keys)
              else if CrossZ(Sub(p1, p0), Sub(p, p0)) == 0 then
                ([p] + EdgeScan(pts[1..], p0, p1, keys + {Key2(p)}).0, EdgeScan(pts[1..], p0, p1, keys + {Key2(p)}).1)
              else EdgeScan(pts[1..], p0, p1, keys)
  {
  }

  lemma PrependAppend(s: seq<Point>, x: Point, o: Option<seq<Point>>)
    ensures Prepend(s, Prepend([x], o)) == Prepend(s + [x], o)
  {
    match o
    case None =>
    case Some(t) =>
      assert s + ([x] + t) == (s + [x]) + t;
  }
}
