/** The planar gift-wrapping construction as functions: the degenerate-line
    test, the two-pass candidate scan, the march around the extreme vertices
    and the post-pass that splices in the points lying on an extreme edge.
    The imperative `ConvexHull2D.Hull` is proved to compute exactly these. */
module GiftWrap {
  import opened Geometry

  /** Every point after the second has a zero cross product with the first
      edge, measured from the first point: all points lie on one line. */
  ghost predicate AllInOneLine(pts: seq<Point>)
    requires |pts| >= 2
  {
    forall i :: 2 <= i < |pts| ==> Cross(Sub(pts[1], pts[0]), Sub(pts[i], pts[0])) == Zero
  }

  /** One candidate of the inner scan: `point` replaces `next` when it is
      strictly further counter-clockwise seen from `cur`. */
  function Consider(point: Point, cur: Point, next: Point): Point {
    if point == next || point == cur then next
    else if CrossZ(Sub(point, cur), Sub(next, cur)) < 0 then point
    else next
  }

  /** One pass of the candidate scan over `pts`, in order. */
  function Scan(pts: seq<Point>, cur: Point, next: Point): (r: Point)
    ensures r == next || r in pts
    ensures next != cur ==> r != cur
    decreases |pts|
  {
    if pts == [] then next else Scan(pts[1..], cur, Consider(pts[0], cur, next))
  }

  /** The two passes the construction makes per step. */
  function TwoPass(pts: seq<Point>, cur: Point, next: Point): Point {
    Scan(pts, cur, Scan(pts, cur, next))
  }

  function Prepend(s: seq<Point>, o: Option<seq<Point>>): Option<seq<Point>> {
    match o
    case None => None
    case Some(t) => Some(s + t)
  }

  /** The walk from state (cur, next): the extreme vertices it appends, or
      None when `fuel` steps do not bring it back to `first`. After a step
      the roles are swapped: the old current point becomes the candidate. */
  function Walk(pts: seq<Point>, first: Point, cur: Point, next: Point, fuel: nat, firstRun: bool): Option<seq<Point>>
    decreases fuel
  {
    if !(cur != first || firstRun) then Some([])
    else if fuel == 0 then None
    else Prepend([cur], Walk(pts, first, TwoPass(pts, cur, next), cur, fuel - 1, false))
  }

  /** The state (cur, next) ranges over at most |pts|^2 values and each step
      is determined by it, so a walk that has not closed after this many
      steps never closes. */
  function MarchBound(n: nat): nat {
    n * n
  }

  /** The extreme vertices, starting from the first point with the second
      point as the initial candidate. */
  function Extremes(pts: seq<Point>): Option<seq<Point>>
    requires |pts| >= 2
  {
    Walk(pts, pts[0], pts[0], pts[1], MarchBound(|pts|), true)
  }

  /** One edge of the post-pass: the points, in order, whose planar key is
      not yet taken and whose planar cross product with the edge p0 -> p1
      is zero; and the key set afterwards. */
  function EdgeScan(pts: seq<Point>, p0: Point, p1: Point, keys: set<(int, int)>): (seq<Point>, set<(int, int)>)
    decreases |pts|
  {
    if pts == [] then ([], keys)
    else
      var p := pts[0];
      if Key2(p) in keys then EdgeScan(pts[1..], p0, p1, keys)
      else if CrossZ(Sub(p1, p0), Sub(p, p0)) == 0 then
        var (rest, keys') := EdgeScan(pts[1..], p0, p1, keys + {Key2(p)});
        ([p] + rest, keys')
      else EdgeScan(pts[1..], p0, p1, keys)
  }

  /** The post-pass from extreme vertex i on: each extreme vertex, followed
      by the points spliced onto the edge that leaves it. */
  function Splice(pts: seq<Point>, ext: seq<Point>, i: nat, keys: set<(int, int)>): seq<Point>
    decreases |ext| - i
  {
    if i >= |ext| then []
    else
      var (added, keys') := EdgeScan(pts, ext[i], ext[(i + 1) % |ext|], keys);
      [ext[i]] + added + Splice(pts, ext, i + 1, keys')
  }

  /** `idx` lists increasing positions of `b` at which the elements of `a`
      occur, in order. */
  ghost predicate Embedding(idx: seq<nat>, a: seq<Point>, b: seq<Point>) {
    && |idx| == |a|
    && (forall k :: 0 <= k < |idx| ==> idx[k] < |b| && b[idx[k]] == a[k])
    && (forall k :: 0 <= k < |idx| - 1 ==> idx[k] < idx[k + 1])
  }

  /** A pass leaves the candidate alone when no point is strictly further
      counter-clockwise than it; this is where a pass can stall. */
  lemma {:induction false} ScanStable(pts: seq<Point>, cur: Point, next: Point)
    requires forall p :: p in pts ==> p == cur || p == next || CrossZ(Sub(p, cur), Sub(next, cur)) >= 0
    ensures Scan(pts, cur, next) == next
    decreases |pts|
  {
    if pts != [] {
      assert Consider(pts[0], cur, next) == next;
      ScanStable(pts[1..], cur, next);
    }
  }

  /** What a walk produces: points of `pts`; no two consecutive ones equal;
      `first` only at the start; and the start is the current point. */
  lemma {:induction false} WalkFacts(pts: seq<Point>, first: Point, cur: Point, next: Point, fuel: nat, firstRun: bool)
    requires cur in pts && next in pts && cur != next
    ensures match Walk(pts, first, cur, next, fuel, firstRun)
            case None => true
            case Some(ext) =>
              && (forall v :: v in ext ==> v in pts)
              && (forall k :: 0 <= k < |ext| - 1 ==> ext[k] != ext[k + 1])
              && (forall k :: 1 <= k < |ext| ==> ext[k] != first)
              && ((cur != first || firstRun) ==> |ext| >= 1 && ext[0] == cur)
    decreases fuel
  {
    if (cur != first || firstRun) && fuel > 0 {
      var nxt := TwoPass(pts, cur, next);
      WalkFacts(pts, first, nxt, cur, fuel - 1, false);
      match Walk(pts, first, nxt, cur, fuel - 1, false)
      case None =>
      case Some(t) =>
        var ext := [cur] + t;
        assert forall k :: 1 <= k < |ext| ==> ext[k] == t[k - 1];
        assert t != [] ==> t[0] == nxt && nxt != first;
    }
  }

  /** The march of a point set starts at its first point, visits only its
      points, never repeats the first one and never stays in place. */
  lemma ExtremesFacts(pts: seq<Point>)
    requires |pts| >= 2 && pts[0] != pts[1]
    ensures Extremes(pts).Some? ==>
              var ext := Extremes(pts).value;
              && |ext| >= 1 && ext[0] == pts[0]
              && (forall v :: v in ext ==> v in pts)
              && (forall k :: 0 <= k < |ext| - 1 ==> ext[k] != ext[k + 1])
              && (forall k :: 1 <= k < |ext| ==> ext[k] != pts[0])
  {
    WalkFacts(pts, pts[0], pts[0], pts[1], MarchBound(|pts|), true);
  }

  /** The points spliced onto one edge: taken from `pts` in order, each with
      a fresh planar key and a zero cross product with the edge, no two with
      the same key; every point of `pts` with a fresh key on the edge's line
      gets its key taken; and the keys taken are exactly theirs. */
  lemma {:induction false} EdgeScanFacts(pts: seq<Point>, p0: Point, p1: Point, keys: set<(int, int)>)
    ensures var (added, keys') := EdgeScan(pts, p0, p1, keys);
            && (forall p :: p in added ==> p in pts && Key2(p) !in keys && CrossZ(Sub(p1, p0), Sub(p, p0)) == 0)
            && (forall m1, m2 :: 0 <= m1 < m2 < |added| ==> Key2(added[m1]) != Key2(added[m2]))
            && (forall p :: p in pts && Key2(p) !in keys && CrossZ(Sub(p1, p0), Sub(p, p0)) == 0 ==> Key2(p) in Keys2(added))
            && keys' == keys + Keys2(added)
    decreases |pts|
  {
    if pts != [] {
      var p := pts[0];
      if Key2(p) in keys {
        EdgeScanFacts(pts[1..], p0, p1, keys);
      } else if CrossZ(Sub(p1, p0), Sub(p, p0)) == 0 {
        EdgeScanFacts(pts[1..], p0, p1, keys + {Key2(p)});
        var (rest, keys') := EdgeScan(pts[1..], p0, p1, keys + {Key2(p)});
        var added := [p] + rest;
        assert forall m :: 1 <= m < |added| ==> added[m] == rest[m - 1];
        assert Keys2(added) == {Key2(p)} + Keys2(rest);
      } else {
        EdgeScanFacts(pts[1..], p0, p1, keys);
      }
    }
  }

  /** The post-pass keeps every extreme vertex, in order, the first one at
      the front. */
  lemma {:induction false} SpliceKeepsExtremes(pts: seq<Point>, ext: seq<Point>, i: nat, keys: set<(int, int)>)
    requires i <= |ext|
    ensures exists idx :: Embedding(idx, ext[i..], Splice(pts, ext, i, keys)) && (i < |ext| ==> idx[0] == 0)
    decreases |ext| - i
  {
    if i == |ext| {
      assert Embedding([], ext[i..], Splice(pts, ext, i, keys));
    } else {
      var (added, keys') := EdgeScan(pts, ext[i], ext[(i + 1) % |ext|], keys);
      var rest := Splice(pts, ext, i + 1, keys');
      var r := Splice(pts, ext, i, keys);
      assert r == [ext[i]] + added + rest;
      SpliceKeepsExtremes(pts, ext, i + 1, keys');
      var idxR :| Embedding(idxR, ext[i + 1..], rest);
      EmbeddingPrepend(ext[i], added, ext[i + 1..], rest, idxR);
      assert ext[i..] == [ext[i]] + ext[i + 1..];
    }
  }

  /** An embedding of `a` into `rest` extends to one of `[x] + a` into
      `[x] + added + rest` that starts at position 0. */
  lemma EmbeddingPrepend(x: Point, added: seq<Point>, a: seq<Point>, rest: seq<Point>, idxR: seq<nat>)
    requires Embedding(idxR, a, rest)
    ensures exists idx :: Embedding(idx, [x] + a, [x] + added + rest) && idx[0] == 0
  {
    var r := [x] + added + rest;
    var shift := 1 + |added|;
    var idx: seq<nat> := [0] + seq(|idxR|, k requires 0 <= k < |idxR| => idxR[k] + shift);
    forall k | 0 <= k < |idx|
      ensures idx[k] < |r| && r[idx[k]] == ([x] + a)[k]
    {
      if k > 0 {
        assert r[idx[k]] == rest[idxR[k - 1]];
      }
    }
    assert Embedding(idx, [x] + a, r);
  }

  /** Every point of the post-pass result is an extreme vertex or a point of
      `pts` whose planar key was not yet taken, and two entries share a
      planar key only if it is the key of an extreme vertex: no spliced
      point appears twice or duplicates an extreme vertex. */
  lemma {:induction false} SpliceFresh(pts: seq<Point>, ext: seq<Point>, i: nat, keys: set<(int, int)>)
    requires i <= |ext|
    requires Keys2(ext) <= keys
    ensures var r := Splice(pts, ext, i, keys);
            && (forall p :: p in r ==> p in ext[i..] || (p in pts && Key2(p) !in keys))
            && (forall m1, m2 :: 0 <= m1 < m2 < |r| && Key2(r[m1]) == Key2(r[m2]) ==> Key2(r[m1]) in Keys2(ext))
    decreases |ext| - i
  {
    if i < |ext| {
      var (added, keys') := EdgeScan(pts, ext[i], ext[(i + 1) % |ext|], keys);
      EdgeScanFacts(pts, ext[i], ext[(i + 1) % |ext|], keys);
      SpliceFresh(pts, ext, i + 1, keys');
      var rest := Splice(pts, ext, i + 1, keys');
      var r := Splice(pts, ext, i, keys);
      assert r == [ext[i]] + added + rest;
      assert Key2(ext[i]) in Keys2(ext);
      forall m1, m2 | 0 <= m1 < m2 < |r| && Key2(r[m1]) == Key2(r[m2])
        ensures Key2(r[m1]) in Keys2(ext)
      {
        var la := 1 + |added|;
        if m1 == 0 {
        } else if m2 < la {
          // both spliced onto edge i: their keys differ
        } else if m1 < la {
          // spliced onto edge i and later: the later keys avoid keys'
        } else {
          assert r[m1] == rest[m1 - la] && r[m2] == rest[m2 - la];
        }
      }
      forall p | p in r
        ensures p in ext[i..] || (p in pts && Key2(p) !in keys)
      {
        if p in rest && p in ext[i + 1..] {
          assert p in ext[i..];
        }
      }
    }
  }

  /** An edge adds nothing when every planar key is already taken. */
  lemma {:induction false} EdgeScanAllTaken(pts: seq<Point>, p0: Point, p1: Point, keys: set<(int, int)>)
    requires Keys2(pts) <= keys
    ensures EdgeScan(pts, p0, p1, keys) == ([], keys)
    decreases |pts|
  {
    if pts != [] {
      assert Key2(pts[0]) in Keys2(pts);
      assert Keys2(pts[1..]) <= Keys2(pts) by {
        forall p | p in pts[1..] ensures p in pts {
        }
      }
      EdgeScanAllTaken(pts[1..], p0, p1, keys);
    }
  }

  /** When every point is already an extreme vertex the post-pass returns
      the extreme vertices as they are. */
  lemma {:induction false} SpliceNothingNew(pts: seq<Point>, ext: seq<Point>, i: nat, keys: set<(int, int)>)
    requires i <= |ext| && Keys2(pts) <= keys
    ensures Splice(pts, ext, i, keys) == ext[i..]
    decreases |ext| - i
  {
    if i < |ext| {
      EdgeScanAllTaken(pts, ext[i], ext[(i + 1) % |ext|], keys);
      SpliceNothingNew(pts, ext, i + 1, keys);
      assert ext[i..] == [ext[i]] + ext[i + 1..];
    }
  }
}
