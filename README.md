# Convex hull geometry, modelled in Dafny

This project models the core of a small convex-hull library that works on points with
integer coordinates. The core has four parts:

- **The point type.** It supports componentwise equality, subtraction into a difference
  vector and an unusual ordering.
- **A point container.** It holds a deque of points together with a set of their
  coordinate triples. It keeps a "leftmost, bottom-most" point at the front.
- **The planar algorithms.**
  - A gift-wrapping (Jarvis march) construction. Each step makes two candidate passes.
    A post-pass then splices in the points that lie on an extreme edge.
  - A crossing-number containment test.
- **The spatial algorithms.**
  - A brute-force coplanarity guard.
  - A brute-force enumeration of faces over all index triples `i < j < k`, with an
    orientation rule that makes each normal point into the hull.
  - A half-space containment test.

All arithmetic is on unbounded integers. Every cross and dot product is written out as
an integer formula (`Geometry.Cross`, `Geometry.CrossZ`, `Geometry.Dot`).

Files and modules:

- `geometry.dfy` (`Geometry`): points, difference vectors, the ordering `Lt`, the
  coordinate keys of the membership sets, cross and dot products, and the signed volume
  `Orient`.
- `crossing.dfy` (`Crossing`): the planar containment test as a function, with its
  lemmas.
- `giftwrap.dfy` (`GiftWrap`): the planar construction as functions: the line guard, the
  candidate pass, the march and the post-pass, with their lemmas.
- `hull2d.dfy` (`Hull2D`): the class `ConvexHull2D`, with fields `points`, `pointsSet`,
  `hullPoints` and `hullPointsSet`. Its methods `Add`, `Remove`, `GetAllPoints`,
  `GetHullPoints`, `Within` and `Hull` are each proved against the functions above. The
  loops of `Hull` are the module-level methods `LineCheck`, `CandidatePass`, `March`,
  `SpliceEdges` and `EdgePass`.
- `facets.dfy` (`Facets`): the spatial construction as functions: the plane equation,
  coplanarity, the side tally of a triple, the face rule, the enumeration of faces in
  loop order and the half-space test, with their lemmas.
- `hull3d.dfy` (`Hull3D`): the class `ConvexHull3D`. It shares the point and hull stores
  of a `ConvexHull2D` and adds `faces`. Its methods `Within`, `AllInOnePlane` and `Hull`
  are proved against `Facets`.

Behaviour of the code worth knowing:

- **Degenerate input keeps the old hull.** With too few points, colinear points or
  coplanar points, the construction leaves the stored hull as it was. It does not empty
  it. `HullOutcome` reports which case happened.
- **The front invariant is not maintained by removal.** It holds under `Add`
  (`ConvexHull2D.Add` preserves `FrontMinimal`). `Remove` can break it; see
  `RemoveCanBreakFront`. The ordering compares `z` only when both `z` values are
  non-zero, so it is not total (`LtNotTotal`).
- **Planar `remove` never touches the hull.** The planar construction records its hull
  keys in a local set, keyed by `(x, y)` only. It never fills `hullPointsSet`, so planar
  `Remove` never changes `hullPoints`.
- **The spatial construction extends the hull stores.** It resets `faces`. It extends
  `hullPoints` by three vertices per face (repeats included) and extends `hullPointsSet`.
- **Inheritance becomes composition.** The spatial class inherits from the planar one in
  the source. Here `ConvexHull3D` holds a `ConvexHull2D` as `base`, and its `Add` and
  `Remove` delegate to it.
- **`remove` can raise.** When a key is in `hullPointsSet` but no equal point is in
  `hullPoints`, list removal raises. `ConvexHull2D.Remove` reports this as `raised`. The
  key has already been dropped at that point. `ConvexHull3D.Remove` proves this cannot
  happen for the spatial object.
- **`faces` before the first spatial hull.** `faces` does not exist before the first
  spatial construction. It is modelled as the empty sequence. The half-space test reads it
  only when `hullPoints` is non-empty.

## Model

| member | source | states |
|---|---|---|
| Geometry.Sub | ConvexHull.py:12-13 | defines point subtraction as the componentwise difference vector (its properties are in `SubInverse`) |
| Geometry.SubInverse | ConvexHull.py:12-13 | point subtraction is undone by translation, and the difference is the zero vector exactly when the points are equal |
| Geometry.KeyInKeys | ConvexHull.py:89-92 | a point's coordinate triple is in the key set of a sequence exactly when an equal point is in the sequence, so the tuple set and point equality agree |
| Geometry.Lt | ConvexHull.py:18-27 | defines the point ordering with the source's nested tests, including the truthiness test on both z values (characterised by `LtOrder`) |
| Geometry.LtOrder | ConvexHull.py:18-27 | the ordering is lexicographic on x, then y; on equal x and y it holds only when both z values are non-zero and the first is smaller |
| Geometry.LtIrreflexive | ConvexHull.py:18-27 | no point is less than itself |
| Geometry.LtAsymmetric | ConvexHull.py:18-27 | two points are never less than each other |
| Geometry.LtTransitive | ConvexHull.py:18-27 | the ordering is transitive |
| Geometry.LtNotTotal | ConvexHull.py:24 | two distinct points that differ only in z, one of them with z = 0, are incomparable |
| Geometry.CrossZComponent | ConvexHull.py:172-173 | the scalar planar cross product used by the planar code is the z component of the full cross product |
| Geometry.CrossOrthogonal | ConvexHull.py:335 | the cross product of two edge vectors is orthogonal to both, so every vertex of a face is in its plane |
| Geometry.OrientSwapLast | ConvexHull.py:423-426 | exchanging the second and third vertex of a triangle negates the signed volume of every point |
| Geometry.OrientSwapFirst | ConvexHull.py:406-407 | exchanging the first and second vertex negates the signed volume of every point |
| Geometry.OrientDegenerate | ConvexHull.py:407-413 | the signed volume is zero when two vertices coincide, and for any point that is a vertex |
| Crossing.Crossings | ConvexHull.py:164-177 | defines the edge walk from edge i with parity c: true at a vertex or on a straddling edge, otherwise the parity flipped by each crossing edge |
| Crossing.Within2D | ConvexHull.py:155-156 | the planar containment test answers false when there is no hull boundary |
| Crossing.CrossingsReachVertex | ConvexHull.py:164-177 | once the walk is at or before the edge ending at a vertex equal to the query, it answers true whatever the parity: every early exit returns true |
| Crossing.WithinVertex | ConvexHull.py:164-169 | a query equal to some hull point is within |
| Crossing.NoStraddleKeepsParity | ConvexHull.py:170-176 | edges whose endpoints are both above the query's y, or both at or below it, never flip the parity flag |
| Crossing.OutsideBand | ConvexHull.py:155-177 | a non-vertex query strictly below every hull point, or at or above every hull point, is not within |
| GiftWrap.AllInOneLine | ConvexHull.py:199-208 | defines the line guard: every point after the second has a zero cross product with the first edge, measured from the first point |
| GiftWrap.Consider | ConvexHull.py:241-246 | defines one candidate step: a point other than the current and candidate points replaces the candidate when its cross product is strictly negative |
| GiftWrap.Scan | ConvexHull.py:240-246 | a candidate pass returns the old candidate or one of the points, and never the current hull point when the old candidate was not it |
| GiftWrap.TwoPass | ConvexHull.py:239-246 | defines one march step as two candidate passes over the points |
| GiftWrap.Walk | ConvexHull.py:233-248 | defines the march from a state (current, candidate): the extreme vertices it appends until it returns to the first point, or none when the step bound runs out |
| GiftWrap.Extremes | ConvexHull.py:230-248 | defines the extreme vertices: the march from the first point with the second as the initial candidate, bounded by `|points|^2` steps |
| GiftWrap.EdgeScan | ConvexHull.py:265-273 | defines the scan of one edge: the points, in order, with a fresh planar key and a zero cross product with the edge, and the key set afterwards |
| GiftWrap.Splice | ConvexHull.py:258-274 | defines the post-pass: each extreme vertex followed by the points spliced onto the edge that leaves it |
| GiftWrap.ScanStable | ConvexHull.py:240-246 | a pass leaves the candidate unchanged when no point is strictly further counter-clockwise |
| GiftWrap.WalkFacts | ConvexHull.py:233-248 | the march visits only held points, never stays in place, appends the first point only at the start, and starts with the current point |
| GiftWrap.ExtremesFacts | ConvexHull.py:230-248 | the extreme vertices start with the front point, are held points, have no two consecutive equal, and contain the front point only once |
| GiftWrap.EdgeScanFacts | ConvexHull.py:265-273 | the points spliced onto an edge come from the held points in order, each has a fresh planar key and a zero cross product with the edge, no two share a key, every fresh point on the edge's line is taken, and the key set grows by exactly their keys |
| GiftWrap.SpliceKeepsExtremes | ConvexHull.py:258-264 | the post-pass result contains every extreme vertex in loop order, the first at position 0 |
| GiftWrap.SpliceFresh | ConvexHull.py:258-274 | every post-pass entry is an extreme vertex or a held point with a fresh key, and two entries share a planar key only when it is an extreme vertex's key |
| GiftWrap.EdgeScanAllTaken | ConvexHull.py:265-267 | an edge adds nothing when every held point's planar key is already taken |
| GiftWrap.SpliceNothingNew | ConvexHull.py:258-274 | when every held point's planar key is taken, the post-pass returns the extreme vertices unchanged |
| Hull2D.RemoveFirst | ConvexHull.py:112 | list removal deletes the first equal element and keeps the others in their order |
| Hull2D.RemoveFirstKeeps | ConvexHull.py:112 | removing the first occurrence of a point keeps every other point |
| Hull2D.RemoveFirstDistinct | ConvexHull.py:110-112 | removing from a repetition-free sequence leaves exactly the other points, still without repetitions |
| Hull2D.FrontIsLeftmostBottommost | ConvexHull.py:95 | when no held point is less than the front one, the front has the least x, and the least y among the points with that x |
| Hull2D.RemoveCanBreakFront | ConvexHull.py:110-112 | when the new front point is not minimal, removing a minimal front point leaves a sequence that is no longer front-minimal |
| Hull2D.RemoveCanBreakFrontExample | ConvexHull.py:110-112 | the points (0,0,0), (5,5,0), (1,1,0) are front-minimal, and removing (0,0,0) breaks it |
| Hull2D.ConvexHull2D.constructor | ConvexHull.py:36-40 | all four stores start empty |
| Hull2D.ConvexHull2D.GetAllPoints | ConvexHull.py:49-59 | returns the current points |
| Hull2D.ConvexHull2D.GetHullPoints | ConvexHull.py:61-71 | returns the current hull points |
| Hull2D.ConvexHull2D.Add | ConvexHull.py:73-98 | a held point changes nothing; otherwise the key is added and the point is prepended when less than the front point, else appended; the stores keep agreeing with no repetitions, and the front invariant is preserved |
| Hull2D.ConvexHull2D.Remove | ConvexHull.py:100-115 | an absent point changes nothing; a held point loses exactly its first occurrence and its key; hull stores change only for a recorded hull key, and the raising case is reported |
| Hull2D.ConvexHull2D.Within | ConvexHull.py:144-177 | the loop computes the crossing-number walk `Within2D` over the stored boundary |
| Hull2D.ConvexHull2D.Hull | ConvexHull.py:179-274 | each outcome corresponds to exactly one guard; a degenerate outcome leaves the hull unchanged; otherwise the hull is the post-pass over the extreme vertices, starts with the front point, and holds only held points |
| Hull2D.LineCheck | ConvexHull.py:199-213 | answers exactly whether every point after the second has a zero cross product with the first edge |
| Hull2D.CandidatePass | ConvexHull.py:240-246 | one pass over the points computes `Scan` |
| Hull2D.March | ConvexHull.py:230-248 | the wrapping loop keeps the current and candidate points held and distinct, and closes exactly when the march function does, with its extreme vertices and their planar keys |
| Hull2D.SpliceEdges | ConvexHull.py:258-274 | the post-pass loop computes `Splice` over the extreme vertices |
| Hull2D.EdgePass | ConvexHull.py:265-273 | the scan of one edge computes `EdgeScan`, both the spliced points and the key set |
| Facets.Plane | ConvexHull.py:351-363 | defines the plane coefficients (a, b, c, d) through three points, term by term as the source writes them |
| Facets.PlaneValue | ConvexHull.py:351-363 | the plane equation `a*x + b*y + c*z + d` through three points equals the signed volume `(p - p1) . ((p2 - p1) x (p3 - p1))` |
| Facets.Coplanar | ConvexHull.py:345-367 | defines coplanarity: for every sorted triple of positions, every point has a zero signed volume |
| Facets.CoplanarEveryTriple | ConvexHull.py:348-366 | points that vanish on every sorted triple vanish on every triple of positions, in any order and with repeats |
| Facets.Classify | ConvexHull.py:409-419 | defines the side tally of a triple: the counts of other points strictly on the positive side, in the plane and on the negative side |
| Facets.ClassifyFacts | ConvexHull.py:409-419 | the positive count is non-zero exactly when some point lies strictly on the positive side, and likewise for the negative count |
| Facets.FaceOf | ConvexHull.py:420-426 | defines the face test: a triple is a face when exactly one side is occupied, ordered a, b, c for the positive side and a, c, b for the negative one |
| Facets.FaceOfSupporting | ConvexHull.py:420-428 | an accepted face has every point on its inner side or in its plane, some point strictly inside, a non-zero normal, and the triple in its own order or with the last two swapped |
| Facets.ZeroNormalRejected | ConvexHull.py:407-420 | a triple whose normal is the zero vector is never accepted |
| Facets.KRow | ConvexHull.py:405-431 | defines the faces the innermost loop collects for the pair (i, j), from k on |
| Facets.JRow | ConvexHull.py:404-431 | defines the faces the middle loop collects for row i, from j on |
| Facets.IRow | ConvexHull.py:403-431 | defines the faces the outer loop collects from row i on |
| Facets.AllFaces | ConvexHull.py:402-431 | defines the faces of the construction as the outer loop's collection from row 0 |
| Facets.IRowFrom | ConvexHull.py:403-405 | every face the outer loop collects from row i on comes from an accepted triple of positions i' < j' < k' |
| Facets.IRowComplete | ConvexHull.py:403-405 | every accepted triple i' < j' < k' with i' at or after row i gives a face of the outer loop from row i on |
| Facets.AllFacesFromTriples | ConvexHull.py:402-428 | every face comes from an accepted triple i < j < k |
| Facets.AllFacesComplete | ConvexHull.py:402-428 | every accepted triple i < j < k gives a face |
| Facets.AllFacesSupporting | ConvexHull.py:402-428 | every face supports the whole point set, has a non-zero normal and has held points as vertices |
| Facets.Flatten | ConvexHull.py:427 | the hull points that a list of faces contributes number three per face |
| Facets.FlattenAt | ConvexHull.py:427 | the vertices of face k sit at positions 3k, 3k+1 and 3k+2 |
| Facets.Within3D | ConvexHull.py:322-323 | the half-space test answers false when there are no hull points |
| Facets.FacesAdmit | ConvexHull.py:331-343 | defines the walk over faces: true for a face vertex or a point in a face plane, false at the first face the point is on the outer side of, true after all faces |
| Facets.FacesAdmitSides | ConvexHull.py:331-343 | a point on the inner side or in the plane of every face is admitted, and a rejected point is on the outer side of some face |
| Facets.HullContainsItsPoints | ConvexHull.py:322-343 | every point the faces were built from is within the spatial hull exactly when there are hull points |
| Hull3D.CountSides | ConvexHull.py:409-419 | the counting loop computes the side tally of the triple |
| Hull3D.TripleFace | ConvexHull.py:406-426 | accepts a triple exactly when one side is occupied, oriented towards it |
| Hull3D.ConvexHull3D.constructor | ConvexHull.py:36-40 | the shared stores and the faces start empty |
| Hull3D.ConvexHull3D.Add | ConvexHull.py:73-98 | adds as the planar container does, leaving the hull stores alone, and keeps the front point minimal |
| Hull3D.RemoveFirstKeys | ConvexHull.py:110-115 | after removing a point and its key, every remaining recorded hull key still has a hull point |
| Hull3D.ConvexHull3D.Remove | ConvexHull.py:100-115 | removes as the planar container does; a recorded hull key always has a hull point, so the first equal hull point is removed and the removal never raises |
| Hull3D.ConvexHull3D.Within | ConvexHull.py:312-343 | the loop computes the half-space test `Within3D` over the stored faces |
| Hull3D.ConvexHull3D.AllInOnePlane | ConvexHull.py:345-367 | the triple loop over i < n-2, 1 <= j < n-1 and 2 <= k < n answers exactly whether all points are coplanar |
| Hull3D.ConvexHull3D.AppendFace | ConvexHull.py:427-431 | an accepted face's vertices extend the hull points, their keys the hull keys, and the face the faces |
| Hull3D.ConvexHull3D.BuildFaces | ConvexHull.py:402-431 | the outer loop, started from no faces, leaves exactly the enumerated faces and extends the hull stores by their vertices and keys |
| Hull3D.ConvexHull3D.FacesOfPair | ConvexHull.py:405-431 | the innermost loop appends the faces of the row (i, j) |
| Hull3D.ConvexHull3D.FacesFrom | ConvexHull.py:404-431 | the middle loop appends the faces of the rows (i, j) for every j after i |
| Hull3D.ConvexHull3D.Hull | ConvexHull.py:369-431 | with fewer than four points or coplanar points nothing changes; otherwise the faces are reset to the enumerated faces, the hull stores are extended by their vertices, and every held point is within exactly when the hull points are non-empty |

## Left out

- Plotting (`plot` in both classes), `__str__` and `__repr__`: these are rendering and
  formatting in a foreign library, with no logic.
- The `isinstance` check and the printed diagnostics: the element type enforces the
  check. The printing branches are early returns that leave the state unchanged, and
  `HullOutcome` names them.
- `copy.deepcopy` in the getters: a Dafny `seq` is a value, so the getters return the
  current contents.
- numpy: `np.cross` and `np.dot` are explicit integer formulas, and floating-point
  coordinates are not modelled.
- Hull2D.ConvexHull2D.Within: the model computes the cross product exactly. The source
  builds it with `np.cross` over Python integers, so it works in 64-bit integers and
  wraps silently on overflow (ConvexHull.py:172). For coordinate differences around
  2^31 and more, the sign tests can differ from the model's.
- Hull2D.ConvexHull2D.Hull: the model computes the line guard, march and post-pass cross
  products exactly. The source wraps them at 64 bits (ConvexHull.py:205, 243, 270), so
  for coordinate differences around 2^31 and more its choices can differ from the
  model's.
- Hull3D.ConvexHull3D.Within: the model computes the normal and the signed volume
  exactly. The source wraps `np.cross` and `np.dot` at 64 bits (ConvexHull.py:335-336),
  so for coordinate differences around 2^21 and more its sign tests can differ.
- Hull3D.ConvexHull3D.Hull: the model computes the face test exactly. The source wraps it
  at 64 bits (ConvexHull.py:407-413), but its coplanarity guard uses unbounded Python
  integers (ConvexHull.py:351-365). So for coordinate differences around 2^21 and more,
  the source's guard and face test can disagree, which the model cannot show.
- The driver script `main.py` is not part of this model. It calls operations the core does
  not define, and its input is random.
- Hull2D.ConvexHull2D.Hull: the wrapping loop has no termination argument in the source.
  The model bounds it by `|points|^2` steps and reports `NotClosed` when the bound is
  spent, leaving the hull unchanged. The claim that a march not closed after that many
  steps never closes (its state is one of at most that many pairs) is not proved.
- Hull2D.ConvexHull2D.Hull: full correctness of the planar hull is not stated. That
  covers convexity, minimality, orientation and containment of every held point, none of
  which the code guarantees.
- Hull3D.ConvexHull3D.Hull: minimality of the face set is not stated. What is proved is
  that every face supports the whole point set, and that every held point is within
  exactly when the hull points are non-empty.
- Hull3D.ConvexHull3D.Hull: the face set is not proved non-empty. Four or more distinct
  points that are not coplanar always have a supporting triple, so a `Built` outcome on a
  fresh object has hull points, but that existence argument is not proved. Without it,
  "every held point is within" is proved only when the hull points are non-empty.
- Concurrency: the source is single-threaded.
