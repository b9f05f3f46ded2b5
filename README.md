# Octree geometry kernel in Dafny

A model of `geometry.py`. This is the stateless 3-D axis-aligned box geometry that an octree search is built on. Points are triples of `real`. A box is a triple of `(min, max)` intervals, one per axis. Six modules follow the components of the file:

- `Wrappers` (`wrappers.dfy`): the `Option` type. The source's `None` maps to `None`.
- `TriState` (`tristate.dfy`): `bounding`, the tolerance gate, and `agreement`, the consensus of optional booleans. `agreement` is a method with a `for` loop and early returns, as in the source.
- `Boxes` (`boxes.dfy`): points, intervals and boxes, plus `point_in_box`, `box_contains`, `boxes_disjoint` and `union_box`.
  - Membership is half-open: `min <= c < max`.
  - Containment is closed.
- `Octree` (`octree.dfy`): `vertices`, `subboxes` and `narrow`.
  - The two generators become length-8 sequences in the source's order: z varies fastest, and the low end or half comes first.
  - Narrowing sends a coordinate equal to the midpoint to the upper half.
- `Distance` (`distance.dfy`): the point and box distances and their helpers `nearest_point_in_box` and `furthest_point_in_box`. Every distance is modelled squared.
- `Deform` (`deform.dfy`): `convex_box_deform` takes the point map `f` as a function parameter. `matrix_action` is a 3x3 matrix product.

Three behaviours of the code are worth stating outright, because the model keeps them as written:

- `furthest_point_in_box` (lines 147-158) picks `min` only when `2*x > min+max`, so an exact tie takes `max`. For p = (12, 5, 5) in [0,10]^3 the result is (0, 10, 10) (`Distance.PointBoxExample`).
- `euclidean_box_box_max` (lines 201-203) takes the larger cross difference on every axis, including axes where the boxes coincide. For b1 = [0,1]^3 and b2 = [2,3] x [0,1] x [0,1] it is sqrt(11), the distance between the corners (0,0,0) and (3,1,1) (`Distance.BoxBoxExample`).
- `boxes_disjoint` is modelled exactly as line 47 writes it. The symmetric separating-axis test appears beside it under Findings.

## Model

| member | source | states |
|---|---|---|
| `TriState.Bounding` | geometry.py:10-14 | the gate yields a value exactly when x <= e, and that value is x itself |
| `TriState.BoundingMonotone` | geometry.py:10-14 | a value that passes a cutoff passes every larger one, and a value refused by a cutoff is refused by every smaller one |
| `TriState.Agreement` | geometry.py:17-26 | returns some b only when the collection is non-empty and every element is present and equal to b; returns None exactly when no such b exists |
| `TriState.UnanimousIff` | geometry.py:17-26 | a verdict exists iff the collection is non-empty, has no undetermined element and has no two disagreeing elements |
| `TriState.UnanimousExamples` | geometry.py:17-26 | `[]`, `[None]` and `[True, False]` give no verdict; `[True, True]` gives True |
| `Boxes.PointInBox` | geometry.py:29-33 | a half-open member is a closed member, and only a box with positive width on every axis has one |
| `Boxes.BoxContains` | geometry.py:36-40 | when b1 is contained in b2, every point of closed b1 is a point of closed b2 |
| `Boxes.BoxContainsPreorder` | geometry.py:36-40 | containment is reflexive (`box_contains(b,b)`) and transitive |
| `Boxes.BoxContainsMeaning` | geometry.py:36-40 | for a well-formed b1, `box_contains(b1,b2)` holds iff every point of closed b1 is in closed b2 |
| `Boxes.BoxesDisjointSelf` | geometry.py:43-47 | as written, `boxes_disjoint(b,b)` is true iff b is flat on some axis, so it is false for a box of positive width |
| `Boxes.BoxesDisjoint` | geometry.py:43-47 | as written, a "disjoint" verdict is never wrong: no point is in both boxes under half-open membership |
| `Boxes.BoxesDisjointMissesSeparation` | geometry.py:47 | as written, the test misses a box lying wholly below the other, and its verdict changes when the arguments are swapped |
| `Boxes.BoxesSeparated` | geometry.py:43-47 | the corrected test (`max1 <= min2` in place of `max1 <= min1`) is sound too: when it holds no point is in both boxes |
| `Boxes.BoxesSeparatedIff` | geometry.py:43-47 | the symmetric separating-axis test holds, for boxes of positive width, exactly when no point lies in both |
| `Boxes.UnionBox` | geometry.py:50-54 | the union contains both boxes, and it is well-formed when b1 is |
| `Boxes.UnionBoxLeast` | geometry.py:50-54 | every box containing b1 and b2 contains their union (it is the smallest), and the union is symmetric |
| `Octree.Vertices` | geometry.py:57-63 | exactly 8 corners; corner n takes end n/4 of x, end (n/2)%2 of y and end n%2 of z (z fastest) |
| `Octree.VertexAt` | geometry.py:57-63 | corner 4i+2j+k is (xs[i], ys[j], zs[k]) |
| `Octree.VerticesInBox` | geometry.py:57-63 | the corners of a well-formed box lie in the closed box |
| `Octree.Mid` | geometry.py:69-71 | the midpoint is equidistant from both ends, and lies between them for an ordered interval |
| `Octree.Half` | geometry.py:72-75 | each half is half as wide as the interval, keeps the chosen end, and lies inside an ordered interval |
| `Octree.Subboxes` | geometry.py:66-75 | exactly 8 octants; octant n is the product of half n/4 of x, half (n/2)%2 of y and half n%2 of z |
| `Octree.SubboxAt` | geometry.py:66-75 | octant 4i+2j+k is (half i of x, half j of y, half k of z), in the same order as the vertices |
| `Octree.SubboxesInBox` | geometry.py:66-75 | each octant of a well-formed box is well-formed, is contained in the box and holds the vertex with the same index |
| `Octree.SubboxPointInBox` | geometry.py:66-75 | a half-open member of an octant is a half-open member of the box |
| `Octree.SubboxesDisjoint` | geometry.py:66-75 | no point is a half-open member of two different octants |
| `Octree.Narrow` | geometry.py:78-108 | bit r (s, t) is 1 iff the x (y, z) coordinate is >= the midpoint, and the box returned is `subboxes(b)[4r+2s+t]` |
| `Octree.NarrowAxis` | geometry.py:89-106 | per axis, bit 1 exactly when the coordinate is >= the midpoint; the half returned is the half with that bit, and it keeps a coordinate of [min, max) inside its own [min, max) |
| `Octree.HalfDecides` | geometry.py:89-106 | a coordinate in half k of an interval is at or above the midpoint exactly when k is 1 |
| `Octree.NarrowKeepsPoint` | geometry.py:78-108 | a point in b is in the octant it is narrowed to |
| `Octree.NarrowUnique` | geometry.py:78-108 | the narrowed octant is the only octant holding the point |
| `Distance.EuclideanPointPointSq` | geometry.py:111-115 | the squared distance is non-negative and is zero exactly when the points are equal |
| `Distance.PointPointSymmetric` | geometry.py:111-115 | the distance is symmetric |
| `Distance.Clamp` | geometry.py:122-139 | per axis, the clamped coordinate lies in an ordered [min, max], and a coordinate already in [min, max] is kept |
| `Distance.NearestPointInBox` | geometry.py:118-140 | the nearest point lies in a well-formed box, and a point of the closed box is its own nearest point |
| `Distance.ClampNearest` | geometry.py:122-139 | per axis, the clamped coordinate lies in [min, max] and is no further from the coordinate than any value of the interval |
| `Distance.NearestIsNearest` | geometry.py:118-140 | the nearest point is in the closed box, and no point of the closed box is closer to p |
| `Distance.EuclideanPointBoxSq` | geometry.py:162-164 | the point-box distance is non-negative, at most the distance from p to any point of the closed box, and zero for a point of the closed box |
| `Distance.PointBoxZeroInside` | geometry.py:162-164 | for a well-formed box, a point of the closed box is its own nearest point, and the point-box distance is zero exactly for points of the closed box; so it is zero for every p with `point_in_box(p,b)` |
| `Distance.Far` | geometry.py:147-158 | per axis, the chosen coordinate is min or max, and for an ordered interval neither end is further from the coordinate than it |
| `Distance.FarFurthest` | geometry.py:147-158 | per axis, no value of the interval is further from the coordinate than the end chosen |
| `Distance.FurthestPointInBox` | geometry.py:143-159 | the furthest point is one of `vertices(b)` |
| `Distance.FurthestIsVertex` | geometry.py:143-159 | the furthest point is one of `vertices(b)`, and an exact tie at the midpoint picks max |
| `Distance.FurthestIsFurthest` | geometry.py:143-159 | no point of the closed box is further from p than the furthest point |
| `Distance.EuclideanPointBoxMaxSq` | geometry.py:167-169 | the point-box maximum is non-negative and at least the distance from p to any point of the closed box |
| `Distance.PointBoxBounds` | geometry.py:162-169 | the distance from p to any point of the closed box lies between the point-box distance and the point-box maximum |
| `Distance.PointBoxLeMax` | geometry.py:162-169 | the point-box distance never exceeds the point-box maximum |
| `Distance.PointBoxExample` | geometry.py:118-159 | for p = (12,5,5) and [0,10]^3: nearest (10,5,5) at distance 2, furthest (0,10,10) |
| `Distance.Gap` | geometry.py:176-193 | per axis, the gap is non-negative and is zero exactly when the closed intervals share a point |
| `Distance.EuclideanBoxBoxSq` | geometry.py:172-194 | the box-box distance is non-negative and is zero exactly when the closed intervals touch on every axis |
| `Distance.Span` | geometry.py:201-203 | per axis, the span is one of the two cross differences, and for ordered intervals it is at least the gap and at least the size of either cross difference |
| `Distance.EuclideanBoxBoxMaxSq` | geometry.py:197-204 | the box-box maximum is non-negative and, for well-formed boxes, at least the box-box distance |
| `Distance.Worst` | geometry.py:214-216 | per axis, the worst case from a coordinate m is non-negative and, for an ordered b2 interval, equals the distance from m to its midpoint plus its half-width |
| `Distance.MinMaxAxis` | geometry.py:214-216 | per axis, the value is the worst case of one of b1's two ends, and never below the half-width of an ordered b2 interval |
| `Distance.EuclideanBoxBoxMinMaxSq` | geometry.py:207-217 | the min-max bound is non-negative and, for well-formed boxes, lies between the box-box distance and the box-box maximum |
| `Distance.AxisBounds` | geometry.py:176-203 | per axis, the gap and the span bound the separation of any two coordinates taken from the intervals |
| `Distance.BoxBoxBoundsPoints` | geometry.py:172-204 | every distance between a point of closed b1 and a point of closed b2 lies between the box-box distance and the box-box maximum |
| `Distance.AxisGapAttained` | geometry.py:176-193 | per axis, for ordered intervals, some coordinate of each is exactly the gap apart |
| `Distance.AxisSpanAttained` | geometry.py:201-203 | per axis, for ordered intervals, some coordinate of each is exactly the span apart |
| `Distance.BoxBoxAttained` | geometry.py:172-204 | for well-formed boxes both bounds are exact: some point of closed b1 and some point of closed b2 are exactly at the box-box distance, and another pair exactly at the box-box maximum |
| `Distance.AxisOrdered` | geometry.py:176-216 | per axis, for ordered intervals: gap <= min-max value <= span |
| `Distance.BoxBoxSymmetric` | geometry.py:172-204 | the maximum is symmetric in (b1,b2); so is the distance, for well-formed boxes |
| `Distance.FarIsWorst` | geometry.py:147-158 | per axis, for ordered b2, the end that `furthest_point_in_box` picks is at the larger of the two distances the min-max bound compares |
| `Distance.AxisMinMaxAtEnds` | geometry.py:214-216 | per axis, the min-max value is at most the furthest distance from either end of b1, and the better end attains it |
| `Distance.BoxBoxMinMaxBelowVertex` | geometry.py:207-217 | no vertex q of b1 has a smaller `euclidean_point_box_max(q,b2)` than the min-max bound |
| `Distance.BoxBoxMinMaxAtBestVertex` | geometry.py:207-217 | the vertex of b1 that takes the better end on each axis attains the min-max bound |
| `Distance.BoxBoxMinMaxAtVertices` | geometry.py:207-217 | the min-max bound equals the minimum over b1's eight vertices q of `euclidean_point_box_max(q,b2)` |
| `Distance.BoxBoxExample` | geometry.py:172-204 | for [0,1]^3 and [2,3]x[0,1]x[0,1]: distance 1, maximum sqrt(11) |
| `Distance.AxisExactMinimum` | geometry.py:207-211 | per axis, the clamp of b2's midpoint into b1 has the smallest furthest distance over all of b1's interval |
| `Distance.CentreNearestIsBest` | geometry.py:207-211 | from the point of b1 nearest b2's centre, `euclidean_point_box_max` to b2 is no larger than from any other point of closed b1 |
| `Distance.EuclideanBoxBoxMinMaxExactSq` | geometry.py:207-211 | the minimum the docstring describes is non-negative and at most `euclidean_point_box_max(q,b2)` for every q in closed b1 |
| `Distance.BoxBoxMinMaxExactIsMinimum` | geometry.py:207-211 | for well-formed boxes the docstring's min-max is the minimum over closed b1 of `euclidean_point_box_max(q,b2)`: no q does better and some q in b1 attains it |
| `Distance.BoxBoxMinMaxExactBelow` | geometry.py:207-217 | the true minimum never exceeds the bound as written |
| `Distance.BoxBoxMinMaxOvershoots` | geometry.py:207-217 | for [0,10]^3 and [4,6]^3 the bound as written is 108 (squared) while (5,5,5) in b1 reaches every point of b2 within squared distance 3 (distance sqrt 3) |
| `Deform.MinOf` | geometry.py:226-230 | the fold's result is an element of the list and no element is smaller |
| `Deform.MaxOf` | geometry.py:227-231 | the fold's result is an element of the list and no element is larger |
| `Deform.Images` | geometry.py:225 | the list holds exactly the images under f of the eight vertices, in vertex order |
| `Deform.ConvexBoxDeform` | geometry.py:220-232 | the result is well-formed, closed-contains f(v) for every vertex v, and each of its six faces is touched by some f(v) |
| `Deform.ConvexBoxDeformTightest` | geometry.py:220-232 | every box holding the eight images contains the result (it is the smallest such box) |
| `Deform.ConvexBoxDeformIdentity` | geometry.py:220-232 | under the identity map a well-formed box is returned unchanged |
| `Deform.MatrixAction` | geometry.py:235-236 | the product, computed row by row, equals the combination of m's columns weighted by p's coordinates |
| `Deform.MatrixActionLinear` | geometry.py:235-236 | the matrix action preserves sums and scalar multiples |
| `Deform.TermAtEnds` | geometry.py:236 | over an interval, a term w*c is bounded by its values at the two ends |
| `Deform.DotAboveVertex` | geometry.py:236 | a matrix row dotted with a point of the closed box is at least its value at one vertex |
| `Deform.DotBelowVertex` | geometry.py:236 | a matrix row dotted with a point of the closed box is at most its value at one vertex |
| `Deform.ConvexBoxDeformLinear` | geometry.py:220-236 | for a matrix map, the deformed box closed-contains the image of every point of the closed box, not only of the vertices |

## Left out

- `sqrt` (lines 115, 194, 204, 217): there is no real square root here. Every distance is modelled squared. sqrt is monotone, so every ordering above carries over to the distances.
- Floating-point rounding is not modelled: coordinates are exact `real`s. Python 2 flooring `(max+min)/2` on integer inputs (lines 69-71, 83-85) is not modelled either.
- Generator laziness and restartability of `vertices` and `subboxes`: these are modelled as length-8 sequences.
- `agreement` over arbitrary Python values and `is` identity: inputs are restricted to `Option<bool>` sequences. Any iterable is modelled as a `seq`.
- `bounding` on arbitrary ordered values: it is modelled over `real`.
- `convex_box_deform` does not check that `f` is affine or convex-extremal, and neither does the model. `f` is a total function `Point -> Point`. The containment of every image is proved only for matrix maps (`Deform.ConvexBoxDeformLinear`).
- `matrix_action`'s `xrange` and tuple plumbing: the model is a plain 3x3 product over a row-by-row `Matrix`.
- Malformed boxes (min > max): the source does not guard against them. Lemmas that need well-formed boxes say so in their `requires`. The operations themselves are total.

## Findings

| source | as written | input that shows it | evidently intended | confidence | as-written member | corrected member |
|---|---|---|---|---|---|---|
| geometry.py:47 | on each axis tests `maxx1 <= minx1`, comparing b1 with itself | b1 = [0,1]^3, b2 = [2,3]x[0,1]x[0,1]: reported not disjoint, yet no point lies in both, and swapping the arguments reports disjoint | `maxx1 <= minx2`: disjoint on an axis iff `max2 <= min1` or `max1 <= min2` | high; not executed | `Boxes.BoxesDisjointMissesSeparation` | `Boxes.BoxesSeparatedIff` |
| geometry.py:207-217 | the minimum over b1 is taken at b1's interval ends only | b1 = [0,10]^3, b2 = [4,6]^3: the bound is 108 (squared), but from (5,5,5) in b1 every point of b2 is within squared distance 3 (distance sqrt 3) | the minimum over all points of b1, as the docstring at lines 208-210 says; it is attained at the point of b1 nearest b2's centre | medium (the vertex-only bound is still an upper bound of the true minimum); not executed | `Distance.BoxBoxMinMaxOvershoots` | `Distance.BoxBoxMinMaxExactIsMinimum` |
