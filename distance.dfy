/** Euclidean distance bounds between points and boxes, all in squared
    form: the square root the source applies last is monotone, so every
    ordering below carries over to the distances themselves. */
module Distance {

  import opened Boxes
  import opened Octree

  function Sq(v: real): (s: real) { v * v }

  function Abs(v: real): (a: real)
    ensures a >= 0.0 && (a == v || a == -v)
  {
    if v < 0.0 then -v else v
  }

  /** Squares are ordered as the absolute values are. */
  lemma SqMono(u: real, w: real)
    requires Abs(u) <= Abs(w)
    ensures Sq(u) <= Sq(w)
  {
    var a, c := Abs(u), Abs(w);
    SqAbs(u); SqAbs(w);
    assert Sq(u) == a * a && Sq(w) == c * c;
    assert a * a <= a * c;
    assert a * c <= c * c;
  }

  lemma MulPos(a: real, b: real)
    requires a > 0.0 && b > 0.0
    ensures a * b > 0.0
  {
  }

  /** A square is never negative, and is zero only at zero. */
  lemma SqZero(u: real)
    ensures Sq(u) >= 0.0
    ensures u != 0.0 ==> Sq(u) > 0.0
  {
    if u != 0.0 {
      var a := Abs(u);
      calc {
        Sq(u);
        a * a;
        > { MulPos(a, a); }
        0.0;
      }
    }
  }

  /** Squared Euclidean distance between points p and q. */
  function EuclideanPointPointSq(p: Point, q: Point): (d: real)
    ensures d >= 0.0
    ensures d == 0.0 <==> p == q
  {
    SqZero(p.x - q.x); SqZero(p.y - q.y); SqZero(p.z - q.z);
    Sq(p.x - q.x) + Sq(p.y - q.y) + Sq(p.z - q.z)
  }

  /** The distance is symmetric. */
  lemma PointPointSymmetric(p: Point, q: Point)
    ensures EuclideanPointPointSq(p, q) == EuclideanPointPointSq(q, p)
  {
    assert Sq(p.x - q.x) == Sq(q.x - p.x);
    assert Sq(p.y - q.y) == Sq(q.y - p.y);
    assert Sq(p.z - q.z) == Sq(q.z - p.z);
  }

  // ---------------------------------------------------------------- nearest

  /** Clamps v into [min, max]: min below it, max at or above it. The result
      lies in an ordered interval, and a value already in it is kept. */
  function Clamp(v: real, i: Interval): (c: real)
    ensures Ordered(i) ==> i.lo <= c <= i.hi
    ensures i.lo <= v <= i.hi ==> c == v
  {
    if v < i.lo then i.lo else if v < i.hi then v else i.hi
  }

  /** Per axis: the clamp is no further from v than any point of the interval. */
  lemma ClampNearest(v: real, i: Interval, c: real)
    requires i.lo <= c <= i.hi
    ensures i.lo <= Clamp(v, i) <= i.hi
    ensures Sq(v - Clamp(v, i)) <= Sq(v - c)
  {
    SqMono(v - Clamp(v, i), v - c);
  }

  /** The point of b nearest to p, clamped axis by axis: it lies in a
      well-formed box, and a point of the closed box is its own nearest point. */
  function NearestPointInBox(p: Point, b: Box): (q: Point)
    ensures WellFormed(b) ==> InClosedBox(q, b)
    ensures InClosedBox(p, b) ==> q == p
  {
    Point(Clamp(p.x, b.x), Clamp(p.y, b.y), Clamp(p.z, b.z))
  }

  /** The nearest point lies in the closed box and no point of the closed
      box is closer to p. */
  lemma NearestIsNearest(p: Point, b: Box, q: Point)
    requires InClosedBox(q, b)
    ensures InClosedBox(NearestPointInBox(p, b), b)
    ensures EuclideanPointPointSq(p, NearestPointInBox(p, b)) <= EuclideanPointPointSq(p, q)
  {
    ClampNearest(p.x, b.x, q.x);
    ClampNearest(p.y, b.y, q.y);
    ClampNearest(p.z, b.z, q.z);
  }

  /** No point of the closed box is closer to p than its nearest point. */
  lemma NearestBelowAll(p: Point, b: Box)
    ensures forall q :: InClosedBox(q, b) ==>
      EuclideanPointPointSq(p, NearestPointInBox(p, b)) <= EuclideanPointPointSq(p, q)
  {
    forall q | InClosedBox(q, b)
      ensures EuclideanPointPointSq(p, NearestPointInBox(p, b)) <= EuclideanPointPointSq(p, q)
    {
      NearestIsNearest(p, b, q);
    }
  }

  /** Squared distance from p to the box b: never negative, a lower bound for
      the distance to every point of the closed box, and zero inside it. */
  function EuclideanPointBoxSq(p: Point, b: Box): (d: real)
    ensures d >= 0.0
    ensures forall q :: InClosedBox(q, b) ==> d <= EuclideanPointPointSq(p, q)
    ensures InClosedBox(p, b) ==> d == 0.0
  {
    NearestBelowAll(p, b);
    EuclideanPointPointSq(p, NearestPointInBox(p, b))
  }

  /** A point of the box is its own nearest point, so its distance to the box
      is zero; conversely distance zero puts p in the closed box. This covers
      every p with PointInBox(p, b). */
  lemma PointBoxZeroInside(p: Point, b: Box)
    requires WellFormed(b)
    ensures InClosedBox(p, b) ==> NearestPointInBox(p, b) == p
    ensures EuclideanPointBoxSq(p, b) == 0.0 <==> InClosedBox(p, b)
  {
    if EuclideanPointBoxSq(p, b) == 0.0 {
      NearestIsNearest(p, b, Point(b.x.lo, b.y.lo, b.z.lo));
    }
  }

  // --------------------------------------------------------------- furthest

  /** Per axis: min when v is strictly past the midpoint, max otherwise, so an
      exact tie picks max. The result is an end of the interval, and for an
      ordered interval no end is further from v. */
  function Far(v: real, i: Interval): (f: real)
    ensures f == i.lo || f == i.hi
    ensures Ordered(i) ==> Abs(i.lo - v) <= Abs(f - v) && Abs(i.hi - v) <= Abs(f - v)
  {
    if 2.0 * v > i.lo + i.hi then i.lo else i.hi
  }

  /** Per axis: no point of the interval is further from v than Far. */
  lemma FarFurthest(v: real, i: Interval, c: real)
    requires i.lo <= c <= i.hi
    ensures Sq(v - c) <= Sq(v - Far(v, i))
  {
    SqMono(v - c, v - Far(v, i));
  }

  /** The point of b furthest from p, chosen axis by axis: a vertex of b. */
  function FurthestPointInBox(p: Point, b: Box): (q: Point)
    ensures q in Vertices(b)
  {
    VertexAt(b, if 2.0 * p.x > b.x.lo + b.x.hi then 0 else 1,
                if 2.0 * p.y > b.y.lo + b.y.hi then 0 else 1,
                if 2.0 * p.z > b.z.lo + b.z.hi then 0 else 1);
    Point(Far(p.x, b.x), Far(p.y, b.y), Far(p.z, b.z))
  }

  /** The furthest point is a vertex of b, and on an axis where p sits exactly
      on the midpoint it takes the max end. */
  lemma FurthestIsVertex(p: Point, b: Box)
    ensures FurthestPointInBox(p, b) in Vertices(b)
    ensures 2.0 * p.x == b.x.lo + b.x.hi ==> FurthestPointInBox(p, b).x == b.x.hi
    ensures 2.0 * p.y == b.y.lo + b.y.hi ==> FurthestPointInBox(p, b).y == b.y.hi
    ensures 2.0 * p.z == b.z.lo + b.z.hi ==> FurthestPointInBox(p, b).z == b.z.hi
  {
    var i: Bit := if 2.0 * p.x > b.x.lo + b.x.hi then 0 else 1;
    var j: Bit := if 2.0 * p.y > b.y.lo + b.y.hi then 0 else 1;
    var k: Bit := if 2.0 * p.z > b.z.lo + b.z.hi then 0 else 1;
    VertexAt(b, i, j, k);
  }

  /** No point of the closed box is further from p than the furthest point. */
  lemma FurthestIsFurthest(p: Point, b: Box, q: Point)
    requires InClosedBox(q, b)
    ensures EuclideanPointPointSq(p, q) <= EuclideanPointPointSq(p, FurthestPointInBox(p, b))
  {
    FarFurthest(p.x, b.x, q.x);
    FarFurthest(p.y, b.y, q.y);
    FarFurthest(p.z, b.z, q.z);
  }

  /** No point of the closed box is further from p than its furthest point. */
  lemma FurthestAboveAll(p: Point, b: Box)
    ensures forall q :: InClosedBox(q, b) ==>
      EuclideanPointPointSq(p, q) <= EuclideanPointPointSq(p, FurthestPointInBox(p, b))
  {
    forall q | InClosedBox(q, b)
      ensures EuclideanPointPointSq(p, q) <= EuclideanPointPointSq(p, FurthestPointInBox(p, b))
    {
      FurthestIsFurthest(p, b, q);
    }
  }

  /** Squared furthest distance from p to the box b: an upper bound for the
      distance to every point of the closed box. */
  function EuclideanPointBoxMaxSq(p: Point, b: Box): (d: real)
    ensures d >= 0.0
    ensures forall q :: InClosedBox(q, b) ==> EuclideanPointPointSq(p, q) <= d
  {
    FurthestAboveAll(p, b);
    EuclideanPointPointSq(p, FurthestPointInBox(p, b))
  }

  /** Every distance from p to a point of the closed box lies between the
      point-box distance and the point-box maximum. */
  lemma PointBoxBounds(p: Point, b: Box, q: Point)
    requires InClosedBox(q, b)
    ensures EuclideanPointBoxSq(p, b) <= EuclideanPointPointSq(p, q) <= EuclideanPointBoxMaxSq(p, b)
  {
    NearestIsNearest(p, b, q);
    FurthestIsFurthest(p, b, q);
  }

  /** The nearest distance never exceeds the furthest one. */
  lemma PointBoxLeMax(p: Point, b: Box)
    requires WellFormed(b)
    ensures EuclideanPointBoxSq(p, b) <= EuclideanPointBoxMaxSq(p, b)
  {
    PointBoxBounds(p, b, Point(b.x.lo, b.y.lo, b.z.lo));
  }

  /** For p = (12, 5, 5) and the box [0, 10]^3 the nearest point is (10, 5, 5)
      at squared distance 4, and the furthest is (0, 10, 10): y and z tie and
      go to max. */
  lemma PointBoxExample()
    ensures var b := Box(Interval(0.0, 10.0), Interval(0.0, 10.0), Interval(0.0, 10.0));
            var p := Point(12.0, 5.0, 5.0);
            && NearestPointInBox(p, b) == Point(10.0, 5.0, 5.0)
            && EuclideanPointBoxSq(p, b) == 4.0
            && FurthestPointInBox(p, b) == Point(0.0, 10.0, 10.0)
  {
  }

  // ---------------------------------------------------------------- box-box

  /** Squares agree on v and its absolute value. */
  lemma SqAbs(v: real)
    ensures Sq(Abs(v)) == Sq(v)
  {
    if v < 0.0 {
      assert Sq(Abs(v)) == (-v) * (-v);
    }
  }

  /** The closed intervals share a point (for ordered intervals). */
  predicate Touch(i1: Interval, i2: Interval) { i2.lo <= i1.hi && i1.lo <= i2.hi }

  /** Per axis: the gap between the intervals when one ends strictly before
      the other begins, zero exactly when they overlap or touch. */
  function Gap(i1: Interval, i2: Interval): (g: real)
    ensures g >= 0.0
    ensures g == 0.0 <==> Touch(i1, i2)
  {
    if i1.hi < i2.lo then i2.lo - i1.hi else if i2.hi < i1.lo then i1.lo - i2.hi else 0.0
  }

  /** Squared distance between the boxes b1 and b2: never negative, and zero
      exactly when the closed intervals touch on every axis. */
  function EuclideanBoxBoxSq(b1: Box, b2: Box): (d: real)
    ensures d >= 0.0
    ensures d == 0.0 <==> Touch(b1.x, b2.x) && Touch(b1.y, b2.y) && Touch(b1.z, b2.z)
  {
    SqZero(Gap(b1.x, b2.x)); SqZero(Gap(b1.y, b2.y)); SqZero(Gap(b1.z, b2.z));
    Sq(Gap(b1.x, b2.x)) + Sq(Gap(b1.y, b2.y)) + Sq(Gap(b1.z, b2.z))
  }

  /** Per axis: the larger of the two cross differences. For ordered
      intervals it is at least the gap and at least the size of either cross
      difference. */
  function Span(i1: Interval, i2: Interval): (s: real)
    ensures s == i2.hi - i1.lo || s == i1.hi - i2.lo
    ensures Ordered(i1) && Ordered(i2) ==>
      Gap(i1, i2) <= s && Abs(i2.hi - i1.lo) <= s && Abs(i1.hi - i2.lo) <= s
  {
    Max(i2.hi - i1.lo, i1.hi - i2.lo)
  }

  /** Squared maximum distance between the boxes b1 and b2: never negative,
      and for well-formed boxes never below their distance. */
  function EuclideanBoxBoxMaxSq(b1: Box, b2: Box): (d: real)
    ensures d >= 0.0
    ensures WellFormed(b1) && WellFormed(b2) ==> EuclideanBoxBoxSq(b1, b2) <= d
  {
    SqZero(Span(b1.x, b2.x)); SqZero(Span(b1.y, b2.y)); SqZero(Span(b1.z, b2.z));
    var d := Sq(Span(b1.x, b2.x)) + Sq(Span(b1.y, b2.y)) + Sq(Span(b1.z, b2.z));
    if WellFormed(b1) && WellFormed(b2) then
      SqMono(Gap(b1.x, b2.x), Span(b1.x, b2.x));
      SqMono(Gap(b1.y, b2.y), Span(b1.y, b2.y));
      SqMono(Gap(b1.z, b2.z), Span(b1.z, b2.z));
      d
    else d
  }

  /** Per axis: how far the further end of i2 is from m; for an ordered i2,
      the distance from m to its midpoint plus its half-width. */
  function Worst(m: real, i2: Interval): (w: real)
    ensures w >= 0.0
    ensures Ordered(i2) ==> w == Abs(m - Mid(i2)) + (i2.hi - i2.lo) / 2.0
  {
    Max(Abs(i2.lo - m), Abs(i2.hi - m))
  }

  /** Per axis: the smaller of the worst cases from b1's two ends; never
      below the half-width of an ordered i2. */
  function MinMaxAxis(i1: Interval, i2: Interval): (r: real)
    ensures r == Worst(i1.lo, i2) || r == Worst(i1.hi, i2)
    ensures Ordered(i2) ==> (i2.hi - i2.lo) / 2.0 <= r
  {
    Min(Worst(i1.lo, i2), Worst(i1.hi, i2))
  }

  /** Squared min-over-b1 / max-over-b2 bound, evaluated at the ends of b1's
      intervals only. For well-formed boxes it lies between the distance and
      the maximum distance. */
  function EuclideanBoxBoxMinMaxSq(b1: Box, b2: Box): (d: real)
    ensures d >= 0.0
    ensures WellFormed(b1) && WellFormed(b2) ==>
      EuclideanBoxBoxSq(b1, b2) <= d <= EuclideanBoxBoxMaxSq(b1, b2)
  {
    SqZero(MinMaxAxis(b1.x, b2.x)); SqZero(MinMaxAxis(b1.y, b2.y)); SqZero(MinMaxAxis(b1.z, b2.z));
    var d := Sq(MinMaxAxis(b1.x, b2.x)) + Sq(MinMaxAxis(b1.y, b2.y)) + Sq(MinMaxAxis(b1.z, b2.z));
    if WellFormed(b1) && WellFormed(b2) then
      AxisOrdered(b1.x, b2.x);
      AxisOrdered(b1.y, b2.y);
      AxisOrdered(b1.z, b2.z);
      d
    else d
  }

  /** Per axis: the gap and the span bound the separation of any two
      coordinates drawn from the intervals. */
  lemma AxisBounds(i1: Interval, i2: Interval, c1: real, c2: real)
    requires i1.lo <= c1 <= i1.hi && i2.lo <= c2 <= i2.hi
    ensures Sq(Gap(i1, i2)) <= Sq(c1 - c2) <= Sq(Span(i1, i2))
  {
    SqMono(Gap(i1, i2), c1 - c2);
    SqMono(c1 - c2, Span(i1, i2));
  }

  /** The box-box distance and maximum bound every distance between a point
      of closed b1 and a point of closed b2. */
  lemma BoxBoxBoundsPoints(b1: Box, b2: Box, q1: Point, q2: Point)
    requires InClosedBox(q1, b1) && InClosedBox(q2, b2)
    ensures EuclideanBoxBoxSq(b1, b2) <= EuclideanPointPointSq(q1, q2) <= EuclideanBoxBoxMaxSq(b1, b2)
  {
    AxisBounds(b1.x, b2.x, q1.x, q2.x);
    AxisBounds(b1.y, b2.y, q1.y, q2.y);
    AxisBounds(b1.z, b2.z, q1.z, q2.z);
  }

  /** Per axis: two coordinates, one from each ordered interval, whose
      separation is exactly the gap. */
  lemma AxisGapAttained(i1: Interval, i2: Interval) returns (c1: real, c2: real)
    requires Ordered(i1) && Ordered(i2)
    ensures i1.lo <= c1 <= i1.hi && i2.lo <= c2 <= i2.hi
    ensures Sq(c1 - c2) == Sq(Gap(i1, i2))
  {
    if i1.hi < i2.lo {
      c1, c2 := i1.hi, i2.lo;
      assert Sq(c1 - c2) == Sq(c2 - c1);
    } else if i2.hi < i1.lo {
      c1, c2 := i1.lo, i2.hi;
    } else {
      c1 := Max(i1.lo, i2.lo);
      c2 := c1;
    }
  }

  /** Per axis: two coordinates, one from each interval, whose separation is
      exactly the span. */
  lemma AxisSpanAttained(i1: Interval, i2: Interval) returns (c1: real, c2: real)
    requires Ordered(i1) && Ordered(i2)
    ensures i1.lo <= c1 <= i1.hi && i2.lo <= c2 <= i2.hi
    ensures Sq(c1 - c2) == Sq(Span(i1, i2))
  {
    if i2.hi - i1.lo >= i1.hi - i2.lo {
      c1, c2 := i1.lo, i2.hi;
      assert Sq(c1 - c2) == Sq(c2 - c1);
    } else {
      c1, c2 := i1.hi, i2.lo;
    }
  }

  /** For well-formed boxes both bounds are attained: some point of closed b1
      and some point of closed b2 are exactly at the box-box distance, and
      some other pair exactly at the box-box maximum. */
  lemma BoxBoxAttained(b1: Box, b2: Box)
    requires WellFormed(b1) && WellFormed(b2)
    ensures exists q1, q2 :: (InClosedBox(q1, b1) && InClosedBox(q2, b2) &&
      EuclideanPointPointSq(q1, q2) == EuclideanBoxBoxSq(b1, b2))
    ensures exists q1, q2 :: (InClosedBox(q1, b1) && InClosedBox(q2, b2) &&
      EuclideanPointPointSq(q1, q2) == EuclideanBoxBoxMaxSq(b1, b2))
  {
    var x1, x2 := AxisGapAttained(b1.x, b2.x);
    var y1, y2 := AxisGapAttained(b1.y, b2.y);
    var z1, z2 := AxisGapAttained(b1.z, b2.z);
    assert EuclideanPointPointSq(Point(x1, y1, z1), Point(x2, y2, z2)) == EuclideanBoxBoxSq(b1, b2);
    var u1, u2 := AxisSpanAttained(b1.x, b2.x);
    var v1, v2 := AxisSpanAttained(b1.y, b2.y);
    var w1, w2 := AxisSpanAttained(b1.z, b2.z);
    assert EuclideanPointPointSq(Point(u1, v1, w1), Point(u2, v2, w2)) == EuclideanBoxBoxMaxSq(b1, b2);
  }

  /** Per axis: gap <= min-max <= span, all non-negative. */
  lemma AxisOrdered(i1: Interval, i2: Interval)
    requires Ordered(i1) && Ordered(i2)
    ensures Sq(Gap(i1, i2)) <= Sq(MinMaxAxis(i1, i2)) <= Sq(Span(i1, i2))
  {
    SqMono(Gap(i1, i2), MinMaxAxis(i1, i2));
    SqMono(MinMaxAxis(i1, i2), Span(i1, i2));
  }

  /** The distance and the maximum are symmetric in the two boxes (the
      distance needs both boxes well-formed). */
  lemma BoxBoxSymmetric(b1: Box, b2: Box)
    ensures EuclideanBoxBoxMaxSq(b1, b2) == EuclideanBoxBoxMaxSq(b2, b1)
    ensures WellFormed(b1) && WellFormed(b2) ==> EuclideanBoxBoxSq(b1, b2) == EuclideanBoxBoxSq(b2, b1)
  {
  }

  /** Per axis: for an ordered i2, the end Far picks is the one at the worst
      distance from v. */
  lemma FarIsWorst(v: real, i2: Interval)
    requires Ordered(i2)
    ensures Sq(v - Far(v, i2)) == Sq(Worst(v, i2))
  {
    SqAbs(v - Far(v, i2));
    assert Abs(v - Far(v, i2)) == Worst(v, i2);
  }

  /** Per axis: the end of i1 whose worst case is the smaller. */
  function BestEnd(i1: Interval, i2: Interval): (k: Bit)
  {
    if Worst(i1.lo, i2) <= Worst(i1.hi, i2) then 0 else 1
  }

  /** Per axis: the min-max value is the smaller of the two ends' furthest
      distances, and BestEnd attains it. */
  lemma AxisMinMaxAtEnds(i1: Interval, i2: Interval, k: Bit)
    requires Ordered(i2)
    ensures Sq(MinMaxAxis(i1, i2)) <= Sq(End(i1, k) - Far(End(i1, k), i2))
    ensures Sq(MinMaxAxis(i1, i2)) == Sq(End(i1, BestEnd(i1, i2)) - Far(End(i1, BestEnd(i1, i2)), i2))
  {
    FarIsWorst(End(i1, k), i2);
    FarIsWorst(End(i1, BestEnd(i1, i2)), i2);
    SqMono(MinMaxAxis(i1, i2), Worst(End(i1, k), i2));
  }

  /** The furthest distance from a point to b2, axis by axis. */
  lemma PointBoxMaxSqAxes(q: Point, b2: Box)
    ensures EuclideanPointBoxMaxSq(q, b2) ==
      Sq(q.x - Far(q.x, b2.x)) + Sq(q.y - Far(q.y, b2.y)) + Sq(q.z - Far(q.z, b2.z))
  {
    assert Sq(q.x - Far(q.x, b2.x)) == Sq(Far(q.x, b2.x) - q.x);
    assert Sq(q.y - Far(q.y, b2.y)) == Sq(Far(q.y, b2.y) - q.y);
    assert Sq(q.z - Far(q.z, b2.z)) == Sq(Far(q.z, b2.z) - q.z);
  }

  /** No vertex of b1 is at a smaller furthest distance from b2 than the
      min-max bound. */
  lemma BoxBoxMinMaxBelowVertex(b1: Box, b2: Box, n: nat)
    requires WellFormed(b2) && n < 8
    ensures EuclideanBoxBoxMinMaxSq(b1, b2) <= EuclideanPointBoxMaxSq(Vertices(b1)[n], b2)
  {
    var i: Bit, j: Bit, k: Bit := n / 4, n / 2 % 2, n % 2;
    assert n == 4 * i + 2 * j + k;
    VertexAt(b1, i, j, k);
    var v := Vertices(b1)[n];
    AxisMinMaxAtEnds(b1.x, b2.x, i);
    AxisMinMaxAtEnds(b1.y, b2.y, j);
    AxisMinMaxAtEnds(b1.z, b2.z, k);
    PointBoxMaxSqAxes(v, b2);
  }

  /** The vertex of b1 that takes BestEnd on every axis attains the min-max
      bound. */
  lemma BoxBoxMinMaxAtBestVertex(b1: Box, b2: Box)
    requires WellFormed(b2)
    ensures var n := 4 * (BestEnd(b1.x, b2.x) as nat) + 2 * (BestEnd(b1.y, b2.y) as nat) + BestEnd(b1.z, b2.z) as nat;
            n < 8 && EuclideanBoxBoxMinMaxSq(b1, b2) == EuclideanPointBoxMaxSq(Vertices(b1)[n], b2)
  {
    var i, j, k := BestEnd(b1.x, b2.x), BestEnd(b1.y, b2.y), BestEnd(b1.z, b2.z);
    AxisMinMaxAtEnds(b1.x, b2.x, i);
    AxisMinMaxAtEnds(b1.y, b2.y, j);
    AxisMinMaxAtEnds(b1.z, b2.z, k);
    VertexAt(b1, i, j, k);
    PointBoxMaxSqAxes(Vertices(b1)[4 * (i as nat) + 2 * (j as nat) + k as nat], b2);
  }

  /** The min-max bound is the least, over the eight vertices q of b1, of the
      furthest distance from q to b2: no vertex does better and one attains it. */
  lemma BoxBoxMinMaxAtVertices(b1: Box, b2: Box)
    requires WellFormed(b2)
    ensures forall n :: 0 <= n < 8 ==>
      EuclideanBoxBoxMinMaxSq(b1, b2) <= EuclideanPointBoxMaxSq(Vertices(b1)[n], b2)
    ensures exists n :: (0 <= n < 8 &&
      EuclideanBoxBoxMinMaxSq(b1, b2) == EuclideanPointBoxMaxSq(Vertices(b1)[n], b2))
  {
    forall n | 0 <= n < 8
      ensures EuclideanBoxBoxMinMaxSq(b1, b2) <= EuclideanPointBoxMaxSq(Vertices(b1)[n], b2)
    {
      BoxBoxMinMaxBelowVertex(b1, b2, n);
    }
    BoxBoxMinMaxAtBestVertex(b1, b2);
  }

  /** b1 = [0,1]^3 and b2 = [2,3] x [0,1] x [0,1] are at distance 1 and at
      maximum distance sqrt(11). */
  lemma BoxBoxExample()
    ensures var b1 := Box(Interval(0.0, 1.0), Interval(0.0, 1.0), Interval(0.0, 1.0));
            var b2 := Box(Interval(2.0, 3.0), Interval(0.0, 1.0), Interval(0.0, 1.0));
            EuclideanBoxBoxSq(b1, b2) == 1.0 && EuclideanBoxBoxMaxSq(b1, b2) == 11.0
  {
  }

  // ------------------------------------------- min-max over the whole of b1

  /** The centre of a box. */
  function Centre(b: Box): (c: Point)
    ensures WellFormed(b) ==> InClosedBox(c, b)
  {
    Point(Mid(b.x), Mid(b.y), Mid(b.z))
  }

  /** Per axis: the clamp of i2's midpoint into i1 has the least worst case
      of all points of i1. */
  lemma AxisExactMinimum(i1: Interval, i2: Interval, c: real)
    requires Ordered(i2) && i1.lo <= c <= i1.hi
    ensures Sq(Clamp(Mid(i2), i1) - Far(Clamp(Mid(i2), i1), i2)) <= Sq(c - Far(c, i2))
  {
    var m := Clamp(Mid(i2), i1);
    FarIsWorst(m, i2);
    FarIsWorst(c, i2);
    SqMono(Worst(m, i2), Worst(c, i2));
  }

  /** From the point of b1 nearest to b2's centre, the furthest point of b2 is
      no further than from any other point of closed b1. */
  lemma CentreNearestIsBest(b1: Box, b2: Box, q: Point)
    requires WellFormed(b2) && InClosedBox(q, b1)
    ensures EuclideanPointBoxMaxSq(NearestPointInBox(Centre(b2), b1), b2) <= EuclideanPointBoxMaxSq(q, b2)
  {
    AxisExactMinimum(b1.x, b2.x, q.x);
    AxisExactMinimum(b1.y, b2.y, q.y);
    AxisExactMinimum(b1.z, b2.z, q.z);
  }

  lemma CentreNearestBelowAll(b1: Box, b2: Box)
    ensures WellFormed(b2) ==> forall q :: InClosedBox(q, b1) ==>
      EuclideanPointBoxMaxSq(NearestPointInBox(Centre(b2), b1), b2) <= EuclideanPointBoxMaxSq(q, b2)
  {
    if WellFormed(b2) {
      forall q | InClosedBox(q, b1)
        ensures EuclideanPointBoxMaxSq(NearestPointInBox(Centre(b2), b1), b2) <= EuclideanPointBoxMaxSq(q, b2)
      {
        CentreNearestIsBest(b1, b2, q);
      }
    }
  }

  /** The minimum over every point q of b1 of the furthest distance from q to
      b2, which the bound's own description promises. It is taken at the
      point of b1 nearest to b2's centre, and is a lower bound for the furthest
      distance to b2 from every point of closed b1. */
  function EuclideanBoxBoxMinMaxExactSq(b1: Box, b2: Box): (d: real)
    ensures d >= 0.0
    ensures WellFormed(b2) ==> forall q :: InClosedBox(q, b1) ==> d <= EuclideanPointBoxMaxSq(q, b2)
  {
    CentreNearestBelowAll(b1, b2);
    EuclideanPointBoxMaxSq(NearestPointInBox(Centre(b2), b1), b2)
  }

  /** For well-formed boxes the exact min-max is the minimum over closed b1 of
      the furthest distance to b2: no point does better and one attains it. */
  lemma BoxBoxMinMaxExactIsMinimum(b1: Box, b2: Box)
    requires WellFormed(b1) && WellFormed(b2)
    ensures forall q :: InClosedBox(q, b1) ==>
      EuclideanBoxBoxMinMaxExactSq(b1, b2) <= EuclideanPointBoxMaxSq(q, b2)
    ensures exists q :: (InClosedBox(q, b1) &&
      EuclideanPointBoxMaxSq(q, b2) == EuclideanBoxBoxMinMaxExactSq(b1, b2))
  {
    var q := NearestPointInBox(Centre(b2), b1);
    assert InClosedBox(q, b1) && EuclideanPointBoxMaxSq(q, b2) == EuclideanBoxBoxMinMaxExactSq(b1, b2);
  }

  /** The exact minimum never exceeds the bound as written. */
  lemma BoxBoxMinMaxExactBelow(b1: Box, b2: Box)
    requires WellFormed(b1) && WellFormed(b2)
    ensures EuclideanBoxBoxMinMaxExactSq(b1, b2) <= EuclideanBoxBoxMinMaxSq(b1, b2)
  {
    BoxBoxMinMaxAtVertices(b1, b2);
    var n :| 0 <= n < 8 && EuclideanBoxBoxMinMaxSq(b1, b2) == EuclideanPointBoxMaxSq(Vertices(b1)[n], b2);
    VerticesInBox(b1);
    assert InClosedBox(Vertices(b1)[n], b1);
  }

  /** When b1 straddles b2's midpoint the bound as written overshoots the
      minimum its description promises: for b1 = [0,10]^3 and b2 = [4,6]^3 it
      is 108 (squared), while from the point (5,5,5) of b1 every point of b2
      is within squared distance 3. */
  lemma BoxBoxMinMaxOvershoots()
    ensures var b1 := Box(Interval(0.0, 10.0), Interval(0.0, 10.0), Interval(0.0, 10.0));
            var b2 := Box(Interval(4.0, 6.0), Interval(4.0, 6.0), Interval(4.0, 6.0));
            && EuclideanBoxBoxMinMaxSq(b1, b2) == 108.0
            && InClosedBox(Point(5.0, 5.0, 5.0), b1)
            && EuclideanPointBoxMaxSq(Point(5.0, 5.0, 5.0), b2) == 3.0
            && EuclideanBoxBoxMinMaxExactSq(b1, b2) == 3.0
  {
  }

}
