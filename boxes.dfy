/** Points, intervals and axis-aligned boxes in three dimensions, and the
    box algebra over them: half-open membership, closed containment,
    disjointness and union. */
module Boxes {

  /** A point (x, y, z). */
  datatype Point = Point(x: real, y: real, z: real)

  /** One axis of a box: the pair (min, max). */
  datatype Interval = Interval(lo: real, hi: real)

  /** A box: one interval per axis. */
  datatype Box = Box(x: Interval, y: Interval, z: Interval)

  predicate Ordered(i: Interval) { i.lo <= i.hi }

  /** min <= max on every axis. */
  predicate WellFormed(b: Box) { Ordered(b.x) && Ordered(b.y) && Ordered(b.z) }

  /** min < max on every axis: the half-open region is not empty. */
  predicate Thick(b: Box) { b.x.lo < b.x.hi && b.y.lo < b.y.hi && b.z.lo < b.z.hi }

  /** A point of the closed region [min, max] on every axis. */
  predicate InClosedBox(p: Point, b: Box)
  {
    b.x.lo <= p.x <= b.x.hi && b.y.lo <= p.y <= b.y.hi && b.z.lo <= p.z <= b.z.hi
  }

  /** Membership is half-open on every axis: min <= c < max. A member is a
      point of the closed box, and only a box of positive width has one. */
  predicate PointInBox(p: Point, b: Box)
    ensures PointInBox(p, b) ==> InClosedBox(p, b) && Thick(b)
  {
    b.x.lo <= p.x < b.x.hi && b.y.lo <= p.y < b.y.hi && b.z.lo <= p.z < b.z.hi
  }

  /** Is all of b1 in b2?  Closed comparison on every axis; when it holds,
      every point of closed b1 is a point of closed b2. */
  predicate BoxContains(b1: Box, b2: Box)
    ensures BoxContains(b1, b2) ==> forall p :: InClosedBox(p, b1) ==> InClosedBox(p, b2)
  {
    b2.x.lo <= b1.x.lo && b1.x.hi <= b2.x.hi &&
    b2.y.lo <= b1.y.lo && b1.y.hi <= b2.y.hi &&
    b2.z.lo <= b1.z.lo && b1.z.hi <= b2.z.hi
  }

  /** Containment is reflexive and transitive. */
  lemma BoxContainsPreorder(a: Box, b: Box, c: Box)
    ensures BoxContains(a, a)
    ensures BoxContains(a, b) && BoxContains(b, c) ==> BoxContains(a, c)
  {
  }

  /** For a well-formed b1, containment is inclusion of the closed regions. */
  lemma BoxContainsMeaning(b1: Box, b2: Box)
    requires WellFormed(b1)
    ensures BoxContains(b1, b2) <==> forall p :: InClosedBox(p, b1) ==> InClosedBox(p, b2)
  {
    if forall p :: InClosedBox(p, b1) ==> InClosedBox(p, b2) {
      assert InClosedBox(Point(b1.x.lo, b1.y.lo, b1.z.lo), b1);
      assert InClosedBox(Point(b1.x.hi, b1.y.hi, b1.z.hi), b1);
    }
  }

  /** The disjointness test as the source writes it: on each axis it asks
      whether max2 <= min1 or whether max1 <= min1, the second comparing b1
      with itself. Whenever it says disjoint, no point lies in both boxes
      under half-open membership. */
  predicate BoxesDisjoint(b1: Box, b2: Box)
    ensures BoxesDisjoint(b1, b2) ==> forall p :: !(PointInBox(p, b1) && PointInBox(p, b2))
  {
    b2.x.hi <= b1.x.lo || b1.x.hi <= b1.x.lo ||
    b2.y.hi <= b1.y.lo || b1.y.hi <= b1.y.lo ||
    b2.z.hi <= b1.z.lo || b1.z.hi <= b1.z.lo
  }

  /** As written, a box is disjoint from itself exactly when it is flat on
      some axis. */
  lemma BoxesDisjointSelf(b: Box)
    ensures BoxesDisjoint(b, b) <==> !Thick(b)
  {
  }

  /** As written the test misses a box lying wholly below the other, and so
      depends on the order of its arguments. */
  lemma BoxesDisjointMissesSeparation()
    ensures var b1 := Box(Interval(0.0, 1.0), Interval(0.0, 1.0), Interval(0.0, 1.0));
            var b2 := Box(Interval(2.0, 3.0), Interval(0.0, 1.0), Interval(0.0, 1.0));
            && !BoxesDisjoint(b1, b2)
            && BoxesDisjoint(b2, b1)
            && BoxesSeparated(b1, b2)
            && forall p :: !(PointInBox(p, b1) && PointInBox(p, b2))
  {
  }

  /** The separating-axis test the source evidently intends: on some axis one
      interval ends where or before the other begins. Whenever it holds, no
      point lies in both boxes under half-open membership. */
  predicate BoxesSeparated(b1: Box, b2: Box)
    ensures BoxesSeparated(b1, b2) ==> forall p :: !(PointInBox(p, b1) && PointInBox(p, b2))
  {
    b2.x.hi <= b1.x.lo || b1.x.hi <= b2.x.lo ||
    b2.y.hi <= b1.y.lo || b1.y.hi <= b2.y.lo ||
    b2.z.hi <= b1.z.lo || b1.z.hi <= b2.z.lo
  }

  /** For boxes that are not flat, the separating-axis test holds exactly
      when no point lies in both boxes; it is symmetric in the boxes. */
  lemma BoxesSeparatedIff(b1: Box, b2: Box)
    requires Thick(b1) && Thick(b2)
    ensures BoxesSeparated(b1, b2) <==> forall p :: !(PointInBox(p, b1) && PointInBox(p, b2))
    ensures BoxesSeparated(b1, b2) == BoxesSeparated(b2, b1)
  {
    if !BoxesSeparated(b1, b2) {
      var w := Point(Max(b1.x.lo, b2.x.lo), Max(b1.y.lo, b2.y.lo), Max(b1.z.lo, b2.z.lo));
      assert PointInBox(w, b1) && PointInBox(w, b2);
    }
  }

  function Min(a: real, b: real): (m: real) { if a <= b then a else b }

  function Max(a: real, b: real): (m: real) { if a >= b then a else b }

  /** The smallest box containing b1 and b2: per axis the least min and the
      greatest max. */
  function UnionBox(b1: Box, b2: Box): (u: Box)
    ensures BoxContains(b1, u) && BoxContains(b2, u)
    ensures WellFormed(b1) ==> WellFormed(u)
  {
    Box(Interval(Min(b1.x.lo, b2.x.lo), Max(b1.x.hi, b2.x.hi)),
        Interval(Min(b1.y.lo, b2.y.lo), Max(b1.y.hi, b2.y.hi)),
        Interval(Min(b1.z.lo, b2.z.lo), Max(b1.z.hi, b2.z.hi)))
  }

  /** The union is the least box containing both: any box containing b1 and
      b2 contains their union; and it is symmetric. */
  lemma UnionBoxLeast(b1: Box, b2: Box, c: Box)
    requires BoxContains(b1, c) && BoxContains(b2, c)
    ensures BoxContains(UnionBox(b1, b2), c)
    ensures UnionBox(b1, b2) == UnionBox(b2, b1)
  {
  }

}
