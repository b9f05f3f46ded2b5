/** Octree decomposition of a box: its eight vertices, its eight octant
    sub-boxes, and the octant a point falls into. */
module Octree {

  import opened Boxes

  /** One bit of an octant index: 0 for the low half or end of an axis,
      1 for the high one. */
  type Bit = n: nat | n < 2

  /** The end of interval i chosen by bit k. */
  function End(i: Interval, k: Bit): (c: real) { if k == 0 then i.lo else i.hi }

  /** The eight corners of b, z varying fastest, then y, then x: corner n
      takes end n / 4 of x, end (n / 2) % 2 of y and end n % 2 of z. */
  function Vertices(b: Box): (vs: seq<Point>)
    ensures |vs| == 8
    ensures forall n :: 0 <= n < 8 ==> vs[n] == Point(End(b.x, n / 4), End(b.y, n / 2 % 2), End(b.z, n % 2))
  {
    [Point(b.x.lo, b.y.lo, b.z.lo), Point(b.x.lo, b.y.lo, b.z.hi),
     Point(b.x.lo, b.y.hi, b.z.lo), Point(b.x.lo, b.y.hi, b.z.hi),
     Point(b.x.hi, b.y.lo, b.z.lo), Point(b.x.hi, b.y.lo, b.z.hi),
     Point(b.x.hi, b.y.hi, b.z.lo), Point(b.x.hi, b.y.hi, b.z.hi)]
  }

  /** Corner 4i + 2j + k is (xs[i], ys[j], zs[k]). */
  lemma VertexAt(b: Box, i: Bit, j: Bit, k: Bit)
    ensures 4 * i + 2 * j + k < 8
    ensures Vertices(b)[4 * i + 2 * j + k] == Point(End(b.x, i), End(b.y, j), End(b.z, k))
  {
    var n := 4 * i + 2 * j + k;
    assert n / 4 == i && n / 2 % 2 == j && n % 2 == k;
  }

  /** The corners of a well-formed box lie in its closed region. */
  lemma VerticesInBox(b: Box)
    requires WellFormed(b)
    ensures forall n :: 0 <= n < 8 ==> InClosedBox(Vertices(b)[n], b)
  {
  }

  /** The midpoint of an axis: equally far from both ends, and inside an
      ordered interval. */
  function Mid(i: Interval): (m: real)
    ensures m - i.lo == i.hi - m
    ensures Ordered(i) ==> i.lo <= m <= i.hi
  {
    (i.hi + i.lo) / 2.0
  }

  /** The half of interval i chosen by bit k: [min, mid] or [mid, max]. It
      has half the width of i, keeps the end k selects, and lies within i
      when i is ordered. */
  function Half(i: Interval, k: Bit): (h: Interval)
    ensures h.hi - h.lo == (i.hi - i.lo) / 2.0
    ensures End(h, k) == End(i, k)
    ensures Ordered(i) ==> Ordered(h) && i.lo <= h.lo && h.hi <= i.hi
  {
    if k == 0 then Interval(i.lo, Mid(i)) else Interval(Mid(i), i.hi)
  }

  /** The eight octants of b, in the same order as its vertices. */
  function Subboxes(b: Box): (bs: seq<Box>)
    ensures |bs| == 8
    ensures forall n :: 0 <= n < 8 ==> bs[n] == Box(Half(b.x, n / 4), Half(b.y, n / 2 % 2), Half(b.z, n % 2))
  {
    var x0, x1 := Interval(b.x.lo, Mid(b.x)), Interval(Mid(b.x), b.x.hi);
    var y0, y1 := Interval(b.y.lo, Mid(b.y)), Interval(Mid(b.y), b.y.hi);
    var z0, z1 := Interval(b.z.lo, Mid(b.z)), Interval(Mid(b.z), b.z.hi);
    [Box(x0, y0, z0), Box(x0, y0, z1), Box(x0, y1, z0), Box(x0, y1, z1),
     Box(x1, y0, z0), Box(x1, y0, z1), Box(x1, y1, z0), Box(x1, y1, z1)]
  }

  /** Octant 4i + 2j + k is the product of half i of x, half j of y and
      half k of z. */
  lemma SubboxAt(b: Box, i: Bit, j: Bit, k: Bit)
    ensures 4 * i + 2 * j + k < 8
    ensures Subboxes(b)[4 * i + 2 * j + k] == Box(Half(b.x, i), Half(b.y, j), Half(b.z, k))
  {
    var n := 4 * i + 2 * j + k;
    assert n / 4 == i && n / 2 % 2 == j && n % 2 == k;
  }

  /** Each octant of a well-formed box is a well-formed box contained in it,
      and octant n holds corner n of the box: the two share their order. */
  lemma SubboxesInBox(b: Box)
    requires WellFormed(b)
    ensures forall n :: 0 <= n < 8 ==>
      WellFormed(Subboxes(b)[n]) && BoxContains(Subboxes(b)[n], b) &&
      InClosedBox(Vertices(b)[n], Subboxes(b)[n])
  {
  }

  /** Half-open membership in an octant implies membership in the box. */
  lemma SubboxPointInBox(b: Box, p: Point, n: nat)
    requires n < 8 && PointInBox(p, Subboxes(b)[n])
    ensures PointInBox(p, b)
  {
  }

  /** An octant index (r, s, t): one bit per axis. */
  datatype Octant = Octant(r: Bit, s: Bit, t: Bit)

  /** Position of an octant in the order of Subboxes and Vertices. */
  function Index(o: Octant): (n: nat)
    ensures n < 8
  {
    4 * o.r + 2 * o.s + o.t
  }

  /** One axis of narrowing: the low half when v is below the midpoint,
      the high half otherwise (so a tie goes high). A coordinate in the
      half-open interval stays in the half-open half. */
  function NarrowAxis(i: Interval, v: real): (res: (Bit, Interval))
    ensures res.0 == 1 <==> v >= Mid(i)
    ensures res.1 == Half(i, res.0)
    ensures i.lo <= v < i.hi ==> res.1.lo <= v < res.1.hi
  {
    if v < Mid(i) then (0, Interval(i.lo, Mid(i))) else (1, Interval(Mid(i), i.hi))
  }

  /** Narrows b to the octant holding p: bit 1 on an axis exactly when the
      coordinate is at or above the midpoint, and the box returned is the
      octant at that index. */
  function Narrow(b: Box, p: Point): (res: (Octant, Box))
    ensures res.0.r == 1 <==> p.x >= Mid(b.x)
    ensures res.0.s == 1 <==> p.y >= Mid(b.y)
    ensures res.0.t == 1 <==> p.z >= Mid(b.z)
    ensures res.1 == Subboxes(b)[Index(res.0)]
  {
    var (r, nx) := NarrowAxis(b.x, p.x);
    var (s, ny) := NarrowAxis(b.y, p.y);
    var (t, nz) := NarrowAxis(b.z, p.z);
    SubboxAt(b, r, s, t);
    (Octant(r, s, t), Box(nx, ny, nz))
  }

  /** A coordinate in the half-open half k of an interval is at or above the
      midpoint exactly when k is 1. */
  lemma HalfDecides(i: Interval, v: real, k: Bit)
    requires Half(i, k).lo <= v < Half(i, k).hi
    ensures k == 1 <==> v >= Mid(i)
  {
  }

  /** A point of b stays in the octant it is narrowed to. */
  lemma NarrowKeepsPoint(b: Box, p: Point)
    requires PointInBox(p, b)
    ensures PointInBox(p, Narrow(b, p).1)
  {
  }

  /** The octant chosen by Narrow is the only one holding p: the octants
      partition b under half-open membership. */
  lemma NarrowUnique(b: Box, p: Point, n: nat)
    requires n < 8 && PointInBox(p, Subboxes(b)[n])
    ensures n == Index(Narrow(b, p).0)
  {
    var i: Bit, j: Bit, k: Bit := n / 4, n / 2 % 2, n % 2;
    assert n == 4 * i + 2 * j + k;
    SubboxAt(b, i, j, k);
    HalfDecides(b.x, p.x, i);
    HalfDecides(b.y, p.y, j);
    HalfDecides(b.z, p.z, k);
  }

  /** No point lies in two different octants. */
  lemma SubboxesDisjoint(b: Box, p: Point, n: nat, m: nat)
    requires n < 8 && m < 8
    requires PointInBox(p, Subboxes(b)[n]) && PointInBox(p, Subboxes(b)[m])
    ensures n == m
  {
    NarrowUnique(b, p, n);
    NarrowUnique(b, p, m);
  }

}
