/** Bound transforms: the bounding box of a point map applied to a box's
    vertices, and the action of a 3x3 matrix on a point. */
module Deform {

  import opened Boxes
  import opened Octree

  /** The least element of a non-empty sequence, scanning left to right and
      replacing the running minimum only by a strictly smaller element. */
  function MinOf(s: seq<real>): (m: real)
    requires |s| > 0
    ensures m in s
    ensures forall i :: 0 <= i < |s| ==> m <= s[i]
  {
    if |s| == 1 then s[0]
    else
      var m := MinOf(s[..|s| - 1]);
      if s[|s| - 1] < m then s[|s| - 1] else m
  }

  /** The greatest element of a non-empty sequence, scanning left to right. */
  function MaxOf(s: seq<real>): (m: real)
    requires |s| > 0
    ensures m in s
    ensures forall i :: 0 <= i < |s| ==> s[i] <= m
  {
    if |s| == 1 then s[0]
    else
      var m := MaxOf(s[..|s| - 1]);
      if s[|s| - 1] > m then s[|s| - 1] else m
  }

  /** The images of the eight vertices of b under f, in vertex order. */
  function Images(f: Point -> Point, b: Box): (l: seq<Point>)
    ensures |l| == 8
    ensures forall n :: 0 <= n < 8 ==> l[n] == f(Vertices(b)[n])
  {
    var vs := Vertices(b);
    seq(8, n requires 0 <= n < 8 => f(vs[n]))
  }

  function Xs(l: seq<Point>): (r: seq<real>)
    ensures |r| == |l| && forall n :: 0 <= n < |l| ==> r[n] == l[n].x
  {
    seq(|l|, n requires 0 <= n < |l| => l[n].x)
  }

  function Ys(l: seq<Point>): (r: seq<real>)
    ensures |r| == |l| && forall n :: 0 <= n < |l| ==> r[n] == l[n].y
  {
    seq(|l|, n requires 0 <= n < |l| => l[n].y)
  }

  function Zs(l: seq<Point>): (r: seq<real>)
    ensures |r| == |l| && forall n :: 0 <= n < |l| ==> r[n] == l[n].z
  {
    seq(|l|, n requires 0 <= n < |l| => l[n].z)
  }

  /** The box spanned by f applied to the vertices of b: well-formed, holding
      every image of a vertex, with every face touched by some image. */
  function ConvexBoxDeform(f: Point -> Point, b: Box): (r: Box)
    ensures WellFormed(r)
    ensures forall n :: 0 <= n < 8 ==> InClosedBox(f(Vertices(b)[n]), r)
    ensures exists n :: 0 <= n < 8 && f(Vertices(b)[n]).x == r.x.lo
    ensures exists n :: 0 <= n < 8 && f(Vertices(b)[n]).x == r.x.hi
    ensures exists n :: 0 <= n < 8 && f(Vertices(b)[n]).y == r.y.lo
    ensures exists n :: 0 <= n < 8 && f(Vertices(b)[n]).y == r.y.hi
    ensures exists n :: 0 <= n < 8 && f(Vertices(b)[n]).z == r.z.lo
    ensures exists n :: 0 <= n < 8 && f(Vertices(b)[n]).z == r.z.hi
  {
    var l := Images(f, b);
    Box(Interval(MinOf(Xs(l)), MaxOf(Xs(l))),
        Interval(MinOf(Ys(l)), MaxOf(Ys(l))),
        Interval(MinOf(Zs(l)), MaxOf(Zs(l))))
  }

  /** The deformed box is the smallest box holding the images of the
      vertices: every box that holds them contains it. */
  lemma ConvexBoxDeformTightest(f: Point -> Point, b: Box, c: Box)
    requires forall n :: 0 <= n < 8 ==> InClosedBox(f(Vertices(b)[n]), c)
    ensures BoxContains(ConvexBoxDeform(f, b), c)
  {
    var r := ConvexBoxDeform(f, b);
    var nx :| 0 <= nx < 8 && f(Vertices(b)[nx]).x == r.x.lo;
    var mx :| 0 <= mx < 8 && f(Vertices(b)[mx]).x == r.x.hi;
    var ny :| 0 <= ny < 8 && f(Vertices(b)[ny]).y == r.y.lo;
    var my :| 0 <= my < 8 && f(Vertices(b)[my]).y == r.y.hi;
    var nz :| 0 <= nz < 8 && f(Vertices(b)[nz]).z == r.z.lo;
    var mz :| 0 <= mz < 8 && f(Vertices(b)[mz]).z == r.z.hi;
    assert InClosedBox(f(Vertices(b)[nx]), c) && InClosedBox(f(Vertices(b)[mx]), c);
    assert InClosedBox(f(Vertices(b)[ny]), c) && InClosedBox(f(Vertices(b)[my]), c);
    assert InClosedBox(f(Vertices(b)[nz]), c) && InClosedBox(f(Vertices(b)[mz]), c);
  }

  /** Under the identity map a well-formed box is its own deformation. */
  lemma ConvexBoxDeformIdentity(b: Box)
    requires WellFormed(b)
    ensures ConvexBoxDeform(p => p, b) == b
  {
    var r := ConvexBoxDeform(p => p, b);
    VerticesInBox(b);
    ConvexBoxDeformTightest(p => p, b, b);
    assert Vertices(b)[0] == Point(b.x.lo, b.y.lo, b.z.lo);
    assert Vertices(b)[7] == Point(b.x.hi, b.y.hi, b.z.hi);
  }

  /** A 3x3 matrix, row by row. */
  datatype Matrix = Matrix(r0: Point, r1: Point, r2: Point)

  /** The dot product of a matrix row with a point. */
  function Dot(row: Point, p: Point): (d: real)
  {
    row.x * p.x + row.y * p.y + row.z * p.z
  }

  /** The matrix with rows and columns exchanged: its rows are m's columns. */
  function Transpose(m: Matrix): (t: Matrix)
  {
    Matrix(Point(m.r0.x, m.r1.x, m.r2.x), Point(m.r0.y, m.r1.y, m.r2.y), Point(m.r0.z, m.r1.z, m.r2.z))
  }

  /** The matrix-vector product: coordinate i is row i dotted with p. Read by
      columns, it is the combination of m's columns weighted by p's
      coordinates. */
  function MatrixAction(m: Matrix, p: Point): (q: Point)
    ensures q == Add(Add(Scale(p.x, Transpose(m).r0), Scale(p.y, Transpose(m).r1)), Scale(p.z, Transpose(m).r2))
  {
    Point(Dot(m.r0, p), Dot(m.r1, p), Dot(m.r2, p))
  }

  function Add(p: Point, q: Point): (r: Point) { Point(p.x + q.x, p.y + q.y, p.z + q.z) }

  function Scale(a: real, p: Point): (r: Point) { Point(a * p.x, a * p.y, a * p.z) }

  /** The matrix action is linear: it preserves sums and scalings. */
  lemma MatrixActionLinear(m: Matrix, p: Point, q: Point, a: real)
    ensures MatrixAction(m, Add(p, q)) == Add(MatrixAction(m, p), MatrixAction(m, q))
    ensures MatrixAction(m, Scale(a, p)) == Scale(a, MatrixAction(m, p))
  {
    DotAdd(m.r0, p, q); DotAdd(m.r1, p, q); DotAdd(m.r2, p, q);
    DotScale(m.r0, p, a); DotScale(m.r1, p, a); DotScale(m.r2, p, a);
  }

  lemma DotAdd(row: Point, p: Point, q: Point)
    ensures Dot(row, Add(p, q)) == Dot(row, p) + Dot(row, q)
  {
    assert row.x * (p.x + q.x) == row.x * p.x + row.x * q.x;
    assert row.y * (p.y + q.y) == row.y * p.y + row.y * q.y;
    assert row.z * (p.z + q.z) == row.z * p.z + row.z * q.z;
  }

  lemma DotScale(row: Point, p: Point, a: real)
    ensures Dot(row, Scale(a, p)) == a * Dot(row, p)
  {
    assert row.x * (a * p.x) == a * (row.x * p.x);
    assert row.y * (a * p.y) == a * (row.y * p.y);
    assert row.z * (a * p.z) == a * (row.z * p.z);
  }

  lemma MulMono(a: real, b: real, c: real)
    requires b <= c
    ensures a >= 0.0 ==> a * b <= a * c
    ensures a < 0.0 ==> a * c <= a * b
  {
    if a >= 0.0 {
      assert a * c - a * b == a * (c - b);
    } else {
      assert a * b - a * c == (-a) * (c - b);
    }
  }

  /** The end (0 for min, 1 for max) of any interval at which w * c is least
      over that interval: min for a non-negative weight, max for a negative one. */
  function LowEnd(w: real): (k: Bit) { if w >= 0.0 then 0 else 1 }

  /** The end (0 for min, 1 for max) of any interval at which w * c is
      greatest over that interval. */
  function HighEnd(w: real): (k: Bit) { if w >= 0.0 then 1 else 0 }

  /** Over one interval, a term w * c is bounded by its values at the ends. */
  lemma TermAtEnds(w: real, i: Interval, c: real)
    requires i.lo <= c <= i.hi
    ensures w * End(i, LowEnd(w)) <= w * c <= w * End(i, HighEnd(w))
  {
    MulMono(w, i.lo, c);
    MulMono(w, c, i.hi);
  }

  /** The index, in vertex order, of the vertex of any box at which the row's
      dot product is least (high = false) or greatest (high = true). */
  function ExtremeVertex(row: Point, high: bool): (n: nat)
    ensures n < 8
  {
    if high then 4 * HighEnd(row.x) + 2 * HighEnd(row.y) + HighEnd(row.z)
    else 4 * LowEnd(row.x) + 2 * LowEnd(row.y) + LowEnd(row.z)
  }

  /** Dot products are ordered when every term is. */
  lemma DotMono(row: Point, u: Point, q: Point)
    requires row.x * u.x <= row.x * q.x
    requires row.y * u.y <= row.y * q.y
    requires row.z * u.z <= row.z * q.z
    ensures Dot(row, u) <= Dot(row, q)
  {
  }

  /** A row dotted with a point of the closed box is at least its value at
      the low extreme vertex. */
  lemma DotAboveVertex(row: Point, b: Box, q: Point)
    requires InClosedBox(q, b)
    ensures Dot(row, Vertices(b)[ExtremeVertex(row, false)]) <= Dot(row, q)
  {
    var i, j, k := LowEnd(row.x), LowEnd(row.y), LowEnd(row.z);
    TermAtEnds(row.x, b.x, q.x);
    TermAtEnds(row.y, b.y, q.y);
    TermAtEnds(row.z, b.z, q.z);
    VertexAt(b, i, j, k);
    var u := Vertices(b)[ExtremeVertex(row, false)];
    assert u == Point(End(b.x, i), End(b.y, j), End(b.z, k));
    DotMono(row, u, q);
  }

  /** A row dotted with a point of the closed box is at most its value at
      the high extreme vertex. */
  lemma DotBelowVertex(row: Point, b: Box, q: Point)
    requires InClosedBox(q, b)
    ensures Dot(row, q) <= Dot(row, Vertices(b)[ExtremeVertex(row, true)])
  {
    var i, j, k := HighEnd(row.x), HighEnd(row.y), HighEnd(row.z);
    TermAtEnds(row.x, b.x, q.x);
    TermAtEnds(row.y, b.y, q.y);
    TermAtEnds(row.z, b.z, q.z);
    VertexAt(b, i, j, k);
    var w := Vertices(b)[ExtremeVertex(row, true)];
    assert w == Point(End(b.x, i), End(b.y, j), End(b.z, k));
    DotMono(row, q, w);
  }

  /** For a linear map the deformed box is a true bound: it holds the image of
      every point of the closed box, not only of its vertices. */
  lemma ConvexBoxDeformLinear(m: Matrix, b: Box, q: Point)
    requires InClosedBox(q, b)
    ensures InClosedBox(MatrixAction(m, q), ConvexBoxDeform(p => MatrixAction(m, p), b))
  {
    DotAboveVertex(m.r0, b, q); DotBelowVertex(m.r0, b, q);
    DotAboveVertex(m.r1, b, q); DotBelowVertex(m.r1, b, q);
    DotAboveVertex(m.r2, b, q); DotBelowVertex(m.r2, b, q);
  }

}
