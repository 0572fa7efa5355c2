/** The triangle measurements: the foot of the height dropped from a vertex, the
    height itself, the three base/height decompositions of a triangle, and the
    list of distinct vertices read off the walls. */
module Triangle {
  import opened Types
  import opened Geometry

  /** footOfPerpendicular(base, p): the orthogonal projection of p onto the line
      through the base. When the base has length zero, dx * dx + dy * dy is 0
      and the first endpoint is returned. */
  function FootOfPerpendicular(base: Segment, p: Point): (r: Point)
    ensures base.p1 == base.p2 ==> r == base.p1
  {
    var d := Direction(base);
    var denom := SquaredLength(base);
    if denom == 0.0 then base.p1
    else
      var t := DotProduct(Sub(p, base.p1), d) / denom;
      Point(base.p1.x + t * d.x, base.p1.y + t * d.y)
  }

  /** For a base of non-zero length the foot lies on the base line, and the
      vector from the foot to p is orthogonal to the base. */
  lemma FootIsProjection(base: Segment, p: Point)
    requires base.p1 != base.p2
    ensures Cross(Sub(FootOfPerpendicular(base, p), base.p1), Direction(base)) == 0.0
    ensures DotProduct(Sub(p, FootOfPerpendicular(base, p)), Direction(base)) == 0.0
  {
    var d, q := Direction(base), SquaredLength(base);
    var k := DotProduct(Sub(p, base.p1), d);
    var t := k / q;
    var foot := FootOfPerpendicular(base, p);
    assert Sub(foot, base.p1) == Point(t * d.x, t * d.y);
    Collinear(t, d.x, d.y);
    var u := Sub(p, base.p1);
    assert Sub(p, foot) == Point(u.x - t * d.x, u.y - t * d.y);
    Residual(u.x, u.y, d.x, d.y, t, q);
  }

  lemma Collinear(t: real, a: real, b: real)
    ensures (t * a) * b - (t * b) * a == 0.0
  {
  }

  /** With q = a^2 + b^2 > 0 and t = (ux a + uy b) / q, the vector u - t (a, b)
      is orthogonal to (a, b). */
  lemma Residual(ux: real, uy: real, a: real, b: real, t: real, q: real)
    requires q == Sq(a) + Sq(b) && q != 0.0
    requires t == (ux * a + uy * b) / q
    ensures (ux - t * a) * a + (uy - t * b) * b == 0.0
  {
    assert t * q == ux * a + uy * b;
    assert (ux - t * a) * a + (uy - t * b) * b == (ux * a + uy * b) - t * (Sq(a) + Sq(b));
  }

  /** The numerator dy * Px - dx * Py + Bx * Ay - By * Ax of perpendicularDistance,
      before Math.abs. */
  function DistanceNumerator(base: Segment, p: Point): real
  {
    var d := Direction(base);
    d.y * p.x - d.x * p.y + base.p2.x * base.p1.y - base.p2.y * base.p1.x
  }

  /** perpendicularDistance(base, p): |numerator| / Math.hypot(dx, dy). A base of
      length zero gives 0 / 0, which is NaN; otherwise the value is the square root
      of numerator^2 / (dx^2 + dy^2). */
  function PerpendicularDistance(base: Segment, p: Point): (r: Length)
    ensures r.NaN? <==> base.p1 == base.p2
  {
    var q := SquaredLength(base);
    if q == 0.0 then NaN else Sqrt(Sq(DistanceNumerator(base, p)) / q)
  }

  /** The numerator is the cross product of p - A with the direction of the base,
      so it vanishes on a degenerate base: there 0 is divided by 0. */
  lemma NumeratorIsCross(base: Segment, p: Point)
    ensures DistanceNumerator(base, p) == Cross(Sub(p, base.p1), Direction(base))
    ensures base.p1 == base.p2 ==> DistanceNumerator(base, p) == 0.0
  {
  }

  /** The distance perpendicularDistance reports is the length of the segment
      from p to the foot of the perpendicular. */
  lemma {:induction false} DistanceToFoot(base: Segment, p: Point)
    requires base.p1 != base.p2
    ensures PerpendicularDistance(base, p) == VectorLength(Segment(p, FootOfPerpendicular(base, p)))
  {
    var d, q := Direction(base), SquaredLength(base);
    var u := Sub(p, base.p1);
    var t := DotProduct(u, d) / q;
    var foot := FootOfPerpendicular(base, p);
    NumeratorIsCross(base, p);
    assert Direction(Segment(p, foot)) == Point(-(u.x - t * d.x), -(u.y - t * d.y));
    assert SquaredLength(Segment(p, foot)) == Sq(u.x - t * d.x) + Sq(u.y - t * d.y);
    ResidualLength(u.x, u.y, d.x, d.y, t, q);
  }

  /** |u - t d|^2 = cross(u, d)^2 / |d|^2 when t = dot(u, d) / |d|^2. */
  lemma ResidualLength(ux: real, uy: real, a: real, b: real, t: real, q: real)
    requires q == Sq(a) + Sq(b) && q != 0.0
    requires t == (ux * a + uy * b) / q
    ensures Sq(ux - t * a) + Sq(uy - t * b) == Sq(ux * b - uy * a) / q
  {
    var k := ux * a + uy * b;
    var c := ux * b - uy * a;
    var n := ux * ux + uy * uy;
    assert q == a * a + b * b;
    ExpandResidual(ux, uy, a, b, t);
    Lagrange(ux, uy, a, b);
    DivideOut(n, q, k, c, t);
  }

  lemma ExpandResidual(ux: real, uy: real, a: real, b: real, t: real)
    ensures (ux - t * a) * (ux - t * a) + (uy - t * b) * (uy - t * b)
      == (ux * ux + uy * uy) - 2.0 * t * (ux * a + uy * b) + t * t * (a * a + b * b)
  {
  }

  /** Lagrange's identity in the plane: |u|^2 |d|^2 = dot(u, d)^2 + cross(u, d)^2. */
  lemma Lagrange(ux: real, uy: real, a: real, b: real)
    ensures (ux * ux + uy * uy) * (a * a + b * b)
      == (ux * a + uy * b) * (ux * a + uy * b) + (ux * b - uy * a) * (ux * b - uy * a)
  {
  }

  lemma DivideOut(n: real, q: real, k: real, c: real, t: real)
    requires q != 0.0 && t == k / q && n * q == k * k + c * c
    ensures n - 2.0 * t * k + t * t * q == c * c / q
  {
    assert t * q == k;
    assert t * t * q == t * k;
    assert (n - t * k) * q == c * c;
  }

  /** One of the three immediately invoked builders of computeTriangleOptions:
      the base, its length, the height from the opposite vertex and its foot. */
  function Decompose(base: Segment, opp: Point): (r: TriangleOption)
    ensures r.baseSeg == base && r.opp == opp && r.perpSeg.p1 == opp
  {
    var foot := FootOfPerpendicular(base, opp);
    TriangleOption(base, opp, VectorLength(base), Segment(opp, foot), PerpendicularDistance(base, opp))
  }

  /** A decomposition is well formed: the height starts at the opposite vertex,
      ends on the base line, is orthogonal to the base, and its recorded length is
      the length of the height segment; a base of length zero has height NaN. */
  lemma DecomposeWellFormed(base: Segment, opp: Point)
    ensures var o := Decompose(base, opp);
      o.baseSeg == base && o.opp == opp && o.perpSeg.p1 == opp &&
      o.baseLength == VectorLength(base) &&
      (base.p1 == base.p2 ==> o.perpSeg.p2 == base.p1 && o.perpLength.NaN?) &&
      (base.p1 != base.p2 ==>
        Cross(Sub(o.perpSeg.p2, base.p1), Direction(base)) == 0.0 &&
        DotProduct(Direction(o.perpSeg), Direction(base)) == 0.0 &&
        o.perpLength == VectorLength(o.perpSeg))
  {
    if base.p1 != base.p2 {
      var foot := FootOfPerpendicular(base, opp);
      FootIsProjection(base, opp);
      DistanceToFoot(base, opp);
      var v, w := Sub(opp, foot), Direction(Segment(opp, foot));
      assert w == Point(-v.x, -v.y);
      Negated(v, Direction(base));
    }
  }

  lemma Negated(v: Point, d: Point)
    requires DotProduct(v, d) == 0.0
    ensures DotProduct(Point(-v.x, -v.y), d) == 0.0
  {
  }

  /** computeTriangleOptions(points): three decompositions of the triangle formed
      by the first three points, with bases [p0, p1], [p1, p2], [p2, p0] and
      opposite vertices p2, p0, p1. The program reads points[0..2] without a check;
      both callers check for at least three points first. */
  function ComputeTriangleOptions(points: seq<Point>): (r: seq<TriangleOption>)
    requires |points| >= 3
    ensures |r| == 3
    ensures forall k :: 0 <= k < 3 ==>
      r[k].baseSeg == Segment(points[k], points[(k + 1) % 3]) && r[k].opp == points[(k + 2) % 3]
    ensures forall k :: 0 <= k < 3 ==> r[k] == Decompose(r[k].baseSeg, r[k].opp)
  {
    [Decompose(Segment(points[0], points[1]), points[2]),
     Decompose(Segment(points[1], points[2]), points[0]),
     Decompose(Segment(points[2], points[0]), points[1])]
  }

  /** Only the first three points matter. */
  lemma OptionsUseFirstThree(points: seq<Point>)
    requires |points| >= 3
    ensures ComputeTriangleOptions(points) == ComputeTriangleOptions(points[..3])
  {
  }

  /** Twice the signed area of the triangle a, b, c. */
  function TwiceArea(a: Point, b: Point, c: Point): real
  {
    Cross(Sub(b, a), Sub(c, a))
  }

  /** Base^2 times height^2 is the square of the cross product of opp - A with
      the base direction. */
  lemma BaseTimesHeight(base: Segment, opp: Point)
    requires base.p1 != base.p2
    ensures VectorLength(base).square * PerpendicularDistance(base, opp).square
      == Sq(Cross(Sub(opp, base.p1), Direction(base)))
  {
    var q := SquaredLength(base);
    var n := DistanceNumerator(base, opp);
    assert VectorLength(base).square == q;
    assert PerpendicularDistance(base, opp).square == Sq(n) / q;
    NumeratorIsCross(base, opp);
    Cancel2(Sq(n), q);
  }

  lemma Cancel2(m: real, q: real)
    requires q != 0.0
    ensures q * (m / q) == m
  {
  }

  /** Every decomposition with a proper base measures the same triangle: base^2
      times height^2 is the square of twice its area, whichever side is the base. */
  lemma OptionsShareArea(points: seq<Point>, k: nat)
    requires |points| >= 3 && k < 3
    requires var o := ComputeTriangleOptions(points)[k]; o.baseSeg.p1 != o.baseSeg.p2
    ensures var o := ComputeTriangleOptions(points)[k];
      o.baseLength.square * o.perpLength.square == Sq(TwiceArea(points[0], points[1], points[2]))
  {
    var options := ComputeTriangleOptions(points);
    var t := TwiceArea(points[0], points[1], points[2]);
    OptionCross(points, k);
    DecompositionArea(options[k], t);
  }

  /** The cross numerator of every option is minus twice the triangle's area. */
  lemma OptionCross(points: seq<Point>, k: nat)
    requires |points| >= 3 && k < 3
    ensures var o := ComputeTriangleOptions(points)[k];
      Cross(Sub(o.opp, o.baseSeg.p1), Sub(o.baseSeg.p2, o.baseSeg.p1)) == -TwiceArea(points[0], points[1], points[2])
  {
    var a, b, c := points[0], points[1], points[2];
    var o := ComputeTriangleOptions(points)[k];
    CrossCyclic(a, b, c);
    if k == 0 {
      assert o.baseSeg == Segment(a, b) && o.opp == c;
    } else if k == 1 {
      assert o.baseSeg == Segment(b, c) && o.opp == a;
    } else {
      assert o.baseSeg == Segment(c, a) && o.opp == b;
    }
  }

  /** A decomposition whose cross numerator is -t measures base^2 * height^2 == t^2. */
  lemma DecompositionArea(o: TriangleOption, t: real)
    requires o == Decompose(o.baseSeg, o.opp) && o.baseSeg.p1 != o.baseSeg.p2
    requires Cross(Sub(o.opp, o.baseSeg.p1), Sub(o.baseSeg.p2, o.baseSeg.p1)) == -t
    ensures o.baseLength.square * o.perpLength.square == Sq(t)
  {
    var base, opp := o.baseSeg, o.opp;
    var x := Cross(Sub(opp, base.p1), Direction(base));
    assert x == -t by {
      assert Direction(base) == Sub(base.p2, base.p1);
    }
    BaseTimesHeight(base, opp);
    SquareOfNegated(VectorLength(base).square * PerpendicularDistance(base, opp).square, x, t);
  }

  lemma SquareOfNegated(p: real, x: real, t: real)
    requires p == Sq(x) && x == -t
    ensures p == Sq(t)
  {
    SquareOfNegation(t);
  }

  /** Cross(opp - A, B - A) is minus twice the area, for each cyclic labelling. */
  lemma CrossCyclic(a: Point, b: Point, c: Point)
    ensures Cross(Sub(c, a), Sub(b, a)) == -TwiceArea(a, b, c)
    ensures Cross(Sub(a, b), Sub(c, b)) == -TwiceArea(a, b, c)
    ensures Cross(Sub(b, c), Sub(a, c)) == -TwiceArea(a, b, c)
  {
  }

  lemma SquareOfNegation(n: real)
    ensures Sq(-n) == Sq(n)
  {
  }

  /** The points in order of first appearance, each once: the list that
      extractUniquePoints builds from the endpoints. */
  function Dedup(pts: seq<Point>): (r: seq<Point>)
    ensures forall p :: p in r <==> p in pts
    ensures |r| <= |pts|
  {
    if pts == [] then []
    else
      var init := Dedup(pts[..|pts| - 1]);
      if pts[|pts| - 1] in init then init else init + [pts[|pts| - 1]]
  }

  /** No point occurs twice in the deduplicated list. */
  lemma {:induction false} DedupDistinct(pts: seq<Point>)
    ensures forall i, j :: 0 <= i < j < |Dedup(pts)| ==> Dedup(pts)[i] != Dedup(pts)[j]
  {
    if pts != [] {
      DedupDistinct(pts[..|pts| - 1]);
    }
  }

  /** Points are listed in the order they are first met: deduplicating a longer
      list only appends to the result for its prefix. */
  lemma {:induction false} DedupPrefix(a: seq<Point>, b: seq<Point>)
    ensures Dedup(a) <= Dedup(a + b)
  {
    if b != [] {
      var ab := a + b;
      assert ab[..|ab| - 1] == a + b[..|b| - 1];
      DedupPrefix(a, b[..|b| - 1]);
    } else {
      assert a + b == a;
    }
  }

  /** A list without repetitions is its own deduplication. */
  lemma {:induction false} DedupDistinctUnchanged(pts: seq<Point>)
    requires forall i, j :: 0 <= i < j < |pts| ==> pts[i] != pts[j]
    ensures Dedup(pts) == pts
  {
    if pts != [] {
      var init := pts[..|pts| - 1];
      DedupDistinctUnchanged(init);
      assert pts[|pts| - 1] !in init;
      assert init + [pts[|pts| - 1]] == pts;
    }
  }

  /** extractUniquePoints: walks the segments, keeping p1 and then p2 whenever its
      "x,y" key has not been seen. The key set is modelled as the set of points
      seen so far. */
  method ExtractUniquePoints(segs: seq<Segment>) returns (pts: seq<Point>)
    ensures pts == Dedup(Endpoints(segs))
  {
    var pointSet: set<Point> := {};
    pts := [];
    var i := 0;
    while i < |segs|
      invariant 0 <= i <= |segs|
      invariant pts == Dedup(Endpoints(segs[..i]))
      invariant forall p :: p in pointSet <==> p in pts
    {
      var p1, p2 := segs[i].p1, segs[i].p2;
      ghost var e := Endpoints(segs[..i]);
      assert segs[..i + 1][..i] == segs[..i];
      assert Endpoints(segs[..i + 1]) == (e + [p1]) + [p2];
      DedupPush(e, p1);
      DedupPush(e + [p1], p2);
      pointSet, pts := AddIfUnseen(pointSet, pts, p1);
      pointSet, pts := AddIfUnseen(pointSet, pts, p2);
      i := i + 1;
    }
    assert segs[..i] == segs;
  }

  /** One step of extractUniquePoints: a point not in the seen set is added to
      the set and appended to the list. */
  method AddIfUnseen(seen: set<Point>, pts: seq<Point>, p: Point) returns (seen': set<Point>, pts': seq<Point>)
    requires forall q :: q in seen <==> q in pts
    ensures pts' == if p in pts then pts else pts + [p]
    ensures forall q :: q in seen' <==> q in pts'
  {
    seen', pts' := seen, pts;
    if p !in seen {
      seen' := seen + {p};
      pts' := pts + [p];
    }
  }

  /** Appending a point to the input appends it to the deduplicated list exactly
      when it is new. */
  lemma DedupPush(pts: seq<Point>, p: Point)
    ensures Dedup(pts + [p]) == if p in pts then Dedup(pts) else Dedup(pts) + [p]
  {
    assert (pts + [p])[..|pts|] == pts;
  }

  /** extractUniquePoints lists each endpoint of the segments exactly once and
      nothing else, so it returns at most two points per segment. */
  lemma UniquePointsAreEndpoints(segs: seq<Segment>)
    ensures var pts := Dedup(Endpoints(segs));
      (forall i, j :: 0 <= i < j < |pts| ==> pts[i] != pts[j]) &&
      |pts| <= 2 * |segs| &&
      forall p :: p in pts <==> exists k :: 0 <= k < |segs| && (segs[k].p1 == p || segs[k].p2 == p)
  {
    DedupDistinct(Endpoints(segs));
    forall p
      ensures p in Endpoints(segs) <==> exists k :: 0 <= k < |segs| && (segs[k].p1 == p || segs[k].p2 == p)
    {
      EndpointsMembers(segs, p);
    }
  }
}
