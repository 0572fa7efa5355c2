/** Vector arithmetic on points and segments: dot product, segment length, the
    offset midpoint used to place labels, the bounding box of a segment list and
    the near-90-degree test. */
module Geometry {
  import opened Types

  /** dotProduct: the scalar product of two vectors, each given as a point. */
  function DotProduct(v1: Point, v2: Point): real
  {
    v1.x * v2.x + v1.y * v2.y
  }

  lemma DotProductSymmetric(v1: Point, v2: Point)
    ensures DotProduct(v1, v2) == DotProduct(v2, v1)
  {
  }

  /** The scalar product of a vector with itself is its squared norm: never
      negative, and zero only for the zero vector. */
  lemma DotProductSelf(v: Point)
    ensures DotProduct(v, v) == SquaredNorm(v)
    ensures DotProduct(v, v) >= 0.0 && (DotProduct(v, v) > 0.0 <==> v != Point(0.0, 0.0))
  {
  }

  /** The vector a - b. */
  function Sub(a: Point, b: Point): Point
  {
    Point(a.x - b.x, a.y - b.y)
  }

  /** The z component of the cross product of two plane vectors. */
  function Cross(u: Point, v: Point): real
  {
    u.x * v.y - u.y * v.x
  }

  /** The vector [p2.x - p1.x, p2.y - p1.y] of a segment. */
  function Direction(s: Segment): Point
  {
    Sub(s.p2, s.p1)
  }

  /** The segment with its endpoints swapped. */
  function Reversed(s: Segment): Segment
  {
    Segment(s.p2, s.p1)
  }

  /** The square of a number. Squares are written through this function so that
      the facts about them below are stated once. */
  function Sq(a: real): real
  {
    a * a
  }

  lemma MulPositive(a: real, b: real, p: real)
    requires p == a * b && a > 0.0 && b > 0.0
    ensures p > 0.0
  {
  }

  /** A square is never negative, and it is positive exactly for a non-zero number. */
  lemma SqFacts(a: real)
    ensures Sq(a) >= 0.0
    ensures Sq(a) > 0.0 <==> a != 0.0
  {
    if a < 0.0 {
      MulPositive(-a, -a, Sq(a));
    } else if a > 0.0 {
      MulPositive(a, a, Sq(a));
    } else {
      assert Sq(a) == 0.0 * a;
    }
  }

  /** The squared Euclidean norm of a vector. */
  function SquaredNorm(v: Point): (q: real)
    ensures q >= 0.0
    ensures q > 0.0 <==> v != Point(0.0, 0.0)
  {
    SqFacts(v.x);
    SqFacts(v.y);
    Sq(v.x) + Sq(v.y)
  }

  /** dx * dx + dy * dy, the square of a segment's length: positive exactly when
      the endpoints differ. */
  function SquaredLength(s: Segment): (q: real)
    ensures q >= 0.0
    ensures q > 0.0 <==> s.p1 != s.p2
  {
    DirectionZero(s);
    SquaredNorm(Direction(s))
  }

  /** The direction vector vanishes exactly when the endpoints coincide. */
  lemma DirectionZero(s: Segment)
    ensures Direction(s) == Point(0.0, 0.0) <==> s.p1 == s.p2
  {
    assert s.p1 == Point(s.p1.x, s.p1.y) && s.p2 == Point(s.p2.x, s.p2.y);
  }

  /** vectorLength: Math.sqrt(dx * dx + dy * dy). The result is a square root,
      never NaN, and positive exactly for a segment whose endpoints differ. */
  function VectorLength(s: Segment): (r: Length)
    ensures r.Sqrt? && r.square >= 0.0
    ensures r.square > 0.0 <==> s.p1 != s.p2
  {
    Sqrt(SquaredLength(s))
  }

  /** Swapping the endpoints of a segment does not change its length. */
  lemma VectorLengthReversed(s: Segment)
    ensures VectorLength(Reversed(s)) == VectorLength(s)
  {
    var d, e := Direction(s), Direction(Reversed(s));
    assert e.x == -d.x && e.y == -d.y;
    assert Sq(e.x) == Sq(d.x) && Sq(e.y) == Sq(d.y);
  }

  /** The exact midpoint of a segment. */
  function Centre(s: Segment): Point
  {
    Point((s.p1.x + s.p2.x) / 2.0, (s.p1.y + s.p2.y) / 2.0)
  }

  /** The normal [p2.y - p1.y, p1.x - p2.x] along which midpoint displaces its
      result; it is the direction turned a quarter turn clockwise. */
  function Normal(s: Segment): Point
  {
    Point(s.p2.y - s.p1.y, s.p1.x - s.p2.x)
  }

  /** midpoint(segment, offset): the midpoint moved by `offset` along the unit
      normal. The program's default offset is 40. `len` is the value of
      Math.sqrt(dx * dx + dy * dy) that the program computes; for a segment of
      length zero it divides 0 by 0 and the point is NaN, written None here. */
  function Midpoint(s: Segment, offset: real, len: real): (r: Option<Point>)
    requires len >= 0.0 && Sq(len) == SquaredLength(s)
    ensures r.None? <==> s.p1 == s.p2
  {
    RootOfSquaredLength(s, len);
    if len == 0.0 then
      None
    else
      var mx := (s.p1.x + s.p2.x) / 2.0;
      var my := (s.p1.y + s.p2.y) / 2.0;
      var dx := s.p2.y - s.p1.y;
      var dy := s.p1.x - s.p2.x;
      Some(Point(mx + (dx / len) * offset, my + (dy / len) * offset))
  }

  /** For a segment of non-zero length, midpoint moves the true midpoint
      orthogonally to the segment, by `offset` along the normal (its scalar
      product with the normal, of length len, is offset * len); with offset 0 it
      is the true midpoint. */
  lemma MidpointAlongNormal(s: Segment, offset: real, len: real)
    requires len >= 0.0 && Sq(len) == SquaredLength(s)
    requires s.p1 != s.p2
    ensures Midpoint(s, offset, len).Some?
    ensures var m := Midpoint(s, offset, len).value;
      DotProduct(Sub(m, Centre(s)), Direction(s)) == 0.0 &&
      DotProduct(Sub(m, Centre(s)), Normal(s)) == offset * len &&
      (offset == 0.0 ==> m == Centre(s))
  {
    RootOfSquaredLength(s, len);
    MidpointOffset(s, offset, len, Midpoint(s, offset, len).value);
  }

  /** A square root of the squared length is zero exactly for a degenerate segment. */
  lemma RootOfSquaredLength(s: Segment, len: real)
    requires len >= 0.0 && Sq(len) == SquaredLength(s)
    ensures len == 0.0 <==> s.p1 == s.p2
  {
    SqFacts(len);
  }

  /** The displacement (offset / len) * Normal(s) is orthogonal to the segment and
      has component offset * len along the normal. */
  lemma MidpointOffset(s: Segment, offset: real, len: real, r: Point)
    requires len > 0.0 && Sq(len) == SquaredLength(s)
    requires r == Point(Centre(s).x + (Normal(s).x / len) * offset, Centre(s).y + (Normal(s).y / len) * offset)
    ensures DotProduct(Sub(r, Centre(s)), Direction(s)) == 0.0
    ensures DotProduct(Sub(r, Centre(s)), Normal(s)) == offset * len
    ensures offset == 0.0 ==> r == Centre(s)
  {
    var d, k := Direction(s), offset / len;
    var v := Sub(r, Centre(s));
    Rescale(d.y, offset, len);
    Rescale(-d.x, offset, len);
    assert v == Point(k * d.y, k * -d.x);
    QuarterTurn(k, d.x, d.y);
    assert Sq(-d.x) == Sq(d.x);
    Cancel(offset, len);
  }

  lemma Rescale(a: real, offset: real, len: real)
    requires len != 0.0
    ensures (a / len) * offset == (offset / len) * a
  {
  }

  /** The vector k * (b, -a) is orthogonal to (a, b), and its scalar product with
      (b, -a) is k times the squared norm. */
  lemma QuarterTurn(k: real, a: real, b: real)
    ensures (k * b) * a + (k * -a) * b == 0.0
    ensures (k * b) * b + (k * -a) * (-a) == k * (Sq(b) + Sq(-a))
  {
  }

  lemma Cancel(offset: real, len: real)
    requires len != 0.0
    ensures (offset / len) * Sq(len) == offset * len
    ensures offset == 0.0 ==> offset / len == 0.0
  {
  }

  /** All endpoints of a segment list, in order: p1 and p2 of the first segment,
      then of the second, and so on (the allPoints array of getBounds). */
  function Endpoints(segs: seq<Segment>): (pts: seq<Point>)
    ensures |pts| == 2 * |segs|
  {
    if segs == [] then []
    else Endpoints(segs[..|segs| - 1]) + [segs[|segs| - 1].p1, segs[|segs| - 1].p2]
  }

  /** Segment k contributes positions 2k and 2k + 1 of the endpoint list. */
  lemma {:induction false} EndpointsAt(segs: seq<Segment>, k: nat)
    requires k < |segs|
    ensures Endpoints(segs)[2 * k] == segs[k].p1
    ensures Endpoints(segs)[2 * k + 1] == segs[k].p2
  {
    var n := |segs|;
    if k < n - 1 {
      EndpointsAt(segs[..n - 1], k);
    }
  }

  /** Every position of the endpoint list holds p1 or p2 of some segment. */
  lemma EndpointSource(segs: seq<Segment>, j: nat)
    requires j < 2 * |segs|
    ensures 0 <= j / 2 < |segs|
    ensures Endpoints(segs)[j] == segs[j / 2].p1 || Endpoints(segs)[j] == segs[j / 2].p2
  {
    var k := j / 2;
    assert j == 2 * k || j == 2 * k + 1;
    EndpointsAt(segs, k);
  }

  /** A point is in the endpoint list exactly when it is an endpoint of some segment. */
  lemma EndpointsMembers(segs: seq<Segment>, p: Point)
    ensures p in Endpoints(segs) <==>
      exists k :: 0 <= k < |segs| && (segs[k].p1 == p || segs[k].p2 == p)
  {
    var pts := Endpoints(segs);
    if p in pts {
      var j :| 0 <= j < |pts| && pts[j] == p;
      EndpointSource(segs, j);
    }
    if exists k :: 0 <= k < |segs| && (segs[k].p1 == p || segs[k].p2 == p) {
      var k :| 0 <= k < |segs| && (segs[k].p1 == p || segs[k].p2 == p);
      EndpointsAt(segs, k);
    }
  }

  function Xs(pts: seq<Point>): (xs: seq<real>)
    ensures |xs| == |pts| && forall k :: 0 <= k < |pts| ==> xs[k] == pts[k].x
  {
    seq(|pts|, k requires 0 <= k < |pts| => pts[k].x)
  }

  function Ys(pts: seq<Point>): (ys: seq<real>)
    ensures |ys| == |pts| && forall k :: 0 <= k < |pts| ==> ys[k] == pts[k].y
  {
    seq(|pts|, k requires 0 <= k < |pts| => pts[k].y)
  }

  /** Math.min over a non-empty list: a member of the list that no member is below. */
  function MinOf(xs: seq<real>): (m: real)
    requires |xs| > 0
    ensures m in xs
    ensures forall k :: 0 <= k < |xs| ==> m <= xs[k]
  {
    if |xs| == 1 then xs[0]
    else
      var m := MinOf(xs[..|xs| - 1]);
      if xs[|xs| - 1] < m then xs[|xs| - 1] else m
  }

  /** Math.max over a non-empty list: a member of the list that no member is above. */
  function MaxOf(xs: seq<real>): (m: real)
    requires |xs| > 0
    ensures m in xs
    ensures forall k :: 0 <= k < |xs| ==> xs[k] <= m
  {
    if |xs| == 1 then xs[0]
    else
      var m := MaxOf(xs[..|xs| - 1]);
      if xs[|xs| - 1] > m then xs[|xs| - 1] else m
  }

  /** The result of getBounds. `Empty` is what it returns for no segments, where
      Math.min and Math.max of nothing give Infinity and -Infinity. */
  datatype Bounds = Empty | Box(minX: real, maxX: real, minY: real, maxY: real)
  {
    predicate Contains(p: Point)
    {
      Box? && minX <= p.x <= maxX && minY <= p.y <= maxY
    }
  }

  /** The bounding box of all segment endpoints, as getBounds computes it. */
  function BoundsOf(segs: seq<Segment>): Bounds
  {
    if segs == [] then Empty
    else
      var pts := Endpoints(segs);
      Box(MinOf(Xs(pts)), MaxOf(Xs(pts)), MinOf(Ys(pts)), MaxOf(Ys(pts)))
  }

  /** getBounds: collects every endpoint in a loop, then takes the minimum and
      maximum of the x and the y coordinates. */
  method GetBounds(segs: seq<Segment>) returns (b: Bounds)
    ensures b == BoundsOf(segs)
    ensures b.Empty? <==> segs == []
  {
    var allPoints: seq<Point> := [];
    var i := 0;
    while i < |segs|
      invariant 0 <= i <= |segs|
      invariant allPoints == Endpoints(segs[..i])
    {
      assert segs[..i + 1][..i] == segs[..i];
      allPoints := allPoints + [segs[i].p1, segs[i].p2];
      i := i + 1;
    }
    assert segs[..i] == segs;
    var xs := Xs(allPoints);
    var ys := Ys(allPoints);
    if |allPoints| == 0 {
      b := Empty;
    } else {
      b := Box(MinOf(xs), MaxOf(xs), MinOf(ys), MaxOf(ys));
    }
  }

  /** For a non-empty segment list every endpoint lies inside the bounding box. */
  lemma BoundsContainEndpoints(segs: seq<Segment>, k: nat)
    requires k < |segs|
    ensures BoundsOf(segs).Contains(segs[k].p1) && BoundsOf(segs).Contains(segs[k].p2)
  {
    var pts := Endpoints(segs);
    EndpointsAt(segs, k);
    assert Xs(pts)[2 * k] == segs[k].p1.x && Ys(pts)[2 * k] == segs[k].p1.y;
    assert Xs(pts)[2 * k + 1] == segs[k].p2.x && Ys(pts)[2 * k + 1] == segs[k].p2.y;
  }

  /** Each side of the bounding box is touched by an endpoint of some segment. */
  lemma BoundsAttained(segs: seq<Segment>)
    requires segs != []
    ensures var b := BoundsOf(segs);
      (exists k :: 0 <= k < |segs| && (segs[k].p1.x == b.minX || segs[k].p2.x == b.minX)) &&
      (exists k :: 0 <= k < |segs| && (segs[k].p1.x == b.maxX || segs[k].p2.x == b.maxX)) &&
      (exists k :: 0 <= k < |segs| && (segs[k].p1.y == b.minY || segs[k].p2.y == b.minY)) &&
      (exists k :: 0 <= k < |segs| && (segs[k].p1.y == b.maxY || segs[k].p2.y == b.maxY))
  {
    var pts := Endpoints(segs);
    var b := BoundsOf(segs);
    var xs, ys := Xs(pts), Ys(pts);
    var j0 :| 0 <= j0 < |xs| && xs[j0] == b.minX;
    var j1 :| 0 <= j1 < |xs| && xs[j1] == b.maxX;
    var j2 :| 0 <= j2 < |ys| && ys[j2] == b.minY;
    var j3 :| 0 <= j3 < |ys| && ys[j3] == b.maxY;
    EndpointSource(segs, j0);
    EndpointSource(segs, j1);
    EndpointSource(segs, j2);
    EndpointSource(segs, j3);
  }

  /** Two walls of a right triangle: [0,0]-[4,0] and [4,0]-[4,3]. */
  lemma BoundsExample()
    ensures BoundsOf([Segment(Point(0.0, 0.0), Point(4.0, 0.0)), Segment(Point(4.0, 0.0), Point(4.0, 3.0))])
         == Box(0.0, 4.0, 0.0, 3.0)
  {
    var segs := [Segment(Point(0.0, 0.0), Point(4.0, 0.0)), Segment(Point(4.0, 0.0), Point(4.0, 3.0))];
    assert segs[..1] == [segs[0]];
    assert Endpoints(segs[..1]) == [Point(0.0, 0.0), Point(4.0, 0.0)];
    var pts := Endpoints(segs);
    assert pts == [Point(0.0, 0.0), Point(4.0, 0.0), Point(4.0, 0.0), Point(4.0, 3.0)];
    var xs, ys := Xs(pts), Ys(pts);
    assert xs == [0.0, 4.0, 4.0, 4.0];
    assert ys == [0.0, 0.0, 0.0, 3.0];
    var m := MinOf(xs);
    assert m in xs && m <= xs[0];
    assert m == 0.0;
    assert MaxOf(xs) == 4.0;
    assert MinOf(ys) == 0.0;
    assert MaxOf(ys) == 3.0;
  }

  /** cos 80 degrees (equal to sin 10 degrees), to seventeen significant digits. */
  const Cos80Degrees: real := 0.17364817766693035

  /** arePerpendicular: the angle acos(dot / (|a| |b|)), in degrees, is within 10
      of 90. Since acos is strictly decreasing this holds exactly when the cosine
      c = dot / (|a| |b|) satisfies |c| < cos 80 degrees; with |a| |b| the square
      root of the product of the squared lengths, that is
      dot * dot < cos^2(80 degrees) * |a|^2 * |b|^2. When a segment has length zero
      both dot and |a| |b| are 0, the cosine is NaN and the test is false. */
  function ArePerpendicular(a: Segment, b: Segment): (r: bool)
    ensures r ==> a.p1 != a.p2 && b.p1 != b.p2
  {
    var dot := DotProduct(Direction(a), Direction(b));
    var magProductSquared := SquaredLength(a) * SquaredLength(b);
    magProductSquared != 0.0 && Sq(dot) < Sq(Cos80Degrees) * magProductSquared
  }

  lemma ArePerpendicularSymmetric(a: Segment, b: Segment)
    ensures ArePerpendicular(a, b) == ArePerpendicular(b, a)
  {
  }

  /** Reversing either segment does not change the verdict. */
  lemma ArePerpendicularReversed(a: Segment, b: Segment)
    ensures ArePerpendicular(Reversed(a), b) == ArePerpendicular(a, b)
  {
    var d, e := Direction(a), Direction(Reversed(a));
    assert e == Point(-d.x, -d.y);
    var k := DotProduct(d, Direction(b));
    DotNegated(d, Direction(b), k);
    assert Sq(-k) == Sq(k);
    VectorLengthReversed(a);
    assert SquaredLength(Reversed(a)) == SquaredLength(a);
  }

  lemma DotNegated(v: Point, w: Point, k: real)
    requires k == DotProduct(v, w)
    ensures DotProduct(Point(-v.x, -v.y), w) == -k
  {
  }

  /** Two non-degenerate segments at an exact right angle are perpendicular. */
  lemma RightAngleIsPerpendicular(a: Segment, b: Segment)
    requires a.p1 != a.p2 && b.p1 != b.p2
    requires DotProduct(Direction(a), Direction(b)) == 0.0
    ensures ArePerpendicular(a, b)
  {
    var qa, qb := SquaredLength(a), SquaredLength(b);
    MulPositive(qa, qb, qa * qb);
    SqFacts(Cos80Degrees);
    MulPositive(Sq(Cos80Degrees), qa * qb, Sq(Cos80Degrees) * (qa * qb));
    assert Sq(DotProduct(Direction(a), Direction(b))) == 0.0 * 0.0;
  }

  lemma MulNonNegative(a: real, b: real, p: real)
    requires p == a * b && a >= 0.0 && b >= 0.0
    ensures p >= 0.0
  {
    if a > 0.0 && b > 0.0 {
      MulPositive(a, b, p);
    } else if a == 0.0 {
      assert p == 0.0 * b;
    } else {
      assert p == a * 0.0;
    }
  }

  /** No segment is perpendicular to itself: its angle with itself is 0. */
  lemma NotPerpendicularToItself(a: Segment)
    ensures !ArePerpendicular(a, a)
  {
    var q := SquaredLength(a);
    var d := Direction(a);
    assert DotProduct(d, d) == q;
    var c2 := Sq(Cos80Degrees);
    assert c2 < 1.0;
    SqFacts(q);
    MulNonNegative(1.0 - c2, q * q, (1.0 - c2) * (q * q));
    assert c2 * (q * q) == q * q - (1.0 - c2) * (q * q);
    assert Sq(q) == q * q;
  }
}
