/** Turning the corner/wall records of a shape file into wall segments, finding
    the pairs of walls that meet at roughly a right angle, and the colours and
    labels of a dimension pair. */
module SegmentUtils {
  import opened Types
  import opened Geometry

  /** The position [c.x, c.y] of a corner. */
  function Position(c: Corner): Point
  {
    Point(c.x, c.y)
  }

  /** A corner touches a wall when the wall's id is among the walls that start
      or end at the corner. */
  predicate ConnectedTo(c: Corner, wall: Wall)
  {
    (exists w :: w in c.wallStarts && w.id == wall.id) ||
    (exists w :: w in c.wallEnds && w.id == wall.id)
  }

  /** The corners.filter(...) of buildSegments: the corners that touch the wall,
      in their original order. */
  function ConnectedCorners(corners: seq<Corner>, wall: Wall): (r: seq<Corner>)
    ensures |r| <= |corners|
  {
    if corners == [] then []
    else
      var init := ConnectedCorners(corners[..|corners| - 1], wall);
      var c := corners[|corners| - 1];
      if ConnectedTo(c, wall) then init + [c] else init
  }

  /** The filter keeps exactly the corners that touch the wall. */
  lemma {:induction false} ConnectedCornersMembers(corners: seq<Corner>, wall: Wall)
    ensures forall c :: c in ConnectedCorners(corners, wall) <==> c in corners && ConnectedTo(c, wall)
  {
    if corners != [] {
      var init := corners[..|corners| - 1];
      ConnectedCornersMembers(init, wall);
      assert corners == init + [corners[|corners| - 1]];
    }
  }

  /** The segment a wall contributes: from the first to the second touching
      corner when exactly two corners touch it, none otherwise. */
  function WallSegment(corners: seq<Corner>, wall: Wall): (r: Option<Segment>)
    ensures r.Some? <==> |ConnectedCorners(corners, wall)| == 2
  {
    var connected := ConnectedCorners(corners, wall);
    if |connected| == 2 then
      Some(Segment(Position(connected[0]), Position(connected[1])))
    else None
  }

  /** What one wall adds to the result of buildSegments. */
  function Contribution(corners: seq<Corner>, wall: Wall): seq<Segment>
  {
    match WallSegment(corners, wall)
    case Some(s) => [s]
    case None => []
  }

  /** x is listed before y in the corner list. */
  predicate ListedBefore(corners: seq<Corner>, x: Corner, y: Corner)
  {
    exists i, j :: 0 <= i < j < |corners| && corners[i] == x && corners[j] == y
  }

  /** The filter keeps the corners in their original order. */
  lemma {:induction false} ConnectedCornersInOrder(corners: seq<Corner>, wall: Wall)
    ensures forall s, t :: 0 <= s < t < |ConnectedCorners(corners, wall)| ==>
      ListedBefore(corners, ConnectedCorners(corners, wall)[s], ConnectedCorners(corners, wall)[t])
  {
    if corners != [] {
      var n := |corners|;
      var front := corners[..n - 1];
      var init, r := ConnectedCorners(front, wall), ConnectedCorners(corners, wall);
      ConnectedCornersInOrder(front, wall);
      forall s, t | 0 <= s < t < |r|
        ensures ListedBefore(corners, r[s], r[t])
      {
        assert r[s] == init[s];
        if t < |init| {
          assert r[t] == init[t];
          ListedBeforeInPrefix(corners, init[s], init[t]);
        } else {
          assert r[t] == corners[n - 1];
          ConnectedCornersMembers(front, wall);
          ListedBeforeLast(corners, init[s]);
        }
      }
    }
  }

  lemma ListedBeforeInPrefix(corners: seq<Corner>, x: Corner, y: Corner)
    requires corners != [] && ListedBefore(corners[..|corners| - 1], x, y)
    ensures ListedBefore(corners, x, y)
  {
    var front := corners[..|corners| - 1];
    var i, j :| 0 <= i < j < |front| && front[i] == x && front[j] == y;
    assert corners[i] == x && corners[j] == y;
  }

  lemma ListedBeforeLast(corners: seq<Corner>, x: Corner)
    requires corners != [] && x in corners[..|corners| - 1]
    ensures ListedBefore(corners, x, corners[|corners| - 1])
  {
    var front := corners[..|corners| - 1];
    var i :| 0 <= i < |front| && front[i] == x;
    assert corners[i] == x;
  }

  /** A wall's segment runs from the position of one corner touching the wall to
      that of a later-listed one. */
  lemma WallSegmentJoinsCorners(corners: seq<Corner>, wall: Wall)
    requires WallSegment(corners, wall).Some?
    ensures exists i, j :: (0 <= i < j < |corners| &&
      ConnectedTo(corners[i], wall) && ConnectedTo(corners[j], wall) &&
      WallSegment(corners, wall).value == Segment(Position(corners[i]), Position(corners[j])))
  {
    var connected := ConnectedCorners(corners, wall);
    ConnectedCornersMembers(corners, wall);
    ConnectedCornersInOrder(corners, wall);
    assert connected[0] in connected && connected[1] in connected;
    assert ListedBefore(corners, connected[0], connected[1]);
    var i, j :| 0 <= i < j < |corners| && corners[i] == connected[0] && corners[j] == connected[1];
  }

  /** The segments of the walls, in wall order, skipping every wall that does
      not touch exactly two corners. */
  function SegmentsOf(corners: seq<Corner>, walls: seq<Wall>): (r: seq<Segment>)
    ensures |r| <= |walls|
  {
    if walls == [] then []
    else SegmentsOf(corners, walls[..|walls| - 1]) + Contribution(corners, walls[|walls| - 1])
  }

  /** buildSegments: one pass over the walls, filtering the corners for each. */
  method BuildSegments(corners: seq<Corner>, walls: seq<Wall>) returns (result: seq<Segment>)
    ensures result == SegmentsOf(corners, walls)
  {
    result := [];
    var i := 0;
    while i < |walls|
      invariant 0 <= i <= |walls|
      invariant result == SegmentsOf(corners, walls[..i])
    {
      assert walls[..i + 1][..i] == walls[..i];
      var connected := ConnectedCorners(corners, walls[i]);
      if |connected| == 2 {
        var p1, p2 := Position(connected[0]), Position(connected[1]);
        result := result + [Segment(p1, p2)];
      }
      i := i + 1;
    }
    assert walls[..i] == walls;
  }

  /** Every segment comes from a wall of the list that touches exactly two
      corners, and every such wall contributes its segment. */
  lemma {:induction false} SegmentsOfWalls(corners: seq<Corner>, walls: seq<Wall>)
    ensures forall s :: s in SegmentsOf(corners, walls) <==>
      exists w :: w in walls && WallSegment(corners, w) == Some(s)
  {
    if walls != [] {
      var init := walls[..|walls| - 1];
      SegmentsOfWalls(corners, init);
      assert walls == init + [walls[|walls| - 1]];
    }
  }

  /** Walls are processed independently: the segments of two wall lists are the
      segments of the first followed by those of the second. */
  lemma {:induction false} SegmentsOfAppend(corners: seq<Corner>, w1: seq<Wall>, w2: seq<Wall>)
    ensures SegmentsOf(corners, w1 + w2) == SegmentsOf(corners, w1) + SegmentsOf(corners, w2)
  {
    if w2 == [] {
      assert w1 + w2 == w1;
    } else {
      var w := w1 + w2;
      var last := w2[|w2| - 1];
      AppendDropLast(w1, w2);
      assert w[|w| - 1] == last;
      SegmentsOfAppend(corners, w1, w2[..|w2| - 1]);
      var a, b, c := SegmentsOf(corners, w1), SegmentsOf(corners, w2[..|w2| - 1]), Contribution(corners, last);
      assert SegmentsOf(corners, w) == (a + b) + c;
      assert SegmentsOf(corners, w2) == b + c;
      assert (a + b) + c == a + (b + c);
    }
  }

  lemma AppendDropLast(w1: seq<Wall>, w2: seq<Wall>)
    requires w2 != []
    ensures (w1 + w2)[..|w1 + w2| - 1] == w1 + w2[..|w2| - 1]
  {
    var w, v := (w1 + w2)[..|w1 + w2| - 1], w1 + w2[..|w2| - 1];
    assert |w| == |v|;
    forall k | 0 <= k < |w|
      ensures w[k] == v[k]
    {
      if k < |w1| {
        assert w[k] == w1[k];
      } else {
        assert w[k] == w2[k - |w1|];
      }
    }
  }

  /** A pair of wall segments, in the order findPerpendicularPairs emits it. */
  type SegmentPair = (Segment, Segment)

  /** The index pairs (i, k), i < k < m, at which the relation holds, in
      increasing k: row i of the double loop of findPerpendicularPairs. */
  function RowUpTo(rel: (nat, nat) -> bool, i: nat, m: nat): (r: seq<(nat, nat)>)
    ensures forall t :: 0 <= t < |r| ==> r[t].0 == i && i < r[t].1 < m
  {
    if m <= i + 1 then []
    else
      var init := RowUpTo(rel, i, m - 1);
      if rel(i, m - 1) then init + [(i, m - 1)] else init
  }

  /** The index pairs of rows 0 .. k - 1 over n items, row after row. */
  function PairsUpTo(rel: (nat, nat) -> bool, n: nat, k: nat): (r: seq<(nat, nat)>)
    ensures forall t :: 0 <= t < |r| ==> r[t].0 < k && r[t].0 < r[t].1 < n
  {
    if k == 0 then [] else PairsUpTo(rel, n, k - 1) + RowUpTo(rel, k - 1, n)
  }

  /** Row i holds the pairs (i, b), i < b < m, at which the relation holds. */
  lemma {:induction false} RowUpToMembers(rel: (nat, nat) -> bool, i: nat, m: nat)
    ensures forall a: nat, b: nat :: (a, b) in RowUpTo(rel, i, m) <==> a == i && i < b < m && rel(a, b)
  {
    if m > i + 1 {
      RowUpToMembers(rel, i, m - 1);
    }
  }

  /** Row i is ordered by its second index. */
  lemma {:induction false} RowUpToSorted(rel: (nat, nat) -> bool, i: nat, m: nat)
    ensures forall s, t :: 0 <= s < t < |RowUpTo(rel, i, m)| ==> RowUpTo(rel, i, m)[s].1 < RowUpTo(rel, i, m)[t].1
  {
    if m > i + 1 {
      RowUpToSorted(rel, i, m - 1);
    }
  }

  /** Rows 0 .. k - 1 hold the pairs (a, b), a < k, a < b < n, at which the
      relation holds. */
  lemma {:induction false} PairsUpToMembers(rel: (nat, nat) -> bool, n: nat, k: nat)
    ensures forall a: nat, b: nat :: (a, b) in PairsUpTo(rel, n, k) <==> a < k && a < b < n && rel(a, b)
  {
    if k > 0 {
      PairsUpToMembers(rel, n, k - 1);
      RowUpToMembers(rel, k - 1, n);
    }
  }

  /** Rows 0 .. k - 1 are in lexicographic order. */
  lemma {:induction false} PairsUpToSorted(rel: (nat, nat) -> bool, n: nat, k: nat)
    ensures forall s, t :: 0 <= s < t < |PairsUpTo(rel, n, k)| ==> Before(PairsUpTo(rel, n, k)[s], PairsUpTo(rel, n, k)[t])
  {
    if k > 0 {
      var a, b := PairsUpTo(rel, n, k - 1), RowUpTo(rel, k - 1, n);
      PairsUpToSorted(rel, n, k - 1);
      RowUpToSorted(rel, k - 1, n);
      forall s, t | 0 <= s < t < |a + b|
        ensures Before((a + b)[s], (a + b)[t])
      {
        if t < |a| {
          assert Before(a[s], a[t]);
        } else if s >= |a| {
          assert b[s - |a|].1 < b[t - |a|].1;
        } else {
          assert a[s].0 < k - 1 == b[t - |a|].0;
        }
      }
    }
  }

  /** The lexicographic order on index pairs. */
  predicate Before(p: (nat, nat), q: (nat, nat))
  {
    p.0 < q.0 || (p.0 == q.0 && p.1 < q.1)
  }

  /** A test on segments, read as a test on their indices. */
  function IndexRelation(segs: seq<Segment>, test: (Segment, Segment) -> bool): (nat, nat) -> bool
  {
    (a: nat, b: nat) => a < |segs| && b < |segs| && test(segs[a], segs[b])
  }

  /** Perpendicularity of the segments at two indices. */
  function PerpendicularAt(segs: seq<Segment>): (nat, nat) -> bool
  {
    IndexRelation(segs, ArePerpendicular)
  }

  /** All index pairs i < j of perpendicular segments, row after row. */
  function PerpendicularIndexPairs(segs: seq<Segment>): (r: seq<(nat, nat)>)
    ensures forall t :: 0 <= t < |r| ==> r[t].0 < r[t].1 < |segs|
  {
    PairsUpTo(PerpendicularAt(segs), |segs|, |segs|)
  }

  /** The index pairs are exactly the i < j at which the segments are
      perpendicular, each once, in lexicographic order. */
  lemma PerpendicularIndexPairsExact(segs: seq<Segment>)
    ensures forall a: nat, b: nat :: (a, b) in PerpendicularIndexPairs(segs) <==>
      a < b < |segs| && ArePerpendicular(segs[a], segs[b])
    ensures forall s, t :: 0 <= s < t < |PerpendicularIndexPairs(segs)| ==>
      Before(PerpendicularIndexPairs(segs)[s], PerpendicularIndexPairs(segs)[t])
  {
    PairsUpToMembers(PerpendicularAt(segs), |segs|, |segs|);
    PairsUpToSorted(PerpendicularAt(segs), |segs|, |segs|);
  }

  /** The segment pairs at the given index pairs. */
  function PairsAt(segs: seq<Segment>, idx: seq<(nat, nat)>): (r: seq<SegmentPair>)
    requires forall t :: 0 <= t < |idx| ==> idx[t].0 < |segs| && idx[t].1 < |segs|
    ensures |r| == |idx|
    ensures forall t :: 0 <= t < |idx| ==> r[t] == (segs[idx[t].0], segs[idx[t].1])
  {
    seq(|idx|, t requires 0 <= t < |idx| => (segs[idx[t].0], segs[idx[t].1]))
  }

  /** The key of the index pair {i, j}: the smaller index first. */
  function Key(i: nat, j: nat): (r: (nat, nat))
    ensures r.0 <= r.1
    ensures (r.0 == i && r.1 == j) || (r.0 == j && r.1 == i)
  {
    if i <= j then (i, j) else (j, i)
  }

  /** Two index pairs get the same key exactly when they are the same unordered
      pair, so the key of (i, j) is also the key of (j, i). */
  lemma KeyIsUnordered(i: nat, j: nat, k: nat, l: nat)
    ensures Key(i, j) == Key(k, l) <==> (i == k && j == l) || (i == l && j == k)
  {
  }

  /** A test that gives the same answer for (a, b) and (b, a). */
  ghost predicate Symmetric(test: (Segment, Segment) -> bool)
  {
    forall a, b :: test(a, b) == test(b, a)
  }

  /** findPerpendicularPairs: for every ordered i != j, emits (segs[i], segs[j])
      if the unordered pair {i, j} has not been emitted and the segments are
      perpendicular. The string keys "i-j" of the program are modelled as the
      pair of indices with the smaller first. Because the test is symmetric, the
      result holds each unordered perpendicular pair once, as (segs[i], segs[j])
      with i < j. The double loop is CollectPairs, applied to ArePerpendicular. */
  method FindPerpendicularPairs(segs: seq<Segment>) returns (pairs: seq<SegmentPair>)
    ensures pairs == PairsAt(segs, PerpendicularIndexPairs(segs))
  {
    forall a, b
      ensures ArePerpendicular(a, b) == ArePerpendicular(b, a)
    {
      ArePerpendicularSymmetric(a, b);
    }
    pairs := CollectPairs(segs, ArePerpendicular);
  }

  /** The double loop of findPerpendicularPairs, for any symmetric test: the
      seen-set of keys lets each unordered pair through once. */
  method CollectPairs(segs: seq<Segment>, test: (Segment, Segment) -> bool) returns (pairs: seq<SegmentPair>)
    requires Symmetric(test)
    ensures pairs == PairsAt(segs, PairsUpTo(IndexRelation(segs, test), |segs|, |segs|))
  {
    ghost var rel := IndexRelation(segs, test);
    pairs := [];
    var seen: set<(nat, nat)> := {};
    ghost var emitted: seq<(nat, nat)> := [];
    var i := 0;
    while i < |segs|
      invariant 0 <= i <= |segs|
      invariant emitted == PairsUpTo(rel, |segs|, i)
      invariant pairs == PairsAt(segs, emitted)
      invariant forall p :: p in seen <==> p in emitted
    {
      seen, emitted, pairs := CollectRow(segs, test, i, seen, emitted, pairs);
      i := i + 1;
    }
  }

  /** One pass of the inner loop of findPerpendicularPairs: row i of the pairs,
      each unordered pair let through once. */
  method CollectRow(segs: seq<Segment>, test: (Segment, Segment) -> bool, i: nat,
                    seen0: set<(nat, nat)>, ghost emitted0: seq<(nat, nat)>, pairs0: seq<SegmentPair>)
    returns (seen: set<(nat, nat)>, ghost emitted: seq<(nat, nat)>, pairs: seq<SegmentPair>)
    requires Symmetric(test) && i < |segs|
    requires emitted0 == PairsUpTo(IndexRelation(segs, test), |segs|, i)
    requires pairs0 == PairsAt(segs, emitted0)
    requires forall p :: p in seen0 <==> p in emitted0
    ensures emitted == PairsUpTo(IndexRelation(segs, test), |segs|, i + 1)
    ensures pairs == PairsAt(segs, emitted)
    ensures forall p :: p in seen <==> p in emitted
  {
    ghost var rel := IndexRelation(segs, test);
    seen, emitted, pairs := seen0, emitted0, pairs0;
    var j := 0;
    assert RowUpTo(rel, i, 0) == [];
    assert emitted == PairsUpTo(rel, |segs|, i) + RowUpTo(rel, i, 0);
    while j < |segs|
      invariant 0 <= j <= |segs|
      invariant emitted == PairsUpTo(rel, |segs|, i) + RowUpTo(rel, i, j)
      invariant pairs == PairsAt(segs, emitted)
      invariant forall p :: p in seen <==> p in emitted
    {
      seen, emitted, pairs := CollectStep(segs, test, i, j, seen, emitted, pairs);
      j := j + 1;
    }
    assert PairsUpTo(rel, |segs|, i + 1) == PairsUpTo(rel, |segs|, i) + RowUpTo(rel, i, |segs|);
  }

  /** The body of the inner loop: the pair (i, j) is let through when i != j,
      its key has not been seen and the test holds. */
  method CollectStep(segs: seq<Segment>, test: (Segment, Segment) -> bool, i: nat, j: nat,
                     seen0: set<(nat, nat)>, ghost emitted0: seq<(nat, nat)>, pairs0: seq<SegmentPair>)
    returns (seen: set<(nat, nat)>, ghost emitted: seq<(nat, nat)>, pairs: seq<SegmentPair>)
    requires Symmetric(test) && i < |segs| && j < |segs|
    requires emitted0 == PairsUpTo(IndexRelation(segs, test), |segs|, i) + RowUpTo(IndexRelation(segs, test), i, j)
    requires pairs0 == PairsAt(segs, emitted0)
    requires forall p :: p in seen0 <==> p in emitted0
    ensures emitted == PairsUpTo(IndexRelation(segs, test), |segs|, i) + RowUpTo(IndexRelation(segs, test), i, j + 1)
    ensures pairs == PairsAt(segs, emitted)
    ensures forall p :: p in seen <==> p in emitted
  {
    ghost var rel := IndexRelation(segs, test);
    seen, emitted, pairs := seen0, emitted0, pairs0;
    if i == j {
      assert RowUpTo(rel, i, j + 1) == [] == RowUpTo(rel, i, j);
    } else {
      var key := Key(i, j);
      SeenKey(segs, test, i, j);
      if key !in seen && test(segs[i], segs[j]) {
        PairsAtAppend(segs, emitted, i, j);
        seen := seen + {key};
        emitted := emitted + [(i, j)];
        pairs := pairs + [(segs[i], segs[j])];
      }
    }
  }

  /** At step (i, j) of the double loop the key of {i, j} has been seen exactly
      when j < i and the test holds; a new pair extends row i. */
  lemma SeenKey(segs: seq<Segment>, test: (Segment, Segment) -> bool, i: nat, j: nat)
    requires Symmetric(test)
    requires i < |segs| && j < |segs| && i != j
    ensures var rel := IndexRelation(segs, test);
      var emitted := PairsUpTo(rel, |segs|, i) + RowUpTo(rel, i, j);
      (Key(i, j) in emitted <==> j < i && test(segs[i], segs[j])) &&
      (Key(i, j) in emitted || !test(segs[i], segs[j]) ==>
        PairsUpTo(rel, |segs|, i) + RowUpTo(rel, i, j + 1) == emitted) &&
      (Key(i, j) !in emitted && test(segs[i], segs[j]) ==>
        Key(i, j) == (i, j) &&
        PairsUpTo(rel, |segs|, i) + RowUpTo(rel, i, j + 1) == emitted + [(i, j)])
  {
    var rel := IndexRelation(segs, test);
    assert rel(i, j) == test(segs[i], segs[j]) == test(segs[j], segs[i]) == rel(j, i);
    var a, b := PairsUpTo(rel, |segs|, i), RowUpTo(rel, i, j);
    PairsUpToMembers(rel, |segs|, i);
    RowUpToMembers(rel, i, j);
    if j > i {
      assert (i, j) !in a && (i, j) !in b;
      if rel(i, j) {
        assert RowUpTo(rel, i, j + 1) == b + [(i, j)];
      } else {
        assert RowUpTo(rel, i, j + 1) == b;
      }
    } else {
      assert (j, i) !in b;
      assert (j, i) in a <==> rel(j, i);
      assert RowUpTo(rel, i, j + 1) == b;
    }
  }

  lemma PairsAtAppend(segs: seq<Segment>, idx: seq<(nat, nat)>, i: nat, j: nat)
    requires forall t :: 0 <= t < |idx| ==> idx[t].0 < |segs| && idx[t].1 < |segs|
    requires i < |segs| && j < |segs|
    ensures PairsAt(segs, idx + [(i, j)]) == PairsAt(segs, idx) + [(segs[i], segs[j])]
  {
  }

  /** No segment is paired with itself. */
  lemma PairsAreDistinct(segs: seq<Segment>, t: nat)
    requires t < |PerpendicularIndexPairs(segs)|
    ensures var p := PerpendicularIndexPairs(segs)[t];
      p.0 < p.1 < |segs| && segs[p.0] != segs[p.1]
  {
    var p := PerpendicularIndexPairs(segs)[t];
    PerpendicularIndexPairsExact(segs);
    assert p in PerpendicularIndexPairs(segs);
    assert ArePerpendicular(segs[p.0], segs[p.1]);
    NotPerpendicularToItself(segs[p.0]);
  }

  /** The colours, labels and line width of a dimension pair. */
  datatype DimensionConfig = DimensionConfig(
    primaryColor: string,
    primaryLabel: string,
    secondaryColor: string,
    secondaryLabel: string,
    lineWidth: int)

  /** getDimensionConfig(flip): blue "Length" first and red "Width" second, or
      the other way round when flipped; lines are 6 wide. */
  function GetDimensionConfig(flip: bool): (r: DimensionConfig)
    ensures r.primaryColor != r.secondaryColor && r.primaryLabel != r.secondaryLabel
    ensures r.lineWidth == 6
    ensures r.primaryLabel == (if flip then "Width" else "Length")
    ensures r.primaryColor == (if flip then "red" else "blue")
  {
    DimensionConfig(
      if flip then "red" else "blue",
      if flip then "Width" else "Length",
      if flip then "blue" else "red",
      if flip then "Length" else "Width",
      6)
  }

  /** Flipping swaps the two roles and keeps each label with its colour. */
  lemma FlipSwapsRoles(flip: bool)
    ensures var a, b := GetDimensionConfig(flip), GetDimensionConfig(!flip);
      a.primaryColor == b.secondaryColor && a.primaryLabel == b.secondaryLabel &&
      a.secondaryColor == b.primaryColor && a.secondaryLabel == b.primaryLabel &&
      a.lineWidth == b.lineWidth
  {
  }
}
