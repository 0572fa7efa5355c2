/** The state behind the room viewer: the walls of the loaded shape file, its
    perpendicular wall pairs and triangle decompositions, the cursors that
    changeValues advances, and what a redraw puts on the canvas. */
module RoomViewer {
  import opened Types
  import opened Geometry
  import opened Triangle
  import opened SegmentUtils

  /** The three shape files the viewer picks from. */
  const ShapeFiles: seq<string> := ["src/data/simple.json", "src/data/triangle.json", "src/data/t_shape.json"]

  /** String.prototype.includes: sub occurs in s at some position. */
  predicate Includes(s: string, sub: string)
  {
    exists i :: 0 <= i <= |s| - |sub| && OccursAt(s, sub, i)
  }

  /** sub occurs in s starting at position i. */
  predicate OccursAt(s: string, sub: string, i: int)
    requires 0 <= i <= |s| - |sub|
  {
    s[i..i + |sub|] == sub
  }

  /** The plain room file is drawn as a room: it names neither kind. */
  lemma SimpleFileIsRoom()
    ensures !Includes(ShapeFiles[0], "t_shape") && !Includes(ShapeFiles[0], "triangle")
  {
    NoOccurrence(ShapeFiles[0], "t_shape");
    NoOccurrence(ShapeFiles[0], "triangle");
  }

  /** The triangle file is recognised as a triangle and not as a T-shape. */
  lemma TriangleFileIsTriangle()
    ensures !Includes(ShapeFiles[1], "t_shape") && Includes(ShapeFiles[1], "triangle")
  {
    assert OccursAt(ShapeFiles[1], "triangle", 9);
    NoOccurrence(ShapeFiles[1], "t_shape");
  }

  /** The T-shape file is recognised as a T-shape and not as a triangle, so the
      order of the tests in drawRoom and changeValues does not matter. */
  lemma TShapeFileIsTShape()
    ensures Includes(ShapeFiles[2], "t_shape") && !Includes(ShapeFiles[2], "triangle")
  {
    assert OccursAt(ShapeFiles[2], "t_shape", 9);
    NoOccurrence(ShapeFiles[2], "triangle");
  }

  /** sub does not occur in s when no position of s holds sub's first two
      characters in a row. */
  lemma NoOccurrence(s: string, sub: string)
    requires |sub| >= 2
    requires forall i :: 0 <= i < |s| - 1 ==> !(s[i] == sub[0] && s[i + 1] == sub[1])
    ensures !Includes(s, sub)
  {
    forall i | 0 <= i <= |s| - |sub|
      ensures !OccursAt(s, sub, i)
    {
      var w := s[i..i + |sub|];
      assert w[0] == s[i] && w[1] == s[i + 1];
    }
  }

  /** The two segments drawn as a dimension pair, and how they are drawn. */
  datatype Overlay = Overlay(primary: Segment, secondary: Segment, config: DimensionConfig)

  /** What a redraw leaves behind: the triangle options (drawTriangle recomputes
      them), whether the walls were drawn, and the dimension pair drawn, if any. */
  datatype Frame = Frame(options: seq<TriangleOption>, wallsShown: bool, overlay: Option<Overlay>)

  /** |p2.y - p1.y| < 5: the walls drawTShape treats as horizontal. */
  predicate NearHorizontal(s: Segment)
  {
    var dy := s.p2.y - s.p1.y;
    (if dy < 0.0 then -dy else dy) < 5.0
  }

  /** The mean height (p1.y + p2.y) / 2 of a segment. */
  function MeanY(s: Segment): real
  {
    (s.p1.y + s.p2.y) / 2.0
  }

  /** The lowest near-horizontal wall, the first one of least mean height. */
  function BottomOf(segs: seq<Segment>): (r: Option<Segment>)
    ensures r.Some? ==> r.value in segs && NearHorizontal(r.value)
  {
    if segs == [] then None
    else
      var init := segs[..|segs| - 1];
      var s := segs[|segs| - 1];
      var b := BottomOf(init);
      if NearHorizontal(s) && (b.None? || MeanY(s) < MeanY(b.value)) then Some(s) else b
  }

  /** A bottom wall is found exactly when some wall is near-horizontal, and no
      near-horizontal wall lies lower. */
  lemma {:induction false} BottomOfIsLowest(segs: seq<Segment>)
    ensures BottomOf(segs).Some? <==> exists s :: s in segs && NearHorizontal(s)
    ensures BottomOf(segs).Some? ==>
      forall s :: s in segs && NearHorizontal(s) ==> MeanY(BottomOf(segs).value) <= MeanY(s)
  {
    if segs != [] {
      var init := segs[..|segs| - 1];
      assert segs == init + [segs[|segs| - 1]];
      BottomOfIsLowest(init);
    }
  }

  /** Of several lowest walls the first is kept: every near-horizontal wall
      listed before the chosen one lies strictly higher. */
  lemma {:induction false} BottomOfIsFirst(segs: seq<Segment>)
    ensures BottomOf(segs).Some? ==>
      exists i :: 0 <= i < |segs| && segs[i] == BottomOf(segs).value &&
        forall k :: 0 <= k < i && NearHorizontal(segs[k]) ==> MeanY(BottomOf(segs).value) < MeanY(segs[k])
  {
    if segs != [] {
      var n := |segs| - 1;
      var init, s := segs[..n], segs[n];
      var b := BottomOf(init);
      BottomOfIsFirst(init);
      BottomOfIsLowest(init);
      if NearHorizontal(s) && (b.None? || MeanY(s) < MeanY(b.value)) {
        forall k | 0 <= k < n && NearHorizontal(segs[k])
          ensures MeanY(s) < MeanY(segs[k])
        {
          assert segs[k] == init[k];
        }
      } else if b.Some? {
        var i :| 0 <= i < |init| && init[i] == b.value &&
          forall k :: 0 <= k < i && NearHorizontal(init[k]) ==> MeanY(b.value) < MeanY(init[k]);
        assert segs[i] == b.value;
        forall k | 0 <= k < i && NearHorizontal(segs[k])
          ensures MeanY(b.value) < MeanY(segs[k])
        {
          assert segs[k] == init[k];
        }
      }
    }
  }

  /** The highest near-horizontal wall, the first one of greatest mean height. */
  function TopOf(segs: seq<Segment>): (r: Option<Segment>)
    ensures r.Some? ==> r.value in segs && NearHorizontal(r.value)
  {
    if segs == [] then None
    else
      var init := segs[..|segs| - 1];
      var s := segs[|segs| - 1];
      var t := TopOf(init);
      if NearHorizontal(s) && (t.None? || MeanY(s) > MeanY(t.value)) then Some(s) else t
  }

  /** A top wall is found exactly when some wall is near-horizontal, and no
      near-horizontal wall lies higher. */
  lemma {:induction false} TopOfIsHighest(segs: seq<Segment>)
    ensures TopOf(segs).Some? <==> exists s :: s in segs && NearHorizontal(s)
    ensures TopOf(segs).Some? ==>
      forall s :: s in segs && NearHorizontal(s) ==> MeanY(s) <= MeanY(TopOf(segs).value)
  {
    if segs != [] {
      var init := segs[..|segs| - 1];
      assert segs == init + [segs[|segs| - 1]];
      TopOfIsHighest(init);
    }
  }

  /** Of several highest walls the first is kept: every near-horizontal wall
      listed before the chosen one lies strictly lower. */
  lemma {:induction false} TopOfIsFirst(segs: seq<Segment>)
    ensures TopOf(segs).Some? ==>
      exists i :: 0 <= i < |segs| && segs[i] == TopOf(segs).value &&
        forall k :: 0 <= k < i && NearHorizontal(segs[k]) ==> MeanY(segs[k]) < MeanY(TopOf(segs).value)
  {
    if segs != [] {
      var n := |segs| - 1;
      var init, s := segs[..n], segs[n];
      var t := TopOf(init);
      TopOfIsFirst(init);
      TopOfIsHighest(init);
      if NearHorizontal(s) && (t.None? || MeanY(s) > MeanY(t.value)) {
        forall k | 0 <= k < n && NearHorizontal(segs[k])
          ensures MeanY(segs[k]) < MeanY(s)
        {
          assert segs[k] == init[k];
        }
      } else if t.Some? {
        var i :| 0 <= i < |init| && init[i] == t.value &&
          forall k :: 0 <= k < i && NearHorizontal(init[k]) ==> MeanY(init[k]) < MeanY(t.value);
        assert segs[i] == t.value;
        forall k | 0 <= k < i && NearHorizontal(segs[k])
          ensures MeanY(segs[k]) < MeanY(t.value)
        {
          assert segs[k] == init[k];
        }
      }
    }
  }

  /** The selection loop of drawTShape: one pass keeping the lowest and the
      highest near-horizontal wall. bottomY and topY start at +Infinity and
      -Infinity, written here as "no wall chosen yet". */
  method SelectTShape(segs: seq<Segment>) returns (bottom: Option<Segment>, top: Option<Segment>)
    ensures bottom == BottomOf(segs) && top == TopOf(segs)
  {
    bottom, top := None, None;
    var bottomY, topY := 0.0, 0.0;
    var i := 0;
    while i < |segs|
      invariant 0 <= i <= |segs|
      invariant bottom == BottomOf(segs[..i]) && top == TopOf(segs[..i])
      invariant bottom.Some? ==> bottomY == MeanY(bottom.value)
      invariant top.Some? ==> topY == MeanY(top.value)
    {
      assert segs[..i + 1][..i] == segs[..i];
      var seg := segs[i];
      var dy := seg.p2.y - seg.p1.y;
      if dy < 0.0 {
        dy := -dy;
      }
      if dy < 5.0 {
        var avgY := (seg.p1.y + seg.p2.y) / 2.0;
        if bottom.None? || avgY < bottomY {
          bottomY := avgY;
          bottom := Some(seg);
        }
        if top.None? || avgY > topY {
          topY := avgY;
          top := Some(seg);
        }
      }
      i := i + 1;
    }
    assert segs[..i] == segs;
  }

  /** The reference point drawTShape falls back to when no top wall was found:
      the middle of the top edge of the bounding box. */
  function FallbackReference(segs: seq<Segment>): Point
    requires segs != []
  {
    var b := BoundsOf(segs);
    Point((b.minX + b.maxX) / 2.0, b.maxY)
  }

  /** The point the height of a T-shape starts from: the centre of the top wall,
      or the fallback when there is none. */
  function ReferencePoint(segs: seq<Segment>, top: Option<Segment>): Point
    requires top.Some? || segs != []
  {
    match top
    case Some(t) => Centre(t)
    case None => FallbackReference(segs)
  }

  /** What drawTShape draws after its selection loop: nothing without a
      near-horizontal wall; otherwise the bottom wall and the height from the
      reference point down to the bottom wall's line. */
  function TShapeOverlay(segs: seq<Segment>, flip: bool): (r: Option<Overlay>)
    ensures r.Some? ==> r.value.primary in segs && NearHorizontal(r.value.primary)
  {
    match BottomOf(segs)
    case None => None
    case Some(b) =>
      var refPoint := ReferencePoint(segs, TopOf(segs));
      Some(Overlay(b, Segment(refPoint, FootOfPerpendicular(b, refPoint)), GetDimensionConfig(flip)))
  }

  /** A T-shape dimension is drawn exactly when some wall is near-horizontal.
      The fallback reference point is never used: a bottom wall is found exactly
      when a top wall is, so the height always starts at the centre of the
      highest near-horizontal wall, and the primary segment is the lowest one. */
  lemma TShapeMeasuresHeight(segs: seq<Segment>, flip: bool)
    ensures TShapeOverlay(segs, flip).Some? <==> exists s :: s in segs && NearHorizontal(s)
    ensures TShapeOverlay(segs, flip).Some? ==>
      var o := TShapeOverlay(segs, flip).value;
      BottomOf(segs).Some? && TopOf(segs).Some? &&
      o.primary == BottomOf(segs).value &&
      o.secondary == Segment(Centre(TopOf(segs).value), FootOfPerpendicular(o.primary, Centre(TopOf(segs).value))) &&
      forall s :: s in segs && NearHorizontal(s) ==> MeanY(o.primary) <= MeanY(s) <= MeanY(TopOf(segs).value)
  {
    BottomOfIsLowest(segs);
    TopOfIsHighest(segs);
  }

  /** The T-shape height ends on the bottom wall's line and is orthogonal to it. */
  lemma TShapeHeightIsPerpendicular(segs: seq<Segment>, flip: bool)
    requires TShapeOverlay(segs, flip).Some?
    requires TShapeOverlay(segs, flip).value.primary.p1 != TShapeOverlay(segs, flip).value.primary.p2
    ensures var o := TShapeOverlay(segs, flip).value;
      Cross(Sub(o.secondary.p2, o.primary.p1), Direction(o.primary)) == 0.0 &&
      DotProduct(Sub(o.secondary.p1, o.secondary.p2), Direction(o.primary)) == 0.0
  {
    var o := TShapeOverlay(segs, flip).value;
    FootIsProjection(o.primary, o.secondary.p1);
  }

  /** What drawTriangle leaves behind. With fewer than three distinct endpoints
      it returns before drawing anything; otherwise it recomputes the options,
      and draws the walls and the chosen decomposition when the option index
      is in range. */
  function TriangleFrame(segs: seq<Segment>, flip: bool, options: seq<TriangleOption>, idx: nat): (r: Frame)
    ensures |Dedup(Endpoints(segs))| < 3 ==> r.options == options && !r.wallsShown && r.overlay.None?
    ensures |Dedup(Endpoints(segs))| >= 3 ==> |r.options| == 3 && (r.wallsShown <==> idx < 3)
    ensures r.overlay.Some? <==> r.wallsShown
  {
    var pts := Dedup(Endpoints(segs));
    if |pts| < 3 then Frame(options, false, None)
    else
      var opts := ComputeTriangleOptions(pts);
      if idx < |opts| then
        Frame(opts, true, Some(Overlay(opts[idx].baseSeg, opts[idx].perpSeg, GetDimensionConfig(flip))))
      else Frame(opts, false, None)
  }

  /** A triangle dimension is a side of the triangle formed by the first three
      distinct wall endpoints, with the height dropped onto it from the opposite
      vertex. */
  lemma TriangleShowsDecomposition(segs: seq<Segment>, flip: bool, options: seq<TriangleOption>, idx: nat)
    requires TriangleFrame(segs, flip, options, idx).overlay.Some?
    ensures var pts := Dedup(Endpoints(segs));
      var o := TriangleFrame(segs, flip, options, idx).overlay.value;
      |pts| >= 3 && idx < 3 &&
      o.primary == Segment(pts[idx], pts[(idx + 1) % 3]) &&
      o.secondary.p1 == pts[(idx + 2) % 3] &&
      (pts[idx] != pts[(idx + 1) % 3] ==>
        DotProduct(Direction(o.secondary), Direction(o.primary)) == 0.0)
  {
    var pts := Dedup(Endpoints(segs));
    var opts := ComputeTriangleOptions(pts);
    var base := Segment(pts[idx], pts[(idx + 1) % 3]);
    assert opts[idx] == Decompose(base, pts[(idx + 2) % 3]);
    DecomposeWellFormed(base, pts[(idx + 2) % 3]);
  }

  /** The distinct endpoints a triangle is drawn from never repeat, so every
      side of the triangle has non-zero length. */
  lemma TriangleSidesProper(segs: seq<Segment>, k: nat)
    requires |Dedup(Endpoints(segs))| >= 3 && k < 3
    ensures var pts := Dedup(Endpoints(segs)); pts[k] != pts[(k + 1) % 3]
  {
    DedupDistinct(Endpoints(segs));
  }

  /** What drawRoom leaves behind, for a viewer with a drawing context: the
      T-shape drawing, the triangle drawing, or the walls and the given pair. */
  function Redraw(file: string, segs: seq<Segment>, flip: bool, options: seq<TriangleOption>, idx: nat, pair: Option<SegmentPair>): (r: Frame)
    ensures Includes(file, "t_shape") || !Includes(file, "triangle") ==> r.wallsShown && r.options == options
  {
    if Includes(file, "t_shape") then Frame(options, true, TShapeOverlay(segs, flip))
    else if Includes(file, "triangle") then TriangleFrame(segs, flip, options, idx)
    else
      match pair
      case Some(p) => Frame(options, true, Some(Overlay(p.0, p.1, GetDimensionConfig(flip))))
      case None => Frame(options, true, None)
  }

  /** For a plain room the pair passed in is drawn as it is: the first segment
      in the primary colour with the primary label, the second in the other. */
  lemma RedrawShowsPair(file: string, segs: seq<Segment>, flip: bool, options: seq<TriangleOption>, idx: nat, p: SegmentPair)
    requires !Includes(file, "t_shape") && !Includes(file, "triangle")
    ensures var f := Redraw(file, segs, flip, options, idx, Some(p));
      f.options == options && f.wallsShown && f.overlay.Some? &&
      f.overlay.value.primary == p.0 && f.overlay.value.secondary == p.1 &&
      f.overlay.value.config.primaryLabel == (if flip then "Width" else "Length")
  {
  }

  /** A shape file's content: corners and walls, either of which may be missing. */
  datatype ShapeData = ShapeData(corners: Option<seq<Corner>>, walls: Option<seq<Wall>>)

  /** Whether loading a shape file computes triangle options: a triangle file
      whose walls have at least three distinct endpoints. */
  predicate LoadsTriangle(file: string, segs: seq<Segment>)
  {
    Includes(file, "triangle") && |Dedup(Endpoints(segs))| >= 3
  }

  /** The triangle options after loading: the three decompositions of the
      triangle when LoadsTriangle holds, the previous options otherwise. */
  function LoadedOptions(file: string, segs: seq<Segment>, options0: seq<TriangleOption>): (r: seq<TriangleOption>)
    ensures LoadsTriangle(file, segs) ==> |r| == 3
  {
    if LoadsTriangle(file, segs) then ComputeTriangleOptions(Dedup(Endpoints(segs))) else options0
  }

  /** The option cursor after loading: back on the first option when fresh
      options were computed, unchanged otherwise. */
  function LoadedIndex(file: string, segs: seq<Segment>, index0: nat): nat
  {
    if LoadsTriangle(file, segs) then 0 else index0
  }

  class RoomViewer {
    /** Whether the canvas gave a 2D drawing context. */
    var hasContext: bool
    var segments: seq<Segment>
    var allPairs: seq<SegmentPair>
    var flipInPair: bool
    var currentPairIndex: nat
    var triangleOptions: seq<TriangleOption>
    var currentTriangleOptionIndex: nat
    var currentShapeFile: string
    /** Whether the last redraw drew the walls. */
    var wallsShown: bool
    /** The dimension pair drawn by the last redraw, if any. */
    var overlay: Option<Overlay>

    /** The initial values of useRoomViewer's refs; no context yet. */
    constructor ()
      ensures !hasContext && segments == [] && allPairs == [] && !flipInPair
      ensures currentPairIndex == 0 && triangleOptions == [] && currentTriangleOptionIndex == 0
      ensures currentShapeFile == "" && !wallsShown && overlay == None
    {
      hasContext := false;
      segments := [];
      allPairs := [];
      flipInPair := false;
      currentPairIndex := 0;
      triangleOptions := [];
      currentTriangleOptionIndex := 0;
      currentShapeFile := "";
      wallsShown := false;
      overlay := None;
    }

    /** The cursors point into their lists: changeValues can index the pair
      list, and the triangle cursor addresses one of three options. */
    predicate CursorsInRange()
      reads this
    {
      (allPairs != [] ==> currentPairIndex < |allPairs|) &&
      (triangleOptions == [] || |triangleOptions| == 3) &&
      currentTriangleOptionIndex < 3
    }

    /** drawRoom(pair): without a context nothing happens; otherwise the canvas
      is cleared and redrawn according to the shape file's kind. */
    method DrawRoom(pair: Option<SegmentPair>)
      modifies this`triangleOptions, this`wallsShown, this`overlay
      ensures Redrawn(old(triangleOptions), old(wallsShown), old(overlay), pair)
      ensures triangleOptions == old(triangleOptions) || |triangleOptions| == 3
    {
      if !hasContext {
        return;
      }
      wallsShown, overlay := false, None;
      if Includes(currentShapeFile, "t_shape") {
        DrawTShape();
      } else if Includes(currentShapeFile, "triangle") {
        DrawTriangle();
      } else {
        wallsShown := true;
        if pair.Some? {
          overlay := Some(Overlay(pair.value.0, pair.value.1, GetDimensionConfig(flipInPair)));
        }
      }
    }

    /** drawTShape: draws the walls, selects the bottom and top walls, and draws
      the bottom wall with the height from the reference point. */
    method DrawTShape()
      modifies this`wallsShown, this`overlay
      ensures wallsShown
      ensures overlay == (if BottomOf(segments).Some? then TShapeOverlay(segments, flipInPair) else old(overlay))
    {
      wallsShown := true;
      var bottom, top := SelectTShape(segments);
      if bottom.None? {
        return;
      }
      var refPoint := ReferencePoint(segments, top);
      var foot := FootOfPerpendicular(bottom.value, refPoint);
      overlay := Some(Overlay(bottom.value, Segment(refPoint, foot), GetDimensionConfig(flipInPair)));
    }

    /** drawTriangle: collects the distinct endpoints (the same loop as
      extractUniquePoints), gives up below three, recomputes the options and
      draws the chosen one if the cursor addresses one. */
    method DrawTriangle()
      modifies this`triangleOptions, this`wallsShown, this`overlay
      ensures var f := TriangleFrame(segments, flipInPair, old(triangleOptions), currentTriangleOptionIndex);
        triangleOptions == f.options &&
        (f.wallsShown ==> wallsShown && overlay == f.overlay) &&
        (!f.wallsShown ==> wallsShown == old(wallsShown) && overlay == old(overlay))
    {
      var points := ExtractUniquePoints(segments);
      if |points| < 3 {
        return;
      }
      triangleOptions := ComputeTriangleOptions(points);
      if currentTriangleOptionIndex >= |triangleOptions| {
        return;
      }
      var option := triangleOptions[currentTriangleOptionIndex];
      wallsShown := true;
      overlay := Some(Overlay(option.baseSeg, option.perpSeg, GetDimensionConfig(flipInPair)));
    }

    /** changeValues: for a triangle, moves to the next decomposition; for a
      room, shows the current pair flipped if its walls differ in length and it
      is not flipped yet, and otherwise moves to the next pair unflipped. Reading
      a pair past the end of the list throws; `threw` reports it. */
    method ChangeValues() returns (threw: bool)
      modifies this`flipInPair, this`currentPairIndex, this`currentTriangleOptionIndex
      modifies this`triangleOptions, this`wallsShown, this`overlay
      ensures old(CursorsInRange()) ==> CursorsInRange() && !threw
      ensures var triangle := Includes(currentShapeFile, "triangle");
        var n := |allPairs|;
        if triangle then
          !threw && currentPairIndex == old(currentPairIndex) && flipInPair == old(flipInPair) &&
          if old(triangleOptions) == [] then
            currentTriangleOptionIndex == old(currentTriangleOptionIndex) &&
            triangleOptions == old(triangleOptions) && wallsShown == old(wallsShown) && overlay == old(overlay)
          else
            currentTriangleOptionIndex == (old(currentTriangleOptionIndex) + 1) % |old(triangleOptions)| &&
            Redrawn(old(triangleOptions), old(wallsShown), old(overlay), None)
        else
          currentTriangleOptionIndex == old(currentTriangleOptionIndex) &&
          if n == 0 || old(currentPairIndex) >= n then
            threw == (n != 0) &&
            currentPairIndex == old(currentPairIndex) && flipInPair == old(flipInPair) &&
            triangleOptions == old(triangleOptions) && wallsShown == old(wallsShown) && overlay == old(overlay)
          else
            !threw &&
            var p := allPairs[old(currentPairIndex)];
            if VectorLength(p.0) != VectorLength(p.1) && !old(flipInPair) then
              flipInPair && currentPairIndex == old(currentPairIndex) &&
              Redrawn(old(triangleOptions), old(wallsShown), old(overlay), Some(p))
            else
              !flipInPair && currentPairIndex == (old(currentPairIndex) + 1) % n &&
              Redrawn(old(triangleOptions), old(wallsShown), old(overlay), Some(allPairs[currentPairIndex]))
    {
      threw := false;
      if Includes(currentShapeFile, "triangle") {
        if |triangleOptions| == 0 {
          return;
        }
        currentTriangleOptionIndex := (currentTriangleOptionIndex + 1) % |triangleOptions|;
        DrawRoom(None);
      } else {
        if |allPairs| == 0 {
          return;
        }
        if currentPairIndex >= |allPairs| {
          threw := true;
          return;
        }
        var (s1, s2) := allPairs[currentPairIndex];
        if VectorLength(s1) != VectorLength(s2) && !flipInPair {
          flipInPair := true;
          DrawRoom(Some((s1, s2)));
          return;
        }
        currentPairIndex := (currentPairIndex + 1) % |allPairs|;
        flipInPair := false;
        DrawRoom(Some(allPairs[currentPairIndex]));
      }
    }

    /** The drawing state after a redraw with the given pair from the current
      fields, given the drawing state before it. */
    predicate Redrawn(options: seq<TriangleOption>, shown: bool, drawn: Option<Overlay>, pair: Option<SegmentPair>)
      reads this
    {
      var f := Redraw(currentShapeFile, segments, flipInPair, options, currentTriangleOptionIndex, pair);
      if hasContext then triangleOptions == f.options && wallsShown == f.wallsShown && overlay == f.overlay
      else triangleOptions == options && wallsShown == shown && overlay == drawn
    }

    /** initialize, after the shape file has been fetched: `ctxAvailable` is
      whether the canvas gave a context, `file` the randomly picked shape file
      and `response` the parsed JSON, None when the fetch or the parse failed.
      Without corners or walls nothing more happens. Neither the pair cursor
      nor the flip is reset. */
    method Initialize(ctxAvailable: bool, file: string, response: Option<ShapeData>)
      modifies this`hasContext, this`currentShapeFile, this`segments, this`allPairs
      modifies this`triangleOptions, this`currentTriangleOptionIndex, this`wallsShown, this`overlay
      ensures hasContext == ctxAvailable && currentShapeFile == file
      ensures response.None? || response.value.corners.None? || response.value.walls.None? ==>
        segments == old(segments) && allPairs == old(allPairs) &&
        triangleOptions == old(triangleOptions) && currentTriangleOptionIndex == old(currentTriangleOptionIndex) &&
        wallsShown == old(wallsShown) && overlay == old(overlay)
      ensures old(CursorsInRange()) && old(currentPairIndex) == 0 ==> CursorsInRange()
      ensures response.Some? && response.value.corners.Some? && response.value.walls.Some? ==>
        Loaded(response.value.corners.value, response.value.walls.value,
          old(triangleOptions), old(currentTriangleOptionIndex), old(wallsShown), old(overlay))
    {
      hasContext := ctxAvailable;
      currentShapeFile := file;
      if response.None? || response.value.corners.None? || response.value.walls.None? {
        return;
      }
      Load(response.value.corners.value, response.value.walls.value);
    }

    /** The state after a shape file with these corners and walls was loaded
      into a viewer whose triangle options, option cursor and drawing were
      options0, index0, shown0 and drawn0: the walls, their perpendicular
      pairs, the triangle options and cursor of LoadedOptions and LoadedIndex,
      and the room drawn with the first pair. */
    predicate Loaded(corners: seq<Corner>, walls: seq<Wall>, options0: seq<TriangleOption>, index0: nat,
                     shown0: bool, drawn0: Option<Overlay>)
      reads this
    {
      segments == SegmentsOf(corners, walls) &&
      allPairs == PairsAt(segments, PerpendicularIndexPairs(segments)) &&
      currentTriangleOptionIndex == LoadedIndex(currentShapeFile, segments, index0) &&
      Redrawn(LoadedOptions(currentShapeFile, segments, options0), shown0, drawn0,
        if allPairs == [] then None else Some(allPairs[0]))
    }

    /** The part of initialize that runs on valid shape data. */
    method Load(corners: seq<Corner>, walls: seq<Wall>)
      modifies this`segments, this`allPairs, this`triangleOptions, this`currentTriangleOptionIndex
      modifies this`wallsShown, this`overlay
      ensures Loaded(corners, walls, old(triangleOptions), old(currentTriangleOptionIndex), old(wallsShown), old(overlay))
      ensures old(CursorsInRange()) && currentPairIndex == 0 ==> CursorsInRange()
    {
      LoadWalls(corners, walls);
      ghost var options0, shown0, drawn0 := old(triangleOptions), old(wallsShown), old(overlay);
      LoadTriangle();
      ghost var options := triangleOptions;
      var pair := if allPairs == [] then None else Some(allPairs[0]);
      DrawRoom(pair);
      assert Redrawn(options, shown0, drawn0, pair);
    }

    /** The walls of the loaded shape file and their perpendicular pairs. */
    method LoadWalls(corners: seq<Corner>, walls: seq<Wall>)
      modifies this`segments, this`allPairs
      ensures segments == SegmentsOf(corners, walls)
      ensures allPairs == PairsAt(segments, PerpendicularIndexPairs(segments))
    {
      segments := BuildSegments(corners, walls);
      allPairs := FindPerpendicularPairs(segments);
    }

    /** The triangle branch of initialize. */
    method LoadTriangle()
      modifies this`triangleOptions, this`currentTriangleOptionIndex
      ensures triangleOptions == LoadedOptions(currentShapeFile, segments, old(triangleOptions))
      ensures currentTriangleOptionIndex == LoadedIndex(currentShapeFile, segments, old(currentTriangleOptionIndex))
    {
      if Includes(currentShapeFile, "triangle") {
        var pts := ExtractUniquePoints(segments);
        if |pts| >= 3 {
          triangleOptions := ComputeTriangleOptions(pts);
          currentTriangleOptionIndex := 0;
        }
      }
    }
  }
}
