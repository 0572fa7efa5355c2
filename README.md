# Room viewer: a Dafny model

This project models the computational core of a floor-plan viewer. The viewer
loads a shape file of corners and walls and turns the walls into segments. It
then finds the pairs of walls that meet at roughly a right angle and draws one
pair at a time as a "Length"/"Width" dimension pair. Two shape kinds are drawn
differently:

- a T-shape: the lowest near-horizontal wall, with the height from the highest one;
- a triangle: one side of the triangle with the height dropped onto it.

A button cycles through what is shown (`changeValues`).

The model has five modules, one file each:

- `Types` (`types.dfy`): the records of the plan: points, segments, walls,
  corners and triangle options. Coordinates are exact reals. A length that the
  program gets from `Math.sqrt` or `Math.hypot` is kept as its square
  (`Sqrt(q)`) or as `NaN`.
- `Geometry` (`geometry.dfy`): the dot product, segment length, offset
  midpoint, bounding box (`getBounds`, with its collecting loop) and the
  near-90-degree test.
- `Triangle` (`triangle.dfy`): the foot of the perpendicular, the
  point-to-line distance, the three base/height decompositions, and
  `extractUniquePoints` (a loop over a seen-set).
- `SegmentUtils` (`segment_utils.dfy`): `buildSegments` (a loop over the
  walls), `findPerpendicularPairs` (a double loop with a seen-set of unordered
  index pairs) and `getDimensionConfig`.
- `RoomViewer` (`room_viewer.dfy`): the state of the `useRoomViewer` hook as a
  class with one field per ref. Its methods are `changeValues`, the three
  drawing routines and `initialize` after the fetch. Each drawing routine
  records only what it leaves behind: the triangle options it recomputes,
  whether it drew the walls, and the dimension pair it drew.

How the model is stated:

- Each loop is a method proved equal to a recursive specification function.
- The properties the program relies on are lemmas about those functions:
  - the deduplicated points are distinct and are exactly the endpoints;
  - the pair list holds each perpendicular unordered pair once, in order;
  - the foot of the perpendicular lies on the base line and its residual is orthogonal to the base;
  - the three decompositions of a triangle measure the same area;
  - the T-shape height starts at the highest near-horizontal wall.

Some behaviour of the code is worth knowing:

- `useRoomViewer.ts` imports `computeTriangleOptions`, `extractUniquePoints`
  and `footOfPerpendicular` from `../utils/geometry`. They are defined in
  `src/utils/triangle.ts`, and `footOfPerpendicular` is not exported there. The
  model uses the definitions in `triangle.ts`.
- `drawTShape` has a fallback reference point, the top middle of the bounding
  box, for when no top wall was found. A bottom wall is found exactly when a
  top wall is, so the fallback never decides what is drawn.
  `RoomViewer.TShapeMeasuresHeight` proves this.
- `initialize` resets neither the pair cursor nor the flip. If the pair cursor
  is at or past the end of the pair list, `changeValues` destructures
  `undefined` and throws. `ChangeValues` reports this as `threw`. It also
  proves that, with the cursors in range, nothing throws and the cursors stay
  in range.

## Model

| member | source | states |
|---|---|---|
| Geometry.DotProductSymmetric | src/utils/geometry.ts:3-5 | The dot product does not depend on the order of its arguments. |
| Geometry.DotProductSelf | src/utils/geometry.ts:3-5 | The dot product of a vector with itself is its squared norm. It is never negative, and it is zero only for the zero vector. |
| Geometry.SquaredLength | src/utils/geometry.ts:7-10 | dx * dx + dy * dy is never negative and is positive exactly when the endpoints differ. |
| Geometry.VectorLength | src/utils/geometry.ts:7-11 | The length is a square root, never NaN and never negative, and it is positive exactly when the endpoints differ. |
| Geometry.VectorLengthReversed | src/utils/geometry.ts:7-11 | Swapping a segment's endpoints leaves its length unchanged. |
| Geometry.Midpoint | src/utils/geometry.ts:13-20 | The labelled point is NaN (0 divided by 0) exactly for a segment of length zero. |
| Geometry.MidpointAlongNormal | src/utils/geometry.ts:13-20 | For a proper segment, the point is the true midpoint moved by offset along the unit normal. The displacement is orthogonal to the segment, and offset 0 gives the true midpoint. |
| Geometry.Endpoints | src/utils/geometry.ts:23-26 | The collected point list has two entries per segment. |
| Geometry.EndpointsAt | src/utils/geometry.ts:23-26 | Segment k contributes its p1 at position 2k and its p2 at position 2k + 1. |
| Geometry.EndpointSource | src/utils/geometry.ts:23-26 | Every collected point is p1 or p2 of the segment at half its position. |
| Geometry.EndpointsMembers | src/utils/geometry.ts:23-26 | A point is collected exactly when it is an endpoint of some segment. |
| Geometry.MinOf | src/utils/geometry.ts:30-32 | Math.min over a non-empty list is a member of the list, and no member is below it. |
| Geometry.MaxOf | src/utils/geometry.ts:31-33 | Math.max over a non-empty list is a member of the list, and no member is above it. |
| Geometry.GetBounds | src/utils/geometry.ts:22-35 | The loop-and-reduce computation gives the bounding box of all endpoints. The box is empty exactly when there are no segments. |
| Geometry.BoundsContainEndpoints | src/utils/geometry.ts:22-35 | Every endpoint of every segment lies inside the box. |
| Geometry.BoundsAttained | src/utils/geometry.ts:27-33 | Each of minX, maxX, minY and maxY is the coordinate of some endpoint. |
| Geometry.BoundsExample | src/utils/geometry.ts:22-35 | The walls [0,0]-[4,0] and [4,0]-[4,3] give minX 0, maxX 4, minY 0 and maxY 3. |
| Geometry.ArePerpendicular | src/utils/geometry.ts:37-48 | The test is false whenever a segment has length zero, because the cosine is then NaN. |
| Geometry.ArePerpendicularSymmetric | src/utils/geometry.ts:37-48 | The test does not depend on the order of the two segments. |
| Geometry.ArePerpendicularReversed | src/utils/geometry.ts:41-47 | Reversing a segment does not change the verdict. |
| Geometry.RightAngleIsPerpendicular | src/utils/geometry.ts:37-48 | Two proper segments whose dot product is 0 pass the test. |
| Geometry.NotPerpendicularToItself | src/utils/geometry.ts:37-48 | No segment passes the test with itself. |
| Triangle.FootIsProjection | src/utils/triangle.ts:47-54 | For a proper base, the foot lies on the base line (it is A + t(B - A)), and P - foot is orthogonal to the base. |
| Triangle.FootOfPerpendicular | src/utils/triangle.ts:47-54 | When the base has length zero (denom is 0), the foot is the first endpoint A. |
| Triangle.PerpendicularDistance | src/utils/triangle.ts:39-45 | The distance is NaN exactly when the base has length zero. |
| Triangle.NumeratorIsCross | src/utils/triangle.ts:39-45 | The numerator is the cross product of P - A with B - A, so it is 0 on a degenerate base. |
| Triangle.DistanceToFoot | src/utils/triangle.ts:39-54 | For a proper base, the distance reported equals the length of the segment from P to its foot. |
| Triangle.BaseTimesHeight | src/utils/triangle.ts:39-45 | The squared base length times the squared distance equals the squared cross-product numerator. |
| Triangle.Decompose | src/utils/triangle.ts:7-14 | An option records its base and its opposite vertex, and its height segment starts at that vertex. |
| Triangle.DecomposeWellFormed | src/utils/triangle.ts:7-14 | In each option, baseLength is the base's vectorLength and the height starts at the opposite vertex. For a proper base it ends on the base line, is orthogonal to it, and has length perpLength. For a degenerate base it ends at A and its length is NaN. |
| Triangle.ComputeTriangleOptions | src/utils/triangle.ts:4-37 | There are exactly three options: bases (p0,p1), (p1,p2) and (p2,p0), with opposite vertices p2, p0 and p1. Each option is the decomposition of its own base and opposite vertex, so its baseLength, height and perpLength are those of `Triangle.DecomposeWellFormed`. |
| Triangle.OptionsUseFirstThree | src/utils/triangle.ts:7-32 | Points after the third do not affect the options. |
| Triangle.OptionsShareArea | src/utils/triangle.ts:7-36 | For every option with a proper base, base squared times height squared equals the square of twice the triangle's area. |
| Triangle.Dedup | src/utils/triangle.ts:56-73 | The deduplicated list has the same members as its input and is no longer than it. |
| Triangle.DedupDistinct | src/utils/triangle.ts:56-73 | No point is listed twice. |
| Triangle.DedupPrefix | src/utils/triangle.ts:56-73 | Points keep the order in which they were first seen: more input only appends. |
| Triangle.DedupDistinctUnchanged | src/utils/triangle.ts:56-73 | A list without repetitions is returned unchanged. |
| Triangle.DedupPush | src/utils/triangle.ts:63-70 | Reading one more point appends it to the list exactly when it has not been seen. |
| Triangle.ExtractUniquePoints | src/utils/triangle.ts:56-73 | The loop with the seen-set returns the endpoints deduplicated in order of first appearance. |
| Triangle.AddIfUnseen | src/utils/triangle.ts:63-70 | With the seen-set holding exactly the listed points, an unseen point is appended and a seen one is skipped, and the set still holds exactly the listed points. |
| Triangle.UniquePointsAreEndpoints | src/utils/triangle.ts:56-73 | The result is free of repetitions, holds exactly the segment endpoints, and has at most two points per segment. |
| SegmentUtils.ConnectedCorners | src/utils/segment-utils.ts:7-11 | The filter returns no more corners than it was given. |
| SegmentUtils.ConnectedCornersMembers | src/utils/segment-utils.ts:7-11 | It keeps exactly the corners whose wallStarts or wallEnds name the wall. |
| SegmentUtils.ConnectedCornersInOrder | src/utils/segment-utils.ts:7-11 | The kept corners stay in their original order: any two kept corners come from distinct input positions, the earlier one first. So each input corner is kept at most once. |
| SegmentUtils.WallSegment | src/utils/segment-utils.ts:12-15 | A wall yields a segment exactly when exactly two corners touch it. |
| SegmentUtils.WallSegmentJoinsCorners | src/utils/segment-utils.ts:12-14 | The segment runs from the position of the earlier-listed touching corner to the later one. |
| SegmentUtils.SegmentsOf | src/utils/segment-utils.ts:4-18 | There is at most one segment per wall. |
| SegmentUtils.BuildSegments | src/utils/segment-utils.ts:4-18 | The loop over the walls returns the segments of the walls, in wall order. |
| SegmentUtils.SegmentsOfWalls | src/utils/segment-utils.ts:4-18 | A segment is returned exactly when some wall of the list yields it. |
| SegmentUtils.SegmentsOfAppend | src/utils/segment-utils.ts:4-18 | Walls are processed independently: the segments of two wall lists are the segments of the first followed by those of the second. |
| SegmentUtils.RowUpToMembers | src/utils/segment-utils.ts:24-31 | Row i of the scan holds exactly the pairs (i, b), with i < b, at which the test holds. |
| SegmentUtils.RowUpToSorted | src/utils/segment-utils.ts:24-31 | Row i is ordered by its second index. |
| SegmentUtils.PairsUpToMembers | src/utils/segment-utils.ts:23-32 | The first k rows hold exactly the pairs (a, b), with a < k and a < b, at which the test holds. |
| SegmentUtils.PairsUpToSorted | src/utils/segment-utils.ts:23-32 | Those pairs are in lexicographic order. |
| SegmentUtils.PerpendicularIndexPairsExact | src/utils/segment-utils.ts:20-34 | The emitted index pairs are exactly the i < j with perpendicular segments, each once, ordered by i and then j. |
| SegmentUtils.PairsAt | src/utils/segment-utils.ts:27-30 | Entry t is the pair of segments at the t-th index pair. |
| SegmentUtils.FindPerpendicularPairs | src/utils/segment-utils.ts:20-34 | The double loop emits (segs[i], segs[j]) for exactly those index pairs. |
| SegmentUtils.CollectPairs | src/utils/segment-utils.ts:21-33 | For any symmetric test, the seen-set double loop emits every unordered pair that passes the test once, as (i, j) with i < j. |
| SegmentUtils.CollectRow | src/utils/segment-utils.ts:24-31 | The inner loop for row i appends exactly row i of the scan. It keeps the seen-set equal to the set of emitted pairs. |
| SegmentUtils.CollectStep | src/utils/segment-utils.ts:25-30 | One (i, j) step skips i == j, skips a seen key and otherwise emits the pair when the test holds. |
| SegmentUtils.Key | src/utils/segment-utils.ts:26 | The key of (i, j) is i and j, the smaller one first. |
| SegmentUtils.KeyIsUnordered | src/utils/segment-utils.ts:26 | Two index pairs have the same key exactly when they are the same unordered pair, so (i, j) and (j, i) share one key. |
| SegmentUtils.SeenKey | src/utils/segment-utils.ts:26-29 | At step (i, j), the sorted key has been seen exactly when j < i and the test holds. This is why the reverse pair is never emitted. |
| SegmentUtils.PairsAreDistinct | src/utils/segment-utils.ts:25-29 | No emitted pair joins a segment with itself or with an equal segment. |
| SegmentUtils.GetDimensionConfig | src/utils/segment-utils.ts:77-85 | Primary and secondary differ in colour and label, the line width is 6, and flip selects the red "Width" or the blue "Length" as primary. |
| SegmentUtils.FlipSwapsRoles | src/utils/segment-utils.ts:77-85 | Flipping swaps primary and secondary, and each label keeps its colour. |
| RoomViewer.SimpleFileIsRoom | src/hooks/useRoomViewer.ts:29-33 | The plain file names neither "t_shape" nor "triangle", so it is drawn as a room. |
| RoomViewer.TriangleFileIsTriangle | src/hooks/useRoomViewer.ts:29-33 | The triangle file contains "triangle" and not "t_shape". |
| RoomViewer.TShapeFileIsTShape | src/hooks/useRoomViewer.ts:29-33 | The T-shape file contains "t_shape" and not "triangle", so the order of the tests does not matter. |
| RoomViewer.BottomOf | src/hooks/useRoomViewer.ts:47-61 | A chosen bottom wall is one of the walls and is near-horizontal. |
| RoomViewer.BottomOfIsLowest | src/hooks/useRoomViewer.ts:47-61 | A bottom wall is found exactly when some wall is near-horizontal, and no near-horizontal wall has a lower mean y. |
| RoomViewer.BottomOfIsFirst | src/hooks/useRoomViewer.ts:47-55 | Of several equally low walls the first is kept: the strict < means every near-horizontal wall listed before the chosen one lies strictly higher. |
| RoomViewer.TopOf | src/hooks/useRoomViewer.ts:47-61 | A chosen top wall is one of the walls and is near-horizontal. |
| RoomViewer.TopOfIsHighest | src/hooks/useRoomViewer.ts:47-61 | A top wall is found exactly when some wall is near-horizontal, and no near-horizontal wall has a higher mean y. |
| RoomViewer.TopOfIsFirst | src/hooks/useRoomViewer.ts:47-59 | Of several equally high walls the first is kept: the strict > means every near-horizontal wall listed before the chosen one lies strictly lower. |
| RoomViewer.SelectTShape | src/hooks/useRoomViewer.ts:42-61 | The selection loop returns `BottomOf` and `TopOf` of the walls. By `BottomOfIsLowest`, `BottomOfIsFirst`, `TopOfIsHighest` and `TopOfIsFirst`, these are the first lowest and the first highest near-horizontal walls. |
| RoomViewer.TShapeMeasuresHeight | src/hooks/useRoomViewer.ts:62-79 | A T-shape dimension is drawn exactly when some wall is near-horizontal. It pairs the lowest such wall with the segment from the centre of the highest one to its foot on the lowest one's line. |
| RoomViewer.TShapeHeightIsPerpendicular | src/hooks/useRoomViewer.ts:75-76 | When the bottom wall has non-zero length, the T-shape height ends on the bottom wall's line and is orthogonal to it. |
| RoomViewer.TShapeOverlay | src/hooks/useRoomViewer.ts:62-79 | The primary segment of a T-shape dimension is one of the walls and is near-horizontal. |
| RoomViewer.TriangleShowsDecomposition | src/hooks/useRoomViewer.ts:98-115 | A drawn triangle dimension uses side idx of the first three distinct endpoints and the height from the opposite vertex. That height is orthogonal to the side. |
| RoomViewer.TriangleSidesProper | src/hooks/useRoomViewer.ts:83-100 | The sides of the drawn triangle never have length zero. |
| RoomViewer.TriangleFrame | src/hooks/useRoomViewer.ts:82-116 | With fewer than three distinct endpoints nothing is drawn and the options are kept. Otherwise there are three options, and the walls and a dimension are drawn exactly when the option index is below 3. |
| RoomViewer.RedrawShowsPair | src/hooks/useRoomViewer.ts:137-145 | A plain room draws the pair passed in, first segment as primary, with the label selected by the flip. |
| RoomViewer.Redraw | src/hooks/useRoomViewer.ts:118-148 | A T-shape or a plain room always draws the walls and keeps the triangle options. Only the triangle path recomputes options. |
| RoomViewer.LoadedOptions | src/hooks/useRoomViewer.ts:188-194 | A triangle file with at least three distinct endpoints loads exactly three options. |
| RoomViewer.RoomViewer.constructor | src/hooks/useRoomViewer.ts:21-27 | The refs start empty, false, 0 and "". |
| RoomViewer.RoomViewer.DrawRoom | src/hooks/useRoomViewer.ts:118-148 | Without a context nothing changes. Otherwise the drawing state becomes the frame for the file's kind. The options are either unchanged or a fresh list of three. |
| RoomViewer.RoomViewer.DrawTShape | src/hooks/useRoomViewer.ts:39-80 | The walls are drawn, and the T-shape overlay is drawn whenever a bottom wall exists. |
| RoomViewer.RoomViewer.DrawTriangle | src/hooks/useRoomViewer.ts:82-116 | With fewer than three distinct endpoints, nothing changes. Otherwise the options are recomputed; the walls and option idx are drawn only when idx addresses an option. |
| RoomViewer.RoomViewer.ChangeValues | src/hooks/useRoomViewer.ts:150-169 | Triangle: with options, the option cursor advances modulo their count; without options, nothing changes. Room: an empty list changes nothing, and a cursor past the end throws. A pair of unequal lengths, not yet flipped, is flipped and redrawn in place. Otherwise the cursor advances modulo the count and the flip is reset. With cursors in range it never throws and keeps them in range. |
| RoomViewer.RoomViewer.Initialize | src/hooks/useRoomViewer.ts:171-200 | The context and file are always recorded, and missing corners or walls leave the rest unchanged. Otherwise the walls, pairs and triangle options are loaded and the room is drawn with the first pair. Neither the pair cursor nor the flip is reset. |
| RoomViewer.RoomViewer.Load | src/hooks/useRoomViewer.ts:185-196 | Segments and pairs are set, the triangle options and cursor are set only for a triangle with at least three distinct endpoints, and the room is drawn with the first pair or none. |
| RoomViewer.RoomViewer.LoadWalls | src/hooks/useRoomViewer.ts:185-186 | The segments are those of the walls, and the pairs are their perpendicular pairs. |
| RoomViewer.RoomViewer.LoadTriangle | src/hooks/useRoomViewer.ts:188-194 | A triangle file with at least three distinct endpoints gets their three options and the option cursor 0. Any other file keeps both. |

## Left out

- Canvas drawing is not modelled: `drawSegment`, `drawLabelRotated`, `drawDimensionPair`, and the clear, scale and translate calls of `drawRoom`. Each drawing routine only records what it leaves behind (options, whether the walls were drawn, the dimension pair drawn).
- The fetch, the JSON parsing, console logging and the random choice of shape file are parameters of `Initialize`: whether a context exists, the file chosen, and the parsed data (None when the fetch or the parse failed).
- Vue refs are plain fields of the `RoomViewer` class.
- IEEE-754 arithmetic is not modelled. Coordinates are exact reals; there is no rounding, no Infinity and no NaN coordinates. A length from `Math.sqrt` or `Math.hypot` is kept as its square.
- Geometry.Midpoint: the value of `Math.sqrt(dx * dx + dy * dy)` is passed in as `len`, constrained to be the non-negative root of the squared length, because Dafny has no square root.
- Geometry.ArePerpendicular: `acos` and the degree conversion are replaced by the equivalent test on the cosine, |cos| < cos 80 degrees. cos 80 degrees is written as a 17-digit decimal. Floating-point rounding of the computed angle near the 80- and 100-degree boundaries is not captured.
- Geometry.GetBounds: for no segments, the program returns minX Infinity and maxX -Infinity. The model returns `Empty` instead.
- The scale that `drawRoom` derives from the bounds is not modelled (it divides by zero for a single point). It only affects drawing.
- String keys are modelled by the values they encode. The keys of `extractUniquePoints` and `drawTriangle` are points. The keys of `findPerpendicularPairs` are unordered index pairs, smaller index first. The JavaScript `sort` compares "10" and "9" as strings, but it still maps (i, j) and (j, i) to the same key. The collision of -0 and 0 in keys is not modelled.
- SegmentUtils.CollectPairs: the double loop is proved for any symmetric test. `FindPerpendicularPairs` applies it to the perpendicularity test.
- A literal example of the three options for the triangle (0,0), (4,0), (4,3) is not part of the model. Evaluating the nonlinear real arithmetic of the definitions on those literals exceeds the prover's budget. `Triangle.DecomposeWellFormed` and `Triangle.OptionsShareArea` state the general facts such an example would check.
- RoomViewer.RoomViewer.DrawTShape: its fallback reference point (the top middle of the bounding box) is modelled in `ReferencePoint`. It is never reached, so no contract mentions it.
- The documented "longest horizontal wall and total vertical extent" T-shape variant does not appear in the program and is not modelled.
