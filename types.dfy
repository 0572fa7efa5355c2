/** The records of the floor plan: points, segments, the corner/wall records of a
    shape file, and the three base/height decompositions of a triangle. */
module Types {

  datatype Option<T> = None | Some(value: T)

  /** A point [x, y] of the plan; coordinates are exact reals. */
  datatype Point = Point(x: real, y: real)

  /** A segment [p1, p2]: a wall, or a constructed dimension line. */
  datatype Segment = Segment(p1: Point, p2: Point)

  /** A wall is known only by its identifier. */
  datatype Wall = Wall(id: string)

  /** A corner of the plan and the walls that start and end at it. */
  datatype Corner = Corner(id: string, x: real, y: real, wallStarts: seq<Wall>, wallEnds: seq<Wall>)

  /** A number that the program obtains from Math.sqrt or Math.hypot. It is kept
      as its square, `Sqrt(q)` standing for the non-negative square root of q, so
      that no square root has to be computed: two such numbers are equal exactly
      when their squares are. `NaN` is what a division of 0 by 0 yields. */
  datatype Length = NaN | Sqrt(square: real)

  /** One base/height decomposition of a triangle: the base, the vertex opposite
      to it, the base's length, the height segment from that vertex to the base
      line, and the height. */
  datatype TriangleOption = TriangleOption(
    baseSeg: Segment,
    opp: Point,
    baseLength: Length,
    perpSeg: Segment,
    perpLength: Length)
}
