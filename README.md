# Theta maze generator, modelled in Dafny

This project models the core of a generator for circular ("theta") mazes whose
walls are built out of bricks:

- **the maze** (`maze.dfy`, `grid.dfy`, `cell.dfy`). Rings of cells double their
  division count every second ring. A depth-first backtracker carves the maze:
  - it starts at the entrance, division 0 of the outermost ring;
  - it moves to a random unvisited neighbour and opens the wall between;
  - it backs up when it is stuck;
  - it records the way it last came into ring 1 as the path to the centre (each
    step into ring 1 overwrites the one recorded before).

  The central result is about `ThetaMaze.Generate` and the loop invariant
  `Carving`. Generation yields a *perfect* maze:
  - every cell is visited;
  - the open walls are exactly the walls carved, one fewer than the number of cells;
  - every cell has a walk from the entrance through open walls;
  - exactly one wall into the centre is open;
  - the recorded path is a walk from the entrance through that opening into the centre.
- **the wall runs** (`runs.dfy`). Before drawing, consecutive inner walls of one
  ring (and outer walls of the last ring) are grouped into maximal runs.
- **the random numbers** (`sfc32.dfy`). These are the sfc32 generator, on 32-bit
  words with wrap-around, and the scaling of its output into an index.
- **the geometry** (`points.dfy`, `polygon.dfy`, `decompose.dfy`, `arc.dfy`):
  - a polygon object that keeps its bounding box, size and position up to date;
  - its even–odd point-in-polygon test, with Rust's truncating division;
  - the decomposition of a polygon's lattice points into rectangles small enough
    for one brick;
  - the turning of a ring segment into right-angled wedge bricks along both arcs
    plus rectangle bricks for the rectilinear polygon between them.

  The trigonometry and rounding are left uninterpreted (the `Trig` parameter).

Integers are unbounded. The i32 range appears where the code depends on it: the
`i32::MAX`/`i32::MIN` sentinels of `Polygon::new` and the saturating
float-to-int cast.

## Model

| member | source | states |
|---|---|---|
| Cells.NewCell | src/maze/cell.rs:11-18 | a new cell has its inner, right and outer walls standing and is not visited |
| Sfc32.Draw | src/utils/sfc32.rs:7-30 | the statement-by-statement update returns `t = a + b + d` (wrapping) and leaves the state `Step` describes: d + 1, a xor b >> 9, b + c + (c << 3), rotl(c, 21) + t |
| Sfc32.Generator.constructor | src/utils/sfc32.rs:5-6 | the generator's state is the four seed words |
| Sfc32.Rotl21 | src/utils/sfc32.rs:23 | the two shifts joined by an or are a rotation left by 21 places |
| Sfc32.Step | src/utils/sfc32.rs:9-25 | the counter word d goes up by exactly one per draw, wrapping at 2^32 |
| Sfc32.Generator.Next | src/utils/sfc32.rs:7-30 | each call returns the output of the current state and moves to the next state |
| Sfc32.PowerAdds | src/utils/sfc32.rs:5-31 | advancing j + k times is advancing j times and then k times |
| Sfc32.TraceSplit | src/utils/sfc32.rs:5-31 | the outputs of j + k calls are those of the first j followed by those of k calls from the state after j |
| Sfc32.OutputsSplit | src/utils/sfc32.rs:5-31 | the output stream of j + k calls has length j + k and splits after the first j calls |
| Sfc32.GoldenVector | src/utils/sfc32.rs:9-25 | from seed (1, 2, 3, 4) the first output is 7, the next state is (1, 29, 6291463, 5), and the first five outputs are 7, 35, 56623203, 188882335 and 3506797914 |
| Sfc32.Value | src/utils/sfc32.rs:29 | an output word read as a number is below 2^32 |
| Sfc32.Unit | src/utils/sfc32.rs:29 | t / 2^32 lies in [0, 1) |
| Sfc32.RandomRange | src/utils/sfc32.rs:35-42 | the index drawn for n candidates is below n (0 when n = 0) and is floor(v * n / 2^32) |
| Sfc32.RandomRangeIsFloor | src/utils/sfc32.rs:35-42 | the index is the floor of the unit value times n |
| Sfc32.TopRoundsToOne | src/utils/sfc32.rs:40 | each of the 128 largest outputs rounds to 1.0 when the f64 quotient is cast to f32 |
| Sfc32.RoundToF32 | src/utils/sfc32.rs:40 | the f32 value of the draw lies within half an f32 spacing of the exact value t / 2^32 (rounding to nearest) |
| Sfc32.RandomRangeAsWritten | src/utils/sfc32.rs:39-41 | the index as written is the floor of the f32-rounded draw times n |
| Sfc32.RandomRangeAsWrittenReachesN | src/utils/sfc32.rs:40-41 | as written, those outputs give index n, one past the last candidate; the corrected index stays below n |
| Polygons.Polygon.constructor | src/geometry/polygon.rs:25-44 | no points gives bounds (0, 0)-(0, 0) and size 0; otherwise the points are kept and min and max are the lower and upper corners of their bounding box; the object is consistent |
| Polygons.FoldFromSentinels | src/geometry/polygon.rs:28-39 | folding the bounds from (i32::MAX, i32::MAX) and (i32::MIN, i32::MIN) over in-range points gives exactly the bounding box corners |
| Polygons.Polygon.Insert | src/geometry/polygon.rs:46-51 | the points end up reversed in front of the old ones; the bounds take in every new point; size and position follow; consistency is kept |
| Polygons.ReverseIsBackwards | src/geometry/polygon.rs:47-49 | inserting each point at the front puts point i at position n - 1 - i |
| Polygons.ReverseMembers | src/geometry/polygon.rs:47-49 | inserting at the front keeps the same points |
| Polygons.CornersIgnoreOrder | src/geometry/polygon.rs:46-51 | the bounding box does not depend on the order of the points, so the reversal in insert does not change it |
| Polygons.Polygon.Push | src/geometry/polygon.rs:53-56 | the point is appended, the bounds take it in, size and position follow, and consistency is kept |
| Polygons.Polygon.Extend | src/geometry/polygon.rs:59-62 | the points are appended, the bounds take them in, size and position follow, and consistency is kept |
| Polygons.Polygon.Update | src/geometry/polygon.rs:64-70 | the bounds are folded over the points, then size and position are recomputed; the vertices are unchanged |
| Polygons.FoldLowerAppend | src/geometry/polygon.rs:64-67 | folding the lower bound over a + b is folding over a and then over b |
| Polygons.FoldUpperAppend | src/geometry/polygon.rs:64-67 | folding the upper bound over a + b is folding over a and then over b |
| Polygons.FoldLowerExtends | src/geometry/polygon.rs:64-67 | a lower corner of s, folded over ps, is a lower corner of s + ps |
| Polygons.FoldUpperExtends | src/geometry/polygon.rs:64-67 | an upper corner of s, folded over ps, is an upper corner of s + ps |
| Polygons.BoundedExtends | src/geometry/polygon.rs:64-70 | bounds that are the bounding box of s, after update with ps, are the bounding box of s + ps |
| Polygons.LowerAdds | src/geometry/polygon.rs:74-76 | the componentwise minimum with a new point is the lower corner of the points so far plus that point |
| Polygons.UpperAdds | src/geometry/polygon.rs:75-77 | the componentwise maximum with a new point is the upper corner of the points so far plus that point |
| Polygons.Polygon.UpdateBounds | src/geometry/polygon.rs:73-78 | min and max become the componentwise minimum and maximum with the point; nothing else changes |
| Polygons.Polygon.UpdateSize | src/geometry/polygon.rs:80-82 | the size becomes the x and y ranges of the bounds; nothing else changes |
| Polygons.Polygon.UpdatePosition | src/geometry/polygon.rs:86-91 | the position becomes 2 * min + size; nothing else changes |
| Polygons.PositionIsCentre | src/geometry/polygon.rs:80-91 | for ordered bounds the size is max - min and the position is min + max, the centre in half units |
| Polygons.BoundedOrdered | src/geometry/polygon.rs:73-78 | bounds that bound any point are ordered, min <= max |
| Polygons.Polygon.XRange | src/geometry/polygon.rs:93-101 | the x range is the distance between min.x and max.x, whichever is larger |
| Polygons.Polygon.YRange | src/geometry/polygon.rs:103-105 | the y range is the distance between min.y and max.y, whichever is larger |
| Polygons.Polygon.Contains | src/geometry/polygon.rs:113-137 | the answer is: inside the closed bounding box, and an odd number of polygon edges cross the horizontal ray to the right of the point |
| Polygons.TruncDiv | src/geometry/polygon.rs:128 | the quotient's magnitude is the quotient of the magnitudes, and its sign is the product of the signs (rounding toward zero) |
| Polygons.TruncDivAgainstEuclid | src/geometry/polygon.rs:128 | truncating division agrees with Euclidean division for a non-negative dividend, is odd in the dividend, and differs at -1 / 2 |
| Polygons.TruncDivExact | src/geometry/polygon.rs:128 | truncating division undoes an exact multiplication, and 0 divided by anything is 0 |
| Polygons.Intercept | src/geometry/polygon.rs:128 | the computed intersection of the edge with the line at y is the edge's first end when y is that end's y, and its second end when y is the second end's y |
| Polygons.InterceptOnEdge | src/geometry/polygon.rs:127-128 | the computed intersection of a crossing edge lies between the edge's x coordinates |
| Polygons.Crossings | src/geometry/polygon.rs:119-133 | the ray crosses at most one edge per edge examined |
| Polygons.Inside | src/geometry/polygon.rs:113-136 | a point inside lies in the closed bounding box and is crossed by at least one edge |
| Polygons.NoCrossingsAtTop | src/geometry/polygon.rs:122-133 | a ray at or above every vertex crosses no edge |
| Polygons.NoCrossingsAtRight | src/geometry/polygon.rs:122-133 | a ray starting at or right of every vertex crosses no edge |
| Polygons.UpperEdgesOutside | src/geometry/polygon.rs:113-137 | a point on the top or right side of the bounding box is never inside |
| Polygons.RectangleInside | src/geometry/polygon.rs:113-137 | for a rectangle given as (tl, tr, br, bl), contains holds exactly on the half-open box [x0, x1) x [y0, y1) |
| Decompose.RenderAsSquares | src/geometry/decompose.rs:7-99 | the rectangles are, in order, those of the greedy scan's starts: each start is the first untaken contained cell in row-major order with the widest run to its right and then the tallest block below it, emitted whole or halved; every contained point is covered by exactly one rectangle, no other point is covered, and every rectangle is under 1000 units on each side |
| Decompose.Rasterise | src/geometry/decompose.rs:18-32 | grid cell (row, column) is set exactly when the polygon contains (min.x + column, min.y + row) |
| Decompose.GrowWidth | src/geometry/decompose.rs:44-50 | the width is at least 1 and is the longest run of contained, unprocessed cells to the right in the row |
| Decompose.GrowHeight | src/geometry/decompose.rs:53-61 | the height is at least 1, every row in it is free across the width, and the next row is not free or lies outside the grid |
| Decompose.MarkProcessed | src/geometry/decompose.rs:64-68 | exactly the cells of the rectangle are newly marked processed |
| Decompose.EmitRectangle | src/geometry/decompose.rs:70-87 | the rectangles gain, at the end, the rectangle's halves when a side reaches 1000 and the rectangle itself otherwise, adding its coverage and keeping every rectangle fitting |
| Decompose.PicksGrown | src/geometry/decompose.rs:41-61 | the width and height grown at an untaken contained cell, which is the first such cell in row-major order, make the greedy pick |
| Decompose.TakenSome | src/geometry/decompose.rs:63-68 | a cell is processed exactly when one of the rectangles started so far holds it |
| Decompose.GreedyInRowMajorOrder | src/geometry/decompose.rs:38-41 | the rectangles start at cells in strictly increasing row-major order |
| Decompose.PicksUnique | src/geometry/decompose.rs:41-61 | after the same rectangles the next greedy pick is determined |
| Decompose.GreedyUnique | src/geometry/decompose.rs:38-90 | two greedy scans that both take every contained cell start the same rectangles in the same order |
| Decompose.PrefixesAgree | src/geometry/decompose.rs:38-90 | two greedy scans agree on their common length |
| Decompose.PickAt | src/geometry/decompose.rs:41-61 | each start of a greedy scan is the greedy pick after the starts before it |
| Decompose.LongerRunAbsent | src/geometry/decompose.rs:38-41 | once every contained cell is taken, a greedy scan has no further start |
| Decompose.ScannedStep | src/geometry/decompose.rs:41-87 | one more greedy pick, emitted and taken, keeps the scan's state |
| Decompose.PiecesAppend | src/geometry/decompose.rs:82-87 | one more start appends its halved rectangle to the emitted list |
| Decompose.TakeRectangle | src/geometry/decompose.rs:41-87 | at an untaken contained cell the rectangle returned (width, height) is the greedy pick: inside, untaken, as wide as the row allows and then as tall as the column block allows; the rectangles become the old ones followed by that rectangle, halved when a side reaches 1000; its cells are now taken and no others, and every rectangle fits |
| Decompose.ScanRow | src/geometry/decompose.rs:39-89 | scanning a row extends the greedy starts (the earlier ones kept in front) and the rectangles emitted for them, leaving every contained cell of it and of earlier rows taken and covered once |
| Decompose.CoversGridCell | src/geometry/decompose.rs:71-77 | the rectangle built at (column, row) with width and height covers exactly the grid cells it was grown over |
| Decompose.GridCoverage | src/geometry/decompose.rs:18-90 | once every contained grid cell is covered once, every contained point is covered once and nothing else |
| Decompose.AddedRectangle | src/geometry/decompose.rs:81-87 | pushing a rectangle, or its halves, adds its coverage and keeps every rectangle fitting |
| Decompose.CoverCountAppend | src/geometry/decompose.rs:83-86 | the coverage of two lists of rectangles adds up |
| Decompose.CoversIsContains | src/geometry/decompose.rs:79 | coverage by a rectangle is the polygon containment test on its corners |
| Decompose.OutsideUncovered | src/geometry/decompose.rs:38-90 | rectangles inside a box cover no point outside it |
| Decompose.SplitWidthTiles | src/geometry/decompose.rs:112-129 | the left and right halves are rectangles that meet at mid_x and together cover each point of the original exactly as often as the original |
| Decompose.SplitHeightTiles | src/geometry/decompose.rs:131-148 | the top and bottom halves are rectangles that meet at mid_y and together cover each point of the original exactly as often as the original |
| Decompose.HalveTiles | src/geometry/decompose.rs:102-162 | the pieces of a halved rectangle cover each point of it exactly once and nothing else |
| Decompose.HalveFits | src/geometry/decompose.rs:102-162 | every piece of a halved rectangle is under the maximum length on both sides and lies inside the original |
| Decompose.HalveAsWrittenTiles | src/geometry/decompose.rs:102-162 | the pieces as written also tile the rectangle exactly |
| Decompose.HalveAsWrittenLeavesWidePiece | src/geometry/decompose.rs:155 | as written, a 1999-wide rectangle splits into widths 999 and 1000, and the 1000-wide piece is not split again |
| Decompose.Halve | src/geometry/decompose.rs:102-162 | the corrected halving yields at least one piece, and exactly one (the rectangle itself) when neither side reaches the maximum length |
| Decompose.HalveAsWritten | src/geometry/decompose.rs:102-162 | halving as written yields at least one piece, and exactly one when neither side reaches the maximum length |
| Arcs.ClampI32 | src/geometry/arc.rs:29-30 | the float-to-i32 cast keeps in-range values and saturates at i32::MIN and i32::MAX |
| Arcs.Coordinate | src/geometry/arc.rs:27-32 | a point on the arc has i32 coordinates |
| Arcs.InEvenQuadrants | src/geometry/arc.rs:34-36 | a point is in the even quadrants exactly when its quadrant number, counted with the axes on the positive side, is even |
| Arcs.RawSteps | src/geometry/arc.rs:51-52 | the raw step count is the arc length radius * angle span rounded up: 0 for a non-positive length, otherwise the least whole number not below it |
| Arcs.StepCount | src/geometry/arc.rs:51-54 | the number of wedges is raw_steps / 30, at least 1 |
| Arcs.RightAngleVertex | src/geometry/arc.rs:65-70 | the right-angle vertex is a corner of the box spanned by the two arc points and is axis-aligned with both |
| Arcs.InnerOuterOpposite | src/geometry/arc.rs:66-70 | an inner arc and an outer arc pick the two opposite corners |
| Arcs.VertexGroup | src/geometry/arc.rs:60-72 | group i is [p(angle1), p90, p(angle1 + step)] with i32 coordinates |
| Arcs.VertexPoints | src/geometry/arc.rs:47-74 | there are as many groups as steps, at least one, each of three points |
| Arcs.VertexPointsJoined | src/geometry/arc.rs:38-45 | each group ends at the point where the next begins |
| Arcs.VertexPointsEnds | src/geometry/arc.rs:47-74 | the first group starts at the point of the begin angle and the last ends at the point of the end angle |
| Arcs.StepsReachEnd | src/geometry/arc.rs:51-56 | the last step ends exactly at the end angle |
| Arcs.Concentric | src/geometry/arc.rs:75-81 | the new arc keeps centre and angles, takes the radius, and is inner exactly when the radius shrinks |
| Arcs.SaturatingSub | src/geometry/arc.rs:217 | the inner radius is radius - gap, or 0 when the gap is larger |
| Arcs.InnerArcOfSegment | src/geometry/arc.rs:216-218 | the inner arc is no larger than the outer; it is an inner arc exactly when gap and radius are positive; its radius is 0 exactly when the gap reaches the radius |
| Arcs.CornerVertex | src/geometry/arc.rs:117-121 | the end vertex is a corner of the box spanned by the inner and outer points and is axis-aligned with both |
| Arcs.CornerVertexFlips | src/geometry/arc.rs:117-127 | the inverse flag picks the other corner |
| Arcs.EndArcCorners | src/geometry/arc.rs:99-131 | the two corners close the beginning (first points) and the end (last points) of the inner and outer wedges |
| Arcs.ConcatAt | src/geometry/arc.rs:188 | the point list of the groups holds point j of group i at 3i + j |
| Arcs.AnnulusPoints | src/geometry/arc.rs:194-200 | the outline has the two corners plus every inner and outer point |
| Arcs.OutlineLayout | src/geometry/arc.rs:192-200 | the outline is: the begin corner (bound to `corner_end` at arc.rs:192), the inner points in order, the end corner, then the outer points reversed |
| Arcs.OutlineInner | src/geometry/arc.rs:194-197 | the first corner, the inner points in order and the second corner sit where the outline layout says |
| Arcs.OutlineOuter | src/geometry/arc.rs:199-200 | the outer points appear in reverse order at the end of the outline |
| Arcs.OutlineRectilinear | src/geometry/arc.rs:192-200 | every edge of the outline, including the closing one, is horizontal or vertical |
| Arcs.SegmentOutlineRectilinear | src/geometry/arc.rs:163-200 | the polygon between the wedges of two arcs is rectilinear and has 2 + 3 * (inner steps + outer steps) vertices |
| Arcs.GroupBrick | src/geometry/arc.rs:133-149 | a group gives no brick exactly when its ends are axis-aligned (zero size); otherwise a micro wedge of the colour whose footprint is the group's bounding box |
| Arcs.WedgeBrick | src/geometry/arc.rs:133-149 | a wedge gives a brick exactly when both sides of its size are non-zero; the brick is a micro wedge of the colour, and for consistent bounds it spans the wedge's bounding box |
| Arcs.OrientationNamesCorner | src/geometry/arc.rs:142-143 | rotation and direction together name which corner of the box the right angle sits in |
| Arcs.GroupBox | src/geometry/arc.rs:134-136 | the bounds of a three-point group are the box of its two arc points |
| Arcs.WedgeBrickOfGroup | src/geometry/arc.rs:133-149 | wedge_brick of the polygon made from a group is the group's brick |
| Arcs.WedgeBricks | src/geometry/arc.rs:181-186 | a list of groups yields at most one wedge brick per group |
| Arcs.RectangleBrick | src/geometry/arc.rs:151-161 | a rectangle gives a micro brick of the colour whose footprint is the rectangle |
| Arcs.RectangleBricks | src/geometry/arc.rs:203-205 | one brick per rectangle, each spanning its rectangle |
| Arcs.ArcWedges | src/geometry/arc.rs:181-189 | one arc's pass collects exactly its vertex groups, their points in order and their wedge bricks |
| Arcs.CollectWedges | src/geometry/arc.rs:181-189 | the loop over any list of groups keeps every group, appends their points in order and collects their wedge bricks |
| Arcs.Wedge | src/geometry/arc.rs:182-183 | a wedge polygon keeps the group's points and yields the group's brick |
| Arcs.WedgesGrow | src/geometry/arc.rs:181-189 | one more group extends the groups, the point list and the wedge bricks by that group's share |
| Arcs.OutlinePolygon | src/geometry/arc.rs:194-200 | the polygon built by push, extend, push, extend has the outline's points and bounds that box them together with the origin |
| Arcs.AppendRectangleBricks | src/geometry/arc.rs:203-205 | the bricks gain one rectangle brick per rectangle, in order |
| Arcs.OutlineSquares | src/geometry/arc.rs:192-203 | the rectangles tile exactly the lattice points inside the outline, and each fits in a brick |
| Arcs.BuildWedgesAndRectangles | src/geometry/arc.rs:163-211 | the bricks gain the rectangle bricks and then the wedge bricks of both arcs; the rectangles tile the outline's inside, and each fits in a brick |
| Arcs.Compute | src/geometry/arc.rs:214-223 | the segment between the arc and its concentric arc at radius - gap (saturating) is built as in build_wedges_and_rectangles |
| MazeGrid.DivisionsDouble | src/maze/maze.rs:51-53 | ring 0 has the initial divisions; an odd ring has as many as the ring inside it, and every second ring doubles |
| MazeGrid.NextRing | src/maze/maze.rs:51-53 | going out from an even ring keeps the count; going out from an odd ring doubles it |
| MazeGrid.DivisionsAtLeastInitial | src/maze/maze.rs:51-53 | no ring has fewer cells than the initial divisions, and rings 0 and 1 have exactly that many |
| MazeGrid.NeighboursAreAdjacent | src/maze/maze.rs:55-106 | a cell is listed as a neighbour exactly when it is in bounds and adjacent: next in the ring, or overlapping in the ring inside or outside |
| MazeGrid.NeighboursSymmetric | src/maze/maze.rs:55-106 | if b is a neighbour of a, then b is in bounds and a is a neighbour of b |
| MazeGrid.NeighboursInBounds | src/maze/maze.rs:55-106 | every neighbour listed is a cell of the grid |
| MazeGrid.Neighbours | src/maze/maze.rs:55-106 | the list has two to five cells, the first two in the cell's own ring |
| MazeGrid.NeighboursNearby | src/maze/maze.rs:55-106 | every neighbour lies in the cell's own ring or the ring just inside or outside it |
| MazeGrid.AroundTheRing | src/maze/maze.rs:65-66 | the left and right divisions are exactly the cells next to d around the ring |
| MazeGrid.TwoCellRing | src/maze/maze.rs:65-66 | in a ring of two cells, the left and right neighbours are the same cell |
| MazeGrid.InnerRing | src/maze/maze.rs:78-80 | the inner division (d in an odd ring, d / 2 in an even ring) is exactly the cell inside that overlaps this one |
| MazeGrid.OuterRing | src/maze/maze.rs:87-103 | the outer divisions (2d and 2d + 1 from an odd ring, d from an even ring) are exactly the cells outside that overlap this one |
| MazeGrid.UnvisitedMembers | src/maze/maze.rs:68-104 | the unvisited list holds exactly the neighbours not yet visited |
| MazeGrid.UnvisitedAppend | src/maze/maze.rs:68-104 | filtering a concatenation is concatenating the filtered parts |
| MazeGrid.CandidatesInBounds | src/maze/maze.rs:153-157 | a candidate is an unvisited in-bounds cell adjacent to the current one, at most one ring away |
| MazeGrid.SetCell | src/maze/maze.rs:116-123 | replacing one cell changes that cell only and keeps the grid's shape |
| MazeGrid.OpenWallEffect | src/maze/maze.rs:108-125 | opening a wall opens it and changes no other wall, no visited flag and no outer wall |
| MazeGrid.WallBetweenSeparates | src/maze/maze.rs:108-125 | the wall open_wall_between picks lies between the two cells and belongs to a cell of the grid |
| MazeGrid.WallBetweenSymmetric | src/maze/maze.rs:108-125 | the same wall is picked whichever cell is named first, unless the ring has only two cells |
| MazeGrid.WallBetween | src/maze/maze.rs:108-125 | the wall picked belongs to one of the two cells; it is a right wall exactly when the cells share a ring, and an inner wall lies no further in than either cell |
| MazeGrid.SameRingWall | src/maze/maze.rs:109-119 | two cells next to each other in a ring are each other's right or left neighbour |
| MazeGrid.NotBothSuccessors | src/maze/maze.rs:114-115 | in a ring of at least three cells, two cells are not each other's right neighbour |
| MazeGrid.OuterWall | src/maze/maze.rs:120-123 | the inner wall of the outer cell is the wall to the inner cell it overlaps |
| MazeGrid.FreshRing | src/maze/maze.rs:132-135 | a new ring is n new cells |
| MazeGrid.MarkVisited | src/maze/maze.rs:161 | marking a cell visited changes that flag only; walls stay as they are |
| MazeGrid.RingCellsMembers | src/maze/maze.rs:132-135 | the cells outside the centre are the in-bounds cells of rings 1 and beyond |
| MazeGrid.WalkExtend | src/maze/maze.rs:156-161 | a walk extended by a step through an open wall is a walk |
| MazeGrid.WalkPrefix | src/maze/maze.rs:169-171 | a prefix of a walk is a walk |
| MazeGrid.WalkKept | src/maze/maze.rs:158-161 | a walk stays a walk when walls only open |
| Maze.StartInMaze | src/maze/maze.rs:132-140 | the fresh grid has the shape of the maze and contains the entrance |
| Maze.InitCarving | src/maze/maze.rs:137-150 | after set-up the carving invariant holds at the entrance, with an empty stack, the entrance as the only reached cell, no wall carved and no path to the centre |
| Maze.VisitEffect | src/maze/maze.rs:158-161 | Visit, the forward step on the grid, opens exactly the wall between the cells and marks exactly the next cell visited; the shape and every other cell stay as they were |
| Maze.VisitReady | src/maze/maze.rs:153-158 | a chosen candidate is an unreached cell outside the centre, and the wall between is an internal wall between the two |
| Maze.WallBetweenInternal | src/maze/maze.rs:108-125 | the wall between two neighbours outside the centre is an internal wall separating them |
| Maze.GridVisit | src/maze/maze.rs:158-161 | a forward step keeps the grid part of the invariant with the next cell reached |
| Maze.FrontierVisit | src/maze/maze.rs:156-161 | a forward step pushes the current cell and keeps the stack plus current cell a walk from the entrance |
| Maze.CarvedVisit | src/maze/maze.rs:158 | a forward step carves exactly one new wall for one new cell |
| Maze.RoutesVisit | src/maze/maze.rs:156-161 | a forward step gives the new cell a walk from the entrance |
| Maze.SolutionVisit | src/maze/maze.rs:163-168 | a step into ring 1 records the stack, the ring-1 cell and the centre cell below it as the path; other steps keep the path |
| Maze.VisitStep | src/maze/maze.rs:155-168 | the forward step keeps the carving invariant and reaches one more cell |
| Maze.FewerLeft | src/maze/maze.rs:159-161 | reaching a new cell leaves fewer cells to reach |
| Maze.FrontierPop | src/maze/maze.rs:169-171 | popping a finished cell's predecessor keeps the stack plus current cell a walk from the entrance |
| Maze.PopStep | src/maze/maze.rs:169-171 | the backward step keeps the carving invariant |
| Maze.NoCandidates | src/maze/maze.rs:153-155 | an empty candidate list means every neighbour is visited |
| Maze.NeighboursParts | src/maze/maze.rs:65-104 | the neighbour list is left, right, the inner cell (outside the centre) and the outer cells (inside the last ring), in that order |
| Maze.InnerInMaze | src/maze/maze.rs:82 | the inner neighbour is a cell of the grid |
| Maze.OuterInMaze | src/maze/maze.rs:92-101 | the outer neighbours are cells of the grid |
| Maze.UnvisitedOne | src/maze/maze.rs:69-70 | checking one more cell adds it to the list exactly when it is unvisited |
| Maze.RightNeighbour | src/maze/maze.rs:66 | the next division in the ring is a neighbour |
| Maze.InnerNeighbour | src/maze/maze.rs:74-84 | the overlapping cell inside is a neighbour |
| Maze.OuterRingReached | src/maze/maze.rs:152-175 | when the stack has run out, every cell of the outer ring has been reached |
| Maze.RingReached | src/maze/maze.rs:152-175 | when the stack has run out, every cell of rings 1 and beyond has been reached |
| Maze.Reached | src/maze/maze.rs:172-174 | when the loop ends, the cells reached are exactly the cells outside the centre |
| Maze.Exhausted | src/maze/maze.rs:172-174 | with no candidate and an empty stack the loop's end state is reached |
| Maze.FinishGrid | src/maze/maze.rs:176-177 | opening the centre entry leaves every cell visited, the centre as set up, the outer wall open only at the entrance, and exactly one ring-1 inner wall open |
| Maze.FinishWalls | src/maze/maze.rs:176-177 | after the centre entry is opened, the open internal walls are exactly the carved ones, one fewer than the cells outside the centre |
| Maze.FinishRoutes | src/maze/maze.rs:176-177 | every cell outside the centre keeps a walk from the entrance |
| Maze.FinishSolution | src/maze/maze.rs:176-178 | the recorded path ends through the opened entry in the centre cell and is a walk from the entrance; it is empty only for the single two-ring maze of one division |
| Maze.Finish | src/maze/maze.rs:176-178 | the whole final state of generation follows from the loop's end state |
| Maze.ThetaMaze.constructor | src/maze/maze.rs:27-49 | a new maze has the given rings and divisions, no cells and no path |
| Maze.ThetaMaze.UnvisitedNeighbours | src/maze/maze.rs:55-106 | the list is the neighbours, left, right, inner and outer, without the visited ones |
| Maze.ThetaMaze.PushIfUnvisited | src/maze/maze.rs:69-71 | the cell is appended exactly when it is not visited |
| Maze.ThetaMaze.OpenWallBetween | src/maze/maze.rs:108-125 | the grid becomes the old grid with the wall between the two cells opened |
| Maze.ThetaMaze.SetUpGrid | src/maze/maze.rs:132-146 | the grid is built ring by ring from new cells, the entrance is visited with its outer wall open, and the centre cells are visited with their right walls open |
| Maze.ThetaMaze.Advance | src/maze/maze.rs:155-168 | the forward step keeps the carving invariant and reaches a new cell |
| Maze.ThetaMaze.Retreat | src/maze/maze.rs:169-171 | the backward step pops the top of the stack as the current cell and keeps the invariant |
| Maze.ThetaMaze.CarveStep | src/maze/maze.rs:153-171 | one round of the loop keeps the invariant and either reaches a new cell or shortens the stack |
| Maze.ThetaMaze.Carve | src/maze/maze.rs:148-175 | when the loop ends, every cell outside the centre is reached, the open walls are the carved ones, each cell has a walk from the entrance, and the path to the centre is recorded |
| Maze.ThetaMaze.Generate | src/maze/maze.rs:127-179 | the maze is perfect: every cell visited, the carved internal walls one fewer than the cells, every cell reachable from the entrance, the outer wall open only at the entrance, exactly one entry to the centre, and the stored path a walk from the entrance into the centre through that entry |
| WallRuns.RingRuns | src/maze/maze.rs:259-283 | the spans of a ring are, for each layer, its maximal runs of walls in order, emitted by end with inner before outer at the same division |
| WallRuns.Track | src/maze/maze.rs:267-283 | at one division a wall opens a run if none is open, and a gap closes the open run there |
| WallRuns.ScanDivision | src/maze/maze.rs:263-283 | one division handles the inner layer and then the outer layer, keeping both trackers |
| WallRuns.Close | src/maze/maze.rs:313-319 | at the end of the ring the run still open on a layer is closed at the last division |
| WallRuns.CloseRing | src/maze/maze.rs:313-319 | closing both layers at the end of the ring completes the grouping |
| WallRuns.TrackStep | src/maze/maze.rs:274-282 | the one-layer tracker invariant survives a division |
| WallRuns.TrackClose | src/maze/maze.rs:313-319 | closing the open run completes the runs of a layer |
| WallRuns.OuterOnlyInLastRing | src/maze/maze.rs:268-272 | outer runs appear only for the last ring |
| WallRuns.CoveredOnce | src/maze/maze.rs:259-283 | each wall lies in exactly one run of its layer |
| WallRuns.NoWrap | src/maze/maze.rs:259-283 | runs do not wrap past the end of the ring: with walls at both ends and a gap, the first run starts at 0 and a different last run ends at the ring's end |
| WallRuns.MaximalRunIn | src/maze/maze.rs:259-283 | every maximal run of walls is one of the runs |
| WallRuns.SortedUnique | src/maze/maze.rs:259-283 | two lists of runs in increasing order with the same members are equal |
| WallRuns.RunsUnique | src/maze/maze.rs:259-283 | the runs of a layer are determined by its walls |
| WallRuns.EntranceGap | src/maze/maze.rs:268-283 | in the last ring after generation, whose outer walls stand everywhere but at division 0, the outer wall is drawn as the single run from division 1 to the end |

## Left out

- Rendering. The model leaves out `build`, the trigonometry of `draw_maze`, `arc_as_bricks`, `draw_solution_path`, `calculate_rgb` and the canvas and image output. These are f32 drawing with no decisions of their own. Only the run grouping of `draw_maze` is modelled, over division indices.
- `draw_maze`'s radial wall lines (one per cell with `right_wall`) are left out. They are drawing only.
- WallRuns.IsWall tells the two trackers apart by layer. The source compares radii, so with a ring width of 0 both trackers would read the inner wall.
- The rayon parallel iterator and the four `Mutex` locks of `draw_maze` are left out, and so is the parallel rasterisation in `render_as_squares`. Rasterisation is modelled as a sequential loop, which gives the same grid because rows are independent.
- Debug images and progress bars (`DebugImage`, `pb`) are left out, and so is `eprintln!` in `x_range`. They are output only.
- `ThetaMaze::new`'s canvas size, centre and ring width are left out. They only feed rendering.
- Maze.ThetaMaze.Generate requires a fresh maze (`maze == []`), at least two rings and at least one initial division:
  - with zero rings, `self.rings - 1` underflows;
  - with one ring, `self.maze[1]` is out of bounds;
  - with zero divisions, `self.maze[ring][0]` is out of bounds.

  Each of these panics in the source.
- Maze.ThetaMaze.Generate creates its generator from the seed internally, as the source does. The random choices are not tied to a particular seed in the contract, which holds for every sequence of choices.
- Maze.ThetaMaze.Generate draws indices with the corrected Sfc32.RandomRange, not the f32 arithmetic as written (see Findings).
- Sfc32.RandomRange models `random_range` with `min = 0`, the only way the maze uses it. The general `[min, max)` form is not modelled.
- Sfc32.RandomRangeAsWritten models the f64-to-f32 rounding of the unit value. It takes the product by `n` exactly, leaving out f32 rounding of that product.
- Arcs.Coordinate leaves cosine, sine and rounding uninterpreted (the `Trig` parameter). The `as i32` cast is modelled as saturating.
- Arcs.RawSteps takes `radius * angle_span` and its ceiling exactly. It leaves out the f32 rounding of `radius as f32` and of the product before `ceil`, and the NaN case of the `as usize` cast.
- Arcs.VertexPointsJoined computes the angles exactly. In f32, `begin + i * step + step` can differ from `begin + (i + 1) * step` by rounding, and then neighbouring groups need not share their point. So Arcs.OutlineRectilinear and Arcs.SegmentOutlineRectilinear hold for exact angles only.
- Polygons.Polygon.Contains uses unbounded integers. The i32 overflow of `(p2.x - p1.x) * (point.y - p1.y)` is not modelled, and neither are overflows in `update_position` or `x_range`/`y_range`.
- Decompose.RenderAsSquares returns each rectangle as its four corners `[tl, tr, br, bl]` rather than as a `Polygon` object. Its bounds, size and position are given by Polygons.PositionIsCentre and Arcs.RectangleBrick.
- Decompose.RenderAsSquares requires a consistent polygon (`Valid`: bounds are the bounding box, size and position up to date), which every polygon made by `Polygon::new`, `push` and `extend` is.
- Decompose.RenderAsSquares halves large rectangles with the corrected Decompose.Halve (see Findings).
- `halve_rectangle` is modelled for the one maximum length the code passes, 1000.
- `Polygon::from_tuples` (polygon.rs) is left out. It only converts tuples into points for `Polygon::new`.
- The brick record is a local datatype: asset, colour, size, position, rotation and direction. The save library's defaults, material index and colour conversion are not part of this model.
- `src/geometry/diagonal.rs`, `src/draw/`, `src/metadata/` and the conversions in `src/utils/points.rs` are not part of this model.

## Findings

| source | as written | input that shows it | evidently intended | confidence | as-written member | corrected member |
|---|---|---|---|---|---|---|
| src/geometry/decompose.rs:155 | after a horizontal split the recursion test uses the halved `width`, so the right half (the larger one for odd widths) is not split again | a 1999 x 1 rectangle: halves of width 999 and 1000; 1000 is not below `MAX_LENGTH` but is returned as is | every piece is re-checked, so all pieces are under the maximum length | not executed | Decompose.HalveAsWrittenLeavesWidePiece | Decompose.HalveFits |
| src/utils/sfc32.rs:40 | `sfc() as f32` rounds the f64 in [0, 1) to f32; the 128 largest outputs become 1.0, and `1.0 * n as usize` is `n` | generator output t >= 2^32 - 128 with n candidates gives index n, one past the end of `candidates` at src/maze/maze.rs:157 | an index in [0, n), as the [min, max) range documents | not executed | Sfc32.RandomRangeAsWrittenReachesN | Sfc32.RandomRange |
