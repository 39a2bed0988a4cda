/** Decomposition of a polygon into axis-aligned rectangles: rasterise it on
    the integer grid of its bounding box, merge inside cells greedily into
    maximal rectangles, and halve any rectangle that is too long for a brick. */
module Decompose {
  import opened Points
  import opened Polygons

  /** The longest side a rectangle may have before it is halved. */
  const MaxLength: int := 1000

  // ---------------------------------------------------------------------
  // Rectangles as corner lists [top-left, top-right, bottom-right, bottom-left]

  /** A proper rectangle's corner list, with positive width and height. */
  predicate IsRectangle(r: seq<Point>)
  {
    |r| == 4 && r[0].x < r[2].x && r[0].y < r[2].y &&
    r == RectangleCorners(r[0].x, r[0].y, r[2].x, r[2].y)
  }

  function Width(r: seq<Point>): int
    requires |r| >= 3
  {
    r[2].x - r[0].x
  }

  function Height(r: seq<Point>): int
    requires |r| >= 3
  {
    r[2].y - r[0].y
  }

  /** A rectangle small enough to be one brick: both sides below MaxLength. */
  predicate Fits(r: seq<Point>)
  {
    IsRectangle(r) && Width(r) < MaxLength && Height(r) < MaxLength
  }

  /** The corner list covers the unit cell whose top-left corner is q: q lies
      in the half-open box from corner 0 to corner 2. */
  predicate Covers(r: seq<Point>, q: Point)
  {
    |r| >= 3 && r[0].x <= q.x < r[2].x && r[0].y <= q.y < r[2].y
  }

  /** How many of the corner lists cover q. */
  function CoverCount(rs: seq<seq<Point>>, q: Point): nat
  {
    if |rs| == 0 then 0
    else CoverCount(rs[..|rs| - 1], q) + (if Covers(rs[|rs| - 1], q) then 1 else 0)
  }

  lemma {:induction false} CoverCountAppend(a: seq<seq<Point>>, b: seq<seq<Point>>, q: Point)
    ensures CoverCount(a + b, q) == CoverCount(a, q) + CoverCount(b, q)
  {
    if |b| > 0 {
      CoverCountAppend(a, b[..|b| - 1], q);
      assert (a + b)[..|a + b| - 1] == a + b[..|b| - 1];
    } else {
      assert a + b == a;
    }
  }

  /** What a rectangle covers is what the polygon made from its corners
      contains: that polygon's bounds are corners 0 and 2. */
  lemma CoversIsContains(r: seq<Point>, q: Point)
    requires IsRectangle(r)
    ensures Covers(r, q) == Inside(r, r[0], r[2], q)
  {
    RectangleInside(r[0].x, r[0].y, r[2].x, r[2].y, q);
  }

  /** r lies inside the box [x0, x1] x [y0, y1]. */
  predicate WithinBox(r: seq<Point>, x0: int, y0: int, x1: int, y1: int)
  {
    |r| >= 3 && x0 <= r[0].x && r[2].x <= x1 && y0 <= r[0].y && r[2].y <= y1
  }

  /** A rectangle never covers a cell whose top-left corner lies outside the box. */
  lemma {:induction false} OutsideUncovered(rs: seq<seq<Point>>, x0: int, y0: int, x1: int, y1: int, q: Point)
    requires forall i :: 0 <= i < |rs| ==> WithinBox(rs[i], x0, y0, x1, y1)
    requires !(x0 <= q.x < x1 && y0 <= q.y < y1)
    ensures CoverCount(rs, q) == 0
  {
    if |rs| > 0 {
      OutsideUncovered(rs[..|rs| - 1], x0, y0, x1, y1, q);
    }
  }

  // ---------------------------------------------------------------------
  // Halving (halve_rectangle)

  /** The left half of a rectangle split at half its width (rounded down). */
  function LeftPiece(cs: seq<Point>): seq<Point>
    requires |cs| >= 3
  {
    var tl, br := cs[0], cs[2];
    var mid := tl.x + (br.x - tl.x) / 2;
    [tl, Point(mid, tl.y), Point(mid, br.y), Point(tl.x, br.y)]
  }

  function RightPiece(cs: seq<Point>): seq<Point>
    requires |cs| >= 3
  {
    var tl, br := cs[0], cs[2];
    var mid := tl.x + (br.x - tl.x) / 2;
    [Point(mid, tl.y), Point(br.x, tl.y), br, Point(mid, br.y)]
  }

  /** The top half of a rectangle split at half its height (rounded down). */
  function TopPiece(cs: seq<Point>): seq<Point>
    requires |cs| >= 3
  {
    var tl, br := cs[0], cs[2];
    var mid := tl.y + (br.y - tl.y) / 2;
    [tl, Point(br.x, tl.y), Point(br.x, mid), Point(tl.x, mid)]
  }

  function BottomPiece(cs: seq<Point>): seq<Point>
    requires |cs| >= 3
  {
    var tl, br := cs[0], cs[2];
    var mid := tl.y + (br.y - tl.y) / 2;
    [Point(tl.x, mid), Point(br.x, mid), br, Point(tl.x, br.y)]
  }

  /** The size measure that every split strictly decreases. */
  function Extent(cs: seq<Point>): nat
    requires |cs| >= 3
  {
    Max(Width(cs), 0) + Max(Height(cs), 0)
  }

  /** halve_rectangle as written: split the long side in two, and recurse into
      both halves only if the halved width, or the height, is still too long. */
  function HalveAsWritten(cs: seq<Point>): (pieces: seq<seq<Point>>)
    requires |cs| >= 3
    ensures |pieces| >= 1
    ensures |pieces| == 1 <==> Width(cs) < MaxLength && Height(cs) < MaxLength
    decreases Extent(cs)
  {
    var width := Width(cs);
    var height := Height(cs);
    if width >= MaxLength then
      var pieces := [LeftPiece(cs), RightPiece(cs)];
      if width / 2 >= MaxLength || height >= MaxLength then
        HalveAsWritten(pieces[0]) + HalveAsWritten(pieces[1])
      else pieces
    else if height >= MaxLength then
      var pieces := [TopPiece(cs), BottomPiece(cs)];
      if height / 2 >= MaxLength then
        HalveAsWritten(pieces[0]) + HalveAsWritten(pieces[1])
      else pieces
    else [cs]
  }

  /** halve_rectangle as intended: every piece is halved again until both of
      its sides are below MaxLength. */
  function Halve(cs: seq<Point>): (pieces: seq<seq<Point>>)
    requires |cs| >= 3
    ensures |pieces| >= 1
    ensures |pieces| == 1 <==> Width(cs) < MaxLength && Height(cs) < MaxLength
    decreases Extent(cs)
  {
    if Width(cs) >= MaxLength then Halve(LeftPiece(cs)) + Halve(RightPiece(cs))
    else if Height(cs) >= MaxLength then Halve(TopPiece(cs)) + Halve(BottomPiece(cs))
    else [cs]
  }

  /** The two pieces of a split are rectangles that tile the original. */
  lemma SplitWidthTiles(cs: seq<Point>, q: Point)
    requires IsRectangle(cs) && Width(cs) >= 2
    ensures IsRectangle(LeftPiece(cs)) && IsRectangle(RightPiece(cs))
    ensures LeftPiece(cs)[0] == cs[0] && RightPiece(cs)[2] == cs[2]
    ensures LeftPiece(cs)[2].y == cs[2].y && RightPiece(cs)[0].y == cs[0].y
    ensures cs[0].x < LeftPiece(cs)[2].x == RightPiece(cs)[0].x < cs[2].x
    ensures (if Covers(LeftPiece(cs), q) then 1 else 0) + (if Covers(RightPiece(cs), q) then 1 else 0)
         == (if Covers(cs, q) then 1 else 0)
  {
  }

  lemma SplitHeightTiles(cs: seq<Point>, q: Point)
    requires IsRectangle(cs) && Height(cs) >= 2
    ensures IsRectangle(TopPiece(cs)) && IsRectangle(BottomPiece(cs))
    ensures TopPiece(cs)[0] == cs[0] && BottomPiece(cs)[2] == cs[2]
    ensures TopPiece(cs)[2].x == cs[2].x && BottomPiece(cs)[0].x == cs[0].x
    ensures cs[0].y < TopPiece(cs)[2].y == BottomPiece(cs)[0].y < cs[2].y
    ensures (if Covers(TopPiece(cs), q) then 1 else 0) + (if Covers(BottomPiece(cs), q) then 1 else 0)
         == (if Covers(cs, q) then 1 else 0)
  {
  }

  /** The pieces of Halve tile the rectangle: every cell it covers is covered
      by exactly one piece, and no other cell is covered. */
  lemma {:induction false} HalveTiles(cs: seq<Point>, q: Point)
    requires IsRectangle(cs)
    ensures CoverCount(Halve(cs), q) == (if Covers(cs, q) then 1 else 0)
    decreases Extent(cs)
  {
    if Width(cs) >= MaxLength {
      SplitWidthTiles(cs, q);
      HalveTiles(LeftPiece(cs), q);
      HalveTiles(RightPiece(cs), q);
      CoverCountAppend(Halve(LeftPiece(cs)), Halve(RightPiece(cs)), q);
    } else if Height(cs) >= MaxLength {
      SplitHeightTiles(cs, q);
      HalveTiles(TopPiece(cs), q);
      HalveTiles(BottomPiece(cs), q);
      CoverCountAppend(Halve(TopPiece(cs)), Halve(BottomPiece(cs)), q);
    } else {
      assert [cs][..0] == [];
    }
  }

  /** Every piece of Halve fits in a brick and lies inside the rectangle. */
  lemma {:induction false} HalveFits(cs: seq<Point>)
    requires IsRectangle(cs)
    ensures forall i :: 0 <= i < |Halve(cs)| ==>
      Fits(Halve(cs)[i]) && WithinBox(Halve(cs)[i], cs[0].x, cs[0].y, cs[2].x, cs[2].y)
    decreases Extent(cs)
  {
    var q := Point(0, 0);
    if Width(cs) >= MaxLength {
      SplitWidthTiles(cs, q);
      HalveFits(LeftPiece(cs));
      HalveFits(RightPiece(cs));
    } else if Height(cs) >= MaxLength {
      SplitHeightTiles(cs, q);
      HalveFits(TopPiece(cs));
      HalveFits(BottomPiece(cs));
    }
  }

  /** A 1999-wide strip: the halved width 999 passes the re-check, so the code
      stops after one split and returns a right half 1000 wide. */
  lemma HalveAsWrittenLeavesWidePiece()
    ensures HalveAsWritten(RectangleCorners(0, 0, 1999, 1))
         == [RectangleCorners(0, 0, 999, 1), RectangleCorners(999, 0, 1999, 1)]
    ensures !Fits(RectangleCorners(999, 0, 1999, 1))
    ensures forall i :: 0 <= i < |Halve(RectangleCorners(0, 0, 1999, 1))| ==>
      Fits(Halve(RectangleCorners(0, 0, 1999, 1))[i])
  {
    HalveFits(RectangleCorners(0, 0, 1999, 1));
  }

  /** The pieces of halve_rectangle as written also tile the rectangle: the
      defect is only in their size. */
  lemma {:induction false} HalveAsWrittenTiles(cs: seq<Point>, q: Point)
    requires IsRectangle(cs)
    ensures CoverCount(HalveAsWritten(cs), q) == (if Covers(cs, q) then 1 else 0)
    decreases Extent(cs)
  {
    var pieces: seq<seq<Point>>;
    if Width(cs) >= MaxLength {
      SplitWidthTiles(cs, q);
      pieces := [LeftPiece(cs), RightPiece(cs)];
      if Width(cs) / 2 >= MaxLength || Height(cs) >= MaxLength {
        HalveAsWrittenTiles(pieces[0], q);
        HalveAsWrittenTiles(pieces[1], q);
        CoverCountAppend(HalveAsWritten(pieces[0]), HalveAsWritten(pieces[1]), q);
      } else {
        assert HalveAsWritten(cs) == pieces;
        assert pieces[..1] == [pieces[0]];
        assert pieces[..1][..0] == [];
        assert CoverCount(pieces, q) == CoverCount([pieces[0]], q) + (if Covers(pieces[1], q) then 1 else 0);
      }
    } else if Height(cs) >= MaxLength {
      SplitHeightTiles(cs, q);
      pieces := [TopPiece(cs), BottomPiece(cs)];
      if Height(cs) / 2 >= MaxLength {
        HalveAsWrittenTiles(pieces[0], q);
        HalveAsWrittenTiles(pieces[1], q);
        CoverCountAppend(HalveAsWritten(pieces[0]), HalveAsWritten(pieces[1]), q);
      } else {
        assert HalveAsWritten(cs) == pieces;
        assert pieces[..1] == [pieces[0]];
        assert pieces[..1][..0] == [];
        assert CoverCount(pieces, q) == CoverCount([pieces[0]], q) + (if Covers(pieces[1], q) then 1 else 0);
      }
    } else {
      assert [cs][..0] == [];
    }
  }

  // ---------------------------------------------------------------------
  // render_as_squares

  /** The grid point in row r and column c of a box whose lower corner is (x0, y0). */
  function GridPoint(x0: int, y0: int, r: int, c: int): Point
  {
    Point(x0 + c, y0 + r)
  }

  /** Marks every grid point the polygon contains (the source does this one
      row per thread; the rows are independent). */
  method Rasterise(polygon: Polygon, x0: int, y0: int, rowCount: nat, columnCount: nat)
    returns (grid: array2<bool>)
    ensures fresh(grid)
    ensures grid.Length0 == rowCount && grid.Length1 == columnCount
    ensures forall r, c :: 0 <= r < rowCount && 0 <= c < columnCount ==>
      grid[r, c] == Inside(polygon.points, polygon.min, polygon.max, GridPoint(x0, y0, r, c))
  {
    grid := new bool[rowCount, columnCount]((_, _) => false);
    var row := 0;
    while row < rowCount
      invariant 0 <= row <= rowCount
      invariant forall r, c :: 0 <= r < rowCount && 0 <= c < columnCount ==>
        grid[r, c] == (r < row && Inside(polygon.points, polygon.min, polygon.max, GridPoint(x0, y0, r, c)))
    {
      var column := 0;
      while column < columnCount
        invariant 0 <= column <= columnCount
        invariant forall r, c :: 0 <= r < rowCount && 0 <= c < columnCount ==>
          grid[r, c] == ((r < row || (r == row && c < column)) &&
                         Inside(polygon.points, polygon.min, polygon.max, GridPoint(x0, y0, r, c)))
      {
        var inside := polygon.Contains(GridPoint(x0, y0, row, column));
        if inside {
          grid[row, column] := true;
        }
        column := column + 1;
      }
      row := row + 1;
    }
  }

  /** Grows the rectangle's width along its first row while the cells are
      inside and not yet taken. */
  method GrowWidth(grid: array2<bool>, processed: array2<bool>, row: nat, column: nat)
    returns (width: nat)
    requires processed.Length0 == grid.Length0 && processed.Length1 == grid.Length1
    requires row < grid.Length0 && column < grid.Length1
    requires grid[row, column] && !processed[row, column]
    ensures 1 <= width && column + width <= grid.Length1
    ensures forall c :: column <= c < column + width ==> grid[row, c] && !processed[row, c]
    ensures column + width == grid.Length1 || !grid[row, column + width] || processed[row, column + width]
  {
    width := 0;
    while column + width < grid.Length1 && grid[row, column + width] && !processed[row, column + width]
      invariant column + width <= grid.Length1
      invariant forall c :: column <= c < column + width ==> grid[row, c] && !processed[row, c]
    {
      width := width + 1;
    }
  }

  /** The cells of row r from column c0 on, w of them, are inside and not yet taken. */
  ghost predicate RowFree(grid: array2<bool>, processed: array2<bool>, r: int, c0: int, w: int)
    reads grid, processed
    requires processed.Length0 == grid.Length0 && processed.Length1 == grid.Length1
    requires 0 <= r < grid.Length0 && 0 <= c0 && c0 + w <= grid.Length1
  {
    forall c :: c0 <= c < c0 + w ==> grid[r, c] && !processed[r, c]
  }

  /** Grows the rectangle downward, one whole row at a time, until a row has a
      cell outside the polygon or already taken. */
  method GrowHeight(grid: array2<bool>, processed: array2<bool>, row: nat, column: nat, width: nat)
    returns (height: nat)
    requires processed.Length0 == grid.Length0 && processed.Length1 == grid.Length1
    requires row < grid.Length0 && column + width <= grid.Length1 && 1 <= width
    requires forall c :: column <= c < column + width ==> grid[row, c] && !processed[row, c]
    ensures 1 <= height && row + height <= grid.Length0
    ensures forall r, c :: row <= r < row + height && column <= c < column + width ==>
      grid[r, c] && !processed[r, c]
    ensures row + height == grid.Length0 || !RowFree(grid, processed, row + height, column, width)
  {
    height := 0;
    label vertical: while row + height < grid.Length0
      invariant row + height <= grid.Length0
      invariant forall r, c :: row <= r < row + height && column <= c < column + width ==>
        grid[r, c] && !processed[r, c]
      invariant height == 0 ==> row + height < grid.Length0
    {
      var r := row + height;
      var dx := 0;
      while dx < width
        invariant 0 <= dx <= width
        invariant RowFree(grid, processed, r, column, dx)
      {
        if !grid[r, column + dx] || processed[r, column + dx] {
          break vertical;
        }
        dx := dx + 1;
      }
      height := height + 1;
    }
  }

  /** Marks the cells of the rectangle as taken. */
  method MarkProcessed(processed: array2<bool>, row: nat, column: nat, width: nat, height: nat)
    modifies processed
    requires row + height <= processed.Length0 && column + width <= processed.Length1
    ensures forall r, c :: 0 <= r < processed.Length0 && 0 <= c < processed.Length1 ==>
      processed[r, c] == (old(processed[r, c]) ||
                          (row <= r < row + height && column <= c < column + width))
  {
    var dy := 0;
    while dy < height
      invariant 0 <= dy <= height
      invariant forall r, c :: 0 <= r < processed.Length0 && 0 <= c < processed.Length1 ==>
        processed[r, c] == (old(processed[r, c]) ||
                            (row <= r < row + dy && column <= c < column + width))
    {
      var dx := 0;
      while dx < width
        invariant 0 <= dx <= width
        invariant forall r, c :: 0 <= r < processed.Length0 && 0 <= c < processed.Length1 ==>
          processed[r, c] == (old(processed[r, c]) ||
                              (row <= r < row + dy && column <= c < column + width) ||
                              (r == row + dy && column <= c < column + dx))
      {
        processed[row + dy, column + dx] := true;
        dx := dx + 1;
      }
      dy := dy + 1;
    }
  }

  /** Only cells inside the polygon are ever taken. */
  ghost predicate TakenInside(grid: array2<bool>, processed: array2<bool>)
    reads grid, processed
    requires processed.Length0 == grid.Length0 && processed.Length1 == grid.Length1
  {
    forall r, c :: 0 <= r < grid.Length0 && 0 <= c < grid.Length1 ==> processed[r, c] ==> grid[r, c]
  }

  /** Every inside cell before (row, column) in row-major order is taken. */
  ghost predicate DoneBefore(grid: array2<bool>, processed: array2<bool>, row: int, column: int)
    reads grid, processed
    requires processed.Length0 == grid.Length0 && processed.Length1 == grid.Length1
  {
    forall r, c :: 0 <= r < grid.Length0 && 0 <= c < grid.Length1 && (r < row || (r == row && c < column)) ==>
      grid[r, c] ==> processed[r, c]
  }

  /** Every grid cell is covered once by the rectangles if it is taken, and
      not at all otherwise. */
  ghost predicate Accounted(rects: seq<seq<Point>>, processed: array2<bool>, x0: int, y0: int)
    reads processed
  {
    forall r, c :: 0 <= r < processed.Length0 && 0 <= c < processed.Length1 ==>
      CoverCount(rects, GridPoint(x0, y0, r, c)) == (if processed[r, c] then 1 else 0)
  }

  /** Every rectangle fits in a brick and lies in the box [x0, x1] x [y0, y1]. */
  predicate AllFitWithin(rects: seq<seq<Point>>, x0: int, y0: int, x1: int, y1: int)
  {
    forall i :: 0 <= i < |rects| ==> Fits(rects[i]) && WithinBox(rects[i], x0, y0, x1, y1)
  }

  // ---------------------------------------------------------------------
  // The greedy scan, stated as the sequence of rectangles it starts

  /** A rectangle of the scan: the grid cell it was started at and how far it
      grew (in columns and rows). */
  datatype Start = Start(row: nat, column: nat, width: nat, height: nat)
  {
    /** The grid cell (r, c) lies in this rectangle. */
    predicate Holds(r: int, c: int)
    {
      row <= r < row + height && column <= c < column + width
    }
  }

  /** The cell (r1, c1) comes before (r2, c2) in row-major order. */
  predicate RowMajorBefore(r1: int, c1: int, r2: int, c2: int)
  {
    r1 < r2 || (r1 == r2 && c1 < c2)
  }

  /** Some rectangle started so far holds the cell: the cell is taken. */
  predicate Taken(starts: seq<Start>, r: int, c: int)
  {
    |starts| > 0 && (Taken(starts[..|starts| - 1], r, c) || starts[|starts| - 1].Holds(r, c))
  }

  /** The corner list of a start's rectangle, on a grid whose cell (0, 0) is
      the point (x0, y0). */
  function Box(x0: int, y0: int, s: Start): (cs: seq<Point>)
    ensures |cs| == 4
  {
    RectangleCorners(x0 + s.column, y0 + s.row, x0 + s.column + s.width, y0 + s.row + s.height)
  }

  /** The rectangles emitted for the starts, in order: each start's rectangle,
      or its halves when a side reaches MaxLength. */
  function Pieces(x0: int, y0: int, starts: seq<Start>): seq<seq<Point>>
  {
    if |starts| == 0 then []
    else Pieces(x0, y0, starts[..|starts| - 1]) + Halve(Box(x0, y0, starts[|starts| - 1]))
  }

  /** The grid cell (r, c) exists and is outside the polygon or taken. */
  ghost predicate Blocked(grid: array2<bool>, prev: seq<Start>, r: int, c: int)
    reads grid
  {
    0 <= r < grid.Length0 && 0 <= c < grid.Length1 && (!grid[r, c] || Taken(prev, r, c))
  }

  /** Some cell of row r, among the w from column c0 on, is blocked. */
  ghost predicate RowBlocked(grid: array2<bool>, prev: seq<Start>, r: int, c0: int, w: int)
    reads grid
  {
    exists c :: c0 <= c < c0 + w && Blocked(grid, prev, r, c)
  }

  /** s is the rectangle the scan starts once the rectangles prev are taken:
      every inside cell before it in row-major order is taken, its cells are
      inside and free, it is grown right until the next cell of its first row
      is outside or taken, and then down until the next row has a cell outside
      or taken under its width. */
  ghost predicate Picks(grid: array2<bool>, prev: seq<Start>, s: Start)
    reads grid
  {
    1 <= s.width && 1 <= s.height &&
    s.column + s.width <= grid.Length1 && s.row + s.height <= grid.Length0 &&
    (forall r, c :: 0 <= r < grid.Length0 && 0 <= c < grid.Length1 && RowMajorBefore(r, c, s.row, s.column) ==>
       grid[r, c] ==> Taken(prev, r, c)) &&
    (forall r, c :: s.Holds(r, c) ==> grid[r, c] && !Taken(prev, r, c)) &&
    (s.column + s.width == grid.Length1 || Blocked(grid, prev, s.row, s.column + s.width)) &&
    (s.row + s.height == grid.Length0 || RowBlocked(grid, prev, s.row + s.height, s.column, s.width))
  }

  /** Every start is the one the scan picks after the ones before it. */
  ghost predicate Greedy(grid: array2<bool>, starts: seq<Start>)
    reads grid
  {
    |starts| == 0 ||
    (Greedy(grid, starts[..|starts| - 1]) && Picks(grid, starts[..|starts| - 1], starts[|starts| - 1]))
  }

  /** The processed matrix marks exactly the cells the starts hold. */
  ghost predicate Records(processed: array2<bool>, starts: seq<Start>)
    reads processed
  {
    forall r, c :: 0 <= r < processed.Length0 && 0 <= c < processed.Length1 ==>
      processed[r, c] == Taken(starts, r, c)
  }

  /** A cell is taken exactly when one of the starts holds it. */
  lemma {:induction false} TakenSome(starts: seq<Start>, r: int, c: int)
    ensures Taken(starts, r, c) <==> exists k :: 0 <= k < |starts| && starts[k].Holds(r, c)
  {
    if |starts| > 0 {
      var init := starts[..|starts| - 1];
      TakenSome(init, r, c);
      if k :| 0 <= k < |init| && init[k].Holds(r, c) {
        assert starts[k] == init[k];
      }
      if k :| 0 <= k < |starts| && starts[k].Holds(r, c) {
        assert k < |init| ==> init[k] == starts[k];
      }
    }
  }

  /** One more start takes its own cells and keeps the ones already taken. */
  lemma TakenAppend(starts: seq<Start>, s: Start, r: int, c: int)
    ensures Taken(starts + [s], r, c) == (Taken(starts, r, c) || s.Holds(r, c))
  {
    assert (starts + [s])[..|starts|] == starts;
  }

  lemma GreedyAppend(grid: array2<bool>, starts: seq<Start>, s: Start)
    requires Greedy(grid, starts) && Picks(grid, starts, s)
    ensures Greedy(grid, starts + [s])
  {
    assert (starts + [s])[..|starts|] == starts;
  }

  lemma PiecesAppend(x0: int, y0: int, starts: seq<Start>, s: Start)
    ensures Pieces(x0, y0, starts + [s]) == Pieces(x0, y0, starts) + Halve(Box(x0, y0, s))
  {
    assert (starts + [s])[..|starts|] == starts;
  }

  /** The scan starts its rectangles in row-major order of their first cells. */
  lemma GreedyInRowMajorOrder(grid: array2<bool>, starts: seq<Start>, i: int, j: int)
    requires Greedy(grid, starts) && 0 <= i < j < |starts|
    ensures RowMajorBefore(starts[i].row, starts[i].column, starts[j].row, starts[j].column)
  {
    var s, t := starts[i], starts[j];
    PickAt(grid, starts, i);
    PickAt(grid, starts, j);
    assert s.Holds(s.row, s.column) && t.Holds(t.row, t.column);
    // s holds its own cell, so the cell is taken before t is picked; t's cell
    // is free then, so the two cells differ.
    assert starts[..j][i] == s;
    TakenSome(starts[..j], s.row, s.column);
    // Were t's cell before s's, it would be inside and so taken before s,
    // and then also before t.
    TakenSome(starts[..i], t.row, t.column);
    TakenSome(starts[..j], t.row, t.column);
    forall k | 0 <= k < i
      ensures starts[..i][k] == starts[..j][k]
    {
    }
  }

  /** Two picks after the same taken rectangles are the same rectangle. */
  lemma PicksUnique(grid: array2<bool>, prev: seq<Start>, s: Start, t: Start)
    requires Picks(grid, prev, s) && Picks(grid, prev, t)
    ensures s == t
  {
    // Each first cell is inside and free, and every inside cell before the
    // other's first cell is taken: the first cells are the same.
    assert s.Holds(s.row, s.column) && t.Holds(t.row, t.column);
    assert s.row == t.row && s.column == t.column;
    // Neither width stops short of the other: the cell where the shorter one
    // stopped lies in the longer one, so it is inside and free.
    assert s.width < t.width ==> t.Holds(s.row, s.column + s.width);
    assert t.width < s.width ==> s.Holds(t.row, t.column + t.width);
    assert s.width == t.width;
    // Likewise for the heights, with the whole row below the shorter one.
    var below, above := s.row + s.height, t.row + t.height;
    assert s.height < t.height ==> forall c :: s.column <= c < s.column + s.width ==> !Blocked(grid, prev, below, c);
    assert t.height < s.height ==> forall c :: t.column <= c < t.column + t.width ==> !Blocked(grid, prev, above, c);
  }

  /** The greedy scan is determined by the grid: two runs that both take every
      inside cell start the same rectangles in the same order. */
  lemma GreedyUnique(grid: array2<bool>, a: seq<Start>, b: seq<Start>)
    requires Greedy(grid, a) && Greedy(grid, b)
    requires forall r, c :: 0 <= r < grid.Length0 && 0 <= c < grid.Length1 ==>
      (grid[r, c] ==> Taken(a, r, c)) && (grid[r, c] ==> Taken(b, r, c))
    ensures a == b
  {
    var k := if |a| <= |b| then |a| else |b|;
    PrefixesAgree(grid, a, b, k);
    // The longer run would pick one more rectangle, whose first cell is
    // inside but not taken by the shorter run, which takes every inside cell.
    LongerRunAbsent(grid, a, b, k);
    LongerRunAbsent(grid, b, a, k);
    assert a == a[..k] && b == b[..k];
  }

  /** Two greedy runs agree on their common length. */
  lemma {:induction false} PrefixesAgree(grid: array2<bool>, a: seq<Start>, b: seq<Start>, k: nat)
    requires Greedy(grid, a) && Greedy(grid, b) && k <= |a| && k <= |b|
    ensures a[..k] == b[..k]
  {
    if k > 0 {
      PrefixesAgree(grid, a, b, k - 1);
      var prev := a[..k - 1];
      PickAt(grid, a, k - 1);
      PickAt(grid, b, k - 1);
      PicksUnique(grid, prev, a[k - 1], b[k - 1]);
      assert a[..k] == prev + [a[k - 1]];
      assert b[..k] == prev + [b[k - 1]];
    }
  }

  /** Each start of a greedy run is the pick after the starts before it. */
  lemma {:induction false} PickAt(grid: array2<bool>, starts: seq<Start>, i: nat)
    requires Greedy(grid, starts) && i < |starts|
    ensures Picks(grid, starts[..i], starts[i])
    decreases |starts|
  {
    var init := starts[..|starts| - 1];
    if i < |init| {
      PickAt(grid, init, i);
      assert init[..i] == starts[..i] && init[i] == starts[i];
    }
  }

  /** A run that takes every inside cell has no further pick. */
  lemma LongerRunAbsent(grid: array2<bool>, a: seq<Start>, b: seq<Start>, k: nat)
    requires Greedy(grid, b) && k <= |a| && k <= |b| && a[..k] == b[..k]
    requires k == |a| || k == |b|
    requires forall r, c :: 0 <= r < grid.Length0 && 0 <= c < grid.Length1 ==> grid[r, c] ==> Taken(a, r, c)
    ensures k == |b|
  {
    if k < |b| {
      assert a == a[..k];
      var t := b[k];
      PickAt(grid, b, k);
      assert t.Holds(t.row, t.column);
    }
  }

  /** The state of the scan: the taken cells are inside and are exactly the
      cells the starts hold, every start is the greedy pick, and the
      rectangles emitted for the starts cover each taken cell once and lie
      in the grid's box. */
  ghost predicate Scanned(grid: array2<bool>, processed: array2<bool>, starts: seq<Start>,
                          rects: seq<seq<Point>>, x0: int, y0: int)
    reads grid, processed
    requires processed.Length0 == grid.Length0 && processed.Length1 == grid.Length1
  {
    TakenInside(grid, processed) && Records(processed, starts) && Greedy(grid, starts) &&
    rects == Pieces(x0, y0, starts) && Accounted(rects, processed, x0, y0) &&
    AllFitWithin(rects, x0, y0, x0 + grid.Length1, y0 + grid.Length0)
  }

  /** One more greedy pick, with its rectangle emitted and its cells taken,
      keeps the scan's state. */
  lemma ScannedStep(grid: array2<bool>, processed: array2<bool>, starts: seq<Start>, s: Start,
                    rects: seq<seq<Point>>, rectangles: seq<seq<Point>>, x0: int, y0: int)
    requires processed.Length0 == grid.Length0 && processed.Length1 == grid.Length1
    requires Greedy(grid, starts) && Picks(grid, starts, s) && rects == Pieces(x0, y0, starts)
    requires rectangles == rects + Halve(Box(x0, y0, s))
    requires Records(processed, starts + [s]) && TakenInside(grid, processed)
    requires Accounted(rectangles, processed, x0, y0)
    requires AllFitWithin(rectangles, x0, y0, x0 + grid.Length1, y0 + grid.Length0)
    ensures Scanned(grid, processed, starts + [s], rectangles, x0, y0)
  {
    GreedyAppend(grid, starts, s);
    PiecesAppend(x0, y0, starts, s);
  }

  /** render_as_squares: the rectangles are those the greedy scan starts, in
      row-major order, each emitted whole or halved; together they cover every
      point the polygon contains exactly once and nothing else, and each fits
      in a brick. The grid is the polygon's rasterisation, returned so that
      the contract can name it. */
  method RenderAsSquares(polygon: Polygon)
    returns (rectangles: seq<seq<Point>>, ghost grid: array2<bool>, ghost starts: seq<Start>)
    requires polygon.Valid()
    ensures fresh(grid)
    ensures grid.Length0 == polygon.size.y + 1 && grid.Length1 == polygon.size.x + 1
    ensures forall r, c :: 0 <= r < grid.Length0 && 0 <= c < grid.Length1 ==>
      grid[r, c] == Inside(polygon.points, polygon.min, polygon.max, GridPoint(polygon.min.x, polygon.min.y, r, c))
    ensures Greedy(grid, starts)
    ensures forall r, c :: 0 <= r < grid.Length0 && 0 <= c < grid.Length1 ==> grid[r, c] == Taken(starts, r, c)
    ensures rectangles == Pieces(polygon.min.x, polygon.min.y, starts)
    ensures forall q ::
      CoverCount(rectangles, q) == (if Inside(polygon.points, polygon.min, polygon.max, q) then 1 else 0)
    ensures forall i :: 0 <= i < |rectangles| ==> Fits(rectangles[i])
  {
    rectangles := [];
    starts := [];
    var minX := polygon.min.x;
    var minY := polygon.min.y;
    var columnCount := polygon.size.x + 1;
    var rowCount := polygon.size.y + 1;
    var inside := Rasterise(polygon, minX, minY, rowCount, columnCount);
    grid := inside;
    var processed := new bool[rowCount, columnCount]((_, _) => false);

    var row := 0;
    while row < rowCount
      modifies processed
      invariant 0 <= row <= rowCount
      invariant DoneBefore(inside, processed, row, 0)
      invariant Scanned(inside, processed, starts, rectangles, minX, minY)
    {
      rectangles, starts := ScanRow(inside, processed, row, minX, minY, rectangles, starts);
      row := row + 1;
    }

    BoundedOrdered(polygon.min, polygon.max, polygon.anchor + polygon.points);
    GridCoverage(rectangles, inside, processed, polygon.points, polygon.min, polygon.max);
  }

  /** One row of the scan: start a rectangle at every inside cell of the row
      not yet taken, left to right; the rectangles started so far stay in
      front and the scan stays greedy. */
  method ScanRow(grid: array2<bool>, processed: array2<bool>, row: nat, x0: int, y0: int,
                 rects: seq<seq<Point>>, ghost starts: seq<Start>)
    returns (rectangles: seq<seq<Point>>, ghost starts': seq<Start>)
    modifies processed
    requires processed != grid
    requires processed.Length0 == grid.Length0 && processed.Length1 == grid.Length1
    requires row < grid.Length0
    requires DoneBefore(grid, processed, row, 0) && Scanned(grid, processed, starts, rects, x0, y0)
    ensures DoneBefore(grid, processed, row + 1, 0) && Scanned(grid, processed, starts', rectangles, x0, y0)
    ensures |starts| <= |starts'| && starts'[..|starts|] == starts
  {
    rectangles := rects;
    starts' := starts;
    var column := 0;
    while column < grid.Length1
      invariant 0 <= column <= grid.Length1
      invariant DoneBefore(grid, processed, row, column) && Scanned(grid, processed, starts', rectangles, x0, y0)
      invariant |starts| <= |starts'| && starts'[..|starts|] == starts
    {
      if grid[row, column] && !processed[row, column] {
        var width, height;
        ghost var rects' := rectangles;
        rectangles, width, height := TakeRectangle(grid, processed, row, column, x0, y0, rectangles, starts');
        ghost var s := Start(row, column, width, height);
        ScannedStep(grid, processed, starts', s, rects', rectangles, x0, y0);
        assert (starts' + [s])[..|starts|] == starts'[..|starts|];
        starts' := starts' + [s];
      }
      column := column + 1;
    }
  }

  /** One step of the merge at an inside cell not yet taken: grow the
      rectangle right and then down, take its cells, and emit it (halved if a
      side reaches MaxLength) after the rectangles already emitted. The grown
      rectangle is the one the greedy scan picks next. */
  method TakeRectangle(grid: array2<bool>, processed: array2<bool>, row: nat, column: nat,
                       x0: int, y0: int, rects: seq<seq<Point>>, ghost starts: seq<Start>)
    returns (rectangles: seq<seq<Point>>, width: nat, height: nat)
    modifies processed
    requires processed != grid
    requires processed.Length0 == grid.Length0 && processed.Length1 == grid.Length1
    requires row < grid.Length0 && column < grid.Length1
    requires grid[row, column] && !processed[row, column]
    requires DoneBefore(grid, processed, row, column) && Records(processed, starts)
    requires TakenInside(grid, processed) && Accounted(rects, processed, x0, y0)
    requires AllFitWithin(rects, x0, y0, x0 + grid.Length1, y0 + grid.Length0)
    ensures Picks(grid, starts, Start(row, column, width, height))
    ensures rectangles == rects + Halve(Box(x0, y0, Start(row, column, width, height)))
    ensures Records(processed, starts + [Start(row, column, width, height)])
    ensures TakenInside(grid, processed) && Accounted(rectangles, processed, x0, y0)
    ensures AllFitWithin(rectangles, x0, y0, x0 + grid.Length1, y0 + grid.Length0)
    ensures processed[row, column]
    ensures forall r, c :: 0 <= r < grid.Length0 && 0 <= c < grid.Length1 && old(processed[r, c]) ==> processed[r, c]
  {
    width := GrowWidth(grid, processed, row, column);
    height := GrowHeight(grid, processed, row, column, width);
    var s := Start(row, column, width, height);
    PicksGrown(grid, processed, starts, s);
    MarkProcessed(processed, row, column, width, height);
    forall r, c | 0 <= r < processed.Length0 && 0 <= c < processed.Length1
      ensures processed[r, c] == Taken(starts + [s], r, c)
    {
      TakenAppend(starts, s, r, c);
    }

    rectangles := EmitRectangle(x0, y0, s, rects, x0 + grid.Length1, y0 + grid.Length0);
    forall r, c | 0 <= r < grid.Length0 && 0 <= c < grid.Length1
      ensures CoverCount(rectangles, GridPoint(x0, y0, r, c)) == (if processed[r, c] then 1 else 0)
    {
      var q := GridPoint(x0, y0, r, c);
      CoversGridCell(x0, y0, row, column, width, height, r, c);
      assert CoverCount(rects, q) == (if old(processed[r, c]) then 1 else 0);
    }
  }

  /** Emits a grown rectangle after the ones before it: whole when both sides
      are below MaxLength, otherwise halved; either way it adds one cover to
      exactly its own cells, and every piece fits and stays in the box. */
  method EmitRectangle(x0: int, y0: int, s: Start, rects: seq<seq<Point>>, x1: int, y1: int)
    returns (rectangles: seq<seq<Point>>)
    requires 1 <= s.width && 1 <= s.height
    requires x0 + s.column + s.width <= x1 && y0 + s.row + s.height <= y1
    requires AllFitWithin(rects, x0, y0, x1, y1)
    ensures rectangles == rects + Halve(Box(x0, y0, s))
    ensures AllFitWithin(rectangles, x0, y0, x1, y1)
    ensures forall q :: CoverCount(rectangles, q) == CoverCount(rects, q) + (if Covers(Box(x0, y0, s), q) then 1 else 0)
  {
    var x, y := x0 + s.column, y0 + s.row;
    var tl := Point(x, y);
    var br := Point(x + s.width, y + s.height);
    var tr := Point(x + s.width, y);
    var bl := Point(x, y + s.height);
    var rectangle := [tl, tr, br, bl];
    assert rectangle == Box(x0, y0, s);
    if s.width >= MaxLength || s.height >= MaxLength {
      rectangles := rects + Halve(rectangle);
    } else {
      rectangles := rects + [rectangle];
    }
    AddedRectangle(rects, rectangles, rectangle, s.width >= MaxLength || s.height >= MaxLength, x0, y0, x1, y1);
  }

  /** What GrowWidth and GrowHeight establish, read through the taken
      cells: the grown rectangle is the scan's next pick. */
  lemma PicksGrown(grid: array2<bool>, processed: array2<bool>, starts: seq<Start>, s: Start)
    requires processed.Length0 == grid.Length0 && processed.Length1 == grid.Length1
    requires Records(processed, starts) && DoneBefore(grid, processed, s.row, s.column)
    requires 1 <= s.width && 1 <= s.height
    requires s.column + s.width <= grid.Length1 && s.row + s.height <= grid.Length0
    requires forall r, c :: s.row <= r < s.row + s.height && s.column <= c < s.column + s.width ==>
      grid[r, c] && !processed[r, c]
    requires s.column + s.width == grid.Length1 || !grid[s.row, s.column + s.width] ||
      processed[s.row, s.column + s.width]
    requires s.row + s.height == grid.Length0 || !RowFree(grid, processed, s.row + s.height, s.column, s.width)
    ensures Picks(grid, starts, s)
  {
    var below := s.row + s.height;
    if below < grid.Length0 {
      var c :| s.column <= c < s.column + s.width && !(grid[below, c] && !processed[below, c]);
      assert Blocked(grid, starts, below, c);
    }
  }

  /** The rectangle grown from (row, column) covers exactly the grid cells
      of its rows and columns. */
  lemma CoversGridCell(x0: int, y0: int, row: nat, column: nat, width: nat, height: nat, r: int, c: int)
    ensures var x, y := x0 + column, y0 + row;
      Covers([Point(x, y), Point(x + width, y), Point(x + width, y + height), Point(x, y + height)],
             GridPoint(x0, y0, r, c))
      <==> row <= r < row + height && column <= c < column + width
  {
  }

  /** Once every inside cell of the box's grid is taken, the rectangles cover
      exactly the points the polygon contains. */
  lemma GridCoverage(rects: seq<seq<Point>>, grid: array2<bool>, processed: array2<bool>,
                     pts: seq<Point>, lo: Point, hi: Point)
    requires processed.Length0 == grid.Length0 && processed.Length1 == grid.Length1
    requires grid.Length0 == hi.y - lo.y + 1 && grid.Length1 == hi.x - lo.x + 1
    requires TakenInside(grid, processed) && DoneBefore(grid, processed, grid.Length0, 0)
    requires Accounted(rects, processed, lo.x, lo.y)
    requires AllFitWithin(rects, lo.x, lo.y, hi.x + 1, hi.y + 1)
    requires forall r, c :: 0 <= r < grid.Length0 && 0 <= c < grid.Length1 ==>
      grid[r, c] == Inside(pts, lo, hi, GridPoint(lo.x, lo.y, r, c))
    ensures forall q :: CoverCount(rects, q) == (if Inside(pts, lo, hi, q) then 1 else 0)
  {
    forall q
      ensures CoverCount(rects, q) == (if Inside(pts, lo, hi, q) then 1 else 0)
    {
      if InBox(lo, hi, q) {
        var r, c := q.y - lo.y, q.x - lo.x;
        assert q == GridPoint(lo.x, lo.y, r, c);
        assert processed[r, c] == grid[r, c];
      } else {
        OutsideUncovered(rects, lo.x, lo.y, hi.x + 1, hi.y + 1, q);
      }
    }
  }

  /** Appending a rectangle, or its halves, adds one cover to exactly the cells
      of the rectangle and keeps every rectangle small and within the box. */
  lemma AddedRectangle(before: seq<seq<Point>>, after: seq<seq<Point>>, rectangle: seq<Point>,
                       halved: bool, x0: int, y0: int, x1: int, y1: int)
    requires IsRectangle(rectangle)
    requires halved ==> after == before + Halve(rectangle)
    requires !halved ==> after == before + [rectangle] && Fits(rectangle)
    requires AllFitWithin(before, x0, y0, x1, y1) && WithinBox(rectangle, x0, y0, x1, y1)
    ensures AllFitWithin(after, x0, y0, x1, y1)
    ensures forall q :: CoverCount(after, q) == CoverCount(before, q) + (if Covers(rectangle, q) then 1 else 0)
  {
    if halved {
      HalveFits(rectangle);
    }
    forall q
      ensures CoverCount(after, q) == CoverCount(before, q) + (if Covers(rectangle, q) then 1 else 0)
    {
      if halved {
        HalveTiles(rectangle, q);
        CoverCountAppend(before, Halve(rectangle), q);
      } else {
        CoverCountAppend(before, [rectangle], q);
        assert [rectangle][..0] == [];
      }
    }
  }
}
