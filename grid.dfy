/** The grid of the circular ("theta") maze: rings of cells around a centre,
    ring r split into initialDivisions * 2^(r/2) cells; which cells neighbour
    each other, and the walls between them. */
module MazeGrid {
  import opened Cells

  /** A cell's place: (ring, division). */
  type Pos = (nat, nat)

  function Pow2(k: nat): (p: nat)
    ensures p >= 1
  {
    if k == 0 then 1 else 2 * Pow2(k - 1)
  }

  /** The number of cells in ring r: the count doubles every second ring. */
  function DivisionsInRing(initialDivisions: nat, ring: nat): (n: nat)
  {
    initialDivisions * Pow2(ring / 2)
  }

  /** No ring has fewer cells than the centre, and rings 0 and 1 have exactly
      initialDivisions. */
  lemma DivisionsAtLeastInitial(initialDivisions: nat, ring: nat)
    ensures initialDivisions <= DivisionsInRing(initialDivisions, ring)
    ensures ring < 2 ==> DivisionsInRing(initialDivisions, ring) == initialDivisions
  {
    var p := Pow2(ring / 2);
    assert initialDivisions * p == initialDivisions + initialDivisions * (p - 1);
  }

  /** Rings 2k and 2k + 1 have the same number of cells, and ring 2k + 2 twice
      as many; ring 0 has initialDivisions. */
  lemma DivisionsDouble(initialDivisions: nat, k: nat)
    ensures DivisionsInRing(initialDivisions, 0) == initialDivisions
    ensures DivisionsInRing(initialDivisions, 2 * k + 1) == DivisionsInRing(initialDivisions, 2 * k)
    ensures DivisionsInRing(initialDivisions, 2 * k + 2) == 2 * DivisionsInRing(initialDivisions, 2 * k)
  {
    assert (2 * k + 2) / 2 == k + 1;
    assert (2 * k + 1) / 2 == k;
  }

  /** Going out one ring keeps the count from an even ring and doubles it from
      an odd ring. */
  lemma NextRing(initialDivisions: nat, r: nat)
    ensures r % 2 == 0 ==> DivisionsInRing(initialDivisions, r + 1) == DivisionsInRing(initialDivisions, r)
    ensures r % 2 == 1 ==> DivisionsInRing(initialDivisions, r + 1) == 2 * DivisionsInRing(initialDivisions, r)
  {
    DivisionsDouble(initialDivisions, r / 2);
    if r % 2 == 1 {
      assert r + 1 == 2 * (r / 2) + 2;
      assert r == 2 * (r / 2) + 1;
    } else {
      assert r == 2 * (r / 2);
    }
  }

  predicate InBounds(rings: nat, initialDivisions: nat, p: Pos)
  {
    p.0 < rings && p.1 < DivisionsInRing(initialDivisions, p.0)
  }

  // ---------------------------------------------------------------------
  // Adjacency

  /** The neighbours of (r, d) in the order they are examined: left, right,
      the inner cell (from ring 1 outwards), then the outer cell or cells (up to
      the next-to-last ring). From an odd ring the outer ring has twice the cells,
      so there are two outer neighbours; from an even ring there is one. */
  function Neighbours(rings: nat, initialDivisions: nat, r: nat, d: nat): (ns: seq<Pos>)
    requires initialDivisions >= 1
    ensures 2 <= |ns| <= 5
    ensures ns[0].0 == r && ns[1].0 == r
  {
    var n := DivisionsInRing(initialDivisions, r);
    var odd := r % 2 == 1;
    var left := (d + n - 1) % n;
    var right := (d + 1) % n;
    [(r, left), (r, right)]
    + (if r > 0 then [(r - 1, if odd then d else d / 2)] else [])
    + (if r + 1 < rings then (if odd then [(r + 1, d * 2), (r + 1, d * 2 + 1)] else [(r + 1, d)]) else [])
  }

  /** Every neighbour lies in the cell's own ring or one ring either side. */
  lemma NeighboursNearby(rings: nat, initialDivisions: nat, r: nat, d: nat)
    requires initialDivisions >= 1
    ensures forall p :: p in Neighbours(rings, initialDivisions, r, d) ==> r <= p.0 + 1 && p.0 <= r + 1
  {
  }

  /** Two cells of one ring are next to each other around the circle. */
  predicate Consecutive(n: nat, d: nat, e: nat)
  {
    n > 0 && (e == (d + 1) % n || d == (e + 1) % n)
  }

  /** Cell (r, d) covers the angles [d / n_r, (d + 1) / n_r) of the full turn.
      Two cells of neighbouring rings touch when these intervals overlap. */
  predicate Overlap(initialDivisions: nat, a: Pos, b: Pos)
  {
    var na, nb := DivisionsInRing(initialDivisions, a.0), DivisionsInRing(initialDivisions, b.0);
    a.1 * nb < (b.1 + 1) * na && b.1 * na < (a.1 + 1) * nb
  }

  /** Cells that share a wall, described geometrically. */
  predicate Adjacent(initialDivisions: nat, a: Pos, b: Pos)
  {
    (a.0 == b.0 && Consecutive(DivisionsInRing(initialDivisions, a.0), a.1, b.1)) ||
    ((a.0 + 1 == b.0 || b.0 + 1 == a.0) && Overlap(initialDivisions, a, b))
  }

  /** Same-ring angular overlap, scaled by a common ring size. */
  lemma OverlapSameSize(n: nat, d: nat, e: nat)
    requires n > 0
    ensures (d * n < (e + 1) * n && e * n < (d + 1) * n) <==> d == e
  {
    if d * n < (e + 1) * n { ScaleBack(d, e + 1, n); }
    if e * n < (d + 1) * n { ScaleBack(e, d + 1, n); }
    if d == e {
      assert (d + 1) * n == d * n + n;
    }
  }

  /** Overlap with a ring of twice the size: the two halves of the wider cell. */
  lemma OverlapDoubleSize(n: nat, d: nat, e: nat)
    requires n > 0
    ensures (d * (2 * n) < (e + 1) * n && e * n < (d + 1) * (2 * n)) <==> (e == 2 * d || e == 2 * d + 1)
  {
    assert d * (2 * n) == (2 * d) * n;
    assert (d + 1) * (2 * n) == (2 * d + 2) * n;
    if d * (2 * n) < (e + 1) * n { ScaleBack(2 * d, e + 1, n); }
    if e * n < (d + 1) * (2 * n) { ScaleBack(e, 2 * d + 2, n); }
    if e == 2 * d || e == 2 * d + 1 {
      assert (e + 1) * n == e * n + n;
      assert (2 * d + 2) * n == (2 * d) * n + 2 * n;
    }
  }

  lemma ScaleBack(x: nat, y: nat, n: nat)
    requires n > 0 && x * n < y * n
    ensures x < y
  {
  }

  /** The left and right neighbours are exactly the consecutive cells. */
  lemma AroundTheRing(n: nat, d: nat, e: nat)
    requires n > 0 && d < n
    ensures (e == (d + n - 1) % n || e == (d + 1) % n) <==> e < n && Consecutive(n, d, e)
  {
    Wrap(d + n - 1, n);
    Wrap(d + 1, n);
    if e < n {
      Wrap(e + 1, n);
    }
  }

  /** Remainder of a number below twice the divisor. */
  lemma Wrap(x: nat, n: nat)
    requires 0 < n && x < 2 * n
    ensures x % n == if x < n then x else x - n
  {
  }


  /** The inner neighbour: the same division from an odd ring, half of it from
      an even ring. */
  lemma InnerRing(initialDivisions: nat, r: nat, d: nat, e: nat)
    requires initialDivisions >= 1 && r > 0 && d < DivisionsInRing(initialDivisions, r)
    ensures e == (if r % 2 == 1 then d else d / 2)
        <==> e < DivisionsInRing(initialDivisions, r - 1) && Overlap(initialDivisions, (r, d), (r - 1, e))
  {
    var n := DivisionsInRing(initialDivisions, r);
    var m := DivisionsInRing(initialDivisions, r - 1);
    NextRing(initialDivisions, r - 1);
    if r % 2 == 1 {
      OverlapSameSize(n, d, e);
    } else {
      OverlapDoubleSize(m, e, d);
      assert e == d / 2 <==> d == 2 * e || d == 2 * e + 1;
    }
  }

  /** The outer neighbours: twice and twice plus one from an odd ring, the same
      division from an even ring. */
  lemma OuterRing(initialDivisions: nat, r: nat, d: nat, e: nat)
    requires initialDivisions >= 1 && d < DivisionsInRing(initialDivisions, r)
    ensures (if r % 2 == 1 then e == d * 2 || e == d * 2 + 1 else e == d)
        <==> e < DivisionsInRing(initialDivisions, r + 1) && Overlap(initialDivisions, (r, d), (r + 1, e))
  {
    var n := DivisionsInRing(initialDivisions, r);
    NextRing(initialDivisions, r);
    if r % 2 == 1 {
      OverlapDoubleSize(n, d, e);
    } else {
      OverlapSameSize(n, d, e);
    }
  }

  /** The arithmetic neighbour rule finds exactly the in-bounds cells adjacent
      to (r, d): left and right around the ring, and the cells of the rings
      inside and outside whose angles overlap it. */
  lemma NeighboursAreAdjacent(rings: nat, initialDivisions: nat, a: Pos, b: Pos)
    requires initialDivisions >= 1 && InBounds(rings, initialDivisions, a)
    ensures b in Neighbours(rings, initialDivisions, a.0, a.1)
        <==> InBounds(rings, initialDivisions, b) && Adjacent(initialDivisions, a, b)
  {
    var (r, d) := a;
    var n := DivisionsInRing(initialDivisions, r);
    AroundTheRing(n, d, b.1);
    if b.0 + 1 == r {
      InnerRing(initialDivisions, r, d, b.1);
    }
    if b.0 == r + 1 {
      OuterRing(initialDivisions, r, d, b.1);
    }
  }

  /** Hence adjacency as the neighbour rule computes it is symmetric. */
  lemma NeighboursSymmetric(rings: nat, initialDivisions: nat, a: Pos, b: Pos)
    requires initialDivisions >= 1 && InBounds(rings, initialDivisions, a)
    requires b in Neighbours(rings, initialDivisions, a.0, a.1)
    ensures InBounds(rings, initialDivisions, b)
    ensures a in Neighbours(rings, initialDivisions, b.0, b.1)
  {
    NeighboursAreAdjacent(rings, initialDivisions, a, b);
    NeighboursAreAdjacent(rings, initialDivisions, b, a);
  }

  /** In a ring of two cells the left and the right neighbour are the same
      cell, which is then listed twice. */
  lemma TwoCellRing(rings: nat, initialDivisions: nat, r: nat, d: nat)
    requires initialDivisions >= 1 && DivisionsInRing(initialDivisions, r) == 2 && d < 2
    ensures Neighbours(rings, initialDivisions, r, d)[0] == Neighbours(rings, initialDivisions, r, d)[1]
  {
  }

  /** Every listed neighbour is a cell of the maze. */
  lemma NeighboursInBounds(rings: nat, initialDivisions: nat, a: Pos)
    requires initialDivisions >= 1 && InBounds(rings, initialDivisions, a)
    ensures forall q :: q in Neighbours(rings, initialDivisions, a.0, a.1) ==> InBounds(rings, initialDivisions, q)
  {
    forall q | q in Neighbours(rings, initialDivisions, a.0, a.1)
      ensures InBounds(rings, initialDivisions, q)
    {
      NeighboursAreAdjacent(rings, initialDivisions, a, q);
    }
  }

  // ---------------------------------------------------------------------
  // The grid of cells

  /** Ring r holds DivisionsInRing(r) cells. */
  predicate Shaped(m: seq<seq<Cell>>, rings: nat, initialDivisions: nat)
  {
    |m| == rings && forall r :: 0 <= r < rings ==> |m[r]| == DivisionsInRing(initialDivisions, r)
  }

  predicate InMaze(m: seq<seq<Cell>>, p: Pos)
  {
    p.0 < |m| && p.1 < |m[p.0]|
  }

  predicate Visited(m: seq<seq<Cell>>, p: Pos)
  {
    InMaze(m, p) && m[p.0][p.1].visited
  }

  function SetCell(m: seq<seq<Cell>>, p: Pos, c: Cell): (m': seq<seq<Cell>>)
    requires InMaze(m, p)
    ensures |m'| == |m| && forall r :: 0 <= r < |m| ==> |m'[r]| == |m[r]|
    ensures m'[p.0][p.1] == c
    ensures forall q: Pos :: InMaze(m, q) && q != p ==> m'[q.0][q.1] == m[q.0][q.1]
  {
    m[p.0 := m[p.0][p.1 := c]]
  }

  /** The cells of ns that are not yet visited, in order. */
  function Unvisited(m: seq<seq<Cell>>, ns: seq<Pos>): seq<Pos>
  {
    if |ns| == 0 then []
    else
      var last := ns[|ns| - 1];
      Unvisited(m, ns[..|ns| - 1]) + (if Visited(m, last) then [] else [last])
  }

  /** The unvisited cells are exactly the cells of ns that are not visited. */
  lemma {:induction false} UnvisitedMembers(m: seq<seq<Cell>>, ns: seq<Pos>)
    ensures forall q :: q in Unvisited(m, ns) <==> q in ns && !Visited(m, q)
  {
    if |ns| > 0 {
      UnvisitedMembers(m, ns[..|ns| - 1]);
      assert ns == ns[..|ns| - 1] + [ns[|ns| - 1]];
    }
  }

  lemma {:induction false} UnvisitedAppend(m: seq<seq<Cell>>, a: seq<Pos>, b: seq<Pos>)
    ensures Unvisited(m, a + b) == Unvisited(m, a) + Unvisited(m, b)
  {
    if |b| == 0 {
      assert a + b == a;
    } else {
      UnvisitedAppend(m, a, b[..|b| - 1]);
      assert (a + b)[..|a + b| - 1] == a + b[..|b| - 1];
    }
  }

  /** Every neighbour of p has been visited: the backtracker has nothing left
      to do at p. */
  predicate Done(m: seq<seq<Cell>>, rings: nat, initialDivisions: nat, p: Pos)
  {
    initialDivisions >= 1 && forall q :: q in Neighbours(rings, initialDivisions, p.0, p.1) ==> Visited(m, q)
  }

  // ---------------------------------------------------------------------
  // Walls

  /** The right wall of a cell (towards division + 1), or its inner wall
      (towards the ring inside). */
  datatype Wall = Right(ring: nat, division: nat) | Inner(ring: nat, division: nat)

  function WallCell(w: Wall): Pos
  {
    (w.ring, w.division)
  }

  /** The inner neighbour of division d of ring r > 0. */
  function InnerDivision(r: nat, d: nat): nat
  {
    if r % 2 == 1 then d else d / 2
  }

  /** The cell on the other side of a wall from the cell that owns it: the
      next division for a right wall, the inner neighbour for an inner wall. */
  function Across(initialDivisions: nat, w: Wall): Pos
    requires initialDivisions >= 1
  {
    match w
    case Right(r, d) => (r, (d + 1) % DivisionsInRing(initialDivisions, r))
    case Inner(r, d) => (if r > 0 then r - 1 else 0, InnerDivision(r, d))
  }

  /** The wall lies between a and b. */
  predicate Separates(initialDivisions: nat, w: Wall, a: Pos, b: Pos)
    requires initialDivisions >= 1
  {
    (WallCell(w) == a && Across(initialDivisions, w) == b) ||
    (WallCell(w) == b && Across(initialDivisions, w) == a)
  }

  /** The walls inside the carved part: right walls from ring 1 out and inner
      walls from ring 2 out (ring 0 is the open centre). */
  predicate Internal(rings: nat, initialDivisions: nat, w: Wall)
  {
    InBounds(rings, initialDivisions, WallCell(w)) &&
    (if w.Right? then w.ring >= 1 else w.ring >= 2)
  }

  predicate IsOpen(m: seq<seq<Cell>>, w: Wall)
  {
    InMaze(m, WallCell(w)) &&
    (if w.Right? then !m[w.ring][w.division].rightWall else !m[w.ring][w.division].innerWall)
  }

  /** The maze with one wall flag cleared. */
  function OpenWall(m: seq<seq<Cell>>, w: Wall): seq<seq<Cell>>
    requires InMaze(m, WallCell(w))
  {
    var c := m[w.ring][w.division];
    SetCell(m, WallCell(w), if w.Right? then c.(rightWall := false) else c.(innerWall := false))
  }

  /** Opening a wall clears that one flag and changes nothing else: no other
      cell, no other flag of the cell, and never sets a wall back. */
  lemma OpenWallEffect(m: seq<seq<Cell>>, w: Wall)
    requires InMaze(m, WallCell(w))
    ensures IsOpen(OpenWall(m, w), w)
    ensures forall u :: u != w ==> (IsOpen(OpenWall(m, w), u) <==> IsOpen(m, u))
    ensures forall q: Pos :: InMaze(m, q) ==>
      OpenWall(m, w)[q.0][q.1].visited == m[q.0][q.1].visited &&
      OpenWall(m, w)[q.0][q.1].outerWall == m[q.0][q.1].outerWall
    ensures forall q: Pos :: InMaze(m, q) && q != WallCell(w) ==> OpenWall(m, w)[q.0][q.1] == m[q.0][q.1]
  {
  }

  /** The wall opened between a cell and its neighbour: within a ring the right
      wall of whichever cell has the other as its successor, across rings the
      inner wall of the outer cell. */
  function WallBetween(initialDivisions: nat, a: Pos, b: Pos): (w: Wall)
    requires initialDivisions >= 1
    ensures WallCell(w) == a || WallCell(w) == b
    ensures w.Right? <==> a.0 == b.0
    ensures w.Inner? ==> w.ring >= a.0 && w.ring >= b.0
  {
    if a.0 == b.0 then
      var next := (a.1 + 1) % DivisionsInRing(initialDivisions, a.0);
      if b.1 == next then Right(a.0, a.1) else Right(a.0, b.1)
    else
      var outer := if a.0 < b.0 then b else a;
      Inner(outer.0, outer.1)
  }

  /** The wall opened between a cell and one of its other neighbours is the
      very wall that separates the two. */
  lemma WallBetweenSeparates(rings: nat, initialDivisions: nat, a: Pos, b: Pos)
    requires initialDivisions >= 1 && InBounds(rings, initialDivisions, a)
    requires b in Neighbours(rings, initialDivisions, a.0, a.1) && b != a
    ensures Separates(initialDivisions, WallBetween(initialDivisions, a, b), a, b)
    ensures InBounds(rings, initialDivisions, WallCell(WallBetween(initialDivisions, a, b)))
  {
    var (r, d) := a;
    NeighboursAreAdjacent(rings, initialDivisions, a, b);
    if b.0 == r {
      SameRingWall(DivisionsInRing(initialDivisions, r), d, b.1);
    } else if b.0 + 1 == r {
      InnerRing(initialDivisions, r, d, b.1);
    } else {
      OuterRing(initialDivisions, r, d, b.1);
      OuterWall(initialDivisions, r, d, b.1);
    }
  }

  lemma SameRingWall(n: nat, d: nat, e: nat)
    requires n > 0 && d < n && e < n && Consecutive(n, d, e)
    ensures e == (d + 1) % n || (e + 1) % n == d
  {
  }

  lemma OuterWall(initialDivisions: nat, r: nat, d: nat, e: nat)
    requires initialDivisions >= 1
    requires if r % 2 == 1 then e == d * 2 || e == d * 2 + 1 else e == d
    ensures InnerDivision(r + 1, e) == d
  {
  }

  /** Within a ring of three or more cells, and across rings, it does not
      matter which side the wall is opened from. */
  lemma WallBetweenSymmetric(rings: nat, initialDivisions: nat, a: Pos, b: Pos)
    requires initialDivisions >= 1 && InBounds(rings, initialDivisions, a)
    requires b in Neighbours(rings, initialDivisions, a.0, a.1) && b != a
    requires a.0 != b.0 || DivisionsInRing(initialDivisions, a.0) >= 3
    ensures WallBetween(initialDivisions, a, b) == WallBetween(initialDivisions, b, a)
  {
    NeighboursAreAdjacent(rings, initialDivisions, a, b);
    if a.0 == b.0 {
      NotBothSuccessors(DivisionsInRing(initialDivisions, a.0), a.1, b.1);
    }
  }

  /** In a ring of three or more, two cells are not each other's successor. */
  lemma NotBothSuccessors(n: nat, d: nat, e: nat)
    requires n >= 3 && d < n && e < n
    ensures !(e == (d + 1) % n && d == (e + 1) % n)
  {
  }

  /** The cells of a fresh ring. */
  function FreshRing(n: nat): (cs: seq<Cell>)
    ensures |cs| == n && forall d :: 0 <= d < n ==> cs[d] == NewCell()
  {
    seq(n, _ => NewCell())
  }

  /** Marking a cell visited touches no wall. */
  function MarkVisited(m: seq<seq<Cell>>, p: Pos): (m': seq<seq<Cell>>)
    requires InMaze(m, p)
    ensures Visited(m', p)
    ensures forall q: Pos :: q != p ==> (Visited(m', q) <==> Visited(m, q))
    ensures forall w :: IsOpen(m', w) <==> IsOpen(m, w)
    ensures forall q: Pos :: InMaze(m, q) ==> InMaze(m', q) && m'[q.0][q.1].outerWall == m[q.0][q.1].outerWall
    ensures forall q: Pos :: InMaze(m, q) && q != p ==> InMaze(m', q) && m'[q.0][q.1] == m[q.0][q.1]
  {
    SetCell(m, p, m[p.0][p.1].(visited := true))
  }

  /** The cells outside the centre: rings 1 to rings - 1. */
  function RingCells(rings: nat, initialDivisions: nat): set<Pos>
  {
    set r: nat, d: nat | 1 <= r < rings && d < DivisionsInRing(initialDivisions, r) :: (r, d)
  }

  lemma RingCellsMembers(rings: nat, initialDivisions: nat, p: Pos)
    ensures p in RingCells(rings, initialDivisions) <==> InBounds(rings, initialDivisions, p) && p.0 >= 1
  {
    if InBounds(rings, initialDivisions, p) && p.0 >= 1 {
      var (r, d) := p;
      assert (r, d) in RingCells(rings, initialDivisions);
    }
  }

  /** The candidates at (r, d) are unvisited cells of the maze, in the ring
      itself or the next ring in or out, adjacent to (r, d). */
  lemma CandidatesInBounds(m: seq<seq<Cell>>, rings: nat, initialDivisions: nat, r: nat, d: nat, q: Pos)
    requires initialDivisions >= 1 && InBounds(rings, initialDivisions, (r, d))
    requires q in Unvisited(m, Neighbours(rings, initialDivisions, r, d))
    ensures InBounds(rings, initialDivisions, q) && !Visited(m, q)
    ensures r - 1 <= q.0 <= r + 1
    ensures Adjacent(initialDivisions, (r, d), q)
  {
    UnvisitedMembers(m, Neighbours(rings, initialDivisions, r, d));
    NeighboursAreAdjacent(rings, initialDivisions, (r, d), q);
  }

  /** One move of a walk: from a to a different neighbour b through an open
      wall. */
  predicate Step(m: seq<seq<Cell>>, rings: nat, initialDivisions: nat, a: Pos, b: Pos)
  {
    initialDivisions >= 1 && InBounds(rings, initialDivisions, a) && a != b &&
    b in Neighbours(rings, initialDivisions, a.0, a.1) &&
    IsOpen(m, WallBetween(initialDivisions, a, b))
  }

  /** A sequence of cells each reached from the one before by a Step. */
  predicate Walk(m: seq<seq<Cell>>, rings: nat, initialDivisions: nat, s: seq<Pos>)
  {
    forall i :: 0 <= i < |s| - 1 ==> Step(m, rings, initialDivisions, s[i], s[i + 1])
  }

  /** Every wall open in m is open in m'. */
  ghost predicate WallsKept(m: seq<seq<Cell>>, m': seq<seq<Cell>>)
  {
    forall w :: IsOpen(m, w) ==> IsOpen(m', w)
  }

  /** Walls only ever open, so a walk stays a walk. */
  lemma WalkKept(m: seq<seq<Cell>>, m': seq<seq<Cell>>, rings: nat, initialDivisions: nat, s: seq<Pos>)
    requires Walk(m, rings, initialDivisions, s) && WallsKept(m, m')
    ensures Walk(m', rings, initialDivisions, s)
  {
    forall i | 0 <= i < |s| - 1
      ensures Step(m', rings, initialDivisions, s[i], s[i + 1])
    {
      assert Step(m, rings, initialDivisions, s[i], s[i + 1]);
    }
  }

  /** A walk extended by one step. */
  lemma WalkExtend(m: seq<seq<Cell>>, rings: nat, initialDivisions: nat, s: seq<Pos>, b: Pos)
    requires Walk(m, rings, initialDivisions, s) && |s| >= 1
    requires Step(m, rings, initialDivisions, s[|s| - 1], b)
    ensures Walk(m, rings, initialDivisions, s + [b])
  {
    var t := s + [b];
    forall i | 0 <= i < |t| - 1
      ensures Step(m, rings, initialDivisions, t[i], t[i + 1])
    {
      if i < |s| - 1 {
        assert t[i] == s[i] && t[i + 1] == s[i + 1];
      }
    }
  }

  /** A walk cut short is a walk. */
  lemma WalkPrefix(m: seq<seq<Cell>>, rings: nat, initialDivisions: nat, s: seq<Pos>, k: nat)
    requires Walk(m, rings, initialDivisions, s) && k <= |s|
    ensures Walk(m, rings, initialDivisions, s[..k])
  {
    forall i | 0 <= i < k - 1
      ensures Step(m, rings, initialDivisions, s[..k][i], s[..k][i + 1])
    {
      assert s[..k][i] == s[i] && s[..k][i + 1] == s[i + 1];
    }
  }
}
