/** The circular ("theta") maze and its generation: a depth-first
    backtracker that starts at the entrance in the outermost ring, opens one
    wall for every cell it reaches, and remembers the way it last came into
    ring 1 as the path to the centre. */
module Maze {
  import opened Cells
  import opened MazeGrid
  import Sfc32

  /** Where carving starts: division 0 of the outermost ring, whose outer wall
      is the entrance. */
  function Start(rings: nat): Pos
  {
    (if rings >= 1 then rings - 1 else 0, 0)
  }

  /** A centre cell after set-up: right wall open, visited, inner and outer
      walls standing. */
  const CentreCell := Cell(true, false, true, true)

  /** The entrance cell after set-up: visited, outer wall open. */
  const EntranceCell := Cell(true, true, true, false)

  /** The grid as set-up leaves it once the first k centre cells are opened. */
  ghost predicate SetUp(m: seq<seq<Cell>>, rings: nat, initialDivisions: nat, k: nat)
  {
    Shaped(m, rings, initialDivisions) &&
    forall p: Pos :: InBounds(rings, initialDivisions, p) ==>
      m[p.0][p.1] == (if p.0 == 0 && p.1 < k then CentreCell
                      else if p == Start(rings) then EntranceCell
                      else NewCell())
  }

  /** The freshly built grid: every row of fresh cells. */
  lemma StartInMaze(m: seq<seq<Cell>>, rings: nat, initialDivisions: nat)
    requires rings >= 2 && |m| == rings
    requires forall r :: 0 <= r < rings ==> m[r] == FreshRing(DivisionsInRing(initialDivisions, r))
    ensures Shaped(m, rings, initialDivisions)
    ensures initialDivisions >= 1 ==> InMaze(m, Start(rings))
  {
  }

  lemma SetUpInMaze(m: seq<seq<Cell>>, rings: nat, initialDivisions: nat, i: nat)
    requires SetUp(m, rings, initialDivisions, i) && rings >= 2 && i < initialDivisions
    ensures InMaze(m, (0, i))
  {
    DivisionsDouble(initialDivisions, 0);
  }

  // ---------------------------------------------------------------------
  // The invariant of the carving loop, in four parts

  /** The cells' flags: ring 0 is the open, visited centre; the outer wall
      stands everywhere but at the entrance; no ring-1 inner wall is open; a
      cell of ring 1 or further out is visited exactly when it is in seen. */
  ghost predicate Grid(m: seq<seq<Cell>>, rings: nat, initialDivisions: nat, seen: set<Pos>)
  {
    initialDivisions >= 1 && rings >= 2 && Shaped(m, rings, initialDivisions) &&
    (forall p :: p in seen ==> InBounds(rings, initialDivisions, p) && p.0 >= 1) &&
    (forall p: Pos :: InBounds(rings, initialDivisions, p) && p.0 >= 1 ==>
       (m[p.0][p.1].visited <==> p in seen)) &&
    (forall d :: 0 <= d < |m[0]| ==> m[0][d] == CentreCell) &&
    (forall d: nat :: d < |m[1]| ==> !IsOpen(m, Inner(1, d))) &&
    (forall p: Pos :: InBounds(rings, initialDivisions, p) ==>
       (m[p.0][p.1].outerWall <==> p != Start(rings)))
  }

  /** The backtracker's frontier: each reached cell is the current one, is on
      the stack, or has no unvisited neighbour left; the stack followed by the
      current cell is a walk from the entrance. */
  ghost predicate Frontier(m: seq<seq<Cell>>, rings: nat, initialDivisions: nat,
                           cur: Pos, stack: seq<Pos>, seen: set<Pos>)
  {
    Start(rings) in seen && cur in seen &&
    (forall i :: 0 <= i < |stack| ==> stack[i] in seen) &&
    (forall p :: p in seen ==> p == cur || p in stack || Done(m, rings, initialDivisions, p)) &&
    (stack + [cur])[0] == Start(rings) && Walk(m, rings, initialDivisions, stack + [cur])
  }

  /** The carved walls: the open internal walls are exactly those in openWalls,
      each between two reached cells, one for every reached cell but the
      entrance. */
  ghost predicate Carved(m: seq<seq<Cell>>, rings: nat, initialDivisions: nat,
                         seen: set<Pos>, openWalls: set<Wall>)
  {
    initialDivisions >= 1 &&
    (forall w :: Internal(rings, initialDivisions, w) ==> (IsOpen(m, w) <==> w in openWalls)) &&
    (forall w :: w in openWalls ==>
       Internal(rings, initialDivisions, w) && WallCell(w) in seen && Across(initialDivisions, w) in seen) &&
    |openWalls| + 1 == |seen|
  }

  /** A walk from the entrance that ends at p. */
  ghost predicate RouteTo(m: seq<seq<Cell>>, rings: nat, initialDivisions: nat, s: seq<Pos>, p: Pos)
  {
    |s| >= 1 && s[0] == Start(rings) && s[|s| - 1] == p && Walk(m, rings, initialDivisions, s)
  }

  /** Every reached cell has a recorded walk to it from the entrance. */
  ghost predicate Routes(m: seq<seq<Cell>>, rings: nat, initialDivisions: nat,
                         seen: set<Pos>, route: map<Pos, seq<Pos>>)
  {
    forall p :: p in seen ==> p in route && RouteTo(m, rings, initialDivisions, route[p], p)
  }

  /** The solution snapshot: empty while the only ring-1 cell reached is the
      entrance, otherwise a walk from the entrance into ring-1 division e
      followed by centre cell e. */
  ghost predicate Solution(m: seq<seq<Cell>>, rings: nat, initialDivisions: nat,
                           seen: set<Pos>, solution: seq<Pos>, e: nat)
  {
    e < initialDivisions &&
    (solution == [] ==> forall p :: p in seen && p.0 == 1 ==> p == Start(rings)) &&
    (solution != [] ==>
       |solution| >= 2 && solution[|solution| - 2] == (1, e) && solution[|solution| - 1] == (0, e) &&
       RouteTo(m, rings, initialDivisions, solution[..|solution| - 1], (1, e)))
  }

  /** The whole carving invariant. */
  ghost predicate Carving(m: seq<seq<Cell>>, rings: nat, initialDivisions: nat, cur: Pos, stack: seq<Pos>,
                          seen: set<Pos>, openWalls: set<Wall>, route: map<Pos, seq<Pos>>,
                          solution: seq<Pos>, e: nat)
  {
    Grid(m, rings, initialDivisions, seen) && Frontier(m, rings, initialDivisions, cur, stack, seen) &&
    Carved(m, rings, initialDivisions, seen, openWalls) && Routes(m, rings, initialDivisions, seen, route) &&
    Solution(m, rings, initialDivisions, seen, solution, e)
  }

  lemma InitCarving(m: seq<seq<Cell>>, rings: nat, initialDivisions: nat, s: Pos)
    requires rings >= 2 && initialDivisions >= 1 && s == Start(rings)
    requires SetUp(m, rings, initialDivisions, initialDivisions)
    ensures Carving(m, rings, initialDivisions, s, [], {s}, {}, map[s := [s]], [], 0)
  {
    assert InBounds(rings, initialDivisions, s);
    forall d | 0 <= d < |m[0]|
      ensures m[0][d] == CentreCell
    {
      assert InBounds(rings, initialDivisions, (0, d));
    }
    forall w | Internal(rings, initialDivisions, w)
      ensures !IsOpen(m, w)
    {
      assert InBounds(rings, initialDivisions, WallCell(w));
    }
    forall d: nat | d < |m[1]|
      ensures !IsOpen(m, Inner(1, d))
    {
      assert InBounds(rings, initialDivisions, (1, d));
    }
  }

  // ---------------------------------------------------------------------
  // One step forward: open the wall to an unvisited neighbour and move there

  /** The grid after moving from cur to next. */
  function Visit(m: seq<seq<Cell>>, initialDivisions: nat, cur: Pos, next: Pos): seq<seq<Cell>>
    requires initialDivisions >= 1
    requires InMaze(m, WallCell(WallBetween(initialDivisions, cur, next))) && InMaze(m, next)
  {
    MarkVisited(OpenWall(m, WallBetween(initialDivisions, cur, next)), next)
  }

  /** What a step does to the grid: one more wall open, one more cell visited,
      the shape and every outer wall as they were. */
  lemma VisitEffect(m: seq<seq<Cell>>, initialDivisions: nat, cur: Pos, next: Pos)
    requires initialDivisions >= 1
    requires InMaze(m, WallCell(WallBetween(initialDivisions, cur, next))) && InMaze(m, next)
    ensures var m' := Visit(m, initialDivisions, cur, next);
      |m'| == |m| && (forall r :: 0 <= r < |m| ==> |m'[r]| == |m[r]|) &&
      (forall u :: IsOpen(m', u) <==> u == WallBetween(initialDivisions, cur, next) || IsOpen(m, u)) &&
      (forall q: Pos :: Visited(m', q) <==> q == next || Visited(m, q)) &&
      (forall q: Pos :: InMaze(m, q) ==> m'[q.0][q.1].outerWall == m[q.0][q.1].outerWall) &&
      (forall q: Pos :: InMaze(m, q) && q != next && q != WallCell(WallBetween(initialDivisions, cur, next)) ==>
         m'[q.0][q.1] == m[q.0][q.1])
  {
    var w := WallBetween(initialDivisions, cur, next);
    OpenWallEffect(m, w);
    var m1 := OpenWall(m, w);
    forall q: Pos
      ensures Visited(m1, q) <==> Visited(m, q)
    {
      if InMaze(m, q) {
        assert m1[q.0][q.1].visited == m[q.0][q.1].visited;
      }
    }
  }

  /** The wall between two neighbouring cells outside the centre is an
      internal wall and lies between them. */
  lemma WallBetweenInternal(rings: nat, initialDivisions: nat, a: Pos, b: Pos)
    requires initialDivisions >= 1 && InBounds(rings, initialDivisions, a)
    requires b in Neighbours(rings, initialDivisions, a.0, a.1) && b != a
    requires a.0 >= 1 && b.0 >= 1
    ensures Internal(rings, initialDivisions, WallBetween(initialDivisions, a, b))
    ensures Separates(initialDivisions, WallBetween(initialDivisions, a, b), a, b)
  {
    WallBetweenSeparates(rings, initialDivisions, a, b);
  }

  /** The facts a step needs about its target. */
  lemma VisitReady(m: seq<seq<Cell>>, rings: nat, initialDivisions: nat, seen: set<Pos>, cur: Pos, next: Pos)
    requires Grid(m, rings, initialDivisions, seen) && cur in seen
    requires next in Unvisited(m, Neighbours(rings, initialDivisions, cur.0, cur.1))
    ensures InBounds(rings, initialDivisions, next) && next.0 >= 1 && next !in seen && next != cur
    ensures next in Neighbours(rings, initialDivisions, cur.0, cur.1)
    ensures Internal(rings, initialDivisions, WallBetween(initialDivisions, cur, next))
    ensures Separates(initialDivisions, WallBetween(initialDivisions, cur, next), cur, next)
    ensures InMaze(m, WallCell(WallBetween(initialDivisions, cur, next))) && InMaze(m, next)
  {
    UnvisitedMembers(m, Neighbours(rings, initialDivisions, cur.0, cur.1));
    NeighboursInBounds(rings, initialDivisions, cur);
    assert InBounds(rings, initialDivisions, next);
    assert m[cur.0][cur.1].visited;
    WallBetweenInternal(rings, initialDivisions, cur, next);
  }

  lemma GridVisit(m: seq<seq<Cell>>, rings: nat, initialDivisions: nat, seen: set<Pos>, cur: Pos, next: Pos)
    requires Grid(m, rings, initialDivisions, seen)
    requires InBounds(rings, initialDivisions, next) && next.0 >= 1
    requires Internal(rings, initialDivisions, WallBetween(initialDivisions, cur, next))
    ensures Grid(Visit(m, initialDivisions, cur, next), rings, initialDivisions, seen + {next})
  {
    var w := WallBetween(initialDivisions, cur, next);
    VisitEffect(m, initialDivisions, cur, next);
    var m': seq<seq<Cell>> := Visit(m, initialDivisions, cur, next);
    forall p: Pos | InBounds(rings, initialDivisions, p) && p.0 >= 1
      ensures m'[p.0][p.1].visited <==> p in seen + {next}
    {
      assert Visited(m', p) <==> p == next || Visited(m, p);
    }
    forall d | 0 <= d < |m'[0]|
      ensures m'[0][d] == CentreCell
    {
      assert InMaze(m, (0, d));
    }
    forall d: nat | d < |m'[1]|
      ensures !IsOpen(m', Inner(1, d))
    {
      assert InMaze(m, (1, d));
    }
    forall p: Pos | InBounds(rings, initialDivisions, p)
      ensures m'[p.0][p.1].outerWall <==> p != Start(rings)
    {
      assert InMaze(m, p);
    }
  }

  lemma FrontierVisit(m: seq<seq<Cell>>, rings: nat, initialDivisions: nat, seen: set<Pos>,
                      cur: Pos, stack: seq<Pos>, next: Pos)
    requires Grid(m, rings, initialDivisions, seen) && Frontier(m, rings, initialDivisions, cur, stack, seen)
    requires next in Neighbours(rings, initialDivisions, cur.0, cur.1) && next != cur
    requires Separates(initialDivisions, WallBetween(initialDivisions, cur, next), cur, next)
    requires InMaze(m, WallCell(WallBetween(initialDivisions, cur, next))) && InMaze(m, next)
    ensures Frontier(Visit(m, initialDivisions, cur, next), rings, initialDivisions, next, stack + [cur], seen + {next})
  {
    VisitEffect(m, initialDivisions, cur, next);
    var m': seq<seq<Cell>> := Visit(m, initialDivisions, cur, next);
    var stack' := stack + [cur];
    forall p | p in seen + {next}
      ensures p == next || p in stack' || Done(m', rings, initialDivisions, p)
    {
      if p != next && p != cur && p !in stack {
        assert Done(m, rings, initialDivisions, p);
        forall q | q in Neighbours(rings, initialDivisions, p.0, p.1)
          ensures Visited(m', q)
        {
          assert Visited(m, q);
        }
      }
    }
    forall i | 0 <= i < |stack'|
      ensures stack'[i] in seen + {next}
    {
      if i < |stack| { assert stack'[i] == stack[i]; }
    }
    WalkKept(m, m', rings, initialDivisions, stack + [cur]);
    assert Step(m', rings, initialDivisions, cur, next);
    WalkExtend(m', rings, initialDivisions, stack + [cur], next);
    assert stack' + [next] == stack + [cur] + [next];
    assert (stack' + [next])[0] == (stack + [cur])[0];
  }

  lemma CarvedVisit(m: seq<seq<Cell>>, rings: nat, initialDivisions: nat, seen: set<Pos>, openWalls: set<Wall>,
                    cur: Pos, next: Pos)
    requires Carved(m, rings, initialDivisions, seen, openWalls)
    requires cur in seen && next !in seen
    requires Internal(rings, initialDivisions, WallBetween(initialDivisions, cur, next))
    requires Separates(initialDivisions, WallBetween(initialDivisions, cur, next), cur, next)
    requires InMaze(m, WallCell(WallBetween(initialDivisions, cur, next))) && InMaze(m, next)
    ensures Carved(Visit(m, initialDivisions, cur, next), rings, initialDivisions, seen + {next},
                   openWalls + {WallBetween(initialDivisions, cur, next)})
  {
    var w := WallBetween(initialDivisions, cur, next);
    VisitEffect(m, initialDivisions, cur, next);
    assert w !in openWalls;
    assert |openWalls + {w}| == |openWalls| + 1;
    assert |seen + {next}| == |seen| + 1;
  }

  lemma RoutesVisit(m: seq<seq<Cell>>, rings: nat, initialDivisions: nat, seen: set<Pos>, route: map<Pos, seq<Pos>>,
                    cur: Pos, stack: seq<Pos>, next: Pos)
    requires initialDivisions >= 1
    requires InMaze(m, WallCell(WallBetween(initialDivisions, cur, next))) && InMaze(m, next)
    requires Routes(m, rings, initialDivisions, seen, route)
    requires Frontier(Visit(m, initialDivisions, cur, next), rings, initialDivisions, next, stack + [cur], seen + {next})
    ensures Routes(Visit(m, initialDivisions, cur, next), rings, initialDivisions, seen + {next},
                   route[next := stack + [cur] + [next]])
  {
    VisitEffect(m, initialDivisions, cur, next);
    var m': seq<seq<Cell>> := Visit(m, initialDivisions, cur, next);
    var route' := route[next := stack + [cur] + [next]];
    forall p | p in seen + {next}
      ensures p in route' && RouteTo(m', rings, initialDivisions, route'[p], p)
    {
      if p != next {
        WalkKept(m, m', rings, initialDivisions, route[p]);
      }
    }
  }

  lemma SolutionVisit(m: seq<seq<Cell>>, rings: nat, initialDivisions: nat, seen: set<Pos>,
                      solution: seq<Pos>, e: nat, cur: Pos, stack: seq<Pos>, next: Pos)
    requires initialDivisions >= 1
    requires InMaze(m, WallCell(WallBetween(initialDivisions, cur, next))) && InMaze(m, next)
    requires Solution(m, rings, initialDivisions, seen, solution, e)
    requires Frontier(Visit(m, initialDivisions, cur, next), rings, initialDivisions, next, stack + [cur], seen + {next})
    requires Grid(Visit(m, initialDivisions, cur, next), rings, initialDivisions, seen + {next})
    ensures next.0 == 1 ==>
      Solution(Visit(m, initialDivisions, cur, next), rings, initialDivisions, seen + {next},
               stack + [cur] + [next, (0, next.1)], next.1)
    ensures next.0 != 1 ==>
      Solution(Visit(m, initialDivisions, cur, next), rings, initialDivisions, seen + {next}, solution, e)
  {
    VisitEffect(m, initialDivisions, cur, next);
    var m': seq<seq<Cell>> := Visit(m, initialDivisions, cur, next);
    if next.0 == 1 {
      var s := stack + [cur] + [next, (0, next.1)];
      assert s[..|s| - 1] == stack + [cur] + [next];
      assert next in seen + {next};
      DivisionsDouble(initialDivisions, 0);
    } else if solution != [] {
      WalkKept(m, m', rings, initialDivisions, solution[..|solution| - 1]);
    }
  }

  /** A step forward keeps the carving invariant and leaves fewer cells to
      reach. */
  lemma VisitStep(m: seq<seq<Cell>>, rings: nat, initialDivisions: nat, seen: set<Pos>, openWalls: set<Wall>,
                  route: map<Pos, seq<Pos>>, solution: seq<Pos>, e: nat, cur: Pos, stack: seq<Pos>, next: Pos,
                  m': seq<seq<Cell>>, cur': Pos, stack': seq<Pos>, seen': set<Pos>, openWalls': set<Wall>,
                  route': map<Pos, seq<Pos>>, solution': seq<Pos>, e': nat)
    requires Carving(m, rings, initialDivisions, cur, stack, seen, openWalls, route, solution, e)
    requires next in Unvisited(m, Neighbours(rings, initialDivisions, cur.0, cur.1))
    requires InMaze(m, WallCell(WallBetween(initialDivisions, cur, next))) && InMaze(m, next)
    requires m' == Visit(m, initialDivisions, cur, next)
    requires cur' == next && stack' == stack + [cur] && seen' == seen + {next}
    requires openWalls' == openWalls + {WallBetween(initialDivisions, cur, next)}
    requires route' == route[next := stack' + [next]]
    requires next.0 == 1 ==> solution' == stack' + [next, (0, next.1)] && e' == next.1
    requires next.0 != 1 ==> solution' == solution && e' == e
    ensures Carving(m', rings, initialDivisions, cur', stack', seen', openWalls', route', solution', e')
    ensures |RingCells(rings, initialDivisions) - seen'| < |RingCells(rings, initialDivisions) - seen|
  {
    VisitReady(m, rings, initialDivisions, seen, cur, next);
    assert stack' + [next] == stack + [cur] + [next];
    GridVisit(m, rings, initialDivisions, seen, cur, next);
    FrontierVisit(m, rings, initialDivisions, seen, cur, stack, next);
    CarvedVisit(m, rings, initialDivisions, seen, openWalls, cur, next);
    RoutesVisit(m, rings, initialDivisions, seen, route, cur, stack, next);
    SolutionVisit(m, rings, initialDivisions, seen, solution, e, cur, stack, next);
    RingCellsMembers(rings, initialDivisions, next);
    FewerLeft(RingCells(rings, initialDivisions), seen, next);
  }

  /** A step reaches a cell not reached before, so fewer cells remain. */
  lemma FewerLeft(all: set<Pos>, seen: set<Pos>, next: Pos)
    requires next in all && next !in seen
    ensures |all - (seen + {next})| < |all - seen|
  {
    assert all - seen == (all - (seen + {next})) + {next};
  }

  // ---------------------------------------------------------------------
  // One step back: the current cell is finished, return to the stack's top

  lemma FrontierPop(m: seq<seq<Cell>>, rings: nat, initialDivisions: nat, seen: set<Pos>,
                    cur: Pos, stack: seq<Pos>)
    requires Frontier(m, rings, initialDivisions, cur, stack, seen) && |stack| > 0
    requires Done(m, rings, initialDivisions, cur)
    ensures Frontier(m, rings, initialDivisions, stack[|stack| - 1], stack[..|stack| - 1], seen)
  {
    var top := stack[|stack| - 1];
    var rest := stack[..|stack| - 1];
    assert stack == rest + [top];
    assert rest + [top] + [cur] == stack + [cur];
    WalkPrefix(m, rings, initialDivisions, stack + [cur], |stack|);
    assert (stack + [cur])[..|stack|] == rest + [top];
    forall p | p in seen
      ensures p == top || p in rest || Done(m, rings, initialDivisions, p)
    {
      if p in stack && p != top {
        var i :| 0 <= i < |stack| && stack[i] == p;
        assert i < |stack| - 1;
        assert rest[i] == p;
      }
    }
    forall i | 0 <= i < |rest|
      ensures rest[i] in seen
    {
      assert rest[i] == stack[i];
    }
    assert top == stack[|stack| - 1];
  }

  /** A step back keeps the carving invariant. */
  lemma PopStep(m: seq<seq<Cell>>, rings: nat, initialDivisions: nat, seen: set<Pos>, openWalls: set<Wall>,
                route: map<Pos, seq<Pos>>, solution: seq<Pos>, e: nat, cur: Pos, stack: seq<Pos>,
                cur': Pos, stack': seq<Pos>)
    requires Carving(m, rings, initialDivisions, cur, stack, seen, openWalls, route, solution, e)
    requires Unvisited(m, Neighbours(rings, initialDivisions, cur.0, cur.1)) == [] && |stack| > 0
    requires cur' == stack[|stack| - 1] && stack' == stack[..|stack| - 1]
    ensures Carving(m, rings, initialDivisions, cur', stack', seen, openWalls, route, solution, e)
  {
    NoCandidates(m, rings, initialDivisions, cur);
    FrontierPop(m, rings, initialDivisions, seen, cur, stack);
  }

  /** No unvisited candidate means every neighbour is visited. */
  lemma NoCandidates(m: seq<seq<Cell>>, rings: nat, initialDivisions: nat, cur: Pos)
    requires initialDivisions >= 1
    requires Unvisited(m, Neighbours(rings, initialDivisions, cur.0, cur.1)) == []
    ensures Done(m, rings, initialDivisions, cur)
  {
    UnvisitedMembers(m, Neighbours(rings, initialDivisions, cur.0, cur.1));
  }

  // ---------------------------------------------------------------------
  // When the stack runs out every cell has been reached

  /** The neighbours in the ring inside: none from the centre. */
  function Inwards(r: nat, d: nat): seq<Pos>
  {
    if r > 0 then [(r - 1, InnerDivision(r, d))] else []
  }

  /** The neighbours in the ring outside: none from the outermost ring. */
  function Outwards(rings: nat, r: nat, d: nat): seq<Pos>
  {
    if r + 1 < rings then (if r % 2 == 1 then [(r + 1, d * 2), (r + 1, d * 2 + 1)] else [(r + 1, d)])
    else []
  }

  lemma NeighboursParts(rings: nat, initialDivisions: nat, r: nat, d: nat, left: nat, right: nat)
    requires initialDivisions >= 1
    requires left == (d + DivisionsInRing(initialDivisions, r) - 1) % DivisionsInRing(initialDivisions, r)
    requires right == (d + 1) % DivisionsInRing(initialDivisions, r)
    ensures Neighbours(rings, initialDivisions, r, d) == [(r, left), (r, right)] + Inwards(r, d) + Outwards(rings, r, d)
  {
  }

  /** The inner neighbour of a cell outside the centre is a cell of the grid. */
  lemma InnerInMaze(m: seq<seq<Cell>>, rings: nat, initialDivisions: nat, r: nat, d: nat)
    requires Shaped(m, rings, initialDivisions) && InBounds(rings, initialDivisions, (r, d)) && r >= 1
    ensures InMaze(m, (r - 1, InnerDivision(r, d)))
  {
    NextRing(initialDivisions, r - 1);
  }

  /** The outer neighbours of a cell inside the last ring are cells of the grid. */
  lemma OuterInMaze(m: seq<seq<Cell>>, rings: nat, initialDivisions: nat, r: nat, d: nat)
    requires Shaped(m, rings, initialDivisions) && InBounds(rings, initialDivisions, (r, d)) && r + 1 < rings
    ensures r % 2 == 1 ==> InMaze(m, (r + 1, d * 2)) && InMaze(m, (r + 1, d * 2 + 1))
    ensures r % 2 == 0 ==> InMaze(m, (r + 1, d))
  {
    NextRing(initialDivisions, r);
  }

  /** Examining one more cell adds it to the unvisited ones if it is not
      visited. */
  lemma UnvisitedOne(m: seq<seq<Cell>>, ns: seq<Pos>, x: Pos)
    ensures Unvisited(m, ns + [x]) == Unvisited(m, ns) + (if Visited(m, x) then [] else [x])
  {
    assert (ns + [x])[..|ns|] == ns;
  }

  /** The state when the stack has run out: every reached cell is finished,
      and every visited cell outside the centre has been reached. */
  ghost predicate Closed(m: seq<seq<Cell>>, rings: nat, initialDivisions: nat, seen: set<Pos>)
  {
    initialDivisions >= 1 && rings >= 2 && Start(rings) in seen &&
    (forall p :: p in seen ==> Done(m, rings, initialDivisions, p)) &&
    (forall q: Pos :: q.0 >= 1 && Visited(m, q) ==> q in seen)
  }

  lemma RightNeighbour(rings: nat, initialDivisions: nat, r: nat, d: nat)
    requires initialDivisions >= 1 && d + 1 < DivisionsInRing(initialDivisions, r)
    ensures (r, d + 1) in Neighbours(rings, initialDivisions, r, d)
  {
    var n := DivisionsInRing(initialDivisions, r);
    SmallMod(d + 1, n);
    assert Neighbours(rings, initialDivisions, r, d)[1] == (r, (d + 1) % n);
  }

  lemma SmallMod(x: nat, n: nat)
    requires x < n
    ensures x % n == x
  {
  }

  lemma InnerNeighbour(rings: nat, initialDivisions: nat, r: nat, d: nat)
    requires initialDivisions >= 1 && r >= 1
    ensures (r - 1, InnerDivision(r, d)) in Neighbours(rings, initialDivisions, r, d)
  {
    assert Neighbours(rings, initialDivisions, r, d)[2] == (r - 1, InnerDivision(r, d));
  }

  /** From the entrance, the right-hand neighbours lead round the whole outer
      ring. */
  lemma {:induction false} OuterRingReached(m: seq<seq<Cell>>, rings: nat, initialDivisions: nat,
                                            seen: set<Pos>, d: nat)
    requires Closed(m, rings, initialDivisions, seen)
    requires d < DivisionsInRing(initialDivisions, rings - 1)
    ensures (rings - 1, d) in seen
  {
    if d > 0 {
      OuterRingReached(m, rings, initialDivisions, seen, d - 1);
      RightNeighbour(rings, initialDivisions, rings - 1, d - 1);
      assert Done(m, rings, initialDivisions, (rings - 1, d - 1));
    }
  }

  /** From each reached cell the inner neighbour is reached, so from the
      outer ring inwards every ring is reached. */
  lemma {:induction false} RingReached(m: seq<seq<Cell>>, rings: nat, initialDivisions: nat,
                                       seen: set<Pos>, r: nat, e: nat)
    requires Closed(m, rings, initialDivisions, seen)
    requires 1 <= r < rings && e < DivisionsInRing(initialDivisions, r)
    ensures (r, e) in seen
    decreases rings - r
  {
    if r == rings - 1 {
      OuterRingReached(m, rings, initialDivisions, seen, e);
    } else {
      var e' := if r % 2 == 1 then 2 * e else e;
      NextRing(initialDivisions, r);
      RingReached(m, rings, initialDivisions, seen, r + 1, e');
      OuterWall(initialDivisions, r, e, e');
      InnerNeighbour(rings, initialDivisions, r + 1, e');
      assert Done(m, rings, initialDivisions, (r + 1, e'));
    }
  }

  /** When the stack runs out, the cells reached are all the cells outside
      the centre. */
  lemma Reached(m: seq<seq<Cell>>, rings: nat, initialDivisions: nat, seen: set<Pos>)
    requires Grid(m, rings, initialDivisions, seen) && Start(rings) in seen
    requires forall p :: p in seen ==> Done(m, rings, initialDivisions, p)
    ensures seen == RingCells(rings, initialDivisions)
  {
    assert Closed(m, rings, initialDivisions, seen);
    forall p | p in RingCells(rings, initialDivisions)
      ensures p in seen
    {
      RingCellsMembers(rings, initialDivisions, p);
      RingReached(m, rings, initialDivisions, seen, p.0, p.1);
    }
    forall p | p in seen
      ensures p in RingCells(rings, initialDivisions)
    {
      RingCellsMembers(rings, initialDivisions, p);
    }
  }
  /** What the carving loop leaves behind: every cell outside the centre
      reached, with the grid, walls, routes and solution as above. */
  ghost predicate Finished(m: seq<seq<Cell>>, rings: nat, initialDivisions: nat, seen: set<Pos>,
                           openWalls: set<Wall>, route: map<Pos, seq<Pos>>, solution: seq<Pos>, e: nat)
  {
    seen == RingCells(rings, initialDivisions) &&
    Grid(m, rings, initialDivisions, seen) && Carved(m, rings, initialDivisions, seen, openWalls) &&
    Routes(m, rings, initialDivisions, seen, route) && Solution(m, rings, initialDivisions, seen, solution, e)
  }

  /** With no candidate and an empty stack the loop stops: by then every
      cell outside the centre has been reached. */
  lemma Exhausted(m: seq<seq<Cell>>, rings: nat, initialDivisions: nat, cur: Pos, stack: seq<Pos>,
                  seen: set<Pos>, openWalls: set<Wall>, route: map<Pos, seq<Pos>>, solution: seq<Pos>, e: nat)
    requires Carving(m, rings, initialDivisions, cur, stack, seen, openWalls, route, solution, e)
    requires Unvisited(m, Neighbours(rings, initialDivisions, cur.0, cur.1)) == [] && stack == []
    ensures Finished(m, rings, initialDivisions, seen, openWalls, route, solution, e)
  {
    NoCandidates(m, rings, initialDivisions, cur);
    Reached(m, rings, initialDivisions, seen);
  }


  // ---------------------------------------------------------------------
  // The finished maze: the entry to the centre opened

  lemma FinishGrid(m: seq<seq<Cell>>, rings: nat, initialDivisions: nat, seen: set<Pos>, e: nat)
    requires Grid(m, rings, initialDivisions, seen) && seen == RingCells(rings, initialDivisions)
    requires e < initialDivisions
    ensures InMaze(m, (1, e))
    ensures var m' := OpenWall(m, Inner(1, e));
      Shaped(m', rings, initialDivisions) &&
      (forall p: Pos :: InBounds(rings, initialDivisions, p) ==> m'[p.0][p.1].visited) &&
      (forall d :: 0 <= d < |m'[0]| ==> m'[0][d] == CentreCell) &&
      (forall p: Pos :: InBounds(rings, initialDivisions, p) ==> (m'[p.0][p.1].outerWall <==> p != Start(rings))) &&
      (forall d: nat :: d < initialDivisions ==> (IsOpen(m', Inner(1, d)) <==> d == e))
  {
    DivisionsDouble(initialDivisions, 0);
    assert InBounds(rings, initialDivisions, (1, e));
    var w := Inner(1, e);
    OpenWallEffect(m, w);
    var m': seq<seq<Cell>> := OpenWall(m, w);
    forall p: Pos | InBounds(rings, initialDivisions, p)
      ensures m'[p.0][p.1].visited
    {
      if p.0 >= 1 {
        RingCellsMembers(rings, initialDivisions, p);
      } else {
        assert m[0][p.1] == CentreCell;
      }
    }
    forall d | 0 <= d < |m'[0]|
      ensures m'[0][d] == CentreCell
    {
      assert InMaze(m, (0, d));
    }
    forall d: nat | d < initialDivisions
      ensures IsOpen(m', Inner(1, d)) <==> d == e
    {
      assert InMaze(m, (1, d));
    }
  }

  lemma FinishWalls(m: seq<seq<Cell>>, rings: nat, initialDivisions: nat, seen: set<Pos>,
                    openWalls: set<Wall>, e: nat)
    requires Carved(m, rings, initialDivisions, seen, openWalls) && seen == RingCells(rings, initialDivisions)
    requires InMaze(m, (1, e))
    ensures var m' := OpenWall(m, Inner(1, e));
      (forall w :: Internal(rings, initialDivisions, w) ==> (IsOpen(m', w) <==> w in openWalls)) &&
      (forall w :: w in openWalls ==> Internal(rings, initialDivisions, w)) &&
      |openWalls| + 1 == |RingCells(rings, initialDivisions)|
  {
    OpenWallEffect(m, Inner(1, e));
  }

  lemma FinishRoutes(m: seq<seq<Cell>>, rings: nat, initialDivisions: nat, seen: set<Pos>,
                     route: map<Pos, seq<Pos>>, e: nat)
    requires Routes(m, rings, initialDivisions, seen, route) && seen == RingCells(rings, initialDivisions)
    requires InMaze(m, (1, e))
    ensures forall p :: p in RingCells(rings, initialDivisions) ==>
      p in route && RouteTo(OpenWall(m, Inner(1, e)), rings, initialDivisions, route[p], p)
  {
    OpenWallEffect(m, Inner(1, e));
    forall p | p in RingCells(rings, initialDivisions)
      ensures p in route && RouteTo(OpenWall(m, Inner(1, e)), rings, initialDivisions, route[p], p)
    {
      WalkKept(m, OpenWall(m, Inner(1, e)), rings, initialDivisions, route[p]);
    }
  }

  lemma FinishSolution(m: seq<seq<Cell>>, rings: nat, initialDivisions: nat, seen: set<Pos>,
                       solution: seq<Pos>, e: nat)
    requires Solution(m, rings, initialDivisions, seen, solution, e)
    requires Grid(m, rings, initialDivisions, seen) && seen == RingCells(rings, initialDivisions)
    requires InMaze(m, (1, e))
    ensures solution != [] ==>
      |solution| >= 2 && solution[|solution| - 2] == (1, e) &&
      RouteTo(OpenWall(m, Inner(1, e)), rings, initialDivisions, solution, (0, e))
    ensures rings > 2 || initialDivisions >= 2 ==> solution != []
  {
    var m' := OpenWall(m, Inner(1, e));
    OpenWallEffect(m, Inner(1, e));
    DivisionsDouble(initialDivisions, 0);
    if solution != [] {
      var prefix := solution[..|solution| - 1];
      WalkKept(m, m', rings, initialDivisions, prefix);
      InnerNeighbour(rings, initialDivisions, 1, e);
      assert InBounds(rings, initialDivisions, (1, e));
      assert Step(m', rings, initialDivisions, (1, e), (0, e));
      WalkExtend(m', rings, initialDivisions, prefix, (0, e));
      assert prefix + [(0, e)] == solution;
    }
    if rings > 2 {
      RingCellsMembers(rings, initialDivisions, (1, 0));
    } else if initialDivisions >= 2 {
      RingCellsMembers(rings, initialDivisions, (1, 1));
    }
  }
  /** Opening the inner wall of the last solution cell in ring 1 turns the
      carved grid into the finished maze: every cell visited, a solid centre,
      an entrance only at the start, one way into the centre, the carved walls
      forming a spanning tree with a route from the entrance to every cell,
      and the solution a route from the entrance to the centre. */
  lemma Finish(m: seq<seq<Cell>>, rings: nat, initialDivisions: nat, seen: set<Pos>, openWalls: set<Wall>,
               route: map<Pos, seq<Pos>>, solution: seq<Pos>, e: nat, m': seq<seq<Cell>>)
    requires Finished(m, rings, initialDivisions, seen, openWalls, route, solution, e)
    requires InMaze(m, (1, e)) && m' == OpenWall(m, Inner(1, e))
    ensures Shaped(m', rings, initialDivisions)
    ensures forall p: Pos :: InBounds(rings, initialDivisions, p) ==> m'[p.0][p.1].visited
    ensures forall d :: 0 <= d < |m'[0]| ==> m'[0][d] == CentreCell
    ensures forall p: Pos :: InBounds(rings, initialDivisions, p) ==>
      (m'[p.0][p.1].outerWall <==> p != Start(rings))
    ensures e < initialDivisions
    ensures forall d: nat :: d < initialDivisions ==> (IsOpen(m', Inner(1, d)) <==> d == e)
    ensures forall w :: Internal(rings, initialDivisions, w) ==> (IsOpen(m', w) <==> w in openWalls)
    ensures forall w :: w in openWalls ==> Internal(rings, initialDivisions, w)
    ensures |openWalls| + 1 == |RingCells(rings, initialDivisions)|
    ensures forall p :: p in RingCells(rings, initialDivisions) ==>
      p in route && RouteTo(m', rings, initialDivisions, route[p], p)
    ensures solution != [] ==>
      |solution| >= 2 && solution[|solution| - 2] == (1, e) &&
      RouteTo(m', rings, initialDivisions, solution, (0, e))
    ensures rings > 2 || initialDivisions >= 2 ==> solution != []
  {
    FinishGrid(m, rings, initialDivisions, seen, e);
    FinishWalls(m, rings, initialDivisions, seen, openWalls, e);
    FinishRoutes(m, rings, initialDivisions, seen, route, e);
    FinishSolution(m, rings, initialDivisions, seen, solution, e);
  }


  // ---------------------------------------------------------------------
  // The maze

  class ThetaMaze {
    const rings: nat
    const initialDivisions: nat
    var maze: seq<seq<Cell>>
    /** The path from the entrance to the centre, once generated. */
    var backtrackPath: seq<Pos>

    /** An empty maze of the given size; generating fills it. */
    constructor (rings: nat, initialDivisions: nat)
      ensures this.rings == rings && this.initialDivisions == initialDivisions
      ensures maze == [] && backtrackPath == []
    {
      this.rings := rings;
      this.initialDivisions := initialDivisions;
      maze := [];
      backtrackPath := [];
    }

    /** The unvisited neighbours of (ring, division), in the order left,
        right, inner, outer. */
    method UnvisitedNeighbours(ring: nat, division: nat) returns (unvisited: seq<Pos>)
      requires initialDivisions >= 1 && Shaped(maze, rings, initialDivisions)
      requires InBounds(rings, initialDivisions, (ring, division))
      ensures unvisited == Unvisited(maze, Neighbours(rings, initialDivisions, ring, division))
    {
      unvisited := [];
      var totalDivisions := DivisionsInRing(initialDivisions, ring);
      var oddRing := ring % 2 == 1;
      var evenRing := !oddRing;
      var leftDivision := (division + totalDivisions - 1) % totalDivisions;
      var rightDivision := (division + 1) % totalDivisions;
      var sideways := [(ring, leftDivision), (ring, rightDivision)];
      for i := 0 to 2
        invariant unvisited == Unvisited(maze, sideways[..i])
      {
        assert sideways[..i + 1] == sideways[..i] + [sideways[i]];
        UnvisitedOne(maze, sideways[..i], sideways[i]);
        unvisited := PushIfUnvisited(unvisited, sideways[i]);
      }
      assert sideways[..2] == sideways;
      ghost var examined := sideways;
      if ring > 0 {
        var inner := if oddRing then division else division / 2;
        InnerInMaze(maze, rings, initialDivisions, ring, division);
        UnvisitedOne(maze, examined, (ring - 1, inner));
        examined := examined + [(ring - 1, inner)];
        unvisited := PushIfUnvisited(unvisited, (ring - 1, inner));
      }
      assert examined == sideways + Inwards(ring, division);
      ghost var inside := examined;
      if ring < rings - 1 {
        OuterInMaze(maze, rings, initialDivisions, ring, division);
        if oddRing {
          var outer1 := division * 2;
          UnvisitedOne(maze, examined, (ring + 1, outer1));
          examined := examined + [(ring + 1, outer1)];
          unvisited := PushIfUnvisited(unvisited, (ring + 1, outer1));
          var outer2 := outer1 + 1;
          UnvisitedOne(maze, examined, (ring + 1, outer2));
          examined := examined + [(ring + 1, outer2)];
          unvisited := PushIfUnvisited(unvisited, (ring + 1, outer2));
        } else if evenRing {
          UnvisitedOne(maze, examined, (ring + 1, division));
          examined := examined + [(ring + 1, division)];
          unvisited := PushIfUnvisited(unvisited, (ring + 1, division));
        }
      }
      assert examined == inside + Outwards(rings, ring, division);
      NeighboursParts(rings, initialDivisions, ring, division, leftDivision, rightDivision);
    }

    /** Add p to the list when its cell is not yet visited. */
    method PushIfUnvisited(unvisited: seq<Pos>, p: Pos) returns (result: seq<Pos>)
      requires InMaze(maze, p)
      ensures result == unvisited + (if Visited(maze, p) then [] else [p])
    {
      result := unvisited;
      if !maze[p.0][p.1].visited {
        result := result + [p];
      }
    }

    /** Open the wall between two neighbouring cells. */
    method OpenWallBetween(a: Pos, b: Pos)
      modifies this
      requires initialDivisions >= 1
      requires InMaze(maze, WallCell(WallBetween(initialDivisions, a, b)))
      ensures maze == OpenWall(old(maze), WallBetween(initialDivisions, a, b))
      ensures backtrackPath == old(backtrackPath)
    {
      if a.0 == b.0 {
        var ring := a.0;
        var div1 := a.1;
        var div2 := b.1;
        var next := (div1 + 1) % DivisionsInRing(initialDivisions, ring);
        if div2 == next {
          maze := SetCell(maze, (ring, div1), maze[ring][div1].(rightWall := false));
        } else {
          maze := SetCell(maze, (ring, div2), maze[ring][div2].(rightWall := false));
        }
      } else {
        var outer := if a.0 < b.0 then b else a;
        maze := SetCell(maze, outer, maze[outer.0][outer.1].(innerWall := false));
      }
    }

    /** Build the grid, open the centre, and carve from the entrance with a
        depth-first backtracker driven by an SFC32 generator seeded with seed.
        The ring-1 cell the carving last stepped into becomes the entry to the
        centre, and the stack at that moment the path to it. */
    method Generate(seed: (bv32, bv32, bv32, bv32))
      returns (ghost entry: nat, ghost openWalls: set<Wall>, ghost route: map<Pos, seq<Pos>>)
      modifies this
      requires rings >= 2 && initialDivisions >= 1 && maze == []
      ensures Shaped(maze, rings, initialDivisions)
      ensures forall p: Pos :: InBounds(rings, initialDivisions, p) ==> maze[p.0][p.1].visited
      ensures forall d :: 0 <= d < |maze[0]| ==> maze[0][d] == CentreCell
      ensures forall p: Pos :: InBounds(rings, initialDivisions, p) ==>
        (maze[p.0][p.1].outerWall <==> p != Start(rings))
      ensures entry < initialDivisions
      ensures forall d: nat :: d < initialDivisions ==> (IsOpen(maze, Inner(1, d)) <==> d == entry)
      ensures forall w :: Internal(rings, initialDivisions, w) ==> (IsOpen(maze, w) <==> w in openWalls)
      ensures forall w :: w in openWalls ==> Internal(rings, initialDivisions, w)
      ensures |openWalls| + 1 == |RingCells(rings, initialDivisions)|
      ensures forall p :: p in RingCells(rings, initialDivisions) ==>
        p in route && RouteTo(maze, rings, initialDivisions, route[p], p)
      ensures backtrackPath != [] ==>
        |backtrackPath| >= 2 && backtrackPath[|backtrackPath| - 2] == (1, entry) &&
        RouteTo(maze, rings, initialDivisions, backtrackPath, (0, entry))
      ensures rings > 2 || initialDivisions >= 2 ==> backtrackPath != []
    {
      var (a, b, c, d) := seed;
      var rng := new Sfc32.Generator(a, b, c, d);
      SetUpGrid();
      var solution, centreEntry;
      ghost var seen;
      solution, centreEntry, seen, openWalls, route := Carve(rng);

      // Create an entry to the centre at the end of the solution path.
      ghost var carved := maze;
      FinishGrid(maze, rings, initialDivisions, seen, centreEntry);
      maze := OpenWall(maze, Inner(1, centreEntry));
      backtrackPath := solution;
      entry := centreEntry;
      Finish(carved, rings, initialDivisions, seen, openWalls, route, backtrackPath, entry, maze);
    }

    /** The set-up part of generating: a row of fresh cells per ring, the
        entrance visited with its outer wall open, and every centre cell
        visited with its right wall open. */
    method SetUpGrid()
      modifies this
      requires rings >= 2 && initialDivisions >= 1 && maze == []
      ensures SetUp(maze, rings, initialDivisions, initialDivisions)
      ensures backtrackPath == old(backtrackPath)
    {
      for i := 0 to rings
        invariant |maze| == i
        invariant forall r :: 0 <= r < i ==> maze[r] == FreshRing(DivisionsInRing(initialDivisions, r))
        invariant backtrackPath == old(backtrackPath)
      {
        var divisions := DivisionsInRing(initialDivisions, i);
        maze := maze + [FreshRing(divisions)];
      }

      var ring := rings - 1;
      var division := 0;
      StartInMaze(maze, rings, initialDivisions);
      maze := SetCell(maze, (ring, division), maze[ring][division].(visited := true));
      maze := SetCell(maze, (ring, division), maze[ring][division].(outerWall := false));
      assert SetUp(maze, rings, initialDivisions, 0);

      for i := 0 to initialDivisions
        invariant SetUp(maze, rings, initialDivisions, i)
        invariant backtrackPath == old(backtrackPath)
      {
        SetUpInMaze(maze, rings, initialDivisions, i);
        maze := SetCell(maze, (0, i), maze[0][i].(rightWall := false));
        maze := SetCell(maze, (0, i), maze[0][i].(visited := true));
      }
    }

    /** One forward step of the carving loop: pick a random unvisited
        neighbour, knock down the wall between, push the current cell and
        move on; a step into ring 1 records the route to the centre. */
    method Advance(rng: Sfc32.Generator, ring: nat, division: nat, backtrack: seq<Pos>, candidates: seq<Pos>,
                   solution: seq<Pos>, centreEntry: nat, ghost seen: set<Pos>, ghost openWalls: set<Wall>,
                   ghost route: map<Pos, seq<Pos>>)
      returns (ring': nat, division': nat, backtrack': seq<Pos>, solution': seq<Pos>, centreEntry': nat,
               ghost seen': set<Pos>, ghost openWalls': set<Wall>, ghost route': map<Pos, seq<Pos>>)
      modifies this, rng
      requires Carving(maze, rings, initialDivisions, (ring, division), backtrack, seen, openWalls, route,
                       solution, centreEntry)
      requires candidates == Unvisited(maze, Neighbours(rings, initialDivisions, ring, division))
      requires |candidates| > 0
      ensures Carving(maze, rings, initialDivisions, (ring', division'), backtrack', seen', openWalls', route',
                      solution', centreEntry')
      ensures |RingCells(rings, initialDivisions) - seen'| < |RingCells(rings, initialDivisions) - seen|
    {
      var cur := (ring, division);
      ghost var before := maze;
      backtrack' := backtrack + [cur];
      var t := rng.Next();
      var next := candidates[Sfc32.RandomRange(Sfc32.Value(t), |candidates|)];
      VisitReady(maze, rings, initialDivisions, seen, cur, next);
      OpenWallBetween(cur, next);
      ring', division' := next.0, next.1;
      assert (ring', division') == next;
      maze := MarkVisited(maze, (ring', division'));
      seen' := seen + {next};
      openWalls' := openWalls + {WallBetween(initialDivisions, cur, next)};
      route' := route[next := backtrack' + [next]];
      solution', centreEntry' := solution, centreEntry;
      if ring' == 1 {
        centreEntry' := division';
        solution' := backtrack' + [(ring', division'), (0, division')];
      }
      VisitStep(before, rings, initialDivisions, seen, openWalls, route, solution, centreEntry, cur, backtrack, next,
                maze, (ring', division'), backtrack', seen', openWalls', route', solution', centreEntry');
    }

    /** One backward step of the carving loop: with no unvisited neighbour,
        pop the cell to go back to from the stack. */
    method Retreat(ring: nat, division: nat, backtrack: seq<Pos>, ghost seen: set<Pos>, ghost openWalls: set<Wall>,
                   ghost route: map<Pos, seq<Pos>>, ghost solution: seq<Pos>, ghost centreEntry: nat)
      returns (ring': nat, division': nat, backtrack': seq<Pos>)
      requires Carving(maze, rings, initialDivisions, (ring, division), backtrack, seen, openWalls, route,
                       solution, centreEntry)
      requires Unvisited(maze, Neighbours(rings, initialDivisions, ring, division)) == [] && |backtrack| > 0
      ensures Carving(maze, rings, initialDivisions, (ring', division'), backtrack', seen, openWalls, route,
                      solution, centreEntry)
      ensures backtrack' == backtrack[..|backtrack| - 1] && (ring', division') == backtrack[|backtrack| - 1]
    {
      var top := backtrack[|backtrack| - 1];
      backtrack' := backtrack[..|backtrack| - 1];
      ring', division' := top.0, top.1;
      PopStep(maze, rings, initialDivisions, seen, openWalls, route, solution, centreEntry, (ring, division),
              backtrack, (ring', division'), backtrack');
    }

    /** One round of the carving loop while there is somewhere to go:
        forward to a random unvisited neighbour if there is one, otherwise
        back to the cell on top of the stack. */
    method CarveStep(rng: Sfc32.Generator, ring: nat, division: nat, backtrack: seq<Pos>, candidates: seq<Pos>,
                     solution: seq<Pos>, centreEntry: nat, ghost seen: set<Pos>, ghost openWalls: set<Wall>,
                     ghost route: map<Pos, seq<Pos>>)
      returns (ring': nat, division': nat, backtrack': seq<Pos>, solution': seq<Pos>, centreEntry': nat,
               ghost seen': set<Pos>, ghost openWalls': set<Wall>, ghost route': map<Pos, seq<Pos>>)
      modifies this, rng
      requires Carving(maze, rings, initialDivisions, (ring, division), backtrack, seen, openWalls, route,
                       solution, centreEntry)
      requires candidates == Unvisited(maze, Neighbours(rings, initialDivisions, ring, division))
      requires |candidates| > 0 || |backtrack| > 0
      ensures Carving(maze, rings, initialDivisions, (ring', division'), backtrack', seen', openWalls', route',
                      solution', centreEntry')
      ensures |RingCells(rings, initialDivisions) - seen'| < |RingCells(rings, initialDivisions) - seen| ||
        (seen' == seen && |backtrack'| < |backtrack|)
    {
      if |candidates| > 0 {
        ring', division', backtrack', solution', centreEntry', seen', openWalls', route' :=
          Advance(rng, ring, division, backtrack, candidates, solution, centreEntry, seen, openWalls, route);
      } else {
        ring', division', backtrack' := Retreat(ring, division, backtrack, seen, openWalls, route, solution, centreEntry);
        solution', centreEntry', seen', openWalls', route' := solution, centreEntry, seen, openWalls, route;
      }
    }

    /** The carving loop of generating: from the entrance, step to a random
        unvisited neighbour through the wall between, or go back along the
        stack, until the stack runs out. */
    method Carve(rng: Sfc32.Generator)
      returns (solution: seq<Pos>, centreEntry: nat, ghost seen: set<Pos>,
               ghost openWalls: set<Wall>, ghost route: map<Pos, seq<Pos>>)
      modifies this, rng
      requires rings >= 2 && initialDivisions >= 1
      requires SetUp(maze, rings, initialDivisions, initialDivisions)
      ensures Finished(maze, rings, initialDivisions, seen, openWalls, route, solution, centreEntry)
    {
      var ring: nat := rings - 1;
      var division: nat := 0;
      var backtrack: seq<Pos> := [];
      solution := [];
      centreEntry := 0;
      seen := {(ring, division)};
      openWalls := {};
      route := map[(ring, division) := [(ring, division)]];
      InitCarving(maze, rings, initialDivisions, (ring, division));

      while true
        invariant Carving(maze, rings, initialDivisions, (ring, division), backtrack, seen, openWalls, route,
                          solution, centreEntry)
        decreases |RingCells(rings, initialDivisions) - seen|, |backtrack|
      {
        ghost var cur := (ring, division);
        var candidates := UnvisitedNeighbours(ring, division);
        if |candidates| == 0 && |backtrack| == 0 {
          Exhausted(maze, rings, initialDivisions, cur, backtrack, seen, openWalls, route, solution, centreEntry);
          break;
        }
        ring, division, backtrack, solution, centreEntry, seen, openWalls, route :=
          CarveStep(rng, ring, division, backtrack, candidates, solution, centreEntry, seen, openWalls, route);
      }
    }
  }
}
