/** A polygon on the integer brick grid: its vertices in order, the corners of
    its bounding box, the box's size, and the brick position derived from them. */
module Polygons {
  import opened Points

  /** Width and height of a bounding box (u32 in the source). */
  datatype Size = Size(x: nat, y: nat)

  // ---------------------------------------------------------------------
  // Bounding boxes

  function Lower(c: Point, p: Point): Point
  {
    Point(Min(c.x, p.x), Min(c.y, p.y))
  }

  function Upper(c: Point, p: Point): Point
  {
    Point(Max(c.x, p.x), Max(c.y, p.y))
  }

  /** c lowered by every point of ps in turn, first to last. */
  function FoldLower(c: Point, ps: seq<Point>): Point
  {
    if |ps| == 0 then c else Lower(FoldLower(c, ps[..|ps| - 1]), ps[|ps| - 1])
  }

  /** c raised by every point of ps in turn, first to last. */
  function FoldUpper(c: Point, ps: seq<Point>): Point
  {
    if |ps| == 0 then c else Upper(FoldUpper(c, ps[..|ps| - 1]), ps[|ps| - 1])
  }

  /** c is the lower corner of the bounding box of ps: no point of ps lies
      left of or below it, and some point of ps attains each of its coordinates. */
  predicate IsLowerCorner(c: Point, ps: seq<Point>)
  {
    (forall p :: p in ps ==> c.x <= p.x && c.y <= p.y) &&
    (exists p :: p in ps && p.x == c.x) &&
    (exists p :: p in ps && p.y == c.y)
  }

  /** c is the upper corner of the bounding box of ps. */
  predicate IsUpperCorner(c: Point, ps: seq<Point>)
  {
    (forall p :: p in ps ==> p.x <= c.x && p.y <= c.y) &&
    (exists p :: p in ps && p.x == c.x) &&
    (exists p :: p in ps && p.y == c.y)
  }

  /** The box size from its corners (`x_range`, `y_range`). */
  function SizeOf(lo: Point, hi: Point): Size
  {
    Size(Abs(hi.x - lo.x), Abs(hi.y - lo.y))
  }

  /** The brick position in half units: twice the lower corner plus the size. */
  function PositionOf(lo: Point, size: Size): Point
  {
    Point(lo.x * 2 + size.x, lo.y * 2 + size.y)
  }

  /** In a proper box the position is the centre in half units, i.e. the sum of
      the two corners. */
  lemma PositionIsCentre(lo: Point, hi: Point)
    requires lo.x <= hi.x && lo.y <= hi.y
    ensures SizeOf(lo, hi) == Size(hi.x - lo.x, hi.y - lo.y)
    ensures PositionOf(lo, SizeOf(lo, hi)) == Point(lo.x + hi.x, lo.y + hi.y)
  {
  }

  lemma LowerAdds(c: Point, s: seq<Point>, p: Point)
    requires IsLowerCorner(c, s)
    ensures IsLowerCorner(Lower(c, p), s + [p])
  {
    var d := Lower(c, p);
    var t := s + [p];
    assert p in t;
    forall q | q in t
      ensures d.x <= q.x && d.y <= q.y
    {
      if q != p {
        assert q in s;
      }
    }
    var qx :| qx in s && qx.x == c.x;
    var qy :| qy in s && qy.y == c.y;
    assert qx in t && qy in t;
    if d.x == c.x {
      assert exists q :: q in t && q.x == d.x;
    } else {
      assert exists q :: q in t && q.x == d.x;
    }
    if d.y == c.y {
      assert exists q :: q in t && q.y == d.y;
    } else {
      assert exists q :: q in t && q.y == d.y;
    }
  }

  lemma UpperAdds(c: Point, s: seq<Point>, p: Point)
    requires IsUpperCorner(c, s)
    ensures IsUpperCorner(Upper(c, p), s + [p])
  {
    var d := Upper(c, p);
    var t := s + [p];
    assert p in t;
    forall q | q in t
      ensures q.x <= d.x && q.y <= d.y
    {
      if q != p {
        assert q in s;
      }
    }
    var qx :| qx in s && qx.x == c.x;
    var qy :| qy in s && qy.y == c.y;
    assert qx in t && qy in t;
    if d.x == c.x {
      assert exists q :: q in t && q.x == d.x;
    } else {
      assert exists q :: q in t && q.x == d.x;
    }
    if d.y == c.y {
      assert exists q :: q in t && q.y == d.y;
    } else {
      assert exists q :: q in t && q.y == d.y;
    }
  }

  /** Folding more points into a bounding box gives the box of all of them. */
  lemma {:induction false} FoldLowerExtends(c: Point, s: seq<Point>, ps: seq<Point>)
    requires IsLowerCorner(c, s)
    ensures IsLowerCorner(FoldLower(c, ps), s + ps)
  {
    if |ps| > 0 {
      var init := ps[..|ps| - 1];
      FoldLowerExtends(c, s, init);
      LowerAdds(FoldLower(c, init), s + init, ps[|ps| - 1]);
      assert s + ps == (s + init) + [ps[|ps| - 1]];
    } else {
      assert s + ps == s;
    }
  }

  lemma {:induction false} FoldUpperExtends(c: Point, s: seq<Point>, ps: seq<Point>)
    requires IsUpperCorner(c, s)
    ensures IsUpperCorner(FoldUpper(c, ps), s + ps)
  {
    if |ps| > 0 {
      var init := ps[..|ps| - 1];
      FoldUpperExtends(c, s, init);
      UpperAdds(FoldUpper(c, init), s + init, ps[|ps| - 1]);
      assert s + ps == (s + init) + [ps[|ps| - 1]];
    } else {
      assert s + ps == s;
    }
  }

  lemma {:induction false} FoldLowerAppend(c: Point, a: seq<Point>, b: seq<Point>)
    ensures FoldLower(c, a + b) == FoldLower(FoldLower(c, a), b)
  {
    if |b| > 0 {
      FoldLowerAppend(c, a, b[..|b| - 1]);
      assert (a + b)[..|a + b| - 1] == a + b[..|b| - 1];
    } else {
      assert a + b == a;
    }
  }

  lemma {:induction false} FoldUpperAppend(c: Point, a: seq<Point>, b: seq<Point>)
    ensures FoldUpper(c, a + b) == FoldUpper(FoldUpper(c, a), b)
  {
    if |b| > 0 {
      FoldUpperAppend(c, a, b[..|b| - 1]);
      assert (a + b)[..|a + b| - 1] == a + b[..|b| - 1];
    } else {
      assert a + b == a;
    }
  }

  /** Starting from the sentinels (i32::MAX, i32::MAX) and (i32::MIN, i32::MIN),
      folding a non-empty list of i32 points gives exactly its bounding box. */
  lemma FoldFromSentinels(ps: seq<Point>)
    requires |ps| > 0 && AllInI32(ps)
    ensures IsLowerCorner(FoldLower(Point(I32Max, I32Max), ps), ps)
    ensures IsUpperCorner(FoldUpper(Point(I32Min, I32Min), ps), ps)
  {
    var first := [ps[0]];
    assert InI32(ps[0]);
    assert ps == first + ps[1..];
    assert first[..0] == [];
    assert FoldLower(Point(I32Max, I32Max), first) == ps[0];
    assert FoldUpper(Point(I32Min, I32Min), first) == ps[0];
    FoldLowerAppend(Point(I32Max, I32Max), first, ps[1..]);
    FoldUpperAppend(Point(I32Min, I32Min), first, ps[1..]);
    assert IsLowerCorner(ps[0], first) by {
      assert ps[0] in first;
    }
    assert IsUpperCorner(ps[0], first) by {
      assert ps[0] in first;
    }
    FoldLowerExtends(ps[0], first, ps[1..]);
    FoldUpperExtends(ps[0], first, ps[1..]);
  }

  /** lo and hi are the corners of the bounding box of the non-empty list s. */
  predicate Bounded(lo: Point, hi: Point, s: seq<Point>)
  {
    |s| > 0 && IsLowerCorner(lo, s) && IsUpperCorner(hi, s)
  }

  /** A bounding box of some points has its lower corner below its upper one. */
  lemma BoundedOrdered(lo: Point, hi: Point, s: seq<Point>)
    requires Bounded(lo, hi, s)
    ensures lo.x <= hi.x && lo.y <= hi.y
  {
    assert s[0] in s;
  }

  lemma SingletonBounded(p: Point)
    ensures Bounded(p, p, [p])
  {
    assert p in [p];
  }

  lemma BoundedExtends(lo: Point, hi: Point, s: seq<Point>, ps: seq<Point>)
    requires Bounded(lo, hi, s)
    ensures Bounded(FoldLower(lo, ps), FoldUpper(hi, ps), s + ps)
  {
    FoldLowerExtends(lo, s, ps);
    FoldUpperExtends(hi, s, ps);
  }

  /** The corners of a bounding box depend only on which points there are. */
  lemma CornersIgnoreOrder(lo: Point, hi: Point, s: seq<Point>, t: seq<Point>)
    requires forall p :: p in s <==> p in t
    ensures IsLowerCorner(lo, s) == IsLowerCorner(lo, t)
    ensures IsUpperCorner(hi, s) == IsUpperCorner(hi, t)
  {
  }

  function Reverse(s: seq<Point>): (r: seq<Point>)
    ensures |r| == |s|
  {
    if |s| == 0 then [] else [s[|s| - 1]] + Reverse(s[..|s| - 1])
  }

  lemma {:induction false} ReverseMembers(s: seq<Point>)
    ensures forall p :: p in Reverse(s) <==> p in s
  {
    if |s| > 0 {
      ReverseMembers(s[..|s| - 1]);
      assert s == s[..|s| - 1] + [s[|s| - 1]];
    }
  }

  lemma {:induction false} ReverseIsBackwards(s: seq<Point>)
    ensures forall i :: 0 <= i < |s| ==> Reverse(s)[i] == s[|s| - 1 - i]
  {
    if |s| > 0 {
      ReverseIsBackwards(s[..|s| - 1]);
    }
  }

  // ---------------------------------------------------------------------
  // Point in polygon: even-odd rule by horizontal ray crossings

  /** Rust's `/` on integers: the quotient truncated toward zero, i.e. the
      magnitude is the quotient of the magnitudes and the sign is the product
      of the signs. */
  function TruncDiv(a: int, b: int): (q: int)
    requires b != 0
    ensures Abs(q) == Abs(a) / Abs(b)
    ensures q > 0 ==> (a > 0) == (b > 0)
    ensures q < 0 ==> (a > 0) != (b > 0)
  {
    var m := Abs(a) / Abs(b);
    DivNonneg(Abs(a), Abs(b));
    if (a < 0) == (b < 0) then m else -m
  }

  lemma DivNonneg(n: nat, d: nat)
    requires d > 0
    ensures n / d >= 0
  {
  }

  /** On a non-negative dividend and positive divisor it is Euclidean division,
      and it is odd in the dividend; so it differs from Euclidean division
      exactly on negative dividends that the divisor does not divide. */
  lemma TruncDivAgainstEuclid(a: int, b: int)
    requires b > 0
    ensures a >= 0 ==> TruncDiv(a, b) == a / b
    ensures TruncDiv(-a, b) == -TruncDiv(a, b)
    ensures TruncDiv(-1, 2) == 0 && (-1) / 2 == -1
  {
  }

  /** The edge from point i to the next (the last closes back to the first). */
  function EdgeStart(ps: seq<Point>, i: nat): Point
    requires i < |ps|
  {
    ps[i]
  }

  function EdgeEnd(ps: seq<Point>, i: nat): Point
    requires i < |ps|
  {
    ps[(i + 1) % |ps|]
  }

  /** The edge p1-p2 spans the horizontal line at y: one end strictly above it,
      the other not. */
  predicate Straddles(p1: Point, p2: Point, y: int)
  {
    (p1.y > y) != (p2.y > y)
  }

  /** Where the edge p1-p2 meets the horizontal line at y, truncated as i32
      arithmetic truncates. */
  function Intercept(p1: Point, p2: Point, y: int): (x: int)
    requires p1.y != p2.y
    ensures y == p1.y ==> x == p1.x
    ensures y == p2.y ==> x == p2.x
  {
    TruncDivExact(p2.x - p1.x, p2.y - p1.y);
    TruncDiv((p2.x - p1.x) * (y - p1.y), p2.y - p1.y) + p1.x
  }

  /** Truncated division undoes an exact multiplication. */
  lemma TruncDivExact(m: int, d: int)
    requires d != 0
    ensures TruncDiv(m * d, d) == m
    ensures TruncDiv(0, d) == 0
  {
    AbsProduct(m, d);
    MulDivCancel(Abs(m), Abs(d));
  }

  lemma AbsProduct(m: int, d: int)
    ensures Abs(m * d) == Abs(m) * Abs(d)
  {
    if m < 0 && d < 0 {
      assert m * d == (-m) * (-d);
    } else if m < 0 {
      assert -(m * d) == (-m) * d;
    } else if d < 0 {
      assert -(m * d) == m * (-d);
    }
  }

  lemma MulDivCancel(a: nat, b: nat)
    requires b > 0
    ensures (a * b) / b == a
  {
    var n := a * b;
    var k := n / b - a;
    assert b * k == -(n % b) by {
      assert n == b * (n / b) + n % b;
      assert b * k == b * (n / b) - b * a;
    }
    assert k >= 1 ==> b * k >= b * 1;
    assert k <= -1 ==> b * k <= b * -1;
  }

  /** Edge i is crossed by the ray going right from q. */
  predicate EdgeCrosses(ps: seq<Point>, i: nat, q: Point)
    requires i < |ps|
  {
    var p1 := EdgeStart(ps, i);
    var p2 := EdgeEnd(ps, i);
    Straddles(p1, p2, q.y) && q.x < Intercept(p1, p2, q.y)
  }

  /** How many of the first k edges the ray crosses. */
  function Crossings(ps: seq<Point>, q: Point, k: nat): (n: nat)
    requires k <= |ps|
    ensures n <= k
  {
    if k == 0 then 0
    else Crossings(ps, q, k - 1) + (if EdgeCrosses(ps, k - 1, q) then 1 else 0)
  }

  predicate InBox(lo: Point, hi: Point, q: Point)
  {
    lo.x <= q.x <= hi.x && lo.y <= q.y <= hi.y
  }

  /** The source's test: inside the bounding box and an odd number of crossings. */
  predicate Inside(ps: seq<Point>, lo: Point, hi: Point, q: Point): (inside: bool)
    ensures inside ==> InBox(lo, hi, q) && Crossings(ps, q, |ps|) >= 1
  {
    InBox(lo, hi, q) && Crossings(ps, q, |ps|) % 2 == 1
  }

  /** The intercept of a straddling edge lies between the edge's two x's. */
  lemma InterceptOnEdge(p1: Point, p2: Point, y: int)
    requires Straddles(p1, p2, y)
    ensures Min(p1.x, p2.x) <= Intercept(p1, p2, y) <= Max(p1.x, p2.x)
  {
    QuotientWithin(p2.x - p1.x, y - p1.y, p2.y - p1.y);
  }

  /** dx * (t / dy), truncated, lies between 0 and dx when t / dy lies in [0, 1]. */
  lemma QuotientWithin(dx: int, t: int, dy: int)
    requires dy != 0
    requires 0 <= t <= dy || dy <= t <= 0
    ensures Min(0, dx) <= TruncDiv(dx * t, dy) <= Max(0, dx)
  {
    ProductSign(dx, t);
    MagnitudeAtMost(dx, t, dy);
    DivAtMost(Abs(dx * t), Abs(dx), Abs(dy));
  }

  lemma MagnitudeAtMost(dx: int, t: int, dy: int)
    requires Abs(t) <= Abs(dy)
    ensures Abs(dx * t) <= Abs(dx) * Abs(dy)
  {
    ProductSign(dx, t);
    assert Abs(dx) * Abs(t) <= Abs(dx) * Abs(dy);
  }

  lemma ProductSign(x: int, y: int)
    ensures x * y > 0 <==> (x > 0 && y > 0) || (x < 0 && y < 0)
    ensures Abs(x * y) == Abs(x) * Abs(y)
  {
    if x > 0 && y < 0 {
      assert x * y == -(x * -y);
    } else if x < 0 && y > 0 {
      assert x * y == -(-x * y);
    } else if x < 0 && y < 0 {
      assert x * y == -x * -y;
    }
  }

  lemma DivAtMost(n: nat, k: nat, d: nat)
    requires d > 0 && n <= k * d
    ensures n / d <= k
  {
    var r := n / d;
    assert n == r * d + n % d;
    assert r * d <= k * d;
  }

  /** A ray at or above every vertex crosses nothing. */
  lemma {:induction false} NoCrossingsAtTop(ps: seq<Point>, q: Point, k: nat)
    requires k <= |ps|
    requires forall p :: p in ps ==> p.y <= q.y
    ensures Crossings(ps, q, k) == 0
  {
    if k > 0 {
      NoCrossingsAtTop(ps, q, k - 1);
      assert EdgeStart(ps, k - 1) in ps;
    }
  }

  /** A ray starting at or right of every vertex crosses nothing. */
  lemma {:induction false} NoCrossingsAtRight(ps: seq<Point>, q: Point, k: nat)
    requires k <= |ps|
    requires forall p :: p in ps ==> p.x <= q.x
    ensures Crossings(ps, q, k) == 0
  {
    if k > 0 {
      NoCrossingsAtRight(ps, q, k - 1);
      var p1 := EdgeStart(ps, k - 1);
      var p2 := EdgeEnd(ps, k - 1);
      assert p1 in ps && p2 in ps;
      if Straddles(p1, p2, q.y) {
        InterceptOnEdge(p1, p2, q.y);
      }
    }
  }

  /** The last row and the last column of the bounding box are never inside:
      the test is half-open on the upper side. */
  lemma UpperEdgesOutside(ps: seq<Point>, lo: Point, hi: Point, q: Point)
    requires forall p :: p in ps ==> p.x <= hi.x && p.y <= hi.y
    requires q.y == hi.y || q.x == hi.x
    ensures !Inside(ps, lo, hi, q)
  {
    if q.y == hi.y {
      NoCrossingsAtTop(ps, q, |ps|);
    } else {
      NoCrossingsAtRight(ps, q, |ps|);
    }
  }

  /** The corner list of an axis-aligned rectangle, in the order top-left,
      top-right, bottom-right, bottom-left (y grows downward). */
  function RectangleCorners(x0: int, y0: int, x1: int, y1: int): (cs: seq<Point>)
    ensures |cs| == 4
  {
    [Point(x0, y0), Point(x1, y0), Point(x1, y1), Point(x0, y1)]
  }

  /** A rectangle's corner list contains exactly the half-open box
      [x0, x1) x [y0, y1). */
  lemma RectangleInside(x0: int, y0: int, x1: int, y1: int, q: Point)
    requires x0 < x1 && y0 < y1
    ensures Inside(RectangleCorners(x0, y0, x1, y1), Point(x0, y0), Point(x1, y1), q)
        <==> x0 <= q.x < x1 && y0 <= q.y < y1
  {
    var cs := RectangleCorners(x0, y0, x1, y1);
    var band := y0 <= q.y < y1;
    assert !EdgeCrosses(cs, 0, q);
    assert EdgeCrosses(cs, 1, q) <==> band && q.x < x1 by {
      if Straddles(cs[1], cs[2], q.y) {
        assert Intercept(cs[1], cs[2], q.y) == x1;
      }
    }
    assert !EdgeCrosses(cs, 2, q);
    assert EdgeCrosses(cs, 3, q) <==> band && q.x < x0 by {
      assert EdgeEnd(cs, 3) == cs[0];
      if Straddles(cs[3], cs[0], q.y) {
        assert Intercept(cs[3], cs[0], q.y) == x0;
      }
    }
    assert Crossings(cs, q, 1) == 0;
    assert Crossings(cs, q, 2) == (if band && q.x < x1 then 1 else 0);
    assert Crossings(cs, q, 3) == Crossings(cs, q, 2);
    assert Crossings(cs, q, 4) == Crossings(cs, q, 3) + (if band && q.x < x0 then 1 else 0);
  }

  // ---------------------------------------------------------------------
  // The polygon object

  class Polygon {
    var points: seq<Point>
    var min: Point
    var max: Point
    var size: Size
    var position: Point
    /** [(0, 0)] when the polygon was made from no points: its bounds then
        start at the origin, which stays inside them; [] otherwise. */
    ghost var anchor: seq<Point>

    /** The bounds are the bounding box of the vertices (and of the origin
        for a polygon made empty); size and position follow from them. */
    ghost predicate Valid()
      reads this
    {
      (anchor == [] || anchor == [Point(0, 0)]) &&
      Bounded(min, max, anchor + points) &&
      size == SizeOf(min, max) &&
      position == PositionOf(min, size)
    }

    /** `Polygon::new`: an empty list gives bounds (0, 0)-(0, 0); otherwise the
        bounds start at the i32 sentinels and are extended by the points. */
    constructor (pts: seq<Point>)
      requires AllInI32(pts)
      ensures Valid()
      ensures points == pts
      ensures pts == [] ==> min == Point(0, 0) && max == Point(0, 0) && size == Size(0, 0)
      ensures pts != [] ==> IsLowerCorner(min, pts) && IsUpperCorner(max, pts)
      ensures anchor == if pts == [] then [Point(0, 0)] else []
    {
      var empty := |pts| == 0;
      var lo, hi := 0, 0;
      if !empty {
        lo, hi := I32Max, I32Min;
      }
      points := [];
      min := Point(lo, lo);
      max := Point(hi, hi);
      size := Size(0, 0);
      position := Point(0, 0);
      anchor := if empty then [Point(0, 0)] else [];
      new;
      if empty {
        assert size == SizeOf(min, max);
        assert position == PositionOf(min, size);
        SingletonBounded(Point(0, 0));
        assert anchor + points == [Point(0, 0)];
        return;
      }
      FoldFromSentinels(pts);
      assert [] + pts == pts;
      Extend(pts);
      assert anchor + points == pts;
    }

    /** Puts each point at the front in turn (so they end up reversed ahead of
        the old vertices), then widens the bounds. */
    method Insert(pts: seq<Point>)
      modifies this
      ensures points == Reverse(pts) + old(points)
      ensures min == FoldLower(old(min), pts) && max == FoldUpper(old(max), pts)
      ensures size == SizeOf(min, max) && position == PositionOf(min, size)
      ensures anchor == old(anchor)
      ensures old(Valid()) ==> Valid()
    {
      ghost var before := points;
      var i := 0;
      while i < |pts|
        invariant 0 <= i <= |pts|
        invariant points == Reverse(pts[..i]) + before
        invariant min == old(min) && max == old(max) && anchor == old(anchor)
      {
        assert pts[..i + 1][..i] == pts[..i];
        points := [pts[i]] + points;
        i := i + 1;
      }
      assert pts[..i] == pts;
      Update(pts);
      if old(Valid()) {
        ReverseMembers(pts);
        BoundedExtends(old(min), old(max), anchor + before, pts);
        CornersIgnoreOrder(min, max, anchor + before + pts, anchor + points);
      }
    }

    /** Appends one point and widens the bounds by it. */
    method Push(p: Point)
      modifies this
      ensures points == old(points) + [p]
      ensures min == Lower(old(min), p) && max == Upper(old(max), p)
      ensures size == SizeOf(min, max) && position == PositionOf(min, size)
      ensures anchor == old(anchor)
      ensures old(Valid()) ==> Valid()
    {
      points := points + [p];
      Update([p]);
      assert [p][..0] == [];
      if old(Valid()) {
        LowerAdds(old(min), anchor + old(points), p);
        UpperAdds(old(max), anchor + old(points), p);
        assert anchor + points == anchor + old(points) + [p];
      }
    }

    /** Appends the points in order and widens the bounds by them. */
    method Extend(pts: seq<Point>)
      modifies this
      ensures points == old(points) + pts
      ensures min == FoldLower(old(min), pts) && max == FoldUpper(old(max), pts)
      ensures size == SizeOf(min, max) && position == PositionOf(min, size)
      ensures anchor == old(anchor)
      ensures old(Valid()) ==> Valid()
    {
      ghost var all := anchor + points;
      if Valid() {
        BoundedExtends(min, max, all, pts);
      }
      points := points + pts;
      Update(pts);
      assert anchor + points == all + pts;
    }

    /** Widens the bounds by each point in turn, then recomputes size and position. */
    method Update(pts: seq<Point>)
      modifies this
      ensures min == FoldLower(old(min), pts) && max == FoldUpper(old(max), pts)
      ensures size == SizeOf(min, max) && position == PositionOf(min, size)
      ensures points == old(points) && anchor == old(anchor)
    {
      var i := 0;
      while i < |pts|
        invariant 0 <= i <= |pts|
        invariant min == FoldLower(old(min), pts[..i]) && max == FoldUpper(old(max), pts[..i])
        invariant points == old(points) && anchor == old(anchor)
      {
        assert pts[..i + 1][..i] == pts[..i];
        UpdateBounds(pts[i]);
        i := i + 1;
      }
      assert pts[..i] == pts;
      UpdateSize();
      UpdatePosition();
    }

    /** Lowers `min` and raises `max` to take in p, one coordinate at a time. */
    method UpdateBounds(p: Point)
      modifies this
      ensures min == Lower(old(min), p) && max == Upper(old(max), p)
      ensures points == old(points) && size == old(size) && position == old(position)
      ensures anchor == old(anchor)
    {
      min := min.(y := Min(min.y, p.y));
      max := max.(y := Max(max.y, p.y));
      min := min.(x := Min(min.x, p.x));
      max := max.(x := Max(max.x, p.x));
    }

    method UpdateSize()
      modifies this
      ensures size == SizeOf(min, max)
      ensures points == old(points) && min == old(min) && max == old(max)
      ensures position == old(position) && anchor == old(anchor)
    {
      size := Size(XRange(), YRange());
    }

    method UpdatePosition()
      modifies this
      ensures position == PositionOf(min, size)
      ensures points == old(points) && min == old(min) && max == old(max)
      ensures size == old(size) && anchor == old(anchor)
    {
      position := Point(min.x * 2 + size.x, min.y * 2 + size.y);
    }

    /** The width of the bounding box, as the absolute difference of the x bounds. */
    function XRange(): (r: nat)
      reads this
      ensures min.x <= max.x ==> min.x + r == max.x
      ensures max.x < min.x ==> max.x + r == min.x
    {
      Abs(max.x - min.x)
    }

    /** The height of the bounding box. */
    function YRange(): (r: nat)
      reads this
      ensures min.y <= max.y ==> min.y + r == max.y
      ensures max.y < min.y ==> max.y + r == min.y
    {
      Abs(max.y - min.y)
    }

    /** Even-odd test: outside the bounding box is outside; otherwise count the
        edges the rightward ray from q crosses. */
    method Contains(q: Point) returns (inside: bool)
      ensures inside == Inside(points, min, max, q)
    {
      if q.x < min.x || q.x > max.x || q.y < min.y || q.y > max.y {
        return false;
      }
      var crossings := 0;
      var n := |points|;
      var i := 0;
      while i < n
        invariant 0 <= i <= n
        invariant crossings == Crossings(points, q, i)
      {
        var p1 := points[i];
        var p2 := points[(i + 1) % n];
        if (p1.y > q.y) != (p2.y > q.y) {
          var intersectionX := TruncDiv((p2.x - p1.x) * (q.y - p1.y), p2.y - p1.y) + p1.x;
          if q.x < intersectionX {
            crossings := crossings + 1;
          }
        }
        i := i + 1;
      }
      inside := crossings % 2 == 1;
    }
  }
}
