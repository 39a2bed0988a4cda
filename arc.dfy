/** Turning one ring segment of the maze (the area between two concentric arcs)
    into bricks: right-angled wedges along both arcs, and the rectangles of the
    rectilinear polygon the wedges leave between them. */
module Arcs {
  import opened Points
  import opened Polygons
  import opened Decompose

  datatype Option<T> = None | Some(value: T)

  /** An arc of the circle about `centre`, from `beginAngle` to `endAngle`. */
  datatype Arc = Arc(beginAngle: real, endAngle: real, centre: Point, radius: nat, isInnerArc: bool)

  /** The floating-point operations of the source, left uninterpreted: cosine,
      sine, and rounding to the nearest whole number. */
  datatype Trig = Trig(cos: real -> real, sin: real -> real, round: real -> int)

  datatype Rgb = Rgb(r: nat, g: nat, b: nat)

  /** A ring segment to be built: its colour, its outer arc and its thickness. */
  datatype WedgeArc = WedgeArc(rgb: Rgb, arc: Arc, radiusGap: nat)

  // ---------------------------------------------------------------------
  // Bricks (a local record standing for the save format's brick)

  datatype Asset = MicroWedge | MicroBrick
  datatype Rotation = Deg0 | Deg180
  datatype Direction = ZPositive | ZNegative
  datatype BrickSize = BrickSize(x: nat, y: nat, z: nat)
  datatype BrickPosition = BrickPosition(x: int, y: int, z: int)
  datatype Brick = Brick(asset: Asset, colour: Rgb, size: BrickSize, position: BrickPosition,
                         rotation: Rotation, direction: Direction)

  /** The brick's footprint, in half units, is the box from lo to hi: its
      position is the centre and its size the half-extent. */
  predicate Spans(b: Brick, lo: Point, hi: Point)
  {
    b.position.x - b.size.x == 2 * lo.x && b.position.x + b.size.x == 2 * hi.x &&
    b.position.y - b.size.y == 2 * lo.y && b.position.y + b.size.y == 2 * hi.y
  }

  // ---------------------------------------------------------------------
  // Points on the arc

  /** A float converted to i32 saturates at the ends of the range. */
  function ClampI32(v: int): (r: int)
    ensures I32Min <= r <= I32Max
    ensures I32Min <= v <= I32Max ==> r == v
    ensures v < I32Min ==> r == I32Min
    ensures v > I32Max ==> r == I32Max
  {
    if v < I32Min then I32Min else if v > I32Max then I32Max else v
  }

  /** The grid point at `angle` on the arc: centre plus radius times (cos, sin),
      each coordinate rounded and cast to i32. */
  function Coordinate(trig: Trig, arc: Arc, angle: real): (p: Point)
    ensures InI32(p)
  {
    Point(ClampI32(trig.round(arc.centre.x as real + arc.radius as real * trig.cos(angle))),
          ClampI32(trig.round(arc.centre.y as real + arc.radius as real * trig.sin(angle))))
  }

  /** p lies in the first or third quadrant about the centre (the axes counted
      with the positive side): its quadrant number is even. */
  predicate InEvenQuadrants(arc: Arc, p: Point): (even: bool)
    ensures even <==> Quadrant(arc, p) % 2 == 0
  {
    (p.x >= arc.centre.x) == (p.y >= arc.centre.y)
  }

  /** The quadrant of p about the centre, numbered counter-clockwise from 0 for
      x >= cx, y >= cy; an independent description of the same partition. */
  function Quadrant(arc: Arc, p: Point): (k: nat)
    ensures k < 4
  {
    if p.x >= arc.centre.x then (if p.y >= arc.centre.y then 0 else 3)
    else (if p.y >= arc.centre.y then 1 else 2)
  }

  // ---------------------------------------------------------------------
  // Vertex groups

  /** The arc length, radius times span, rounded up to a whole number; none
      when the span is not positive. */
  function RawSteps(arc: Arc): (n: nat)
    ensures var length := arc.radius as real * (arc.endAngle - arc.beginAngle);
      (length <= 0.0 ==> n == 0) && (length > 0.0 ==> length <= n as real < length + 1.0)
  {
    var length := arc.radius as real * (arc.endAngle - arc.beginAngle);
    if length <= 0.0 then 0 else -((-length).Floor)
  }

  /** The number of wedges along the arc: the arc length in units of 30, and
      at least one. */
  function StepCount(arc: Arc): (n: nat)
    ensures n >= 1
    ensures RawSteps(arc) >= 30 ==> n * 30 <= RawSteps(arc) < (n + 1) * 30
    ensures RawSteps(arc) < 60 ==> n == 1
  {
    var n := RawSteps(arc) / 30;
    if n > 1 then n else 1
  }

  /** c is one of the two corners of the box spanned by p and q that are not
      p and q themselves (when p and q differ in both coordinates). */
  predicate IsBoxCorner(c: Point, p: Point, q: Point)
  {
    c == Point(p.x, q.y) || c == Point(q.x, p.y)
  }

  /** Moving between p and q along an axis: they share a coordinate. */
  predicate AxisAligned(p: Point, q: Point)
  {
    p.x == q.x || p.y == q.y
  }

  /** A vertex group [p1, p90, p3]: a right triangle whose legs are axis-parallel. */
  predicate IsGroup(g: seq<Point>)
  {
    |g| == 3 && IsBoxCorner(g[1], g[0], g[2])
  }

  /** The right-angle vertex for the chord from p1 to p3 with midpoint mid: the
      corner (p1.x, p3.y) when the midpoint's quadrant parity agrees with the
      arc being inner, the corner (p3.x, p1.y) otherwise. */
  function RightAngleVertex(arc: Arc, p1: Point, mid: Point, p3: Point): (p: Point)
    ensures IsBoxCorner(p, p1, p3)
    ensures AxisAligned(p1, p) && AxisAligned(p, p3)
  {
    if InEvenQuadrants(arc, mid) == arc.isInnerArc then Point(p1.x, p3.y) else Point(p3.x, p1.y)
  }

  /** An inner and an outer arc through the same chord put the right angle on
      opposite sides of it. */
  lemma InnerOuterOpposite(arc: Arc, p1: Point, mid: Point, p3: Point)
    requires p1.x != p3.x && p1.y != p3.y
    ensures RightAngleVertex(arc.(isInnerArc := !arc.isInnerArc), p1, mid, p3) != RightAngleVertex(arc, p1, mid, p3)
    ensures {RightAngleVertex(arc.(isInnerArc := !arc.isInnerArc), p1, mid, p3), RightAngleVertex(arc, p1, mid, p3)}
         == {Point(p1.x, p3.y), Point(p3.x, p1.y)}
  {
  }

  function AngleStep(arc: Arc): real
  {
    (arc.endAngle - arc.beginAngle) / StepCount(arc) as real
  }

  function StartAngle(arc: Arc, step: real, i: nat): real
  {
    arc.beginAngle + i as real * step
  }

  /** Group i: the points at the i-th step angle and the next, with the right
      angle vertex between them. */
  function VertexGroup(trig: Trig, arc: Arc, step: real, i: nat): (g: seq<Point>)
    ensures IsGroup(g) && AllInI32(g)
    ensures g[0] == Coordinate(trig, arc, StartAngle(arc, step, i))
    ensures g[2] == Coordinate(trig, arc, StartAngle(arc, step, i) + step)
  {
    var angle1 := StartAngle(arc, step, i);
    var angle2 := angle1 + step;
    var mid := (angle1 + angle2) / 2.0;
    var p1 := Coordinate(trig, arc, angle1);
    var p3 := Coordinate(trig, arc, angle2);
    [p1, RightAngleVertex(arc, p1, Coordinate(trig, arc, mid), p3), p3]
  }

  /** All groups along the arc, in order of angle; there is always one at least. */
  function VertexPoints(trig: Trig, arc: Arc): (gs: seq<seq<Point>>)
    ensures |gs| == StepCount(arc) && |gs| >= 1
    ensures Groups(gs)
  {
    var step := AngleStep(arc);
    seq(StepCount(arc), i requires 0 <= i => VertexGroup(trig, arc, step, i))
  }

  /** The first group starts at the arc's begin angle and the last one ends at
      its end angle: the wedges span the whole arc. */
  lemma VertexPointsEnds(trig: Trig, arc: Arc)
    ensures VertexPoints(trig, arc)[0][0] == Coordinate(trig, arc, arc.beginAngle)
    ensures VertexPoints(trig, arc)[StepCount(arc) - 1][2] == Coordinate(trig, arc, arc.endAngle)
  {
    var n, step := StepCount(arc), AngleStep(arc);
    var first, last := VertexGroup(trig, arc, step, 0), VertexGroup(trig, arc, step, n - 1);
    assert first[0] == Coordinate(trig, arc, arc.beginAngle) by {
      assert StartAngle(arc, step, 0) == arc.beginAngle;
    }
    assert last[2] == Coordinate(trig, arc, arc.endAngle) by {
      StepsReachEnd(arc);
    }
    var gs := VertexPoints(trig, arc);
    assert gs[0] == first && gs[n - 1] == last;
  }

  /** n steps of the angle step take the begin angle to the end angle. */
  lemma StepsReachEnd(arc: Arc)
    ensures StartAngle(arc, AngleStep(arc), StepCount(arc) - 1) + AngleStep(arc) == arc.endAngle
  {
    var n, step := StepCount(arc) as real, AngleStep(arc);
    assert (n - 1.0) * step + step == n * step;
    assert n * step == arc.endAngle - arc.beginAngle;
  }

  predicate Groups(gs: seq<seq<Point>>)
  {
    forall i :: 0 <= i < |gs| ==> IsGroup(gs[i]) && AllInI32(gs[i])
  }

  /** Each group ends where the next begins. */
  predicate Joined(gs: seq<seq<Point>>)
    requires Groups(gs)
  {
    forall i :: 0 <= i < |gs| - 1 ==> gs[i][2] == gs[i + 1][0]
  }

  /** Angles are taken exactly, so step i ends at the angle where step i + 1
      starts, and the two share their point. */
  lemma VertexPointsJoined(trig: Trig, arc: Arc)
    ensures Joined(VertexPoints(trig, arc))
  {
    var gs := VertexPoints(trig, arc);
    var step := AngleStep(arc);
    forall i | 0 <= i < |gs| - 1
      ensures gs[i][2] == gs[i + 1][0]
    {
      assert StartAngle(arc, step, i) + step == StartAngle(arc, step, i + 1) by {
        assert (i + 1) as real * step == i as real * step + step;
      }
    }
  }

  /** The arc shifted to another radius, keeping its angles and centre; it is an
      inner arc exactly when the new radius is smaller. */
  function Concentric(arc: Arc, radius: nat): (c: Arc)
    ensures c.radius == radius && c.centre == arc.centre
    ensures c.beginAngle == arc.beginAngle && c.endAngle == arc.endAngle
    ensures c.isInnerArc <==> radius < arc.radius
  {
    arc.(radius := radius, isInnerArc := radius < arc.radius)
  }

  /** u32 subtraction that stops at zero. */
  function SaturatingSub(a: nat, b: nat): (r: nat)
    ensures r <= a
    ensures a >= b ==> r + b == a
    ensures a < b ==> r == 0
  {
    if a >= b then a - b else 0
  }

  /** The inner arc of a segment lies within the outer one and is flagged inner
      exactly when the segment has thickness and the outer arc a radius. */
  lemma InnerArcOfSegment(wa: WedgeArc)
    ensures Concentric(wa.arc, SaturatingSub(wa.arc.radius, wa.radiusGap)).radius <= wa.arc.radius
    ensures Concentric(wa.arc, SaturatingSub(wa.arc.radius, wa.radiusGap)).isInnerArc
        <==> wa.radiusGap > 0 && wa.arc.radius > 0
    ensures Concentric(wa.arc, SaturatingSub(wa.arc.radius, wa.radiusGap)).radius == 0
        <==> wa.radiusGap >= wa.arc.radius
  {
  }

  // ---------------------------------------------------------------------
  // Closing the segment at both ends

  /** The corner joining an inner arc end to the matching outer arc end:
      option 0 is (outer.x, inner.y), option 1 is (inner.x, outer.y), picked by
      the outer point's quadrant parity exclusive-or `inverse`. */
  function CornerVertex(arc: Arc, inner: Point, outer: Point, inverse: bool): (c: Point)
    ensures IsBoxCorner(c, inner, outer)
    ensures AxisAligned(inner, c) && AxisAligned(c, outer)
  {
    var options := [Point(outer.x, inner.y), Point(inner.x, outer.y)];
    options[if InEvenQuadrants(arc, outer) != inverse then 1 else 0]
  }

  /** The begin and end corners take opposite options for the same parity. */
  lemma CornerVertexFlips(arc: Arc, inner: Point, outer: Point)
    requires inner.x != outer.x && inner.y != outer.y
    ensures CornerVertex(arc, inner, outer, true) != CornerVertex(arc, inner, outer, false)
  {
  }

  /** [begin corner, end corner]: the begin corner from the first point of the
      first groups, the end corner from the last point of the last groups. */
  function EndArcCorners(arc: Arc, innerWedges: seq<seq<Point>>, outerWedges: seq<seq<Point>>): (cs: seq<Point>)
    requires |innerWedges| > 0 && |outerWedges| > 0
    requires |innerWedges[0]| > 0 && |outerWedges[0]| > 0
    requires |innerWedges[|innerWedges| - 1]| > 2 && |outerWedges[|outerWedges| - 1]| > 2
    ensures |cs| == 2
    ensures IsBoxCorner(cs[0], innerWedges[0][0], outerWedges[0][0])
    ensures IsBoxCorner(cs[1], innerWedges[|innerWedges| - 1][2], outerWedges[|outerWedges| - 1][2])
  {
    var innerBeginning, innerEnding := innerWedges[0], innerWedges[|innerWedges| - 1];
    var outerBeginning, outerEnding := outerWedges[0], outerWedges[|outerWedges| - 1];
    [CornerVertex(arc, innerBeginning[0], outerBeginning[0], true),
     CornerVertex(arc, innerEnding[2], outerEnding[2], false)]
  }

  /** The vertices of the groups one after another. */
  function Concat(gs: seq<seq<Point>>): (s: seq<Point>)
  {
    if |gs| == 0 then [] else Concat(gs[..|gs| - 1]) + gs[|gs| - 1]
  }

  lemma {:induction false} ConcatAt(gs: seq<seq<Point>>)
    requires Groups(gs)
    ensures |Concat(gs)| == 3 * |gs|
    ensures forall i, j :: 0 <= i < |gs| && 0 <= j < 3 ==> Concat(gs)[3 * i + j] == gs[i][j]
  {
    if |gs| > 0 {
      var init := gs[..|gs| - 1];
      assert Groups(init);
      ConcatAt(init);
      forall i, j | 0 <= i < |gs| && 0 <= j < 3
        ensures Concat(gs)[3 * i + j] == gs[i][j]
      {
        if i < |gs| - 1 {
          assert 3 * i + j < 3 * |init|;
        }
      }
    }
  }

  /** The annulus polygon: begin corner, the inner points in order, end corner,
      the outer points in reverse. */
  function AnnulusPoints(cs: seq<Point>, innerPoints: seq<Point>, outerPoints: seq<Point>): (a: seq<Point>)
    requires |cs| == 2
    ensures |a| == 2 + |innerPoints| + |outerPoints|
  {
    [cs[0]] + innerPoints + [cs[1]] + Reverse(outerPoints)
  }

  /** The outline of the segment built from two arcs' groups. */
  function Outline(arc: Arc, inner: seq<seq<Point>>, outer: seq<seq<Point>>): (a: seq<Point>)
    requires |inner| > 0 && |outer| > 0 && Groups(inner) && Groups(outer)
  {
    AnnulusPoints(EndArcCorners(arc, inner, outer), Concat(inner), Concat(outer))
  }

  /** The edge from vertex i to the next one, wrapping to the start, is
      axis-parallel. */
  predicate EdgeAligned(s: seq<Point>, i: nat)
    requires i < |s|
  {
    AxisAligned(s[i], s[(i + 1) % |s|])
  }

  /** Every edge of the closed outline s is axis-parallel. */
  predicate Rectilinear(s: seq<Point>)
  {
    forall i :: 0 <= i < |s| ==> EdgeAligned(s, i)
  }

  /** The outline has 2 + 3 * (inner + outer groups) vertices: the begin
      corner, the inner arc's groups forwards, the end corner, and the outer
      arc's groups backwards. */
  lemma OutlineLayout(arc: Arc, inner: seq<seq<Point>>, outer: seq<seq<Point>>)
    requires |inner| > 0 && |outer| > 0 && Groups(inner) && Groups(outer)
    ensures |Outline(arc, inner, outer)| == 2 + 3 * (|inner| + |outer|)
    ensures Outline(arc, inner, outer)[0] == EndArcCorners(arc, inner, outer)[0]
    ensures Outline(arc, inner, outer)[1 + 3 * |inner|] == EndArcCorners(arc, inner, outer)[1]
    ensures forall i, j :: 0 <= i < |inner| && 0 <= j < 3 ==>
      Outline(arc, inner, outer)[1 + 3 * i + j] == inner[i][j]
    ensures forall i, j :: 0 <= i < |outer| && 0 <= j < 3 ==>
      Outline(arc, inner, outer)[|Outline(arc, inner, outer)| - 1 - 3 * i - j] == outer[i][j]
  {
    OutlineInner(arc, inner, outer);
    OutlineOuter(arc, inner, outer);
  }

  lemma OutlineInner(arc: Arc, inner: seq<seq<Point>>, outer: seq<seq<Point>>)
    requires |inner| > 0 && |outer| > 0 && Groups(inner) && Groups(outer)
    ensures |Outline(arc, inner, outer)| == 2 + 3 * (|inner| + |outer|)
    ensures Outline(arc, inner, outer)[0] == EndArcCorners(arc, inner, outer)[0]
    ensures Outline(arc, inner, outer)[1 + 3 * |inner|] == EndArcCorners(arc, inner, outer)[1]
    ensures forall i, j :: 0 <= i < |inner| && 0 <= j < 3 ==>
      Outline(arc, inner, outer)[1 + 3 * i + j] == inner[i][j]
  {
    var cs := EndArcCorners(arc, inner, outer);
    var ip := Concat(inner);
    var a := Outline(arc, inner, outer);
    ConcatAt(inner);
    ConcatAt(outer);
    assert a == [cs[0]] + ip + [cs[1]] + Reverse(Concat(outer));
    forall i, j | 0 <= i < |inner| && 0 <= j < 3
      ensures a[1 + 3 * i + j] == inner[i][j]
    {
      assert a[1 + 3 * i + j] == ip[3 * i + j];
    }
  }

  lemma OutlineOuter(arc: Arc, inner: seq<seq<Point>>, outer: seq<seq<Point>>)
    requires |inner| > 0 && |outer| > 0 && Groups(inner) && Groups(outer)
    ensures |Outline(arc, inner, outer)| == 2 + 3 * (|inner| + |outer|)
    ensures forall i, j :: 0 <= i < |outer| && 0 <= j < 3 ==>
      Outline(arc, inner, outer)[|Outline(arc, inner, outer)| - 1 - 3 * i - j] == outer[i][j]
  {
    var cs := EndArcCorners(arc, inner, outer);
    var op := Concat(outer);
    var a := Outline(arc, inner, outer);
    ConcatAt(inner);
    ConcatAt(outer);
    ReverseIsBackwards(op);
    var n := |a|;
    var tail := Reverse(op);
    assert a == ([cs[0]] + Concat(inner) + [cs[1]]) + tail;
    forall i, j | 0 <= i < |outer| && 0 <= j < 3
      ensures a[n - 1 - 3 * i - j] == outer[i][j]
    {
      var k := 3 * |outer| - 1 - 3 * i - j;
      assert a[n - 1 - 3 * i - j] == tail[k];
      assert tail[k] == op[3 * i + j];
    }
  }

  /** When each arc's groups join up, every edge of the outline, the closing
      one included, is axis-parallel: the outline is a rectilinear polygon. */
  lemma OutlineRectilinear(arc: Arc, inner: seq<seq<Point>>, outer: seq<seq<Point>>)
    requires |inner| > 0 && |outer| > 0 && Groups(inner) && Groups(outer)
    requires Joined(inner) && Joined(outer)
    ensures Rectilinear(Outline(arc, inner, outer))
  {
    var a := Outline(arc, inner, outer);
    OutlineLayout(arc, inner, outer);
    var cs := EndArcCorners(arc, inner, outer);
    forall k | 0 <= k < |a|
      ensures EdgeAligned(a, k)
    {
      LayoutEdge(a, cs, inner, outer, k);
    }
  }

  /** The outline's vertex list: the two corners, the inner groups forwards
      from index 1, and the outer groups backwards from the last index. */
  predicate LaidOut(a: seq<Point>, cs: seq<Point>, inner: seq<seq<Point>>, outer: seq<seq<Point>>)
    requires Groups(inner) && Groups(outer) && |cs| == 2
  {
    |a| == 2 + 3 * (|inner| + |outer|) &&
    a[0] == cs[0] && a[1 + 3 * |inner|] == cs[1] &&
    (forall i, j :: 0 <= i < |inner| && 0 <= j < 3 ==> a[1 + 3 * i + j] == inner[i][j]) &&
    (forall i, j :: 0 <= i < |outer| && 0 <= j < 3 ==> a[|a| - 1 - 3 * i - j] == outer[i][j])
  }

  lemma NextIndex(k: nat, n: nat)
    requires k < n
    ensures (k + 1) % n == if k == n - 1 then 0 else k + 1
  {
  }

  /** One edge of a vertex list laid out as the outline is. */
  lemma LayoutEdge(a: seq<Point>, cs: seq<Point>, inner: seq<seq<Point>>, outer: seq<seq<Point>>, k: nat)
    requires |inner| > 0 && |outer| > 0 && Groups(inner) && Groups(outer)
    requires Joined(inner) && Joined(outer)
    requires |cs| == 2
    requires IsBoxCorner(cs[0], inner[0][0], outer[0][0])
    requires IsBoxCorner(cs[1], inner[|inner| - 1][2], outer[|outer| - 1][2])
    requires LaidOut(a, cs, inner, outer)
    requires k < |a|
    ensures EdgeAligned(a, k)
  {
    var n, ni, no := |a|, |inner|, |outer|;
    NextIndex(k, n);
    if k == n - 1 {
      assert a[n - 1 - 3 * 0 - 0] == outer[0][0];
    } else if k == 0 {
      assert a[1 + 3 * 0 + 0] == inner[0][0];
    } else if k < 3 * ni {
      InnerEdge(a, inner, k - 1);
    } else if k == 3 * ni {
      assert a[1 + 3 * (ni - 1) + 2] == inner[ni - 1][2];
    } else if k == 1 + 3 * ni {
      assert a[n - 1 - 3 * (no - 1) - 2] == outer[no - 1][2];
    } else {
      OuterEdge(a, outer, n - 2 - k);
    }
  }

  /** Within the inner run, consecutive vertices share a coordinate. */
  lemma InnerEdge(a: seq<Point>, inner: seq<seq<Point>>, m: nat)
    requires Groups(inner) && Joined(inner)
    requires |a| >= 1 + 3 * |inner|
    requires forall i, j :: 0 <= i < |inner| && 0 <= j < 3 ==> a[1 + 3 * i + j] == inner[i][j]
    requires m + 1 < 3 * |inner|
    ensures AxisAligned(a[1 + m], a[2 + m])
  {
    var i, j := m / 3, m % 3;
    assert m == 3 * i + j;
    assert a[1 + 3 * i + j] == inner[i][j];
    if j < 2 {
      assert a[1 + 3 * i + (j + 1)] == inner[i][j + 1];
    } else {
      assert a[1 + 3 * (i + 1) + 0] == inner[i + 1][0];
    }
  }

  /** Within the reversed outer run, consecutive vertices share a coordinate;
      m counts the position of the edge's end from the back. */
  lemma OuterEdge(a: seq<Point>, outer: seq<seq<Point>>, m: nat)
    requires Groups(outer) && Joined(outer)
    requires |a| >= 3 * |outer|
    requires forall i, j :: 0 <= i < |outer| && 0 <= j < 3 ==> a[|a| - 1 - 3 * i - j] == outer[i][j]
    requires m + 1 < 3 * |outer|
    ensures AxisAligned(a[|a| - 2 - m], a[|a| - 1 - m])
  {
    var i, j := m / 3, m % 3;
    assert m == 3 * i + j;
    assert a[|a| - 1 - 3 * i - j] == outer[i][j];
    if j < 2 {
      assert a[|a| - 1 - 3 * i - (j + 1)] == outer[i][j + 1];
    } else {
      assert a[|a| - 1 - 3 * (i + 1) - 0] == outer[i + 1][0];
    }
  }


  /** The outline of a segment, built from the groups of its two arcs, has
      2 + 3 * (inner steps + outer steps) vertices, and every edge of it is
      axis-parallel. */
  lemma SegmentOutlineRectilinear(trig: Trig, arc: Arc, innerArc: Arc, outerArc: Arc)
    ensures |Outline(arc, VertexPoints(trig, innerArc), VertexPoints(trig, outerArc))|
         == 2 + 3 * (StepCount(innerArc) + StepCount(outerArc))
    ensures Rectilinear(Outline(arc, VertexPoints(trig, innerArc), VertexPoints(trig, outerArc)))
  {
    VertexPointsJoined(trig, innerArc);
    VertexPointsJoined(trig, outerArc);
    OutlineLayout(arc, VertexPoints(trig, innerArc), VertexPoints(trig, outerArc));
    OutlineRectilinear(arc, VertexPoints(trig, innerArc), VertexPoints(trig, outerArc));
  }

  // ---------------------------------------------------------------------
  // Bricks for wedges and rectangles

  /** The wedge brick for a polygon built from a vertex group, as the source
      reads it off the polygon: none when the box is flat; otherwise rotated
      half a turn when the right angle is on the box's top edge, and facing
      +Z when the right angle is the box's lower or upper corner. */
  function WedgeBrick(rgb: Rgb, wedge: Polygon): (b: Option<Brick>)
    reads wedge
    requires |wedge.points| > 1
    ensures b.Some? <==> wedge.size.x != 0 && wedge.size.y != 0
    ensures b.Some? ==> b.value.asset == MicroWedge && b.value.colour == rgb
    ensures b.Some? && wedge.min.x <= wedge.max.x && wedge.min.y <= wedge.max.y &&
      wedge.size == SizeOf(wedge.min, wedge.max) && wedge.position == PositionOf(wedge.min, wedge.size)
      ==> Spans(b.value, wedge.min, wedge.max)
  {
    var p90 := wedge.points[1];
    if wedge.size.x != 0 && wedge.size.y != 0 then
      Some(Brick(MicroWedge, rgb, BrickSize(wedge.size.x, wedge.size.y, 100),
                 BrickPosition(wedge.position.x, wedge.position.y, 100),
                 if p90.y == wedge.max.y then Deg180 else Deg0,
                 if p90 == wedge.min || p90 == wedge.max then ZPositive else ZNegative))
    else
      None
  }

  /** The wedge brick described by the group's own geometry: it spans the box
      of the chord from g[0] to g[2], is absent when the chord is axis-parallel,
      and its orientation records which box corner holds the right angle. */
  function GroupBrick(rgb: Rgb, g: seq<Point>): (b: Option<Brick>)
    requires IsGroup(g)
    ensures b.None? <==> AxisAligned(g[0], g[2])
    ensures b.Some? ==> b.value.asset == MicroWedge && b.value.colour == rgb
    ensures b.Some? ==> Spans(b.value, Lower(g[0], g[2]), Upper(g[0], g[2]))
  {
    var lo, hi := Lower(g[0], g[2]), Upper(g[0], g[2]);
    if AxisAligned(g[0], g[2]) then None
    else
      Some(Brick(MicroWedge, rgb,
                 BrickSize(Abs(g[2].x - g[0].x), Abs(g[2].y - g[0].y), 100),
                 BrickPosition(g[0].x + g[2].x, g[0].y + g[2].y, 100),
                 if g[1].y == hi.y then Deg180 else Deg0,
                 if g[1] == lo || g[1] == hi then ZPositive else ZNegative))
  }

  /** The four corners where the right angle can sit get four different
      orientations, so a wedge brick always points the way its group does. */
  lemma OrientationNamesCorner(rgb: Rgb, g: seq<Point>)
    requires IsGroup(g) && !AxisAligned(g[0], g[2])
    ensures var b := GroupBrick(rgb, g).value;
      var lo, hi := Lower(g[0], g[2]), Upper(g[0], g[2]);
      (g[1] == lo <==> b.rotation == Deg0 && b.direction == ZPositive) &&
      (g[1] == hi <==> b.rotation == Deg180 && b.direction == ZPositive) &&
      (g[1] == Point(lo.x, hi.y) <==> b.rotation == Deg180 && b.direction == ZNegative) &&
      (g[1] == Point(hi.x, lo.y) <==> b.rotation == Deg0 && b.direction == ZNegative)
  {
  }

  /** The bounding box of a vertex group is the box of its chord. */
  lemma GroupBox(g: seq<Point>, lo: Point, hi: Point)
    requires IsGroup(g)
    requires IsLowerCorner(lo, g) && IsUpperCorner(hi, g)
    ensures lo == Lower(g[0], g[2]) && hi == Upper(g[0], g[2])
  {
    assert forall p :: p in g ==> p == g[0] || p == g[1] || p == g[2];
  }

  /** Reading the brick off a polygon built from a group agrees with the
      group's own description. */
  lemma WedgeBrickOfGroup(rgb: Rgb, wedge: Polygon)
    requires IsGroup(wedge.points)
    requires IsLowerCorner(wedge.min, wedge.points) && IsUpperCorner(wedge.max, wedge.points)
    requires wedge.size == SizeOf(wedge.min, wedge.max)
    requires wedge.position == PositionOf(wedge.min, wedge.size)
    ensures WedgeBrick(rgb, wedge) == GroupBrick(rgb, wedge.points)
  {
    GroupBox(wedge.points, wedge.min, wedge.max);
  }

  /** The wedge bricks of the groups, in order, skipping flat ones. */
  function WedgeBricks(rgb: Rgb, gs: seq<seq<Point>>): (bs: seq<Brick>)
    requires Groups(gs)
    ensures |bs| <= |gs|
  {
    if |gs| == 0 then []
    else
      var init := gs[..|gs| - 1];
      assert Groups(init);
      var b := GroupBrick(rgb, gs[|gs| - 1]);
      WedgeBricks(rgb, init) + (if b.Some? then [b.value] else [])
  }

  /** The brick for one rectangle of the decomposition: it spans the rectangle. */
  function RectangleBrick(rgb: Rgb, r: seq<Point>): (b: Brick)
    requires IsRectangle(r)
    ensures b.asset == MicroBrick && b.colour == rgb
    ensures Spans(b, r[0], r[2])
  {
    var size := SizeOf(r[0], r[2]);
    var position := PositionOf(r[0], size);
    Brick(MicroBrick, rgb, BrickSize(size.x, size.y, 100), BrickPosition(position.x, position.y, 100),
          Deg0, ZPositive)
  }

  predicate AllRectangles(rs: seq<seq<Point>>)
  {
    forall i :: 0 <= i < |rs| ==> IsRectangle(rs[i])
  }

  function RectangleBricks(rgb: Rgb, rs: seq<seq<Point>>): (bs: seq<Brick>)
    requires AllRectangles(rs)
    ensures |bs| == |rs|
    ensures forall i :: 0 <= i < |rs| ==> Spans(bs[i], rs[i][0], rs[i][2])
  {
    seq(|rs|, i requires 0 <= i < |rs| => RectangleBrick(rgb, rs[i]))
  }

  // ---------------------------------------------------------------------
  // Building the segment

  /** One arc's pass of the build loop: a polygon per group, its brick when it
      has one, and the group's points appended to the arc's vertex list. */
  method ArcWedges(trig: Trig, rgb: Rgb, arc: Arc)
    returns (wedges: seq<seq<Point>>, vertices: seq<Point>, bricks: seq<Brick>)
    ensures wedges == VertexPoints(trig, arc)
    ensures vertices == Concat(wedges)
    ensures bricks == WedgeBricks(rgb, wedges)
  {
    wedges, vertices, bricks := CollectWedges(rgb, VertexPoints(trig, arc));
  }

  /** The loop over the groups of one arc. */
  method CollectWedges(rgb: Rgb, groups: seq<seq<Point>>)
    returns (wedges: seq<seq<Point>>, vertices: seq<Point>, bricks: seq<Brick>)
    requires Groups(groups)
    ensures wedges == groups
    ensures vertices == Concat(wedges)
    ensures bricks == WedgeBricks(rgb, wedges)
  {
    wedges, vertices, bricks := [], [], [];
    var i := 0;
    while i < |groups|
      invariant 0 <= i <= |groups|
      invariant wedges == groups[..i]
      invariant Groups(wedges)
      invariant vertices == Concat(wedges)
      invariant bricks == WedgeBricks(rgb, wedges)
    {
      var group := groups[i];
      var wedge, brick := Wedge(rgb, group);
      WedgesGrow(rgb, wedges, group);
      if brick.Some? {
        bricks := bricks + [brick.value];
      }
      wedges := wedges + [wedge];
      vertices := vertices + wedge;
      assert groups[..i + 1] == groups[..i] + [group];
      i := i + 1;
    }
    assert groups[..i] == groups;
  }

  /** The wedge polygon of one group, and its brick as read off the polygon. */
  method Wedge(rgb: Rgb, group: seq<Point>) returns (points: seq<Point>, brick: Option<Brick>)
    requires IsGroup(group) && AllInI32(group)
    ensures points == group
    ensures brick == GroupBrick(rgb, group)
  {
    var wedge := new Polygon(group);
    WedgeBrickOfGroup(rgb, wedge);
    brick := WedgeBrick(rgb, wedge);
    points := wedge.points;
  }

  lemma WedgesGrow(rgb: Rgb, gs: seq<seq<Point>>, g: seq<Point>)
    requires Groups(gs) && IsGroup(g) && AllInI32(g)
    ensures Groups(gs + [g])
    ensures Concat(gs + [g]) == Concat(gs) + g
    ensures WedgeBricks(rgb, gs + [g]) == WedgeBricks(rgb, gs) + (if GroupBrick(rgb, g).Some? then [GroupBrick(rgb, g).value] else [])
  {
    assert (gs + [g])[..|gs|] == gs;
  }

  /** The outline polygon: made from no points, then the begin corner, the
      inner points, the end corner and the outer points reversed in place. */
  method OutlinePolygon(corners: seq<Point>, innerPoints: seq<Point>, outerPoints: seq<Point>)
    returns (polygon: Polygon)
    requires |corners| == 2
    ensures fresh(polygon)
    ensures polygon.Valid()
    ensures polygon.points == AnnulusPoints(corners, innerPoints, outerPoints)
    ensures Bounded(polygon.min, polygon.max, [Point(0, 0)] + polygon.points)
  {
    // The source destructures the pair the other way round (its local named
    // for the end corner holds the begin corner); the order pushed is the same.
    var beginCorner, endCorner := corners[0], corners[1];
    polygon := new Polygon([]);
    assert polygon.Valid() && polygon.points == [] && polygon.anchor == [Point(0, 0)];
    polygon.Push(beginCorner);
    assert polygon.Valid() && polygon.points == [beginCorner];
    polygon.Extend(innerPoints);
    assert polygon.Valid() && polygon.points == [beginCorner] + innerPoints;
    polygon.Push(endCorner);
    assert polygon.Valid() && polygon.points == [beginCorner] + innerPoints + [endCorner];
    var reversed := Reverse(outerPoints);
    polygon.Extend(reversed);
  }

  /** One rectangle brick per rectangle, appended in order. */
  method AppendRectangleBricks(rgb: Rgb, bricks: seq<Brick>, rectangles: seq<seq<Point>>)
    returns (result: seq<Brick>)
    requires AllRectangles(rectangles)
    ensures result == bricks + RectangleBricks(rgb, rectangles)
  {
    result := bricks;
    var i := 0;
    while i < |rectangles|
      invariant 0 <= i <= |rectangles|
      invariant result == bricks + RectangleBricks(rgb, rectangles[..i])
    {
      assert AllRectangles(rectangles[..i + 1]);
      result := result + [RectangleBrick(rgb, rectangles[i])];
      i := i + 1;
    }
    assert rectangles[..i] == rectangles;
  }

  /** Builds the wedges along both arcs, closes the outline between them with
      the two end corners, decomposes it into rectangles, and appends to the
      brick list the rectangle bricks and then the inner and outer wedge bricks.
      The outline polygon starts from no points, so its bounds also hold the
      origin. */
  method BuildWedgesAndRectangles(trig: Trig, wa: WedgeArc, innerArc: Arc, outerArc: Arc, bricks: seq<Brick>)
    returns (result: seq<Brick>, outline: seq<Point>, lo: Point, hi: Point,
             rectangles: seq<seq<Point>>)
    ensures outline == Outline(wa.arc, VertexPoints(trig, innerArc), VertexPoints(trig, outerArc))
    ensures Bounded(lo, hi, [Point(0, 0)] + outline)
    ensures forall q :: CoverCount(rectangles, q) == if Inside(outline, lo, hi, q) then 1 else 0
    ensures forall i :: 0 <= i < |rectangles| ==> Fits(rectangles[i])
    ensures AllRectangles(rectangles)
    ensures result == bricks + RectangleBricks(wa.rgb, rectangles)
                     + (WedgeBricks(wa.rgb, VertexPoints(trig, innerArc)) + WedgeBricks(wa.rgb, VertexPoints(trig, outerArc)))
  {
    var innerWedges, innerPoints, innerBricks := ArcWedges(trig, wa.rgb, innerArc);
    var outerWedges, outerPoints, outerBricks := ArcWedges(trig, wa.rgb, outerArc);
    var wedgeBricks := innerBricks + outerBricks;

    var squares;
    squares, outline, lo, hi := OutlineSquares(wa.arc, innerWedges, innerPoints, outerWedges, outerPoints);
    rectangles := squares;
    result := AppendRectangleBricks(wa.rgb, bricks, squares);
    result := result + wedgeBricks;
  }

  /** The outline between the two rows of wedges, closed by the two end
      corners, and its decomposition into rectangles. */
  method OutlineSquares(arc: Arc, innerWedges: seq<seq<Point>>, innerPoints: seq<Point>,
                        outerWedges: seq<seq<Point>>, outerPoints: seq<Point>)
    returns (squares: seq<seq<Point>>, outline: seq<Point>, lo: Point, hi: Point)
    requires |innerWedges| > 0 && |outerWedges| > 0 && Groups(innerWedges) && Groups(outerWedges)
    requires innerPoints == Concat(innerWedges) && outerPoints == Concat(outerWedges)
    ensures outline == Outline(arc, innerWedges, outerWedges)
    ensures Bounded(lo, hi, [Point(0, 0)] + outline)
    ensures forall q :: CoverCount(squares, q) == if Inside(outline, lo, hi, q) then 1 else 0
    ensures forall i :: 0 <= i < |squares| ==> Fits(squares[i])
    ensures AllRectangles(squares)
  {
    var corners := EndArcCorners(arc, innerWedges, outerWedges);
    var polygon := OutlinePolygon(corners, innerPoints, outerPoints);
    outline, lo, hi := polygon.points, polygon.min, polygon.max;
    ghost var grid, starts;
    squares, grid, starts := RenderAsSquares(polygon);
    assert AllRectangles(squares);
  }

  /** Builds one segment: the inner arc is the outer arc moved in by the
      thickness, stopping at radius zero. */
  method Compute(trig: Trig, wa: WedgeArc, bricks: seq<Brick>)
    returns (result: seq<Brick>, outline: seq<Point>, lo: Point, hi: Point,
             rectangles: seq<seq<Point>>)
    ensures forall i :: 0 <= i < |rectangles| ==> Fits(rectangles[i])
    ensures AllRectangles(rectangles)
    ensures var inner := Concentric(wa.arc, SaturatingSub(wa.arc.radius, wa.radiusGap));
      outline == Outline(wa.arc, VertexPoints(trig, inner), VertexPoints(trig, wa.arc)) &&
      result == bricks + RectangleBricks(wa.rgb, rectangles)
                       + (WedgeBricks(wa.rgb, VertexPoints(trig, inner)) + WedgeBricks(wa.rgb, VertexPoints(trig, wa.arc)))
    ensures Bounded(lo, hi, [Point(0, 0)] + outline)
    ensures forall q :: CoverCount(rectangles, q) == if Inside(outline, lo, hi, q) then 1 else 0
  {
    var outerArc := wa.arc;
    var innerRadius := SaturatingSub(outerArc.radius, wa.radiusGap);
    var innerArc := Concentric(outerArc, innerRadius);
    result, outline, lo, hi, rectangles := BuildWedgesAndRectangles(trig, wa, innerArc, outerArc, bricks);
  }
}
