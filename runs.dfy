/** Grouping the walls of one ring into runs before they are drawn: along a
    ring, consecutive divisions whose inner wall stands become one arc, and
    so do consecutive outer walls of the last ring. Only the division indices
    are modelled; the angles and radii they turn into are left out. */
module WallRuns {
  import opened Cells
  import Arcs

  /** Which of the ring's two circles a run lies on. */
  datatype Layer = Inner | Outer

  /** A run of walls on one layer covering divisions start up to, not
      including, end. */
  datatype Span = Span(layer: Layer, start: nat, end: nat)

  /** Whether a cell shows a wall on the given layer: the inner wall always,
      the outer wall only in the last ring. */
  function IsWall(c: Cell, lastRing: bool, layer: Layer): bool
  {
    match layer
    case Inner => c.innerWall
    case Outer => lastRing && c.outerWall
  }

  /** The wall flags of one layer along the ring. */
  function Walls(cells: seq<Cell>, lastRing: bool, layer: Layer): (w: seq<bool>)
    ensures |w| == |cells|
    ensures forall d :: 0 <= d < |cells| ==> w[d] == IsWall(cells[d], lastRing, layer)
  {
    seq(|cells|, d requires 0 <= d < |cells| => IsWall(cells[d], lastRing, layer))
  }

  /** The runs of one layer, in the order they appear among all spans. */
  function Of(spans: seq<Span>, layer: Layer): seq<(nat, nat)>
  {
    if spans == [] then []
    else
      var last := spans[|spans| - 1];
      Of(spans[..|spans| - 1], layer) + (if last.layer == layer then [(last.start, last.end)] else [])
  }

  lemma OfAppend(spans: seq<Span>, s: Span, layer: Layer)
    ensures Of(spans + [s], layer) == Of(spans, layer) + (if s.layer == layer then [(s.start, s.end)] else [])
  {
    assert (spans + [s])[..|spans|] == spans;
  }

  // ---------------------------------------------------------------------
  // What a grouping into runs is

  /** A run that cannot be extended: walls all along it, no wall just
      before it and none just after it. */
  ghost predicate MaximalRun(w: seq<bool>, r: (nat, nat))
  {
    r.0 < r.1 <= |w| &&
    (forall x :: r.0 <= x < r.1 ==> w[x]) &&
    (r.0 == 0 || !w[r.0 - 1]) &&
    (r.1 == |w| || !w[r.1])
  }

  /** Every wall of the layer lies in some run. */
  ghost predicate Covers(w: seq<bool>, runs: seq<(nat, nat)>, x: nat)
  {
    exists i :: 0 <= i < |runs| && runs[i].0 <= x < runs[i].1
  }

  /** The runs of a layer: maximal, in increasing order with gaps between
      them, and covering every wall of the layer. */
  ghost predicate RunsOf(w: seq<bool>, runs: seq<(nat, nat)>)
  {
    (forall i :: 0 <= i < |runs| ==> MaximalRun(w, runs[i])) &&
    (forall i, j :: 0 <= i < j < |runs| ==> runs[i].1 < runs[j].0) &&
    (forall x :: 0 <= x < |w| && w[x] ==> Covers(w, runs, x))
  }

  /** The order spans are emitted in: by where they end, and an inner run
      before an outer one ending at the same division. */
  ghost predicate Emitted(spans: seq<Span>)
  {
    forall i, j :: 0 <= i < j < |spans| ==>
      spans[i].end < spans[j].end ||
      (spans[i].end == spans[j].end && spans[i].layer == Inner && spans[j].layer == Outer)
  }

  /** The grouping of one ring's walls: the runs of each layer, emitted in
      order. */
  ghost predicate Grouping(cells: seq<Cell>, lastRing: bool, spans: seq<Span>)
  {
    RunsOf(Walls(cells, lastRing, Inner), Of(spans, Inner)) &&
    RunsOf(Walls(cells, lastRing, Outer), Of(spans, Outer)) &&
    Emitted(spans)
  }

  // ---------------------------------------------------------------------
  // The loop over one ring

  /** The tracker of one layer after the divisions before d: the runs found
      so far are maximal and end before d, and start is where the run still
      open began, if one is. */
  ghost predicate Tracking(w: seq<bool>, runs: seq<(nat, nat)>, start: Arcs.Option<nat>, d: nat)
  {
    d <= |w| &&
    (forall i :: 0 <= i < |runs| ==> MaximalRun(w, runs[i]) && runs[i].1 < d) &&
    (forall i, j :: 0 <= i < j < |runs| ==> runs[i].1 < runs[j].0) &&
    (match start
     case None => d == 0 || !w[d - 1]
     case Some(s) =>
       s < d && (forall x :: s <= x < d ==> w[x]) && (s == 0 || !w[s - 1]) &&
       (forall i :: 0 <= i < |runs| ==> runs[i].1 < s)) &&
    (forall x :: 0 <= x < d && w[x] && !(start.Some? && start.value <= x) ==> Covers(w, runs, x))
  }

  lemma CoversAppend(w: seq<bool>, runs: seq<(nat, nat)>, r: (nat, nat), x: nat)
    requires Covers(w, runs, x) || r.0 <= x < r.1
    ensures Covers(w, runs + [r], x)
  {
    if Covers(w, runs, x) {
      var i :| 0 <= i < |runs| && runs[i].0 <= x < runs[i].1;
      assert (runs + [r])[i] == runs[i];
    } else {
      assert (runs + [r])[|runs|] == r;
    }
  }

  /** One division of one layer: a wall opens a run if none is open; a gap
      closes the open run at d. */
  lemma {:induction false} TrackStep(w: seq<bool>, runs: seq<(nat, nat)>, start: Arcs.Option<nat>, d: nat,
                                     runs': seq<(nat, nat)>, start': Arcs.Option<nat>)
    requires Tracking(w, runs, start, d) && d < |w|
    requires w[d] ==> runs' == runs && start' == (if start.None? then Arcs.Some(d) else start)
    requires !w[d] ==>
      start' == Arcs.None && runs' == (if start.Some? then runs + [(start.value, d)] else runs)
    ensures Tracking(w, runs', start', d + 1)
  {
    if w[d] {
      assert forall x :: 0 <= x < d + 1 && w[x] && !(start'.Some? && start'.value <= x) ==>
        x < d && !(start.Some? && start.value <= x);
    } else if start.Some? {
      var s := start.value;
      assert MaximalRun(w, (s, d));
      forall x | 0 <= x < d + 1 && w[x]
        ensures Covers(w, runs', x)
      {
        CoversAppend(w, runs, (s, d), x);
      }
    }
  }

  /** The end of the ring closes the run still open. */
  lemma {:induction false} TrackClose(w: seq<bool>, runs: seq<(nat, nat)>, start: Arcs.Option<nat>,
                                      runs': seq<(nat, nat)>)
    requires Tracking(w, runs, start, |w|)
    requires runs' == (if start.Some? then runs + [(start.value, |w|)] else runs)
    ensures RunsOf(w, runs')
  {
    if start.Some? {
      forall x | 0 <= x < |w| && w[x]
        ensures Covers(w, runs', x)
      {
        CoversAppend(w, runs, (start.value, |w|), x);
      }
    }
  }

  /** One division of one layer, on the spans of both layers. */
  method Track(layer: Layer, isWall: bool, start: Arcs.Option<nat>, d: nat, spans: seq<Span>,
               ghost w: seq<bool>)
    returns (start': Arcs.Option<nat>, spans': seq<Span>)
    requires d < |w| && w[d] == isWall && Tracking(w, Of(spans, layer), start, d)
    requires Emitted(spans)
    requires forall i :: 0 <= i < |spans| ==>
      spans[i].end < d || (spans[i].end == d && spans[i].layer == Inner && layer == Outer)
    ensures Tracking(w, Of(spans', layer), start', d + 1)
    ensures Of(spans', Other(layer)) == Of(spans, Other(layer))
    ensures Emitted(spans')
    ensures forall i :: 0 <= i < |spans'| ==>
      spans'[i].end < d || (spans'[i].end == d && (spans'[i].layer == Inner || layer == Outer))
  {
    start', spans' := start, spans;
    if isWall {
      if start.None? {
        start' := Arcs.Some(d);
      }
    } else if start.Some? {
      spans' := spans + [Span(layer, start.value, d)];
      OfAppend(spans, Span(layer, start.value, d), layer);
      OfAppend(spans, Span(layer, start.value, d), Other(layer));
      start' := Arcs.None;
    }
    TrackStep(w, Of(spans, layer), start, d, Of(spans', layer), start');
  }

  /** The run still open on one layer at the end of the ring is closed
      there. */
  method Close(layer: Layer, start: Arcs.Option<nat>, divisions: nat, spans: seq<Span>, ghost w: seq<bool>)
    returns (spans': seq<Span>)
    requires divisions == |w|
    requires Tracking(w, Of(spans, layer), start, |w|)
    requires Emitted(spans)
    requires forall i :: 0 <= i < |spans| ==>
      spans[i].end < |w| || (spans[i].end == |w| && spans[i].layer == Inner && layer == Outer)
    ensures RunsOf(w, Of(spans', layer))
    ensures Of(spans', Other(layer)) == Of(spans, Other(layer))
    ensures Emitted(spans')
    ensures forall i :: 0 <= i < |spans'| ==>
      spans'[i].end < |w| || (spans'[i].end == |w| && (spans'[i].layer == Inner || layer == Outer))
  {
    spans' := spans;
    if start.Some? {
      spans' := spans + [Span(layer, start.value, divisions)];
      OfAppend(spans, Span(layer, start.value, divisions), layer);
      OfAppend(spans, Span(layer, start.value, divisions), Other(layer));
    }
    TrackClose(w, Of(spans, layer), start, Of(spans', layer));
  }

  function Other(layer: Layer): (o: Layer)
    ensures o != layer
  {
    if layer == Inner then Outer else Inner
  }

  /** The state of the loop over a ring before division d: both trackers
      up to d, the spans emitted in order and all ending before d. */
  ghost predicate Scanning(cells: seq<Cell>, lastRing: bool, spans: seq<Span>,
                           innerStart: Arcs.Option<nat>, outerStart: Arcs.Option<nat>, d: nat)
  {
    Tracking(Walls(cells, lastRing, Inner), Of(spans, Inner), innerStart, d) &&
    Tracking(Walls(cells, lastRing, Outer), Of(spans, Outer), outerStart, d) &&
    Emitted(spans) &&
    (forall i :: 0 <= i < |spans| ==> spans[i].end < d)
  }

  /** Both layers at one division: the inner one first, then the outer. */
  method ScanDivision(cells: seq<Cell>, lastRing: bool, division: nat, spans: seq<Span>,
                      innerStart: Arcs.Option<nat>, outerStart: Arcs.Option<nat>)
    returns (spans': seq<Span>, innerStart': Arcs.Option<nat>, outerStart': Arcs.Option<nat>)
    requires division < |cells| && Scanning(cells, lastRing, spans, innerStart, outerStart, division)
    ensures Scanning(cells, lastRing, spans', innerStart', outerStart', division + 1)
  {
    var cell := cells[division];
    innerStart', spans' := Track(Inner, cell.innerWall, innerStart, division, spans, Walls(cells, lastRing, Inner));
    outerStart', spans' := Track(Outer, lastRing && cell.outerWall, outerStart, division, spans',
                                 Walls(cells, lastRing, Outer));
  }

  lemma ScanningStart(cells: seq<Cell>, lastRing: bool)
    ensures Scanning(cells, lastRing, [], Arcs.None, Arcs.None, 0)
  {
  }

  /** The end of the ring: the inner run still open is closed first, then
      the outer one. */
  method CloseRing(cells: seq<Cell>, lastRing: bool, spans: seq<Span>,
                   innerStart: Arcs.Option<nat>, outerStart: Arcs.Option<nat>)
    returns (spans': seq<Span>)
    requires Scanning(cells, lastRing, spans, innerStart, outerStart, |cells|)
    ensures Grouping(cells, lastRing, spans')
  {
    spans' := Close(Inner, innerStart, |cells|, spans, Walls(cells, lastRing, Inner));
    spans' := Close(Outer, outerStart, |cells|, spans', Walls(cells, lastRing, Outer));
  }

  /** The walls of one ring as the runs to draw: one tracker per layer walks
      the divisions in order, and the runs still open at the end of the ring
      are closed there. */
  method RingRuns(cells: seq<Cell>, lastRing: bool) returns (spans: seq<Span>)
    ensures Grouping(cells, lastRing, spans)
  {
    var innerStart: Arcs.Option<nat> := Arcs.None;
    var outerStart: Arcs.Option<nat> := Arcs.None;
    spans := [];
    var division := 0;
    ScanningStart(cells, lastRing);
    while division < |cells|
      invariant division <= |cells|
      invariant Scanning(cells, lastRing, spans, innerStart, outerStart, division)
    {
      spans, innerStart, outerStart := ScanDivision(cells, lastRing, division, spans, innerStart, outerStart);
      division := division + 1;
    }
    spans := CloseRing(cells, lastRing, spans, innerStart, outerStart);
  }

  // ---------------------------------------------------------------------
  // Properties of the grouping

  /** Outer runs are drawn only for the last ring. */
  lemma OuterOnlyInLastRing(cells: seq<Cell>, lastRing: bool, spans: seq<Span>)
    requires Grouping(cells, lastRing, spans)
    ensures !lastRing ==> Of(spans, Outer) == []
  {
    var w := Walls(cells, lastRing, Outer);
    var runs := Of(spans, Outer);
    assert runs != [] ==> w[runs[0].0];
    assert !lastRing ==> forall x :: 0 <= x < |w| ==> !w[x];
  }

  /** Each wall lies in exactly one run of its layer. */
  lemma CoveredOnce(w: seq<bool>, runs: seq<(nat, nat)>, x: nat)
    requires RunsOf(w, runs) && x < |w| && w[x]
    ensures exists i :: 0 <= i < |runs| && runs[i].0 <= x < runs[i].1
    ensures forall i, j ::
      0 <= i < |runs| && 0 <= j < |runs| && runs[i].0 <= x < runs[i].1 && runs[j].0 <= x < runs[j].1 ==> i == j
  {
    assert Covers(w, runs, x);
  }

  /** Runs do not wrap round the ring: when the walls at both ends of the
      ring stand but some division has none, the first run starts at 0 and
      the last ends at the last division, and they are different runs. */
  lemma NoWrap(w: seq<bool>, runs: seq<(nat, nat)>, gap: nat)
    requires RunsOf(w, runs)
    requires |w| >= 1 && w[0] && w[|w| - 1] && gap < |w| && !w[gap]
    ensures |runs| >= 2
    ensures runs[0].0 == 0 && runs[|runs| - 1].1 == |w|
  {
    assert Covers(w, runs, 0);
    var i :| 0 <= i < |runs| && runs[i].0 <= 0 < runs[i].1;
    assert Covers(w, runs, |w| - 1);
    var j :| 0 <= j < |runs| && runs[j].0 <= |w| - 1 < runs[j].1;
    assert runs[i].1 <= gap < runs[j].0;
    assert i == 0;
    assert j == |runs| - 1;
  }

  /** A maximal run is one of the runs of any grouping. */
  lemma MaximalRunIn(w: seq<bool>, runs: seq<(nat, nat)>, r: (nat, nat))
    requires RunsOf(w, runs) && MaximalRun(w, r)
    ensures r in runs
  {
    assert Covers(w, runs, r.0);
    var i :| 0 <= i < |runs| && runs[i].0 <= r.0 < runs[i].1;
    var q := runs[i];
    assert q.0 == r.0;
    assert q.1 == r.1;
  }

  /** Runs in increasing order with the same members are the same runs. */
  lemma {:induction false} SortedUnique(a: seq<(nat, nat)>, b: seq<(nat, nat)>)
    requires forall i, j :: 0 <= i < j < |a| ==> a[i].0 < a[j].0
    requires forall i, j :: 0 <= i < j < |b| ==> b[i].0 < b[j].0
    requires forall r :: r in a <==> r in b
    ensures a == b
    decreases |a|
  {
    FirstIsMember(a);
    FirstIsMember(b);
    if a != [] && b != [] {
      assert a[0] in b;
      assert b[0] in a;
      assert a[0] == b[0] by {
        var i :| 0 <= i < |b| && b[i] == a[0];
        var j :| 0 <= j < |a| && a[j] == b[0];
      }
      forall r
        ensures r in a[1..] <==> r in b[1..]
      {
        if r in a[1..] {
          var k :| 1 <= k < |a| && a[k] == r;
          assert a[0].0 < r.0;
          assert r in b;
          assert r != b[0];
          var m :| 0 <= m < |b| && b[m] == r;
          assert b[1..][m - 1] == r;
        }
        if r in b[1..] {
          var k :| 1 <= k < |b| && b[k] == r;
          assert b[0].0 < r.0;
          assert r in a;
          assert r != a[0];
          var m :| 0 <= m < |a| && a[m] == r;
          assert a[1..][m - 1] == r;
        }
      }
      SortedUnique(a[1..], b[1..]);
      assert a == [a[0]] + a[1..];
      assert b == [b[0]] + b[1..];
    }
  }

  lemma FirstIsMember(s: seq<(nat, nat)>)
    ensures s != [] ==> s[0] in s
  {
  }

  /** The runs of a layer are determined by its walls. */
  lemma RunsUnique(w: seq<bool>, a: seq<(nat, nat)>, b: seq<(nat, nat)>)
    requires RunsOf(w, a) && RunsOf(w, b)
    ensures a == b
  {
    forall r
      ensures r in a <==> r in b
    {
      if r in a {
        MaximalRunIn(w, b, r);
      }
      if r in b {
        MaximalRunIn(w, a, r);
      }
    }
    SortedUnique(a, b);
  }

  /** After generation the outer wall stands everywhere but at the entrance,
      division 0 of the last ring, so the outer wall is drawn as one run from
      division 1 to the end of the ring. */
  lemma EntranceGap(cells: seq<Cell>, spans: seq<Span>)
    requires Grouping(cells, true, spans)
    requires forall d :: 0 <= d < |cells| ==> (cells[d].outerWall <==> d != 0)
    ensures Of(spans, Outer) == (if |cells| >= 2 then [(1, |cells|)] else [])
  {
    var w := Walls(cells, true, Outer);
    var expected: seq<(nat, nat)> := if |cells| >= 2 then [(1, |cells|)] else [];
    forall x | 0 <= x < |w| && w[x]
      ensures Covers(w, expected, x)
    {
      assert expected[0].0 <= x < expected[0].1;
    }
    RunsUnique(w, Of(spans, Outer), expected);
  }
}
