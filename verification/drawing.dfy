/**
  The freehand drawing item's pointer handling (teclab/image_items.py, lines
  59-60 and 70-140): the kernel a click or a drag installs, the
  previous-point state machine that fills the gap between drag samples, and
  the pixels a stroke paints.

  The item's state is the previous rounded pointer position, or none, and the
  kernel last installed. Each event yields the new state and the centres it
  stamps, in drawing order; a centre is stamped with the installed kernel.
 */
module Drawing {
  import opened Wrappers
  import opened SlopeBand
  import opened GapFill
  import BrushKernel

  datatype Button = LeftButton | RightButton | OtherButton

  /** The draw kernel installed on the item: none yet, the paint kernel, or the erase kernel (`kern * 0`). */
  datatype Mode = NoKernel | Paint | Erase

  datatype Stroke = Stroke(prev: Option<Point>, mode: Mode)

  /** One drag event, with its position already rounded to the pixel grid. */
  datatype DragEvent = DragEvent(button: Button, isStart: bool, isFinish: bool, pos: Point)

  datatype Outcome = Outcome(state: Stroke, stamps: seq<Point>)

  /** A new item: no previous point, no kernel installed. */
  const Initial: Stroke := Stroke(None, NoKernel)

  predicate Draws(button: Button) {
    button == LeftButton || button == RightButton
  }

  /** The kernel a left or right press installs; any other button leaves the installed one. */
  function Select(button: Button, current: Mode): Mode {
    match button
    case LeftButton => Paint
    case RightButton => Erase
    case OtherButton => current
  }

  /** Whether a move is axis-aligned: the gap fill is skipped and only the end point is stamped. */
  predicate AxisAligned(prev: Point, cur: Point) {
    prev.0 == cur.0 || prev.1 == cur.1
  }

  /** A click installs the kernel for its button and stamps the click position; it never touches the previous point. */
  function Click(s: Stroke, button: Button, pos: Point): (o: Outcome)
    ensures o.state.prev == s.prev
    ensures button == LeftButton ==> o.state.mode == Paint
    ensures button == RightButton ==> o.state.mode == Erase
    ensures Draws(button) <==> o.stamps == [pos]
    ensures !Draws(button) <==> o == Outcome(s, [])
  {
    if Draws(button) then Outcome(s.(mode := Select(button, s.mode)), [pos])
    else Outcome(s, [])
  }

  /** One call of the drag handler. */
  function Drag(s: Stroke, e: DragEvent): (o: Outcome)
    // The kernel changes only at the start of a left or right drag.
    ensures e.isStart && e.button == LeftButton ==> o.state.mode == Paint
    ensures e.isStart && e.button == RightButton ==> o.state.mode == Erase
    ensures !(e.isStart && Draws(e.button)) ==> o.state.mode == s.mode
    // Any other button does nothing at all.
    ensures !Draws(e.button) ==> o == Outcome(s, [])
    // A left or right event always stamps its own position first.
    ensures Draws(e.button) ==> |o.stamps| >= 1 && o.stamps[0] == e.pos
    // With no previous point, the position is stored, even on the finish event, and nothing is interpolated.
    ensures Draws(e.button) && s.prev.None? ==> o.state.prev == Some(e.pos) && |o.stamps| == 1
    // With a previous point, the position becomes the previous point, or none on the finish event.
    ensures Draws(e.button) && s.prev.Some? ==> o.state.prev == (if e.isFinish then None else Some(e.pos))
    // An axis-aligned move stamps only the end point.
    ensures Draws(e.button) && s.prev.Some? && AxisAligned(s.prev.value, e.pos) ==> |o.stamps| == 1
    // Otherwise the end point is followed by the gap fill.
    ensures Draws(e.button) && s.prev.Some? && !AxisAligned(s.prev.value, e.pos) ==>
              o.stamps[1..] == StampCentres(s.prev.value, e.pos)
  {
    var mode := if e.isStart then Select(e.button, s.mode) else s.mode;
    if !Draws(e.button) then Outcome(s, [])
    else
      match s.prev
      case None => Outcome(Stroke(Some(e.pos), mode), [e.pos])
      case Some(p) =>
        var next := if e.isFinish then None else Some(e.pos);
        if p.0 == e.pos.0 then Outcome(Stroke(next, mode), [e.pos])
        else if p.1 == e.pos.1 then Outcome(Stroke(next, mode), [e.pos])
        else Outcome(Stroke(next, mode), [e.pos] + StampCentres(p, e.pos))
  }

  /** A sequence of drag events delivered one after the other: the final state and every stamp, in drawing order. */
  function Replay(s: Stroke, es: seq<DragEvent>): Outcome
  {
    if |es| == 0 then Outcome(s, [])
    else
      var before := Replay(s, es[..|es| - 1]);
      var last := Drag(before.state, es[|es| - 1]);
      Outcome(last.state, before.stamps + last.stamps)
  }

  /** One press-drag-release gesture with a drawing button: a start event, moves, and a finish event. */
  predicate Gesture(es: seq<DragEvent>, button: Button) {
    && |es| >= 2
    && Draws(button)
    && (forall k :: 0 <= k < |es| ==> es[k].button == button)
    && es[0].isStart && (forall k :: 0 < k < |es| ==> !es[k].isStart)
    && es[|es| - 1].isFinish && (forall k :: 0 <= k < |es| - 1 ==> !es[k].isFinish)
  }

  /**
    Every interpolated stamp of a drag lies in the fill rectangle from the previous
    point toward the new one, no pixel is interpolated twice, and a diagonal move
    interpolates at most (|dx| - 1) * (|dy| - 1) stamps.
   */
  lemma DragStampsInRectangle(s: Stroke, e: DragEvent)
    requires Draws(e.button) && s.prev.Some?
    ensures forall k :: 1 <= k < |Drag(s, e).stamps| ==> InFillRectangle(s.prev.value, e.pos, Drag(s, e).stamps[k])
    ensures forall a, b :: 1 <= a < b < |Drag(s, e).stamps| ==> Drag(s, e).stamps[a] != Drag(s, e).stamps[b]
    ensures !AxisAligned(s.prev.value, e.pos) ==>
              |Drag(s, e).stamps| - 1 <= (Abs(e.pos.0 - s.prev.value.0) - 1) * (Abs(e.pos.1 - s.prev.value.1) - 1)
  {
    var p := s.prev.value;
    var o := Drag(s, e);
    if !AxisAligned(p, e.pos) {
      var fill := StampCentres(p, e.pos);
      assert o.stamps[1..] == fill;
      StampCentresCount(p, e.pos);
      forall k | 1 <= k < |o.stamps|
        ensures InFillRectangle(p, e.pos, o.stamps[k])
      {
        assert o.stamps[k] == fill[k - 1];
        StampCentresSound(p, e.pos, o.stamps[k]);
      }
      forall a, b | 1 <= a < b < |o.stamps|
        ensures o.stamps[a] != o.stamps[b]
      {
        assert o.stamps[a] == fill[a - 1] && o.stamps[b] == fill[b - 1];
      }
    } else {
      assert |o.stamps| == 1;
    }
  }

  /**
    Within a gesture, each event after the first connects to the position of the
    event before it: that position is the previous point the event starts from,
    and the kernel is the one the start event installed.
   */
  lemma {:induction false} GestureConnectsConsecutiveEvents(s: Stroke, es: seq<DragEvent>, button: Button, n: nat)
    requires Gesture(es, button)
    requires 1 <= n < |es|
    ensures Replay(s, es[..n]).state.prev == Some(es[n - 1].pos)
    ensures Replay(s, es[..n]).state.mode == Select(button, s.mode)
  {
    assert es[..n][..n - 1] == es[..n - 1];
    if n == 1 {
      assert es[..0] == [];
    } else {
      GestureConnectsConsecutiveEvents(s, es, button, n - 1);
    }
  }

  /**
    A gesture always ends with no previous point, whatever state it starts from,
    so the first event of the next gesture does not connect to this one.
   */
  lemma GestureEndsFresh(s: Stroke, es: seq<DragEvent>, button: Button)
    requires Gesture(es, button)
    ensures Replay(s, es).state.prev == None
    ensures Replay(s, es).state.mode == Select(button, s.mode)
    ensures forall e: DragEvent :: Draws(e.button) ==> |Drag(Replay(s, es).state, e).stamps| == 1
  {
    var n := |es|;
    GestureConnectsConsecutiveEvents(s, es, button, n - 1);
    assert es[..n] == es;
  }

  /** Every position of a sequence of left or right drag events is itself stamped. */
  lemma {:induction false} ReplayStampsEveryPosition(s: Stroke, es: seq<DragEvent>)
    requires forall k :: 0 <= k < |es| ==> Draws(es[k].button)
    ensures forall k :: 0 <= k < |es| ==> es[k].pos in Replay(s, es).stamps
  {
    if |es| > 0 {
      var front := es[..|es| - 1];
      ReplayStampsEveryPosition(s, front);
      var before := Replay(s, front);
      var last := Drag(before.state, es[|es| - 1]);
      assert last.stamps[0] == es[|es| - 1].pos;
      forall k | 0 <= k < |es|
        ensures es[k].pos in Replay(s, es).stamps
      {
        if k < |es| - 1 {
          assert es[k] == front[k];
          assert es[k].pos in before.stamps;
        } else {
          assert es[k].pos in last.stamps;
        }
      }
    }
  }

  /** Two pixels are 8-neighbours, or the same pixel. */
  predicate Adjacent(p: Point, q: Point) {
    -1 <= p.0 - q.0 <= 1 && -1 <= p.1 - q.1 <= 1
  }

  /**
    Pixel `p` lies in the disk of a `size` brush centred on one of the stamps, on
    an image large enough to hold them. For size >= 1 these are exactly the pixels
    the stamps write (`Raster.PaintedIffAnyCovers`): the kernel window never cuts
    the disk, and the mask is the disk.
   */
  predicate Painted(size: nat, stamps: seq<Point>, p: Point) {
    exists k :: 0 <= k < |stamps| && BrushKernel.InDisk(size, p.0 - stamps[k].0, p.1 - stamps[k].1)
  }

  /** A walk through painted pixels, each step to an 8-neighbour. */
  predicate PaintedPath(size: nat, stamps: seq<Point>, path: seq<Point>) {
    && |path| >= 1
    && (forall k :: 0 <= k < |path| ==> Painted(size, stamps, path[k]))
    && (forall k :: 0 <= k < |path| - 1 ==> Adjacent(path[k], path[k + 1]))
  }

  /** The size-3 brush is the centre and its four edge neighbours. */
  lemma SmallDisk(dx: int, dy: int)
    ensures BrushKernel.InDisk(3, dx, dy) <==> Abs(dx) + Abs(dy) <= 1
  {
    BrushKernel.InDiskIffInteger(3, dx, dy);
    SquareAtLeastAbs(dx);
    SquareAtLeastAbs(dy);
  }

  lemma SquareAtLeastAbs(a: int)
    ensures a * a >= Abs(a)
    ensures Abs(a) <= 1 ==> a * a == Abs(a)
  {
    if a >= 1 {
      assert a * a >= a * 1;
    } else if a <= -1 {
      assert a * a == (-a) * (-a) >= (-a) * 1;
    }
  }

  /** The stamps the code draws for a left drag from (0, 0) to (10, 3), in drawing order. */
  const WrittenLongShallow: seq<Point> := [(0, 0), (10, 3), (1, 0), (2, 0), (3, 0), (4, 0), (4, 1), (5, 1), (6, 1), (7, 1)]

  /** A size-3 stroke painted from these stamps has no 8-neighbours across the cut between x = 8 and x = 9. */
  lemma WrittenLongShallowCut(p: Point, q: Point)
    requires Painted(3, WrittenLongShallow, p) && Painted(3, WrittenLongShallow, q)
    requires p.0 <= 8 && 9 <= q.0
    ensures !Adjacent(p, q)
  {
    var k :| 0 <= k < |WrittenLongShallow| && BrushKernel.InDisk(3, p.0 - WrittenLongShallow[k].0, p.1 - WrittenLongShallow[k].1);
    var l :| 0 <= l < |WrittenLongShallow| && BrushKernel.InDisk(3, q.0 - WrittenLongShallow[l].0, q.1 - WrittenLongShallow[l].1);
    SmallDisk(p.0 - WrittenLongShallow[k].0, p.1 - WrittenLongShallow[k].1);
    SmallDisk(q.0 - WrittenLongShallow[l].0, q.1 - WrittenLongShallow[l].1);
  }

  /** A painted walk that starts left of the cut never crosses it. */
  lemma {:induction false} WrittenLongShallowStaysLeft(path: seq<Point>)
    requires PaintedPath(3, WrittenLongShallow, path)
    requires path[0].0 <= 8
    ensures path[|path| - 1].0 <= 8
  {
    if |path| > 1 {
      var front := path[..|path| - 1];
      assert PaintedPath(3, WrittenLongShallow, front);
      WrittenLongShallowStaysLeft(front);
      var n := |path| - 1;
      assert path[n - 1] == front[|front| - 1];
      if path[n].0 > 8 {
        WrittenLongShallowCut(path[n - 1], path[n]);
      }
    }
  }

  /** Replaying two events is the second event's step after the first's. */
  lemma ReplayTwo(s: Stroke, e0: DragEvent, e1: DragEvent)
    ensures var o0 := Drag(s, e0);
            var o1 := Drag(o0.state, e1);
            Replay(s, [e0, e1]) == Outcome(o1.state, o0.stamps + o1.stamps)
  {
    var es := [e0, e1];
    var o0 := Drag(s, e0);
    assert es[..1] == [e0];
    assert es[..1][..0] == [];
    assert Replay(s, es[..1]) == Outcome(o0.state, [] + o0.stamps);
    assert [] + o0.stamps == o0.stamps;
  }

  /** The start event of the drag from (0, 0) to (10, 3): it installs the paint kernel, stamps (0, 0) and stores it. */
  lemma WrittenLongShallowStart()
    ensures Drag(Initial, DragEvent(LeftButton, true, false, (0, 0))) == Outcome(Stroke(Some((0, 0)), Paint), [(0, 0)])
  {
  }

  /** The finish event of the drag from (0, 0) to (10, 3): it stamps (10, 3) and the gap fill, and forgets the point. */
  lemma WrittenLongShallowFinish()
    ensures Drag(Stroke(Some((0, 0)), Paint), DragEvent(LeftButton, false, true, (10, 3)))
            == Outcome(Stroke(None, Paint), [(10, 3)] + StampCentres((0, 0), (10, 3)))
  {
  }

  /** The replay of a left drag from (0, 0) to (10, 3): the start stamps (0, 0), the finish stamps (10, 3) and its gap fill. */
  lemma WrittenLongShallowReplay()
    ensures var o := Replay(Initial, [DragEvent(LeftButton, true, false, (0, 0)), DragEvent(LeftButton, false, true, (10, 3))]);
            && o.stamps == WrittenLongShallow
            && o.state == Stroke(None, Paint)
  {
    var e0, e1 := DragEvent(LeftButton, true, false, (0, 0)), DragEvent(LeftButton, false, true, (10, 3));
    ReplayTwo(Initial, e0, e1);
    WrittenLongShallowStart();
    WrittenLongShallowFinish();
    LongShallowStamps();
    WrittenLongShallowOrder();
  }

  lemma WrittenLongShallowOrder()
    ensures [(0, 0)] + ([(10, 3)] + [(1, 0), (2, 0), (3, 0), (4, 0), (4, 1), (5, 1), (6, 1), (7, 1)]) == WrittenLongShallow
  {
  }

  /**
    As written, the one-pixel shift can split a stroke even with the size-3 brush:
    a left drag from (0, 0) to (10, 3) stamps `WrittenLongShallow`, and no walk
    through the painted pixels leads from (0, 0) to (10, 3).
   */
  lemma WrittenStrokeSplits()
    ensures Replay(Initial, [DragEvent(LeftButton, true, false, (0, 0)), DragEvent(LeftButton, false, true, (10, 3))]).stamps
            == WrittenLongShallow
    ensures forall path :: PaintedPath(3, WrittenLongShallow, path) && path[0] == (0, 0) ==> path[|path| - 1] != (10, 3)
  {
    WrittenLongShallowReplay();
    forall path | PaintedPath(3, WrittenLongShallow, path) && path[0] == (0, 0)
      ensures path[|path| - 1] != (10, 3)
    {
      WrittenLongShallowStaysLeft(path);
    }
  }

  /** The intended gap fill of any move by (10, 3): the accepted candidates themselves, stamped in place. */
  lemma IntendedLongShallow(a: Point, b: Point)
    requires b.0 - a.0 == 10 && b.1 - a.1 == 3
    ensures IntendedStampCentres(a, b) == [(a.0 + 2, a.1 + 1), (a.0 + 3, a.1 + 1), (a.0 + 4, a.1 + 1), (a.0 + 5, a.1 + 1),
                                           (a.0 + 5, a.1 + 2), (a.0 + 6, a.1 + 2), (a.0 + 7, a.1 + 2), (a.0 + 8, a.1 + 2)]
  {
    var idx := [(1, 0), (2, 0), (3, 0), (4, 0), (4, 1), (5, 1), (6, 1), (7, 1)];
    LongShallowAcceptedIndices(b.0 - a.0, b.1 - a.1);
    IntendedOfIndices(a, b, idx);
    LongShallowFromIndices(a, IntendedStampCentres(a, b), idx);
  }

  /** The fill `a + idx + (1, 1)` for the accepted indices of the move (10, 3), written out. */
  lemma LongShallowFromIndices(a: Point, fill: seq<Point>, idx: seq<Index>)
    requires idx == [(1, 0), (2, 0), (3, 0), (4, 0), (4, 1), (5, 1), (6, 1), (7, 1)]
    requires |fill| == |idx|
    requires forall k :: 0 <= k < |idx| ==> fill[k] == (a.0 + idx[k].0 + 1, a.1 + idx[k].1 + 1)
    ensures fill == [(a.0 + 2, a.1 + 1), (a.0 + 3, a.1 + 1), (a.0 + 4, a.1 + 1), (a.0 + 5, a.1 + 1),
                     (a.0 + 5, a.1 + 2), (a.0 + 6, a.1 + 2), (a.0 + 7, a.1 + 2), (a.0 + 8, a.1 + 2)]
  {
  }

  lemma IntendedLongShallowOrder()
    ensures [(0, 0), (10, 3)] + [(2, 1), (3, 1), (4, 1), (5, 1), (5, 2), (6, 2), (7, 2), (8, 2)] == IntendedLongShallowStroke
  {
  }

  lemma PaintedBy(stamps: seq<Point>, k: nat, p: Point)
    requires k < |stamps|
    requires Abs(p.0 - stamps[k].0) + Abs(p.1 - stamps[k].1) <= 1
    ensures Painted(3, stamps, p)
  {
    SmallDisk(p.0 - stamps[k].0, p.1 - stamps[k].1);
  }

  /** A painted walk extended by a painted 8-neighbour of its last pixel. */
  lemma PaintedPathStep(stamps: seq<Point>, path: seq<Point>, p: Point)
    requires PaintedPath(3, stamps, path)
    requires Painted(3, stamps, p) && Adjacent(path[|path| - 1], p)
    ensures PaintedPath(3, stamps, path + [p])
  {
    var next := path + [p];
    forall k | 0 <= k < |next| - 1
      ensures Adjacent(next[k], next[k + 1])
    {
      if k < |path| - 1 {
        assert next[k] == path[k] && next[k + 1] == path[k + 1];
      }
    }
  }

  /** The stamps the intended gap fill would draw for the left drag from (0, 0) to (10, 3). */
  const IntendedLongShallowStroke: seq<Point> := [(0, 0), (10, 3), (2, 1), (3, 1), (4, 1), (5, 1), (5, 2), (6, 2), (7, 2), (8, 2)]

  /** Two painted walks that meet at a pixel make one walk. */
  lemma PaintedPathJoin(stamps: seq<Point>, a: seq<Point>, b: seq<Point>)
    requires PaintedPath(3, stamps, a) && PaintedPath(3, stamps, b)
    requires a[|a| - 1] == b[0]
    ensures PaintedPath(3, stamps, a + b[1..])
  {
    var w := a + b[1..];
    forall k | 0 <= k < |w|
      ensures Painted(3, stamps, w[k])
    {
      if k >= |a| {
        assert w[k] == b[k - |a| + 1];
      }
    }
    forall k | 0 <= k < |w| - 1
      ensures Adjacent(w[k], w[k + 1])
    {
      if k < |a| - 1 {
        assert w[k] == a[k] && w[k + 1] == a[k + 1];
      } else {
        assert w[k] == b[k - |a| + 1] && w[k + 1] == b[k - |a| + 2];
      }
    }
  }

  /** The walk from (0, 0) to (4, 1). */
  lemma IntendedWalkStart()
    ensures PaintedPath(3, IntendedLongShallowStroke, [(0, 0), (1, 0), (2, 1), (3, 1), (4, 1)])
  {
    var stamps := IntendedLongShallowStroke;
    var path := [(0, 0)];
    assert PaintedPath(3, stamps, path) by {
      PaintedBy(stamps, 0, (0, 0));
    }
    assert PaintedPath(3, stamps, path + [(1, 0)]) by {
      PaintedBy(stamps, 0, (1, 0));
      PaintedPathStep(stamps, path, (1, 0));
    }
    path := path + [(1, 0)];
    assert PaintedPath(3, stamps, path + [(2, 1)]) by {
      PaintedBy(stamps, 2, (2, 1));
      PaintedPathStep(stamps, path, (2, 1));
    }
    path := path + [(2, 1)];
    assert PaintedPath(3, stamps, path + [(3, 1)]) by {
      PaintedBy(stamps, 3, (3, 1));
      PaintedPathStep(stamps, path, (3, 1));
    }
    path := path + [(3, 1)];
    assert PaintedPath(3, stamps, path + [(4, 1)]) by {
      PaintedBy(stamps, 4, (4, 1));
      PaintedPathStep(stamps, path, (4, 1));
    }
    path := path + [(4, 1)];
    assert path == [(0, 0), (1, 0), (2, 1), (3, 1), (4, 1)];
  }

  /** The walk from (4, 1) to (7, 2). */
  lemma IntendedWalkMiddle()
    ensures PaintedPath(3, IntendedLongShallowStroke, [(4, 1), (5, 1), (5, 2), (6, 2), (7, 2)])
  {
    var stamps := IntendedLongShallowStroke;
    var path := [(4, 1)];
    assert PaintedPath(3, stamps, path) by {
      PaintedBy(stamps, 4, (4, 1));
    }
    assert PaintedPath(3, stamps, path + [(5, 1)]) by {
      PaintedBy(stamps, 5, (5, 1));
      PaintedPathStep(stamps, path, (5, 1));
    }
    path := path + [(5, 1)];
    assert PaintedPath(3, stamps, path + [(5, 2)]) by {
      PaintedBy(stamps, 6, (5, 2));
      PaintedPathStep(stamps, path, (5, 2));
    }
    path := path + [(5, 2)];
    assert PaintedPath(3, stamps, path + [(6, 2)]) by {
      PaintedBy(stamps, 7, (6, 2));
      PaintedPathStep(stamps, path, (6, 2));
    }
    path := path + [(6, 2)];
    assert PaintedPath(3, stamps, path + [(7, 2)]) by {
      PaintedBy(stamps, 8, (7, 2));
      PaintedPathStep(stamps, path, (7, 2));
    }
    path := path + [(7, 2)];
    assert path == [(4, 1), (5, 1), (5, 2), (6, 2), (7, 2)];
  }

  /** The walk from (7, 2) to (10, 3). */
  lemma IntendedWalkEnd()
    ensures PaintedPath(3, IntendedLongShallowStroke, [(7, 2), (8, 2), (9, 2), (10, 3)])
  {
    var stamps := IntendedLongShallowStroke;
    var path := [(7, 2)];
    assert PaintedPath(3, stamps, path) by {
      PaintedBy(stamps, 8, (7, 2));
    }
    assert PaintedPath(3, stamps, path + [(8, 2)]) by {
      PaintedBy(stamps, 9, (8, 2));
      PaintedPathStep(stamps, path, (8, 2));
    }
    path := path + [(8, 2)];
    assert PaintedPath(3, stamps, path + [(9, 2)]) by {
      PaintedBy(stamps, 9, (9, 2));
      PaintedPathStep(stamps, path, (9, 2));
    }
    path := path + [(9, 2)];
    assert PaintedPath(3, stamps, path + [(10, 3)]) by {
      PaintedBy(stamps, 1, (10, 3));
      PaintedPathStep(stamps, path, (10, 3));
    }
    path := path + [(10, 3)];
    assert path == [(7, 2), (8, 2), (9, 2), (10, 3)];
  }

  /** The three pieces of the walk joined: (0, 0) to (10, 3) through pixels painted on the intended stamps. */
  lemma IntendedLongShallowWalk()
    ensures exists path :: && PaintedPath(3, IntendedLongShallowStroke, path)
                           && path[0] == (0, 0) && path[|path| - 1] == (10, 3)
  {
    var a := [(0, 0), (1, 0), (2, 1), (3, 1), (4, 1)];
    var b := [(4, 1), (5, 1), (5, 2), (6, 2), (7, 2)];
    var c := [(7, 2), (8, 2), (9, 2), (10, 3)];
    IntendedWalkStart();
    IntendedWalkMiddle();
    IntendedWalkEnd();
    PaintedPathJoin(IntendedLongShallowStroke, a, b);
    var ab := a + b[1..];
    assert ab[|ab| - 1] == (7, 2);
    PaintedPathJoin(IntendedLongShallowStroke, ab, c);
    var path := ab + c[1..];
    assert path[0] == ab[0] == (0, 0);
    assert path[|path| - 1] == c[|c| - 1] == (10, 3);
  }

  /**
    With the intended gap fill (each accepted candidate stamped where it is), the
    same drag paints a connected stroke: a walk through the painted pixels joins
    (0, 0) to (10, 3).
   */
  lemma IntendedStrokeJoins()
    ensures [(0, 0), (10, 3)] + IntendedStampCentres((0, 0), (10, 3)) == IntendedLongShallowStroke
    ensures exists path :: && PaintedPath(3, IntendedLongShallowStroke, path)
                           && path[0] == (0, 0) && path[|path| - 1] == (10, 3)
  {
    IntendedLongShallow((0, 0), (10, 3));
    IntendedLongShallowOrder();
    IntendedLongShallowWalk();
  }

  /** A left press at `a` and its release at `b`, not on a common row or column: both points and the gap fill between them are stamped. */
  lemma ReplayLeftDrag(a: Point, b: Point)
    requires !AxisAligned(a, b)
    ensures Replay(Initial, [DragEvent(LeftButton, true, false, a), DragEvent(LeftButton, false, true, b)])
            == Outcome(Stroke(None, Paint), [a, b] + StampCentres(a, b))
  {
    var e0, e1 := DragEvent(LeftButton, true, false, a), DragEvent(LeftButton, false, true, b);
    ReplayTwo(Initial, e0, e1);
    var first := Drag(Initial, e0);
    assert first == Outcome(Stroke(Some(a), Paint), [a]);
    var last := Drag(first.state, e1);
    assert last.stamps == [b] + last.stamps[1..];
    assert last == Outcome(Stroke(None, Paint), [b] + StampCentres(a, b));
    assert [a] + ([b] + StampCentres(a, b)) == [a, b] + StampCentres(a, b);
  }

  /** A column that no stamp's disk reaches holds no painted pixel. */
  lemma ColumnOutOfReach(size: nat, stamps: seq<Point>, x: int)
    requires size >= 1
    requires forall c :: c in stamps ==> size <= 2 * Abs(x - c.0)
    ensures forall y :: !Painted(size, stamps, (x, y))
  {
    forall y
      ensures !Painted(size, stamps, (x, y))
    {
      if Painted(size, stamps, (x, y)) {
        var k :| 0 <= k < |stamps| && BrushKernel.InDisk(size, x - stamps[k].0, y - stamps[k].1);
        assert stamps[k] in stamps;
        BrushKernel.DiskReach(size, x - stamps[k].0, y - stamps[k].1);
        assert false;
      }
    }
  }

  /** A painted walk that starts left of an unpainted column stays left of it. */
  lemma {:induction false} UnpaintedColumnSeparates(size: nat, stamps: seq<Point>, x: int, path: seq<Point>)
    requires PaintedPath(size, stamps, path)
    requires forall y :: !Painted(size, stamps, (x, y))
    requires path[0].0 < x
    ensures path[|path| - 1].0 < x
  {
    if |path| > 1 {
      var front := path[..|path| - 1];
      assert PaintedPath(size, stamps, front);
      UnpaintedColumnSeparates(size, stamps, x, front);
      var n := |path| - 1;
      assert path[n - 1] == front[|front| - 1];
      assert Adjacent(path[n - 1], path[n]);
      assert !Painted(size, stamps, (x, path[n].1));
      assert path[n].0 != x;
    }
  }

  /**
    Stamps that all keep clear of column `x` split the stroke there: no painted
    walk leads from a point left of the column to one on or right of it.
   */
  lemma ColumnSplitsStroke(size: nat, stamps: seq<Point>, x: int, a: Point, b: Point)
    requires size >= 1 && a.0 < x <= b.0
    requires forall c :: c in stamps ==> size <= 2 * Abs(x - c.0)
    ensures forall y :: !Painted(size, stamps, (x, y))
    ensures forall path :: PaintedPath(size, stamps, path) && path[0] == a ==> path[|path| - 1] != b
  {
    ColumnOutOfReach(size, stamps, x);
    forall path | PaintedPath(size, stamps, path) && path[0] == a
      ensures path[|path| - 1] != b
    {
      UnpaintedColumnSeparates(size, stamps, x, path);
    }
  }

  /**
    With the size-5 brush the program installs, any left drag by (20, 2) splits
    as the code draws it: the gap fill ends 14 pixels along, the release disk
    starts 18 along, and column 17 stays unpainted, so no painted walk leads from
    the press point to the release point.
   */
  lemma WrittenSplitsAtSize5(a: Point, b: Point)
    requires b.0 - a.0 == 20 && b.1 - a.1 == 2
    ensures Replay(Initial, [DragEvent(LeftButton, true, false, a), DragEvent(LeftButton, false, true, b)]).stamps
            == [a, b] + StampCentres(a, b)
    ensures var column := a.0 + 17; forall y :: !Painted(5, [a, b] + StampCentres(a, b), (column, y))
    ensures forall path :: PaintedPath(5, [a, b] + StampCentres(a, b), path) && path[0] == a ==> path[|path| - 1] != b
  {
    ReplayLeftDrag(a, b);
    var fill := StampCentres(a, b);
    ShallowTwentyStamps(a, b);
    assert forall c :: c in [a, b] + fill ==> c == a || c == b || c in fill;
    ColumnSplitsStroke(5, [a, b] + fill, a.0 + 17, a, b);
  }

  /**
    Stamping the candidates in place does not make small brushes connected: the
    candidate grid skips the first and last row and column of the move. For a
    left drag by (20, 2) the intended fill starts 5 pixels along, and with the
    size-3 brush column 2 stays unpainted, so the stroke still splits.
   */
  lemma IntendedSplitsAtSize3(a: Point, b: Point)
    requires b.0 - a.0 == 20 && b.1 - a.1 == 2
    ensures var column := a.0 + 2; forall y :: !Painted(3, [a, b] + IntendedStampCentres(a, b), (column, y))
    ensures forall path :: PaintedPath(3, [a, b] + IntendedStampCentres(a, b), path) && path[0] == a ==> path[|path| - 1] != b
  {
    var fill := IntendedStampCentres(a, b);
    ShallowTwentyIntended(a, b);
    assert forall c :: c in [a, b] + fill ==> c == a || c == b || c in fill;
    ColumnSplitsStroke(3, [a, b] + fill, a.0 + 2, a, b);
  }

  /** The row a walk along a (20, 2) drag is on, `i` pixels along: it climbs after 2 and after 17. */
  function ShallowTwentyRise(i: int): int {
    if i <= 2 then 0 else if i <= 17 then 1 else 2
  }

  /** The walk a, a+(1..2, 0), a+(3..17, 1), a+(18..20, 2), one pixel along per step. */
  function ShallowTwentyWalk(a: Point): seq<Point> {
    seq(21, i requires 0 <= i < 21 => (a.0 + i, a.1 + ShallowTwentyRise(i)))
  }

  /** A point at most two pixels along an axis from a stamp is painted by the size-5 brush. */
  lemma NearStampPainted(stamps: seq<Point>, c: Point, p: Point)
    requires c in stamps
    requires p.1 == c.1 && -2 <= p.0 - c.0 <= 2
    ensures Painted(5, stamps, p)
  {
    var k :| 0 <= k < |stamps| && stamps[k] == c;
    var dx := p.0 - c.0;
    BrushKernel.InDiskIffInteger(5, dx, 0);
    assert dx == -2 || dx == -1 || dx == 0 || dx == 1 || dx == 2;
    assert BrushKernel.InDisk(5, p.0 - stamps[k].0, p.1 - stamps[k].1);
  }

  /**
    With the size-5 brush, stamps at both ends of a (20, 2) move and along the
    middle row from 5 to 15 pixels along paint a connected stroke from end to end.
   */
  lemma ShallowTwentyWalkPainted(a: Point, b: Point, stamps: seq<Point>)
    requires b.0 - a.0 == 20 && b.1 - a.1 == 2
    requires a in stamps && b in stamps
    requires forall c: Point :: c.1 == a.1 + 1 && a.0 + 5 <= c.0 <= a.0 + 15 ==> c in stamps
    ensures PaintedPath(5, stamps, ShallowTwentyWalk(a))
    ensures ShallowTwentyWalk(a)[0] == a && ShallowTwentyWalk(a)[20] == b
  {
    var path := ShallowTwentyWalk(a);
    forall i | 0 <= i < |path|
      ensures Painted(5, stamps, path[i])
    {
      if i <= 2 {
        NearStampPainted(stamps, a, path[i]);
      } else if i <= 17 {
        var x := if i < 5 then 5 else if i > 15 then 15 else i;
        NearStampPainted(stamps, (a.0 + x, a.1 + 1), path[i]);
      } else {
        NearStampPainted(stamps, b, path[i]);
      }
    }
  }

  /**
    Stamping the candidates in place repairs the size-5 drag by (20, 2) that the
    code splits (`WrittenSplitsAtSize5`): a painted walk joins the press point to
    the release point.
   */
  lemma IntendedJoinsAtSize5(a: Point, b: Point)
    requires b.0 - a.0 == 20 && b.1 - a.1 == 2
    ensures exists path :: && PaintedPath(5, [a, b] + IntendedStampCentres(a, b), path)
                           && path[0] == a && path[|path| - 1] == b
  {
    var fill := IntendedStampCentres(a, b);
    ShallowTwentyIntended(a, b);
    StrokeHoldsStamps(a, b, fill);
    ShallowTwentyWalkPainted(a, b, [a, b] + fill);
  }

  /** The stamps of a drag: both end points, then the gap fill. */
  lemma StrokeHoldsStamps(a: Point, b: Point, fill: seq<Point>)
    ensures a in [a, b] + fill && b in [a, b] + fill
    ensures forall c :: c in fill ==> c in [a, b] + fill
  {
    assert ([a, b] + fill)[0] == a && ([a, b] + fill)[1] == b;
  }
}
