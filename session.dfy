/** One run of `CircleCenterAnnotator.annotate_image`: the `while True` loop over frames.
    Each frame snapshots the two flags, commits a finished circle, lets the mouse events
    queued during `waitKey` reach the callback, and then handles the key `waitKey` returned. */
module Session {
  import opened CustomTypes
  import opened Radius
  import opened DrawParams
  import opened Optional

  /** What `waitKey` returned: the three codes of `KeyCode`, any other key, or none (-1). */
  datatype Key = Undo | Esc | Next | Other | NoKey

  /** One iteration of the loop as the user drives it: the mouse events delivered during
      `waitKey`, in order, and the key it returned. */
  datatype Frame = Frame(events: seq<MouseEvent>, key: Key)

  /** The state the loop works on: the shared dictionary and the local `circles` list. */
  datatype Loop = Loop(draw: State, circles: seq<Circle>)

  /** Whether a key ends the loop. */
  predicate Stops(k: Key) {
    k == Esc || k == Next
  }

  /** Lines 102-105: a finished circle goes to the end of the list and `finished` is cleared. */
  function Collect(l: Loop): (r: Loop)
    ensures !r.draw.finished
    ensures !l.draw.finished ==> r == l
  {
    if l.draw.finished then
      Loop(l.draw.(finished := false), l.circles + [Circle(l.draw.center, l.draw.radiusSq)])
    else l
  }

  /** Lines 109-113: UNDO acts only on a non-empty list; it then cancels the pending center
      if the frame's snapshot `pending` says there was one, and removes the last circle
      otherwise. */
  function UndoKey(l: Loop, pending: bool): (r: Loop)
    ensures |r.circles| <= |l.circles|
  {
    if |l.circles| > 0 then
      if pending then l.(draw := l.draw.(haveCenter := false))
      else l.(circles := l.circles[..|l.circles| - 1])
    else l
  }

  /** One iteration of the loop body, before the test of ESC and NEXT. */
  function FrameStep(l: Loop, f: Frame): Loop
  {
    var pending := l.draw.haveCenter;
    var c := Collect(l);
    var m := c.(draw := Deliver(c.draw, f.events));
    if f.key == Undo then UndoKey(m, pending) else m
  }

  /** How a run of frames leaves the loop: the final state, whether ESC or NEXT ended it
      (`ended` false means the frames ran out and the source is still waiting in the loop),
      and whether the end was ESC, which sets `exit_flag`. */
  datatype SessionEnd = SessionEnd(loop: Loop, ended: bool, escaped: bool)

  /** The loop run from state `l` over `frames` until ESC or NEXT. The returned list of
      `annotate_image` is `loop.circles` of a result with `ended`. */
  function RunSession(l: Loop, frames: seq<Frame>): (r: SessionEnd)
    ensures r.escaped ==> r.ended
    decreases |frames|
  {
    if frames == [] then SessionEnd(l, false, false)
    else
      var l' := FrameStep(l, frames[0]);
      if Stops(frames[0].key) then SessionEnd(l', true, frames[0].key == Esc)
      else RunSession(l', frames[1..])
  }

  /** Reference definition: the loop body applied to every frame of `frames`. */
  function Frames(l: Loop, frames: seq<Frame>): Loop
  {
    if frames == [] then l else FrameStep(Frames(l, frames[..|frames| - 1]), frames[|frames| - 1])
  }

  /** The index of the first frame whose key ends the loop. */
  function FirstStop(frames: seq<Frame>): (r: Option<nat>)
    ensures r.None? ==> forall i :: 0 <= i < |frames| ==> !Stops(frames[i].key)
    ensures r.Some? ==> r.value < |frames| && Stops(frames[r.value].key) &&
                        forall i :: 0 <= i < r.value ==> !Stops(frames[i].key)
  {
    if frames == [] then None
    else if Stops(frames[0].key) then Some(0)
    else
      var r := FirstStop(frames[1..]);
      assert forall i :: 1 <= i < |frames| ==> frames[i] == frames[1..][i - 1];
      if r.None? then None else Some(r.value + 1)
  }

  lemma FramesPrepend(l: Loop, f: Frame, frames: seq<Frame>)
    ensures Frames(l, [f] + frames) == Frames(FrameStep(l, f), frames)
    decreases |frames|
  {
    var all := [f] + frames;
    if frames != [] {
      var init := frames[..|frames| - 1];
      var last := frames[|frames| - 1];
      assert all[..|all| - 1] == [f] + init;
      assert all[|all| - 1] == last;
      FramesPrepend(l, f, init);
      assert Frames(l, all) == FrameStep(Frames(l, [f] + init), last);
    } else {
      assert all[..|all| - 1] == [];
      assert Frames(l, all) == FrameStep(Frames(l, []), f);
    }
  }

  /** The session ends at the first ESC or NEXT, after processing every frame up to and
      including that one; ESC is what sets `exit_flag`. Without such a key the loop has
      processed every frame and keeps waiting. */
  lemma {:induction false} RunSessionStopsAtFirstKey(l: Loop, frames: seq<Frame>)
    decreases |frames|
    ensures var r := RunSession(l, frames);
      match FirstStop(frames)
      case None => r == SessionEnd(Frames(l, frames), false, false)
      case Some(i) => r == SessionEnd(Frames(l, frames[..i + 1]), true, frames[i].key == Esc)
  {
    if frames != [] {
      var f, rest := frames[0], frames[1..];
      var l1 := FrameStep(l, f);
      assert frames == [f] + rest;
      if Stops(f.key) {
        assert FirstStop(frames) == Some(0);
        assert RunSession(l, frames) == SessionEnd(l1, true, f.key == Esc);
        assert frames[..1] == [f];
        FramesPrepend(l, f, []);
        assert Frames(l, [f]) == l1;
      } else {
        assert RunSession(l, frames) == RunSession(l1, rest);
        RunSessionStopsAtFirstKey(l1, rest);
        match FirstStop(rest)
        case None =>
          assert FirstStop(frames) == None;
          FramesPrepend(l, f, rest);
        case Some(i) =>
          assert FirstStop(frames) == Some(i + 1);
          assert frames[..i + 2] == [f] + rest[..i + 1];
          FramesPrepend(l, f, rest[..i + 1]);
      }
    }
  }

  /** A frame whose snapshot has `finished` appends exactly the finished circle after the
      earlier ones and clears `finished` before the frame's mouse events arrive. */
  lemma FinishedCircleIsAppended(l: Loop)
    requires l.draw.finished
    ensures Collect(l).circles == l.circles + [Circle(l.draw.center, l.draw.radiusSq)]
    ensures Collect(l).draw == l.draw.(finished := false)
  {
  }

  /** UNDO with circles and a pending center in the snapshot cancels the center and keeps
      the list. */
  lemma UndoCancelsPendingCenter(l: Loop, events: seq<MouseEvent>)
    requires l.draw.haveCenter && |Collect(l).circles| > 0
    ensures var r := FrameStep(l, Frame(events, Undo));
      r.circles == Collect(l).circles && r.draw == Deliver(Collect(l).draw, events).(haveCenter := false)
  {
  }

  /** UNDO with circles and no pending center in the snapshot removes exactly the last one. */
  lemma UndoRemovesLastCircle(l: Loop, events: seq<MouseEvent>)
    requires !l.draw.haveCenter && |Collect(l).circles| > 0
    ensures var r := FrameStep(l, Frame(events, Undo));
      r.circles == Collect(l).circles[..|Collect(l).circles| - 1] &&
      r.draw == Deliver(Collect(l).draw, events)
  {
  }

  /** UNDO with an empty list does nothing, even while a center is pending. */
  lemma UndoOnEmptyListIsIgnored(l: Loop, events: seq<MouseEvent>)
    requires |Collect(l).circles| == 0
    ensures FrameStep(l, Frame(events, Undo)) == FrameStep(l, Frame(events, NoKey))
  {
  }

  /** Keys other than UNDO leave the list as the commit step left it. */
  lemma OtherKeysKeepList(l: Loop, f: Frame)
    requires f.key != Undo
    ensures FrameStep(l, f) == Loop(Deliver(Collect(l).draw, f.events), Collect(l).circles)
  {
  }

  /** The loop keeps the handler's flag invariant. */
  lemma FrameStepKeepsInv(l: Loop, f: Frame)
    requires Inv(l.draw)
    ensures Inv(FrameStep(l, f).draw)
  {
    DeliverKeepsInv(Collect(l).draw, f.events);
  }

  lemma {:induction false} RunSessionKeepsInv(l: Loop, frames: seq<Frame>)
    requires Inv(l.draw)
    ensures Inv(RunSession(l, frames).loop.draw)
    decreases |frames|
  {
    if frames != [] {
      FrameStepKeepsInv(l, frames[0]);
      if !Stops(frames[0].key) {
        RunSessionKeepsInv(FrameStep(l, frames[0]), frames[1..]);
      }
    }
  }

  function Click(p: Point): MouseEvent {
    MouseEvent(LButtonDown, p.x, p.y)
  }

  /** A center click and an edge click in two frames commit exactly one circle, collected by
      the frame after; NEXT there returns it with the circles before it. */
  lemma ClickPairCommitsOneCircle(l: Loop, c: Point, e: Point)
    requires !l.draw.haveCenter && !l.draw.finished
    ensures var r := RunSession(l, [Frame([Click(c)], NoKey), Frame([Click(e)], NoKey), Frame([], Next)]);
      r.ended && !r.escaped && r.loop.circles == l.circles + [Circle(c, EstimateRadiusSq(c, e))]
  {
    var frames := [Frame([Click(c)], NoKey), Frame([Click(e)], NoKey), Frame([], Next)];
    DeliverOne(l.draw, Click(c));
    var l1 := FrameStep(l, frames[0]);
    DeliverOne(l1.draw, Click(e));
    assert l1.draw == State(c, 0, true, false) && l1.circles == l.circles;
    var l2 := FrameStep(l1, frames[1]);
    assert l2.draw.finished && l2.draw.center == c && l2.circles == l.circles;
    assert RunSession(l, frames) == RunSession(l1, frames[1..]);
    assert frames[1..][0] == frames[1] && frames[1..][1..] == [Frame([], Next)];
    assert RunSession(l1, frames[1..]) == RunSession(l2, [Frame([], Next)]);
    assert RunSession(l2, [Frame([], Next)]) == SessionEnd(FrameStep(l2, Frame([], Next)), true, false);
  }

  /** Click, drag, click: a center click, a frame of pointer moves, an edge click and NEXT
      return the earlier circles plus exactly one circle, whose radius is the distance from
      the center to the edge click; the drag frames add nothing. */
  lemma ClickDragClickCommitsOneCircle(l: Loop, c: Point, moves: seq<MouseEvent>, e: Point)
    requires !l.draw.haveCenter && !l.draw.finished
    requires forall i :: 0 <= i < |moves| ==> moves[i].kind == MouseMove
    ensures var r := RunSession(l, [Frame([Click(c)], NoKey), Frame(moves, NoKey),
                                    Frame([Click(e)], NoKey), Frame([], Next)]);
      r.ended && !r.escaped && r.loop.circles == l.circles + [Circle(c, EstimateRadiusSq(c, e))]
  {
    var frames := [Frame([Click(c)], NoKey), Frame(moves, NoKey), Frame([Click(e)], NoKey), Frame([], Next)];
    DeliverOne(l.draw, Click(c));
    var l1 := FrameStep(l, frames[0]);
    assert l1.draw == State(c, 0, true, false) && l1.circles == l.circles;
    MovesFollowPointer(l1.draw, moves);
    var l2 := FrameStep(l1, frames[1]);
    assert l2.draw.center == c && l2.draw.haveCenter && !l2.draw.finished && l2.circles == l.circles;
    DeliverOne(l2.draw, Click(e));
    var l3 := FrameStep(l2, frames[2]);
    assert l3.draw.finished && l3.draw.center == c && l3.draw.radiusSq == EstimateRadiusSq(c, e);
    assert l3.circles == l.circles;
    var tail := [Frame([], Next)];
    assert frames[1..][0] == frames[1] && frames[1..][1..][0] == frames[2] && frames[1..][1..][1..] == tail;
    assert RunSession(l, frames) == RunSession(l1, frames[1..]);
    assert RunSession(l1, frames[1..]) == RunSession(l2, frames[1..][1..]);
    assert RunSession(l2, frames[1..][1..]) == RunSession(l3, tail);
    assert RunSession(l3, tail) == SessionEnd(FrameStep(l3, Frame([], Next)), true, false);
  }

  /** As written, the UNDO test reads the snapshot taken before the frame's events: a center
      placed by this frame's click survives UNDO, which removes the previous circle instead. */
  lemma UndoUsesStaleSnapshot(c0: Circle, p: Point)
    ensures var l := Loop(State(Point(0, 0), 0, false, false), [c0]);
      var r := FrameStep(l, Frame([Click(p)], Undo));
      r.circles == [] && r.draw.haveCenter && r.draw.center == p
  {
    DeliverOne(State(Point(0, 0), 0, false, false), Click(p));
  }

  /** As written, two clicks in one frame after a center commit a circle and immediately
      start a new one; the committed circle is overwritten before any frame collects it. */
  lemma SecondClickInFrameLosesCommit(c: Point, e: Point, p: Point, cs: seq<Circle>)
    ensures var l := Loop(State(c, 0, true, false), cs);
      var r := FrameStep(l, Frame([Click(e), Click(p)], NoKey));
      r.circles == cs && r.draw == State(p, 0, true, false)
  {
    var d := State(c, 0, true, false);
    assert [Click(e), Click(p)][..1] == [Click(e)];
    DeliverOne(d, Click(e));
  }

  /** As written, the dictionary outlives the session: an edge click in the same frame as
      NEXT leaves `finished` set, and the next image's first frame collects that circle. */
  lemma CommitCarriesOverToNextImage(c: Point, e: Point, cs: seq<Circle>)
    ensures var r := RunSession(Loop(State(c, 0, true, false), cs), [Frame([Click(e)], Next)]);
      r.ended && !r.escaped && r.loop.circles == cs && r.loop.draw.finished &&
      Collect(Loop(r.loop.draw, [])).circles == [Circle(c, EstimateRadiusSq(c, e))]
  {
    DeliverOne(State(c, 0, true, false), Click(e));
  }
}
