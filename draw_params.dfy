/** The draw-state record shared between `mouse_callback` and the annotation loop, and the
    callback itself: left clicks place a center and then fix the radius; mouse moves while a
    center is pending make the radius follow the pointer. */
module DrawParams {
  import opened CustomTypes
  import opened Radius
  import opened Optional

  /** OpenCV event codes the callback tells apart; every other code is `OtherEvent`. */
  datatype EventKind = LButtonDown | MouseMove | OtherEvent

  /** One callback invocation: event code and pointer position (`flags` is unused). */
  datatype MouseEvent = MouseEvent(kind: EventKind, x: int, y: int)

  /** The value of the `draw_params` dictionary. */
  datatype State = State(center: Point, radiusSq: nat, haveCenter: bool, finished: bool)

  /** The dictionary as the annotator's constructor creates it. */
  const Initial: State := State(Point(0, 0), 0, false, false)

  /** The flag combination the handler never produces: a pending center and an unconsumed
      finished circle at the same time. */
  predicate Inv(s: State) {
    !(s.haveCenter && s.finished)
  }

  /** The effect of one `mouse_callback` call on the dictionary. */
  function OnMouse(s: State, e: MouseEvent): (t: State)
    ensures e.kind == LButtonDown ==> Inv(t) && t.haveCenter == !s.haveCenter
    ensures e.kind != LButtonDown ==> t.center == s.center && t.haveCenter == s.haveCenter && t.finished == s.finished
  {
    var p := Point(e.x, e.y);
    if e.kind == LButtonDown then
      if s.haveCenter then s.(finished := true, haveCenter := false, radiusSq := EstimateRadiusSq(s.center, p))
      else State(p, 0, true, false)
    else if s.haveCenter && e.kind == MouseMove then s.(radiusSq := EstimateRadiusSq(s.center, p))
    else s
  }

  /** The dictionary after the callback has been called on each event of `es` in turn. */
  function Deliver(s: State, es: seq<MouseEvent>): State
  {
    if es == [] then s else OnMouse(Deliver(s, es[..|es| - 1]), es[|es| - 1])
  }

  lemma DeliverAppend(s: State, es: seq<MouseEvent>, e: MouseEvent)
    ensures Deliver(s, es + [e]) == OnMouse(Deliver(s, es), e)
  {
    assert (es + [e])[..|es|] == es;
  }

  lemma DeliverOne(s: State, e: MouseEvent)
    ensures Deliver(s, [e]) == OnMouse(s, e)
  {
    assert [e][..0] == [];
  }

  /** A left click with no center pending places the center at the click, with radius 0. */
  lemma LeftClickPlacesCenter(s: State, x: int, y: int)
    requires !s.haveCenter
    ensures OnMouse(s, MouseEvent(LButtonDown, x, y)) == State(Point(x, y), 0, true, false)
  {
  }

  /** A left click with a center pending finishes the circle: the radius is the distance from
      the unchanged center to the click. */
  lemma LeftClickFinishesCircle(s: State, x: int, y: int)
    requires s.haveCenter
    ensures var t := OnMouse(s, MouseEvent(LButtonDown, x, y));
      t.finished && !t.haveCenter && t.center == s.center &&
      t.radiusSq == EstimateRadiusSq(s.center, Point(x, y))
  {
  }

  /** A move while a center is pending changes the radius and nothing else; a move with no
      center pending, or any other event, changes nothing. */
  lemma MouseMoveTracksRadius(s: State, e: MouseEvent)
    requires e.kind != LButtonDown
    ensures var t := OnMouse(s, e);
      t.center == s.center && t.haveCenter == s.haveCenter && t.finished == s.finished &&
      (if s.haveCenter && e.kind == MouseMove then t.radiusSq == EstimateRadiusSq(s.center, Point(e.x, e.y))
       else t == s)
  {
  }

  /** The handler keeps the two flags from being set together. */
  lemma {:induction false} DeliverKeepsInv(s: State, es: seq<MouseEvent>)
    requires Inv(s)
    ensures Inv(Deliver(s, es))
  {
    if es != [] {
      DeliverKeepsInv(s, es[..|es| - 1]);
    }
  }

  /** Starting from the constructor's dictionary, no sequence of mouse events makes both
      `have_center` and `finished` true. */
  lemma NeverPendingAndFinished(es: seq<MouseEvent>)
    ensures !(Deliver(Initial, es).haveCenter && Deliver(Initial, es).finished)
  {
    DeliverKeepsInv(Initial, es);
  }

  /** The pointer position of the last `MouseMove` in `es`, if any. */
  function LastMove(es: seq<MouseEvent>): (r: Option<Point>)
    ensures r.Some? <==> exists i :: 0 <= i < |es| && es[i].kind == MouseMove
    ensures r.Some? ==> exists i :: (0 <= i < |es| && es[i].kind == MouseMove &&
      r.value == Point(es[i].x, es[i].y) && forall j :: i < j < |es| ==> es[j].kind != MouseMove)
  {
    if es == [] then None
    else
      var e := es[|es| - 1];
      if e.kind == MouseMove then Some(Point(e.x, e.y))
      else
        var r := LastMove(es[..|es| - 1]);
        assert forall i :: 0 <= i < |es| - 1 ==> es[i] == es[..|es| - 1][i];
        r
  }

  /** Between clicks the center and both flags stay put; when a center is pending the radius
      is the distance from it to the last pointer move, if there was one. */
  lemma {:induction false} MovesFollowPointer(s: State, es: seq<MouseEvent>)
    requires forall i :: 0 <= i < |es| ==> es[i].kind != LButtonDown
    ensures var t := Deliver(s, es);
      t.center == s.center && t.haveCenter == s.haveCenter && t.finished == s.finished &&
      (if s.haveCenter && LastMove(es).Some? then t.radiusSq == EstimateRadiusSq(s.center, LastMove(es).value)
       else t.radiusSq == s.radiusSq)
  {
    if es != [] {
      var init := es[..|es| - 1];
      assert forall i :: 0 <= i < |init| ==> init[i] == es[i];
      MovesFollowPointer(s, init);
    }
  }

  /** The tagged states of the circle being drawn: no center, center placed, edge clicked. */
  datatype Phase = Idle | Placing | Committed

  /** Which tagged state a flag combination stands for. */
  function PhaseOf(s: State): Phase {
    if s.haveCenter then Placing else if s.finished then Committed else Idle
  }

  /** Reference transitions on the tagged states: a click moves Idle to Placing, Placing to
      Committed, and Committed (not yet collected by the loop) to Placing again. */
  function NextPhase(p: Phase, k: EventKind): Phase {
    if k != LButtonDown then p
    else match p
      case Idle => Placing
      case Placing => Committed
      case Committed => Placing
  }

  /** The flags move along the reference transitions. */
  lemma OnMouseFollowsPhases(s: State, e: MouseEvent)
    ensures PhaseOf(OnMouse(s, e)) == NextPhase(PhaseOf(s), e.kind)
  {
  }

  /** The tagged state after a run of reference transitions. */
  function Phases(p: Phase, es: seq<MouseEvent>): Phase {
    if es == [] then p else NextPhase(Phases(p, es[..|es| - 1]), es[|es| - 1].kind)
  }

  /** A whole run of events moves the flags as the reference machine does. */
  lemma {:induction false} DeliverFollowsPhases(s: State, es: seq<MouseEvent>)
    ensures PhaseOf(Deliver(s, es)) == Phases(PhaseOf(s), es)
  {
    if es != [] {
      DeliverFollowsPhases(s, es[..|es| - 1]);
      OnMouseFollowsPhases(Deliver(s, es[..|es| - 1]), es[|es| - 1]);
    }
  }

  /** The dictionary, as an object whose entries the callback updates in place. */
  class DrawState {
    var center: Point
    var radiusSq: nat
    var haveCenter: bool
    var finished: bool

    function Value(): State
      reads this
    {
      State(center, radiusSq, haveCenter, finished)
    }

    constructor ()
      ensures Value() == Initial
    {
      center := Point(0, 0);
      radiusSq := 0;
      haveCenter := false;
      finished := false;
    }
  }

  /** `mouse_callback(event, x, y, flags, param)`: updates `param` in place. */
  method MouseCallback(e: MouseEvent, param: DrawState)
    modifies param
    ensures param.Value() == OnMouse(old(param.Value()), e)
  {
    if e.kind == LButtonDown {
      if param.haveCenter {
        param.finished := true;
        param.haveCenter := false;
        param.radiusSq := EstimateRadiusSq(param.center, Point(e.x, e.y));
      } else {
        param.haveCenter := true;
        param.finished := false;
        param.center := Point(e.x, e.y);
        param.radiusSq := 0;
      }
    } else if param.haveCenter && e.kind == MouseMove {
      param.radiusSq := EstimateRadiusSq(param.center, Point(e.x, e.y));
    }
  }
}
