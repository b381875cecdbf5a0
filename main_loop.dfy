/** One pass of the main loop of cursor_ring.cpp after the message pump: the
    Ctrl-tap gesture, CheckCancel, and the frame of a running animation.
    The keyboard, the cursor position and the tick count are read once per
    pass and passed in. */
module MainLoop {
  import opened Keys
  import opened Settings
  import opened Gesture
  import opened Animation

  /** The globals the loop keeps between passes. */
  datatype World = World(gesture: Detector, anim: Anim)

  predicate WellFormedWorld(w: World) {
    WellFormed(w.gesture)
  }

  const Start := World(Gesture.Initial, Idle)

  /** One pass: the gesture (possibly calling StartAnimation), then
      CheckCancel against the keys recorded at the last Ctrl press, then the
      frame if the animation is still running. Returns the new globals and
      what was done to the overlay, in order. */
  function LoopStep(w: World, cfg: Config, down: set<int>, cur: Point, now: Dword): (r: (World, seq<SurfaceOp>))
    requires WellFormedWorld(w)
    ensures WellFormedWorld(r.0)
  {
    var (g, trigger) := Gesture.Step(w.gesture, down);
    var (a1, ops1) := if trigger then StartStep(w.anim, cur, now) else (w.anim, []);
    var (a2, ops2) := CheckCancelStep(a1, cfg, cur, g.pre, down);
    var (a3, ops3) := RenderStep(a2, cfg.speed, cur, now);
    (World(g, a3), ops1 + ops2 + ops3)
  }

  // ---------------------------------------------------------------------
  // Properties of a pass

  /** A tap that is released with no other new key down shows the ring at
      the cursor and draws its first frame there: radius 88, opacity 0. */
  lemma TapShowsRing(w: World, cfg: Config, down: set<int>, cur: Point, now: Dword)
    requires WellFormedWorld(w)
    requires Gesture.Step(w.gesture, down).1
    requires !NewKeyDown(w.gesture.pre, down)
    ensures var r := LoopStep(w, cfg, down, cur, now);
      && r.0.anim == Anim(true, now, cur, cur)
      && r.1 == [Show(cur), Draw(cur, MaxRadius, 0.0)]
  {
    var a1 := Anim(true, now, cur, cur);
    assert Gesture.Step(w.gesture, down).0.pre == w.gesture.pre;
    assert !Moved(cur, cur);
    assert CheckCancelStep(a1, cfg, cur, w.gesture.pre, down) == (a1, []);
    FirstFrame(cfg.speed, cur, now);
  }

  /** A key that goes down on the very pass that releases Ctrl (and was not
      held at the press) lets the animation start and cancels it at once:
      the overlay is shown and cleared and nothing runs. */
  lemma ReleaseWithNewKey(w: World, cfg: Config, down: set<int>, cur: Point, now: Dword)
    requires WellFormedWorld(w)
    requires Gesture.Step(w.gesture, down).1
    requires NewKeyDown(w.gesture.pre, down)
    ensures var r := LoopStep(w, cfg, down, cur, now);
      && !r.0.anim.animating
      && r.1 == [Show(cur), Clear(cur)]
  {
    assert !Moved(cur, cur);
  }

  /** A tap during a running animation restarts it in place: the old ring is
      not cleared first, and the new one runs from now at the cursor. */
  lemma TapRestarts(w: World, cfg: Config, down: set<int>, cur: Point, now: Dword)
    requires WellFormedWorld(w) && w.anim.animating
    requires Gesture.Step(w.gesture, down).1
    ensures var r := LoopStep(w, cfg, down, cur, now);
      && r.1[0] == Show(cur)
      && (r.0.anim.animating ==> r.0.anim == Anim(true, now, cur, cur))
      && LoopStep(w, cfg, down, cur, now) == LoopStep(w.(anim := Idle), cfg, down, cur, now)
  {
    assert !Moved(cur, cur);
  }

  /** With no tap and no animation a pass changes nothing on screen. */
  lemma QuietPass(w: World, cfg: Config, down: set<int>, cur: Point, now: Dword)
    requires WellFormedWorld(w) && !w.anim.animating
    requires !Gesture.Step(w.gesture, down).1
    ensures var r := LoopStep(w, cfg, down, cur, now);
      r.0.anim == w.anim && r.1 == []
  {
  }

  /** A running animation whose time is up ends on this pass, unless a tap
      restarts it. */
  lemma PassEndsAtDuration(w: World, cfg: Config, down: set<int>, cur: Point, now: Dword)
    requires WellFormedWorld(w) && w.anim.animating
    requires !Gesture.Step(w.gesture, down).1
    requires Elapsed(now, w.anim.startTime) as real >= Duration(cfg.speed)
    ensures var r := LoopStep(w, cfg, down, cur, now);
      && !r.0.anim.animating
      && |r.1| == 1 && r.1[0].Clear?
  {
    var g := Gesture.Step(w.gesture, down).0;
    var a2 := CheckCancelStep(w.anim, cfg, cur, g.pre, down).0;
    if a2.animating {
      EndsAtDuration(a2, cfg.speed, cur, now);
    }
  }

  /** What is on screen after a pass matches the state: a running animation
      ends the pass with a ring of radius at least 3 and opacity in [0,1]
      drawn at the cursor; a pass that stops it ends with a clear. */
  lemma OverlayFollowsState(w: World, cfg: Config, down: set<int>, cur: Point, now: Dword)
    requires WellFormedWorld(w)
    ensures var r := LoopStep(w, cfg, down, cur, now);
      && (r.0.anim.animating ==>
            && |r.1| >= 1 && r.1[|r.1| - 1].Draw? && r.1[|r.1| - 1].at == cur
            && MinRadius <= r.1[|r.1| - 1].radius <= MaxRadius
            && 0.0 <= r.1[|r.1| - 1].alpha <= 1.0)
      && (!r.0.anim.animating && r.1 != [] ==> r.1[|r.1| - 1].Clear?)
      && (w.anim.animating && !r.0.anim.animating ==> r.1 != [])
  {
    var (g, trigger) := Gesture.Step(w.gesture, down);
    var (a1, ops1) := if trigger then StartStep(w.anim, cur, now) else (w.anim, []);
    var (a2, ops2) := CheckCancelStep(a1, cfg, cur, g.pre, down);
    if a2.animating {
      FrameRule(a2, Progress(Elapsed(now, a2.startTime), Duration(cfg.speed)), cur);
    }
  }

  /** Every ring drawn in a pass has a radius of at least 3, so it lies in
      the first half of the animation and never uses the fade-out branch. */
  lemma DrawnRingsEarly(w: World, cfg: Config, down: set<int>, cur: Point, now: Dword, i: int)
    requires WellFormedWorld(w)
    requires 0 <= i < |LoopStep(w, cfg, down, cur, now).1|
    requires LoopStep(w, cfg, down, cur, now).1[i].Draw?
    ensures var op := LoopStep(w, cfg, down, cur, now).1[i];
      exists p :: 0.0 <= p < 0.5 && op.radius == Radius(p) && op.alpha == (if p < 0.06 then p / 0.06 else 1.0)
  {
    var (g, trigger) := Gesture.Step(w.gesture, down);
    var (a1, ops1) := if trigger then StartStep(w.anim, cur, now) else (w.anim, []);
    var (a2, ops2) := CheckCancelStep(a1, cfg, cur, g.pre, down);
    var ops := LoopStep(w, cfg, down, cur, now).1;
    assert a2.animating;
    var p := Progress(Elapsed(now, a2.startTime), Duration(cfg.speed));
    assert ops[i] == Draw(cur, Radius(p), Alpha(p));
    DrawnFramesBeforeHalf(p);
    AlphaEnvelope(p);
  }

  // ---------------------------------------------------------------------
  // The loop as an object

  class App {
    const detector: CtrlTapDetector
    const animator: Animator
    const store: Store

    predicate Valid()
      reads this, detector
    {
      detector.Valid()
    }

    function Model(): World
      reads this, detector, detector.preExisting, animator
    {
      World(detector.State(), animator.State())
    }

    constructor ()
      ensures Valid() && Model() == Start && store.cfg == Defaults
      ensures fresh(detector) && fresh(detector.preExisting) && fresh(animator) && fresh(store)
    {
      detector := new CtrlTapDetector();
      animator := new Animator();
      store := new Store();
    }

    /** One pass of the main loop after the message pump, with the keyboard,
        cursor and tick count of this pass. */
    method Tick(down: set<int>, cur: Point, now: Dword) returns (ops: seq<SurfaceOp>)
      requires Valid()
      modifies detector, detector.preExisting, animator
      ensures Valid()
      ensures (Model(), ops) == LoopStep(old(Model()), store.cfg, down, cur, now)
    {
      ghost var w := Model();
      var start := detector.Tick(down);
      ghost var g := detector.State();
      assert (g, start) == Gesture.Step(w.gesture, down);
      assert animator.State() == w.anim;
      ops := [];
      if start {
        ops := animator.Start(cur, now);
      }
      ghost var a1 := animator.State();
      assert (a1, ops) == (if start then StartStep(w.anim, cur, now) else (w.anim, []));
      var o2 := animator.CheckCancel(store.cfg, cur, detector.preExisting, down);
      ghost var a2 := animator.State();
      assert (a2, o2) == CheckCancelStep(a1, store.cfg, cur, g.pre, down);
      var o3 := animator.Render(store.cfg.speed, cur, now);
      assert (animator.State(), o3) == RenderStep(a2, store.cfg.speed, cur, now);
      assert detector.State() == g;
      ops := ops + o2 + o3;
    }
  }
}
