/** The ring animation of cursor_ring.cpp: StartAnimation, CancelAnimation,
    CheckCancel, GetDuration, EaseOutQuint, the progress computation of the
    main loop and the radius, end and alpha logic of RenderFrame. Drawing is
    reduced to the operations it performs on the overlay window. */
module Animation {
  import opened Numeric
  import opened Keys
  import opened Settings

  const MaxRadius: real := 88.0
  const MinRadius: real := 3.0
  const MoveThreshold: int := 4

  /** GetTickCount wraps around at 2^32 milliseconds. */
  const TickModulus: int := 0x1_0000_0000

  type Dword = x: int | 0 <= x < TickModulus

  datatype Point = Point(x: int, y: int)

  /** What the animation does to the overlay window: move it to a point and
      show it (SetWindowPos), clear and hide it (ClearAndHide), or draw the
      ring of a radius and opacity centred on a point. */
  datatype SurfaceOp = Show(at: Point) | Clear(at: Point) | Draw(at: Point, radius: real, alpha: real)

  // ---------------------------------------------------------------------
  // Timing

  /** GetDuration, in milliseconds: slow 1600, fast 560, anything else 1050. */
  function Duration(speed: int): (d: real)
    ensures d == 560.0 || d == 1050.0 || d == 1600.0
  {
    match speed
    case 0 => 1600.0
    case 2 => 560.0
    case _ => 1050.0
  }

  /** Slow is slower than normal, which is slower than fast, and every speed
      other than 0 and 2 behaves as normal. */
  lemma DurationOrder(speed: int)
    ensures Duration(0) > Duration(1) > Duration(2) > 0.0
    ensures speed != 0 && speed != 2 ==> Duration(speed) == Duration(1)
  {
  }

  /** `GetTickCount() - g_startTime` in DWORD arithmetic. */
  function Elapsed(now: Dword, start: Dword): (e: Dword)
    ensures now >= start ==> e == now - start
    ensures now < start ==> e == now - start + TickModulus
  {
    (now - start) % TickModulus
  }

  /** The subtraction is right across the wrap of the tick counter: t
      milliseconds after `start` the elapsed time is t, for every t below
      2^32. */
  lemma ElapsedAcrossWrap(start: Dword, t: int)
    requires 0 <= t < TickModulus
    ensures Elapsed((start + t) % TickModulus, start) == t
  {
    if start + t >= TickModulus {
      assert (start + t) % TickModulus == start + t - TickModulus;
    }
  }

  /** min(elapsed / duration, 1). */
  function Progress(elapsed: Dword, duration: real): (p: real)
    requires duration > 0.0
    ensures 0.0 <= p <= 1.0
    ensures elapsed as real >= duration ==> p == 1.0
    ensures elapsed as real < duration ==> p == elapsed as real / duration
  {
    var q := elapsed as real / duration;
    RatioBounds(elapsed as real, duration);
    if q < 1.0 then q else 1.0
  }

  lemma RatioBounds(a: real, d: real)
    requires a >= 0.0 && d > 0.0
    ensures a / d >= 0.0
    ensures a >= d <==> a / d >= 1.0
  {
    assert a / d * d == a;
  }

  // ---------------------------------------------------------------------
  // Frame

  /** x to the power n. */
  function Pow(x: real, n: nat): real
    decreases n
  {
    if n == 0 then 1.0 else x * Pow(x, n - 1)
  }

  /** EaseOutQuint: 1 - (1 - t)^5 with t clamped to [0,1]. */
  function EaseOutQuint(t: real): (e: real)
    ensures 0.0 <= e <= 1.0
  {
    PowBounds(1.0 - Clamp01(t), 5);
    1.0 - Pow(1.0 - Clamp01(t), 5)
  }

  /** The ring radius for a progress: 88 (1 - EaseOutQuint(p)). */
  function Radius(p: real): (r: real)
    ensures 0.0 <= r <= MaxRadius
  {
    MaxRadius * (1.0 - EaseOutQuint(p))
  }

  /** The opacity envelope: fade in over the first 6%, full until 72%, fade
      out over the rest, clamped. */
  function Alpha(p: real): (a: real)
    ensures 0.0 <= a <= 1.0
  {
    Clamp01(if p < 0.06 then p / 0.06 else if p < 0.72 then 1.0 else 1.0 - (p - 0.72) / 0.28)
  }

  lemma {:induction false} PowBounds(x: real, n: nat)
    requires 0.0 <= x <= 1.0
    ensures 0.0 <= Pow(x, n) <= 1.0
    decreases n
  {
    if n > 0 {
      PowBounds(x, n - 1);
      MulLe(x, 1.0, Pow(x, n - 1), 1.0);
    }
  }

  lemma MulLe(a: real, b: real, c: real, d: real)
    requires 0.0 <= a <= b && 0.0 <= c <= d
    ensures 0.0 <= a * c <= b * d
  {
    assert (b - a) * c >= 0.0;
    assert b * (d - c) >= 0.0;
  }

  lemma {:induction false} PowMonotone(x: real, y: real, n: nat)
    requires 0.0 <= x <= y
    ensures 0.0 <= Pow(x, n) <= Pow(y, n)
    decreases n
  {
    if n > 0 {
      PowMonotone(x, y, n - 1);
      MulLe(x, y, Pow(x, n - 1), Pow(y, n - 1));
    }
  }

  lemma HalfToTheFifth()
    ensures Pow(0.5, 5) == 0.03125
  {
  }

  /** The radius is 88 at the start, never grows, and is 0 from p = 1 on. */
  lemma RadiusShrinks(p1: real, p2: real)
    requires p1 <= p2
    ensures Radius(p2) <= Radius(p1)
    ensures p1 <= 0.0 ==> Radius(p1) == MaxRadius
    ensures p2 >= 1.0 ==> Radius(p2) == 0.0
  {
    Clamp01Monotone(p1, p2);
    PowMonotone(1.0 - Clamp01(p2), 1.0 - Clamp01(p1), 5);
  }

  /** A frame is drawn only while p < 1/2: from then on 88 (1-p)^5 is at
      most 2.75 < 3. Since 1/2 < 0.72, the fade-out branch of the alpha
      envelope never reaches a drawn frame. */
  lemma DrawnFramesBeforeHalf(p: real)
    requires Radius(p) >= MinRadius
    ensures p < 0.5
    ensures Alpha(p) == (if p < 0.06 then Clamp01(p / 0.06) else 1.0)
  {
    if p >= 0.5 {
      PowMonotone(1.0 - Clamp01(p), 0.5, 5);
      HalfToTheFifth();
      assert false;
    }
  }

  /** The three pieces of the envelope, and transparency at the end. */
  lemma AlphaEnvelope(p: real)
    ensures 0.0 <= p < 0.06 ==> Alpha(p) == p / 0.06
    ensures 0.06 <= p < 0.72 ==> Alpha(p) == 1.0
    ensures 0.72 <= p <= 1.0 ==> Alpha(p) == 1.0 - (p - 0.72) / 0.28
    ensures p >= 1.0 ==> Alpha(p) == 0.0
  {
    if 0.0 <= p < 0.06 {
      QuotientInUnit(p, 0.06);
    } else if 0.72 <= p <= 1.0 {
      QuotientInUnit(p - 0.72, 0.28);
    }
  }

  lemma QuotientInUnit(a: real, d: real)
    requires 0.0 <= a <= d && d > 0.0
    ensures 0.0 <= a / d <= 1.0
  {
    assert a / d * d == a;
  }

  // ---------------------------------------------------------------------
  // Controller

  /** g_animating, g_startTime, g_animStart and g_cursor (where the ring was
      last shown). */
  datatype Anim = Anim(animating: bool, startTime: Dword, animStart: Point, cursor: Point)

  const Idle := Anim(false, 0, Point(0, 0), Point(0, 0))

  /** StartAnimation, with the cursor position and tick count it reads: no
      guard, so a running animation restarts where the cursor now is. */
  function StartStep(a: Anim, cur: Point, now: Dword): (Anim, seq<SurfaceOp>) {
    (Anim(true, now, cur, cur), [Show(cur)])
  }

  /** CancelAnimation: only a running animation is stopped and its surface
      cleared where it was last shown. */
  function CancelStep(a: Anim): (Anim, seq<SurfaceOp>) {
    if !a.animating then (a, []) else (a.(animating := false), [Clear(a.cursor)])
  }

  /** The cursor moved more than MOVE_THR pixels from the start point. */
  predicate Moved(from: Point, to: Point) {
    var dx, dy := to.x - from.x, to.y - from.y;
    dx * dx + dy * dy > MoveThreshold * MoveThreshold
  }

  /** CheckCancel, with the cursor position and keyboard it reads and the
      keys recorded at the last Ctrl press. */
  function CheckCancelStep(a: Anim, cfg: Config, cur: Point, pre: seq<bool>, down: set<int>): (Anim, seq<SurfaceOp>)
    requires |pre| == 256
  {
    if !a.animating then (a, [])
    else if cfg.moveCancel && Moved(a.animStart, cur) then CancelStep(a)
    else if NewKeyDown(pre, down) then CancelStep(a)
    else (a, [])
  }

  /** RenderFrame(progress) after the loop has read the cursor: below the
      minimum radius the animation ends and the surface is cleared,
      otherwise the ring is drawn at the cursor. */
  function FrameStep(a: Anim, p: real, cur: Point): (Anim, seq<SurfaceOp>) {
    var r := Radius(p);
    if r < MinRadius then (a.(animating := false, cursor := cur), [Clear(cur)])
    else (a.(cursor := cur), [Draw(cur, r, Alpha(p))])
  }

  /** The animating branch of the main loop: progress from the wrapped
      elapsed time, then the frame. */
  function RenderStep(a: Anim, speed: int, cur: Point, now: Dword): (Anim, seq<SurfaceOp>) {
    if !a.animating then (a, [])
    else FrameStep(a, Progress(Elapsed(now, a.startTime), Duration(speed)), cur)
  }

  // ---------------------------------------------------------------------
  // Properties of the controller

  /** Cancelling stops a running animation and clears its surface once; with
      no animation it changes nothing. */
  lemma CancelEffect(a: Anim)
    ensures !CancelStep(a).0.animating
    ensures !a.animating ==> CancelStep(a) == (a, [])
    ensures a.animating ==> CancelStep(a) == (a.(animating := false), [Clear(a.cursor)])
    ensures CancelStep(CancelStep(a).0) == (CancelStep(a).0, [])
  {
  }

  /** CheckCancel stops a running animation exactly when (with move-cancel
      on) the cursor moved more than 4 pixels or a key that was not held at
      the Ctrl press, other than Ctrl, is down; otherwise it changes
      nothing. */
  lemma CheckCancelRule(a: Anim, cfg: Config, cur: Point, pre: seq<bool>, down: set<int>)
    requires |pre| == 256
    ensures var cancel := a.animating && ((cfg.moveCancel && Moved(a.animStart, cur)) || NewKeyDown(pre, down));
      && CheckCancelStep(a, cfg, cur, pre, down).0 == a.(animating := a.animating && !cancel)
      && CheckCancelStep(a, cfg, cur, pre, down).1 == (if cancel then [Clear(a.cursor)] else [])
  {
  }

  /** Without move-cancel the cursor is irrelevant. */
  lemma MoveCancelOff(a: Anim, cfg: Config, c1: Point, c2: Point, pre: seq<bool>, down: set<int>)
    requires |pre| == 256 && !cfg.moveCancel
    ensures CheckCancelStep(a, cfg, c1, pre, down) == CheckCancelStep(a, cfg, c2, pre, down)
  {
  }

  /** A cursor within the threshold (in both axes) never counts as moved. */
  lemma SmallMoveIgnored(from: Point, to: Point)
    requires -2 <= to.x - from.x <= 2 && -2 <= to.y - from.y <= 2
    ensures !Moved(from, to)
  {
    var dx, dy := to.x - from.x, to.y - from.y;
    assert dx * dx <= 4 && dy * dy <= 4;
  }

  /** Starting restarts: whatever the state, the animation runs from now at
      the current cursor. */
  lemma StartRestarts(a: Anim, cur: Point, now: Dword)
    ensures var s := StartStep(a, cur, now).0;
      s.animating && s.startTime == now && s.animStart == cur && s.cursor == cur
    ensures StartStep(a, cur, now).0 == StartStep(Idle, cur, now).0
  {
  }

  /** A frame ends the animation exactly when its radius is below 3, and a
      drawn frame has a radius in [3,88] and an opacity in [0,1]. */
  lemma FrameRule(a: Anim, p: real, cur: Point)
    ensures FrameStep(a, p, cur).0.animating <==> a.animating && Radius(p) >= MinRadius
    ensures var ops := FrameStep(a, p, cur).1;
      |ops| == 1 && (ops[0].Draw? ==> MinRadius <= ops[0].radius <= MaxRadius && 0.0 <= ops[0].alpha <= 1.0)
    ensures p >= 1.0 ==> FrameStep(a, p, cur) == (a.(animating := false, cursor := cur), [Clear(cur)])
  {
    if p >= 1.0 {
      RadiusShrinks(p, p);
    }
  }

  /** The pass that starts an animation renders its first frame at once:
      zero elapsed time, full radius, zero opacity. */
  lemma FirstFrame(speed: int, cur: Point, now: Dword)
    ensures RenderStep(Anim(true, now, cur, cur), speed, cur, now)
      == (Anim(true, now, cur, cur), [Draw(cur, MaxRadius, 0.0)])
  {
    assert Elapsed(now, now) == 0;
    ZeroProgress(Duration(speed));
    StartOfEnvelope();
  }

  lemma ZeroProgress(d: real)
    requires d > 0.0
    ensures Progress(0, d) == 0.0
  {
  }

  lemma StartOfEnvelope()
    ensures Radius(0.0) == MaxRadius && Alpha(0.0) == 0.0
  {
    RadiusShrinks(0.0, 0.0);
    AlphaEnvelope(0.0);
  }

  /** Once the elapsed time reaches the duration the animation ends on that
      tick. */
  lemma EndsAtDuration(a: Anim, speed: int, cur: Point, now: Dword)
    requires a.animating
    requires Elapsed(now, a.startTime) as real >= Duration(speed)
    ensures RenderStep(a, speed, cur, now) == (a.(animating := false, cursor := cur), [Clear(cur)])
  {
    FrameRule(a, 1.0, cur);
  }

  // ---------------------------------------------------------------------
  // The controller as an object

  class Animator {
    var animating: bool
    var startTime: Dword
    var animStart: Point
    var cursor: Point

    function State(): Anim
      reads this
    {
      Anim(animating, startTime, animStart, cursor)
    }

    constructor ()
      ensures State() == Idle
    {
      animating, startTime, animStart, cursor := false, 0, Point(0, 0), Point(0, 0);
    }

    /** StartAnimation; `cur` is GetCursorPos and `now` GetTickCount. */
    method Start(cur: Point, now: Dword) returns (ops: seq<SurfaceOp>)
      modifies this
      ensures (State(), ops) == StartStep(old(State()), cur, now)
    {
      cursor := cur;
      animStart := cursor;
      animating := true;
      startTime := now;
      ops := [Show(cursor)];
    }

    method Cancel() returns (ops: seq<SurfaceOp>)
      modifies this
      ensures (State(), ops) == CancelStep(old(State()))
    {
      if !animating {
        return [];
      }
      animating := false;
      ops := [Clear(cursor)];
    }

    /** CheckCancel; `pre` is g_preExisting and `down` the keyboard. */
    method CheckCancel(cfg: Config, cur: Point, pre: array<bool>, down: set<int>) returns (ops: seq<SurfaceOp>)
      requires pre.Length == 256
      modifies this
      ensures (State(), ops) == CheckCancelStep(old(State()), cfg, cur, pre[..], down)
    {
      if !animating {
        return [];
      }
      if cfg.moveCancel {
        var dx, dy := cur.x - animStart.x, cur.y - animStart.y;
        if dx * dx + dy * dy > MoveThreshold * MoveThreshold {
          ops := Cancel();
          return;
        }
      }
      var found := AnyNewKeyPressed(pre, down);
      if found {
        ops := Cancel();
      } else {
        ops := [];
      }
    }

    /** RenderFrame(progress) after the loop stored the cursor. */
    method RenderFrame(p: real, cur: Point) returns (ops: seq<SurfaceOp>)
      modifies this
      ensures (State(), ops) == FrameStep(old(State()), p, cur)
    {
      cursor := cur;
      var r := MaxRadius * (1.0 - EaseOutQuint(p));
      if r < MinRadius {
        animating := false;
        ops := [Clear(cursor)];
        return;
      }
      var alpha: real;
      if p < 0.06 {
        alpha := p / 0.06;
      } else if p < 0.72 {
        alpha := 1.0;
      } else {
        alpha := 1.0 - (p - 0.72) / 0.28;
      }
      alpha := Clamp01(alpha);
      ops := [Draw(cursor, r, alpha)];
    }

    /** The `if(g_animating)` block of the main loop. */
    method Render(speed: int, cur: Point, now: Dword) returns (ops: seq<SurfaceOp>)
      modifies this
      ensures (State(), ops) == RenderStep(old(State()), speed, cur, now)
    {
      if !animating {
        return [];
      }
      var elapsed := (now - startTime) % TickModulus;
      var d := Duration(speed);
      var q := elapsed as real / d;
      var progress := if q < 1.0 then q else 1.0;
      ops := RenderFrame(progress, cur);
    }
  }
}
