/** The Ctrl-tap detector of the main loop (g_ctrlWas, g_comboDetected,
    g_preExisting): a lone press and release of Ctrl starts the animation,
    a press during which some other key went down does not. */
module Gesture {
  import opened Keys

  /** The detector's globals; `pre` is g_preExisting (256 entries). */
  datatype Detector = Detector(ctrlWas: bool, combo: bool, pre: seq<bool>)

  predicate WellFormed(g: Detector) {
    |g.pre| == 256
  }

  /** All three globals zero-initialised. */
  const Initial := Detector(false, false, seq(256, _ => false))

  /** One tick of the gesture block: on the press tick the combo flag is
      reset and the held keys are recorded; while Ctrl is down a new key sets
      the flag; on the release tick the animation is triggered if the flag is
      clear, and the flag is cleared. Returns the new detector and whether
      StartAnimation is called. */
  function Step(g: Detector, down: set<int>): (r: (Detector, bool))
    requires WellFormed(g)
    ensures WellFormed(r.0)
    ensures r.0.ctrlWas == CtrlDown(down)
  {
    var ctrlDown := CtrlDown(down);
    var pressed := ctrlDown && !g.ctrlWas;
    var pre := if pressed then Snapshot(down) else g.pre;
    var combo := if pressed then false else g.combo;
    var combo' := if ctrlDown && NewKeyDown(pre, down) then true else combo;
    var released := !ctrlDown && g.ctrlWas;
    var trigger := released && !combo';
    (Detector(ctrlDown, if released then false else combo', pre), trigger)
  }

  /** A sequence of ticks: the final detector and, per tick, whether it
      triggered. */
  function Run(g: Detector, ticks: seq<set<int>>): (r: (Detector, seq<bool>))
    requires WellFormed(g)
    ensures WellFormed(r.0) && |r.1| == |ticks|
    decreases |ticks|
  {
    if |ticks| == 0 then (g, [])
    else
      var s := Step(g, ticks[0]);
      var rest := Run(s.0, ticks[1..]);
      (rest.0, [s.1] + rest.1)
  }

  // ---------------------------------------------------------------------
  // One tick

  /** The trigger rule: a tick starts the animation exactly when Ctrl goes
      from down to up with no combo seen. */
  lemma TriggerRule(g: Detector, down: set<int>)
    requires WellFormed(g)
    ensures Step(g, down).1 <==> (g.ctrlWas && !CtrlDown(down) && !g.combo)
    ensures g.ctrlWas && !CtrlDown(down) ==> !Step(g, down).0.combo
  {
  }

  /** The press tick records the held keys, which therefore do not
      disqualify on that same tick. */
  lemma PressTick(g: Detector, down: set<int>)
    requires WellFormed(g) && !g.ctrlWas && CtrlDown(down)
    ensures Step(g, down) == (Detector(true, false, Snapshot(down)), false)
  {
    SnapshotExempt(down, down);
  }

  /** While Ctrl stays down the snapshot is kept, a set flag stays set even if
      the offending key is let go, and a clear flag is set exactly when a new
      key is down. */
  lemma HeldTick(g: Detector, down: set<int>)
    requires WellFormed(g) && g.ctrlWas && CtrlDown(down)
    ensures Step(g, down).0 == Detector(true, g.combo || NewKeyDown(g.pre, down), g.pre)
    ensures !Step(g, down).1
  {
  }

  /** With Ctrl up and not just released, nothing changes. */
  lemma IdleTick(g: Detector, down: set<int>)
    requires WellFormed(g) && !g.ctrlWas && !CtrlDown(down)
    ensures Step(g, down) == (g, false)
  {
  }

  // ---------------------------------------------------------------------
  // A whole press cycle

  /** Ticks with Ctrl held keep the snapshot, accumulate the flag and never
      trigger. */
  lemma {:induction false} HeldRun(g: Detector, ticks: seq<set<int>>)
    requires WellFormed(g) && g.ctrlWas
    requires forall k :: 0 <= k < |ticks| ==> CtrlDown(ticks[k])
    ensures Run(g, ticks).0 == Detector(true, g.combo || exists k :: 0 <= k < |ticks| && NewKeyDown(g.pre, ticks[k]), g.pre)
    ensures forall k :: 0 <= k < |ticks| ==> !Run(g, ticks).1[k]
    decreases |ticks|
  {
    if |ticks| > 0 {
      HeldTick(g, ticks[0]);
      var g1 := Step(g, ticks[0]).0;
      HeldRun(g1, ticks[1..]);
      var rest := ticks[1..];
      assert (exists k :: 0 <= k < |ticks| && NewKeyDown(g.pre, ticks[k]))
        <==> NewKeyDown(g.pre, ticks[0]) || exists k :: 0 <= k < |rest| && NewKeyDown(g.pre, rest[k])
      by {
        if exists k :: 0 <= k < |ticks| && NewKeyDown(g.pre, ticks[k]) {
          var k :| 0 <= k < |ticks| && NewKeyDown(g.pre, ticks[k]);
          if k > 0 { assert rest[k - 1] == ticks[k]; }
        }
        if exists k :: 0 <= k < |rest| && NewKeyDown(g.pre, rest[k]) {
          var k :| 0 <= k < |rest| && NewKeyDown(g.pre, rest[k]);
          assert ticks[k + 1] == rest[k];
        }
      }
    }
  }

  /** A full press cycle (press, held ticks, release) triggers once, on the
      release, exactly when no tick with Ctrl down had a key that was not
      held at the press; then the flag is clear again. */
  lemma {:induction false} PressCycle(g: Detector, press: set<int>, held: seq<set<int>>, release: set<int>)
    requires WellFormed(g) && !g.ctrlWas
    requires CtrlDown(press) && !CtrlDown(release)
    requires forall k :: 0 <= k < |held| ==> CtrlDown(held[k])
    ensures var r := Run(g, [press] + held + [release]);
      && (forall k :: 0 <= k < |held| + 1 ==> !r.1[k])
      && (r.1[|held| + 1] <==> !exists k :: 0 <= k < |held| && NewKeyDown(Snapshot(press), held[k]))
      && r.0 == Detector(false, false, Snapshot(press))
  {
    var ticks := [press] + held + [release];
    PressTick(g, press);
    var g1 := Detector(true, false, Snapshot(press));
    assert ticks[1..] == held + [release];
    RunAppend(g1, held, [release]);
    HeldRun(g1, held);
    var g2 := Run(g1, held).0;
    TriggerRule(g2, release);
    assert Run(g2, [release]).1 == [Step(g2, release).1];
  }

  /** Running two stretches one after the other. */
  lemma {:induction false} RunAppend(g: Detector, a: seq<set<int>>, b: seq<set<int>>)
    requires WellFormed(g)
    ensures Run(g, a + b).0 == Run(Run(g, a).0, b).0
    ensures Run(g, a + b).1 == Run(g, a).1 + Run(Run(g, a).0, b).1
    decreases |a|
  {
    if |a| == 0 {
      assert a + b == b;
    } else {
      assert (a + b)[0] == a[0] && (a + b)[1..] == a[1..] + b;
      RunAppend(Step(g, a[0]).0, a[1..], b);
    }
  }

  // ---------------------------------------------------------------------
  // The detector as an object

  class CtrlTapDetector {
    var ctrlWas: bool
    var combo: bool
    const preExisting: array<bool>

    predicate Valid()
      reads this
    {
      preExisting.Length == 256
    }

    function State(): Detector
      reads this, preExisting
    {
      Detector(ctrlWas, combo, preExisting[..])
    }

    constructor ()
      ensures Valid() && State() == Initial && fresh(preExisting)
    {
      ctrlWas, combo := false, false;
      preExisting := new bool[256](_ => false);
    }

    /** The gesture block of one tick; returns whether StartAnimation is
        called. */
    method Tick(down: set<int>) returns (start: bool)
      requires Valid()
      modifies this, preExisting
      ensures Valid()
      ensures (State(), start) == Step(old(State()), down)
    {
      ghost var g := State();
      var ctrlDown := CtrlDown(down);
      if ctrlDown && !ctrlWas {
        combo := false;
        // memset(g_preExisting, 0, ...)
        forall i | 0 <= i < 256 {
          preExisting[i] := false;
        }
        for vk := 1 to 256
          modifies preExisting
          invariant !preExisting[0]
          invariant forall k :: 1 <= k < vk ==> (preExisting[k] <==> k in down)
          invariant forall k :: vk <= k < 256 ==> !preExisting[k]
        {
          if vk in down {
            preExisting[vk] := true;
          }
        }
        assert preExisting[..] == Snapshot(down);
      }
      ghost var pre := if ctrlDown && !g.ctrlWas then Snapshot(down) else g.pre;
      assert preExisting[..] == pre;
      assert combo == (if ctrlDown && !g.ctrlWas then false else g.combo);
      if ctrlDown {
        var found := AnyNewKeyPressed(preExisting, down);
        if found {
          combo := true;
        }
      }
      assert combo == (if ctrlDown && NewKeyDown(pre, down) then true
                       else if ctrlDown && !g.ctrlWas then false else g.combo);
      start := false;
      if !ctrlDown && ctrlWas {
        if !combo {
          start := true;
        }
        combo := false;
      }
      ctrlWas := ctrlDown;
    }
  }
}
