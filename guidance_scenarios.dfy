/** The four scenarios of the host engine's unit test, as lemmas about the
    first step after initialisation.  Each uses one-slot reading buffers and
    history, 100 drops to flip, a one-cycle cooldown and a dead band of 0.5
    rad.  The library values each scenario relies on (0 dB is 1.0 linear,
    and so on) are its preconditions: the model of the library promises only
    the laws in `Numerics`. */
module GuidanceScenarios {
  import opened Numerics
  import opened Guidance

  /** The parameters shared by all four scenarios, with the noise floor of
      each. */
  function TestParams(minValidMag: real): (p: Params)
    ensures p.bufSize == 1 && p.histSize == 1 && Meaningful(p)
  {
    Params(1, 100, 1, 0.5, minValidMag, 1)
  }

  /** Both one-slot buffers, both positions 0. */
  function OneSample(par: real, perp: real): (r: Reading)
    ensures Fits(r, TestParams(0.0)) && Fits(r, TestParams(1.5))
  {
    Reading([par], [perp], 0, 0)
  }

  /** Scenario 1: a 0 dB parallel and a -40 dB perpendicular reading lie
      well inside the dead band, so the engine goes straight ahead. */
  lemma StraightAheadWhenPerpendicularSmall(lib: Libm)
    requires lib.dbToLin(0.0) == 1.0 && lib.dbToLin(-40.0) == 0.01
    requires Abs(lib.atan2(0.01, 1.0)) <= 0.5
    ensures var p := TestParams(0.0);
            StepSpec(InitialSnapshot(p), OneSample(0.0, -40.0), p, lib).0 == StraightAhead
  {
    var p := TestParams(0.0);
    var r := OneSample(0.0, -40.0);
    assert Decode(r, p, lib) == (1.0, 0.01);
  }

  /** Scenario 2: equal parallel and perpendicular readings put the beacon
      at 45 degrees (about 0.785 rad), beyond the dead band on the positive
      side: turn left. */
  lemma TurnLeftWhenComponentsEqual(lib: Libm)
    requires lib.dbToLin(0.0) == 1.0
    requires lib.atan2(1.0, 1.0) > 0.5
    ensures var p := TestParams(0.0);
            StepSpec(InitialSnapshot(p), OneSample(0.0, 0.0), p, lib).0 == TurnLeft
  {
    var p := TestParams(0.0);
    var r := OneSample(0.0, 0.0);
    assert Decode(r, p, lib) == (1.0, 1.0);
  }

  /** Scenario 3: with the noise floor at 1.5, a magnitude of sqrt 2 is too
      weak; the step returns the last command, here turn right, and leaves
      the state as it was. */
  lemma WeakSignalRepeatsLastCommand(lib: Libm)
    requires lib.dbToLin(0.0) == 1.0
    requires lib.sqrt(2.0) * lib.sqrt(2.0) == 2.0
    ensures var p := TestParams(1.5);
            var s := InitialSnapshot(p).(lastDir := TurnRight);
            StepSpec(s, OneSample(0.0, 0.0), p, lib) == (TurnRight, s)
  {
    var p := TestParams(1.5);
    var r := OneSample(0.0, 0.0);
    assert Decode(r, p, lib) == (1.0, 1.0);
    var m := lib.sqrt(2.0);
    if m >= 1.5 {
      ScaleAtMost(1.5, m, m);
      ScaleAtMost(1.5, m, 1.5);
      assert false;
    }
    WeakReadingIsIgnored(InitialSnapshot(p).(lastDir := TurnRight), r, p, lib);
  }

  /** Scenario 4: a state already in reverse mode turns the parallel
      component negative, so the engine says turn around. */
  lemma TurnAroundInReverse(lib: Libm)
    ensures var p := TestParams(0.0);
            var s := InitialSnapshot(p).(mode := InitialSnapshot(p).mode.(reverseLock := true));
            StepSpec(s, OneSample(0.0, 0.0), p, lib).0 == TurnAround
  {
    var p := TestParams(0.0);
    var s := InitialSnapshot(p).(mode := InitialSnapshot(p).mode.(reverseLock := true));
    var r := OneSample(0.0, 0.0);
    StrongReadingUpdates(s, r, p, lib);
  }
}
