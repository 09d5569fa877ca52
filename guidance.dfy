/** The guidance decision engine of the host build (beaconTracking): one call
    per measurement cycle takes the newest parallel and perpendicular
    readings, in dB, and returns a steering command.  A rolling average of
    the combined magnitude detects a sustained drop in signal; enough drops
    in a row flip a forward/reverse mode, and in reverse mode the reading
    vector is turned round before the direction is chosen. */
module Guidance {
  import opened Numerics
  import opened CircBuf
  import opened RollingSum

  /** The four steering commands. */
  datatype Direction = StraightAhead | TurnLeft | TurnRight | TurnAround

  /** GuidanceParams: fixed for a session and never changed by the engine. */
  datatype Params = Params(
    bufSize: nat,       // length of the two reading buffers
    dropSteps: int,     // drops in a row that flip the mode
    reverseCd: int,     // cycles of cooldown after a flip
    fwdThresh: real,    // half-angle, in radians, still counted as straight
    minValidMag: real,  // magnitudes below this are ignored
    histSize: nat)      // length of the magnitude history

  /** The settings under which the hysteresis behaves as designed: at least
      one drop to flip, and a cooldown that is not negative. */
  predicate Meaningful(p: Params) {
    p.dropSteps >= 1 && p.reverseCd >= 0
  }

  /** The hysteresis part of GuidanceState. */
  datatype Mode = Mode(fwdDrops: int, revDrops: int, reverseLock: bool, cdTimer: int)

  /** The whole of a GuidanceState as a value: the history ring and its
      cursor, the rolling sum, the mode and the last command. */
  datatype Snapshot = Snapshot(ring: seq<real>, cursor: nat, sum: real, mode: Mode, lastDir: Direction)

  /** One cycle's input: the two dB buffers and their write positions. */
  datatype Reading = Reading(gbufx: seq<real>, gbufy: seq<real>, posx: nat, posy: nat)

  /** The caller's side of the contract: both buffers hold `bufSize` values. */
  predicate Fits(r: Reading, p: Params) {
    |r.gbufx| == p.bufSize && |r.gbufy| == p.bufSize
  }

  /** The shape an initialised state keeps: one slot per history entry and
      the cursor among them. */
  predicate WellFormed(s: Snapshot, p: Params) {
    |s.ring| == p.histSize && s.cursor < p.histSize
  }

  // ---------------------------------------------------------------------
  // Initialisation

  /** The state guidance_state_init produces: every history slot holds the
      noise floor, the sum is their total, the mode is forward with no drops
      counted, no cooldown, and the last command is straight ahead. */
  function InitialSnapshot(p: Params): (s: Snapshot)
    ensures p.histSize > 0 ==> WellFormed(s, p)
    ensures |s.ring| == p.histSize && forall k :: 0 <= k < |s.ring| ==> s.ring[k] == p.minValidMag
    ensures s.sum == Sum(s.ring)
  {
    SumConst(p.minValidMag, p.histSize);
    Snapshot(seq(p.histSize, _ => p.minValidMag), 0, p.minValidMag * (p.histSize as real),
             Mode(0, 0, false, 0), StraightAhead)
  }

  // ---------------------------------------------------------------------
  // Step 1: locating the newest sample

  /** The slot of the newest sample, given the position the next sample will
      be written to: the slot just before it, circularly.  A position past
      the end counts as 0, so it, like 0 itself, selects the last slot. */
  function NewestIndex(pos: nat, bufSize: nat): (i: nat)
    requires bufSize > 0
    ensures i < bufSize
    ensures 0 < pos < bufSize ==> i == pos - 1
    ensures pos == 0 || pos >= bufSize ==> i == bufSize - 1
    ensures NextIdx(i, bufSize) == (if pos < bufSize then pos else 0)
  {
    var j := if pos < bufSize then pos else 0;
    if j != 0 then j - 1 else bufSize - 1
  }

  // ---------------------------------------------------------------------
  // Steps 2-4: decoding, magnitude, weak-signal gate

  /** The newest parallel and perpendicular readings, in linear units. */
  function Decode(r: Reading, p: Params, lib: Libm): (lin: (real, real))
    requires p.bufSize > 0 && Fits(r, p)
    ensures lin.0 > 0.0 && lin.1 > 0.0
  {
    (lib.dbToLin(r.gbufx[NewestIndex(r.posx, p.bufSize)]),
     lib.dbToLin(r.gbufy[NewestIndex(r.posy, p.bufSize)]))
  }

  /** The combined strength sqrt(par^2 + perp^2). */
  function Magnitude(par: real, perp: real, lib: Libm): (m: real)
    ensures m >= 0.0
  {
    lib.sqrt(par * par + perp * perp)
  }

  /** A reading too weak to act on. */
  predicate Weak(r: Reading, p: Params, lib: Libm)
    requires p.bufSize > 0 && Fits(r, p)
    ensures Weak(r, p, lib) ==> p.minValidMag > 0.0
  {
    var lin := Decode(r, p, lib);
    Magnitude(lin.0, lin.1, lib) < p.minValidMag
  }

  // ---------------------------------------------------------------------
  // Step 8: cooldown and mode

  /** One cycle of the hysteresis machine.  A running cooldown is counted
      down and nothing else happens.  Otherwise the counter of the current
      mode counts the drop or is reset, and on reaching `dropSteps` the mode
      flips, that counter is cleared and the cooldown is armed.  So no flip
      happens during a cooldown, every flip arms it, and a cycle without a
      drop never flips when `dropSteps` is at least 1. */
  function UpdateMode(m: Mode, drop: bool, p: Params): (r: Mode)
    ensures m.cdTimer > 0 ==> r.reverseLock == m.reverseLock
    ensures r.reverseLock != m.reverseLock ==> r.cdTimer == p.reverseCd
    ensures !drop && p.dropSteps >= 1 ==> r.reverseLock == m.reverseLock
  {
    if m.cdTimer > 0 then
      m.(cdTimer := m.cdTimer - 1)
    else if !m.reverseLock then
      var f := if drop then m.fwdDrops + 1 else 0;
      if f >= p.dropSteps then m.(reverseLock := true, fwdDrops := 0, cdTimer := p.reverseCd)
      else m.(fwdDrops := f)
    else
      var b := if drop then m.revDrops + 1 else 0;
      if b >= p.dropSteps then m.(reverseLock := false, revDrops := 0, cdTimer := p.reverseCd)
      else m.(revDrops := b)
  }

  /** While the cooldown runs, neither counter and not the mode change, and
      the cooldown goes down by exactly one. */
  lemma CooldownSuppressesCounting(m: Mode, drop: bool, p: Params)
    requires m.cdTimer > 0
    ensures UpdateMode(m, drop, p).cdTimer == m.cdTimer - 1
    ensures UpdateMode(m, drop, p).fwdDrops == m.fwdDrops
    ensures UpdateMode(m, drop, p).revDrops == m.revDrops
    ensures UpdateMode(m, drop, p).reverseLock == m.reverseLock
  {
  }

  /** Outside cooldown the active counter becomes counter+1 on a drop and 0
      otherwise, unless that reaches `dropSteps`: then the mode flips, the
      counter is 0 and the cooldown is `reverseCd`.  The other counter is
      never touched. */
  lemma CountingOutsideCooldown(m: Mode, drop: bool, p: Params)
    requires m.cdTimer <= 0
    ensures var c := if m.reverseLock then m.revDrops else m.fwdDrops;
            var next := if drop then c + 1 else 0;
            var r := UpdateMode(m, drop, p);
            && (r.reverseLock != m.reverseLock <==> next >= p.dropSteps)
            && (if m.reverseLock then r.revDrops else r.fwdDrops) == (if next >= p.dropSteps then 0 else next)
            && (if m.reverseLock then r.fwdDrops == m.fwdDrops else r.revDrops == m.revDrops)
            && r.cdTimer == (if next >= p.dropSteps then p.reverseCd else m.cdTimer)
  {
  }

  /** The bounds the hysteresis keeps in every state reached from
      initialisation: both counters below `dropSteps`, the inactive mode's
      counter at 0, and the cooldown within [0, reverseCd]. */
  predicate ModeInv(m: Mode, p: Params) {
    && 0 <= m.fwdDrops < p.dropSteps
    && 0 <= m.revDrops < p.dropSteps
    && (m.reverseLock ==> m.fwdDrops == 0)
    && (!m.reverseLock ==> m.revDrops == 0)
    && 0 <= m.cdTimer <= p.reverseCd
  }

  lemma UpdateModePreservesInv(m: Mode, drop: bool, p: Params)
    requires Meaningful(p) && ModeInv(m, p)
    ensures ModeInv(UpdateMode(m, drop, p), p)
  {
  }

  /** The hysteresis machine run over a sequence of drop verdicts. */
  function Cycles(m: Mode, drops: seq<bool>, p: Params): Mode
    decreases |drops|
  {
    if drops == [] then m else Cycles(UpdateMode(m, drops[0], p), drops[1..], p)
  }

  /** A cooldown of `k` cycles swallows the next `k` verdicts whatever they
      are: only the timer moves. */
  lemma {:induction false} CooldownExpires(m: Mode, drops: seq<bool>, p: Params)
    requires |drops| <= m.cdTimer
    ensures Cycles(m, drops, p) == m.(cdTimer := m.cdTimer - |drops|)
    decreases |drops|
  {
    if drops != [] {
      CooldownExpires(m.(cdTimer := m.cdTimer - 1), drops[1..], p);
    }
  }

  /** In forward mode outside cooldown, consecutive drops are counted one by
      one; the flip comes with exactly the `dropSteps`-th, not before. */
  lemma {:induction false} ConsecutiveDropsFlip(m: Mode, drops: seq<bool>, p: Params)
    requires m.cdTimer <= 0 && !m.reverseLock && 0 <= m.fwdDrops
    requires forall i :: 0 <= i < |drops| ==> drops[i]
    requires m.fwdDrops + |drops| <= p.dropSteps
    ensures m.fwdDrops + |drops| < p.dropSteps ==>
              Cycles(m, drops, p) == m.(fwdDrops := m.fwdDrops + |drops|)
    ensures |drops| > 0 && m.fwdDrops + |drops| == p.dropSteps ==>
              Cycles(m, drops, p) == m.(reverseLock := true, fwdDrops := 0, cdTimer := p.reverseCd)
    decreases |drops|
  {
    if drops != [] {
      if m.fwdDrops + 1 < p.dropSteps {
        ConsecutiveDropsFlip(m.(fwdDrops := m.fwdDrops + 1), drops[1..], p);
      } else {
        assert drops[1..] == [];
      }
    }
  }

  // ---------------------------------------------------------------------
  // Steps 9-10: orientation and decision

  /** A component as seen in the current mode: negated in reverse. */
  function Orient(x: real, reverseLock: bool): (r: real)
    ensures r == x || r == -x
    ensures x > 0.0 ==> (r < 0.0 <==> reverseLock)
  {
    if reverseLock then -x else x
  }

  /** The sector decision on the oriented vector: behind the device means
      turn around; otherwise the angle off the parallel axis decides, with
      the dead band's edge counted as straight, and its sign picks the side. */
  function Decide(par: real, perp: real, reverseLock: bool, fwdThresh: real, lib: Libm): (d: Direction)
    ensures d == TurnAround <==> Orient(par, reverseLock) < 0.0
    ensures d != TurnAround ==>
              var angle := lib.atan2(Orient(perp, reverseLock), Orient(par, reverseLock));
              && (d == StraightAhead <==> Abs(angle) <= fwdThresh)
              && (d == TurnLeft <==> Abs(angle) > fwdThresh && angle > 0.0)
  {
    var ppar := Orient(par, reverseLock);
    var pperp := Orient(perp, reverseLock);
    if ppar < 0.0 then
      TurnAround
    else
      var ang := lib.atan2(pperp, ppar);
      if Abs(ang) <= fwdThresh then StraightAhead
      else if ang > 0.0 then TurnLeft
      else TurnRight
  }

  /** With a positive parallel component (every decoded reading has one),
      the engine says turn around exactly when it is in reverse mode. */
  lemma TurnAroundIffReverse(par: real, perp: real, reverseLock: bool, fwdThresh: real, lib: Libm)
    requires par > 0.0
    ensures Decide(par, perp, reverseLock, fwdThresh, lib) == TurnAround <==> reverseLock
  {
  }

  /** In forward mode the side follows the perpendicular component: left
      only when it is positive, right only when it is negative, and a reading
      straight down the parallel axis is straight ahead. */
  lemma ForwardSideFollowsPerpendicular(par: real, perp: real, fwdThresh: real, lib: Libm)
    requires par > 0.0 && fwdThresh >= 0.0
    ensures var d := Decide(par, perp, false, fwdThresh, lib);
            && (d == TurnLeft ==> perp > 0.0)
            && (d == TurnRight ==> perp < 0.0)
            && (perp == 0.0 ==> d == StraightAhead)
  {
  }

  // ---------------------------------------------------------------------
  // The whole step

  /** guidance_step on values: the command it returns and the state it
      leaves behind. */
  function StepSpec(s: Snapshot, r: Reading, p: Params, lib: Libm): (res: (Direction, Snapshot))
    requires WellFormed(s, p) && p.bufSize > 0 && Fits(r, p)
    ensures WellFormed(res.1, p)
  {
    var lin := Decode(r, p, lib);
    var mag := Magnitude(lin.0, lin.1, lib);
    if mag < p.minValidMag then
      (s.lastDir, s)
    else
      var drop := mag < s.sum / (p.histSize as real);
      var mode := UpdateMode(s.mode, drop, p);
      var dir := Decide(lin.0, lin.1, mode.reverseLock, p.fwdThresh, lib);
      (dir, Snapshot(s.ring[s.cursor := mag], NextIdx(s.cursor, p.histSize),
                     s.sum - s.ring[s.cursor] + mag, mode, dir))
  }

  /** A weak reading replays the last command and changes nothing at all. */
  lemma WeakReadingIsIgnored(s: Snapshot, r: Reading, p: Params, lib: Libm)
    requires WellFormed(s, p) && p.bufSize > 0 && Fits(r, p)
    requires Weak(r, p, lib)
    ensures StepSpec(s, r, p, lib) == (s.lastDir, s)
  {
  }

  /** A reading that passes the gate is judged against the average of the
      window before it, then overwrites the oldest slot, and only that slot;
      the cursor moves one on, the mode takes one hysteresis cycle, the
      command is recorded as the last one, and it is turn-around exactly
      when the updated mode is reverse. */
  lemma StrongReadingUpdates(s: Snapshot, r: Reading, p: Params, lib: Libm)
    requires WellFormed(s, p) && p.bufSize > 0 && Fits(r, p)
    requires !Weak(r, p, lib)
    ensures var lin := Decode(r, p, lib);
            var mag := Magnitude(lin.0, lin.1, lib);
            var (d, t) := StepSpec(s, r, p, lib);
            && t.ring[s.cursor] == mag
            && (forall k :: 0 <= k < |s.ring| && k != s.cursor ==> t.ring[k] == s.ring[k])
            && t.cursor == (s.cursor + 1) % p.histSize
            && t.mode == UpdateMode(s.mode, mag * (p.histSize as real) < s.sum, p)
            && t.lastDir == d
            && (d == TurnAround <==> t.mode.reverseLock)
  {
    var lin := Decode(r, p, lib);
    var mag := Magnitude(lin.0, lin.1, lib);
    DropAgainstAverage(mag, s.sum, p.histSize);
    TurnAroundIffReverse(lin.0, lin.1, UpdateMode(s.mode, mag < s.sum / (p.histSize as real), p).reverseLock, p.fwdThresh, lib);
  }

  /** mag < sum / n is the same test as mag * n < sum. */
  lemma DropAgainstAverage(mag: real, sum: real, n: nat)
    requires n > 0
    ensures mag < sum / (n as real) <==> mag * (n as real) < sum
  {
    var q := sum / (n as real);
    assert q * (n as real) == sum;
    if mag < q {
      ScaleStrict(mag, q, n as real);
    } else {
      ScaleAtMost(q, mag, n as real);
    }
  }

  /** The engine run over a sequence of readings: the commands it returns
      and the state it ends in. */
  function Run(s: Snapshot, rs: seq<Reading>, p: Params, lib: Libm): (res: (seq<Direction>, Snapshot))
    requires WellFormed(s, p) && p.bufSize > 0
    requires forall i :: 0 <= i < |rs| ==> Fits(rs[i], p)
    ensures |res.0| == |rs| && WellFormed(res.1, p)
    decreases |rs|
  {
    if rs == [] then
      ([], s)
    else
      var (d, s1) := StepSpec(s, rs[0], p, lib);
      var (ds, s2) := Run(s1, rs[1..], p, lib);
      ([d] + ds, s2)
  }

  /** Any number of weak readings in a row leave the state exactly as it
      was and repeat the last command every time. */
  lemma {:induction false} WeakReadingsAreIdempotent(s: Snapshot, rs: seq<Reading>, p: Params, lib: Libm)
    requires WellFormed(s, p) && p.bufSize > 0
    requires forall i :: 0 <= i < |rs| ==> Fits(rs[i], p) && Weak(rs[i], p, lib)
    ensures Run(s, rs, p, lib) == (seq(|rs|, _ => s.lastDir), s)
    decreases |rs|
  {
    if rs != [] {
      WeakReadingIsIgnored(s, rs[0], p, lib);
      WeakReadingsAreIdempotent(s, rs[1..], p, lib);
      assert [s.lastDir] + seq(|rs| - 1, _ => s.lastDir) == seq(|rs|, _ => s.lastDir);
    } else {
      assert seq(0, _ => s.lastDir) == [];
    }
  }

  // ---------------------------------------------------------------------
  // The invariant of reachable states

  /** What every state reached from a successful initialisation satisfies:
      the rolling sum is exactly the total of the ring, and the hysteresis
      bounds of `ModeInv` hold. */
  predicate Inv(s: Snapshot, p: Params) {
    WellFormed(s, p) && s.sum == Sum(s.ring) && ModeInv(s.mode, p)
  }

  /** Initialisation establishes the invariant. */
  lemma InitialInv(p: Params)
    requires p.histSize > 0 && Meaningful(p)
    ensures Inv(InitialSnapshot(p), p)
  {
  }

  /** Every step keeps it. */
  lemma StepPreservesInv(s: Snapshot, r: Reading, p: Params, lib: Libm)
    requires Inv(s, p) && Meaningful(p) && p.bufSize > 0 && Fits(r, p)
    ensures Inv(StepSpec(s, r, p, lib).1, p)
  {
    if !Weak(r, p, lib) {
      var lin := Decode(r, p, lib);
      var mag := Magnitude(lin.0, lin.1, lib);
      SumUpdate(s.ring, s.cursor, mag);
      UpdateModePreservesInv(s.mode, mag < s.sum / (p.histSize as real), p);
    }
  }

  /** Hence every run from an invariant state ends in one. */
  lemma {:induction false} RunPreservesInv(s: Snapshot, rs: seq<Reading>, p: Params, lib: Libm)
    requires Inv(s, p) && Meaningful(p) && p.bufSize > 0
    requires forall i :: 0 <= i < |rs| ==> Fits(rs[i], p)
    ensures Inv(Run(s, rs, p, lib).1, p)
    decreases |rs|
  {
    if rs != [] {
      StepPreservesInv(s, rs[0], p, lib);
      RunPreservesInv(StepSpec(s, rs[0], p, lib).1, rs[1..], p, lib);
    }
  }

  // ---------------------------------------------------------------------
  // The state record and its operations

  /** GuidanceState: the history buffer (held by value in the C struct, so
      never re-pointed), the rolling sum and the hysteresis fields. */
  class GuidanceState {
    const history: CircBuf<real>
    var sumHistory: real
    var fwdDrops: int
    var revDrops: int
    var reverseLock: bool
    var cdTimer: int
    var lastDir: Direction

    /** A declared but not yet initialised state: no history buffer, so
        not `Valid()` until `Init` succeeds. */
    constructor ()
      ensures fresh(history) && history.buf == null && !Valid()
    {
      history := new CircBuf<real>(null, 0);
      sumHistory := 0.0;
      fwdDrops, revDrops := 0, 0;
      reverseLock := false;
      cdTimer := 0;
      lastDir := StraightAhead;
    }

    /** A state guidance_state_init has set up: a history buffer of exactly
        `size` slots with the cursor inside. */
    ghost predicate Valid()
      reads this, history
    {
      history.Valid() && history.buf.Length == history.size
    }

    /** The state as a value. */
    ghost function View(): Snapshot
      reads this, history, history.buf
      requires Valid()
    {
      Snapshot(history.buf[..], history.idx, sumHistory, ModeOf(), lastDir)
    }

    /** guidance_state_init: fails, changing nothing, exactly when the
        history or the reading buffers would be empty; otherwise allocates
        the history and leaves the state `InitialSnapshot(p)`. */
    method Init(p: Params) returns (ok: bool)
      modifies this, history
      ensures ok <==> p.histSize > 0 && p.bufSize > 0
      ensures ok ==> Valid() && fresh(history.buf) && history.size == p.histSize
                     && View() == InitialSnapshot(p)
      ensures !ok ==> unchanged(this, history)
    {
      if p.histSize == 0 || p.bufSize == 0 {
        return false;
      }
      var buf := new real[p.histSize];
      history.buf := buf;
      history.idx := 0;
      history.size := p.histSize;
      var i := 0;
      while i < p.histSize
        invariant 0 <= i <= p.histSize
        invariant history.buf == buf && history.idx == 0 && history.size == p.histSize
        invariant forall k :: 0 <= k < i ==> buf[k] == p.minValidMag
      {
        buf[i] := p.minValidMag;
        i := i + 1;
      }
      sumHistory := p.minValidMag * (p.histSize as real);
      fwdDrops := 0;
      revDrops := 0;
      reverseLock := false;
      cdTimer := 0;
      lastDir := StraightAhead;
      assert buf[..] == seq(p.histSize, _ => p.minValidMag);
      ok := true;
    }

    /** guidance_state_free: releases the history buffer and nulls the
        pointer; every other field keeps its value. */
    method Free()
      modifies history
      ensures history.buf == null
      ensures history.idx == old(history.idx) && history.size == old(history.size)
    {
      history.buf := null;
    }

    /** The hysteresis fields. */
    function ModeOf(): Mode
      reads this
    {
      Mode(fwdDrops, revDrops, reverseLock, cdTimer)
    }

    /** Step 8 of guidance_step: the cooldown counts down, or the current
        mode's counter counts the drop and flips the mode on reaching
        `dropSteps`, exactly as `UpdateMode` says; nothing else changes. */
    method UpdateModeFields(drop: bool, p: Params)
      modifies this
      ensures ModeOf() == UpdateMode(old(ModeOf()), drop, p)
      ensures sumHistory == old(sumHistory) && lastDir == old(lastDir)
    {
      if cdTimer > 0 {
        cdTimer := cdTimer - 1;
      } else if !reverseLock {
        fwdDrops := if drop then fwdDrops + 1 else 0;
        if fwdDrops >= p.dropSteps {
          reverseLock := true;
          fwdDrops := 0;
          cdTimer := p.reverseCd;
        }
      } else {
        revDrops := if drop then revDrops + 1 else 0;
        if revDrops >= p.dropSteps {
          reverseLock := false;
          revDrops := 0;
          cdTimer := p.reverseCd;
        }
      }
    }

    /** guidance_step: one measurement cycle, as `StepSpec` describes it. */
    method Step(gbufx: seq<real>, gbufy: seq<real>, posx: nat, posy: nat, p: Params, lib: Libm)
      returns (dir: Direction)
      requires Valid() && history.size == p.histSize && p.bufSize > 0
      requires |gbufx| == p.bufSize && |gbufy| == p.bufSize
      modifies this, history, history.buf
      ensures Valid() && history.buf == old(history.buf) && history.size == old(history.size)
      ensures (dir, View()) == StepSpec(old(View()), Reading(gbufx, gbufy, posx, posy), p, lib)
    {
      ghost var s0 := View();
      ghost var r := Reading(gbufx, gbufy, posx, posy);

      // 1) newest sample in each buffer
      var ix := if posx < p.bufSize then posx else 0;
      var iy := if posy < p.bufSize then posy else 0;
      ix := if ix != 0 then ix - 1 else p.bufSize - 1;
      iy := if iy != 0 then iy - 1 else p.bufSize - 1;

      // 2) dB to linear, 3) magnitude
      var parLin: real := lib.dbToLin(gbufx[ix]);
      var perpLin: real := lib.dbToLin(gbufy[iy]);
      var mag := Magnitude(parLin, perpLin, lib);
      assert (parLin, perpLin) == Decode(r, p, lib);

      // 4) weak-signal gate
      if mag < p.minValidMag {
        return lastDir;
      }

      // 5-6) drop test against the average before this sample
      var avgPrev := sumHistory / (p.histSize as real);
      var drop := mag < avgPrev;

      // 7) evict, insert, keep the sum
      var evicted := history.buf[history.idx];
      history.Write(mag);
      sumHistory := sumHistory - evicted + mag;
      assert history.buf[..] == s0.ring[s0.cursor := mag];

      // 8) cooldown and mode
      UpdateModeFields(drop, p);

      // 9) orientation, 10) decision
      var ppar := if reverseLock then -parLin else parLin;
      var pperp := if reverseLock then -perpLin else perpLin;
      if ppar < 0.0 {
        dir := TurnAround;
      } else {
        var ang := lib.atan2(pperp, ppar);
        if Abs(ang) <= p.fwdThresh {
          dir := StraightAhead;
        } else if ang > 0.0 {
          dir := TurnLeft;
        } else {
          dir := TurnRight;
        }
      }

      assert dir == Decide(parLin, perpLin, reverseLock, p.fwdThresh, lib);

      // 11) record and return
      lastDir := dir;
    }
  }
}
