/** The guidance engine of the firmware build (BuitinADC_test), a revision
    of the host engine with different behaviour: readings are raw Goertzel
    magnitudes rather than dB, a weak reading yields a fifth command, "no
    signal", the first usable reading seeds the whole history, the drop test
    compares against the average taken after the new sample is in, a
    sustained drop emits one turn-around and then holds straight ahead until
    a cooldown runs out, and left and right alternate as the power ratio of
    the two axes falls.  Every state shares one static history array of 64
    slots. */
module GuidanceEmbedded {
  import opened Numerics
  import opened CircBuf
  import opened RollingSum
  import Guidance

  datatype Option<T> = None | Some(value: T)

  /** The five commands of the firmware header. */
  datatype Direction = StraightAhead | TurnLeft | TurnRight | TurnAround | NoSignal

  /** MAX_HIST_SIZE: the length of the static history array. */
  const MaxHistSize: nat := 64

  /** EPSILON: the least denominator of the power ratio. */
  const Epsilon: real := 0.000001

  /** GuidanceParams of the firmware header. */
  datatype Params = Params(
    bufSize: nat,       // length of the two reading buffers
    histSize: nat,      // length of the magnitude history, at most 64
    dropSteps: int,     // drops in a row that trigger the U-turn
    reverseCd: int,     // cycles to hold the reversed heading
    fwdThresh: real,    // half-angle, in radians, still counted as straight
    minValidMag: real)  // magnitudes below this mean no signal

  /** The settings under which the U-turn logic behaves as designed. */
  predicate Meaningful(p: Params) {
    p.dropSteps >= 1 && p.reverseCd >= 0
  }

  /** The U-turn part of GuidanceState: the drop counter, the lock, its
      cooldown and the pending one-shot turn-around. */
  datatype Lock = Lock(fwdDrops: int, reverseLock: bool, cdTimer: int, didReverse: bool)

  /** The steering part: the last power ratio and the current side, +1 for
      left and -1 for right. */
  datatype Steering = Steering(lastRatio: real, turnDir: int)

  /** The whole of a GuidanceState as a value: the `histSize` slots of the
      history in use, its cursor, the rolling sum, the U-turn and steering
      parts, whether the history has been seeded, and the last command. */
  datatype Snapshot = Snapshot(ring: seq<real>, cursor: nat, sum: real, lock: Lock,
                               steer: Steering, seeded: bool, lastDir: Direction)

  /** The caller's side of the contract: both buffers hold `bufSize` values. */
  predicate Fits(r: Guidance.Reading, p: Params) {
    |r.gbufx| == p.bufSize && |r.gbufy| == p.bufSize
  }

  predicate WellFormed(s: Snapshot, p: Params) {
    |s.ring| == p.histSize && s.cursor < p.histSize
  }

  // ---------------------------------------------------------------------
  // Initialisation

  /** What guidance_state_init accepts: parameters are given, the history
      fits the static array and is not empty, and the reading buffers are
      not empty. */
  predicate Accepts(p: Option<Params>)
    ensures Accepts(p) ==> p.Some? && WellFormed(InitialSnapshot(p.value), p.value)
  {
    p.Some? && 0 < p.value.histSize <= MaxHistSize && p.value.bufSize > 0
  }

  /** The state a successful guidance_state_init leaves: the history
      provisionally seeded with the noise floor, no drops, no lock, ratio 1,
      side left, not yet seeded by a real reading, straight ahead. */
  function InitialSnapshot(p: Params): (s: Snapshot)
    ensures |s.ring| == p.histSize && forall k :: 0 <= k < |s.ring| ==> s.ring[k] == p.minValidMag
    ensures s.sum == Sum(s.ring)
    ensures !s.seeded && !s.lock.reverseLock && s.steer.turnDir == 1
  {
    SumConst(p.minValidMag, p.histSize);
    Snapshot(seq(p.histSize, _ => p.minValidMag), 0, p.minValidMag * (p.histSize as real),
             Lock(0, false, 0, false), Steering(1.0, 1), false, StraightAhead)
  }

  // ---------------------------------------------------------------------
  // Reading and gating

  /** The newest sample of each axis, as an absolute value. */
  function Newest(r: Guidance.Reading, p: Params): (b: (real, real))
    requires p.bufSize > 0 && Fits(r, p)
    ensures b.0 >= 0.0 && b.1 >= 0.0
    ensures b.0 == r.gbufx[Guidance.NewestIndex(r.posx, p.bufSize)]
         || b.0 == -r.gbufx[Guidance.NewestIndex(r.posx, p.bufSize)]
    ensures b.1 == r.gbufy[Guidance.NewestIndex(r.posy, p.bufSize)]
         || b.1 == -r.gbufy[Guidance.NewestIndex(r.posy, p.bufSize)]
  {
    (Abs(r.gbufx[Guidance.NewestIndex(r.posx, p.bufSize)]),
     Abs(r.gbufy[Guidance.NewestIndex(r.posy, p.bufSize)]))
  }

  /** A reading too weak to act on. */
  predicate Weak(r: Guidance.Reading, p: Params, lib: Libm)
    requires p.bufSize > 0 && Fits(r, p)
    ensures Weak(r, p, lib) ==> p.minValidMag > 0.0
  {
    var b := Newest(r, p);
    Guidance.Magnitude(b.0, b.1, lib) < p.minValidMag
  }

  // ---------------------------------------------------------------------
  // Drop counting, U-turn and cooldown

  /** Step 5: outside the lock, a drop adds one to the counter and anything
      else resets it; reaching `dropSteps` engages the lock, arms the
      cooldown, marks the U-turn as pending and clears the counter.  Inside
      the lock drops are not counted. */
  function CountDrop(m: Lock, drop: bool, p: Params): (r: Lock)
    ensures m.reverseLock ==> r == m
    ensures !m.reverseLock ==>
              var f := if drop then m.fwdDrops + 1 else 0;
              && (r.reverseLock <==> f >= p.dropSteps)
              && (r.reverseLock ==> r == Lock(0, true, p.reverseCd, true))
              && (!r.reverseLock ==> r == m.(fwdDrops := f))
  {
    if m.reverseLock then m
    else
      var f := if drop then m.fwdDrops + 1 else 0;
      if f >= p.dropSteps then m.(reverseLock := true, cdTimer := p.reverseCd, didReverse := true, fwdDrops := 0)
      else m.(fwdDrops := f)
  }

  /** Steps 6-7 under the lock: the command is turn-around exactly when the
      U-turn is pending and straight ahead otherwise, and the pending flag is
      consumed; then a running cooldown counts down by one, and one already
      at 0 releases the lock.  The drop counter is untouched. */
  function ReverseCycle(m: Lock): (res: (Direction, Lock))
    requires m.reverseLock
    ensures var (d, r) := res;
            && (d == TurnAround <==> m.didReverse)
            && (d != TurnAround ==> d == StraightAhead)
            && !r.didReverse
            && (r.reverseLock <==> m.cdTimer > 0)
            && r.cdTimer == (if m.cdTimer > 0 then m.cdTimer - 1 else m.cdTimer)
            && r.fwdDrops == m.fwdDrops
  {
    var out := if m.didReverse then TurnAround else StraightAhead;
    var m1 := m.(didReverse := false);
    (out, if m1.cdTimer > 0 then m1.(cdTimer := m1.cdTimer - 1) else m1.(reverseLock := false))
  }

  // ---------------------------------------------------------------------
  // Forward steering

  /** ratio = Bpar / max(EPSILON, Bperp). */
  function Ratio(par: real, perp: real): (q: real)
    requires par >= 0.0
    ensures q >= 0.0
  {
    var denom := if perp > Epsilon then perp else Epsilon;
    par / denom
  }

  /** Step 8: inside the dead band (edge included) straight ahead and
      nothing changes; outside it the side flips exactly when the power
      ratio fell since the last time, the new ratio is remembered, and the
      command is left for side +1 and right otherwise. */
  function ForwardSteer(par: real, perp: real, st: Steering, fwdThresh: real, lib: Libm): (res: (Direction, Steering))
    requires par >= 0.0
    ensures var (d, t) := res;
            var ang := lib.atan2(perp, par);
            && (d == StraightAhead <==> Abs(ang) <= fwdThresh)
            && (d == StraightAhead ==> t == st)
            && (d != StraightAhead ==>
                  && t.lastRatio == Ratio(par, perp)
                  && t.turnDir == (if Ratio(par, perp) < st.lastRatio then -st.turnDir else st.turnDir)
                  && (d == TurnLeft <==> t.turnDir > 0)
                  && (d != TurnLeft ==> d == TurnRight))
  {
    var ang := lib.atan2(perp, par);
    if Abs(ang) <= fwdThresh then
      (StraightAhead, st)
    else
      var ratio := Ratio(par, perp);
      var td := if ratio < st.lastRatio then -st.turnDir else st.turnDir;
      (if td > 0 then TurnLeft else TurnRight, Steering(ratio, td))
  }

  /** While the ratio keeps falling, outside the dead band, two cycles in a
      row steer to opposite sides. */
  lemma FallingRatiosAlternate(par1: real, perp1: real, par2: real, perp2: real,
                               st: Steering, fwdThresh: real, lib: Libm)
    requires par1 >= 0.0 && par2 >= 0.0 && (st.turnDir == 1 || st.turnDir == -1)
    requires Abs(lib.atan2(perp1, par1)) > fwdThresh && Abs(lib.atan2(perp2, par2)) > fwdThresh
    requires Ratio(par1, perp1) < st.lastRatio && Ratio(par2, perp2) < Ratio(par1, perp1)
    ensures var (d1, t1) := ForwardSteer(par1, perp1, st, fwdThresh, lib);
            var (d2, _) := ForwardSteer(par2, perp2, t1, fwdThresh, lib);
            (d1 == TurnLeft <==> d2 == TurnRight) && (d1 == TurnRight <==> d2 == TurnLeft)
  {
  }

  // ---------------------------------------------------------------------
  // The whole step

  /** guidance_step on values: the command and the new state. */
  function StepSpec(s: Snapshot, r: Guidance.Reading, p: Params, lib: Libm): (res: (Direction, Snapshot))
    requires WellFormed(s, p) && p.bufSize > 0 && Fits(r, p)
    ensures WellFormed(res.1, p)
  {
    var b := Newest(r, p);
    var mag := Guidance.Magnitude(b.0, b.1, lib);
    var n := p.histSize as real;
    if mag < p.minValidMag then
      (NoSignal, s)
    else if !s.seeded then
      (s.lastDir, s.(ring := seq(p.histSize, _ => mag), sum := mag * n, seeded := true))
    else
      var sum := s.sum - s.ring[s.cursor] + mag;
      var lock := CountDrop(s.lock, mag < sum / n, p);
      var ring := s.ring[s.cursor := mag];
      var cursor := NextIdx(s.cursor, p.histSize);
      if lock.reverseLock then
        var (out, lock') := ReverseCycle(lock);
        (out, Snapshot(ring, cursor, sum, lock', s.steer, true, out))
      else
        var (out, steer') := ForwardSteer(b.0, b.1, s.steer, p.fwdThresh, lib);
        (out, Snapshot(ring, cursor, sum, lock, steer', true, out))
  }

  /** A weak reading returns "no signal" and changes nothing, not even the
      last command. */
  lemma WeakReadingIsIgnored(s: Snapshot, r: Guidance.Reading, p: Params, lib: Libm)
    requires WellFormed(s, p) && p.bufSize > 0 && Fits(r, p)
    requires Weak(r, p, lib)
    ensures StepSpec(s, r, p, lib) == (NoSignal, s)
  {
  }

  /** The first usable reading fills every history slot with its magnitude,
      makes the sum their exact total, marks the history seeded and replays
      the last command; the cursor, the U-turn and steering parts and the
      last command are as they were. */
  lemma FirstReadingSeeds(s: Snapshot, r: Guidance.Reading, p: Params, lib: Libm)
    requires WellFormed(s, p) && p.bufSize > 0 && Fits(r, p)
    requires !s.seeded && !Weak(r, p, lib)
    ensures var b := Newest(r, p);
            var mag := Guidance.Magnitude(b.0, b.1, lib);
            var (d, t) := StepSpec(s, r, p, lib);
            && d == s.lastDir
            && (forall k :: 0 <= k < |t.ring| ==> t.ring[k] == mag)
            && t.sum == Sum(t.ring)
            && t.seeded
            && t.cursor == s.cursor && t.lock == s.lock && t.steer == s.steer && t.lastDir == s.lastDir
  {
    var b := Newest(r, p);
    var mag := Guidance.Magnitude(b.0, b.1, lib);
    SumConst(mag, p.histSize);
  }

  /** mag < (rest + mag) / n, the post-insert test, holds exactly when
      mag * (n - 1) < rest: the new magnitude is below the average of the
      other n - 1 slots. */
  lemma PostInsertDrop(mag: real, rest: real, n: nat)
    requires n > 0
    ensures mag < (rest + mag) / (n as real) <==> mag * ((n - 1) as real) < rest
  {
    Guidance.DropAgainstAverage(mag, rest + mag, n);
  }

  /** A seeded step counts a drop exactly when the new magnitude is below
      the average of the other slots; with a one-slot history that never
      happens, so the counter is reset on every cycle and the lock can
      never engage. */
  lemma SingleSlotNeverDrops(s: Snapshot, r: Guidance.Reading, p: Params, lib: Libm)
    requires WellFormed(s, p) && p.bufSize > 0 && Fits(r, p) && Meaningful(p)
    requires s.seeded && !Weak(r, p, lib) && !s.lock.reverseLock
    requires p.histSize == 1 && s.sum == Sum(s.ring)
    ensures var t := StepSpec(s, r, p, lib).1;
            !t.lock.reverseLock && t.lock.fwdDrops == 0
  {
    var b := Newest(r, p);
    var mag := Guidance.Magnitude(b.0, b.1, lib);
    assert s.ring == [s.ring[0]];
    assert Sum(s.ring) == s.ring[0] + Sum([]);
    PostInsertDrop(mag, s.sum - s.ring[s.cursor], 1);
  }

  /** The engine run over a sequence of readings. */
  function Run(s: Snapshot, rs: seq<Guidance.Reading>, p: Params, lib: Libm): (res: (seq<Direction>, Snapshot))
    requires WellFormed(s, p) && p.bufSize > 0
    requires forall i :: 0 <= i < |rs| ==> Fits(rs[i], p)
    ensures |res.0| == |rs| && WellFormed(res.1, p)
    decreases |rs|
  {
    if rs == [] then
      ([], s)
    else
      var (d, s1) := StepSpec(s, rs[0], p, lib);
      var (ds, s2) := Run(s1, rs[1..], p, lib);
      ([d] + ds, s2)
  }

  // ---------------------------------------------------------------------
  // The invariant of reachable states

  /** What every state reached from a successful initialisation satisfies:
      the sum is the ring's total, the counter is below `dropSteps`, no
      U-turn is left pending between cycles, the side is +1 or -1, the lock
      holds only with a cooldown in [0, reverseCd), an unlocked state has
      no cooldown, and the last ratio is not negative. */
  predicate Inv(s: Snapshot, p: Params) {
    && WellFormed(s, p)
    && s.sum == Sum(s.ring)
    && 0 <= s.lock.fwdDrops < p.dropSteps
    && !s.lock.didReverse
    && (s.steer.turnDir == 1 || s.steer.turnDir == -1)
    && (s.lock.reverseLock ==> 0 <= s.lock.cdTimer < p.reverseCd)
    && (!s.lock.reverseLock ==> s.lock.cdTimer == 0)
    && s.steer.lastRatio >= 0.0
  }

  lemma InitialInv(p: Params)
    requires Accepts(Some(p)) && Meaningful(p)
    ensures Inv(InitialSnapshot(p), p)
  {
  }

  lemma StepPreservesInv(s: Snapshot, r: Guidance.Reading, p: Params, lib: Libm)
    requires Inv(s, p) && Meaningful(p) && p.bufSize > 0 && Fits(r, p)
    ensures Inv(StepSpec(s, r, p, lib).1, p)
  {
    if !Weak(r, p, lib) {
      var b := Newest(r, p);
      var mag := Guidance.Magnitude(b.0, b.1, lib);
      if !s.seeded {
        SumConst(mag, p.histSize);
      } else {
        SumUpdate(s.ring, s.cursor, mag);
      }
    }
  }

  lemma {:induction false} RunPreservesInv(s: Snapshot, rs: seq<Guidance.Reading>, p: Params, lib: Libm)
    requires Inv(s, p) && Meaningful(p) && p.bufSize > 0
    requires forall i :: 0 <= i < |rs| ==> Fits(rs[i], p)
    ensures Inv(Run(s, rs, p, lib).1, p)
    decreases |rs|
  {
    if rs != [] {
      StepPreservesInv(s, rs[0], p, lib);
      RunPreservesInv(StepSpec(s, rs[0], p, lib).1, rs[1..], p, lib);
    }
  }

  // ---------------------------------------------------------------------
  // The U-turn as seen from outside

  /** In a reachable, seeded state, a usable reading produces turn-around
      exactly when it completes the run of drops in forward mode: the lock
      was off, the counter stood at `dropSteps - 1`, and the new magnitude
      is below the average of the other slots. */
  lemma TurnAroundIffEngages(s: Snapshot, r: Guidance.Reading, p: Params, lib: Libm)
    requires Inv(s, p) && Meaningful(p) && p.bufSize > 0 && Fits(r, p)
    requires s.seeded && !Weak(r, p, lib)
    ensures var b := Newest(r, p);
            var mag := Guidance.Magnitude(b.0, b.1, lib);
            var drop := mag * ((p.histSize - 1) as real) < s.sum - s.ring[s.cursor];
            (StepSpec(s, r, p, lib).0 == TurnAround <==>
               !s.lock.reverseLock && drop && s.lock.fwdDrops == p.dropSteps - 1)
  {
    var b := Newest(r, p);
    var mag := Guidance.Magnitude(b.0, b.1, lib);
    PostInsertDrop(mag, s.sum - s.ring[s.cursor], p.histSize);
  }

  /** Once the lock holds with no U-turn pending and `k` cycles of
      cooldown left, the next `k + 1` usable readings (or fewer) all steer
      straight ahead; the cooldown counts down one per reading, and the
      lock is released by the reading that finds it at 0. */
  lemma {:induction false} HoldUntilCooldownEnds(s: Snapshot, rs: seq<Guidance.Reading>, p: Params, lib: Libm)
    requires WellFormed(s, p) && p.bufSize > 0
    requires forall i :: 0 <= i < |rs| ==> Fits(rs[i], p) && !Weak(rs[i], p, lib)
    requires s.seeded && s.lock.reverseLock && !s.lock.didReverse
    requires 0 <= s.lock.cdTimer && |rs| <= s.lock.cdTimer + 1
    ensures var (ds, t) := Run(s, rs, p, lib);
            && ds == seq(|rs|, _ => StraightAhead)
            && (t.lock.reverseLock <==> |rs| <= s.lock.cdTimer)
            && t.lock.cdTimer == (if |rs| <= s.lock.cdTimer then s.lock.cdTimer - |rs| else 0)
    decreases |rs|
  {
    if rs == [] {
      assert seq(0, _ => StraightAhead) == [];
    } else {
      var (d, s1) := StepSpec(s, rs[0], p, lib);
      assert d == StraightAhead;
      if |rs| == 1 {
        assert Run(s1, rs[1..], p, lib) == ([], s1);
        assert [StraightAhead] == seq(1, _ => StraightAhead);
      } else {
        assert s1.lock.reverseLock && s1.lock.cdTimer == s.lock.cdTimer - 1;
        HoldUntilCooldownEnds(s1, rs[1..], p, lib);
        assert [StraightAhead] + seq(|rs| - 1, _ => StraightAhead) == seq(|rs|, _ => StraightAhead);
      }
    }
  }

  // ---------------------------------------------------------------------
  // The state record and its operations

  /** GuidanceState of the firmware header.  Its history buffer is always
      the one static array of `MaxHistSize` slots, handed to `Init`. */
  class GuidanceState {
    const history: CircBuf<real>
    var sumHistory: real
    var fwdDrops: int
    var reverseLock: bool
    var cdTimer: int
    var didReverse: bool
    var lastRatio: real
    var turnDir: int
    var seeded: bool
    var lastDir: Direction

    /** A declared but not yet initialised state: no history buffer, so
        not `Valid()` until `Init` succeeds. */
    constructor ()
      ensures fresh(history) && history.buf == null && !Valid()
    {
      history := new CircBuf<real>(null, 0);
      sumHistory := 0.0;
      fwdDrops := 0;
      reverseLock, didReverse, seeded := false, false, false;
      cdTimer := 0;
      lastRatio := 0.0;
      turnDir := 0;
      lastDir := StraightAhead;
    }

    /** A state guidance_state_init has set up: the history is bound to a
        static-sized array and its used part and cursor lie inside it. */
    ghost predicate Valid()
      reads this, history
    {
      history.Valid() && history.buf.Length == MaxHistSize
    }

    function LockOf(): Lock
      reads this
    {
      Lock(fwdDrops, reverseLock, cdTimer, didReverse)
    }

    function SteerOf(): Steering
      reads this
    {
      Steering(lastRatio, turnDir)
    }

    /** The state as a value: only the `size` slots in use belong to it. */
    ghost function View(): Snapshot
      reads this, history, history.buf
      requires Valid()
    {
      Snapshot(history.buf[..history.size], history.idx, sumHistory, LockOf(), SteerOf(), seeded, lastDir)
    }

    /** guidance_state_init: fails, changing nothing, exactly when `Accepts`
        does not hold; otherwise binds the static array, writes the noise
        floor into the first `histSize` slots only, and leaves the state
        `InitialSnapshot(p)`. */
    method Init(p: Option<Params>, histBuf: array<real>) returns (ok: bool)
      requires histBuf.Length == MaxHistSize
      modifies this, history, histBuf
      ensures ok <==> p.Some? && 0 < p.value.histSize <= MaxHistSize && p.value.bufSize > 0
      ensures ok ==> Valid() && history.buf == histBuf && history.size == p.value.histSize
                     && View() == InitialSnapshot(p.value)
                     && histBuf[p.value.histSize..] == old(histBuf[p.value.histSize..])
      ensures !ok ==> unchanged(this, history, histBuf)
    {
      if p.None? || p.value.histSize == 0 || p.value.histSize > MaxHistSize || p.value.bufSize == 0 {
        return false;
      }
      var q := p.value;
      history.buf := histBuf;
      history.size := q.histSize;
      history.idx := 0;
      var i := 0;
      while i < q.histSize
        invariant 0 <= i <= q.histSize
        invariant history.buf == histBuf && history.idx == 0 && history.size == q.histSize
        invariant forall k :: 0 <= k < i ==> histBuf[k] == q.minValidMag
        invariant histBuf[q.histSize..] == old(histBuf[q.histSize..])
      {
        histBuf[i] := q.minValidMag;
        i := i + 1;
      }
      sumHistory := q.minValidMag * (q.histSize as real);
      fwdDrops := 0;
      reverseLock := false;
      cdTimer := 0;
      didReverse := false;
      lastRatio := 1.0;
      turnDir := 1;
      seeded := false;
      lastDir := StraightAhead;
      assert histBuf[..q.histSize] == seq(q.histSize, _ => q.minValidMag);
      ok := true;
    }

    /** Step 3: the first usable reading overwrites every slot in use with
        `mag`; the cursor, the rest of the array and the other fields keep
        their values. */
    method SeedHistory(mag: real, p: Params)
      requires Valid() && history.size == p.histSize
      modifies history.buf
      ensures history.buf[..p.histSize] == seq(p.histSize, _ => mag)
      ensures history.buf[p.histSize..] == old(history.buf[p.histSize..])
    {
      var i := 0;
      while i < p.histSize
        invariant 0 <= i <= p.histSize
        invariant forall k :: 0 <= k < i ==> history.buf[k] == mag
        invariant history.buf[p.histSize..] == old(history.buf[p.histSize..])
      {
        history.buf[i] := mag;
        i := i + 1;
      }
    }

    /** Step 4: the cursor slot gives up its value to `mag`, the cursor
        moves on, and the sum trades the evicted value for `mag`; the rest of
        the array and the other fields keep their values. */
    method InsertSample(mag: real)
      requires Valid()
      modifies this, history, history.buf
      ensures Valid() && history.buf == old(history.buf) && history.size == old(history.size)
      ensures View() == old(View()).(ring := old(View()).ring[old(history.idx) := mag],
                                     cursor := NextIdx(old(history.idx), history.size),
                                     sum := old(sumHistory) - old(history.buf[history.idx]) + mag)
      ensures history.buf[history.size..] == old(history.buf[history.size..])
    {
      var evicted := history.buf[history.idx];
      history.Write(mag);
      sumHistory := sumHistory - evicted + mag;
      assert history.buf[..history.size] == old(history.buf[..history.size])[old(history.idx) := mag];
    }

    /** Step 5, as `CountDrop` says; nothing but the U-turn fields change. */
    method CountDropFields(drop: bool, p: Params)
      modifies this
      ensures LockOf() == CountDrop(old(LockOf()), drop, p)
      ensures SteerOf() == old(SteerOf()) && sumHistory == old(sumHistory)
      ensures seeded == old(seeded) && lastDir == old(lastDir)
    {
      if !reverseLock {
        if drop {
          fwdDrops := fwdDrops + 1;
        } else {
          fwdDrops := 0;
        }
        if fwdDrops >= p.dropSteps {
          reverseLock := true;
          cdTimer := p.reverseCd;
          didReverse := true;
          fwdDrops := 0;
        }
      }
    }

    /** Steps 6-7 under the lock, as `ReverseCycle` says. */
    method ReverseCycleFields() returns (out: Direction)
      requires reverseLock
      modifies this
      ensures (out, LockOf()) == ReverseCycle(old(LockOf()))
      ensures SteerOf() == old(SteerOf()) && sumHistory == old(sumHistory)
      ensures seeded == old(seeded) && lastDir == old(lastDir)
    {
      if didReverse {
        out := TurnAround;
        didReverse := false;
      } else {
        out := StraightAhead;
      }
      if cdTimer > 0 {
        cdTimer := cdTimer - 1;
      } else {
        reverseLock := false;
      }
    }

    /** Step 8, as `ForwardSteer` says. */
    method ForwardSteerFields(bpar: real, bperp: real, p: Params, lib: Libm) returns (out: Direction)
      requires bpar >= 0.0
      modifies this
      ensures (out, SteerOf()) == ForwardSteer(bpar, bperp, old(SteerOf()), p.fwdThresh, lib)
      ensures LockOf() == old(LockOf()) && sumHistory == old(sumHistory)
      ensures seeded == old(seeded) && lastDir == old(lastDir)
    {
      var ang := lib.atan2(bperp, bpar);
      if Abs(ang) <= p.fwdThresh {
        out := StraightAhead;
      } else {
        var denom := if bperp > Epsilon then bperp else Epsilon;
        var ratio := bpar / denom;
        if ratio < lastRatio {
          turnDir := -turnDir;
        }
        lastRatio := ratio;
        out := if turnDir > 0 then TurnLeft else TurnRight;
      }
    }

    /** guidance_step: one measurement cycle, as `StepSpec` describes it;
        the slots of the static array beyond `histSize` are never touched. */
    method Step(gbufx: seq<real>, gbufy: seq<real>, posx: nat, posy: nat, p: Params, lib: Libm)
      returns (out: Direction)
      requires Valid() && history.size == p.histSize && p.bufSize > 0
      requires |gbufx| == p.bufSize && |gbufy| == p.bufSize
      modifies this, history, history.buf
      ensures Valid() && history.buf == old(history.buf) && history.size == old(history.size)
      ensures history.buf[p.histSize..] == old(history.buf[p.histSize..])
      ensures (out, View()) == StepSpec(old(View()), Guidance.Reading(gbufx, gbufy, posx, posy), p, lib)
    {
      ghost var s0 := View();
      ghost var r := Guidance.Reading(gbufx, gbufy, posx, posy);

      // 1) newest sample of each axis
      var ix := if posx < p.bufSize then posx else 0;
      var iy := if posy < p.bufSize then posy else 0;
      ix := if ix != 0 then ix - 1 else p.bufSize - 1;
      iy := if iy != 0 then iy - 1 else p.bufSize - 1;
      var bpar := Abs(gbufx[ix]);
      var bperp := Abs(gbufy[iy]);
      assert (bpar, bperp) == Newest(r, p);

      // 2) magnitude and weak-signal gate
      var mag := Guidance.Magnitude(bpar, bperp, lib);
      if mag < p.minValidMag {
        return NoSignal;
      }

      // 3) the first usable reading seeds the history
      if !seeded {
        SeedHistory(mag, p);
        sumHistory := mag * (p.histSize as real);
        seeded := true;
        return lastDir;
      }

      // 4) evict, insert, keep the sum, average after insertion
      InsertSample(mag);
      var avgPrev := sumHistory / (p.histSize as real);

      // 5) drop counting
      CountDropFields(mag < avgPrev, p);

      // 6-8) steering
      if reverseLock {
        out := ReverseCycleFields();
      } else {
        out := ForwardSteerFields(bpar, bperp, p, lib);
      }
      lastDir := out;
    }
  }
}
