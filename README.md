# Beacon guidance engine, modelled in Dafny

The beacon tracker turns, once per measurement cycle, the newest pair of
readings from two orthogonal receive coils (the parallel and the
perpendicular axis) into a steering command for the person searching. This
project models, and proves properties of:

- **the host guidance engine** (`beaconTracking/guidance.c`, types in
  `beaconTracking/guidance.h`), as module `Guidance`. It locates the newest
  sample in each reading buffer, converts the two dB readings to linear
  amplitude and combines them into one magnitude, and ignores weak readings.
  It tests for a drop against the rolling average of the history before the
  new sample, then updates the history ring and its running sum. A
  forward/reverse hysteresis machine has one drop counter per mode and a
  shared cooldown. The decision is turn around, straight ahead (inclusive
  dead band), left or right, on the reading vector negated in reverse mode.
- **the four scenarios of the host unit test**
  (`beaconTracking/GuidanceTest/tests/guidance_test.c`), as lemmas in
  module `GuidanceScenarios`.
- **the circular buffer** of both builds (`mcu/BuitinADC_test/Inc/circ_buf.h`,
  `beaconTracking/GuidanceTest/Src/circ_buf.c`), as the generic class
  `CircBuf.CircBuf<T>`. It is used at `real` for the float variant and at
  the 32-bit newtype `U32` for the uint32 variant, whose code is the same.
- **the firmware guidance engine** (`mcu/BuitinADC_test/Src/guidance.c`),
  as the separate module `GuidanceEmbedded`. It differs from the host engine:
  - readings are raw magnitudes taken as absolute values;
  - a weak reading yields a fifth command, "no signal";
  - the first usable reading seeds the whole history;
  - the drop test compares against the average taken after insertion;
  - a sustained drop emits one turn-around and then holds straight ahead
    until the cooldown runs out;
  - left and right alternate whenever the power ratio of the two axes falls;
  - the history lives in one static array of 64 slots.

Layout:

- `numerics.dfy` (module `Numerics`): `Abs` and the library calls as a
  `Libm` value. `powf(10, x/20)` returns a positive real and `sqrtf` a
  non-negative one. `atan2f` promises, in the right half-plane, an angle
  with the sign of y.
- `circ_buf.dfy` (module `CircBuf`): index arithmetic and the buffer class.
- `rolling_sum.dfy` (module `RollingSum`): the exact total of a window, and
  how it changes when one slot is overwritten.
- `guidance.dfy`, `guidance_scenarios.dfy`, `guidance_embedded.dfy`: the two
  engines and the test scenarios.

Each engine is written twice:

- as a class mirroring the C `GuidanceState` record, whose methods change
  its fields and the history array in place;
- as a function `StepSpec` on a value `Snapshot` of that record.

The class method `Step` is proved to leave `View()` equal to
`StepSpec(old(View()), ...)`. The invariants (`Inv`: the sum is the exact
total of the ring, the counters and the cooldown stay in range) are proved
of `StepSpec` and of `Run`, the engine over a sequence of readings.

## Model

| member | source | states |
|---|---|---|
| Numerics.Abs | mcu/BuitinADC_test/Src/guidance.c:45-46 | fabsf: the result is not negative and is x or -x |
| CircBuf.NextIdx | mcu/BuitinADC_test/Inc/circ_buf.h:36-42 | the cursor after a write stays below size, equals (i+1) mod size, and wraps to 0 exactly when i was the last slot |
| CircBuf.PrevIdx | beaconTracking/GuidanceTest/Src/circ_buf.c:16-20 | the slot a read looks at lies below size and is the one whose successor is the cursor |
| CircBuf.PrevOfNext | mcu/BuitinADC_test/Inc/circ_buf.h:45-55 | the slot read after a write at i is i itself |
| CircBuf.AdvanceIsModular | mcu/BuitinADC_test/Inc/circ_buf.h:36-42 | n writes move the cursor (i+n) mod size |
| CircBuf.Advance | mcu/BuitinADC_test/Inc/circ_buf.h:36-42 | the cursor after any number of consecutive writes stays below size |
| CircBuf.FullLapReturns | mcu/BuitinADC_test/Inc/circ_buf.h:36-42 | after size consecutive writes the cursor is back where it started |
| CircBuf.CircBuf.constructor | mcu/BuitinADC_test/Inc/circ_buf.h:21-26 | init records the buffer and the size and sets the cursor to 0; the result is usable exactly when the buffer is non-null and holds at least size > 0 slots |
| CircBuf.CircBuf.Read | mcu/BuitinADC_test/Inc/circ_buf.h:45-58 | a read returns the slot before the cursor (size-1 at cursor 0) and, being a function, changes nothing |
| CircBuf.CircBuf.Write | beaconTracking/GuidanceTest/Src/circ_buf.c:6-12 | a write stores val at the old cursor, changes no other slot, keeps buffer and size, advances the cursor one place with wrap-around, and a read right after returns val |
| RollingSum.SumUpdate | beaconTracking/guidance.c:66-68 | overwriting one slot changes the window total by the new value minus the evicted one |
| RollingSum.SumConst | beaconTracking/guidance.c:17-19 | a window seeded with c in all n slots totals c*n |
| Guidance.InitialSnapshot | beaconTracking/guidance.c:14-25 | the initialised state has histSize slots all holding minValidMag, a sum equal to their exact total, and is well formed when histSize > 0 |
| Guidance.NewestIndex | beaconTracking/guidance.c:38-41 | the newest-sample index lies in [0, bufSize); it is pos-1 for 0 < pos < bufSize and bufSize-1 for pos 0 or pos >= bufSize; the next write position after it is pos, or 0 when pos is out of range |
| Guidance.Decode | beaconTracking/guidance.c:43-48 | both linear components of a decoded reading are positive |
| Guidance.Weak | beaconTracking/guidance.c:54 | since magnitudes are never negative, a reading can only be weak when the noise floor is positive |
| Guidance.Magnitude | beaconTracking/guidance.c:51 | the combined magnitude is not negative |
| Guidance.UpdateMode | beaconTracking/guidance.c:70-97 | the mode never flips during a cooldown, every flip arms the cooldown with reverseCd, and with dropSteps >= 1 a cycle without a drop never flips |
| Guidance.CooldownSuppressesCounting | beaconTracking/guidance.c:71-74 | with the cooldown running, it goes down by exactly 1 and neither counter nor the mode changes |
| Guidance.CountingOutsideCooldown | beaconTracking/guidance.c:77-96 | outside cooldown the active counter becomes counter+1 on a drop and 0 otherwise; the mode flips exactly when that reaches dropSteps, and then the counter is 0 and the cooldown reverseCd; the other counter is untouched |
| Guidance.UpdateModePreservesInv | beaconTracking/guidance.c:77-96 | with dropSteps >= 1, both counters stay in [0, dropSteps), the inactive mode's counter stays 0, and the cooldown stays in [0, reverseCd] |
| Guidance.CooldownExpires | beaconTracking/guidance.c:71-74 | a cooldown of k cycles absorbs the next k verdicts whatever they are, only the timer moving |
| Guidance.ConsecutiveDropsFlip | beaconTracking/guidance.c:79-85 | consecutive drops in forward mode are counted one by one and the flip comes with exactly the dropSteps-th |
| Guidance.Orient | beaconTracking/guidance.c:100-101 | a component is kept or negated, and a positive component becomes negative exactly in reverse mode |
| Guidance.Decide | beaconTracking/guidance.c:100-124 | turn around iff the oriented parallel component is negative; otherwise straight ahead iff abs(angle) <= fwdThresh, left iff beyond the band with a positive angle, right otherwise |
| Guidance.TurnAroundIffReverse | beaconTracking/guidance.c:100-108 | with a positive parallel component the decision is turn around exactly in reverse mode |
| Guidance.ForwardSideFollowsPerpendicular | beaconTracking/guidance.c:111-123 | in forward mode, left only for a positive and right only for a negative perpendicular component, and a zero perpendicular component gives straight ahead |
| Guidance.StepSpec | beaconTracking/guidance.c:35-129 | one cycle keeps the state well formed (ring of histSize slots, cursor inside) |
| Guidance.WeakReadingIsIgnored | beaconTracking/guidance.c:54-57 | a weak reading returns the last command and leaves the whole state unchanged |
| Guidance.StrongReadingUpdates | beaconTracking/guidance.c:60-128 | a usable reading: exactly the cursor slot becomes mag, the cursor advances mod histSize, the mode takes one hysteresis cycle with drop = mag*histSize < sum (the pre-insert average), the command becomes lastDir, and it is turn around iff the new mode is reverse |
| Guidance.DropAgainstAverage | beaconTracking/guidance.c:60-63 | mag < sum/n is the same test as mag*n < sum |
| Guidance.WeakReadingsAreIdempotent | beaconTracking/guidance.c:54-57 | any run of weak readings returns the last command each time and leaves the state exactly as it was |
| Guidance.InitialInv | beaconTracking/guidance.c:14-25 | the initialised state satisfies Inv: sum equals the ring total, counters and cooldown in range |
| Guidance.StepPreservesInv | beaconTracking/guidance.c:60-96 | every step keeps the rolling sum equal to the ring total and the hysteresis bounds |
| Guidance.RunPreservesInv | beaconTracking/guidance.c:35-129 | so does every run of steps |
| Guidance.GuidanceState.constructor | beaconTracking/guidance.h:19-32 | a declared GuidanceState has a fresh history record with no buffer and is not valid until guidance_state_init succeeds |
| Guidance.GuidanceState.Init | beaconTracking/guidance.c:5-27 | init fails, changing nothing, exactly when histSize or bufSize is 0; otherwise every slot is minValidMag, the sum is minValidMag*histSize, the cursor is 0, counters and cooldown 0, forward mode, straight ahead |
| Guidance.GuidanceState.Free | beaconTracking/guidance.c:29-33 | free nulls the history pointer; cursor and size keep their values |
| Guidance.GuidanceState.UpdateModeFields | beaconTracking/guidance.c:70-97 | the in-place cooldown and mode update is UpdateMode of the old fields; the sum and last command are untouched |
| Guidance.GuidanceState.Step | beaconTracking/guidance.c:35-129 | the in-place step returns the command StepSpec gives and leaves the state StepSpec gives, with the same history buffer |
| GuidanceScenarios.StraightAheadWhenPerpendicularSmall | beaconTracking/GuidanceTest/tests/guidance_test.c:9-29 | (0 dB, -40 dB) after init gives straight ahead |
| GuidanceScenarios.TurnLeftWhenComponentsEqual | beaconTracking/GuidanceTest/tests/guidance_test.c:31-51 | (0 dB, 0 dB) after init gives turn left |
| GuidanceScenarios.WeakSignalRepeatsLastCommand | beaconTracking/GuidanceTest/tests/guidance_test.c:53-74 | with the noise floor at 1.5 and last command turn right, (0 dB, 0 dB) returns turn right and changes nothing |
| GuidanceScenarios.TurnAroundInReverse | beaconTracking/GuidanceTest/tests/guidance_test.c:76-97 | in reverse mode, (0 dB, 0 dB) gives turn around |
| GuidanceEmbedded.Accepts | mcu/BuitinADC_test/Src/guidance.c:12-13 | parameters init accepts are present and yield a well-formed initial state |
| GuidanceEmbedded.InitialSnapshot | mcu/BuitinADC_test/Src/guidance.c:14-32 | the initialised state has histSize slots all holding minValidMag, a sum equal to their exact total, no seeding, no lock, and side +1 |
| GuidanceEmbedded.Newest | mcu/BuitinADC_test/Src/guidance.c:40-46 | the two newest samples, located as in the host engine, as absolute values |
| GuidanceEmbedded.Weak | mcu/BuitinADC_test/Src/guidance.c:50-51 | since magnitudes are never negative, a reading can only be weak when the noise floor is positive |
| GuidanceEmbedded.CountDrop | mcu/BuitinADC_test/Src/guidance.c:76-90 | under the lock nothing changes; otherwise the counter becomes counter+1 on a drop and 0 otherwise, and reaching dropSteps engages the lock with counter 0, cooldown reverseCd and the U-turn pending |
| GuidanceEmbedded.ReverseCycle | mcu/BuitinADC_test/Src/guidance.c:93-116 | under the lock the command is turn around iff the U-turn is pending, straight ahead otherwise; the flag is consumed; the lock stays iff the cooldown was positive, which then drops by 1; the counter is untouched |
| GuidanceEmbedded.Ratio | mcu/BuitinADC_test/Src/guidance.c:127-129 | the power ratio of non-negative components is not negative |
| GuidanceEmbedded.ForwardSteer | mcu/BuitinADC_test/Src/guidance.c:118-136 | straight ahead iff abs(angle) <= fwdThresh, and then the steering state is kept; otherwise the side flips iff the ratio fell below the last one, the ratio is remembered, and the command is left iff the side is +1, right otherwise |
| GuidanceEmbedded.FallingRatiosAlternate | mcu/BuitinADC_test/Src/guidance.c:127-135 | two cycles outside the dead band with a falling ratio steer to opposite sides |
| GuidanceEmbedded.StepSpec | mcu/BuitinADC_test/Src/guidance.c:37-141 | one cycle keeps the state well formed |
| GuidanceEmbedded.WeakReadingIsIgnored | mcu/BuitinADC_test/Src/guidance.c:50-55 | a weak reading returns no signal and changes nothing, last command included |
| GuidanceEmbedded.FirstReadingSeeds | mcu/BuitinADC_test/Src/guidance.c:58-67 | the first usable reading fills every slot with its magnitude, the sum is their exact total, seeded is set, the last command is returned, and nothing else changes |
| GuidanceEmbedded.PostInsertDrop | mcu/BuitinADC_test/Src/guidance.c:70-78 | the post-insert test mag < (rest+mag)/n holds iff mag*(n-1) < rest, i.e. mag is below the average of the other slots |
| GuidanceEmbedded.SingleSlotNeverDrops | mcu/BuitinADC_test/Src/guidance.c:70-83 | with a one-slot history no cycle counts a drop, so the counter is 0 after every cycle and the lock never engages |
| GuidanceEmbedded.InitialInv | mcu/BuitinADC_test/Src/guidance.c:14-32 | the initialised state satisfies Inv: sum equals the ring total, counter in range, no U-turn pending, side +1, no lock and no cooldown, ratio 1 |
| GuidanceEmbedded.StepPreservesInv | mcu/BuitinADC_test/Src/guidance.c:37-141 | every step keeps Inv: the sum stays the ring total, the counter stays in [0, dropSteps), no U-turn is left pending, the side stays +1 or -1, a lock holds a cooldown in [0, reverseCd), no lock means no cooldown, and the ratio stays non-negative |
| GuidanceEmbedded.RunPreservesInv | mcu/BuitinADC_test/Src/guidance.c:37-141 | so does every run of steps |
| GuidanceEmbedded.TurnAroundIffEngages | mcu/BuitinADC_test/Src/guidance.c:76-100 | in a reachable seeded state a usable reading gives turn around exactly when it completes the run of drops: no lock, counter at dropSteps-1, and mag below the average of the other slots |
| GuidanceEmbedded.HoldUntilCooldownEnds | mcu/BuitinADC_test/Src/guidance.c:93-116 | once locked with k cycles of cooldown and no U-turn pending, the next k+1 usable readings all give straight ahead, the cooldown counts down one per reading, and the lock is released by the reading that finds it at 0 |
| GuidanceEmbedded.GuidanceState.constructor | mcu/BuitinADC_test/Inc/guidance.h:20-32 | a declared GuidanceState has a fresh history record with no buffer and is not valid until guidance_state_init succeeds |
| GuidanceEmbedded.GuidanceState.Init | mcu/BuitinADC_test/Src/guidance.c:10-34 | init fails, changing nothing, iff parameters are missing, histSize is 0 or above 64, or bufSize is 0; otherwise the static array is bound, its first histSize slots hold minValidMag, the rest is untouched, and the state is the initial one |
| GuidanceEmbedded.GuidanceState.SeedHistory | mcu/BuitinADC_test/Src/guidance.c:58-64 | every slot in use becomes mag; the rest of the static array is untouched |
| GuidanceEmbedded.GuidanceState.InsertSample | mcu/BuitinADC_test/Src/guidance.c:70-72 | the cursor slot becomes mag, the cursor advances with wrap-around, and the sum trades the evicted value for mag |
| GuidanceEmbedded.GuidanceState.CountDropFields | mcu/BuitinADC_test/Src/guidance.c:76-90 | the in-place drop counting is CountDrop of the old fields |
| GuidanceEmbedded.GuidanceState.ReverseCycleFields | mcu/BuitinADC_test/Src/guidance.c:93-116 | the in-place U-turn and cooldown update is ReverseCycle of the old fields |
| GuidanceEmbedded.GuidanceState.ForwardSteerFields | mcu/BuitinADC_test/Src/guidance.c:118-136 | the in-place forward steering is ForwardSteer of the old fields |
| GuidanceEmbedded.GuidanceState.Step | mcu/BuitinADC_test/Src/guidance.c:37-141 | the in-place step returns the command StepSpec gives and leaves the state StepSpec gives; slots of the static array beyond histSize are never touched |

## Left out

- Floating point: `float` is modelled as `real`. IEEE rounding, NaN and infinity, and drift of the rolling sum against the ring total are not modelled, so the sum invariants hold exactly.
- `powf`, `sqrtf` and `atan2f` are parameters of type `Libm`. They carry only the laws above: dB to linear is positive, the square root is not negative, and atan2 in the right half-plane has the sign of y. Their internals are not modelled. The scenario lemmas therefore take the library values their test relies on as preconditions, such as 0 dB is 1.0, atan2(1, 1) > 0.5 (it is pi/4, about 0.785) and sqrt(2)^2 = 2.
- Guidance.GuidanceState.Init: the `malloc` failure path (beaconTracking/guidance.c:10-12) is not modelled; allocation always succeeds.
- Guidance.GuidanceState.Free: the header says the state is zeroed apart from the null history pointer, but the code only frees and nulls the pointer. The model follows the code and states only that. Releasing the memory is not modelled.
- The `uint32_t` fields `buf_size`, `hist_size`, `idx` and the positions are `nat`, and the `int` counters are `int`. Wrap-around at 2^32 cannot happen for the sizes that pass init, so it is not modelled. `U32` exists only to instantiate the uint32 buffer.
- The null-pointer case of init's `p` in the firmware engine is the `None` of an `Option`. Null state, buffer and reading pointers elsewhere are not modelled.
- The firmware's `static hist_buf` is the array handed to `GuidanceEmbedded.GuidanceState.Init`. The model does not capture aliasing between two states initialised over the same array, of which only one can be valid at a time.
- CircBuf.CircBuf.Read and CircBuf.CircBuf.Write require an initialised buffer (non-null, 0 < size <= length, cursor inside). The C code's behaviour on an uninitialised buffer, such as reading at index `size - 1` for size 0, is undefined and not modelled.
- The `beaconTracking/GuidanceTest` header declares a state record that differs from the one `beaconTracking/guidance.c` uses. The host model follows `guidance.c`, whose behaviour is what the unit test asserts.
- The test program's `printf` output and its `main` are not modelled; its assertions are the scenario lemmas.
