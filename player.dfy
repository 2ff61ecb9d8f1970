// The frame-advance step of `playAnimation`: on every animation-frame
// callback, when more than 1000 ms have passed since the last advance, the
// frame index moves to the next frame, wrapping to 0 after the last one,
// and the callback's time becomes the new reference time.
//
// Times are the callback's timestamps in milliseconds. Scheduling the next
// callback is the host's business and is not modelled.

module Player {
  import Arith

  /** Milliseconds that must pass before the next advance. */
  const Interval: real := 1000.0

  /** The `setFrame` updater: `prev === data.length - 1 ? 0 : prev + 1`. */
  function NextFrame(prev: int, frameCount: int): (next: int)
    ensures 0 <= prev < frameCount ==> 0 <= next < frameCount
    ensures 0 <= prev < frameCount ==> next == (prev + 1) % frameCount
    ensures prev == frameCount - 1 ==> next == 0
  {
    if prev == frameCount - 1 then 0 else prev + 1
  }

  /** The frame index after `steps` advances. */
  function Advance(frame: int, steps: nat, frameCount: int): int
    decreases steps
  {
    if steps == 0 then frame else Advance(NextFrame(frame, frameCount), steps - 1, frameCount)
  }

  /** Subtracting the divisor does not change a remainder. */
  lemma ModMinusDivisor(x: int, c: int)
    requires c > 0
    ensures (x - c) % c == x % c
  {
    Arith.DivModOfIndex(x / c - 1, x % c, c);
    assert x - c == (x / c - 1) * c + x % c;
  }

  /** Advancing a valid index `steps` times is addition modulo the number of
      frames. */
  lemma {:induction false} AdvanceIsModular(frame: int, steps: nat, frameCount: int)
    requires 0 <= frame < frameCount
    ensures Advance(frame, steps, frameCount) == (frame + steps) % frameCount
    decreases steps
  {
    if steps > 0 {
      var next := NextFrame(frame, frameCount);
      AdvanceIsModular(next, steps - 1, frameCount);
      if frame == frameCount - 1 {
        ModMinusDivisor(frame + steps, frameCount);
      }
    }
  }

  /** After as many advances as there are frames the index is back where it
      started. */
  lemma FullCycle(frame: int, frameCount: int)
    requires 0 <= frame < frameCount
    ensures Advance(frame, frameCount, frameCount) == frame
  {
    AdvanceIsModular(frame, frameCount, frameCount);
    ModMinusDivisor(frame + frameCount, frameCount);
    Arith.DivModOfIndex(0, frame, frameCount);
  }

  /** Advancing never leaves the valid range of frame indices. */
  lemma {:induction false} AdvanceInRange(frame: int, steps: nat, frameCount: int)
    requires 0 <= frame < frameCount
    ensures 0 <= Advance(frame, steps, frameCount) < frameCount
    decreases steps
  {
    if steps > 0 {
      AdvanceInRange(NextFrame(frame, frameCount), steps - 1, frameCount);
    }
  }

  /** The animation state `playAnimation` reads and writes: the frame index
      (React state) and the time of the last advance (a closure variable). */
  datatype Clock = Clock(frame: int, lastTime: real)

  /** Whether a callback at `time` advances the frame. */
  predicate Due(c: Clock, time: real) {
    time - c.lastTime > Interval
  }

  /** One `playAnimation` callback: a callback too early changes nothing; a
      due one records its time and moves a valid index one frame on, modulo
      the number of frames. */
  function Step(c: Clock, time: real, frameCount: int): (next: Clock)
    ensures !Due(c, time) ==> next == c
    ensures Due(c, time) ==> next.lastTime == time
    ensures 0 <= c.frame < frameCount ==> 0 <= next.frame < frameCount
    ensures Due(c, time) && 0 <= c.frame < frameCount ==> next.frame == (c.frame + 1) % frameCount
  {
    if Due(c, time) then Clock(NextFrame(c.frame, frameCount), time) else c
  }

  /** The state after callbacks at each of `times`, in order. */
  function Run(c: Clock, times: seq<real>, frameCount: int): Clock
    decreases |times|
  {
    if times == [] then c else Run(Step(c, times[0], frameCount), times[1..], frameCount)
  }

  /** How many of the callbacks at `times` advance the frame. */
  function EffectiveTicks(c: Clock, times: seq<real>, frameCount: int): nat
    decreases |times|
  {
    if times == [] then 0
    else (if Due(c, times[0]) then 1 else 0) + EffectiveTicks(Step(c, times[0], frameCount), times[1..], frameCount)
  }

  /** After any sequence of callbacks the frame index has advanced once per
      effective tick: in particular it stays a valid index, and callbacks
      that come too early change nothing. */
  lemma {:induction false} RunAdvancesByEffectiveTicks(c: Clock, times: seq<real>, frameCount: int)
    ensures Run(c, times, frameCount).frame == Advance(c.frame, EffectiveTicks(c, times, frameCount), frameCount)
    decreases |times|
  {
    if times != [] {
      RunAdvancesByEffectiveTicks(Step(c, times[0], frameCount), times[1..], frameCount);
    }
  }

  /** A run of callbacks from a valid index ends at a valid index. */
  lemma RunInRange(c: Clock, times: seq<real>, frameCount: int)
    requires 0 <= c.frame < frameCount
    ensures 0 <= Run(c, times, frameCount).frame < frameCount
  {
    RunAdvancesByEffectiveTicks(c, times, frameCount);
    AdvanceInRange(c.frame, EffectiveTicks(c, times, frameCount), frameCount);
  }

  /** The animation loop's state as an object: `frame` and `lastTime` are
      updated in place by each callback. */
  class Animation {
    /** `data.length`: the number of pre-generated frames. */
    const frameCount: int
    var frame: int
    var lastTime: real

    ghost predicate Valid()
      reads this
    {
      0 <= frame < frameCount
    }

    function State(): Clock
      reads this
    {
      Clock(frame, lastTime)
    }

    /** The component starts on frame 0 and the effect starts with lastTime 0. */
    constructor (frameCount: int)
      ensures this.frameCount == frameCount
      ensures State() == Clock(0, 0.0)
      ensures frameCount > 0 ==> Valid()
    {
      this.frameCount := frameCount;
      frame := 0;
      lastTime := 0.0;
    }

    /** `playAnimation(time)`: advance the frame when more than 1000 ms have
        passed since the last advance, and record the time of the advance. */
    method PlayAnimation(time: real)
      modifies this
      ensures State() == Step(old(State()), time, frameCount)
      ensures old(Valid()) ==> Valid()
      ensures time - old(lastTime) <= Interval ==> frame == old(frame) && lastTime == old(lastTime)
    {
      if time - lastTime > Interval {
        frame := NextFrame(frame, frameCount);
        lastTime := time;
      }
    }
  }
}
