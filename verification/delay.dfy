/**
 The busy-wait delays. Both capture a start reading and then poll the same
 clock until the unsigned, wrap-around safe distance from the start reaches
 the requested duration. The clock is simulated: `clock(0)` is the reading
 taken as the start, `clock(k)` for `k >= 1` the reading of the `k`-th loop
 check. A clock that never gets far enough makes the source spin forever;
 the model asks for a poll `bound` at which the duration has elapsed.
 */
module Delay {
  import opened UInt32
  import opened Uptime
  import opened UptimeLaws

  /** The loop's exit test on a reading `now` against `start`. */
  predicate Elapsed(now: u32, start: u32, duration: u32)
  {
    Sub(now, start) >= duration
  }

  /**
   Polls `clock` until `duration` has elapsed since `clock(0)`; returns how
   many times the loop condition was evaluated. The loop exits at the first
   check whose reading is `duration` or more past the start, and at no other.
   */
  method WaitElapsed(clock: nat -> u32, duration: u32, ghost bound: nat) returns (checks: nat)
    requires 1 <= bound && Elapsed(clock(bound), clock(0), duration)
    ensures 1 <= checks <= bound
    ensures Elapsed(clock(checks), clock(0), duration)
    ensures forall k :: 1 <= k < checks ==> !Elapsed(clock(k), clock(0), duration)
  {
    var start := clock(0);
    checks := 1;
    while Sub(clock(checks), start) < duration
      invariant 1 <= checks <= bound
      invariant forall k :: 1 <= k < checks ==> !Elapsed(clock(k), start, duration)
      decreases bound - checks
    {
      checks := checks + 1;
    }
  }

  /**
   `delayMs(ms)`: `run(k)` is the timebase when `millis()` is read for the
   `k`-th time (the start read is `k = 0`).
   */
  method DelayMs(run: nat -> Timebase, ms: u32, ghost bound: nat) returns (checks: nat)
    requires 1 <= bound && Sub(Millis(run(bound)), Millis(run(0))) >= ms
    ensures 1 <= checks <= bound
    ensures Sub(Millis(run(checks)), Millis(run(0))) >= ms
    ensures forall k :: 1 <= k < checks ==> Sub(Millis(run(k)), Millis(run(0))) < ms
  {
    var clock := (k: nat) => Millis(run(k));
    checks := WaitElapsed(clock, ms, bound);
    forall k | 1 <= k < checks
      ensures Sub(Millis(run(k)), Millis(run(0))) < ms
    {
      assert !Elapsed(clock(k), clock(0), ms);
    }
  }

  /**
   `delayUs(us)`: `run(k)` is the timebase when `micros()` is read for the
   `k`-th time (the start read is `k = 0`).
   */
  method DelayUs(run: nat -> Timebase, us: u32, ghost bound: nat) returns (checks: nat)
    requires 1 <= bound && Sub(Micros(run(bound)), Micros(run(0))) >= us
    ensures 1 <= checks <= bound
    ensures Sub(Micros(run(checks)), Micros(run(0))) >= us
    ensures forall k :: 1 <= k < checks ==> Sub(Micros(run(k)), Micros(run(0))) < us
  {
    var clock := (k: nat) => Micros(run(k));
    checks := WaitElapsed(clock, us, bound);
    forall k | 1 <= k < checks
      ensures Sub(Micros(run(k)), Micros(run(0))) < us
    {
      assert !Elapsed(clock(k), clock(0), us);
    }
  }

  /** The number of clock advances seen by the `k`-th read when one happens per loop iteration. */
  function Advances(k: nat): nat
  {
    if k == 0 then 0 else k - 1
  }

  /** `delayMs(0)` returns after a single check, whatever the clock does. */
  method DelayMsZero(run: nat -> Timebase) returns (checks: nat)
    ensures checks == 1
  {
    checks := DelayMs(run, 0, 1);
  }

  /** `delayUs(0)` returns after a single check, whatever the clock does. */
  method DelayUsZero(run: nat -> Timebase) returns (checks: nat)
    ensures checks == 1
  {
    checks := DelayUs(run, 0, 1);
  }

  /**
   `delayMs(ms)` where exactly one interrupt fires per loop iteration: the
   loop body runs exactly `ms` times (`ms + 1` checks), for every 32-bit
   `ms` and every start value, including starts just below 2^32.
   */
  method DelayMsOneIrqPerIteration(t: Timebase, ms: u32) returns (checks: nat)
    ensures checks == ms + 1
  {
    var run := (k: nat) => IrqHandlerN(t, Advances(k));
    forall k: nat | k <= ms + 1
      ensures Sub(Millis(run(k)), Millis(run(0))) == Advances(k)
    {
      MillisElapsed(t, Advances(k));
    }
    checks := DelayMs(run, ms, ms + 1);
  }

  /**
   `delayUs(us)` on a counting timer whose clock ticks once per loop
   iteration: the loop body runs exactly `us` times, for every 32-bit `us`,
   across rollovers of the count and wraps of the millisecond counter.
   */
  method DelayUsOneTickPerIteration(t: Timebase, us: u32) returns (checks: nat)
    requires Counting(t)
    ensures checks == us + 1
  {
    var run := (k: nat) => Ticks(t, Advances(k));
    forall k: nat | k <= us + 1
      ensures Sub(Micros(run(k)), Micros(run(0))) == Advances(k)
    {
      MicrosElapsed(t, Advances(k));
    }
    checks := DelayUs(run, us, us + 1);
  }
}
