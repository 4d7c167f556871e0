/**
 Properties of the uptime state machine that relate several transitions:
 counting interrupts, the microsecond reading as elapsed ticks, the
 lifecycle operations and suspension.
 */
module UptimeLaws {
  import opened UInt32
  import opened Uptime

  // ------------------------------------------------------------------------
  // Millisecond counter

  /**
   `n` interrupts advance the millisecond counter by `n` modulo 2^32 and
   touch nothing else.
   */
  lemma {:induction false} IrqHandlerNCounts(t: Timebase, n: nat)
    ensures Millis(IrqHandlerN(t, n)) == Wrap(Millis(t) + n)
    ensures IrqHandlerN(t, n).cnt == t.cnt
    ensures IrqHandlerN(t, n).running == t.running
    ensures IrqHandlerN(t, n).configured == t.configured
  {
    if n > 0 {
      IrqHandlerNCounts(t, n - 1);
      var p := IrqHandlerN(t, n - 1);
      assert IrqHandlerN(t, n) == IrqHandler(p);
      var m: int := Millis(t) + (n - 1);
      assert Millis(p) == Wrap(m);
      WrapInner(m, 1);
      assert Millis(IrqHandler(p)) == Wrap(Wrap(m) + 1);
    }
  }

  /** After a reset and `n` interrupts, `millis()` reads `n` modulo 2^32. */
  lemma MillisCountsIrqsSinceReset(t: Timebase, n: nat)
    ensures Millis(IrqHandlerN(Reset(t), n)) == Wrap(n)
  {
    var z := Reset(t);
    assert Millis(z) == 0;
    IrqHandlerNCounts(z, n);
  }

  /**
   Monotonic modulo wrap-around: between two readings `n` interrupts apart
   (fewer than 2^32), the unsigned difference of the readings is exactly `n`,
   even when the counter passed 2^32 - 1 in between.
   */
  lemma MillisElapsed(t: Timebase, n: nat)
    requires n < Modulus
    ensures Sub(Millis(IrqHandlerN(t, n)), Millis(t)) == n
  {
    IrqHandlerNCounts(t, n);
    SubAddCancel(Millis(t), n);
  }

  /** Reset after any history, then one interrupt: `millis()` reads 1. */
  lemma ResetThenIrq(t: Timebase, n: nat)
    ensures Millis(IrqHandler(Reset(IrqHandlerN(t, n)))) == 1
  {
  }

  // ------------------------------------------------------------------------
  // Microsecond reading

  /**
   While the timer runs, every tick of its clock advances `micros()` by
   exactly one modulo 2^32, including the tick that rolls the count over and
   the one on which the millisecond counter itself wraps (2^32 * 1000 is
   0 modulo 2^32).
   */
  lemma MicrosContinuous(t: Timebase)
    requires Counting(t)
    ensures Micros(HwTick(t)) == Add(Micros(t), 1)
  {
    if t.cnt == LptimArrValue {
      RolloverContinuous(t.msCnt);
    } else {
      StepContinuous(t.msCnt, t.cnt);
    }
  }

  /** The tick inside a period: only the count moves. */
  lemma StepContinuous(m: u32, c: SubCount)
    requires c < LptimArrValue
    ensures Micros(Timebase(m, c + 1, true, true)) == Add(Micros(Timebase(m, c, true, true)), 1)
  {
    var scaled := Wrap(m * TicksPerPeriod);
    assert Micros(Timebase(m, c, true, true)) == Wrap(scaled + c);
    assert Micros(Timebase(m, c + 1, true, true)) == Wrap(scaled + (c + 1));
    WrapInner(scaled + c, 1);
  }

  /** The rollover tick: the count returns to 0 and the interrupt fires. */
  lemma RolloverContinuous(m: u32)
    ensures Micros(HwTick(Timebase(m, LptimArrValue, true, true)))
         == Add(Micros(Timebase(m, LptimArrValue, true, true)), 1)
  {
    var after := HwTick(Timebase(m, LptimArrValue, true, true));
    assert after == Timebase(Wrap(m + 1), 0, true, true);
    assert Micros(after) == Wrap(Wrap(Wrap(m + 1) * TicksPerPeriod) + 0);
    assert Add(Micros(Timebase(m, LptimArrValue, true, true)), 1)
        == Wrap(Wrap(Wrap(m * TicksPerPeriod) + LptimArrValue) + 1);
    ScaledRollover(m);
  }

  /**
   The arithmetic of the rollover: scaling the incremented counter gives the
   same 32-bit value as adding one full period to the scaled counter, also
   when the counter itself wraps to 0.
   */
  lemma ScaledRollover(m: u32)
    ensures Wrap(Wrap(Wrap(m + 1) * TicksPerPeriod) + 0)
         == Wrap(Wrap(Wrap(m * TicksPerPeriod) + LptimArrValue) + 1)
  {
    var high := (m + 1) * TicksPerPeriod;
    var low := m * TicksPerPeriod;
    WrapScale(m + 1, TicksPerPeriod);
    WrapInner(high, 0);
    WrapInner(Wrap(low) + LptimArrValue, 1);
    WrapInner(low, TicksPerPeriod);
    assert low + TicksPerPeriod == high;
  }

  /** `n` ticks of a counting timer advance `micros()` by `n` modulo 2^32. */
  lemma {:induction false} TicksAdvanceMicros(t: Timebase, n: nat)
    requires Counting(t)
    ensures Counting(Ticks(t, n))
    ensures Micros(Ticks(t, n)) == Wrap(Micros(t) + n)
  {
    if n > 0 {
      TicksAdvanceMicros(t, n - 1);
      MicrosStep(Ticks(t, n - 1), Micros(t) + (n - 1));
    }
  }

  /** The induction step: one more tick adds one to the exact count. */
  lemma MicrosStep(p: Timebase, m: int)
    requires Counting(p)
    requires Micros(p) == Wrap(m)
    ensures Counting(HwTick(p))
    ensures Micros(HwTick(p)) == Wrap(m + 1)
  {
    MicrosContinuous(p);
    WrapInner(m, 1);
  }

  /**
   Between two `micros()` readings `n` ticks apart (fewer than 2^32) on a
   counting timer, the unsigned difference of the readings is exactly `n`.
   */
  lemma MicrosElapsed(t: Timebase, n: nat)
    requires Counting(t)
    requires n < Modulus
    ensures Sub(Micros(Ticks(t, n)), Micros(t)) == n
  {
    TicksAdvanceMicros(t, n);
    SubAddCancel(Micros(t), n);
  }

  /**
   The state of a timer that has run for `e` ticks since Init: the counter
   holds the completed periods modulo 2^32 and the count register the
   position inside the current period.
   */
  function ElapsedState(e: nat): Timebase
  {
    Timebase(Wrap(e / TicksPerPeriod), e % TicksPerPeriod, true, true)
  }

  /** One tick moves the timer from `e` to `e + 1` elapsed ticks. */
  lemma HwTickElapsed(e: nat)
    ensures HwTick(ElapsedState(e)) == ElapsedState(e + 1)
  {
    var q := e / TicksPerPeriod;
    var c := e % TicksPerPeriod;
    if c == LptimArrValue {
      assert HwTick(ElapsedState(e)) == Timebase(Wrap(Wrap(q) + 1), 0, true, true);
      WrapInner(q, 1);
      PeriodSplit(e + 1, q + 1, 0);
    } else {
      assert HwTick(ElapsedState(e)) == Timebase(Wrap(q), c + 1, true, true);
      PeriodSplit(e + 1, q, c + 1);
    }
  }

  /** Running `e` ticks from Init reaches the state of `e` elapsed ticks. */
  lemma {:induction false} TicksFromInit(t0: Timebase, e: nat)
    ensures Ticks(Init(t0), e) == ElapsedState(e)
  {
    if e > 0 {
      TicksFromInit(t0, e - 1);
      HwTickElapsed(e - 1);
    }
  }

  /** Completed periods and position inside the period are determined uniquely. */
  lemma PeriodSplit(e: int, q: int, c: int)
    requires 0 <= c < TicksPerPeriod
    requires e == q * TicksPerPeriod + c
    ensures e / TicksPerPeriod == q && e % TicksPerPeriod == c
  {
  }

  /**
   If the millisecond counter equals the completed periods of `e` elapsed
   ticks (modulo 2^32) and the count register the position in the current
   period, `micros()` equals `e` modulo 2^32 -- across any number of wraps
   of the millisecond counter.
   */
  lemma MicrosIsElapsedTicks(t: Timebase, e: nat)
    requires Millis(t) == Wrap(e / TicksPerPeriod)
    requires t.cnt == e % TicksPerPeriod
    ensures Micros(t) == Wrap(e)
  {
    var q := e / TicksPerPeriod;
    WrapScale(q, TicksPerPeriod);
    WrapInner(Wrap(q) * TicksPerPeriod, t.cnt);
    WrapInner(q * TicksPerPeriod, t.cnt);
    assert q * TicksPerPeriod + t.cnt == e;
  }

  /** `e` ticks after `Init`, `micros()` reads `e` modulo 2^32. */
  lemma MicrosAfterInit(t0: Timebase, e: nat)
    ensures Micros(Ticks(Init(t0), e)) == Wrap(e)
  {
    TicksFromInit(t0, e);
    MicrosIsElapsedTicks(Ticks(Init(t0), e), e);
  }

  // ------------------------------------------------------------------------
  // Lifecycle

  /** Reset is idempotent, and its result does not depend on the history. */
  lemma ResetIdempotent(t: Timebase, u: Timebase)
    ensures Reset(Reset(t)) == Reset(t)
    ensures Reset(t) == Reset(u)
  {
  }

  /**
   After a Reset the clock no longer reaches the counter: it stays at 0
   however long the timer's clock ticks, until the next Init.
   */
  lemma ResetStopsCounting(t: Timebase, n: nat)
    ensures Ticks(Reset(t), n) == Reset(t)
  {
    TicksWhileStopped(Reset(t), n);
  }

  /**
   Resume does not undo a Reset or DeInit: the enable bit is set again, but
   the reload interrupt, period and clock that Init programs are gone, so
   `millis()` stays 0 however long the timer's clock ticks.
   */
  lemma ResumeAfterResetStaysZero(t: Timebase, n: nat)
    ensures Millis(Ticks(Resume(Reset(t)), n)) == 0
    ensures Millis(Ticks(Resume(DeInit(t)), n)) == 0
  {
    TicksWhileStopped(Resume(Reset(t)), n);
  }

  /** Init begins with a Reset, so calling it again changes nothing. */
  lemma InitIdempotent(t: Timebase)
    ensures Init(Init(t)) == Init(t)
  {
  }

  /** DeInit followed by Init behaves like a fresh Init from any state. */
  lemma DeInitInitCycle(t: Timebase, u: Timebase)
    ensures Init(DeInit(t)) == Init(u)
  {
  }

  // ------------------------------------------------------------------------
  // Suspension

  /** A disabled or unconfigured timer ignores any number of clock ticks. */
  lemma {:induction false} TicksWhileStopped(t: Timebase, n: nat)
    requires !Counting(t)
    ensures Ticks(t, n) == t
  {
    if n > 0 {
      TicksWhileStopped(t, n - 1);
    }
  }

  /**
   After Suspend, no interrupt fires and both readings stay constant however
   long the timer's clock keeps ticking.
   */
  lemma SuspendFreezes(t: Timebase, n: nat)
    ensures Millis(Ticks(Suspend(t), n)) == Millis(t)
    ensures Micros(Ticks(Suspend(t), n)) == Micros(t)
  {
    TicksWhileStopped(Suspend(t), n);
  }

  /** Suspend and Resume undo each other. */
  lemma SuspendResumeInverse(t: Timebase)
    ensures t.running ==> Resume(Suspend(t)) == t
    ensures !t.running ==> Suspend(Resume(t)) == t
  {
  }
}
