/**
 The LPTIM1 uptime clock of an STM32G4 as a state machine over simulated
 hardware. The state is the software millisecond counter, the live
 sub-period count of the timer, whether the timer is enabled and whether
 it holds the configuration `UPTIME_Init` programs; the register writes
 themselves are abstracted away, and what remains is the arithmetic that
 turns the two counters into millisecond and microsecond readings.
 */
module Uptime {
  import opened UInt32

  /** The auto-reload value programmed into LPTIM1: the count runs 0..999. */
  const LptimArrValue: int := 1000 - 1

  /** Timer ticks (microseconds) in one reload period (one millisecond). */
  const TicksPerPeriod: int := LptimArrValue + 1

  /** A value the live hardware count register can hold. */
  type SubCount = x: int | 0 <= x <= LptimArrValue

  /**
   One snapshot of the timebase: `msCnt` is the software millisecond
   counter, `cnt` the LPTIM1 count register, `running` the timer's enable
   bit, and `configured` whether the clock source, prescaler, reload value,
   reload interrupt, bus clock and interrupt line are set up as Init leaves
   them (a peripheral reset returns all of these to their reset values).
   */
  datatype Timebase = Timebase(msCnt: u32, cnt: SubCount, running: bool, configured: bool)

  /** The timer counts microseconds and raises the reload interrupt. */
  predicate Counting(t: Timebase)
  {
    t.running && t.configured
  }

  // ------------------------------------------------------------------------
  // Lifecycle

  /**
   Zeroes the millisecond counter and pulses the peripheral reset line,
   which brings the count register, the enable bit and the whole timer
   configuration back to their reset values.
   */
  function Reset(t: Timebase): (r: Timebase)
    ensures Millis(r) == 0 && Micros(r) == 0
    ensures !r.running && !r.configured
  {
    Timebase(0, 0, false, false)
  }

  /**
   Resets the timer, then configures it for a 1 ms period of 1 us ticks,
   enables it and starts continuous counting.
   */
  function Init(t: Timebase): (r: Timebase)
    ensures Millis(r) == 0 && Micros(r) == 0
    ensures Counting(r)
  {
    Reset(t).(running := true, configured := true)
  }

  /**
   Disables the interrupt line and gates the bus clock, then resets: the
   configuration is gone and the timer stopped.
   */
  function DeInit(t: Timebase): (r: Timebase)
    ensures Millis(r) == 0 && Micros(r) == 0
    ensures !r.running && !r.configured
  {
    Reset(t)
  }

  /** Clears the enable bit: the timer freezes, nothing is zeroed. */
  function Suspend(t: Timebase): (r: Timebase)
    ensures Millis(r) == Millis(t) && Micros(r) == Micros(t)
    ensures !r.running && r.configured == t.configured
  {
    t.(running := false)
  }

  /**
   Sets the enable bit and restarts counting; the readings are kept. The
   configuration is not touched, so after a Reset or DeInit the timer is
   enabled but still does not count.
   */
  function Resume(t: Timebase): (r: Timebase)
    ensures Millis(r) == Millis(t) && Micros(r) == Micros(t)
    ensures r.running && r.configured == t.configured
  {
    t.(running := true)
  }

  // ------------------------------------------------------------------------
  // Interrupt and hardware tick

  /** The auto-reload interrupt: one more millisecond, modulo 2^32. */
  function IrqHandler(t: Timebase): (r: Timebase)
    ensures Sub(Millis(r), Millis(t)) == 1
    ensures r.cnt == t.cnt && r.running == t.running && r.configured == t.configured
  {
    SubAddCancel(t.msCnt, 1);
    t.(msCnt := Add(t.msCnt, 1))
  }

  /**
   One tick of the timer's clock. A disabled or unconfigured timer does not
   count; a counting one advances its count and, on the rollover from the
   reload value to 0, raises the interrupt.
   */
  function HwTick(t: Timebase): (r: Timebase)
    ensures !Counting(t) ==> r == t
    ensures r.running == t.running && r.configured == t.configured
    ensures Counting(t) && t.cnt == LptimArrValue ==> r.cnt == 0 && Sub(Millis(r), Millis(t)) == 1
    ensures Counting(t) && t.cnt < LptimArrValue ==> r.cnt == t.cnt + 1 && Millis(r) == Millis(t)
  {
    if !Counting(t) then t
    else if t.cnt == LptimArrValue then IrqHandler(t.(cnt := 0))
    else t.(cnt := t.cnt + 1)
  }

  /** `n` interrupts in a row. */
  function IrqHandlerN(t: Timebase, n: nat): Timebase
  {
    if n == 0 then t else IrqHandler(IrqHandlerN(t, n - 1))
  }

  /** `n` ticks of the timer's clock in a row. */
  function Ticks(t: Timebase, n: nat): Timebase
  {
    if n == 0 then t else HwTick(Ticks(t, n - 1))
  }

  // ------------------------------------------------------------------------
  // Queries

  /** `millis()`: the millisecond counter. */
  function Millis(t: Timebase): u32
  {
    t.msCnt
  }

  /**
   `micros()`: the millisecond counter scaled to microseconds plus the live
   count, all in 32-bit unsigned arithmetic. Truncating the product before
   adding the count does not matter: the reading is the exact microsecond
   count modulo 2^32.
   */
  function Micros(t: Timebase): (r: u32)
    ensures r == Wrap(Millis(t) * TicksPerPeriod + t.cnt)
  {
    WrapInner(t.msCnt * TicksPerPeriod, t.cnt);
    Add(Wrap(t.msCnt * TicksPerPeriod), t.cnt)
  }

  /**
   The `micros()` reading lies exactly `cnt` (at most 999) past the scaled
   millisecond counter, modulo 2^32.
   */
  lemma MicrosWindow(t: Timebase)
    ensures Sub(Micros(t), Wrap(Millis(t) * TicksPerPeriod)) == t.cnt
  {
    SubAddCancel(Wrap(t.msCnt * TicksPerPeriod), t.cnt);
  }
}
