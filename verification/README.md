# STM32G4 uptime timebase in Dafny

This project models the uptime library for STM32G4 microcontrollers. The
library offers Arduino-like `millis()`, `micros()`, `delayMs()` and
`delayUs()` calls. It is built on the LPTIM1 low-power timer, clocked from
HSI16 divided by 16. That gives one timer tick per microsecond and a reload
period of 1000 ticks (`LPTIM_ARR_VALUE` = 999). The auto-reload interrupt
fires once per millisecond and increments the 32-bit counter
`_uptime_ms_cnt`.

The model is a small state machine over simulated hardware:

- `uint32.dfy` (module `UInt32`): `uint32_t` arithmetic, written out as
  integers taken modulo 2^32. It includes the wrap-around safe subtraction
  that the delay loops rely on.
- `uptime.dfy` (module `Uptime`): the state
  `Timebase(msCnt, cnt, running, configured)`. `configured` records whether
  the timer holds the set-up that `UPTIME_Init` programs; the peripheral
  reset wipes it. It defines the lifecycle calls (`Reset`, `Init`, `DeInit`, `Suspend`,
  `Resume`), the interrupt handler (`IrqHandler`), one tick of the timer's
  clock (`HwTick`), which raises the interrupt on the 999 → 0 rollover, and
  the two queries `Millis` and `Micros`, with `MicrosWindow` bounding the
  microsecond reading.
- `uptime_laws.dfy` (module `UptimeLaws`): lemmas that relate several
  transitions. They cover counting interrupts, `micros()` as elapsed ticks
  modulo 2^32 (also across the counter's own wrap), the lifecycle and
  suspension.
- `delay.dfy` (module `Delay`): the polling loops. They run against a
  simulated clock `run: nat -> Timebase`, where `run(k)` is the state at
  the `k`-th read (read 0 captures `start`).

Queries are pure functions of the state. So `millis()` and `micros()`
cannot change the state, by construction. On the 32-bit target `1000UL` is
a 32-bit constant. Therefore `_uptime_ms_cnt * 1000UL + LPTIM1->CNT` is
computed entirely modulo 2^32, and `Micros` models it that way.

Modelling decisions:

- `UPTIME_Resume` only sets ENABLE and CNTSTRT (stm32g4_uptime.h:96-97).
  Whether CNT then restarts at 0 is not visible in the code, so `Suspend`
  and `Resume` change only `running`.
- `UPTIME_Reset` pulses the LPTIM1 reset line (stm32g4_uptime.h:87-88),
  which returns CFGR, IER and ARR to their reset values; that is why
  `UPTIME_Init` programs them again (stm32g4_uptime.h:69-72). After a
  Reset or DeInit the timer is therefore unconfigured, and a Resume alone
  does not bring back the millisecond interrupt: counting resumes only
  after the next Init (`ResumeAfterResetStaysZero`, `ResetStopsCounting`).
- `UPTIME_Init` starts with `UPTIME_Reset` (stm32g4_uptime.h:54), so
  calling it twice behaves like calling it once (`InitIdempotent`).
- The exit test `millis() - start < ms` is exact for every 32-bit
  duration when the clock is read at every step
  (`DelayMsOneIrqPerIteration`, `DelayUsOneTickPerIteration`).
- On a consistent snapshot, `micros()` is exactly `cnt` (0..999) past
  `msCnt * 1000` modulo 2^32 (`MicrosWindow`).

## Model

| member | source | states |
|---|---|---|
| `Uptime.Reset` | stm32g4_uptime.h:85-89 | after a reset `millis()` and `micros()` both read 0 and the timer is stopped and unconfigured, whatever the previous state |
| `Uptime.Init` | stm32g4_uptime.h:52-77 | after init `millis()` and `micros()` read 0 and the timer is configured and counting |
| `Uptime.DeInit` | stm32g4_uptime.h:79-83 | after deinit the counter reads 0 (both queries) and the timer is stopped and unconfigured |
| `Uptime.Suspend` | stm32g4_uptime.h:91-93 | suspending changes neither `millis()` nor `micros()` nor the configuration; the timer stops |
| `Uptime.Resume` | stm32g4_uptime.h:95-98 | resuming changes neither `millis()` nor `micros()` nor the configuration; the timer is enabled |
| `Uptime.IrqHandler` | stm32g4_uptime.h:129-132 | the interrupt advances `millis()` by exactly 1 modulo 2^32 (the unsigned difference is 1); count, enable flag and configuration untouched |
| `Uptime.HwTick` | stm32g4_uptime.h:29-37 | a stopped or unconfigured timer ignores its clock; a counting one moves the count up by one and leaves `millis()` alone, except on the 999 → 0 rollover, where `millis()` advances by 1 |
| `Uptime.Millis` | stm32g4_uptime.h:107-109 | `millis()` is a pure query returning the counter; its properties are stated by `IrqHandlerNCounts`, `MillisCountsIrqsSinceReset` and `MillisElapsed` |
| `Uptime.Micros` | stm32g4_uptime.h:111-113 | the two 32-bit truncations in `micros()` do not matter: the reading is `(counter * 1000 + cnt) mod 2^32`; further properties in `MicrosWindow` and `MicrosIsElapsedTicks` |
| `Uptime.MicrosWindow` | stm32g4_uptime.h:111-113 | the `micros()` reading is exactly `cnt` (so at most 999) past `millis() * 1000` modulo 2^32 |
| `UInt32.SubAddCancel` | stm32g4_uptime.h:117 | unsigned `now - start` recovers the number of steps taken from `start`, also when `start + steps` wrapped past 2^32 - 1 |
| `UptimeLaws.IrqHandlerNCounts` | stm32g4_uptime.h:129-132 | `n` interrupts add `n` to `millis()` modulo 2^32 and change nothing else |
| `UptimeLaws.MillisCountsIrqsSinceReset` | stm32g4_uptime.h:107-109 | after Reset and `n` interrupts, `millis() == n mod 2^32` |
| `UptimeLaws.MillisElapsed` | stm32g4_uptime.h:107-109 | readings `n < 2^32` interrupts apart differ by exactly `n` in unsigned arithmetic (monotonic modulo wrap-around) |
| `UptimeLaws.ResetThenIrq` | stm32g4_uptime.h:85-86 | after any history, Reset followed by one interrupt gives `millis() == 1` |
| `UptimeLaws.MicrosContinuous` | stm32g4_uptime.h:111-113 | every tick of a counting timer advances `micros()` by exactly 1 modulo 2^32, including the rollover tick and the wrap of the millisecond counter |
| `UptimeLaws.TicksAdvanceMicros` | stm32g4_uptime.h:111-113 | `n` ticks of a counting timer advance `micros()` by `n` modulo 2^32 and keep it running |
| `UptimeLaws.MicrosElapsed` | stm32g4_uptime.h:111-113 | `micros()` readings `n < 2^32` ticks apart differ by exactly `n` in unsigned arithmetic |
| `UptimeLaws.HwTickElapsed` | stm32g4_uptime.h:29-37 | one tick takes a timer from `e` elapsed ticks to `e + 1`: the count advances within the period, and the 999 → 0 rollover carries into the millisecond counter |
| `UptimeLaws.TicksFromInit` | stm32g4_uptime.h:29-37 | `e` ticks after Init the counter holds the completed periods `e / 1000` mod 2^32 and the count register the position `e % 1000` |
| `UptimeLaws.MicrosIsElapsedTicks` | stm32g4_uptime.h:111-113 | if the counter is the completed periods mod 2^32 and `cnt` the position in the period, `micros()` is the elapsed ticks mod 2^32 |
| `UptimeLaws.MicrosAfterInit` | stm32g4_uptime.h:111-113 | `e` ticks after Init, `micros() == e mod 2^32` |
| `UptimeLaws.ResetIdempotent` | stm32g4_uptime.h:85-89 | resetting twice equals resetting once, and the reset state does not depend on the history |
| `UptimeLaws.ResetStopsCounting` | stm32g4_uptime.h:85-89 | after Reset, any number of clock ticks leaves the state unchanged: no interrupt reaches the counter until the next Init |
| `UptimeLaws.ResumeAfterResetStaysZero` | stm32g4_uptime.h:87-88 | Resume after Reset or DeInit does not restore counting: `millis()` stays 0 for any number of ticks |
| `UptimeLaws.InitIdempotent` | stm32g4_uptime.h:52-54 | Init begins with Reset, so a second Init gives the same state as the first |
| `UptimeLaws.DeInitInitCycle` | stm32g4_uptime.h:79-83 | DeInit followed by Init gives the same state as Init from any state |
| `UptimeLaws.TicksWhileStopped` | stm32g4_uptime.h:91-93 | a stopped or unconfigured timer stays in the same state for any number of clock ticks |
| `UptimeLaws.SuspendFreezes` | stm32g4_uptime.h:91-93 | after Suspend, `millis()` and `micros()` stay constant however long the clock ticks (no interrupt fires) |
| `UptimeLaws.SuspendResumeInverse` | stm32g4_uptime.h:91-98 | Resume undoes Suspend on a running timer and Suspend undoes Resume on a stopped one |
| `Delay.WaitElapsed` | stm32g4_uptime.h:115-123 | the polling loop exits at the first check where `(now - start) mod 2^32 >= duration`, and at no earlier check |
| `Delay.DelayMs` | stm32g4_uptime.h:115-118 | `delayMs` returns at the first `millis()` check that is `ms` or more past the start reading in unsigned arithmetic |
| `Delay.DelayUs` | stm32g4_uptime.h:120-123 | `delayUs` returns at the first `micros()` check that is `us` or more past the start reading in unsigned arithmetic |
| `Delay.DelayMsZero` | stm32g4_uptime.h:115-118 | `delayMs(0)` returns after a single check |
| `Delay.DelayUsZero` | stm32g4_uptime.h:120-123 | `delayUs(0)` returns after a single check |
| `Delay.DelayMsOneIrqPerIteration` | stm32g4_uptime.h:115-118 | with one interrupt per loop iteration, `delayMs(ms)` runs its loop body exactly `ms` times for every 32-bit `ms` and every start value, including starts near 2^32 - 1 |
| `Delay.DelayUsOneTickPerIteration` | stm32g4_uptime.h:120-123 | with one timer tick per loop iteration, `delayUs(us)` runs its loop body exactly `us` times, across count rollovers and counter wraps |

## Left out

- RCC and LPTIM1 register programming is not modelled. This covers the
  prescaler, the clock-source select, the bus-clock gate, the
  CFGR/IER/CR/ARR writes and the ICR flag clearing in the interrupt
  handler. It is memory-mapped hardware plumbing. The model only assumes
  that the interrupt fires once per 1000 ticks, on the 999 → 0 rollover.
- The wait for HSI ready in `UPTIME_Init` is left out. It is an unbounded
  hardware poll with no statable result.
- Enabling and disabling the interrupt in the NVIC and gating the bus
  clock are not modelled as separate steps. They are folded into
  `configured`, which Init sets and Reset and DeInit clear. In the model,
  interrupts fire exactly when the timer is enabled and configured and
  its count rolls over.
- Uptime.HwTick: on a timer enabled but not configured (Resume after
  Reset), the model keeps the count register where it is. The real count
  then runs with the reset-value prescaler and reload, which is not
  modelled. What is modelled is that no reload interrupt reaches the
  millisecond counter, because IER is 0 after the reset.
- Uptime.Resume: after DeInit the bus clock of LPTIM1 is gated
  (stm32g4_uptime.h:81), so Resume's CR writes never reach the timer and
  ENABLE stays clear. The model's `running` then only records that Resume
  was called; nothing counts either way.
- The non-atomic read in `micros()` is left out. The interrupt can preempt
  between the read of `_uptime_ms_cnt` and the read of `LPTIM1->CNT`.
  That is a concurrency race. `Micros` reads one consistent snapshot.
- Uptime.Resume: does not say whether ENABLE/CNTSTRT restarts the count
  register at 0. That is hardware behaviour the code does not show, so the
  count is left as Suspend froze it.
- Uptime.Reset: the peripheral reset is taken to return the count register
  to 0 and the enable bit to cleared. These are the register reset values.
  Every transition is modelled as one atomic step. The source zeroes
  `_uptime_ms_cnt` (stm32g4_uptime.h:86) before pulsing the peripheral
  reset (lines 87-88), with the interrupt line still enabled. A reload
  interrupt that fires in that window, or is already pending in the NVIC,
  leaves `millis()` at 1 rather than 0. This applies to a standalone Reset
  and to the one inside a repeated Init, and it is not modelled.
- HSI16 accuracy (±2 %) and real time in general are out of scope. One
  tick is one step of the simulated clock.
- Delay.WaitElapsed: requires a ghost `bound` at which the duration has
  elapsed. With a clock that never gets that far (a stopped or
  deinitialised timer), the source spins forever. A terminating model
  cannot express that, so that run is excluded.
- Delay.DelayMs: same ghost `bound` requirement as `WaitElapsed`.
- Delay.DelayUs: same ghost `bound` requirement as `WaitElapsed`.
- Delay.DelayUsOneTickPerIteration: takes "one iteration per microsecond
  tick" as its simulated clock. A real iteration takes however many CPU
  cycles it takes.
