# drv_system.c timebase, backup register and reset: a Dafny model

This project models the logic inside the system driver for the STM32F103.
Most of that driver brings up the hardware; the part modelled here is the rest:

- **Timebase.** `sysTickUptime` is a 32-bit millisecond counter that the
  SysTick interrupt increments. `usTicks` is the number of clock cycles per
  microsecond. `micros()` combines the counter with the SysTick countdown
  register. It keeps retrying until the counter reads the same before and
  after the countdown is sampled.
- **Delays.** `delayMicroseconds(us)` spins until `micros()` reaches
  `start + us`. `delay(ms)` calls `delayMicroseconds(1000)` `ms` times.
- **Backup register.** A 32-bit word is split into two 16-bit backup slots
  and read back by recombining them.
- **Reset and failure.** The soft reset optionally writes the bootloader
  sentinel, then stores the soft-reset magic in the backup register, then
  writes the AIRCR reset word. The failure routine sets the LEDs and then
  performs a soft reset without the bootloader.

The model has four modules:

- `Words` holds the 16- and 32-bit word types. It also holds `Wrap32`, which
  writes out the `uint32_t` wrap-around.
- `Timebase` holds the conversion behind `micros`, its bounds and monotonicity
  lemmas, and the class `SysTick`. That class has the two statics and the
  operations that update or read them.
- `Delays` models the two spin loops as methods over an abstract clock. The
  clock is the list of values that successive calls of `micros()` return.
- `SystemControl` holds the backup-register codec. It records every write of
  the reset and failure paths as an `Effect` in a trace kept by the class
  `Board`. `Apply` and `Replay` give each trace its meaning on a small
  `Machine`: backup slots, RAM words, LEDs and the reset request. The lemmas
  state what a trace leaves behind and in what order its writes happen.

Integers are unbounded in Dafny. Each place where C arithmetic could wrap is
written out. `usTicks * 1000` and `usTicks * 1000 - cycle_cnt` are evaluated
modulo 2^32. The 64-bit sum in `micros` is proved never to wrap. Bitwise
masks on disjoint bit ranges are written as arithmetic:

- `v & 0xffff` is `v % 2^16`.
- `(v & 0xffff0000) >> 16` is `v / 2^16`.
- `lo | hi << 16` is `lo + hi * 2^16`.
- `0x05FA0000 | 0x04` is `0x05FA0004`.

`systemInit` calls `SysTick_Config(SystemCoreClock / 1000)` (drv_system.c:123),
which sets the SysTick reload to `SystemCoreClock / 1000 - 1`. `micros` assumes
a period of `usTicks * 1000` cycles, and `usTicks` is `SYSCLK_Frequency /
1000000` rounded down, with the frequency taken from `RCC_GetClocksFreq`
(drv_system.c:41). When that frequency equals `SystemCoreClock` and is not a
whole number of MHz, the reload can exceed `usTicks * 1000`. The
model follows the code, and `OversizedCountdownWraps` proves that such a
countdown makes the 32-bit subtraction wrap. The bounds and monotonicity lemmas
require the countdown sample to be at most `usTicks * 1000` (`InTick`).

## Model

| member | source | states |
|---|---|---|
| `Timebase.UsTicksFor` | drv_system.c:37-42 | the scale factor is the floor of the frequency over 10^6; it is positive exactly when the clock is at least 1 MHz; times 1000 it never leaves 32 bits |
| `Timebase.ElapsedInTick` | drv_system.c:58 | with the countdown within one period, the sub-millisecond part is the floor of elapsed cycles over cycles per microsecond |
| `Timebase.CyclesToMicros` | drv_system.c:58 | the division by `usTicks` gives the whole microseconds in the cycle count: the floor of cycles over cycles per microsecond |
| `Timebase.MicrosOf` | drv_system.c:58 | the reading is at least `ms*1000` and below 2^43, so the `uint64_t` sum never wraps |
| `Timebase.MicrosWithinTick` | drv_system.c:58 | with `usTicks > 0` and the countdown at most `usTicks*1000`, the reading lies in `[ms*1000, ms*1000 + 1000]` |
| `Timebase.MicrosMonotoneInCountdown` | drv_system.c:50-58 | for a fixed millisecond, a smaller countdown never yields a smaller reading |
| `Timebase.MicrosMonotoneAcrossTick` | drv_system.c:50-58 | any valid reading in millisecond `ms+1` is at least any valid reading in millisecond `ms` |
| `Timebase.MicrosMonotone` | drv_system.c:50-58 | a later sample (larger counter, or same counter and lower countdown) never gives a smaller reading, up to the 32-bit rollover |
| `Timebase.OversizedCountdownWraps` | drv_system.c:58 | for every scale factor, any 24-bit countdown above `usTicks*1000` makes the 32-bit subtraction wrap, giving a reading larger than every in-range reading of the next millisecond |
| `Timebase.SysTick.constructor` | drv_system.c:32-35 | both statics start at zero with no tick delivered |
| `Timebase.SysTick.CycleCounterInit` | drv_system.c:37-42 | `usTicks` becomes the frequency over 10^6; the uptime is unchanged |
| `Timebase.SysTick.SysTickHandler` | drv_system.c:44-48 | the uptime grows by exactly one modulo 2^32, one more tick is counted, `usTicks` is unchanged |
| `Timebase.SysTick.Millis` | drv_system.c:61-65 | returns the number of ticks delivered since reset, modulo 2^32 |
| `Timebase.SysTick.Micros` | drv_system.c:50-59 | returns a value exactly when some pass's counter read equals its re-read; it stops at the first such pass, every earlier pass disagreed, and the value is the conversion of that pass's counter and countdown, inside that millisecond |
| `Delays.ReachFrom` | drv_system.c:129 | the spin stops just past the first reading at or above the deadline; when it finds none, every reading searched is below the deadline |
| `Delays.WaitEnd` | drv_system.c:126-130 | a wait that ends does so after at least one more reading, and that last reading is at least `start + us` |
| `Delays.WaitEndIsFirst` | drv_system.c:126-130 | a wait ends if and only if some later reading reaches `start + us`, and then at the first such reading |
| `Delays.DelayMicroseconds` | drv_system.c:126-130 | returns exactly when the wait ends, having taken exactly the readings up to the first one at or above `start + us`; otherwise it has taken every reading and not returned |
| `Delays.DelayEnd` | drv_system.c:132-136 | `ms` waits that all end take no readings exactly when `ms` is 0, and never more readings than the clock holds |
| `Delays.DelayEndStaysNone` | drv_system.c:132-136 | once one of the waits does not end, no longer delay returns either |
| `Delays.DelayOneIsOneWait` | drv_system.c:132-136 | `delay(1)` behaves exactly like one `delayMicroseconds(1000)` |
| `Delays.DelayEndSpan` | drv_system.c:132-136 | on a non-decreasing clock, `ms` waits that end span at least `1000*ms` microseconds |
| `Delays.Delay` | drv_system.c:132-136 | returns exactly when all `ms` waits of 1000 microseconds end, one after another, having made exactly `ms` calls and taken exactly the readings those waits take; on a non-decreasing clock the span is at least `1000*ms` microseconds; otherwise it has taken every reading and is still inside its last call, the first wait that does not end |
| `SystemControl.Split` | drv_system.c:150-157 | the two 16-bit halves written to the slots recombine to the value |
| `SystemControl.Combine` | drv_system.c:145-148 | the unsigned recombination is the inverse of the split |
| `SystemControl.CombineSplit` | drv_system.c:145-157 | read after write returns the written value, for every 32-bit value |
| `SystemControl.CombineAsWritten` | drv_system.c:147 | the signed-`int` shift is defined exactly when the high half is below 0x8000, and then it agrees with the unsigned recombination |
| `SystemControl.AsWrittenReadBack` | drv_system.c:145-157 | as written, read after write is defined exactly for values up to 2^31-1; 0x80000000 cannot be read back |
| `SystemControl.BackupWriteEffects` | drv_system.c:150-157 | the write enables the backup clocks, unlocks the domain, then stores the low and the high half, which recombine to the value |
| `SystemControl.BackupWriteStores` | drv_system.c:150-157 | from any machine state, the write's clock enable, unlock and two stores leave exactly the value in the slots and touch nothing else |
| `SystemControl.ResetOrder` | drv_system.c:159-174 | the sentinel `0xDEADBEEF` at `0x20004FF0` is written if and only if the bootloader is requested, and then first; the soft-reset magic follows; the AIRCR write `0x05FA0004` is last and happens once |
| `SystemControl.ResetEffects` | drv_system.c:159-174 | the reset sequence starts with the sentinel store exactly when the bootloader is requested, ends with the AIRCR reset word, and sets no LED |
| `SystemControl.ResetOutcome` | drv_system.c:159-174 | after the reset sequence, a reset is requested, the backup register holds the soft-reset magic, and RAM holds the sentinel or is untouched; no write before the last requests the reset |
| `SystemControl.FailureEffects` | drv_system.c:138-143 | the failure sequence sets LED1 off, then LED0 on, sets no other LED, and ends with the AIRCR reset word |
| `SystemControl.FailureOutcome` | drv_system.c:138-143 | just before the reset is requested, LED0 is on and LED1 is off; then the reset is requested with the soft-reset magic stored |
| `SystemControl.Board.ReadBkpDr` | drv_system.c:145-148 | the value read splits back into the two stored slots |
| `SystemControl.Board.WriteBkpDr` | drv_system.c:150-157 | appends the write's four effects, keeps the slots equal to what the trace leaves, and a later read returns the value |
| `SystemControl.Board.SystemReset` | drv_system.c:159-174 | appends exactly the reset sequence to the trace and leaves the soft-reset magic in the backup register |
| `SystemControl.Board.FailureMode` | drv_system.c:138-143 | appends LED1 off, LED0 on and then the non-bootloader reset sequence |

## Findings

| source | as written | input that shows it | evidently intended | confidence | as-written member | corrected member |
|---|---|---|---|---|---|---|
| drv_system.c:147 | the high 16-bit slot is promoted to a signed 32-bit `int` before `<< 16`; a result above `INT_MAX` is undefined behaviour in C | `rccWriteBkpDr(0x80000000)` then `rccReadBkpDr()`: `0x8000 << 16` does not fit in an `int` | unsigned recombination, returning `0x80000000` | medium, not executed; common compilers yield the intended bits | `SystemControl.AsWrittenReadBack` | `SystemControl.Combine` |

The rest of the model uses `Combine`. Read after write for every 32-bit value
is `SystemControl.CombineSplit`. Whether the file itself reaches the undefined
case depends on `BKP_SOFTRESET`, the only value it writes, which is defined in a
header that is not part of this model.

## Left out

- `systemInit` (drv_system.c:67-124) is left out. It sets the NVIC grouping, RCC clock enables, GPIO defaults, the JTAG remap and `SysTick_Config`. All of that is hardware sequencing through a vendor library that is not part of this model.
- `RCC_GetClocksFreq` and `SystemCoreClock` are foreign calls. The system clock frequency is a parameter of `CycleCounterInit`.
- `Timebase.SysTick.Micros`: the interrupt/main-line race and `volatile` reads are not modelled. The counter and countdown values come in as supplied samples.
- `Timebase.SysTick.Micros`: the source retries for ever when no pass settles. The model returns `None` when the supplied samples run out.
- `Timebase.SysTick.Micros` requires `usTicks > 0`. Before `cycleCounterInit` has run, the C code divides by zero, and that behaviour is not modelled.
- `Delays.DelayMicroseconds`: physical time and the termination of the busy-wait are not modelled. The clock is a supplied list of `micros()` readings, and the model reports "not returned yet" when they run out.
- `Delays.Delay` has the same abstract clock, and the same "not returned yet" result when the readings run out.
- Monotonicity across a SysTick reload that happens while the tick interrupt is masked is not modelled, because it is a concurrency effect.
- The value of `BKP_SOFTRESET` is treated as an arbitrary 32-bit word, because it is defined in a header that is not part of this model.
- The pin and polarity behind `LED0_ON`/`LED1_OFF` are not modelled. Each LED macro is recorded as an LED being set on or off.
- Raw memory and register writes are recorded as effects, not performed. `Machine` gives those effects a minimal meaning:
  - backup stores need the backup clocks on and the domain unlocked;
  - an AIRCR write requests a reset only with the key and `SYSRESETREQ`.
- The reboot itself is not modelled. `SystemReset` returns with `resetRequested` set in the replayed state.
- Whether the sentinel-then-magic order is crash-safe is not decided. The order is reproduced and proved, but no safer protocol is modelled.
