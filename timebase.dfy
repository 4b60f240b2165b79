/** The millisecond/microsecond timebase: the 1 kHz SysTick uptime counter,
    the cycles-per-microsecond scale factor, and the conversion of a
    (counter, countdown) pair into microseconds of uptime. */
module Timebase {
  import opened Words

  /** `usTicks` for the largest frequency a `uint32_t` can hold. */
  const MAX_US_TICKS: int := (U32_MOD - 1) / 1_000_000

  /** Cycles per microsecond for a system clock of `sysclkHz`: the integer
      quotient that `cycleCounterInit` stores. Its product with 1000 never
      leaves 32 bits, and it is zero below 1 MHz. */
  function UsTicksFor(sysclkHz: u32): (r: u32)
    ensures r * 1_000_000 <= sysclkHz < (r + 1) * 1_000_000
    ensures r <= MAX_US_TICKS && r * 1000 < U32_MOD
    ensures r > 0 <==> sysclkHz >= 1_000_000
  {
    sysclkHz / 1_000_000
  }

  /** Microseconds elapsed inside the current tick: C evaluates
      `usTicks * 1000 - cycle_cnt` in `uint32_t` and divides by `usTicks`.
      When the countdown is within the tick period, `r` is the floor of the
      elapsed cycles over the cycles per microsecond. */
  function ElapsedInTick(usTicks: u32, cycleCnt: u32): (r: u32)
    requires usTicks > 0
    ensures cycleCnt <= usTicks * 1000 < U32_MOD ==>
              r * usTicks <= usTicks * 1000 - cycleCnt < (r + 1) * usTicks
  {
    PeriodMinusCountdown(usTicks, cycleCnt);
    CyclesToMicros(Wrap32(Wrap32(usTicks * 1000) - cycleCnt), usTicks)
  }

  /** Whole microseconds in `cycles` clock cycles: the floor of the quotient. */
  function CyclesToMicros(cycles: u32, usTicks: u32): (r: u32)
    requires usTicks > 0
    ensures r * usTicks <= cycles < (r + 1) * usTicks
  {
    DivBounds(cycles, usTicks);
    cycles / usTicks
  }

  lemma DivBounds(x: nat, d: int)
    requires d > 0
    ensures (x / d) * d <= x < (x / d + 1) * d
  {
    assert x == (x / d) * d + x % d;
  }

  /** Neither 32-bit operation wraps while the countdown is within the period. */
  lemma PeriodMinusCountdown(usTicks: u32, cycleCnt: u32)
    ensures cycleCnt <= usTicks * 1000 < U32_MOD ==>
              Wrap32(Wrap32(usTicks * 1000) - cycleCnt) == usTicks * 1000 - cycleCnt
  {}

  /** An upper bound on every value `micros` can return: 2^43. */
  const MICROS_BOUND: int := 0x800_0000_0000

  /** The value `micros` returns for millisecond count `ms` and countdown
      sample `cycleCnt`: whole milliseconds scaled to microseconds plus the
      part of the current tick. The sum stays below 2^43, far inside 64 bits,
      so the `uint64_t` arithmetic does not wrap. */
  function MicrosOf(ms: u32, usTicks: u32, cycleCnt: u32): (r: nat)
    requires usTicks > 0
    ensures ms * 1000 <= r < MICROS_BOUND < U64_MOD
  {
    ms * 1000 + ElapsedInTick(usTicks, cycleCnt)
  }

  /** A countdown sample is in range when it does not exceed one tick period. */
  predicate InTick(usTicks: u32, cycleCnt: u32) {
    0 < usTicks && usTicks * 1000 < U32_MOD && cycleCnt <= usTicks * 1000
  }

  lemma MulMonotone(a: int, b: int, c: nat)
    requires a <= b
    ensures a * c <= b * c
  {}

  /** With the countdown in range, a reading lies in the millisecond it names,
      up to and including the boundary with the next one. */
  lemma MicrosWithinTick(ms: u32, usTicks: u32, cycleCnt: u32)
    requires InTick(usTicks, cycleCnt)
    ensures ms * 1000 <= MicrosOf(ms, usTicks, cycleCnt) <= ms * 1000 + 1000
  {
    var e := ElapsedInTick(usTicks, cycleCnt);
    if e > 1000 {
      MulMonotone(1001, e, usTicks);
      assert false;
    }
  }

  /** Within one millisecond the countdown runs down, so a smaller countdown
      sample never yields a smaller reading. */
  lemma MicrosMonotoneInCountdown(ms: u32, usTicks: u32, c1: u32, c2: u32)
    requires InTick(usTicks, c1) && InTick(usTicks, c2) && c2 <= c1
    ensures MicrosOf(ms, usTicks, c1) <= MicrosOf(ms, usTicks, c2)
  {
    var e1, e2 := ElapsedInTick(usTicks, c1), ElapsedInTick(usTicks, c2);
    if e1 > e2 {
      MulMonotone(e2 + 1, e1, usTicks);
      assert false;
    }
  }

  /** Any in-range reading in millisecond `ms + 1` is at least as large as any
      in-range reading in millisecond `ms`. */
  lemma MicrosMonotoneAcrossTick(ms: u32, usTicks: u32, c1: u32, c2: u32)
    requires ms + 1 < U32_MOD
    requires InTick(usTicks, c1) && InTick(usTicks, c2)
    ensures MicrosOf(ms, usTicks, c1) <= MicrosOf(ms + 1, usTicks, c2)
  {
    MicrosWithinTick(ms, usTicks, c1);
    MicrosWithinTick(ms + 1, usTicks, c2);
  }

  /** Monotone uptime up to the 32-bit rollover of the millisecond counter:
      a later sample (a larger counter, or the same counter and a countdown
      that has run further down) never gives a smaller reading. */
  lemma MicrosMonotone(usTicks: u32, ms1: u32, c1: u32, ms2: u32, c2: u32)
    requires InTick(usTicks, c1) && InTick(usTicks, c2)
    requires ms1 < ms2 || (ms1 == ms2 && c2 <= c1)
    ensures MicrosOf(ms1, usTicks, c1) <= MicrosOf(ms2, usTicks, c2)
  {
    if ms1 == ms2 {
      MicrosMonotoneInCountdown(ms1, usTicks, c1, c2);
    } else if ms1 + 1 == ms2 {
      MicrosMonotoneAcrossTick(ms1, usTicks, c1, c2);
    } else {
      MicrosWithinTick(ms1, usTicks, c1);
      MicrosWithinTick(ms2, usTicks, c2);
      MulMonotone(ms1 + 1, ms2, 1000);
    }
  }

  /** SysTick's countdown register is 24 bits wide. */
  const SYSTICK_VAL_MOD: int := 0x100_0000

  /** A countdown sample above `usTicks * 1000` (possible when the SysTick
      reload comes from a clock that is not a whole number of MHz) makes the
      32-bit subtraction wrap: the reading then exceeds every in-range reading
      of the next millisecond, so `micros` would run backwards afterwards. */
  lemma OversizedCountdownWraps(ms: u32, usTicks: u32, c: u32, c2: u32)
    requires 0 < usTicks <= MAX_US_TICKS
    requires usTicks * 1000 < c < SYSTICK_VAL_MOD
    requires ms + 1 < U32_MOD && InTick(usTicks, c2)
    ensures MicrosOf(ms, usTicks, c) > MicrosOf(ms + 1, usTicks, c2)
  {
    var e := ElapsedInTick(usTicks, c);
    var cycles := Wrap32(Wrap32(usTicks * 1000) - c);
    assert cycles == usTicks * 1000 - c + U32_MOD;
    assert e == CyclesToMicros(cycles, usTicks);
    if e <= 2000 {
      MulMonotone(e + 1, 2001, usTicks);
      assert false;
    }
    MicrosWithinTick(ms + 1, usTicks, c2);
  }

  /** One pass of the retry loop in `micros`: the counter, the SysTick
      countdown, then the counter again. */
  datatype Sample = Sample(counter: u32, countdown: u32, recheck: u32)

  /** The counter did not change while the countdown was sampled. */
  predicate Settled(s: Sample) {
    s.counter == s.recheck
  }

  /** The file's timebase state. `ticks` counts the SysTick interrupts
      delivered since reset; the 32-bit uptime is that count modulo 2^32. */
  class SysTick {
    var usTicks: u32
    var sysTickUptime: u32
    ghost var ticks: nat

    ghost predicate Valid()
      reads this
    {
      sysTickUptime == ticks % U32_MOD && usTicks <= MAX_US_TICKS
    }

    /** Both statics start at zero. */
    constructor ()
      ensures Valid()
      ensures usTicks == 0 && sysTickUptime == 0 && ticks == 0
    {
      usTicks, sysTickUptime := 0, 0;
      ticks := 0;
    }

    /** `cycleCounterInit`: the frequency comes from `RCC_GetClocksFreq`. */
    method CycleCounterInit(sysclkHz: u32)
      requires Valid()
      modifies this
      ensures Valid()
      ensures usTicks == UsTicksFor(sysclkHz)
      ensures sysTickUptime == old(sysTickUptime) && ticks == old(ticks)
    {
      usTicks := UsTicksFor(sysclkHz);
    }

    /** `SysTick_Handler`: one more tick, with 32-bit wrap-around. */
    method SysTickHandler()
      requires Valid()
      modifies this
      ensures Valid()
      ensures ticks == old(ticks) + 1
      ensures sysTickUptime == Wrap32(old(sysTickUptime) + 1)
      ensures usTicks == old(usTicks)
    {
      sysTickUptime := Wrap32(sysTickUptime + 1);
      ticks := ticks + 1;
    }

    /** `millis`: the number of ticks delivered, modulo 2^32. */
    function Millis(): (r: u32)
      reads this
      requires Valid()
      ensures r == ticks % U32_MOD
    {
      sysTickUptime
    }

    /** `micros`: retries until the counter read before the countdown sample
        equals the re-read after it, then converts that pair. `samples` are
        the values the hardware supplies pass by pass; `used` is the number
        of passes made. When no pass settles within `samples`, the source
        would still be retrying, and the result is `None`. */
    method Micros(samples: seq<Sample>) returns (r: Option<nat>, used: nat)
      requires Valid() && usTicks > 0
      ensures used <= |samples|
      ensures r.Some? <==> exists i :: 0 <= i < |samples| && Settled(samples[i])
      ensures r.None? ==> used == |samples|
      ensures forall j :: 0 <= j < used - 1 ==> !Settled(samples[j])
      ensures r.Some? ==>
                0 < used && Settled(samples[used - 1]) &&
                r.value == MicrosOf(samples[used - 1].counter, usTicks, samples[used - 1].countdown)
      ensures r.Some? && samples[used - 1].countdown <= usTicks * 1000 ==>
                samples[used - 1].counter * 1000 <= r.value <= samples[used - 1].counter * 1000 + 1000
    {
      used := 0;
      while used < |samples|
        invariant used <= |samples|
        invariant forall j :: 0 <= j < used ==> !Settled(samples[j])
      {
        var s := samples[used];
        used := used + 1;
        if Settled(s) {
          r := Some(MicrosOf(s.counter, usTicks, s.countdown));
          if s.countdown <= usTicks * 1000 {
            MicrosWithinTick(s.counter, usTicks, s.countdown);
          }
          return;
        }
      }
      r := None;
    }
  }
}
