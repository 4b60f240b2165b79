/** The backup-register codec, the soft reset and the failure routine.
    Every register or memory write they make is recorded, in order, as an
    `Effect`; `Apply` and `Replay` give those effects their meaning on the
    parts of the machine this file touches. */
module SystemControl {
  import opened Words

  /** The soft-reset magic; its value is defined in a header that is not
      part of this model, so it stands for an arbitrary 32-bit word. */
  const BKP_SOFTRESET: u32
  /** RAM word the bootloader checks (top of the 20 KB of SRAM). */
  const BOOTLOADER_FLAG_ADDR: u32 := 0x2000_4FF0
  const BOOTLOADER_MAGIC: u32 := 0xDEAD_BEEF
  const AIRCR_VECTKEY_MASK: u32 := 0x05FA_0000
  const AIRCR_SYSRESETREQ: u32 := 0x04
  /** `AIRCR_VECTKEY_MASK | 0x04`: the operands share no bit, so `|` is `+`. */
  const AIRCR_RESET_WORD: u32 := AIRCR_VECTKEY_MASK + AIRCR_SYSRESETREQ

  datatype Led = Led0 | Led1

  /** The two 16-bit backup slots: halfword 0x04 and halfword 0x08 past the
      base of the backup registers. */
  datatype Slot = LowSlot | HighSlot

  datatype Effect =
    | EnableBackupClocks                   // RCC clock enable for PWR and BKP
    | UnlockBackupDomain                   // PWR->CR |= PWR_CR_DBP
    | StoreBackupHalf(slot: Slot, half: u16)
    | StoreWord(addr: u32, word: u32)      // a 32-bit store to RAM
    | WriteAircr(word: u32)                // SCB->AIRCR
    | SetLed(led: Led, on: bool)

  /** `rccWriteBkpDr`'s split: `value & 0xffff` and `(value & 0xffff0000) >> 16`. */
  function Split(value: u32): (halves: (u16, u16))
    ensures halves.0 + halves.1 * U16_MOD == value
  {
    (value % U16_MOD, value / U16_MOD)
  }

  /** `rccReadBkpDr`'s recombination, read as unsigned 32-bit arithmetic: the
      low half or'ed with the high half shifted up 16 (disjoint bits, so `|`
      is `+`). It inverts `Split`. */
  function Combine(lo: u16, hi: u16): (value: u32)
    ensures Split(value) == (lo, hi)
  {
    lo + hi * U16_MOD
  }

  /** Reading back what was split gives the original word. */
  lemma CombineSplit(value: u32)
    ensures Combine(Split(value).0, Split(value).1) == value
  {}

  /** `rccReadBkpDr` as C evaluates it: the high half is promoted to a 32-bit
      signed `int` before `<< 16`, and a shift whose result does not fit in
      that `int` is undefined behaviour (`None`). */
  function CombineAsWritten(lo: u16, hi: u16): (value: Option<u32>)
    ensures value.Some? <==> hi < 0x8000
    ensures value.Some? ==> value.value == Combine(lo, hi)
  {
    if hi * U16_MOD > INT32_MAX then None else Some(lo + hi * U16_MOD)
  }

  /** The as-written read is defined exactly for the words below 2^31, where
      it agrees with the corrected one; 0x8000_0000 is the smallest word it
      cannot read back. */
  lemma AsWrittenReadBack(value: u32)
    ensures CombineAsWritten(Split(value).0, Split(value).1).Some? <==> value <= INT32_MAX
    ensures value <= INT32_MAX ==>
              CombineAsWritten(Split(value).0, Split(value).1) == Some(value)
    ensures CombineAsWritten(Split(0x8000_0000).0, Split(0x8000_0000).1).None?
  {
    var (lo, hi) := Split(value);
    assert hi < 0x8000 <==> value <= INT32_MAX;
  }

  /** The state those effects act on. A store to the backup slots takes
      effect only once the backup clocks are on and the domain is unlocked;
      the unlock itself needs the PWR clock. An AIRCR write requests a reset
      only with the key 0x05FA in its upper half and SYSRESETREQ set. */
  datatype Machine = Machine(
    clocksOn: bool,
    unlocked: bool,
    lo: u16,
    hi: u16,
    ram: map<u32, u32>,
    led0: bool,
    led1: bool,
    resetRequested: bool)

  function Apply(m: Machine, e: Effect): Machine {
    match e
    case EnableBackupClocks => m.(clocksOn := true)
    case UnlockBackupDomain => if m.clocksOn then m.(unlocked := true) else m
    case StoreBackupHalf(slot, half) =>
      if !(m.clocksOn && m.unlocked) then m
      else if slot == LowSlot then m.(lo := half)
      else m.(hi := half)
    case StoreWord(addr, word) => m.(ram := m.ram[addr := word])
    case WriteAircr(word) =>
      if word / U16_MOD == 0x05FA && (word / 4) % 2 == 1 then m.(resetRequested := true) else m
    case SetLed(led, on) => if led == Led0 then m.(led0 := on) else m.(led1 := on)
  }

  /** The machine after the effects, in order. */
  function Replay(m: Machine, effects: seq<Effect>): Machine
    decreases |effects|
  {
    if effects == [] then m else Replay(Apply(m, effects[0]), effects[1..])
  }

  lemma {:induction false} ReplayAppend(m: Machine, a: seq<Effect>, b: seq<Effect>)
    ensures Replay(m, a + b) == Replay(Replay(m, a), b)
    decreases |a|
  {
    if a == [] {
      assert a + b == b;
    } else {
      assert (a + b)[1..] == a[1..] + b;
      ReplayAppend(Apply(m, a[0]), a[1..], b);
    }
  }

  /** What `rccWriteBkpDr(value)` does, in order. */
  function BackupWriteEffects(value: u32): (effects: seq<Effect>)
    ensures |effects| == 4
    ensures effects[0] == EnableBackupClocks && effects[1] == UnlockBackupDomain
    ensures effects[2].StoreBackupHalf? && effects[2].slot == LowSlot
    ensures effects[3].StoreBackupHalf? && effects[3].slot == HighSlot
    ensures Combine(effects[2].half, effects[3].half) == value
  {
    [EnableBackupClocks, UnlockBackupDomain,
     StoreBackupHalf(LowSlot, Split(value).0), StoreBackupHalf(HighSlot, Split(value).1)]
  }

  /** Whatever state the backup domain was in, the write leaves `value` in
      the two slots and touches nothing but the backup domain. */
  lemma BackupWriteStores(m: Machine, value: u32)
    ensures Combine(Replay(m, BackupWriteEffects(value)).lo, Replay(m, BackupWriteEffects(value)).hi) == value
    ensures Replay(m, BackupWriteEffects(value)).unlocked
    ensures Replay(m, BackupWriteEffects(value)) ==
              m.(clocksOn := true, unlocked := true, lo := Split(value).0, hi := Split(value).1)
  {
    var e := BackupWriteEffects(value);
    var m1 := Apply(m, e[0]);
    var m2 := Apply(m1, e[1]);
    var m3 := Apply(m2, e[2]);
    var m4 := Apply(m3, e[3]);
    assert Replay(m3, e[3..]) == m4 by { assert e[3..][1..] == []; }
    assert Replay(m2, e[2..]) == m4 by { assert e[2..][1..] == e[3..]; }
    assert Replay(m1, e[1..]) == m4 by { assert e[1..][1..] == e[2..]; }
  }

  /** What `systemReset(toBootloader)` does, in order. */
  function ResetEffects(toBootloader: bool): (effects: seq<Effect>)
    ensures |effects| == if toBootloader then 6 else 5
    ensures (effects[0] == StoreWord(BOOTLOADER_FLAG_ADDR, BOOTLOADER_MAGIC)) == toBootloader
    ensures effects[|effects| - 1] == WriteAircr(AIRCR_RESET_WORD)
    ensures forall i :: 0 <= i < |effects| ==> !effects[i].SetLed?
  {
    (if toBootloader then [StoreWord(BOOTLOADER_FLAG_ADDR, BOOTLOADER_MAGIC)] else [])
    + BackupWriteEffects(BKP_SOFTRESET)
    + [WriteAircr(AIRCR_RESET_WORD)]
  }

  /** `e1` is recorded before `e2`. */
  ghost predicate Before(effects: seq<Effect>, e1: Effect, e2: Effect) {
    exists i, j :: 0 <= i < j < |effects| && effects[i] == e1 && effects[j] == e2
  }

  /** The order of the reset: the bootloader sentinel is written if and only
      if it was asked for, and then before anything else; the soft-reset
      magic is stored next; the AIRCR write comes last and only once. */
  lemma ResetOrder(toBootloader: bool)
    ensures StoreWord(BOOTLOADER_FLAG_ADDR, BOOTLOADER_MAGIC) in ResetEffects(toBootloader) <==> toBootloader
    ensures toBootloader ==>
              ResetEffects(toBootloader)[0] == StoreWord(BOOTLOADER_FLAG_ADDR, BOOTLOADER_MAGIC)
    ensures toBootloader ==>
              Before(ResetEffects(toBootloader), StoreWord(BOOTLOADER_FLAG_ADDR, BOOTLOADER_MAGIC),
                     StoreBackupHalf(LowSlot, Split(BKP_SOFTRESET).0))
    ensures Before(ResetEffects(toBootloader), StoreBackupHalf(HighSlot, Split(BKP_SOFTRESET).1),
                   WriteAircr(AIRCR_RESET_WORD))
    ensures ResetEffects(toBootloader)[|ResetEffects(toBootloader)| - 1] == WriteAircr(AIRCR_RESET_WORD)
    ensures forall i :: 0 <= i < |ResetEffects(toBootloader)| - 1 ==> !ResetEffects(toBootloader)[i].WriteAircr?
  {
    var e := ResetEffects(toBootloader);
    var k := if toBootloader then 1 else 0;
    assert e[k + 2] == StoreBackupHalf(LowSlot, Split(BKP_SOFTRESET).0);
    assert e[k + 3] == StoreBackupHalf(HighSlot, Split(BKP_SOFTRESET).1);
    assert e[k + 4] == WriteAircr(AIRCR_RESET_WORD);
    if toBootloader {
      assert e[0] == StoreWord(BOOTLOADER_FLAG_ADDR, BOOTLOADER_MAGIC);
    } else {
      assert forall i :: 0 <= i < |e| ==> !e[i].StoreWord?;
    }
  }

  /** The reset's effect on the machine: the reset is requested, the backup
      slots hold the soft-reset magic, the sentinel is in RAM when the
      bootloader was asked for and RAM is untouched otherwise. The reset is
      requested by the last write alone: every earlier point of the sequence
      leaves the request as it was. */
  lemma ResetOutcome(m: Machine, toBootloader: bool)
    ensures Replay(m, ResetEffects(toBootloader)).resetRequested
    ensures Combine(Replay(m, ResetEffects(toBootloader)).lo, Replay(m, ResetEffects(toBootloader)).hi) == BKP_SOFTRESET
    ensures toBootloader ==>
              Replay(m, ResetEffects(toBootloader)).ram == m.ram[BOOTLOADER_FLAG_ADDR := BOOTLOADER_MAGIC]
    ensures !toBootloader ==> Replay(m, ResetEffects(toBootloader)).ram == m.ram
    ensures Replay(m, ResetEffects(toBootloader)[..|ResetEffects(toBootloader)| - 1]).resetRequested == m.resetRequested
  {
    var flag: seq<Effect> := if toBootloader then [StoreWord(BOOTLOADER_FLAG_ADDR, BOOTLOADER_MAGIC)] else [];
    var bw := BackupWriteEffects(BKP_SOFTRESET);
    var last := [WriteAircr(AIRCR_RESET_WORD)];
    var e := ResetEffects(toBootloader);
    assert e == flag + bw + last;
    assert e[..|e| - 1] == flag + bw;
    ReplayAppend(m, flag + bw, last);
    ReplayAppend(m, flag, bw);
    var m1 := Replay(m, flag);
    if toBootloader {
      assert flag[1..] == [];
      assert m1 == m.(ram := m.ram[BOOTLOADER_FLAG_ADDR := BOOTLOADER_MAGIC]);
    } else {
      assert m1 == m;
    }
    BackupWriteStores(m1, BKP_SOFTRESET);
    var m2 := Replay(m1, bw);
    assert last[1..] == [];
    assert Replay(m2, last) == Apply(m2, WriteAircr(AIRCR_RESET_WORD));
  }

  /** What `failureMode` does, in order. */
  function FailureEffects(): (effects: seq<Effect>)
    ensures |effects| == 7
    ensures effects[0] == SetLed(Led1, false) && effects[1] == SetLed(Led0, true)
    ensures forall i :: 2 <= i < |effects| ==> !effects[i].SetLed?
    ensures effects[|effects| - 1] == WriteAircr(AIRCR_RESET_WORD)
  {
    [SetLed(Led1, false), SetLed(Led0, true)] + ResetEffects(false)
  }

  /** Just before the reset is requested, exactly one indicator is lit
      (LED0 on, LED1 off); the reset is then requested with the soft-reset
      magic in the backup slots. */
  lemma FailureOutcome(m: Machine)
    requires !m.resetRequested
    ensures Replay(m, FailureEffects()[..|FailureEffects()| - 1]).led0
    ensures !Replay(m, FailureEffects()[..|FailureEffects()| - 1]).led1
    ensures !Replay(m, FailureEffects()[..|FailureEffects()| - 1]).resetRequested
    ensures Replay(m, FailureEffects()).resetRequested
    ensures Combine(Replay(m, FailureEffects()).lo, Replay(m, FailureEffects()).hi) == BKP_SOFTRESET
  {
    var leds: seq<Effect> := [SetLed(Led1, false), SetLed(Led0, true)];
    var r := ResetEffects(false);
    var f := FailureEffects();
    assert f[..|f| - 1] == leds + r[..|r| - 1];
    ReplayAppend(m, leds, r[..|r| - 1]);
    ReplayAppend(m, leds, r);
    assert leds[1..][1..] == [];
    var m1 := Replay(m, leds);
    assert m1 == m.(led1 := false, led0 := true);
    ResetOutcome(m1, false);
    LedsKept(m1, r[..|r| - 1]);
  }

  /** The backup write and the reset request never touch the indicators. */
  lemma {:induction false} LedsKept(m: Machine, effects: seq<Effect>)
    requires forall i :: 0 <= i < |effects| ==> !effects[i].SetLed?
    ensures Replay(m, effects).led0 == m.led0 && Replay(m, effects).led1 == m.led1
    decreases |effects|
  {
    if effects != [] {
      LedsKept(Apply(m, effects[0]), effects[1..]);
    }
  }

  /** The machine as this file sees it: the two backup slots and the ordered
      record of every write made. `boot` is the state before the first
      recorded write; the slots always equal what the record leaves there. */
  class Board {
    var bkpLow: u16
    var bkpHigh: u16
    var trace: seq<Effect>
    ghost var boot: Machine

    ghost predicate Valid()
      reads this
    {
      Replay(boot, trace).lo == bkpLow && Replay(boot, trace).hi == bkpHigh
    }

    /** The backup slots survive resets, so they start with whatever they held. */
    constructor (m: Machine)
      ensures Valid()
      ensures boot == m && trace == [] && bkpLow == m.lo && bkpHigh == m.hi
    {
      bkpLow, bkpHigh := m.lo, m.hi;
      trace := [];
      boot := m;
    }

    /** `rccReadBkpDr` (with the unsigned recombination). */
    function ReadBkpDr(): (value: u32)
      reads this
      ensures Split(value) == (bkpLow, bkpHigh)
    {
      Combine(bkpLow, bkpHigh)
    }

    /** `rccWriteBkpDr(value)`: a later read returns `value`. */
    method WriteBkpDr(value: u32)
      requires Valid()
      modifies this
      ensures Valid() && boot == old(boot)
      ensures trace == old(trace) + BackupWriteEffects(value)
      ensures ReadBkpDr() == value
    {
      ReplayAppend(boot, trace, BackupWriteEffects(value));
      BackupWriteStores(Replay(boot, trace), value);
      trace := trace + BackupWriteEffects(value);
      bkpLow := Split(value).0;
      bkpHigh := Split(value).1;
    }

    /** `systemReset(toBootloader)`. */
    method SystemReset(toBootloader: bool)
      requires Valid()
      modifies this
      ensures Valid() && boot == old(boot)
      ensures trace == old(trace) + ResetEffects(toBootloader)
      ensures ReadBkpDr() == BKP_SOFTRESET
    {
      if toBootloader {
        ReplayAppend(boot, trace, [StoreWord(BOOTLOADER_FLAG_ADDR, BOOTLOADER_MAGIC)]);
        assert [StoreWord(BOOTLOADER_FLAG_ADDR, BOOTLOADER_MAGIC)][1..] == [];
        trace := trace + [StoreWord(BOOTLOADER_FLAG_ADDR, BOOTLOADER_MAGIC)];
      }
      WriteBkpDr(BKP_SOFTRESET);
      ReplayAppend(boot, trace, [WriteAircr(AIRCR_RESET_WORD)]);
      assert [WriteAircr(AIRCR_RESET_WORD)][1..] == [];
      trace := trace + [WriteAircr(AIRCR_RESET_WORD)];
    }

    /** `failureMode`. */
    method FailureMode()
      requires Valid()
      modifies this
      ensures Valid() && boot == old(boot)
      ensures trace == old(trace) + FailureEffects()
      ensures ReadBkpDr() == BKP_SOFTRESET
    {
      var leds := [SetLed(Led1, false), SetLed(Led0, true)];
      ReplayAppend(boot, trace, leds);
      assert leds[1..][1..] == [];
      trace := trace + leds;
      SystemReset(false);
    }
  }
}
