/** The firmware's clock and mode state: a microsecond boot counter advanced by
    the timer-0 interrupt, the current firmware mode, and the pulse counter
    bumped by the external-interrupt-1 edge handler. */
module ClockIo {
  import opened Bytes
  import Wire

  /** Microseconds per timer-0 tick. */
  const TICK_MICROSECONDS: nat := 17
  /** Ticks after which the boot counter first wraps (about 71.6 minutes). */
  const TICKS_BEFORE_WRAP: nat := 252645136

  /** The boot counter after `n` timer ticks: each tick adds 17, wrapping at 2^32. */
  function BootTimeAfter(n: nat): (t: uint32)
    ensures t == (TICK_MICROSECONDS * n) % UINT32_MOD
  {
    if n == 0 then 0
    else
      AddMod32(TICK_MICROSECONDS * (n - 1), TICK_MICROSECONDS);
      Add32(BootTimeAfter(n - 1), TICK_MICROSECONDS)
  }

  /** The pulse counter after `n` edges: each edge adds one, wrapping at 2^16. */
  function PulseCountAfter(n: nat): (c: uint16)
    ensures c == n % UINT16_MOD
  {
    if n == 0 then 0
    else
      AddMod16(n - 1, 1);
      ToUint16(PulseCountAfter(n - 1) + 1)
  }

  class Clock {
    /** Microseconds since boot, modulo 2^32 (`l_boot_time`). */
    var bootTime: uint32
    /** Current firmware mode (`l_mode`); any byte can be stored. */
    var mode: byte
    /** Edges seen on the speed input (`l_current_input_speed_tick_count`). */
    var inputSpeedTicks: uint16
    /** Bit 1 of the interrupt-enable register IE: the timer-0 interrupt is enabled. */
    var timerEnabled: bool
    /** Timer ticks and input edges since power-on. */
    ghost var ticks: nat
    ghost var edges: nat

    ghost predicate Valid()
      reads this
    {
      bootTime == BootTimeAfter(ticks) && inputSpeedTicks == PulseCountAfter(edges)
    }

    /** Power-on state: counters zero, mode Normal; the timer enable bit is
        whatever the start-up code set. */
    constructor(timerEnabled0: bool)
      ensures Valid() && ticks == 0 && edges == 0
      ensures bootTime == 0 && inputSpeedTicks == 0
      ensures mode == Wire.FIRMWARE_MODE_NORMAL && timerEnabled == timerEnabled0
    {
      bootTime, mode, inputSpeedTicks, timerEnabled := 0, Wire.FIRMWARE_MODE_NORMAL, 0, timerEnabled0;
      ticks, edges := 0, 0;
    }

    /** Reads the boot counter with the timer interrupt masked, then re-enables it:
        the counter is unchanged and the timer interrupt ends up enabled even if
        it was disabled before the call. */
    method BootTime() returns (t: uint32)
      modifies this`timerEnabled
      ensures t == bootTime
      ensures timerEnabled
    {
      timerEnabled := false;
      t := bootTime;
      timerEnabled := true;
    }

    /** Timer-0 interrupt: one more tick of 17 microseconds. */
    method TimerTick()
      requires Valid()
      modifies this`bootTime, this`ticks
      ensures Valid() && ticks == old(ticks) + 1
      ensures bootTime == Add32(old(bootTime), TICK_MICROSECONDS)
    {
      bootTime := Add32(bootTime, TICK_MICROSECONDS);
      ticks := ticks + 1;
    }

    method CurrentMode() returns (m: byte)
      ensures m == mode
    {
      m := mode;
    }

    /** Stores the mode without validating it. */
    method SetCurrentMode(m: byte)
      modifies this`mode
      ensures mode == m
    {
      mode := m;
    }

    /** External-interrupt-1 handler: counts one edge on the speed input. */
    method Int1Edge()
      requires Valid()
      modifies this`inputSpeedTicks, this`edges
      ensures Valid() && edges == old(edges) + 1
      ensures inputSpeedTicks == ToUint16(old(inputSpeedTicks) + 1)
    {
      inputSpeedTicks := ToUint16(inputSpeedTicks + 1);
      edges := edges + 1;
    }
  }

  /** Until it first wraps, the boot counter is exactly 17 microseconds per tick
      and never decreases. */
  lemma BootTimeMonotone(i: nat, j: nat)
    requires i <= j < TICKS_BEFORE_WRAP
    ensures BootTimeAfter(i) == TICK_MICROSECONDS * i
    ensures BootTimeAfter(i) <= BootTimeAfter(j)
  {
  }

  /** The counter reaches 0xFFFFFFFF exactly one tick before it wraps, and the
      wrapping tick leaves 16. */
  lemma BootTimeWraps()
    ensures BootTimeAfter(TICKS_BEFORE_WRAP - 1) == 0xFFFF_FFFF
    ensures BootTimeAfter(TICKS_BEFORE_WRAP) == 16
    ensures BootTimeAfter(TICKS_BEFORE_WRAP) < BootTimeAfter(TICKS_BEFORE_WRAP - 1)
  {
    assert TICK_MICROSECONDS * (TICKS_BEFORE_WRAP - 1) == 0xFFFF_FFFF;
    assert TICK_MICROSECONDS * TICKS_BEFORE_WRAP == UINT32_MOD + 16;
  }

  /** Wrapping 32-bit subtraction of two counter readings gives the true elapsed
      time whenever less than 2^32 microseconds passed between them, even if
      the counter wrapped in between. */
  lemma ElapsedAcrossWrap(i: nat, j: nat)
    requires i <= j && TICK_MICROSECONDS * (j - i) < UINT32_MOD
    ensures Sub32(BootTimeAfter(j), BootTimeAfter(i)) == TICK_MICROSECONDS * (j - i)
  {
    var a, b := TICK_MICROSECONDS * i, TICK_MICROSECONDS * j;
    var d := b - a;
    assert b == a + d;
    ModSumLemma(a, d);
  }

  lemma ModSumLemma(a: nat, d: nat)
    requires d < UINT32_MOD
    ensures Sub32((a + d) % UINT32_MOD, a % UINT32_MOD) == d
  {
    var q, r := a / UINT32_MOD, a % UINT32_MOD;
    assert a == q * UINT32_MOD + r;
    if r + d < UINT32_MOD {
      assert (a + d) % UINT32_MOD == r + d by {
        assert a + d == q * UINT32_MOD + (r + d);
      }
    } else {
      assert (a + d) % UINT32_MOD == r + d - UINT32_MOD by {
        assert a + d == (q + 1) * UINT32_MOD + (r + d - UINT32_MOD);
      }
    }
  }

  lemma AddMod32(a: nat, d: nat)
    ensures (a % UINT32_MOD + d) % UINT32_MOD == (a + d) % UINT32_MOD
  {
    var q, r := a / UINT32_MOD, a % UINT32_MOD;
    assert a + d == q * UINT32_MOD + (r + d);
  }

  lemma AddMod16(a: nat, d: nat)
    ensures (a % UINT16_MOD + d) % UINT16_MOD == (a + d) % UINT16_MOD
  {
    var q, r := a / UINT16_MOD, a % UINT16_MOD;
    assert a + d == q * UINT16_MOD + (r + d);
  }
}
