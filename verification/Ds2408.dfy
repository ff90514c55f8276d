/** The DS2408 of src/ds2408.cpp: the host's cache of its outputs, the writes that switch them and the
    recovery after a reset, against a slave that may do anything a bus error allows. */
module Ds2408 {
  import opened Octets
  import PioText
  import opened Wrappers
  import opened Watchdog

  // register numbers, see include/interface/ds2408.h
  const PIO_OUT := 1
  const PIO_LATCH := 2
  const STAT := 5

  const CFG_OUT_PWM := 0x23
  const REG_RETRY := 20
  const PIOSET_RETRY := 20
  const LATCH_RESET_RETRY := 20
  const ACK := 0xAA
  const EIO := 5
  const EAGAIN := 11
  const EINVAL := 22

  /** level_set() keeps no more. */
  type Percent = n: nat | n <= 100

  /** The duty the device takes for it. */
  function RawLevel(pct: Percent): nat {
    pct as int * 254 / 100
  }

  /** What a PWM pin is told: to run at a duty, to stop at once, to dim down. */
  datatype PwmCmd = TimerOn(raw: nat) | TimerStop | TimerStopDim

  /** The command for a level, given the one before. */
  function CommandFor(pct: Percent, was: Percent): PwmCmd {
    if RawLevel(pct) != 0 then TimerOn(RawLevel(pct)) else if was == 0 then TimerStop else TimerStopDim
  }

  /** A pin runs exactly if its level is not 0, each level at a duty of its own that the device takes. */
  lemma LevelsAreApart(a: Percent, b: Percent, was: Percent)
    ensures CommandFor(a, was).TimerOn? <==> a > 0
    ensures RawLevel(a) <= 254 && (RawLevel(a) < RawLevel(b) <==> a < b)
    ensures RawLevel(0) == 0 && RawLevel(50) == 127 && RawLevel(100) == 254
  {
    assert a < b ==> a as int * 254 + 254 <= b as int * 254;
    assert b < a ==> b as int * 254 + 254 <= a as int * 254;
  }

  datatype PioMode = Off | Level | On | Toggle
  datatype PinRole = NoRole | Light | Socket | Fan | Heating | Blind | Button | Contact | Motion

  /** A pin configuration that is an output: set, used, and with the bit of the outputs, 0x20. */
  predicate IsOutputCfg(c: nat) {
    c != 0xff && c != 0 && (c / 32) % 2 == 1
  }

  /** Of the configurations there are: low, high and PWM are outputs, the inputs 2 to 8, buttons, switches, unused
      and the default are not. */
  lemma OutputCfgs(c: nat)
    ensures 0x21 <= c <= 0x23 ==> IsOutputCfg(c)
    ensures c <= 8 || c == 0x10 || c == 0x11 || c == 0xff ==> !IsOutputCfg(c)
  {
  }

  /** STAT & STAT_WATCHDOG, 0x88 */
  predicate ShowsReset(stat: Octet) {
    stat[3] || stat[7]
  }

  function StatusByte(reset: bool, dimmed: bool): (stat: Octet)
    ensures ShowsReset(stat) == reset && stat[6] == dimmed
  {
    [false, false, false, reset, false, false, dimmed, reset]
  }

  /** One try of a register read: passed its CRC, failed it, or taken unchecked after a bus error or
      without any answer, which reads as all ones. */
  datatype Try = Good(regs: seq<Octet>) | CrcBad | Unchecked(regs: seq<Octet>, busError: bool)

  /** A bad CRC, or no answer. */
  predicate GoesOn(t: Try) {
    !t.CrcBad? ==> |t.regs| == 10 && t.regs[STAT] == Ones()
  }

  /** A bus error, and nothing like a status. */
  predicate BusFailed(t: Try) {
    t.Unchecked? && t.busError && |t.regs| == 10 && t.regs[STAT] == Ones()
  }

  /** The registers kept after those tries. */
  function Taken(was: seq<Octet>, tries: seq<Try>): seq<Octet> {
    if tries == [] then was
    else if tries[|tries| - 1].CrcBad? then Taken(was, tries[..|tries| - 1])
    else tries[|tries| - 1].regs
  }

  lemma FailedMore(tries: seq<Try>, t: Try)
    ensures (exists k :: 0 <= k < |tries + [t]| && BusFailed((tries + [t])[k]))
       <==> (exists k :: 0 <= k < |tries| && BusFailed(tries[k])) || BusFailed(t)
  {
    var more := tries + [t];
    assert more[|tries|] == t;
    if k :| 0 <= k < |tries| && BusFailed(tries[k]) {
      assert more[k] == tries[k];
    }
  }

  function CrcBads(tries: seq<Try>): nat {
    if tries == [] then 0 else CrcBads(tries[..|tries| - 1]) + if tries[|tries| - 1].CrcBad? then 1 else 0
  }

  lemma TakenMore(was: seq<Octet>, tries: seq<Try>, t: Try)
    ensures CrcBads(tries + [t]) == CrcBads(tries) + if t.CrcBad? then 1 else 0
    ensures Taken(was, tries + [t]) == if t.CrcBad? then Taken(was, tries) else t.regs
  {
    assert (tries + [t])[..|tries|] == tries;
  }

  predicate IsOn(cfg: seq<nat>, level: seq<nat>, out: Octet, pio: nat)
    requires pio < |cfg| == |level| == 8
  {
    if cfg[pio] == CFG_OUT_PWM then level[pio] > 0 else !out[pio]
  }

  // ---------- the slave ----------

  class Slave {
    /** The bus is at its best: every write is acknowledged, every read passes its CRC or fails it, and
        the slave does not dim down by itself. */
    const quiet: bool
    var out: Octet
    var flagged: bool
    /** The activity latches: what inputs changed since they were reset. */
    var latch: Octet
    /** The last command each pin got. */
    var pwm: seq<PwmCmd>
    /** How many PIO writes were tried on it. */
    ghost var pioWrites: nat
    /** How many latch resets. */
    ghost var latchResets: nat

    constructor (quiet: bool, out: Octet, flagged: bool)
      ensures this.quiet == quiet && this.out == out && this.flagged == flagged
      ensures |pwm| == 8
    {
      this.quiet, this.out, this.flagged, this.pwm := quiet, out, flagged, seq(8, _ => TimerStop);
      latch := Zero();
      pioWrites, latchResets := 0, 0;
    }

    /** One try: 0x5A, the byte and its complement, answered with 0xAA. */
    method WritePio(b: Octet) returns (r: nat)
      modifies this`out, this`pioWrites, this`latch
      ensures r == ACK ==> out == b
      ensures pioWrites == old(pioWrites) + 1
      ensures out == b || out == old(out)
      ensures quiet ==> r == ACK
    {
      var taken: bool, answered: bool := *, *;
      pioWrites := pioWrites + 1;
      latch := *;
      if quiet || taken {
        out := b;
      }
      r := if quiet || (taken && answered) then ACK else 0xff;
    }

    method ReadRegisters() returns (t: Try)
      ensures quiet ==> !t.Unchecked?
      ensures !t.CrcBad? ==> |t.regs| == 10
      ensures t.Good? ==> t.regs[1] == out && t.regs[2] == latch && (t.regs[5][3] || t.regs[5][7] <==> flagged)
      ensures t.Good? ==> t.regs[STAT] != Ones()
      ensures t.Good? && quiet ==> !t.regs[STAT][6]
      ensures t.Unchecked? && !t.busError ==> forall k | 0 <= k < 10 :: t.regs[k] == Ones()
    {
      var kind: int, a: Octet, b: Octet, c: bool := *, *, *, *;
      if kind == 0 {
        var stat := StatusByte(flagged, !quiet && c);
        t := Good([a, out, latch, b, b, stat, a, a, a, a]);
      } else if kind == 1 || quiet {
        t := CrcBad;
      } else {
        t := if c then Unchecked(seq(10, _ => Ones()), kind == 2)
             else Unchecked([a, b, a, b, a, b, a, a, a, a], true);
      }
    }

    method ClearStatus() returns (ok: bool)
      modifies this`flagged
      ensures ok ==> !flagged
      ensures quiet ==> ok
    {
      ok := *;
      ok := ok || quiet;
      if ok {
        flagged := false;
      }
    }

    method ResetLatch() returns (r: nat)
      modifies this`latch, this`latchResets
      ensures latchResets == old(latchResets) + 1
      ensures r == ACK ==> latch == Zero()
    {
      var taken: bool := *;
      r := *;
      latchResets := latchResets + 1;
      if taken || r == ACK {
        latch := Zero();
      }
    }

    /** owSlave command 0xC5, answered with a CRC. */
    method Command(pio: nat, cmd: PwmCmd) returns (r: nat)
      requires pio < 8 && |pwm| == 8
      modifies this`pwm
      ensures |pwm| == 8 && (pwm == old(pwm) || pwm == old(pwm)[pio := cmd])
      ensures r == ACK ==> pwm == old(pwm)[pio := cmd]
      ensures quiet ==> r == ACK
    {
      var taken: bool, answered: bool := *, *;
      if quiet || taken {
        pwm := pwm[pio := cmd];
      }
      r := if quiet || (taken && answered) then ACK else 0xff;
    }

    /** The slave resets by itself; what it drives then is its own affair. */
    method SilentReset()
      modifies this`out, this`flagged, this`pwm, this`latch
      ensures flagged && |pwm| == 8
    {
      out, latch := *, *;
      flagged := true;
      pwm := seq(8, _ => TimerStop);
    }
  }

  // ---------- the host's side ----------

  class Device {
    const slave: Slave
    const cfg: seq<nat>
    const role: seq<PinRole>
    var level: seq<Percent>
    var data: seq<Octet>
    var lastLatch: Octet
    /** The latches of all alarms since they were last cleared, for latch.* and /alarm. */
    var latched: Octet
    var alarm: bool
    var outKnown: bool
    var wdtPending: bool
    var wdtOut: Octet
    var wdtOutKnown: bool
    var wdtCount: nat
    var crcErrors: nat
    /** What happened since the start, on a quiet bus, and what the slave was last told to drive. */
    ghost const start: World
    ghost var commanded: Octet
    ghost var log: seq<Event>

    predicate Sized()
      reads this`level, this`data
    {
      |cfg| == 8 && |role| == 8 && |level| == 8 && |data| == 10
    }

    predicate Shape()
      reads this`level, this`data, slave`pwm
    {
      Sized() && |slave.pwm| == 8
    }

    ghost predicate Valid()
      reads this, slave
    {
      Shape() && (slave.quiet ==> Start(start) && Now() == ApplyAll(start, log))
    }

    ghost function Now(): World
      requires |data| == 10
      reads this, slave
    {
      World(slave.out, slave.flagged, commanded, data[PIO_OUT], outKnown, wdtPending, wdtOut, wdtOutKnown)
    }

    /** out_known, wdt_pending, wdt_out, wdt_out_known */
    function Memory(): (bool, bool, Octet, bool)
      reads this
    {
      (outKnown, wdtPending, wdtOut, wdtOutKnown)
    }

    /** The same after a read that shows a reset or none. */
    function Noted(reset: bool): (bool, bool, Octet, bool)
      requires |data| == 10
      reads this
    {
      if !reset then (outKnown || !wdtPending, wdtPending, wdtOut, wdtOutKnown)
      else if wdtPending then (false, true, wdtOut, wdtOutKnown)
      else (false, true, data[PIO_OUT], outKnown)
    }

    constructor (slave: Slave, cfg: seq<nat>, role: seq<PinRole>)
      requires |cfg| == 8 && |role| == 8 && |slave.pwm| == 8
      ensures Valid() && this.slave == slave && this.cfg == cfg && this.role == role
      ensures !outKnown && !wdtPending && log == []
    {
      this.slave, this.cfg, this.role := slave, cfg, role;
      level := [0, 0, 0, 0, 0, 0, 0, 0];
      data := seq(10, _ => Zero());
      lastLatch, latched, alarm, outKnown := Zero(), Zero(), false, false;
      wdtPending, wdtOut, wdtOutKnown, wdtCount, crcErrors := false, Zero(), false, 0, 0;
      start := World(slave.out, slave.flagged, slave.out, Zero(), false, false, Zero(), false);
      commanded, log := slave.out, [];
    }

    predicate PinIsPwm(pio: nat)
      requires pio < |cfg|
    {
      cfg[pio] == CFG_OUT_PWM
    }

    /** Configured as an output, plain or PWM. */
    predicate PinIsOutput(pio: nat)
      requires pio < |cfg|
    {
      IsOutputCfg(cfg[pio])
    }

    /** On as far as the host knows: a PWM pin by its level, a plain one active low. */
    predicate PinIsOn(pio: nat)
      requires Sized() && pio < 8
      reads this`level, this`data
    {
      IsOn(cfg, level, data[PIO_OUT], pio)
    }

    function Pins(): (on: Octet)
      requires Sized()
      reads this`level, this`data
      ensures forall i | 0 <= i < 8 :: on[i] == PinIsOn(i)
    {
      var lvl, out := level, data[PIO_OUT];
      seq(8, (i: nat) requires i < 8 && |cfg| == |lvl| == 8 => IsOn(cfg, lvl, out, i))
    }

    function PwmBits(): (m: Octet)
      requires |cfg| == 8
      ensures forall i | 0 <= i < 8 :: m[i] == PinIsPwm(i)
    {
      seq(8, (i: nat) requires i < 8 && |cfg| == 8 => PinIsPwm(i))
    }

    method PwmMask() returns (m: Octet)
      requires Shape()
      ensures m == PwmBits() && forall i | 0 <= i < 8 :: m[i] == (cfg[i] == 0x23)
    {
      m := Zero();
      for i := 0 to 8
        invariant forall k | 0 <= k < 8 :: m[k] == (k < i && PinIsPwm(k))
      {
        if cfg[i] == CFG_OUT_PWM {
          m := m[i := true];
        }
      }
    }

    /** The slave keeps its reset flag over it, as its newer firmware does. */
    method LatchReset() returns (r: nat)
      requires Shape()
      modifies this`data, slave`latch, slave`latchResets
      ensures r == ACK || r == 0xff
      ensures r == ACK ==> slave.latch == Zero()
      ensures r != ACK ==> slave.latchResets == old(slave.latchResets) + 19
      ensures data == if r == ACK then old(data)[PIO_LATCH := Zero()] else old(data)
      ensures data[PIO_OUT] == old(data)[PIO_OUT] && data[STAT] == old(data)[STAT]
    {
      var retry := LATCH_RESET_RETRY - 1;
      while retry > 0
        modifies this`data, slave`latch, slave`latchResets
        invariant retry >= 0 && data == old(data) && slave.latchResets == old(slave.latchResets) + 19 - retry
      {
        var tmp := slave.ResetLatch();
        if tmp == ACK {
          data := data[PIO_LATCH := Zero()];
          return ACK;
        }
        retry := retry - 1;
      }
      return 0xff;
    }

    // ---------- PIO writes ----------

    /** pio_set() but for the record of it. */
    method PioWrite(pio: Octet) returns (r: nat)
      requires Shape()
      modifies this`data, this`outKnown, slave`out, slave`pioWrites, slave`latch, slave`latchResets
      ensures Shape()
      ensures r == ACK ==> outKnown && slave.out == data[PIO_OUT] == Or(pio, PwmBits())
      ensures r != ACK ==> outKnown == old(outKnown) && data == old(data)
      ensures OnlyOutputs(old(data), data)
      ensures old(slave.pioWrites) < slave.pioWrites <= old(slave.pioWrites) + 19
      ensures r != ACK ==> slave.pioWrites == old(slave.pioWrites) + 19
      ensures r == ACK ==> data[PIO_LATCH] == Zero() || slave.latchResets == old(slave.latchResets) + 19
      ensures slave.quiet ==> r == ACK
    {
      var mask := PwmMask();
      var b := Or(pio, mask);
      var retry := PIOSET_RETRY - 1;
      r := slave.WritePio(b);
      while r != ACK && retry > 1
        modifies slave`out, slave`pioWrites, slave`latch, slave`latchResets
        invariant retry >= 1 && slave.latchResets == old(slave.latchResets) && slave.pioWrites == old(slave.pioWrites) + 20 - retry
        invariant r == ACK ==> slave.out == b
        invariant slave.quiet ==> r == ACK
        decreases retry
      {
        retry := retry - 1;
        r := slave.WritePio(b);
      }
      if r == ACK {
        var latched := LatchReset();
      }
      if r == ACK {
        outKnown := true;
      }
      if r == ACK && data[PIO_OUT] != b {
        data := data[PIO_OUT := b];
      }
    }

    method PioSet(pio: Octet) returns (r: nat)
      requires Valid()
      modifies this`data, this`outKnown, this`commanded, this`log
      modifies slave`out, slave`pioWrites, slave`latch, slave`latchResets
      ensures Valid()
      ensures r == ACK ==> outKnown && slave.out == data[PIO_OUT] == Or(pio, PwmBits())
      ensures r != ACK ==> outKnown == old(outKnown) && data == old(data)
      ensures OnlyOutputs(old(data), data)
      ensures slave.quiet ==> r == ACK && log == old(log) + [Write(Or(pio, PwmBits()))]
    {
      ghost var before, was := log, Now();
      r := PioWrite(pio);
      if slave.quiet {
        commanded := slave.out;
        assert Now() == Apply(was, Write(slave.out));
        log := log + [Write(slave.out)];
        Snoc(start, before, Write(slave.out));
      }
    }

    /** A level in percent. */
    method LevelSet(pio: nat, lvl: nat) returns (r: nat)
      requires Shape() && pio < 8
      modifies this`level, slave`pwm
      ensures Shape()
      ensures r == ACK ==> level == old(level)[pio := if lvl > 100 then 100 else lvl]
      ensures r == ACK ==> slave.pwm == old(slave.pwm)[pio := CommandFor(level[pio], old(level[pio]))]
      ensures r != ACK ==> level == old(level)
      ensures forall i | 0 <= i < 8 && i != pio :: slave.pwm[i] == old(slave.pwm)[i]
      ensures slave.quiet ==> r == ACK
    {
      var pct: Percent := if lvl > 100 then 100 else lvl;
      var raw := pct as int * 254 / 100;
      var cmd := if raw != 0 then TimerOn(raw) else if level[pio] == 0 then TimerStop else TimerStopDim;
      r := slave.Command(pio, cmd);
      if r != ACK {
        return 0xff;
      }
      level := level[pio := pct];
    }

    /** Whether a pin is on once switched: with a level of its own a PWM pin. */
    function Wanted(pio: nat, mode: PioMode, lvl: nat): bool
      requires Sized() && pio < 8
      reads this`level, this`data
    {
      match mode
      case Off => false
      case On => true
      case Toggle => !PinIsOn(pio)
      case Level => if PinIsPwm(pio) then lvl > 0 else true
    }

    /** The level of a PWM pin once switched: full on without a level of its own. */
    function NewLevel(mode: PioMode, lvl: nat, was: Percent): (pct: Percent)
      ensures mode == Toggle ==> (pct > 0 <==> was == 0) && (pct == 0 || pct == 100)
      ensures mode == On && lvl == 0 ==> pct == 100
      ensures mode == Level || (mode == On && lvl > 0) ==> pct <= lvl && pct <= 100 && (pct == lvl || pct == 100)
      ensures mode == Off ==> pct == 0
    {
      match mode
      case Off => 0
      case Toggle => if was == 0 then 100 else 0
      case On => if lvl == 0 || lvl > 100 then 100 else lvl
      case Level => if lvl > 100 then 100 else lvl
    }

    /** pin_switch() of a PWM pin. */
    method PwmSwitch(pio: nat, mode: PioMode, lvl: nat) returns (r: nat)
      requires Shape() && pio < 8 && PinIsPwm(pio)
      modifies this`level, slave`pwm
      ensures Shape()
      ensures r == 0 ==> level == old(level)[pio := level[pio]] && (level[pio] > 0 <==> old(Wanted(pio, mode, lvl)))
      ensures r == 0 ==> level[pio] == NewLevel(mode, lvl, old(level[pio]))
      ensures r != 0 ==> r == 0xff && level == old(level)
      ensures slave.quiet ==> r == 0
    {
      var to := lvl;
      if mode == Toggle {
        to := if level[pio] == 0 then 100 else 0;
      } else if mode == Off {
        to := 0;
      } else if mode == On && lvl == 0 {
        to := 100;
      }
      r := LevelSet(pio, to);
      r := if r != ACK then 0xff else 0;
    }

    /** All others stay as they are but for a plain pin given a level: that clears every latch bit. Of a plain
        pin 0 says nothing; acked, which the caller does not get, says whether the slave took the write. */
    method PinSwitch(pio: nat, mode: PioMode, lvl: nat) returns (r: nat, ghost acked: bool)
      requires Valid() && pio < 8
      modifies this`data, this`outKnown, this`commanded, this`log, this`level
      modifies slave`out, slave`pioWrites, slave`latch, slave`latchResets, slave`pwm
      ensures Valid()
      ensures r == 0 || r == 0xff
      ensures PinIsOn(pio) == old(Wanted(pio, mode, lvl)) || Pins() == old(Pins())
      ensures !PinIsPwm(pio) && mode != Level ==>
                (PinIsOn(pio) == old(Wanted(pio, mode, lvl)) <==> acked || old(PinIsOn(pio) == Wanted(pio, mode, lvl)))
      ensures !PinIsPwm(pio) ==> if acked then outKnown && slave.out == data[PIO_OUT] else data == old(data)
      ensures r != 0 ==> PinIsPwm(pio) && Pins() == old(Pins())
      ensures PinIsPwm(pio) && r == 0 ==> level[pio] == NewLevel(mode, lvl, old(level[pio]))
      ensures PinIsPwm(pio) && r == 0 ==> PinIsOn(pio) == old(Wanted(pio, mode, lvl))
      ensures OnlyOutputs(old(data), data)
      ensures mode != Level || PinIsPwm(pio) ==> forall i | 0 <= i < 8 && i != pio :: PinIsOn(i) == old(PinIsOn(i))
      ensures PinIsPwm(pio) ==> data == old(data) && outKnown == old(outKnown) && log == old(log)
      ensures acked && mode == Level && !PinIsPwm(pio) ==> forall i | 0 <= i < 8 && !PinIsPwm(i) :: PinIsOn(i)
      ensures forall i | 0 <= i < 8 && (i != pio || !PinIsPwm(pio) || r != 0) :: level[i] == old(level)[i]
      ensures slave.quiet ==> acked && r == 0 && PinIsOn(pio) == old(Wanted(pio, mode, lvl)) && OnlyWrites(old(log), log)
    {
      if cfg[pio] == CFG_OUT_PWM {
        r := PwmSwitch(pio, mode, lvl);
        acked := r == 0;
      } else {
        var tmp := Zero();
        if mode == Toggle {
          tmp := data[PIO_OUT][pio := !data[PIO_OUT][pio]];
        } else {
          if mode == On {
            tmp := data[PIO_OUT][pio := false];
          }
          if mode == Off {
            tmp := data[PIO_OUT][pio := true];
          }
        }
        var taken := PioSet(tmp);
        acked := taken == ACK;
        r := 0;
      }
    }

    // ---------- all pins at once ----------

    method PioMask() returns (bits: Octet)
      requires Shape()
      ensures bits == Pins()
    {
      bits := Zero();
      for i := 0 to 8
        invariant forall k | 0 <= k < 8 :: bits[k] == (k < i && PinIsOn(k))
      {
        if PinIsOn(i) {
          bits := bits[i := true];
        }
      }
    }

    /** Each pin gets there or stays as it is, all plain
        ones alike; what already is as asked for keeps its level. */
    method PioMaskSet(on: Octet)
      requires Valid()
      modifies this`data, this`outKnown, this`commanded, this`log, this`level
      modifies slave`out, slave`pioWrites, slave`latch, slave`latchResets, slave`pwm
      ensures Valid()
      ensures slave.quiet ==> Pins() == on && OnlyWrites(old(log), log)
      ensures forall i | 0 <= i < 8 :: PinIsOn(i) == on[i] || PinIsOn(i) == old(PinIsOn(i))
      ensures (forall i | 0 <= i < 8 && !PinIsPwm(i) :: PinIsOn(i) == on[i])
           || (forall i | 0 <= i < 8 && !PinIsPwm(i) :: PinIsOn(i) == old(PinIsOn(i)))
      ensures forall i | 0 <= i < 8 && (!PinIsPwm(i) || on[i] == old(PinIsOn(i))) :: level[i] == old(level)[i]
    {
      var tmp := data[PIO_OUT];
      for i := 0 to 8
        invariant Valid() && data == old(data) && outKnown == old(outKnown) && log == old(log)
        invariant forall k | 0 <= k < i && !PinIsPwm(k) :: tmp[k] == !on[k]
        invariant forall k | 0 <= k < i && PinIsPwm(k) ::
                    PinIsOn(k) == on[k] || (!slave.quiet && PinIsOn(k) == old(PinIsOn(k)))
        invariant forall k | 0 <= k < 8 && (k >= i || !PinIsPwm(k) || on[k] == old(PinIsOn(k))) :: level[k] == old(level)[k]
      {
        if cfg[i] == CFG_OUT_PWM {
          if on[i] != PinIsOn(i) {
            var r, switched := PinSwitch(i, if on[i] then On else Off, 0);
          }
        } else {
          tmp := tmp[i := !on[i]];
        }
      }
      // the plain pins share a byte
      var acked := PioSet(tmp);
    }

    /** Pin i is an output of that role and not as asked for. */
    predicate Misses(i: nat, r: PinRole, on: bool)
      requires Sized() && i < 8
      reads this`level, this`data
    {
      role[i] == r && PinIsOutput(i) && PinIsOn(i) != on
    }

    function Missing(r: PinRole, on: bool): (m: Octet)
      requires Sized()
      reads this`level, this`data
      ensures forall i | 0 <= i < 8 :: m[i] == Misses(i, r, on)
    {
      var lit := Pins();
      seq(8, (i: nat) requires i < 8 && |cfg| == |role| == 8 => role[i] == r && PinIsOutput(i) && lit[i] != on)
    }

    /** The outputs of a role that are still not as asked for, whatever failed. */
    method RoleSwitch(r: PinRole, on: bool) returns (failed: nat)
      requires Valid()
      modifies this`data, this`outKnown, this`commanded, this`log, this`level
      modifies slave`out, slave`pioWrites, slave`latch, slave`latchResets, slave`pwm
      ensures Valid()
      ensures failed == if r == NoRole then 0 else Count(Missing(r, on))
      ensures forall i {:trigger PinIsOn(i)} {:trigger Pins()[i]} |
                0 <= i < 8 && (r == NoRole || role[i] != r || !PinIsOutput(i)) ::
                Pins()[i] == old(Pins()[i])
      ensures forall i {:trigger level[i]} | 0 <= i < 8 && (r == NoRole || role[i] != r) :: level[i] == old(level)[i]
      ensures slave.quiet ==> failed == 0 && OnlyWrites(old(log), log)
    {
      if r == NoRole {
        return 0;
      }
      ghost var missing;
      failed, missing := SwitchOutputs(r, on);
      assert missing == Missing(r, on);
    }

    /** role_switch() for a real role. missing: what is not as asked for then. */
    method SwitchOutputs(r: PinRole, on: bool) returns (failed: nat, ghost missing: Octet)
      requires Valid()
      modifies this`data, this`outKnown, this`commanded, this`log, this`level
      modifies slave`out, slave`pioWrites, slave`latch, slave`latchResets, slave`pwm
      ensures Valid() && failed == Count(missing)
      ensures forall i | 0 <= i < 8 :: missing[i] == Misses(i, r, on)
      ensures forall i | 0 <= i < 8 && (role[i] != r || !PinIsOutput(i)) :: PinIsOn(i) == old(PinIsOn(i))
      ensures forall i | 0 <= i < 8 && role[i] != r :: level[i] == old(level)[i]
      ensures slave.quiet ==> failed == 0 && OnlyWrites(old(log), log)
    {
      var setBits, clrBits;
      ghost var missed, plain;
      failed, setBits, clrBits, missed, plain := SwitchPwm(r, on);
      var rest;
      rest, missing := SwitchPlain(r, setBits, clrBits, on, missed, plain);
      failed := failed + rest;
    }

    /** The outputs of the role not as asked for, PWM ones and plain ones. */
    ghost predicate Gathered(r: PinRole, on: bool, missed: Octet, plain: Octet)
      requires Sized()
      reads this`level, this`data
    {
      forall i | 0 <= i < 8 :: missed[i] == (PinIsPwm(i) && Misses(i, r, on)) && plain[i] == (!PinIsPwm(i) && Misses(i, r, on))
    }

    /** The loop of role_switch(): PWM pins switched, the plain ones to switch gathered. missed: the PWM pins
        that failed, plain: the plain ones gathered. */
    method SwitchPwm(r: PinRole, on: bool)
      returns (failed: nat, setBits: Octet, clrBits: Octet, ghost missed: Octet, ghost plain: Octet)
      requires Shape()
      modifies this`level, slave`pwm
      ensures Shape() && failed == Count(missed) && (slave.quiet ==> failed == 0)
      ensures Gathered(r, on, missed, plain)
      ensures setBits == (if on then Zero() else plain) && clrBits == (if on then plain else Zero())
      ensures forall i | 0 <= i < 8 && (role[i] != r || !PinIsOutput(i)) :: PinIsOn(i) == old(PinIsOn(i))
      ensures forall i | 0 <= i < 8 && role[i] != r :: level[i] == old(level)[i]
    {
      failed, setBits, clrBits := 0, Zero(), Zero();
      ghost var seen: seq<bool> := [];
      plain := Zero();
      for i := 0 to 8
        invariant Shape() && |seen| == i && failed == Count(seen) && (slave.quiet ==> failed == 0)
        invariant forall k | 0 <= k < i :: seen[k] == (PinIsPwm(k) && Misses(k, r, on))
        invariant forall k | 0 <= k < 8 :: plain[k] == (k < i && !PinIsPwm(k) && Misses(k, r, on))
        invariant setBits == (if on then Zero() else plain) && clrBits == (if on then plain else Zero())
        invariant forall k | 0 <= k < 8 && (role[k] != r || !PinIsOutput(k)) :: level[k] == old(level)[k]
      {
        var wrong, pwmFailed := VisitPin(i, r, on);
        if pwmFailed {
          failed := failed + 1;
        } else if wrong && on {
          clrBits := clrBits[i := true];
        } else if wrong {
          setBits := setBits[i := true];
        }
        seen := seen + [pwmFailed];
        plain := if wrong then plain[i := true] else plain;
      }
      missed := seen;
    }

    /** One pin of that loop: whether it is a plain one to switch, or a PWM pin that failed. */
    method VisitPin(i: nat, r: PinRole, on: bool) returns (wrong: bool, pwmFailed: bool)
      requires Shape() && i < 8
      modifies this`level, slave`pwm
      ensures Shape() && (slave.quiet ==> !pwmFailed)
      ensures wrong == (Misses(i, r, on) && !PinIsPwm(i))
      ensures pwmFailed == (Misses(i, r, on) && PinIsPwm(i))
      ensures level == old(level)[i := level[i]]
      ensures forall k | 0 <= k < 8 && k != i :: Misses(k, r, on) == old(Misses(k, r, on))
      ensures role[i] != r || !PinIsOutput(i) || !PinIsPwm(i) ==> level == old(level)
    {
      wrong, pwmFailed := false, false;
      if role[i] != r || !PinIsOutput(i) || PinIsOn(i) == on {
        return;
      }
      if cfg[i] == CFG_OUT_PWM {
        // pin_switch()
        var switched := PwmSwitch(i, if on then On else Off, 0);
        pwmFailed := switched != 0;
      } else {
        wrong := true;
      }
    }

    /** The plain outputs of role_switch(), what is missing then. */
    method SwitchPlain(r: PinRole, setBits: Octet, clrBits: Octet, on: bool, ghost missed: Octet, ghost plain: Octet)
      returns (failed: nat, ghost missing: Octet)
      requires Valid() && Gathered(r, on, missed, plain)
      requires setBits == (if on then Zero() else plain) && clrBits == (if on then plain else Zero())
      modifies this`data, this`outKnown, this`commanded, this`log
      modifies slave`out, slave`pioWrites, slave`latch, slave`latchResets
      ensures Valid() && Count(missing) == Count(missed) + failed
      ensures forall i | 0 <= i < 8 :: missing[i] == Misses(i, r, on)
      ensures forall i | 0 <= i < 8 && (role[i] != r || !PinIsOutput(i)) :: PinIsOn(i) == old(PinIsOn(i))
      ensures slave.quiet ==> failed == 0 && OnlyWrites(old(log), log)
    {
      failed := WritePlain(setBits, clrBits, on, plain);
      missing := Still(missed, plain, failed);
    }

    /** None of them as asked for before, all or none afterwards. */
    method WritePlain(setBits: Octet, clrBits: Octet, on: bool, ghost plain: Octet) returns (failed: nat)
      requires Valid()
      requires setBits == (if on then Zero() else plain) && clrBits == (if on then plain else Zero())
      requires forall i | 0 <= i < 8 && plain[i] :: !PinIsPwm(i) && PinIsOn(i) != on
      modifies this`data, this`outKnown, this`commanded, this`log
      modifies slave`out, slave`pioWrites, slave`latch, slave`latchResets
      ensures Valid() && (failed == 0 || failed == Count(plain))
      ensures forall i | 0 <= i < 8 :: PinIsOn(i) == if failed == 0 && plain[i] then on else old(PinIsOn(i))
      ensures slave.quiet ==> failed == 0 && OnlyWrites(old(log), log)
    {
      failed := 0;
      assert Or(setBits, clrBits) == plain;
      if Or(setBits, clrBits) != Zero() {
        var pio := AndNot(Or(data[PIO_OUT], setBits), clrBits);
        var acked := PioSet(pio);
        if acked != ACK {
          failed := Count(Or(setBits, clrBits));
          CountNone(plain);
          assert failed == 0 ==> plain == Zero();
        }
      }
    }

    // ---------- register reads ----------

    /** One try of a read; answered: with no bad CRC and a status. */
    method ReadTry() returns (crcBad: bool, answered: bool, busError: bool, ghost t: Try)
      requires Shape()
      modifies this`data, this`crcErrors
      ensures busError == BusFailed(t) && crcErrors == old(crcErrors) + if t.CrcBad? then 1 else 0
      ensures Shape() && crcBad == t.CrcBad? && answered == !GoesOn(t) && data == if crcBad then old(data) else t.regs
      ensures slave.quiet ==> answered == !crcBad && !busError
      ensures slave.quiet && answered ==>
                data[PIO_OUT] == slave.out && data[PIO_LATCH] == slave.latch && (ShowsReset(data[STAT]) <==> slave.flagged) && !data[STAT][6]
    {
      var got := slave.ReadRegisters();
      t := got;
      if got.CrcBad? {
        crcErrors := crcErrors + 1;
        return true, false, false, t;
      }
      data := got.regs;
      crcBad, answered := false, data[STAT] != Ones();
      busError := !answered && got.Unchecked? && got.busError;
    }

    /** The tries of one read: up to 19, gone on with only after a bad CRC or no answer. tries: what they gave;
        the registers of the last one with no bad CRC are kept. */
    method ReadTries() returns (crcBad: bool, err: bool, retry: nat, ghost tries: seq<Try>)
      requires Shape()
      modifies this`data, this`crcErrors
      ensures Shape() && 0 < |tries| <= 19 && data == Taken(old(data), tries)
      ensures forall k | 0 <= k < |tries| - 1 :: GoesOn(tries[k])
      ensures crcErrors == old(crcErrors) + CrcBads(tries)
      ensures crcBad == tries[|tries| - 1].CrcBad? && (retry == 0 <==> GoesOn(tries[|tries| - 1]))
      ensures retry == 0 ==> |tries| == 19
      ensures err <==> exists k :: 0 <= k < |tries| && BusFailed(tries[k])
      ensures slave.quiet && crcBad ==> data == old(data)
      ensures slave.quiet && !crcBad ==> data[PIO_OUT] == slave.out && (ShowsReset(data[STAT]) <==> slave.flagged)
      ensures slave.quiet && !crcBad ==> data[PIO_LATCH] == slave.latch
      ensures slave.quiet ==> !err && (!crcBad ==> !data[STAT][6])
    {
      crcBad, err, retry, tries := false, false, REG_RETRY - 1, [];
      while retry > 0
        modifies this`data, this`crcErrors
        invariant Shape() && |tries| + retry == REG_RETRY - 1 && data == Taken(old(data), tries)
        invariant forall k | 0 <= k < |tries| :: GoesOn(tries[k])
        invariant tries != [] ==> crcBad == tries[|tries| - 1].CrcBad?
        invariant crcErrors == old(crcErrors) + CrcBads(tries)
        invariant err <==> exists k :: 0 <= k < |tries| && BusFailed(tries[k])
        invariant slave.quiet ==> !err && data == old(data) && (tries != [] ==> crcBad)
      {
        var answered, busError;
        ghost var t;
        crcBad, answered, busError, t := ReadTry();
        FailedMore(tries, t);
        TakenMore(old(data), tries, t);
        tries := tries + [t];
        if answered {
          break;
        }
        err := err || busError;
        retry := retry - 1;
      }
    }

    /** What the status just read says; prevOut and prevKnown: the outputs before that read. */
    method NoteStatus(prevOut: Octet, prevKnown: bool)
      requires Shape()
      modifies this`level, this`outKnown, this`wdtPending, this`wdtOut, this`wdtOutKnown
      ensures Shape() && level == if data[STAT][6] then old(level)[0 := 0] else old(level)
      ensures Memory() == (
                if data[STAT] == Ones() then old(Memory())
                else if !ShowsReset(data[STAT])
                then (old(outKnown || !wdtPending), old(wdtPending), old(wdtOut), old(wdtOutKnown))
                else if old(wdtPending) then (false, true, old(wdtOut), old(wdtOutKnown))
                else (false, true, prevOut, prevKnown))
    {
      if data[STAT][6] {
        // dimming down
        level := level[0 := 0];
      }
      if data[STAT] != Ones() {
        if ShowsReset(data[STAT]) {
          // only the first sight of it: the cache is overwritten by then
          if !wdtPending {
            wdtPending := true;
            wdtOut := prevOut;
            wdtOutKnown := prevKnown;
          }
          outKnown := false;
        } else if !wdtPending {
          outKnown := true;
        }
      }
    }

    /** reg_read() but for the record of it. */
    method ReadAndNote(latchReset: bool) returns (r: nat, ghost tries: seq<Try>)
      requires Shape()
      modifies this`data, this`lastLatch, this`level, this`outKnown, this`wdtPending, this`wdtOut, this`wdtOutKnown
      modifies this`crcErrors, slave`latch, slave`latchResets
      ensures Shape()
      ensures r == 0 || r == ACK || r == 0xff
      ensures slave.quiet && r == 0 ==> data == old(data)
      ensures level == old(level) || level == old(level)[0 := 0]
      ensures r == 0 ==> Memory() == old(Memory())
      ensures Memory() != old(Memory()) ==> Memory() == old(Noted(true)) || Memory() == old(Noted(false))
      ensures tries != [] && (r == 0 <==> tries[|tries| - 1].CrcBad?) && |Taken(old(data), tries)| == 10
      ensures data[PIO_OUT] == Taken(old(data), tries)[PIO_OUT] && data[STAT] == Taken(old(data), tries)[STAT]
      ensures lastLatch == if r == ACK || (r != 0 && latchReset) then Taken(old(data), tries)[PIO_LATCH] else old(lastLatch)
      ensures data[PIO_LATCH] == if r == ACK && latchReset then Zero() else Taken(old(data), tries)[PIO_LATCH]
      ensures slave.quiet && r != 0 ==> lastLatch == old(slave.latch)
      ensures r == 0 || !latchReset ==> slave.latch == old(slave.latch)
      ensures r == ACK && latchReset ==> slave.latch == Zero()
      ensures r == ACK || (r != 0 && latchReset) ==>
                Memory() == (if data[STAT] == Ones() then old(Memory())
                             else if ShowsReset(data[STAT]) then old(Noted(true)) else old(Noted(false)))
      ensures r == 0xff && !latchReset ==> Memory() == old(Memory())
      ensures !latchReset ==> (r == 0xff <==>
                !tries[|tries| - 1].CrcBad? && GoesOn(tries[|tries| - 1]) && exists k :: 0 <= k < |tries| && BusFailed(tries[k]))
      ensures slave.quiet ==> level == old(level) && (r != 0 ==>
                data[PIO_OUT] == slave.out && Memory() == old(Noted(slave.flagged)))
    {
      var prevOut, prevKnown := data[PIO_OUT], outKnown;
      var crcBad, err, retry;
      crcBad, err, retry, tries := ReadTries();
      if crcBad {
        return 0, tries;
      }
      if err && (retry == 0 || data[STAT] == Ones()) && !latchReset {
        return 0xff, tries;
      }
      lastLatch := data[PIO_LATCH];
      r := ACK;
      if latchReset {
        r := LatchReset();
      }
      NoteStatus(prevOut, prevKnown);
    }

    /** 0: the last try failed its CRC. 0xff: a bus error, or the latch reset failed. What the first read to see
        a reset had cached before is kept until the restore. On a quiet bus the record grows by this read. */
    method RegRead(latchReset: bool) returns (r: nat, ghost tries: seq<Try>)
      requires Valid()
      modifies this`data, this`lastLatch, this`level, this`outKnown, this`wdtPending, this`wdtOut, this`wdtOutKnown
      modifies this`crcErrors, this`log, slave`latch, slave`latchResets
      ensures Valid()
      ensures r == 0 ==> Memory() == old(Memory())
      ensures Memory() != old(Memory()) ==> Memory() == old(Noted(true)) || Memory() == old(Noted(false))
      ensures tries != [] && (r == 0 <==> tries[|tries| - 1].CrcBad?) && |Taken(old(data), tries)| == 10
      ensures data[PIO_OUT] == Taken(old(data), tries)[PIO_OUT] && data[STAT] == Taken(old(data), tries)[STAT]
      ensures lastLatch == if r == ACK || (r != 0 && latchReset) then Taken(old(data), tries)[PIO_LATCH] else old(lastLatch)
      ensures data[PIO_LATCH] == if r == ACK && latchReset then Zero() else Taken(old(data), tries)[PIO_LATCH]
      ensures slave.quiet && r != 0 ==> lastLatch == old(slave.latch)
      ensures r == 0 || !latchReset ==> slave.latch == old(slave.latch)
      ensures r == ACK && latchReset ==> slave.latch == Zero()
      ensures r == ACK || (r != 0 && latchReset) ==>
                Memory() == (if data[STAT] == Ones() then old(Memory())
                             else if ShowsReset(data[STAT]) then old(Noted(true)) else old(Noted(false)))
      ensures r == 0xff && !latchReset ==> Memory() == old(Memory())
      ensures !latchReset ==> (r == 0xff <==>
                !tries[|tries| - 1].CrcBad? && GoesOn(tries[|tries| - 1]) && exists k :: 0 <= k < |tries| && BusFailed(tries[k]))
      ensures r == 0 || r == ACK || r == 0xff
      ensures slave.quiet && r == 0 ==> data == old(data)
      ensures slave.quiet ==> level == old(level) && log == old(log) + [if r == 0 then BadRead else Read]
    {
      ghost var before, was := log, Now();
      r, tries := ReadAndNote(latchReset);
      if slave.quiet {
        ghost var e := if r == 0 then BadRead else Read;
        assert Now() == Apply(was, e);
        log := log + [e];
        Snoc(start, before, e);
      }
    }

    /** The read of an alarm: what it hands over is what the slave had latched, not what is left after the latch
        reset, and is kept as well. No latch is lost: it is handed over or still set. */
    method AlarmRead() returns (r: nat, latch: Octet, ghost tries: seq<Try>)
      requires Valid()
      modifies this`data, this`lastLatch, this`level, this`outKnown, this`wdtPending, this`wdtOut, this`wdtOutKnown
      modifies this`crcErrors, this`log, this`latched, this`alarm, slave`latch, slave`latchResets
      ensures Valid() && alarm && tries != [] && (r == 0 || r == 0xAA || r == 0xff)
      ensures (r == 0 <==> tries[|tries| - 1].CrcBad?) && |Taken(old(data), tries)| == 10
      ensures latch == if r != 0 then Taken(old(data), tries)[PIO_LATCH] else old(lastLatch)
      ensures forall k | 0 <= k < 8 :: latched[k] <==> old(latched)[k] || (r != 0 && latch != Ones() && latch[k])
      ensures slave.quiet ==> forall k | 0 <= k < 8 && old(slave.latch)[k] :: (r != 0 && latch[k]) || slave.latch[k]
      ensures r == 0xAA ==> slave.latch == Zero()
      ensures slave.quiet ==> log == old(log) + [if r == 0 then BadRead else Read]
    {
      r, tries := RegRead(true);
      latch := lastLatch;
      if (r == ACK || r == 0xff) && latch != Ones() {
        latched := Or(latched, latch);
      }
      alarm := true;
    }

    // ---------- recovery ----------

    method StatusClear() returns (r: int)
      requires Shape()
      modifies this`data, slave`flagged
      ensures Shape() && data == if r == 0 then old(data)[STAT := old(data)[STAT][3 := false][7 := false]] else old(data)
      ensures r == 0 || r == -EIO
      ensures r == 0 ==> !slave.flagged
      ensures slave.quiet ==> r == 0
    {
      var stat := data[STAT][3 := false][7 := false];
      var ok := slave.ClearStatus();
      if !ok {
        return -EIO;
      }
      data := data[STAT := stat];
      r := 0;
    }

    /** Writes the levels of all PWM pins that have one again. */
    method RestoreLevels() returns (failed: nat)
      requires Shape()
      modifies this`level, slave`pwm
      ensures Shape() && level == old(level)
      ensures slave.quiet ==> failed == 0
      ensures failed == 0 ==> forall i | 0 <= i < 8 && PinIsPwm(i) && level[i] > 0 :: slave.pwm[i] == TimerOn(RawLevel(level[i]))
      ensures forall i | 0 <= i < 8 && (!PinIsPwm(i) || level[i] == 0) :: slave.pwm[i] == old(slave.pwm)[i]
    {
      failed := 0;
      for pio := 0 to 8
        invariant Shape() && level == old(level)
        invariant slave.quiet ==> failed == 0
        invariant forall i | 0 <= i < 8 && (!PinIsPwm(i) || level[i] == 0) :: slave.pwm[i] == old(slave.pwm)[i]
        invariant failed == 0 ==> forall i | 0 <= i < pio && PinIsPwm(i) && level[i] > 0 :: slave.pwm[i] == TimerOn(RawLevel(level[i]))
      {
        if cfg[pio] != CFG_OUT_PWM || level[pio] == 0 {
          continue;
        }
        var acked := LevelSet(pio, level[pio]);
        if acked != ACK {
          failed := failed + 1;
        }
      }
    }

    /** watchdog_restore() once something is pending, but for the record of it. again: what the slave drives
        after a reset between its status and its PIO write. */
    method Recover() returns (err: nat, ghost again: Option<Octet>)
      requires Shape() && wdtPending
      modifies this`data, this`level, this`outKnown, this`wdtPending, this`wdtCount, this`commanded
      modifies slave`out, slave`flagged, slave`pwm, slave`pioWrites, slave`latch, slave`latchResets
      ensures Shape() && level == old(level) && !wdtPending && wdtCount == old(wdtCount) + 1
      ensures !wdtOutKnown ==> slave.pioWrites == old(slave.pioWrites)
      ensures slave.quiet ==> err == 0 && Now() == Apply(old(Now()), Restore(again, PwmBits()))
      ensures err == 0 && wdtOutKnown ==> outKnown && data[PIO_OUT] == Or(wdtOut, PwmBits()) == slave.out
      ensures err == 0 ==> forall i | 0 <= i < 8 && PinIsPwm(i) && level[i] > 0 :: slave.pwm[i] == TimerOn(RawLevel(level[i]))
    {
      err := 0;
      wdtPending := false;
      wdtCount := wdtCount + 1;
      // before the writes: what shows after them is another reset
      var cleared := StatusClear();
      if cleared != 0 {
        err := err + 1;
      }
      commanded := slave.out;
      again := MaybeReset();
      if wdtOutKnown {
        var acked := PioWrite(wdtOut);
        if acked != ACK {
          err := err + 1;
        }
        commanded := slave.out;
      }
      var failed := RestoreLevels();
      err := err + failed;
    }

    /** Some time between two steps the slave may reset by itself. */
    method MaybeReset() returns (ghost again: Option<Octet>)
      requires Shape()
      modifies slave`out, slave`flagged, slave`pwm, slave`latch
      ensures Shape()
      ensures slave.out == (if again.Some? then again.value else old(slave.out))
      ensures slave.flagged == (again.Some? || old(slave.flagged))
    {
      again := None;
      var resets: bool := *;
      if resets {
        slave.SilentReset();
        again := Some(slave.out);
      }
    }

    method WatchdogRestore() returns (r: int)
      requires Valid()
      modifies this`data, this`level, this`outKnown, this`wdtPending, this`wdtCount, this`commanded, this`log
      modifies slave`out, slave`flagged, slave`pwm, slave`pioWrites, slave`latch, slave`latchResets
      ensures Valid() && level == old(level) && !wdtPending && (r == 0 || r == -EAGAIN)
      ensures wdtCount == old(wdtCount) + if old(wdtPending) then 1 else 0
      ensures !old(wdtPending) ==> r == 0 && data == old(data) && log == old(log) && outKnown == old(outKnown)
      ensures !old(wdtPending && wdtOutKnown) ==> slave.pioWrites == old(slave.pioWrites)
      ensures slave.quiet && old(wdtPending) ==> r == 0 && exists again :: log == old(log) + [Restore(again, PwmBits())]
      ensures r == 0 && old(wdtPending && wdtOutKnown) ==> outKnown && data[PIO_OUT] == Or(old(wdtOut), PwmBits()) == slave.out
      ensures r == 0 && old(wdtPending) ==>
                forall i | 0 <= i < 8 && PinIsPwm(i) && level[i] > 0 :: slave.pwm[i] == TimerOn(RawLevel(level[i]))
    {
      if !wdtPending {
        return 0;
      }
      ghost var before := log;
      var err, again := Recover();
      if wdtPending {
        // nothing above reads the registers, so no further reset can show here
        assert false;
      }
      if slave.quiet {
        log := log + [Restore(again, PwmBits())];
        Snoc(start, before, Restore(again, PwmBits()));
      }
      r := if err > 0 then -EAGAIN else 0;
    }

    // ---------- PIO.ALL ----------

    method ReadAll(uncached: bool) returns (buf: string)
      requires Valid()
      modifies this`data, this`lastLatch, this`level, this`outKnown, this`wdtPending, this`wdtOut, this`wdtOutKnown
      modifies this`crcErrors, this`log, slave`latch, slave`latchResets
      ensures Valid() && buf == PioText.FmtFrom(Pins(), 0)
      ensures slave.latch == old(slave.latch)
      ensures !uncached ==> Pins() == old(Pins()) && level == old(level) && log == old(log)
      ensures slave.quiet ==> level == old(level)
      ensures slave.quiet ==> (log == old(log) || log == old(log) + [Read] || log == old(log) + [BadRead])
    {
      if uncached {
        var r, tries := RegRead(false);
      }
      var bits := PioMask();
      buf := PioText.FmtAll(bits);
    }

    /** Written back as read, nothing changes. */
    method WriteAll(buf: string) returns (r: int)
      requires Valid()
      modifies this`data, this`outKnown, this`commanded, this`log, this`level
      modifies slave`out, slave`pioWrites, slave`latch, slave`latchResets, slave`pwm
      ensures Valid()
      ensures var bits := PioText.Parse(PioText.Trimmed(buf));
              && (r == if bits.Some? then |buf| else -EINVAL)
              && (bits.None? ==> data == old(data) && level == old(level) && log == old(log))
              && (bits == Some(old(Pins())) ==> Pins() == old(Pins()) && level == old(level))
              && (bits.Some? && slave.quiet ==> Pins() == bits.value)
    {
      var ok, bits := PioText.ParseAll(PioText.Trimmed(buf));
      if !ok {
        return -EINVAL;
      }
      PioMaskSet(bits);
      r := |buf|;
    }

    // ---------- the world outside ----------

    /** The slave resets by itself, some time between two calls. */
    method SlaveResets()
      requires Valid()
      modifies slave`out, slave`flagged, slave`pwm, slave`latch, slave`latchResets, this`log
      ensures Valid() && slave.flagged
      ensures slave.quiet ==> log == old(log) + [Reset(slave.out)]
    {
      ghost var before, was := log, Now();
      slave.SilentReset();
      if slave.quiet {
        assert Now() == Apply(was, Reset(slave.out));
        log := log + [Reset(slave.out)];
        Snoc(start, before, Reset(slave.out));
      }
    }
  }

  /** What is missing after the plain ones' write. */
  ghost function Still(missed: Octet, plain: Octet, failed: nat): (missing: Octet)
    requires failed == 0 || failed == Count(plain)
    requires forall i | 0 <= i < 8 && plain[i] :: !missed[i]
    ensures forall i | 0 <= i < 8 :: missing[i] == (missed[i] || (failed > 0 && plain[i]))
    ensures Count(missing) == Count(missed) + failed
  {
    CountDisjoint(missed, plain, Or(missed, plain));
    if failed == 0 then missed else Or(missed, plain)
  }

  /** Of the registers only the output latches, and the activity latches reset along with them. */
  predicate OnlyOutputs(before: seq<Octet>, after: seq<Octet>) {
    |before| == |after| && forall k | 0 <= k < |after| && k != PIO_OUT && k != PIO_LATCH :: after[k] == before[k]
  }

  /** The record grew by acknowledged writes at most. */
  ghost predicate OnlyWrites(before: seq<Event>, after: seq<Event>) {
    before <= after && forall i | |before| <= i < |after| :: after[i].Write?
  }
}
