/** The switch handler of src/switch_handler.cpp: presses, timers and all lights off, step by step. */
module SwitchHandler {
  import opened Bytes
  import opened Octets
  import opened SwitchState

  const ALARM_READ := 0xAA
  const ALARM_LATCH_FAILED := 0xff

  /** The devices behind OwDevices::find(). */
  class Outputs {
    var pins: map<Target, Pin>

    constructor (pins: map<Target, Pin>)
      ensures this.pins == pins
    {
      this.pins := pins;
    }

    predicate IsOn(t: Target)
      reads this
    {
      t in pins && pins[t].on
    }

    /** pin_switch() of a device that exists. */
    method PinSwitch(t: Target, mode: Mode)
      requires t in pins
      modifies this
      ensures pins == old(pins)[t := old(pins)[t].(on := Switched(old(pins)[t].on, mode))]
    {
      pins := pins[t := pins[t].(on := Switched(pins[t].on, mode))];
    }

    /** role_switch(PinRole::light, false) with every write acknowledged. */
    method LightsOff()
      modifies this
      ensures pins == map t | t in old(pins) :: Dimmed(old(pins)[t])
      ensures forall t | t in pins && pins[t].role == Light && pins[t].output :: !pins[t].on
    {
      pins := map t | t in pins :: Dimmed(pins[t]);
    }
  }

  class Handler {
    const ow: Outputs
    var timers: map<Target, int>
    var switches: seq<Switch>
    var enabled: bool
    var dark: bool
    var roomDark: map<string, bool>
    var curLatch: Octet
    var pressTime: Byte

    function Now(): State
      reads this, ow
    {
      State(ow.pins, timers, switches, enabled, dark, roomDark)
    }

    constructor (ow: Outputs)
      ensures this.ow == ow && timers == map[] && switches == [] && enabled && dark && roomDark == map[]
    {
      this.ow := ow;
      timers, switches, enabled, dark, roomDark := map[], [], true, true, map[];
      curLatch, pressTime := Zero(), 0;
    }

    // ---------- timers ----------

    method TimerStart(t: Target, secs: nat, now: int)
      modifies this`timers
      ensures Now() == Start(old(Now()), t, now + secs)
    {
      timers := timers[t := now + secs];
    }

    method TimerStop(t: Target) returns (ran: bool)
      modifies this`timers
      ensures Now() == Stop(old(Now()), t) && ran == (t in old(timers))
    {
      ran := t in timers;
      timers := timers - {t};
    }

    /** The timers that expired, taken off. */
    method TakeExpired(now: int) returns (expired: seq<Target>)
      modifies this`timers
      ensures timers == map t | t in old(timers) && !Expired(old(Now()), t, now) :: old(timers)[t]
      ensures forall t :: t in expired <==> Expired(old(Now()), t, now)
      ensures forall i, j | 0 <= i < j < |expired| :: expired[i] != expired[j]
    {
      expired := [];
      var left := timers.Keys;
      ghost var was := Now();
      while left != {}
        modifies this`timers
        invariant left <= was.timers.Keys
        invariant forall t :: t in timers <==> t in was.timers && (t in left || !Expired(was, t, now))
        invariant forall t | t in timers :: timers[t] == was.timers[t]
        invariant forall t :: t in expired <==> t !in left && Expired(was, t, now)
        invariant forall i, j | 0 <= i < j < |expired| :: expired[i] != expired[j]
        decreases left
      {
        var t :| t in left;
        left := left - {t};
        if now >= timers[t] {
          expired := expired + [t];
          timers := timers - {t};
        }
      }
    }

    /** How many targets it switched off. */
    method TimerPoll(now: int) returns (n: nat)
      modifies this`timers, ow
      ensures Now() == Poll(old(Now()), now)
      ensures n == |set t | t in old(timers) && Expired(old(Now()), t, now)|
    {
      ghost var was := Now();
      var expired := TakeExpired(now);
      SeqOfSet(expired, set t | t in was.timers && Expired(was, t, now));
      AllSwitchedOff(expired);
      n := |expired|;
    }

    method AllSwitchedOff(targets: seq<Target>)
      modifies ow
      ensures ow.pins == OffAll(old(ow.pins), targets)
    {
      ghost var was := ow.pins;
      for i := 0 to |targets|
        modifies ow
        invariant ow.pins == OffAll(was, targets[..i])
      {
        ActorHandle(targets[i], Off);
        OffOneMore(was, targets[..i], targets[i]);
        assert targets[..i + 1] == targets[..i] + [targets[i]];
      }
      assert targets[..|targets|] == targets;
    }

    // ---------- switching ----------

    method ActorHandle(t: Target, mode: Mode)
      modifies ow
      ensures Now() == Actor(old(Now()), t, mode)
    {
      if t in ow.pins {
        ow.PinSwitch(t, mode);
      }
    }

    method AllLightsOff()
      modifies this`timers, ow
      ensures Now() == AllOff(old(Now()))
      ensures ow.pins.Keys == old(ow.pins).Keys && forall t | t in timers :: t in old(timers) && timers[t] == old(timers)[t]
      ensures forall t | t in ow.pins && ow.pins[t].role == Light :: t !in timers && (ow.pins[t].output ==> !ow.pins[t].on)
      ensures forall t | t in old(ow.pins) && (old(ow.pins)[t].role != Light || !old(ow.pins)[t].output) ::
                ow.pins[t] == old(ow.pins)[t]
      ensures forall t | t in old(timers) && (t !in old(ow.pins) || old(ow.pins)[t].role != Light) :: t in timers
    {
      ghost var was := Now();
      var left := timers.Keys;
      while left != {}
        modifies this`timers
        invariant left <= was.timers.Keys
        invariant forall t :: t in timers <==> t in was.timers && (t in left || !IsLight(was, t))
        invariant forall t | t in timers :: timers[t] == was.timers[t]
        decreases left
      {
        var t :| t in left;
        left := left - {t};
        if t in ow.pins && ow.pins[t].role == Light {
          var ran := TimerStop(t);
        }
      }
      ow.LightsOff();
    }

    method SwitchTimed(sw: Switch, now: int)
      modifies this`timers, ow
      ensures Now() == Timed(old(Now()), sw, now)
    {
      if !ow.IsOn(sw.dst) {
        var ran := TimerStop(sw.dst);
        ActorHandle(sw.dst, On);
        TimerStart(sw.dst, sw.secs, now);
        return;
      }
      if sw.onPress == SwitchOff {
        var ran := TimerStop(sw.dst);
        ActorHandle(sw.dst, Off);
        return;
      }
      if sw.dst !in timers {
        return;
      }
      TimerStart(sw.dst, sw.secs, now);
    }

    // ---------- presses ----------

    /** Takes the lowest set latch bit off; 1..8, or 0xff without any. */
    method BitNumber() returns (nr: nat)
      modifies this`curLatch
      ensures if nr == 0xff then curLatch == old(curLatch) == Zero()
              else 1 <= nr <= 8 && old(curLatch)[nr - 1] && curLatch == old(curLatch)[nr - 1 := false]
                   && forall k | 0 <= k < nr - 1 :: !old(curLatch)[k]
    {
      nr := 1;
      for i := 0 to 8
        invariant nr == i + 1 && curLatch == old(curLatch)
        invariant forall k | 0 <= k < i :: !curLatch[k]
      {
        if curLatch[i] {
          curLatch := curLatch[i := false];
          return;
        }
        nr := nr + 1;
      }
      nr := 0xff;
    }

    /** found: false without a latch. */
    method SrcData(bus: Byte, adr: Byte) returns (found: bool, src: Src)
      modifies this`curLatch
      ensures found == (old(curLatch) != Zero())
      ensures found ==> 1 <= src.latch <= 8 && old(curLatch)[src.latch - 1]
                        && src == SrcOf(bus, adr, src.latch - 1, pressTime)
                        && curLatch == old(curLatch)[src.latch - 1 := false]
                        && forall k | 0 <= k < src.latch - 1 :: !old(curLatch)[k]
      ensures !found ==> curLatch == old(curLatch)
    {
      src := Src(bus % 8, adr % 64, 0, 0);
      var nr := BitNumber();
      if nr == 0xff {
        return false, src;
      }
      src := src.(latch := nr);
      if pressTime == 0xff {
        src := src.(press := 0);
      } else if pressTime == 0 {
        src := src.(press := 2);
      } else if pressTime > 350 / 32 {
        src := src.(press := 1);
      } else {
        src := src.(press := 0);
      }
      found := true;
    }

    /** The lowest latch is taken off even when the switches are disabled. */
    method SwitchHandle(bus: Byte, adr: Byte, now: int) returns (found: bool, ghost src: Src)
      modifies this`curLatch, this`timers, ow
      ensures found == (old(curLatch) != Zero())
      ensures found ==> 1 <= src.latch <= 8 && old(curLatch)[src.latch - 1]
                        && src == SrcOf(bus, adr, src.latch - 1, pressTime)
                        && curLatch == old(curLatch)[src.latch - 1 := false]
                        && forall k | 0 <= k < src.latch - 1 :: !old(curLatch)[k]
      ensures Now() == if found then Press(old(Now()), src, now) else old(Now())
    {
      var s;
      found, s := SrcData(bus, adr);
      src := s;
      if !found || !enabled {
        return;
      }
      ghost var was := Now();
      for i := 0 to |switches|
        modifies this`timers, ow
        invariant Now() == HandleAll(was, switches[..i], s, now)
      {
        assert switches[..i + 1][..i] == switches[..i];
        HandleOne(switches[i], s, now);
      }
      assert switches[..|switches|] == switches;
    }

    method HandleOne(sw: Switch, src: Src, now: int)
      modifies this`timers, ow
      ensures Now() == Handle(old(Now()), sw, src, now)
    {
      if src != sw.src || sw.disabled {
        return;
      }
      // by day the condition keeps a target from going on, never from going off
      if !CondMet(Now(), sw) && sw.dst != ALL_OFF && !ow.IsOn(sw.dst) {
        return;
      }
      if sw.dst == ALL_OFF {
        AllLightsOff();
      } else if sw.secs > 0 {
        SwitchTimed(sw, now);
      } else {
        ActorHandle(sw.dst, Toggle);
        var ran := TimerStop(sw.dst);
      }
    }

    /** An alarm of a DS2408. res: the outcome of its register read; stat: what else that read said. */
    method DevAlarm(exists_: bool, bus: Byte, adr: Byte, res: nat, reset: bool, latches: Octet, press: Byte, now: int)
      returns (handled: bool)
      modifies this`curLatch, this`pressTime, this`timers, ow
      ensures var read := exists_ && (res == 0xAA || res == 0xff) && !reset && latches != Ones();
              Now() == if read then PressAll(old(Now()), Sources(bus, adr, latches, press, 8), now) else old(Now())
      ensures handled <==> exists_ && !((res == 0xAA || res == 0xff) && !reset && forall k | 0 <= k < 8 :: latches[k])
    {
      if !exists_ {
        return false;
      }
      curLatch := latches;
      if res == ALARM_READ || res == ALARM_LATCH_FAILED {
        if reset {
          // after a reset no latch stands for a press
          return true;
        }
        if curLatch == Ones() {
          return false;
        }
        var left := 8;
        ghost var was, done, n := Now(), [], 0;
        while curLatch != Zero() && left > 0
          modifies this`curLatch, this`pressTime, this`timers, ow
          invariant n <= 8 && Now() == PressAll(was, done, now)
          invariant done == Sources(bus, adr, latches, press, n)
          invariant forall k | 0 <= k < 8 :: curLatch[k] == (k >= n && latches[k])
          invariant left >= 8 - n
        {
          pressTime := press;
          ghost var src;
          var found;
          found, src := SwitchHandle(bus, adr, now);
          SourcesSkip(bus, adr, latches, press, n, src.latch - 1);
          assert (done + [src])[..|done|] == done;
          done := done + [src];
          n := src.latch;
          left := left - 1;
        }
        SourcesSkip(bus, adr, latches, press, n, 8);
      }
      handled := true;
    }
  }

  lemma {:induction false} SourcesSkip(bus: Byte, adr: Byte, latches: Octet, press: Byte, n: nat, m: nat)
    requires n <= m <= 8 && forall k | n <= k < m :: !latches[k]
    ensures Sources(bus, adr, latches, press, m) == Sources(bus, adr, latches, press, n)
    decreases m
  {
    if n < m {
      SourcesSkip(bus, adr, latches, press, n, m - 1);
    }
  }

  function OffAll(pins: map<Target, Pin>, targets: seq<Target>): map<Target, Pin> {
    map t | t in pins :: if t in targets then pins[t].(on := false) else pins[t]
  }

  lemma OffOneMore(pins: map<Target, Pin>, targets: seq<Target>, t: Target)
    ensures OffAll(pins, targets + [t]) ==
            if t in pins then OffAll(pins, targets)[t := OffAll(pins, targets)[t].(on := false)] else OffAll(pins, targets)
  {
  }

  lemma {:induction false} SeqOfSet(s: seq<Target>, m: set<Target>)
    requires forall t :: t in s <==> t in m
    requires forall i, j | 0 <= i < j < |s| :: s[i] != s[j]
    ensures |s| == |m|
    decreases |s|
  {
    if s == [] {
      assert m == {};
    } else {
      var last := s[|s| - 1];
      SeqOfSet(s[..|s| - 1], m - {last});
    }
  }
}
