/** What the switch handler of src/switch_handler.cpp works on, and what each of its actions means for it.
    Writes are acknowledged and nothing else switches the outputs. */
module SwitchState {
  import opened Octets
  import opened Bytes

  /** A target pin (union pio, type 0). 0.0.0 stands for every light off. */
  datatype Target = Target(bus: nat, adr: nat, pio: nat)

  /** The source of a press (union s_adr). press: 0 short, 1 long released, 2 long started. */
  datatype Src = Src(bus: nat, adr: nat, latch: nat, press: nat)

  datatype OnPress = Retrigger | SwitchOff
  datatype Cond = Always | Dark
  datatype Role = Light | Other
  datatype Mode = Off | On | Toggle

  datatype Switch = Switch(src: Src, dst: Target, secs: nat, onPress: OnPress, cond: Cond, disabled: bool)

  datatype Pin = Pin(on: bool, output: bool, role: Role, room: string)

  datatype State = State(
    pins: map<Target, Pin>,             // the pins of all devices found, see OwDevices::find()
    timers: map<Target, int>,           // when a target is switched off
    switches: seq<Switch>,
    enabled: bool,                      // MODE_AUTO_SWITCH
    dark: bool,                         // the astro flag
    roomDark: map<string, bool>)        // rooms with a flag of their own

  const ALL_OFF := Target(0, 0, 0)

  // ---------- queries ----------

  predicate OutputOn(s: State, t: Target) {
    t in s.pins && s.pins[t].on
  }

  predicate IsDark(s: State, room: string) {
    if room != "" && room in s.roomDark then s.roomDark[room] else s.dark
  }

  function DstRoom(s: State, t: Target): string {
    if t == ALL_OFF || t !in s.pins then "" else s.pins[t].room
  }

  predicate CondMet(s: State, sw: Switch) {
    sw.cond == Dark ==> IsDark(s, DstRoom(s, sw.dst))
  }

  // ---------- actions ----------

  function Switched(on: bool, mode: Mode): bool {
    match mode
    case Off => false
    case On => true
    case Toggle => !on
  }

  function Actor(s: State, t: Target, mode: Mode): State {
    if t !in s.pins then s
    else s.(pins := s.pins[t := s.pins[t].(on := Switched(s.pins[t].on, mode))])
  }

  function Stop(s: State, t: Target): State {
    s.(timers := s.timers - {t})
  }

  function Start(s: State, t: Target, off: int): State {
    s.(timers := s.timers[t := off])
  }

  predicate IsLight(s: State, t: Target) {
    t in s.pins && s.pins[t].role == Light
  }

  /** Every light off and without a timer. */
  function AllOff(s: State): State {
    s.(timers := map t | t in s.timers && !IsLight(s, t) :: s.timers[t],
       pins := map t | t in s.pins :: Dimmed(s.pins[t]))
  }

  function Dimmed(p: Pin): Pin {
    if p.role == Light && p.output then p.(on := false) else p
  }

  /** A press of a timed switch. */
  function Timed(s: State, sw: Switch, now: int): State {
    if !OutputOn(s, sw.dst) then Start(Actor(Stop(s, sw.dst), sw.dst, On), sw.dst, now + sw.secs)
    else if sw.onPress == SwitchOff then Actor(Stop(s, sw.dst), sw.dst, Off)
    else if sw.dst in s.timers then Start(s, sw.dst, now + sw.secs)
    else s
  }

  predicate Matches(sw: Switch, src: Src) {
    sw.src == src && !sw.disabled
  }

  /** One line of the switch table. */
  function Handle(s: State, sw: Switch, src: Src, now: int): State {
    if !Matches(sw, src) then s
    else if !CondMet(s, sw) && sw.dst != ALL_OFF && !OutputOn(s, sw.dst) then s
    else if sw.dst == ALL_OFF then AllOff(s)
    else if sw.secs > 0 then Timed(s, sw, now)
    else Stop(Actor(s, sw.dst, Toggle), sw.dst)
  }

  function HandleAll(s: State, table: seq<Switch>, src: Src, now: int): State {
    if table == [] then s
    else Handle(HandleAll(s, table[..|table| - 1], src, now), table[|table| - 1], src, now)
  }

  function Press(s: State, src: Src, now: int): State {
    if s.enabled then HandleAll(s, s.switches, src, now) else s
  }

  function PressAll(s: State, srcs: seq<Src>, now: int): State {
    if srcs == [] then s else Press(PressAll(s, srcs[..|srcs| - 1], now), srcs[|srcs| - 1], now)
  }

  predicate Expired(s: State, t: Target, now: int) {
    t in s.timers && now >= s.timers[t]
  }

  /** Every expired timer taken off, its target switched off. */
  function Poll(s: State, now: int): State {
    s.(timers := map t | t in s.timers && !Expired(s, t, now) :: s.timers[t],
       pins := map t | t in s.pins :: if Expired(s, t, now) then s.pins[t].(on := false) else s.pins[t])
  }

  // ---------- where a press comes from ----------

  /** The press byte of an alarm: 0xff nothing, 0 held, else how long in steps of 32 ms. */
  function PressKind(b: Byte): nat {
    if b == 0xff then 0 else if b == 0 then 2 else if b > 10 then 1 else 0
  }

  function SrcOf(bus: Byte, adr: Byte, bit: nat, press: Byte): Src {
    Src(bus % 8, adr % 64, bit + 1, PressKind(press))
  }

  /** One press for each latch, the lowest first; of bits below n. */
  function Sources(bus: Byte, adr: Byte, latches: Octet, press: Byte, n: nat): (srcs: seq<Src>)
    requires n <= 8
  {
    if n == 0 then []
    else
      Sources(bus, adr, latches, press, n - 1) +
      if latches[n - 1] then [SrcOf(bus, adr, n - 1, press)] else []
  }

  /** 2 while it is held, 1 after more than 350 ms, else 0; press counts steps of 32 ms, 0xff stands for none. */
  predicate IsKind(press: Byte, kind: nat) {
    (kind == 2 <==> press == 0) && (kind == 1 <==> press != 0xff && press * 32 > 350) && kind <= 2
  }

  /** Every set bit once, in order. */
  lemma {:induction false} SourcesAreLatches(bus: Byte, adr: Byte, latches: Octet, press: Byte, n: nat)
    requires n <= 8
    ensures var srcs := Sources(bus, adr, latches, press, n);
            && |srcs| == Count(latches[..n])
            && (forall k | 0 <= k < 8 :: SrcOf(bus, adr, k, press) in srcs <==> k < n && latches[k])
            && (forall i, j | 0 <= i < j < |srcs| :: srcs[i].latch < srcs[j].latch)
            && (forall i | 0 <= i < |srcs| :: 1 <= srcs[i].latch <= n)
  {
    if n > 0 {
      SourcesAreLatches(bus, adr, latches, press, n - 1);
      assert latches[..n][..n - 1] == latches[..n - 1];
    }
  }

  /** What each says: a latch that is set, the device, and how long the press was; and all that are set are told. */
  lemma {:induction false} SourcesTell(bus: Byte, adr: Byte, latches: Octet, press: Byte, n: nat)
    requires n <= 8
    ensures var srcs := Sources(bus, adr, latches, press, n);
            && (forall i | 0 <= i < |srcs| :: Tells(srcs[i], bus, adr, latches, press))
            && (forall k | 0 <= k < n && latches[k] :: exists i :: 0 <= i < |srcs| && srcs[i].latch == k + 1)
  {
    if n > 0 {
      SourcesTell(bus, adr, latches, press, n - 1);
      var before, srcs := Sources(bus, adr, latches, press, n - 1), Sources(bus, adr, latches, press, n);
      if latches[n - 1] {
        assert srcs[|before|].latch == n;
      }
      forall k | 0 <= k < n - 1 && latches[k]
        ensures exists i :: 0 <= i < |srcs| && srcs[i].latch == k + 1
      {
        var i :| 0 <= i < |before| && before[i].latch == k + 1;
        assert srcs[i] == before[i];
      }
    }
  }

  /** press counts steps of 32 ms: 0 while it is held, 0xff for none. */
  predicate Tells(src: Src, bus: Byte, adr: Byte, latches: Octet, press: Byte) {
    && src.bus == bus % 8 && src.adr == adr % 64 && 1 <= src.latch <= 8 && latches[src.latch - 1]
    && src.press == (if press == 0 then 2 else if press != 0xff && press * 32 > 350 then 1 else 0)
  }
}
