/** What holds over any run of presses, polls and changed settings (src/switch_handler.cpp). */
module SwitchRuns {
  import opened SwitchState
  import opened Wrappers

  datatype Event =
    | Alarm(srcs: seq<Src>, now: int)    // the presses of one alarm
    | PollAt(now: int)
    | Settings(switches: seq<Switch>, enabled: bool, dark: bool, roomDark: map<string, bool>)
    | Label(target: Target, output: bool, role: Role, room: string)

  function Apply(s: State, e: Event): State {
    match e
    case Alarm(srcs, now) => PressAll(s, srcs, now)
    case PollAt(now) => Poll(s, now)
    case Settings(switches, enabled, dark, roomDark) =>
      s.(switches := switches, enabled := enabled, dark := dark, roomDark := roomDark)
    case Label(t, output, role, room) =>
      if t in s.pins then s.(pins := s.pins[t := Pin(s.pins[t].on, output, role, room)]) else s
  }

  function ApplyAll(s: State, es: seq<Event>): State {
    if es == [] then s else Apply(ApplyAll(s, es[..|es| - 1]), es[|es| - 1])
  }

  predicate SameSettings(s: State, r: State) {
    && r.switches == s.switches && r.enabled == s.enabled && r.dark == s.dark && r.roomDark == s.roomDark
    && r.pins.Keys == s.pins.Keys
  }

  predicate SameLabels(p: Pin, q: Pin) {
    p.output == q.output && p.role == q.role && p.room == q.room
  }

  /** Whatever presses do, only whether pins are on changes, and timers. */
  predicate OnlyPressed(s: State, r: State) {
    SameSettings(s, r) && forall t | t in s.pins :: SameLabels(s.pins[t], r.pins[t])
  }

  // ---------- a running timer means on ----------

  ghost predicate Sound(s: State) {
    forall t | t in s.timers && t in s.pins :: s.pins[t].on
  }

  lemma AllOffIsSound(s: State)
    requires Sound(s)
    ensures Sound(AllOff(s)) && OnlyPressed(s, AllOff(s))
  {
  }

  lemma ActorIsSound(s: State, t: Target, mode: Mode)
    requires Sound(s) && t !in s.timers
    ensures Sound(Actor(s, t, mode)) && OnlyPressed(s, Actor(s, t, mode)) && Actor(s, t, mode).timers == s.timers
    ensures t in s.pins ==> OutputOn(Actor(s, t, mode), t) == Switched(s.pins[t].on, mode)
  {
  }

  lemma StopIsSound(s: State, t: Target)
    requires Sound(s)
    ensures Sound(Stop(s, t)) && t !in Stop(s, t).timers
  {
  }

  lemma StartIsSound(s: State, t: Target, off: int)
    requires Sound(s) && (t in s.pins ==> s.pins[t].on)
    ensures Sound(Start(s, t, off))
  {
  }

  lemma TimedIsSound(s: State, sw: Switch, now: int)
    requires Sound(s)
    ensures Sound(Timed(s, sw, now)) && OnlyPressed(s, Timed(s, sw, now))
  {
    var t := sw.dst;
    StopIsSound(s, t);
    if !OutputOn(s, t) {
      ActorIsSound(Stop(s, t), t, On);
      StartIsSound(Actor(Stop(s, t), t, On), t, now + sw.secs);
    } else if sw.onPress == SwitchOff {
      ActorIsSound(Stop(s, t), t, Off);
    } else {
      StartIsSound(s, t, now + sw.secs);
    }
  }

  lemma PlainIsSound(s: State, t: Target)
    requires Sound(s)
    ensures var r := Stop(Actor(s, t, Toggle), t); Sound(r) && OnlyPressed(s, r)
  {
    StopIsSound(s, t);
    ActorIsSound(Stop(s, t), t, Toggle);
    assert Stop(Actor(s, t, Toggle), t) == Actor(Stop(s, t), t, Toggle);
  }

  lemma HandleIsSound(s: State, sw: Switch, src: Src, now: int)
    requires Sound(s)
    ensures Sound(Handle(s, sw, src, now)) && OnlyPressed(s, Handle(s, sw, src, now))
  {
    if Handle(s, sw, src, now) != s {
      if sw.dst == ALL_OFF {
        AllOffIsSound(s);
      } else if sw.secs > 0 {
        TimedIsSound(s, sw, now);
      } else {
        PlainIsSound(s, sw.dst);
      }
    }
  }

  lemma {:induction false} HandleAllIsSound(s: State, table: seq<Switch>, src: Src, now: int)
    requires Sound(s)
    ensures Sound(HandleAll(s, table, src, now)) && OnlyPressed(s, HandleAll(s, table, src, now))
    decreases |table|
  {
    if table != [] {
      var n := |table| - 1;
      HandleAllIsSound(s, table[..n], src, now);
      HandleIsSound(HandleAll(s, table[..n], src, now), table[n], src, now);
    }
  }

  lemma {:induction false} PressAllIsSound(s: State, srcs: seq<Src>, now: int)
    requires Sound(s)
    ensures Sound(PressAll(s, srcs, now)) && OnlyPressed(s, PressAll(s, srcs, now))
    decreases |srcs|
  {
    if srcs != [] {
      var n := |srcs| - 1;
      PressAllIsSound(s, srcs[..n], now);
      var w := PressAll(s, srcs[..n], now);
      HandleAllIsSound(w, w.switches, srcs[n], now);
    }
  }

  /** Over any run, a target whose timer runs is on. */
  lemma {:induction false} RunIsSound(s: State, es: seq<Event>)
    requires Sound(s)
    ensures Sound(ApplyAll(s, es))
    decreases |es|
  {
    if es != [] {
      var n := |es| - 1;
      RunIsSound(s, es[..n]);
      if es[n].Alarm? {
        PressAllIsSound(ApplyAll(s, es[..n]), es[n].srcs, es[n].now);
      }
    }
  }

  // ---------- what a press does to one target ----------

  /** A target as seen on its own. */
  datatype View = View(pin: Option<Pin>, off: Option<int>)

  function Of(s: State, t: Target): View {
    View(if t in s.pins then Some(s.pins[t]) else None, if t in s.timers then Some(s.timers[t]) else None)
  }

  /** A press of src gets to t by that line. */
  predicate Aims(s: State, sw: Switch, src: Src, t: Target) {
    Matches(sw, src) && (if sw.dst == ALL_OFF then IsLight(s, t) else sw.dst == t)
  }

  /** What a line that is not held back does to its own target. */
  function Line(v: View, sw: Switch, now: int): View {
    var on := v.pin.Some? && v.pin.value.on;
    if sw.secs == 0 then View(Turned(v.pin, !on), None)
    else if !on then View(Turned(v.pin, true), Some(now + sw.secs))
    else if sw.onPress == SwitchOff then View(Turned(v.pin, false), None)
    else if v.off.Some? then v.(off := Some(now + sw.secs))
    else v
  }

  function Turned(pin: Option<Pin>, on: bool): Option<Pin> {
    if pin.Some? then Some(pin.value.(on := on)) else None
  }

  function Darkened(v: View): View {
    if v.pin.Some? && v.pin.value.role == Light then View(Some(Dimmed(v.pin.value)), None) else v
  }

  lemma AllOffAt(s: State, t: Target)
    ensures Of(AllOff(s), t) == Darkened(Of(s, t))
  {
  }

  lemma TimedAt(s: State, sw: Switch, now: int, t: Target)
    requires sw.secs > 0
    ensures Of(Timed(s, sw, now), t) == if t == sw.dst then Line(Of(s, t), sw, now) else Of(s, t)
  {
  }

  lemma PlainAt(s: State, sw: Switch, now: int, t: Target)
    requires sw.secs == 0
    ensures Of(Stop(Actor(s, sw.dst, Toggle), sw.dst), t) == if t == sw.dst then Line(Of(s, t), sw, now) else Of(s, t)
  {
  }

  predicate HeldBack(s: State, sw: Switch) {
    !CondMet(s, sw) && !OutputOn(s, sw.dst)
  }

  /** Any line of the table and any target. */
  lemma HandleAt(s: State, sw: Switch, src: Src, now: int, t: Target)
    ensures Of(Handle(s, sw, src, now), t) ==
            if !Matches(sw, src) then Of(s, t)
            else if sw.dst == ALL_OFF then Darkened(Of(s, t))
            else if t != sw.dst || HeldBack(s, sw) then Of(s, t)
            else Line(Of(s, t), sw, now)
  {
    AllOffAt(s, t);
    if sw.secs > 0 {
      TimedAt(s, sw, now, t);
    } else {
      PlainAt(s, sw, now, t);
    }
  }

  lemma HandleElsewhere(s: State, sw: Switch, src: Src, now: int, t: Target)
    requires !Aims(s, sw, src, t)
    ensures Of(Handle(s, sw, src, now), t) == Of(s, t)
  {
    HandleAt(s, sw, src, now, t);
  }

  lemma {:induction false} HandleAllElsewhere(s: State, table: seq<Switch>, src: Src, now: int, t: Target)
    requires Sound(s) && forall k | 0 <= k < |table| :: !Aims(s, table[k], src, t)
    ensures Of(HandleAll(s, table, src, now), t) == Of(s, t)
    decreases |table|
  {
    if table != [] {
      var n := |table| - 1;
      HandleAllElsewhere(s, table[..n], src, now, t);
      HandleAllIsSound(s, table[..n], src, now);
      HandleElsewhere(HandleAll(s, table[..n], src, now), table[n], src, now, t);
    }
  }

  lemma HandleSameView(s: State, r: State, sw: Switch, src: Src, now: int, t: Target)
    requires OnlyPressed(s, r) && Of(s, t) == Of(r, t) && (sw.dst == t || sw.dst == ALL_OFF)
    ensures Of(Handle(s, sw, src, now), t) == Of(Handle(r, sw, src, now), t)
  {
    HandleAt(s, sw, src, now, t);
    HandleAt(r, sw, src, now, t);
  }

  /** Where a single line of the table aims at a target, a press does to it what that line says: no other
      line and no other target gets in between. */
  lemma PressIsLine(s: State, i: nat, src: Src, now: int, t: Target)
    requires Sound(s) && s.enabled && i < |s.switches| && Aims(s, s.switches[i], src, t)
    requires forall k | 0 <= k < |s.switches| && k != i :: !Aims(s, s.switches[k], src, t)
    ensures Of(Press(s, src, now), t) == Of(Handle(s, s.switches[i], src, now), t)
  {
    var table := s.switches;
    var before := HandleAll(s, table[..i], src, now);
    HandleAllElsewhere(s, table[..i], src, now, t);
    HandleAllIsSound(s, table[..i], src, now);
    HandleSameView(s, before, table[i], src, now, t);
    assert table[..i + 1][..i] == table[..i];
    LaterLines(s, i + 1, src, now, t);
    assert table[..|table|] == table;
  }

  lemma {:induction false} LaterLines(s: State, i: nat, src: Src, now: int, t: Target)
    requires Sound(s) && i <= |s.switches|
    requires forall k | i <= k < |s.switches| :: !Aims(s, s.switches[k], src, t)
    ensures Of(HandleAll(s, s.switches, src, now), t) == Of(HandleAll(s, s.switches[..i], src, now), t)
    decreases |s.switches| - i
  {
    var table := s.switches;
    if i == |table| {
      assert table[..i] == table;
    } else {
      var w := HandleAll(s, table[..i], src, now);
      HandleAllIsSound(s, table[..i], src, now);
      HandleElsewhere(w, table[i], src, now, t);
      assert table[..i + 1][..i] == table[..i];
      LaterLines(s, i + 1, src, now, t);
    }
  }

  // ---------- a press on one target, whatever the table ----------

  /** A line as t sees it. dark: what t goes by, the flag of its room or the astro flag. */
  function LineAt(v: View, sw: Switch, src: Src, dark: bool, now: int, t: Target): View {
    if !Matches(sw, src) then v
    else if sw.dst == ALL_OFF then Darkened(v)
    else if sw.dst != t || (sw.cond == Dark && !dark && !(v.pin.Some? && v.pin.value.on)) then v
    else Line(v, sw, now)
  }

  function LinesAt(v: View, table: seq<Switch>, src: Src, dark: bool, now: int, t: Target): View {
    if table == [] then v
    else LineAt(LinesAt(v, table[..|table| - 1], src, dark, now, t), table[|table| - 1], src, dark, now, t)
  }

  // ---------- all lights off ----------

  lemma {:induction false} OffStaysOff(s: State, table: seq<Switch>, src: Src, now: int, t: Target)
    requires Sound(s) && t in s.pins && !s.pins[t].on && t !in s.timers
    requires forall k | 0 <= k < |table| && Matches(table[k], src) :: table[k].dst != t
    ensures var r := HandleAll(s, table, src, now); t in r.pins && !r.pins[t].on && t !in r.timers
    decreases |table|
  {
    if table != [] {
      var n := |table| - 1;
      OffStaysOff(s, table[..n], src, now, t);
      HandleAllIsSound(s, table[..n], src, now);
      HandleAt(HandleAll(s, table[..n], src, now), table[n], src, now, t);
    }
  }

  /** A press that gets to an enabled line for 0.0.0 leaves every light that is an output off and without a timer,
      if no line behind it switches that light again. */
  lemma LightsGoOff(s: State, i: nat, src: Src, now: int, t: Target)
    requires Sound(s) && s.enabled && i < |s.switches|
    requires s.switches[i].src == src && !s.switches[i].disabled && s.switches[i].dst == Target(0, 0, 0)
    requires t in s.pins && s.pins[t].role == Light && s.pins[t].output
    requires forall k | i < k < |s.switches| && s.switches[k].src == src && !s.switches[k].disabled :: s.switches[k].dst != t
    ensures var r := Press(s, src, now); t in r.pins && !r.pins[t].on && t !in r.timers
  {
    var table := s.switches;
    HandleAllIsSound(s, table[..i], src, now);
    assert table[..i + 1][..i] == table[..i];
    var w := HandleAll(s, table[..i + 1], src, now);
    HandleAllIsSound(s, table[..i + 1], src, now);
    assert !w.pins[t].on && t !in w.timers;
    HandleAllFrom(s, i + 1, src, now);
    OffStaysOff(w, table[i + 1..], src, now, t);
  }

  /** A target keeps pin and timer over a press none of whose lines is for it, nor for all lights if it is one. */
  lemma OthersUntouched(s: State, src: Src, now: int, t: Target)
    requires Sound(s) && s.enabled
    requires forall k | 0 <= k < |s.switches| && s.switches[k].src == src && !s.switches[k].disabled ::
               s.switches[k].dst != t
               && (s.switches[k].dst == Target(0, 0, 0) ==> t !in s.pins || s.pins[t].role != Light)
    ensures var r := Press(s, src, now);
            && (t in r.pins <==> t in s.pins) && (t in s.pins ==> r.pins[t] == s.pins[t])
            && (t in r.timers <==> t in s.timers) && (t in s.timers ==> r.timers[t] == s.timers[t])
  {
    HandleAllElsewhere(s, s.switches, src, now, t);
    assert Of(Press(s, src, now), t) == Of(s, t);
  }

  /** Any press, any table, any target: what becomes of the target is decided by itself, its dark flag and the
      lines, one after the other; no other target has a say. */
  lemma PressAt(s: State, src: Src, now: int, t: Target)
    requires Sound(s) && s.enabled
    ensures Of(Press(s, src, now), t) == LinesAt(Of(s, t), s.switches, src, IsDark(s, DstRoom(s, t)), now, t)
  {
    HandleAllAt(s, s.switches, src, now, t);
  }

  lemma {:induction false} HandleAllAt(s: State, table: seq<Switch>, src: Src, now: int, t: Target)
    requires Sound(s)
    ensures Of(HandleAll(s, table, src, now), t) == LinesAt(Of(s, t), table, src, IsDark(s, DstRoom(s, t)), now, t)
    decreases |table|
  {
    if table != [] {
      var n := |table| - 1;
      var w := HandleAll(s, table[..n], src, now);
      HandleAllAt(s, table[..n], src, now, t);
      HandleAllIsSound(s, table[..n], src, now);
      assert DstRoom(w, t) == DstRoom(s, t);
      HandleAt(w, table[n], src, now, t);
    }
  }

  /** Target t behind a timed line, given the state s in which the press came to it. */
  ghost predicate IsTimed(s: State, sw: Switch, now: int, r: State) {
    var t := sw.dst;
    if !OutputOn(s, t) then
      if CondMet(s, sw) then OutputOn(r, t) && t in r.timers && r.timers[t] == now + sw.secs
      else !OutputOn(r, t) && t !in r.timers
    else if sw.onPress == SwitchOff then !OutputOn(r, t) && t !in r.timers
    else OutputOn(r, t) && (t in r.timers <==> t in s.timers) && (t in r.timers ==> r.timers[t] == now + sw.secs)
  }

  /** A timed line of any press, whatever lines are before and behind it. */
  lemma TimedPress(s: State, i: nat, src: Src, now: int)
    requires Sound(s) && s.enabled && i < |s.switches|
    requires var sw := s.switches[i]; sw.secs > 0 && sw.dst != ALL_OFF && sw.dst in s.pins && Matches(sw, src)
    ensures var w := HandleAll(s, s.switches[..i], src, now); var r := HandleAll(s, s.switches[..i + 1], src, now);
            && IsTimed(w, s.switches[i], now, r) && SameSettings(s, w)
            && Press(s, src, now) == HandleAll(r, s.switches[i + 1..], src, now)
  {
    var table := s.switches;
    HandleAllIsSound(s, table[..i], src, now);
    HandleAllFrom(s, i + 1, src, now);
    assert table[..i + 1][..i] == table[..i];
    HandleAt(HandleAll(s, table[..i], src, now), table[i], src, now, table[i].dst);
  }

  /** The whole press where no other line of the same source reaches the target. */
  lemma TimedPressAlone(s: State, i: nat, src: Src, now: int)
    requires Sound(s) && s.enabled && i < |s.switches|
    requires var sw := s.switches[i]; sw.secs > 0 && sw.dst != ALL_OFF && sw.dst in s.pins && Matches(sw, src)
    requires forall k | 0 <= k < |s.switches| && k != i :: !Aims(s, s.switches[k], src, s.switches[i].dst)
    ensures IsTimed(s, s.switches[i], now, Press(s, src, now))
  {
    var sw := s.switches[i];
    PressIsLine(s, i, src, now, sw.dst);
    HandleAt(s, sw, src, now, sw.dst);
  }

  // ---------- a plain press decides for good ----------

  lemma {:induction false} NoTimerStarts(s: State, table: seq<Switch>, src: Src, now: int, t: Target)
    requires t !in s.timers && forall k | 0 <= k < |table| && Matches(table[k], src) && table[k].dst == t :: table[k].secs == 0
    ensures t !in HandleAll(s, table, src, now).timers
    decreases |table|
  {
    if table != [] {
      NoTimerStarts(s, table[..|table| - 1], src, now, t);
      HandleAt(HandleAll(s, table[..|table| - 1], src, now), table[|table| - 1], src, now, t);
    }
  }

  /** After a press of a plain switch its target has no timer, even if the press was held back by the dark
      flag. */
  lemma PlainPressStops(s: State, i: nat, src: Src, now: int)
    requires Sound(s) && s.enabled && i < |s.switches|
    requires var sw := s.switches[i]; sw.secs == 0 && sw.dst != ALL_OFF && sw.dst in s.pins && Matches(sw, src)
    requires forall k | i < k < |s.switches| && Matches(s.switches[k], src) && s.switches[k].dst == s.switches[i].dst ::
               s.switches[k].secs == 0
    ensures s.switches[i].dst !in Press(s, src, now).timers
  {
    var table, t := s.switches, s.switches[i].dst;
    HandleAllIsSound(s, table[..i], src, now);
    assert table[..i + 1][..i] == table[..i];
    var w := HandleAll(s, table[..i + 1], src, now);
    assert t !in w.timers;
    HandleAllFrom(s, i + 1, src, now);
    NoTimerStarts(w, table[i + 1..], src, now, t);
  }

  lemma {:induction false} HandleAllJoin(s: State, a: seq<Switch>, b: seq<Switch>, src: Src, now: int)
    ensures HandleAll(s, a + b, src, now) == HandleAll(HandleAll(s, a, src, now), b, src, now)
    decreases |b|
  {
    if b == [] {
      assert a + b == a;
    } else {
      assert (a + b)[..|a + b| - 1] == a + b[..|b| - 1];
      HandleAllJoin(s, a, b[..|b| - 1], src, now);
    }
  }

  lemma HandleAllFrom(s: State, i: nat, src: Src, now: int)
    requires i <= |s.switches|
    ensures HandleAll(s, s.switches, src, now) == HandleAll(HandleAll(s, s.switches[..i], src, now), s.switches[i..], src, now)
  {
    assert s.switches == s.switches[..i] + s.switches[i..];
    HandleAllJoin(s, s.switches[..i], s.switches[i..], src, now);
  }

  // ---------- when a plain press always decides ----------

  predicate SamePair(a: Switch, b: Switch) {
    a.src == b.src && a.dst == b.dst
  }

  /** The same table but for which of its lines are disabled. */
  ghost predicate SameLines(a: seq<Switch>, b: seq<Switch>) {
    |a| == |b| && forall k | 0 <= k < |a| :: a[k] == b[k].(disabled := a[k].disabled)
  }

  /** No timed line stands behind a plain one of the same source and target. */
  ghost predicate PlainLast(table: seq<Switch>) {
    forall i, j | 0 <= i < j < |table| && SamePair(table[i], table[j]) && table[i].dst != ALL_OFF ::
      table[i].secs == 0 ==> table[j].secs == 0
  }

  /** src gets to the plain line i. */
  ghost predicate IsPlainPress(s: State, i: int, src: Src) {
    Sound(s) && s.enabled && 0 <= i < |s.switches| &&
    var sw := s.switches[i]; sw.secs == 0 && sw.dst != ALL_OFF && sw.dst in s.pins && Matches(sw, src)
  }

  ghost predicate PlainStops(s: State, i: int, src: Src, now: int) {
    IsPlainPress(s, i, src) ==> s.switches[i].dst !in Press(s, src, now).timers
  }

  /** Whichever of a table's lines are disabled, and in every state: a plain press leaves its target without a
      timer, if and only if no timed line of the same source and target stands behind a plain one. */
  lemma PlainAlwaysStops(table: seq<Switch>)
    ensures (forall s: State, i, src, now :: SameLines(s.switches, table) ==> PlainStops(s, i, src, now)) <==> PlainLast(table)
  {
    if PlainLast(table) {
      forall s: State, i, src, now | SameLines(s.switches, table)
        ensures PlainStops(s, i, src, now)
      {
        if IsPlainPress(s, i, src) {
          assert forall k | i < k < |s.switches| && SamePair(s.switches[i], s.switches[k]) :: SamePair(table[i], table[k]);
          PlainPressStops(s, i, src, now);
        }
      }
    } else {
      var i, j :| 0 <= i < j < |table| && SamePair(table[i], table[j]) && table[i].dst != ALL_OFF
                  && table[i].secs == 0 && table[j].secs != 0;
      var s := OnlyEnabled(table, i, j);
      PlainThenTimed(s, i, j, 0);
      assert !PlainStops(s, i, table[i].src, 0);
    }
  }

  /** Lines i and j are enabled, i's target is on. */
  function OnlyEnabled(table: seq<Switch>, i: nat, j: nat): (s: State)
    requires i < |table| && j < |table|
    ensures SameLines(s.switches, table) && forall k | 0 <= k < |table| :: s.switches[k].disabled <==> k != i && k != j
  {
    State(map[table[i].dst := Pin(true, true, Other, "")], map[],
          seq(|table|, k requires 0 <= k < |table| => table[k].(disabled := k != i && k != j)), true, true, map[])
  }

  /** The line in between switches the target off, the one behind on again, with a timer. */
  lemma PlainThenTimed(s: State, i: nat, j: nat, now: int)
    requires Sound(s) && s.enabled && s.dark && s.roomDark == map[] && i < j < |s.switches|
    requires forall k | 0 <= k < |s.switches| :: s.switches[k].disabled <==> k != i && k != j
    requires SamePair(s.switches[i], s.switches[j]) && s.switches[i].dst != ALL_OFF
    requires s.switches[i].secs == 0 < s.switches[j].secs && OutputOn(s, s.switches[i].dst)
    ensures var t, r := s.switches[i].dst, Press(s, s.switches[i].src, now);
            OutputOn(r, t) && t in r.timers && r.timers[t] == now + s.switches[j].secs
  {
    var table, src, t := s.switches, s.switches[i].src, s.switches[i].dst;
    PressAt(s, src, now, t);
    DisabledSkipped(Of(s, t), table, src, true, now, t, 0, i);
    var v := LinesAt(Of(s, t), table[..i + 1], src, true, now, t);
    assert table[..i + 1][..i] == table[..i];
    DisabledSkipped(Of(s, t), table, src, true, now, t, i + 1, j);
    assert table[..j + 1][..j] == table[..j];
    DisabledSkipped(Of(s, t), table, src, true, now, t, j + 1, |table|);
    assert table[..|table|] == table;
  }

  lemma {:induction false} DisabledSkipped(v: View, table: seq<Switch>, src: Src, dark: bool, now: int, t: Target, a: nat, b: nat)
    requires a <= b <= |table| && forall k | a <= k < b :: table[k].disabled
    ensures LinesAt(v, table[..b], src, dark, now, t) == LinesAt(v, table[..a], src, dark, now, t)
    decreases b
  {
    if a < b {
      assert table[..b][..b - 1] == table[..b - 1];
      DisabledSkipped(v, table, src, dark, now, t, a, b - 1);
    }
  }

  /** A short such table, as the configuration file may hold it: the press that is to switch a light off
      leaves it on, to go off in half a minute. */
  lemma PlainPressLeavesTimer(src: Src, t: Target, now: int)
    requires t != ALL_OFF
    ensures var plain, timed := Switch(src, t, 0, Retrigger, Always, false), Switch(src, t, 30, Retrigger, Always, false);
            var s := State(map[t := Pin(true, true, Light, "")], map[], [plain, timed], true, true, map[]);
            Sound(s) && OutputOn(Press(s, src, now), t) && t in Press(s, src, now).timers
  {
    var plain, timed := Switch(src, t, 0, Retrigger, Always, false), Switch(src, t, 30, Retrigger, Always, false);
    PlainThenTimed(State(map[t := Pin(true, true, Light, "")], map[], [plain, timed], true, true, map[]), 0, 1, now);
  }

  /** A line written to /switches/add, del, disable or enable; the pair is what the line says. */
  datatype Edit = Add(sw: Switch) | Del(pair: Switch) | Mask(pair: Switch, disable: bool)

  function Edited(table: seq<Switch>, e: Edit): (r: seq<Switch>) {
    match e
    case Add(sw) => Added(table, sw)
    case Del(pair) => Without(table, pair)
    case Mask(pair, disable) =>
      seq(|table|, k requires 0 <= k < |table| => if SamePair(table[k], pair) then table[k].(disabled := disable) else table[k])
  }

  /** The first line of the pair set anew, or one more line. */
  function Added(table: seq<Switch>, sw: Switch): seq<Switch> {
    if table == [] then [sw.(disabled := false)]
    else if SamePair(table[0], sw) then [sw.(disabled := table[0].disabled)] + table[1..]
    else [table[0]] + Added(table[1..], sw)
  }

  function Without(table: seq<Switch>, pair: Switch): seq<Switch> {
    if table == [] then []
    else (if SamePair(table[0], pair) then [] else [table[0]]) + Without(table[1..], pair)
  }

  function EditedAll(table: seq<Switch>, es: seq<Edit>): seq<Switch> {
    if es == [] then table else Edited(EditedAll(table, es[..|es| - 1]), es[|es| - 1])
  }

  ghost predicate HasPair(table: seq<Switch>, pair: Switch) {
    exists k :: 0 <= k < |table| && SamePair(table[k], pair)
  }

  ghost predicate NoPairTwice(table: seq<Switch>) {
    forall i, j | 0 <= i < j < |table| :: !SamePair(table[i], table[j])
  }

  lemma {:induction false} AddedPairs(table: seq<Switch>, sw: Switch)
    requires NoPairTwice(table)
    ensures NoPairTwice(Added(table, sw))
    ensures forall p :: HasPair(Added(table, sw), p) <==> HasPair(table, p) || SamePair(sw, p)
  {
    if table != [] {
      TailPairs(table);
      if SamePair(table[0], sw) {
        TailPairs([sw.(disabled := table[0].disabled)] + table[1..]);
      } else {
        AddedPairs(table[1..], sw);
        TailPairs([table[0]] + Added(table[1..], sw));
      }
    } else {
      assert SamePair(Added(table, sw)[0], sw);
    }
  }

  /** Pairs of the head and of the rest. */
  lemma TailPairs(table: seq<Switch>)
    requires table != []
    ensures forall p :: HasPair(table, p) <==> SamePair(table[0], p) || HasPair(table[1..], p)
    ensures NoPairTwice(table) <==> NoPairTwice(table[1..]) && !HasPair(table[1..], table[0])
  {
    forall p
      ensures HasPair(table, p) <==> SamePair(table[0], p) || HasPair(table[1..], p)
    {
      if HasPair(table[1..], p) {
        var k :| 0 <= k < |table[1..]| && SamePair(table[1..][k], p);
        assert SamePair(table[k + 1], p);
      }
      if HasPair(table, p) && !SamePair(table[0], p) {
        var k :| 0 <= k < |table| && SamePair(table[k], p);
        assert SamePair(table[1..][k - 1], p);
      }
    }
    if NoPairTwice(table[1..]) && !HasPair(table[1..], table[0]) {
      forall i, j | 0 <= i < j < |table|
        ensures !SamePair(table[i], table[j])
      {
        assert table[j] == table[1..][j - 1];
        if i > 0 {
          assert table[i] == table[1..][i - 1];
        }
      }
    }
  }

  lemma {:induction false} WithoutPairs(table: seq<Switch>, pair: Switch)
    requires NoPairTwice(table)
    ensures NoPairTwice(Without(table, pair))
    ensures forall p :: HasPair(Without(table, pair), p) ==> HasPair(table, p)
  {
    if table != [] {
      TailPairs(table);
      WithoutPairs(table[1..], pair);
      if !SamePair(table[0], pair) {
        TailPairs([table[0]] + Without(table[1..], pair));
      }
    }
  }

  /** A table that was only ever typed in holds no pair twice, so a plain press always decides. */
  lemma {:induction false} TypedInStops(es: seq<Edit>)
    ensures NoPairTwice(EditedAll([], es)) && PlainLast(EditedAll([], es))
    decreases |es|
  {
    if es != [] {
      var table := EditedAll([], es[..|es| - 1]);
      TypedInStops(es[..|es| - 1]);
      match es[|es| - 1]
      case Add(sw) => AddedPairs(table, sw);
      case Del(pair) => WithoutPairs(table, pair);
      case Mask(_, _) =>
    }
  }

  // ---------- a timed target goes off in time ----------

  /** e does not reach t, and its timer does not run out in it. */
  predicate LeavesAlone(s: State, e: Event, t: Target) {
    match e
    case Alarm(srcs, _) => forall j, k | 0 <= j < |srcs| && 0 <= k < |s.switches| :: !Aims(s, s.switches[k], srcs[j], t)
    case PollAt(now) => !Expired(s, t, now)
    case _ => true
  }

  lemma {:induction false} PressAllElsewhere(s: State, srcs: seq<Src>, now: int, t: Target)
    requires Sound(s) && LeavesAlone(s, Alarm(srcs, now), t)
    ensures Of(PressAll(s, srcs, now), t) == Of(s, t)
    decreases |srcs|
  {
    if srcs != [] {
      var n := |srcs| - 1;
      var w := PressAll(s, srcs[..n], now);
      PressAllElsewhere(s, srcs[..n], now, t);
      PressAllIsSound(s, srcs[..n], now);
      assert w.switches == s.switches;
      forall k | 0 <= k < |w.switches|
        ensures !Aims(w, w.switches[k], srcs[n], t)
      {
        assert !Aims(s, s.switches[k], srcs[n], t);
      }
      HandleAllElsewhere(w, w.switches, srcs[n], now, t);
    }
  }

  /** However the run goes on elsewhere, t keeps its timer and stays on. */
  lemma {:induction false} TimerHolds(s: State, es: seq<Event>, t: Target)
    requires Sound(s) && t in s.timers && t in s.pins
    requires forall i | 0 <= i < |es| :: LeavesAlone(ApplyAll(s, es[..i]), es[i], t)
    ensures var r := ApplyAll(s, es); t in r.timers && r.timers[t] == s.timers[t] && OutputOn(r, t) && Sound(r)
    decreases |es|
  {
    if es != [] {
      var n := |es| - 1;
      var w := ApplyAll(s, es[..n]);
      assert forall i | 0 <= i < n :: es[..n][..i] == es[..i];
      TimerHolds(s, es[..n], t);
      RunIsSound(s, es);
      if es[n].Alarm? {
        PressAllElsewhere(w, es[n].srcs, es[n].now, t);
      }
    }
  }

  /** Unless a press gets in between, a timed target goes off, its timer gone, at the first poll at or after
      its start and its seconds, and at none before. */
  lemma GoesOffInTime(s: State, es: seq<Event>, now: int, t: Target)
    requires Sound(s) && t in s.timers && t in s.pins
    requires forall i | 0 <= i < |es| :: LeavesAlone(ApplyAll(s, es[..i]), es[i], t)
    ensures var r := Poll(ApplyAll(s, es), now);
            && (OutputOn(r, t) <==> now < s.timers[t])
            && (t in r.timers <==> now < s.timers[t])
  {
    TimerHolds(s, es, t);
  }

  // ---------- where a timer comes from ----------

  /** A line that sets t's timer at now. */
  predicate Starts(sw: Switch, src: Src, t: Target, now: int, off: int) {
    Matches(sw, src) && sw.dst == t && sw.secs > 0 && off == now + sw.secs
  }

  predicate HasTimer(s: State, t: Target, off: int) {
    t in s.timers && s.timers[t] == off
  }

  lemma {:induction false} LineStarts(s: State, table: seq<Switch>, src: Src, now: int, t: Target, off: int) returns (i: nat)
    requires HasTimer(HandleAll(s, table, src, now), t, off) && !HasTimer(s, t, off)
    ensures i < |table| && Starts(table[i], src, t, now, off)
    decreases |table|
  {
    var n := |table| - 1;
    var w := HandleAll(s, table[..n], src, now);
    HandleAt(w, table[n], src, now, t);
    if HasTimer(w, t, off) {
      i := LineStarts(s, table[..n], src, now, t, off);
    } else {
      i := n;
    }
  }

  lemma {:induction false} PressStarts(s: State, srcs: seq<Src>, now: int, t: Target, off: int) returns (j: nat, i: nat)
    requires Sound(s) && HasTimer(PressAll(s, srcs, now), t, off) && !HasTimer(s, t, off)
    ensures j < |srcs| && i < |s.switches| && Starts(s.switches[i], srcs[j], t, now, off)
    decreases |srcs|
  {
    var n := |srcs| - 1;
    var w := PressAll(s, srcs[..n], now);
    PressAllIsSound(s, srcs[..n], now);
    if HasTimer(w, t, off) {
      j, i := PressStarts(s, srcs[..n], now, t, off);
    } else {
      j := n;
      i := LineStarts(w, w.switches, srcs[n], now, t, off);
    }
  }

  /** Every running timer was set by a press of an enabled timed switch of its target, to that press plus its
      seconds, and was not changed since. */
  lemma {:induction false} TimerStarted(s: State, es: seq<Event>, t: Target) returns (m: nat, j: nat, i: nat)
    requires s.timers == map[] && t in ApplyAll(s, es).timers
    ensures m < |es| && es[m].Alarm? && j < |es[m].srcs|
    ensures var w := ApplyAll(s, es[..m]); var off := ApplyAll(s, es).timers[t];
            && i < |w.switches| && Starts(w.switches[i], es[m].srcs[j], t, es[m].now, off)
            && forall k | m < k <= |es| :: HasTimer(ApplyAll(s, es[..k]), t, off)
    decreases |es|
  {
    var n := |es| - 1;
    var w, off := ApplyAll(s, es[..n]), ApplyAll(s, es).timers[t];
    assert es[..|es|] == es;
    if HasTimer(w, t, off) {
      m, j, i := TimerStarted(s, es[..n], t);
      assert es[..n][..m] == es[..m];
      forall k | m < k <= |es|
        ensures HasTimer(ApplyAll(s, es[..k]), t, off)
      {
        if k <= n {
          assert es[..n][..k] == es[..k];
        }
      }
    } else {
      m := n;
      RunIsSound(s, es[..n]);
      j, i := PressStarts(w, es[n].srcs, es[n].now, t, off);
    }
  }

  // ---------- nothing goes on by day ----------

  /** The flag of a target's own room decides, if it has one, else the astro flag; either way round. */
  lemma FlagDecides(s: State, sw: Switch)
    requires sw.dst in s.pins && sw.dst != Target(0, 0, 0)
    ensures var room := s.pins[sw.dst].room; var own := room != "" && room in s.roomDark;
            && (sw.cond == Always ==> CondMet(s, sw))
            && (sw.cond == Dark && own ==> (CondMet(s, sw) <==> s.roomDark[room]))
            && (sw.cond == Dark && !own ==> (CondMet(s, sw) <==> s.dark))
  {
  }

  /** Day at t: by the flag of its room, or the astro flag for want of one. */
  predicate IsDay(s: State, t: Target) {
    if t in s.pins && s.pins[t].room != "" && s.pins[t].room in s.roomDark then !s.roomDark[s.pins[t].room] else !s.dark
  }

  /** Every line by which these presses get to t waits for the dark, and it is day there. */
  predicate WaitsForDark(s: State, srcs: seq<Src>, t: Target) {
    t != Target(0, 0, 0) && IsDay(s, t) &&
    forall j, k | 0 <= j < |srcs| && 0 <= k < |s.switches| && Matches(s.switches[k], srcs[j]) && s.switches[k].dst == t ::
      s.switches[k].cond == Dark
  }

  lemma {:induction false} StaysOffByDay(s: State, table: seq<Switch>, src: Src, now: int, t: Target)
    requires Sound(s) && t in s.pins && !s.pins[t].on
    requires forall k | 0 <= k < |table| && Matches(table[k], src) && table[k].dst == t :: !CondMet(s, table[k])
    ensures !OutputOn(HandleAll(s, table, src, now), t)
    decreases |table|
  {
    if table != [] {
      var n := |table| - 1;
      HandleAllIsSound(s, table[..n], src, now);
      StaysOffByDay(s, table[..n], src, now, t);
      HandleAt(HandleAll(s, table[..n], src, now), table[n], src, now, t);
    }
  }

  /** A target that is off stays off over a whole alarm. */
  lemma {:induction false} NeverOnByDay(s: State, srcs: seq<Src>, now: int, t: Target)
    requires Sound(s) && t in s.pins && !s.pins[t].on && WaitsForDark(s, srcs, t)
    ensures !OutputOn(PressAll(s, srcs, now), t)
    decreases |srcs|
  {
    if srcs != [] {
      var n := |srcs| - 1;
      var w := PressAll(s, srcs[..n], now);
      NeverOnByDay(s, srcs[..n], now, t);
      PressAllIsSound(s, srcs[..n], now);
      forall k | 0 <= k < |w.switches| && Matches(w.switches[k], srcs[n]) && w.switches[k].dst == t
        ensures !CondMet(w, w.switches[k])
      {
        assert !CondMet(s, s.switches[k]);
      }
      StaysOffByDay(w, w.switches, srcs[n], now, t);
    }
  }
}
