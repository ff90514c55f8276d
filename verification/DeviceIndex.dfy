/** The sorted device array of src/ow_devices.cpp and what update_data() makes of the devices. */
module DeviceIndex {

  const MAX_DEVICES := 30
  const MAX_BUS := 4

  class OwDev {
    const romCode: nat
    const bus: nat

    constructor (romCode: nat, bus: nat)
      ensures this.romCode == romCode && this.bus == bus
    {
      this.romCode, this.bus := romCode, bus;
    }
  }

  datatype Slot = Slot(romCode: nat, dev: OwDev?)

  predicate Sorted(s: seq<Slot>) {
    forall i, j | 0 <= i < j < |s| :: s[i].romCode < s[j].romCode
  }

  predicate HoldsDevices(s: seq<Slot>) {
    forall i | 0 <= i < |s| :: s[i].dev != null && s[i].dev.romCode == s[i].romCode
  }

  // ---------- the map the array stands for ----------

  function ToMap(s: seq<Slot>): map<nat, OwDev?> {
    if s == [] then map[] else ToMap(s[..|s| - 1])[s[|s| - 1].romCode := s[|s| - 1].dev]
  }

  lemma {:induction false} MapsSlot(s: seq<Slot>, i: nat)
    requires Sorted(s) && i < |s|
    ensures s[i].romCode in ToMap(s) && ToMap(s)[s[i].romCode] == s[i].dev
    decreases |s|
  {
    if i < |s| - 1 {
      MapsSlot(s[..|s| - 1], i);
    }
  }

  lemma {:induction false} MappedBySlot(s: seq<Slot>, code: nat) returns (i: nat)
    requires code in ToMap(s)
    ensures i < |s| && s[i].romCode == code
    decreases |s|
  {
    if s[|s| - 1].romCode == code {
      i := |s| - 1;
    } else {
      i := MappedBySlot(s[..|s| - 1], code);
    }
  }

  lemma {:induction false} MapSize(s: seq<Slot>)
    requires Sorted(s)
    ensures |ToMap(s)| == |s|
    decreases |s|
  {
    if s != [] {
      var rest, last := s[..|s| - 1], s[|s| - 1];
      MapSize(rest);
      if last.romCode in ToMap(rest) {
        var i := MappedBySlot(rest, last.romCode);
        assert false;
      }
      assert ToMap(s).Keys == ToMap(rest).Keys + {last.romCode};
    }
  }

  /** Where code belongs. */
  ghost predicate IsLowerBound(s: seq<Slot>, code: nat, at: nat) {
    && at <= |s|
    && (forall i | 0 <= i < at :: s[i].romCode < code)
    && (forall i | at <= i < |s| :: code <= s[i].romCode)
  }

  lemma KnownAt(s: seq<Slot>, code: nat, at: nat)
    requires Sorted(s) && IsLowerBound(s, code, at)
    ensures code in ToMap(s) <==> at < |s| && s[at].romCode == code
    ensures code in ToMap(s) ==> ToMap(s)[code] == s[at].dev
  {
    if code in ToMap(s) {
      var i := MappedBySlot(s, code);
      assert at <= i;
    }
    if at < |s| {
      MapsSlot(s, at);
    }
  }

  lemma {:induction false} InsertedMap(s: seq<Slot>, at: nat, slot: Slot)
    requires at <= |s| && forall i | at <= i < |s| :: slot.romCode != s[i].romCode
    ensures ToMap(Inserted(s, at, slot)) == ToMap(s)[slot.romCode := slot.dev]
    decreases |s|
  {
    var t := Inserted(s, at, slot);
    var n := |s| - 1;
    if at == |s| {
      assert t[..|t| - 1] == s;
    } else {
      assert t[..|t| - 1] == Inserted(s[..n], at, slot);
      InsertedMap(s[..n], at, slot);
    }
  }

  function Inserted(s: seq<Slot>, at: nat, slot: Slot): seq<Slot>
    requires at <= |s|
  {
    s[..at] + [slot] + s[at..]
  }

  lemma Above(s: seq<Slot>, code: nat, at: nat)
    requires Sorted(s) && IsLowerBound(s, code, at) && (at < |s| ==> s[at].romCode != code)
    ensures forall i | at <= i < |s| :: code < s[i].romCode
  {
  }

  lemma SortedInserted(s: seq<Slot>, at: nat, slot: Slot)
    requires Sorted(s) && at <= |s| && HoldsDevices(s) && HoldsDevices([slot])
    requires forall i | 0 <= i < at :: s[i].romCode < slot.romCode
    requires forall i | at <= i < |s| :: slot.romCode < s[i].romCode
    ensures Sorted(Inserted(s, at, slot)) && HoldsDevices(Inserted(s, at, slot))
  {
    assert [slot][0] == slot;
  }

  // ---------- the devices kept ----------

  /** The devices taken over one after the other: of each code that is in the index the first. */
  datatype Taken = Taken(kept: seq<OwDev>, index: map<nat, OwDev?>)

  function Take(t: Taken, d: OwDev): Taken {
    if d.romCode in t.index then t
    else Taken(t.kept + [d], if |t.index| < MAX_DEVICES then t.index[d.romCode := d] else t.index)
  }

  function TakeAll(devs: seq<OwDev>): Taken {
    if devs == [] then Taken([], map[]) else Take(TakeAll(devs[..|devs| - 1]), devs[|devs| - 1])
  }

  function OnBus(devs: seq<OwDev>, bus: nat): seq<OwDev> {
    if devs == [] then []
    else OnBus(devs[..|devs| - 1], bus) + if devs[|devs| - 1].bus == bus then [devs[|devs| - 1]] else []
  }

  // ---------- the code ----------

  class OwDevices {
    const list: array<Slot>
    var count: nat
    var devices: seq<OwDev>
    var busses: seq<seq<OwDev>>

    ghost predicate Valid()
      reads this, list
    {
      && list.Length == MAX_DEVICES && count <= MAX_DEVICES
      && Sorted(list[..count]) && HoldsDevices(list[..count])
    }

    ghost function Index(): map<nat, OwDev?>
      requires Valid()
      reads this, list
    {
      ToMap(list[..count])
    }

    constructor ()
      ensures Valid() && fresh(list) && Index() == map[]
    {
      list := new Slot[MAX_DEVICES](_ => Slot(0, null));
      count, devices, busses := 0, [], [];
    }

    /** std::lower_bound() */
    method LowerBound(code: nat) returns (at: nat)
      requires Valid()
      ensures IsLowerBound(list[..count], code, at)
    {
      at := 0;
      var end := count;
      while at < end
        invariant at <= end <= count
        invariant forall i | 0 <= i < at :: list[i].romCode < code
        invariant forall i | end <= i < count :: code <= list[i].romCode
      {
        var mid := (at + end) / 2;
        assert forall i | 0 <= i < mid :: list[..count][i].romCode < list[..count][mid].romCode;
        assert forall i | mid < i < count :: list[..count][mid].romCode < list[..count][i].romCode;
        if list[mid].romCode < code {
          at := mid + 1;
        } else {
          end := mid;
        }
      }
    }

    method Find(code: nat) returns (dev: OwDev?)
      requires Valid()
      ensures if code in Index() then dev != null && dev == Index()[code] && dev.romCode == code else dev == null
    {
      var at := LowerBound(code);
      KnownAt(list[..count], code, at);
      if at < count && list[at].romCode == code {
        assert list[..count][at] == list[at];
        return list[at].dev;
      }
      dev := null;
    }

    /** Nothing happens when the code is there already or the array is full. */
    method AddDevice(dev: OwDev)
      requires Valid()
      modifies this`count, list
      ensures Valid()
      ensures Index() == if dev.romCode in old(Index()) || |old(Index())| >= MAX_DEVICES then old(Index())
                         else old(Index())[dev.romCode := dev]
    {
      var index := LowerBound(dev.romCode);
      KnownAt(list[..count], dev.romCode, index);
      MapSize(list[..count]);
      if index < count && list[index].romCode == dev.romCode {
        return;
      }
      if count >= MAX_DEVICES {
        return;
      }
      InsertDevice(index, dev);
    }

    method InsertDevice(index: nat, dev: OwDev)
      requires Valid() && count < MAX_DEVICES && IsLowerBound(list[..count], dev.romCode, index)
      requires index < count ==> list[index].romCode != dev.romCode
      modifies this`count, list
      ensures Valid() && Index() == old(Index())[dev.romCode := dev]
    {
      ghost var s, slot := list[..count], Slot(dev.romCode, dev);
      Above(s, dev.romCode, index);
      Insert(index, Slot(dev.romCode, dev));
      SortedInserted(s, index, slot);
      InsertedMap(s, index, slot);
    }

    /** move_backward(), then the slot. */
    method Insert(index: nat, slot: Slot)
      requires list.Length == MAX_DEVICES && index <= count < MAX_DEVICES
      modifies this`count, list
      ensures count == old(count) + 1
      ensures list[..count] == Inserted(old(list[..count]), index, slot)
    {
      ghost var s := list[..count];
      var k := count;
      while k > index
        modifies list
        invariant index <= k <= count
        invariant forall i | 0 <= i < k :: list[i] == s[i]
        invariant forall i | k < i <= count :: list[i] == s[i - 1]
      {
        list[k] := list[k - 1];
        k := k - 1;
      }
      list[index] := slot;
      count := count + 1;
    }

    /** One device taken over, unless its code is there. */
    method Place(dev: OwDev) returns (known: bool)
      requires Valid() && |busses| == MAX_BUS && dev.bus < MAX_BUS
      modifies this`count, this`busses, list
      ensures Valid() && known == (dev.romCode in old(Index()))
      ensures Index() == Take(Taken([], old(Index())), dev).index
      ensures busses == if known then old(busses) else old(busses)[dev.bus := old(busses)[dev.bus] + [dev]]
    {
      var found := Find(dev.romCode);
      known := found != null;
      if !known {
        busses := busses[dev.bus := busses[dev.bus] + [dev]];
        AddDevice(dev);
      }
    }

    /** t came of the first devices, left are those to come. */
    ghost predicate Progress(t: Taken, left: seq<OwDev>, i: nat)
      reads this, list
    {
      && Valid() && Index() == t.index && OnBusses(busses, t.kept)
      && devices == t.kept + left && i == |t.kept|
    }

    method UpdateData()
      requires Valid() && forall d | d in devices :: d.bus < 4
      modifies this, list
      ensures Valid() && devices == TakeAll(old(devices)).kept && Index() == TakeAll(old(devices)).index
      ensures |busses| == 4 && OnBusses(busses, devices)
    {
      busses := seq(MAX_BUS, _ => []);
      count := 0;
      ghost var t, left := Taken([], map[]), devices;
      SplitStart(devices);
      var i: nat := 0;
      while i < |devices|
        modifies this, list
        invariant Progress(t, left, i) && Split(old(devices), t, left)
        decreases |left|
      {
        TakeNext(old(devices), t, left);
        i := TakeOne(i, t, left);
        t, left := Take(t, left[0]), left[1..];
      }
      SplitEnd(old(devices), t, left);
    }

    method TakeOne(i: nat, ghost t: Taken, ghost left: seq<OwDev>) returns (next: nat)
      requires Progress(t, left, i) && left != [] && left[0].bus < MAX_BUS
      modifies this, list
      ensures Progress(Take(t, left[0]), left[1..], next)
    {
      Removed(t.kept, left);
      var dev := devices[i];
      BusNext(busses, t.kept, dev);
      var known := Place(dev);
      if known {
        devices := devices[..i] + devices[i + 1..];
        next := i;
      } else {
        next := i + 1;
      }
    }
  }

  predicate OnBusses(busses: seq<seq<OwDev>>, kept: seq<OwDev>) {
    |busses| == MAX_BUS && forall b | 0 <= b < MAX_BUS :: busses[b] == OnBus(kept, b)
  }

  /** t is what came of the devices before those left. */
  ghost predicate Split(devs: seq<OwDev>, t: Taken, left: seq<OwDev>) {
    |left| <= |devs| && left == devs[|devs| - |left|..] && t == TakeAll(devs[..|devs| - |left|])
  }

  lemma SplitStart(devs: seq<OwDev>)
    ensures Split(devs, Taken([], map[]), devs)
  {
    assert devs[|devs| - |devs|..] == devs;
  }

  lemma SplitEnd(devs: seq<OwDev>, t: Taken, left: seq<OwDev>)
    requires Split(devs, t, left) && left == []
    ensures t == TakeAll(devs) && t.kept + left == t.kept
  {
    assert devs[..|devs|] == devs;
  }

  lemma TakeNext(devs: seq<OwDev>, t: Taken, left: seq<OwDev>)
    requires Split(devs, t, left) && left != []
    ensures left[0] in devs && Split(devs, Take(t, left[0]), left[1..])
  {
    var n := |devs| - |left|;
    assert devs[..n + 1][..n] == devs[..n] && devs[n] == left[0];
  }

  lemma Removed(kept: seq<OwDev>, left: seq<OwDev>)
    requires left != []
    ensures var all := kept + left; var i := |kept|;
            all[i] == left[0] && all[..i] + all[i + 1..] == kept + left[1..] && all == kept + [left[0]] + left[1..]
  {
  }

  lemma BusNext(busses: seq<seq<OwDev>>, kept: seq<OwDev>, dev: OwDev)
    requires OnBusses(busses, kept) && dev.bus < MAX_BUS
    ensures OnBusses(busses[dev.bus := busses[dev.bus] + [dev]], kept + [dev])
  {
    assert (kept + [dev])[..|kept|] == kept;
  }

  // ---------- what is kept ----------

  function Codes(devs: seq<OwDev>): set<nat> {
    set d | d in devs :: d.romCode
  }

  /** The devices whose code no earlier one has. */
  function Firsts(devs: seq<OwDev>): seq<OwDev> {
    if devs == [] then []
    else
      var rest, last := devs[..|devs| - 1], devs[|devs| - 1];
      Firsts(rest) + if last.romCode in Codes(rest) then [] else [last]
  }

  lemma CodesSnoc(devs: seq<OwDev>, d: OwDev)
    ensures Codes(devs + [d]) == Codes(devs) + {d.romCode}
  {
  }

  lemma LastCode(devs: seq<OwDev>)
    requires devs != []
    ensures Codes(devs) == Codes(devs[..|devs| - 1]) + {devs[|devs| - 1].romCode}
  {
    assert devs == devs[..|devs| - 1] + [devs[|devs| - 1]];
    CodesSnoc(devs[..|devs| - 1], devs[|devs| - 1]);
  }

  lemma Smaller(a: set<nat>, b: set<nat>)
    requires a <= b
    ensures |a| <= |b| && (|a| == |b| ==> a == b)
  {
    assert b == a + (b - a);
  }

  /** The index never holds more than fits, and only codes there are; every code stays among the devices. */
  lemma {:induction false} TakenIsFit(devs: seq<OwDev>)
    ensures var t := TakeAll(devs); |t.index| <= MAX_DEVICES && t.index.Keys <= Codes(devs) == Codes(t.kept)
    ensures forall code | code in TakeAll(devs).index ::
              TakeAll(devs).index[code] != null && TakeAll(devs).index[code] in TakeAll(devs).kept
              && TakeAll(devs).index[code].romCode == code
    decreases |devs|
  {
    if devs != [] {
      var rest, last := devs[..|devs| - 1], devs[|devs| - 1];
      TakenIsFit(rest);
      LastCode(devs);
      var t := TakeAll(rest);
      CodesSnoc(t.kept, last);
      if last.romCode !in t.index && |t.index| < MAX_DEVICES {
        assert t.index[last.romCode := last].Keys == t.index.Keys + {last.romCode};
      }
    }
  }

  /** As long as the codes fit: the first device of each code is kept and indexed, the others are not. */
  lemma {:induction false} KeepsFirsts(devs: seq<OwDev>)
    requires |Codes(devs)| <= 30
    ensures TakeAll(devs).kept == Firsts(devs) && TakeAll(devs).index.Keys == Codes(devs)
    decreases |devs|
  {
    if devs != [] {
      var rest, last := devs[..|devs| - 1], devs[|devs| - 1];
      LastCode(devs);
      Smaller(Codes(rest), Codes(devs));
      KeepsFirsts(rest);
      var t := TakeAll(rest);
      assert |t.index| == |t.index.Keys|;
      if last.romCode !in t.index {
        assert |Codes(devs)| == |Codes(rest)| + 1;
        assert t.index[last.romCode := last].Keys == t.index.Keys + {last.romCode};
      }
    }
  }

  /** Every device kept can be found by its code exactly when the codes fit. */
  lemma AllFoundIfFits(devs: seq<OwDev>)
    ensures (forall d | d in TakeAll(devs).kept :: d.romCode in TakeAll(devs).index && TakeAll(devs).index[d.romCode] == d)
       <==> |Codes(devs)| <= 30
  {
    var t := TakeAll(devs);
    TakenIsFit(devs);
    if |Codes(devs)| <= 30 {
      KeepsFirsts(devs);
      FirstsDiffer(devs);
      forall d | d in t.kept
        ensures d.romCode in t.index && t.index[d.romCode] == d
      {
        assert d.romCode in Codes(t.kept);
      }
    } else if forall d | d in t.kept :: d.romCode in t.index {
      assert Codes(t.kept) <= t.index.Keys;
      Smaller(Codes(devs), t.index.Keys);
      assert false;
    }
  }

  lemma {:induction false} FirstsDiffer(devs: seq<OwDev>)
    ensures Codes(Firsts(devs)) <= Codes(devs)
    ensures forall d, e | d in Firsts(devs) && e in Firsts(devs) && d.romCode == e.romCode :: d == e
    ensures forall i, j | 0 <= i < j < |Firsts(devs)| :: Firsts(devs)[i] != Firsts(devs)[j]
    decreases |devs|
  {
    if devs != [] {
      var rest, last := devs[..|devs| - 1], devs[|devs| - 1];
      FirstsDiffer(rest);
      LastCode(devs);
      CodesSnoc(Firsts(rest), last);
      assert forall d | d in Firsts(rest) :: d.romCode in Codes(Firsts(rest));
    }
  }

  /** A first is before all others of its code. */
  lemma {:induction false} FirstIsFirst(devs: seq<OwDev>, d: OwDev) returns (i: nat)
    requires d in Firsts(devs)
    ensures i < |devs| && devs[i] == d && forall j | 0 <= j < i :: devs[j].romCode != d.romCode
    decreases |devs|
  {
    var rest, last := devs[..|devs| - 1], devs[|devs| - 1];
    if d in Firsts(rest) {
      i := FirstIsFirst(rest, d);
    } else {
      i := |devs| - 1;
      assert forall j | 0 <= j < i :: rest[j].romCode in Codes(rest);
    }
  }

  /** Each in the list of its own bus and in no other. */
  lemma {:induction false} OwnBusOnly(devs: seq<OwDev>, d: OwDev, bus: nat)
    ensures d in OnBus(devs, bus) <==> d in devs && d.bus == bus
    decreases |devs|
  {
    if devs != [] {
      var rest, last := devs[..|devs| - 1], devs[|devs| - 1];
      OwnBusOnly(rest, d, bus);
      assert devs == rest + [last];
    }
  }
}
