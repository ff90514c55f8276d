/** The 1-Wire ROM search of src/ds2482.cpp (USE_I2C build): the binary-tree discrepancy search
    of Maxim Application Note 187, one "1-Wire Triplet" command per bit. */
module RomSearch {
  import opened Bits
  import opened Wrappers

  const ROM_BITS := 64

  /** A ROM in the order its bits travel over the wire: bit 0 of byte 0 first. */
  type Rom = r: seq<bool> | |r| == ROM_BITS witness seq(ROM_BITS, _ => false)

  function RomOf(bytes: seq<bv8>): Rom
    requires |bytes| == 8
  {
    seq(ROM_BITS, (k: nat) requires k < ROM_BITS => Bit(bytes[k / 8], k % 8))
  }

  // ---------- the order the search follows ----------

  ghost predicate Agree(a: Rom, b: Rom, k: nat)
    requires k <= ROM_BITS
  {
    forall j | 0 <= j < k :: a[j] == b[j]
  }

  /** a and b part at bit k. */
  ghost predicate PartAt(a: Rom, b: Rom, k: int)
  {
    0 <= k < ROM_BITS && Agree(a, b, k) && a[k] != b[k]
  }

  /** Lexicographic: b has the 1 where they part. */
  ghost predicate Less(a: Rom, b: Rom)
  {
    exists k :: PartAt(a, b, k) && b[k]
  }

  lemma {:induction false} AgreeOrPart(a: Rom, b: Rom, k: nat)
    requires k <= ROM_BITS
    ensures Agree(a, b, k) || exists j :: 0 <= j < k && PartAt(a, b, j)
  {
    if k > 0 {
      AgreeOrPart(a, b, k - 1);
      if Agree(a, b, k - 1) && a[k - 1] != b[k - 1] {
        assert PartAt(a, b, k - 1);
      }
    }
  }

  lemma PartingBit(a: Rom, b: Rom) returns (k: int)
    requires a != b
    ensures PartAt(a, b, k)
  {
    AgreeOrPart(a, b, ROM_BITS);
    assert Agree(a, b, ROM_BITS) ==> a == b;
    k :| PartAt(a, b, k);
  }

  lemma LessIrreflexive(a: Rom, b: Rom)
    requires Less(a, b)
    ensures a != b && !Less(b, a)
  {
    var i :| PartAt(a, b, i) && b[i];
    assert forall j | PartAt(b, a, j) :: !(i < j) && !(j < i);
  }

  // ---------- the bus ----------

  /** The devices on the selected channel and the part of them still taking part in a search. */
  class OneWireBus {
    var devices: set<Rom>
    var alarming: set<Rom>
    var active: set<Rom>
    var pos: nat

    function Answering(all: bool): set<Rom>
      reads this
    {
      if all then devices else devices * alarming
    }

    constructor (devices: set<Rom>, alarming: set<Rom>)
      ensures this.devices == devices && this.alarming == alarming
    {
      this.devices, this.alarming, active, pos := devices, alarming, {}, 0;
    }

    /** Reset pulse and search command: OW_SEARCH_ROM or OW_COND_SEARC_ROM. */
    method StartSearch(all: bool)
      modifies this`active, this`pos
      ensures active == Answering(all) && pos == 0
    {
      active, pos := Answering(all), 0;
    }

    /** Two read slots, wired-AND of the bit and of its complement, and a write slot: the
        requested direction on a conflict, else the only one there is. Devices that have the
        other bit leave the search. */
    method Triplet(direction: bool) returns (id: bool, compId: bool, taken: bool)
      requires pos < ROM_BITS
      modifies this`active, this`pos
      ensures id == (forall s | s in old(active) :: s[old(pos)])
      ensures compId == (forall s | s in old(active) :: !s[old(pos)])
      ensures taken == if !id && !compId then direction else id
      ensures active == set s | s in old(active) && s[old(pos)] == taken
      ensures pos == old(pos) + 1
    {
      id := forall s | s in active :: s[pos];
      compId := forall s | s in active :: !s[pos];
      taken := if !id && !compId then direction else id;
      active := set s | s in active && s[pos] == taken;
      pos := pos + 1;
    }
  }

  // ---------- what one call does ----------

  /** What the driver keeps between two calls. */
  datatype SearchState = SearchState(address: Rom, lastDiscrepancy: nat, exhausted: bool)
  {
    /** The direction asked for at bit k. */
    predicate Requests(k: nat)
      requires k < ROM_BITS
    {
      if k + 1 < lastDiscrepancy then address[k] else k + 1 == lastDiscrepancy
    }

    ghost predicate Valid()
    {
      lastDiscrepancy <= ROM_BITS && (exhausted ==> lastDiscrepancy == 0)
    }

    /** r is where those requests lead: wherever a device leaves it, r went as asked. */
    ghost predicate LeadsTo(bus: set<Rom>, r: Rom)
    {
      r in bus && forall s, k | s in bus && PartAt(r, s, k) :: r[k] == Requests(k)
    }

    /** Whether the branch the next call turns into has a device. */
    ghost predicate BranchAlive(bus: set<Rom>)
      requires Valid()
    {
      lastDiscrepancy > 0 ==>
        exists s :: s in bus && Agree(s, address, lastDiscrepancy - 1) && s[lastDiscrepancy - 1]
    }

    /** The ROMs still to be listed: past the start of a search all of them, later those in a
        branch not yet turned into, up to the stored discrepancy. */
    ghost predicate Ahead(s: Rom)
      requires Valid()
    {
      !exhausted &&
      (lastDiscrepancy == 0 ||
       exists k :: 0 <= k < lastDiscrepancy && Agree(s, address, k) && s[k] && (k + 1 < lastDiscrepancy ==> !address[k]))
    }
  }

  /** d is the last position (counted from 1) where r has 0 and a device with the same prefix 1;
      0 when there is none. */
  ghost predicate IsLastZero(bus: set<Rom>, r: Rom, d: nat)
  {
    && d <= ROM_BITS
    && (d > 0 ==> !r[d - 1] && exists s :: s in bus && PartAt(r, s, d - 1))
    && (forall s, k | s in bus && PartAt(r, s, k) && !r[k] :: k < d)
  }

  /** A bus error strikes before triplet failAt; NO_ERROR: none does. 0: at the search command. */
  const NO_ERROR := ROM_BITS + 1

  /** One call of search() with the devices of `bus` answering. */
  ghost predicate Step(st: SearchState, bus: set<Rom>, failAt: nat, st': SearchState, found: Option<Rom>)
    requires st.Valid()
  {
    && st'.Valid()
    && (found.Some? <==> !st.exhausted && failAt >= NO_ERROR && bus != {})
    && (found.Some? ==>
          && st.LeadsTo(bus, found.value)
          && st'.address == found.value
          && IsLastZero(bus, found.value, st'.lastDiscrepancy)
          && st'.exhausted == (st'.lastDiscrepancy == 0))
    && (found.None? ==>
          && st'.lastDiscrepancy == st.lastDiscrepancy
          && st'.exhausted == st.exhausted
          && (st.BranchAlive(bus) && st.lastDiscrepancy > 0 ==> Agree(st'.address, st.address, st.lastDiscrepancy - 1)))
  }

  /** reset_search(): nothing listed yet. */
  ghost predicate IsStart(st: SearchState)
  {
    st.lastDiscrepancy == 0 && !st.exhausted && forall k | 0 <= k < ROM_BITS :: !st.address[k]
  }

  ghost predicate HasFamily(r: Rom, family: bv8)
  {
    forall k | 0 <= k < 8 :: r[k] == Digit(family as int, k)
  }

  /** target_search(): as if the ROM <family>.000... had been found, with the marker 64. */
  ghost predicate IsTarget(st: SearchState, family: bv8)
  {
    && st.lastDiscrepancy == 64 && !st.exhausted
    && HasFamily(st.address, family)
    && forall k | 8 <= k < ROM_BITS :: !st.address[k]
  }

  // ---------- the 64-step loop of a call ----------

  /** n bits into a call: the address holds the path taken, `active` the devices on it. */
  ghost predicate Descended(st: SearchState, bus: set<Rom>, n: nat, address: Rom, active: set<Rom>, lastZero: nat)
  {
    && n <= ROM_BITS
    && active == (set s | s in bus && Agree(s, address, n))
    && (n > 0 ==> active != {})
    && (forall k | n <= k < ROM_BITS :: address[k] == st.address[k])
    && WentAsAsked(st, bus, n, address)
    && LastZeroUpTo(bus, n, address, lastZero)
  }

  ghost predicate WentAsAsked(st: SearchState, bus: set<Rom>, n: nat, address: Rom)
  {
    forall s, k | s in bus && k < n && PartAt(address, s, k) :: address[k] == st.Requests(k)
  }

  ghost predicate LastZeroUpTo(bus: set<Rom>, n: nat, address: Rom, lastZero: nat)
  {
    && (lastZero > 0 ==> lastZero <= n <= ROM_BITS && !address[lastZero - 1]
                         && exists s :: s in bus && PartAt(address, s, lastZero - 1))
    && (forall s, k | s in bus && k < n && PartAt(address, s, k) && !address[k] :: k < lastZero)
  }

  lemma DescendStep(st: SearchState, bus: set<Rom>, n: nat, address: Rom, active: set<Rom>, lastZero: nat,
                    taken: bool, address': Rom, active': set<Rom>, lastZero': nat)
    requires n < ROM_BITS && active != {}
    requires Descended(st, bus, n, address, active, lastZero)
    requires (exists s :: s in active && s[n] == taken)
    requires (exists s :: s in active && s[n] != taken) ==> taken == st.Requests(n)
    requires address' == address[n := taken]
    requires active' == set s | s in active && s[n] == taken
    requires lastZero' == if !taken && (exists s :: s in active && s[n]) then n + 1 else lastZero
    ensures Descended(st, bus, n + 1, address', active', lastZero')
  {
    forall s
      ensures Agree(s, address', n + 1) <==> Agree(s, address, n) && s[n] == taken
    {
      AgreeMore(s, address, n, taken);
    }
    AskedMore(st, bus, n, address, active, taken);
    ZeroMore(bus, n, address, active, lastZero, taken, lastZero');
    var onward :| onward in active && onward[n] == taken;
    assert onward in active';
  }

  /** Where a device leaves the path one bit longer: where it left it before, or at that bit. */
  lemma PartsMore(bus: set<Rom>, n: nat, address: Rom, active: set<Rom>, taken: bool)
    requires n < ROM_BITS && active == set s | s in bus && Agree(s, address, n)
    ensures forall s, k: nat | k < n :: PartAt(address[n := taken], s, k) <==> PartAt(address, s, k)
    ensures forall s | s in bus :: PartAt(address[n := taken], s, n) <==> s in active && s[n] != taken
  {
    var address' := address[n := taken];
    forall s, k: nat | k < n
      ensures PartAt(address', s, k) <==> PartAt(address, s, k)
    {
      SamePart(address, address', s, k);
    }
    forall s | s in bus
      ensures PartAt(address', s, n) <==> s in active && s[n] != taken
    {
      assert Agree(address', s, n) <==> Agree(s, address, n);
    }
  }

  lemma AskedMore(st: SearchState, bus: set<Rom>, n: nat, address: Rom, active: set<Rom>, taken: bool)
    requires n < ROM_BITS && active == (set s | s in bus && Agree(s, address, n)) && WentAsAsked(st, bus, n, address)
    requires (exists s :: s in active && s[n] != taken) ==> taken == st.Requests(n)
    ensures WentAsAsked(st, bus, n + 1, address[n := taken])
  {
    PartsMore(bus, n, address, active, taken);
    forall s, k | s in bus && k < n + 1 && PartAt(address[n := taken], s, k)
      ensures address[n := taken][k] == st.Requests(k)
    {
      assert k < n ==> PartAt(address, s, k);
    }
  }

  lemma ZeroMore(bus: set<Rom>, n: nat, address: Rom, active: set<Rom>, lastZero: nat, taken: bool, lastZero': nat)
    requires n < ROM_BITS && active == (set s | s in bus && Agree(s, address, n))
    requires LastZeroUpTo(bus, n, address, lastZero)
    requires lastZero' == if !taken && (exists s :: s in active && s[n]) then n + 1 else lastZero
    ensures LastZeroUpTo(bus, n + 1, address[n := taken], lastZero')
  {
    var address' := address[n := taken];
    PartsMore(bus, n, address, active, taken);
    forall s, k | s in bus && k < n + 1 && PartAt(address', s, k) && !address'[k]
      ensures k < lastZero'
    {
      assert k < n ==> PartAt(address, s, k);
    }
    if lastZero' == n + 1 {
      var s :| s in active && s[n];
      assert PartAt(address', s, n);
    } else if lastZero > 0 {
      var s :| s in bus && PartAt(address, s, lastZero - 1);
      assert PartAt(address', s, lastZero - 1);
    }
  }

  lemma AgreeMore(s: Rom, address: Rom, n: nat, taken: bool)
    requires n < ROM_BITS
    ensures Agree(s, address[n := taken], n + 1) <==> Agree(s, address, n) && s[n] == taken
  {
    var address' := address[n := taken];
    if Agree(s, address', n + 1) {
      forall j | 0 <= j < n
        ensures s[j] == address[j]
      {
        assert address'[j] == address[j];
      }
      assert s[n] == address'[n];
    }
  }

  lemma SamePart(a: Rom, b: Rom, s: Rom, k: nat)
    requires k < ROM_BITS && forall j | 0 <= j <= k :: a[j] == b[j]
    ensures PartAt(a, s, k) <==> PartAt(b, s, k)
  {
    assert Agree(a, s, k) <==> Agree(b, s, k);
  }

  /** Breaking a call off leaves the path to the branch as it was. */
  lemma PathKept(st: SearchState, bus: set<Rom>, n: nat, address: Rom, active: set<Rom>, lastZero: nat)
    requires st.Valid() && Descended(st, bus, n, address, active, lastZero)
    requires st.BranchAlive(bus) && st.lastDiscrepancy > 0
    ensures Agree(address, st.address, st.lastDiscrepancy - 1)
  {
    var s :| s in bus && Agree(s, st.address, st.lastDiscrepancy - 1) && s[st.lastDiscrepancy - 1];
    var m := if n < st.lastDiscrepancy - 1 then n else st.lastDiscrepancy - 1;
    AgreeOrPart(address, s, m);
    assert forall j | 0 <= j < m :: !PartAt(address, s, j);
  }

  lemma RomIsDigits(bytes: seq<bv8>)
    requires |bytes| == 8
    ensures forall k | 0 <= k < ROM_BITS :: RomOf(bytes)[k] == Digit(bytes[k / 8] as int, k % 8)
  {
    forall k | 0 <= k < ROM_BITS
      ensures RomOf(bytes)[k] == Digit(bytes[k / 8] as int, k % 8)
    {
      BitIsDigit(bytes[k / 8], k % 8);
    }
  }

  lemma OneLeft(bus: set<Rom>, address: Rom)
    requires address in bus
    ensures (set s | s in bus && Agree(s, address, ROM_BITS)) == {address}
  {
    assert forall s: Rom | Agree(s, address, ROM_BITS) :: s == address;
  }

  /** At the end of a call the address is a device's, and all of Step follows. */
  lemma DescentDone(st: SearchState, bus: set<Rom>, address: Rom, active: set<Rom>, lastZero: nat)
    requires Descended(st, bus, ROM_BITS, address, active, lastZero)
    ensures address in bus && st.LeadsTo(bus, address) && IsLastZero(bus, address, lastZero)
  {
    var s :| s in active;
    assert s == address;
  }

  lemma StoreBit(bytes: seq<bv8>, k: nat, v: bool, bytes': seq<bv8>)
    requires |bytes| == |bytes'| == 8 && k < ROM_BITS
    requires forall j | 0 <= j < 8 && j != k / 8 :: bytes'[j] == bytes[j]
    requires bytes'[k / 8] == if v then bytes[k / 8] | Mask(k % 8) else bytes[k / 8] & !Mask(k % 8)
    ensures RomOf(bytes') == RomOf(bytes)[k := v]
  {
    forall j | 0 <= j < ROM_BITS
      ensures Bit(bytes'[j / 8], j % 8) == if j == k then v else Bit(bytes[j / 8], j % 8)
    {
      if j / 8 == k / 8 {
        SetBit(bytes[k / 8], k % 8, j % 8);
        ClearBit(bytes[k / 8], k % 8, j % 8);
      }
    }
    assert RomOf(bytes') == RomOf(bytes)[k := v];
  }

  /** One triplet, as the driver sees and stores it. */
  lemma TripletStep(st: SearchState, bus: set<Rom>, n: nat, address: Rom, active: set<Rom>, lastZero: nat,
                    id: bool, compId: bool, taken: bool, active': set<Rom>, lastZero': nat)
    requires n < ROM_BITS
    requires Descended(st, bus, n, address, active, lastZero)
    requires id == (forall s | s in active :: s[n]) && compId == (forall s | s in active :: !s[n])
    requires !(id && compId)
    requires taken == if !id && !compId then st.Requests(n) else id
    requires active' == set s | s in active && s[n] == taken
    requires lastZero' == if !id && !compId && !taken then n + 1 else lastZero
    ensures Descended(st, bus, n + 1, address[n := taken], active', lastZero')
  {
    DescendStep(st, bus, n, address, active, lastZero, taken, address[n := taken], active', lastZero');
  }

  /** No device answers a triplet: there is none at all. */
  lemma NobodyThere(st: SearchState, bus: set<Rom>, n: nat, address: Rom, active: set<Rom>, lastZero: nat)
    requires n < ROM_BITS && Descended(st, bus, n, address, active, lastZero)
    requires (forall s | s in active :: s[n]) && (forall s | s in active :: !s[n])
    ensures bus == {} && n == 0
  {
    assert forall s :: s !in active;
    assert forall s | s in bus && n == 0 :: s in active;
  }

  // ---------- the driver ----------

  class Ds2482 {
    const searchAddress: array<bv8>
    var searchLastDiscrepancy: nat
    var searchLastFamilyDiscrepancy: nat
    var searchExhausted: bool
    var busError: bool

    ghost predicate Valid()
      reads this
    {
      searchAddress.Length == 8 && searchLastDiscrepancy <= ROM_BITS && (searchExhausted ==> searchLastDiscrepancy == 0)
    }

    ghost function State(): (st: SearchState)
      requires Valid()
      reads this, searchAddress
      ensures st.Valid()
    {
      SearchState(RomOf(searchAddress[..]), searchLastDiscrepancy, searchExhausted)
    }

    constructor ()
      ensures Valid() && fresh(searchAddress)
      ensures IsStart(State())
    {
      searchAddress := new bv8[8](_ => 0);
      searchLastDiscrepancy, searchLastFamilyDiscrepancy := 0, 0;
      searchExhausted, busError := false, false;
    }

    method ResetSearch()
      requires Valid()
      modifies this, searchAddress
      ensures Valid() && IsStart(State()) && !busError
      ensures forall k | 0 <= k < 8 :: searchAddress[k] == 0
    {
      searchExhausted := false;
      searchLastDiscrepancy := 0;
      busError := false;
      for i := 0 to 8
        modifies searchAddress
        invariant forall k | 0 <= k < i :: searchAddress[k] == 0
      {
        searchAddress[i] := 0;
      }
      assert forall k | 0 <= k < ROM_BITS :: RomOf(searchAddress[..])[k] == Bit(0, k % 8);
    }

    method TargetSearch(familyCode: bv8)
      requires Valid()
      modifies this, searchAddress
      ensures Valid() && IsTarget(State(), familyCode)
      ensures searchAddress[0] == familyCode && forall k | 0 < k < 8 :: searchAddress[k] == 0
    {
      ResetSearch();
      searchAddress[0] := familyCode;
      searchLastDiscrepancy := 64;
      searchLastFamilyDiscrepancy := 0;
      var bytes := searchAddress[..];
      assert forall k | 0 < k < 8 :: bytes[k] == 0;
      forall k | 0 <= k < ROM_BITS
        ensures RomOf(bytes)[k] == (k < 8 && Digit(familyCode as int, k))
      {
        if k < 8 {
          BitIsDigit(familyCode, k);
        }
        assert bytes[k / 8] == if k < 8 then familyCode else 0;
      }
    }

    /** Bit k as stored: searchAddress[romByte] & romBit. */
    method AddressBit(k: nat) returns (v: bool)
      requires Valid() && k < ROM_BITS
      ensures v == State().address[k]
    {
      var romByte := k / 8;
      var romBit := Mask(k % 8);
      v := searchAddress[romByte] & romBit != 0;
    }

    /** Stores the bit found, whatever was there. */
    method SetAddressBit(k: nat, v: bool)
      requires Valid() && k < ROM_BITS
      modifies searchAddress
      ensures RomOf(searchAddress[..]) == old(RomOf(searchAddress[..]))[k := v]
    {
      var romByte := k / 8;
      var romBit := Mask(k % 8);
      if v {
        searchAddress[romByte] := searchAddress[romByte] | romBit;
      } else {
        searchAddress[romByte] := searchAddress[romByte] & !romBit;
      }
      StoreBit(old(searchAddress[..]), k, v, searchAddress[..]);
    }

    /** As stored before the last discrepancy, the other way at it, 0 past it. */
    method AskFor(i: nat) returns (direction: bool)
      requires Valid() && 1 <= i <= 64
      ensures direction == State().Requests(i - 1)
    {
      if i < searchLastDiscrepancy {
        direction := AddressBit(i - 1);
      } else {
        direction := i == searchLastDiscrepancy;
      }
    }

    /** Triplet i (1..64) of a call: false when no device answers it. */
    method SearchBit(bus: OneWireBus, i: nat, lastZero: nat, ghost st: SearchState, ghost all: set<Rom>)
      returns (present: bool, lastZero': nat)
      requires Valid() && 1 <= i <= 64 && bus.pos == i - 1
      requires searchLastDiscrepancy == st.lastDiscrepancy
      requires Descended(st, all, i - 1, State().address, bus.active, lastZero)
      modifies this`searchLastFamilyDiscrepancy, searchAddress, bus`active, bus`pos
      ensures Valid() && bus.pos == i
      ensures present ==> Descended(st, all, i, State().address, bus.active, lastZero')
      ensures !present ==> all == {} && State() == old(State())
      ensures searchLastFamilyDiscrepancy == if present && lastZero' == i <= 8 then i else old(searchLastFamilyDiscrepancy)
    {
      ghost var address, active := State().address, bus.active;
      var direction := AskFor(i);
      lastZero' := lastZero;
      var id, compId, taken := bus.Triplet(direction);
      direction := taken;
      if id && compId {
        NobodyThere(st, all, i - 1, address, active, lastZero);
        return false, lastZero';
      }
      if !id && !compId && !direction {
        lastZero' := i;
        if lastZero' < 9 {
          searchLastFamilyDiscrepancy := lastZero';
        }
      }
      SetAddressBit(i - 1, direction);
      TripletStep(st, all, i - 1, address, active, lastZero, id, compId, direction, bus.active, lastZero');
      present := true;
    }

    /** rom: the one device still taking part at the end; its bits are those of the bytes, the lowest first. */
    method Search(bus: OneWireBus, searchMode: bool, failAt: nat) returns (ok: bool, newAddr: seq<bv8>, ghost rom: Rom)
      requires Valid()
      modifies this, searchAddress, bus`active, bus`pos
      ensures Valid() && |newAddr| == 8
      ensures Step(old(State()), old(bus.Answering(searchMode)), failAt, State(), if ok then Some(rom) else None)
      ensures ok ==> rom in old(bus.devices) && (searchMode || rom in old(bus.alarming)) && bus.active == {rom}
      ensures searchMode && old(bus.devices) != {} && !old(searchExhausted) && failAt >= NO_ERROR ==> ok
      ensures old(bus.devices) !! old(bus.alarming) && !searchMode ==> !ok
      ensures ok ==> forall k | 0 <= k < ROM_BITS :: rom[k] <==> newAddr[k / 8] as int / Pow2(k % 8) % 2 == 1
      ensures ok ==> newAddr == searchAddress[..]
      ensures !ok && !old(searchExhausted) && failAt >= NO_ERROR ==> !busError
    {
      newAddr := [0, 0, 0, 0, 0, 0, 0, 0];
      rom := State().address;
      ghost var st := State();
      ghost var all := bus.Answering(searchMode);
      if searchExhausted {
        return false, newAddr, rom;
      }
      busError := false;
      bus.StartSearch(searchMode);
      if failAt == 0 {
        busError := true;
        return false, newAddr, rom;
      }
      var lastZero := 0;
      var i := 1;
      while i < 65
        invariant 1 <= i <= 65 && failAt >= i
        invariant bus.pos == i - 1 && !busError
        invariant searchLastDiscrepancy == st.lastDiscrepancy && searchExhausted == st.exhausted
        invariant Descended(st, all, i - 1, State().address, bus.active, lastZero)
      {
        if failAt == i {
          busError := true;
          if st.BranchAlive(all) && st.lastDiscrepancy > 0 {
            PathKept(st, all, i - 1, State().address, bus.active, lastZero);
          }
          return false, newAddr, rom;
        }
        var present;
        present, lastZero := SearchBit(bus, i, lastZero, st, all);
        if !present {
          return false, newAddr, rom;
        }
        i := i + 1;
      }
      DescentDone(st, all, State().address, bus.active, lastZero);
      searchLastDiscrepancy := lastZero;
      if searchLastDiscrepancy == 0 {
        searchExhausted := true;
      }
      newAddr := searchAddress[..];
      rom := State().address;
      RomIsDigits(newAddr);
      OneLeft(all, rom);
      ok := true;
    }
  }
}
