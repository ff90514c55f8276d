/** What a whole series of search() calls lists: every ROM once, in order, then nothing. */
module RomSearchRuns {
  import opened Bits
  import opened Wrappers
  import opened RomSearch

  // ---------- one call ----------

  /** A live branch is where the call ends up. */
  lemma EntersBranch(st: SearchState, bus: set<Rom>, r: Rom)
    requires st.Valid() && st.BranchAlive(bus) && st.lastDiscrepancy > 0 && st.LeadsTo(bus, r)
    ensures Agree(r, st.address, st.lastDiscrepancy - 1) && r[st.lastDiscrepancy - 1]
  {
    var d := st.lastDiscrepancy;
    var s :| s in bus && Agree(s, st.address, d - 1) && s[d - 1];
    AgreeOrPart(r, s, d);
    assert forall k | 0 <= k < d :: !PartAt(r, s, k);
    assert r[d - 1] == s[d - 1];
    assert forall j | 0 <= j < d - 1 :: r[j] == s[j];
  }

  /** A call returns the least of the ROMs still to be listed. */
  lemma FindsLeast(st: SearchState, bus: set<Rom>, failAt: nat, st': SearchState, r: Rom)
    requires st.Valid() && st.BranchAlive(bus) && Step(st, bus, failAt, st', Some(r))
    ensures r in bus && st.Ahead(r)
    ensures forall s | s in bus && st.Ahead(s) && s != r :: Less(r, s)
  {
    var d := st.lastDiscrepancy;
    if d > 0 {
      EntersBranch(st, bus, r);
    }
    forall s | s in bus && st.Ahead(s) && s != r
      ensures Less(r, s)
    {
      var k := PartingBit(r, s);
      if d > 0 {
        var j :| 0 <= j < d && Agree(s, st.address, j) && s[j] && (j + 1 < d ==> !st.address[j]);
        assert k >= j && k != d - 1;
        assert s[k];
      }
    }
  }

  /** Afterwards only ROMs greater than the one returned are to be listed, */
  lemma AheadMeansGreater(bus: set<Rom>, r: Rom, st': SearchState)
    requires st'.Valid() && st'.address == r && IsLastZero(bus, r, st'.lastDiscrepancy)
    requires st'.exhausted == (st'.lastDiscrepancy == 0)
    ensures forall s :: st'.Ahead(s) ==> Less(r, s)
  {
    var d := st'.lastDiscrepancy;
    forall s | st'.Ahead(s)
      ensures Less(r, s)
    {
      var k :| 0 <= k < d && Agree(s, r, k) && s[k] && (k + 1 < d ==> !r[k]);
      assert PartAt(r, s, k);
    }
  }

  /** and of the devices there all of those. */
  lemma GreaterMeansAhead(bus: set<Rom>, r: Rom, st': SearchState)
    requires st'.Valid() && st'.address == r && IsLastZero(bus, r, st'.lastDiscrepancy)
    requires st'.exhausted == (st'.lastDiscrepancy == 0)
    ensures forall s | s in bus && Less(r, s) :: st'.Ahead(s)
    ensures st'.BranchAlive(bus)
  {
    var d := st'.lastDiscrepancy;
    forall s | s in bus && Less(r, s)
      ensures st'.Ahead(s)
    {
      var k :| PartAt(r, s, k) && s[k];
      assert k < d && Agree(s, r, k);
    }
    if d > 0 {
      var s :| s in bus && PartAt(r, s, d - 1);
      assert Agree(s, r, d - 1);
    }
  }

  lemma AheadIsGreater(st: SearchState, bus: set<Rom>, failAt: nat, st': SearchState, r: Rom)
    requires st.Valid() && Step(st, bus, failAt, st', Some(r))
    ensures forall s :: st'.Ahead(s) ==> Less(r, s)
    ensures forall s | s in bus && Less(r, s) :: st'.Ahead(s)
    ensures st'.BranchAlive(bus)
  {
    AheadMeansGreater(bus, r, st');
    GreaterMeansAhead(bus, r, st');
  }

  /** A device to be listed is returned now or stays to be listed. */
  lemma ListedOrKept(st: SearchState, bus: set<Rom>, failAt: nat, st': SearchState, found: Option<Rom>, s: Rom)
    requires st.Valid() && st.BranchAlive(bus) && Step(st, bus, failAt, st', found)
    requires s in bus && st.Ahead(s)
    ensures found == Some(s) || st'.Ahead(s)
  {
    if found.Some? {
      FindsLeast(st, bus, failAt, st', found.value);
      AheadIsGreater(st, bus, failAt, st', found.value);
    } else {
      AheadShrinks(st, bus, failAt, st', None);
    }
  }

  lemma BranchKept(st: SearchState, bus: set<Rom>, failAt: nat, st': SearchState, found: Option<Rom>)
    requires st.Valid() && st.BranchAlive(bus) && Step(st, bus, failAt, st', found)
    ensures st'.BranchAlive(bus)
  {
    if found.Some? {
      AheadIsGreater(st, bus, failAt, st', found.value);
    } else {
      AheadShrinks(st, bus, failAt, st', None);
    }
  }

  /** Nothing comes back once it was passed. */
  lemma AheadShrinks(st: SearchState, bus: set<Rom>, failAt: nat, st': SearchState, found: Option<Rom>)
    requires st.Valid() && st.BranchAlive(bus) && Step(st, bus, failAt, st', found)
    ensures forall s :: st'.Ahead(s) ==> st.Ahead(s)
    ensures found.None? ==> forall s :: st'.Ahead(s) <==> st.Ahead(s)
    ensures found.None? ==> st'.BranchAlive(bus)
  {
    if found.None? {
      NothingFound(st, bus, failAt, st');
    } else {
      forall s | st'.Ahead(s)
        ensures st.Ahead(s)
      {
        AheadBefore(st, bus, failAt, st', found.value, s);
      }
    }
  }

  lemma NothingFound(st: SearchState, bus: set<Rom>, failAt: nat, st': SearchState)
    requires st.Valid() && st.BranchAlive(bus) && Step(st, bus, failAt, st', None)
    ensures forall s :: st'.Ahead(s) <==> st.Ahead(s)
    ensures st'.BranchAlive(bus)
  {
    forall s, k | 0 <= k < st.lastDiscrepancy
      ensures Agree(s, st'.address, k) <==> Agree(s, st.address, k)
    {
      assert Agree(st'.address, st.address, st.lastDiscrepancy - 1);
    }
  }

  lemma AheadBefore(st: SearchState, bus: set<Rom>, failAt: nat, st': SearchState, r: Rom, s: Rom)
    requires st.Valid() && st.BranchAlive(bus) && Step(st, bus, failAt, st', Some(r)) && st'.Ahead(s)
    ensures st.Ahead(s)
  {
    var d := st.lastDiscrepancy;
    if d > 0 {
      EntersBranch(st, bus, r);
      AheadIsGreater(st, bus, failAt, st', r);
      var k :| PartAt(r, s, k) && s[k];
      if k < d - 1 {
        assert Agree(s, st.address, k);
      } else {
        assert k != d - 1;
        assert Agree(s, st.address, d - 1) && s[d - 1];
      }
    }
  }

  // ---------- a series of calls ----------

  datatype Call = Call(bus: set<Rom>, failAt: nat)

  /** search() called once for every element of calls; between two calls devices may come, and go. */
  ghost predicate IsRun(states: seq<SearchState>, calls: seq<Call>, found: seq<Option<Rom>>)
  {
    && |states| == |calls| + 1 && |found| == |calls|
    && (forall i | 0 <= i < |states| :: states[i].Valid())
    && (forall i | 0 <= i < |calls| :: Step(states[i], calls[i].bus, calls[i].failAt, states[i + 1], found[i]))
    && (|calls| > 0 ==> states[0].BranchAlive(calls[0].bus))
  }

  /** Whatever was to be listed after call i is there for call i + 1. */
  ghost predicate StaysAfter(states: seq<SearchState>, calls: seq<Call>, i: nat)
    requires |states| == |calls| + 1 && i + 1 < |calls| && states[i + 1].Valid()
  {
    forall s | s in calls[i].bus && states[i + 1].Ahead(s) :: s in calls[i + 1].bus
  }

  /** No device leaves before it was returned; returned ones may (an alarm sweep), and new ones may come. */
  ghost predicate Steady(states: seq<SearchState>, calls: seq<Call>)
    requires |states| == |calls| + 1
    requires forall i | 0 <= i < |states| :: states[i].Valid()
  {
    forall i: nat | i + 1 < |calls| :: StaysAfter(states, calls, i)
  }

  lemma {:induction false} BranchStaysAlive(states: seq<SearchState>, calls: seq<Call>, found: seq<Option<Rom>>, i: nat)
    requires IsRun(states, calls, found) && Steady(states, calls) && i < |calls|
    ensures states[i].BranchAlive(calls[i].bus)
  {
    if i > 0 {
      BranchStaysAlive(states, calls, found, i - 1);
      var st, bus := states[i], calls[i - 1].bus;
      assert Step(states[i - 1], bus, calls[i - 1].failAt, st, found[i - 1]);
      BranchKept(states[i - 1], bus, calls[i - 1].failAt, st, found[i - 1]);
      assert StaysAfter(states, calls, i - 1);
      if st.lastDiscrepancy > 0 {
        var s :| s in bus && Agree(s, st.address, st.lastDiscrepancy - 1) && s[st.lastDiscrepancy - 1];
        assert st.Ahead(s);
      }
    }
  }

  lemma {:induction false} AheadOnlyShrinks(states: seq<SearchState>, calls: seq<Call>, found: seq<Option<Rom>>,
                                            i: nat, j: nat, s: Rom)
    requires IsRun(states, calls, found) && Steady(states, calls) && i <= j <= |calls|
    requires states[j].Ahead(s)
    ensures states[i].Ahead(s)
    decreases j - i
  {
    if i < j {
      BranchStaysAlive(states, calls, found, j - 1);
      assert Step(states[j - 1], calls[j - 1].bus, calls[j - 1].failAt, states[j], found[j - 1]);
      AheadShrinks(states[j - 1], calls[j - 1].bus, calls[j - 1].failAt, states[j], found[j - 1]);
      AheadOnlyShrinks(states, calls, found, i, j - 1, s);
    }
  }

  /** Results come in strictly increasing order, so none comes twice, whatever calls broke off between. */
  lemma ResultsIncrease(states: seq<SearchState>, calls: seq<Call>, found: seq<Option<Rom>>, i: nat, j: nat)
    requires IsRun(states, calls, found) && Steady(states, calls) && i < j < |calls|
    requires found[i].Some? && found[j].Some?
    ensures Less(found[i].value, found[j].value)
  {
    BranchStaysAlive(states, calls, found, j);
    assert Step(states[j], calls[j].bus, calls[j].failAt, states[j + 1], found[j]);
    FindsLeast(states[j], calls[j].bus, calls[j].failAt, states[j + 1], found[j].value);
    AheadOnlyShrinks(states, calls, found, i + 1, j, found[j].value);
    assert Step(states[i], calls[i].bus, calls[i].failAt, states[i + 1], found[i]);
    AheadIsGreater(states[i], calls[i].bus, calls[i].failAt, states[i + 1], found[i].value);
  }

  /** A device that is to be listed at call i is returned by call j at the latest, or still to be listed then. */
  lemma {:induction false} ListedOrAhead(states: seq<SearchState>, calls: seq<Call>, found: seq<Option<Rom>>,
                                         i: nat, j: nat, s: Rom)
    requires IsRun(states, calls, found) && Steady(states, calls) && i <= j <= |calls|
    requires i < |calls| && s in calls[i].bus && states[i].Ahead(s)
    ensures Some(s) in found[i..j] || (states[j].Ahead(s) && (j < |calls| ==> s in calls[j].bus))
    decreases j - i
  {
    if i < j {
      ListedOrAhead(states, calls, found, i, j - 1, s);
      assert found[i..j] == found[i..j - 1] + [found[j - 1]];
      if Some(s) !in found[i..j] {
        BranchStaysAlive(states, calls, found, j - 1);
        assert Step(states[j - 1], calls[j - 1].bus, calls[j - 1].failAt, states[j], found[j - 1]);
        ListedOrKept(states[j - 1], calls[j - 1].bus, calls[j - 1].failAt, states[j], found[j - 1], s);
        assert j < |calls| ==> StaysAfter(states, calls, j - 1);
      }
    }
  }

  /** From reset_search(): once the search is exhausted every device of the first call was returned,
      also when those returned before had left the bus by then. */
  lemma SweepIsComplete(states: seq<SearchState>, calls: seq<Call>, found: seq<Option<Rom>>, s: Rom)
    requires IsRun(states, calls, found) && Steady(states, calls) && |calls| > 0
    requires IsStart(states[0]) && states[|calls|].exhausted
    requires s in calls[0].bus
    ensures Some(s) in found
  {
    ListedOrAhead(states, calls, found, 0, |calls|, s);
    assert found[0..|calls|] == found;
  }

  // ---------- a fixed set of devices, no bus errors ----------

  ghost predicate Undisturbed(calls: seq<Call>, bus: set<Rom>)
  {
    forall i | 0 <= i < |calls| :: calls[i].bus == bus && calls[i].failAt >= NO_ERROR
  }

  ghost function Left(st: SearchState, bus: set<Rom>): set<Rom>
    requires st.Valid()
  {
    set s | s in bus && st.Ahead(s)
  }

  /** The search ends just when nothing is left. */
  lemma ExhaustedWhenNoneLeft(st: SearchState, bus: set<Rom>)
    requires st.Valid() && st.BranchAlive(bus) && bus != {}
    ensures st.exhausted <==> Left(st, bus) == {}
  {
    if !st.exhausted {
      var s;
      if st.lastDiscrepancy == 0 {
        s :| s in bus;
      } else {
        s :| s in bus && Agree(s, st.address, st.lastDiscrepancy - 1) && s[st.lastDiscrepancy - 1];
      }
      assert s in Left(st, bus);
    }
  }

  lemma LeftStep(st: SearchState, bus: set<Rom>, failAt: nat, st': SearchState, found: Option<Rom>)
    requires st.Valid() && st.BranchAlive(bus) && Step(st, bus, failAt, st', found)
    requires bus != {} && failAt >= NO_ERROR
    ensures found.Some? <==> Left(st, bus) != {}
    ensures found.Some? ==> found.value in Left(st, bus)
    ensures Left(st', bus) == if found.Some? then Left(st, bus) - {found.value} else {}
  {
    ExhaustedWhenNoneLeft(st, bus);
    AheadShrinks(st, bus, failAt, st', found);
    if found.Some? {
      var r := found.value;
      FindsLeast(st, bus, failAt, st', r);
      AheadIsGreater(st, bus, failAt, st', r);
      assert !Less(r, r);
      assert Left(st', bus) == Left(st, bus) - {r};
    }
  }

  lemma {:induction false} LeftCountsDown(states: seq<SearchState>, calls: seq<Call>, found: seq<Option<Rom>>,
                                          bus: set<Rom>, i: nat)
    requires IsRun(states, calls, found) && Undisturbed(calls, bus) && Steady(states, calls)
    requires bus != {} && i <= |calls|
    ensures var n := |Left(states[0], bus)|; |Left(states[i], bus)| == if i < n then n - i else 0
    ensures forall j | 0 <= j < i :: found[j].Some? <==> j < |Left(states[0], bus)|
  {
    if i > 0 {
      LeftCountsDown(states, calls, found, bus, i - 1);
      BranchStaysAlive(states, calls, found, i - 1);
      assert Step(states[i - 1], calls[i - 1].bus, calls[i - 1].failAt, states[i], found[i - 1]);
      LeftStep(states[i - 1], bus, calls[i - 1].failAt, states[i], found[i - 1]);
    }
  }

  /** Over a fixed bus the calls return exactly what was to be listed, each ROM once and in order;
      every call after the last ROM returns false. */
  lemma ListsExactly(states: seq<SearchState>, calls: seq<Call>, found: seq<Option<Rom>>, bus: set<Rom>)
    requires IsRun(states, calls, found) && Undisturbed(calls, bus)
    requires bus != {} && |calls| >= |Left(states[0], bus)|
    ensures forall j | 0 <= j < |calls| :: found[j].Some? <==> j < |Left(states[0], bus)|
    ensures forall i, j | 0 <= i < j < |calls| && found[j].Some? :: found[i].Some? && Less(found[i].value, found[j].value)
    ensures forall s :: Some(s) in found <==> s in Left(states[0], bus)
  {
    SteadyBus(states, calls, found, bus);
    LeftCountsDown(states, calls, found, bus, |calls|);
    forall i, j | 0 <= i < j < |calls| && found[j].Some?
      ensures Less(found[i].value, found[j].value)
    {
      ResultsIncrease(states, calls, found, i, j);
    }
    forall s | s in Left(states[0], bus)
      ensures Some(s) in found
    {
      ListedOrAhead(states, calls, found, 0, |calls|, s);
      assert found[0..|calls|] == found;
      assert Left(states[|calls|], bus) == {};
      assert s !in Left(states[|calls|], bus);
    }
    forall s | Some(s) in found
      ensures s in Left(states[0], bus)
    {
      var j :| 0 <= j < |found| && found[j] == Some(s);
      BranchStaysAlive(states, calls, found, j);
      assert Step(states[j], calls[j].bus, calls[j].failAt, states[j + 1], found[j]);
      FindsLeast(states[j], bus, calls[j].failAt, states[j + 1], s);
      AheadOnlyShrinks(states, calls, found, 0, j, s);
    }
  }

  lemma SteadyBus(states: seq<SearchState>, calls: seq<Call>, found: seq<Option<Rom>>, bus: set<Rom>)
    requires IsRun(states, calls, found) && Undisturbed(calls, bus)
    ensures Steady(states, calls)
  {
    forall i: nat | i + 1 < |calls|
      ensures StaysAfter(states, calls, i)
    {
      assert calls[i].bus == calls[i + 1].bus;
    }
  }

  /** From reset_search() that is every device on the bus. */
  lemma ResetSearchListsAll(states: seq<SearchState>, calls: seq<Call>, found: seq<Option<Rom>>, bus: set<Rom>)
    requires IsRun(states, calls, found) && Undisturbed(calls, bus)
    requires IsStart(states[0]) && |calls| > |bus|
    ensures forall s :: Some(s) in found <==> s in bus
    ensures forall i, j | 0 <= i < j < |bus| :: found[i].Some? && found[j].Some? && Less(found[i].value, found[j].value)
    ensures forall j | |bus| <= j < |calls| :: found[j].None?
  {
    if bus == {} {
      forall j | 0 <= j < |calls|
        ensures found[j].None?
      {
        assert Step(states[j], calls[j].bus, calls[j].failAt, states[j + 1], found[j]);
      }
    } else {
      assert Left(states[0], bus) == bus;
      ListsExactly(states, calls, found, bus);
    }
  }

  // ---------- target_search() ----------

  /** The 1-Wire twin of a ROM, other in the last bit only; a real ROM's CRC rules it out. */
  ghost predicate Twins(a: Rom, b: Rom)
  {
    PartAt(a, b, ROM_BITS - 1)
  }

  ghost predicate IsLeastOfFamily(bus: set<Rom>, family: bv8, m: Rom)
  {
    m in bus && HasFamily(m, family) && forall s | s in bus && HasFamily(s, family) && s != m :: Less(m, s)
  }

  lemma TargetKeepsFamily(st: SearchState, bus: set<Rom>, family: bv8, r: Rom)
    requires IsTarget(st, family) && st.LeadsTo(bus, r)
    requires exists s :: s in bus && HasFamily(s, family)
    ensures HasFamily(r, family)
    ensures forall s | s in bus && HasFamily(s, family) && s != r :: Less(r, s) || (Twins(r, s) && r[ROM_BITS - 1])
  {
    var f :| f in bus && HasFamily(f, family);
    AgreeOrPart(r, f, 8);
    assert forall k | 0 <= k < 8 :: !PartAt(r, f, k);
    forall s | s in bus && HasFamily(s, family) && s != r
      ensures Less(r, s) || (Twins(r, s) && r[ROM_BITS - 1])
    {
      var k := PartingBit(r, s);
      assert k >= 8;
      assert r[k] == st.Requests(k);
    }
  }

  /** With a device of the family on the bus the first result is the least ROM of the family if and
      only if no device differs from that ROM in the last bit alone. */
  lemma TargetFindsLeast(st: SearchState, bus: set<Rom>, failAt: nat, st': SearchState, r: Rom, family: bv8, m: Rom)
    requires st.Valid() && IsTarget(st, family) && Step(st, bus, failAt, st', Some(r))
    requires IsLeastOfFamily(bus, family, m)
    ensures r == m <==> !exists s :: s in bus && Twins(m, s)
  {
    TargetKeepsFamily(st, bus, family, r);
    if r != m {
      var k := PartingBit(r, m);
      LessIrreflexive(m, r);
      assert Twins(r, m);
      assert Twins(m, r) by {
        assert Agree(m, r, ROM_BITS - 1);
      }
    } else {
      assert st.Requests(ROM_BITS - 1);
      forall s | s in bus
        ensures !Twins(m, s)
      {
        assert Twins(m, s) ==> HasFamily(s, family);
      }
    }
  }

  /** The calls after it list exactly the greater ROMs, of whatever family, then return false. */
  lemma TargetThenGreater(st: SearchState, bus: set<Rom>, failAt: nat, r: Rom, family: bv8,
                          states: seq<SearchState>, calls: seq<Call>, found: seq<Option<Rom>>)
    requires st.Valid() && IsTarget(st, family) && |states| > 0 && Step(st, bus, failAt, states[0], Some(r))
    requires |states| == |calls| + 1 == |found| + 1
    requires forall i | 0 <= i < |states| :: states[i].Valid()
    requires forall i | 0 <= i < |calls| :: Step(states[i], calls[i].bus, calls[i].failAt, states[i + 1], found[i])
    requires Undisturbed(calls, bus) && |calls| > |bus|
    ensures forall s :: Some(s) in found <==> s in bus && Less(r, s)
    ensures forall i, j | 0 <= i < j < |calls| && found[j].Some? :: found[i].Some? && Less(found[i].value, found[j].value)
    ensures found[|calls| - 1].None?
  {
    AheadIsGreater(st, bus, failAt, states[0], r);
    var left := Left(states[0], bus);
    assert left == set s | s in bus && Less(r, s);
    SubsetCardinality(left, bus);
    ListsExactly(states, calls, found, bus);
  }

  lemma {:induction false} SubsetCardinality(a: set<Rom>, b: set<Rom>)
    requires a <= b
    ensures |a| <= |b|
  {
    if a != {} {
      var x :| x in a;
      SubsetCardinality(a - {x}, b - {x});
    }
  }

  /** Two ROMs alike up to the last bit: target_search() passes the smaller one by for good. */
  lemma TargetSkipsTwin(st: SearchState, failAt: nat, st': SearchState, found: Option<Rom>)
    requires st.Valid() && IsTarget(st, 0x29) && failAt >= NO_ERROR
    requires Step(st, {st.address, st.address[ROM_BITS - 1 := true]}, failAt, st', found)
    ensures found == Some(st.address[ROM_BITS - 1 := true])
    ensures st'.exhausted
  {
    var a, b: Rom := st.address, st.address[ROM_BITS - 1 := true];
    assert PartAt(a, b, ROM_BITS - 1) && PartAt(b, a, ROM_BITS - 1);
    assert forall k | PartAt(b, b, k) :: false;
    assert st.Requests(ROM_BITS - 1);
  }
}
