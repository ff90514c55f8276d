/** role_switch() of src/ow_devices.cpp: all outputs of a role, over every device of every bus. */
module Roles {
  import opened Ds2408
  import opened Octets

  ghost predicate Apart(devs: seq<Device>) {
    forall i, j | 0 <= i < j < |devs| :: devs[i] != devs[j] && devs[i].slave != devs[j].slave
  }

  /** was: the pins before, missing: the outputs of the role that are not as asked for once it was visited. */
  ghost predicate Tracked(d: Device, r: PinRole, on: bool, visited: bool, was: Octet, missing: Octet)
    reads d, d.slave
  {
    && d.Sized() && d.Valid()
    && (if visited then KeepsOthers(d, r, was) && d.Missing(r, on) == missing else d.Pins() == was)
  }

  /** Only outputs of that role went on or off. */
  ghost predicate KeepsOthers(d: Device, r: PinRole, was: Octet)
    requires d.Sized()
    reads d
  {
    forall i | 0 <= i < 8 && (r == NoRole || d.role[i] != r || !d.PinIsOutput(i)) :: d.Pins()[i] == was[i]
  }

  function Total(missing: seq<Octet>): nat {
    if missing == [] then 0 else Total(missing[..|missing| - 1]) + Count(missing[|missing| - 1])
  }

  /** The first |missing| devices were visited. */
  ghost predicate Visited(devs: seq<Device>, r: PinRole, on: bool, was: seq<Octet>, missing: seq<Octet>)
    reads devs, set d | d in devs :: d.slave
  {
    && |missing| <= |devs| == |was|
    && (forall j | 0 <= j < |missing| :: Tracked(devs[j], r, on, true, was[j], missing[j]))
    && (forall j | |missing| <= j < |devs| :: Tracked(devs[j], r, on, false, was[j], Zero()))
  }

  /** Returns how many outputs of the role are then still not as asked for, whichever writes failed; no other
      pin goes on or off. */
  method RoleSwitch(devs: seq<Device>, r: PinRole, on: bool, ghost was: seq<Octet>)
    returns (failed: nat, ghost missing: seq<Octet>)
    requires Apart(devs) && Visited(devs, r, on, was, [])
    modifies devs, set d | d in devs :: d.slave
    ensures |missing| == |devs| && Visited(devs, r, on, was, missing)
    ensures failed == if r == NoRole then 0 else Total(missing)
  {
    failed, missing := 0, [];
    for k := 0 to |devs|
      invariant |missing| == k && Visited(devs, r, on, was, missing)
      invariant failed == if r == NoRole then 0 else Total(missing)
    {
      var n;
      n, missing := SwitchNext(devs, k, r, on, was, missing);
      failed := failed + n;
    }
  }

  method SwitchNext(devs: seq<Device>, k: nat, r: PinRole, on: bool, ghost was: seq<Octet>, ghost missing: seq<Octet>)
    returns (failed: nat, ghost missing': seq<Octet>)
    requires Apart(devs) && |missing| == k < |devs| && Visited(devs, r, on, was, missing)
    modifies devs[k], devs[k].slave
    ensures |missing'| == k + 1 && Visited(devs, r, on, was, missing')
    ensures r == NoRole ==> failed == 0
    ensures r != NoRole ==> Total(missing') == Total(missing) + failed
  {
    assert forall j | 0 <= j < |devs| && j != k :: devs[j] != devs[k] && devs[j].slave != devs[k].slave;
    failed := SwitchOne(devs[k], r, on, was[k]);
    missing' := missing + [devs[k].Missing(r, on)];
  }

  method SwitchOne(d: Device, r: PinRole, on: bool, ghost was: Octet) returns (failed: nat)
    requires Tracked(d, r, on, false, was, Zero())
    modifies d, d.slave
    ensures d.Sized() && Tracked(d, r, on, true, was, d.Missing(r, on))
    ensures failed == if r == NoRole then 0 else Count(d.Missing(r, on))
  {
    failed := d.RoleSwitch(r, on);
  }
}
