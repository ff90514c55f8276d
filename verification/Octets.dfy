/** A register byte as its bits: bit k is the one of mask 1 << k. */
module Octets {

  type Octet = o: seq<bool> | |o| == 8 witness [false, false, false, false, false, false, false, false]

  function Or(a: Octet, b: Octet): Octet {
    seq(8, (k: nat) requires k < 8 => a[k] || b[k])
  }

  /** a & ~b */
  function AndNot(a: Octet, b: Octet): Octet {
    seq(8, (k: nat) requires k < 8 => a[k] && !b[k])
  }

  function Zero(): (o: Octet)
    ensures forall k | 0 <= k < 8 :: !o[k]
  {
    [false, false, false, false, false, false, false, false]
  }

  /** 0xff */
  function Ones(): (o: Octet)
    ensures forall k | 0 <= k < 8 :: o[k]
  {
    [true, true, true, true, true, true, true, true]
  }

  /** std::popcount() */
  function Count(s: seq<bool>): nat {
    if s == [] then 0 else Count(s[..|s| - 1]) + (if s[|s| - 1] then 1 else 0)
  }

  lemma {:induction false} CountDisjoint(a: seq<bool>, b: seq<bool>, both: seq<bool>)
    requires |a| == |b| == |both|
    requires forall i | 0 <= i < |a| :: both[i] == (a[i] || b[i]) && !(a[i] && b[i])
    ensures Count(both) == Count(a) + Count(b)
    decreases |a|
  {
    if a != [] {
      var n := |a| - 1;
      CountDisjoint(a[..n], b[..n], both[..n]);
    }
  }

  lemma {:induction false} CountNone(s: seq<bool>)
    ensures Count(s) == 0 <==> forall i | 0 <= i < |s| :: !s[i]
    decreases |s|
  {
    if s != [] {
      CountNone(s[..|s| - 1]);
      assert forall i | 0 <= i < |s| - 1 :: s[i] == s[..|s| - 1][i];
    }
  }
}
