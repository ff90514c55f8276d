/** Polynomials over GF(2), highest power first, and division by x^16 + x^15 + x^2 + 1. */
module Polynomials {

  const DEGREE := 16

  /** The powers 16, 15, 2 and 0 of the generator, by their distance from the highest. */
  predicate Generator(k: nat) {
    k == 0 || k == 1 || k == 14 || k == 16
  }

  /** A remainder: below x^16. */
  type Register = r: seq<bool> | |r| == DEGREE witness seq(DEGREE, _ => false)

  function Xor(a: seq<bool>, b: seq<bool>): (r: seq<bool>)
    requires |a| == |b|
    ensures |r| == |a|
  {
    seq(|a|, (k: nat) requires k < |a| => a[k] != b[k])
  }

  function Not(a: seq<bool>): (r: seq<bool>)
    ensures |r| == |a|
  {
    seq(|a|, (k: nat) requires k < |a| => !a[k])
  }

  function Zeros(n: nat): (r: seq<bool>)
    ensures |r| == n
  {
    seq(n, _ => false)
  }

  /** Whether an odd number of coefficients is 1. */
  predicate Odd(a: seq<bool>) {
    a != [] && a[0] != Odd(a[1..])
  }

  // ---------- long division ----------

  /** Takes the generator off the top of p while p has a power of 16 or more. */
  function Remainder(p: seq<bool>): (r: seq<bool>)
    requires |p| >= DEGREE
    ensures |r| == DEGREE
    decreases |p|
  {
    if |p| == DEGREE then p
    else Remainder(seq(|p| - 1, (k: nat) requires k < |p| - 1 => p[k + 1] != (p[0] && Generator(k + 1))))
  }

  /** message * x^16, with r added to its first 16 coefficients. */
  function Loaded(r: Register, message: seq<bool>): (p: seq<bool>)
    ensures |p| == |message| + DEGREE
  {
    seq(|message| + DEGREE, (k: nat) requires k < |message| + DEGREE =>
      (k < |message| && message[k]) != (k < DEGREE && r[k]))
  }

  // ---------- bit-serial division ----------

  /** One more message bit into the register. */
  function DivideStep(r: Register, bit: bool): Register {
    var out := r[0] != bit;
    seq(DEGREE, (k: nat) requires k < DEGREE => (k < DEGREE - 1 && r[k + 1]) != (out && Generator(k + 1)))
  }

  function Divide(r: Register, message: seq<bool>): Register
    decreases |message|
  {
    if message == [] then r else Divide(DivideStep(r, message[0]), message[1..])
  }

  /** The shift register computes the remainder of the long division. */
  lemma {:induction false} DivideIsRemainder(r: Register, message: seq<bool>)
    ensures Divide(r, message) == Remainder(Loaded(r, message))
    decreases |message|
  {
    if message == [] {
      assert Loaded(r, message) == r;
    } else {
      var p := Loaded(r, message);
      var q := seq(|p| - 1, (k: nat) requires k < |p| - 1 => p[k + 1] != (p[0] && Generator(k + 1)));
      assert q == Loaded(DivideStep(r, message[0]), message[1..]);
      DivideIsRemainder(DivideStep(r, message[0]), message[1..]);
    }
  }

  /** A message may be divided piece by piece. */
  lemma {:induction false} DivideAppend(r: Register, a: seq<bool>, b: seq<bool>)
    ensures Divide(r, a + b) == Divide(Divide(r, a), b)
    decreases |a|
  {
    if a == [] {
      assert a + b == b;
    } else {
      assert (a + b)[1..] == a[1..] + b;
      DivideAppend(DivideStep(r, a[0]), a[1..], b);
    }
  }

  /** Errors add up: the remainder of a sum is the sum of the remainders. */
  lemma {:induction false} DivideSum(r: Register, s: Register, a: seq<bool>, b: seq<bool>)
    requires |a| == |b|
    ensures Divide(Xor(r, s), Xor(a, b)) == Xor(Divide(r, a), Divide(s, b))
    decreases |a|
  {
    if a != [] {
      assert DivideStep(Xor(r, s), Xor(a, b)[0]) == Xor(DivideStep(r, a[0]), DivideStep(s, b[0]));
      assert Xor(a, b)[1..] == Xor(a[1..], b[1..]);
      DivideSum(DivideStep(r, a[0]), DivideStep(s, b[0]), a[1..], b[1..]);
    }
  }

  /** The last 16 bits may as well be in the register from the start. */
  lemma LoadLast(r: Register, m: Register)
    ensures Divide(r, m) == Divide(Xor(r, m), Zeros(DEGREE))
  {
    DivideIsRemainder(r, m);
    DivideIsRemainder(Xor(r, m), Zeros(DEGREE));
    assert Loaded(r, m) == Loaded(Xor(r, m), Zeros(DEGREE));
  }

  /** Shifting zeros in keeps zero zero and everything else from becoming it. */
  lemma {:induction false} ZerosKeepNonzero(r: Register, n: nat)
    ensures Divide(r, Zeros(n)) == Zeros(DEGREE) <==> r == Zeros(DEGREE)
    decreases n
  {
    if n > 0 {
      var z, s := Zeros(DEGREE), DivideStep(r, false);
      assert Zeros(n)[1..] == Zeros(n - 1);
      ZerosKeepNonzero(s, n - 1);
      if s == z {
        assert s[DEGREE - 1] == r[0];
        forall k | 0 < k < DEGREE
          ensures !r[k]
        {
          assert !s[k - 1];
        }
      }
    }
  }

  /** 16 bits leave the remainder zero just when they are what the register holds. */
  lemma AbsorbsItself(r: Register, m: Register)
    ensures Divide(r, m) == Zeros(DEGREE) <==> r == m
  {
    LoadLast(r, m);
    ZerosKeepNonzero(Xor(r, m), DEGREE);
    assert Xor(r, m) == Zeros(DEGREE) <==> r == m by {
      if Xor(r, m) == Zeros(DEGREE) {
        forall k | 0 <= k < DEGREE
          ensures r[k] == m[k]
        {
          assert !Xor(r, m)[k];
        }
      }
    }
  }

  // ---------- parity ----------

  lemma {:induction false} OddAppend(a: seq<bool>, b: seq<bool>)
    ensures Odd(a + b) == (Odd(a) != Odd(b))
  {
    if a == [] {
      assert a + b == b;
    } else {
      assert (a + b)[1..] == a[1..] + b;
      OddAppend(a[1..], b);
    }
  }

  lemma {:induction false} OddSum(a: seq<bool>, b: seq<bool>)
    requires |a| == |b|
    ensures Odd(Xor(a, b)) == (Odd(a) != Odd(b))
  {
    if a != [] {
      assert Xor(a, b)[1..] == Xor(a[1..], b[1..]);
      OddSum(a[1..], b[1..]);
    }
  }

  lemma {:induction false} OddZeros(n: nat)
    ensures !Odd(Zeros(n))
  {
    if n > 0 {
      assert Zeros(n)[1..] == Zeros(n - 1);
      OddZeros(n - 1);
    }
  }

  /** x + 1 divides the generator: the register's parity is that of what went in. */
  lemma StepParity(r: Register, bit: bool)
    ensures Odd(DivideStep(r, bit)) == (Odd(r) != bit)
  {
    var out := r[0] != bit;
    var taps := seq(DEGREE, (k: nat) requires k < DEGREE => out && Generator(k + 1));
    var shifted := r[1..] + [false];
    assert DivideStep(r, bit) == Xor(shifted, taps);
    OddSum(shifted, taps);
    OddAppend(r[1..], [false]);
    assert Odd([false]) == false;
    TapsParity(out, taps);
  }

  lemma TapsParity(out: bool, taps: seq<bool>)
    requires |taps| == DEGREE && forall k: nat | k < DEGREE :: taps[k] == (out && Generator(k + 1))
    ensures Odd(taps) == out
  {
    assert taps == [out] + Zeros(12) + [out, false, out];
    OddZeros(12);
    OddAppend([out], Zeros(12));
    OddAppend([out] + Zeros(12), [out, false, out]);
    assert [out, false, out][1..] == [false, out] && [false, out][1..] == [out] && [out][1..] == [];
  }

  lemma {:induction false} DivideParity(r: Register, message: seq<bool>)
    ensures Odd(Divide(r, message)) == (Odd(r) != Odd(message))
    decreases |message|
  {
    if message != [] {
      StepParity(r, message[0]);
      DivideParity(DivideStep(r, message[0]), message[1..]);
    }
  }

  // ---------- bursts ----------

  lemma ZerosFirst(n: nat, rest: seq<bool>)
    ensures Divide(Zeros(DEGREE), Zeros(n) + rest) == Divide(Zeros(DEGREE), rest)
  {
    ZerosKeepNonzero(Zeros(DEGREE), n);
    DivideAppend(Zeros(DEGREE), Zeros(n), rest);
  }

  /** Something other than zero within 16 bits is never a multiple of the generator. */
  lemma BurstLeavesRemainder(before: nat, burst: Register, after: nat)
    requires burst != Zeros(DEGREE)
    ensures Divide(Zeros(DEGREE), Zeros(before) + burst + Zeros(after)) != Zeros(DEGREE)
  {
    var z := Zeros(DEGREE);
    assert Zeros(before) + burst + Zeros(after) == Zeros(before) + (burst + Zeros(after));
    ZerosFirst(before, burst + Zeros(after));
    DivideAppend(z, burst, Zeros(after));
    AbsorbsItself(z, burst);
    ZerosKeepNonzero(Divide(z, burst), after);
  }
}
