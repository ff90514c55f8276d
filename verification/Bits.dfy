/** Single bits of a byte: the masks `1 << k` that ds2482.cpp uses all over. */
module Bits {

  /** 1 << k */
  function Mask(k: nat): bv8
    requires k < 8
  {
    if k == 0 then 0x01 else if k == 1 then 0x02 else if k == 2 then 0x04 else if k == 3 then 0x08
    else if k == 4 then 0x10 else if k == 5 then 0x20 else if k == 6 then 0x40 else 0x80
  }

  predicate Bit(b: bv8, k: nat)
    requires k < 8
  {
    b & Mask(k) != 0
  }

  /** 2 to the k */
  function Pow2(k: nat): (p: nat)
    ensures p > 0
  {
    if k == 0 then 1 else 2 * Pow2(k - 1)
  }

  /** Binary digit k of n. */
  predicate Digit(n: nat, k: nat) {
    n / Pow2(k) % 2 == 1
  }

  /** Bit k counts 2^k. */
  lemma {:induction false} BitIsDigit(b: bv8, k: nat)
    requires k < 8
    ensures Bit(b, k) == Digit(b as int, k)
  {
    if k == 0 {
      LowBit(b);
      LowDigit(b as int);
    } else {
      Halved(b);
      BitMoves(b, k);
      BitIsDigit(b >> 1, k - 1);
      DigitMoves(b as int, k);
    }
  }

  lemma LowDigit(n: nat)
    ensures Digit(n, 0) == (n % 2 == 1)
  {
    assert n / 1 == n;
  }

  lemma DigitMoves(n: nat, k: nat)
    requires k > 0
    ensures Digit(n, k) == Digit(n / 2, k - 1)
  {
    DivTwice(n, Pow2(k - 1));
  }

  lemma LowBit(b: bv8)
    ensures Bit(b, 0) == (b as int % 2 == 1)
  {
  }

  lemma Halved(b: bv8)
    ensures (b >> 1) as int == b as int / 2
  {
  }

  lemma BitMoves(b: bv8, k: nat)
    requires 0 < k < 8
    ensures Bit(b, k) == Bit(b >> 1, k - 1)
  {
  }

  lemma DivTwice(n: nat, p: nat)
    requires p > 0
    ensures n / 2 / p == n / (2 * p)
  {
    var q, r := n / 2 / p, n / 2 % p;
    assert n == 2 * (q * p + r) + n % 2 == q * (2 * p) + (2 * r + n % 2);
    Quotient(n, 2 * p, q, 2 * r + n % 2);
  }

  lemma Quotient(n: nat, d: nat, q: nat, r: nat)
    requires r < d && n == q * d + r
    ensures n / d == q
  {
    var e := n / d - q;
    assert n == (n / d) * d + n % d;
    assert e * d == (n / d) * d - q * d == r - n % d;
    assert e >= 1 ==> e * d >= d;
    assert e <= -1 ==> e * d + d <= 0;
  }

  lemma SetBit(b: bv8, k: nat, j: nat)
    requires k < 8 && j < 8
    ensures Bit(b | Mask(k), j) == (j == k || Bit(b, j))
  {
  }

  lemma ClearBit(b: bv8, k: nat, j: nat)
    requires k < 8 && j < 8
    ensures Bit(b & !Mask(k), j) == (j != k && Bit(b, j))
  {
  }
}
