/** crc16() and check_crc16() of src/ds2482.cpp: the parity-table form computes the remainder of a
    division by x^16 + x^15 + x^2 + 1. A machine word is modelled as its bits, lowest first, with
    the operators the code uses. */
module Crc16 {
  import opened Polynomials

  type Byte = b: seq<bool> | |b| == 8 witness seq(8, _ => false)
  type Word = w: seq<bool> | |w| == 16 witness seq(16, _ => false)

  function Join(low: seq<bool>, high: seq<bool>): seq<bool> {
    low + high
  }

  function And(a: Word, b: Word): Word {
    seq(16, (k: nat) requires k < 16 => a[k] && b[k])
  }

  function ShiftRight(a: Word, n: nat): Word {
    seq(16, (k: nat) requires k < 16 => k + n < 16 && a[k + n])
  }

  function ShiftLeft(a: Word, n: nat): Word {
    seq(16, (k: nat) requires k < 16 => k >= n && a[k - n])
  }

  function Widen(b: Byte): Word {
    Join(b, Zeros(8))
  }

  /** The words 0x000F, 0x00FF and 0xC001. */
  function Nibble(): Word {
    [true, true, true, true] + Zeros(12)
  }

  function LowByte(): Word {
    [true, true, true, true, true, true, true, true] + Zeros(8)
  }

  function FoldBits(): Word {
    [true] + Zeros(13) + [true, true]
  }

  /** The value of a word below 16. */
  function NibbleValue(a: Word): (n: nat)
    ensures n < 16
  {
    (if a[0] then 1 else 0) + (if a[1] then 2 else 0) + (if a[2] then 4 else 0) + (if a[3] then 8 else 0)
  }

  // ---------- the code ----------

  /** oddparity[] */
  const ODD_PARITY: seq<int> := [0, 1, 1, 0, 1, 0, 0, 1, 1, 0, 0, 1, 0, 1, 1, 0]

  method ComputeCrc16(input: seq<Byte>, len: nat, crc: Word) returns (r: Word)
    requires len <= |input| && len < 0x1_0000
    ensures r == Divide(crc, MessageBits(input[..len]))
  {
    r := crc;
    var i := 0;
    while i < len
      invariant 0 <= i <= len
      invariant r == Divide(crc, MessageBits(input[..i]))
    {
      ghost var before := r;
      r := PutByte(r, input[i]);
      ParityTrick(before, input[i]);
      assert input[..i + 1][..i] == input[..i];
      DivideAppend(crc, MessageBits(input[..i]), input[i]);
      i := i + 1;
    }
  }

  /** The loop's body. */
  method PutByte(crc: Word, b: Byte) returns (r: Word)
    ensures r == TableStep(crc, b)
  {
    r := crc;
    var cdata := Widen(b);
    cdata := And(Xor(cdata, r), LowByte());
    r := ShiftRight(r, 8);
    if ODD_PARITY[NibbleValue(And(cdata, Nibble()))] != ODD_PARITY[NibbleValue(ShiftRight(cdata, 4))] {
      r := Xor(r, FoldBits());
    }
    cdata := ShiftLeft(cdata, 6);
    r := Xor(r, cdata);
    cdata := ShiftLeft(cdata, 1);
    r := Xor(r, cdata);
  }

  /** Bytes as the bits they are on the wire. */
  function MessageBits(message: seq<Byte>): (s: seq<bool>)
    ensures |s| == 8 * |message|
  {
    if message == [] then [] else MessageBits(message[..|message| - 1]) + message[|message| - 1]
  }

  /** A message with the two bytes after it: the CRC inverted, low byte first. */
  predicate Accepted(message: seq<Byte>, inverted: seq<Byte>, seed: Word)
    requires |inverted| == 2
  {
    Join(inverted[0], inverted[1]) == Not(Divide(seed, MessageBits(message)))
  }

  method CheckCrc16(input: seq<Byte>, len: nat, invertedCrc: seq<Byte>, crc: Word) returns (ok: bool)
    requires len <= |input| && len < 0x1_0000 && |invertedCrc| >= 2
    ensures ok <==> Accepted(input[..len], invertedCrc[..2], crc)
  {
    var c := ComputeCrc16(input, len, crc);
    c := Not(c);
    ok := And(c, LowByte()) == Widen(invertedCrc[0]) && ShiftRight(c, 8) == Widen(invertedCrc[1]);
    SplitWord(c, invertedCrc[0], invertedCrc[1]);
  }

  /** Bit by bit: the first byte is the low half of the remainder, the second the high half, all inverted. */
  lemma AcceptedBits(message: seq<Byte>, inverted: seq<Byte>, seed: Word)
    requires |inverted| == 2
    ensures var c := Divide(seed, MessageBits(message));
            Accepted(message, inverted, seed) <==> forall k | 0 <= k < 8 :: inverted[0][k] != c[k] && inverted[1][k] != c[k + 8]
  {
    var c, lo, hi := Divide(seed, MessageBits(message)), inverted[0], inverted[1];
    var n, j := Not(c), Join(lo, hi);
    if j == n {
      forall k | 0 <= k < 8
        ensures lo[k] != c[k] && hi[k] != c[k + 8]
      {
        assert lo[k] == j[k] == n[k] && hi[k] == j[k + 8] == n[k + 8];
      }
    }
    if forall k | 0 <= k < 8 :: lo[k] != c[k] && hi[k] != c[k + 8] {
      forall k | 0 <= k < 16
        ensures j[k] == n[k]
      {
        assert if k < 8 then lo[k] != c[k] else hi[k - 8] != c[k - 8 + 8];
      }
    }
  }

  lemma SplitWord(c: Word, lo: Byte, hi: Byte)
    ensures And(c, LowByte()) == Widen(lo) && ShiftRight(c, 8) == Widen(hi) <==> Join(lo, hi) == c
  {
    if And(c, LowByte()) == Widen(lo) && ShiftRight(c, 8) == Widen(hi) {
      forall k | 0 <= k < 16
        ensures Join(lo, hi)[k] == c[k]
      {
        if k < 8 {
          assert And(c, LowByte())[k] == Widen(lo)[k];
        } else {
          assert ShiftRight(c, 8)[k - 8] == Widen(hi)[k - 8];
        }
      }
    }
    if Join(lo, hi) == c {
      assert And(c, LowByte()) == Widen(lo);
      assert ShiftRight(c, 8) == Widen(hi);
    }
  }

  // ---------- the parity trick ----------

  /** The loop's body as one expression. */
  function TableStep(r: Word, b: Byte): Word {
    var cdata := And(Xor(Widen(b), r), LowByte());
    var folded := if ODD_PARITY[NibbleValue(And(cdata, Nibble()))] != ODD_PARITY[NibbleValue(ShiftRight(cdata, 4))]
                  then Xor(ShiftRight(r, 8), FoldBits()) else ShiftRight(r, 8);
    Xor(Xor(folded, ShiftLeft(cdata, 6)), ShiftLeft(ShiftLeft(cdata, 6), 1))
  }

  /** o[k]: what leaves the register at step k, the parity of the index bits up to k. */
  ghost predicate AreOutBits(r: Word, b: Byte, o: seq<bool>) {
    |o| == 8 && forall k | 0 <= k < 8 :: IsOutBit(r, b, o, k)
  }

  ghost predicate IsOutBit(r: Word, b: Byte, o: seq<bool>, k: nat)
    requires k < |o| <= 8
  {
    o[k] == ((k > 0 && o[k - 1]) != (r[k] != b[k]))
  }

  ghost function OutBits(r: Word, b: Byte, n: nat): (o: seq<bool>)
    requires n <= 8
    ensures |o| == n && forall k | 0 <= k < n :: IsOutBit(r, b, o, k)
  {
    if n == 0 then [] else
      var o := OutBits(r, b, n - 1);
      var o' := o + [(n > 1 && o[n - 2]) != (r[n - 1] != b[n - 1])];
      assert forall k | 0 <= k < n - 1 :: IsOutBit(r, b, o, k) ==> IsOutBit(r, b, o', k);
      o'
  }

  /** Bit k of the register after n steps. */
  ghost predicate BitAfter(r: Word, o: seq<bool>, n: nat, k: nat)
    requires |o| == 8 && n <= 8 && k < 16
  {
    (k + n < 16 && r[k + n])
      != ((k == 0 && n > 0 && o[n - 1])
      != ((14 - n <= k <= 13 && o[k + n - 14])
      != (k >= 16 - n && o[k + n - 16])))
  }

  lemma {:induction false} StepsShape(r: Word, b: Byte, o: seq<bool>, n: nat)
    requires AreOutBits(r, b, o) && n <= 8
    ensures forall k | 0 <= k < 16 :: Divide(r, b[..n])[k] == BitAfter(r, o, n, k)
  {
    if n == 0 {
      assert b[..0] == [];
    } else {
      StepsShape(r, b, o, n - 1);
      var s := Divide(r, b[..n - 1]);
      assert b[..n] == b[..n - 1] + [b[n - 1]];
      DivideAppend(r, b[..n - 1], [b[n - 1]]);
      assert Divide(r, b[..n]) == DivideStep(s, b[n - 1]);
      assert s[0] == BitAfter(r, o, n - 1, 0) && IsOutBit(r, b, o, n - 1);
      assert (s[0] != b[n - 1]) == o[n - 1];
    }
  }

  lemma TableShape(r: Word, b: Byte, o: seq<bool>)
    requires AreOutBits(r, b, o)
    ensures forall k | 0 <= k < 16 :: TableStep(r, b)[k] == BitAfter(r, o, 8, k)
  {
    var d := And(Xor(Widen(b), r), LowByte());
    assert forall k | 0 <= k < 16 :: d[k] == (k < 8 && r[k] != b[k]);
    IndexParity(r, b, o, d);
    var p, t := o[7], TableStep(r, b);
    forall k | 0 <= k < 16
      ensures t[k] == BitAfter(r, o, 8, k)
    {
      TableBit(r, d, p, t, k);
      assert 6 <= k < 14 ==> IsOutBit(r, b, o, k - 6);
      assert 7 <= k < 15 ==> IsOutBit(r, b, o, k - 7);
    }
  }

  lemma TableBit(r: Word, d: Word, p: bool, t: Word, k: nat)
    requires k < 16 && forall j | 8 <= j < 16 :: !d[j]
    requires t == Xor(Xor(if p then Xor(ShiftRight(r, 8), FoldBits()) else ShiftRight(r, 8), ShiftLeft(d, 6)),
                      ShiftLeft(ShiftLeft(d, 6), 1))
    ensures t[k] == ((k < 8 && r[k + 8]) != ((p && (k == 0 || k >= 14)) != ((k >= 6 && d[k - 6]) != (k >= 7 && d[k - 7]))))
  {
    assert FoldBits()[k] == (k == 0 || k >= 14);
  }

  lemma IndexParity(r: Word, b: Byte, o: seq<bool>, d: Word)
    requires AreOutBits(r, b, o)
    requires forall k | 0 <= k < 16 :: d[k] == (k < 8 && r[k] != b[k])
    ensures ODD_PARITY[NibbleValue(And(d, Nibble()))] != ODD_PARITY[NibbleValue(ShiftRight(d, 4))] <==> o[7]
  {
    TableIsParity(And(d, Nibble()));
    TableIsParity(ShiftRight(d, 4));
    assert IsOutBit(r, b, o, 0) && IsOutBit(r, b, o, 1) && IsOutBit(r, b, o, 2) && IsOutBit(r, b, o, 3);
    assert o[3] == (d[0] != (d[1] != (d[2] != d[3])));
    assert IsOutBit(r, b, o, 4) && IsOutBit(r, b, o, 5) && IsOutBit(r, b, o, 6) && IsOutBit(r, b, o, 7);
    assert o[7] == (o[3] != (d[4] != (d[5] != (d[6] != d[7]))));
  }

  lemma TableIsParity(a: Word)
    ensures ODD_PARITY[NibbleValue(a)] == if a[0] != (a[1] != (a[2] != a[3])) then 1 else 0
  {
  }

  /** Two look-ups and two shifts put eight bits through the division. */
  lemma ParityTrick(r: Word, b: Byte)
    ensures TableStep(r, b) == Divide(r, b)
  {
    var o := OutBits(r, b, 8);
    StepsShape(r, b, o, 8);
    TableShape(r, b, o);
    assert b[..8] == b;
  }
}
