/** What check_crc16() is bound to notice: every odd number of wrong bits, and every burst of up to
    16 bits, in the message or in the CRC after it. */
module Crc16Errors {
  import opened Polynomials
  import opened Crc16

  /** message and CRC as sent. */
  function Sent(message: seq<Byte>, seed: Word): seq<bool> {
    MessageBits(message) + Not(Divide(seed, MessageBits(message)))
  }

  function Received(message: seq<Byte>, inverted: seq<Byte>): seq<bool>
    requires |inverted| == 2
  {
    MessageBits(message) + Join(inverted[0], inverted[1])
  }

  /** The bits that arrived wrong. */
  function ErrorBits(message: seq<Byte>, seed: Word, message': seq<Byte>, inverted': seq<Byte>): (e: seq<bool>)
    requires |message'| == |message| && |inverted'| == 2
    ensures |e| == 8 * |message| + 16
  {
    Xor(Sent(message, seed), Received(message', inverted'))
  }

  lemma {:induction false} MessageBitsAppend(a: seq<Byte>, b: seq<Byte>)
    ensures MessageBits(a + b) == MessageBits(a) + MessageBits(b)
  {
    if b == [] {
      assert a + b == a;
    } else {
      assert (a + b)[..|a + b| - 1] == a + b[..|b| - 1];
      MessageBitsAppend(a, b[..|b| - 1]);
    }
  }

  /** crc16() may be called for a message in pieces, each time with the CRC so far. */
  lemma CrcChains(a: seq<Byte>, b: seq<Byte>, seed: Word)
    ensures Divide(seed, MessageBits(a + b)) == Divide(Divide(seed, MessageBits(a)), MessageBits(b))
  {
    MessageBitsAppend(a, b);
    DivideAppend(seed, MessageBits(a), MessageBits(b));
  }

  /** A transmission passes the check just when its error is a multiple of the generator, whatever the
      message and the seed. */
  lemma AcceptedIfErrorDivides(message: seq<Byte>, seed: Word, message': seq<Byte>, inverted': seq<Byte>)
    requires |message'| == |message| && |inverted'| == 2
    ensures Accepted(message', inverted', seed)
       <==> Divide(Zeros(16), ErrorBits(message, seed, message', inverted')) == Zeros(16)
  {
    var m, m', c' := MessageBits(message), MessageBits(message'), Join(inverted'[0], inverted'[1]);
    var d, d' := Divide(seed, m), Divide(seed, m');
    var e1, e2 := Xor(m, m'), Xor(Not(d), c');
    assert ErrorBits(message, seed, message', inverted') == e1 + e2;
    DivideAppend(Zeros(16), e1, e2);
    AbsorbsItself(Divide(Zeros(16), e1), e2);
    DivideSum(seed, seed, m, m');
    assert Xor(seed, seed) == Zeros(16);
    SumsMeet(d, d', c');
  }

  lemma SumsMeet(d: Word, d': Word, c: seq<bool>)
    requires |c| == 16
    ensures Xor(d, d') == Xor(Not(d), c) <==> c == Not(d')
  {
    if Xor(d, d') == Xor(Not(d), c) {
      forall k | 0 <= k < 16
        ensures c[k] == Not(d')[k]
      {
        assert Xor(d, d')[k] == Xor(Not(d), c)[k];
      }
    }
    if c == Not(d') {
      assert Xor(d, d') == Xor(Not(d), c);
    }
  }

  /** An odd number of wrong bits never passes. */
  lemma OddErrorRejected(message: seq<Byte>, seed: Word, message': seq<Byte>, inverted': seq<Byte>)
    requires |message'| == |message| && |inverted'| == 2
    requires Odd(ErrorBits(message, seed, message', inverted'))
    ensures !Accepted(message', inverted', seed)
  {
    AcceptedIfErrorDivides(message, seed, message', inverted');
    DivideParity(Zeros(16), ErrorBits(message, seed, message', inverted'));
    OddZeros(16);
  }

  lemma BurstIn(e: seq<bool>, p: nat) returns (burst: Word)
    requires p + 16 <= |e|
    requires (exists k :: 0 <= k < |e| && e[k]) && (forall k | 0 <= k < |e| && e[k] :: p <= k < p + 16)
    ensures e == Zeros(p) + burst + Zeros(|e| - 16 - p) && burst != Zeros(16)
  {
    burst := e[p..p + 16];
    assert e == Zeros(p) + burst + Zeros(|e| - 16 - p);
    var k :| 0 <= k < |e| && e[k];
    assert burst[k - p] && !Zeros(16)[k - p];
  }

  /** Wrong bits within any 16 bits in a row, at p, never pass. */
  lemma BurstRejected(message: seq<Byte>, seed: Word, message': seq<Byte>, inverted': seq<Byte>, p: nat)
    requires |message'| == |message| && |inverted'| == 2 && p <= 8 * |message|
    requires var e := ErrorBits(message, seed, message', inverted');
             (exists k :: 0 <= k < |e| && e[k]) && (forall k | 0 <= k < |e| && e[k] :: p <= k < p + 16)
    ensures !Accepted(message', inverted', seed)
  {
    var e := ErrorBits(message, seed, message', inverted');
    var burst := BurstIn(e, p);
    BurstLeavesRemainder(p, burst, 8 * |message| - p);
    AcceptedIfErrorDivides(message, seed, message', inverted');
  }

  lemma {:induction false} MessageBitAt(message: seq<Byte>, k: nat)
    requires k < 8 * |message|
    ensures MessageBits(message)[k] == message[k / 8][k % 8]
  {
    var n := |message| - 1;
    if k < 8 * n {
      MessageBitAt(message[..n], k);
    } else {
      assert k / 8 == n && k % 8 == k - 8 * n;
    }
  }

  /** A message wrong in two adjacent bytes at most, with its CRC intact, never passes. */
  lemma TwoByteErrorRejected(message: seq<Byte>, seed: Word, message': seq<Byte>, inverted': seq<Byte>, i: nat)
    requires |message'| == |message| && |inverted'| == 2 && i < |message|
    requires Join(inverted'[0], inverted'[1]) == Not(Divide(seed, MessageBits(message)))
    requires message' != message
    requires forall j | 0 <= j < |message| && j != i && j != i + 1 :: message'[j] == message[j]
    ensures !Accepted(message', inverted', seed)
  {
    var e := ErrorBits(message, seed, message', inverted');
    forall k | 0 <= k < |e| && e[k]
      ensures 8 * i <= k < 8 * i + 16
    {
      assert k < 8 * |message|;
      MessageBitAt(message, k);
      MessageBitAt(message', k);
      assert k / 8 == i || k / 8 == i + 1;
    }
    var j :| 0 <= j < |message| && message'[j] != message[j];
    var b :| 0 <= b < 8 && message'[j][b] != message[j][b];
    MessageBitAt(message, 8 * j + b);
    MessageBitAt(message', 8 * j + b);
    assert (8 * j + b) / 8 == j && (8 * j + b) % 8 == b;
    assert e[8 * j + b];
    BurstRejected(message, seed, message', inverted', 8 * i);
  }
}
