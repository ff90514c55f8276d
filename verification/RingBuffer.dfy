/** The circular buffer of lib/ring_buffer/ring_buffer.h, which drops its oldest element when full and gives
    back its newest first. */
module RingBuffer {

  // ---------- what it stands for ----------

  datatype Op<T> = Push(value: T) | Pop | Clear

  /** At most n elements, the oldest first. */
  function Apply<T>(s: seq<T>, op: Op<T>, n: nat): seq<T>
    requires |s| <= n && n > 0
  {
    match op
    case Push(v) => (if |s| == n then s[1..] else s) + [v]
    case Pop => if s == [] then s else s[..|s| - 1]
    case Clear => []
  }

  function ApplyAll<T>(ops: seq<Op<T>>, n: nat): (s: seq<T>)
    requires n > 0
    ensures |s| <= n
  {
    if ops == [] then [] else Apply(ApplyAll(ops[..|ops| - 1], n), ops[|ops| - 1], n)
  }

  function Pushes<T>(values: seq<T>): (ops: seq<Op<T>>)
    ensures |ops| == |values|
  {
    seq(|values|, (i: nat) requires i < |values| => Push(values[i]))
  }

  /** Nothing but pushes since it was empty: the last n of them. */
  lemma {:induction false} KeepsLast<T>(values: seq<T>, n: nat)
    requires n > 0
    ensures ApplyAll(Pushes(values), n) == values[if |values| > n then |values| - n else 0..]
    decreases |values|
  {
    if values != [] {
      var rest := values[..|values| - 1];
      assert Pushes(values)[..|values| - 1] == Pushes(rest);
      KeepsLast(rest, n);
      assert values == rest + [values[|values| - 1]];
    }
  }

  // ---------- positions ----------

  function Wrap(x: nat, n: nat): (r: nat)
    requires x < 2 * n
    ensures r < n
  {
    if x < n then x else x - n
  }

  /** count elements from head on. */
  function Cells<T>(a: seq<T>, head: nat, count: nat): (s: seq<T>)
    requires head < |a| && count <= |a|
    ensures |s| == count && forall i | 0 <= i < count :: s[i] == a[Wrap(head + i, |a|)]
  {
    seq(count, (i: nat) requires i < count && head < |a| && count <= |a| => a[Wrap(head + i, |a|)])
  }

  lemma CellsGrow<T>(a: seq<T>, head: nat, count: nat, v: T)
    requires head < |a| && count < |a|
    ensures Cells(a[Wrap(head + count, |a|) := v], head, count + 1) == Cells(a, head, count) + [v]
  {
  }

  lemma CellsTurn<T>(a: seq<T>, head: nat, v: T)
    requires head < |a|
    ensures Cells(a[head := v], Wrap(head + 1, |a|), |a|) == Cells(a, head, |a|)[1..] + [v]
  {
    var n := |a|;
    var s, t := Cells(a, head, n), Cells(a[head := v], Wrap(head + 1, n), n);
    forall i | 0 <= i < n - 1
      ensures t[i] == s[i + 1]
    {
      assert Wrap(Wrap(head + 1, n) + i, n) == Wrap(head + (i + 1), n) != head;
    }
    assert Wrap(Wrap(head + 1, n) + (n - 1), n) == head;
  }

  lemma TailNext(head: nat, count: nat, n: nat)
    requires head < n && 0 < count <= n
    ensures Wrap(Wrap(head + count - 1, n) + 1, n) == if count == n then head else Wrap(head + count, n)
  {
  }

  lemma WrapIsModulo(x: nat, n: nat)
    requires x < 2 * n
    ensures x % n == Wrap(x, n)
  {
    if x >= n {
      ModuloLess(x, n);
    }
  }

  lemma ModuloLess(x: nat, n: nat)
    requires 0 < n <= x < 2 * n
    ensures x % n == x - n
  {
    var q := x / n;
    assert x == n * q + x % n;
    AtLeast(n, q, 2);
    AtLeast(n, 1, q + 1);
  }

  lemma AtLeast(n: nat, q: int, m: int)
    requires q >= 0 && m >= 0
    ensures q >= m ==> n * q >= n * m
  {
  }

  // ---------- the buffer ----------

  class RingBuffer<T(0)> {
    const buffer: array<T>
    var head: nat
    var tail: nat
    var count: nat

    ghost predicate Valid()
      reads this
    {
      && buffer.Length > 0 && head < buffer.Length && tail < buffer.Length && count <= buffer.Length
      && (count > 0 ==> tail == Wrap(head + count - 1, buffer.Length))
    }

    ghost function Contents(): (s: seq<T>)
      requires Valid()
      reads this, buffer
      ensures |s| == count
    {
      Cells(buffer[..], head, count)
    }

    constructor (capacity: nat)
      requires capacity > 0
      ensures Valid() && fresh(buffer) && buffer.Length == capacity && Contents() == []
    {
      buffer := new T[capacity];
      head, tail, count := 0, 0, 0;
    }

    /** One step of tail, and the value there. */
    method Store(value: T)
      requires Valid()
      modifies this`tail, buffer
      ensures tail == Wrap(old(tail) + 1, buffer.Length) && buffer[..] == old(buffer[..])[tail := value]
    {
      tail := tail + 1;
      if tail == buffer.Length {
        tail := 0;
      }
      buffer[tail] := value;
    }

    /** false when the oldest element was overwritten. */
    method Push(value: T) returns (room: bool)
      requires Valid()
      modifies this, buffer
      ensures Valid() && Contents() == Apply(old(Contents()), Op.Push(value), buffer.Length)
      ensures room == (|old(Contents())| < buffer.Length)
    {
      ghost var a := buffer[..];
      if count > 0 {
        TailNext(head, count, buffer.Length);
      }
      Store(value);
      if count == buffer.Length {
        DropOldest(a, value);
        return false;
      }
      Grow(a, value);
      room := true;
    }

    /** The value was written over the oldest one of a. */
    method DropOldest(ghost a: seq<T>, ghost value: T)
      requires |a| == count == buffer.Length > 0 && head == tail < |a| && buffer[..] == a[head := value]
      modifies this`head
      ensures Valid() && Contents() == Cells(a, old(head), count)[1..] + [value]
    {
      CellsTurn(a, head, value);
      TailNext(Wrap(head + 1, |a|), |a|, |a|);
      head := head + 1;
      if head == buffer.Length {
        head := 0;
      }
    }

    /** The value was written behind the newest one of a. */
    method Grow(ghost a: seq<T>, ghost value: T)
      requires count < buffer.Length == |a| && head < |a| && tail < |a| && buffer[..] == a[tail := value]
      requires count > 0 ==> tail == Wrap(head + count, |a|)
      modifies this`head, this`count
      ensures Valid() && count == old(count) + 1 && Contents() == Cells(a, old(head), old(count)) + [value]
    {
      if count == 0 {
        head := tail;
      }
      CellsGrow(a, head, count, value);
      count := count + 1;
    }

    /** The newest element; of an empty buffer whatever is there. */
    method Pop() returns (value: T)
      requires Valid()
      modifies this`tail, this`count
      ensures Valid() && Contents() == Apply(old(Contents()), Op.Pop, buffer.Length)
      ensures old(Contents()) != [] ==> value == old(Contents())[|old(Contents())| - 1]
    {
      if count == 0 {
        return buffer[tail];
      }
      value := buffer[tail];
      tail := if tail == 0 then buffer.Length - 1 else tail - 1;
      count := count - 1;
    }

    /** operator []; past the end the newest element. */
    method At(index: nat) returns (value: T)
      requires Valid()
      ensures Contents() != [] ==> value == if index < |Contents()| then Contents()[index] else Contents()[|Contents()| - 1]
    {
      if index >= count {
        return buffer[tail];
      }
      WrapIsModulo(head + index, buffer.Length);
      value := buffer[(head + index) % buffer.Length];
    }

    method Size() returns (n: nat)
      requires Valid()
      ensures n == |Contents()|
    {
      n := count;
    }

    method Clear()
      requires Valid()
      modifies this`head, this`tail, this`count
      ensures Valid() && Contents() == Apply(old(Contents()), Op.Clear, buffer.Length)
    {
      head, tail, count := 0, 0, 0;
    }
  }
}
