/** The lock's constructor and destructor and notify_change() of src/ow_dev.cpp as one thread executes them,
    with any steps of the other threads in between. */
module DevLockCode {
  import opened DevLock
  import opened Wrappers

  class OwDev<E(0,==)> {
    // dev_mtx, lock_depth, pending
    var holder: Option<nat>
    var count: nat
    var lockDepth: int
    var pending: seq<E>
    // the threads, and what was given to notify_change() and handed to the plugins
    var threads: seq<seq<Frame<E>>>
    var raised: multiset<E>
    var handed: multiset<E>
    /** All steps since the device was made. */
    ghost var steps: seq<Step<E>>

    function Now(): State<E>
      reads this
    {
      State(holder, count, lockDepth, pending, threads, raised, handed)
    }

    ghost predicate Valid()
      reads this
    {
      Reached(Now(), steps) && Sound(Now())
    }

    constructor ()
      ensures Valid() && threads == []
    {
      holder, count, lockDepth, pending, threads := None, 0, 0, [], [];
      raised, handed, steps := multiset{}, multiset{}, [];
    }

    /** The last assignments were that step. */
    ghost method Record(was: State<E>, a: Step<E>)
      requires Reached(was, steps) && Sound(was) && Enabled(was, a) && Now() == Do(was, a)
      modifies this`steps
      ensures Valid()
    {
      StepIsSound(was, a);
      ReachedOneMore(was, steps, a);
      steps := steps + [a];
    }

    // ---------- the other threads ----------

    /** Any steps of other threads; while t holds the lock they cannot get at what it guards. */
    method Others(t: nat)
      requires Valid() && t < |threads|
      modifies this
      ensures Valid() && Elsewhere(old(Now()), Now(), t)
    {
      var n: nat := *;
      while n > 0
        invariant Valid() && Elsewhere(old(Now()), Now(), t)
      {
        n := n - 1;
        var a: Step<E> := *;
        OtherStep(t, a);
      }
    }

    method OtherStep(t: nat, a: Step<E>)
      requires Valid() && t < |threads|
      modifies this
      ensures Valid() && Elsewhere(old(Now()), Now(), t)
    {
      var s := Now();
      if Enabled(s, a) && (a.Spawn? || a.t != t) {
        OthersOutside(s, t, a);
        var r := Do(s, a);
        holder, count, lockDepth, pending := r.holder, r.count, r.depth, r.pending;
        threads, raised, handed := r.threads, r.raised, r.handed;
        Record(s, a);
      }
    }

    // ---------- single steps of thread t ----------

    /** dev_mtx.lock() once it is free. */
    method LockMutex(t: nat)
      requires Valid() && Enabled(Now(), Lock(t))
      modifies this
      ensures Valid() && Now() == Do(old(Now()), Lock(t))
    {
      var s := Now();
      holder, count := Some(t), count + 1;
      threads := threads[t := threads[t] + [Entering]];
      Record(s, Lock(t));
    }

    method CountUp(t: nat)
      requires Valid() && Enabled(Now(), Enter(t))
      modifies this
      ensures Valid() && Now() == Do(old(Now()), Enter(t))
    {
      var s := Now();
      lockDepth := lockDepth + 1;
      threads := threads[t := Below(threads[t]) + [Alive]];
      Record(s, Enter(t));
    }

    method Queue(t: nat, e: E)
      requires Valid() && Enabled(Now(), Push(t, e))
      modifies this
      ensures Valid() && Now() == Do(old(Now()), Push(t, e))
    {
      var s := Now();
      pending := pending + [e];
      raised := raised + multiset{e};
      Record(s, Push(t, e));
    }

    /** if (--lock_depth == 0) out.swap(pending) */
    method CountDown(t: nat) returns (out: seq<E>)
      requires Valid() && Enabled(Now(), Leave(t))
      modifies this
      ensures Valid() && Now() == Do(old(Now()), Leave(t)) && out == if old(lockDepth) == 1 then old(pending) else []
    {
      var s := Now();
      out := [];
      lockDepth := lockDepth - 1;
      if lockDepth == 0 {
        out, pending := pending, out;
      }
      threads := threads[t := Below(threads[t]) + [Leaving(out)]];
      Record(s, Leave(t));
    }

    method UnlockMutex(t: nat)
      requires Valid() && Enabled(Now(), Unlock(t))
      modifies this
      ensures Valid() && Now() == Do(old(Now()), Unlock(t))
    {
      var s := Now();
      count := count - 1;
      if count == 0 {
        holder := None;
      }
      threads := threads[t := Below(threads[t]) + [Handing(Top(threads[t]).out)]];
      Record(s, Unlock(t));
    }

    /** plugins.action() is called, and never while t holds the lock. */
    method HandNext(t: nat)
      requires Valid() && Enabled(Now(), Hand(t))
      modifies this
      ensures Valid() && Now() == Do(old(Now()), Hand(t)) && old(holder) != Some(t)
    {
      var s := Now();
      HandsUnlocked(s, t);
      var out := Top(threads[t]).out;
      handed := handed + multiset{out[0]};
      threads := threads[t := Below(threads[t]) + [Handing(out[1..])]];
      Record(s, Hand(t));
    }

    method PopFrame(t: nat)
      requires Valid() && Enabled(Now(), Finish(t))
      modifies this
      ensures Valid() && Now() == Do(old(Now()), Finish(t))
    {
      var s := Now();
      threads := threads[t := Below(threads[t])];
      Record(s, Finish(t));
    }

    // ---------- the code of thread t ----------

    /** DevLock::DevLock(). false: t waits for ever, with another thread in the lock; never for itself. */
    method Construct(t: nat) returns (got: bool)
      requires Valid() && t < |threads| && MayLock(threads[t])
      modifies this
      ensures Valid() && Grown(old(Now()), Now(), t)
      ensures threads[t] == if got then old(threads)[t] + [Alive] else old(threads)[t]
      ensures got ==> holder == Some(t)
      ensures old(holder) == Some(t) ==> got
      ensures !got ==> holder.Some? && holder != Some(t)
      ensures got && old(holder) == Some(t) ==> lockDepth == old(lockDepth) + 1 > 1 && pending == old(pending)
      ensures got && old(holder) != Some(t) ==> lockDepth == 1 && pending == []
    {
      if holder == Some(t) {
        HolderCounts(Now(), t);
      }
      Others(t);
      if holder != None && holder != Some(t) {
        return false;
      }
      LockMutex(t);
      Others(t);
      CountUp(t);
      got := true;
    }

    /** DevLock::~DevLock(). When the outermost one is done all that was queued is handed out. fuel: how deep
        plugins call back. */
    method Destruct(t: nat, fuel: nat)
      requires Valid() && t < |threads| && threads[t] != [] && Top(threads[t]).Alive?
      modifies this
      ensures Valid() && Grown(old(Now()), Now(), t) && threads[t] == Below(old(threads)[t])
      ensures old(lockDepth) == 1 ==> old(handed) + multiset(old(pending)) <= handed
      ensures old(lockDepth) > 1 ==> holder == Some(t) && lockDepth == old(lockDepth) - 1 && pending == old(pending)
      decreases fuel, 3
    {
      var out := Free(t);
      HandOut(t, out, fuel);
      PopFrame(t);
    }

    /** The destructor up to its loop. */
    method Free(t: nat) returns (out: seq<E>)
      requires Valid() && t < |threads| && threads[t] != [] && Top(threads[t]).Alive?
      modifies this
      ensures Valid() && Grown(old(Now()), Now(), t) && threads[t] == Below(old(threads)[t]) + [Handing(out)]
      ensures out == if old(lockDepth) == 1 then old(pending) else []
      ensures old(lockDepth) > 1 ==> holder == Some(t) && lockDepth == old(lockDepth) - 1 && pending == old(pending)
    {
      Holds(Now(), t);
      out := CountDown(t);
      Others(t);
      Holds(Now(), t);
      PutTop(threads[t], Handing(out));
      AlivesAreLocks(Below(threads[t]));
      UnlockMutex(t);
    }

    /** The loop of the destructor. */
    method HandOut(t: nat, out: seq<E>, fuel: nat)
      requires Valid() && t < |threads| && threads[t] != [] && Top(threads[t]) == Handing(out)
      modifies this
      ensures Valid() && Grown(old(Now()), Now(), t)
      ensures threads[t] == Below(old(threads)[t]) + [Handing([])]
      ensures old(handed) + multiset(out) <= handed
      ensures out == [] && old(holder) == Some(t) ==>
                holder == Some(t) && lockDepth == old(lockDepth) && pending == old(pending)
      decreases fuel, 2
    {
      Others(t);
      ghost var below, given := Below(threads[t]), multiset{};
      var rest := out;
      while rest != []
        invariant Valid() && Grown(old(Now()), Now(), t) && threads[t] == below + [Handing(rest)]
        invariant given + multiset(rest) == multiset(out) && old(handed) + given <= handed
        invariant out == [] && old(holder) == Some(t) ==>
                holder == Some(t) && lockDepth == old(lockDepth) && pending == old(pending)
        decreases |rest|
      {
        FirstOf(rest);
        HandOne(t, rest, fuel);
        given, rest := given + multiset{rest[0]}, rest[1..];
      }
    }

    method HandOne(t: nat, rest: seq<E>, fuel: nat)
      requires Valid() && t < |threads| && threads[t] != [] && Top(threads[t]) == Handing(rest) && rest != []
      modifies this
      ensures Valid() && Grown(old(Now()), Now(), t)
      ensures threads[t] == Below(old(threads)[t]) + [Handing(rest[1..])]
      ensures old(handed) + multiset{rest[0]} <= handed
      decreases fuel, 1
    {
      HandNext(t);
      Plugin(t, fuel);
    }

    /** What a plugin called with an event does with the device: any uses of it, while others go on. */
    method Plugin(t: nat, fuel: nat)
      requires Valid() && t < |threads| && threads[t] != [] && Top(threads[t]).Handing?
      modifies this
      ensures Valid() && Grown(old(Now()), Now(), t) && threads[t] == old(threads)[t]
      decreases fuel, 0
    {
      var n: nat := *;
      while n > 0 && fuel > 0
        invariant Valid() && Grown(old(Now()), Now(), t) && threads[t] == old(threads)[t]
        decreases n
      {
        var got, notifies, e: E := *, *, *;
        if notifies {
          got := NotifyChange(t, e, fuel - 1);
        } else {
          got := Construct(t);
          if got {
            Destruct(t, fuel - 1);
          }
        }
        n := n - 1;
      }
      Others(t);
    }

    /** Without an outer lock the event is handed out when this returns, else it waits in the queue. */
    method NotifyChange(t: nat, e: E, fuel: nat) returns (done: bool)
      requires Valid() && t < |threads| && MayLock(threads[t])
      modifies this
      ensures Valid() && Grown(old(Now()), Now(), t) && threads[t] == old(threads)[t]
      ensures done && old(holder) != Some(t) ==> old(handed) + multiset{e} <= handed
      ensures done && old(holder) == Some(t) ==>
                holder == Some(t) && lockDepth == old(lockDepth) && pending == old(pending) + [e]
      ensures old(holder) == Some(t) ==> done
      ensures !done ==> holder.Some? && holder != Some(t)
      decreases fuel, 5
    {
      done := Construct(t);
      if done {
        QueueAndSend(t, e, fuel);
      }
    }

    method QueueAndSend(t: nat, e: E, fuel: nat)
      requires Valid() && t < |threads| && threads[t] != [] && Top(threads[t]).Alive?
      modifies this
      ensures Valid() && Grown(old(Now()), Now(), t) && threads[t] == Below(old(threads)[t])
      ensures old(lockDepth) == 1 ==> old(handed) + multiset{e} <= handed
      ensures old(lockDepth) > 1 ==> holder == Some(t) && lockDepth == old(lockDepth) - 1 && pending == old(pending) + [e]
      decreases fuel, 4
    {
      Queue(t, e);
      assert multiset{e} <= multiset(pending);
      Destruct(t, fuel);
    }
  }

  predicate MayLock<E>(st: seq<Frame<E>>) {
    st != [] ==> Top(st).Alive? || Top(st).Handing?
  }

  /** No thread goes away, nothing handed out is taken back. */
  predicate Grown<E>(s: State<E>, r: State<E>, t: nat) {
    t < |s.threads| <= |r.threads| && s.handed <= r.handed && s.raised <= r.raised
  }

  lemma FirstOf<E>(s: seq<E>)
    requires s != []
    ensures multiset(s) == multiset{s[0]} + multiset(s[1..])
  {
    assert s == [s[0]] + s[1..];
  }

  /** A holder that is not just on its way in or out has the depth to show for it. */
  lemma HolderCounts<E>(s: State<E>, t: nat)
    requires Sound(s) && t < |s.threads| && s.holder == Some(t) && MayLock(s.threads[t])
    ensures s.depth >= 1
  {
    assert ThreadOk(s, t);
    AliveOrHanding(s.threads[t]);
  }

  lemma {:induction false} AliveOrHanding<E>(st: seq<Frame<E>>)
    requires forall i | 0 <= i < |st| :: st[i].Alive? || st[i].Handing?
    ensures Alives(st) == Locks(st)
  {
    if st != [] {
      AliveOrHanding(Below(st));
    }
  }

  ghost predicate Reached<E>(s: State<E>, steps: seq<Step<E>>) {
    var start: State<E> := State(None, 0, 0, [], [], multiset{}, multiset{});
    Legal(start, steps) && s == Run(start, steps)
  }

  lemma ReachedOneMore<E>(s: State<E>, steps: seq<Step<E>>, a: Step<E>)
    requires Reached(s, steps) && Enabled(s, a)
    ensures Reached(Do(s, a), steps + [a])
  {
    assert (steps + [a])[..|steps|] == steps;
  }

  /** What thread t may see after steps of the others. */
  predicate Elsewhere<E>(s: State<E>, r: State<E>, t: nat)
    requires t < |s.threads|
  {
    && |r.threads| >= |s.threads| && r.threads[t] == s.threads[t]
    && (s.holder == Some(t) ==> r.holder == s.holder && r.count == s.count && r.depth == s.depth && r.pending == s.pending)
    && (s.holder != Some(t) ==> r.holder != Some(t))
    && s.handed <= r.handed && s.raised <= r.raised
  }

  lemma OthersOutside<E>(s: State<E>, t: nat, a: Step<E>)
    requires Sound(s) && t < |s.threads| && Enabled(s, a) && (a.Spawn? || a.t != t)
    ensures Elsewhere(s, Do(s, a), t)
  {
    if !a.Spawn? {
      assert ThreadOk(s, a.t);
    }
  }

  lemma HandsUnlocked<E>(s: State<E>, t: nat)
    requires Sound(s) && t < |s.threads| && Enabled(s, Hand(t))
    ensures s.holder != Some(t)
  {
    assert ThreadOk(s, t);
    NoLockBelowEvents(s.threads[t]);
  }
}
