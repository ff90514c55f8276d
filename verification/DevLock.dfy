/** The device lock of src/ow_dev.cpp with its queued change events: the constructor and the destructor of
    DevLock and notify_change(), one step of one thread at a time, in any interleaving. */
module DevLock {
  import opened Wrappers

  /** Where a thread is in a DevLock: between lock() and lock_depth++; alive; between --lock_depth and
      unlock(); handing out its events. A plugin called with one may take locks again, on top of it. */
  datatype Frame<E> = Entering | Alive | Leaving(out: seq<E>) | Handing(out: seq<E>)

  /** dev_mtx (holder and how often it locked it), lock_depth, pending and the threads; what was given to
      notify_change() and what was handed to the plugins. */
  datatype State<E> = State(
    holder: Option<nat>, count: nat, depth: int, pending: seq<E>, threads: seq<seq<Frame<E>>>,
    raised: multiset<E>, handed: multiset<E>)

  datatype Step<E> =
    | Spawn                      // one more thread
    | Lock(t: nat)               // dev_mtx.lock()
    | Enter(t: nat)              // lock_depth++
    | Push(t: nat, e: E)         // pending.push_back(), inside of notify_change()'s own lock
    | Leave(t: nat)              // --lock_depth; the outermost lock takes the pending events
    | Unlock(t: nat)             // dev_mtx.unlock()
    | Hand(t: nat)               // plugins.action() with the next event
    | Finish(t: nat)             // the end of the destructor

  function Top<E>(st: seq<Frame<E>>): Frame<E>
    requires st != []
  {
    st[|st| - 1]
  }

  function Below<E>(st: seq<Frame<E>>): seq<Frame<E>>
    requires st != []
  {
    st[..|st| - 1]
  }

  predicate Enabled<E>(s: State<E>, a: Step<E>) {
    a.Spawn? ||
    (a.t < |s.threads| &&
     var st := s.threads[a.t];
     if a.Lock? then (st != [] ==> Top(st).Alive? || Top(st).Handing?) && (s.holder == None || s.holder == Some(a.t))
     else st != [] &&
          match a
          case Enter(_) => Top(st).Entering?
          case Push(_, _) => Top(st).Alive?
          case Leave(_) => Top(st).Alive?
          case Unlock(_) => Top(st).Leaving? && s.count > 0
          case Hand(_) => Top(st).Handing? && Top(st).out != []
          case _ => Top(st).Handing? && Top(st).out == [])
  }

  function Put<E>(s: State<E>, t: nat, f: Frame<E>): State<E>
    requires t < |s.threads| && s.threads[t] != []
  {
    s.(threads := s.threads[t := Below(s.threads[t]) + [f]])
  }

  function Do<E>(s: State<E>, a: Step<E>): State<E>
    requires Enabled(s, a)
  {
    match a
    case Spawn => s.(threads := s.threads + [[]])
    case Lock(t) => s.(holder := Some(t), count := s.count + 1, threads := s.threads[t := s.threads[t] + [Entering]])
    case Enter(t) => Put(s, t, Alive).(depth := s.depth + 1)
    case Push(_, e) => s.(pending := s.pending + [e], raised := s.raised + multiset{e})
    case Leave(t) =>
      if s.depth == 1 then Put(s, t, Leaving(s.pending)).(depth := 0, pending := [])
      else Put(s, t, Leaving([])).(depth := s.depth - 1)
    case Unlock(t) =>
      Put(s, t, Handing(Top(s.threads[t]).out)).(count := s.count - 1, holder := if s.count == 1 then None else s.holder)
    case Hand(t) =>
      var out := Top(s.threads[t]).out;
      Put(s, t, Handing(out[1..])).(handed := s.handed + multiset{out[0]})
    case Finish(t) => s.(threads := s.threads[t := Below(s.threads[t])])
  }

  predicate Start<E>(s: State<E>) {
    s == State(None, 0, 0, [], [], multiset{}, multiset{})
  }

  // ---------- what every step keeps ----------

  function Locks<E>(st: seq<Frame<E>>): nat {
    if st == [] then 0 else Locks(Below(st)) + if Top(st).Handing? then 0 else 1
  }

  function Alives<E>(st: seq<Frame<E>>): nat {
    if st == [] then 0 else Alives(Below(st)) + if Top(st).Alive? then 1 else 0
  }

  function OutOf<E>(f: Frame<E>): multiset<E> {
    if f.Leaving? || f.Handing? then multiset(f.out) else multiset{}
  }

  /** The events taken from pending but not handed out yet. */
  function Carried<E>(st: seq<Frame<E>>): multiset<E> {
    if st == [] then multiset{} else Carried(Below(st)) + OutOf(Top(st))
  }

  function InFlight<E>(threads: seq<seq<Frame<E>>>): multiset<E> {
    if threads == [] then multiset{} else InFlight(threads[..|threads| - 1]) + Carried(threads[|threads| - 1])
  }

  predicate Empty<E>(f: Frame<E>) {
    f.Leaving? || f.Handing? ==> f.out == []
  }

  /** Only the top is on its way in or out, and no events are handed out on top of a lock. */
  predicate Shaped<E>(st: seq<Frame<E>>) {
    && (forall i | 0 <= i < |st| - 1 :: st[i].Alive? || st[i].Handing?)
    && (forall i, j | 0 <= i < j < |st| :: st[i].Alive? ==> Empty(st[j]))
  }

  predicate LockOk<E>(s: State<E>) {
    && (s.holder == None ==> s.count == 0 && s.depth == 0)
    && (s.holder.Some? ==> s.holder.value < |s.threads| && s.count > 0 && Alives(s.threads[s.holder.value]) == s.depth)
    && (s.depth == 0 ==> s.pending == [])
  }

  predicate ThreadOk<E>(s: State<E>, t: nat)
    requires t < |s.threads|
  {
    Shaped(s.threads[t]) && Locks(s.threads[t]) == if s.holder == Some(t) then s.count else 0
  }

  ghost predicate Conserved<E>(s: State<E>) {
    s.raised == multiset(s.pending) + InFlight(s.threads) + s.handed
  }

  ghost predicate Sound<E>(s: State<E>) {
    LockOk(s) && Conserved(s) && forall t | 0 <= t < |s.threads| :: ThreadOk(s, t)
  }

  lemma {:induction false} AlivesAreLocks<E>(st: seq<Frame<E>>)
    ensures Alives(st) <= Locks(st)
    ensures Locks(st) == 0 ==> forall i | 0 <= i < |st| :: st[i].Handing?
    ensures Alives(st) == 0 ==> forall i | 0 <= i < |st| :: !st[i].Alive?
  {
    if st != [] {
      AlivesAreLocks(Below(st));
    }
  }

  lemma Beside<E>(a: multiset<E>, b: multiset<E>, c: multiset<E>, d: multiset<E>, x: multiset<E>)
    ensures a + b == c + d <==> (a + x) + b == (c + x) + d
    ensures a + b == c + d <==> a + (x + b) == c + (x + d)
  {
    forall e: E
      ensures ((a + x) + b)[e] == (a + b)[e] + x[e] && (a + (x + b))[e] == (a + b)[e] + x[e]
      ensures ((c + x) + d)[e] == (c + d)[e] + x[e] && (c + (x + d))[e] == (c + d)[e] + x[e]
    {
    }
    if (a + x) + b == (c + x) + d || a + (x + b) == c + (x + d) {
      assert forall e: E :: (a + b)[e] == (c + d)[e];
    }
  }

  lemma {:induction false} FlightChanges<E>(threads: seq<seq<Frame<E>>>, t: nat, st: seq<Frame<E>>)
    requires t < |threads|
    ensures InFlight(threads[t := st]) + Carried(threads[t]) == InFlight(threads) + Carried(st)
    decreases |threads|
  {
    var n := |threads| - 1;
    if t < n {
      assert threads[t := st][..n] == threads[..n][t := st];
      FlightChanges(threads[..n], t, st);
      var rest := threads[..n];
      Beside(InFlight(rest[t := st]), Carried(threads[t]), InFlight(rest), Carried(st), Carried(threads[n]));
    } else {
      assert threads[t := st][..n] == threads[..n];
    }
  }

  lemma PutTop<E>(st: seq<Frame<E>>, f: Frame<E>)
    requires st != []
    ensures var st' := Below(st) + [f];
            && Locks(st') == Locks(Below(st)) + (if f.Handing? then 0 else 1)
            && Alives(st') == Alives(Below(st)) + (if f.Alive? then 1 else 0)
            && Carried(st') == Carried(Below(st)) + OutOf(f)
  {
    assert Below(Below(st) + [f]) == Below(st);
  }

  lemma PutFlight<E>(threads: seq<seq<Frame<E>>>, t: nat, f: Frame<E>)
    requires t < |threads| && threads[t] != []
    ensures InFlight(threads[t := Below(threads[t]) + [f]]) + OutOf(Top(threads[t])) == InFlight(threads) + OutOf(f)
  {
    var st := threads[t];
    PutTop(st, f);
    FlightChanges(threads, t, Below(st) + [f]);
    Beside(InFlight(threads[t := Below(st) + [f]]), OutOf(Top(st)), InFlight(threads), OutOf(f), Carried(Below(st)));
  }

  lemma ShapedPut<E>(st: seq<Frame<E>>, f: Frame<E>)
    requires st != [] && Shaped(st)
    requires Empty(f) || forall i | 0 <= i < |st| - 1 :: !st[i].Alive?
    ensures Shaped(Below(st) + [f])
  {
  }

  /** Of all threads only t moved, and nobody but t took or freed the lock. */
  predicate OnlyMoved<E>(s: State<E>, r: State<E>, t: nat, st: seq<Frame<E>>)
    requires t < |s.threads|
  {
    && r.threads == s.threads[t := st]
    && (s.holder == r.holder || ((s.holder == None || s.holder == Some(t)) && (r.holder == None || r.holder == Some(t))))
    && (s.holder.Some? && s.holder != Some(t) ==> s.count == r.count)
  }

  lemma OthersOk<E>(s: State<E>, r: State<E>, t: nat, st: seq<Frame<E>>)
    requires Sound(s) && t < |s.threads| && OnlyMoved(s, r, t, st) && ThreadOk(r, t)
    ensures forall u | 0 <= u < |r.threads| :: ThreadOk(r, u)
  {
    forall u | 0 <= u < |r.threads| && u != t
      ensures ThreadOk(r, u)
    {
      assert r.threads[u] == s.threads[u] && ThreadOk(s, u);
    }
  }

  lemma SameFlight<E>(threads: seq<seq<Frame<E>>>, t: nat, st: seq<Frame<E>>)
    requires t < |threads| && Carried(st) == Carried(threads[t])
    ensures InFlight(threads[t := st]) == InFlight(threads)
  {
    FlightChanges(threads, t, st);
    Cancel(InFlight(threads[t := st]), InFlight(threads), Carried(st));
  }

  lemma Cancel<E>(a: multiset<E>, b: multiset<E>, x: multiset<E>)
    requires a + x == b + x
    ensures a == b
  {
    forall e: E
      ensures a[e] == b[e]
    {
      assert (a + x)[e] == (b + x)[e];
    }
  }

  lemma EnteringOnTop<E>(st: seq<Frame<E>>)
    requires Shaped(st) && (st != [] ==> Top(st).Alive? || Top(st).Handing?)
    ensures var st' := st + [Entering];
            Shaped(st') && Locks(st') == Locks(st) + 1 && Alives(st') == Alives(st) && Carried(st') == Carried(st)
  {
    assert Below(st + [Entering]) == st;
    assert Carried(st + [Entering]) == Carried(st) + multiset{};
  }

  lemma LockIsSound<E>(s: State<E>, t: nat)
    requires Sound(s) && Enabled(s, Lock(t))
    ensures Sound(Do(s, Lock(t)))
  {
    var r, st := Do(s, Lock(t)), s.threads[t];
    assert ThreadOk(s, t);
    AlivesAreLocks(st);
    EnteringOnTop(st);
    SameFlight(s.threads, t, st + [Entering]);
    assert ThreadOk(r, t);
    OthersOk(s, r, t, st + [Entering]);
  }

  /** A thread with a lock frame is the holder. */
  lemma Holds<E>(s: State<E>, t: nat)
    requires Sound(s) && t < |s.threads| && Locks(s.threads[t]) > 0
    ensures s.holder == Some(t) && Alives(s.threads[t]) == s.depth && Locks(s.threads[t]) == s.count
  {
    assert ThreadOk(s, t);
  }

  /** The top frame of t moved on, with what became of the events. */
  lemma MovedIsSound<E>(s: State<E>, r: State<E>, t: nat, f: Frame<E>)
    requires Sound(s) && t < |s.threads| && s.threads[t] != []
    requires OnlyMoved(s, r, t, Below(s.threads[t]) + [f])
    requires Empty(f) || Alives(Below(s.threads[t])) == 0
    requires LockOk(r)
    requires Locks(Below(s.threads[t])) + (if f.Handing? then 0 else 1) == if r.holder == Some(t) then r.count else 0
    requires r.raised == s.raised
    requires multiset(s.pending) + OutOf(Top(s.threads[t])) + s.handed == multiset(r.pending) + OutOf(f) + r.handed
    ensures Sound(r)
  {
    assert ThreadOk(s, t);
    MovedThread(s, r, t, f);
    OthersOk(s, r, t, Below(s.threads[t]) + [f]);
    MovedConserved(s, r, t, f);
  }

  lemma MovedThread<E>(s: State<E>, r: State<E>, t: nat, f: Frame<E>)
    requires t < |s.threads| && s.threads[t] != [] && ThreadOk(s, t)
    requires r.threads == s.threads[t := Below(s.threads[t]) + [f]]
    requires Empty(f) || Alives(Below(s.threads[t])) == 0
    requires Locks(Below(s.threads[t])) + (if f.Handing? then 0 else 1) == if r.holder == Some(t) then r.count else 0
    ensures ThreadOk(r, t)
  {
    PutTop(s.threads[t], f);
    AlivesAreLocks(Below(s.threads[t]));
    ShapedPut(s.threads[t], f);
  }

  lemma MovedConserved<E>(s: State<E>, r: State<E>, t: nat, f: Frame<E>)
    requires Conserved(s) && t < |s.threads| && s.threads[t] != []
    requires r.threads == s.threads[t := Below(s.threads[t]) + [f]] && r.raised == s.raised
    requires multiset(s.pending) + OutOf(Top(s.threads[t])) + s.handed == multiset(r.pending) + OutOf(f) + r.handed
    ensures Conserved(r)
  {
    PutFlight(s.threads, t, f);
    Balance(InFlight(s.threads), InFlight(r.threads), OutOf(Top(s.threads[t])), OutOf(f),
            multiset(s.pending), s.handed, multiset(r.pending), r.handed);
  }

  lemma Balance<E>(f: multiset<E>, f': multiset<E>, o: multiset<E>, o': multiset<E>,
                   p: multiset<E>, h: multiset<E>, p': multiset<E>, h': multiset<E>)
    requires f' + o == f + o' && p + o + h == p' + o' + h'
    ensures p + f + h == p' + f' + h'
  {
    forall e: E
      ensures (p + f + h)[e] == (p' + f' + h')[e]
    {
      assert (f' + o)[e] == (f + o')[e] && (p + o + h)[e] == (p' + o' + h')[e];
    }
  }

  lemma EnterIsSound<E>(s: State<E>, t: nat)
    requires Sound(s) && Enabled(s, Enter(t))
    ensures Sound(Do(s, Enter(t)))
  {
    Holds(s, t);
    PutTop(s.threads[t], Alive);
    MovedIsSound(s, Do(s, Enter(t)), t, Alive);
  }

  lemma PushIsSound<E>(s: State<E>, t: nat, e: E)
    requires Sound(s) && Enabled(s, Push(t, e))
    ensures Sound(Do(s, Push(t, e)))
  {
    Holds(s, t);
    var r := Do(s, Push(t, e));
    assert multiset(r.pending) == multiset(s.pending) + multiset{e};
    forall u | 0 <= u < |r.threads|
      ensures ThreadOk(r, u)
    {
      assert ThreadOk(s, u);
    }
  }

  lemma LeaveIsSound<E>(s: State<E>, t: nat)
    requires Sound(s) && Enabled(s, Leave(t))
    ensures Sound(Do(s, Leave(t)))
  {
    Holds(s, t);
    var f: Frame<E> := Leaving(if s.depth == 1 then s.pending else []);
    PutTop(s.threads[t], f);
    MovedIsSound(s, Do(s, Leave(t)), t, f);
  }

  lemma UnlockIsSound<E>(s: State<E>, t: nat)
    requires Sound(s) && Enabled(s, Unlock(t))
    ensures Sound(Do(s, Unlock(t)))
  {
    Holds(s, t);
    assert ThreadOk(s, t);
    var st := s.threads[t];
    var f: Frame<E> := Handing(Top(st).out);
    PutTop(s.threads[t], f);
    AlivesAreLocks(Below(st));
    if !Empty(Top(st)) {
      EventsAboveLocks(st);
    }
    MovedIsSound(s, Do(s, Unlock(t)), t, f);
  }

  lemma HandIsSound<E>(s: State<E>, t: nat)
    requires Sound(s) && Enabled(s, Hand(t))
    ensures Sound(Do(s, Hand(t)))
  {
    assert ThreadOk(s, t);
    var st := s.threads[t];
    var out := Top(st).out;
    var f: Frame<E> := Handing(out[1..]);
    EventsAboveLocks(st);
    TakeFirst(multiset(s.pending), out, s.handed);
    MovedIsSound(s, Do(s, Hand(t)), t, f);
  }

  lemma TakeFirst<E>(p: multiset<E>, out: seq<E>, h: multiset<E>)
    requires out != []
    ensures p + multiset(out) + h == p + multiset(out[1..]) + (h + multiset{out[0]})
  {
    assert out == [out[0]] + out[1..];
  }

  lemma {:induction false} EventsAboveLocks<E>(st: seq<Frame<E>>)
    requires st != [] && Shaped(st) && !Empty(Top(st))
    ensures Alives(Below(st)) == 0
  {
    assert forall i | 0 <= i < |st| - 1 :: !st[i].Alive?;
    NoneAlive(Below(st));
  }

  lemma {:induction false} NoneAlive<E>(st: seq<Frame<E>>)
    requires forall i | 0 <= i < |st| :: !st[i].Alive?
    ensures Alives(st) == 0
  {
    if st != [] {
      NoneAlive(Below(st));
    }
  }

  lemma FinishIsSound<E>(s: State<E>, t: nat)
    requires Sound(s) && Enabled(s, Finish(t))
    ensures Sound(Do(s, Finish(t)))
  {
    assert ThreadOk(s, t);
    var r, st := Do(s, Finish(t)), s.threads[t];
    assert Carried(st) == Carried(Below(st)) + multiset{};
    SameFlight(s.threads, t, Below(st));
    assert Shaped(Below(st)) && ThreadOk(r, t);
    OthersOk(s, r, t, Below(st));
  }

  lemma SpawnIsSound<E>(s: State<E>)
    requires Sound(s)
    ensures Sound(Do(s, Spawn))
  {
    var r := Do(s, Spawn);
    assert r.threads[..|s.threads|] == s.threads;
    forall u | 0 <= u < |r.threads|
      ensures ThreadOk(r, u)
    {
      assert u < |s.threads| ==> ThreadOk(s, u);
    }
  }

  lemma StepIsSound<E>(s: State<E>, a: Step<E>)
    requires Sound(s) && Enabled(s, a)
    ensures Sound(Do(s, a))
  {
    match a
    case Spawn => SpawnIsSound(s);
    case Lock(t) => LockIsSound(s, t);
    case Enter(t) => EnterIsSound(s, t);
    case Push(t, e) => PushIsSound(s, t, e);
    case Leave(t) => LeaveIsSound(s, t);
    case Unlock(t) => UnlockIsSound(s, t);
    case Hand(t) => HandIsSound(s, t);
    case Finish(t) => FinishIsSound(s, t);
  }

  // ---------- every run ----------

  predicate Legal<E>(s: State<E>, steps: seq<Step<E>>)
    decreases |steps|, 0
  {
    steps == [] ||
    (Legal(s, steps[..|steps| - 1]) && Enabled(Run(s, steps[..|steps| - 1]), steps[|steps| - 1]))
  }

  function Run<E>(s: State<E>, steps: seq<Step<E>>): State<E>
    requires Legal(s, steps)
    decreases |steps|, 1
  {
    if steps == [] then s else Do(Run(s, steps[..|steps| - 1]), steps[|steps| - 1])
  }

  lemma {:induction false} RunIsSound<E>(s: State<E>, steps: seq<Step<E>>)
    requires Start(s) && Legal(s, steps)
    ensures Sound(Run(s, steps))
    decreases |steps|
  {
    if steps != [] {
      RunIsSound(s, steps[..|steps| - 1]);
      StepIsSound(Run(s, steps[..|steps| - 1]), steps[|steps| - 1]);
    }
  }

  /** While nobody holds the lock no event is queued. */
  lemma FreeMeansNothingPending<E>(s: State<E>, steps: seq<Step<E>>)
    requires Start(s) && Legal(s, steps) && Run(s, steps).holder == None
    ensures Run(s, steps).pending == []
  {
    RunIsSound(s, steps);
  }

  /** No thread hands out an event while it holds the lock, however deep the call. */
  lemma HandsOutsideTheLock<E>(s: State<E>, steps: seq<Step<E>>, t: nat)
    requires Start(s) && Legal(s, steps) && Enabled(Run(s, steps), Hand(t))
    ensures Run(s, steps).holder != Some(t)
  {
    var r := Run(s, steps);
    RunIsSound(s, steps);
    assert ThreadOk(r, t);
    NoLockBelowEvents(r.threads[t]);
  }

  lemma {:induction false} NoLockBelowEvents<E>(st: seq<Frame<E>>)
    requires st != [] && Shaped(st) && Top(st).Handing? && Top(st).out != []
    ensures Locks(st) == 0
  {
    forall i | 0 <= i < |st|
      ensures st[i].Handing?
    {
      assert !Empty(st[|st| - 1]);
    }
    NoLocks(st);
  }

  lemma {:induction false} NoLocks<E>(st: seq<Frame<E>>)
    requires forall i | 0 <= i < |st| :: st[i].Handing?
    ensures Locks(st) == 0
  {
    if st != [] {
      NoLocks(Below(st));
    }
  }

  /** No event is handed out more often than it was raised; and each is, exactly once, when all threads are
      done. */
  lemma HandedOnce<E>(s: State<E>, steps: seq<Step<E>>)
    requires Start(s) && Legal(s, steps)
    ensures var r := Run(s, steps);
            && r.handed <= r.raised
            && r.raised == multiset(r.pending) + InFlight(r.threads) + r.handed
            && ((forall t | 0 <= t < |r.threads| :: r.threads[t] == []) ==> r.handed == r.raised)
  {
    var r := Run(s, steps);
    RunIsSound(s, steps);
    if forall t | 0 <= t < |r.threads| :: r.threads[t] == [] {
      NothingInFlight(r.threads);
      assert r.holder.Some? ==> ThreadOk(r, r.holder.value);
    }
  }

  lemma {:induction false} NothingInFlight<E>(threads: seq<seq<Frame<E>>>)
    requires forall t | 0 <= t < |threads| :: threads[t] == []
    ensures InFlight(threads) == multiset{}
    decreases |threads|
  {
    if threads != [] {
      NothingInFlight(threads[..|threads| - 1]);
    }
  }

  // ---------- nobody is stuck ----------

  /** Where the code of t goes on, were it to raise no more events and take no more locks. */
  function Onward<E>(s: State<E>, t: nat): Step<E>
    requires t < |s.threads| && s.threads[t] != []
  {
    match Top(s.threads[t])
    case Entering => Enter(t)
    case Alive => Leave(t)
    case Leaving(_) => Unlock(t)
    case Handing(out) => if out != [] then Hand(t) else Finish(t)
  }

  /** A thread that is not waiting for a lock can always go on. */
  lemma CanGoOn<E>(s: State<E>, t: nat)
    requires Sound(s) && t < |s.threads| && s.threads[t] != []
    ensures Enabled(s, Onward(s, t))
  {
    if Top(s.threads[t]).Leaving? {
      Holds(s, t);
    }
  }

  /** A thread waits for the lock just while another one has it, and that one can go on. */
  lemma WaitsForAnother<E>(s: State<E>, t: nat)
    requires Sound(s) && t < |s.threads| && (s.threads[t] == [] || Top(s.threads[t]).Alive? || Top(s.threads[t]).Handing?)
    ensures !Enabled(s, Lock(t)) <==> s.holder.Some? && s.holder != Some(t)
    ensures !Enabled(s, Lock(t)) ==>
              var u := s.holder.value; u < |s.threads| && s.threads[u] != [] && Enabled(s, Onward(s, u))
  {
    if s.holder.Some? && s.holder != Some(t) {
      var u := s.holder.value;
      assert ThreadOk(s, u);
      CanGoOn(s, u);
    }
  }

  /** How many steps a frame, a thread and all of them are from done. */
  function FrameLeft<E>(f: Frame<E>): nat {
    match f
    case Entering => 4
    case Alive => 3
    case Leaving(out) => 2 + |out|
    case Handing(out) => 1 + |out|
  }

  function ThreadLeft<E>(st: seq<Frame<E>>): nat {
    if st == [] then 0 else ThreadLeft(Below(st)) + FrameLeft(Top(st))
  }

  function AllLeft<E>(threads: seq<seq<Frame<E>>>): nat {
    if threads == [] then 0 else AllLeft(threads[..|threads| - 1]) + ThreadLeft(threads[|threads| - 1])
  }

  lemma {:induction false} LeftChanges<E>(threads: seq<seq<Frame<E>>>, t: nat, st: seq<Frame<E>>)
    requires t < |threads|
    ensures AllLeft(threads[t := st]) + ThreadLeft(threads[t]) == AllLeft(threads) + ThreadLeft(st)
    decreases |threads|
  {
    var n := |threads| - 1;
    if t < n {
      assert threads[t := st][..n] == threads[..n][t := st];
      LeftChanges(threads[..n], t, st);
    } else {
      assert threads[t := st][..n] == threads[..n];
    }
  }

  lemma OneLess<E>(s: State<E>, t: nat)
    requires Sound(s) && t < |s.threads| && s.threads[t] != [] && Enabled(s, Onward(s, t))
    ensures var r := Do(s, Onward(s, t));
            && AllLeft(r.threads) + |r.pending| < AllLeft(s.threads) + |s.pending| && r.raised == s.raised
            && |r.threads| == |s.threads|
  {
    var st := s.threads[t];
    match Top(st)
    case Entering => PutLeft(s.threads, t, Alive);
    case Alive => PutLeft(s.threads, t, Leaving(if s.depth == 1 then s.pending else []));
    case Leaving(out) => PutLeft(s.threads, t, Handing(out));
    case Handing(out) =>
      if out != [] {
        PutLeft(s.threads, t, Handing(out[1..]));
      } else {
        LeftChanges(s.threads, t, Below(st));
      }
  }

  lemma PutLeft<E>(threads: seq<seq<Frame<E>>>, t: nat, f: Frame<E>)
    requires t < |threads| && threads[t] != []
    ensures AllLeft(threads[t := Below(threads[t]) + [f]]) + FrameLeft(Top(threads[t])) == AllLeft(threads) + FrameLeft(f)
  {
    var st := threads[t];
    assert Below(Below(st) + [f]) == Below(st);
    LeftChanges(threads, t, Below(st) + [f]);
  }

  lemma {:induction false} StepFirst<E>(s: State<E>, a: Step<E>, steps: seq<Step<E>>)
    requires Enabled(s, a) && Legal(Do(s, a), steps)
    ensures Legal(s, [a] + steps) && Run(s, [a] + steps) == Run(Do(s, a), steps)
    decreases |steps|
  {
    var all, n := [a] + steps, |steps|;
    if steps == [] {
      assert all[..0] == [] && all == [a];
      assert Legal(s, all[..0]) && Run(s, all[..0]) == s;
    } else {
      assert all[..n] == [a] + steps[..n - 1] && all[n] == steps[n - 1];
      StepFirst(s, a, steps[..n - 1]);
    }
  }

  /** From every state a run can get to, the threads can all come to their end, with every event raised handed
      out: no order of locking or handing out leaves them waiting for each other. */
  lemma {:induction false} AllCanFinish<E>(s: State<E>) returns (steps: seq<Step<E>>)
    requires Sound(s)
    ensures Legal(s, steps)
    ensures var r := Run(s, steps);
            && (forall t | 0 <= t < |r.threads| :: r.threads[t] == []) && r.holder == None
            && r.raised == s.raised && r.handed == r.raised
    decreases AllLeft(s.threads) + |s.pending|
  {
    if t :| 0 <= t < |s.threads| && s.threads[t] != [] {
      var a := Onward(s, t);
      CanGoOn(s, t);
      OneLess(s, t);
      StepIsSound(s, a);
      var rest := AllCanFinish(Do(s, a));
      StepFirst(s, a, rest);
      steps := [a] + rest;
    } else {
      steps := [];
      NothingInFlight(s.threads);
      assert s.holder.Some? ==> ThreadOk(s, s.holder.value);
    }
  }
}
