/** The time stamps of DS2482::log_dump() in src/ds2482.cpp: every one later than the one before. */
module LogDump {
  import opened RingBuffer

  datatype LogData = LogData(ts: nat, ch: nat, state: nat, data: nat)

  /** What was added to the last stamp, and the stamps so far. */
  datatype Dump = Dump(add: nat, stamps: seq<nat>)

  function Last(stamps: seq<nat>): nat {
    if stamps == [] then 0 else stamps[|stamps| - 1]
  }

  function Stamp(d: Dump, ts: nat): Dump {
    if Last(d.stamps) >= ts then Dump(d.add + 1, d.stamps + [ts + d.add + 1]) else Dump(0, d.stamps + [ts])
  }

  function Stamps(log: seq<LogData>): (d: Dump)
    ensures |d.stamps| == |log|
  {
    if log == [] then Dump(0, []) else Stamp(Stamps(log[..|log| - 1]), log[|log| - 1].ts)
  }

  method LogTimes(dataLog: RingBuffer<LogData>) returns (stamps: seq<nat>)
    requires dataLog.Valid()
    ensures stamps == Stamps(dataLog.Contents()).stamps
  {
    var add, old_, i := 0, 0, 0;
    stamps := [];
    ghost var log := dataLog.Contents();
    var size := dataLog.Size();
    while i < size
      invariant i <= size && Stamps(log[..i]) == Dump(add, stamps) && old_ == Last(stamps)
    {
      var l := dataLog.At(i);
      assert log[..i + 1][..i] == log[..i];
      if old_ >= l.ts {
        add := add + 1;
        l := l.(ts := l.ts + add);
      } else {
        add := 0;
      }
      old_ := l.ts;
      stamps := stamps + [l.ts];
      i := i + 1;
    }
    assert log[..i] == log;
  }

  // ---------- strictly later ----------

  predicate StrictlyLater(stamps: seq<nat>) {
    forall i, j | 0 <= i < j < |stamps| :: stamps[i] < stamps[j]
  }

  predicate NeverEarlier(log: seq<LogData>) {
    forall i, j | 0 <= i < j < |log| :: log[i].ts <= log[j].ts
  }

  lemma LastIsShifted(log: seq<LogData>)
    requires log != []
    ensures Last(Stamps(log).stamps) == log[|log| - 1].ts + Stamps(log).add
  {
  }

  /** Each stamp is later than the one before exactly if no event was logged with an earlier time than the one
      before it. */
  lemma {:induction false} StampsIncrease(log: seq<LogData>)
    ensures StrictlyLater(Stamps(log).stamps) <==> NeverEarlier(log)
    decreases |log|
  {
    if |log| > 1 {
      var n := |log| - 1;
      var rest, s := log[..n], Stamps(log).stamps;
      StampsIncrease(rest);
      LastIsShifted(rest);
      LastIsShifted(log);
      assert s[..n] == Stamps(rest).stamps;
      assert s[n - 1] < s[n] <==> log[n - 1].ts <= log[n].ts;
      LaterByOne(s, n);
      EarlierByOne(log, n);
    }
  }

  lemma LaterByOne(s: seq<nat>, n: nat)
    requires n + 1 == |s| > 1
    ensures StrictlyLater(s) <==> StrictlyLater(s[..n]) && s[n - 1] < s[n]
  {
    if StrictlyLater(s[..n]) && s[n - 1] < s[n] {
      assert forall i | 0 <= i < n - 1 :: s[..n][i] < s[..n][n - 1];
      assert forall i, j | 0 <= i < j < n :: s[i] == s[..n][i] && s[j] == s[..n][j];
    }
  }

  lemma EarlierByOne(log: seq<LogData>, n: nat)
    requires n + 1 == |log| > 1
    ensures NeverEarlier(log) <==> NeverEarlier(log[..n]) && log[n - 1].ts <= log[n].ts
  {
    if NeverEarlier(log[..n]) && log[n - 1].ts <= log[n].ts {
      assert forall i | 0 <= i < n - 1 :: log[..n][i].ts <= log[..n][n - 1].ts;
      assert forall i, j | 0 <= i < j < n :: log[i] == log[..n][i] && log[j] == log[..n][j];
    }
  }
}
