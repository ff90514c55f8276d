/** Where the byte comes from that a restore writes (src/ds2408.cpp: reg_read(), watchdog_restore()): from the
    host, or from a reset whose outputs the host came to take for its own. */
module WatchdogOrigins {
  import opened Octets
  import opened Watchdog
  import opened Wrappers

  /** Whether a reset left it: what the slave drives, the cache, the byte to restore. */
  datatype Origins = Origins(out: bool, cache: bool, saved: bool)

  function Trace(w: World, o: Origins, e: Event): Origins {
    match e
    case Reset(_) => o.(out := true)
    case Write(_) => o.(out := false, cache := false)
    case Read =>
      if w.flagged && !w.pending then Origins(o.out, o.out, o.cache) else o.(cache := o.out)
    case BadRead => o
    case Restore(again, _) =>
      if !w.pending then o
      else if w.savedKnown then Origins(o.saved, o.saved, o.saved)
      else o.(out := o.out || again.Some?)
  }

  function Origin(w: World, es: seq<Event>): Origins {
    if es == [] then Origins(w.flagged, false, false)
    else Trace(ApplyAll(w, es[..|es| - 1]), Origin(w, es[..|es| - 1]), es[|es| - 1])
  }

  // ---------- what an origin means for the bytes ----------

  /** A reset left that byte. */
  ghost predicate IsLeft(w: World, es: seq<Event>, b: Octet) {
    || (w.flagged && b == w.out)
    || (exists i :: 0 <= i < |es| && Leaves(es[i], b))
  }

  predicate Leaves(e: Event, b: Octet) {
    e == Reset(b) || (e.Restore? && e.again == Some(b))
  }

  /** The host wrote that byte, or the slave drove it before any reset. */
  ghost predicate IsTold(w: World, es: seq<Event>, b: Octet) {
    || (!w.flagged && b == w.out)
    || (exists i :: 0 <= i < |es| && es[i] == Write(b))
  }

  /** A restore drives that bit for the PWM pins. */
  ghost predicate IsPwmBit(es: seq<Event>, k: nat)
    requires k < 8
  {
    exists i :: 0 <= i < |es| && es[i].Restore? && es[i].pwm[k]
  }

  ghost predicate IsPwm(es: seq<Event>, m: Octet) {
    forall k | 0 <= k < 8 && m[k] :: IsPwmBit(es, k)
  }

  /** b is such a byte, but for PWM bits that restores set. */
  ghost predicate Stems(w: World, es: seq<Event>, left: bool, b: Octet) {
    exists c, m :: (if left then IsLeft(w, es, c) else IsTold(w, es, c)) && IsPwm(es, m) && b == Or(c, m)
  }

  lemma PwmLater(es: seq<Event>, m: Octet)
    requires es != [] && IsPwm(es[..|es| - 1], m)
    ensures IsPwm(es, m)
  {
    var rest := es[..|es| - 1];
    forall k | 0 <= k < 8 && m[k]
      ensures IsPwmBit(es, k)
    {
      var i :| 0 <= i < |rest| && rest[i].Restore? && rest[i].pwm[k];
      assert es[i] == rest[i];
    }
  }

  lemma StemsLater(w: World, es: seq<Event>, left: bool, b: Octet)
    requires es != [] && Stems(w, es[..|es| - 1], left, b)
    ensures Stems(w, es, left, b)
  {
    var c, m :| (if left then IsLeft(w, es[..|es| - 1], c) else IsTold(w, es[..|es| - 1], c))
                && IsPwm(es[..|es| - 1], m) && b == Or(c, m);
    PwmLater(es, m);
    assert forall i | 0 <= i < |es| - 1 :: es[..|es| - 1][i] == es[i];
    assert if left then IsLeft(w, es, c) else IsTold(w, es, c);
  }

  lemma StemsItself(w: World, es: seq<Event>, left: bool, b: Octet)
    requires if left then IsLeft(w, es, b) else IsTold(w, es, b)
    ensures Stems(w, es, left, b)
  {
    assert IsPwm(es, Zero()) && b == Or(b, Zero());
  }

  lemma StemsWithPwm(w: World, es: seq<Event>, left: bool, b: Octet)
    requires es != [] && es[|es| - 1].Restore? && Stems(w, es, left, b)
    ensures Stems(w, es, left, Or(b, es[|es| - 1].pwm))
  {
    var last, pwm := |es| - 1, es[|es| - 1].pwm;
    var c, m :| (if left then IsLeft(w, es, c) else IsTold(w, es, c)) && IsPwm(es, m) && b == Or(c, m);
    forall k | 0 <= k < 8 && Or(m, pwm)[k]
      ensures IsPwmBit(es, k)
    {
      assert pwm[k] ==> es[last].pwm[k];
    }
    assert Or(b, pwm) == Or(c, Or(m, pwm));
  }

  /** The origins o are true of the bytes that count. */
  ghost predicate Hold(w: World, es: seq<Event>, at: World, o: Origins) {
    && Stems(w, es, o.out, at.out)
    && (at.known ==> Stems(w, es, o.cache, at.cache))
    && (at.pending && at.savedKnown ==> Stems(w, es, o.saved, at.saved))
  }

  /** So they are after every run. */
  lemma {:induction false} OriginsAreTrue(w: World, es: seq<Event>)
    requires Start(w)
    ensures Hold(w, es, ApplyAll(w, es), Origin(w, es))
    decreases |es|
  {
    if es == [] {
      StemsItself(w, es, w.flagged, w.out);
    } else {
      var n := |es| - 1;
      var at, o := ApplyAll(w, es[..n]), Origin(w, es[..n]);
      OriginsAreTrue(w, es[..n]);
      StemsLater(w, es, o.out, at.out);
      if at.known {
        StemsLater(w, es, o.cache, at.cache);
      }
      if at.pending && at.savedKnown {
        StemsLater(w, es, o.saved, at.saved);
      }
      if es[n].Restore? {
        RestoreHolds(w, es, at, o, es[n].again, es[n].pwm);
      } else {
        OtherHolds(w, es, at, o);
      }
    }
  }

  lemma RestoreHolds(w: World, es: seq<Event>, at: World, o: Origins, again: Option<Octet>, pwm: Octet)
    requires es != [] && es[|es| - 1] == Restore(again, pwm) && Hold(w, es, at, o)
    ensures Hold(w, es, Apply(at, Restore(again, pwm)), Trace(at, o, Restore(again, pwm)))
  {
    if at.pending && at.savedKnown {
      StemsWithPwm(w, es, o.saved, at.saved);
    } else if at.pending && again.Some? {
      assert Leaves(es[|es| - 1], again.value);
      StemsItself(w, es, true, again.value);
    }
  }

  lemma OtherHolds(w: World, es: seq<Event>, at: World, o: Origins)
    requires es != [] && !es[|es| - 1].Restore? && Hold(w, es, at, o)
    ensures Hold(w, es, Apply(at, es[|es| - 1]), Trace(at, o, es[|es| - 1]))
  {
    match es[|es| - 1]
    case Reset(left) => ResetHolds(w, es, at, o, left);
    case Write(pio) => WriteHolds(w, es, at, o, pio);
    case Read => ReadHolds(w, es, at, o);
    case BadRead =>
  }

  lemma ResetHolds(w: World, es: seq<Event>, at: World, o: Origins, left: Octet)
    requires es != [] && es[|es| - 1] == Reset(left) && Hold(w, es, at, o)
    ensures Hold(w, es, Apply(at, Reset(left)), Trace(at, o, Reset(left)))
  {
    assert Leaves(es[|es| - 1], left);
    StemsItself(w, es, true, left);
  }

  lemma WriteHolds(w: World, es: seq<Event>, at: World, o: Origins, pio: Octet)
    requires es != [] && es[|es| - 1] == Write(pio) && Hold(w, es, at, o)
    ensures Hold(w, es, Apply(at, Write(pio)), Trace(at, o, Write(pio)))
  {
    StemsItself(w, es, false, pio);
  }

  lemma ReadHolds(w: World, es: seq<Event>, at: World, o: Origins)
    requires Hold(w, es, at, o)
    ensures Hold(w, es, Apply(at, Read), Trace(at, o, Read))
  {
  }

  // ---------- when a reset's byte is restored ----------

  /** The branch of a restore that finds the outputs unknown: it clears the status and writes nothing. */
  predicate IsBlind(w: World, e: Event) {
    e.Restore? && w.pending && !w.savedKnown
  }

  /** Since the last write, but for those a due restore undoes, a restore found the outputs unknown. The host
      could keep this as a flag. */
  predicate Adopted(w: World, es: seq<Event>) {
    es != [] &&
    var at, e := ApplyAll(w, es[..|es| - 1]), es[|es| - 1];
    IsBlind(at, e) || (Adopted(w, es[..|es| - 1]) && !(e.Write? && !at.pending))
  }

  /** No write while a restore is due that has nothing to restore. */
  ghost predicate NoBlindWrite(w: World, es: seq<Event>) {
    forall i | 0 <= i < |es| && es[i].Write? :: !(ApplyAll(w, es[..i]).pending && !ApplyAll(w, es[..i]).savedKnown)
  }

  lemma NoBlindWritePrefix(w: World, es: seq<Event>)
    requires es != [] && NoBlindWrite(w, es)
    ensures NoBlindWrite(w, es[..|es| - 1])
  {
    var n := |es| - 1;
    forall i | 0 <= i < n && es[..n][i].Write?
      ensures !(ApplyAll(w, es[..n][..i]).pending && !ApplyAll(w, es[..n][..i]).savedKnown)
    {
      assert es[..n][..i] == es[..i] && es[i].Write?;
    }
  }

  /** What the origins have to do with it, over the states of a run. */
  ghost predicate Accounted(at: World, o: Origins, adopted: bool) {
    && (at.pending ==> at.flagged)
    && (!at.pending && at.known ==> o.cache == adopted)
    && (at.pending && at.savedKnown ==> o.saved == adopted)
    && (!at.flagged ==> o.out == adopted)
    && (!at.known && !at.pending && at.flagged ==> o.out)
    && (at.pending && !at.savedKnown ==> o.out && !at.known)
  }

  lemma {:induction false} RunIsAccounted(w: World, es: seq<Event>)
    requires Start(w) && NoBlindWrite(w, es)
    ensures Accounted(ApplyAll(w, es), Origin(w, es), Adopted(w, es))
    decreases |es|
  {
    if es != [] {
      var n := |es| - 1;
      NoBlindWritePrefix(w, es);
      RunIsAccounted(w, es[..n]);
      assert es[n].Write? ==> !(ApplyAll(w, es[..n]).pending && !ApplyAll(w, es[..n]).savedKnown);
    }
  }

  /** The byte a restore writes is one that a reset left if and only if, since the last write that stood, a
      restore ran that found the outputs unknown. */
  lemma RestoredFromReset(w: World, es: seq<Event>)
    requires Start(w) && NoBlindWrite(w, es) && ApplyAll(w, es).pending && ApplyAll(w, es).savedKnown
    ensures Origin(w, es).saved <==> Adopted(w, es)
    ensures Stems(w, es, Adopted(w, es), ApplyAll(w, es).saved)
  {
    RunIsAccounted(w, es);
    OriginsAreTrue(w, es);
  }

  /** The same of the byte the host goes by. */
  lemma KnownFromReset(w: World, es: seq<Event>)
    requires Start(w) && NoBlindWrite(w, es) && ApplyAll(w, es).known && !ApplyAll(w, es).pending
    ensures Origin(w, es).cache <==> Adopted(w, es)
    ensures Stems(w, es, Adopted(w, es), ApplyAll(w, es).cache)
  {
    RunIsAccounted(w, es);
    OriginsAreTrue(w, es);
  }

  ghost predicate NoBlindRestore(w: World, es: seq<Event>) {
    forall i | 0 <= i < |es| :: !IsBlind(ApplyAll(w, es[..i]), es[i])
  }

  /** No byte that counts is one a reset left. */
  predicate AllTold(at: World, o: Origins) {
    && (at.pending ==> at.flagged) && (!at.flagged ==> !o.out) && (at.known ==> !o.cache)
    && (at.pending && at.savedKnown ==> !o.saved)
  }

  lemma StepToldStill(at: World, o: Origins, e: Event)
    requires AllTold(at, o) && !IsBlind(at, e)
    ensures AllTold(Apply(at, e), Trace(at, o, e))
  {
  }

  /** In every run, whatever is written when: without such a restore no reset's byte is ever known or restored. */
  lemma {:induction false} NeverWithoutBlindRestore(w: World, es: seq<Event>)
    requires Start(w) && NoBlindRestore(w, es)
    ensures AllTold(ApplyAll(w, es), Origin(w, es))
    decreases |es|
  {
    if es != [] {
      var n := |es| - 1;
      forall i | 0 <= i < n
        ensures !IsBlind(ApplyAll(w, es[..n][..i]), es[..n][i])
      {
        assert es[..n][..i] == es[..i];
      }
      NeverWithoutBlindRestore(w, es[..n]);
      assert !IsBlind(ApplyAll(w, es[..n]), es[n]);
      StepToldStill(ApplyAll(w, es[..n]), Origin(w, es[..n]), es[n]);
    }
  }

  // ---------- what the host can tell ----------

  /** What passes between host and slave. */
  datatype Seen = SawWrite(pio: Octet) | SawRead(reset: bool, out: Octet) | SawBadRead | SawRestore(pwm: Octet)

  /** What the host gets to see of an event: nothing of a reset, and all of a read. */
  function Sight(at: World, e: Event): seq<Seen> {
    match e
    case Reset(_) => []
    case Write(pio) => [SawWrite(pio)]
    case Read => [SawRead(at.flagged, at.out)]
    case BadRead => [SawBadRead]
    case Restore(_, pwm) => [SawRestore(pwm)]
  }

  function View(w: World, es: seq<Event>): seq<Seen> {
    if es == [] then []
    else View(w, es[..|es| - 1]) + Sight(ApplyAll(w, es[..|es| - 1]), es[|es| - 1])
  }

  /** The host's flags, and for each byte whether a reset may have left it. */
  datatype Host = Host(pending: bool, known: bool, savedKnown: bool, outLeft: bool, cacheLeft: bool, savedLeft: bool)

  function Notice(h: Host, s: Seen): Host {
    match s
    case SawWrite(_) => h.(known := true, outLeft := false, cacheLeft := false)
    case SawRead(reset, _) =>
      if !reset then h.(known := h.known || !h.pending, cacheLeft := h.outLeft)
      else if h.pending then h.(known := false)
      else h.(pending := true, savedKnown := h.known, savedLeft := h.cacheLeft, known := false)
    case SawBadRead => h
    case SawRestore(_) =>
      if !h.pending then h
      else if h.savedKnown then h.(pending := false, known := true, outLeft := h.savedLeft, cacheLeft := h.savedLeft)
      else h.(pending := false, outLeft := true)
  }

  function NoticeAll(v: seq<Seen>): Host {
    if v == [] then Host(false, false, false, false, false, false)
    else Notice(NoticeAll(v[..|v| - 1]), v[|v| - 1])
  }

  /** exact: the bytes that count are as suspect as that, not less. */
  ghost predicate Matches(at: World, o: Origins, h: Host, exact: bool) {
    && h.pending == at.pending && h.known == at.known && (at.pending ==> at.flagged && h.savedKnown == at.savedKnown)
    && (!at.flagged ==> (o.out ==> h.outLeft) && (exact ==> o.out == h.outLeft))
    && (at.known ==> (o.cache ==> h.cacheLeft) && (exact ==> o.cache == h.cacheLeft))
    && (at.pending && at.savedKnown ==> (o.saved ==> h.savedLeft) && (exact ==> o.saved == h.savedLeft))
  }

  lemma {:induction false} HostSuspects(w: World, es: seq<Event>)
    requires Start(w)
    ensures Matches(ApplyAll(w, es), Origin(w, es), NoticeAll(View(w, es)), false)
    decreases |es|
  {
    if es != [] {
      var n := |es| - 1;
      HostSuspects(w, es[..n]);
      ViewStep(w, es);
      StepMatches(ApplyAll(w, es[..n]), Origin(w, es[..n]), NoticeAll(View(w, es[..n])), es[n], false);
    }
  }

  function Noticed(at: World, h: Host, e: Event): Host {
    var saw := Sight(at, e);
    if saw == [] then h else Notice(h, saw[0])
  }

  lemma ViewStep(w: World, es: seq<Event>)
    requires es != []
    ensures NoticeAll(View(w, es)) == Noticed(ApplyAll(w, es[..|es| - 1]), NoticeAll(View(w, es[..|es| - 1])), es[|es| - 1])
  {
    NoticeMore(View(w, es[..|es| - 1]), ApplyAll(w, es[..|es| - 1]), es[|es| - 1]);
  }

  lemma NoticeMore(v: seq<Seen>, at: World, e: Event)
    ensures NoticeAll(v + Sight(at, e)) == Noticed(at, NoticeAll(v), e)
  {
    var saw := Sight(at, e);
    if saw == [] {
      assert v + saw == v;
    } else {
      assert (v + saw)[..|v|] == v;
    }
  }

  lemma StepMatches(at: World, o: Origins, h: Host, e: Event, exact: bool)
    requires Matches(at, o, h, exact)
    requires exact && IsBlind(at, e) ==> o.out
    ensures Matches(Apply(at, e), Trace(at, o, e), Noticed(at, h, e), exact)
  {
    match e
    case Read => ReadMatches(at, o, h, exact);
    case Restore(again, pwm) => RestoreMatches(at, o, h, again, pwm, exact);
    case _ =>
  }

  lemma ReadMatches(at: World, o: Origins, h: Host, exact: bool)
    requires Matches(at, o, h, exact)
    ensures Matches(Apply(at, Read), Trace(at, o, Read), Noticed(at, h, Read), exact)
  {
  }

  lemma RestoreMatches(at: World, o: Origins, h: Host, again: Option<Octet>, pwm: Octet, exact: bool)
    requires Matches(at, o, h, exact)
    requires exact && IsBlind(at, Restore(again, pwm)) ==> o.out
    ensures var e := Restore(again, pwm); Matches(Apply(at, e), Trace(at, o, e), Noticed(at, h, e), exact)
  {
  }

  /** The run with one more reset right before every restore that finds the outputs unknown. */
  function Worst(w: World, es: seq<Event>): seq<Event> {
    if es == [] then []
    else Worst(w, es[..|es| - 1]) + WorstOf(ApplyAll(w, es[..|es| - 1]), es[|es| - 1])
  }

  function WorstOf(at: World, e: Event): seq<Event> {
    if IsBlind(at, e) then [Reset(at.out), e] else [e]
  }

  lemma OneMore(w: World, es: seq<Event>, e: Event)
    ensures ApplyAll(w, es + [e]) == Apply(ApplyAll(w, es), e)
    ensures Origin(w, es + [e]) == Trace(ApplyAll(w, es), Origin(w, es), e)
    ensures NoticeAll(View(w, es + [e])) == Noticed(ApplyAll(w, es), NoticeAll(View(w, es)), e)
    ensures e.Reset? ==> View(w, es + [e]) == View(w, es)
  {
    Grown(w, es, e);
    assert (es + [e])[..|es|] == es;
    ViewStep(w, es + [e]);
  }

  /** bad looks to the host like es and leaves host and slave as es does, with all its bytes as suspect as that. */
  ghost predicate Poses(w: World, bad: seq<Event>, es: seq<Event>) {
    && Alike(w, bad, es)
    && Matches(ApplyAll(w, bad), Origin(w, bad), NoticeAll(View(w, bad)), true)
  }

  /** Not told apart by anything the host ever sees, nor by what is in its memory or in the slave afterwards. */
  ghost predicate Alike(w: World, a: seq<Event>, b: seq<Event>) {
    View(w, a) == View(w, b) && ApplyAll(w, a) == ApplyAll(w, b)
  }

  lemma AlikeMore(w: World, a: seq<Event>, b: seq<Event>, e: Event)
    requires Alike(w, a, b)
    ensures Alike(w, a + [e], b + [e])
  {
    assert (a + [e])[..|a|] == a && (b + [e])[..|b|] == b;
  }

  lemma {:induction false} WorstIsExact(w: World, es: seq<Event>)
    requires Start(w)
    ensures Poses(w, Worst(w, es), es)
    decreases |es|
  {
    if es != [] {
      var rest, e := es[..|es| - 1], es[|es| - 1];
      WorstIsExact(w, rest);
      WorstStep(w, Worst(w, rest), rest, e);
      LastOff(es);
    }
  }

  lemma LastOff(es: seq<Event>)
    requires es != []
    ensures es[..|es| - 1] + [es[|es| - 1]] == es
  {
  }

  lemma WorstStep(w: World, bad: seq<Event>, es: seq<Event>, e: Event)
    requires Poses(w, bad, es)
    ensures Poses(w, bad + WorstOf(ApplyAll(w, es), e), es + [e])
  {
    var at := ApplyAll(w, es);
    if IsBlind(at, e) {
      PosesReset(w, bad, es);
      PosesStep(w, bad + [Reset(at.out)], es, e);
      OneByOne(bad, Reset(at.out), e);
    } else {
      PosesStep(w, bad, es, e);
    }
  }

  lemma PosesReset(w: World, bad: seq<Event>, es: seq<Event>)
    requires Poses(w, bad, es) && ApplyAll(w, es).pending
    ensures var r := bad + [Reset(ApplyAll(w, es).out)]; Poses(w, r, es) && Origin(w, r).out
  {
    var left := ApplyAll(w, es).out;
    OneMore(w, bad, Reset(left));
    StepMatches(ApplyAll(w, bad), Origin(w, bad), NoticeAll(View(w, bad)), Reset(left), true);
  }

  lemma PosesStep(w: World, bad: seq<Event>, es: seq<Event>, e: Event)
    requires Poses(w, bad, es) && (IsBlind(ApplyAll(w, es), e) ==> Origin(w, bad).out)
    ensures Poses(w, bad + [e], es + [e])
  {
    OneMore(w, bad, e);
    StepMatches(ApplyAll(w, bad), Origin(w, bad), NoticeAll(View(w, bad)), e, true);
    AlikeMore(w, bad, es, e);
  }

  /** Every run: among the runs in which the host sees the same, byte for byte, there is one in which the byte to
      restore is one a reset left, if and only if the host's own account says it may be; and then there is one
      that even ends with host and slave in the very same state. */
  lemma HostCannotTell(w: World, es: seq<Event>)
    requires Start(w) && ApplyAll(w, es).pending && ApplyAll(w, es).savedKnown
    ensures (exists es' :: View(w, es') == View(w, es) && Origin(w, es').saved) <==> NoticeAll(View(w, es)).savedLeft
    ensures (exists es' :: Alike(w, es', es) && Origin(w, es').saved) <==> NoticeAll(View(w, es)).savedLeft
  {
    HostSuspects(w, es);
    WorstIsExact(w, es);
    if NoticeAll(View(w, es)).savedLeft {
      var bad := Worst(w, es);
      assert View(w, bad) == View(w, es) && Alike(w, bad, es) && Origin(w, bad).saved;
    }
    forall es' | View(w, es') == View(w, es) && Origin(w, es').saved
      ensures NoticeAll(View(w, es)).savedLeft
    {
      HostSuspects(w, es');
    }
  }

  // ---------- why no write may go before such a restore ----------

  /** Any run and a write while a restore with unknown outputs is due, and the same with a silent reset behind
      the write; then restored, read, reset, read. Either way the same byte counts as one to restore if the reset
      left what was written, and only its origin differs: the host sees the two alike, byte for byte, and all is
      in the same state. Whatever else the reset left is seen at the clean read. */
  lemma BlindWriteHidesOrigin(w: World, es: seq<Event>, pio: Octet, left: Octet)
    requires Start(w) && ApplyAll(w, es).pending && !ApplyAll(w, es).savedKnown
    ensures var a := UpToSight(es + [Write(pio)]); var b := UpToSight(es + [Write(pio)] + [Reset(left)]);
            && ApplyAll(w, a).pending && ApplyAll(w, a).savedKnown && !Origin(w, a).saved && Origin(w, b).saved
            && (View(w, a) == View(w, b) <==> left == pio) && (Alike(w, a, b) <==> left == pio)
  {
    var a := es + [Write(pio)];
    var b := a + [Reset(left)];
    HostSuspects(w, es);
    OneMore(w, es, Write(pio));
    OneMore(w, a, Reset(left));
    SightsOf(w, a);
    SightsOf(w, b);
    SameSights(View(w, a), pio, left);
    if left == pio {
      UpToSightAlike(w, a, b);
    }
  }

  lemma UpToSightAlike(w: World, a: seq<Event>, b: seq<Event>)
    requires Alike(w, a, b)
    ensures Alike(w, UpToSight(a), UpToSight(b))
  {
    AlikeMore(w, a, b, Restore(None, Zero()));
    AlikeMore(w, a + [Restore(None, Zero())], b + [Restore(None, Zero())], Read);
    AlikeMore(w, UpToRead(a), UpToRead(b), Reset(Zero()));
    AlikeMore(w, UpToRead(a) + [Reset(Zero())], UpToRead(b) + [Reset(Zero())], Read);
  }

  /** Restored and read. */
  function UpToRead(es: seq<Event>): seq<Event> {
    es + [Restore(None, Zero())] + [Read]
  }

  /** Reset and read again. */
  function UpToSight(es: seq<Event>): seq<Event> {
    UpToRead(es) + [Reset(Zero())] + [Read]
  }

  /** What that adds to the view when the slave drives out. */
  function Sights(v: seq<Seen>, out: Octet): seq<Seen> {
    v + [SawRestore(Zero())] + [SawRead(false, out)] + [] + [SawRead(true, Zero())]
  }

  lemma SameSights(v: seq<Seen>, a: Octet, b: Octet)
    ensures Sights(v, a) == Sights(v, b) <==> a == b
  {
    assert Sights(v, a)[|v| + 1] == SawRead(false, a);
    assert Sights(v, b)[|v| + 1] == SawRead(false, b);
  }

  lemma SightsOf(w: World, es: seq<Event>)
    requires Risky(ApplyAll(w, es)) && ApplyAll(w, es).flagged
    ensures var at := ApplyAll(w, UpToSight(es)); at.pending && at.savedKnown
    ensures Origin(w, UpToSight(es)).saved == Origin(w, es).out
    ensures View(w, UpToSight(es)) == Sights(View(w, es), ApplyAll(w, es).out)
  {
    var read := UpToRead(es);
    var at, o := ApplyAll(w, es), Origin(w, es);
    Grown(w, es, Restore(None, Zero()));
    Grown(w, es + [Restore(None, Zero())], Read);
    RiskyThenRead(at, o);
    Grown(w, read, Reset(Zero()));
    Grown(w, read + [Reset(Zero())], Read);
    SeenAgain(ApplyAll(w, read), Origin(w, read));
  }

  lemma RiskyThenRead(at: World, o: Origins)
    requires Risky(at) && at.flagged
    ensures var e := Restore(None, Zero()); var o' := Trace(Apply(at, e), Trace(at, o, e), Read);
            var r := Apply(Apply(at, e), Read);
            && r.known && !r.pending && o'.cache == o.out
            && Sight(at, e) == [SawRestore(Zero())] && Sight(Apply(at, e), Read) == [SawRead(false, at.out)]
  {
  }

  lemma SeenAgain(at: World, o: Origins)
    requires at.known && !at.pending
    ensures var r := Apply(Apply(at, Reset(Zero())), Read);
            && r.pending && r.savedKnown && Trace(Apply(at, Reset(Zero())), Trace(at, o, Reset(Zero())), Read).saved == o.cache
            && Sight(at, Reset(Zero())) == [] && Sight(Apply(at, Reset(Zero())), Read) == [SawRead(true, Zero())]
  {
  }

  lemma Grown(w: World, es: seq<Event>, e: Event)
    ensures ApplyAll(w, es + [e]) == Apply(ApplyAll(w, es), e)
    ensures Origin(w, es + [e]) == Trace(ApplyAll(w, es), Origin(w, es), e)
    ensures View(w, es + [e]) == View(w, es) + Sight(ApplyAll(w, es), e)
  {
    assert (es + [e])[..|es|] == es;
  }

  // ---------- the restore that lets it in ----------

  /** Reset, restore, read, reset, read. */
  function Again(w: World, left: Octet, pwm: Octet, left': Octet): World {
    Apply(ResetTo(Apply(Apply(ResetTo(w, left), Restore(None, pwm)), Read), left'), Read)
  }

  /** From every state with a restore due: the next restore but this one brings back just what a reset before
      this one left, whatever that was, if and only if this one finds the outputs unknown. */
  lemma AdoptsExactly(w: World, pwm: Octet)
    requires w.pending
    ensures (forall left, left' :: Again(w, left, pwm, left').savedKnown && Again(w, left, pwm, left').saved == left)
       <==> !w.savedKnown
  {
    if w.savedKnown {
      var b := Or(w.saved, pwm);
      var left := if b == Zero() then Ones() else Zero();
      assert Again(w, left, pwm, left).saved == b != left;
    }
  }

  /** A device first met after a reset, never written: what that reset left is restored after the next one. */
  lemma ResetAdopted(w: World, left: Octet, left': Octet, pwm: Octet)
    requires Start(w)
    ensures var es := [Reset(left), Read, Restore(None, pwm), Read, Reset(left'), Read];
            var at := ApplyAll(w, es);
            && at.pending && at.savedKnown && at.saved == left && NoBlindWrite(w, es) && Adopted(w, es)
            && Apply(at, Restore(None, pwm)).out == Or(left, pwm)
  {
    var e2, e4 := [Reset(left), Read], [Reset(left), Read, Restore(None, pwm), Read];
    var es := e4 + [Reset(left'), Read];
    assert [] + [Reset(left), Read] == e2 && e2 + [Restore(None, pwm), Read] == e4;
    TwoMore(w, [], Reset(left), Read);
    TwoMore(w, e2, Restore(None, pwm), Read);
    TwoMore(w, e4, Reset(left'), Read);
    assert es == [Reset(left), Read, Restore(None, pwm), Read, Reset(left'), Read];
    assert es[..5] == e4 + [Reset(left')] && (e4 + [Reset(left')])[..4] == e4;
    var e3 := e2 + [Restore(None, pwm)];
    assert e4[..3] == e3 && e3[..2] == e2;
    assert Adopted(w, e3) && Adopted(w, e4) && Adopted(w, e4 + [Reset(left')]);
  }
}
