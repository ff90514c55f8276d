/** The host's copy of a DS2408's outputs and the slave behind it, over any run of writes, register
    reads, silent resets and restores (src/ds2408.cpp: pio_set(), reg_read(), watchdog_restore()).
    Writes are acknowledged here, reads pass their CRC or are dropped. */
module Watchdog {
  import opened Octets
  import opened Wrappers

  /** slave: what it drives, and whether its status shows a reset. commanded: what it was last told to
      drive, or with the reset flag cleared drives by itself.
      host: data[PIO_OUT], out_known, wdt_pending, wdt_out, wdt_out_known. */
  datatype World = World(
    out: Octet, flagged: bool, commanded: Octet,
    cache: Octet, known: bool, pending: bool, saved: Octet, savedKnown: bool)

  datatype Event =
    | Reset(left: Octet)           // the slave resets silently; what it drives then
    | Write(pio: Octet)            // an acknowledged PIO write
    | Read                         // a register read, CRC good
    | BadRead                      // one whose every try failed its CRC
    | Restore(again: Option<Octet>, pwm: Octet)
                                   // watchdog_restore(); again: a reset between its status and its PIO write

  function ResetTo(w: World, left: Octet): World {
    w.(out := left, flagged := true)
  }

  function Written(w: World, pio: Octet): World {
    w.(out := pio, commanded := pio, cache := pio, known := true)
  }

  function Apply(w: World, e: Event): World {
    match e
    case Reset(left) => ResetTo(w, left)
    case Write(pio) => Written(w, pio)
    case Read =>
      if !w.flagged then w.(cache := w.out, known := w.known || !w.pending)
      else if w.pending then w.(cache := w.out, known := false)
      else w.(pending := true, saved := w.cache, savedKnown := w.known, cache := w.out, known := false)
    case BadRead => w
    case Restore(again, pwm) =>
      if !w.pending then w
      else
        var cleared := w.(pending := false, flagged := false, commanded := w.out);
        var hit := if again.Some? then ResetTo(cleared, again.value) else cleared;
        if w.savedKnown then Written(hit, Or(w.saved, pwm)) else hit
  }

  function ApplyAll(w: World, es: seq<Event>): World {
    if es == [] then w else Apply(ApplyAll(w, es[..|es| - 1]), es[|es| - 1])
  }

  /** out_known and wdt_pending are false at the start. */
  ghost predicate Start(w: World) {
    !w.known && !w.pending && (!w.flagged ==> w.out == w.commanded)
  }

  /** Nothing is written between the read that shows a reset and its restore. */
  ghost predicate NoWriteWhilePending(w: World, es: seq<Event>) {
    forall i | 0 <= i < |es| && es[i].Write? :: !ApplyAll(w, es[..i]).pending
  }

  // ---------- every step keeps ----------

  ghost predicate Sound(w: World) {
    && (w.known ==> w.cache == w.commanded)
    && (!w.flagged ==> w.out == w.commanded)
    && (w.pending ==> w.flagged && !w.known)
    && (w.pending && w.savedKnown ==> w.saved == w.commanded)
  }

  lemma StepIsSound(w: World, e: Event)
    requires Sound(w) && (e.Write? ==> !w.pending)
    ensures Sound(Apply(w, e))
  {
  }

  lemma {:induction false} RunIsSound(w: World, es: seq<Event>)
    requires Start(w) && NoWriteWhilePending(w, es)
    ensures Sound(ApplyAll(w, es))
  {
    if es != [] {
      var n := |es| - 1;
      assert NoWriteWhilePending(w, es[..n]) by {
        forall i | 0 <= i < n && es[..n][i].Write?
          ensures !ApplyAll(w, es[..n][..i]).pending
        {
          assert es[..n][..i] == es[..i] && es[i].Write?;
        }
      }
      RunIsSound(w, es[..n]);
      StepIsSound(ApplyAll(w, es[..n]), es[n]);
    }
  }

  // ---------- what a restore does ----------

  /** After any such run a restore brings back exactly what the slave was told to drive before it reset,
      however often it reset and was read since, with the PWM bits set; what was unknown is not written. */
  lemma RestoreRecovers(w: World, es: seq<Event>, again: Option<Octet>, pwm: Octet)
    requires Start(w) && NoWriteWhilePending(w, es) && ApplyAll(w, es).pending
    ensures var before := ApplyAll(w, es); var after := Apply(before, Restore(again, pwm));
            && !after.pending && (after.flagged <==> again.Some?)
            && (before.savedKnown ==> after.out == Or(before.commanded, pwm) && after.cache == after.out && after.known)
            && (!before.savedKnown ==> after.out == (if again.Some? then again.value else before.out) && !after.known)
  {
    RunIsSound(w, es);
  }

  /** With or without writes in between: what is restored is the byte cached before the first read that
      saw the reset; all later reads up to the restore only saw what the reset left. */
  lemma {:induction false} SavedBeforeFirstSight(w: World, es: seq<Event>) returns (j: nat)
    requires Start(w) && ApplyAll(w, es).pending
    ensures j < |es| && es[j] == Read
    ensures var at := ApplyAll(w, es[..j]); var now := ApplyAll(w, es);
            at.flagged && !at.pending && now.saved == at.cache && now.savedKnown == at.known
    ensures forall k | j < k <= |es| :: ApplyAll(w, es[..k]).pending
  {
    var n := |es| - 1;
    Prefix(es, |es|, |es|);
    if ApplyAll(w, es[..n]).pending {
      j := SavedBeforeFirstSight(w, es[..n]);
      Prefix(es, n, j);
      forall k | j < k <= |es|
        ensures ApplyAll(w, es[..k]).pending
      {
        if k <= n {
          Prefix(es, n, k);
        }
      }
    } else {
      j := n;
    }
  }

  lemma Prefix(es: seq<Event>, n: nat, k: nat)
    requires k <= n <= |es|
    ensures es[..n][..k] == es[..k] && es[..|es|] == es
  {
  }

  /** A write the slave acknowledged, a read while no reset showed, or a restore that had something to restore. */
  ghost predicate Establishes(w: World, e: Event) {
    || e.Write?
    || (e == Read && !w.flagged)
    || (e.Restore? && w.pending && w.savedKnown)
  }

  /** The byte the host takes for known is the one of an acknowledged write, of a read while no reset showed
      or of a restore, and no read saw a reset since. A read while none showed may still bring what a reset
      left, see RestoredFromReset. */
  lemma {:induction false} KnownIsEstablished(w: World, es: seq<Event>) returns (m: nat)
    requires Start(w) && ApplyAll(w, es).known
    ensures m < |es| && Establishes(ApplyAll(w, es[..m]), es[m])
    ensures ApplyAll(w, es[..m + 1]).cache == ApplyAll(w, es).cache
    ensures forall k | m < k < |es| && es[k] == Read :: !ApplyAll(w, es[..k]).flagged
  {
    var n := |es| - 1;
    var w' := ApplyAll(w, es[..n]);
    assert es[..|es|] == es;
    if Establishes(w', es[n]) {
      m := n;
    } else {
      m := KnownIsEstablished(w, es[..n]);
      assert es[..n][..m] == es[..m] && es[..n][..m + 1] == es[..m + 1];
      forall k | m < k < |es| && es[k] == Read
        ensures !ApplyAll(w, es[..k]).flagged
      {
        if k < n {
          assert es[..n][..k] == es[..k] && es[..n][k] == es[k];
        }
      }
    }
  }

  // ---------- where the copy goes wrong ----------

  /** What a write between the read and the restore set is undone by the restore, unless the byte is the
      same. */
  lemma WriteWhilePendingUndone(w: World, pio: Octet, pwm: Octet)
    requires Sound(w) && w.pending && w.savedKnown
    ensures var after := Apply(Apply(w, Write(pio)), Restore(None, pwm));
            after.out == pio <==> Or(w.commanded, pwm) == pio
  {
  }

  /** The one restore after which the copy may be wrong: what to restore is unknown, yet a write since made the
      outputs known. Both are flags of the host. */
  predicate Risky(w: World) {
    w.pending && !w.savedKnown && w.known
  }

  /** Whatever another reset right before the restore, or within it, left: a cache taken for known is what the
      slave drives, if and only if the restore is not the risky one. */
  lemma CopyTrueAfterRestore(w: World, pwm: Octet)
    requires w.pending
    ensures (forall left :: CopyTrue(Apply(ResetTo(w, left), Restore(None, pwm)))) <==> !Risky(w)
    ensures (forall left, again :: CopyTrue(Apply(ResetTo(w, left), Restore(Some(again), pwm)))) <==> !Risky(w)
  {
    if Risky(w) {
      var left := if w.cache == Zero() then Ones() else Zero();
      assert !CopyTrue(Apply(ResetTo(w, left), Restore(None, pwm)));
      assert !CopyTrue(Apply(ResetTo(w, left), Restore(Some(left), pwm)));
    }
  }

  ghost predicate CopyTrue(w: World) {
    w.known ==> w.cache == w.out
  }

  ghost predicate NoRiskyRestore(w: World, es: seq<Event>) {
    forall i | 0 <= i < |es| && es[i].Restore? :: !Risky(ApplyAll(w, es[..i]))
  }

  /** Writes while a restore is due or not: a known cache is what the slave was told, and drives unless it
      shows a reset. */
  ghost predicate CopySound(w: World) {
    && (w.known ==> w.cache == w.commanded)
    && (!w.flagged ==> w.out == w.commanded)
    && (w.pending ==> w.flagged)
  }

  lemma {:induction false} PrefixKeeps(w: World, es: seq<Event>)
    requires es != [] && NoRiskyRestore(w, es)
    ensures NoRiskyRestore(w, es[..|es| - 1])
  {
    var n := |es| - 1;
    forall i | 0 <= i < n && es[..n][i].Restore?
      ensures !Risky(ApplyAll(w, es[..n][..i]))
    {
      assert es[..n][..i] == es[..i] && es[i].Restore?;
    }
  }

  /** Over every run without that restore, whatever is written when: a known cache is what the slave drives,
      or the slave shows a reset. */
  lemma {:induction false} RunKeepsCopy(w: World, es: seq<Event>)
    requires Start(w) && NoRiskyRestore(w, es)
    ensures CopySound(ApplyAll(w, es))
    ensures !ApplyAll(w, es).flagged ==> CopyTrue(ApplyAll(w, es))
  {
    if es != [] {
      var n := |es| - 1;
      PrefixKeeps(w, es);
      RunKeepsCopy(w, es[..n]);
      assert es[n].Restore? ==> !Risky(ApplyAll(w, es[..n]));
    }
  }

  /** And no weaker condition does: a run that gets to that restore has one alike but for a reset more, which
      ends with a wrong copy and no reset to show for it. */
  lemma RiskyRunLosesReset(w: World, es: seq<Event>, pwm: Octet) returns (left: Octet)
    requires Start(w) && Risky(ApplyAll(w, es))
    ensures var r := ApplyAll(w, es + [Reset(left), Restore(None, pwm)]);
            r.known && !r.flagged && !r.pending && r.cache != r.out
  {
    var at := ApplyAll(w, es);
    left := if at.cache == Zero() then Ones() else Zero();
    TwoMore(w, es, Reset(left), Restore(None, pwm));
  }

  /** A short such run: first seen reset with its outputs unknown, then written, reset again before the
      restore. */
  lemma ResetLost(w: World)
    requires Start(w) && w.flagged
    ensures Risky(ApplyAll(w, [Read, Write(Zero())]))
    ensures var after := ApplyAll(w, [Read, Write(Zero()), Reset(Ones()), Restore(None, Zero())]);
            after.known && !after.flagged && !after.pending && after.cache == Zero() && after.out == Ones()
  {
    var e2 := [Read, Write(Zero())];
    assert [] + [Read, Write(Zero())] == e2;
    TwoMore(w, [], Read, Write(Zero()));
    TwoMore(w, e2, Reset(Ones()), Restore(None, Zero()));
    assert e2 + [Reset(Ones()), Restore(None, Zero())] == [Read, Write(Zero()), Reset(Ones()), Restore(None, Zero())];
  }

  lemma TwoMore(w: World, es: seq<Event>, e: Event, f: Event)
    ensures ApplyAll(w, es + [e, f]) == Apply(Apply(ApplyAll(w, es), e), f)
  {
    OneByOne(es, e, f);
    Snoc(w, es, e);
    Snoc(w, es + [e], f);
  }

  lemma OneByOne(es: seq<Event>, e: Event, f: Event)
    ensures es + [e, f] == es + [e] + [f]
  {
  }

  lemma Snoc(w: World, es: seq<Event>, e: Event)
    ensures ApplyAll(w, es + [e]) == Apply(ApplyAll(w, es), e)
  {
    assert (es + [e])[..|es|] == es;
  }
}
