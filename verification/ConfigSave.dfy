/** OwDevices::save() of src/ow_devices.cpp: a temporary file, synced, renamed over the old one. */
module ConfigSave {
  import opened Disk
  import opened Wrappers

  /** Before a save: what the temporary name leads to is no version's configuration file. */
  ghost predicate Ready(d: Disk, path: string, tmp: string) {
    && Valid(d) && path != tmp && Apart(d, path, tmp)
    && (tmp in Current(d) ==> NotAt(d, path, Current(d)[tmp]))
  }

  /** Between open() and rename(): the temporary file is where the current directory says, and only there. */
  ghost predicate Writing(d: Disk, before: Disk, path: string, tmp: string, ino: nat) {
    && Ready(d, path, tmp) && tmp in Current(d) && Current(d)[tmp] == ino && NotAt(d, path, ino)
    && SameOutcomes(d, before, path)
    && Valid(before) && Look(d, path) == Look(before, path)
  }

  // ---------- what each step keeps ----------

  lemma FileTouched(d: Disk, before: Disk, path: string, tmp: string, ino: nat, f: File)
    requires Writing(d, before, path, tmp, ino)
    ensures Writing(WithFile(d, ino, f), before, path, tmp, ino)
  {
    forall r
      ensures Outcome(WithFile(d, ino, f), path, r) <==> Outcome(before, path, r)
    {
      OtherFileChanged(d, path, ino, f, r);
    }
  }

  lemma Opened(d: Disk, path: string, tmp: string, ino: nat)
    requires Ready(d, path, tmp)
    requires if tmp in Current(d) then ino == Current(d)[tmp] else ino !in d.files
    ensures Writing(WithEmptied(d, tmp, ino), d, path, tmp, ino) && WithEmptied(d, tmp, ino).files[ino].data == ""
  {
    var f := WithFile(d, ino, File("", false));
    var last := |d.dirs| - 1;
    assert NotAt(d, path, ino);
    if tmp in Current(d) {
      forall r
        ensures Outcome(f, path, r) <==> Outcome(d, path, r)
      {
        OtherFileChanged(d, path, ino, File("", false), r);
      }
    } else {
      var v := Current(d)[tmp := ino];
      forall r
        ensures Outcome(WithVersion(f, v), path, r) <==> Outcome(d, path, r)
      {
        VersionAdded(f, path, v, r);
        OtherFileChanged(d, path, ino, File("", false), r);
        assert LeftBy(v, f.files, path, r) ==> LeftBy(f.dirs[last], f.files, path, r);
      }
    }
  }

  lemma Renamed(d: Disk, before: Disk, path: string, tmp: string, ino: nat, text: string)
    requires Writing(d, before, path, tmp, ino) && d.files[ino] == File(text, true)
    ensures var r := WithVersion(d, (Current(d) - {tmp})[path := ino]);
            Ready(r, path, tmp) && OneMore(r, before, path, text) && Look(r, path) == Some(text)
  {
    var v := (Current(d) - {tmp})[path := ino];
    forall r
      ensures Outcome(WithVersion(d, v), path, r) <==> Outcome(before, path, r) || r == Some(text)
    {
      VersionAdded(d, path, v, r);
    }
  }

  lemma Unlinked(d: Disk, before: Disk, path: string, tmp: string, ino: nat)
    requires Writing(d, before, path, tmp, ino)
    ensures var r := WithVersion(d, Current(d) - {tmp});
            Ready(r, path, tmp) && SameOutcomes(r, before, path) && Look(r, path) == Look(before, path)
  {
    var v := Current(d) - {tmp};
    forall r
      ensures Outcome(WithVersion(d, v), path, r) <==> Outcome(before, path, r)
    {
      VersionAdded(d, path, v, r);
      assert LeftBy(v, d.files, path, r) ==> LeftBy(d.dirs[|d.dirs| - 1], d.files, path, r);
    }
  }

  lemma DirSynced(d: Disk, path: string, tmp: string, text: string)
    requires Ready(d, path, tmp) && Look(d, path) == Some(text) && d.files[Current(d)[path]].synced
    ensures var r := d.(dirs := [Current(d)]);
            Ready(r, path, tmp) && Look(r, path) == Some(text) && forall o :: Outcome(r, path, o) <==> o == Some(text)
  {
    var last := |d.dirs| - 1;
    assert d.dirs[last] == Current(d);
    var r := d.(dirs := [Current(d)]);
    forall o
      ensures Outcome(r, path, o) <==> o == Some(text)
    {
      assert LeftBy(r.dirs[0], r.files, path, Some(text));
    }
  }

  // ---------- the moments of a save ----------

  /** How far it got: nothing done; the temporary file open, holding f; given up and unlinked; renamed; the
      directory synced. */
  datatype Moment = Untouched | Begun(ino: nat, f: File) | Dropped(ino: nat, f: File) | Replaced(ino: nat) | Settled(ino: nat)

  function Temporary(before: Disk, tmp: string, ino: nat, f: File): Disk
    requires |before.dirs| > 0
  {
    WithFile(WithEmptied(before, tmp, ino), ino, f)
  }

  function Moved(before: Disk, path: string, tmp: string, ino: nat, text: string): Disk
    requires |before.dirs| > 0
  {
    var d := Temporary(before, tmp, ino, File(text, true));
    WithVersion(d, (Current(d) - {tmp})[path := ino])
  }

  function At(before: Disk, m: Moment, path: string, tmp: string, text: string): Disk
    requires |before.dirs| > 0
  {
    match m
    case Untouched => before
    case Begun(ino, f) => Temporary(before, tmp, ino, f)
    case Dropped(ino, f) => var d := Temporary(before, tmp, ino, f); WithVersion(d, Current(d) - {tmp})
    case Replaced(ino) => Moved(before, path, tmp, ino, text)
    case Settled(ino) => var d := Moved(before, path, tmp, ino, text); d.(dirs := [Current(d)])
  }

  /** What open() may return. */
  predicate CanOpen(before: Disk, tmp: string, ino: nat)
    requires |before.dirs| > 0
  {
    if tmp in Current(before) then ino == Current(before)[tmp] else ino !in before.files
  }

  predicate CanBe(before: Disk, m: Moment, tmp: string)
    requires |before.dirs| > 0
  {
    m.Untouched? || CanOpen(before, tmp, m.ino)
  }

  predicate IsDone(m: Moment) {
    m.Replaced? || m.Settled?
  }

  lemma TemporaryKeeps(before: Disk, path: string, tmp: string, ino: nat, f: File)
    requires Ready(before, path, tmp) && CanOpen(before, tmp, ino)
    ensures Writing(Temporary(before, tmp, ino, f), before, path, tmp, ino)
    ensures Temporary(before, tmp, ino, f).files[ino] == f
  {
    Opened(before, path, tmp, ino);
    FileTouched(WithEmptied(before, tmp, ino), before, path, tmp, ino, f);
  }

  /** A crash leaves what one before would have left, or all of the new text; the next save can start; until
      the rename nothing is lost or gained, from then on the new text is read; after the sync of the directory
      it is all that a crash leaves. */
  ghost predicate Keeps(d: Disk, before: Disk, m: Moment, path: string, tmp: string, text: string) {
    && Ready(d, path, tmp) && Valid(before) && OldOr(d, before, path, text)
    && (!IsDone(m) ==> Look(d, path) == Look(before, path) && SameOutcomes(d, before, path))
    && (IsDone(m) ==> Look(d, path) == Some(text))
    && (m.Replaced? ==> OneMore(d, before, path, text))
    && (m.Settled? ==> forall o :: Outcome(d, path, o) <==> o == Some(text))
  }

  /** So it is at every moment. */
  lemma MomentKeeps(before: Disk, m: Moment, path: string, tmp: string, text: string)
    requires Ready(before, path, tmp) && CanBe(before, m, tmp)
    ensures Keeps(At(before, m, path, tmp, text), before, m, path, tmp, text)
  {
    match m
    case Untouched =>
    case Begun(ino, f) => TemporaryKeeps(before, path, tmp, ino, f);
    case Dropped(ino, f) =>
      TemporaryKeeps(before, path, tmp, ino, f);
      Unlinked(Temporary(before, tmp, ino, f), before, path, tmp, ino);
    case Replaced(ino) => MovedKeeps(before, path, tmp, ino, text);
    case Settled(ino) =>
      MovedKeeps(before, path, tmp, ino, text);
      DirSynced(Moved(before, path, tmp, ino, text), path, tmp, text);
  }

  lemma MovedKeeps(before: Disk, path: string, tmp: string, ino: nat, text: string)
    requires Ready(before, path, tmp) && CanOpen(before, tmp, ino)
    ensures var r := Moved(before, path, tmp, ino, text);
            Ready(r, path, tmp) && OneMore(r, before, path, text) && Look(r, path) == Some(text)
            && Current(r)[path] == ino && r.files[ino].synced
  {
    TemporaryKeeps(before, path, tmp, ino, File(text, true));
    Renamed(Temporary(before, tmp, ino, File(text, true)), before, path, tmp, ino, text);
  }

  // ---------- the save ----------

  /** The disk went through nothing but such moments. */
  ghost predicate Went(trace: seq<Disk>, from: nat, before: Disk, path: string, tmp: string, text: string)
    requires |before.dirs| > 0
  {
    forall k | from <= k < |trace| :: IsMoment(trace[k], before, path, tmp, text)
  }

  ghost predicate IsMoment(d: Disk, before: Disk, path: string, tmp: string, text: string)
    requires |before.dirs| > 0
  {
    exists m :: CanBe(before, m, tmp) && d == At(before, m, path, tmp, text)
  }

  lemma WentKeeps(trace: seq<Disk>, from: nat, before: Disk, path: string, tmp: string, text: string)
    requires Ready(before, path, tmp) && Went(trace, from, before, path, tmp, text)
    ensures forall k | from <= k < |trace| :: Ready(trace[k], path, tmp) && OldOr(trace[k], before, path, text)
  {
    forall k | from <= k < |trace|
      ensures Ready(trace[k], path, tmp) && OldOr(trace[k], before, path, text)
    {
      var m :| CanBe(before, m, tmp) && trace[k] == At(before, m, path, tmp, text);
      MomentKeeps(before, m, path, tmp, text);
    }
  }

  /** The temporary file is open and nothing else was done. */
  ghost predicate IsOpen(d: Disk, before: Disk, path: string, tmp: string, ino: nat) {
    Ready(before, path, tmp) && CanOpen(before, tmp, ino) && ino in d.files && d == Temporary(before, tmp, ino, d.files[ino])
  }

  lemma OpenTouched(d: Disk, before: Disk, path: string, tmp: string, ino: nat, f: File, text: string)
    requires IsOpen(d, before, path, tmp, ino)
    ensures IsOpen(WithFile(d, ino, f), before, path, tmp, ino) && WithFile(d, ino, f).files[ino] == f
    ensures IsMoment(WithFile(d, ino, f), before, path, tmp, text)
    ensures tmp in Current(d) && Current(d)[tmp] == ino
  {
    var e := WithEmptied(before, tmp, ino);
    assert e.files[ino := d.files[ino]][ino := f] == e.files[ino := f];
    assert WithFile(d, ino, f) == At(before, Begun(ino, f), path, tmp, text);
  }

  method WriteAll(fs: FileSystem, ino: nat, text: string, ghost before: Disk, ghost path: string, ghost tmp: string)
    returns (err: nat)
    requires IsOpen(fs.disk, before, path, tmp, ino) && fs.disk.files[ino].data == ""
    modifies fs
    ensures IsOpen(fs.disk, before, path, tmp, ino) && (err == 0 ==> fs.disk.files[ino].data == text)
    ensures (if err == 0 then fs.failures == old(fs.failures) else fs.failures > old(fs.failures)) && fs.minor == old(fs.minor)
    ensures old(fs.trace) <= fs.trace && Went(fs.trace, |old(fs.trace)|, before, path, tmp, text)
  {
    var p := 0;
    assert text[..0] == "";
    while p < |text|
      invariant p <= |text| && IsOpen(fs.disk, before, path, tmp, ino) && fs.disk.files[ino].data == text[..p]
      invariant old(fs.trace) <= fs.trace && Went(fs.trace, |old(fs.trace)|, before, path, tmp, text)
      invariant fs.failures == old(fs.failures) && fs.minor == old(fs.minor)
      decreases |text| - p, fs.signals
    {
      ghost var d := fs.disk;
      var n, errno, left := fs.Write(ino, text[p..]);
      if n < 0 {
        if errno == EINTR {
          continue;
        }
        OpenTouched(d, before, path, tmp, ino, File(left, false), text);
        return errno;
      }
      OpenTouched(d, before, path, tmp, ino, File(text[..p] + text[p..][..n], false), text);
      assert text[..p] + text[p..][..n] == text[..p + n];
      p := p + n;
    }
    assert text[..p] == text;
    err := 0;
  }

  /** 0: the text is on the disk. */
  method WriteSynced(fs: FileSystem, ino: nat, text: string, ghost before: Disk, ghost path: string, ghost tmp: string)
    returns (err: nat)
    requires IsOpen(fs.disk, before, path, tmp, ino) && fs.disk.files[ino].data == ""
    modifies fs
    ensures IsOpen(fs.disk, before, path, tmp, ino) && (err == 0 ==> fs.disk.files[ino] == File(text, true))
    ensures (if err == 0 then fs.failures == old(fs.failures) else fs.failures > old(fs.failures)) && fs.minor == old(fs.minor)
    ensures old(fs.trace) <= fs.trace && Went(fs.trace, |old(fs.trace)|, before, path, tmp, text)
  {
    err := WriteAll(fs, ino, text, before, path, tmp);
    if err == 0 {
      ghost var d := fs.disk;
      OpenTouched(d, before, path, tmp, ino, d.files[ino].(synced := true), text);
      err := fs.Sync(ino);
    }
    var closed := fs.Close();
    if closed != 0 && err == 0 {
      err := closed;
    }
  }

  /** 0, or a negative errno if a call failed for another reason than a signal. m: how far it got; without further
      failures the directory is synced, or the temporary file gone. */
  method Save(fs: FileSystem, path: string, tmp: string, text: string) returns (r: int, ghost m: Moment)
    requires Ready(fs.disk, path, tmp)
    modifies fs
    ensures CanBe(old(fs.disk), m, tmp) && fs.disk == At(old(fs.disk), m, path, tmp, text)
    ensures r <= 0 && (r == 0 <==> IsDone(m)) && Keeps(fs.disk, old(fs.disk), m, path, tmp, text)
    ensures r == 0 <==> fs.failures == old(fs.failures)
    ensures fs.minor == old(fs.minor) ==> m.Untouched? || m.Dropped? || m.Settled?
    ensures old(fs.trace) <= fs.trace && Went(fs.trace, |old(fs.trace)|, old(fs.disk), path, tmp, text)
    ensures forall k | |old(fs.trace)| <= k < |fs.trace| ::
              Ready(fs.trace[k], path, tmp) && OldOr(fs.trace[k], old(fs.disk), path, text)
  {
    ghost var before := fs.disk;
    var err;
    err, m := Replace(fs, path, tmp, text);
    if err == 0 {
      var found, synced := fs.SyncDir();
      m := if synced then Settled(m.ino) else m;
      assert fs.disk == At(before, m, path, tmp, text);
    }
    MomentKeeps(before, m, path, tmp, text);
    WentKeeps(fs.trace, |old(fs.trace)|, before, path, tmp, text);
    r := -(err as int);
  }

  /** Up to the rename, or the unlink. */
  method Replace(fs: FileSystem, path: string, tmp: string, text: string) returns (err: nat, ghost m: Moment)
    requires Ready(fs.disk, path, tmp)
    modifies fs
    ensures CanBe(old(fs.disk), m, tmp) && fs.disk == At(old(fs.disk), m, path, tmp, text)
    ensures if err == 0 then m.Replaced? else !IsDone(m)
    ensures err == 0 <==> fs.failures == old(fs.failures)
    ensures fs.minor == old(fs.minor) ==> !m.Begun?
    ensures err == 0 ==> fs.minor == old(fs.minor)
    ensures old(fs.trace) <= fs.trace && Went(fs.trace, |old(fs.trace)|, old(fs.disk), path, tmp, text)
  {
    ghost var before := fs.disk;
    var ino;
    err, ino := fs.OpenTruncated(tmp);
    if err != 0 {
      return err, Untouched;
    }
    assert fs.disk == WithFile(fs.disk, ino, File("", false));
    assert fs.disk == At(before, Begun(ino, File("", false)), path, tmp, text);
    err := WriteSynced(fs, ino, text, before, path, tmp);
    ghost var f := fs.disk.files[ino];
    OpenTouched(fs.disk, before, path, tmp, ino, f, text);
    if err == 0 {
      err := fs.Rename(tmp, path);
    }
    m := Replaced(ino);
    if err != 0 {
      var gone := fs.Unlink(tmp);
      m := if gone == 0 then Dropped(ino, f) else Begun(ino, f);
    }
    assert fs.disk == At(before, m, path, tmp, text);
  }

  // ---------- any run of saves and crashes ----------

  /** A save that returned, or one that a crash cut off. */
  datatype Step = Saved(text: string, m: Moment) | CutOff(text: string, m: Moment)

  ghost predicate Happens(d: Disk, s: Step, d': Disk, path: string, tmp: string) {
    && |d.dirs| > 0 && CanBe(d, s.m, tmp)
    && if s.Saved? then d' == At(d, s.m, path, tmp, s.text) else CrashesTo(At(d, s.m, path, tmp, s.text), d')
  }

  lemma CrashIsReady(d: Disk, c: Disk, path: string, tmp: string)
    requires Ready(d, path, tmp) && CrashesTo(d, c)
    ensures Ready(c, path, tmp) && forall r | Outcome(c, path, r) :: Outcome(d, path, r)
  {
  }

  /** Of a step only the text of a save that got to its rename may come in. */
  lemma StepKeeps(d: Disk, s: Step, d': Disk, path: string, tmp: string)
    requires Ready(d, path, tmp) && Happens(d, s, d', path, tmp)
    ensures Ready(d', path, tmp)
    ensures forall r | Outcome(d', path, r) :: Outcome(d, path, r) || (IsDone(s.m) && r == Some(s.text))
  {
    MomentKeeps(d, s.m, path, tmp, s.text);
    if s.CutOff? {
      CrashIsReady(At(d, s.m, path, tmp, s.text), d', path, tmp);
    }
  }

  /** ds: the disk at first and after each step. */
  ghost predicate IsRun(ds: seq<Disk>, steps: seq<Step>, path: string, tmp: string) {
    && |ds| == |steps| + 1 && Ready(ds[0], path, tmp)
    && forall i | 0 <= i < |steps| :: IsStep(ds, i, steps[i], path, tmp)
  }

  ghost predicate IsStep(ds: seq<Disk>, i: nat, s: Step, path: string, tmp: string) {
    i + 1 < |ds| && Happens(ds[i], s, ds[i + 1], path, tmp)
  }

  lemma {:induction false} RunIsReady(ds: seq<Disk>, steps: seq<Step>, path: string, tmp: string, k: nat)
    requires IsRun(ds, steps, path, tmp) && k <= |steps|
    ensures Ready(ds[k], path, tmp)
  {
    if k > 0 {
      RunIsReady(ds, steps, path, tmp, k - 1);
      assert IsStep(ds, k - 1, steps[k - 1], path, tmp);
      StepKeeps(ds[k - 1], steps[k - 1], ds[k], path, tmp);
    }
  }

  /** After any run of saves that returned and saves cut off, what a crash leaves is what one could have left
      after step k, or all of the text of a save since that got to its rename. */
  lemma {:induction false} RunHolds(ds: seq<Disk>, steps: seq<Step>, path: string, tmp: string, k: nat, n: nat, r: Option<string>)
    requires IsRun(ds, steps, path, tmp) && k <= n <= |steps| && Outcome(ds[n], path, r)
    ensures Outcome(ds[k], path, r) || exists i :: k <= i < n && Brings(steps[i], r)
    decreases n
  {
    if k < n {
      RunIsReady(ds, steps, path, tmp, n - 1);
      assert IsStep(ds, n - 1, steps[n - 1], path, tmp);
      StepKeeps(ds[n - 1], steps[n - 1], ds[n], path, tmp);
      if !Brings(steps[n - 1], r) {
        RunHolds(ds, steps, path, tmp, k, n - 1, r);
      }
    }
  }

  predicate Brings(s: Step, r: Option<string>) {
    IsDone(s.m) && r == Some(s.text)
  }

  /** A save whose directory was synced is never gone back on: whatever happens after it, a crash leaves all of
      its text or of a later one that got to its rename. */
  lemma SettledStays(ds: seq<Disk>, steps: seq<Step>, path: string, tmp: string, k: nat, r: Option<string>)
    requires IsRun(ds, steps, path, tmp) && k < |steps| && steps[k].m.Settled? && Outcome(ds[|steps|], path, r)
    ensures exists i :: k <= i < |steps| && Brings(steps[i], r)
  {
    RunIsReady(ds, steps, path, tmp, k);
    assert IsStep(ds, k, steps[k], path, tmp);
    MomentKeeps(ds[k], steps[k].m, path, tmp, steps[k].text);
    RunHolds(ds, steps, path, tmp, k + 1, |steps|, r);
    if Outcome(ds[k + 1], path, r) {
      if steps[k].CutOff? {
        CrashOutcome(At(ds[k], steps[k].m, path, tmp, steps[k].text), ds[k + 1], path, r);
      }
      assert Brings(steps[k], r);
    }
  }

  /** The program's life: one save after the other, each of them maybe cut off. Its disks are such a run. */
  method Life(fs: FileSystem, path: string, tmp: string, texts: seq<string>) returns (ghost ds: seq<Disk>, ghost steps: seq<Step>)
    requires Ready(fs.disk, path, tmp)
    modifies fs
    ensures IsRun(ds, steps, path, tmp) && ds[0] == old(fs.disk) && ds[|steps|] == fs.disk
    ensures |steps| == |texts| && forall i | 0 <= i < |texts| :: steps[i].text == texts[i]
  {
    ds, steps := [fs.disk], [];
    for i := 0 to |texts|
      invariant |steps| == i && IsRun(ds, steps, path, tmp) && ds[0] == old(fs.disk) && ds[i] == fs.disk
      invariant forall k | 0 <= k < i :: steps[k].text == texts[k]
    {
      RunIsReady(ds, steps, path, tmp, i);
      ghost var s := SaveOrCrash(fs, path, tmp, texts[i]);
      RunGoesOn(ds, steps, path, tmp, s, fs.disk);
      ds, steps := ds + [fs.disk], steps + [s];
    }
  }

  lemma RunGoesOn(ds: seq<Disk>, steps: seq<Step>, path: string, tmp: string, s: Step, d: Disk)
    requires IsRun(ds, steps, path, tmp) && Happens(ds[|steps|], s, d, path, tmp)
    ensures IsRun(ds + [d], steps + [s], path, tmp)
  {
    forall i | 0 <= i < |steps| + 1
      ensures IsStep(ds + [d], i, (steps + [s])[i], path, tmp)
    {
      assert i < |steps| ==> IsStep(ds, i, steps[i], path, tmp);
    }
  }

  /** A save, or a crash before it or at any state of the disk on the way. */
  method SaveOrCrash(fs: FileSystem, path: string, tmp: string, text: string) returns (ghost s: Step)
    requires Ready(fs.disk, path, tmp)
    modifies fs
    ensures Happens(old(fs.disk), s, fs.disk, path, tmp) && s.text == text
  {
    ghost var before := fs.disk;
    var early: bool := *;
    if early {
      fs.CrashAt(fs.disk);
      return CutOff(text, Untouched);
    }
    var from := |fs.trace|;
    var r, m := Save(fs, path, tmp, text);
    s := Saved(text, m);
    var k: nat := *;
    if from <= k < |fs.trace| {
      ghost var at :| CanBe(before, at, tmp) && fs.trace[k] == At(before, at, path, tmp, text);
      MomentKeeps(before, at, path, tmp, text);
      fs.CrashAt(fs.trace[k]);
      s := CutOff(text, at);
    }
  }
}
