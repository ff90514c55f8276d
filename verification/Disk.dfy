/** A disk that may lose whatever was not synced, and what a crash can leave of a file. */
module Disk {
  import opened Wrappers

  const EINTR := 4

  datatype File = File(data: string, synced: bool)

  /** dirs: the versions of the directory since it was last synced, the last one is what programs see.
      files: the contents by inode. */
  datatype Disk = Disk(dirs: seq<map<string, nat>>, files: map<nat, File>)

  predicate Valid(d: Disk) {
    |d.dirs| > 0 && forall i, name | 0 <= i < |d.dirs| && name in d.dirs[i] :: d.dirs[i][name] in d.files
  }

  function Current(d: Disk): map<string, nat>
    requires |d.dirs| > 0
  {
    d.dirs[|d.dirs| - 1]
  }

  /** What a program reads. */
  function Look(d: Disk, path: string): Option<string>
    requires Valid(d)
  {
    var v := Current(d);
    assert path in v ==> d.dirs[|d.dirs| - 1][path] in d.files;
    if path in v then Some(d.files[v[path]].data) else None
  }

  /** What may be at path when that version of the directory is the one on the disk. Without a sync a file
      may hold anything. */
  ghost predicate LeftBy(v: map<string, nat>, files: map<nat, File>, path: string, r: Option<string>) {
    if path !in v then r.None?
    else v[path] in files && r.Some? && (files[v[path]].synced ==> r.value == files[v[path]].data)
  }

  /** After a crash r may be at path. */
  ghost predicate Outcome(d: Disk, path: string, r: Option<string>) {
    exists i :: 0 <= i < |d.dirs| && LeftBy(d.dirs[i], d.files, path, r)
  }

  /** A crash now leaves what one before would have left, or the text. */
  ghost predicate OldOr(d: Disk, before: Disk, path: string, text: string) {
    forall r | Outcome(d, path, r) :: Outcome(before, path, r) || r == Some(text)
  }

  /** What a crash can leave is the same. */
  ghost predicate SameOutcomes(d: Disk, before: Disk, path: string) {
    forall r :: Outcome(d, path, r) <==> Outcome(before, path, r)
  }

  /** The same, and the text as well. */
  ghost predicate OneMore(d: Disk, before: Disk, path: string, text: string) {
    forall r :: Outcome(d, path, r) <==> Outcome(before, path, r) || r == Some(text)
  }

  /** No version knows the same file by both names. */
  ghost predicate Apart(d: Disk, path: string, tmp: string) {
    forall i | 0 <= i < |d.dirs| && path in d.dirs[i] && tmp in d.dirs[i] :: d.dirs[i][path] != d.dirs[i][tmp]
  }

  /** Nothing at path in any version is that file. */
  ghost predicate NotAt(d: Disk, path: string, ino: nat) {
    forall i | 0 <= i < |d.dirs| && path in d.dirs[i] :: d.dirs[i][path] != ino
  }

  /** One version of the directory is left, of each file what was synced or anything. */
  ghost predicate CrashesTo(d: Disk, c: Disk) {
    && |c.dirs| == 1 && c.dirs[0] in d.dirs && c.files.Keys == d.files.Keys
    && forall ino | ino in d.files :: c.files[ino].synced && (d.files[ino].synced ==> c.files[ino] == d.files[ino])
  }

  lemma CrashOutcome(d: Disk, c: Disk, path: string, r: Option<string>)
    requires CrashesTo(d, c) && Outcome(c, path, r)
    ensures Outcome(d, path, r)
  {
    var i :| 0 <= i < |d.dirs| && d.dirs[i] == c.dirs[0];
    assert LeftBy(d.dirs[i], d.files, path, r);
  }

  // ---------- what keeps the outcomes ----------

  lemma OtherFileChanged(d: Disk, path: string, ino: nat, f: File, r: Option<string>)
    requires NotAt(d, path, ino)
    ensures Outcome(d.(files := d.files[ino := f]), path, r) <==> Outcome(d, path, r)
  {
    var files' := d.files[ino := f];
    forall i | 0 <= i < |d.dirs|
      ensures LeftBy(d.dirs[i], files', path, r) <==> LeftBy(d.dirs[i], d.files, path, r)
    {
    }
  }

  lemma VersionAdded(d: Disk, path: string, v: map<string, nat>, r: Option<string>)
    ensures Outcome(d.(dirs := d.dirs + [v]), path, r) <==> Outcome(d, path, r) || LeftBy(v, d.files, path, r)
  {
    var dirs' := d.dirs + [v];
    assert dirs'[|d.dirs|] == v;
    if Outcome(d, path, r) {
      var i :| 0 <= i < |d.dirs| && LeftBy(d.dirs[i], d.files, path, r);
      assert dirs'[i] == d.dirs[i];
    }
  }

  // ---------- the calls ----------

  /** A directory entry more, less or changed. */
  function WithVersion(d: Disk, v: map<string, nat>): Disk {
    d.(dirs := d.dirs + [v])
  }

  function WithFile(d: Disk, ino: nat, f: File): Disk {
    d.(files := d.files[ino := f])
  }

  function WithEmptied(d: Disk, name: string, ino: nat): Disk
    requires |d.dirs| > 0
  {
    var f := WithFile(d, ino, File("", false));
    if name in Current(d) then f else WithVersion(f, Current(d)[name := ino])
  }

  class FileSystem {
    var disk: Disk
    /** How many calls signals are still going to interrupt: any number, but not for ever. */
    var signals: nat
    /** Every state of the disk there was. */
    var trace: seq<Disk>
    /** How many calls failed for another reason than a signal: those a save depends on, and the others. */
    ghost var failures: nat
    ghost var minor: nat

    /** open() for writing, created or emptied. */
    method OpenTruncated(tmp: string) returns (err: nat, ino: nat)
      requires Valid(disk)
      modifies this`disk, this`trace, this`failures
      ensures failures == old(failures) + if err != 0 then 1 else 0
      ensures err != 0 ==> disk == old(disk) && trace == old(trace)
      ensures err == 0 ==> trace == old(trace) + [disk] && disk == WithEmptied(old(disk), tmp, ino)
      ensures err == 0 ==> if tmp in Current(old(disk)) then ino == Current(old(disk))[tmp] else ino !in old(disk).files
    {
      err := *;
      ino := 0;
      if err != 0 {
        failures := failures + 1;
        return;
      }
      if tmp in Current(disk) {
        ino := Current(disk)[tmp];
        disk := WithFile(disk, ino, File("", false));
      } else {
        ghost var bound := Bounded(disk.files.Keys);
        assert bound !in disk.files;
        ino :| ino !in disk.files;
        disk := WithVersion(WithFile(disk, ino, File("", false)), Current(disk)[tmp := ino]);
      }
      trace := trace + [disk];
    }

    /** write(): any part of it, at least one byte, or an error that leaves anything. */
    method Write(ino: nat, buf: string) returns (n: int, errno: nat, ghost left: string)
      requires ino in disk.files && buf != ""
      modifies this`disk, this`trace, this`signals, this`failures
      ensures failures == old(failures) + if n < 0 && errno != EINTR then 1 else 0
      ensures n < 0 ==> errno != 0 && (errno == EINTR ==> disk == old(disk) && trace == old(trace) && signals < old(signals))
      ensures n < 0 && errno != EINTR ==> disk == WithFile(old(disk), ino, File(left, false))
      ensures n >= 0 ==> 1 <= n <= |buf| && disk == WithFile(old(disk), ino, File(old(disk).files[ino].data + buf[..n], false))
      ensures signals <= old(signals)
      ensures (disk == old(disk) && trace == old(trace)) || trace == old(trace) + [disk]
    {
      left := "";
      var interrupted: bool := *;
      if interrupted && signals > 0 {
        signals := signals - 1;
        return -1, EINTR, left;
      }
      n, errno := *, *;
      if 1 <= n <= |buf| {
        disk := WithFile(disk, ino, File(disk.files[ino].data + buf[..n], false));
      } else {
        n := -1;
        failures := failures + 1;
        if errno == 0 || errno == EINTR {
          errno := 5;
        }
        var data: string := *;
        disk := WithFile(disk, ino, File(data, false));
        left := data;
      }
      trace := trace + [disk];
    }

    /** fsync() of a file. */
    method Sync(ino: nat) returns (err: nat)
      requires ino in disk.files
      modifies this`disk, this`trace, this`failures
      ensures failures == old(failures) + if err != 0 then 1 else 0
      ensures err == 0 ==> disk == WithFile(old(disk), ino, old(disk).files[ino].(synced := true))
                           && trace == old(trace) + [disk]
      ensures err != 0 ==> disk == old(disk) && trace == old(trace)
    {
      err := *;
      if err == 0 {
        disk := WithFile(disk, ino, disk.files[ino].(synced := true));
        trace := trace + [disk];
      } else {
        failures := failures + 1;
      }
    }

    method Close() returns (err: nat)
      modifies this`failures
      ensures failures == old(failures) + if err != 0 then 1 else 0
    {
      err := *;
      failures := failures + if err != 0 then 1 else 0;
    }

    method Rename(from: string, to: string) returns (err: nat)
      requires |disk.dirs| > 0 && from in Current(disk)
      modifies this`disk, this`trace, this`failures
      ensures failures == old(failures) + if err != 0 then 1 else 0
      ensures err == 0 ==> disk == WithVersion(old(disk), (Current(old(disk)) - {from})[to := Current(old(disk))[from]])
                           && trace == old(trace) + [disk]
      ensures err != 0 ==> disk == old(disk) && trace == old(trace)
    {
      err := *;
      if err == 0 {
        disk := WithVersion(disk, (Current(disk) - {from})[to := Current(disk)[from]]);
        trace := trace + [disk];
      } else {
        failures := failures + 1;
      }
    }

    method Unlink(name: string) returns (err: nat)
      requires |disk.dirs| > 0
      modifies this`disk, this`trace, this`minor
      ensures minor == old(minor) + if err != 0 then 1 else 0
      ensures err == 0 ==> disk == WithVersion(old(disk), Current(old(disk)) - {name}) && trace == old(trace) + [disk]
      ensures err != 0 ==> disk == old(disk) && trace == old(trace)
    {
      err := *;
      if err == 0 {
        disk := WithVersion(disk, Current(disk) - {name});
        trace := trace + [disk];
      } else {
        minor := minor + 1;
      }
    }

    /** open() and fsync() of the directory. */
    method SyncDir() returns (found: bool, synced: bool)
      requires |disk.dirs| > 0
      modifies this`disk, this`trace, this`minor
      ensures minor == old(minor) + if synced then 0 else 1
      ensures synced ==> disk == old(disk).(dirs := [Current(old(disk))]) && trace == old(trace) + [disk]
      ensures !synced ==> disk == old(disk) && trace == old(trace)
    {
      found, synced := *, *;
      synced := found && synced;
      if synced {
        disk := disk.(dirs := [Current(disk)]);
        trace := trace + [disk];
      } else {
        minor := minor + 1;
      }
    }

    /** Power failed while the disk was d. */
    method CrashAt(d: Disk)
      requires Valid(d)
      modifies this`disk, this`trace
      ensures Valid(disk) && CrashesTo(d, disk) && trace == old(trace) + [disk]
    {
      var i: nat := *;
      var v := if 0 <= i < |d.dirs| then d.dirs[i] else d.dirs[0];
      var garbage: map<nat, string> := *;
      var files := map ino | ino in d.files ::
        if d.files[ino].synced then d.files[ino] else File(if ino in garbage then garbage[ino] else "", true);
      disk := Disk([v], files);
      trace := trace + [disk];
    }
  }

  lemma Bounded(s: set<nat>) returns (m: nat)
    ensures forall x | x in s :: x < m
    decreases s
  {
    if s == {} {
      m := 0;
    } else {
      var x :| x in s;
      m := Bounded(s - {x});
      m := if x < m then m else x + 1;
      assert s == s - {x} + {x};
    }
  }
}
