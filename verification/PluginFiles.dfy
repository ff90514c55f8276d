/** The files plugins add to the file system, of src/plugins.cpp: a flat map of paths that stays a tree. */
module PluginFiles {
  import opened Getline
  import opened Wrappers

  const ENOENT := 2

  datatype File = File(owner: nat, size: int)

  type Files = map<string, File>

  // ---------- paths ----------

  /** What stands between the slashes. */
  function Parts(path: string): seq<string> {
    Split(path, '/')
  }

  predicate IsName(part: string) {
    part != "" && part != "." && part != ".."
  }

  predicate AreNames(parts: seq<string>) {
    forall i | 0 <= i < |parts| :: IsName(parts[i])
  }

  predicate IsValid(path: string) {
    AreNames(Parts(path))
  }

  predicate IsBelow(path: string, dir: string) {
    |path| > |dir| && path[..|dir|] == dir && path[|dir|] == '/'
  }

  method ValidPath(path: string) returns (ok: bool)
    ensures ok == IsValid(path)
  {
    if path == "" {
      NextPart(path);
      return false;
    }
    var start := 0;
    ghost var left := path;
    while true
      invariant start <= |path| && left == path[start..] && (IsValid(path) <==> IsValid(left))
      decreases |path| - start
    {
      NextPart(left);
      var n := FieldEnd(path[start..], '/');
      var part := path[start..][..n];
      if part == "" || part == "." || part == ".." {
        return false;
      }
      if start + n == |path| {
        return true;
      }
      DropTwice(path, start, n + 1);
      left := left[n + 1..];
      start := start + n + 1;
    }
  }

  lemma NextPart(path: string)
    ensures var n := FieldEnd(path, '/');
            IsValid(path) <==> IsName(path[..n]) && (n < |path| ==> IsValid(path[n + 1..]))
  {
    var n := FieldEnd(path, '/');
    if n == |path| {
      WholePart(path, n);
      HeadIsName(path[..n], []);
    } else {
      HeadIsName(path[..n], Parts(path[n + 1..]));
    }
  }

  lemma WholePart(path: string, n: nat)
    requires n == |path|
    ensures [path] == [path[..n]] + []
  {
    assert path[..n] == path;
  }

  lemma HeadIsName(part: string, parts: seq<string>)
    ensures AreNames([part] + parts) <==> IsName(part) && AreNames(parts)
  {
    if AreNames([part] + parts) {
      assert IsName(([part] + parts)[0]);
      forall i | 0 <= i < |parts|
        ensures IsName(parts[i])
      {
        assert IsName(([part] + parts)[i + 1]);
      }
    }
  }

  // ---------- the tree the map stands for ----------

  /** The file itself, or 0 for a directory, see file_attr(). */
  function Attr(files: Files, path: string): int {
    if path in files then files[path].size
    else if exists p :: p in files && IsBelow(p, path) then 0
    else -ENOENT
  }

  /** What is left of a path below dir. */
  function Rest(path: string, dir: string): Option<string> {
    if dir == "" then Some(path) else if IsBelow(path, dir) then Some(path[|dir| + 1..]) else None
  }

  function FirstName(rest: string): string {
    rest[..FieldEnd(rest, '/')]
  }

  predicate Lists(files: Files, dir: string, name: string) {
    exists p :: p in files && Rest(p, dir).Some? && FirstName(Rest(p, dir).value) == name
  }

  /** No file where another one needs a directory. */
  predicate PrefixFree(files: Files) {
    forall p, q | p in files && q in files :: !IsBelow(p, q)
  }

  predicate WellFormed(files: Files, taken: string -> bool) {
    && PrefixFree(files)
    && forall p | p in files :: IsValid(p) && !taken(p) && files[p].size >= 1
  }

  predicate Clashes(files: Files, path: string) {
    exists p :: p in files && (IsBelow(p, path) || IsBelow(path, p))
  }

  predicate MayAdd(files: Files, taken: string -> bool, owner: Option<nat>, path: string, size: int) {
    && owner.Some? && size >= 1 && IsValid(path) && !taken(path)
    && (if path in files then files[path].owner == owner.value else !Clashes(files, path))
  }

  class Plugins {
    /** fs_builtin_taken(): the daemon's own names. */
    const taken: string -> bool
    var files: Files

    predicate Valid()
      reads this
    {
      WellFormed(files, taken)
    }

    constructor (taken: string -> bool)
      ensures Valid() && this.taken == taken && files == map[]
    {
      this.taken := taken;
      files := map[];
    }

    method FileAdd(owner: Option<nat>, path: string, size: int) returns (ok: bool)
      requires Valid()
      modifies this`files
      ensures Valid() && ok == MayAdd(old(files), taken, owner, path, size)
      ensures files == if ok then old(files)[path := File(owner.value, size)] else old(files)
    {
      if owner == None || size < 1 {
        return false;
      }
      var valid := ValidPath(path);
      if !valid || taken(path) {
        return false;
      }
      if path in files {
        if files[path].owner != owner.value {
          return false;
        }
        files := files[path := files[path].(size := size)];
        return true;
      }
      var left := files.Keys;
      while left != {}
        invariant left <= files.Keys
        invariant forall p | p in files && p !in left :: !IsBelow(p, path) && !IsBelow(path, p)
        decreases left
      {
        var p :| p in left;
        left := left - {p};
        if IsBelow(p, path) || IsBelow(path, p) {
          return false;
        }
      }
      files := files[path := File(owner.value, size)];
      ok := true;
    }

    method FileRemove(owner: nat, path: string) returns (ok: bool)
      requires Valid()
      modifies this`files
      ensures Valid() && ok == (path in old(files) && old(files)[path].owner == owner)
      ensures files == if ok then old(files) - {path} else old(files)
    {
      if path !in files || files[path].owner != owner {
        return false;
      }
      files := files - {path};
      ok := true;
    }

    /** For a plugin that is unloaded. */
    method FilesDrop(owner: nat)
      requires Valid()
      modifies this`files
      ensures Valid() && files == map p | p in old(files) && old(files)[p].owner != owner :: old(files)[p]
    {
      files := map p | p in files && files[p].owner != owner :: files[p];
    }

    method FileAttr(path: string) returns (r: int)
      ensures r == Attr(files, path)
    {
      if path in files {
        return files[path].size;
      }
      var left := files.Keys;
      while left != {}
        invariant left <= files.Keys && forall p | p in files && p !in left :: !IsBelow(p, path)
        decreases left
      {
        var p :| p in left;
        left := left - {p};
        if IsBelow(p, path) {
          return 0;
        }
      }
      r := -ENOENT;
    }

    /** Each name once, in order. */
    method FileDir(dir: string) returns (names: seq<string>)
      ensures forall n :: n in names <==> Lists(files, dir, n)
      ensures IsSorted(names) && forall i, j | 0 <= i < j < |names| :: names[i] != names[j]
    {
      names := [];
      var left := files.Keys;
      while left != {}
        invariant left <= files.Keys && IsSorted(names)
        invariant forall n :: n in names <==>
                    exists p :: p in files && p !in left && Rest(p, dir).Some? && FirstName(Rest(p, dir).value) == n
        decreases left
      {
        var p :| p in left;
        left := left - {p};
        if dir == "" || IsBelow(p, dir) {
          var rest := if dir == "" then p else p[|dir| + 1..];
          names := Insert(names, rest[..FieldEnd(rest, '/')]);
        }
      }
      forall i, j | 0 <= i < j < |names|
        ensures names[i] != names[j]
      {
        BeforeOneWay(names[i], names[j]);
      }
    }
  }

  // ---------- the order of names ----------

  /** Character by character, a prefix first. */
  predicate Before(a: string, b: string)
    decreases |a|
  {
    b != "" && (a == "" || a[0] < b[0] || (a[0] == b[0] && Before(a[1..], b[1..])))
  }

  lemma {:induction false} BeforeTotal(a: string, b: string)
    ensures a == b || Before(a, b) || Before(b, a)
    decreases |a|
  {
    if a != "" && b != "" && a[0] == b[0] {
      BeforeTotal(a[1..], b[1..]);
      if a[1..] == b[1..] {
        assert a == [a[0]] + a[1..] && b == [b[0]] + b[1..];
      }
    }
  }

  lemma {:induction false} BeforeChains(a: string, b: string, c: string)
    requires Before(a, b) && Before(b, c)
    ensures Before(a, c)
    decreases |a|
  {
    if a != "" && a[0] == b[0] == c[0] {
      BeforeChains(a[1..], b[1..], c[1..]);
    }
  }

  lemma {:induction false} BeforeOneWay(a: string, b: string)
    requires Before(a, b)
    ensures !Before(b, a)
    decreases |a|
  {
    if a != "" && a[0] == b[0] {
      BeforeOneWay(a[1..], b[1..]);
    }
  }

  /** A part of a name is before all of it, else the first character that differs decides. */
  lemma {:induction false} BeforeDecides(p: string, a: string, b: string)
    ensures a != "" ==> Before(p, p + a)
    ensures a != "" && b != "" && a[0] != b[0] ==> (Before(p + a, p + b) <==> a[0] < b[0])
    decreases |p|
  {
    if p == "" {
      assert p + a == a && p + b == b;
    } else {
      assert (p + a)[1..] == p[1..] + a && (p + b)[1..] == p[1..] + b;
      BeforeDecides(p[1..], a, b);
    }
  }

  ghost predicate IsSorted(names: seq<string>) {
    forall i, j | 0 <= i < j < |names| :: Before(names[i], names[j])
  }

  /** std::set::insert(). */
  method Insert(names: seq<string>, n: string) returns (more: seq<string>)
    requires IsSorted(names)
    ensures IsSorted(more) && forall m :: m in more <==> m in names || m == n
  {
    var i := 0;
    while i < |names| && Before(names[i], n)
      invariant i <= |names| && forall k | 0 <= k < i :: Before(names[k], n)
    {
      i := i + 1;
    }
    if i < |names| && names[i] == n {
      return names;
    }
    more := names[..i] + [n] + names[i..];
    InsertedSorted(names, i, n);
    assert forall k | 0 <= k < |names| :: names[k] == more[if k < i then k else k + 1];
  }

  lemma InsertedSorted(names: seq<string>, i: nat, n: string)
    requires IsSorted(names) && i <= |names| && forall k | 0 <= k < i :: Before(names[k], n)
    requires i < |names| ==> !Before(names[i], n) && names[i] != n
    ensures IsSorted(names[..i] + [n] + names[i..])
  {
    forall k | i <= k < |names|
      ensures Before(n, names[k])
    {
      BeforeTotal(names[i], n);
      if k > i {
        BeforeChains(n, names[i], names[k]);
      }
    }
  }
}
