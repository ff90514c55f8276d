/** What file_dir() lists is what file_attr() finds, down to every file (src/plugins.cpp). */
module PluginTree {
  import opened Getline
  import opened PluginFiles
  import opened Wrappers

  function Join(dir: string, name: string): string {
    if dir == "" then name else dir + ['/'] + name
  }

  predicate Exists(files: Files, path: string) {
    Attr(files, path) != -ENOENT
  }

  // ---------- one directory ----------

  lemma FirstNameIs(rest: string, name: string)
    requires '/' !in name
    ensures FirstName(rest) == name <==> rest == name || IsBelow(rest, name)
  {
    var n := FieldEnd(rest, '/');
    if rest == name || IsBelow(rest, name) {
      assert |name| <= |rest| && rest[..|name|] == name;
      assert forall k | 0 <= k < |name| :: rest[k] == name[k];
      assert n == |name|;
    }
  }

  /** p is dir/name or below it exactly if it is below dir and its next name is that one. */
  lemma UnderName(p: string, dir: string, name: string)
    requires '/' !in name && (dir == "" ==> name != "")
    ensures (Rest(p, dir).Some? && FirstName(Rest(p, dir).value) == name) <==>
            p == Join(dir, name) || IsBelow(p, Join(dir, name))
  {
    if dir == "" {
      FirstNameIs(p, name);
    } else {
      var q, m := Join(dir, name), |dir| + 1;
      assert q[..|dir|] == dir && q[|dir|] == '/' && q[m..] == name;
      if p == q || IsBelow(p, q) {
        assert p[..|q|] == q;
        assert p[..|dir|] == q[..|dir|] && p[|dir|] == q[|dir|];
      }
      if IsBelow(p, dir) {
        FirstNameIs(p[m..], name);
        BelowShifted(p, dir, name);
      }
    }
  }

  lemma BelowShifted(p: string, dir: string, name: string)
    requires IsBelow(p, dir)
    ensures var q := dir + ['/'] + name; var rest := p[|dir| + 1..];
            (p == q <==> rest == name) && (IsBelow(p, q) <==> IsBelow(rest, name))
  {
    var q, m := dir + ['/'] + name, |dir| + 1;
    var rest := p[m..];
    assert p == dir + ['/'] + rest;
    if |rest| > |name| {
      assert p[..|q|] == dir + ['/'] + rest[..|name|];
      assert rest[..|name|] == p[..|q|][m..];
      assert q[m..] == name;
    }
    assert q[m..] == name;
  }

  /** A name is listed in a directory exactly if there is a file or directory of that path. */
  lemma ListedIsThere(files: Files, taken: string -> bool, dir: string, name: string)
    requires WellFormed(files, taken) && '/' !in name
    ensures Lists(files, dir, name) <==> Exists(files, Join(dir, name))
  {
    if dir == "" && name == "" {
      NothingUnnamed(files, taken);
    } else {
      forall p | p in files
        ensures (Rest(p, dir).Some? && FirstName(Rest(p, dir).value) == name) <==>
                p == Join(dir, name) || IsBelow(p, Join(dir, name))
      {
        UnderName(p, dir, name);
      }
    }
  }

  /** No path is empty or starts with a slash. */
  lemma NothingUnnamed(files: Files, taken: string -> bool)
    requires WellFormed(files, taken)
    ensures !Lists(files, "", "") && !Exists(files, "")
  {
    forall p | p in files
      ensures FirstName(p) != "" && p != "" && !IsBelow(p, "")
    {
      assert IsName(Parts(p)[0]);
    }
  }

  // ---------- the whole tree ----------

  /** Names listed one in the other, from dir on. */
  predicate Walk(files: Files, dir: string, names: seq<string>)
    decreases |names|
  {
    names == [] || (Lists(files, dir, names[0]) && Walk(files, Join(dir, names[0]), names[1..]))
  }

  predicate AreComponents(names: seq<string>) {
    forall i | 0 <= i < |names| :: names[i] != "" && '/' !in names[i]
  }

  function PathOf(dir: string, names: seq<string>): string
    decreases |names|
  {
    if names == [] then dir else PathOf(Join(dir, names[0]), names[1..])
  }

  lemma {:induction false} PathBelow(dir: string, names: seq<string>)
    requires dir != "" && AreComponents(names)
    ensures PathOf(dir, names) == dir || IsBelow(PathOf(dir, names), dir)
    decreases |names|
  {
    if names != [] {
      var next := Join(dir, names[0]);
      PathBelow(next, names[1..]);
      var p := PathOf(dir, names);
      assert p[..|next|] == next;
      assert p[..|dir|] == next[..|dir|] && p[|dir|] == next[|dir|];
    }
  }

  /** Every registered file is reached from any directory it is below. */
  lemma {:induction false} FileIsReached(files: Files, taken: string -> bool, dir: string, names: seq<string>)
    requires WellFormed(files, taken) && AreComponents(names) && PathOf(dir, names) in files
    ensures Walk(files, dir, names)
    decreases |names|
  {
    if names != [] {
      var next := Join(dir, names[0]);
      PathBelow(next, names[1..]);
      ListedIsThere(files, taken, dir, names[0]);
      FileIsReached(files, taken, next, names[1..]);
    }
  }

  /** The parts of a path lead to it. */
  lemma {:induction false} PartsLead(dir: string, path: string)
    ensures PathOf(dir, Parts(path)) == Join(dir, path) || (dir == "" && Parts(path)[0] == "")
    ensures forall i | 0 <= i < |Parts(path)| :: '/' !in Parts(path)[i]
    decreases |path|
  {
    var n := FieldEnd(path, '/');
    if n == |path| {
      assert Parts(path)[1..] == [];
    } else {
      var first, rest := path[..n], path[n + 1..];
      PartsLead(Join(dir, first), rest);
      assert Parts(path)[1..] == Parts(rest);
      assert path == first + ['/'] + rest;
    }
  }

  /** Walking from the root reaches exactly the registered files: each is at the end of a walk along its
      parts, and a walk that ends at a file ends at a registered one. */
  lemma ReachesAll(files: Files, taken: string -> bool, path: string)
    requires WellFormed(files, taken) && path in files
    ensures AreComponents(Parts(path)) && PathOf("", Parts(path)) == path && Walk(files, "", Parts(path))
  {
    PartsLead("", path);
    assert IsName(Parts(path)[0]);
    forall i | 0 <= i < |Parts(path)|
      ensures Parts(path)[i] != ""
    {
      assert IsName(Parts(path)[i]);
    }
    FileIsReached(files, taken, "", Parts(path));
  }

  lemma {:induction false} ReachesOnly(files: Files, taken: string -> bool, dir: string, names: seq<string>)
    requires WellFormed(files, taken) && AreComponents(names) && names != [] && Walk(files, dir, names)
    ensures var path := PathOf(dir, names);
            Exists(files, path) && (Attr(files, path) > 0 <==> path in files) && (Attr(files, path) == 0 <==> path !in files)
    decreases |names|
  {
    var next := Join(dir, names[0]);
    if |names| == 1 {
      assert names[1..] == [] && PathOf(next, []) == next;
      ListedIsThere(files, taken, dir, names[0]);
    } else {
      ReachesOnly(files, taken, next, names[1..]);
    }
  }
}
