/** Runs of jailed and free processes over a changing directory tree: confinement holds in every
    reachable state. */
module JailRuns {
  import opened BlockBytes
  import opened Jail

  datatype Sys = Sys(fs: Files, procs: seq<Proc>)

  datatype Step =
    | Chdir(i: nat, path: seq<Byte>)
    | JailTo(i: nat, path: seq<Byte>)
    | Fork(i: nat)
    | Create(d: nat, name: Name, c: nat, isDir: bool)
    | LinkTo(d: nat, name: Name, c: nat)
    | Unlink(d: nat, name: Name)
    | Reclaim(c: nat)

  // Directory changes

  /** dirlink: the entry goes into the first free place. */
  function Put(entries: seq<Dirent>, name: Name, c: nat): seq<Dirent> {
    if entries == [] then [Dirent(c, name)]
    else if entries[0].inum == 0 then [Dirent(c, name)] + entries[1..]
    else [entries[0]] + Put(entries[1..], name, c)
  }

  /** sys_unlink clears the entry. */
  function Clear(entries: seq<Dirent>, name: Name): seq<Dirent> {
    if entries == [] then []
    else if entries[0].inum != 0 && entries[0].name == name then [Dirent(0, [])] + entries[1..]
    else [entries[0]] + Clear(entries[1..], name)
  }

  lemma {:induction false} FindPut(entries: seq<Dirent>, name: Name, c: nat, n: Name)
    requires c != 0 && Find(entries, name) == 0
    ensures Find(Put(entries, name, c), n) == if n == name then c else Find(entries, n)
  {
    if entries != [] && entries[0].inum != 0 {
      FindPut(entries[1..], name, c, n);
      assert Put(entries, name, c)[1..] == Put(entries[1..], name, c);
    } else if entries != [] {
      assert Put(entries, name, c)[1..] == entries[1..];
    }
  }

  lemma {:induction false} DistinctPut(entries: seq<Dirent>, name: Name, c: nat)
    requires c != 0 && Find(entries, name) == 0 && Distinct(entries)
    ensures Distinct(Put(entries, name, c))
  {
    if entries != [] && entries[0].inum != 0 {
      DistinctPut(entries[1..], name, c);
      FindPut(entries[1..], name, c, entries[0].name);
      assert Put(entries, name, c)[1..] == Put(entries[1..], name, c);
    } else if entries != [] {
      assert Put(entries, name, c)[1..] == entries[1..];
    }
  }

  lemma {:induction false} FindClear(entries: seq<Dirent>, name: Name, n: Name)
    requires Distinct(entries)
    ensures Find(Clear(entries, name), n) == if n == name then 0 else Find(entries, n)
  {
    if entries != [] {
      if entries[0].inum != 0 && entries[0].name == name {
        assert Clear(entries, name)[1..] == entries[1..];
      } else {
        FindClear(entries[1..], name, n);
        assert Clear(entries, name)[1..] == Clear(entries[1..], name);
      }
    }
  }

  lemma {:induction false} DistinctClear(entries: seq<Dirent>, name: Name)
    requires Distinct(entries)
    ensures Distinct(Clear(entries, name))
  {
    if entries != [] {
      if entries[0].inum != 0 && entries[0].name == name {
        assert Clear(entries, name)[1..] == entries[1..];
      } else {
        DistinctClear(entries[1..], name);
        FindClear(entries[1..], name, entries[0].name);
        assert Clear(entries, name)[1..] == Clear(entries[1..], name);
      }
    }
  }

  function WithEntry(fs: Files, d: nat, name: Name, c: nat): Files
    requires IsDir(fs, d)
  {
    fs[d := Dir(Put(fs[d].entries, name, c))]
  }

  function Fresh(d: nat, c: nat, isDir: bool): Node {
    if isDir then Dir([Dirent(c, DOT), Dirent(d, DOTDOT)]) else File
  }

  function WithoutEntry(fs: Files, d: nat, name: Name): Files
    requires IsDir(fs, d)
  {
    fs[d := Dir(Clear(fs[d].entries, name))]
  }

  ghost predicate Empty(fs: Files, c: nat) {
    forall n: Name :: Proper(n) ==> Lookup(fs, c, n) == 0
  }

  /** When a step can happen.  A directory that is some process's cwd is not unlinked, and an inode is
      reclaimed only when no entry and no process refers to it. */
  ghost predicate Enabled(s: Sys, a: Step) {
    match a
    case Chdir(i, path) => i < |s.procs|
    case JailTo(i, path) => i < |s.procs|
    case Fork(i) => i < |s.procs|
    case Create(d, name, c, isDir) => IsDir(s.fs, d) && Lookup(s.fs, d, name) == 0 && c != 0 && c !in s.fs
    case LinkTo(d, name, c) => IsDir(s.fs, d) && Lookup(s.fs, d, name) == 0 && c in s.fs && s.fs[c].File?
    case Unlink(d, name) =>
      var c := Lookup(s.fs, d, name);
      c != 0 && Proper(name)
      && (IsDir(s.fs, c) ==> Empty(s.fs, c) && c != ROOTINO && forall i :: 0 <= i < |s.procs| ==> s.procs[i].cwd != c)
    case Reclaim(c) =>
      c in s.fs && c != ROOTINO
      && (forall d, n :: Lookup(s.fs, d, n) == c ==> d == c)
      && (forall i :: 0 <= i < |s.procs| ==> s.procs[i].cwd != c && s.procs[i].jailRoot != c)
  }

  ghost function Apply(s: Sys, a: Step): Sys
    requires Enabled(s, a)
  {
    match a
    case Chdir(i, path) => Sys(s.fs, s.procs[i := AfterChdir(s.fs, s.procs[i], path)])
    case JailTo(i, path) => Sys(s.fs, s.procs[i := AfterJail(s.fs, s.procs[i], path)])
    case Fork(i) => Sys(s.fs, s.procs + [s.procs[i]])
    case Create(d, name, c, isDir) => Sys(WithEntry(s.fs[c := Fresh(d, c, isDir)], d, name, c), s.procs)
    case LinkTo(d, name, c) => Sys(WithEntry(s.fs, d, name, c), s.procs)
    case Unlink(d, name) => Sys(WithoutEntry(s.fs, d, name), s.procs)
    case Reclaim(c) => Sys(s.fs - {c}, s.procs)
  }

  ghost predicate ProcOk(fs: Files, p: Proc) {
    IsDir(fs, p.cwd) && Confined(fs, p) && (p.jailRoot != 0 ==> p.isAgent)
  }

  ghost predicate Inv(s: Sys) {
    TreeOk(s.fs) && forall i :: 0 <= i < |s.procs| ==> ProcOk(s.fs, s.procs[i])
  }

  // What a directory change does to lookups

  lemma CreateLookup(fs: Files, d: nat, name: Name, c: nat, isDir: bool, e: nat, n: Name)
    requires TreeOk(fs) && IsDir(fs, d) && Lookup(fs, d, name) == 0 && c != 0 && c !in fs
    ensures Lookup(WithEntry(fs[c := Fresh(d, c, isDir)], d, name, c), e, n) ==
            if e == c then (if !isDir then 0 else if n == DOT then c else if n == DOTDOT then d else 0)
            else if e == d && n == name then c
            else Lookup(fs, e, n)
  {
    FindPut(fs[d].entries, name, c, n);
    if e == c && isDir {
      var es := [Dirent(c, DOT), Dirent(d, DOTDOT)];
      var up := [Dirent(d, DOTDOT)];
      assert es[1..] == up && up[1..] == [] && |DOT| != |DOTDOT|;
      assert Find(up, n) == if n == DOTDOT then d else 0;
      assert Find(es, n) == if n == DOT then c else Find(up, n);
    }
  }

  lemma CreateTree(fs: Files, d: nat, name: Name, c: nat, isDir: bool)
    requires TreeOk(fs) && IsDir(fs, d) && Lookup(fs, d, name) == 0 && c != 0 && c !in fs
    ensures TreeOk(WithEntry(fs[c := Fresh(d, c, isDir)], d, name, c))
  {
    var w := WithEntry(fs[c := Fresh(d, c, isDir)], d, name, c);
    forall e, n
      ensures EntryOk(w, e, n)
    {
      CreateLookup(fs, d, name, c, isDir, e, n);
      assert EntryOk(fs, e, n);
      CreateLookup(fs, d, name, c, isDir, Lookup(w, e, n), DOTDOT);
    }
    forall e | IsDir(w, e)
      ensures Lookup(w, e, DOT) == e && Lookup(w, e, DOTDOT) != 0 && Distinct(w[e].entries)
    {
      CreateLookup(fs, d, name, c, isDir, e, DOT);
      CreateLookup(fs, d, name, c, isDir, e, DOTDOT);
      if e == d {
        DistinctPut(fs[d].entries, name, c);
      } else if e == c {
        var es := [Dirent(c, DOT), Dirent(d, DOTDOT)];
        assert es[1..][1..] == [];
      }
    }
  }

  lemma LinkTree(fs: Files, d: nat, name: Name, c: nat)
    requires TreeOk(fs) && IsDir(fs, d) && Lookup(fs, d, name) == 0 && c in fs && fs[c].File?
    ensures TreeOk(WithEntry(fs, d, name, c))
    ensures forall e, n ::
                Lookup(WithEntry(fs, d, name, c), e, n) == if e == d && n == name then c else Lookup(fs, e, n)
  {
    var w := WithEntry(fs, d, name, c);
    forall e, n
      ensures Lookup(w, e, n) == if e == d && n == name then c else Lookup(fs, e, n)
    {
      FindPut(fs[d].entries, name, c, n);
    }
    forall e, n
      ensures EntryOk(w, e, n)
    {
      assert EntryOk(fs, e, n);
    }
    forall e | IsDir(w, e)
      ensures Distinct(w[e].entries)
    {
      if e == d {
        DistinctPut(fs[d].entries, name, c);
      }
    }
  }

  lemma UnlinkTree(fs: Files, d: nat, name: Name)
    requires TreeOk(fs) && IsDir(fs, d) && Proper(name)
    ensures TreeOk(WithoutEntry(fs, d, name))
    ensures forall e, n ::
                Lookup(WithoutEntry(fs, d, name), e, n) == if e == d && n == name then 0 else Lookup(fs, e, n)
  {
    var w := WithoutEntry(fs, d, name);
    forall e, n
      ensures Lookup(w, e, n) == if e == d && n == name then 0 else Lookup(fs, e, n)
    {
      FindClear(fs[d].entries, name, n);
    }
    forall e, n
      ensures EntryOk(w, e, n)
    {
      assert EntryOk(fs, e, n);
    }
    forall e | IsDir(w, e)
      ensures Distinct(w[e].entries)
    {
      if e == d {
        DistinctClear(fs[d].entries, name);
      }
    }
  }

  lemma ReclaimTree(fs: Files, c: nat)
    requires TreeOk(fs) && c != ROOTINO && forall d, n :: Lookup(fs, d, n) == c ==> d == c
    ensures TreeOk(fs - {c})
  {
    forall e, n
      ensures EntryOk(fs - {c}, e, n)
    {
      assert EntryOk(fs, e, n);
    }
  }

  // What it does to the subtrees

  /** A chain that keeps its links is still a chain. */
  lemma SameUnder(fs: Files, w: Files, r: nat, x: nat)
    requires Under(fs, r, x)
    requires forall d, c :: IsChild(fs, d, c) ==> IsChild(w, d, c)
    ensures Under(w, r, x)
  {
    var ch :| From(fs, ch, r, x);
    assert From(w, ch, r, x);
  }

  /** Removing the entry of a file or of an empty directory cuts no chain to another directory. */
  lemma UnlinkUnder(fs: Files, d: nat, name: Name, r: nat, x: nat)
    requires TreeOk(fs) && IsDir(fs, d) && Proper(name) && Lookup(fs, d, name) != 0 && Under(fs, r, x) && IsDir(fs, x)
    requires var c := Lookup(fs, d, name); IsDir(fs, c) ==> Empty(fs, c) && c != x
    ensures Under(WithoutEntry(fs, d, name), r, x)
  {
    var c, w := Lookup(fs, d, name), WithoutEntry(fs, d, name);
    UnlinkTree(fs, d, name);
    var ch :| From(fs, ch, r, x);
    forall k | 0 < k < |ch|
      ensures IsChild(w, ch[k - 1], ch[k])
    {
      var n: Name :| Proper(n) && Lookup(fs, ch[k - 1], n) == ch[k] && ch[k] != 0;
      assert k + 1 < |ch| ==> IsChild(fs, ch[k], ch[k + 1]);
      assert Lookup(w, ch[k - 1], n) == ch[k];
    }
    assert From(w, ch, r, x);
  }

  lemma ReclaimUnder(fs: Files, c: nat, r: nat, x: nat)
    requires forall d, n :: Lookup(fs, d, n) == c ==> d == c
    requires Under(fs, r, x) && r != c && TreeOk(fs)
    ensures Under(fs - {c}, r, x)
  {
    var ch :| From(fs, ch, r, x);
    NeverThrough(fs, c, ch, |ch| - 1);
    forall k | 0 < k < |ch|
      ensures IsChild(fs - {c}, ch[k - 1], ch[k])
    {
      NeverThrough(fs, c, ch, k - 1);
      var n: Name :| Proper(n) && Lookup(fs, ch[k - 1], n) == ch[k] && ch[k] != 0;
      assert Lookup(fs - {c}, ch[k - 1], n) == ch[k];
    }
    assert From(fs - {c}, ch, r, x);
  }

  lemma {:induction false} NeverThrough(fs: Files, c: nat, ch: seq<nat>, k: nat)
    requires Chain(fs, ch) && k < |ch| && ch[0] != c && forall d, n :: Lookup(fs, d, n) == c ==> d == c
    ensures ch[k] != c
  {
    if k > 0 {
      NeverThrough(fs, c, ch, k - 1);
      assert IsChild(fs, ch[k - 1], ch[k]);
    }
  }

  // Every step

  /** A directory that a process is confined to, or in, stays a directory above it. */
  lemma StepKeepsUnder(s: Sys, a: Step, r: nat, x: nat)
    requires TreeOk(s.fs) && Enabled(s, a) && IsDir(s.fs, r) && IsDir(s.fs, x) && Under(s.fs, r, x)
    requires a.Unlink? ==> Lookup(s.fs, a.d, a.name) != x
    requires a.Reclaim? ==> a.c != r && a.c != x
    ensures TreeOk(Apply(s, a).fs) && IsDir(Apply(s, a).fs, r) && IsDir(Apply(s, a).fs, x)
    ensures Under(Apply(s, a).fs, r, x)
  {
    var w := Apply(s, a).fs;
    match a
    case Create(d, name, c, isDir) =>
      CreateTree(s.fs, d, name, c, isDir);
      forall e, f | IsChild(s.fs, e, f)
        ensures IsChild(w, e, f)
      {
        var n: Name :| Proper(n) && Lookup(s.fs, e, n) == f && f != 0;
        CreateLookup(s.fs, d, name, c, isDir, e, n);
        assert Lookup(w, e, n) == f;
      }
      SameUnder(s.fs, w, r, x);
    case LinkTo(d, name, c) =>
      LinkTree(s.fs, d, name, c);
      forall e, f | IsChild(s.fs, e, f)
        ensures IsChild(w, e, f)
      {
        var n: Name :| Proper(n) && Lookup(s.fs, e, n) == f && f != 0;
        assert Lookup(w, e, n) == f;
      }
      SameUnder(s.fs, w, r, x);
    case Unlink(d, name) =>
      UnlinkTree(s.fs, d, name);
      UnlinkUnder(s.fs, d, name, r, x);
    case Reclaim(c) =>
      ReclaimTree(s.fs, c);
      ReclaimUnder(s.fs, c, r, x);
    case _ =>
  }

  /** One process is still in its jail after the step. */
  lemma StepKeepsProc(s: Sys, a: Step, i: nat)
    requires Inv(s) && Enabled(s, a) && i < |s.procs|
    ensures TreeOk(Apply(s, a).fs) && i < |Apply(s, a).procs| && ProcOk(Apply(s, a).fs, Apply(s, a).procs[i])
  {
    var p := s.procs[i];
    if a.Chdir? || a.JailTo? {
      MoveKeepsProc(s.fs, s.procs[a.i], a.path);
    } else if Jailed(p) {
      StepKeepsUnder(s, a, p.jailRoot, p.cwd);
    } else {
      UnderItself(s.fs, p.cwd);
      StepKeepsUnder(s, a, p.cwd, p.cwd);
    }
  }

  /** chdir and jail keep a process under its root; a second jail lies inside the first. */
  lemma MoveKeepsProc(fs: Files, p: Proc, path: seq<Byte>)
    requires TreeOk(fs) && ProcOk(fs, p)
    ensures ProcOk(fs, AfterChdir(fs, p, path)) && ProcOk(fs, AfterJail(fs, p, path))
    ensures Jailed(p) ==> Jailed(AfterJail(fs, p, path)) && Under(fs, p.jailRoot, AfterJail(fs, p, path).jailRoot)
  {
    if Jailed(p) {
      JailHolds(fs, p, path, Elems(path));
      UnderItself(fs, p.jailRoot);
    }
    UnderItself(fs, AfterJail(fs, p, path).cwd);
  }

  lemma StepKeepsInv(s: Sys, a: Step)
    requires Inv(s) && Enabled(s, a)
    ensures Inv(Apply(s, a)) && |Apply(s, a).procs| >= |s.procs|
  {
    forall i | 0 <= i < |s.procs|
      ensures TreeOk(Apply(s, a).fs) && ProcOk(Apply(s, a).fs, Apply(s, a).procs[i])
    {
      StepKeepsProc(s, a, i);
    }
    UnderItself(s.fs, ROOTINO);
    StepKeepsUnder(s, a, ROOTINO, ROOTINO);
  }

  // Runs

  /** A run: each step is enabled where it happens. */
  ghost predicate IsRun(s: Sys, run: seq<Step>)
    decreases |run|
  {
    run != [] ==> Enabled(s, run[0]) && IsRun(Apply(s, run[0]), run[1..])
  }

  ghost function After(s: Sys, run: seq<Step>): Sys
    requires IsRun(s, run)
    decreases |run|
  {
    if run == [] then s else After(Apply(s, run[0]), run[1..])
  }

  /** Process i is jailed, and its root and directory lie under r. */
  ghost predicate Held(s: Sys, i: nat, r: nat) {
    && i < |s.procs| && Jailed(s.procs[i]) && IsDir(s.fs, r)
    && Under(s.fs, r, s.procs[i].jailRoot) && Under(s.fs, r, s.procs[i].cwd)
  }

  lemma StepKeepsHeld(s: Sys, a: Step, i: nat, r: nat)
    requires Inv(s) && Held(s, i, r) && Enabled(s, a)
    ensures Held(Apply(s, a), i, r)
  {
    var p := s.procs[i];
    StepKeepsInv(s, a);
    if a.Chdir? || a.JailTo? {
      if a.i == i {
        JailHolds(s.fs, p, a.path, Elems(a.path));
        MoveKeepsProc(s.fs, p, a.path);
        var ip := Resolve(s.fs, p, Start(p, a.path), Elems(a.path));
        if ip != 0 {
          UnderTransitive(s.fs, r, p.jailRoot, ip);
        }
      }
    } else {
      if a.Reclaim? && a.c == r {
        OnlyItself(s.fs, r, p.jailRoot);
      }
      StepKeepsUnder(s, a, r, p.cwd);
      if a.Unlink? && Lookup(s.fs, a.d, a.name) == p.jailRoot {
        EmptyRoot(s.fs, p.jailRoot, p.cwd);
      }
      StepKeepsUnder(s, a, r, p.jailRoot);
    }
  }

  /** A directory that no other inode refers to, not even by "..", has no directory under it. */
  lemma OnlyItself(fs: Files, r: nat, x: nat)
    requires TreeOk(fs) && Under(fs, r, x) && IsDir(fs, x) && forall d, n :: Lookup(fs, d, n) == r ==> d == r
    ensures x == r
  {
    var ch :| From(fs, ch, r, x);
    StaysAt(fs, r, ch, |ch| - 1);
  }

  lemma {:induction false} StaysAt(fs: Files, r: nat, ch: seq<nat>, k: nat)
    requires TreeOk(fs) && Chain(fs, ch) && ch[0] == r && k < |ch| && IsDir(fs, ch[|ch| - 1])
    requires forall d, n :: Lookup(fs, d, n) == r ==> d == r
    ensures ch[k] == r
  {
    if k > 0 {
      StaysAt(fs, r, ch, k - 1);
      assert IsChild(fs, ch[k - 1], ch[k]);
      assert k + 1 < |ch| ==> IsChild(fs, ch[k], ch[k + 1]);
      var n: Name :| Proper(n) && Lookup(fs, r, n) == ch[k] && ch[k] != 0;
      assert EntryOk(fs, r, n);
      assert Lookup(fs, ch[k], DOTDOT) == r;
    }
  }

  /** Nothing lies under an empty directory but itself. */
  lemma EmptyRoot(fs: Files, r: nat, x: nat)
    requires Under(fs, r, x) && Empty(fs, r)
    ensures x == r
  {
    var ch :| From(fs, ch, r, x);
    assert |ch| > 1 ==> IsChild(fs, ch[0], ch[1]);
  }

  /** Nothing, or something under r. */
  ghost predicate Inside(fs: Files, r: nat, ip: nat) {
    ip != 0 ==> Under(fs, r, ip)
  }

  lemma StaysInside(fs: Files, r: nat, q: nat, ip: nat)
    requires Under(fs, r, q) && Inside(fs, q, ip)
    ensures Inside(fs, r, ip)
  {
    if ip != 0 {
      UnderTransitive(fs, r, q, ip);
    }
  }

  /** For ever after: in every state of every run a process once jailed under r is jailed under r, so
      no path it uses, to a file or to the directory of a file, leads outside r. */
  lemma {:induction false} JailedForEver(s: Sys, run: seq<Step>, i: nat, r: nat, path: seq<Byte>)
    requires Inv(s) && IsRun(s, run) && Held(s, i, r)
    ensures var z := After(s, run);
            && Inv(z) && Held(z, i, r)
            && Inside(z.fs, r, Resolve(z.fs, z.procs[i], Start(z.procs[i], path), Elems(path)))
            && Inside(z.fs, r, ResolveParent(z.fs, z.procs[i], Start(z.procs[i], path), Elems(path)))
    decreases |run|
  {
    if run == [] {
      var p := s.procs[i];
      JailHolds(s.fs, p, path, Elems(path));
      StaysInside(s.fs, r, p.jailRoot, Resolve(s.fs, p, Start(p, path), Elems(path)));
      StaysInside(s.fs, r, p.jailRoot, ResolveParent(s.fs, p, Start(p, path), Elems(path)));
    } else {
      StepKeepsHeld(s, run[0], i, r);
      StepKeepsInv(s, run[0]);
      JailedForEver(Apply(s, run[0]), run[1..], i, r, path);
    }
  }

  /** fork: the child is held where the parent is. */
  lemma ChildIsHeld(s: Sys, i: nat, r: nat)
    requires Inv(s) && Held(s, i, r)
    ensures Enabled(s, Fork(i)) && Held(Apply(s, Fork(i)), |s.procs|, r)
  {
  }

  // From boot

  /** The root directory alone, and one free process in it. */
  const BOOT: Sys := Sys(map[1 := Dir([Dirent(1, DOT), Dirent(1, DOTDOT)])], [Proc(1, false, 0)])

  lemma BootLookup(d: nat, n: Name)
    ensures Lookup(BOOT.fs, d, n) == if d == 1 && (n == DOT || n == DOTDOT) then 1 else 0
  {
    var es, up := [Dirent(1, DOT), Dirent(1, DOTDOT)], [Dirent(1, DOTDOT)];
    assert es[1..] == up && up[1..] == [];
    assert Find(up, n) == if n == DOTDOT then 1 else 0;
  }

  lemma BootOk()
    ensures Inv(BOOT)
  {
    var es, up := [Dirent(1, DOT), Dirent(1, DOTDOT)], [Dirent(1, DOTDOT)];
    assert es[1..] == up && up[1..] == [] && |DOT| != |DOTDOT|;
    assert Find(up, DOT) == 0 && Distinct(up) && Distinct(es);
    BootLookup(1, DOT);
    BootLookup(1, DOTDOT);
    forall d, n
      ensures EntryOk(BOOT.fs, d, n)
    {
      BootLookup(d, n);
      BootLookup(Lookup(BOOT.fs, d, n), DOTDOT);
    }
    UnderItself(BOOT.fs, 1);
  }

  lemma {:induction false} RunKeepsInv(s: Sys, run: seq<Step>)
    requires Inv(s) && IsRun(s, run)
    ensures Inv(After(s, run))
    decreases |run|
  {
    if run != [] {
      StepKeepsInv(s, run[0]);
      RunKeepsInv(Apply(s, run[0]), run[1..]);
    }
  }

  lemma {:induction false} RunSplits(s: Sys, a: seq<Step>, b: seq<Step>)
    requires IsRun(s, a + b)
    ensures IsRun(s, a) && IsRun(After(s, a), b) && After(s, a + b) == After(After(s, a), b)
    decreases |a|
  {
    if a == [] {
      assert a + b == b;
    } else {
      assert (a + b)[1..] == a[1..] + b && (a + b)[0] == a[0];
      RunSplits(Apply(s, a[0]), a[1..], b);
    }
  }

  /** A successful jail call puts the process in the jail it names, resolved from its old root. */
  lemma JailCloses(s: Sys, i: nat, path: seq<Byte>)
    requires Inv(s) && i < |s.procs|
    requires IsDir(s.fs, Resolve(s.fs, s.procs[i], Start(s.procs[i], path), Elems(path)))
    ensures var ip := Resolve(s.fs, s.procs[i], Start(s.procs[i], path), Elems(path));
            var t := Apply(s, JailTo(i, path));
            && Inv(t) && t.fs == s.fs && t.procs[i].isAgent && t.procs[i].jailRoot == t.procs[i].cwd == ip
            && ip != 0 && Held(t, i, ip)
  {
    StepKeepsInv(s, JailTo(i, path));
    var ip := Resolve(s.fs, s.procs[i], Start(s.procs[i], path), Elems(path));
    UnderItself(s.fs, ip);
    assert EntryOk(s.fs, ip, DOT);
  }

  /** From boot on: whatever happened before a jail call that finds its directory, and whatever happens
      after it, the process never leaves that directory and no path leads it outside. */
  lemma JailedSinceCall(before: seq<Step>, i: nat, path: seq<Byte>, after: seq<Step>, p: seq<Byte>)
    requires IsRun(BOOT, before + ([JailTo(i, path)] + after)) && IsRun(BOOT, before)
    requires var s := After(BOOT, before);
             i < |s.procs| && IsDir(s.fs, Resolve(s.fs, s.procs[i], Start(s.procs[i], path), Elems(path)))
    ensures var s, z := After(BOOT, before), After(BOOT, before + ([JailTo(i, path)] + after));
            var r := Resolve(s.fs, s.procs[i], Start(s.procs[i], path), Elems(path));
            && Held(z, i, r)
            && Inside(z.fs, r, Resolve(z.fs, z.procs[i], Start(z.procs[i], p), Elems(p)))
            && Inside(z.fs, r, ResolveParent(z.fs, z.procs[i], Start(z.procs[i], p), Elems(p)))
  {
    var call := [JailTo(i, path)] + after;
    BootOk();
    RunKeepsInv(BOOT, before);
    RunSplits(BOOT, before, call);
    var s := After(BOOT, before);
    assert call[0] == JailTo(i, path) && call[1..] == after;
    JailCloses(s, i, path);
    var r := Resolve(s.fs, s.procs[i], Start(s.procs[i], path), Elems(path));
    JailedForEver(Apply(s, call[0]), after, i, r, p);
  }
}
