/** Path resolution of fs.c and the chroot jail of sysfile.c: a jailed process reaches nothing outside
    the subtree of its jail root.

    A directory is its list of entries, inode number 0 marking a free one; names are the bytes before
    the terminating NUL, at most DIRSIZ of them. */
module Jail {
  import opened BlockBytes

  const DIRSIZ: nat := 14
  const ROOTINO: nat := 1
  const SLASH: Byte := 47

  type Name = seq<Byte>

  const DOT: Name := [46]
  const DOTDOT: Name := [46, 46]

  datatype Dirent = Dirent(inum: nat, name: Name)

  datatype Node = Dir(entries: seq<Dirent>) | File

  type Files = map<nat, Node>

  function Find(entries: seq<Dirent>, name: Name): nat {
    if entries == [] then 0
    else if entries[0].inum != 0 && entries[0].name == name then entries[0].inum
    else Find(entries[1..], name)
  }

  predicate IsDir(fs: Files, i: nat) {
    i in fs && fs[i].Dir?
  }

  function Lookup(fs: Files, i: nat, name: Name): nat {
    if IsDir(fs, i) then Find(fs[i].entries, name) else 0
  }

  // The tree

  predicate Proper(n: Name) {
    n != DOT && n != DOTDOT
  }

  ghost predicate IsChild(fs: Files, d: nat, c: nat) {
    exists n: Name :: Proper(n) && Lookup(fs, d, n) == c && c != 0
  }

  ghost predicate Chain(fs: Files, ch: seq<nat>) {
    |ch| > 0 && forall k :: 0 < k < |ch| ==> IsChild(fs, ch[k - 1], ch[k])
  }

  ghost predicate From(fs: Files, ch: seq<nat>, r: nat, x: nat) {
    Chain(fs, ch) && ch[0] == r && ch[|ch| - 1] == x
  }

  /** x is r or lies below it. */
  ghost predicate Under(fs: Files, r: nat, x: nat) {
    exists ch :: From(fs, ch, r, x)
  }

  /** Directories form a tree: "." is the directory, ".." a directory, and the ".." of a directory
      found under a proper name leads back to where it was found. */
  ghost predicate EntryOk(fs: Files, d: nat, n: Name) {
    var c := Lookup(fs, d, n);
    c != 0 ==>
      && c in fs && (n == DOT ==> c == d) && (n == DOTDOT ==> IsDir(fs, c))
      && (Proper(n) && IsDir(fs, c) ==> Lookup(fs, c, DOTDOT) == d)
  }

  /** No name twice. */
  predicate Distinct(entries: seq<Dirent>) {
    entries != [] ==> (entries[0].inum != 0 ==> Find(entries[1..], entries[0].name) == 0) && Distinct(entries[1..])
  }

  ghost predicate TreeOk(fs: Files) {
    && 0 !in fs && IsDir(fs, ROOTINO)
    && (forall d, n :: EntryOk(fs, d, n))
    && (forall d :: IsDir(fs, d) ==> Lookup(fs, d, DOT) == d && Lookup(fs, d, DOTDOT) != 0 && Distinct(fs[d].entries))
  }

  lemma UnderItself(fs: Files, r: nat)
    ensures Under(fs, r, r)
  {
    assert From(fs, [r], r, r);
  }

  lemma UnderTransitive(fs: Files, q: nat, r: nat, x: nat)
    requires Under(fs, q, r) && Under(fs, r, x)
    ensures Under(fs, q, x)
  {
    var a :| From(fs, a, q, r);
    var b :| From(fs, b, r, x);
    var c := a + b[1..];
    forall k | 0 < k < |c|
      ensures IsChild(fs, c[k - 1], c[k])
    {
      if k < |a| {
        assert c[k - 1] == a[k - 1] && c[k] == a[k];
      } else {
        assert c[k] == b[k - |a| + 1] && c[k - 1] == b[k - |a|];
      }
    }
    assert From(fs, c, q, x);
  }

  /** No entry of a directory below r leads out, but for the ".." of r itself. */
  lemma StepStaysUnder(fs: Files, r: nat, d: nat, n: Name)
    requires TreeOk(fs) && Under(fs, r, d) && Lookup(fs, d, n) != 0 && !(d == r && n == DOTDOT)
    ensures Under(fs, r, Lookup(fs, d, n))
  {
    var ch :| From(fs, ch, r, d);
    var c := Lookup(fs, d, n);
    assert EntryOk(fs, d, n);
    if n == DOTDOT {
      var up := ch[..|ch| - 1];
      var e := ch[|ch| - 2];
      assert IsChild(fs, e, d);
      var m: Name :| Proper(m) && Lookup(fs, e, m) == d && d != 0;
      assert EntryOk(fs, e, m);
      assert From(fs, up, r, e);
    } else if n != DOT {
      var down := ch + [c];
      assert IsChild(fs, d, c);
      forall k | 0 < k < |down|
        ensures IsChild(fs, down[k - 1], down[k])
      {
        if k < |ch| {
          assert IsChild(fs, ch[k - 1], ch[k]);
        }
      }
      assert From(fs, down, r, c);
    }
  }

  // Resolution

  datatype Proc = Proc(cwd: nat, isAgent: bool, jailRoot: nat)

  predicate Jailed(p: Proc) {
    p.isAgent && p.jailRoot != 0
  }

  /** One path element from directory ip: 0 when there is no such entry. */
  function StepFrom(fs: Files, p: Proc, ip: nat, n: Name): nat {
    if Jailed(p) && n == DOTDOT && ip == p.jailRoot then ip else Lookup(fs, ip, n)
  }

  /** The inode a list of names leads to from ip, or 0. */
  function Resolve(fs: Files, p: Proc, ip: nat, names: seq<Name>): nat
    decreases |names|
  {
    if names == [] then ip
    else if !IsDir(fs, ip) || StepFrom(fs, p, ip, names[0]) == 0 then 0
    else Resolve(fs, p, StepFrom(fs, p, ip, names[0]), names[1..])
  }

  /** Where the last name of the list is looked up: a directory, or 0. */
  function ResolveParent(fs: Files, p: Proc, ip: nat, names: seq<Name>): nat {
    if names == [] then 0
    else
      var d := Resolve(fs, p, ip, names[..|names| - 1]);
      if IsDir(fs, d) then d else 0
  }

  function Start(p: Proc, path: seq<Byte>): nat {
    if path != [] && path[0] == SLASH then (if Jailed(p) then p.jailRoot else ROOTINO) else p.cwd
  }

  /** Find gives the first entry in use with the name, and 0 when there is none. */
  lemma {:induction false} FindIsFirst(entries: seq<Dirent>, name: Name)
    ensures Find(entries, name) == 0 <==>
              forall k :: 0 <= k < |entries| ==> !(entries[k].inum != 0 && entries[k].name == name)
    ensures Find(entries, name) != 0 ==> exists k :: IsFirst(entries, name, k) && entries[k].inum == Find(entries, name)
  {
    if entries != [] {
      if entries[0].inum != 0 && entries[0].name == name {
        assert IsFirst(entries, name, 0);
      } else {
        FindIsFirst(entries[1..], name);
        if Find(entries[1..], name) != 0 {
          var k :| IsFirst(entries[1..], name, k) && entries[1..][k].inum == Find(entries[1..], name);
          assert IsFirst(entries, name, k + 1);
        } else {
          forall k | 0 <= k < |entries|
            ensures !(entries[k].inum != 0 && entries[k].name == name)
          {
            assert k > 0 ==> entries[k] == entries[1..][k - 1];
          }
        }
      }
    }
  }

  ghost predicate IsFirst(entries: seq<Dirent>, name: Name, k: int) {
    && 0 <= k < |entries| && entries[k].inum != 0 && entries[k].name == name
    && forall j :: 0 <= j < k ==> !(entries[j].inum != 0 && entries[j].name == name)
  }

  /** One element leads to what the directory says, but for ".." of a jail root, which stays. */
  lemma StepIsEntry(fs: Files, p: Proc, ip: nat, n: Name)
    requires IsDir(fs, ip)
    ensures p.isAgent && p.jailRoot != 0 && ip == p.jailRoot && n == [46, 46] ==> StepFrom(fs, p, ip, n) == ip
    ensures !(p.isAgent && p.jailRoot != 0 && ip == p.jailRoot && n == [46, 46]) ==>
              var es, c := fs[ip].entries, StepFrom(fs, p, ip, n);
              && (c == 0 <==> forall k :: 0 <= k < |es| ==> !(es[k].inum != 0 && es[k].name == n))
              && (c != 0 ==> exists k :: IsFirst(es, n, k) && es[k].inum == c)
  {
    FindIsFirst(fs[ip].entries, n);
  }

  /** A path is followed element by element, and fails where one is missing. */
  lemma {:induction false} ResolveIsSteps(fs: Files, p: Proc, ip: nat, names: seq<Name>, n: Name)
    ensures Resolve(fs, p, ip, []) == ip
    ensures ip != 0 ==>
              var d := Resolve(fs, p, ip, names);
              Resolve(fs, p, ip, names + [n]) == if d == 0 || !IsDir(fs, d) then 0 else StepFrom(fs, p, d, n)
    decreases |names|
  {
    assert (names + [n])[..|names|] == names && (names + [n])[..|names| + 1] == names + [n];
    ResolveOne(fs, p, ip, names + [n], |names|);
  }

  /** Whose directory a process starts from does not matter once the start is fixed. */
  lemma {:induction false} ResolveIgnoresCwd(fs: Files, p: Proc, ip: nat, names: seq<Name>, cwd: nat)
    ensures Resolve(fs, p, ip, names) == Resolve(fs, Proc(cwd, p.isAgent, p.jailRoot), ip, names)
    decreases |names|
  {
    if names != [] && IsDir(fs, ip) && StepFrom(fs, p, ip, names[0]) != 0 {
      ResolveIgnoresCwd(fs, p, StepFrom(fs, p, ip, names[0]), names[1..], cwd);
    }
  }

  /** An absolute path starts at inode 1, or at the root of the jail, whatever the current directory;
      any other path starts at the current directory. */
  lemma WherePathsStart(fs: Files, p: Proc, path: seq<Byte>, names: seq<Name>, cwd: nat)
    ensures (path == [] || path[0] != 47) ==> Resolve(fs, p, Start(p, path), names) == Resolve(fs, p, p.cwd, names)
    ensures path != [] && path[0] == 47 ==>
              && Resolve(fs, p, Start(p, path), names) ==
                 Resolve(fs, p, if p.isAgent && p.jailRoot != 0 then p.jailRoot else 1, names)
              && var q := Proc(cwd, p.isAgent, p.jailRoot);
                 Resolve(fs, q, Start(q, path), names) == Resolve(fs, p, Start(p, path), names)
  {
    ResolveIgnoresCwd(fs, p, Start(p, path), names, cwd);
  }

  ghost predicate Confined(fs: Files, p: Proc) {
    Jailed(p) ==> IsDir(fs, p.jailRoot) && Under(fs, p.jailRoot, p.cwd)
  }

  lemma {:induction false} ResolveUnder(fs: Files, p: Proc, ip: nat, names: seq<Name>)
    requires TreeOk(fs) && Jailed(p) && Under(fs, p.jailRoot, ip)
    ensures Resolve(fs, p, ip, names) != 0 ==> Under(fs, p.jailRoot, Resolve(fs, p, ip, names))
    decreases |names|
  {
    if names != [] && IsDir(fs, ip) && StepFrom(fs, p, ip, names[0]) != 0 {
      if !(names[0] == DOTDOT && ip == p.jailRoot) {
        StepStaysUnder(fs, p.jailRoot, ip, names[0]);
      }
      ResolveUnder(fs, p, StepFrom(fs, p, ip, names[0]), names[1..]);
    }
  }

  /** Confinement: whatever the path, a jailed process gets an inode under its jail root, or none. */
  lemma JailHolds(fs: Files, p: Proc, path: seq<Byte>, names: seq<Name>)
    requires TreeOk(fs) && Jailed(p) && Confined(fs, p)
    ensures var r := Resolve(fs, p, Start(p, path), names); r != 0 ==> Under(fs, p.jailRoot, r)
    ensures var d := ResolveParent(fs, p, Start(p, path), names); d != 0 ==> Under(fs, p.jailRoot, d)
  {
    UnderItself(fs, p.jailRoot);
    ResolveUnder(fs, p, Start(p, path), names);
    if names != [] {
      ResolveUnder(fs, p, Start(p, path), names[..|names| - 1]);
    }
  }

  /** The files as a process whose root is r sees them: ".." of r is r. */
  function Rerooted(fs: Files, r: nat): Files {
    if IsDir(fs, r) then fs[r := Dir([Dirent(r, DOTDOT)] + fs[r].entries)] else fs
  }

  /** The jail is a change of root: resolving in jail is plain resolution in the rerooted files. */
  lemma {:induction false} JailIsReroot(fs: Files, p: Proc, ip: nat, names: seq<Name>)
    requires Jailed(p) && IsDir(fs, p.jailRoot)
    ensures Resolve(fs, p, ip, names) == Resolve(Rerooted(fs, p.jailRoot), Proc(p.cwd, false, 0), ip, names)
    decreases |names|
  {
    if names != [] && IsDir(fs, ip) {
      var w := Rerooted(fs, p.jailRoot);
      assert w[p.jailRoot].entries[1..] == fs[p.jailRoot].entries;
      assert StepFrom(fs, p, ip, names[0]) == StepFrom(w, Proc(p.cwd, false, 0), ip, names[0]);
      if StepFrom(fs, p, ip, names[0]) != 0 {
        JailIsReroot(fs, p, StepFrom(fs, p, ip, names[0]), names[1..]);
      }
    }
  }

  // Path strings

  /** The leading slashes of a path. */
  function Slashes(path: seq<Byte>): (n: nat)
    ensures n <= |path| && (n < |path| ==> path[n] != SLASH)
  {
    if path == [] || path[0] != SLASH then 0 else 1 + Slashes(path[1..])
  }

  /** The bytes before the next slash. */
  function ElemLen(path: seq<Byte>): (n: nat)
    ensures n <= |path| && (path != [] && path[0] != SLASH ==> n > 0)
  {
    if path == [] || path[0] == SLASH then 0 else 1 + ElemLen(path[1..])
  }

  function Cut(s: seq<Byte>): Name {
    if |s| >= DIRSIZ then s[..DIRSIZ] else s
  }

  /** The elements of a path, each cut to DIRSIZ bytes. */
  function Elems(path: seq<Byte>): seq<Name>
    decreases |path|
  {
    var s := path[Slashes(path)..];
    if s == [] then [] else [Cut(s[..ElemLen(s)])] + Elems(s[ElemLen(s)..])
  }

  /** A path without a slash is one element, cut to fourteen bytes; the empty path is none. */
  lemma ElemsOfOne(w: seq<Byte>)
    requires 47 !in w
    ensures Elems(w) == if w == [] then [] else [if |w| > 14 then w[..14] else w]
  {
    assert Elems([]) == [];
    hide Elems, Slashes, ElemLen;
    if w != [] {
      assert w[0] in w;
      ElemOfAll(w);
      ElemsFirst(w);
      assert w[..|w|] == w && w[|w|..] == [];
    }
  }

  lemma {:induction false} ElemOfAll(w: seq<Byte>)
    requires SLASH !in w
    ensures ElemLen(w) == |w|
  {
    if w != [] {
      ElemOfAll(w[1..]);
    }
  }

  /** A slash separates: what is before it and what is after it are read independently. */
  lemma {:induction false} ElemsSplit(a: seq<Byte>, b: seq<Byte>)
    ensures Elems(a + [47] + b) == Elems(a) + Elems(b)
    decreases |a|
  {
    var path := a + [SLASH] + b;
    assert Elems([]) == [];
    hide Elems, ElemLen, Cut, Slashes;
    if a == [] {
      assert path == [SLASH] + b && path[1..] == b;
      ElemsSlash(path);
    } else if a[0] == SLASH {
      assert path[1..] == a[1..] + [SLASH] + b;
      ElemsSlash(path);
      ElemsSlash(a);
      ElemsSplit(a[1..], b);
    } else {
      ElemsSplit(a[ElemLen(a)..], b);
      ElemsSplitAfter(a, b, ElemLen(a));
    }
  }

  lemma ElemsSplitAfter(a: seq<Byte>, b: seq<Byte>, e: nat)
    requires a != [] && a[0] != SLASH && e == ElemLen(a)
    requires Elems(a[e..] + [SLASH] + b) == Elems(a[e..]) + Elems(b)
    ensures Elems(a + [SLASH] + b) == Elems(a) + Elems(b)
  {
    hide Elems, ElemLen, Cut;
    var path := a + [SLASH] + b;
    ElemLenSplit(a, b);
    ElemsFirst(a);
    ElemsFirst(path);
    assert path[..e] == a[..e] && path[e..] == a[e..] + [SLASH] + b;
  }

  lemma ElemsSlash(path: seq<Byte>)
    requires path != [] && path[0] == SLASH
    ensures Elems(path) == Elems(path[1..])
  {
    assert path[Slashes(path)..] == path[1..][Slashes(path[1..])..];
  }

  lemma ElemsFirst(path: seq<Byte>)
    requires path != [] && path[0] != SLASH
    ensures Elems(path) == [Cut(path[..ElemLen(path)])] + Elems(path[ElemLen(path)..])
  {
    assert Slashes(path) == 0 && path[0..] == path;
  }

  lemma {:induction false} ElemLenSplit(a: seq<Byte>, b: seq<Byte>)
    ensures ElemLen(a + [SLASH] + b) == ElemLen(a)
  {
    var path := a + [SLASH] + b;
    if a != [] && a[0] != SLASH {
      assert path[1..] == a[1..] + [SLASH] + b;
      ElemLenSplit(a[1..], b);
    }
  }

  lemma ElemsSkipSlashes(path: seq<Byte>)
    ensures Elems(path) == Elems(path[Slashes(path)..])
  {
    var s := path[Slashes(path)..];
    assert Slashes(s) == 0 && s[0..] == s;
  }

  method SkipSlashes(path: seq<Byte>) returns (rest: seq<Byte>)
    ensures rest == path[Slashes(path)..]
  {
    rest := path;
    while rest != [] && rest[0] == SLASH
      invariant rest[Slashes(rest)..] == path[Slashes(path)..]
    {
      assert rest[1..][Slashes(rest[1..])..] == rest[Slashes(rest)..];
      rest := rest[1..];
    }
    assert rest[0..] == rest;
  }

  method TakeElem(s: seq<Byte>) returns (e: nat)
    ensures e == ElemLen(s)
  {
    e := 0;
    assert s[0..] == s;
    while e < |s| && s[e] != SLASH
      invariant e <= |s| && ElemLen(s) == e + ElemLen(s[e..])
    {
      assert s[e..][1..] == s[e + 1..];
      e := e + 1;
    }
  }

  lemma NoSlashesHasElems(path: seq<Byte>)
    ensures Elems(path[Slashes(path)..]) == [] <==> path[Slashes(path)..] == []
  {
    ElemsSkipSlashes(path);
  }

  /** skipelem: the first element and the rest of the path without leading slashes. */
  method SkipElem(path: seq<Byte>) returns (ok: bool, rest: seq<Byte>, name: Name)
    ensures ok <==> Elems(path) != []
    ensures ok ==> Elems(path) == [name] + Elems(rest) && (rest == [] <==> Elems(rest) == []) && |rest| < |path|
  {
    var s := SkipSlashes(path);
    if s == [] { return false, [], []; }
    var len := TakeElem(s);
    name := if len >= DIRSIZ then s[..DIRSIZ] else s[..len];
    assert Cut(s[..len]) == name by { assert len >= DIRSIZ ==> s[..len][..DIRSIZ] == s[..DIRSIZ]; }
    ElemsSkipSlashes(s[len..]);
    NoSlashesHasElems(s[len..]);
    rest := SkipSlashes(s[len..]);
    return true, rest, name;
  }

  // namex, and the system calls that move a process

  method DirLookup(fs: Files, dp: nat, name: Name) returns (inum: nat)
    requires IsDir(fs, dp)
    ensures inum == Lookup(fs, dp, name)
    ensures inum == 0 <==> forall k :: 0 <= k < |fs[dp].entries| ==>
                             !(fs[dp].entries[k].inum != 0 && fs[dp].entries[k].name == name)
    ensures inum != 0 ==> exists k :: IsFirst(fs[dp].entries, name, k) && fs[dp].entries[k].inum == inum
  {
    FindIsFirst(fs[dp].entries, name);
    var es := fs[dp].entries;
    var off := 0;
    assert es[0..] == es;
    while off < |es|
      invariant off <= |es| && Find(es, name) == Find(es[off..], name)
    {
      assert es[off..][1..] == es[off + 1..];
      if es[off].inum != 0 && es[off].name == name { return es[off].inum; }
      off := off + 1;
    }
    return 0;
  }

  /** namex: the inode the path names, or its parent directory and last element; 0 for none. */
  method Namex(fs: Files, p: Proc, path: seq<Byte>, nameiparent: bool) returns (ip: nat, name: Name)
    requires TreeOk(fs) && p.cwd != 0
    ensures !nameiparent ==> ip == Resolve(fs, p, Start(p, path), Elems(path))
    ensures nameiparent ==> ip == ResolveParent(fs, p, Start(p, path), Elems(path))
    ensures nameiparent && ip != 0 ==> Elems(path) != [] && name == Elems(path)[|Elems(path)| - 1]
  {
    ip := if path != [] && path[0] == SLASH then (if Jailed(p) then p.jailRoot else ROOTINO) else p.cwd;
    name := [];
    var rest := path;
    ghost var names, start, k := Elems(path), ip, 0;
    WalkStarts(fs, p, start, path);
    hide Elems, Resolve, ResolveParent, TreeOk, Lookup, Walking;
    while true
      invariant k <= |names| && Walking(fs, p, start, names, k, ip, rest, name)
      invariant nameiparent && names != [] ==> k < |names|
      decreases |names| - k
    {
      var ok, more, elem := SkipElem(rest);
      if !ok { break; }
      WalkOn(fs, p, start, names, k, ip, rest, name, more, elem);
      name, rest := elem, more;
      if !IsDir(fs, ip) { return 0, name; }
      if nameiparent && rest == [] { return ip, name; }
      if Jailed(p) && name == DOTDOT && ip == p.jailRoot {
        k := k + 1;
        continue;
      }
      var next := DirLookup(fs, ip, name);
      if next == 0 { return 0, name; }
      ip := next;
      k := k + 1;
    }
    WalkEnds(fs, p, start, names, k, ip, rest, name);
    if nameiparent { return 0, name; }
  }

  /** The state of namex's loop after k of the names. */
  ghost predicate Walking(fs: Files, p: Proc, start: nat, names: seq<Name>, k: nat, ip: nat, rest: seq<Byte>,
                          name: Name) {
    && k <= |names| && Elems(rest) == names[k..] && ip != 0 && start != 0 && ip == Resolve(fs, p, start, names[..k])
    && (k > 0 ==> name == names[k - 1])
  }

  lemma WalkStarts(fs: Files, p: Proc, start: nat, path: seq<Byte>)
    requires start != 0
    ensures Walking(fs, p, start, Elems(path), 0, start, path, [])
  {
    assert Elems(path)[0..] == Elems(path) && Elems(path)[..0] == [];
  }

  lemma WalkEnds(fs: Files, p: Proc, start: nat, names: seq<Name>, k: nat, ip: nat, rest: seq<Byte>, name: Name)
    requires Walking(fs, p, start, names, k, ip, rest, name) && Elems(rest) == []
    ensures k == |names| && ip == Resolve(fs, p, start, names)
    ensures (names == [] ==> ResolveParent(fs, p, start, names) == 0)
  {
    assert names[..k] == names;
  }

  /** One turn: the step taken, or the reason there is none. */
  lemma WalkOn(fs: Files, p: Proc, start: nat, names: seq<Name>, k: nat, ip: nat, rest: seq<Byte>, name: Name,
               more: seq<Byte>, elem: Name)
    requires Walking(fs, p, start, names, k, ip, rest, name) && Elems(rest) == [elem] + Elems(more)
    ensures k < |names| && elem == names[k] && (Elems(more) == [] <==> k + 1 == |names|)
    ensures IsDir(fs, ip) && StepFrom(fs, p, ip, elem) != 0 ==>
                Walking(fs, p, start, names, k + 1, StepFrom(fs, p, ip, elem), more, elem)
    ensures !IsDir(fs, ip) || StepFrom(fs, p, ip, elem) == 0 ==> Resolve(fs, p, start, names) == 0
    ensures !IsDir(fs, ip) || (StepFrom(fs, p, ip, elem) == 0 && k + 1 < |names|) ==>
                ResolveParent(fs, p, start, names) == 0
    ensures IsDir(fs, ip) && k + 1 == |names| ==> ResolveParent(fs, p, start, names) == ip
  {
    assert names[k..][1..] == names[k + 1..] && names[k] == names[k..][0];
    assert ([elem] + Elems(more))[1..] == Elems(more);
    ResolveOne(fs, p, start, names, k);
    if !IsDir(fs, ip) || StepFrom(fs, p, ip, elem) == 0 {
      ResolveFails(fs, p, start, names, k);
    }
    if k + 1 == |names| {
      assert names[..k] == names[..|names| - 1];
    }
    hide Resolve, Elems;
  }

  /** Resolving one element more. */
  lemma {:induction false} ResolveOne(fs: Files, p: Proc, ip: nat, names: seq<Name>, k: nat)
    requires k < |names|
    ensures Resolve(fs, p, ip, names[..k + 1]) ==
            (var d := Resolve(fs, p, ip, names[..k]); if k > 0 && d == 0 then 0 else if !IsDir(fs, d) then 0
                else StepFrom(fs, p, d, names[k]))
    decreases k
  {
    assert names[..k + 1][1..] == names[1..][..k];
    if k > 0 {
      assert names[..k][1..] == names[1..][..k - 1];
      if IsDir(fs, ip) && StepFrom(fs, p, ip, names[0]) != 0 {
        ResolveOne(fs, p, StepFrom(fs, p, ip, names[0]), names[1..], k - 1);
      }
    }
  }

  lemma {:induction false} ResolveSplit(fs: Files, p: Proc, ip: nat, names: seq<Name>, k: nat)
    requires k <= |names| && ip != 0 && Resolve(fs, p, ip, names[..k]) != 0
    ensures Resolve(fs, p, ip, names) == Resolve(fs, p, Resolve(fs, p, ip, names[..k]), names[k..])
    decreases k
  {
    if k > 0 {
      assert names[..k][1..] == names[1..][..k - 1] && names[1..][k - 1..] == names[k..];
      ResolveSplit(fs, p, StepFrom(fs, p, ip, names[0]), names[1..], k - 1);
    } else {
      assert names[0..] == names;
    }
  }

  /** A failure on the way is the failure of the whole path. */
  lemma ResolveFails(fs: Files, p: Proc, ip: nat, names: seq<Name>, k: nat)
    requires k < |names| && ip != 0
    requires var d := Resolve(fs, p, ip, names[..k]); d != 0 && (!IsDir(fs, d) || StepFrom(fs, p, d, names[k]) == 0)
    ensures Resolve(fs, p, ip, names) == 0
    ensures !IsDir(fs, Resolve(fs, p, ip, names[..k])) || k + 1 < |names| ==> ResolveParent(fs, p, ip, names) == 0
  {
    ResolveSplit(fs, p, ip, names, k);
    if k + 1 < |names| {
      var front := names[..|names| - 1];
      assert front[..k] == names[..k];
      ResolveSplit(fs, p, ip, front, k);
    }
  }

  function AfterChdir(fs: Files, p: Proc, path: seq<Byte>): Proc {
    var ip := Resolve(fs, p, Start(p, path), Elems(path));
    if IsDir(fs, ip) then Proc(ip, p.isAgent, p.jailRoot) else p
  }

  function AfterJail(fs: Files, p: Proc, path: seq<Byte>): Proc {
    var ip := Resolve(fs, p, Start(p, path), Elems(path));
    if IsDir(fs, ip) then Proc(ip, true, ip) else p
  }

  /** The fields of struct proc that path resolution reads. */
  class Task {
    var cwd: nat
    var isAgent: bool
    var jailRoot: nat

    function View(): Proc
      reads this
    {
      Proc(cwd, isAgent, jailRoot)
    }

    /** kfork: the child starts in the parent's directory and in its jail. */
    constructor Fork(parent: Task)
      requires parent.jailRoot != 0 ==> parent.isAgent
      ensures View() == parent.View()
      ensures cwd == parent.cwd && isAgent == parent.isAgent && jailRoot == parent.jailRoot
    {
      cwd, isAgent, jailRoot := parent.cwd, parent.isAgent, 0;
      if parent.jailRoot != 0 {
        jailRoot := parent.jailRoot;
      }
    }

    /** sys_chdir: on success the process is in the directory named, on failure where it was. */
    method SysChdir(fs: Files, path: seq<Byte>) returns (r: int)
      requires TreeOk(fs) && cwd != 0
      modifies this`cwd
      ensures View() == AfterChdir(fs, old(View()), path)
      ensures r == if IsDir(fs, Resolve(fs, old(View()), Start(old(View()), path), Elems(path))) then 0 else -1
      ensures cwd == if r == 0 then Resolve(fs, old(View()), Start(old(View()), path), Elems(path)) else old(cwd)
    {
      var ip, name := Namex(fs, View(), path, false);
      if ip == 0 || !IsDir(fs, ip) { return -1; }
      cwd := ip;
      return 0;
    }

    /** sys_jail: the directory named, resolved from the old root, becomes root and current directory. */
    method SysJail(fs: Files, path: seq<Byte>) returns (r: int)
      requires TreeOk(fs) && cwd != 0
      modifies this
      ensures View() == AfterJail(fs, old(View()), path)
      ensures r == if IsDir(fs, Resolve(fs, old(View()), Start(old(View()), path), Elems(path))) then 0 else -1
      ensures r == 0 ==>
                isAgent && jailRoot == cwd == Resolve(fs, old(View()), Start(old(View()), path), Elems(path))
      ensures r != 0 ==> isAgent == old(isAgent) && jailRoot == old(jailRoot) && cwd == old(cwd)
    {
      var ip, name := Namex(fs, View(), path, false);
      if ip == 0 || !IsDir(fs, ip) { return -1; }
      jailRoot, cwd, isAgent := ip, ip, true;
      return 0;
    }
  }
}
