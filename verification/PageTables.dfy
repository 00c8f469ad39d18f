/** Physical memory, the page free list and Sv39 page tables as values.

    A page is 512 words of 64 bits, named by its page number.  `tree` records, for every page-table
    page, its root, its level (2 the root, 0 the leaves), the virtual page numbers it serves (their
    common prefix) and its parent; `data` records the user pages a table owns and where they are
    mapped.  Section 4.4 (Sv39) of the RISC-V Privileged Architecture gives the format. */
module PageTables {

  const PGSIZE: nat := 4096
  const PTES: nat := 512
  const MAXVPN: nat := 0x400_0000

  const PTE_V: nat := 1
  const PTE_R: nat := 2
  const PTE_W: nat := 4
  const PTE_X: nat := 8
  const PTE_U: nat := 16

  type Page = seq<nat>

  datatype Node = Node(root: nat, level: nat, prefix: nat, parent: nat)

  datatype Phys = Phys(mem: seq<Page>, head: nat, free: seq<nat>, tree: map<nat, Node>, data: map<nat, (nat, nat)>)

  // Markers: facts about all pages, entries and translations are used only where these appear

  ghost predicate AtPage(p: nat) {
    true
  }

  ghost predicate AtEntry(p: nat, k: nat) {
    true
  }

  ghost predicate AtVpn(r: nat, x: nat) {
    true
  }

  // Page-table entries

  predicate V(e: nat) {
    e % 2 == 1
  }

  function Ppn(e: nat): nat {
    e / 1024
  }

  /** Neither readable, writable nor executable: an entry that points to a table. */
  predicate NoRwx(e: nat) {
    e / 2 % 8 == 0
  }

  /** PA2PTE(pa) | perm | PTE_V for a page number and ten flag bits. */
  function Pte(ppn: nat, perm: nat): (e: nat)
    requires perm < 1024
    ensures V(e) && Ppn(e) == ppn && e % 1024 / 2 == perm / 2
  {
    ppn * 1024 + (if V(perm) then perm else perm + 1)
  }

  function Fill(w: nat, n: nat): (s: Page)
    ensures |s| == n && forall i :: 0 <= i < n ==> s[i] == w
  {
    if n == 0 then [] else Fill(w, n - 1) + [w]
  }

  function Put(page: Page, k: nat, e: nat): Page
    requires k < |page|
  {
    page[k := e]
  }

  function Entry(mem: seq<Page>, p: nat, k: nat): nat {
    if p < |mem| && k < |mem[p]| then mem[p][k] else 0
  }

  // Translation

  /** PX(level, va) for the virtual page number of va. */
  function Index(level: nat, vpn: nat): (k: nat)
    ensures k < PTES
  {
    if level == 0 then vpn % PTES else if level == 1 then vpn / PTES % PTES else vpn / 0x40000 % PTES
  }

  function Prefix(level: nat, vpn: nat): nat {
    if level == 0 then vpn / PTES else if level == 1 then vpn / 0x40000 else 0
  }

  function Bound(level: nat): nat {
    if level == 0 then 0x2_0000 else if level == 1 then 0x100 else 1
  }

  lemma PrefixStep(level: nat, vpn: nat)
    requires 1 <= level <= 2 && vpn < MAXVPN
    ensures Prefix(level - 1, vpn) == Prefix(level, vpn) * PTES + Index(level, vpn) < Bound(level - 1)
  {
  }

  function Step(mem: seq<Page>, p: nat, k: nat): nat {
    if V(Entry(mem, p, k)) then Ppn(Entry(mem, p, k)) else 0
  }

  /** The last-level table that serves vpn, or 0. */
  function LeafTable(mem: seq<Page>, root: nat, vpn: nat): nat {
    if Step(mem, root, Index(2, vpn)) == 0 then 0 else Step(mem, Step(mem, root, Index(2, vpn)), Index(1, vpn))
  }

  /** The valid leaf entry for vpn, or 0: what the hardware sees. */
  function Lookup(mem: seq<Page>, root: nat, vpn: nat): nat {
    if LeafTable(mem, root, vpn) == 0 then 0
    else
      var e := Entry(mem, LeafTable(mem, root, vpn), Index(0, vpn));
      if V(e) then e else 0
  }

  /** The translation of a byte address in the Sv39 format (section 4.4): three loads, indexed by
      bits 38-30, 29-21 and 20-12 of the address, each through bits 53-10 of the entry before it. */
  lemma HardwareWalk(mem: seq<Page>, root: nat, va: nat)
    ensures var e2 := Entry(mem, root, va / 0x4000_0000 % 512);
            var e1 := Entry(mem, e2 / 1024, va / 0x20_0000 % 512);
            var e0 := Entry(mem, e1 / 1024, va / 0x1000 % 512);
            Lookup(mem, root, va / 0x1000) ==
            if e2 % 2 == 1 && e2 / 1024 != 0 && e1 % 2 == 1 && e1 / 1024 != 0 && e0 % 2 == 1 then e0 else 0
  {
    assert va / 0x1000 / 0x40000 == va / 0x4000_0000 && va / 0x1000 / 512 == va / 0x20_0000;
    hide Entry;
  }

  // The invariant

  /** The free list threaded through the first words of the free pages. */
  ghost predicate Chain(lo: nat, mem: seq<Page>, head: nat, free: seq<nat>)
    decreases |free|
  {
    if free == [] then head == 0
    else
      && head == free[0] * PGSIZE && lo <= free[0] < |mem| && |mem[free[0]]| == PTES
      && free[0] !in free[1..] && Chain(lo, mem, mem[free[0]][0], free[1..])
  }

  ghost predicate IsRoot(m: Phys, r: nat) {
    r in m.tree && m.tree[r] == Node(r, 2, 0, 0)
  }

  ghost predicate NodeOk(lo: nat, m: Phys, p: nat)
    requires p in m.tree
  {
    var n := m.tree[p];
    && lo <= p < |m.mem| && IsRoot(m, n.root) && n.level <= 2 && n.prefix < Bound(n.level)
    && (n.level == 2 ==> n.root == p)
    && (n.level < 2 ==>
          && n.parent in m.tree && m.tree[n.parent].root == n.root && m.tree[n.parent].level == n.level + 1
          && m.tree[n.parent].prefix == n.prefix / PTES
          && Step(m.mem, n.parent, n.prefix % PTES) == p)
  }

  ghost predicate ChildOk(m: Phys, p: nat, k: nat)
    requires p in m.tree && m.tree[p].level > 0
  {
    var c := Step(m.mem, p, k);
    && c in m.tree && m.tree[c] == Node(m.tree[p].root, m.tree[p].level - 1, m.tree[p].prefix * PTES + k, p)
    && NoRwx(Entry(m.mem, p, k))
  }

  ghost predicate DataOk(lo: nat, m: Phys, p: nat)
    requires p in m.data
  {
    && lo <= p < |m.mem| && p !in m.tree && IsRoot(m, m.data[p].0) && m.data[p].1 < MAXVPN
    && Lookup(m.mem, m.data[p].0, m.data[p].1) != 0 && Ppn(Lookup(m.mem, m.data[p].0, m.data[p].1)) == p
  }

  ghost predicate Pages(lo: nat, m: Phys) {
    && 1 <= lo <= |m.mem|
    && (forall p: nat {:trigger AtPage(p)} :: AtPage(p) && lo <= p < |m.mem| ==> |m.mem[p]| == PTES)
    && Chain(lo, m.mem, m.head, m.free)
    && (forall p: nat {:trigger AtPage(p)} :: AtPage(p) && p in m.free ==> p !in m.tree && p !in m.data)
  }

  ghost predicate Nodes(lo: nat, m: Phys) {
    forall p: nat {:trigger AtPage(p)} :: AtPage(p) && p in m.tree ==> NodeOk(lo, m, p)
  }

  /** Every valid upper-level entry leads to its child; `hole` is the one entry exempt. */
  ghost predicate Children(m: Phys, hole: (nat, nat)) {
    forall p: nat, k: nat {:trigger AtEntry(p, k)} ::
      AtEntry(p, k) && p in m.tree && m.tree[p].level > 0 && k < PTES && V(Entry(m.mem, p, k)) && (p, k) != hole ==>
          ChildOk(m, p, k)
  }

  ghost predicate Datas(lo: nat, m: Phys) {
    forall p: nat {:trigger AtPage(p)} :: AtPage(p) && p in m.data ==> DataOk(lo, m, p)
  }

  const NOHOLE: (nat, nat) := (0, 0)

  ghost predicate Inv(lo: nat, m: Phys, hole: (nat, nat)) {
    Pages(lo, m) && Nodes(lo, m) && Children(m, hole) && Datas(lo, m)
  }

  // Reaching nodes

  /** A node on the path of vpn. */
  ghost predicate OnPath(m: Phys, root: nat, vpn: nat, level: nat, p: nat) {
    && p in m.tree && m.tree[p].root == root && m.tree[p].level == level && m.tree[p].prefix == Prefix(level, vpn)
    && AtEntry(p, Index(level, vpn)) && AtPage(p)
  }

  lemma PathDown(lo: nat, m: Phys, root: nat, vpn: nat, level: nat, p: nat)
    requires Inv(lo, m, NOHOLE) && vpn < MAXVPN && OnPath(m, root, vpn, level, p) && level > 0
    requires V(Entry(m.mem, p, Index(level, vpn)))
    ensures OnPath(m, root, vpn, level - 1, Ppn(Entry(m.mem, p, Index(level, vpn))))
  {
    assert NodeOk(lo, m, p);
    PrefixStep(level, vpn);
    assert ChildOk(m, p, Index(level, vpn));
  }

  lemma PathEntry(lo: nat, m: Phys, root: nat, vpn: nat, level: nat, p: nat)
    requires Inv(lo, m, NOHOLE) && OnPath(m, root, vpn, level, p)
    ensures 0 < p < |m.mem| && |m.mem[p]| == PTES
  {
    assert NodeOk(lo, m, p);
  }

  /** Where the path ends early there is no translation. */
  lemma NoPath(lo: nat, m: Phys, root: nat, vpn: nat, level: nat, p: nat)
    requires Inv(lo, m, NOHOLE) && vpn < MAXVPN && 1 <= level <= 2 && OnPath(m, root, vpn, level, p)
    requires !V(Entry(m.mem, p, Index(level, vpn)))
    ensures Lookup(m.mem, root, vpn) == 0
  {
    assert NodeOk(lo, m, p);
    if level == 1 {
      assert AtPage(m.tree[p].parent) && NodeOk(lo, m, m.tree[p].parent);
      PrefixStep(2, vpn);
      assert m.tree[p].prefix % PTES == Index(2, vpn);
    }
  }

  /** A last-level table on the path of vpn is the one translation uses. */
  lemma PathIsLeaf(lo: nat, m: Phys, root: nat, vpn: nat, t: nat)
    requires Inv(lo, m, NOHOLE) && vpn < MAXVPN && OnPath(m, root, vpn, 0, t)
    ensures LeafTable(m.mem, root, vpn) == t != 0
  {
    var a := m.tree[t].parent;
    assert NodeOk(lo, m, t) && AtPage(a);
    assert NodeOk(lo, m, a) && AtPage(m.tree[a].parent);
    assert NodeOk(lo, m, m.tree[a].parent);
    assert m.tree[a].parent == root;
    PrefixStep(1, vpn);
    PrefixStep(2, vpn);
    assert m.tree[a].prefix == vpn / 0x40000;
  }

  /** The table translation uses is on the path. */
  lemma LeafIsPath(lo: nat, m: Phys, root: nat, vpn: nat)
    requires Inv(lo, m, NOHOLE) && vpn < MAXVPN && IsRoot(m, root) && LeafTable(m.mem, root, vpn) != 0
    ensures OnPath(m, root, vpn, 0, LeafTable(m.mem, root, vpn))
  {
    assert OnPath(m, root, vpn, 2, root);
    PathDown(lo, m, root, vpn, 2, root);
    PathDown(lo, m, root, vpn, 1, Step(m.mem, root, Index(2, vpn)));
  }

  // Frames

  /** The tables are the same; other pages may differ. */
  ghost predicate SameTables(m: Phys, w: Phys) {
    && w.tree == m.tree && |w.mem| == |m.mem|
    && forall p: nat {:trigger AtPage(p)} :: AtPage(p) && p in m.tree && p < |m.mem| ==> w.mem[p] == m.mem[p]
  }

  /** The tables of root r are the same. */
  ghost predicate SameTablesOf(m: Phys, w: Phys, r: nat) {
    && |w.mem| == |m.mem|
    && forall p: nat {:trigger AtPage(p)} :: AtPage(p) && p in m.tree && m.tree[p].root == r && p < |m.mem| ==>
        w.mem[p] == m.mem[p]
  }

  lemma SameLookup(lo: nat, m: Phys, w: Phys, r: nat, x: nat)
    requires Inv(lo, m, NOHOLE) && SameTablesOf(m, w, r) && IsRoot(m, r) && x < MAXVPN
    ensures LeafTable(w.mem, r, x) == LeafTable(m.mem, r, x) && Lookup(w.mem, r, x) == Lookup(m.mem, r, x)
  {
    assert AtPage(r) && NodeOk(lo, m, r);
    var a := Step(m.mem, r, Index(2, x));
    if a != 0 {
      assert OnPath(m, r, x, 2, r);
      PathDown(lo, m, r, x, 2, r);
      assert AtPage(a) && NodeOk(lo, m, a);
      if LeafTable(m.mem, r, x) != 0 {
        LeafIsPath(lo, m, r, x);
        assert NodeOk(lo, m, LeafTable(m.mem, r, x));
      }
    }
  }

  ghost predicate SameMaps(m: Phys, w: Phys) {
    forall r: nat, x: nat {:trigger AtVpn(r, x)} :: AtVpn(r, x) && IsRoot(m, r) && x < MAXVPN ==>
        Lookup(w.mem, r, x) == Lookup(m.mem, r, x)
  }

  lemma SameTablesInv(lo: nat, m: Phys, w: Phys, hole: (nat, nat))
    requires Inv(lo, m, hole) && SameTables(m, w)
    ensures Nodes(lo, w) && Children(w, hole)
  {
    forall p: nat {:trigger AtPage(p)} | AtPage(p) && p in w.tree
      ensures NodeOk(lo, w, p)
    {
      assert NodeOk(lo, m, p);
      if m.tree[p].level < 2 {
        assert AtPage(m.tree[p].parent) && NodeOk(lo, m, m.tree[p].parent);
      }
    }
    forall p: nat, k: nat {:trigger AtEntry(p, k)} | AtEntry(p, k) && p in w.tree && w.tree[p].level > 0 && k < PTES
        && V(Entry(w.mem, p, k)) && (p, k) != hole
      ensures ChildOk(w, p, k)
    {
      assert AtPage(p) && NodeOk(lo, m, p);
      assert ChildOk(m, p, k);
    }
  }

  lemma SameTablesMaps(lo: nat, m: Phys, w: Phys)
    requires Inv(lo, m, NOHOLE) && SameTables(m, w)
    ensures SameMaps(m, w)
  {
    forall r: nat, x: nat {:trigger AtVpn(r, x)} | AtVpn(r, x) && IsRoot(m, r) && x < MAXVPN
      ensures Lookup(w.mem, r, x) == Lookup(m.mem, r, x)
    {
      SameLookup(lo, m, w, r, x);
    }
  }

  lemma SameTablesDatas(lo: nat, m: Phys, w: Phys)
    requires Inv(lo, m, NOHOLE) && SameTables(m, w) && w.data == m.data
    ensures Datas(lo, w)
  {
    forall p: nat {:trigger AtPage(p)} | AtPage(p) && p in w.data
      ensures DataOk(lo, w, p)
    {
      assert DataOk(lo, m, p);
      SameLookup(lo, m, w, m.data[p].0, m.data[p].1);
    }
  }

  lemma {:induction false} ChainFrame(lo: nat, mem: seq<Page>, mem': seq<Page>, head: nat, free: seq<nat>)
    requires Chain(lo, mem, head, free) && |mem'| == |mem|
    requires forall p :: p in free && p < |mem| ==> mem'[p] == mem[p]
    ensures Chain(lo, mem', head, free)
    decreases |free|
  {
    if free != [] {
      ChainFrame(lo, mem, mem', mem[free[0]][0], free[1..]);
    }
  }

  // kalloc and kfree

  const JUNKFREE: nat := 0x0101_0101_0101_0101
  const JUNKALLOC: nat := 0x0505_0505_0505_0505

  /** kalloc takes the first free page and fills it with junk. */
  function Popped(m: Phys): Phys
    requires m.free != [] && m.free[0] < |m.mem| && |m.mem[m.free[0]]| == PTES
  {
    Phys(m.mem[m.free[0] := Fill(JUNKALLOC, PTES)], m.mem[m.free[0]][0], m.free[1..], m.tree, m.data)
  }

  lemma PoppedInv(lo: nat, m: Phys)
    requires Inv(lo, m, NOHOLE) && m.free != []
    ensures lo <= m.free[0] < |m.mem| && |m.mem[m.free[0]]| == PTES
    ensures Inv(lo, Popped(m), NOHOLE) && SameMaps(m, Popped(m))
    ensures m.free[0] !in m.free[1..] && m.free[0] !in m.tree && m.free[0] !in m.data
  {
    var w := Popped(m);
    assert AtPage(m.free[0]);
    ChainFrame(lo, m.mem, w.mem, w.head, w.free);
    SameTablesInv(lo, m, w, NOHOLE);
    SameTablesMaps(lo, m, w);
    SameTablesDatas(lo, m, w);
  }

  /** kfree fills the page with junk and pushes it. */
  function Pushed(m: Phys, p: nat): Phys
    requires p < |m.mem|
  {
    Phys(m.mem[p := Put(Fill(JUNKFREE, PTES), 0, m.head)], p * PGSIZE, [p] + m.free, m.tree, m.data)
  }

  lemma PushedPages(lo: nat, m: Phys, p: nat)
    requires Pages(lo, m) && lo <= p < |m.mem| && p !in m.free && p !in m.tree && p !in m.data
    ensures Pages(lo, Pushed(m, p)) && SameTables(m, Pushed(m, p))
  {
    var w := Pushed(m, p);
    ChainFrame(lo, m.mem, w.mem, m.head, m.free);
    assert w.free[1..] == m.free;
  }

  lemma PushedInv(lo: nat, m: Phys, p: nat)
    requires Inv(lo, m, NOHOLE) && lo <= p < |m.mem| && p !in m.free && p !in m.tree && p !in m.data
    ensures Inv(lo, Pushed(m, p), NOHOLE) && SameMaps(m, Pushed(m, p))
  {
    PushedPages(lo, m, p);
    SameTablesInv(lo, m, Pushed(m, p), NOHOLE);
    SameTablesMaps(lo, m, Pushed(m, p));
    SameTablesDatas(lo, m, Pushed(m, p));
  }

  // Writing a page that is neither free nor a table

  function WithPage(m: Phys, p: nat, page: Page): Phys
    requires p < |m.mem|
  {
    Phys(m.mem[p := page], m.head, m.free, m.tree, m.data)
  }

  lemma WithPageInv(lo: nat, m: Phys, p: nat, page: Page)
    requires Inv(lo, m, NOHOLE) && p < |m.mem| && p !in m.free && p !in m.tree && |page| == PTES
    ensures Inv(lo, WithPage(m, p, page), NOHOLE) && SameMaps(m, WithPage(m, p, page))
  {
    var w := WithPage(m, p, page);
    ChainFrame(lo, m.mem, w.mem, m.head, m.free);
    SameTablesInv(lo, m, w, NOHOLE);
    SameTablesMaps(lo, m, w);
    SameTablesDatas(lo, m, w);
  }

  // walk: hanging a new table under an empty entry

  ghost function Linked(m: Phys, p: nat, k: nat, c: nat): Phys
    requires p < |m.mem| && k < |m.mem[p]| && p in m.tree && m.tree[p].level > 0
  {
    Phys(m.mem[p := Put(m.mem[p], k, Pte(c, 0))], m.head, m.free,
         m.tree[c := Node(m.tree[p].root, m.tree[p].level - 1, m.tree[p].prefix * PTES + k, p)], m.data)
  }

  ghost predicate CanLink(lo: nat, m: Phys, p: nat, k: nat, c: nat) {
    && Inv(lo, m, NOHOLE) && AtPage(p) && AtPage(c) && AtEntry(p, k) && p in m.tree && m.tree[p].level > 0
        && k < PTES && !V(Entry(m.mem, p, k))
    && lo <= c < |m.mem| && c !in m.tree && c !in m.data && c !in m.free && m.mem[c] == Fill(0, PTES)
    && m.tree[p].prefix * PTES + k < Bound(m.tree[p].level - 1)
  }

  lemma LinkTarget(lo: nat, m: Phys, p: nat, k: nat, c: nat)
    requires CanLink(lo, m, p, k, c)
    ensures lo <= p < |m.mem| && k < |m.mem[p]| && p != c && p !in m.free && p !in m.data && NodeOk(lo, m, p)
  {
    assert NodeOk(lo, m, p);
  }

  lemma TableEntry(c: nat)
    ensures NoRwx(Pte(c, 0)) && Ppn(Pte(c, 0)) == c && V(Pte(c, 0)) && !V(0)
  {
  }

  lemma LinkedEntry(lo: nat, m: Phys, p: nat, k: nat, c: nat, q: nat, j: nat)
    requires CanLink(lo, m, p, k, c) && p < |m.mem| && k < |m.mem[p]|
    ensures Entry(Linked(m, p, k, c).mem, q, j) == if (q, j) == (p, k) then Pte(c, 0) else Entry(m.mem, q, j)
    ensures j < PTES ==> Entry(m.mem, c, j) == 0
  {
    LinkTarget(lo, m, p, k, c);
  }

  /** The new table is empty, so no translation changes. */
  lemma LinkedLookup(lo: nat, m: Phys, p: nat, k: nat, c: nat, r: nat, x: nat)
    requires CanLink(lo, m, p, k, c) && IsRoot(m, r) && x < MAXVPN
    ensures p < |m.mem| && k < |m.mem[p]| && Lookup(Linked(m, p, k, c).mem, r, x) == Lookup(m.mem, r, x)
  {
    LinkTarget(lo, m, p, k, c);
    assert !V(Entry(m.mem, p, k));
    var a, leaf := Step(m.mem, r, Index(2, x)), LeafTable(m.mem, r, x);
    assert leaf != p by {
      if leaf != 0 { LeafIsPath(lo, m, r, x); }
    }
    TableEntry(c);
    LinkedEntry(lo, m, p, k, c, r, Index(2, x));
    LinkedEntry(lo, m, p, k, c, a, Index(1, x));
    LinkedEntry(lo, m, p, k, c, leaf, Index(0, x));
    LinkedEntry(lo, m, p, k, c, c, Index(1, x));
    LinkedEntry(lo, m, p, k, c, c, Index(0, x));
    hide Inv, NodeOk, Index, Pte, V, Ppn, Entry, Linked, CanLink, IsRoot;
  }

  lemma LinkedNodeAt(lo: nat, m: Phys, p: nat, k: nat, c: nat, q: nat)
    requires CanLink(lo, m, p, k, c) && p < |m.mem| && k < |m.mem[p]| && AtPage(q) && q in Linked(m, p, k, c).tree
    ensures NodeOk(lo, Linked(m, p, k, c), q)
  {
    LinkTarget(lo, m, p, k, c);
    if q != c {
      assert NodeOk(lo, m, q);
      if m.tree[q].level < 2 && m.tree[q].parent == p {
        assert Step(m.mem, p, m.tree[q].prefix % PTES) == q != 0;
      }
    } else {
      assert (m.tree[p].prefix * PTES + k) / PTES == m.tree[p].prefix && (m.tree[p].prefix * PTES + k) % PTES == k;
    }
  }

  lemma LinkedNodes(lo: nat, m: Phys, p: nat, k: nat, c: nat)
    requires CanLink(lo, m, p, k, c)
    ensures p < |m.mem| && k < |m.mem[p]| && Nodes(lo, Linked(m, p, k, c))
  {
    LinkTarget(lo, m, p, k, c);
    var w := Linked(m, p, k, c);
    hide CanLink, NodeOk, Linked;
    forall q: nat {:trigger AtPage(q)} | AtPage(q) && q in w.tree
      ensures NodeOk(lo, w, q)
    {
      LinkedNodeAt(lo, m, p, k, c, q);
    }
  }

  lemma LinkedChildAt(lo: nat, m: Phys, p: nat, k: nat, c: nat, q: nat, j: nat)
    requires CanLink(lo, m, p, k, c) && p < |m.mem| && k < |m.mem[p]| && AtEntry(q, j) && (q, j) != NOHOLE && j < PTES
    requires var w := Linked(m, p, k, c); q in w.tree && w.tree[q].level > 0 && V(Entry(w.mem, q, j))
    ensures ChildOk(Linked(m, p, k, c), q, j)
  {
    LinkTarget(lo, m, p, k, c);
    LinkedEntry(lo, m, p, k, c, q, j);
    TableEntry(c);
    hide Entry, Pte, NoRwx, Ppn, Pages, Datas, Nodes, Fill;
    if (q, j) != (p, k) {
      assert q != c;
      assert ChildOk(m, q, j);
    }
  }

  lemma LinkedChildren(lo: nat, m: Phys, p: nat, k: nat, c: nat)
    requires CanLink(lo, m, p, k, c)
    ensures p < |m.mem| && k < |m.mem[p]| && Children(Linked(m, p, k, c), NOHOLE)
  {
    LinkTarget(lo, m, p, k, c);
    var w := Linked(m, p, k, c);
    hide CanLink, NodeOk, ChildOk, Linked, Entry;
    forall q: nat, j: nat {:trigger AtEntry(q, j)} | AtEntry(q, j) && q in w.tree && w.tree[q].level > 0 && j < PTES
        && V(Entry(w.mem, q, j)) && (q, j) != NOHOLE
      ensures ChildOk(w, q, j)
    {
      LinkedChildAt(lo, m, p, k, c, q, j);
    }
  }

  lemma LinkedInv(lo: nat, m: Phys, p: nat, k: nat, c: nat)
    requires CanLink(lo, m, p, k, c)
    ensures p < |m.mem| && k < |m.mem[p]| && Inv(lo, Linked(m, p, k, c), NOHOLE) && SameMaps(m, Linked(m, p, k, c))
  {
    LinkTarget(lo, m, p, k, c);
    var w := Linked(m, p, k, c);
    LinkedNodes(lo, m, p, k, c);
    LinkedChildren(lo, m, p, k, c);
    ChainFrame(lo, m.mem, w.mem, m.head, m.free);
    forall q: nat {:trigger AtPage(q)} | AtPage(q) && q in w.data
      ensures DataOk(lo, w, q)
    {
      assert DataOk(lo, m, q);
      LinkedLookup(lo, m, p, k, c, m.data[q].0, m.data[q].1);
    }
    forall r: nat, x: nat {:trigger AtVpn(r, x)} | AtVpn(r, x) && IsRoot(m, r) && x < MAXVPN
      ensures Lookup(w.mem, r, x) == Lookup(m.mem, r, x)
    {
      LinkedLookup(lo, m, p, k, c, r, x);
    }
  }

  // Writing a leaf entry

  function WithEntry(m: Phys, t: nat, k: nat, e: nat, data: map<nat, (nat, nat)>): Phys
    requires t < |m.mem| && k < |m.mem[t]|
  {
    Phys(m.mem[t := Put(m.mem[t], k, e)], m.head, m.free, m.tree, data)
  }

  function Seen(e: nat): nat {
    if V(e) then e else 0
  }

  /** t is the last-level table that serves x of root r. */
  ghost predicate Leaf(lo: nat, m: Phys, r: nat, x: nat, t: nat) {
    Inv(lo, m, NOHOLE) && IsRoot(m, r) && x < MAXVPN && OnPath(m, r, x, 0, t)
  }

  lemma LeafTarget(lo: nat, m: Phys, r: nat, x: nat, t: nat)
    requires Leaf(lo, m, r, x, t)
    ensures lo <= t < |m.mem| && |m.mem[t]| == PTES && t !in m.free && t !in m.data
    ensures Lookup(m.mem, r, x) == Seen(m.mem[t][Index(0, x)])
  {
    assert NodeOk(lo, m, t);
    PathIsLeaf(lo, m, r, x, t);
  }

  /** Exactly one translation changes. */
  lemma WithEntryLookup(lo: nat, m: Phys, r: nat, x: nat, t: nat, e: nat, data: map<nat, (nat, nat)>, s: nat, y: nat)
    requires Leaf(lo, m, r, x, t) && IsRoot(m, s) && y < MAXVPN
    ensures t < |m.mem| && Index(0, x) < |m.mem[t]|
    ensures Lookup(WithEntry(m, t, Index(0, x), e, data).mem, s, y) == if (s, y) == (r, x) then Seen(e)
                else Lookup(m.mem, s, y)
  {
    LeafTarget(lo, m, r, x, t);
    var w := WithEntry(m, t, Index(0, x), e, data);
    PathIsLeaf(lo, m, r, x, t);
    assert AtPage(s) && NodeOk(lo, m, s);
    assert OnPath(m, s, y, 2, s);
    var a := Step(m.mem, s, Index(2, y));
    if a != 0 {
      PathDown(lo, m, s, y, 2, s);
      if LeafTable(m.mem, s, y) != 0 {
        LeafIsPath(lo, m, s, y);
        if LeafTable(m.mem, s, y) == t && Index(0, y) == Index(0, x) {
          assert y == y / PTES * PTES + y % PTES && x == x / PTES * PTES + x % PTES;
        }
      }
    }
  }

  lemma WithEntryInv(lo: nat, m: Phys, r: nat, x: nat, t: nat, e: nat, data: map<nat, (nat, nat)>)
    requires Leaf(lo, m, r, x, t)
    requires forall p: nat {:trigger AtPage(p)} :: AtPage(p) && p in data && p in m.data ==>
                 data[p] == m.data[p] != (r, x)
    requires forall p: nat {:trigger AtPage(p)} :: AtPage(p) && p in data && p !in m.data ==>
               data[p] == (r, x) && V(e) && Ppn(e) == p && lo <= p < |m.mem| && p !in m.tree && p !in m.free
    ensures t < |m.mem| && Index(0, x) < |m.mem[t]| && Inv(lo, WithEntry(m, t, Index(0, x), e, data), NOHOLE)
  {
    LeafTarget(lo, m, r, x, t);
    var w := WithEntry(m, t, Index(0, x), e, data);
    ChainFrame(lo, m.mem, w.mem, m.head, m.free);
    forall p: nat {:trigger AtPage(p)} | AtPage(p) && p in w.tree
      ensures NodeOk(lo, w, p)
    {
      assert NodeOk(lo, m, p);
    }
    forall p: nat, k: nat {:trigger AtEntry(p, k)} | AtEntry(p, k) && p in w.tree && w.tree[p].level > 0 && k < PTES
        && V(Entry(w.mem, p, k)) && (p, k) != NOHOLE
      ensures ChildOk(w, p, k)
    {
      assert ChildOk(m, p, k);
    }
    forall p: nat {:trigger AtPage(p)} | AtPage(p) && p in w.data
      ensures DataOk(lo, w, p)
    {
      if p in m.data {
        assert DataOk(lo, m, p);
        WithEntryLookup(lo, m, r, x, t, e, data, m.data[p].0, m.data[p].1);
      } else {
        WithEntryLookup(lo, m, r, x, t, e, data, r, x);
      }
    }
  }
}
