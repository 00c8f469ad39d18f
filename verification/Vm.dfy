/** vm.c and kalloc.c: the page allocator, and user page tables kept as Sv39 trees in memory.

    Addresses that the source requires to be page-aligned appear as page numbers; sizes stay in bytes. */
module Vm {
  import opened PageTables
  import opened FreeWalk

  const MAXVA: nat := MAXVPN * PGSIZE

  // How the state changes, as relations between the memory before and after

  /** Tables may have been added from free pages; nothing else changed hands, and no page that is
      neither free nor a table changed. */
  ghost predicate Kept(m: Phys, w: Phys) {
    && |w.mem| == |m.mem| && w.data == m.data
    && (forall p: nat {:trigger AtPage(p)} :: AtPage(p) && p in m.tree ==> p in w.tree && w.tree[p] == m.tree[p])
    && (forall p: nat {:trigger AtPage(p)} :: AtPage(p) ==>
        ((p in w.free || p in w.tree) <==> (p in m.free || p in m.tree)))
    && (forall p: nat {:trigger AtPage(p)} :: AtPage(p) && p !in m.free && p !in m.tree && p < |m.mem| ==>
        w.mem[p] == m.mem[p])
  }

  lemma KeptTwice(m: Phys, u: Phys, w: Phys)
    requires Kept(m, u) && Kept(u, w)
    ensures Kept(m, w)
  {
  }

  lemma SameMapsTwice(m: Phys, u: Phys, w: Phys)
    requires SameMaps(m, u) && Kept(m, u) && SameMaps(u, w)
    ensures SameMaps(m, w)
  {
    forall r: nat, x: nat {:trigger AtVpn(r, x)} | AtVpn(r, x) && IsRoot(m, r) && x < MAXVPN
      ensures Lookup(w.mem, r, x) == Lookup(m.mem, r, x)
    {
      assert AtPage(r);
    }
  }

  /** n pages from vpn on are mapped to consecutive pages from ppn on; no other translation changed. */
  ghost predicate Mapped(m: Phys, w: Phys, root: nat, vpn: nat, n: nat, ppn: nat, perm: nat) {
    perm < 1024 &&
    forall r: nat, x: nat {:trigger AtVpn(r, x)} :: AtVpn(r, x) && IsRoot(m, r) && x < MAXVPN ==>
      Lookup(w.mem, r, x) == if r == root && vpn <= x < vpn + n then Pte(ppn + (x - vpn), perm) else Lookup(m.mem, r, x)
  }

  ghost predicate NothingIn(m: Phys, root: nat, a: nat, b: nat) {
    forall x: nat {:trigger AtVpn(root, x)} :: AtVpn(root, x) && a <= x < b ==> Lookup(m.mem, root, x) == 0
  }

  lemma EntryKept(lo: nat, m: Phys, r: nat, x: nat, t: nat, e: nat)
    requires Leaf(lo, m, r, x, t) && Lookup(m.mem, r, x) == 0
    ensures t < |m.mem| && Index(0, x) < |m.mem[t]|
    ensures Inv(lo, WithEntry(m, t, Index(0, x), e, m.data), NOHOLE) && Kept(m, WithEntry(m, t, Index(0, x), e, m.data))
  {
    forall p: nat {:trigger AtPage(p)} | AtPage(p) && p in m.data
      ensures m.data[p] != (r, x)
    {
      assert DataOk(lo, m, p);
    }
    hide Lookup;
    WithEntryInv(lo, m, r, x, t, e, m.data);
    assert AtPage(t);
  }

  /** One turn of mappages. */
  lemma MappedOne(lo: nat, m: Phys, u: Phys, root: nat, vpn: nat, n: nat, ppn: nat, perm: nat, t: nat)
    requires Mapped(m, u, root, vpn, n, ppn, perm) && Kept(m, u)
    requires Leaf(lo, u, root, vpn + n, t) && NothingIn(m, root, vpn, vpn + n + 1) && IsRoot(m, root)
    ensures t < |u.mem| && Index(0, vpn + n) < |u.mem[t]|
    ensures var w := WithEntry(u, t, Index(0, vpn + n), Pte(ppn + n, perm), u.data);
            Mapped(m, w, root, vpn, n + 1, ppn, perm) && Kept(m, w) && Inv(lo, w, NOHOLE)
  {
    hide Lookup, Inv;
    var x0 := vpn + n;
    var e := Pte(ppn + n, perm);
    assert AtVpn(root, x0) && AtPage(root);
    EntryKept(lo, u, root, x0, t, e);
    var w := WithEntry(u, t, Index(0, x0), e, u.data);
    KeptTwice(m, u, w);
    forall r: nat, x: nat {:trigger AtVpn(r, x)} | AtVpn(r, x) && IsRoot(m, r) && x < MAXVPN
      ensures Lookup(w.mem, r, x) == if r == root && vpn <= x < vpn + n + 1 then Pte(ppn + (x - vpn), perm)
                  else Lookup(m.mem, r, x)
    {
      assert AtPage(r);
      WithEntryLookup(lo, u, root, x0, t, e, u.data, r, x);
    }
  }

  /** The state after walk has allocated a table. */
  ghost function Hung(m: Phys, p: nat, k: nat): Phys
    requires m.free != [] && m.free[0] < |m.mem| && |m.mem[m.free[0]]| == PTES
    requires p < |m.mem| && k < |m.mem[p]| && p in m.tree && m.tree[p].level > 0 && p != m.free[0]
  {
    Linked(WithPage(Popped(m), m.free[0], Fill(0, PTES)), p, k, m.free[0])
  }

  lemma HungOk(lo: nat, m: Phys, p: nat, k: nat)
    requires Inv(lo, m, NOHOLE) && m.free != [] && p in m.tree && m.tree[p].level > 0 && k < PTES
    requires !V(Entry(m.mem, p, k))
    requires m.tree[p].prefix * PTES + k < Bound(m.tree[p].level - 1)
    ensures p < |m.mem| && k < |m.mem[p]| && p != m.free[0] && m.free[0] < |m.mem| && |m.mem[m.free[0]]| == PTES
    ensures Inv(lo, Hung(m, p, k), NOHOLE) && SameMaps(m, Hung(m, p, k)) && Kept(m, Hung(m, p, k))
  {
    hide Lookup;
    var c := m.free[0];
    PoppedInv(lo, m);
    var u := Popped(m);
    WithPageInv(lo, u, c, Fill(0, PTES));
    var z := WithPage(u, c, Fill(0, PTES));
    assert AtPage(p) && AtPage(c) && AtEntry(p, k) && NodeOk(lo, m, p);
    LinkedInv(lo, z, p, k, c);
  }

  lemma MappedSame(m: Phys, u: Phys, w: Phys, root: nat, vpn: nat, n: nat, ppn: nat, perm: nat)
    requires Mapped(m, u, root, vpn, n, ppn, perm) && Kept(m, u) && SameMaps(u, w)
    ensures Mapped(m, w, root, vpn, n, ppn, perm)
  {
    hide Lookup;
    forall r: nat, x: nat {:trigger AtVpn(r, x)} | AtVpn(r, x) && IsRoot(m, r) && x < MAXVPN
      ensures Lookup(w.mem, r, x) == if r == root && vpn <= x < vpn + n then Pte(ppn + (x - vpn), perm)
                  else Lookup(m.mem, r, x)
    {
      assert AtPage(r);
    }
  }

  // Unmapping

  ghost predicate Unmapped(m: Phys, w: Phys, root: nat, a: nat, b: nat) {
    forall r: nat, x: nat {:trigger AtVpn(r, x)} :: AtVpn(r, x) && IsRoot(m, r) && x < MAXVPN ==>
      Lookup(w.mem, r, x) == if r == root && a <= x < b then 0 else Lookup(m.mem, r, x)
  }

  ghost predicate DataIn(m: Phys, root: nat, a: nat, b: nat, p: nat) {
    p in m.data && m.data[p].0 == root && a <= m.data[p].1 < b
  }

  /** Exactly the pages mapped in the range went to the free list; the tables stay, and no page that
      is neither free nor a table changed. */
  ghost predicate Released(m: Phys, w: Phys, root: nat, a: nat, b: nat) {
    && |w.mem| == |m.mem| && w.tree == m.tree
    && (forall p: nat {:trigger AtPage(p)} :: AtPage(p) ==> (p in w.free <==> p in m.free || DataIn(m, root, a, b, p)))
    && (forall p: nat {:trigger AtPage(p)} :: AtPage(p) ==> (p in w.data <==> p in m.data && !DataIn(m, root, a, b, p)))
    && (forall p: nat {:trigger AtPage(p)} :: AtPage(p) && p in w.data ==> w.data[p] == m.data[p])
    && (forall p: nat {:trigger AtPage(p)} :: AtPage(p) && p !in w.free && p !in m.tree && p < |m.mem| ==>
        w.mem[p] == m.mem[p])
  }

  /** Every page mapped in the range belongs to the table. */
  ghost predicate Owned(m: Phys, root: nat, a: nat, b: nat) {
    forall x: nat {:trigger AtVpn(root, x)} :: AtVpn(root, x) && a <= x < b && Lookup(m.mem, root, x) != 0 ==>
      Ppn(Lookup(m.mem, root, x)) in m.data && m.data[Ppn(Lookup(m.mem, root, x))] == (root, x)
  }

  ghost predicate NotOwned(m: Phys, root: nat, a: nat, b: nat) {
    forall p: nat {:trigger AtPage(p)} :: AtPage(p) && p in m.data ==> !DataIn(m, root, a, b, p)
  }

  /** uvmunmap so far: pages a up to x are unmapped. */
  ghost predicate Unmapping(lo: nat, m: Phys, w: Phys, root: nat, a: nat, x: nat, doFree: bool) {
    && Inv(lo, w, NOHOLE) && Unmapped(m, w, root, a, x)
    && Released(m, w, root, a, if doFree then x else a)
  }

  /** Taking one page out of `data` and giving it back. */
  ghost function Dropped(m: Phys, p: nat): Phys {
    Phys(m.mem, m.head, m.free, m.tree, m.data - {p})
  }

  lemma DroppedInv(lo: nat, m: Phys, p: nat)
    requires Inv(lo, m, NOHOLE)
    ensures Inv(lo, Dropped(m, p), NOHOLE)
  {
    forall q: nat {:trigger AtPage(q)} | AtPage(q) && q in Dropped(m, p).data
      ensures DataOk(lo, Dropped(m, p), q)
    {
      assert DataOk(lo, m, q);
    }
  }

  /** kfree of the page mapped at x, then the entry set to zero. */
  ghost function Cut(m: Phys, t: nat, k: nat, p: nat): Phys
    requires p < |m.mem| && t < |m.mem| && t != p && k < |m.mem[t]|
  {
    WithEntry(Pushed(Dropped(m, p), p), t, k, 0, m.data - {p})
  }

  lemma CutPage(lo: nat, m: Phys, r: nat, x: nat, t: nat)
    requires Leaf(lo, m, r, x, t) && Lookup(m.mem, r, x) != 0 && Owned(m, r, x, x + 1)
    ensures var p := Ppn(Lookup(m.mem, r, x));
            && lo <= p < |m.mem| && t < |m.mem| && t != p && Index(0, x) < |m.mem[t]| && t in m.tree
            && p in m.data && p !in m.free && p !in m.tree
            && forall q: nat {:trigger AtPage(q)} :: AtPage(q) ==> (DataIn(m, r, x, x + 1, q) <==> q == p)
  {
    var p := Ppn(Lookup(m.mem, r, x));
    assert AtVpn(r, x) && AtPage(p) && AtPage(t);
    assert DataOk(lo, m, p);
    LeafTarget(lo, m, r, x, t);
    forall q: nat {:trigger AtPage(q)} | AtPage(q) && q in m.data && m.data[q] == (r, x)
      ensures q == p
    {
      assert DataOk(lo, m, q);
    }
  }

  lemma CutOk(lo: nat, m: Phys, r: nat, x: nat, t: nat)
    requires Leaf(lo, m, r, x, t) && Lookup(m.mem, r, x) != 0 && Owned(m, r, x, x + 1)
    ensures var p := Ppn(Lookup(m.mem, r, x));
            && lo <= p < |m.mem| && t < |m.mem| && t != p && Index(0, x) < |m.mem[t]| && p in m.data
            && Inv(lo, Cut(m, t, Index(0, x), p), NOHOLE) && Unmapped(m, Cut(m, t, Index(0, x), p), r, x, x + 1)
            && Released(m, Cut(m, t, Index(0, x), p), r, x, x + 1)
  {
    hide Lookup, Inv;
    var p := Ppn(Lookup(m.mem, r, x));
    CutPage(lo, m, r, x, t);
    DroppedInv(lo, m, p);
    var u := Dropped(m, p);
    PushedInv(lo, u, p);
    var z := Pushed(u, p);
    assert AtPage(p) && AtPage(t);
    assert Leaf(lo, z, r, x, t);
    forall q: nat {:trigger AtPage(q)} | AtPage(q) && q in z.data
      ensures z.data[q] != (r, x)
    {
      assert !DataIn(m, r, x, x + 1, q);
    }
    WithEntryInv(lo, z, r, x, t, 0, z.data);
    forall s: nat, y: nat {:trigger AtVpn(s, y)} | AtVpn(s, y) && IsRoot(m, s) && y < MAXVPN
      ensures Lookup(Cut(m, t, Index(0, x), p).mem, s, y) == if s == r && x <= y < x + 1 then 0 else Lookup(m.mem, s, y)
    {
      assert AtVpn(s, y) && IsRoot(z, s);
      WithEntryLookup(lo, z, r, x, t, 0, z.data, s, y);
    }
  }

  lemma ClearOk(lo: nat, m: Phys, r: nat, x: nat, t: nat)
    requires Leaf(lo, m, r, x, t) && NotOwned(m, r, x, x + 1)
    ensures t < |m.mem| && Index(0, x) < |m.mem[t]|
    ensures var w := WithEntry(m, t, Index(0, x), 0, m.data);
            Inv(lo, w, NOHOLE) && Unmapped(m, w, r, x, x + 1) && Released(m, w, r, x, x)
  {
    LeafTarget(lo, m, r, x, t);
    hide Lookup;
    WithEntryInv(lo, m, r, x, t, 0, m.data);
    forall s: nat, y: nat {:trigger AtVpn(s, y)} | AtVpn(s, y) && IsRoot(m, s) && y < MAXVPN
      ensures Lookup(WithEntry(m, t, Index(0, x), 0, m.data).mem, s, y) == if s == r && x <= y < x + 1 then 0
                  else Lookup(m.mem, s, y)
    {
      WithEntryLookup(lo, m, r, x, t, 0, m.data, s, y);
    }
    assert AtPage(t);
  }

  lemma UnmappingMore(lo: nat, m: Phys, u: Phys, w: Phys, root: nat, a: nat, x: nat, doFree: bool)
    requires Inv(lo, m, NOHOLE) && a <= x && Unmapping(lo, m, u, root, a, x, doFree)
    requires Unmapping(lo, u, w, root, x, x + 1, doFree)
    ensures Unmapping(lo, m, w, root, a, x + 1, doFree)
  {
    hide Lookup, Inv;
    forall s: nat, y: nat {:trigger AtVpn(s, y)} | AtVpn(s, y) && IsRoot(m, s) && y < MAXVPN
      ensures Lookup(w.mem, s, y) == if s == root && a <= y < x + 1 then 0 else Lookup(m.mem, s, y)
    {
      assert IsRoot(u, s);
    }
  }

  lemma UnmappingNone(lo: nat, m: Phys, root: nat, a: nat, doFree: bool)
    requires Inv(lo, m, NOHOLE)
    ensures Unmapping(lo, m, m, root, a, a, doFree)
  {
  }

  lemma StillOwned(lo: nat, m: Phys, u: Phys, root: nat, a: nat, b: nat, x: nat, doFree: bool)
    requires Inv(lo, m, NOHOLE) && IsRoot(m, root) && a <= x < b <= MAXVPN && Unmapping(lo, m, u, root, a, x, doFree)
    requires if doFree then Owned(m, root, a, b) else NotOwned(m, root, a, b)
    ensures if doFree then Owned(u, root, x, x + 1) else NotOwned(u, root, x, x + 1)
    ensures Inv(lo, u, NOHOLE) && IsRoot(u, root)
  {
    hide Lookup;
    assert AtVpn(root, x) && AtPage(Ppn(Lookup(m.mem, root, x)));
  }

  /** A page with nothing mapped needs no work. */
  lemma UnmappingSkip(lo: nat, m: Phys, root: nat, x: nat, doFree: bool)
    requires Inv(lo, m, NOHOLE) && Lookup(m.mem, root, x) == 0
    ensures Unmapping(lo, m, m, root, x, x + 1, doFree)
  {
    forall p: nat {:trigger AtPage(p)} | AtPage(p) && p in m.data
      ensures !DataIn(m, root, x, x + 1, p)
    {
      assert DataOk(lo, m, p);
    }
  }

  // Growing an address space

  ghost predicate Held(m: Phys, p: nat) {
    p in m.free || p in m.tree || p in m.data
  }

  /** Pages a..b of root may have been given memory, taken from free pages; every other translation,
      every page already owned and the total of free, table and owned pages are as before. */
  ghost predicate Grew(m: Phys, w: Phys, root: nat, a: nat, b: nat) {
    |w.mem| == |m.mem| && Owned(w, root, a, b) && MapsOutside(m, w, root, a, b) && PagesGrew(m, w, root, a, b)
  }

  ghost predicate MapsOutside(m: Phys, w: Phys, root: nat, a: nat, b: nat) {
    forall r: nat, x: nat {:trigger AtVpn(r, x)} ::
        AtVpn(r, x) && IsRoot(m, r) && x < MAXVPN && !(r == root && a <= x < b) ==>
      Lookup(w.mem, r, x) == Lookup(m.mem, r, x)
  }

  ghost predicate PagesGrew(m: Phys, w: Phys, root: nat, a: nat, b: nat) {
    && |w.mem| == |m.mem|
    && (forall p: nat {:trigger AtPage(p)} :: AtPage(p) && p in m.tree ==> p in w.tree && w.tree[p] == m.tree[p])
    && (forall p: nat {:trigger AtPage(p)} :: AtPage(p) ==> (Held(w, p) <==> Held(m, p)))
    && (forall p: nat {:trigger AtPage(p)} :: AtPage(p) && p in m.data ==> p in w.data && w.data[p] == m.data[p])
    && (forall p: nat {:trigger AtPage(p)} :: AtPage(p) && p in w.data && p !in m.data ==> DataIn(w, root, a, b, p))
    && (forall p: nat {:trigger AtPage(p)} :: AtPage(p) && p !in m.free && p !in m.tree && p < |m.mem| ==>
        w.mem[p] == m.mem[p])
  }

  /** Page x of root is mapped with these flags to a page with this content. */
  ghost predicate PageIs(w: Phys, root: nat, x: nat, flags: nat, content: Page) {
    var e := Lookup(w.mem, root, x);
    e != 0 && e % 1024 == flags && Ppn(e) < |w.mem| && w.mem[Ppn(e)] == content
  }

  function Flags(perm: nat): nat {
    if V(perm) then perm else perm + 1
  }

  lemma GrewMore(lo: nat, m: Phys, u: Phys, w: Phys, root: nat, a: nat, x: nat)
    requires Inv(lo, m, NOHOLE) && Inv(lo, u, NOHOLE) && IsRoot(m, root) && a <= x < MAXVPN
    requires Grew(m, u, root, a, x) && Grew(u, w, root, x, x + 1)
    ensures Grew(m, w, root, a, x + 1) && IsRoot(w, root)
  {
    assert AtPage(root);
    hide Lookup;
    forall r: nat, y: nat {:trigger AtVpn(r, y)} | AtVpn(r, y) && IsRoot(m, r) && y < MAXVPN
        && !(r == root && a <= y < x + 1)
      ensures Lookup(w.mem, r, y) == Lookup(m.mem, r, y)
    {
      assert AtPage(r);
    }
    forall y: nat {:trigger AtVpn(root, y)} | AtVpn(root, y) && a <= y < x + 1 && Lookup(w.mem, root, y) != 0
      ensures Ppn(Lookup(w.mem, root, y)) in w.data && w.data[Ppn(Lookup(w.mem, root, y))] == (root, y)
    {
      assert AtPage(root) && AtPage(Ppn(Lookup(w.mem, root, y)));
    }
  }

  lemma PageStays(lo: nat, u: Phys, w: Phys, root: nat, a: nat, x: nat, y: nat, flags: nat, content: Page)
    requires Inv(lo, u, NOHOLE) && IsRoot(u, root) && Owned(u, root, a, x) && Grew(u, w, root, x, x + 1)
    requires a <= y < x < MAXVPN && PageIs(u, root, y, flags, content)
    ensures PageIs(w, root, y, flags, content)
  {
    assert AtVpn(root, y) && AtPage(Ppn(Lookup(u.mem, root, y)));
    assert DataOk(lo, u, Ppn(Lookup(u.mem, root, y)));
  }

  /** Undoing the growth gives the old memory back, but for tables taken from the free list. */
  lemma GrewUndone(lo: nat, m: Phys, w: Phys, z: Phys, root: nat, a: nat, b: nat)
    requires Inv(lo, m, NOHOLE) && NothingIn(m, root, a, b) && Grew(m, w, root, a, b)
    requires Unmapping(lo, w, z, root, a, b, true)
    ensures SameMaps(m, z) && Kept(m, z)
  {
    hide Lookup;
    forall r: nat, x: nat {:trigger AtVpn(r, x)} | AtVpn(r, x) && IsRoot(m, r) && x < MAXVPN
      ensures Lookup(z.mem, r, x) == Lookup(m.mem, r, x)
    {
      assert AtPage(r);
    }
    forall p: nat {:trigger AtPage(p)} | AtPage(p) && p in m.data
      ensures !DataIn(m, root, a, b, p)
    {
      assert DataOk(lo, m, p) && AtVpn(root, m.data[p].1);
    }
    GrewUndoneData(m, w, z, root, a, b);
    forall p: nat {:trigger AtPage(p)} | AtPage(p)
      ensures (p in z.free || p in z.tree) <==> (p in m.free || p in m.tree)
    {
      assert p in m.data ==> DataOk(lo, m, p);
      assert p in z.data ==> DataOk(lo, z, p);
    }
  }

  lemma GrewUndoneData(m: Phys, w: Phys, z: Phys, root: nat, a: nat, b: nat)
    requires Grew(m, w, root, a, b) && Released(w, z, root, a, b) && NotOwned(m, root, a, b)
    ensures z.data == m.data
  {
    forall p: nat
      ensures p in z.data <==> p in m.data
      ensures p in z.data ==> z.data[p] == m.data[p]
    {
      assert AtPage(p);
    }
  }

  ghost function WithOwner(m: Phys, p: nat, root: nat, x: nat): Phys {
    Phys(m.mem, m.head, m.free, m.tree, m.data[p := (root, x)])
  }

  lemma WithOwnerIs(m: Phys, w: Phys, p: nat, root: nat, x: nat)
    requires w == Phys(m.mem, m.head, m.free, m.tree, m.data[p := (root, x)])
    ensures w == WithOwner(m, p, root, x)
  {
  }

  lemma WithOwnerInv(lo: nat, m: Phys, p: nat, root: nat, x: nat)
    requires Inv(lo, m, NOHOLE) && IsRoot(m, root) && x < MAXVPN && lo <= p < |m.mem|
    requires p !in m.free && p !in m.tree && p !in m.data && Lookup(m.mem, root, x) != 0
    requires Ppn(Lookup(m.mem, root, x)) == p
    ensures Inv(lo, WithOwner(m, p, root, x), NOHOLE)
  {
    hide Lookup;
    forall q: nat {:trigger AtPage(q)} | AtPage(q) && q in WithOwner(m, p, root, x).data
      ensures DataOk(lo, WithOwner(m, p, root, x), q)
    {
      if q != p {
        assert DataOk(lo, m, q);
      }
    }
  }

  /** kalloc, fill, mappages and the record of the owner, as one step. */
  ghost predicate Adding(lo: nat, m: Phys, y: Phys, root: nat, x: nat, content: Page, perm: nat, done: nat) {
    && Inv(lo, m, NOHOLE) && m.free != [] && |content| == PTES && m.free[0] < |m.mem| && |m.mem[m.free[0]]| == PTES
    && Inv(lo, y, NOHOLE) && Kept(WithPage(Popped(m), m.free[0], content), y)
        && SameMaps(m, WithPage(Popped(m), m.free[0], content))
    && Mapped(WithPage(Popped(m), m.free[0], content), y, root, x, done, m.free[0], perm)
  }

  lemma AddedMaps(lo: nat, m: Phys, y: Phys, root: nat, x: nat, content: Page, perm: nat)
    requires Adding(lo, m, y, root, x, content, perm, 1) && IsRoot(m, root) && x < MAXVPN
    ensures MapsOutside(m, y, root, x, x + 1) && Lookup(y.mem, root, x) == Pte(m.free[0], perm) && IsRoot(y, root)
  {
    PoppedInv(lo, m);
    hide Lookup, Inv;
    assert AtVpn(root, x) && AtPage(root);
    forall r: nat, u: nat {:trigger AtVpn(r, u)} | AtVpn(r, u) && IsRoot(m, r) && u < MAXVPN
        && !(r == root && x <= u < x + 1)
      ensures Lookup(y.mem, r, u) == Lookup(m.mem, r, u)
    {
      assert IsRoot(Popped(m), r);
    }
  }

  lemma AddedPages(lo: nat, m: Phys, y: Phys, root: nat, x: nat, content: Page, perm: nat)
    requires Adding(lo, m, y, root, x, content, perm, 1)
    ensures PagesGrew(m, WithOwner(y, m.free[0], root, x), root, x, x + 1)
    ensures lo <= m.free[0] < |y.mem| && m.free[0] !in y.free && m.free[0] !in y.tree && m.free[0] !in y.data
    ensures y.mem[m.free[0]] == content
  {
    PoppedInv(lo, m);
    hide Lookup, Inv, SameMaps, Mapped;
    assert AtPage(m.free[0]);
  }

  lemma AddedOk(lo: nat, m: Phys, y: Phys, root: nat, x: nat, content: Page, perm: nat)
    requires Adding(lo, m, y, root, x, content, perm, 1) && IsRoot(m, root) && x < MAXVPN
    ensures var w := WithOwner(y, m.free[0], root, x);
            Inv(lo, w, NOHOLE) && Grew(m, w, root, x, x + 1) && PageIs(w, root, x, Flags(perm), content)
  {
    AddedMaps(lo, m, y, root, x, content, perm);
    AddedPages(lo, m, y, root, x, content, perm);
    hide Lookup, Inv, Kept, SameMaps, Mapped, PagesGrew;
    WithOwnerInv(lo, y, m.free[0], root, x);
  }

  lemma KeptSelf(m: Phys)
    ensures Kept(m, m) && SameMaps(m, m)
  {
  }

  lemma AddStart(lo: nat, m: Phys, root: nat, x: nat, content: Page)
    requires Inv(lo, m, NOHOLE) && IsRoot(m, root) && x < MAXVPN && Lookup(m.mem, root, x) == 0
    requires m.free != [] && |content| == PTES
    ensures m.free[0] < |m.mem| && |m.mem[m.free[0]]| == PTES
    ensures var z := WithPage(Popped(m), m.free[0], content);
            Inv(lo, z, NOHOLE) && SameMaps(m, z) && IsRoot(z, root) && NothingIn(z, root, x, x + 1)
  {
    PoppedInv(lo, m);
    WithPageInv(lo, Popped(m), m.free[0], content);
    hide Lookup, Inv;
    assert AtVpn(root, x);
  }

  lemma AddFailed(lo: nat, m: Phys, y: Phys, root: nat, x: nat, content: Page, perm: nat)
    requires Adding(lo, m, y, root, x, content, perm, 0)
    ensures m.free[0] < |y.mem| && lo <= m.free[0]
    ensures Inv(lo, Pushed(y, m.free[0]), NOHOLE) && Kept(m, Pushed(y, m.free[0])) && SameMaps(m, Pushed(y, m.free[0]))
  {
    var c := m.free[0];
    PoppedInv(lo, m);
    hide Lookup;
    assert AtPage(c);
    PushedInv(lo, y, c);
    var z := WithPage(Popped(m), c, content);
    var w := Pushed(y, c);
    forall r: nat, u: nat {:trigger AtVpn(r, u)} | AtVpn(r, u) && IsRoot(m, r) && u < MAXVPN
      ensures Lookup(w.mem, r, u) == Lookup(m.mem, r, u)
    {
      assert IsRoot(z, r) && AtPage(r);
    }
  }

  function PageCount(sz: nat): nat {
    (sz + PGSIZE - 1) / PGSIZE
  }

  function Top(newsz: nat, oldsz: nat): nat {
    if PageCount(newsz) < PageCount(oldsz) then PageCount(oldsz) else PageCount(newsz)
  }

  /** Rounding up: the pages counted are those that begin below sz. */
  lemma PageCountReaches(sz: nat, x: nat)
    ensures x < PageCount(sz) <==> x * PGSIZE < sz
  {
  }

  // The same in bytes: a page is in a range of sizes when it begins in it

  /** Every page that begins in [from, to) is mapped to a zeroed page. */
  ghost predicate ZeroBytes(w: Phys, root: nat, from: nat, to: nat, xperm: nat) {
    forall x: nat {:trigger AtVpn(root, x)} :: AtVpn(root, x) && from <= x * PGSIZE < to ==>
      PageIs(w, root, x, PTE_V + PTE_R + PTE_U + xperm, Fill(0, PTES))
  }

  /** Every translation but those of pages of root that begin in [from, to) is as before. */
  ghost predicate SameOutside(m: Phys, w: Phys, root: nat, from: nat, to: nat) {
    forall r: nat, x: nat {:trigger AtVpn(r, x)} ::
        AtVpn(r, x) && IsRoot(m, r) && x < MAXVPN && !(r == root && from <= x * PGSIZE < to) ==>
      Lookup(w.mem, r, x) == Lookup(m.mem, r, x)
  }

  ghost predicate CopiedBytes(m: Phys, w: Phys, o: nat, r: nat, sz: nat) {
    forall x: nat {:trigger AtVpn(r, x)} :: AtVpn(r, x) && x * PGSIZE < sz ==> CopyOf(m, w, o, r, x)
  }

  /** The pages of root that begin in [from, to) are gone and every other translation is as before. */
  ghost predicate GoneBytes(m: Phys, w: Phys, root: nat, from: nat, to: nat) {
    forall r: nat, x: nat {:trigger AtVpn(r, x)} :: AtVpn(r, x) && IsRoot(m, r) && x < MAXVPN ==>
      Lookup(w.mem, r, x) == if r == root && from <= x * PGSIZE < to then 0 else Lookup(m.mem, r, x)
  }

  /** Every page of root that begins below sz and is mapped belongs to root. */
  ghost predicate OwnedBelow(m: Phys, root: nat, sz: nat) {
    forall x: nat {:trigger AtVpn(root, x)} :: AtVpn(root, x) && x * PGSIZE < sz && Lookup(m.mem, root, x) != 0 ==>
      Ppn(Lookup(m.mem, root, x)) in m.data && m.data[Ppn(Lookup(m.mem, root, x))] == (root, x)
  }

  /** No page of root that begins at sz or above is mapped. */
  ghost predicate NothingFrom(m: Phys, root: nat, sz: nat) {
    forall x: nat {:trigger AtVpn(root, x)} :: AtVpn(root, x) && x < MAXVPN && x * PGSIZE >= sz ==>
      Lookup(m.mem, root, x) == 0
  }

  lemma SizeInPages(m: Phys, root: nat, sz: nat)
    requires OwnedBelow(m, root, sz) && NothingFrom(m, root, sz)
    ensures Owned(m, root, 0, PageCount(sz)) && NothingIn(m, root, PageCount(sz), MAXVPN)
  {
    hide Lookup, PageCount;
    forall x: nat ensures x < PageCount(sz) <==> x * PGSIZE < sz {
      PageCountReaches(sz, x);
    }
  }

  lemma InBytes(from: nat, to: nat, x: nat)
    ensures PageCount(from) <= x < PageCount(to) <==> from <= x * PGSIZE < to
  {
    PageCountReaches(from, x);
    PageCountReaches(to, x);
  }

  lemma GrewInBytes(m: Phys, w: Phys, root: nat, from: nat, to: nat, xperm: nat)
    requires Grew(m, w, root, PageCount(from), PageCount(to))
    requires ZeroPages(w, root, PageCount(from), PageCount(to), xperm)
    ensures ZeroBytes(w, root, from, to, xperm) && SameOutside(m, w, root, from, to)
  {
    hide Lookup, PageIs, PageCount;
    forall x: nat ensures PageCount(from) <= x < PageCount(to) <==> from <= x * PGSIZE < to {
      InBytes(from, to, x);
    }
  }

  lemma CopiedInBytes(m: Phys, w: Phys, o: nat, r: nat, sz: nat)
    requires Grew(m, w, r, 0, PageCount(sz)) && CopiedTo(m, w, o, r, PageCount(sz))
    ensures CopiedBytes(m, w, o, r, sz) && SameOutside(m, w, r, 0, sz)
  {
    hide Lookup, CopyOf, PageCount;
    forall x: nat ensures x < PageCount(sz) <==> x * PGSIZE < sz {
      PageCountReaches(sz, x);
    }
  }

  lemma UnmappedInBytes(lo: nat, m: Phys, root: nat, from: nat, to: nat)
    ensures forall w :: Unmapping(lo, m, w, root, PageCount(from), Top(from, to), true) ==>
              GoneBytes(m, w, root, from, to)
  {
    hide Lookup;
    forall x: nat ensures PageCount(from) <= x < Top(from, to) <==> from <= x * PGSIZE < to {
      InBytes(from, to, x);
    }
  }

  ghost predicate ZeroPages(w: Phys, root: nat, a: nat, b: nat, xperm: nat) {
    forall x: nat {:trigger AtVpn(root, x)} :: AtVpn(root, x) && a <= x < b ==>
      PageIs(w, root, x, PTE_V + PTE_R + PTE_U + xperm, Fill(0, PTES))
  }

  lemma ZeroMore(lo: nat, u: Phys, w: Phys, root: nat, a: nat, x: nat, xperm: nat)
    requires Inv(lo, u, NOHOLE) && IsRoot(u, root) && Owned(u, root, a, x) && Grew(u, w, root, x, x + 1)
    requires a <= x < MAXVPN
    requires ZeroPages(u, root, a, x, xperm) && xperm in {0, PTE_W, PTE_X, PTE_W + PTE_X}
    requires PageIs(w, root, x, Flags(PTE_R + PTE_U + xperm), Fill(0, PTES))
    ensures ZeroPages(w, root, a, x + 1, xperm)
  {
    hide PageIs, Inv, Lookup;
    forall y: nat {:trigger AtVpn(root, y)} | AtVpn(root, y) && a <= y < x + 1
      ensures PageIs(w, root, y, PTE_V + PTE_R + PTE_U + xperm, Fill(0, PTES))
    {
      if y < x {
        PageStays(lo, u, w, root, a, x, y, PTE_V + PTE_R + PTE_U + xperm, Fill(0, PTES));
      }
    }
  }

  lemma GrewNone(m: Phys, root: nat, a: nat)
    ensures Grew(m, m, root, a, a)
  {
  }

  lemma StillNothing(m: Phys, u: Phys, root: nat, a: nat, b: nat, x: nat)
    requires NothingIn(m, root, a, b) && Grew(m, u, root, a, x) && a <= x < b <= MAXVPN && IsRoot(m, root)
    ensures Lookup(u.mem, root, x) == 0 && IsRoot(u, root) && Owned(u, root, a, x)
  {
    assert AtVpn(root, x) && AtPage(root);
  }

  lemma NothingShrinks(m: Phys, root: nat, a: nat, x: nat, b: nat)
    requires NothingIn(m, root, a, b) && x <= b
    ensures NothingIn(m, root, a, x)
  {
  }

  /** A failed step on top of the growth so far. */
  lemma GrewKept(lo: nat, m: Phys, u: Phys, w: Phys, root: nat, a: nat, x: nat)
    requires Inv(lo, u, NOHOLE) && IsRoot(m, root) && IsRoot(u, root) && x <= MAXVPN
    requires Grew(m, u, root, a, x) && Kept(u, w) && SameMaps(u, w)
    ensures Grew(m, w, root, a, x) && IsRoot(w, root) && Owned(w, root, a, x)
  {
    hide Lookup;
    assert AtPage(root);
    forall r: nat, y: nat {:trigger AtVpn(r, y)} | AtVpn(r, y) && IsRoot(m, r) && y < MAXVPN
        && !(r == root && a <= y < x)
      ensures Lookup(w.mem, r, y) == Lookup(m.mem, r, y)
    {
      assert AtPage(r);
    }
  }

  // fork's copy

  /** The first n pages of root r hold what those of root o held in m, with the same flags. */
  ghost predicate CopiedTo(m: Phys, w: Phys, o: nat, r: nat, n: nat) {
    forall x: nat {:trigger AtVpn(r, x)} :: AtVpn(r, x) && x < n ==> CopyOf(m, w, o, r, x)
  }

  ghost predicate CopyOf(m: Phys, w: Phys, o: nat, r: nat, x: nat) {
    var e := Lookup(m.mem, o, x);
    if e == 0 then Lookup(w.mem, r, x) == 0
    else Ppn(e) < |m.mem| && PageIs(w, r, x, e % 1024, m.mem[Ppn(e)])
  }

  lemma CopyMore(lo: nat, m: Phys, u: Phys, w: Phys, o: nat, r: nat, x: nat)
    requires Inv(lo, u, NOHOLE) && IsRoot(u, r) && Owned(u, r, 0, x) && Grew(u, w, r, x, x + 1) && x < MAXVPN
    requires CopiedTo(m, u, o, r, x) && CopyOf(m, w, o, r, x)
    ensures CopiedTo(m, w, o, r, x + 1)
  {
    forall y: nat {:trigger AtVpn(r, y)} | AtVpn(r, y) && y < x + 1
      ensures CopyOf(m, w, o, r, y)
    {
      if y < x {
        var e := Lookup(m.mem, o, y);
        if e != 0 {
          PageStays(lo, u, w, r, 0, x, y, e % 1024, m.mem[Ppn(e)]);
        }
      }
    }
  }

  /** The source page of one turn, seen in the current memory. */
  lemma SourcePage(lo: nat, m: Phys, u: Phys, o: nat, r: nat, x: nat, end: nat)
    requires Inv(lo, m, NOHOLE) && IsRoot(m, o) && IsRoot(m, r) && o != r && x < end <= MAXVPN && Owned(m, o, 0, end)
    requires NothingIn(m, r, 0, end) && Grew(m, u, r, 0, x)
    ensures Lookup(u.mem, o, x) == Lookup(m.mem, o, x) && Lookup(u.mem, r, x) == 0 && IsRoot(u, o) && IsRoot(u, r)
    ensures Owned(u, r, 0, x)
    ensures var e := Lookup(m.mem, o, x);
            e != 0 ==> Ppn(e) < |m.mem| == |u.mem| && u.mem[Ppn(e)] == m.mem[Ppn(e)] && |m.mem[Ppn(e)]| == PTES && V(e)
  {
    assert AtVpn(o, x) && AtVpn(r, x) && AtPage(o) && AtPage(r) && AtPage(Ppn(Lookup(m.mem, o, x)));
  }

  lemma GrewSkip(u: Phys, root: nat, x: nat)
    requires Lookup(u.mem, root, x) == 0
    ensures Grew(u, u, root, x, x + 1)
  {
  }

  // Freeing an address space

  lemma TableFits(lo: nat, m: Phys, p: nat)
    requires Inv(lo, m, NOHOLE) && p in m.tree
    ensures lo <= p < |m.mem| && |m.mem[p]| == PTES
  {
    assert AtPage(p) && NodeOk(lo, m, p);
  }

  /** The pages of root, tables and memory, are exactly what the free list gained. */
  ghost predicate Returned(m: Phys, w: Phys, root: nat) {
    && (forall p: nat {:trigger AtPage(p)} :: AtPage(p) ==>
          (p in w.free <==>
              p in m.free || (p in m.tree && m.tree[p].root == root) || (p in m.data && m.data[p].0 == root)))
    && (forall p: nat {:trigger AtPage(p)} :: AtPage(p) ==> (p in w.tree <==> p in m.tree && m.tree[p].root != root))
    && (forall p: nat {:trigger AtPage(p)} :: AtPage(p) ==> (p in w.data <==> p in m.data && m.data[p].0 != root))
    && (forall r: nat, x: nat {:trigger AtVpn(r, x)} :: AtVpn(r, x) && IsRoot(m, r) && r != root && x < MAXVPN ==>
        Lookup(w.mem, r, x) == Lookup(m.mem, r, x))
    && (forall p: nat {:trigger AtPage(p)} :: AtPage(p) && p in w.data && p < |m.mem| && p < |w.mem| ==>
        w.mem[p] == m.mem[p])
  }

  lemma AllUnmapped(lo: nat, m: Phys, u: Phys, root: nat, n: nat)
    requires Inv(lo, m, NOHOLE) && IsRoot(m, root) && NothingIn(m, root, n, MAXVPN)
    requires Unmapping(lo, m, u, root, 0, n, true)
    ensures IsRoot(u, root) && NoLeaves(u, root) && NoData(u, root)
  {
    hide Lookup;
    assert AtPage(root);
    NothingMappedNoLeaves(lo, u, root);
  }

  lemma AllReturned(lo: nat, m: Phys, u: Phys, w: Phys, root: nat, n: nat)
    requires Inv(lo, m, NOHOLE) && IsRoot(m, root) && NothingIn(m, root, n, MAXVPN)
    requires Unmapping(lo, m, u, root, 0, n, true)
    requires Pruned(lo, u, w, root)
    ensures Inv(lo, w, NOHOLE) && Returned(m, w, root)
  {
    AllUnmapped(lo, m, u, root, n);
    assert AtPage(root) && HoleOf(u, root) == NOHOLE;
    forall p: nat {:trigger AtPage(p)} | AtPage(p)
      ensures Under(u, p, root) <==> p in m.tree && m.tree[p].root == root
      ensures p in m.data && m.data[p].0 == root <==> DataIn(m, root, 0, n, p)
    {
      UnderRoot(lo, u, root, p);
      if p in m.data && m.data[p].0 == root {
        assert DataOk(lo, m, p) && AtVpn(root, m.data[p].1);
      }
    }
    forall r: nat, x: nat {:trigger AtVpn(r, x)} | AtVpn(r, x) && IsRoot(m, r) && r != root && x < MAXVPN
      ensures Lookup(w.mem, r, x) == Lookup(m.mem, r, x)
    {
      SameLookup(lo, u, w, r, x);
    }
  }

  /** A zeroed page becomes the root of an empty table. */
  ghost function Created(m: Phys, c: nat): Phys {
    Phys(m.mem, m.head, m.free, m.tree[c := Node(c, 2, 0, 0)], m.data)
  }

  lemma CreatedInv(lo: nat, m: Phys, c: nat)
    requires Inv(lo, m, NOHOLE) && lo <= c < |m.mem| && m.mem[c] == Fill(0, PTES)
    requires c !in m.free && c !in m.tree && c !in m.data
    ensures Inv(lo, Created(m, c), NOHOLE) && NothingIn(Created(m, c), c, 0, MAXVPN)
  {
    var w := Created(m, c);
    assert AtPage(c);
    forall p: nat {:trigger AtPage(p)} | AtPage(p) && p in w.tree
      ensures NodeOk(lo, w, p)
    {
      if p != c {
        assert NodeOk(lo, m, p);
      }
    }
    forall p: nat, k: nat {:trigger AtEntry(p, k)} | AtEntry(p, k) && p in w.tree && w.tree[p].level > 0 && k < PTES
        && V(Entry(w.mem, p, k)) && (p, k) != NOHOLE
      ensures ChildOk(w, p, k)
    {
      assert ChildOk(m, p, k);
    }
    forall p: nat {:trigger AtPage(p)} | AtPage(p) && p in w.data
      ensures DataOk(lo, w, p)
    {
      assert DataOk(lo, m, p);
    }
  }

  /** No page belongs to two translations, of one table or of two. */
  lemma NoPageTwice(m: Phys, r: nat, x: nat, s: nat, y: nat)
    requires Owned(m, r, x, x + 1) && Owned(m, s, y, y + 1)
    requires Lookup(m.mem, r, x) != 0 && Lookup(m.mem, s, y) != 0
    requires Ppn(Lookup(m.mem, r, x)) == Ppn(Lookup(m.mem, s, y))
    ensures (r, x) == (s, y)
  {
    assert AtVpn(r, x) && AtVpn(s, y);
  }

  class Machine {
    const lo: nat
    var mem: seq<Page>
    var head: nat
    ghost var free: seq<nat>
    ghost var tree: map<nat, Node>
    ghost var data: map<nat, (nat, nat)>

    ghost function View(): Phys
      reads this
    {
      Phys(mem, head, free, tree, data)
    }

    ghost predicate Valid()
      reads this
    {
      Inv(lo, View(), NOHOLE)
    }

    /** kalloc: the first free page, or 0. */
    method Kalloc() returns (p: nat)
      requires Chain(lo, mem, head, free) && lo > 0
      modifies this`mem, this`head, this`free
      ensures p == 0 <==> old(free) == []
      ensures p == 0 ==> View() == old(View())
      ensures p != 0 ==> p == old(free)[0] < |old(mem)| && |old(mem)[p]| == PTES && View() == Popped(old(View()))
      ensures p != 0 ==> free == old(free)[1..] && mem == old(mem)[p := Fill(JUNKALLOC, PTES)]
    {
      if head == 0 { return 0; }
      p := head / PGSIZE;
      head := mem[p][0];
      mem := mem[p := Fill(JUNKALLOC, PTES)];
      free := free[1..];
    }

    /** kfree; a page outside [lo, PHYSTOP) is a panic. */
    method Kfree(p: nat)
      requires lo <= p < |mem|
      modifies this`mem, this`head, this`free
      ensures View() == Pushed(old(View()), p)
      ensures free == [p] + old(free) && |mem| == |old(mem)|
      ensures forall q :: 0 <= q < |mem| && q != p ==> mem[q] == old(mem)[q]
      ensures mem[p][0] == old(head) && forall k :: 1 <= k < PTES ==> mem[p][k] == JUNKFREE
    {
      mem := mem[p := Put(Fill(JUNKFREE, PTES), 0, head)];
      head := p * PGSIZE;
      free := [p] + free;
    }

    /** freerange over all of [lo, PHYSTOP): every page is free, the last one first. */
    constructor (lo: nat, mem: seq<Page>)
      requires 0 < lo <= |mem| && forall p :: lo <= p < |mem| ==> |mem[p]| == PTES
      ensures Valid() && this.lo == lo && |this.mem| == |mem| && tree == map[] && data == map[]
      ensures forall p :: p in free <==> lo <= p < |mem|
    {
      this.lo, this.mem, this.head := lo, mem, 0;
      free, tree, data := [], map[], map[];
      new;
      var p := lo;
      while p + 1 <= |mem|
        invariant lo <= p <= |mem| && |this.mem| == |mem| && tree == map[] && data == map[]
        invariant Valid() && forall q :: q in free <==> lo <= q < p
      {
        PushedInv(lo, View(), p);
        Kfree(p);
        p := p + 1;
      }
    }

    /** walk's allocation: a zeroed table hung under entry k of table p. */
    method NewTable(p: nat, k: nat) returns (c: nat)
      requires Valid() && p in tree && tree[p].level > 0 && k < PTES && !V(Entry(mem, p, k))
      requires tree[p].prefix * PTES + k < Bound(tree[p].level - 1)
      modifies this`mem, this`head, this`free, this`tree
      ensures Valid() && SameMaps(old(View()), View()) && Kept(old(View()), View())
      ensures c == 0 ==> View() == old(View()) && free == []
      ensures |free| + 1 >= |old(free)|
      ensures c != 0 ==>
                  c in tree && tree[c] ==
                      Node(old(tree)[p].root, old(tree)[p].level - 1, old(tree)[p].prefix * PTES + k, p)
    {
      assert Chain(lo, mem, head, free) && lo > 0;
      hide Inv, Lookup;
      ghost var m := View();
      if free != [] {
        HungOk(lo, m, p, k);
      }
      c := Kalloc();
      if c == 0 { return; }
      mem := mem[c := Fill(0, PTES)];
      mem := mem[p := Put(mem[p], k, Pte(c, 0))];
      tree := tree[c := Node(tree[p].root, tree[p].level - 1, tree[p].prefix * PTES + k, p)];
      assert View() == Hung(m, p, k);
    }

    /** walk: the last-level table that serves vpn; 0 when there is none and none may be, or can be,
        allocated.  No translation changes. */
    method Walk(root: nat, vpn: nat, alloc: bool) returns (t: nat)
      requires Valid() && IsRoot(View(), root) && vpn < MAXVPN
      modifies this`mem, this`head, this`free, this`tree
      ensures Valid() && SameMaps(old(View()), View()) && Kept(old(View()), View()) && IsRoot(View(), root)
      ensures !alloc ==> View() == old(View())
      ensures t != 0 ==> Leaf(lo, View(), root, vpn, t)
      ensures t == 0 ==> Lookup(mem, root, vpn) == 0 && (alloc ==> free == [])
      ensures |free| + 2 >= |old(free)| && (t == 0 && alloc ==> |old(free)| <= 1)
    {
      hide Inv, Lookup;
      ghost var m := View();
      t := root;
      assert AtPage(root) && AtEntry(root, Index(2, vpn));
      var level := 2;
      while level > 0
        invariant 0 <= level <= 2
        invariant Valid() && SameMaps(m, View()) && Kept(m, View()) && IsRoot(View(), root)
        invariant !alloc ==> View() == m
        invariant OnPath(View(), root, vpn, level, t) && |free| + (2 - level) >= |m.free|
      {
        t := WalkTurn(m, root, vpn, level, t, alloc);
        if t == 0 { return; }
        level := level - 1;
      }
      PathIsLeaf(lo, View(), root, vpn, t);
    }

    /** One turn of walk's loop. */
    method WalkTurn(ghost m: Phys, root: nat, vpn: nat, level: nat, p: nat, alloc: bool) returns (c: nat)
      requires Valid() && IsRoot(View(), root) && vpn < MAXVPN && 1 <= level <= 2 && OnPath(View(), root, vpn, level, p)
      requires SameMaps(m, View()) && Kept(m, View()) && (!alloc ==> View() == m)
      modifies this`mem, this`head, this`free, this`tree
      ensures Valid() && SameMaps(m, View()) && Kept(m, View()) && IsRoot(View(), root)
      ensures !alloc ==> View() == m
      ensures c != 0 ==> OnPath(View(), root, vpn, level - 1, c)
      ensures c == 0 ==> Lookup(mem, root, vpn) == 0 && (alloc ==> old(free) == free == [])
      ensures |free| + 1 >= |old(free)|
    {
      ghost var u := View();
      PathEntry(lo, u, root, vpn, level, p);
      PrefixStep(level, vpn);
      hide Inv, Lookup;
      var pte := mem[p][Index(level, vpn)];
      if V(pte) {
        PathDown(lo, u, root, vpn, level, p);
        PathEntry(lo, u, root, vpn, level - 1, Ppn(pte));
        return Ppn(pte);
      }
      NoPath(lo, u, root, vpn, level, p);
      if !alloc { return 0; }
      c := NewTable(p, Index(level, vpn));
      SameMapsTwice(m, u, View());
      KeptTwice(m, u, View());
      assert AtPage(root) && AtPage(c) && AtPage(p) && AtEntry(c, Index(level - 1, vpn));
    }

    /** mappages: on success exactly the n requested translations are added and no other changes; on
        failure, a prefix of them, and no page is free. */
    method Mappages(root: nat, vpn: nat, n: nat, ppn: nat, perm: nat) returns (r: int, ghost done: nat)
      requires Valid() && IsRoot(View(), root) && n > 0 && vpn + n <= MAXVPN && perm < 1024
      requires NothingIn(View(), root, vpn, vpn + n)
      modifies this`mem, this`head, this`free, this`tree
      ensures Valid() && Kept(old(View()), View()) && Mapped(old(View()), View(), root, vpn, done, ppn, perm)
      ensures if r == 0 then done == n else r == -1 && done < n && free == []
      ensures |free| + 2 * n >= |old(free)| && (r != 0 ==> |old(free)| < 2 * n)
    {
      hide Inv, Lookup;
      ghost var m := View();
      var a, pa := vpn, ppn;
      var last := vpn + n - 1;
      assert AtPage(root);
      while true
        invariant vpn <= a <= last && pa == ppn + (a - vpn)
        invariant Valid() && Kept(m, View()) && Mapped(m, View(), root, vpn, a - vpn, ppn, perm) && IsRoot(View(), root)
        invariant |free| + 2 * (a - vpn) >= |m.free|
        decreases last - a
      {
        ghost var u := View();
        var t := Walk(root, a, true);
        KeptTwice(m, u, View());
        MappedSame(m, u, View(), root, vpn, a - vpn, ppn, perm);
        if t == 0 { return -1, a - vpn; }
        MappedOne(lo, m, View(), root, vpn, a - vpn, ppn, perm, t);
        mem := mem[t := Put(mem[t], Index(0, a), Pte(pa, perm))];
        if a == last { return 0, n; }
        a, pa := a + 1, pa + 1;
      }
    }

    /** uvmunmap: exactly the given range is unmapped; with doFree the pages mapped there, and no
        others, go back to the free list. */
    method Uvmunmap(root: nat, vpn: nat, npages: nat, doFree: bool)
      requires Valid() && IsRoot(View(), root) && vpn + npages <= MAXVPN
      requires if doFree then Owned(View(), root, vpn, vpn + npages) else NotOwned(View(), root, vpn, vpn + npages)
      modifies this`mem, this`head, this`free, this`tree, this`data
      ensures Unmapping(lo, old(View()), View(), root, vpn, vpn + npages, doFree)
    {
      ghost var m := View();
      UnmappingNone(lo, m, root, vpn, doFree);
      var a := vpn;
      while a < vpn + npages
        invariant vpn <= a <= vpn + npages && Unmapping(lo, m, View(), root, vpn, a, doFree)
      {
        UnmapTurn(m, root, vpn, vpn + npages, a, doFree);
        a := a + 1;
      }
    }

    /** One turn of uvmunmap's loop. */
    method UnmapTurn(ghost m: Phys, root: nat, vpn: nat, ghost end: nat, a: nat, doFree: bool)
      requires Inv(lo, m, NOHOLE) && IsRoot(m, root) && vpn <= a < end <= MAXVPN
      requires Unmapping(lo, m, View(), root, vpn, a, doFree)
      requires if doFree then Owned(m, root, vpn, end) else NotOwned(m, root, vpn, end)
      modifies this`mem, this`head, this`free, this`tree, this`data
      ensures Unmapping(lo, m, View(), root, vpn, a + 1, doFree)
    {
      ghost var u := View();
      StillOwned(lo, m, u, root, vpn, end, a, doFree);
      hide Inv, Lookup, Owned, NotOwned, Unmapped, Released;
      var t := Walk(root, a, false);
      if t == 0 {
        UnmappingSkip(lo, u, root, a, doFree);
        UnmappingMore(lo, m, u, u, root, vpn, a, doFree);
        return;
      }
      LeafTarget(lo, u, root, a, t);
      var pte := mem[t][Index(0, a)];
      if !V(pte) {
        UnmappingSkip(lo, u, root, a, doFree);
        UnmappingMore(lo, m, u, u, root, vpn, a, doFree);
        return;
      }
      if doFree {
        CutOk(lo, u, root, a, t);
        data := data - {Ppn(pte)};
        Kfree(Ppn(pte));
        mem := mem[t := Put(mem[t], Index(0, a), 0)];
        assert View() == Cut(u, t, Index(0, a), Ppn(pte));
      } else {
        ClearOk(lo, u, root, a, t);
        mem := mem[t := Put(mem[t], Index(0, a), 0)];
      }
      UnmappingMore(lo, m, u, View(), root, vpn, a, doFree);
    }

    /** One page of growth, as uvmalloc and uvmcopy do it: kalloc, fill, mappages, and kfree again if
        mappages fails. */
    method AddPage(root: nat, x: nat, content: Page, perm: nat) returns (ok: bool)
      requires Valid() && IsRoot(View(), root) && x < MAXVPN && Lookup(mem, root, x) == 0 && |content| == PTES
      requires perm < 1024
      modifies this`mem, this`head, this`free, this`tree, this`data
      ensures Valid()
      ensures ok ==> Grew(old(View()), View(), root, x, x + 1) && PageIs(View(), root, x, Flags(perm), content)
      ensures !ok ==> Kept(old(View()), View()) && SameMaps(old(View()), View())
      ensures if ok then |free| + 3 >= |old(free)| else |old(free)| < 3
    {
      ghost var m := View();
      assert Chain(lo, mem, head, free) && lo > 0;
      if free != [] {
        AddStart(lo, m, root, x, content);
      }
      hide Inv, Lookup, Grew, PageIs, Flags, NothingIn, SameMaps, Kept, Mapped, WithOwner;
      var page := Kalloc();
      if page == 0 {
        KeptSelf(m);
        return false;
      }
      mem := mem[page := content];
      var r, done := Mappages(root, x, 1, page, perm);
      if r != 0 {
        AddFailed(lo, m, View(), root, x, content, perm);
        Kfree(page);
        return false;
      }
      AddedOk(lo, m, View(), root, x, content, perm);
      ghost var y := View();
      data := data[page := (root, x)];
      WithOwnerIs(y, View(), page, root, x);
      return true;
    }

    /** uvmdealloc: pages of [newsz, oldsz) go back to the free list and nothing else changes. */
    method Uvmdealloc(root: nat, oldsz: nat, newsz: nat) returns (r: nat)
      requires Valid() && IsRoot(View(), root) && oldsz <= MAXVA
      requires Owned(View(), root, PageCount(newsz), PageCount(oldsz))
      modifies this`mem, this`head, this`free, this`tree, this`data
      ensures r == (if newsz >= oldsz then oldsz else newsz)
      ensures Unmapping(lo, old(View()), View(), root, PageCount(newsz), Top(newsz, oldsz), true)
      ensures GoneBytes(old(View()), View(), root, newsz, oldsz)
    {
      UnmappedInBytes(lo, View(), root, newsz, oldsz);
      UnmappingNone(lo, View(), root, PageCount(newsz), true);
      if newsz >= oldsz { return oldsz; }
      if PageCount(newsz) < PageCount(oldsz) {
        var npages := PageCount(oldsz) - PageCount(newsz);
        Uvmunmap(root, PageCount(newsz), npages, true);
      }
      return newsz;
    }

    /** uvmalloc: the pages of [oldsz, newsz) get zeroed memory of their own, or, when memory runs
        out, the result is 0 and every translation and owned page is as before: each leaf page taken
        is back on the free list. */
    method Uvmalloc(root: nat, oldsz: nat, newsz: nat, xperm: nat) returns (r: nat)
      requires Valid() && IsRoot(View(), root) && oldsz <= MAXVA && newsz <= MAXVA
      requires xperm in {0, PTE_W, PTE_X, PTE_W + PTE_X}
      requires NothingIn(View(), root, PageCount(oldsz), PageCount(newsz))
      modifies this`mem, this`head, this`free, this`tree, this`data
      ensures Valid()
      ensures newsz < oldsz ==> r == oldsz && View() == old(View())
      ensures newsz >= oldsz ==> r == newsz || r == 0
      ensures newsz >= oldsz && r == newsz && newsz > 0 ==>
                Grew(old(View()), View(), root, PageCount(oldsz), PageCount(newsz))
                    && ZeroPages(View(), root, PageCount(oldsz), PageCount(newsz), xperm)
      ensures newsz >= oldsz && r == newsz && newsz > 0 ==>
                ZeroBytes(View(), root, oldsz, newsz, xperm) && SameOutside(old(View()), View(), root, oldsz, newsz)
      ensures newsz >= oldsz && r != newsz ==> SameMaps(old(View()), View()) && Kept(old(View()), View())
      ensures newsz >= oldsz && r != newsz ==> |old(free)| < 3 * (PageCount(newsz) - PageCount(oldsz))
    {
      if newsz < oldsz { return oldsz; }
      ghost var m := View();
      var first := PageCount(oldsz);
      GrewNone(m, root, first);
      hide Inv, Lookup, Grew, Owned, NothingIn;
      var a := first;
      while a * PGSIZE < newsz
        invariant first <= a && (a == first || (a - 1) * PGSIZE < newsz)
        invariant Valid() && IsRoot(View(), root) && Grew(m, View(), root, first, a)
        invariant ZeroPages(View(), root, first, a, xperm) && |free| + 3 * (a - first) >= |m.free|
      {
        var ok := UvmallocTurn(m, root, first, a, PageCount(newsz), xperm);
        if !ok { return 0; }
        a := a + 1;
      }
      GrewInBytes(m, View(), root, oldsz, newsz, xperm);
      return newsz;
    }

    /** One turn of uvmalloc's loop; when it fails everything so far is undone. */
    method UvmallocTurn(ghost m: Phys, root: nat, first: nat, a: nat, ghost end: nat, xperm: nat) returns (ok: bool)
      requires Valid() && Inv(lo, m, NOHOLE) && IsRoot(m, root) && first <= a < end <= MAXVPN
      requires xperm in {0, PTE_W, PTE_X, PTE_W + PTE_X}
      requires NothingIn(m, root, first, end) && Grew(m, View(), root, first, a)
      requires ZeroPages(View(), root, first, a, xperm)
      modifies this`mem, this`head, this`free, this`tree, this`data
      ensures Valid() && IsRoot(View(), root)
      ensures ok ==> Grew(m, View(), root, first, a + 1) && ZeroPages(View(), root, first, a + 1, xperm)
      ensures !ok ==> SameMaps(m, View()) && Kept(m, View())
      ensures if ok then |free| + 3 >= |old(free)| else |old(free)| < 3
    {
      ghost var u := View();
      StillNothing(m, u, root, first, end, a);
      NothingShrinks(m, root, first, a, end);
      hide Inv, Lookup, Grew, Owned, NothingIn, Unmapping, ZeroPages, PageIs, SameMaps, Kept;
      ok := AddPage(root, a, Fill(0, PTES), PTE_R + PTE_U + xperm);
      ghost var w := View();
      if ok {
        GrewMore(lo, m, u, w, root, first, a);
        ZeroMore(lo, u, w, root, first, a, xperm);
      } else {
        GrewKept(lo, m, u, w, root, first, a);
        Undo(m, root, first, a);
      }
    }

    /** The error path of uvmalloc: uvmdealloc back to the first page. */
    method Undo(ghost m: Phys, root: nat, first: nat, a: nat)
      requires Valid() && IsRoot(View(), root) && Inv(lo, m, NOHOLE) && IsRoot(m, root) && first <= a <= MAXVPN
      requires NothingIn(m, root, first, a) && Grew(m, View(), root, first, a) && Owned(View(), root, first, a)
      modifies this`mem, this`head, this`free, this`tree, this`data
      ensures Valid() && IsRoot(View(), root) && SameMaps(m, View()) && Kept(m, View())
    {
      ghost var w := View();
      assert PageCount(a * PGSIZE) == a && PageCount(first * PGSIZE) == first;
      hide Lookup, Grew, Owned, NothingIn;
      var undone := Uvmdealloc(root, a * PGSIZE, first * PGSIZE);
      GrewUndone(lo, m, w, View(), root, first, a);
      assert AtPage(root);
    }

    /** uvmcopy: the child's first pages become copies of the parent's, with the same flags, or, when
        memory runs out, the child is as before and each leaf page taken is back on the free list.
        Either way the parent is untouched. */
    method Uvmcopy(o: nat, r: nat, sz: nat) returns (res: int)
      requires Valid() && IsRoot(View(), o) && IsRoot(View(), r) && o != r && sz <= MAXVA
      requires Owned(View(), o, 0, PageCount(sz)) && NothingIn(View(), r, 0, PageCount(sz))
      modifies this`mem, this`head, this`free, this`tree, this`data
      ensures Valid()
      ensures if res == 0 then Grew(old(View()), View(), r, 0, PageCount(sz))
                  && CopiedTo(old(View()), View(), o, r, PageCount(sz))
              else res == -1 && SameMaps(old(View()), View()) && Kept(old(View()), View())
      ensures res == 0 ==>
                CopiedBytes(old(View()), View(), o, r, sz) && SameOutside(old(View()), View(), r, 0, sz)
      ensures res != 0 ==> |old(free)| < 3 * PageCount(sz)
    {
      ghost var m := View();
      GrewNone(m, r, 0);
      hide Inv, Lookup, Grew, Owned, NothingIn;
      var i := 0;
      while i * PGSIZE < sz
        invariant i == 0 || (i - 1) * PGSIZE < sz
        invariant Valid() && Grew(m, View(), r, 0, i) && CopiedTo(m, View(), o, r, i)
        invariant |free| + 3 * i >= |m.free|
      {
        var ok := CopyTurn(m, o, r, i, PageCount(sz));
        if !ok { return -1; }
        i := i + 1;
      }
      CopiedInBytes(m, View(), o, r, sz);
      return 0;
    }

    /** walk without allocation, and the entry it leads to: 0 when there is no valid one. */
    method FindEntry(root: nat, vpn: nat) returns (pte: nat)
      requires Valid() && IsRoot(View(), root) && vpn < MAXVPN
      modifies this`mem, this`head, this`free, this`tree
      ensures View() == old(View()) && pte == Lookup(mem, root, vpn)
    {
      hide Inv, Lookup;
      var t := Walk(root, vpn, false);
      if t == 0 { return 0; }
      LeafTarget(lo, View(), root, vpn, t);
      pte := if V(mem[t][Index(0, vpn)]) then mem[t][Index(0, vpn)] else 0;
    }

    /** One turn of uvmcopy's loop; when it fails everything so far is undone. */
    method CopyTurn(ghost m: Phys, o: nat, r: nat, i: nat, ghost end: nat) returns (ok: bool)
      requires Valid() && Inv(lo, m, NOHOLE) && IsRoot(m, o) && IsRoot(m, r) && o != r && i < end <= MAXVPN
      requires Owned(m, o, 0, end) && NothingIn(m, r, 0, end) && Grew(m, View(), r, 0, i)
      requires CopiedTo(m, View(), o, r, i)
      modifies this`mem, this`head, this`free, this`tree, this`data
      ensures Valid()
      ensures ok ==> Grew(m, View(), r, 0, i + 1) && CopiedTo(m, View(), o, r, i + 1)
      ensures !ok ==> SameMaps(m, View()) && Kept(m, View())
      ensures if ok then |free| + 3 >= |old(free)| else |old(free)| < 3
    {
      ghost var u := View();
      SourcePage(lo, m, u, o, r, i, end);
      GrewSkip(u, r, i);
      NothingShrinks(m, r, 0, i, end);
      hide Inv, Lookup, Grew, Owned, NothingIn, CopiedTo, SameMaps, Kept, PageIs, Unmapping;
      var pte := FindEntry(o, i);
      if !V(pte) {
        GrewMore(lo, m, u, u, r, 0, i);
        CopyMore(lo, m, u, u, o, r, i);
        return true;
      }
      ok := AddPage(r, i, mem[Ppn(pte)], pte % 1024);
      ghost var w := View();
      if ok {
        GrewMore(lo, m, u, w, r, 0, i);
        assert Flags(pte % 1024) == pte % 1024;
        assert CopyOf(m, w, o, r, i);
        CopyMore(lo, m, u, w, o, r, i);
      } else {
        GrewKept(lo, m, u, w, r, 0, i);
        UndoCopy(m, r, i);
      }
    }

    /** The error path of uvmcopy. */
    method UndoCopy(ghost m: Phys, r: nat, i: nat)
      requires Valid() && IsRoot(View(), r) && Inv(lo, m, NOHOLE) && i <= MAXVPN
      requires NothingIn(m, r, 0, i) && Grew(m, View(), r, 0, i) && Owned(View(), r, 0, i)
      modifies this`mem, this`head, this`free, this`tree, this`data
      ensures Valid() && SameMaps(m, View()) && Kept(m, View())
    {
      hide Inv, Lookup, Grew, Owned, NothingIn;
      ghost var w := View();
      Uvmunmap(r, 0, i, true);
      GrewUndone(lo, m, w, View(), r, 0, i);
    }

    /** freewalk: every table under p goes to the free list, and nothing else changes. */
    method Freewalk(p: nat)
      requires Valid() && p in tree && NoLeaves(View(), tree[p].root) && NoData(View(), tree[p].root)
      modifies this`mem, this`head, this`free, this`tree
      ensures Pruned(lo, old(View()), View(), p)
      decreases tree[p].level, 1
    {
      ghost var m := View();
      PruningStart(lo, m, p);
      TableFits(lo, m, p);
      hide Pruning, Pruned, NoLeaves, NoData, Inv;
      var i := 0;
      while i < PTES
        invariant i <= PTES && Pruning(lo, m, View(), p, i)
      {
        assert AtPage(p);
        FreewalkTurn(m, p, i);
        i := i + 1;
      }
      PrunedLast(lo, m, View(), p);
      Kfree(p);
      tree := tree - {p};
    }

    /** One turn of freewalk's loop; a leaf entry is the panic "freewalk: leaf". */
    method FreewalkTurn(ghost m: Phys, p: nat, i: nat)
      requires Inv(lo, m, NOHOLE) && p in m.tree && p in tree && tree[p].level == m.tree[p].level && i < PTES
      requires NoLeaves(m, m.tree[p].root) && NoData(m, m.tree[p].root) && Pruning(lo, m, View(), p, i)
      modifies this`mem, this`head, this`free, this`tree
      ensures Pruning(lo, m, View(), p, i + 1)
      decreases tree[p].level, 0
    {
      ghost var w := View();
      TableFits(lo, w, p);
      hide Pruning, Pruned, NoLeaves, NoData, Inv;
      var pte := mem[p][i];
      if !V(pte) {
        PruningSkip(lo, m, w, p, i);
        return;
      }
      PointsDown(lo, m, w, p, i);
      Freewalk(Ppn(pte));
      PruningChild(lo, m, w, View(), p, i);
      mem := mem[p := Put(mem[p], i, 0)];
    }

    /** uvmfree: every page of the address space, table or memory, goes to the free list, no other
        page does, and no other address space changes. */
    method Uvmfree(root: nat, sz: nat)
      requires Valid() && IsRoot(View(), root) && sz <= MAXVA
      requires OwnedBelow(View(), root, sz) && NothingFrom(View(), root, sz)
      modifies this`mem, this`head, this`free, this`tree, this`data
      ensures Valid() && Returned(old(View()), View(), root)
    {
      ghost var m := View();
      SizeInPages(m, root, sz);
      UnmappingNone(lo, m, root, 0, true);
      if sz > 0 {
        Uvmunmap(root, 0, PageCount(sz), true);
      }
      ghost var u := View();
      AllUnmapped(lo, m, u, root, PageCount(sz));
      Freewalk(root);
      AllReturned(lo, m, u, View(), root, PageCount(sz));
    }

    /** uvmcreate: an empty table, or 0 when no page is free. */
    method Uvmcreate() returns (root: nat)
      requires Valid()
      modifies this`mem, this`head, this`free, this`tree
      ensures Valid() && SameMaps(old(View()), View())
      ensures root == 0 ==> View() == old(View()) && free == []
      ensures root != 0 ==>
                  IsRoot(View(), root) && root !in old(tree) && NothingIn(View(), root, 0, MAXVPN)
                      && Kept(old(View()), View())
    {
      ghost var m := View();
      assert Chain(lo, mem, head, free) && lo > 0;
      if free != [] {
        PoppedInv(lo, m);
        WithPageInv(lo, Popped(m), m.free[0], Fill(0, PTES));
        CreatedInv(lo, WithPage(Popped(m), m.free[0], Fill(0, PTES)), m.free[0]);
        assert AtPage(m.free[0]);
      }
      hide Inv, Lookup, NothingIn;
      root := Kalloc();
      if root == 0 { return; }
      mem := mem[root := Fill(0, PTES)];
      tree := tree[root := Node(root, 2, 0, 0)];
    }
  }
}
