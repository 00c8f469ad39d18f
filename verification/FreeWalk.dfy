/** freewalk of vm.c as steps on the memory value: which tables lie under a table, what remains when
    the subtrees of its first slots are gone, and when the table itself goes. */
module FreeWalk {
  import opened PageTables

  function Par(m: Phys, q: nat): nat {
    if q in m.tree then m.tree[q].parent else 0
  }

  /** Table q is p or lies below it. */
  predicate Under(m: Phys, q: nat, p: nat) {
    q in m.tree && (q == p || Par(m, q) == p || Par(m, Par(m, q)) == p)
  }

  /** The slot of p that leads to q. */
  function Slot(m: Phys, q: nat, p: nat): nat {
    if q !in m.tree then 0
    else if Par(m, q) == p then m.tree[q].prefix % PTES
    else if Par(m, q) in m.tree then m.tree[Par(m, q)].prefix % PTES
    else 0
  }

  /** No valid entry in a last-level table of the root: all leaf mappings have been removed. */
  ghost predicate NoLeaves(m: Phys, root: nat) {
    forall p: nat, k: nat {:trigger AtEntry(p, k)} ::
      AtEntry(p, k) && p in m.tree && m.tree[p].root == root && m.tree[p].level == 0 ==> !V(Entry(m.mem, p, k))
  }

  ghost predicate NoData(m: Phys, root: nat) {
    forall p: nat {:trigger AtPage(p)} :: AtPage(p) && p in m.data ==> m.data[p].0 != root
  }

  lemma NothingMappedNoLeaves(lo: nat, m: Phys, root: nat)
    requires Inv(lo, m, NOHOLE) && IsRoot(m, root)
    requires forall x: nat {:trigger AtVpn(root, x)} :: AtVpn(root, x) && x < MAXVPN ==> Lookup(m.mem, root, x) == 0
    ensures NoLeaves(m, root) && NoData(m, root)
  {
    forall p: nat, k: nat {:trigger AtEntry(p, k)} | AtEntry(p, k) && p in m.tree && m.tree[p].root == root
        && m.tree[p].level == 0
      ensures !V(Entry(m.mem, p, k))
    {
      assert AtPage(p) && NodeOk(lo, m, p);
      if k < PTES {
        var x := m.tree[p].prefix * PTES + k;
        assert x / PTES == m.tree[p].prefix && x % PTES == k && AtVpn(root, x);
        assert AtEntry(p, Index(0, x));
        LeafTarget(lo, m, root, x, p);
      }
    }
    forall p: nat {:trigger AtPage(p)} | AtPage(p) && p in m.data
      ensures m.data[p].0 != root
    {
      assert DataOk(lo, m, p) && AtVpn(m.data[p].0, m.data[p].1);
    }
  }

  ghost predicate Gone(m: Phys, q: nat, p: nat, i: nat) {
    Under(m, q, p) && q != p && Slot(m, q, p) < i
  }

  /** freewalk of p before slot i: the subtrees of the slots below i are free. */
  ghost predicate Pruning(lo: nat, m: Phys, w: Phys, p: nat, i: nat) {
    && Inv(lo, w, NOHOLE) && |w.mem| == |m.mem| && w.data == m.data
    && p in w.tree
    && (forall k: nat {:trigger AtEntry(p, k)} :: AtEntry(p, k) && k < i ==> !V(Entry(w.mem, p, k)))
    && (forall k: nat {:trigger AtEntry(p, k)} :: AtEntry(p, k) && i <= k ==> Entry(w.mem, p, k) == Entry(m.mem, p, k))
    && (forall q: nat {:trigger AtPage(q)} :: AtPage(q) ==> (q in w.tree <==> q in m.tree && !Gone(m, q, p, i)))
    && (forall q: nat {:trigger AtPage(q)} :: AtPage(q) && q in w.tree ==> w.tree[q] == m.tree[q])
    && (forall q: nat {:trigger AtPage(q)} :: AtPage(q) ==> (q in w.free <==> q in m.free || Gone(m, q, p, i)))
    && (forall q: nat {:trigger AtPage(q)} ::
        AtPage(q) && q !in m.free && q != p && !Gone(m, q, p, i) && q < |m.mem| ==> w.mem[q] == m.mem[q])
  }

  /** The entry of its parent that leads to p. */
  function HoleOf(m: Phys, p: nat): (nat, nat) {
    if p in m.tree then (m.tree[p].parent, m.tree[p].prefix % PTES) else NOHOLE
  }

  /** freewalk of p is done: the tables under p are free, nothing else changed; only the entry that
      led to p still names it. */
  ghost predicate Pruned(lo: nat, m: Phys, w: Phys, p: nat) {
    && Inv(lo, w, HoleOf(m, p)) && |w.mem| == |m.mem| && w.data == m.data
    && (forall q: nat {:trigger AtPage(q)} :: AtPage(q) ==> (q in w.tree <==> q in m.tree && !Under(m, q, p)))
    && (forall q: nat {:trigger AtPage(q)} :: AtPage(q) && q in w.tree ==> w.tree[q] == m.tree[q])
    && (forall q: nat {:trigger AtPage(q)} :: AtPage(q) ==> (q in w.free <==> q in m.free || Under(m, q, p)))
    && (forall q: nat {:trigger AtPage(q)} :: AtPage(q) && q !in m.free && !Under(m, q, p) && q < |m.mem| ==>
        w.mem[q] == m.mem[q])
  }

  lemma PruningStart(lo: nat, m: Phys, p: nat)
    requires Inv(lo, m, NOHOLE) && p in m.tree
    ensures Pruning(lo, m, m, p, 0)
  {
  }

  /** A slot without a valid entry has no subtree. */
  lemma PruningSkip(lo: nat, m: Phys, w: Phys, p: nat, i: nat)
    requires Inv(lo, m, NOHOLE) && Pruning(lo, m, w, p, i) && i < PTES && !V(Entry(w.mem, p, i))
    ensures Pruning(lo, m, w, p, i + 1)
  {
    forall q: nat {:trigger AtPage(q)} | AtPage(q)
      ensures Gone(m, q, p, i + 1) <==> Gone(m, q, p, i)
    {
      if Gone(m, q, p, i + 1) && !Gone(m, q, p, i) {
        SlotChild(lo, m, w, p, i, q);
      }
    }
  }

  /** A table of m reached through slot i is still there, and so is the child of p it lies under. */
  lemma SlotChild(lo: nat, m: Phys, w: Phys, p: nat, i: nat, q: nat)
    requires Inv(lo, m, NOHOLE) && Pruning(lo, m, w, p, i) && i < PTES
    requires Under(m, q, p) && q != p && Slot(m, q, p) == i
    ensures var c := Step(w.mem, p, i); c != 0 && c in w.tree && Par(m, c) == p && (q == c || Par(m, q) == c)
    ensures V(Entry(w.mem, p, i)) && q in w.tree
  {
    assert AtPage(q) && NodeOk(lo, m, q) && AtPage(p) && NodeOk(lo, m, p);
    if Par(m, q) == p {
      assert NodeOk(lo, w, q);
    } else {
      assert AtPage(Par(m, q)) && NodeOk(lo, m, Par(m, q));
      assert NodeOk(lo, w, Par(m, q));
    }
  }

  /** The child of p in slot i, in w, and what lies under it. */
  lemma UnderChild(lo: nat, m: Phys, w: Phys, p: nat, i: nat, q: nat)
    requires Inv(lo, m, NOHOLE) && Pruning(lo, m, w, p, i) && i < PTES && V(Entry(w.mem, p, i)) && p in m.tree
    requires m.tree[p].level > 0
    ensures Under(w, q, Ppn(Entry(w.mem, p, i))) <==> Under(m, q, p) && q != p && Slot(m, q, p) == i
  {
    var c := Ppn(Entry(w.mem, p, i));
    assert AtEntry(p, i) && AtPage(p) && AtPage(q) && AtPage(Par(w, q)) && AtPage(Par(w, Par(w, q)));
    assert ChildOk(w, p, i);
    assert AtPage(c) && NodeOk(lo, w, c) && NodeOk(lo, w, p);
    if Under(m, q, p) && q != p && Slot(m, q, p) == i {
      SlotChild(lo, m, w, p, i, q);
    }
    if Under(w, q, c) {
      assert NodeOk(lo, w, q);
    }
  }

  // After the child

  function Zeroed(m: Phys, p: nat, i: nat): Phys
    requires p < |m.mem| && i < |m.mem[p]|
  {
    Phys(m.mem[p := Put(m.mem[p], i, 0)], m.head, m.free, m.tree, m.data)
  }

  /** The hole left by a freed child. */
  ghost predicate ChildGone(lo: nat, m: Phys, p: nat, i: nat, root: nat) {
    && Inv(lo, m, (p, i)) && p in m.tree && m.tree[p].level > 0 && m.tree[p].root == root && i < PTES
    && Step(m.mem, p, i) !in m.tree && NoData(m, root)
  }

  /** Other roots do not see the entry. */
  lemma ZeroedLookup(lo: nat, m: Phys, p: nat, i: nat, root: nat, r: nat, x: nat)
    requires ChildGone(lo, m, p, i, root) && IsRoot(m, r) && r != root && x < MAXVPN
    ensures p < |m.mem| && i < |m.mem[p]| && Lookup(Zeroed(m, p, i).mem, r, x) == Lookup(m.mem, r, x)
  {
    assert AtPage(p) && NodeOk(lo, m, p) && AtPage(r) && NodeOk(lo, m, r);
    assert AtEntry(r, Index(2, x));
    var a := Step(m.mem, r, Index(2, x));
    if a != 0 {
      assert ChildOk(m, r, Index(2, x));
      assert AtPage(a) && NodeOk(lo, m, a) && AtEntry(a, Index(1, x));
      if LeafTable(m.mem, r, x) != 0 {
        assert ChildOk(m, a, Index(1, x));
      }
    }
  }

  lemma ZeroedInv(lo: nat, m: Phys, p: nat, i: nat, root: nat)
    requires ChildGone(lo, m, p, i, root)
    ensures p < |m.mem| && i < |m.mem[p]| && Inv(lo, Zeroed(m, p, i), NOHOLE)
  {
    assert AtPage(p) && NodeOk(lo, m, p);
    var w := Zeroed(m, p, i);
    ChainFrame(lo, m.mem, w.mem, m.head, m.free);
    forall q: nat {:trigger AtPage(q)} | AtPage(q) && q in w.tree
      ensures NodeOk(lo, w, q)
    {
      assert NodeOk(lo, m, q);
    }
    forall q: nat, k: nat {:trigger AtEntry(q, k)} | AtEntry(q, k) && q in w.tree && w.tree[q].level > 0 && k < PTES
        && V(Entry(w.mem, q, k)) && (q, k) != NOHOLE
      ensures ChildOk(w, q, k)
    {
      assert ChildOk(m, q, k);
    }
    forall q: nat {:trigger AtPage(q)} | AtPage(q) && q in w.data
      ensures DataOk(lo, w, q)
    {
      assert DataOk(lo, m, q);
      ZeroedLookup(lo, m, p, i, root, m.data[q].0, m.data[q].1);
    }
  }

  lemma ChildFreed(lo: nat, m: Phys, w: Phys, z: Phys, p: nat, i: nat)
    requires Inv(lo, m, NOHOLE) && Pruning(lo, m, w, p, i) && i < PTES && V(Entry(w.mem, p, i))
    requires p in m.tree && m.tree[p].level > 0 && NoData(m, m.tree[p].root)
    requires Pruned(lo, w, z, Ppn(Entry(w.mem, p, i)))
    ensures p < |z.mem| && i < |z.mem[p]| && z.mem[p] == w.mem[p] && Inv(lo, Zeroed(z, p, i), NOHOLE) && p in z.tree
  {
    var c := Ppn(Entry(w.mem, p, i));
    assert AtPage(p) && AtEntry(p, i) && AtPage(c);
    assert ChildOk(w, p, i) && NodeOk(lo, w, p);
    assert HoleOf(w, c) == (p, i);
    assert NodeOk(lo, w, c);
    UnderChild(lo, m, w, p, i, p);
    assert Under(w, c, c);
    ZeroedInv(lo, z, p, i, m.tree[p].root);
  }

  /** One turn of freewalk's loop: the child is freed and its entry zeroed. */
  lemma PruningChild(lo: nat, m: Phys, w: Phys, z: Phys, p: nat, i: nat)
    requires Inv(lo, m, NOHOLE) && Pruning(lo, m, w, p, i) && i < PTES && V(Entry(w.mem, p, i))
    requires p in m.tree && m.tree[p].level > 0 && NoData(m, m.tree[p].root)
    requires Pruned(lo, w, z, Ppn(Entry(w.mem, p, i)))
    ensures p < |z.mem| && i < |z.mem[p]| && Pruning(lo, m, Zeroed(z, p, i), p, i + 1)
  {
    var c := Ppn(Entry(w.mem, p, i));
    ChildFreed(lo, m, w, z, p, i);
    forall q: nat {:trigger AtPage(q)} | AtPage(q)
      ensures Under(w, q, c) <==> Gone(m, q, p, i + 1) && !Gone(m, q, p, i)
    {
      UnderChild(lo, m, w, p, i, q);
    }
    hide Inv, Under, Slot;
    assert AtEntry(p, i);
    forall q: nat {:trigger AtPage(q)} | AtPage(q)
      ensures Gone(m, q, p, i) ==> Gone(m, q, p, i + 1)
    {
    }
    hide Gone;
  }

  // The table itself

  ghost function Unhung(m: Phys, p: nat): Phys
    requires p < |m.mem|
  {
    Phys(Pushed(m, p).mem, Pushed(m, p).head, Pushed(m, p).free, m.tree - {p}, m.data)
  }

  /** A table without valid entries is nobody's parent and nobody else's root. */
  lemma Childless(lo: nat, m: Phys, p: nat, q: nat)
    requires Inv(lo, m, NOHOLE) && p in m.tree && forall k: nat {:trigger AtEntry(p, k)} ::
                 AtEntry(p, k) && k < PTES ==> !V(Entry(m.mem, p, k))
    requires q in m.tree && q != p
    ensures m.tree[q].level < 2 ==> m.tree[q].parent != p
    ensures m.tree[q].root != p
  {
    assert AtPage(q) && NodeOk(lo, m, q) && AtPage(p) && NodeOk(lo, m, p);
    if m.tree[q].level < 2 {
      assert AtEntry(m.tree[q].parent, m.tree[q].prefix % PTES);
      var a := m.tree[q].parent;
      assert AtPage(a) && NodeOk(lo, m, a);
      if m.tree[a].level < 2 {
        assert AtEntry(m.tree[a].parent, m.tree[a].prefix % PTES);
        assert AtPage(m.tree[a].parent) && NodeOk(lo, m, m.tree[a].parent);
      }
    }
  }

  lemma UnhungNodes(lo: nat, m: Phys, p: nat)
    requires Inv(lo, m, NOHOLE) && p in m.tree && forall k: nat {:trigger AtEntry(p, k)} ::
                 AtEntry(p, k) && k < PTES ==> !V(Entry(m.mem, p, k))
    ensures p < |m.mem| && Nodes(lo, Unhung(m, p)) && Pages(lo, Unhung(m, p))
  {
    assert AtPage(p) && NodeOk(lo, m, p);
    var w := Unhung(m, p);
    ChainFrame(lo, m.mem, w.mem, m.head, m.free);
    assert w.free[1..] == m.free;
    forall q: nat {:trigger AtPage(q)} | AtPage(q) && q in w.tree
      ensures NodeOk(lo, w, q)
    {
      assert NodeOk(lo, m, q);
      Childless(lo, m, p, q);
    }
  }

  lemma UnhungInv(lo: nat, m: Phys, p: nat)
    requires Inv(lo, m, NOHOLE) && p in m.tree && forall k: nat {:trigger AtEntry(p, k)} ::
                 AtEntry(p, k) && k < PTES ==> !V(Entry(m.mem, p, k))
    requires NoData(m, m.tree[p].root)
    ensures p < |m.mem| && Inv(lo, Unhung(m, p), HoleOf(m, p))
  {
    assert AtPage(p) && NodeOk(lo, m, p);
    var w := Unhung(m, p);
    UnhungNodes(lo, m, p);
    forall q: nat, k: nat {:trigger AtEntry(q, k)} | AtEntry(q, k) && q in w.tree && w.tree[q].level > 0 && k < PTES
        && V(Entry(w.mem, q, k)) && (q, k) != HoleOf(m, p)
      ensures ChildOk(w, q, k)
    {
      assert AtPage(q) && NodeOk(lo, m, q);
      assert ChildOk(m, q, k);
    }
    forall q: nat {:trigger AtPage(q)} | AtPage(q) && q in w.data
      ensures DataOk(lo, w, q)
    {
      assert DataOk(lo, m, q);
      SameLookup(lo, m, w, m.data[q].0, m.data[q].1);
    }
  }

  /** The end of freewalk: every slot is done, the table goes to the free list. */
  lemma PrunedLast(lo: nat, m: Phys, w: Phys, p: nat)
    requires Inv(lo, m, NOHOLE) && Pruning(lo, m, w, p, PTES) && p in m.tree && NoData(m, m.tree[p].root)
    ensures p < |w.mem| && Pruned(lo, m, Unhung(w, p), p)
  {
    assert AtPage(p);
    UnhungInv(lo, w, p);
    forall q: nat {:trigger AtPage(q)} | AtPage(q)
      ensures Under(m, q, p) <==> q == p || Gone(m, q, p, PTES)
    {
    }
  }

  /** A valid entry met by freewalk's loop points to a table one level down. */
  lemma PointsDown(lo: nat, m: Phys, w: Phys, p: nat, i: nat)
    requires Inv(lo, m, NOHOLE) && Pruning(lo, m, w, p, i) && i < PTES && V(Entry(w.mem, p, i))
    requires p in m.tree && NoLeaves(m, m.tree[p].root) && NoData(m, m.tree[p].root)
    ensures m.tree[p].level > 0 && NoRwx(Entry(w.mem, p, i))
    ensures var c := Ppn(Entry(w.mem, p, i));
            c in w.tree && w.tree[c].level < m.tree[p].level && w.tree[c].root == m.tree[p].root
    ensures NoLeaves(w, m.tree[p].root) && NoData(w, m.tree[p].root) && Inv(lo, w, NOHOLE)
  {
    assert AtPage(p) && AtEntry(p, i);
    assert w.tree[p] == m.tree[p];
    forall q: nat, k: nat {:trigger AtEntry(q, k)} | AtEntry(q, k) && q in w.tree && w.tree[q].root == m.tree[p].root
        && w.tree[q].level == 0
      ensures !V(Entry(w.mem, q, k))
    {
      assert AtPage(q) && NodeOk(lo, w, q);
    }
    assert NodeOk(lo, w, p);
    assert ChildOk(w, p, i);
  }

  /** From the root down everything is under the root. */
  lemma UnderRoot(lo: nat, m: Phys, root: nat, q: nat)
    requires Inv(lo, m, NOHOLE) && IsRoot(m, root)
    ensures Under(m, q, root) <==> q in m.tree && m.tree[q].root == root
  {
    assert AtPage(q) && AtPage(root);
    if q in m.tree {
      assert NodeOk(lo, m, q);
      var a := Par(m, q);
      assert AtPage(a) && AtPage(Par(m, a));
      if a in m.tree {
        assert NodeOk(lo, m, a);
        if m.tree[a].level < 2 {
          assert NodeOk(lo, m, Par(m, a));
        }
      }
    }
  }
}
