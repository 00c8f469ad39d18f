/** fs.c: balloc, bfree, bmap, itrunc, readi, writei, and the chunking loop of filewrite in file.c,
    on the volume of module Volume. */
module FileSystem {
  import opened BlockBytes
  import opened Volume

  const IPB: nat := 16
  const MAXOPBLOCKS: nat := 10
  const CHUNK: nat := (MAXOPBLOCKS - 1 - 1 - 2) / 2 * BSIZE
  const UINT: nat := 0x1_0000_0000

  /** The blocks of a file that bytes [off, off + n) lie in. */
  function Spanned(off: nat, n: nat): (k: nat)
    ensures n <= 3 * BSIZE ==> k <= 4
  {
    if n == 0 then 0 else (off + n - 1) / BSIZE - off / BSIZE + 1
  }

  /** The disk is full. */
  ghost predicate NoneFree(sb: Super, v: Vol) {
    forall x: nat {:trigger AtBlock(x)} :: AtBlock(x) && x < sb.size ==> Used(sb, v, x)
  }

  lemma SpannedStep(off: nat, tot: nat, m: nat)
    requires 0 < m <= BSIZE - (off + tot) % BSIZE && (tot == 0 || (off + tot) % BSIZE == 0)
    ensures Spanned(off, tot + m) == Spanned(off, tot) + 1
  {
    assert (off + tot + m - 1) / BSIZE == (off + tot) / BSIZE;
    if tot > 0 {
      assert (off + tot - 1) / BSIZE == (off + tot) / BSIZE - 1;
    }
  }

  /** The blocks logged since `before`: one free-map block, the indirect block and `stored`. */
  ghost predicate LoggedFew(sb: Super, before: set<nat>, now: set<nat>, stored: set<nat>, ind: nat) {
    sb.size <= BPB ==> forall x: nat {:trigger AtLogged(x)} :: AtLogged(x) && x in now ==>
      x in before || x == sb.bmapstart || x in stored || (x == ind && ind != 0)
  }

  // Marks a logged block.
  ghost predicate AtLogged(x: nat) {
    true
  }

  /** Every pointer slot but (i, s), and but the indirect slot of i when it was empty and a block of
      the indirect range was asked for, references what it did. */
  ghost predicate OnlyFills(v: Vol, w: Vol, i: nat, s: nat) {
    forall j: nat, t: nat {:trigger AtSlot(j, t)} ::
      AtSlot(j, t) && Ref(w, j, t, NODEAD) != Ref(v, j, t, NODEAD) ==>
        j == i && Ref(v, j, t, NODEAD) == 0 && (t == s || (t == 12 && s > 12))
  }

  lemma FillsTransitive(u: Vol, v: Vol, w: Vol, i: nat, s: nat, t: nat)
    requires OnlyFills(u, v, i, t) && OnlyFills(v, w, i, s) && (t == s || (t == 12 && s > 12))
    ensures OnlyFills(u, w, i, s)
  {
    hide Ref;
  }

  /** Every block that changed has been passed to log_write, and only blocks after the log have. */
  ghost predicate AllLogged(sb: Super, was: seq<Block>, now: seq<Block>, before: set<nat>, logged: set<nat>) {
    && |now| == |was| && before <= logged
    && (forall b: nat {:trigger AtLogged(b)} :: AtLogged(b) && b in logged && b !in before ==>
        sb.inodestart <= b < sb.size)
    && forall b: nat {:trigger now[b]} :: b < |now| && b !in logged ==> now[b] == was[b]
  }

  /** Every inode that changed lies in a block that has been passed to log_write. */
  ghost predicate InodesLogged(sb: Super, was: seq<Inode>, now: seq<Inode>, logged: set<nat>) {
    && |now| == |was|
    && forall k :: 0 <= k < |now| && sb.inodestart + k / IPB !in logged ==> now[k] == was[k]
  }

  /** The inode blocks and the free map lie before the data blocks. */
  lemma AfterLog(sb: Super)
    requires sb.Valid()
    ensures sb.inodestart < sb.bmapstart < sb.nmeta
    ensures forall i :: 0 <= i < sb.ninodes ==> sb.inodestart + i / IPB < sb.size
  {
    assert sb.bmapstart + 0 / BPB < sb.nmeta;
    forall i | 0 <= i < sb.ninodes
      ensures i / IPB <= sb.ninodes / IPB
    {
      QuotientOrder(i, sb.ninodes);
    }
  }

  lemma QuotientOrder(i: nat, n: nat)
    requires i <= n
    ensures i / IPB <= n / IPB
  {
  }

  lemma AllLoggedTransitive(sb: Super, u: seq<Block>, v: seq<Block>, w: seq<Block>, l: set<nat>, m: set<nat>,
                            n: set<nat>)
    requires AllLogged(sb, u, v, l, m) && AllLogged(sb, v, w, m, n)
    ensures AllLogged(sb, u, w, l, n)
  {
  }

  function Just(addr: nat): set<nat> {
    if addr == 0 then {} else {addr}
  }

  lemma LoggedStep(sb: Super, l: set<nat>, m: set<nat>, n: set<nat>, stored: set<nat>, more: set<nat>, ind: nat,
                   ind': nat)
    requires LoggedFew(sb, l, m, stored, ind) && LoggedFew(sb, m, n, more, ind') && (ind != 0 ==> ind' == ind)
    ensures LoggedFew(sb, l, n, stored + more, ind')
  {
  }

  /** At most k distinct blocks were logged since `before`. */
  ghost predicate LoggedAtMost(before: set<nat>, now: set<nat>, k: nat) {
    exists few: set<nat> :: |few| <= k && LoggedOnly(before, now, few)
  }

  ghost predicate LoggedOnly(before: set<nat>, now: set<nat>, few: set<nat>) {
    forall x: nat {:trigger AtLogged(x)} :: AtLogged(x) && x in now ==> x in before || x in few
  }

  lemma LoggedCount(sb: Super, before: set<nat>, now: set<nat>, stored: set<nat>, ind: nat, x: nat)
    requires LoggedFew(sb, before, now, stored, ind) && sb.size <= BPB
    ensures LoggedAtMost(before, now + {x}, 3 + |stored|)
  {
    var few := WithThree(stored, sb.bmapstart, ind, x);
    assert LoggedOnly(before, now + {x}, few);
  }

  function WithThree(s: set<nat>, x: nat, y: nat, z: nat): (r: set<nat>)
    ensures |r| <= |s| + 3
    ensures forall a: nat :: a in r <==> a in s || a == x || a == y || a == z
  {
    OneMore(s, x);
    OneMore(s + {x}, y);
    OneMore(s + {x} + {y}, z);
    s + {x} + {y} + {z}
  }

  lemma OneMore(s: set<nat>, x: nat)
    ensures |s + {x}| <= |s| + 1
  {
    if x in s {
      assert s + {x} == s;
    }
  }

  lemma SubsetSize(a: set<nat>, b: set<nat>)
    requires a <= b
    ensures |a| <= |b|
  {
    if a != {} {
      var x :| x in a;
      SubsetSize(a - {x}, b - {x});
    }
  }

  /** The state of writei's loop after tot bytes. */
  ghost predicate Writing(sb: Super, v: Vol, w: Vol, i: nat, off: nat, data: seq<Byte>, tot: nat, before: set<nat>,
                          now: set<nat>, stored: set<nat>) {
    && tot <= |data| && Wrote(sb, v, w, i, off, data[..tot])
    && |stored| <= Spanned(off, tot) && (tot == |data| || tot == 0 || (off + tot) % BSIZE == 0)
    && LoggedFew(sb, before, now, stored, w.inodes[i].addrs[12])
  }

  lemma IndirectStays(v: Vol, w: Vol, i: nat)
    requires Keeps(v, w) && i < |v.inodes| && |v.inodes[i].addrs| == |w.inodes[i].addrs| == 13
    requires v.inodes[i].addrs[12] != 0
    ensures w.inodes[i].addrs[12] == v.inodes[i].addrs[12]
  {
    assert AtSlot(i, 12);
    assert KeepsSlot(v, w, i, 12);
  }

  lemma WritingStays(sb: Super, v: Vol, u: Vol, w: Vol, i: nat, off: nat, data: seq<Byte>, tot: nat, l: set<nat>,
                     was: set<nat>, now: set<nat>, stored: set<nat>)
    requires Writing(sb, v, u, i, off, data, tot, l, was, stored) && Keeps(u, w) && Inv(sb, w, {}, NODEAD)
    requires LoggedFew(sb, was, now, {}, w.inodes[i].addrs[12])
    ensures Writing(sb, v, w, i, off, data, tot, l, now, stored)
  {
    WroteAllocated(sb, v, u, w, i, off, data[..tot]);
    if u.inodes[i].addrs[12] != 0 {
      IndirectStays(u, w, i);
    }
    LoggedStep(sb, l, was, now, stored, {}, u.inodes[i].addrs[12], w.inodes[i].addrs[12]);
    assert stored + {} == stored;
  }

  /** Between bmap and the store of one turn. */
  ghost predicate Mapped(sb: Super, v: Vol, w: Vol, i: nat, off: nat, data: seq<Byte>, tot: nat, l: set<nat>,
                         now: set<nat>, stored: set<nat>, addr: nat) {
    && tot < |data| && off + |data| <= MAXFILE * BSIZE && Wrote(sb, v, w, i, off, data[..tot])
    && |stored| <= Spanned(off, tot) && (tot == 0 || (off + tot) % BSIZE == 0)
    && LoggedFew(sb, l, now, stored + {addr}, w.inodes[i].addrs[12])
    && addr != 0 && addr == Ref(w, i, SlotOf((off + tot) / BSIZE), NODEAD)
  }

  lemma WritingMapped(sb: Super, v: Vol, u: Vol, w: Vol, i: nat, off: nat, data: seq<Byte>, tot: nat, l: set<nat>,
                      was: set<nat>, now: set<nat>, stored: set<nat>, addr: nat)
    requires Writing(sb, v, u, i, off, data, tot, l, was, stored) && Keeps(u, w) && Inv(sb, w, {}, NODEAD)
    requires LoggedFew(sb, was, now, {addr}, w.inodes[i].addrs[12])
    requires tot < |data| && off + |data| <= MAXFILE * BSIZE && addr != 0
    requires addr == Ref(w, i, SlotOf((off + tot) / BSIZE), NODEAD)
    ensures Mapped(sb, v, w, i, off, data, tot, l, now, stored, addr)
  {
    WroteAllocated(sb, v, u, w, i, off, data[..tot]);
    if u.inodes[i].addrs[12] != 0 {
      IndirectStays(u, w, i);
    }
    LoggedStep(sb, l, was, now, stored, {addr}, u.inodes[i].addrs[12], w.inodes[i].addrs[12]);
  }

  lemma WritingGoes(sb: Super, v: Vol, w: Vol, i: nat, off: nat, data: seq<Byte>, tot: nat, l: set<nat>, now: set<nat>,
                    stored: set<nat>, m: nat, addr: nat)
    requires Mapped(sb, v, w, i, off, data, tot, l, now, stored, addr)
    requires m == if |data| - tot < BSIZE - (off + tot) % BSIZE then |data| - tot else BSIZE - (off + tot) % BSIZE
    ensures addr < |w.blocks| && w.blocks[addr].Full() && sb.inodestart <= addr < sb.size
    ensures Writing(sb, v, Stored(w, i, off + tot, data[tot..tot + m]), i, off, data, tot + m, l, now + {addr},
                stored + {addr})
  {
    WroteStored(sb, v, w, i, off, data[..tot], data[tot..tot + m]);
    assert AtSlot(i, SlotOf((off + tot) / BSIZE));
    AfterLog(sb);
    assert data[..tot] + data[tot..tot + m] == data[..tot + m];
    SpannedStep(off, tot, m);
  }

  /** What writei leaves behind when it returns tot. */
  ghost predicate Written(sb: Super, v: Vol, r: Vol, i: nat, off: nat, data: seq<Byte>, tot: nat, before: set<nat>,
                          now: set<nat>) {
    && i < |v.inodes| && tot <= |data| && off <= v.inodes[i].size && OthersKeep(v, r, i)
    && Content(r, i) == PatchSeq(Content(v, i), off, data[..tot])
    && (sb.size <= BPB ==> LoggedAtMost(before, now, 3 + Spanned(off, |data|)))
  }

  lemma WritingDone(sb: Super, v: Vol, w: Vol, i: nat, off: nat, data: seq<Byte>, tot: nat, l: set<nat>, now: set<nat>,
                    stored: set<nat>, x: nat)
    requires Writing(sb, v, w, i, off, data, tot, l, now, stored)
    ensures var r := if off + tot > w.inodes[i].size then Resized(w, i, off + tot) else w;
            Inv(sb, r, {}, NODEAD) && AllCovered(r) && Written(sb, v, r, i, off, data, tot, l, now + {x})
  {
    WroteAll(sb, v, w, i, off, data[..tot]);
    assert Resized(w, i, w.inodes[i].size) == w;
    SpannedGrows(off, tot, |data|);
    if sb.size <= BPB {
      LoggedCount(sb, l, now, stored, w.inodes[i].addrs[12], x);
    }
  }

  lemma SpannedGrows(off: nat, m: nat, n: nat)
    requires m <= n
    ensures Spanned(off, m) <= Spanned(off, n)
  {
  }

  /** filewrite: what it has appended so far. */
  ghost predicate Appended(v: Vol, w: Vol, i: nat, off: nat, done: seq<Byte>) {
    && i < |v.inodes| && OthersKeep(v, w, i)
    && if done == [] then Content(w, i) == Content(v, i)
       else off <= v.inodes[i].size && Content(w, i) == PatchSeq(Content(v, i), off, done)
  }

  lemma AppendedIs(v: Vol, w: Vol, i: nat, off: nat, done: seq<Byte>)
    requires Appended(v, w, i, off, done) && i < |w.inodes|
    ensures done == [] ==> Content(w, i) == Content(v, i)
    ensures done != [] ==>
              && off <= |Content(v, i)|
              && Content(w, i) == Content(v, i)[..off] + done +
                 if off + |done| < |Content(v, i)| then Content(v, i)[off + |done|..] else []
  {
    hide Content;
    assert done != [] ==> off <= v.inodes[i].size == |Content(v, i)| by {
      ContentSize(v, i);
    }
  }

  lemma ContentSize(v: Vol, i: nat)
    requires i < |v.inodes|
    ensures |Content(v, i)| == v.inodes[i].size
  {
  }

  lemma AppendedMore(sb: Super, v: Vol, u: Vol, w: Vol, i: nat, off: nat, data: seq<Byte>, at: nat, n: nat, r: nat,
                     now: set<nat>)
    requires at + n <= |data| && Appended(v, u, i, off, data[..at]) && |w.inodes| == |v.inodes|
    requires Written(sb, u, w, i, off + at, data[at..at + n], r, {}, now)
    ensures r <= n && Appended(v, w, i, off, data[..at + r])
  {
    assert |Content(u, i)| == u.inodes[i].size && |Content(v, i)| == v.inodes[i].size;
    assert data[at..at + n][..r] == data[at..at + r] && data[..at] + data[at..at + r] == data[..at + r];
    if at > 0 {
      PatchTwice(Content(v, i), off, data[..at], data[at..at + r]);
    } else {
      assert PatchSeq(Content(v, i), off, []) == Content(v, i);
    }
  }

  lemma AppendRefused(v: Vol, u: Vol, i: nat, off: nat, data: seq<Byte>, at: nat, n: nat)
    requires at + n <= |data| && Appended(v, u, i, off, data[..at])
    requires off + at > u.inodes[i].size || off + at + n > MAXFILE * BSIZE
    ensures off > v.inodes[i].size || off + |data| > MAXFILE * BSIZE
  {
    assert |Content(u, i)| == u.inodes[i].size && |Content(v, i)| == v.inodes[i].size;
  }

  lemma FewBlocks(sb: Super, now: set<nat>, off: nat, n: nat)
    requires n <= CHUNK && (now == {} || (sb.size <= BPB ==> LoggedAtMost({}, now, 3 + Spanned(off, n))))
    ensures sb.size <= BPB ==> |now| <= 7 <= MAXOPBLOCKS
  {
    if sb.size <= BPB && now != {} {
      var few: set<nat> :| |few| <= 3 + Spanned(off, n) && LoggedOnly({}, now, few);
      forall x: nat | x in now ensures x in few {
        assert AtLogged(x);
      }
      SubsetSize(now, few);
    }
  }

  /** A struct file open on inode ip. */
  class File {
    const ip: nat
    var off: nat

    constructor (ip: nat)
      ensures this.ip == ip && off == 0
    {
      this.ip, off := ip, 0;
    }
  }

  class Fs {
    const sb: Super
    var inodes: seq<Inode>
    var dinodes: seq<Inode>
    var blocks: seq<Block>
    ghost var owner: map<nat, (nat, nat)>
    /** The blocks passed to log_write so far. */
    ghost var logged: set<nat>

    ghost function View(): Vol
      reads this
    {
      Vol(inodes, blocks, owner)
    }

    ghost predicate Consistent()
      reads this
    {
      Inv(sb, View(), {}, NODEAD) && |dinodes| == |inodes|
    }

    ghost predicate Valid()
      reads this
    {
      Consistent() && AllCovered(View())
    }

    constructor (sb: Super, inodes: seq<Inode>, blocks: seq<Block>, ghost owner: map<nat, (nat, nat)>)
      requires Inv(sb, Vol(inodes, blocks, owner), {}, NODEAD) && AllCovered(Vol(inodes, blocks, owner))
      ensures Valid() && this.sb == sb && View() == Vol(inodes, blocks, owner) && logged == {}
    {
      this.sb := sb;
      this.inodes, this.dinodes, this.blocks := inodes, inodes, blocks;
      this.owner, this.logged := owner, {};
    }

    /** The scan of balloc: the lowest free block, or 0 when every block is in use. */
    method FindFree() returns (b: nat)
      requires Consistent()
      ensures b == 0 ==> NoneFree(sb, View())
      ensures b != 0 ==>
                  b < sb.size && !Used(sb, View(), b) && forall x: nat {:trigger AtBlock(x)} ::
                      AtBlock(x) && x < b ==> Used(sb, View(), x)
    {
      var q := 0;
      while q * BPB < sb.size
        invariant forall x: nat {:trigger AtBlock(x)} :: AtBlock(x) && x < q * BPB && x < sb.size ==>
                      Used(sb, View(), x)
      {
        var m, bi := sb.bmapstart + q, 0;
        while bi < BPB && q * BPB + bi < sb.size
          invariant 0 <= bi <= BPB
          invariant forall x: nat {:trigger AtBlock(x)} :: AtBlock(x) && x < q * BPB + bi && x < sb.size ==>
                        Used(sb, View(), x)
        {
          b := q * BPB + bi;
          assert b / BPB == q && b % BPB == bi;
          BitmapInMeta(sb, View(), b);
          if !BitAt(blocks[m], bi) {
            assert AtBlock(b);
            return;
          }
          bi := bi + 1;
        }
        q := q + 1;
      }
      return 0;
    }

    /** balloc: the lowest free block, marked and zeroed; 0 exactly when every block is in use. */
    method Balloc() returns (b: nat)
      requires Consistent()
      modifies this`blocks, this`logged
      ensures b == 0 ==> blocks == old(blocks) && logged == old(logged) && NoneFree(sb, View())
      ensures b != 0 ==>
                && AtBlock(b) && sb.nmeta <= b < sb.size && !Used(sb, old(View()), b)
                && (forall x: nat {:trigger AtBlock(x)} :: AtBlock(x) && x < b ==> Used(sb, old(View()), x))
                && BitmapBlock(sb, b) < |old(blocks)| && old(blocks)[BitmapBlock(sb, b)].Full()
                && View() == Taken(sb, old(View()), b)
                && logged == old(logged) + {BitmapBlock(sb, b), b}
      ensures AllLogged(sb, old(blocks), blocks, old(logged), logged)
    {
      b := FindFree();
      if b == 0 { return; }
      assert AtBlock(b);
      BitmapInMeta(sb, View(), b);
      var m := sb.bmapstart + b / BPB;
      blocks := blocks[m := WithBit(blocks[m], b % BPB)][b := ZeroBlock()];
      logged := logged + {m, b};
    }

    /** bfree; a free block is the panic "freeing free block". */
    method Bfree(b: nat)
      requires Shaped(sb, View()) && b < sb.size && Used(sb, View(), b)
      modifies this`blocks, this`logged
      ensures BitmapBlock(sb, b) < |old(blocks)| && old(blocks)[BitmapBlock(sb, b)].Full()
      ensures View() == Cleared(sb, old(View()), b) && logged == old(logged) + {BitmapBlock(sb, b)}
    {
      BitmapInMeta(sb, View(), b);
      var m := sb.bmapstart + b / BPB;
      blocks := blocks[m := WithoutBit(blocks[m], b % BPB)];
      logged := logged + {m};
    }

    /** Fill an empty direct slot, or the empty indirect slot, with a fresh block. */
    method AllocSlot(i: nat, s: nat) returns (addr: nat)
      requires Consistent() && i < |inodes| && s < 13 && inodes[i].addrs[s] == 0
      modifies this`blocks, this`logged, this`inodes, this`owner
      ensures Consistent() && Keeps(old(View()), View()) && AllLogged(sb, old(blocks), blocks, old(logged), logged)
      ensures addr == 0 ==> NoneFree(sb, View()) && View() == old(View()) && logged == old(logged)
      ensures OnlyFills(old(View()), View(), i, s)
      ensures addr != 0 ==> inodes[i].addrs[s] == addr && logged == old(logged) + {BitmapBlock(sb, addr), addr}
    {
      ghost var v := View();
      addr := Balloc();
      if addr == 0 { return; }
      TakenInv(sb, v, addr);
      TakenKeeps(sb, v, addr);
      ghost var t := View();
      assert NoEntries(ZeroBlock()) by {
        forall j: nat ensures Word(ZeroBlock(), j) == 0 {
          ZeroWord(j);
        }
      }
      LinkSlotInv(sb, t, i, s, addr);
      LinkSlotKeeps(sb, t, i, s, addr);
      KeepsTransitive(v, t, LinkSlot(t, i, s, addr));
      inodes := inodes[i := Inode(inodes[i].size, inodes[i].addrs[s := addr])];
      owner := owner[addr := (i, s)];
      forall j: nat, k: nat {:trigger AtSlot(j, k)} | AtSlot(j, k)
        ensures (j, k) != (i, s) ==> Ref(View(), j, k, NODEAD) == Ref(v, j, k, NODEAD)
      {
        LinkSlotRef(sb, t, i, s, addr, j, k);
      }
    }

    /** Fill an empty entry of the indirect block with a fresh block. */
    method AllocEntry(i: nat, j: nat) returns (addr: nat)
      requires Consistent() && i < |inodes| && j < NINDIRECT && inodes[i].addrs[12] != 0
      requires Ref(View(), i, 13 + j, NODEAD) == 0
      modifies this`blocks, this`logged, this`owner
      ensures Consistent() && Keeps(old(View()), View()) && AllLogged(sb, old(blocks), blocks, old(logged), logged)
      ensures addr == 0 ==> NoneFree(sb, View()) && View() == old(View()) && logged == old(logged)
      ensures OnlyFills(old(View()), View(), i, 13 + j)
      ensures addr != 0 ==>
                  Ref(View(), i, 13 + j, NODEAD) == addr
                      && logged == old(logged) + {BitmapBlock(sb, addr), addr, inodes[i].addrs[12]}
    {
      ghost var v := View();
      assert AtSlot(i, 13 + j) && AtSlot(i, 12);
      addr := Balloc();
      if addr == 0 { return; }
      TakenInv(sb, v, addr);
      TakenKeeps(sb, v, addr);
      ghost var t := View();
      LinkEntryInv(sb, t, i, j, addr);
      LinkEntryKeeps(sb, t, i, j, addr);
      LinkEntryRef(sb, t, i, j, addr, i, 13 + j);
      KeepsTransitive(v, t, LinkEntry(t, i, j, addr));
      forall k: nat, x: nat {:trigger AtSlot(k, x)} | AtSlot(k, x)
        ensures (k, x) != (i, 13 + j) ==> Ref(LinkEntry(t, i, j, addr), k, x, NODEAD) == Ref(v, k, x, NODEAD)
      {
        LinkEntryRef(sb, t, i, j, addr, k, x);
      }
      var ind := inodes[i].addrs[12];
      blocks := blocks[ind := WithWord(blocks[ind], j, addr)];
      owner := owner[addr := (i, 13 + j)];
      logged := logged + {ind};
    }

    /** bmap's last part: entry j of the indirect block, filled if it was empty. */
    method MapEntry(i: nat, j: nat) returns (addr: nat)
      requires Consistent() && i < |inodes| && j < NINDIRECT && inodes[i].addrs[12] != 0
      modifies this`blocks, this`logged, this`owner
      ensures Consistent() && Keeps(old(View()), View()) && AllLogged(sb, old(blocks), blocks, old(logged), logged)
      ensures OnlyFills(old(View()), View(), i, 13 + j)
      ensures addr != 0 ==> Ref(View(), i, 13 + j, NODEAD) == addr
      ensures addr != 0 ==>
                var ind := inodes[i].addrs[12]; 0 < ind < |blocks| && addr == Word(blocks[ind], j)
      ensures addr == 0 ==> NoneFree(sb, View())
      ensures Ref(old(View()), i, 13 + j, NODEAD) != 0 ==>
                View() == old(View()) && logged == old(logged) && addr == Ref(View(), i, 13 + j, NODEAD)
      ensures LoggedFew(sb, old(logged), logged, Just(addr), inodes[i].addrs[12])
    {
      assert AtSlot(i, 12) && AtSlot(i, 13 + j);
      addr := Word(blocks[inodes[i].addrs[12]], j);
      if addr == 0 {
        addr := AllocEntry(i, j);
      }
    }

    /** bmap: the address of block bn of inode i, allocated if there is none; 0 only when the disk is
        full.  No file changes, whatever is allocated. */
    method Bmap(i: nat, bn: nat) returns (addr: nat)
      requires Consistent() && i < |inodes| && bn < MAXFILE
      modifies this`blocks, this`logged, this`inodes, this`owner
      ensures Consistent() && Keeps(old(View()), View()) && AllLogged(sb, old(blocks), blocks, old(logged), logged)
      ensures OnlyFills(old(View()), View(), i, SlotOf(bn))
      ensures addr != 0 ==> Ref(View(), i, SlotOf(bn), NODEAD) == addr
      ensures addr != 0 && bn < 12 ==> addr == inodes[i].addrs[bn]
      ensures addr != 0 && bn >= 12 ==>
                var ind := inodes[i].addrs[12]; 0 < ind < |blocks| && addr == Word(blocks[ind], bn - 12)
      ensures addr == 0 ==> NoneFree(sb, View())
      ensures Ref(old(View()), i, SlotOf(bn), NODEAD) != 0 ==>
                  View() == old(View()) && logged == old(logged) && addr == Ref(View(), i, SlotOf(bn), NODEAD)
      ensures |inodes| == |old(inodes)| && |inodes[i].addrs| == 13
      ensures LoggedFew(sb, old(logged), logged, Just(addr), inodes[i].addrs[12])
    {
      ghost var v := View();
      assert AtSlot(i, SlotOf(bn)) && AtSlot(i, 12);
      if bn < NDIRECT {
        addr := inodes[i].addrs[bn];
        if addr == 0 {
          addr := AllocSlot(i, bn);
        }
        return;
      }
      var j := bn - NDIRECT;
      if inodes[i].addrs[12] == 0 {
        addr := AllocSlot(i, 12);
        if addr == 0 { return; }
        assert AtSlot(i, 12);
      }
      ghost var u, mid := View(), logged;
      assert Keeps(v, u) && OnlyFills(v, u, i, 12) && AllLogged(sb, v.blocks, u.blocks, old(logged), mid);
      hide Keeps, OnlyFills, AllLogged, NoneFree, Ref;
      addr := MapEntry(i, j);
      KeepsTransitive(v, u, View());
      AllLoggedTransitive(sb, old(blocks), u.blocks, blocks, old(logged), mid, logged);
      FillsTransitive(v, u, View(), i, SlotOf(bn), 12);
    }

    /** One turn of writei's loop, up to the store: bmap finds or allocates the block. */
    method WriteMap(ghost v: Vol, i: nat, off: nat, data: seq<Byte>, tot: nat, ghost l: set<nat>,
                    ghost stored: set<nat>) returns (addr: nat)
      requires Writing(sb, v, View(), i, off, data, tot, l, logged, stored) && |dinodes| == |inodes|
      requires tot < |data| && off + |data| <= MAXFILE * BSIZE
      modifies this`blocks, this`logged, this`inodes, this`owner
      ensures |dinodes| == |inodes| && AllLogged(sb, old(blocks), blocks, old(logged), logged)
      ensures addr == 0 ==> NoneFree(sb, View()) && Writing(sb, v, View(), i, off, data, tot, l, logged, stored)
      ensures addr != 0 ==> Mapped(sb, v, View(), i, off, data, tot, l, logged, stored, addr)
    {
      ghost var u, was := View(), logged;
      addr := Bmap(i, (off + tot) / BSIZE);
      if addr == 0 {
        WritingStays(sb, v, u, View(), i, off, data, tot, l, was, logged, stored);
      } else {
        WritingMapped(sb, v, u, View(), i, off, data, tot, l, was, logged, stored, addr);
      }
    }

    /** One turn of writei's loop: the next block of the data is stored, or nothing when the disk is
        full. */
    method WriteTurn(ghost v: Vol, i: nat, off: nat, data: seq<Byte>, tot: nat, ghost l: set<nat>,
                     ghost stored: set<nat>) returns (m: nat, ghost stored': set<nat>)
      requires Writing(sb, v, View(), i, off, data, tot, l, logged, stored) && |dinodes| == |inodes|
      requires tot < |data| && off + |data| <= MAXFILE * BSIZE
      modifies this`blocks, this`logged, this`inodes, this`owner
      ensures |dinodes| == |inodes| && (m == 0 ==> NoneFree(sb, View()))
      ensures AllLogged(sb, old(blocks), blocks, old(logged), logged)
      ensures tot + m <= |data| && Writing(sb, v, View(), i, off, data, tot + m, l, logged, stored')
    {
      hide Writing, Inv;
      var addr := WriteMap(v, i, off, data, tot, l, stored);
      if addr == 0 { return 0, stored; }
      ghost var w := View();
      m := if |data| - tot < BSIZE - (off + tot) % BSIZE then |data| - tot else BSIZE - (off + tot) % BSIZE;
      WritingGoes(sb, v, w, i, off, data, tot, l, logged, stored, m, addr);
      stored' := stored + {addr};
      blocks := blocks[addr := Patched(blocks[addr], (off + tot) % BSIZE, data[tot..tot + m])];
      logged := logged + {addr};
      assert View() == Stored(w, i, off + tot, data[tot..tot + m]);
    }

    /** writei's loop. */
    method WriteLoop(i: nat, off: nat, data: seq<Byte>) returns (tot: nat, ghost stored: set<nat>)
      requires Valid() && i < |inodes| && off <= inodes[i].size && off + |data| <= MAXFILE * BSIZE
      modifies this`blocks, this`logged, this`inodes, this`owner
      ensures |dinodes| == |inodes| && (tot < |data| ==> NoneFree(sb, View()))
      ensures AllLogged(sb, old(blocks), blocks, old(logged), logged)
      ensures Writing(sb, old(View()), View(), i, off, data, tot, old(logged), logged, stored)
    {
      ghost var v, l := View(), logged;
      tot, stored := 0, {};
      WroteNothing(sb, v, i, off);
      while tot < |data|
        invariant |dinodes| == |inodes| && Writing(sb, v, View(), i, off, data, tot, l, logged, stored)
        invariant AllLogged(sb, v.blocks, blocks, l, logged)
      {
        ghost var was, mid := blocks, logged;
        var m;
        m, stored := WriteTurn(v, i, off, data, tot, l, stored);
        AllLoggedTransitive(sb, v.blocks, was, blocks, l, mid, logged);
        if m == 0 { return; }
        tot := tot + m;
      }
    }

    /** writei from kernel memory: -1, changing nothing, exactly when off is past the end or the file
        would grow too big; otherwise a prefix of the data is written at off, the whole of it unless
        the disk is full, and no other file changes. */
    method Writei(i: nat, off: nat, data: seq<Byte>) returns (tot: int)
      requires Valid() && i < |inodes| && off < UINT && |data| < UINT
      modifies this`blocks, this`logged, this`inodes, this`owner, this`dinodes
      ensures Valid() && |inodes| == |old(inodes)|
      ensures tot == -1 <==> off > old(inodes)[i].size || off + |data| > MAXFILE * BSIZE
      ensures tot == -1 ==> View() == old(View()) && dinodes == old(dinodes) && logged == old(logged)
      ensures tot != -1 ==> 0 <= tot && Written(sb, old(View()), View(), i, off, data, tot, old(logged), logged)
      ensures AllLogged(sb, old(blocks), blocks, old(logged), logged)
      ensures tot != -1 ==>
                var was := Content(old(View()), i);
                && 0 <= tot <= |data| && off <= |was|
                && Content(View(), i) == was[..off] + data[..tot] + if off + tot < |was| then was[off + tot..] else []
      ensures forall j :: 0 <= j < |inodes| && (j != i || tot == -1) ==> Content(View(), j) == Content(old(View()), j)
      ensures tot != -1 ==> sb.inodestart + i / IPB in logged && |dinodes| == |old(dinodes)|
      ensures tot != -1 ==> (tot < |data| ==> NoneFree(sb, View())) && dinodes == old(dinodes)[i := inodes[i]]
    {
      if off > inodes[i].size || (off + |data|) % UINT < off { return -1; }
      if (off + |data|) % UINT > MAXFILE * BSIZE { return -1; }
      ghost var v := View();
      ghost var stored;
      tot, stored := WriteLoop(i, off, data);
      AfterLog(sb);
      WritingDone(sb, v, View(), i, off, data, tot, old(logged), logged, stored, sb.inodestart + i / IPB);
      if off + tot > inodes[i].size {
        inodes := inodes[i := Inode(off + tot, inodes[i].addrs)];
      }
      dinodes := dinodes[i := inodes[i]];
      logged := logged + {sb.inodestart + i / IPB};
    }

    /** One turn of readi's loop: the piece of the wanted bytes that lies in one block. */
    method ReadTurn(i: nat, at: nat, left: nat) returns (piece: seq<Byte>)
      requires Valid() && i < |inodes| && 0 < left && at + left <= inodes[i].size
      modifies this`blocks, this`logged, this`inodes, this`owner
      ensures View() == old(View()) && logged == old(logged)
      ensures 0 < |piece| <= left && piece == Content(View(), i)[at..at + |piece|]
    {
      MappedByte(sb, View(), i, at);
      var addr := Bmap(i, at / BSIZE);
      var m := if left < BSIZE - at % BSIZE then left else BSIZE - at % BSIZE;
      SliceOfBlock(sb, View(), i, at, m);
      piece := blocks[addr].bytes[at % BSIZE..at % BSIZE + m];
    }

    /** readi to kernel memory: exactly the requested slice of the file, cut at its end; nothing is
        allocated and nothing changes. */
    method Readi(i: nat, off: nat, n: nat) returns (out: seq<Byte>)
      requires Valid() && i < |inodes| && off < UINT && n < UINT
      modifies this`blocks, this`logged, this`inodes, this`owner
      ensures View() == old(View()) && logged == old(logged)
      ensures out == if off > inodes[i].size || off + n >= UINT then []
                     else Content(View(), i)[off..if off + n > inodes[i].size then inodes[i].size else off + n]
    {
      out := [];
      if off > inodes[i].size || (off + n) % UINT < off { return; }
      var want := if off + n > inodes[i].size then inodes[i].size - off else n;
      ghost var whole := Content(View(), i);
      while |out| < want
        invariant |out| <= want && View() == old(View()) && logged == old(logged) && out == whole[off..off + |out|]
      {
        var piece := ReadTurn(i, off + |out|, want - |out|);
        out := out + piece;
      }
    }

    /** itrunc: the file becomes empty, exactly its blocks become free and no other file changes. */
    method Itrunc(i: nat)
      requires Valid() && i < |inodes|
      modifies this`blocks, this`logged, this`inodes, this`owner, this`dinodes
      ensures Valid() && OthersKeep(old(View()), View(), i) && Content(View(), i) == []
      ensures FreedExactly(sb, old(View()), View(), i) && dinodes == old(dinodes)[i := inodes[i]]
    {
      ghost var v := View();
      FreeDirect(v, i);
      if inodes[i].addrs[NDIRECT] != 0 {
        FreeEntries(v, i);
        FreeSlot(v, i, NDIRECT, Dead(i, NINDIRECT));
        DeadForgotten(sb, View(), i);
      }
      Truncated(sb, v, View(), i);
      inodes := inodes[i := Inode(0, inodes[i].addrs)];
      dinodes := dinodes[i := inodes[i]];
      logged := logged + {sb.inodestart + i / IPB};
    }

    /** itrunc's loop over the direct slots. */
    method FreeDirect(ghost v: Vol, i: nat)
      requires Consistent() && Shrunk(sb, v, View(), i) && i < |inodes|
      modifies this`blocks, this`logged, this`inodes, this`owner
      ensures Consistent() && Shrunk(sb, v, View(), i)
      ensures forall k :: 0 <= k < NDIRECT ==> inodes[i].addrs[k] == 0
    {
      var s := 0;
      while s < NDIRECT
        invariant s <= NDIRECT && Consistent() && Shrunk(sb, v, View(), i)
        invariant forall k :: 0 <= k < s ==> inodes[i].addrs[k] == 0
      {
        if inodes[i].addrs[s] != 0 {
          FreeSlot(v, i, s, NODEAD);
        }
        s := s + 1;
      }
    }

    /** itrunc frees the block in one slot of the inode. */
    method FreeSlot(ghost v: Vol, i: nat, s: nat, ghost dead: Dead)
      requires Inv(sb, View(), {}, dead) && Shrunk(sb, v, View(), i) && i < |inodes| && s < 13
      requires inodes[i].addrs[s] != 0 && (s == 12 ==> dead == Dead(i, NINDIRECT))
      modifies this`blocks, this`logged, this`inodes, this`owner
      ensures Inv(sb, View(), {}, dead) && Shrunk(sb, v, View(), i)
      ensures inodes == old(inodes)[i := Inode(old(inodes)[i].size, old(inodes)[i].addrs[s := 0])]
    {
      ghost var u := View();
      DropSlotInv(sb, u, i, s, dead);
      ShrunkSlot(sb, v, u, i, s, dead);
      Bfree(inodes[i].addrs[s]);
      owner := owner - {inodes[i].addrs[s]};
      inodes := inodes[i := Inode(inodes[i].size, inodes[i].addrs[s := 0])];
      assert View() == DropSlot(sb, u, i, s);
    }

    /** itrunc's loop over the indirect block. */
    method FreeEntries(ghost v: Vol, i: nat)
      requires Consistent() && Shrunk(sb, v, View(), i) && i < |inodes| && inodes[i].addrs[12] != 0
      modifies this`blocks, this`logged, this`owner
      ensures Inv(sb, View(), {}, Dead(i, NINDIRECT)) && Shrunk(sb, v, View(), i)
    {
      DeadStart(sb, View(), i);
      var j := 0;
      while j < NINDIRECT
        invariant j <= NINDIRECT && Inv(sb, View(), {}, Dead(i, j)) && Shrunk(sb, v, View(), i)
      {
        assert AtSlot(i, 12);
        var addr := Word(blocks[inodes[i].addrs[12]], j);
        ghost var u := View();
        assert addr == Ref(u, i, 13 + j, Dead(i, j)) && Shaped(sb, u);
        hide Inv, Shrunk, Shaped, Used, Ref, Word;
        if addr != 0 {
          DropEntryInv(sb, u, i, j);
          ShrunkEntry(sb, v, u, i, j);
          Bfree(addr);
          owner := owner - {addr};
        } else {
          DeadEntry(sb, View(), i, j);
        }
        j := j + 1;
      }
    }

    /** One operation of filewrite: n1 bytes of the data from position i on, at file offset off + i.
        With a free map of one block it logs at most 7 distinct blocks, within MAXOPBLOCKS. */
    method WriteChunk(ghost v: Vol, ip: nat, off: nat, data: seq<Byte>, i: nat, n1: nat) returns (r: int)
      requires Valid() && ip < |inodes| == |v.inodes| && off + i < UINT && logged == {}
      requires i + n1 <= |data| < UINT && n1 <= CHUNK && Appended(v, View(), ip, off, data[..i])
      modifies this`blocks, this`logged, this`inodes, this`owner, this`dinodes
      ensures Valid() && |inodes| == |v.inodes| && -1 <= r <= n1
      ensures Appended(v, View(), ip, off, data[..i + (if r < 0 then 0 else r)])
      ensures r >= 0 ==> off + i + r <= MAXFILE * BSIZE
      ensures r != n1 ==> NoneFree(sb, View()) || off > v.inodes[ip].size || off + |data| > MAXFILE * BSIZE
      ensures sb.size <= BPB ==> |logged| <= 7 <= MAXOPBLOCKS
      ensures AllLogged(sb, old(blocks), blocks, old(logged), logged)
      ensures InodesLogged(sb, old(dinodes), dinodes, logged)
    {
      hide Content, PatchSeq, Inv;
      ghost var u := View();
      r := Writei(ip, off + i, data[i..i + n1]);
      FewBlocks(sb, logged, off + i, n1);
      if r == -1 {
        AppendRefused(v, u, ip, off, data, i, n1);
      } else {
        AppendedMore(sb, v, u, View(), ip, off, data, i, n1, r, logged);
      }
    }

    /** filewrite on an inode: the data goes out in operations of at most CHUNK bytes.  A prefix of it
        is written at f.off, which moves past that prefix; ret is n when the prefix is everything. */
    method Filewrite(f: File, n: int, data: seq<Byte>) returns (ret: int)
      requires Valid() && f.ip < |inodes| && f.off < UINT && |data| == (if n < 0 then 0 else n) < 0x8000_0000
      modifies this`blocks, this`logged, this`inodes, this`owner, this`dinodes, f`off
      ensures Valid() && |inodes| == |old(inodes)| && old(f.off) <= f.off <= old(f.off) + |data|
      ensures Appended(old(View()), View(), f.ip, old(f.off), data[..f.off - old(f.off)])
      ensures var was, done := Content(old(View()), f.ip), f.off - old(f.off);
              && (done == 0 ==> Content(View(), f.ip) == was)
              && (done > 0 ==>
                    && old(f.off) <= |was|
                    && Content(View(), f.ip) ==
                       was[..old(f.off)] + data[..done] + if f.off < |was| then was[f.off..] else [])
      ensures ret == if n >= 0 && f.off == old(f.off) + |data| then n else -1
      ensures ret == -1 && n >= 0 ==>
                  NoneFree(sb, View()) || old(f.off) > old(inodes)[f.ip].size || old(f.off) + |data| > MAXFILE * BSIZE
    {
      hide Content, PatchSeq, Inv;
      ghost var v, off := View(), f.off;
      var i := 0;
      while i < n
        invariant 0 <= i <= |data| && Valid() && |inodes| == |v.inodes| && f.off == off + i
        invariant Appended(v, View(), f.ip, off, data[..i]) && f.off < UINT
      {
        var n1 := if n - i > CHUNK then CHUNK else n - i;
        logged := {};
        var r := WriteChunk(v, f.ip, f.off - i, data, i, n1);
        if r > 0 {
          f.off := f.off + r;
        }
        if r != n1 { break; }
        i := i + r;
      }
      ret := if i == n then n else -1;
      AppendedIs(v, View(), f.ip, off, data[..f.off - off]);
      assert f.off > off ==> |data[..f.off - off]| == f.off - off && data[..f.off - off] != [];
    }
  }
}
