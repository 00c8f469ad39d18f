/** The file-system volume of fs.c as a value: inodes, blocks and who references each block.

    Blocks hold the contents that bread returns, which WriteAheadLog shows to be the latest logged
    ones.  A slot (i, s) is one pointer of inode i: s below 12 a direct block, 12 the indirect block,
    13 + j entry j of the indirect block. */
module Volume {
  import opened BlockBytes

  const NDIRECT: nat := 12
  const MAXFILE: nat := NDIRECT + NINDIRECT
  const NSLOT: nat := 13 + NINDIRECT

  /** The superblock; blocks below nmeta (boot, super, log, inodes, free map) are metadata. */
  datatype Super = Super(size: nat, ninodes: nat, inodestart: nat, bmapstart: nat, nmeta: nat) {
    ghost predicate Valid() {
      && 1 <= nmeta <= size < 0x1_0000_0000
      && (forall b :: 0 <= b < size ==> bmapstart + b / BPB < nmeta)
      && inodestart + ninodes / 16 < bmapstart
    }
  }

  datatype Inode = Inode(size: nat, addrs: seq<nat>)

  datatype Vol = Vol(inodes: seq<Inode>, blocks: seq<Block>, owner: map<nat, (nat, nat)>)

  /** Entries of an inode's indirect block that itrunc has already freed. */
  datatype Dead = Dead(inode: int, upto: nat)

  const NODEAD: Dead := Dead(-1, 0)

  // Markers: facts about all slots and all blocks are used only where these appear

  ghost predicate AtSlot(i: nat, s: nat) {
    true
  }

  ghost predicate AtBlock(b: nat) {
    true
  }

  function Ref(v: Vol, i: nat, s: nat, dead: Dead): nat {
    if !(i < |v.inodes| && |v.inodes[i].addrs| == 13 && s < NSLOT) then 0
    else if s < 13 then v.inodes[i].addrs[s]
    else if i == dead.inode && s < 13 + dead.upto then 0
    else
      var ind := v.inodes[i].addrs[12];
      if 0 < ind < |v.blocks| then Word(v.blocks[ind], s - 13) else 0
  }

  predicate Used(sb: Super, v: Vol, b: nat) {
    sb.bmapstart + b / BPB < |v.blocks| && BitAt(v.blocks[sb.bmapstart + b / BPB], b % BPB)
  }

  ghost predicate Shaped(sb: Super, v: Vol) {
    && sb.Valid() && |v.blocks| == sb.size && |v.inodes| == sb.ninodes
    && (forall b: nat {:trigger AtBlock(b)} :: AtBlock(b) && b < |v.blocks| ==> v.blocks[b].Full())
    && (forall i :: 0 <= i < |v.inodes| ==> |v.inodes[i].addrs| == 13)
  }

  /** Every reference is in range and is the owner's. */
  ghost predicate RefsOwned(sb: Super, v: Vol, dead: Dead) {
    forall i: nat, s: nat {:trigger AtSlot(i, s)} :: AtSlot(i, s) && Ref(v, i, s, dead) != 0 ==>
      var b := Ref(v, i, s, dead);
      sb.nmeta <= b < sb.size && b in v.owner && v.owner[b] == (i, s)
  }

  ghost predicate OwnersRef(v: Vol, dead: Dead) {
    forall b: nat {:trigger AtBlock(b)} :: AtBlock(b) && b in v.owner ==>
      b != 0 && Ref(v, v.owner[b].0, v.owner[b].1, dead) == b
  }

  /** A bit is set exactly for metadata, owned blocks and blocks in limbo: taken by balloc and not
      linked yet. */
  ghost predicate BitsAgree(sb: Super, v: Vol, limbo: set<nat>) {
    forall b: nat {:trigger AtBlock(b)} :: AtBlock(b) && b < sb.size ==>
      (Used(sb, v, b) <==> b < sb.nmeta || b in v.owner || b in limbo)
  }

  ghost predicate Inv(sb: Super, v: Vol, limbo: set<nat>, dead: Dead) {
    && Shaped(sb, v) && RefsOwned(sb, v, dead) && OwnersRef(v, dead) && BitsAgree(sb, v, limbo)
    && (forall b: nat {:trigger AtBlock(b)} :: AtBlock(b) && b in limbo ==> sb.nmeta <= b < sb.size && b !in v.owner)
  }

  /** No block is referenced twice. */
  lemma NoSharing(sb: Super, v: Vol, i: nat, s: nat, j: nat, t: nat)
    requires Inv(sb, v, {}, NODEAD) && Ref(v, i, s, NODEAD) == Ref(v, j, t, NODEAD) != 0
    ensures (i, s) == (j, t)
  {
    assert AtSlot(i, s) && AtSlot(j, t);
  }

  /** A block's bit is set exactly when it is metadata or some slot references it. */
  lemma BitMeansReferenced(sb: Super, v: Vol, b: nat)
    requires Inv(sb, v, {}, NODEAD) && b < sb.size
    ensures Used(sb, v, b) <==> b < sb.nmeta || exists i: nat, s: nat :: Ref(v, i, s, NODEAD) == b
  {
    assert AtBlock(b);
    if exists i: nat, s: nat :: Ref(v, i, s, NODEAD) == b {
      if b >= sb.nmeta {
        var i: nat, s: nat :| Ref(v, i, s, NODEAD) == b;
        assert AtSlot(i, s);
      }
    }
  }

  // Block updates

  function WithBlock(v: Vol, x: nat, nb: Block): Vol
    requires x < |v.blocks|
  {
    Vol(v.inodes, v.blocks[x := nb], v.owner)
  }

  /** The indirect block of a live inode is nobody's data. */
  lemma NotIndirect(sb: Super, v: Vol, limbo: set<nat>, dead: Dead, i: nat, x: nat)
    requires Inv(sb, v, limbo, dead) && i < |v.inodes| && AtBlock(x) && x != 0
    requires x in v.owner ==> v.owner[x].1 != 12
    ensures v.inodes[i].addrs[12] != x
  {
    assert AtSlot(i, 12);
  }

  lemma RefFrame(sb: Super, v: Vol, limbo: set<nat>, dead: Dead, x: nat, nb: Block, i: nat, s: nat)
    requires Inv(sb, v, limbo, dead) && AtBlock(x) && x < |v.blocks| && (x in v.owner ==> v.owner[x].1 != 12)
    ensures Ref(WithBlock(v, x, nb), i, s, dead) == Ref(v, i, s, dead)
  {
    if i < |v.inodes| && x != 0 {
      NotIndirect(sb, v, limbo, dead, i, x);
    }
  }

  function BitmapBlock(sb: Super, b: nat): nat {
    sb.bmapstart + b / BPB
  }

  /** balloc takes free block b: its bit is set and its contents zeroed. */
  function Taken(sb: Super, v: Vol, b: nat): Vol
    requires b < |v.blocks| && BitmapBlock(sb, b) < |v.blocks|
    requires v.blocks[BitmapBlock(sb, b)].Full() && !BitAt(v.blocks[BitmapBlock(sb, b)], b % BPB)
  {
    Vol(v.inodes, v.blocks[BitmapBlock(sb, b) := WithBit(v.blocks[BitmapBlock(sb, b)], b % BPB)][b := ZeroBlock()],
        v.owner)
  }

  lemma BitmapInMeta(sb: Super, v: Vol, b: nat)
    requires Shaped(sb, v) && b < sb.size
    ensures BitmapBlock(sb, b) < sb.nmeta && v.blocks[BitmapBlock(sb, b)].Full()
  {
    assert AtBlock(BitmapBlock(sb, b));
  }

  /** The free map sees only the one bit change. */
  lemma BitFrame(sb: Super, v: Vol, b: nat, nb: Block, x: nat)
    requires Shaped(sb, v) && b < sb.size && x < sb.size
    requires forall j :: BitAt(nb, j) <==> (BitAt(v.blocks[BitmapBlock(sb, b)], j) || j == b % BPB)
    ensures BitmapBlock(sb, b) < |v.blocks|
    ensures Used(sb, WithBlock(v, BitmapBlock(sb, b), nb), x) <==> x == b || Used(sb, v, x)
  {
    BitmapInMeta(sb, v, b);
    BitmapInMeta(sb, v, x);
    assert b == BPB * (b / BPB) + b % BPB && x == BPB * (x / BPB) + x % BPB;
  }

  lemma TakenUsed(sb: Super, v: Vol, b: nat, x: nat)
    requires Shaped(sb, v) && sb.nmeta <= b < sb.size && x < sb.size && !Used(sb, v, b)
    ensures BitmapBlock(sb, b) < |v.blocks| && v.blocks[BitmapBlock(sb, b)].Full()
    ensures Used(sb, Taken(sb, v, b), x) <==> x == b || Used(sb, v, x)
  {
    BitmapInMeta(sb, v, b);
    BitmapInMeta(sb, v, x);
    var m := BitmapBlock(sb, b);
    var nb := WithBit(v.blocks[m], b % BPB);
    forall j: nat
      ensures BitAt(nb, j) <==> (BitAt(v.blocks[m], j) || j == b % BPB)
    {
      WithBitAt(v.blocks[m], b % BPB, j);
    }
    BitFrame(sb, v, b, nb, x);
  }

  lemma TakenRef(sb: Super, v: Vol, b: nat, i: nat, s: nat)
    requires Inv(sb, v, {}, NODEAD) && sb.nmeta <= b < sb.size && !Used(sb, v, b)
    ensures BitmapBlock(sb, b) < sb.nmeta && v.blocks[BitmapBlock(sb, b)].Full()
    ensures Ref(Taken(sb, v, b), i, s, NODEAD) == Ref(v, i, s, NODEAD)
  {
    BitmapInMeta(sb, v, b);
    var m := BitmapBlock(sb, b);
    assert AtBlock(b) && AtBlock(m) && AtSlot(i, 12);
  }

  lemma TakenInv(sb: Super, v: Vol, b: nat)
    requires Inv(sb, v, {}, NODEAD) && b < sb.size && !Used(sb, v, b)
    ensures sb.nmeta <= b && BitmapBlock(sb, b) < sb.nmeta && v.blocks[BitmapBlock(sb, b)].Full()
    ensures Inv(sb, Taken(sb, v, b), {b}, NODEAD) && Taken(sb, v, b).blocks[b] == ZeroBlock()
    ensures forall i: nat, s: nat {:trigger AtSlot(i, s)} :: AtSlot(i, s) ==>
                Ref(Taken(sb, v, b), i, s, NODEAD) == Ref(v, i, s, NODEAD)
  {
    assert AtBlock(b);
    BitmapInMeta(sb, v, b);
    var w := Taken(sb, v, b);
    forall i: nat, s: nat {:trigger AtSlot(i, s)} | AtSlot(i, s)
      ensures Ref(w, i, s, NODEAD) == Ref(v, i, s, NODEAD)
    {
      TakenRef(sb, v, b, i, s);
    }
    forall x: nat {:trigger AtBlock(x)} | AtBlock(x) && x in v.owner
      ensures Ref(w, v.owner[x].0, v.owner[x].1, NODEAD) == x
    {
      TakenRef(sb, v, b, v.owner[x].0, v.owner[x].1);
    }
    forall x: nat {:trigger AtBlock(x)} | AtBlock(x) && x < sb.size
      ensures Used(sb, w, x) <==> x < sb.nmeta || x in w.owner || x in {b}
    {
      TakenUsed(sb, v, b, x);
    }
  }

  /** Store address b in direct slot or indirect-pointer slot s of inode i. */
  function LinkSlot(v: Vol, i: nat, s: nat, b: nat): Vol
    requires i < |v.inodes| && s < |v.inodes[i].addrs|
  {
    Vol(v.inodes[i := Inode(v.inodes[i].size, v.inodes[i].addrs[s := b])], v.blocks, v.owner[b := (i, s)])
  }

  /** An indirect block with no entry in use. */
  ghost predicate NoEntries(b: Block) {
    forall j: nat :: j < NINDIRECT ==> Word(b, j) == 0
  }

  lemma LinkSlotRef(sb: Super, v: Vol, i: nat, s: nat, b: nat, j: nat, t: nat)
    requires Shaped(sb, v) && i < |v.inodes| && s < 13 && b < sb.size && v.inodes[i].addrs[s] == 0
    requires s == 12 ==> NoEntries(v.blocks[b])
    ensures Ref(LinkSlot(v, i, s, b), j, t, NODEAD) == if (j, t) == (i, s) then b else Ref(v, j, t, NODEAD)
  {
    if j == i && s == 12 && 13 <= t < NSLOT {
      assert Word(v.blocks[b], t - 13) == 0;
    }
  }

  /** Linking a fresh block makes the volume whole again.  For the indirect slot this needs the block
      to be zeroed. */
  lemma LinkSlotInv(sb: Super, v: Vol, i: nat, s: nat, b: nat)
    requires Inv(sb, v, {b}, NODEAD) && AtBlock(b) && i < |v.inodes| && s < 13 && v.inodes[i].addrs[s] == 0
    requires s == 12 ==> NoEntries(v.blocks[b])
    ensures Inv(sb, LinkSlot(v, i, s, b), {}, NODEAD)
  {
    var w := LinkSlot(v, i, s, b);
    forall j: nat, t: nat {:trigger AtSlot(j, t)} | AtSlot(j, t) && Ref(w, j, t, NODEAD) != 0
      ensures var x := Ref(w, j, t, NODEAD); sb.nmeta <= x < sb.size && x in w.owner && w.owner[x] == (j, t)
    {
      LinkSlotRef(sb, v, i, s, b, j, t);
    }
    forall x: nat {:trigger AtBlock(x)} | AtBlock(x) && x in w.owner
      ensures x != 0 && Ref(w, w.owner[x].0, w.owner[x].1, NODEAD) == x
    {
      LinkSlotRef(sb, v, i, s, b, w.owner[x].0, w.owner[x].1);
      assert AtSlot(i, s);
    }
  }

  /** A newly taken indirect block must read as all zeros: that is exactly what linking it needs. */
  lemma ZeroingIsEssential(sb: Super, v: Vol, i: nat, b: nat)
    requires Inv(sb, v, {b}, NODEAD) && AtBlock(b) && i < |v.inodes| && v.inodes[i].addrs[12] == 0
    ensures b < |v.blocks|
    ensures Inv(sb, LinkSlot(v, i, 12, b), {}, NODEAD) <==> NoEntries(v.blocks[b])
  {
    if NoEntries(v.blocks[b]) {
      LinkSlotInv(sb, v, i, 12, b);
    }
    var w := LinkSlot(v, i, 12, b);
    if Inv(sb, w, {}, NODEAD) {
      forall j: nat | j < NINDIRECT
        ensures Word(v.blocks[b], j) == 0
      {
        var c := Word(v.blocks[b], j);
        assert Ref(w, i, 13 + j, NODEAD) == c && Ref(v, i, 13 + j, NODEAD) == 0;
        if c != 0 {
          assert AtSlot(i, 13 + j) && AtBlock(c);
        }
      }
    }
  }

  /** Store address b in entry j of inode i's indirect block. */
  function LinkEntry(v: Vol, i: nat, j: nat, b: nat): Vol
    requires i < |v.inodes| && |v.inodes[i].addrs| == 13 && v.inodes[i].addrs[12] < |v.blocks|
    requires v.blocks[v.inodes[i].addrs[12]].Full() && j < NINDIRECT && b < 0x1_0000_0000
  {
    var ind := v.inodes[i].addrs[12];
    Vol(v.inodes, v.blocks[ind := WithWord(v.blocks[ind], j, b)], v.owner[b := (i, 13 + j)])
  }

  lemma LinkEntryRef(sb: Super, v: Vol, i: nat, j: nat, b: nat, k: nat, t: nat)
    requires Inv(sb, v, {b}, NODEAD) && AtBlock(b) && i < |v.inodes| && j < NINDIRECT && v.inodes[i].addrs[12] != 0
    ensures v.inodes[i].addrs[12] < sb.size && v.blocks[v.inodes[i].addrs[12]].Full() && b < sb.size
    ensures Ref(LinkEntry(v, i, j, b), k, t, NODEAD) == if (k, t) == (i, 13 + j) then b else Ref(v, k, t, NODEAD)
  {
    var ind := v.inodes[i].addrs[12];
    assert AtSlot(i, 12) && AtBlock(ind) && AtSlot(k, 12);
    if t >= 13 {
      WithWordAt(v.blocks[ind], j, b, t - 13);
    }
  }

  lemma UsedFrame(sb: Super, v: Vol, x: nat, nb: Block, y: nat)
    requires Shaped(sb, v) && sb.nmeta <= x < sb.size && y < sb.size
    ensures Used(sb, WithBlock(v, x, nb), y) <==> Used(sb, v, y)
  {
    BitmapInMeta(sb, v, y);
  }

  lemma LinkEntryInv(sb: Super, v: Vol, i: nat, j: nat, b: nat)
    requires Inv(sb, v, {b}, NODEAD) && AtBlock(b) && i < |v.inodes| && j < NINDIRECT && v.inodes[i].addrs[12] != 0
    requires Ref(v, i, 13 + j, NODEAD) == 0
    ensures v.inodes[i].addrs[12] < sb.size && v.blocks[v.inodes[i].addrs[12]].Full() && b < sb.size
    ensures Inv(sb, LinkEntry(v, i, j, b), {}, NODEAD)
  {
    var ind := v.inodes[i].addrs[12];
    assert AtSlot(i, 12) && AtBlock(ind);
    var w := LinkEntry(v, i, j, b);
    forall k: nat, t: nat {:trigger AtSlot(k, t)} | AtSlot(k, t) && Ref(w, k, t, NODEAD) != 0
      ensures var x := Ref(w, k, t, NODEAD); sb.nmeta <= x < sb.size && x in w.owner && w.owner[x] == (k, t)
    {
      LinkEntryRef(sb, v, i, j, b, k, t);
    }
    forall x: nat {:trigger AtBlock(x)} | AtBlock(x) && x in w.owner
      ensures x != 0 && Ref(w, w.owner[x].0, w.owner[x].1, NODEAD) == x
    {
      LinkEntryRef(sb, v, i, j, b, w.owner[x].0, w.owner[x].1);
    }
    forall x: nat {:trigger AtBlock(x)} | AtBlock(x) && x < sb.size
      ensures Used(sb, w, x) <==> x < sb.nmeta || x in w.owner
    {
      UsedFrame(sb, v, ind, WithWord(v.blocks[ind], j, b), x);
    }
  }

  /** Storing file data in a block the inode owns changes no reference and no bit. */
  lemma PutDataInv(sb: Super, v: Vol, x: nat, nb: Block)
    requires Inv(sb, v, {}, NODEAD) && AtBlock(x) && x in v.owner && v.owner[x].1 != 12 && nb.Full()
    ensures sb.nmeta <= x < sb.size && Inv(sb, WithBlock(v, x, nb), {}, NODEAD)
    ensures forall i: nat, s: nat {:trigger AtSlot(i, s)} :: AtSlot(i, s) ==>
                Ref(WithBlock(v, x, nb), i, s, NODEAD) == Ref(v, i, s, NODEAD)
  {
    assert AtSlot(v.owner[x].0, v.owner[x].1);
    var w := WithBlock(v, x, nb);
    forall i: nat, s: nat {:trigger AtSlot(i, s)} | AtSlot(i, s)
      ensures Ref(w, i, s, NODEAD) == Ref(v, i, s, NODEAD)
    {
      RefFrame(sb, v, {}, NODEAD, x, nb, i, s);
    }
    forall y: nat {:trigger AtBlock(y)} | AtBlock(y) && y in w.owner
      ensures Ref(w, w.owner[y].0, w.owner[y].1, NODEAD) == y
    {
      RefFrame(sb, v, {}, NODEAD, x, nb, w.owner[y].0, w.owner[y].1);
    }
    forall y: nat {:trigger AtBlock(y)} | AtBlock(y) && y < sb.size
      ensures Used(sb, w, y) <==> Used(sb, v, y)
    {
      UsedFrame(sb, v, x, nb, y);
    }
  }

  // Freeing

  /** bfree clears the bit of b. */
  function Cleared(sb: Super, v: Vol, b: nat): Vol
    requires BitmapBlock(sb, b) < |v.blocks| && v.blocks[BitmapBlock(sb, b)].Full()
    requires BitAt(v.blocks[BitmapBlock(sb, b)], b % BPB)
  {
    WithBlock(v, BitmapBlock(sb, b), WithoutBit(v.blocks[BitmapBlock(sb, b)], b % BPB))
  }

  lemma ClearedUsed(sb: Super, v: Vol, b: nat, x: nat)
    requires Shaped(sb, v) && b < sb.size && x < sb.size && Used(sb, v, b)
    ensures BitmapBlock(sb, b) < sb.nmeta && v.blocks[BitmapBlock(sb, b)].Full()
    ensures Used(sb, Cleared(sb, v, b), x) <==> x != b && Used(sb, v, x)
  {
    BitmapInMeta(sb, v, b);
    BitmapInMeta(sb, v, x);
    WithoutBitAt(v.blocks[BitmapBlock(sb, b)], b % BPB, x % BPB);
    assert b == BPB * (b / BPB) + b % BPB && x == BPB * (x / BPB) + x % BPB;
  }

  /** The free map is metadata: clearing a bit moves no reference. */
  lemma ClearedRef(sb: Super, v: Vol, dead: Dead, b: nat, i: nat, s: nat)
    requires Inv(sb, v, {}, dead) && b < sb.size && Used(sb, v, b)
    ensures BitmapBlock(sb, b) < sb.nmeta && v.blocks[BitmapBlock(sb, b)].Full()
    ensures Ref(Cleared(sb, v, b), i, s, dead) == Ref(v, i, s, dead)
  {
    BitmapInMeta(sb, v, b);
    assert AtSlot(i, 12);
  }

  /** bfree of the block in slot s of inode i, and the slot set to zero. */
  function DropSlot(sb: Super, v: Vol, i: nat, s: nat): Vol
    requires i < |v.inodes| && s < |v.inodes[i].addrs|
    requires var b := v.inodes[i].addrs[s];
             && BitmapBlock(sb, b) < |v.blocks| && v.blocks[BitmapBlock(sb, b)].Full()
             && BitAt(v.blocks[BitmapBlock(sb, b)], b % BPB)
  {
    Vol(v.inodes[i := Inode(v.inodes[i].size, v.inodes[i].addrs[s := 0])],
        Cleared(sb, v, v.inodes[i].addrs[s]).blocks,
        v.owner - {v.inodes[i].addrs[s]})
  }

  lemma DropSlotRef(sb: Super, v: Vol, i: nat, s: nat, dead: Dead, j: nat, t: nat)
    requires Inv(sb, v, {}, dead) && i < |v.inodes| && s < 13 && v.inodes[i].addrs[s] != 0
    requires s == 12 ==> dead == Dead(i, NINDIRECT)
    ensures var b := v.inodes[i].addrs[s];
            && b < sb.size && Used(sb, v, b) && BitmapBlock(sb, b) < sb.nmeta && v.blocks[BitmapBlock(sb, b)].Full()
            && Ref(DropSlot(sb, v, i, s), j, t, dead) == if (j, t) == (i, s) then 0 else Ref(v, j, t, dead)
  {
    var b := v.inodes[i].addrs[s];
    assert AtSlot(i, s) && AtBlock(b);
    ClearedRef(sb, v, dead, b, j, t);
  }

  /** Freeing a direct block, or the indirect block once all its entries are freed. */
  lemma DropSlotInv(sb: Super, v: Vol, i: nat, s: nat, dead: Dead)
    requires Inv(sb, v, {}, dead) && i < |v.inodes| && s < 13 && v.inodes[i].addrs[s] != 0
    requires s == 12 ==> dead == Dead(i, NINDIRECT)
    ensures var b := v.inodes[i].addrs[s];
            b < sb.size && Used(sb, v, b) && BitmapBlock(sb, b) < sb.nmeta && v.blocks[BitmapBlock(sb, b)].Full()
    ensures Inv(sb, DropSlot(sb, v, i, s), {}, dead)
  {
    var b := v.inodes[i].addrs[s];
    DropSlotRef(sb, v, i, s, dead, i, s);
    assert AtSlot(i, s) && AtBlock(b);
    var w := DropSlot(sb, v, i, s);
    forall j: nat, t: nat {:trigger AtSlot(j, t)} | AtSlot(j, t) && Ref(w, j, t, dead) != 0
      ensures var x := Ref(w, j, t, dead); sb.nmeta <= x < sb.size && x in w.owner && w.owner[x] == (j, t)
    {
      DropSlotRef(sb, v, i, s, dead, j, t);
    }
    forall x: nat {:trigger AtBlock(x)} | AtBlock(x) && x in w.owner
      ensures x != 0 && Ref(w, w.owner[x].0, w.owner[x].1, dead) == x
    {
      DropSlotRef(sb, v, i, s, dead, w.owner[x].0, w.owner[x].1);
    }
    forall x: nat {:trigger AtBlock(x)} | AtBlock(x) && x < sb.size
      ensures Used(sb, w, x) <==> x < sb.nmeta || x in w.owner
    {
      ClearedUsed(sb, v, b, x);
    }
  }

  /** With no indirect block there are no entries, dead or alive. */
  lemma DeadForgotten(sb: Super, v: Vol, i: nat)
    requires Inv(sb, v, {}, Dead(i, NINDIRECT)) && i < |v.inodes| && v.inodes[i].addrs[12] == 0
    ensures Inv(sb, v, {}, NODEAD)
  {
    forall j: nat, t: nat
      ensures Ref(v, j, t, NODEAD) == Ref(v, j, t, Dead(i, NINDIRECT))
    {
    }
  }

  /** bfree of entry j of the indirect block; the entry itself stays until the block goes. */
  function DropEntry(sb: Super, v: Vol, b: nat): Vol
    requires BitmapBlock(sb, b) < |v.blocks| && v.blocks[BitmapBlock(sb, b)].Full()
    requires BitAt(v.blocks[BitmapBlock(sb, b)], b % BPB)
  {
    Vol(v.inodes, Cleared(sb, v, b).blocks, v.owner - {b})
  }

  lemma DeadEntry(sb: Super, v: Vol, i: nat, j: nat)
    requires Inv(sb, v, {}, Dead(i, j)) && j < NINDIRECT && Ref(v, i, 13 + j, Dead(i, j)) == 0
    ensures Inv(sb, v, {}, Dead(i, j + 1))
  {
    forall k: nat, t: nat
      ensures Ref(v, k, t, Dead(i, j + 1)) == Ref(v, k, t, Dead(i, j))
    {
    }
  }

  lemma DropEntryInv(sb: Super, v: Vol, i: nat, j: nat)
    requires Inv(sb, v, {}, Dead(i, j)) && i < |v.inodes| && j < NINDIRECT && Ref(v, i, 13 + j, Dead(i, j)) != 0
    ensures var b := Ref(v, i, 13 + j, Dead(i, j));
            && b < sb.size && Used(sb, v, b) && BitmapBlock(sb, b) < sb.nmeta && v.blocks[BitmapBlock(sb, b)].Full()
            && Inv(sb, DropEntry(sb, v, b), {}, Dead(i, j + 1))
  {
    var d, e, b := Dead(i, j), Dead(i, j + 1), Ref(v, i, 13 + j, Dead(i, j));
    assert AtSlot(i, 13 + j) && AtBlock(b);
    BitmapInMeta(sb, v, b);
    var w := DropEntry(sb, v, b);
    forall k: nat, t: nat
      ensures Ref(w, k, t, e) == if (k, t) == (i, 13 + j) then 0 else Ref(v, k, t, d)
    {
      ClearedRef(sb, v, d, b, k, t);
    }
    forall x: nat {:trigger AtBlock(x)} | AtBlock(x) && x < sb.size
      ensures Used(sb, w, x) <==> x < sb.nmeta || x in w.owner
    {
      ClearedUsed(sb, v, b, x);
    }
    forall x: nat {:trigger AtBlock(x)} | AtBlock(x) && x in w.owner
      ensures x != 0 && Ref(w, w.owner[x].0, w.owner[x].1, e) == x
    {
      assert AtSlot(w.owner[x].0, w.owner[x].1);
    }
  }

  /** Where the free map keeps block b: bit b % 8192 % 8 of byte b % 8192 / 8 of map block b / 8192. */
  lemma UsedIs(sb: Super, v: Vol, b: nat)
    requires Shaped(sb, v) && b < sb.size
    ensures sb.bmapstart + b / 8192 < |v.blocks| && |v.blocks[sb.bmapstart + b / 8192].bytes| == 1024
    ensures Used(sb, v, b) <==> v.blocks[sb.bmapstart + b / 8192].bytes[b % 8192 / 8] / MASKS[b % 8192 % 8] % 2 == 1
  {
    BitmapInMeta(sb, v, b);
    hide BitAt;
    MapBit(v.blocks[sb.bmapstart + b / 8192], b % 8192);
  }

  // File contents

  /** The slot of the n-th block of a file. */
  function SlotOf(n: nat): nat {
    if n < NDIRECT then n else n + 1
  }

  function ByteAt(v: Vol, i: nat, p: nat): Byte {
    var a := Ref(v, i, SlotOf(p / BSIZE), NODEAD);
    if a < |v.blocks| && p % BSIZE < |v.blocks[a].bytes| then v.blocks[a].bytes[p % BSIZE] else 0
  }

  /** The first len bytes of file i all have a block. */
  ghost predicate Covered(v: Vol, i: nat, len: nat) {
    && len <= MAXFILE * BSIZE
    && forall n: nat {:trigger AtSlot(i, SlotOf(n))} :: AtSlot(i, SlotOf(n)) && n * BSIZE < len ==>
        Ref(v, i, SlotOf(n), NODEAD) != 0
  }

  ghost predicate AllCovered(v: Vol) {
    forall i: nat {:trigger v.inodes[i]} :: i < |v.inodes| ==> Covered(v, i, v.inodes[i].size)
  }

  function Content(v: Vol, i: nat): seq<Byte>
    requires i < |v.inodes|
  {
    seq(v.inodes[i].size, p requires 0 <= p => ByteAt(v, i, p))
  }

  /** Every reference of v survives in w, and so does what it leads to; the indirect blocks may gain
      entries. */
  ghost predicate Keeps(v: Vol, w: Vol) {
    && |w.inodes| == |v.inodes| && |w.blocks| == |v.blocks|
    && (forall i :: 0 <= i < |v.inodes| ==> w.inodes[i].size == v.inodes[i].size)
    && (forall i: nat, s: nat {:trigger AtSlot(i, s)} :: AtSlot(i, s) && Ref(v, i, s, NODEAD) != 0 ==>
        KeepsSlot(v, w, i, s))
  }

  predicate KeepsSlot(v: Vol, w: Vol, i: nat, s: nat) {
    var a := Ref(v, i, s, NODEAD);
    Ref(w, i, s, NODEAD) == a && (s != 12 && a < |v.blocks| && a < |w.blocks| ==> w.blocks[a] == v.blocks[a])
  }

  lemma KeepsTransitive(u: Vol, v: Vol, w: Vol)
    requires Keeps(u, v) && Keeps(v, w)
    ensures Keeps(u, w)
  {
    forall i: nat, s: nat {:trigger AtSlot(i, s)} | AtSlot(i, s) && Ref(u, i, s, NODEAD) != 0
      ensures KeepsSlot(u, w, i, s)
    {
      assert KeepsSlot(u, v, i, s) && KeepsSlot(v, w, i, s);
    }
  }

  lemma KeepsByte(v: Vol, w: Vol, i: nat, p: nat, len: nat)
    requires Keeps(v, w) && Covered(v, i, len) && p < len
    ensures ByteAt(w, i, p) == ByteAt(v, i, p)
  {
    assert AtSlot(i, SlotOf(p / BSIZE));
    assert KeepsSlot(v, w, i, SlotOf(p / BSIZE));
  }

  lemma KeepsCovered(v: Vol, w: Vol, i: nat, len: nat)
    requires Keeps(v, w) && Covered(v, i, len)
    ensures Covered(w, i, len)
  {
    forall n: nat {:trigger AtSlot(i, SlotOf(n))} | AtSlot(i, SlotOf(n)) && n * BSIZE < len
      ensures Ref(w, i, SlotOf(n), NODEAD) != 0
    {
      assert KeepsSlot(v, w, i, SlotOf(n));
    }
  }

  lemma TakenKeeps(sb: Super, v: Vol, b: nat)
    requires Inv(sb, v, {}, NODEAD) && sb.nmeta <= b < sb.size && !Used(sb, v, b)
    ensures BitmapBlock(sb, b) < sb.nmeta && v.blocks[BitmapBlock(sb, b)].Full()
    ensures Keeps(v, Taken(sb, v, b))
  {
    TakenInv(sb, v, b);
    assert AtBlock(b);
    forall i: nat, s: nat {:trigger AtSlot(i, s)} | AtSlot(i, s) && Ref(v, i, s, NODEAD) != 0
      ensures KeepsSlot(v, Taken(sb, v, b), i, s)
    {
    }
  }

  lemma LinkSlotKeeps(sb: Super, v: Vol, i: nat, s: nat, b: nat)
    requires Inv(sb, v, {b}, NODEAD) && AtBlock(b) && i < |v.inodes| && s < 13 && v.inodes[i].addrs[s] == 0
    requires s == 12 ==> NoEntries(v.blocks[b])
    ensures Keeps(v, LinkSlot(v, i, s, b))
  {
    forall j: nat, t: nat {:trigger AtSlot(j, t)} | AtSlot(j, t) && Ref(v, j, t, NODEAD) != 0
      ensures KeepsSlot(v, LinkSlot(v, i, s, b), j, t)
    {
      LinkSlotRef(sb, v, i, s, b, j, t);
    }
  }

  lemma LinkEntryKeeps(sb: Super, v: Vol, i: nat, j: nat, b: nat)
    requires Inv(sb, v, {b}, NODEAD) && AtBlock(b) && i < |v.inodes| && j < NINDIRECT && v.inodes[i].addrs[12] != 0
    requires Ref(v, i, 13 + j, NODEAD) == 0
    ensures v.inodes[i].addrs[12] < sb.size && v.blocks[v.inodes[i].addrs[12]].Full() && b < sb.size
    ensures Keeps(v, LinkEntry(v, i, j, b))
  {
    assert AtSlot(i, 12) && AtBlock(v.inodes[i].addrs[12]);
    forall k: nat, t: nat {:trigger AtSlot(k, t)} | AtSlot(k, t) && Ref(v, k, t, NODEAD) != 0
      ensures KeepsSlot(v, LinkEntry(v, i, j, b), k, t)
    {
      LinkEntryRef(sb, v, i, j, b, k, t);
    }
  }

  /** Storing a data block changes the bytes of that block of that file and nothing else. */
  lemma PutDataByte(sb: Super, v: Vol, i: nat, n: nat, nb: Block, j: nat, p: nat)
    requires Inv(sb, v, {}, NODEAD) && Ref(v, i, SlotOf(n), NODEAD) != 0 && nb.Full()
    requires Ref(v, j, SlotOf(p / BSIZE), NODEAD) != 0
    ensures var x := Ref(v, i, SlotOf(n), NODEAD);
            && x < |v.blocks|
            && ByteAt(WithBlock(v, x, nb), j, p) ==
               if j == i && p / BSIZE == n then nb.bytes[p % BSIZE] else ByteAt(v, j, p)
  {
    var x := Ref(v, i, SlotOf(n), NODEAD);
    assert AtSlot(i, SlotOf(n)) && AtSlot(j, SlotOf(p / BSIZE)) && AtBlock(x);
    PutDataInv(sb, v, x, nb);
  }

  // Writing part of a block

  /** Marks a byte position of a file. */
  ghost predicate AtByte(j: nat, p: nat) {
    true
  }

  function Patched(b: Block, o: nat, chunk: seq<Byte>): (r: Block)
    requires b.Full() && o + |chunk| <= BSIZE
    ensures r.Full()
  {
    Block(b.bytes[..o] + chunk + b.bytes[o + |chunk|..])
  }

  function MaxLen(a: nat, b: nat): nat {
    if a < b then b else a
  }

  /** Bytes of v, except that file i holds `data` from off on; compared up to `len` bytes of file i
      and up to the size of every other file. */
  ghost predicate BytesAre(w: Vol, v: Vol, i: nat, off: nat, data: seq<Byte>, len: nat) {
    forall j: nat, p: nat {:trigger AtByte(j, p)} ::
        AtByte(j, p) && j < |v.inodes| && p < (if j == i then len else v.inodes[j].size) ==>
      ByteAt(w, j, p) == if j == i && off <= p < off + |data| then data[p - off] else ByteAt(v, j, p)
  }

  /** Everything is mapped: `len` bytes of file i, all of every other file. */
  ghost predicate CoveredTo(v: Vol, i: nat, len: nat) {
    forall j: nat {:trigger v.inodes[j]} :: j < |v.inodes| ==> Covered(v, j, if j == i then len else v.inodes[j].size)
  }

  /** Where the store of one chunk goes. */
  ghost predicate ChunkFits(sb: Super, v: Vol, i: nat, off: nat, m: nat, len: nat) {
    && Inv(sb, v, {}, NODEAD) && i < |v.inodes| && CoveredTo(v, i, len)
    && Ref(v, i, SlotOf(off / BSIZE), NODEAD) != 0
    && off <= len && off + m <= MAXFILE * BSIZE && off % BSIZE + m <= BSIZE
  }

  lemma ChunkTarget(sb: Super, v: Vol, i: nat, off: nat, m: nat, len: nat)
    requires ChunkFits(sb, v, i, off, m, len)
    ensures var x := Ref(v, i, SlotOf(off / BSIZE), NODEAD);
            && AtBlock(x) && sb.nmeta <= x < |v.blocks| && v.blocks[x].Full() && x in v.owner && v.owner[x].1 != 12
  {
    assert AtSlot(i, SlotOf(off / BSIZE)) && AtBlock(Ref(v, i, SlotOf(off / BSIZE), NODEAD));
  }

  function Stored(v: Vol, i: nat, off: nat, chunk: seq<Byte>): Vol
    requires Ref(v, i, SlotOf(off / BSIZE), NODEAD) < |v.blocks|
    requires v.blocks[Ref(v, i, SlotOf(off / BSIZE), NODEAD)].Full() && off % BSIZE + |chunk| <= BSIZE
  {
    WithBlock(v, Ref(v, i, SlotOf(off / BSIZE), NODEAD),
        Patched(v.blocks[Ref(v, i, SlotOf(off / BSIZE), NODEAD)], off % BSIZE, chunk))
  }

  lemma StoredByte(sb: Super, v: Vol, i: nat, off: nat, chunk: seq<Byte>, len: nat, j: nat, p: nat)
    requires ChunkFits(sb, v, i, off, |chunk|, len) && j < |v.inodes|
    requires p < (if j == i then MaxLen(len, off + |chunk|) else v.inodes[j].size)
    ensures var x := Ref(v, i, SlotOf(off / BSIZE), NODEAD); x < |v.blocks| && v.blocks[x].Full()
    ensures ByteAt(Stored(v, i, off, chunk), j, p) == if j == i && off <= p < off + |chunk| then chunk[p - off]
                else ByteAt(v, j, p)
  {
    ChunkTarget(sb, v, i, off, |chunk|, len);
    var x := Ref(v, i, SlotOf(off / BSIZE), NODEAD);
    assert AtSlot(j, SlotOf(p / BSIZE));
    assert v.inodes[j] == v.inodes[j];
    if j == i && p >= len {
      assert p / BSIZE == off / BSIZE;
    }
    PutDataByte(sb, v, i, off / BSIZE, Patched(v.blocks[x], off % BSIZE, chunk), j, p);
  }

  lemma StoredInv(sb: Super, v: Vol, i: nat, off: nat, chunk: seq<Byte>, len: nat)
    requires ChunkFits(sb, v, i, off, |chunk|, len)
    ensures var x := Ref(v, i, SlotOf(off / BSIZE), NODEAD); x < |v.blocks| && v.blocks[x].Full()
    ensures Inv(sb, Stored(v, i, off, chunk), {}, NODEAD)
    ensures BytesAre(Stored(v, i, off, chunk), v, i, off, chunk, MaxLen(len, off + |chunk|))
    ensures CoveredTo(Stored(v, i, off, chunk), i, MaxLen(len, off + |chunk|))
  {
    ChunkTarget(sb, v, i, off, |chunk|, len);
    var x := Ref(v, i, SlotOf(off / BSIZE), NODEAD);
    var nb := Patched(v.blocks[x], off % BSIZE, chunk);
    var w := Stored(v, i, off, chunk);
    PutDataInv(sb, v, x, nb);
    forall j: nat, p: nat {:trigger AtByte(j, p)} | AtByte(j, p) && j < |v.inodes|
        && p < (if j == i then MaxLen(len, off + |chunk|) else v.inodes[j].size)
      ensures ByteAt(w, j, p) == if j == i && off <= p < off + |chunk| then chunk[p - off] else ByteAt(v, j, p)
    {
      StoredByte(sb, v, i, off, chunk, len, j, p);
    }
    forall j: nat {:trigger w.inodes[j]} | j < |w.inodes|
      ensures Covered(w, j, if j == i then MaxLen(len, off + |chunk|) else w.inodes[j].size)
    {
      StoredCovered(sb, v, i, off, chunk, len, j);
    }
  }

  lemma StoredCovered(sb: Super, v: Vol, i: nat, off: nat, chunk: seq<Byte>, len: nat, j: nat)
    requires ChunkFits(sb, v, i, off, |chunk|, len) && j < |v.inodes|
    ensures var x := Ref(v, i, SlotOf(off / BSIZE), NODEAD); x < |v.blocks| && v.blocks[x].Full()
    ensures Covered(Stored(v, i, off, chunk), j, if j == i then MaxLen(len, off + |chunk|) else v.inodes[j].size)
  {
    ChunkTarget(sb, v, i, off, |chunk|, len);
    var x := Ref(v, i, SlotOf(off / BSIZE), NODEAD);
    var nb := Patched(v.blocks[x], off % BSIZE, chunk);
    PutDataInv(sb, v, x, nb);
    var w := Stored(v, i, off, chunk);
    var to := if j == i then MaxLen(len, off + |chunk|) else v.inodes[j].size;
    forall n: nat {:trigger AtSlot(j, SlotOf(n))} | AtSlot(j, SlotOf(n)) && n * BSIZE < to
      ensures Ref(w, j, SlotOf(n), NODEAD) != 0
    {
      if j == i && n * BSIZE >= len {
        assert n == off / BSIZE;
      } else {
        assert v.inodes[j] == v.inodes[j];
      }
    }
  }

  /** Allocation changes no mapped byte. */
  lemma KeepsBytes(v: Vol, w: Vol, i: nat, off: nat, len: nat)
    requires Keeps(v, w) && CoveredTo(v, i, len)
    ensures BytesAre(w, v, i, off, [], len) && CoveredTo(w, i, len)
  {
    forall j: nat, p: nat {:trigger AtByte(j, p)} | AtByte(j, p) && j < |v.inodes|
        && p < (if j == i then len else v.inodes[j].size)
      ensures ByteAt(w, j, p) == ByteAt(v, j, p)
    {
      assert v.inodes[j] == v.inodes[j];
      KeepsByte(v, w, j, p, if j == i then len else v.inodes[j].size);
    }
    forall j: nat {:trigger w.inodes[j]} | j < |w.inodes|
      ensures Covered(w, j, if j == i then len else w.inodes[j].size)
    {
      assert v.inodes[j] == v.inodes[j];
      KeepsCovered(v, w, j, if j == i then len else v.inodes[j].size);
    }
  }

  ghost predicate SameSizes(v: Vol, w: Vol) {
    |w.inodes| == |v.inodes| && forall i :: 0 <= i < |v.inodes| ==> w.inodes[i].size == v.inodes[i].size
  }

  /** Two stores in a row, the second starting where the first ended. */
  lemma BytesAppend(v: Vol, u: Vol, w: Vol, i: nat, off: nat, a: seq<Byte>, b: seq<Byte>, len: nat)
    requires BytesAre(u, v, i, off, a, len) && SameSizes(v, u) && off + |a| <= len
    requires BytesAre(w, u, i, off + |a|, b, MaxLen(len, off + |a| + |b|))
    ensures BytesAre(w, v, i, off, a + b, MaxLen(len, off + |a| + |b|))
  {
    forall j: nat, p: nat {:trigger AtByte(j, p)} | AtByte(j, p) && j < |v.inodes|
        && p < (if j == i then MaxLen(len, off + |a| + |b|) else v.inodes[j].size)
      ensures ByteAt(w, j, p) == if j == i && off <= p < off + |a + b| then (a + b)[p - off] else ByteAt(v, j, p)
    {
    }
  }

  function Resized(v: Vol, i: nat, len: nat): Vol
    requires i < |v.inodes|
  {
    Vol(v.inodes[i := Inode(len, v.inodes[i].addrs)], v.blocks, v.owner)
  }

  lemma ResizedRef(v: Vol, i: nat, len: nat, j: nat, s: nat, dead: Dead)
    requires i < |v.inodes|
    ensures Ref(Resized(v, i, len), j, s, dead) == Ref(v, j, s, dead)
  {
  }

  lemma ResizedInv(sb: Super, v: Vol, i: nat, len: nat)
    requires Inv(sb, v, {}, NODEAD) && i < |v.inodes|
    ensures Inv(sb, Resized(v, i, len), {}, NODEAD)
    ensures CoveredTo(v, i, len) ==> AllCovered(Resized(v, i, len))
  {
    var w := Resized(v, i, len);
    forall j: nat, s: nat {:trigger AtSlot(j, s)} | AtSlot(j, s)
      ensures Ref(w, j, s, NODEAD) == Ref(v, j, s, NODEAD)
    {
    }
    forall b: nat {:trigger AtBlock(b)} | AtBlock(b) && b in v.owner
      ensures Ref(w, v.owner[b].0, v.owner[b].1, NODEAD) == Ref(v, v.owner[b].0, v.owner[b].1, NODEAD)
    {
    }
    if CoveredTo(v, i, len) {
      forall j: nat {:trigger w.inodes[j]} | j < |w.inodes|
        ensures Covered(w, j, w.inodes[j].size)
      {
        assert v.inodes[j] == v.inodes[j];
      }
    }
  }

  /** `old` with `data` written over it at off, growing it if need be. */
  function PatchSeq(old': seq<Byte>, off: nat, data: seq<Byte>): seq<Byte>
    requires off <= |old'|
  {
    old'[..off] + data + (if off + |data| < |old'| then old'[off + |data|..] else [])
  }

  lemma ContentUntouched(v: Vol, w: Vol, i: nat, off: nat, data: seq<Byte>, len: nat, j: nat)
    requires i < |v.inodes| && j < |v.inodes| && j != i && SameSizes(v, w)
    requires BytesAre(w, v, i, off, data, len)
    ensures Content(Resized(w, i, len), j) == Content(v, j)
  {
    var r := Resized(w, i, len);
    assert r.inodes[j] == w.inodes[j];
    assert |Content(r, j)| == |Content(v, j)|;
    forall p: nat | p < v.inodes[j].size
      ensures Content(r, j)[p] == Content(v, j)[p]
    {
      ResizedRef(w, i, len, j, SlotOf(p / BSIZE), NODEAD);
      assert AtByte(j, p);
    }
  }

  /** What the byte-level facts say about the file written. */
  lemma ContentPatched(v: Vol, w: Vol, i: nat, off: nat, data: seq<Byte>)
    requires i < |v.inodes| && off <= v.inodes[i].size && SameSizes(v, w)
    requires BytesAre(w, v, i, off, data, MaxLen(v.inodes[i].size, off + |data|))
    ensures Content(Resized(w, i, MaxLen(v.inodes[i].size, off + |data|)), i) == PatchSeq(Content(v, i), off, data)
  {
    var len := MaxLen(v.inodes[i].size, off + |data|);
    var r := Resized(w, i, len);
    assert |Content(r, i)| == |PatchSeq(Content(v, i), off, data)|;
    forall p: nat | p < len
      ensures Content(r, i)[p] == PatchSeq(Content(v, i), off, data)[p]
    {
      ResizedRef(w, i, len, i, SlotOf(p / BSIZE), NODEAD);
      assert AtByte(i, p);
    }
  }

  lemma PatchTwice(c: seq<Byte>, off: nat, a: seq<Byte>, b: seq<Byte>)
    requires off <= |c|
    ensures PatchSeq(PatchSeq(c, off, a), off + |a|, b) == PatchSeq(c, off, a + b)
  {
  }

  /** Halfway through writei: w is v with `done` written to file i at off, the size not yet updated. */
  ghost predicate Wrote(sb: Super, v: Vol, w: Vol, i: nat, off: nat, done: seq<Byte>) {
    && Inv(sb, w, {}, NODEAD) && i < |v.inodes| && SameSizes(v, w)
    && off <= v.inodes[i].size && off + |done| <= MAXFILE * BSIZE
    && BytesAre(w, v, i, off, done, MaxLen(v.inodes[i].size, off + |done|))
    && CoveredTo(w, i, MaxLen(v.inodes[i].size, off + |done|))
  }

  lemma WroteNothing(sb: Super, v: Vol, i: nat, off: nat)
    requires Inv(sb, v, {}, NODEAD) && AllCovered(v) && i < |v.inodes| && off <= v.inodes[i].size
    ensures Wrote(sb, v, v, i, off, [])
  {
    assert Covered(v, i, v.inodes[i].size);
  }

  lemma WroteAllocated(sb: Super, v: Vol, u: Vol, w: Vol, i: nat, off: nat, done: seq<Byte>)
    requires Wrote(sb, v, u, i, off, done) && Keeps(u, w) && Inv(sb, w, {}, NODEAD)
    ensures Wrote(sb, v, w, i, off, done)
  {
    var len := MaxLen(v.inodes[i].size, off + |done|);
    KeepsBytes(u, w, i, off + |done|, len);
    BytesAppend(v, u, w, i, off, done, [], len);
    assert done + [] == done;
  }

  lemma WroteStored(sb: Super, v: Vol, u: Vol, i: nat, off: nat, done: seq<Byte>, chunk: seq<Byte>)
    requires Wrote(sb, v, u, i, off, done) && Ref(u, i, SlotOf((off + |done|) / BSIZE), NODEAD) != 0
    requires (off + |done|) % BSIZE + |chunk| <= BSIZE && off + |done| + |chunk| <= MAXFILE * BSIZE
    ensures var x := Ref(u, i, SlotOf((off + |done|) / BSIZE), NODEAD); x < |u.blocks| && u.blocks[x].Full()
    ensures Wrote(sb, v, Stored(u, i, off + |done|, chunk), i, off, done + chunk)
  {
    var len := MaxLen(v.inodes[i].size, off + |done|);
    StoredInv(sb, u, i, off + |done|, chunk, len);
    BytesAppend(v, u, Stored(u, i, off + |done|, chunk), i, off, done, chunk, len);
  }

  /** Every file but i has the same contents. */
  ghost predicate OthersKeep(v: Vol, w: Vol, i: nat) {
    |w.inodes| == |v.inodes| && forall j: nat :: j < |v.inodes| && j != i ==> Content(w, j) == Content(v, j)
  }

  /** Setting the size ends the write: file i is patched, every other file is untouched. */
  lemma WroteAll(sb: Super, v: Vol, w: Vol, i: nat, off: nat, done: seq<Byte>)
    requires Wrote(sb, v, w, i, off, done)
    ensures var r := Resized(w, i, MaxLen(v.inodes[i].size, off + |done|));
            && Inv(sb, r, {}, NODEAD) && AllCovered(r)
            && Content(r, i) == PatchSeq(Content(v, i), off, done)
            && OthersKeep(v, r, i)
  {
    var len := MaxLen(v.inodes[i].size, off + |done|);
    ResizedInv(sb, w, i, len);
    ContentPatched(v, w, i, off, done);
    forall j: nat | j < |v.inodes| && j != i
      ensures Content(Resized(w, i, len), j) == Content(v, j)
    {
      ContentUntouched(v, w, i, off, done, len, j);
    }
  }

  // Truncation

  /** w is v after some blocks of inode i were freed; every other file is as it was. */
  ghost predicate Shrunk(sb: Super, v: Vol, w: Vol, i: nat) {
    && |w.inodes| == |v.inodes| && |w.blocks| == |v.blocks|
    && (forall j :: 0 <= j < |v.inodes| && j != i ==> w.inodes[j] == v.inodes[j])
    && (forall x :: sb.nmeta <= x < |v.blocks| ==> w.blocks[x] == v.blocks[x])
    && (forall x: nat {:trigger AtBlock(x)} :: AtBlock(x) && x in w.owner ==> x in v.owner && w.owner[x] == v.owner[x])
    && (forall x: nat {:trigger AtBlock(x)} :: AtBlock(x) && x in v.owner && v.owner[x].0 != i ==> x in w.owner)
  }

  lemma ShrunkFile(sb: Super, v: Vol, w: Vol, i: nat, j: nat)
    requires Inv(sb, v, {}, NODEAD) && AllCovered(v) && Shrunk(sb, v, w, i) && j < |v.inodes| && j != i
    ensures Content(w, j) == Content(v, j) && Covered(w, j, w.inodes[j].size)
  {
    assert AtSlot(j, 12);
    forall t: nat
      ensures Ref(w, j, t, NODEAD) == Ref(v, j, t, NODEAD)
    {
    }
    assert Covered(v, j, v.inodes[j].size);
    forall p: nat | p < v.inodes[j].size
      ensures ByteAt(w, j, p) == ByteAt(v, j, p)
    {
      assert AtSlot(j, SlotOf(p / BSIZE));
    }
  }

  /** With every slot of inode i empty, exactly i's blocks have become free. */
  lemma ShrunkToNothing(sb: Super, v: Vol, w: Vol, i: nat, x: nat)
    requires Inv(sb, v, {}, NODEAD) && Inv(sb, w, {}, NODEAD) && Shrunk(sb, v, w, i) && x < sb.size
    requires forall s: nat {:trigger AtSlot(i, s)} :: AtSlot(i, s) ==> Ref(w, i, s, NODEAD) == 0
    ensures Used(sb, w, x) <==> Used(sb, v, x) && !(x in v.owner && v.owner[x].0 == i)
  {
    assert AtBlock(x);
    if x in w.owner {
      assert AtSlot(w.owner[x].0, w.owner[x].1);
    }
    if x in v.owner {
      assert AtSlot(v.owner[x].0, v.owner[x].1);
    }
  }

  lemma DeadStart(sb: Super, v: Vol, i: nat)
    requires Inv(sb, v, {}, NODEAD)
    ensures Inv(sb, v, {}, Dead(i, 0))
  {
    forall j: nat, t: nat
      ensures Ref(v, j, t, NODEAD) == Ref(v, j, t, Dead(i, 0))
    {
    }
  }

  lemma ShrunkSlot(sb: Super, v: Vol, u: Vol, i: nat, s: nat, dead: Dead)
    requires Shrunk(sb, v, u, i) && Inv(sb, u, {}, dead) && i < |u.inodes| && s < 13 && u.inodes[i].addrs[s] != 0
    requires s == 12 ==> dead == Dead(i, NINDIRECT)
    ensures var b := u.inodes[i].addrs[s];
            && b < sb.size && Used(sb, u, b) && BitmapBlock(sb, b) < sb.nmeta && u.blocks[BitmapBlock(sb, b)].Full()
            && Shrunk(sb, v, DropSlot(sb, u, i, s), i)
  {
    assert AtSlot(i, s) && AtBlock(u.inodes[i].addrs[s]);
    BitmapInMeta(sb, u, u.inodes[i].addrs[s]);
  }

  /** itrunc has emptied every slot of inode i. */
  lemma Truncated(sb: Super, v: Vol, w: Vol, i: nat)
    requires Inv(sb, v, {}, NODEAD) && AllCovered(v) && Inv(sb, w, {}, NODEAD) && Shrunk(sb, v, w, i) && i < |v.inodes|
    requires forall k :: 0 <= k < 13 ==> w.inodes[i].addrs[k] == 0
    ensures var r := Resized(w, i, 0);
            && Inv(sb, r, {}, NODEAD) && AllCovered(r) && OthersKeep(v, r, i) && Content(r, i) == []
            && FreedExactly(sb, v, r, i)
  {
    var r := Resized(w, i, 0);
    ResizedInv(sb, w, i, 0);
    forall j: nat | j < |v.inodes| && j != i
      ensures Content(r, j) == Content(v, j) && Covered(r, j, r.inodes[j].size)
    {
      ShrunkFile(sb, v, r, i, j);
    }
    forall x: nat | x < sb.size
      ensures Used(sb, r, x) <==> Used(sb, v, x) && !(x != 0 && exists s: nat :: Ref(v, i, s, NODEAD) == x)
    {
      ShrunkToNothing(sb, v, r, i, x);
      assert AtBlock(x);
      if s: nat :| Ref(v, i, s, NODEAD) == x && x != 0 {
        assert AtSlot(i, s);
      }
      if x in v.owner {
        assert AtSlot(v.owner[x].0, v.owner[x].1);
      }
    }
  }

  /** The blocks that became free are the ones a slot of inode i referenced. */
  ghost predicate FreedExactly(sb: Super, v: Vol, w: Vol, i: nat) {
    forall x: nat :: x < sb.size ==>
        (Used(sb, w, x) <==> Used(sb, v, x) && !(x != 0 && exists s: nat :: Ref(v, i, s, NODEAD) == x))
  }

  lemma ShrunkEntry(sb: Super, v: Vol, u: Vol, i: nat, j: nat)
    requires Shrunk(sb, v, u, i) && Inv(sb, u, {}, Dead(i, j)) && Ref(u, i, 13 + j, Dead(i, j)) != 0
    ensures var b := Ref(u, i, 13 + j, Dead(i, j));
            && b < sb.size && Used(sb, u, b) && BitmapBlock(sb, b) < sb.nmeta && u.blocks[BitmapBlock(sb, b)].Full()
            && Shrunk(sb, v, DropEntry(sb, u, b), i)
  {
    var b := Ref(u, i, 13 + j, Dead(i, j));
    assert AtSlot(i, 13 + j) && AtBlock(b);
    BitmapInMeta(sb, u, b);
  }

  // Reading

  lemma MappedByte(sb: Super, v: Vol, i: nat, p: nat)
    requires Inv(sb, v, {}, NODEAD) && AllCovered(v) && i < |v.inodes| && p < v.inodes[i].size
    ensures p / BSIZE < MAXFILE
    ensures var a := Ref(v, i, SlotOf(p / BSIZE), NODEAD); a != 0 && a < |v.blocks| && v.blocks[a].Full()
  {
    assert Covered(v, i, v.inodes[i].size);
    assert AtSlot(i, SlotOf(p / BSIZE));
    assert AtBlock(Ref(v, i, SlotOf(p / BSIZE), NODEAD));
  }

  lemma SliceOfBlock(sb: Super, v: Vol, i: nat, p: nat, m: nat)
    requires Inv(sb, v, {}, NODEAD) && AllCovered(v) && i < |v.inodes| && 0 < m && p + m <= v.inodes[i].size
    requires p % BSIZE + m <= BSIZE
    ensures var a := Ref(v, i, SlotOf(p / BSIZE), NODEAD);
            && a < |v.blocks| && v.blocks[a].Full()
            && Content(v, i)[p..p + m] == v.blocks[a].bytes[p % BSIZE..p % BSIZE + m]
  {
    MappedByte(sb, v, i, p);
    forall k: nat {:trigger AtByte(i, p + k)} | k < m
      ensures ByteAt(v, i, p + k) == v.blocks[Ref(v, i, SlotOf(p / BSIZE), NODEAD)].bytes[p % BSIZE + k]
    {
      assert (p + k) / BSIZE == p / BSIZE && (p + k) % BSIZE == p % BSIZE + k;
    }
  }

  /** Where a byte of a file is: in one of the twelve direct blocks in order, and after them in the
      blocks the indirect block lists in order. */
  lemma ContentInBlocks(sb: Super, v: Vol, i: nat, p: nat)
    requires Inv(sb, v, {}, NODEAD) && AllCovered(v) && i < |v.inodes| && p < v.inodes[i].size
    ensures |v.inodes[i].addrs| == 13 && p < 268 * BSIZE
    ensures p < 12 * BSIZE ==>
              var a := v.inodes[i].addrs[p / BSIZE];
              0 < a < |v.blocks| && v.blocks[a].Full() && Content(v, i)[p] == v.blocks[a].bytes[p % BSIZE]
    ensures p >= 12 * BSIZE ==>
              var ind := v.inodes[i].addrs[12];
              && 0 < ind < |v.blocks|
              && var a := Word(v.blocks[ind], p / BSIZE - 12);
                 0 < a < |v.blocks| && v.blocks[a].Full() && Content(v, i)[p] == v.blocks[a].bytes[p % BSIZE]
  {
    MappedByte(sb, v, i, p);
    assert AtSlot(i, SlotOf(p / BSIZE)) && AtSlot(i, 12);
    assert p / BSIZE * BSIZE <= p;
    assert p < 12 * BSIZE <==> p / BSIZE < 12;
  }
}
