/** bio.c: the buffer cache.  Sleep locks are modelled by `held`: a call that finds its buffer locked
    has taken its reference and resumes in a later step, once the lock is free.  The doubly
    linked LRU ring is the sequence `lru`, `head.next` first. */
module BufferCache {
  import opened RedoLog
  import opened Wrappers

  const NBUF: nat := 30

  datatype Buf = Buf(valid: bool, dev: nat, blockno: nat, refcnt: nat, held: bool, data: Data) {
    predicate Caches(d: int, b: int) {
      dev == d && blockno == b
    }
  }

  /** Marks a buffer index; facts about all buffers are used only at marked indices. */
  ghost predicate At(i: int) {
    true
  }

  /** A block of a real device sits in at most one buffer.  Fresh buffers all claim device 0,
      block 0, so device 0 is exempt. */
  ghost predicate OneBufferPerBlock(bufs: seq<Buf>) {
    forall i, j {:trigger At(i), At(j)} :: At(i) && At(j) && 0 <= i < |bufs| && 0 <= j < |bufs| ==>
      (bufs[i].dev != 0 && bufs[j].Caches(bufs[i].dev, bufs[i].blockno) ==> i == j)
  }

  ghost predicate Cached(bufs: seq<Buf>, dev: int, blockno: int) {
    exists i :: At(i) && 0 <= i < |bufs| && bufs[i].Caches(dev, blockno)
  }

  ghost predicate SomeFree(bufs: seq<Buf>) {
    exists i :: At(i) && 0 <= i < |bufs| && bufs[i].refcnt == 0
  }

  ghost predicate Unheld(bufs: seq<Buf>, dev: int, blockno: int) {
    forall i {:trigger At(i)} :: At(i) && 0 <= i < |bufs| && bufs[i].Caches(dev, blockno) ==> !bufs[i].held
  }

  ghost predicate BufsInRange(bufs: seq<Buf>, size: nat) {
    forall i {:trigger At(i)} :: At(i) && 0 <= i < |bufs| ==>
      (bufs[i].dev != 0 ==> bufs[i].blockno < size) && (bufs[i].held ==> bufs[i].refcnt > 0)
  }

  ghost predicate LruOrder(lru: seq<nat>) {
    && |lru| == NBUF
    && (forall i :: 0 <= i < NBUF ==> i in lru)
    && (forall k :: 0 <= k < NBUF ==> lru[k] < NBUF)
  }

  class Bcache {
    var disk: Disk
    var bufs: seq<Buf>
    var lru: seq<nat>
    /** The disk image after each block write since the cache was created. */
    ghost var images: seq<Disk>

    ghost predicate Valid()
      reads this
    {
      |bufs| == NBUF && LruOrder(lru) && OneBufferPerBlock(bufs) && BufsInRange(bufs, |disk|)
    }

    constructor (d: Disk)
      ensures Valid() && disk == d && images == []
      ensures forall i :: 0 <= i < NBUF ==> bufs[i].dev == 0 && bufs[i].refcnt == 0 && !bufs[i].held
    {
      var order: seq<nat> := [];
      var n := 0;
      while n < NBUF
        invariant 0 <= n <= NBUF && |order| == n
        invariant forall k :: 0 <= k < n ==> order[k] == n - 1 - k
      {
        order := [n] + order;
        n := n + 1;
      }
      disk := d;
      bufs := seq(NBUF, _ => Buf(false, 0, 0, 0, false, []));
      lru := order;
      images := [];
      new;
      forall i | 0 <= i < NBUF
        ensures i in lru
      {
        assert lru[NBUF - 1 - i] == i;
      }
    }

    /** bget: a hit takes a reference; a miss recycles the least recently used buffer nobody
        references; None is the panic, raised exactly when the block is absent and every buffer is
        referenced.  `got` says whether the caller has the lock too; otherwise it waits for it. */
    method Bget(dev: nat, blockno: nat) returns (r: Option<nat>, got: bool)
      requires Valid() && dev != 0 && blockno < |disk|
      modifies this`bufs
      ensures Valid()
      ensures got <==> r.Some? && Unheld(old(bufs), dev, blockno)
      ensures r.None? <==> !Cached(old(bufs), dev, blockno) && !SomeFree(old(bufs))
      ensures r.None? ==> bufs == old(bufs)
      ensures r.Some? ==> r.value < NBUF && At(r.value)
      ensures r.Some? && Cached(old(bufs), dev, blockno) ==>
                && old(bufs)[r.value].Caches(dev, blockno)
                && bufs == old(bufs)[r.value := old(bufs)[r.value].(refcnt := old(bufs)[r.value].refcnt + 1,
                                                                          held := true)]
      ensures r.Some? && !Cached(old(bufs), dev, blockno) ==>
                && old(bufs)[r.value].refcnt == 0
                && (exists p :: 0 <= p < NBUF && lru[p] == r.value &&
                                forall q :: p < q < NBUF ==> old(bufs)[lru[q]].refcnt > 0)
                && bufs == old(bufs)[r.value := Buf(false, dev, blockno, 1, true, old(bufs)[r.value].data)]
    {
      var k := 0;
      while k < NBUF
        invariant 0 <= k <= NBUF
        invariant forall j :: 0 <= j < k ==> !bufs[lru[j]].Caches(dev, blockno)
      {
        var i := lru[k];
        if bufs[i].Caches(dev, blockno) {
          assert At(i);
          got := !bufs[i].held;
          assert got <==> Unheld(bufs, dev, blockno);
          bufs := bufs[i := bufs[i].(refcnt := bufs[i].refcnt + 1, held := true)];
          return Some(i), got;
        }
        k := k + 1;
      }
      forall i | 0 <= i < NBUF
        ensures !bufs[i].Caches(dev, blockno)
      {
        assert i in lru;
      }
      while k > 0
        invariant 0 <= k <= NBUF
        invariant forall j :: k <= j < NBUF ==> bufs[lru[j]].refcnt > 0
      {
        k := k - 1;
        var i := lru[k];
        if bufs[i].refcnt == 0 {
          assert At(i);
          bufs := bufs[i := Buf(false, dev, blockno, 1, true, bufs[i].data)];
          return Some(i), true;
        }
      }
      forall i | 0 <= i < NBUF
        ensures bufs[i].refcnt > 0
      {
        assert i in lru;
      }
      return None, false;
    }

    /** bread: bget, then fill the buffer from the disk if it is not valid.  A caller that did not get
        the lock has only taken its reference. */
    method Bread(dev: nat, blockno: nat) returns (r: Option<nat>, got: bool)
      requires Valid() && dev != 0 && blockno < |disk|
      modifies this`bufs
      ensures Valid()
      ensures got <==> r.Some? && Unheld(old(bufs), dev, blockno)
      ensures r.None? <==> !Cached(old(bufs), dev, blockno) && !SomeFree(old(bufs))
      ensures r.None? ==> bufs == old(bufs)
      ensures r.Some? ==> r.value < NBUF && At(r.value)
      ensures got ==>
                var b, was := bufs[r.value], old(bufs)[r.value];
                && b.valid && b.held && b.Caches(dev, blockno)
                && b.data == if was.Caches(dev, blockno) && was.valid then was.data else disk[blockno]
      ensures r.Some? && Cached(old(bufs), dev, blockno) ==>
                var i, was := r.value, old(bufs);
                && was[i].Caches(dev, blockno)
                && bufs == was[i := if got then Filled(was[i].(refcnt := was[i].refcnt + 1, held := true))
                                    else was[i].(refcnt := was[i].refcnt + 1)]
      ensures r.Some? && !Cached(old(bufs), dev, blockno) ==>
                var i, was := r.value, old(bufs);
                && was[i].refcnt == 0
                && bufs == was[i := Buf(true, dev, blockno, 1, true, disk[blockno])]
    {
      r, got := Bget(dev, blockno);
      if got {
        Fill(r.value);
      }
    }

    /** What a valid copy of the buffer's block is. */
    function Filled(b: Buf): Buf
      requires b.blockno < |disk|
      reads this`disk
    {
      if b.valid then b else b.(valid := true, data := disk[b.blockno])
    }

    method Fill(i: nat)
      requires Valid() && At(i) && i < NBUF && bufs[i].dev != 0 && bufs[i].held
      modifies this`bufs
      ensures Valid() && bufs == old(bufs)[i := Filled(old(bufs)[i])]
    {
      if !bufs[i].valid {
        bufs := bufs[i := bufs[i].(data := disk[bufs[i].blockno], valid := true)];
      }
    }

    /** The rest of bread for a caller that had to wait: the lock is free now. */
    method BreadResumed(i: nat)
      requires Valid() && At(i) && i < NBUF && bufs[i].dev != 0 && !bufs[i].held && bufs[i].refcnt > 0
      modifies this`bufs
      ensures Valid() && bufs == old(bufs)[i := Filled(old(bufs)[i].(held := true))]
    {
      bufs := bufs[i := bufs[i].(held := true)];
      Fill(i);
    }

    /** The holder's stores into b->data. */
    method Store(i: nat, data: Data)
      requires Valid() && At(i) && i < NBUF && bufs[i].held
      modifies this`bufs
      ensures Valid() && bufs == old(bufs)[i := old(bufs)[i].(data := data)]
    {
      bufs := bufs[i := bufs[i].(data := data)];
    }

    /** bwrite: the one step that changes the disk. */
    method Bwrite(i: nat)
      requires Valid() && At(i) && i < NBUF && bufs[i].held && bufs[i].dev != 0
      modifies this`disk, this`images
      ensures Valid() && disk == old(disk)[bufs[i].blockno := bufs[i].data]
      ensures images == old(images) + [disk]
    {
      disk := disk[bufs[i].blockno := bufs[i].data];
      images := images + [disk];
    }

    /** brelse: drop the lock and the reference; an unreferenced buffer becomes the most recent. */
    method Brelse(i: nat)
      requires Valid() && At(i) && i < NBUF && bufs[i].held
      modifies this`bufs, this`lru
      ensures Valid()
      ensures bufs == old(bufs)[i := old(bufs)[i].(refcnt := old(bufs)[i].refcnt - 1, held := false)]
      ensures bufs[i].refcnt > 0 ==> lru == old(lru)
      ensures bufs[i].refcnt == 0 ==>
                exists p :: 0 <= p < NBUF && old(lru)[p] == i && lru == [i] + old(lru)[..p] + old(lru)[p + 1..]
    {
      bufs := bufs[i := bufs[i].(refcnt := bufs[i].refcnt - 1, held := false)];
      if bufs[i].refcnt == 0 {
        var p := 0;
        while lru[p] != i
          invariant 0 <= p < NBUF && i !in lru[..p]
          decreases NBUF - p
        {
          assert i in lru;
          p := p + 1;
        }
        MovedToFront(lru, p);
        lru := [i] + lru[..p] + lru[p + 1..];
      }
    }

    method Bpin(i: nat)
      requires Valid() && At(i) && i < NBUF
      modifies this`bufs
      ensures Valid() && bufs == old(bufs)[i := old(bufs)[i].(refcnt := old(bufs)[i].refcnt + 1)]
    {
      bufs := bufs[i := bufs[i].(refcnt := bufs[i].refcnt + 1)];
    }

    method Bunpin(i: nat)
      requires Valid() && At(i) && i < NBUF && bufs[i].refcnt > (if bufs[i].held then 1 else 0)
      modifies this`bufs
      ensures Valid() && bufs == old(bufs)[i := old(bufs)[i].(refcnt := old(bufs)[i].refcnt - 1)]
    {
      bufs := bufs[i := bufs[i].(refcnt := bufs[i].refcnt - 1)];
    }
  }

  lemma MovedToFront(lru: seq<nat>, p: nat)
    requires LruOrder(lru) && p < NBUF
    ensures LruOrder([lru[p]] + lru[..p] + lru[p + 1..])
  {
    var now := [lru[p]] + lru[..p] + lru[p + 1..];
    forall j | 0 <= j < NBUF
      ensures j in now
    {
      assert j in lru;
      var q :| 0 <= q < NBUF && lru[q] == j;
      assert j == now[if q < p then q + 1 else if q > p then q else 0];
    }
  }
}
