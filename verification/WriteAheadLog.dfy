/** log.c over bio.c: transactions, commit and recovery on the buffer cache.

    `mem` is the ghost contents that bread must return; `dirty` are the buffers whose holder has
    changed them and not yet called log_write; `budget` is what each outstanding operation may still
    add to the log. */
module WriteAheadLog {
  import opened RedoLog
  import opened BufferCache
  import opened Wrappers

  const MAXOPBLOCKS: nat := 10
  const ROOTDEV: nat := 1

  // Ghost sums of operation budgets

  ghost function Total(m: map<nat, nat>): nat
    decreases |m|
  {
    if m == map[] then 0
    else
      var k := Pick(m);
      assert k !in m - {k} && |m - {k}| < |m| by { assert (m - {k}).Keys == m.Keys - {k}; }
      m[k] + Total(m - {k})
  }

  ghost function Pick(m: map<nat, nat>): (k: nat)
    requires m != map[]
    ensures k in m
  {
    assert m.Keys == {} ==> m == map[];
    var k :| k in m.Keys; k
  }

  lemma {:induction false} TotalRemove(m: map<nat, nat>, k: nat)
    requires k in m
    ensures Total(m) == m[k] + Total(m - {k})
    decreases |m|
  {
    var p := Pick(m);
    if p != k {
      var a, b := m - {p}, m - {k};
      assert a.Keys == m.Keys - {p} && b.Keys == m.Keys - {k};
      TotalRemove(a, k);
      TotalRemove(b, p);
      assert a - {k} == b - {p};
    }
  }

  lemma TotalUpdate(m: map<nat, nat>, k: nat, v: nat)
    ensures Total(m[k := v]) == v + Total(m - {k})
  {
    TotalRemove(m[k := v], k);
    assert m[k := v] - {k} == m - {k};
  }

  lemma OneMore(n: nat, each: nat)
    ensures (n + 1) * each == n * each + each
  {
  }

  lemma {:induction false} TotalBound(m: map<nat, nat>, each: nat)
    requires forall k :: k in m ==> m[k] <= each
    ensures Total(m) <= |m| * each
    decreases |m|
  {
    if m != map[] {
      var k := Pick(m);
      assert (m - {k}).Keys == m.Keys - {k};
      TotalBound(m - {k}, each);
      OneMore(|m - {k}|, each);
    }
  }

  /** The blocks of a transaction from position k on. */
  ghost function Tail(lh: seq<int>, k: nat): set<int> {
    set j | k <= j < |lh| :: lh[j]
  }

  lemma TailStep(lh: seq<int>, k: nat)
    requires k < |lh| && Distinct(lh)
    ensures Tail(lh, k + 1) == Tail(lh, k) - {lh[k]} && lh[k] in Tail(lh, k)
  {
    forall j | k < j < |lh|
      ensures lh[j] != lh[k]
    {
      DistinctMeansDifferent(lh, k, j);
    }
  }

  /** The references bio.c counts: one pin per logged block, one lock holder. */
  ghost function References(b: Buf, pins: set<int>): nat {
    (if b.dev == ROOTDEV && b.blockno in pins then 1 else 0) + (if b.held then 1 else 0)
  }

  ghost predicate BufOk(b: Buf, isDirty: bool, mem: Disk, pins: set<int>) {
    && (b.dev == 0 || (b.dev == ROOTDEV && b.blockno < |mem|))
    && b.refcnt == References(b, pins)
    && (b.refcnt > 0 ==> b.dev == ROOTDEV && b.valid)
    && (isDirty ==> b.held)
    && (b.dev == ROOTDEV && b.valid && !isDirty ==> b.data == mem[b.blockno])
  }

  ghost predicate BufsOk(bufs: seq<Buf>, dirty: set<nat>, mem: Disk, pins: set<int>) {
    forall i {:trigger At(i)} :: At(i) && 0 <= i < |bufs| ==> BufOk(bufs[i], i in dirty, mem, pins)
  }

  /** Marks a block number, as At marks a buffer index. */
  ghost predicate Pin(b: int) {
    true
  }

  ghost predicate PinsCached(bufs: seq<Buf>, pins: set<int>) {
    forall b {:trigger Pin(b)} :: Pin(b) && b in pins ==> Cached(bufs, ROOTDEV, b)
  }

  ghost predicate DiskOk(disk: Disk, mem: Disk, pins: set<int>) {
    && |mem| == |disk|
    && forall b :: 0 <= b < |disk| && b !in pins ==> disk[b] == mem[b]
  }

  /** No buffer that commit needs is locked by someone else. */
  ghost predicate CommitBlocksUnheld(bufs: seq<Buf>, start: nat, lh: seq<int>) {
    forall i {:trigger At(i)} :: At(i) && 0 <= i < |bufs| && bufs[i].held ==>
        !InLog(start, bufs[i].blockno) && bufs[i].blockno !in lh
  }

  /** The same references and the same locked blocks. */
  ghost predicate SameUse(bufs: seq<Buf>, was: seq<Buf>) {
    && |bufs| == |was|
    && forall i {:trigger At(i)} :: At(i) && 0 <= i < |was| ==>
         && bufs[i].refcnt == was[i].refcnt && bufs[i].held == was[i].held
         && (was[i].held ==> bufs[i].blockno == was[i].blockno)
  }

  ghost predicate TwoFree(bufs: seq<Buf>) {
    exists i, j :: At(i) && At(j) && 0 <= i < j < |bufs| && bufs[i].refcnt == 0 && bufs[j].refcnt == 0
  }

  ghost predicate SameHolders(bufs: seq<Buf>, was: seq<Buf>) {
    |bufs| == |was| && forall i {:trigger At(i)} :: At(i) && 0 <= i < |was| ==> bufs[i].held == was[i].held
  }

  /** install_trans reads two blocks; outside recovery the home block is already cached. */
  ghost predicate EnoughFree(bufs: seq<Buf>, recovering: bool) {
    if recovering then TwoFree(bufs) else SomeFree(bufs)
  }

  /** At most the same references, and the same locked blocks. */
  ghost predicate NoMoreUse(bufs: seq<Buf>, was: seq<Buf>) {
    && |bufs| == |was|
    && forall i {:trigger At(i)} :: At(i) && 0 <= i < |was| ==>
         && bufs[i].refcnt <= was[i].refcnt && bufs[i].held == was[i].held
         && (was[i].held ==> bufs[i].blockno == was[i].blockno)
  }

  lemma OnlyLoggedDiffer(disk: Disk, mem: Disk, start: nat, lh: seq<int>)
    requires DiskOk(disk, mem, Tail(lh, 0))
    ensures |mem| == |disk| && forall b :: IsHome(start, |disk|, b) && b !in lh ==> mem[b] == disk[b]
  {
    assert forall b :: b in Tail(lh, 0) ==> b in lh;
  }

  lemma UnheldStays(bufs: seq<Buf>, was: seq<Buf>, start: nat, lh: seq<int>)
    requires SameUse(bufs, was) && CommitBlocksUnheld(was, start, lh)
    ensures CommitBlocksUnheld(bufs, start, lh)
  {
  }

  lemma NoMoreThan(bufs: seq<Buf>, mid: seq<Buf>, was: seq<Buf>)
    requires NoMoreUse(bufs, mid) && SameUse(mid, was)
    ensures NoMoreUse(bufs, was)
  {
  }

  lemma TwoBuffersUsed(was: seq<Buf>, l: nat, d: nat, x: Buf, y: Buf)
    requires l < |was| && d < |was| && l != d && !was[l].held && !was[d].held && !x.held && !y.held
    requires x.refcnt <= was[l].refcnt && y.refcnt <= was[d].refcnt
    ensures NoMoreUse(was[l := x][d := y], was)
  {
  }

  datatype EndResult = Waiting | Committed | Panicked

  class Log {
    const bc: Bcache
    const start: nat
    var lh: seq<int>
    var outstanding: nat
    var committing: bool
    ghost var mem: Disk
    ghost var dirty: set<nat>
    ghost var budget: map<nat, nat>
    /** The committed states so far, and which of them each disk image recovers to. */
    ghost var states: seq<Disk>
    ghost var at: seq<nat>

    /** The log over a cache that has just been created, before recovery. */
    constructor (bc: Bcache, start: nat)
      requires bc.Valid() && start + LOGBLOCKS < |bc.disk|
      requires forall i :: 0 <= i < NBUF ==> bc.bufs[i].dev == 0 && bc.bufs[i].refcnt == 0 && !bc.bufs[i].held
      ensures this.bc == bc && this.start == start
      ensures Coherent({}) && lh == [] && outstanding == 0 && !committing && dirty == {} && budget == map[]
    {
      this.bc := bc;
      this.start := start;
      lh, outstanding, committing := [], 0, false;
      mem, dirty, budget := bc.disk, {}, map[];
      states, at := [], [];
    }

    /** The invariant that spans log.c and bio.c.  `pins` are the home blocks kept in the cache for a
        commit to come: all of lh, except while install_trans is unpinning them. */
    ghost predicate Coherent(pins: set<int>)
      reads this, bc
    {
      && bc.Valid()
      && start + LOGBLOCKS < |bc.disk|
      && DiskOk(bc.disk, mem, pins)
      && PinsCached(bc.bufs, pins)
      && BufsOk(bc.bufs, dirty, mem, pins)
    }

    // The cache operations, seen through `mem`

    method Read(b: nat, ghost pins: set<int>) returns (r: Option<nat>)
      requires Coherent(pins) && Pin(b) && b < |bc.disk| && Unheld(bc.bufs, ROOTDEV, b)
      modifies bc`bufs
      ensures Coherent(pins)
      ensures r.None? <==> !Cached(old(bc.bufs), ROOTDEV, b) && !SomeFree(old(bc.bufs))
      ensures r.None? ==> bc.bufs == old(bc.bufs)
      ensures r.Some? ==>
                var i, was := r.value, old(bc.bufs);
                && At(i) && i < NBUF && i !in dirty && !was[i].held
                && bc.bufs == was[i := Buf(true, ROOTDEV, b, was[i].refcnt + 1, true, mem[b])]
    {
      var got;
      r, got := bc.Bread(ROOTDEV, b);
    }

    method Release(i: nat, ghost pins: set<int>)
      requires Coherent(pins) && At(i) && i < NBUF && bc.bufs[i].held && i !in dirty
      modifies bc`bufs, bc`lru
      ensures Coherent(pins)
      ensures bc.bufs == old(bc.bufs)[i := old(bc.bufs)[i].(refcnt := old(bc.bufs)[i].refcnt - 1, held := false)]
    {
      bc.Brelse(i);
    }

    /** memmove into a held buffer followed by bwrite. */
    method Put(i: nat, data: Data, ghost pins: set<int>)
      requires Coherent(pins) && At(i) && i < NBUF && bc.bufs[i].held && i !in dirty
      requires bc.bufs[i].blockno in pins ==> data == mem[bc.bufs[i].blockno]
      modifies bc`bufs, bc`disk, bc`images, this`mem
      ensures Coherent(pins)
      ensures bc.bufs == old(bc.bufs)[i := old(bc.bufs)[i].(data := data)]
      ensures bc.disk == old(bc.disk)[old(bc.bufs)[i].blockno := data]
      ensures mem == old(mem)[old(bc.bufs)[i].blockno := data]
      ensures bc.images == old(bc.images) + [bc.disk]
    {
      bc.Store(i, data);
      bc.Bwrite(i);
      mem := mem[bc.bufs[i].blockno := data];
    }

    // Commit and recovery

    /** The two breads that write_log and install_trans start with, log block first. */
    method ReadBoth(log: nat, home: nat, ghost pins: set<int>) returns (r: Option<(nat, nat)>)
      requires Coherent(pins) && Pin(log) && Pin(home) && log != home && log < |bc.disk| && home < |bc.disk|
      requires Unheld(bc.bufs, ROOTDEV, log) && Unheld(bc.bufs, ROOTDEV, home)
      modifies bc`bufs
      ensures home in pins ==> (r.Some? <==> Cached(old(bc.bufs), ROOTDEV, log) || SomeFree(old(bc.bufs)))
      ensures TwoFree(old(bc.bufs)) ==> r.Some?
      ensures r.Some? ==>
                var l, h, was := r.value.0, r.value.1, old(bc.bufs);
                && Coherent(pins) && At(l) && At(h) && l != h && l < NBUF && h < NBUF && l !in dirty && h !in dirty
                && !was[l].held && !was[h].held
                && bc.bufs == was[l := Buf(true, ROOTDEV, log, was[l].refcnt + 1, true, mem[log])]
                                 [h := Buf(true, ROOTDEV, home, was[h].refcnt + 1, true, mem[home])]
    {
      var l := Read(log, pins);
      if l.None? { return None; }
      var h := Read(home, pins);
      if h.None? { return None; }
      return Some((l.value, h.value));
    }

    method ReleaseBoth(i: nat, j: nat, ghost pins: set<int>)
      requires Coherent(pins) && At(i) && At(j) && i != j && i < NBUF && j < NBUF
      requires bc.bufs[i].held && bc.bufs[j].held && i !in dirty && j !in dirty
      modifies bc`bufs, bc`lru
      ensures Coherent(pins)
      ensures var was := old(bc.bufs);
              bc.bufs == was[i := was[i].(refcnt := was[i].refcnt - 1, held := false)]
                            [j := was[j].(refcnt := was[j].refcnt - 1, held := false)]
    {
      Release(i, pins);
      Release(j, pins);
    }

    /** The write of a home block in install_trans; outside recovery it also loses its pin. */
    method InstallOver(i: nat, data: Data, recovering: bool, ghost pins: set<int>, ghost rest: set<int>)
      requires Coherent(pins) && At(i) && i < NBUF && bc.bufs[i].held && i !in dirty
      requires var b := bc.bufs[i].blockno;
               if recovering then b !in pins else b in pins && data == mem[b]
      requires rest == pins - {bc.bufs[i].blockno}
      modifies bc, this`mem
      ensures Coherent(rest)
      ensures var was := old(bc.bufs)[i];
              && bc.bufs == old(bc.bufs)[i := was.(data := data, refcnt := was.refcnt - (if recovering then 0 else 1))]
              && bc.disk == old(bc.disk)[was.blockno := data] && mem == old(mem)[was.blockno := data]
              && bc.images == old(bc.images) + [bc.disk]
    {
      Put(i, data, pins);
      if !recovering {
        bc.Bunpin(i);
      }
    }

    /** The rest of a turn of install_trans, once both blocks are read: i holds the log block. */
    method InstallFrom(i: nat, j: nat, recovering: bool, ghost pins: set<int>, ghost rest: set<int>)
      requires Coherent(pins) && At(i) && At(j) && i != j && i < NBUF && j < NBUF
      requires bc.bufs[i].held && bc.bufs[j].held && i !in dirty && j !in dirty
      requires var b := bc.bufs[j].blockno;
               if recovering then b !in pins else b in pins && bc.bufs[i].data == mem[b]
      requires rest == pins - {bc.bufs[j].blockno}
      modifies bc, this`mem
      ensures Coherent(rest) && |old(bc.bufs)| == NBUF == |bc.bufs|
      ensures var was, data := old(bc.bufs), old(bc.bufs)[i].data;
              && bc.bufs == was[i := was[i].(refcnt := was[i].refcnt - 1, held := false)]
                               [j := was[j].(data := data, refcnt := was[j].refcnt - (if recovering then 1 else 2),
                                             held := false)]
              && bc.disk == old(bc.disk)[was[j].blockno := data] && mem == old(mem)[was[j].blockno := data]
              && bc.images == old(bc.images) + [bc.disk]
    {
      ghost var was := bc.bufs;
      InstallOver(j, bc.bufs[i].data, recovering, pins, rest);
      ReleaseBoth(i, j, rest);
      assert bc.bufs == was[i := bc.bufs[i]][j := bc.bufs[j]];
    }

    /** One turn of write_log: copy the cached home block into its log block.  False is the panic
        "bget: no buffers". */
    method CopyToLog(log: nat, home: nat, ghost pins: set<int>) returns (ok: bool)
      requires Coherent(pins) && Pin(log) && Pin(home) && log < |bc.disk| && home < |bc.disk|
      requires Unheld(bc.bufs, ROOTDEV, log) && Unheld(bc.bufs, ROOTDEV, home)
      requires log !in pins && home in pins
      modifies bc, this`mem
      ensures ok <==> Cached(old(bc.bufs), ROOTDEV, log) || SomeFree(old(bc.bufs))
      ensures ok ==>
                && Coherent(pins) && SameUse(bc.bufs, old(bc.bufs))
                && bc.disk == old(bc.disk)[log := old(mem)[home]] && mem == old(mem)[log := old(mem)[home]]
                && bc.images == old(bc.images) + [bc.disk]
    {
      assert |bc.bufs| == NBUF && |mem| == |bc.disk|;
      hide Coherent, Cached, SomeFree, Unheld;
      var both := ReadBoth(log, home, pins);
      if both.None? { return false; }
      var (to, from) := both.value;
      Put(to, bc.bufs[from].data, pins);
      ReleaseBoth(from, to, pins);
      return true;
    }

    /** One turn of install_trans: copy the log block over its home block; outside recovery the home
        block loses its pin. */
    method CopyHome(log: nat, home: nat, recovering: bool, ghost pins: set<int>, ghost rest: set<int>)
      returns (ok: bool)
      requires Coherent(pins) && Pin(log) && Pin(home) && log != home && log < |bc.disk| && home < |bc.disk|
      requires Unheld(bc.bufs, ROOTDEV, log) && Unheld(bc.bufs, ROOTDEV, home)
      requires if recovering then home !in pins else home in pins && mem[log] == mem[home]
      requires rest == pins - {home}
      modifies bc, this`mem
      ensures home in pins ==> (ok <==> Cached(old(bc.bufs), ROOTDEV, log) || SomeFree(old(bc.bufs)))
      ensures TwoFree(old(bc.bufs)) ==> ok
      ensures ok ==>
                && Coherent(rest) && NoMoreUse(bc.bufs, old(bc.bufs))
                && bc.disk == old(bc.disk)[home := old(mem)[log]] && mem == old(mem)[home := old(mem)[log]]
                && bc.images == old(bc.images) + [bc.disk]
    {
      assert |bc.bufs| == NBUF;
      hide Coherent, Cached, SomeFree, Unheld, TwoFree, NoMoreUse;
      ghost var was := bc.bufs;
      var both := ReadBoth(log, home, pins);
      if both.None? { return false; }
      var (l, d) := both.value;
      InstallFrom(l, d, recovering, pins, rest);
      TwoBuffersUsed(was, l, d, bc.bufs[l], bc.bufs[d]);
      return true;
    }

    /** Someone can always recycle the buffer of a log block: it is never pinned. */
    lemma LogBlockReadable(b: nat, pins: set<int>)
      requires Coherent(pins) && InLog(start, b) && b !in pins && CommitBlocksUnheld(bc.bufs, start, lh)
      ensures Unheld(bc.bufs, ROOTDEV, b)
      ensures Cached(bc.bufs, ROOTDEV, b) ==> SomeFree(bc.bufs)
    {
    }

    /** Where write_log stands after `tail` blocks, having started from `d`, `m`, `imgs` and `was`. */
    ghost predicate Logging(tail: nat, pins: set<int>, d: Disk, m: Disk, imgs: seq<Disk>, was: seq<Buf>)
      requires tail <= |lh| && start + LOGBLOCKS < |d| == |m| && IsTransaction(start, |d|, lh)
      reads this, bc
    {
      && Coherent(pins) && SameUse(bc.bufs, was)
      && bc.disk == Logged(d, start, lh, m, tail)
      && mem == Logged(m, start, lh, m, tail)
      && bc.images == imgs + LogImages(d, start, lh, m, tail)
    }

    method LogOne(tail: nat, ghost pins: set<int>, ghost d: Disk, ghost m: Disk, ghost imgs: seq<Disk>,
                  ghost was: seq<Buf>)
      returns (ok: bool)
      requires tail < |lh| && start + LOGBLOCKS < |d| == |m| && IsTransaction(start, |d|, lh)
      requires CommitBlocksUnheld(bc.bufs, start, lh) && Logging(tail, pins, d, m, imgs, was)
      requires lh[tail] in pins && start + tail + 1 !in pins
      modifies bc, this`mem
      ensures ok <==> SomeFree(old(bc.bufs))
      ensures ok ==> CommitBlocksUnheld(bc.bufs, start, lh) && Logging(tail + 1, pins, d, m, imgs, was)
    {
      assert Pin(lh[tail]) && lh[tail] in lh && Pin(start + tail + 1);
      LogBlockReadable(start + tail + 1, pins);
      LoggedAt(m, start, lh, m, tail, lh[tail]);
      ok := CopyToLog(start + tail + 1, lh[tail], pins);
    }

    method WriteLog(ghost pins: set<int>) returns (ok: bool)
      requires Coherent(pins) && IsTransaction(start, |bc.disk|, lh) && pins == Tail(lh, 0)
      requires CommitBlocksUnheld(bc.bufs, start, lh)
      modifies bc, this`mem
      ensures ok <==> lh == [] || SomeFree(old(bc.bufs))
      ensures ok ==>
                && CommitBlocksUnheld(bc.bufs, start, lh)
                && Logging(|lh|, pins, old(bc.disk), old(mem), old(bc.images), old(bc.bufs))
    {
      var tail := 0;
      ghost var d, m, imgs, was := bc.disk, mem, bc.images, bc.bufs;
      while tail < |lh|
        invariant 0 <= tail <= |lh|
        invariant tail > 0 ==> SomeFree(was)
        invariant CommitBlocksUnheld(bc.bufs, start, lh) && Logging(tail, pins, d, m, imgs, was)
      {
        ok := LogOne(tail, pins, d, m, imgs, was);
        if !ok { return; }
        tail := tail + 1;
      }
      ok := true;
    }

    method WriteHead(ghost pins: set<int>) returns (ok: bool)
      requires Coherent(pins) && start !in pins && CommitBlocksUnheld(bc.bufs, start, lh)
      requires |bc.disk[start]| == WORDS && |lh| <= LOGBLOCKS
      modifies bc, this`mem
      ensures SomeFree(old(bc.bufs)) ==> ok
      ensures ok ==>
                && Coherent(pins) && SameUse(bc.bufs, old(bc.bufs))
                && bc.disk == old(bc.disk)[start := WriteHeader(old(bc.disk)[start], lh)]
                && mem == old(mem)[start := bc.disk[start]]
                && bc.images == old(bc.images) + [bc.disk]
    {
      assert Pin(start);
      LogBlockReadable(start, pins);
      var h := Read(start, pins);
      if h.None? { return false; }
      Put(h.value, WriteHeader(bc.bufs[h.value].data, lh), pins);
      Release(h.value, pins);
      return true;
    }

    /** Where install_trans stands after `tail` blocks.  In recovery nothing is pinned. */
    ghost predicate Installing(tail: nat, recovering: bool, pins: set<int>, d: Disk, m: Disk, imgs: seq<Disk>,
                               was: seq<Buf>)
      requires tail <= |lh| && start + LOGBLOCKS < |d| && IsTransaction(start, |d|, lh)
      reads this, bc
    {
      && Coherent(pins) && NoMoreUse(bc.bufs, was)
      && bc.disk == Installed(d, start, lh, tail)
      && (!recovering ==> mem == m)
      && bc.images == imgs + InstallImages(d, start, lh, tail)
    }

    method InstallOne(tail: nat, recovering: bool, ghost pins: set<int>, ghost rest: set<int>, ghost d: Disk,
                      ghost m: Disk, ghost imgs: seq<Disk>, ghost was: seq<Buf>)
      returns (ok: bool)
      requires tail < |lh| && start + LOGBLOCKS < |d| && IsTransaction(start, |d|, lh)
      requires CommitBlocksUnheld(bc.bufs, start, lh) && Installing(tail, recovering, pins, d, m, imgs, was)
      requires start + tail + 1 !in pins && rest == pins - {lh[tail]}
      requires if recovering then lh[tail] !in pins else lh[tail] in pins && d[start + tail + 1] == mem[lh[tail]]
      requires EnoughFree(bc.bufs, recovering)
      modifies bc, this`mem
      ensures ok && CommitBlocksUnheld(bc.bufs, start, lh) && Installing(tail + 1, recovering, rest, d, m, imgs, was)
      ensures EnoughFree(bc.bufs, recovering)
    {
      assert Pin(lh[tail]) && lh[tail] in lh && Pin(start + tail + 1);
      LogBlockReadable(start + tail + 1, pins);
      InstalledAt(d, start, lh, tail, start + tail + 1);
      ok := CopyHome(start + tail + 1, lh[tail], recovering, pins, rest);
    }

    ghost function StillPinned(recovering: bool, tail: nat): set<int>
      reads this
    {
      if recovering then {} else Tail(lh, tail)
    }

    lemma PinStep(recovering: bool, tail: nat, size: nat)
      requires IsTransaction(start, size, lh) && tail < |lh|
      ensures var pins, rest := StillPinned(recovering, tail), StillPinned(recovering, tail + 1);
              && rest == pins - {lh[tail]} && start + tail + 1 !in pins
              && (lh[tail] in pins <==> !recovering)
    {
      TailStep(lh, tail);
    }

    method InstallTrans(recovering: bool) returns (ok: bool)
      requires Coherent(StillPinned(recovering, 0)) && IsTransaction(start, |bc.disk|, lh)
      requires CommitBlocksUnheld(bc.bufs, start, lh)
      requires !recovering ==> forall k :: 0 <= k < |lh| ==> bc.disk[start + 1 + k] == mem[lh[k]]
      requires EnoughFree(bc.bufs, recovering)
      modifies bc, this`mem
      ensures ok && CommitBlocksUnheld(bc.bufs, start, lh) && SomeFree(bc.bufs)
      ensures Installing(|lh|, recovering, {}, old(bc.disk), old(mem), old(bc.images), old(bc.bufs))
    {
      var tail := 0;
      ghost var d, m, imgs, was := bc.disk, mem, bc.images, bc.bufs;
      ghost var pins := StillPinned(recovering, 0);
      ok := true;
      hide Coherent, Installed, InstallImages, NoMoreUse, CommitBlocksUnheld, EnoughFree, IsTransaction, IsHome, InLog;
      while tail < |lh|
        invariant 0 <= tail <= |lh| && ok && CommitBlocksUnheld(bc.bufs, start, lh)
        invariant pins == StillPinned(recovering, tail) && Installing(tail, recovering, pins, d, m, imgs, was)
        invariant EnoughFree(bc.bufs, recovering)
      {
        PinStep(recovering, tail, |d|);
        ghost var rest := StillPinned(recovering, tail + 1);
        ok := InstallOne(tail, recovering, pins, rest, d, m, imgs, was);
        pins := rest;
        tail := tail + 1;
      }
      assert Tail(lh, |lh|) == {};
    }

    /** install_trans followed by clearing the header: the second half of commit, and all of
        recovery after read_head. */
    method InstallAndClear(recovering: bool) returns (ok: bool)
      requires Readable(bc.disk, start) && Pending(bc.disk, start) == lh
      requires Coherent(StillPinned(recovering, 0)) && CommitBlocksUnheld(bc.bufs, start, lh)
      requires !recovering ==> forall k :: 0 <= k < |lh| ==> bc.disk[start + 1 + k] == mem[lh[k]]
      requires EnoughFree(bc.bufs, recovering)
      modifies bc, this`mem, this`lh
      ensures ok && lh == [] && Coherent({}) && NoMoreUse(bc.bufs, old(bc.bufs))
      ensures bc.disk == Recovered(old(bc.disk), start)
      ensures !recovering ==> mem == old(mem)[start := bc.disk[start]]
      ensures bc.images == old(bc.images) + RecoveryImages(old(bc.disk), start)[1..]
    {
      ghost var d, imgs, hs, was := bc.disk, bc.images, lh, bc.bufs;
      ok := InstallTrans(recovering);
      InstalledAt(d, start, hs, |hs|, start);
      lh := [];
      ghost var mid := bc.bufs;
      ok := WriteHead({});
      assert NoMoreUse(mid, was) && SameUse(bc.bufs, mid);
      AppendRecoveryImages(d, start, imgs);
    }

    /** write_log and the first write_head: up to the commit point. */
    method LogAndHead() returns (ok: bool)
      requires Coherent(Tail(lh, 0)) && IsTransaction(start, |bc.disk|, lh)
      requires Readable(bc.disk, start) && CommitBlocksUnheld(bc.bufs, start, lh) && lh != []
      modifies bc, this`mem
      ensures ok <==> SomeFree(old(bc.bufs))
      ensures ok ==>
                && Coherent(Tail(lh, 0)) && SameUse(bc.bufs, old(bc.bufs))
                && bc.disk == Headed(old(bc.disk), start, lh, old(mem))
                && mem == Logged(old(mem), start, lh, old(mem), |lh|)[start := bc.disk[start]]
                && bc.images == old(bc.images) + (LogImages(old(bc.disk), start, lh, old(mem), |lh|) + [bc.disk])
    {
      ghost var d, m := bc.disk, mem;
      ok := WriteLog(Tail(lh, 0));
      if !ok { return; }
      LoggedAt(d, start, lh, m, |lh|, start);
      ok := WriteHead(Tail(lh, 0));
    }

    /** commit: every block write it makes is one of CommitImages, in that order.  It panics exactly
        when there is something to commit and every buffer is referenced. */
    method Commit() returns (ok: bool)
      requires Coherent(Tail(lh, 0)) && IsTransaction(start, |bc.disk|, lh)
      requires Readable(bc.disk, start) && Pending(bc.disk, start) == []
      requires CommitBlocksUnheld(bc.bufs, start, lh)
      modifies bc, this`mem, this`lh
      ensures ok <==> old(lh) == [] || SomeFree(old(bc.bufs))
      ensures ok ==>
                && lh == [] && Coherent({}) && NoMoreUse(bc.bufs, old(bc.bufs))
                && Readable(bc.disk, start) && Pending(bc.disk, start) == [] && |bc.disk| == |old(bc.disk)|
                && (forall b :: IsHome(start, |mem|, b) ==> mem[b] == old(mem)[b])
                && (if old(lh) == [] then bc.images == old(bc.images) && bc.disk == old(bc.disk)
                    else bc.images == old(bc.images) + CommitImages(old(bc.disk), start, old(lh), old(mem))
                         && bc.disk == bc.images[|bc.images| - 1])
    {
      if lh == [] {
        assert Tail(lh, 0) == {};
        return true;
      }
      ghost var d, m, imgs, hs, was := bc.disk, mem, bc.images, lh, bc.bufs;
      assert |m| == |d|;
      RecoveredSize(d, start, hs, m);
      hide Coherent, CommitBlocksUnheld, SameUse, NoMoreUse, LogImages, CommitImages, RecoveryImages, Recovered,
          Logged, Headed;
      ok := LogAndHead();
      if !ok { return; }
      HeadedBlocks(d, start, hs, m);
      UnheldStays(bc.bufs, was, start, hs);
      ghost var mid := bc.bufs;
      ok := InstallAndClear(false);
      NoMoreThan(bc.bufs, mid, was);
      CommitDone(d, m, start, hs, imgs, bc.disk, mem, bc.images);
    }

    /** read_head: copy n and the n block numbers out of the header block. */
    method ReadHead()
      requires Coherent({}) && Readable(bc.disk, start) && Unheld(bc.bufs, ROOTDEV, start) && SomeFree(bc.bufs)
      modifies bc, this`lh
      ensures Coherent({}) && SameUse(bc.bufs, old(bc.bufs))
      ensures bc.disk == old(bc.disk) && bc.images == old(bc.images)
      ensures lh == Pending(bc.disk, start)
    {
      assert Pin(start);
      var r := Read(start, {});
      var header := bc.bufs[r.value].data;
      var n, i, blocks := header[0], 0, [];
      while i < n
        invariant 0 <= i <= n && blocks == header[1..1 + i]
      {
        blocks := blocks + [header[1 + i]];
        i := i + 1;
      }
      lh := blocks;
      Release(r.value, {});
    }

    /** The first state is the one recovery leaves. */
    ghost method RecordBoot(d: Disk)
      requires Readable(d, start) && bc.disk == Recovered(d, start) && bc.images == RecoveryImages(d, start)[1..]
      modifies this`states, this`at
      ensures Recorded() && states == [bc.disk]
    {
      HistoryStarts(d, start);
      assert bc.disk == bc.images[|bc.images| - 1];
      hide History, RecoveryImages, Recovered;
      states, at := [bc.disk], seq(|bc.images|, _ => 0);
    }

    /** The block copying of recover_from_log. */
    method ReadAndInstall() returns (ok: bool)
      requires Coherent({}) && Readable(bc.disk, start)
      requires forall i {:trigger At(i)} :: At(i) && 0 <= i < NBUF ==> bc.bufs[i].refcnt == 0
      modifies bc, this`mem, this`lh
      ensures ok && Coherent({}) && lh == []
      ensures bc.disk == Recovered(old(bc.disk), start)
      ensures bc.images == old(bc.images) + RecoveryImages(old(bc.disk), start)[1..]
    {
      assert At(0) && At(1);
      ReadHead();
      assert At(0) && At(1);
      ok := InstallAndClear(true);
    }

    /** recover_from_log on a fresh cache: the disk becomes the recovered image, through exactly the
        images RecoveryImages lists. */
    method RecoverFromLog() returns (ok: bool)
      requires Coherent({}) && Readable(bc.disk, start) && outstanding == 0 && !committing && budget == map[]
      requires bc.images == []
      requires forall i {:trigger At(i)} :: At(i) && 0 <= i < NBUF ==> bc.bufs[i].refcnt == 0
      modifies bc, this`mem, this`lh, this`states, this`at
      ensures ok && Inv() && states == [bc.disk]
      ensures bc.disk == Recovered(old(bc.disk), start)
      ensures bc.images == RecoveryImages(old(bc.disk), start)[1..]
    {
      hide History, RecoveryImages, Recovered, BufsOk, PinsCached, OneBufferPerBlock, BufsInRange, LruOrder;
      ghost var d := bc.disk;
      ok := ReadAndInstall();
      ClearedKeepsLogical(d, start);
      RecordBoot(d);
      assert Tail(lh, 0) == {};
      assert Total(budget) == 0;
    }

    // What file-system operations do between begin_op and end_op

    /** Every outstanding operation holds a budget and the log has room for all of them. */
    ghost predicate Reserved()
      reads this
    {
      && |budget| == outstanding
      && (forall op :: op in budget ==> budget[op] <= MAXOPBLOCKS)
      && |lh| + Total(budget) <= LOGBLOCKS
    }

    /** The state between steps, whatever the interleaving: the cache is coherent with lh pinned, the
        on-disk log is empty, and log space is reserved. */
    ghost predicate Inv()
      reads this, bc
    {
      && Coherent(Tail(lh, 0)) && IsTransaction(start, |bc.disk|, lh)
      && Readable(bc.disk, start) && Pending(bc.disk, start) == []
      && Reserved() && !committing && Recorded()
    }

    /** Every disk image since boot recovers to a committed state, in the order of the commits, and
        the disk is at the last one. */
    ghost predicate Recorded()
      reads this, bc
    {
      History(bc.images, at, states, start) && bc.disk == bc.images[|bc.images| - 1]
    }

    /** begin_op: one turn of its loop.  False means it goes to sleep. */
    method BeginOp(op: nat) returns (started: bool)
      requires Inv() && op !in budget
      modifies this`outstanding, this`budget
      ensures Inv()
      ensures started <==> |lh| + (old(outstanding) + 1) * MAXOPBLOCKS <= LOGBLOCKS
      ensures started ==> outstanding == old(outstanding) + 1 && budget == old(budget)[op := MAXOPBLOCKS]
      ensures !started ==> outstanding == old(outstanding) && budget == old(budget)
    {
      if committing || |lh| + (outstanding + 1) * MAXOPBLOCKS > LOGBLOCKS {
        return false;
      }
      TotalBound(budget, MAXOPBLOCKS);
      TotalUpdate(budget, op, MAXOPBLOCKS);
      assert budget - {op} == budget;
      outstanding := outstanding + 1;
      budget := budget[op := MAXOPBLOCKS];
      return true;
    }

    /** bread as an operation sees it: it returns the latest logged contents and writes nothing. */
    method Fetch(b: nat) returns (r: Option<nat>)
      requires Inv() && Pin(b) && b < |bc.disk| && Unheld(bc.bufs, ROOTDEV, b)
      modifies bc`bufs
      ensures Inv()
      ensures r.None? <==> !Cached(old(bc.bufs), ROOTDEV, b) && !SomeFree(old(bc.bufs))
      ensures r.Some? ==>
                var i, was := r.value, old(bc.bufs);
                && At(i) && i < NBUF && i !in dirty && !was[i].held
                && bc.bufs == was[i := Buf(true, ROOTDEV, b, was[i].refcnt + 1, true, mem[b])]
    {
      r := Read(b, Tail(lh, 0));
    }

    /** The holder changes b->data. */
    method Modify(i: nat, data: Data)
      requires Inv() && At(i) && i < NBUF && bc.bufs[i].held
      modifies bc`bufs, this`dirty
      ensures Inv() && dirty == old(dirty) + {i}
      ensures bc.bufs == old(bc.bufs)[i := old(bc.bufs)[i].(data := data)]
    {
      bc.Store(i, data);
      dirty := dirty + {i};
    }

    /** brelse; the contract of log_write's comment is that a changed buffer has been logged. */
    method Done(i: nat)
      requires Inv() && At(i) && i < NBUF && bc.bufs[i].held && i !in dirty
      modifies bc`bufs, bc`lru
      ensures Inv()
      ensures bc.bufs == old(bc.bufs)[i := old(bc.bufs)[i].(refcnt := old(bc.bufs)[i].refcnt - 1, held := false)]
    {
      Release(i, Tail(lh, 0));
    }

    /** Pin a block that joins the transaction. */
    method PinNew(i: nat, ghost pins: set<int>)
      requires Coherent(pins) && At(i) && i < NBUF && bc.bufs[i].held && bc.bufs[i].blockno !in pins
      modifies bc`bufs, this`mem, this`dirty
      ensures Coherent(pins + {old(bc.bufs)[i].blockno})
      ensures bc.bufs == old(bc.bufs)[i := old(bc.bufs)[i].(refcnt := old(bc.bufs)[i].refcnt + 1)]
      ensures mem == old(mem)[old(bc.bufs)[i].blockno := old(bc.bufs)[i].data] && dirty == old(dirty) - {i}
    {
      bc.Bpin(i);
      mem := mem[bc.bufs[i].blockno := bc.bufs[i].data];
      dirty := dirty - {i};
    }

    /** A block already in the transaction is absorbed. */
    ghost method Absorb(i: nat, pins: set<int>)
      requires Coherent(pins) && At(i) && i < NBUF && bc.bufs[i].held && bc.bufs[i].blockno in pins
      modifies this`mem, this`dirty
      ensures Coherent(pins)
      ensures mem == old(mem)[bc.bufs[i].blockno := bc.bufs[i].data] && dirty == old(dirty) - {i}
    {
      mem := mem[bc.bufs[i].blockno := bc.bufs[i].data];
      dirty := dirty - {i};
    }

    /** The branch of log_write that adds a block to the transaction, at the cost of one unit of
        the operation's reservation. */
    method Join(op: nat, i: nat)
      requires Inv() && At(i) && i < NBUF && bc.bufs[i].held && IsHome(start, |bc.disk|, bc.bufs[i].blockno)
      requires |lh| < LOGBLOCKS && bc.bufs[i].blockno !in lh && op in budget && budget[op] > 0
      modifies bc`bufs, this`mem, this`dirty, this`lh, this`budget
      ensures Inv() && |old(bc.bufs)| == NBUF
      ensures var was := old(bc.bufs)[i];
              && mem == old(mem)[was.blockno := was.data] && dirty == old(dirty) - {i}
              && lh == old(lh) + [was.blockno] && budget == old(budget)[op := old(budget)[op] - 1]
              && bc.bufs == old(bc.bufs)[i := was.(refcnt := was.refcnt + 1)]
    {
      var b := bc.bufs[i].blockno;
      TotalRemove(budget, op);
      TotalUpdate(budget, op, budget[op] - 1);
      TailAppend(lh, b);
      TransactionAppend(start, |bc.disk|, lh, b);
      PinNew(i, Tail(lh, 0));
      lh := lh + [b];
      budget := budget[op := budget[op] - 1];
    }

    /** log_write on behalf of operation op.  False is one of its two panics: the log is full, or
        there is no transaction. */
    method LogWrite(op: nat, i: nat) returns (ok: bool)
      requires Inv() && At(i) && i < NBUF && bc.bufs[i].held && IsHome(start, |bc.disk|, bc.bufs[i].blockno)
      requires op in budget && (bc.bufs[i].blockno in lh || budget[op] > 0)
      modifies bc`bufs, this`mem, this`dirty, this`lh, this`budget
      ensures ok <==> |old(lh)| < LOGBLOCKS
      ensures old(budget)[op] > 0 ==> ok
      ensures ok ==>
                var was := old(bc.bufs)[i]; var b, left := was.blockno, old(budget)[op];
                && Inv() && mem == old(mem)[b := was.data] && dirty == old(dirty) - {i}
                && (if b in old(lh) then lh == old(lh) && budget == old(budget) && bc.bufs == old(bc.bufs)
                    else lh == old(lh) + [b] && left > 0 && budget == old(budget)[op := left - 1] &&
                         bc.bufs == old(bc.bufs)[i := was.(refcnt := was.refcnt + 1)])
    {
      TotalRemove(budget, op);
      assert outstanding > 0 by { assert budget != map[]; }
      if |lh| >= LOGBLOCKS { return false; }
      if outstanding < 1 { return false; }
      var b := bc.bufs[i].blockno;
      var k := 0;
      while k < |lh| && lh[k] != b
        invariant 0 <= k <= |lh| && b !in lh[..k]
      {
        k := k + 1;
      }
      if k < |lh| {
        Absorb(i, Tail(lh, 0));
      } else {
        assert lh[..k] == lh;
        Join(op, i);
      }
      return true;
    }

    /** bread, then change b->data. */
    method FetchAndModify(b: nat, data: Data) returns (r: Option<nat>)
      requires Inv() && Pin(b) && b < |bc.disk| && Unheld(bc.bufs, ROOTDEV, b)
      modifies bc`bufs, this`dirty
      ensures SomeFree(old(bc.bufs)) ==> r.Some?
      ensures r.Some? ==>
                var i, was := r.value, old(bc.bufs);
                && Inv() && At(i) && i < NBUF && !was[i].held && dirty == old(dirty) + {i} && i !in old(dirty)
                && bc.bufs == was[i := Buf(true, ROOTDEV, b, was[i].refcnt + 1, true, data)]
    {
      r := Fetch(b);
      if r.Some? {
        Modify(r.value, data);
      }
    }

    /** The typical use: bread, change b->data, log_write, brelse.  The new contents are what any
        later bread returns; the disk does not change.  False is a panic on the way. */
    method Update(op: nat, b: nat, data: Data) returns (ok: bool)
      requires Inv() && Pin(b) && IsHome(start, |bc.disk|, b) && Unheld(bc.bufs, ROOTDEV, b)
      requires op in budget && budget[op] > 0
      modifies bc`bufs, bc`lru, this`mem, this`dirty, this`lh, this`budget
      ensures SomeFree(old(bc.bufs)) ==> ok
      ensures ok ==>
                && Inv() && SameHolders(bc.bufs, old(bc.bufs))
                && mem == old(mem)[b := data] && dirty == old(dirty)
                && (if b in old(lh) then lh == old(lh) && budget == old(budget)
                    else lh == old(lh) + [b] && budget == old(budget)[op := old(budget)[op] - 1])
    {
      hide History, Distinct;
      var i := FetchAndModify(b, data);
      if i.None? { return false; }
      ok := LogWrite(op, i.value);
      Done(i.value);
    }

    /** The commit about to be written adds one state. */
    ghost method RecordCommit()
      requires Coherent(Tail(lh, 0)) && IsTransaction(start, |bc.disk|, lh)
      requires Readable(bc.disk, start) && Pending(bc.disk, start) == [] && Recorded()
      modifies this`states, this`at
      ensures states == old(states) + [mem]
      ensures History(bc.images + CommitImages(bc.disk, start, lh, mem), at, states, start)
    {
      assert DiskOk(bc.disk, mem, Tail(lh, 0)) && |states| > 0;
      hide *;
      OnlyLoggedDiffer(bc.disk, mem, start, lh);
      HistoryGrows(bc.images, at, states, bc.disk, start, lh, mem);
      at, states := at + Marks(|lh|, |states| - 1), states + [mem];
    }

    /** commit, with the state it adds to the history of the disk. */
    method CommitRecorded() returns (ok: bool)
      requires Coherent(Tail(lh, 0)) && IsTransaction(start, |bc.disk|, lh)
      requires Readable(bc.disk, start) && Pending(bc.disk, start) == [] && Recorded()
      requires CommitBlocksUnheld(bc.bufs, start, lh)
      modifies bc, this`mem, this`lh, this`states, this`at
      ensures ok <==> old(lh) == [] || SomeFree(old(bc.bufs))
      ensures ok ==>
                && lh == [] && Coherent({}) && Recorded()
                && Readable(bc.disk, start) && Pending(bc.disk, start) == [] && |bc.disk| == |old(bc.disk)|
                && (forall b :: IsHome(start, |mem|, b) ==> mem[b] == old(mem)[b])
                && bc.images == old(bc.images) +
                                (if old(lh) == [] then [] else CommitImages(old(bc.disk), start, old(lh), old(mem)))
                && states == old(states) + (if old(lh) == [] then [] else [old(mem)])
    {
      hide History, CommitImages, IsTransaction, Distinct, CommitBlocksUnheld, SomeFree, BufsOk, PinsCached,
          OneBufferPerBlock;
      if lh != [] {
        RecordCommit();
      }
      ok := Commit();
    }

    /** end_op up to its test: what the operation had reserved is given back. */
    method Leave(op: nat)
      requires Inv() && op in budget
      modifies this`outstanding, this`budget
      ensures Inv() && outstanding == old(outstanding) - 1 && budget == old(budget) - {op}
    {
      TotalRemove(budget, op);
      assert (budget - {op}).Keys == budget.Keys - {op};
      hide History, Distinct, BufsOk, PinsCached, OneBufferPerBlock;
      budget := budget - {op};
      outstanding := outstanding - 1;
    }

    /** end_op: the last operation out commits. */
    method EndOp(op: nat) returns (r: EndResult)
      requires Inv() && op in budget && CommitBlocksUnheld(bc.bufs, start, lh)
      modifies bc, this
      ensures r.Waiting? <==> old(outstanding) > 1
      ensures r.Panicked? <==> old(outstanding) == 1 && old(lh) != [] && !SomeFree(old(bc.bufs))
      ensures !r.Panicked? ==> Inv() && outstanding == old(outstanding) - 1 && budget == old(budget) - {op}
      ensures r.Waiting? ==>
                  lh == old(lh) && mem == old(mem) && bc.bufs == old(bc.bufs) && bc.disk == old(bc.disk)
                      && bc.images == old(bc.images)
      ensures r.Committed? ==>
                && lh == [] && |bc.disk| == |old(bc.disk)|
                && (forall b :: IsHome(start, |mem|, b) ==> mem[b] == old(mem)[b] && bc.disk[b] == mem[b])
                && bc.images == old(bc.images) +
                                (if old(lh) == [] then [] else CommitImages(old(bc.disk), start, old(lh), old(mem)))
                && states == old(states) + (if old(lh) == [] then [] else [old(mem)])
      ensures r.Waiting? ==> states == old(states)
    {
      hide History, CommitImages, Distinct, BufsOk, PinsCached, OneBufferPerBlock, BufsInRange, LruOrder;
      Leave(op);
      if outstanding > 0 {
        return Waiting;
      }
      committing := true;
      var ok := CommitRecorded();
      if !ok { return Panicked; }
      committing := false;
      assert Tail([], 0) == {};
      return Committed;
    }
  }

  // How many blocks a transaction may log before commit can no longer run

  ghost function Referenced(bufs: seq<Buf>): set<nat> {
    set i: nat | i < |bufs| && bufs[i].refcnt > 0
  }

  ghost function BlocksOf(bufs: seq<Buf>, s: set<nat>): set<int>
    requires forall i :: i in s ==> 0 <= i < |bufs|
  {
    set i | i in s :: bufs[i].blockno
  }

  /** Buffers of one device are as many as the blocks they hold. */
  lemma {:induction false} BlocksCount(bufs: seq<Buf>, s: set<nat>)
    requires OneBufferPerBlock(bufs)
    requires forall i :: i in s ==> 0 <= i < |bufs| && bufs[i].dev == ROOTDEV
    ensures |BlocksOf(bufs, s)| == |s|
    decreases |s|
  {
    if |s| > 0 {
      var i :| i in s;
      var rest := s - {i};
      BlocksCount(bufs, rest);
      if bufs[i].blockno in BlocksOf(bufs, rest) {
        var j :| j in rest && bufs[j].blockno == bufs[i].blockno;
        assert At(i) && At(j);
      }
      assert BlocksOf(bufs, s) == BlocksOf(bufs, rest) + {bufs[i].blockno};
    }
  }

  lemma {:induction false} TailCount(lh: seq<int>, k: nat)
    requires Distinct(lh) && k <= |lh|
    ensures |Tail(lh, k)| == |lh| - k
    decreases |lh| - k
  {
    if k < |lh| {
      TailCount(lh, k + 1);
      TailStep(lh, k);
    } else {
      assert Tail(lh, k) == {};
    }
  }

  lemma {:induction false} UpTo(n: nat, s: set<nat>)
    requires forall i :: i in s ==> 0 <= i < n
    ensures |s| <= n
  {
    if n == 0 {
      assert s == {};
    } else {
      var rest := s - {n - 1};
      UpTo(n - 1, rest);
      assert |rest| == if n - 1 in s then |s| - 1 else |s|;
    }
  }

  /** While nobody holds a buffer, one is free exactly when fewer blocks are logged than there are
      buffers.  LOGBLOCKS equals NBUF, so the reservation of begin_op admits a transaction that
      commit cannot write. */
  lemma FreeWhileLogSmall(log: Log)
    requires log.Inv() && NothingHeld(log.bc.bufs)
    ensures SomeFree(log.bc.bufs) <==> |log.lh| < NBUF
  {
    var bufs, pins := log.bc.bufs, Tail(log.lh, 0);
    var used := Referenced(bufs);
    forall i | i in used
      ensures 0 <= i < |bufs| && bufs[i].dev == ROOTDEV && bufs[i].blockno in pins
    {
      assert At(i);
    }
    forall b | b in pins
      ensures b in BlocksOf(bufs, used)
    {
      assert Pin(b);
      var i :| At(i) && 0 <= i < |bufs| && bufs[i].Caches(ROOTDEV, b);
      assert i in used;
    }
    BlocksCount(bufs, used);
    assert BlocksOf(bufs, used) == pins;
    TailCount(log.lh, 0);
    if SomeFree(bufs) {
      var i: nat :| At(i) && i < |bufs| && bufs[i].refcnt == 0;
      UpTo(NBUF, used + {i});
    } else {
      forall i | 0 <= i < NBUF
        ensures i in used
      {
        assert At(i);
      }
      AllUpTo(NBUF, used);
    }
  }

  ghost predicate NothingHeld(bufs: seq<Buf>) {
    forall i {:trigger At(i)} :: At(i) && 0 <= i < |bufs| ==> !bufs[i].held
  }

  /** What operation p has left when the operations have logged k blocks in turn. */
  function Left(p: nat, k: nat): nat {
    if k < 10 * p then 10 else if k < 10 * p + 10 then 10 * p + 10 - k else 0
  }

  function Budgets(k: nat): map<nat, nat> {
    map[0 := Left(0, k), 1 := Left(1, k), 2 := Left(2, k)]
  }

  lemma BudgetsStep(k: nat, op: nat)
    requires k < 30 && op == k / 10
    ensures op in Budgets(k) && Budgets(k)[op] > 0 && Budgets(k + 1) == Budgets(k)[op := Budgets(k)[op] - 1]
  {
  }

  /** Where the run below stands: three operations have together logged the k blocks after the log. */
  ghost predicate Filled(log: Log, k: nat)
    reads log, log.bc
  {
    && log.Inv() && NothingHeld(log.bc.bufs) && log.outstanding == 3 && |log.lh| == k
    && (forall j :: 0 <= j < k ==> log.lh[j] == log.start + LOGBLOCKS + 1 + j)
    && log.budget == Budgets(k)
  }

  method FillOne(log: Log, k: nat)
    requires Filled(log, k) && k < NBUF && log.start + 2 * LOGBLOCKS < |log.bc.disk|
    modifies log, log.bc
    ensures Filled(log, k + 1) && log.bc.disk == old(log.bc.disk)
  {
    FreeWhileLogSmall(log);
    var b := log.start + LOGBLOCKS + 1 + k;
    assert Pin(b) && b !in log.lh;
    var op := k / 10;
    BudgetsStep(k, op);
    var logged := log.Update(op, b, []);
  }

  /** A run the reservation allows and commit does not: three operations log ten blocks each and the
      last end_op panics for want of a buffer. */
  method FullTransactionPanics(log: Log) returns (r: EndResult)
    requires log.Inv() && log.lh == [] && log.budget == map[] && NothingHeld(log.bc.bufs)
    requires log.start + 2 * LOGBLOCKS < |log.bc.disk|
    modifies log, log.bc
    ensures r.Panicked?
  {
    hide BufsOk, PinsCached, OneBufferPerBlock, History, Distinct;
    var started := log.BeginOp(0);
    started := log.BeginOp(1);
    started := log.BeginOp(2);
    var k := 0;
    while k < NBUF
      invariant 0 <= k <= NBUF && Filled(log, k) && log.bc.disk == old(log.bc.disk)
    {
      FillOne(log, k);
      k := k + 1;
    }
    r := ThreeEnd(log);
  }

  method ThreeEnd(log: Log) returns (r: EndResult)
    requires Filled(log, NBUF)
    modifies log, log.bc
    ensures r.Panicked?
  {
    FreeWhileLogSmall(log);
    assert !SomeFree(log.bc.bufs) && CommitBlocksUnheld(log.bc.bufs, log.start, log.lh);
    hide SomeFree, CommitBlocksUnheld, BufsOk, PinsCached, OneBufferPerBlock, History, Distinct;
    r := log.EndOp(0);
    r := log.EndOp(1);
    r := log.EndOp(2);
  }

  lemma {:induction false} AllUpTo(n: nat, s: set<nat>)
    requires forall i :: 0 <= i < n ==> i in s
    ensures |s| >= n
  {
    if n > 0 {
      AllUpTo(n - 1, s - {n - 1});
    }
  }

  lemma TailAppend(lh: seq<int>, b: int)
    ensures Tail(lh + [b], 0) == Tail(lh, 0) + {b}
  {
    var now := lh + [b];
    forall x | x in Tail(lh, 0) + {b}
      ensures x in Tail(now, 0)
    {
      if x in Tail(lh, 0) {
        var j :| 0 <= j < |lh| && lh[j] == x;
        assert now[j] == x;
      } else {
        assert now[|lh|] == x;
      }
    }
  }

  lemma TransactionAppend(start: nat, size: nat, lh: seq<int>, b: int)
    requires IsTransaction(start, size, lh) && |lh| < LOGBLOCKS && b !in lh && IsHome(start, size, b)
    ensures IsTransaction(start, size, lh + [b])
  {
    var now := lh + [b];
    forall i, j | 0 <= i < j < |now|
      ensures now[i] != now[j]
    {
      if j < |lh| { DistinctMeansDifferent(lh, i, j); }
    }
    DifferentMeansDistinct(now);
  }

  lemma AppendRecoveryImages(d: Disk, start: nat, imgs: seq<Disk>)
    requires Readable(d, start)
    ensures var hs := Pending(d, start);
            imgs + InstallImages(d, start, hs, |hs|) + [Recovered(d, start)] == imgs + RecoveryImages(d, start)[1..]
  {
  }

  lemma AppendCommitImages(d: Disk, start: nat, hs: seq<int>, m: Disk, imgs: seq<Disk>)
    requires Readable(d, start) && |m| == |d| && IsTransaction(start, |d|, hs)
    ensures var c := Headed(d, start, hs, m);
            imgs + (LogImages(d, start, hs, m, |hs|) + [c]) + RecoveryImages(c, start)[1..] ==
            imgs + CommitImages(d, start, hs, m)
  {
  }

  lemma RecoveredSize(d: Disk, start: nat, hs: seq<int>, m: Disk)
    requires Readable(d, start) && |m| == |d| && IsTransaction(start, |d|, hs)
    ensures |Recovered(Headed(d, start, hs, m), start)| == |d|
  {
    ClearedKeepsLogical(Headed(d, start, hs, m), start);
  }

  /** The two halves of commit put together. */
  lemma CommitDone(d: Disk, m: Disk, start: nat, hs: seq<int>, imgs: seq<Disk>, disk: Disk, mem: Disk,
                   images: seq<Disk>)
    requires Readable(d, start) && |m| == |d| && IsTransaction(start, |d|, hs)
    requires var c := Headed(d, start, hs, m);
             && disk == Recovered(c, start) && |disk| == |d|
             && mem == Logged(m, start, hs, m, |hs|)[start := c[start]][start := disk[start]]
             && images == imgs + (LogImages(d, start, hs, m, |hs|) + [c]) + RecoveryImages(c, start)[1..]
    ensures Readable(disk, start) && Pending(disk, start) == [] && |mem| == |d|
    ensures forall b :: IsHome(start, |mem|, b) ==> mem[b] == m[b]
    ensures images == imgs + CommitImages(d, start, hs, m) && disk == images[|images| - 1]
  {
    ClearedKeepsLogical(Headed(d, start, hs, m), start);
    AppendCommitImages(d, start, hs, m, imgs);
    LoggedKeepsHome(m, start, hs, m);
    hide LogImages, CommitImages, RecoveryImages, Recovered, Logged, Headed;
  }

  lemma LoggedKeepsHome(d: Disk, start: nat, hs: seq<int>, m: Disk)
    requires start + LOGBLOCKS < |d| == |m| && IsTransaction(start, |d|, hs)
    ensures forall b :: IsHome(start, |d|, b) ==> Logged(d, start, hs, m, |hs|)[b] == d[b]
  {
    forall b | IsHome(start, |d|, b)
      ensures Logged(d, start, hs, m, |hs|)[b] == d[b]
    {
      LoggedAt(d, start, hs, m, |hs|, b);
    }
  }

  /** The blocks install_trans will copy are the ones write_log stored. */
  lemma HeadedBlocks(d: Disk, start: nat, hs: seq<int>, m: Disk)
    requires Readable(d, start) && |m| == |d| && IsTransaction(start, |d|, hs)
    ensures forall k :: 0 <= k < |hs| ==>
              Headed(d, start, hs, m)[start + 1 + k] == Logged(m, start, hs, m, |hs|)[hs[k]]
  {
    forall k | 0 <= k < |hs|
      ensures Headed(d, start, hs, m)[start + 1 + k] == Logged(m, start, hs, m, |hs|)[hs[k]]
    {
      HeadedBlockAt(d, start, hs, m, k);
    }
  }

  lemma HeadedBlockAt(d: Disk, start: nat, hs: seq<int>, m: Disk, k: nat)
    requires Readable(d, start) && |m| == |d| && IsTransaction(start, |d|, hs) && k < |hs|
    ensures hs[k] < |m| && Headed(d, start, hs, m)[start + 1 + k] == Logged(m, start, hs, m, |hs|)[hs[k]]
  {
    assert IsHome(start, |d|, hs[k]) && !(start < hs[k] <= start + |hs|);
    assert Headed(d, start, hs, m)[start + 1 + k] == Logged(d, start, hs, m, |hs|)[start + 1 + k];
    hide Headed, Logged, Readable, WriteHeader, Distinct;
    LoggedAt(d, start, hs, m, |hs|, start + 1 + k);
    LoggedAt(m, start, hs, m, |hs|, hs[k]);
  }
}
