/** A file-system operation as a transaction: fs.c decides which blocks change and tells log_write,
    log.c makes the change atomic.  Together an operation of filewrite is all or nothing. */
module ChunkCrash {
  import opened RedoLog
  import opened FileSystem
  import BlockBytes
  import Volume

  /** How a block and the sixteen inodes of an inode block are stored as words. */
  datatype Layout = Layout(words: BlockBytes.Block -> Data, inodeWords: seq<Volume.Inode> -> Data)

  /** What is on disk besides the log: blocks and inodes. */
  datatype OnDisk = OnDisk(blocks: seq<BlockBytes.Block>, dinodes: seq<Volume.Inode>)

  function InodesIn(dinodes: seq<Volume.Inode>, k: nat): seq<Volume.Inode> {
    if |dinodes| < IPB * k then [] else dinodes[IPB * k..if |dinodes| < IPB * k + IPB then |dinodes| else IPB * k + IPB]
  }

  /** The contents of disk block b. */
  function Shown(lay: Layout, sb: Volume.Super, s: OnDisk, b: nat): Data
    requires b < |s.blocks|
  {
    if sb.inodestart <= b < sb.bmapstart then lay.inodeWords(InodesIn(s.dinodes, b - sb.inodestart))
    else lay.words(s.blocks[b])
  }

  /** Every home block of the disk holds s. */
  ghost predicate Holds(d: Disk, start: nat, lay: Layout, sb: Volume.Super, s: OnDisk) {
    && |s.blocks| == |d| == sb.size
    && forall b :: IsHome(start, |d|, b) ==> d[b] == Shown(lay, sb, s, b)
  }

  /** fs.c's side of an operation from s to t: every change was passed to log_write. */
  ghost predicate Operation(sb: Volume.Super, s: OnDisk, t: OnDisk, logged: set<nat>) {
    AllLogged(sb, s.blocks, t.blocks, {}, logged) && InodesLogged(sb, s.dinodes, t.dinodes, logged)
  }

  /** A block that was not logged shows the same before and after. */
  lemma UnloggedSame(lay: Layout, sb: Volume.Super, s: OnDisk, t: OnDisk, logged: set<nat>, b: nat)
    requires Operation(sb, s, t, logged) && b < |s.blocks| && b !in logged
    ensures Shown(lay, sb, t, b) == Shown(lay, sb, s, b)
  {
    if sb.inodestart <= b < sb.bmapstart {
      var k := b - sb.inodestart;
      forall j | IPB * k <= j < IPB * k + IPB && j < |s.dinodes|
        ensures t.dinodes[j] == s.dinodes[j]
      {
        assert j / IPB == k;
      }
      assert InodesIn(t.dinodes, k) == InodesIn(s.dinodes, k);
    } else {
      assert t.blocks[b] == s.blocks[b];
    }
  }

  /** The log area lies before everything file-system operations log, so all of it can be logged. */
  lemma LoggedAreHome(sb: Volume.Super, start: nat, s: OnDisk, t: OnDisk, logged: set<nat>, b: nat)
    requires Operation(sb, s, t, logged) && start + LOGBLOCKS < sb.inodestart && b in logged
    ensures IsHome(start, sb.size, b)
  {
    assert AtLogged(b);
  }

  /** Commit the blocks an operation logged, stop after any k block writes, and let any number of
      recoveries be cut short before one completes.  The disk then holds all of the state before the
      operation, or, once the header was written, all of the state after it. */
  lemma OperationIsAtomic(lay: Layout, sb: Volume.Super, start: nat, s: OnDisk, t: OnDisk, logged: set<nat>,
                          d: Disk, mem: Disk, hs: seq<int>, k: nat, ds: seq<Disk>)
    requires Operation(sb, s, t, logged) && Holds(d, start, lay, sb, s) && Holds(mem, start, lay, sb, t)
    requires Readable(d, start) && Pending(d, start) == [] && IsTransaction(start, |d|, hs)
    requires (forall b: nat :: b in logged ==> b in hs) && k <= 2 * |hs| + 2
    requires CrashChain(ds, start) && ds[0] == ([d] + CommitImages(d, start, hs, mem))[k]
    ensures SameLogical(ds[0], ds[|ds| - 1], start)
    ensures var final := Recovered(ds[|ds| - 1], start);
            && Readable(final, start) && Pending(final, start) == []
            && Holds(final, start, lay, sb, if k > |hs| then t else s)
  {
    CommitIsAtomic(d, start, hs, mem, k, ds);
    var final := Recovered(ds[|ds| - 1], start);
    forall b | IsHome(start, |d|, b)
      ensures final[b] == Shown(lay, sb, if k > |hs| then t else s, b)
    {
      if b !in hs {
        UnloggedSame(lay, sb, s, t, logged, b);
      }
    }
  }

  /** One operation of filewrite, with the log's room for it and the crash theorem that applies. */
  method ChunkIsOperation(fs: Fs, ghost v: Volume.Vol, ip: nat, off: nat, data: seq<BlockBytes.Byte>, i: nat, n1: nat)
    returns (r: int)
    requires fs.Valid() && ip < |fs.inodes| == |v.inodes| && off + i < UINT && fs.logged == {}
    requires i + n1 <= |data| < UINT && n1 <= CHUNK && Appended(v, fs.View(), ip, off, data[..i])
    modifies fs`blocks, fs`logged, fs`inodes, fs`owner, fs`dinodes
    ensures Operation(fs.sb, OnDisk(old(fs.blocks), old(fs.dinodes)), OnDisk(fs.blocks, fs.dinodes), fs.logged)
    ensures fs.sb.size <= BlockBytes.BPB ==> |fs.logged| <= MAXOPBLOCKS
    ensures -1 <= r <= n1 && Appended(v, fs.View(), ip, off, data[..i + (if r < 0 then 0 else r)])
  {
    r := fs.WriteChunk(v, ip, off, data, i, n1);
  }
}
