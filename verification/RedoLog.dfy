/** What a disk image means across a crash: the redo log of log.c read as a function of the disk.

    A block write is atomic and everything else is lost in a crash, so a crash point is one of the
    disk images a run leaves behind.  `LogicalAt` is the contents a home block has once recovery has
    finished; the lemmas say that recovery, interrupted any number of times, never changes it. */
module RedoLog {

  const LOGBLOCKS: nat := 30
  const WORDS: nat := 256  // a 1024-byte block as 32-bit words

  type Data = seq<int>  // the words of one block
  type Disk = seq<Data>

  /** The log area is the header block followed by LOGBLOCKS log blocks. */
  predicate InLog(start: nat, b: int) {
    start <= b <= start + LOGBLOCKS
  }

  predicate IsHome(start: nat, size: nat, b: int) {
    0 <= b < size && !InLog(start, b)
  }

  ghost function Index(blocks: seq<int>, b: int): (i: nat)
    requires b in blocks
    ensures i < |blocks| && blocks[i] == b
  {
    var i :| 0 <= i < |blocks| && blocks[i] == b; i
  }

  ghost predicate Distinct(blocks: seq<int>) {
    forall k :: 0 <= k < |blocks| ==> Index(blocks, blocks[k]) == k
  }

  lemma DistinctMeansDifferent(blocks: seq<int>, i: nat, j: nat)
    requires Distinct(blocks) && i < j < |blocks|
    ensures blocks[i] != blocks[j]
  {
  }

  lemma DifferentMeansDistinct(blocks: seq<int>)
    requires forall i, j :: 0 <= i < j < |blocks| ==> blocks[i] != blocks[j]
    ensures Distinct(blocks)
  {
  }

  /** A transaction: distinct home blocks that fit the log. */
  ghost predicate IsTransaction(start: nat, size: nat, blocks: seq<int>) {
    && |blocks| <= LOGBLOCKS
    && (forall i :: 0 <= i < |blocks| ==> IsHome(start, size, blocks[i]))
    && Distinct(blocks)
  }

  /** struct logheader: word 0 is n, words 1..n are the home block numbers; the rest is stale. */
  function HeaderBlocks(h: Data): seq<int>
    requires |h| == WORDS && 0 <= h[0] <= LOGBLOCKS
  {
    h[1..1 + h[0]]
  }

  /** The header block write_head produces: only n and the first n numbers are overwritten. */
  function WriteHeader(h: Data, blocks: seq<int>): (r: Data)
    requires |h| == WORDS && |blocks| <= LOGBLOCKS
    ensures |r| == WORDS && r[0] == |blocks| && HeaderBlocks(r) == blocks
    ensures r[1 + |blocks|..] == h[1 + |blocks|..]
  {
    [|blocks|] + blocks + h[1 + |blocks|..]
  }

  /** The disk holds a readable log: a header naming a transaction. */
  ghost predicate Readable(d: Disk, start: nat) {
    && start + LOGBLOCKS < |d|
    && |d[start]| == WORDS && 0 <= d[start][0] <= LOGBLOCKS
    && IsTransaction(start, |d|, HeaderBlocks(d[start]))
  }

  ghost function Pending(d: Disk, start: nat): seq<int>
    requires Readable(d, start)
  {
    HeaderBlocks(d[start])
  }

  /** What home block b holds after recovery runs to completion from d. */
  ghost function LogicalAt(d: Disk, start: nat, b: int): Data
    requires Readable(d, start) && IsHome(start, |d|, b)
  {
    var hs := Pending(d, start);
    if b in hs then d[start + 1 + Index(hs, b)] else d[b]
  }

  /** Two images that recover to the same home blocks. */
  ghost predicate SameLogical(d: Disk, e: Disk, start: nat) {
    && Readable(d, start) && Readable(e, start) && |d| == |e|
    && forall b :: IsHome(start, |d|, b) ==> LogicalAt(e, start, b) == LogicalAt(d, start, b)
  }

  /** The image after the first k home blocks have been copied out of the log. */
  ghost function Installed(d: Disk, start: nat, hs: seq<int>, k: nat): (e: Disk)
    requires k <= |hs| <= LOGBLOCKS && start + LOGBLOCKS < |d|
    requires IsTransaction(start, |d|, hs)
    ensures |e| == |d|
  {
    if k == 0 then d else Installed(d, start, hs, k - 1)[hs[k - 1] := d[start + k]]
  }

  lemma {:induction false} InstalledAt(d: Disk, start: nat, hs: seq<int>, k: nat, b: nat)
    requires k <= |hs| <= LOGBLOCKS && start + LOGBLOCKS < |d|
    requires IsTransaction(start, |d|, hs) && b < |d|
    ensures Installed(d, start, hs, k)[b] == if b in hs && Index(hs, b) < k then d[start + 1 + Index(hs, b)] else d[b]
  {
    if k > 0 {
      InstalledAt(d, start, hs, k - 1, b);
      assert Index(hs, hs[k - 1]) == k - 1;
    }
  }

  /** The images of the first k installs. */
  ghost function InstallImages(d: Disk, start: nat, hs: seq<int>, k: nat): (r: seq<Disk>)
    requires k <= |hs| <= LOGBLOCKS && start + LOGBLOCKS < |d|
    requires IsTransaction(start, |d|, hs)
    ensures |r| == k
  {
    if k == 0 then [] else InstallImages(d, start, hs, k - 1) + [Installed(d, start, hs, k)]
  }

  lemma {:induction false} InstallImageAt(d: Disk, start: nat, hs: seq<int>, k: nat, i: nat)
    requires i < k <= |hs| <= LOGBLOCKS && start + LOGBLOCKS < |d|
    requires IsTransaction(start, |d|, hs)
    ensures InstallImages(d, start, hs, k)[i] == Installed(d, start, hs, i + 1)
  {
    if i < k - 1 {
      InstallImageAt(d, start, hs, k - 1, i);
    }
  }

  /** Every image recovery leaves behind: the n installs one by one, then the cleared header. */
  ghost function RecoveryImages(d: Disk, start: nat): (r: seq<Disk>)
    requires Readable(d, start)
    ensures |r| == |Pending(d, start)| + 2 && r[0] == d
  {
    var hs := Pending(d, start);
    var done := Installed(d, start, hs, |hs|);
    InstalledAt(d, start, hs, |hs|, start);
    [d] + InstallImages(d, start, hs, |hs|) + [done[start := WriteHeader(done[start], [])]]
  }

  ghost function Recovered(d: Disk, start: nat): Disk
    requires Readable(d, start)
  {
    var r := RecoveryImages(d, start);
    r[|r| - 1]
  }

  lemma InstalledLogicalAt(d: Disk, start: nat, k: nat, b: nat)
    requires Readable(d, start) && k <= |Pending(d, start)| && IsHome(start, |d|, b)
    requires Readable(Installed(d, start, Pending(d, start), k), start)
    requires Pending(Installed(d, start, Pending(d, start), k), start) == Pending(d, start)
    ensures LogicalAt(Installed(d, start, Pending(d, start), k), start, b) == LogicalAt(d, start, b)
  {
    var hs := Pending(d, start);
    InstalledAt(d, start, hs, k, b);
    if b in hs {
      InstalledAt(d, start, hs, k, start + 1 + Index(hs, b));
    }
    hide Installed, Index, Pending, Readable;
  }

  /** Installing any prefix keeps the log area, so the image still recovers to the same blocks. */
  lemma InstalledKeepsLogical(d: Disk, start: nat, k: nat)
    requires Readable(d, start) && k <= |Pending(d, start)|
    ensures SameLogical(d, Installed(d, start, Pending(d, start), k), start)
  {
    var hs := Pending(d, start);
    var e := Installed(d, start, hs, k);
    InstalledAt(d, start, hs, k, start);
    assert Readable(e, start) && Pending(e, start) == hs;
    hide Installed, Index, Pending, LogicalAt;
    forall b | IsHome(start, |d|, b)
      ensures LogicalAt(e, start, b) == LogicalAt(d, start, b)
    {
      InstalledLogicalAt(d, start, k, b);
    }
  }

  lemma ClearedKeepsLogical(d: Disk, start: nat)
    requires Readable(d, start)
    ensures SameLogical(d, Recovered(d, start), start)
    ensures Pending(Recovered(d, start), start) == []
    ensures forall b :: IsHome(start, |d|, b) ==> Recovered(d, start)[b] == LogicalAt(d, start, b)
  {
    var hs := Pending(d, start);
    var e := Recovered(d, start);
    InstalledAt(d, start, hs, |hs|, start);
    hide Installed, Index, InstallImages;
    assert Pending(e, start) == [];
    forall b | IsHome(start, |d|, b)
      ensures e[b] == LogicalAt(d, start, b)
    {
      InstalledAt(d, start, hs, |hs|, b);
    }
  }

  /** A crash anywhere during recovery loses nothing and adds nothing. */
  lemma RecoveryImageKeepsLogical(d: Disk, start: nat, k: nat)
    requires Readable(d, start) && k < |RecoveryImages(d, start)|
    ensures SameLogical(d, RecoveryImages(d, start)[k], start)
  {
    var hs := Pending(d, start);
    if k <= |hs| {
      if k > 0 {
        InstallImageAt(d, start, hs, |hs|, k - 1);
      }
      InstalledKeepsLogical(d, start, k);
    } else {
      ClearedKeepsLogical(d, start);
    }
  }

  /** A chain of interrupted recoveries: each image is where the recovery of the one before stopped. */
  ghost predicate CrashChain(ds: seq<Disk>, start: nat) {
    && |ds| > 0 && Readable(ds[0], start)
    && forall i :: 0 <= i < |ds| - 1 ==> Readable(ds[i], start) && ds[i + 1] in RecoveryImages(ds[i], start)
  }

  /** However often recovery is cut short, the recovery that finally completes produces exactly the
      home blocks that the first image promised, and leaves an empty log. */
  lemma {:induction false} CrashChainRecovers(ds: seq<Disk>, start: nat)
    requires CrashChain(ds, start)
    ensures SameLogical(ds[0], ds[|ds| - 1], start)
    ensures var final := Recovered(ds[|ds| - 1], start);
            && Readable(final, start) && Pending(final, start) == []
            && |final| == |ds[0]|
            && forall b :: IsHome(start, |ds[0]|, b) ==> final[b] == LogicalAt(ds[0], start, b)
    decreases |ds|
  {
    if |ds| > 1 {
      var front := ds[..|ds| - 1];
      CrashChainRecovers(front, start);
      var p := front[|front| - 1];
      assert p == ds[|ds| - 2];
      assert ds[|ds| - 2 + 1] in RecoveryImages(p, start);
      var k :| 0 <= k < |RecoveryImages(p, start)| && RecoveryImages(p, start)[k] == ds[|ds| - 1];
      RecoveryImageKeepsLogical(p, start, k);
    }
    ClearedKeepsLogical(ds[|ds| - 1], start);
  }

  // Commit

  /** The image after write_log has copied the first k blocks of `mem` into the log. */
  ghost function Logged(d: Disk, start: nat, hs: seq<int>, mem: Disk, k: nat): (e: Disk)
    requires k <= |hs| && start + LOGBLOCKS < |d| == |mem| && IsTransaction(start, |d|, hs)
    ensures |e| == |d|
  {
    if k == 0 then d else Logged(d, start, hs, mem, k - 1)[start + k := mem[hs[k - 1]]]
  }

  lemma {:induction false} LoggedAt(d: Disk, start: nat, hs: seq<int>, mem: Disk, k: nat, b: nat)
    requires k <= |hs| && start + LOGBLOCKS < |d| == |mem| && IsTransaction(start, |d|, hs) && b < |d|
    ensures Logged(d, start, hs, mem, k)[b] == if start < b <= start + k then mem[hs[b - start - 1]] else d[b]
  {
    if k > 0 {
      LoggedAt(d, start, hs, mem, k - 1, b);
    }
  }

  /** The images of the first k log block writes. */
  ghost function LogImages(d: Disk, start: nat, hs: seq<int>, mem: Disk, k: nat): (r: seq<Disk>)
    requires k <= |hs| && start + LOGBLOCKS < |d| == |mem| && IsTransaction(start, |d|, hs)
    ensures |r| == k
  {
    if k == 0 then [] else LogImages(d, start, hs, mem, k - 1) + [Logged(d, start, hs, mem, k)]
  }

  lemma {:induction false} LogImageAt(d: Disk, start: nat, hs: seq<int>, mem: Disk, k: nat, i: nat)
    requires i < k <= |hs| && start + LOGBLOCKS < |d| == |mem| && IsTransaction(start, |d|, hs)
    ensures LogImages(d, start, hs, mem, k)[i] == Logged(d, start, hs, mem, i + 1)
  {
    if i < k - 1 {
      LogImageAt(d, start, hs, mem, k - 1, i);
    }
  }

  /** The image the first header write leaves: the commit point. */
  ghost function Headed(d: Disk, start: nat, hs: seq<int>, mem: Disk): (c: Disk)
    requires Readable(d, start) && |mem| == |d| && IsTransaction(start, |d|, hs)
    ensures |c| == |d| && Readable(c, start) && Pending(c, start) == hs
  {
    var e := Logged(d, start, hs, mem, |hs|);
    LoggedAt(d, start, hs, mem, |hs|, start);
    e[start := WriteHeader(e[start], hs)]
  }

  /** Every image one commit of `hs` leaves behind: the n log blocks, the header, and then what
      recovery itself would write. */
  ghost function CommitImages(d: Disk, start: nat, hs: seq<int>, mem: Disk): (r: seq<Disk>)
    requires Readable(d, start) && |mem| == |d| && IsTransaction(start, |d|, hs)
    ensures |r| == 2 * |hs| + 2
  {
    LogImages(d, start, hs, mem, |hs|) + RecoveryImages(Headed(d, start, hs, mem), start)
  }

  /** What commit promises for home block b: the new contents once the header is out. */
  ghost function Outcome(d: Disk, hs: seq<int>, mem: Disk, b: nat, headerWritten: bool): Data
    requires b < |d| == |mem|
  {
    if headerWritten && b in hs then mem[b] else d[b]
  }

  lemma BeforeHeader(d: Disk, start: nat, hs: seq<int>, mem: Disk, k: nat)
    requires Readable(d, start) && |mem| == |d| && IsTransaction(start, |d|, hs)
    requires Pending(d, start) == [] && k <= |hs|
    ensures SameLogical(d, Logged(d, start, hs, mem, k), start)
  {
    LoggedAt(d, start, hs, mem, k, start);
    hide Logged, Index;
    forall b | IsHome(start, |d|, b)
      ensures Logged(d, start, hs, mem, k)[b] == d[b]
    {
      LoggedAt(d, start, hs, mem, k, b);
    }
  }

  lemma AfterHeader(d: Disk, start: nat, hs: seq<int>, mem: Disk, b: nat)
    requires Readable(d, start) && |mem| == |d| && IsTransaction(start, |d|, hs) && IsHome(start, |d|, b)
    ensures LogicalAt(Headed(d, start, hs, mem), start, b) == Outcome(d, hs, mem, b, true)
  {
    LoggedAt(d, start, hs, mem, |hs|, if b in hs then start + 1 + Index(hs, b) else b);
    hide Logged, Index, WriteHeader;
  }

  lemma CommitImageAt(d: Disk, start: nat, hs: seq<int>, mem: Disk, k: nat)
    requires Readable(d, start) && |mem| == |d| && IsTransaction(start, |d|, hs) && k <= 2 * |hs| + 2
    ensures ([d] + CommitImages(d, start, hs, mem))[k] ==
            if k <= |hs| then Logged(d, start, hs, mem, k)
            else RecoveryImages(Headed(d, start, hs, mem), start)[k - 1 - |hs|]
  {
    hide Headed, Installed, InstallImages, IsTransaction;
    if 0 < k <= |hs| {
      LogImageAt(d, start, hs, mem, |hs|, k - 1);
    }
  }

  /** After k block writes of a commit, recovery would produce the old blocks up to the header write
      and the new ones from it on. */
  lemma CommitImageLogical(d: Disk, start: nat, hs: seq<int>, mem: Disk, k: nat)
    requires Readable(d, start) && |mem| == |d| && IsTransaction(start, |d|, hs)
    requires Pending(d, start) == [] && k <= 2 * |hs| + 2
    ensures var image := ([d] + CommitImages(d, start, hs, mem))[k];
            && Readable(image, start) && |image| == |d|
            && forall b :: IsHome(start, |d|, b) ==>
                 LogicalAt(image, start, b) == Outcome(d, hs, mem, b, k > |hs|)
  {
    CommitImageAt(d, start, hs, mem, k);
    if k <= |hs| {
      BeforeHeader(d, start, hs, mem, k);
    } else {
      RecoveryImageKeepsLogical(Headed(d, start, hs, mem), start, k - 1 - |hs|);
      forall b | IsHome(start, |d|, b)
        ensures LogicalAt(Headed(d, start, hs, mem), start, b) == Outcome(d, hs, mem, b, true)
      {
        AfterHeader(d, start, hs, mem, b);
      }
    }
  }

  /** All or nothing: commit is cut after k block writes, the machine is then rebooted any number of
      times, each recovery cut short anywhere, until one completes.  Every home block then holds its
      old contents if the header write had not happened, and its new contents if it had. */
  lemma CommitIsAtomic(d: Disk, start: nat, hs: seq<int>, mem: Disk, k: nat, ds: seq<Disk>)
    requires Readable(d, start) && |mem| == |d| && IsTransaction(start, |d|, hs)
    requires Pending(d, start) == [] && k <= 2 * |hs| + 2
    requires CrashChain(ds, start) && ds[0] == ([d] + CommitImages(d, start, hs, mem))[k]
    ensures SameLogical(ds[0], ds[|ds| - 1], start)
    ensures var final := Recovered(ds[|ds| - 1], start);
            && Readable(final, start) && Pending(final, start) == [] && |final| == |d|
            && forall b :: IsHome(start, |d|, b) ==> final[b] == Outcome(d, hs, mem, b, k > |hs|)
  {
    CommitImageLogical(d, start, hs, mem, k);
    CrashChainRecovers(ds, start);
    var final := Recovered(ds[|ds| - 1], start);
    forall b | IsHome(start, |d|, b)
      ensures final[b] == Outcome(d, hs, mem, b, k > |hs|)
    {
      assert final[b] == LogicalAt(ds[0], start, b);
    }
  }

  // A whole run of commits

  /** The image recovers to the home blocks of state s. */
  ghost predicate RecoversTo(d: Disk, start: nat, s: Disk) {
    && Readable(d, start) && |s| == |d|
    && forall b :: IsHome(start, |d|, b) ==> LogicalAt(d, start, b) == s[b]
  }

  /** Image k of a run recovers to state at[k]; the states are passed in order and the last image is
      at the last of them. */
  ghost predicate History(images: seq<Disk>, at: seq<nat>, states: seq<Disk>, start: nat) {
    && |at| == |images| > 0 && |states| == at[|at| - 1] + 1
    && (forall i, j :: 0 <= i < j < |at| ==> at[i] <= at[j])
    && (forall k :: 0 <= k < |images| ==> at[k] < |states| && RecoversTo(images[k], start, states[at[k]]))
  }

  /** Where the images of a commit of n blocks stand: at the old state up to the header write. */
  function Marks(n: nat, old': nat): (r: seq<nat>)
    ensures |r| == 2 * n + 2 && forall k :: 0 <= k < |r| ==> r[k] == if k < n then old' else old' + 1
  {
    seq(2 * n + 2, k => if k < n then old' else old' + 1)
  }

  lemma CommitImageState(d: Disk, start: nat, hs: seq<int>, mem: Disk, s: Disk, k: nat)
    requires Readable(d, start) && |mem| == |d| && IsTransaction(start, |d|, hs)
    requires Pending(d, start) == [] && RecoversTo(d, start, s)
    requires forall b :: IsHome(start, |d|, b) && b !in hs ==> mem[b] == d[b]
    requires k < |CommitImages(d, start, hs, mem)|
    ensures RecoversTo(CommitImages(d, start, hs, mem)[k], start, if k < |hs| then s else mem)
  {
    CommitImageLogical(d, start, hs, mem, k + 1);
    assert ([d] + CommitImages(d, start, hs, mem))[k + 1] == CommitImages(d, start, hs, mem)[k];
    hide CommitImages;
  }

  lemma HistoryJoins(images: seq<Disk>, at: seq<nat>, states: seq<Disk>, start: nat, more: seq<Disk>, n: nat, s: Disk)
    requires History(images, at, states, start) && |more| == 2 * n + 2
    requires forall k :: 0 <= k < |more| ==> RecoversTo(more[k], start, if k < n then states[|states| - 1] else s)
    ensures History(images + more, at + Marks(n, |states| - 1), states + [s], start)
  {
    hide RecoversTo, Marks;
    var marks := Marks(n, |states| - 1);
    forall k | 0 <= k < |images + more|
      ensures (at + marks)[k] < |states| + 1
      ensures RecoversTo((images + more)[k], start, (states + [s])[(at + marks)[k]])
    {
      assert k >= |images| ==> (images + more)[k] == more[k - |images|] && (at + marks)[k] == marks[k - |images|];
    }
  }

  /** A commit adds one state to the history of the disk. */
  lemma HistoryGrows(images: seq<Disk>, at: seq<nat>, states: seq<Disk>, d: Disk, start: nat, hs: seq<int>, mem: Disk)
    requires History(images, at, states, start) && images[|images| - 1] == d && |mem| == |d|
    requires Readable(d, start) && Pending(d, start) == [] && IsTransaction(start, |d|, hs)
    requires forall b :: IsHome(start, |d|, b) && b !in hs ==> mem[b] == d[b]
    ensures History(images + CommitImages(d, start, hs, mem), at + Marks(|hs|, |states| - 1), states + [mem], start)
  {
    var more := CommitImages(d, start, hs, mem);
    assert RecoversTo(d, start, states[|states| - 1]);
    forall k | 0 <= k < |more|
      ensures RecoversTo(more[k], start, if k < |hs| then states[|states| - 1] else mem)
    {
      CommitImageState(d, start, hs, mem, states[|states| - 1], k);
    }
    HistoryJoins(images, at, states, start, more, |hs|, mem);
  }

  /** Recovery at boot starts the history with the state it recovers. */
  lemma HistoryStarts(d: Disk, start: nat)
    requires Readable(d, start)
    ensures var images := RecoveryImages(d, start)[1..];
            History(images, seq(|images|, _ => 0), [Recovered(d, start)], start)
  {
    var images, s := RecoveryImages(d, start)[1..], Recovered(d, start);
    ClearedKeepsLogical(d, start);
    forall k | 0 <= k < |images|
      ensures RecoversTo(images[k], start, s)
    {
      RecoveryImageKeepsLogical(d, start, k + 1);
    }
    hide RecoversTo, RecoveryImages;
  }

  /** A crash at any moment of a run, followed by any number of interrupted recoveries and one that
      completes, leaves the home blocks of one committed state. */
  lemma CrashLeavesCommittedState(images: seq<Disk>, at: seq<nat>, states: seq<Disk>, start: nat, k: nat, ds: seq<Disk>)
    requires History(images, at, states, start) && k < |images|
    requires CrashChain(ds, start) && ds[0] == images[k]
    ensures SameLogical(ds[0], ds[|ds| - 1], start)
    ensures var final := Recovered(ds[|ds| - 1], start);
            && Readable(final, start) && Pending(final, start) == [] && |final| == |states[at[k]]|
            && forall b :: IsHome(start, |final|, b) ==> final[b] == states[at[k]][b]
  {
    CrashChainRecovers(ds, start);
  }
}
