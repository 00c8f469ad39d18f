/** The response cache of cache.c: 16 entries in memory over an append-only file of records.

    The file is the sequence of whole records cache.c has appended to it, after whatever records it
    held at the start; `room` stands for writei finding free blocks. */
module ResponseCache {
  import opened BlockBytes
  import opened MinHash
  import opened Wrappers

  const CACHE_SLOTS: nat := 16
  const CACHE_VAL: nat := 1024
  const RECORD: nat := 1040
  const DISK_MAX_BYTES: nat := 4 * 1024 * 1024
  const MAXFILEBYTES: nat := (12 + 256) * BSIZE

  datatype Entry = Entry(hash: nat, lastAccess: nat, vlen: nat, hasSig: bool, sig: seq<nat>, val: seq<Byte>)

  datatype Record = Record(hash: nat, vlen: nat, val: seq<Byte>)

  predicate EntryOk(e: Entry) {
    |e.val| == CACHE_VAL && e.vlen <= CACHE_VAL && |e.sig| == SIG_K
  }

  function Value(e: Entry): seq<Byte> {
    if e.vlen <= |e.val| then e.val[..e.vlen] else e.val
  }

  /** disk_scan clamps the length a record claims. */
  function RecordValue(r: Record): seq<Byte> {
    if r.vlen <= |r.val| then r.val[..r.vlen] else r.val
  }

  /** The value of the first record with this hash. */
  function FirstOn(disk: seq<Record>, h: nat): Option<seq<Byte>> {
    if disk == [] then None else if disk[0].hash == h then Some(RecordValue(disk[0])) else FirstOn(disk[1..], h)
  }

  lemma {:induction false} FirstOfTwo(a: seq<Record>, b: seq<Record>, h: nat)
    ensures FirstOn(a + b, h) == if FirstOn(a, h).Some? then FirstOn(a, h) else FirstOn(b, h)
  {
    if a == [] {
      assert a + b == b;
    } else {
      FirstOfTwo(a[1..], b, h);
      assert (a + b)[1..] == a[1..] + b;
    }
  }

  /** Once a hash has a record, later evictions of it never show: the file answers with the oldest. */
  lemma FirstEvictionWins(disk: seq<Record>, r: Record, more: seq<Record>)
    ensures FirstOn(disk + [r] + more, r.hash) == FirstOn(disk + [r], r.hash) != None
  {
    FirstOfTwo(disk, [r], r.hash);
    FirstOfTwo(disk + [r], more, r.hash);
  }

  predicate InRam(ram: seq<Entry>, h: nat) {
    exists i :: 0 <= i < |ram| && ram[i].hash == h
  }

  /** What the cache knows, for the proof: the value last set for each hash, the hashes set since they
      became resident, the hashes ever set, the key last set in each slot, and whether every eviction
      so far reached the file. */
  datatype Memo = Memo(last: map<nat, seq<Byte>>, current: set<nat>, ever: set<nat>, keys: seq<Word>, complete: bool)

  /** The answer cache_get_exact owes: the last value set while the hash stays resident, otherwise the
      first record of the file. */
  function Answer(disk: seq<Record>, g: Memo, h: nat): Option<seq<Byte>> {
    if h in g.current && h in g.last then Some(g.last[h]) else FirstOn(disk, h)
  }

  ghost predicate Slots(ram: seq<Entry>) {
    && |ram| == CACHE_SLOTS
    && (forall i :: 0 <= i < |ram| ==> EntryOk(ram[i]))
    && (forall i, j :: 0 <= i < j < |ram| && ram[i].hash != 0 ==> ram[i].hash != ram[j].hash)
  }

  ghost predicate Agrees(ram: seq<Entry>, disk: seq<Record>, g: Memo) {
    && (forall i :: 0 <= i < |ram| && ram[i].hash != 0 ==> Answer(disk, g, ram[i].hash) == Some(Value(ram[i])))
    && (forall h :: h in g.current ==> h != 0 && h in g.last && InRam(ram, h))
    && (g.complete ==> forall h :: h in g.ever ==> h != 0 && (InRam(ram, h) || FirstOn(disk, h).Some?))
  }

  ghost predicate Signed(ram: seq<Entry>, fa: Hash, fb: Hash, g: Memo) {
    && |g.keys| == |ram|
    && (forall i :: 0 <= i < |ram| && ram[i].hash != 0 && ram[i].hasSig ==> IsSig(fa, fb, ram[i].sig, Words(g.keys[i])))
  }

  // cache_set as a step

  function Evicted(e: Entry): Record
    requires EntryOk(e)
  {
    Record(e.hash, e.vlen, Value(e) + Zeros(CACHE_VAL - |Value(e)|))
  }

  lemma EvictedValue(e: Entry)
    requires EntryOk(e)
    ensures RecordValue(Evicted(e)) == Value(e) && |Evicted(e).val| == CACHE_VAL
  {
  }

  /** The entry slot i gets. */
  function Filled(e: Entry, h: nat, now: nat, val: seq<Byte>, n: nat, sig: seq<nat>): Entry
    requires |val| <= |e.val|
  {
    Entry(h, now, |val|, n > 0, sig, val + e.val[|val|..])
  }

  function AfterSet(g: Memo, i: nat, key: Word, h: nat, gone: nat, val: seq<Byte>, saved: bool): Memo
    requires i < |g.keys|
  {
    Memo(g.last[h := val], g.current - {gone} + {h}, g.ever + {h}, g.keys[i := key], g.complete && saved)
  }

  /** Slot i is the one cache_set writes: it holds the hash, or is empty, or is the oldest of a full
      table without the hash, whose entry then goes to the file. */
  ghost predicate SlotFor(ram: seq<Entry>, h: nat, i: nat) {
    && i < |ram| && h != 0
    && (ram[i].hash == h || !InRam(ram, h))
    && (ram[i].hash != h && ram[i].hash != 0 ==>
        forall j :: 0 <= j < |ram| ==> ram[j].hash != 0 && ram[i].lastAccess <= ram[j].lastAccess)
  }

  /** cache_set wrote slot i and no other, signing it when the key has enough words, and the hash that
      was there is no longer current. */
  ghost predicate SetAt(was: seq<Entry>, ram: seq<Entry>, i: nat, key: Word, h: nat, now: nat, val: seq<Byte>,
                        old': Memo, g: Memo, saved: bool) {
    && i < |was| == |ram| && ram == was[i := ram[i]]
    && ram[i].hash == h && ram[i].lastAccess == now && Value(ram[i]) == val
    && (ram[i].hasSig <==> |Words(key)| >= MIN_WORDS_FOR_SEMANTIC)
    && |old'.keys| == |was| && g.keys == old'.keys[i := key]
    && g.current == old'.current - (if was[i].hash == h then {} else {was[i].hash}) + {h}
    && g.complete == (old'.complete && (was[i].hash == 0 || was[i].hash == h || saved))
  }

  /** Only the time of entry i has changed. */
  ghost predicate UsedAt(was: seq<Entry>, ram: seq<Entry>, i: nat, now: nat) {
    i < |was| && ram == was[i := Touched(was[i], now)]
  }

  /** An empty slot i received the record of h; an entry made this way carries no signature. */
  ghost predicate PromotedAt(was: seq<Entry>, ram: seq<Entry>, i: nat, h: nat, now: nat, val: seq<Byte>) {
    && i < |was| == |ram| && was[i].hash == 0 && ram == was[i := ram[i]]
    && ram[i].hash == h && ram[i].lastAccess == now && Value(ram[i]) == val && !ram[i].hasSig
  }

  function Touched(e: Entry, now: nat): Entry {
    e.(lastAccess := now)
  }

  lemma SetSlots(ram: seq<Entry>, h: nat, i: nat, e: Entry)
    requires Slots(ram) && SlotFor(ram, h, i) && EntryOk(e) && e.hash == h
    ensures Slots(ram[i := e])
  {
  }

  /** Setting in place or in an empty slot. */
  lemma SetStays(ram: seq<Entry>, disk: seq<Record>, g: Memo, h: nat, i: nat, e: Entry, key: Word)
    requires Slots(ram) && Agrees(ram, disk, g) && SlotFor(ram, h, i) && EntryOk(e) && e.hash == h && i < |g.keys|
    requires ram[i].hash == h || ram[i].hash == 0
    ensures Agrees(ram[i := e], disk, AfterSet(g, i, key, h, 0, Value(e), true))
  {
    var new' := ram[i := e];
    assert new'[i].hash == h;
    forall k | InRam(ram, k) && k != 0
      ensures InRam(new', k)
    {
      var j :| 0 <= j < |ram| && ram[j].hash == k;
      assert new'[j].hash == k;
    }
    forall k | k in g.current
      ensures k != 0 ==> InRam(new', k)
    {
    }
  }

  /** Setting over the oldest entry, which is appended to the file if there is room. */
  lemma SetEvicts(ram: seq<Entry>, disk: seq<Record>, g: Memo, h: nat, i: nat, e: Entry, key: Word, saved: bool)
    requires Slots(ram) && Agrees(ram, disk, g) && SlotFor(ram, h, i) && EntryOk(e) && e.hash == h && i < |g.keys|
    requires ram[i].hash != h && ram[i].hash != 0
    ensures Agrees(ram[i := e], if saved then disk + [Evicted(ram[i])] else disk,
                   AfterSet(g, i, key, h, ram[i].hash, Value(e), saved))
  {
    var new', file := ram[i := e], if saved then disk + [Evicted(ram[i])] else disk;
    var w := AfterSet(g, i, key, h, ram[i].hash, Value(e), saved);
    assert new'[i].hash == h;
    EvictedValue(ram[i]);
    forall k
      ensures FirstOn(disk, k).Some? ==> FirstOn(file, k) == FirstOn(disk, k)
      ensures saved && k == ram[i].hash ==> FirstOn(file, k).Some?
    {
      FirstOfTwo(disk, [Evicted(ram[i])], k);
    }
    forall k | InRam(ram, k) && k != ram[i].hash
      ensures InRam(new', k)
    {
      var j :| 0 <= j < |ram| && ram[j].hash == k;
      assert new'[j].hash == k;
    }
    forall j | 0 <= j < |new'| && new'[j].hash != 0
      ensures Answer(file, w, new'[j].hash) == Some(Value(new'[j]))
    {
      if j != i {
        assert Answer(disk, g, ram[j].hash) == Some(Value(ram[j]));
      }
    }
  }

  /** What eviction does to the answers: none changes but that of the evicted hash, which falls back
      to the oldest record. */
  lemma AfterEviction(ram: seq<Entry>, disk: seq<Record>, g: Memo, h: nat, i: nat, e: Entry, key: Word, saved: bool)
    requires Slots(ram) && Agrees(ram, disk, g) && SlotFor(ram, h, i) && i < |g.keys|
    requires ram[i].hash != h && ram[i].hash != 0
    ensures var file := if saved then disk + [Evicted(ram[i])] else disk;
            var w := AfterSet(g, i, key, h, ram[i].hash, Value(e), saved);
            && (forall k :: k != h && (k in g.current ==> k in w.current) ==> Answer(file, w, k) == Answer(disk, g, k))
            && (saved ==> forall k :: k in g.current && k !in w.current ==>
                  Answer(file, w, k) == if FirstOn(disk, k).Some? then FirstOn(disk, k) else Some(g.last[k]))
  {
    var file := if saved then disk + [Evicted(ram[i])] else disk;
    var w := AfterSet(g, i, key, h, ram[i].hash, Value(e), saved);
    EvictedValue(ram[i]);
    assert Answer(disk, g, ram[i].hash) == Some(Value(ram[i]));
    forall k
      ensures saved ==>
                  FirstOn(file, k) == if FirstOn(disk, k).Some? || k != ram[i].hash then FirstOn(disk, k)
                      else Some(Value(ram[i]))
    {
      FirstOfTwo(disk, [Evicted(ram[i])], k);
    }
  }

  /** A hash stops being current only when the table is full of other hashes and its entry is the one
      used least recently. */
  lemma LeavesOnlyAsOldest(was: seq<Entry>, ram: seq<Entry>, i: nat, key: Word, h: nat, now: nat, val: seq<Byte>,
                           memo: Memo, g: Memo, saved: bool, k: nat)
    requires SlotFor(was, h, i) && SetAt(was, ram, i, key, h, now, val, memo, g, saved)
    requires k in memo.current && k !in g.current && k != 0
    ensures !InRam(was, 0) && !InRam(was, h)
    ensures was[i].hash == k && forall j :: 0 <= j < |was| ==> was[i].lastAccess <= was[j].lastAccess
  {
  }

  /** cache_get_exact copies a record into an empty slot. */
  lemma PromoteAgrees(ram: seq<Entry>, disk: seq<Record>, g: Memo, i: nat, e: Entry)
    requires Slots(ram) && Agrees(ram, disk, g) && i < |ram| && ram[i].hash == 0 && EntryOk(e) && e.hash != 0
    requires !InRam(ram, e.hash) && FirstOn(disk, e.hash) == Some(Value(e))
    ensures Slots(ram[i := e]) && Agrees(ram[i := e], disk, g)
  {
    var new' := ram[i := e];
    assert new'[i].hash == e.hash;
    forall k | InRam(ram, k) && k != 0
      ensures InRam(new', k)
    {
      var j :| 0 <= j < |ram| && ram[j].hash == k;
      assert new'[j].hash == k;
    }
  }

  /** A use of an entry changes only its time. */
  lemma TouchAgrees(ram: seq<Entry>, disk: seq<Record>, g: Memo, fa: Hash, fb: Hash, i: nat, now: nat)
    requires Slots(ram) && Agrees(ram, disk, g) && Signed(ram, fa, fb, g) && i < |ram|
    ensures var e := ram[i];
            var w := ram[i := Touched(e, now)];
            Slots(w) && Agrees(w, disk, g) && Signed(w, fa, fb, g)
  {
    var e := ram[i];
    var w := ram[i := Touched(e, now)];
    forall k | InRam(ram, k)
      ensures InRam(w, k)
    {
      var j :| 0 <= j < |ram| && ram[j].hash == k;
      assert w[j].hash == k;
    }
  }

  class Cache {
    const fa: Hash
    const fb: Hash
    const ram: array<Entry>
    var disk: seq<Record>
    ghost var g: Memo

    ghost predicate Valid()
      reads this, ram
    {
      Slots(ram[..]) && Agrees(ram[..], disk, g) && Signed(ram[..], fa, fb, g) && forall k :: 0 <= k < |disk| ==>
          |disk[k].val| == CACHE_VAL
    }

    /** fnv1a_64: the first hash of the pair, with 0 kept for empty slots. */
    function HashOf(key: Word): nat {
      NonZero(fa(key))
    }

    constructor (fa: Hash, fb: Hash, disk: seq<Record>)
      requires forall k :: 0 <= k < |disk| ==> |disk[k].val| == CACHE_VAL
      ensures Valid() && fresh(ram) && this.disk == disk && this.fa == fa && this.fb == fb
      ensures g.current == {} && g.ever == {} && g.complete
    {
      this.fa, this.fb, this.disk := fa, fb, disk;
      ram := new Entry[CACHE_SLOTS](_ => Entry(0, 0, 0, false, AllOnes(SIG_K), Zeros(CACHE_VAL)));
      g := Memo(map[], {}, {}, NoKeys(CACHE_SLOTS), true);
    }

    method RamFind(h: nat) returns (i: int)
      requires ram.Length == CACHE_SLOTS
      ensures -1 <= i < CACHE_SLOTS && (i == -1 <==> !InRam(ram[..], h)) && (i >= 0 ==> ram[i].hash == h)
    {
      i := 0;
      while i < CACHE_SLOTS
        invariant 0 <= i <= CACHE_SLOTS && forall k :: 0 <= k < i ==> ram[k].hash != h
      {
        if ram[i].hash == h {
          assert ram[..][i].hash == h;
          return;
        }
        i := i + 1;
      }
      return -1;
    }

    /** The least recently used slot. */
    method Oldest() returns (lru: nat)
      requires ram.Length == CACHE_SLOTS
      ensures lru < CACHE_SLOTS && forall j :: 0 <= j < CACHE_SLOTS ==> ram[lru].lastAccess <= ram[j].lastAccess
    {
      lru := 0;
      var j := 1;
      while j < CACHE_SLOTS
        invariant 1 <= j <= CACHE_SLOTS && lru < CACHE_SLOTS
        invariant forall k :: 0 <= k < j ==> ram[lru].lastAccess <= ram[k].lastAccess
      {
        if ram[j].lastAccess < ram[lru].lastAccess { lru := j; }
        j := j + 1;
      }
    }

    /** disk_scan: the value of the first record with the hash, its length clamped to CACHE_VAL. */
    method DiskScan(h: nat) returns (r: Option<seq<Byte>>)
      ensures r == FirstOn(disk, h)
    {
      var k := 0;
      assert disk[0..] == disk;
      while k < |disk|
        invariant k <= |disk| && FirstOn(disk, h) == FirstOn(disk[k..], h)
      {
        if disk[k].hash == h { return Some(RecordValue(disk[k])); }
        assert disk[k..][1..] == disk[k + 1..];
        k := k + 1;
      }
      return None;
    }

    /** disk_append: it fails when writei does, which is long before the file meets the limit
        DISK_MAX_BYTES: a file holds at most 263 records. */
    method DiskAppend(r: Record, room: bool) returns (ok: bool)
      modifies this`disk
      ensures ok <==> room && |old(disk)| < 263
      ensures disk == if ok then old(disk) + [r] else old(disk)
    {
      var size := |disk| * RECORD;
      if size + RECORD > DISK_MAX_BYTES { return false; }
      if size + RECORD > MAXFILEBYTES || !room { return false; }
      disk := disk + [r];
      return true;
    }

    /** The slot cache_set writes. */
    method PickSlot(h: nat) returns (i: nat)
      requires Valid() && h != 0
      ensures i < CACHE_SLOTS && SlotFor(ram[..], h, i)
    {
      var f := RamFind(h);
      if f >= 0 { return f; }
      var e := RamFind(0);
      if e >= 0 { return e; }
      forall j | 0 <= j < CACHE_SLOTS
        ensures ram[..][j].hash != 0
      {
      }
      i := Oldest();
    }

    /** cache_set: the value becomes the answer for the key's hash; the answer of every other hash
        stays, but for an evicted one, which from now on is the oldest record of the file.  It reports
        success even when that record could not be written. */
    method CacheSet(key: Word, val: seq<Byte>, now: nat, room: bool) returns (r: int)
      requires Valid()
      modifies this`disk, this`g, ram
      ensures Valid() && old(disk) <= disk
      ensures r == (if key == [] || |val| > CACHE_VAL then -1 else 0)
      ensures r == -1 ==> ram[..] == old(ram[..]) && disk == old(disk) && g == old(g)
      ensures r == 0 ==>
                  Answer(disk, g, HashOf(key)) == Some(val) && HashOf(key) in g.current
                      && g.ever == old(g.ever) + {HashOf(key)}
      ensures r == 0 ==> exists i: nat ::
                  SlotFor(old(ram[..]), HashOf(key), i)
                  && SetAt(old(ram[..]), ram[..], i, key, HashOf(key), now, val, old(g), g, |disk| > |old(disk)|)
      ensures r == 0 ==>
                  forall h :: h != HashOf(key) && (h in old(g.current) ==> h in g.current) ==>
                      Answer(disk, g, h) == Answer(old(disk), old(g), h)
      ensures r == 0 ==> forall h :: h in old(g.current) && h !in g.current && |disk| > |old(disk)| ==>
                Answer(disk, g, h) == if FirstOn(old(disk), h).Some? then FirstOn(old(disk), h)
                    else Some(old(g).last[h])
      ensures r == 0 && room && |old(disk)| < 263 ==> g.complete == old(g.complete)
    {
      if key == [] || |val| > CACHE_VAL { return -1; }
      var h := HashOf(key);
      ghost var was, file, memo := ram[..], disk, g;
      var i := PickSlot(h);
      var out := ram[i];
      var ns, sig := BuildSignature(fa, fb, key);
      var e := Filled(ram[i], h, now, val, ns, sig);
      ram[i] := e;
      assert ram[..] == was[i := e] && Value(e) == val;
      SetSlots(was, h, i, e);
      if out.hash != 0 && out.hash != h {
        var ok := DiskAppend(Evicted(out), room);
        SetEvicts(was, file, memo, h, i, e, key, ok);
        AfterEviction(was, file, memo, h, i, e, key, ok);
        g := AfterSet(memo, i, key, h, out.hash, val, ok);
      } else {
        SetStays(was, file, memo, h, i, e, key);
        g := AfterSet(memo, i, key, h, 0, val, true);
      }
      assert SetAt(was, ram[..], i, key, h, now, val, memo, g, |disk| > |file|);
      return 0;
    }

    /** cache_get_exact: the answer for the key's hash, cut to the caller's buffer; while every
        eviction has reached the file no hash ever set is a miss. */
    method CacheGetExact(key: Word, buflen: int, now: nat) returns (vlen: int, out: seq<Byte>)
      requires Valid()
      modifies this`g, ram
      ensures Valid() && disk == old(disk) && g == old(g)
      ensures key == [] || buflen <= 0 ==> vlen == -1
      ensures key != [] && buflen > 0 ==>
                match Answer(disk, g, HashOf(key))
                case None => vlen == -1
                case Some(v) => vlen == |v| && out == if |v| < buflen then v else v[..buflen]
      ensures vlen == -1 ==> ram[..] == old(ram[..])
      ensures vlen != -1 ==> var was, h := old(ram[..]), HashOf(key);
                if InRam(was, h) then exists i: nat :: i < |was| && was[i].hash == h && UsedAt(was, ram[..], i, now)
                else if InRam(was, 0) then exists i: nat ::
                    PromotedAt(was, ram[..], i, h, now, Answer(disk, g, h).value)
                else ram[..] == was
      ensures key != [] && buflen > 0 && g.complete && HashOf(key) in g.ever ==> vlen >= 0
    {
      if key == [] || buflen <= 0 { return -1, []; }
      var h := HashOf(key);
      ghost var was := ram[..];
      var i := RamFind(h);
      if i >= 0 {
        var e := ram[i];
        assert Answer(disk, g, was[i].hash) == Some(Value(e));
        TouchAgrees(was, disk, g, fa, fb, i, now);
        ram[i] := e.(lastAccess := now);
        assert UsedAt(was, ram[..], i, now);
        return e.vlen, if e.vlen < buflen then Value(e) else Value(e)[..buflen];
      }
      var found := DiskScan(h);
      if found.None? { return -1, []; }
      FirstFits(disk, h);
      var v := found.value;
      vlen, out := |v|, if |v| < buflen then v else v[..buflen];
      var j := RamFind(0);
      if j >= 0 {
        var e := Entry(h, now, |v|, false, ram[j].sig, v + ram[j].val[|v|..]);
        assert Value(e) == v;
        PromoteAgrees(was, disk, g, j, e);
        ram[j] := e;
        assert PromotedAt(was, ram[..], j, h, now, v);
      }
    }

    /** The loop of cache_get_semantic. */
    method FindBest(key: Word, q: seq<nat>) returns (best: int, bestMatch: int)
      requires Valid() && IsSig(fa, fb, q, Words(key))
      ensures -1 <= best < CACHE_SLOTS
      ensures best == -1 ==> forall k :: 0 <= k < CACHE_SLOTS ==> !CanMatch(ram[k])
      ensures best >= 0 ==>
                  CanMatch(ram[best]) && bestMatch == Score(fa, fb, key, ram[best]) && Best(fa, fb, key, ram[..], best)
    {
      best, bestMatch := -1, -1;
      var j, bestTick := 0, 0;
      ghost var seen := ram[..];
      assert BestBefore(fa, fb, key, seen, 0, -1, -1, 0);
      hide Words, Score, BestBefore;
      while j < CACHE_SLOTS
        invariant j <= CACHE_SLOTS && BestBefore(fa, fb, key, seen, j, best, bestMatch, bestTick)
      {
        var e := ram[j];
        assert e == seen[j] && EntryOk(seen[j]);
        BestStep(fa, fb, key, seen, j, best, bestMatch, bestTick, Score(fa, fb, key, e));
        if e.hash != 0 && e.hasSig {
          var m := JaccardMatchCount(q, e.sig);
          ScoreIs(fa, fb, key, q, e);
          if m > bestMatch || (m == bestMatch && e.lastAccess > bestTick) {
            best, bestMatch, bestTick := j, m, e.lastAccess;
          }
        }
        j := j + 1;
      }
      BestDone(fa, fb, key, seen, best, bestMatch, bestTick);
    }

    /** cache_get_semantic: it hits exactly when some signed entry agrees with the query in at least
        26 of 64 places, and then answers with an entry that agrees in the most places, the one used
        last among equals.  score is that number of places. */
    method CacheGetSemantic(key: Word, buflen: int, now: nat)
      returns (vlen: int, out: seq<Byte>, score: nat, ghost which: nat)
      requires Valid()
      modifies ram
      ensures Valid() && disk == old(disk) && g == old(g)
      ensures key == [] || buflen <= 0 || |Words(key)| < MIN_WORDS_FOR_SEMANTIC ==> vlen == -1
      ensures key != [] && buflen > 0 && |Words(key)| >= MIN_WORDS_FOR_SEMANTIC ==>
                  (vlen == -1 <==> NoneClose(fa, fb, key, old(ram[..])))
      ensures vlen == -1 ==> score == 0 && ram[..] == old(ram[..])
      ensures vlen != -1 ==> Hit(fa, fb, key, old(ram[..]), which, score)
      ensures vlen != -1 ==> UsedAt(old(ram[..]), ram[..], which, now)
      ensures vlen != -1 ==> which < |old(ram[..])| && vlen == |Value(old(ram[..])[which])|
      ensures vlen != -1 ==>
                  out == if vlen < buflen then Value(old(ram[..])[which]) else Value(old(ram[..])[which])[..buflen]
    {
      vlen, out, score, which := -1, [], 0, 0;
      if key == [] || buflen <= 0 { return; }
      var n, q := BuildSignature(fa, fb, key);
      if n == 0 { return; }
      ghost var was := ram[..];
      hide Words, Score;
      var best, bestMatch := FindBest(key, q);
      if best < 0 || bestMatch * 5 < 2 * SIG_K { return; }
      var e := ram[best];
      assert EntryOk(was[best]) && CanMatch(was[best]);
      TouchAgrees(was, disk, g, fa, fb, best, now);
      ram[best] := e.(lastAccess := now);
      assert UsedAt(was, ram[..], best, now);
      return e.vlen, if e.vlen < buflen then Value(e) else Value(e)[..buflen], bestMatch, best;
    }
  }

  /** The best of the first j entries. */
  ghost predicate BestBefore(fa: Hash, fb: Hash, key: Word, ram: seq<Entry>, j: nat, best: int, score: int, tick: nat) {
    && j <= |ram| && -1 <= best < j && (best == -1 ==> score == -1)
    && (best >= 0 ==> CanMatch(ram[best]) && score == Score(fa, fb, key, ram[best]) && tick == ram[best].lastAccess)
    && (forall k :: 0 <= k < j && CanMatch(ram[k]) ==>
          best >= 0 && (Score(fa, fb, key, ram[k]) < score
              || (Score(fa, fb, key, ram[k]) == score && ram[k].lastAccess <= tick)))
  }

  lemma BestStep(fa: Hash, fb: Hash, key: Word, ram: seq<Entry>, j: nat, best: int, score: int, tick: nat, m: nat)
    requires BestBefore(fa, fb, key, ram, j, best, score, tick) && j < |ram| && m == Score(fa, fb, key, ram[j])
    ensures if CanMatch(ram[j]) && (m > score || (m == score && ram[j].lastAccess > tick))
            then BestBefore(fa, fb, key, ram, j + 1, j, m, ram[j].lastAccess)
            else BestBefore(fa, fb, key, ram, j + 1, best, score, tick)
  {
    hide Score;
  }

  lemma BestDone(fa: Hash, fb: Hash, key: Word, ram: seq<Entry>, best: int, score: int, tick: nat)
    requires BestBefore(fa, fb, key, ram, |ram|, best, score, tick)
    ensures -1 <= best < |ram| && (best == -1 ==> forall k :: 0 <= k < |ram| ==> !CanMatch(ram[k]))
    ensures best >= 0 ==> CanMatch(ram[best]) && score == Score(fa, fb, key, ram[best]) && Best(fa, fb, key, ram, best)
  {
    hide Score;
  }

  /** No entry reaches the threshold 2/5 of the signature. */
  ghost predicate NoneClose(fa: Hash, fb: Hash, key: Word, ram: seq<Entry>) {
    forall j :: 0 <= j < |ram| && CanMatch(ram[j]) ==> Score(fa, fb, key, ram[j]) < 26
  }

  ghost predicate Hit(fa: Hash, fb: Hash, key: Word, ram: seq<Entry>, w: nat, score: nat) {
    Best(fa, fb, key, ram, w) && CanMatch(ram[w]) && score == Score(fa, fb, key, ram[w]) >= 26
  }

  predicate CanMatch(e: Entry) {
    e.hash != 0 && e.hasSig
  }

  /** The number of places where the signature of a key and that of an entry agree. */
  function Score(fa: Hash, fb: Hash, key: Word, e: Entry): nat {
    ScoreTo(fa, fb, Words(key), e.sig, |e.sig|)
  }

  function ScoreTo(fa: Hash, fb: Hash, ws: seq<Word>, sig: seq<nat>, n: nat): (c: nat)
    requires n <= |sig|
    ensures c <= n && (c == n <==> forall k :: 0 <= k < n ==> sig[k] == SigAt(fa, fb, k, ws))
  {
    if n == 0 then 0 else ScoreTo(fa, fb, ws, sig, n - 1) + (if sig[n - 1] == SigAt(fa, fb, n - 1, ws) then 1 else 0)
  }

  lemma {:induction false} ScoreToIs(fa: Hash, fb: Hash, ws: seq<Word>, q: seq<nat>, sig: seq<nat>, n: nat)
    requires IsSig(fa, fb, q, ws) && n <= |sig| == SIG_K
    ensures ScoreTo(fa, fb, ws, sig, n) == Matches(q[..n], sig[..n])
  {
    if n > 0 {
      ScoreToIs(fa, fb, ws, q, sig, n - 1);
      assert q[..n][..n - 1] == q[..n - 1] && sig[..n][..n - 1] == sig[..n - 1];
    }
  }

  lemma ScoreIs(fa: Hash, fb: Hash, key: Word, q: seq<nat>, e: Entry)
    requires IsSig(fa, fb, q, Words(key)) && |e.sig| == SIG_K
    ensures Score(fa, fb, key, e) == Matches(q, e.sig)
  {
    ScoreToIs(fa, fb, Words(key), q, e.sig, SIG_K);
    assert q[..SIG_K] == q && e.sig[..SIG_K] == e.sig;
  }

  /** Entry w scores highest, and was used last among those that score as high. */
  ghost predicate Best(fa: Hash, fb: Hash, key: Word, ram: seq<Entry>, w: nat) {
    w < |ram| && forall k :: 0 <= k < |ram| && CanMatch(ram[k]) ==>
      Score(fa, fb, key, ram[k]) < Score(fa, fb, key, ram[w])
      || (Score(fa, fb, key, ram[k]) == Score(fa, fb, key, ram[w]) && ram[k].lastAccess <= ram[w].lastAccess)
  }

  /** A signed entry set under a key with the query's word set agrees in all 64 places: whatever
      entry is best then has the query's very signature. */
  lemma SameWordsAlwaysHit(ram: seq<Entry>, fa: Hash, fb: Hash, g: Memo, key: Word, j: nat, w: nat)
    requires Slots(ram) && Signed(ram, fa, fb, g) && j < |ram| && CanMatch(ram[j]) && WordSet(g.keys[j]) == WordSet(key)
    ensures Score(fa, fb, key, ram[j]) == SIG_K && !NoneClose(fa, fb, key, ram)
    ensures Best(fa, fb, key, ram, w) ==> Score(fa, fb, key, ram[w]) == SIG_K && IsSig(fa, fb, ram[w].sig, Words(key))
  {
    forall k | 0 <= k < SIG_K
      ensures ram[j].sig[k] == SigAt(fa, fb, k, Words(key))
    {
      SameWordsSameSignature(fa, fb, k, g.keys[j], key);
    }
  }

  function NoKeys(n: nat): (s: seq<Word>)
    ensures |s| == n
  {
    if n == 0 then [] else NoKeys(n - 1) + [[]]
  }

  lemma {:induction false} FirstFits(disk: seq<Record>, h: nat)
    requires forall k :: 0 <= k < |disk| ==> |disk[k].val| == CACHE_VAL
    ensures FirstOn(disk, h).Some? ==> |FirstOn(disk, h).value| <= CACHE_VAL
  {
    if disk != [] && disk[0].hash != h {
      FirstFits(disk[1..], h);
    }
  }

  // What a client sees of two calls

  /** The slot hash: 0 marks an empty slot, so it is moved to 1. */
  lemma HashesAreKept(c: Cache, a: Word, b: Word)
    ensures c.HashOf(a) != 0 && (c.fa(a) != 0 ==> c.HashOf(a) == c.fa(a)) && (c.fa(a) == 0 ==> c.HashOf(a) == 1)
    ensures c.fa(a) == c.fa(b) ==> c.HashOf(a) == c.HashOf(b)
    ensures c.fa(a) != 0 && c.fa(b) != 0 && c.fa(a) != c.fa(b) ==> c.HashOf(a) != c.HashOf(b)
  {
  }

  /** What was just set is what a get of any key with the same hash returns. */
  method SetThenGet(c: Cache, a: Word, b: Word, val: seq<Byte>, buflen: int, now: nat, later: nat, room: bool)
    returns (vlen: int, out: seq<Byte>)
    requires c.Valid() && a != [] && b != [] && |val| <= 1024 && buflen > 0 && c.fa(a) == c.fa(b)
    modifies c, c.ram
    ensures vlen == |val| && out == if |val| < buflen then val else val[..buflen]
  {
    HashesAreKept(c, a, b);
    var r := c.CacheSet(a, val, now, room);
    vlen, out := c.CacheGetExact(b, buflen, later);
  }

  /** A key is never answered with what was set under a key of another hash: it is a miss if it was
      one, and otherwise, unless its entry had to leave, it answers as before. */
  method SetThenGetOther(c: Cache, a: Word, b: Word, val: seq<Byte>, buflen: int, now: nat, later: nat, room: bool)
    returns (vlen: int, out: seq<Byte>)
    requires c.Valid() && a != [] && b != [] && |val| <= 1024 && buflen > 0
    requires c.fa(a) != 0 && c.fa(b) != 0 && c.fa(a) != c.fa(b)
    modifies c, c.ram
    ensures NoEntry(old(c.ram[..]), old(c.disk), c.fa(b)) ==> vlen == -1
    ensures c.fa(b) in c.g.current ==>
              var was := Answer(old(c.disk), old(c.g), c.fa(b));
              was.Some? && vlen == |was.value| && out == if |was.value| < buflen then was.value else was.value[..buflen]
  {
    HashesAreKept(c, a, b);
    NoRecord(c.disk, c.fa(b));
    ghost var was := c.ram[..];
    assert InRam(was, c.fa(b)) ==> exists i :: 0 <= i < |was| && was[i].hash == c.fa(b);
    var r := c.CacheSet(a, val, now, room);
    vlen, out := c.CacheGetExact(b, buflen, later);
  }

  /** A query with the word set of a key just set, three words or more, hits with all 64 places. */
  method SetThenAsk(c: Cache, a: Word, b: Word, val: seq<Byte>, buflen: int, now: nat, later: nat, room: bool)
    returns (vlen: int, out: seq<Byte>, score: nat)
    requires c.Valid() && a != [] && b != [] && |val| <= 1024 && buflen > 0
    requires WordSet(a) == WordSet(b) && |Words(a)| >= 3 && |Words(b)| >= 3
    modifies c, c.ram
    ensures vlen >= 0 && score == 64
  {
    ghost var before := c.ram[..];
    var r := c.CacheSet(a, val, now, room);
    ghost var ram := c.ram[..];
    ghost var i: nat :| i < |before| && ram == before[i := ram[i]] && CanMatch(ram[i]) && c.g.keys[i] == a;
    hide Score, Words, WordSet, IsSig;
    ghost var which;
    vlen, out, score, which := c.CacheGetSemantic(b, buflen, later);
    SameWordsAlwaysHit(ram, c.fa, c.fb, c.g, b, i, which);
  }

  /** Nothing in memory or in the file has this hash. */
  ghost predicate NoEntry(ram: seq<Entry>, disk: seq<Record>, h: nat) {
    && (forall i :: 0 <= i < |ram| ==> ram[i].hash != h)
    && (forall k :: 0 <= k < |disk| ==> disk[k].hash != h)
  }

  lemma {:induction false} NoRecord(disk: seq<Record>, h: nat)
    ensures FirstOn(disk, h) == None <==> forall k :: 0 <= k < |disk| ==> disk[k].hash != h
  {
    if disk != [] {
      NoRecord(disk[1..], h);
      assert forall k :: 1 <= k < |disk| ==> disk[k] == disk[1..][k - 1];
      assert forall k :: 0 <= k < |disk| - 1 ==> disk[1..][k] == disk[k + 1];
    }
  }
}
