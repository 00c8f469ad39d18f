/** umalloc.c: the circular, address-ordered, coalescing free list.

    Addresses and sizes are in units of one Header.  `blocks` lists every block of the heap, free or
    handed out; `arena` is the set of units obtained from sbrk. */
module Umalloc {
  import opened Wrappers

  const HEADER_BYTES: nat := 16
  const MIN_UNITS: nat := 4096
  const INT_LIMIT: nat := 0x8000_0000

  // Tilings: the blocks are disjoint and together are exactly the arena

  predicate Covers(blocks: map<int, int>, a: int, u: int) {
    a in blocks && a <= u < a + blocks[a]
  }

  /** Marks an address or a list position; facts about all pairs are used only at marked ones. */
  ghost predicate At(a: int) {
    true
  }

  ghost predicate Apart(blocks: map<int, int>) {
    forall a, b {:trigger At(a), At(b)} :: At(a) && At(b) && a in blocks && b in blocks && a < b ==> a + blocks[a] <= b
  }

  ghost predicate Tiling(blocks: map<int, int>, arena: set<int>) {
    && (forall a :: a in blocks ==> blocks[a] >= 1)
    && Apart(blocks)
    && (forall a, u :: Covers(blocks, a, u) ==> u in arena)
    && (forall u :: u in arena ==> exists a :: Covers(blocks, a, u))
  }

  predicate InRegion(a: int, n: int, u: int) {
    a <= u < a + n
  }

  function Region(a: int, n: int): set<int> {
    set u | a <= u < a + n && InRegion(a, n, u)
  }

  /** Two adjacent blocks become one. */
  function Merged(blocks: map<int, int>, a: int, b: int): map<int, int>
    requires a in blocks && b in blocks
  {
    (blocks - {b})[a := blocks[a] + blocks[b]]
  }

  lemma MergeTiling(blocks: map<int, int>, arena: set<int>, a: int, b: int)
    requires Tiling(blocks, arena) && a in blocks && b in blocks && a + blocks[a] == b
    ensures Tiling(Merged(blocks, a, b), arena)
  {
    var now := Merged(blocks, a, b);
    assert At(a) && At(b);
    forall u | u in arena
      ensures exists x :: Covers(now, x, u)
    {
      var x :| Covers(blocks, x, u);
      assert Covers(now, if x == b then a else x, u);
    }
    forall x, u | Covers(now, x, u)
      ensures u in arena
    {
      assert Covers(blocks, if x == a && u >= b then b else x, u);
    }
  }

  /** The tail of block a becomes a block of n units. */
  function Split(blocks: map<int, int>, a: int, n: int): map<int, int>
    requires a in blocks
  {
    blocks[a := blocks[a] - n][a + blocks[a] - n := n]
  }

  lemma SplitTiling(blocks: map<int, int>, arena: set<int>, a: int, n: int)
    requires Tiling(blocks, arena) && a in blocks && 1 <= n < blocks[a]
    ensures a + blocks[a] - n !in blocks && Tiling(Split(blocks, a, n), arena)
  {
    var t, now := a + blocks[a] - n, Split(blocks, a, n);
    assert At(a) && At(t);
    forall u | u in arena
      ensures exists x :: Covers(now, x, u)
    {
      var x :| Covers(blocks, x, u);
      assert Covers(now, if x == a && u >= t then t else x, u);
    }
    forall x, u | Covers(now, x, u)
      ensures u in arena
    {
      assert Covers(blocks, if x == t then a else x, u);
    }
  }

  /** A region from sbrk joins as a block of its own. */
  lemma AddTiling(blocks: map<int, int>, arena: set<int>, a: int, n: int)
    requires Tiling(blocks, arena) && n >= 1 && arena !! Region(a, n)
    ensures a !in blocks && Tiling(blocks[a := n], arena + Region(a, n))
  {
    var now := blocks[a := n];
    forall b | b in blocks
      ensures b + blocks[b] <= a || a + n <= b
    {
      assert Covers(blocks, b, b) && (Covers(blocks, b, a) <==> b <= a < b + blocks[b]);
      assert a in Region(a, n) && (b in Region(a, n) <==> a <= b < a + n);
    }
    forall u | u in arena + Region(a, n)
      ensures exists x :: Covers(now, x, u)
    {
      if u in Region(a, n) {
        assert Covers(now, a, u);
      } else {
        var x :| Covers(blocks, x, u);
        assert Covers(now, x, u);
      }
    }
    forall x, u | Covers(now, x, u)
      ensures u in arena + Region(a, n)
    {
      assert x != a ==> Covers(blocks, x, u);
    }
  }

  // The free list

  function Next(list: seq<int>, k: nat): int
    requires k < |list|
  {
    if k + 1 < |list| then list[k + 1] else list[0]
  }

  /** The header pointers follow the list and close the circle. */
  ghost predicate Circular(list: seq<int>, ptr: map<int, int>) {
    forall k {:trigger At(k)} :: At(k) && 0 <= k < |list| ==> list[k] in ptr && ptr[list[k]] == Next(list, k)
  }

  /** base comes first; the rest are blocks in address order. */
  ghost predicate Ascending(base: int, list: seq<int>, blocks: map<int, int>) {
    && |list| >= 1 && list[0] == base
    && (forall k {:trigger At(k)} :: At(k) && 1 <= k < |list| ==>
        list[k] in blocks && base < list[k] && blocks[list[k]] >= 1)
    && (forall i, j {:trigger At(i), At(j)} :: At(i) && At(j) && 1 <= i < j < |list| ==>
        list[i] + blocks[list[i]] <= list[j])
  }

  /** Entry k does not touch the next one. */
  predicate Gap(list: seq<int>, blocks: map<int, int>, k: nat)
    requires k + 1 < |list| && list[k] in blocks
  {
    list[k] + blocks[list[k]] < list[k + 1]
  }

  /** Address order, and fully coalesced: no two neighbours touch. */
  ghost predicate Ordered(base: int, list: seq<int>, blocks: map<int, int>) {
    && Ascending(base, list, blocks)
    && (forall k {:trigger At(k)} :: At(k) && 1 <= k < |list| - 1 ==> Gap(list, blocks, k))
  }

  /** A block is on the list or handed out, never both. */
  ghost predicate Accounted(list: seq<int>, used: set<int>, blocks: map<int, int>) {
    && (forall a {:trigger At(a)} :: At(a) && a in used ==> a in blocks && a !in list)
    && (forall a {:trigger At(a)} :: At(a) && a in blocks ==> a in used || a in list)
  }

  ghost predicate SizesAgree(base: int, size: map<int, int>, blocks: map<int, int>) {
    && base !in blocks && base in size && size[base] == 0
    && (forall a {:trigger At(a)} :: At(a) && a in blocks ==> base < a && a in size && size[a] == blocks[a])
  }

  /** The position after which bp belongs: the last list entry below it. */
  ghost predicate Slot(list: seq<int>, bp: int, k: nat) {
    && k < |list| && list[k] < bp
    && (k + 1 < |list| ==> bp < list[k + 1])
  }

  lemma {:induction false} SlotExists(base: int, list: seq<int>, blocks: map<int, int>, bp: int, n: nat)
    requires Ordered(base, list, blocks) && base < bp && bp !in list && 1 <= n <= |list|
    requires n < |list| ==> bp < list[n]
    ensures exists k :: Slot(list, bp, k)
    decreases n
  {
    assert At(n - 1);
    if list[n - 1] < bp {
      assert Slot(list, bp, n - 1);
    } else {
      SlotExists(base, list, blocks, bp, n - 1);
    }
  }

  /** The exit condition of the search in free(). */
  predicate Stop(bp: int, p: int, next: int) {
    (bp > p && bp < next) || (p >= next && (bp > p || bp < next))
  }

  lemma StopsAtSlot(base: int, list: seq<int>, blocks: map<int, int>, bp: int, k: nat, j: nat)
    requires Ordered(base, list, blocks) && Slot(list, bp, k) && j < |list|
    ensures Stop(bp, list[j], Next(list, j)) <==> j == k
  {
    assert At(j) && At(k) && At(j + 1) && At(k + 1);
  }

  // Insertion and removal, of which free() and malloc() are made

  function Insert(list: seq<int>, i: nat, a: int): seq<int>
    requires i <= |list|
  {
    list[..i] + [a] + list[i..]
  }

  function Remove(list: seq<int>, i: nat): seq<int>
    requires i < |list|
  {
    list[..i] + list[i + 1..]
  }

  lemma InsertCircular(list: seq<int>, ptr: map<int, int>, k: nat, bp: int)
    requires Circular(list, ptr) && At(k) && k < |list| && bp !in list && NoDuplicates(list)
    ensures Circular(Insert(list, k + 1, bp), ptr[bp := ptr[list[k]]][list[k] := bp])
  {
    var now, after := Insert(list, k + 1, bp), ptr[bp := ptr[list[k]]][list[k] := bp];
    assert At(k);
    forall i | 0 <= i < |now|
      ensures now[i] in after && after[now[i]] == Next(now, i)
    {
      if i <= k {
        assert now[i] == list[i] && At(i);
      } else if i > k + 1 {
        assert now[i] == list[i - 1] && At(i - 1);
      }
    }
  }

  lemma RemoveCircular(list: seq<int>, ptr: map<int, int>, k: nat)
    requires Circular(list, ptr) && At(k) && At(k + 1) && k + 1 < |list| && NoDuplicates(list)
    ensures Circular(Remove(list, k + 1), ptr[list[k] := ptr[list[k + 1]]])
  {
    var now, after := Remove(list, k + 1), ptr[list[k] := ptr[list[k + 1]]];
    forall i | 0 <= i < |now|
      ensures now[i] in after && after[now[i]] == Next(now, i)
    {
      var was := if i <= k then i else i + 1;
      assert now[i] == list[was];
      assert At(was) && At(k);
    }
  }

  ghost predicate NoDuplicates(list: seq<int>) {
    forall i, j {:trigger At(i), At(j)} :: At(i) && At(j) && 0 <= i < j < |list| ==> list[i] != list[j]
  }

  lemma AscendingNoDuplicates(base: int, list: seq<int>, blocks: map<int, int>)
    requires Ascending(base, list, blocks)
    ensures NoDuplicates(list)
  {
  }

  lemma InsertPair(base: int, list: seq<int>, blocks: map<int, int>, arena: set<int>, k: nat, bp: int, i: nat, j: nat)
    requires Ascending(base, list, blocks) && Tiling(blocks, arena) && Slot(list, bp, k) && bp in blocks && base < bp
    requires 1 <= i < j < |list| + 1
    ensures var now := Insert(list, k + 1, bp);
            now[i] in blocks && now[i] + blocks[now[i]] <= now[j]
  {
    assert At(bp) && At(k) && At(k + 1);
    if j <= k {
      assert At(i) && At(j);
    } else if j == k + 1 {
      assert At(i) && At(list[i]);
    } else if i <= k {
      assert At(i) && At(j - 1);
    } else if i == k + 1 {
      assert At(j - 1) && At(list[j - 1]);
    } else {
      assert At(i - 1) && At(j - 1);
    }
  }

  lemma InsertAscending(base: int, list: seq<int>, blocks: map<int, int>, arena: set<int>, k: nat, bp: int)
    requires Ascending(base, list, blocks) && Tiling(blocks, arena) && Slot(list, bp, k) && bp in blocks && base < bp
    ensures Ascending(base, Insert(list, k + 1, bp), blocks)
  {
    var now := Insert(list, k + 1, bp);
    forall i | 1 <= i < |now|
      ensures now[i] in blocks && base < now[i] && blocks[now[i]] >= 1
    {
      assert At(if i <= k then i else i - 1);
    }
    forall i, j | 1 <= i < j < |now|
      ensures now[i] + blocks[now[i]] <= now[j]
    {
      InsertPair(base, list, blocks, arena, k, bp, i, j);
    }
  }

  lemma InsertGaps(base: int, list: seq<int>, blocks: map<int, int>, k: nat, bp: int, m: nat)
    requires Ordered(base, list, blocks) && Slot(list, bp, k)
    requires 1 <= m < |list| && m != k && m != k + 1
    ensures var now := Insert(list, k + 1, bp); now[m] in blocks && Gap(now, blocks, m)
  {
    assert At(if m < k then m else m - 1);
  }

  /** Merging entry i with the entry after it, which it touches. */
  lemma MergeAscending(base: int, list: seq<int>, blocks: map<int, int>, i: nat)
    requires Ascending(base, list, blocks) && 1 <= i < |list| - 1
    requires list[i] in blocks && list[i + 1] in blocks && list[i] + blocks[list[i]] == list[i + 1]
    ensures Ascending(base, Remove(list, i + 1), Merged(blocks, list[i], list[i + 1]))
  {
    var now, then' := Remove(list, i + 1), Merged(blocks, list[i], list[i + 1]);
    assert At(i) && At(i + 1);
    forall k | 1 <= k < |now|
      ensures now[k] in then' && base < now[k] && then'[now[k]] >= 1
    {
      assert At(if k <= i then k else k + 1);
    }
    forall k, j | 1 <= k < j < |now|
      ensures now[k] + then'[now[k]] <= now[j]
    {
      assert At(if k <= i then k else k + 1) && At(if j <= i then j else j + 1);
    }
  }

  lemma MergeGaps(base: int, list: seq<int>, blocks: map<int, int>, i: nat, m: nat)
    requires Ascending(base, list, blocks) && 1 <= i < |list| - 1
    requires list[i] in blocks && list[i + 1] in blocks && list[i] + blocks[list[i]] == list[i + 1]
    requires 1 <= m < |list| - 2 && list[if m < i then m else m + 1] in blocks
    requires Gap(list, blocks, if m < i then m else m + 1)
    ensures var now, then' := Remove(list, i + 1), Merged(blocks, list[i], list[i + 1]);
            now[m] in then' && Gap(now, then', m)
  {
    assert At(i) && At(i + 1) && At(m) && At(m + 1);
  }

  /** The parts of the heap that the list surgery changes. */
  datatype Shape = Shape(list: seq<int>, blocks: map<int, int>, ptr: map<int, int>)

  /** No two neighbours touch, except possibly at the `loose` positions. */
  ghost predicate GapsBut(list: seq<int>, blocks: map<int, int>, loose: set<int>) {
    forall m {:trigger At(m)} :: At(m) && 1 <= m < |list| - 1 && m !in loose ==>
        list[m] in blocks && Gap(list, blocks, m)
  }

  ghost predicate SoundBut(base: int, s: Shape, arena: set<int>, used: set<int>, loose: set<int>) {
    && Ascending(base, s.list, s.blocks) && Circular(s.list, s.ptr) && Tiling(s.blocks, arena)
    && Accounted(s.list, used, s.blocks) && GapsBut(s.list, s.blocks, loose)
  }

  function MergeAt(s: Shape, i: nat): Shape
    requires i + 1 < |s.list| && s.list[i] in s.blocks && s.list[i + 1] in s.blocks && s.list[i + 1] in s.ptr
  {
    Shape(Remove(s.list, i + 1), Merged(s.blocks, s.list[i], s.list[i + 1]), s.ptr[s.list[i] := s.ptr[s.list[i + 1]]])
  }

  lemma MemberInsert(list: seq<int>, i: nat, a: int, x: int)
    requires i <= |list|
    ensures x in Insert(list, i, a) <==> x in list || x == a
  {
    assert list == list[..i] + list[i..];
  }

  lemma MemberRemove(list: seq<int>, i: nat, x: int)
    requires i < |list| && NoDuplicates(list)
    ensures x in Remove(list, i) <==> x in list && x != list[i]
  {
    var now := Remove(list, i);
    if x in list && x != list[i] {
      var j :| 0 <= j < |list| && list[j] == x;
      assert now[if j < i then j else j - 1] == x;
    }
    if x in now {
      var j :| 0 <= j < |now| && now[j] == x;
      assert list[if j < i then j else j + 1] == x;
      assert At(i) && At(if j < i then j else j + 1);
    }
  }

  lemma MergeAccounted(list: seq<int>, used: set<int>, blocks: map<int, int>, i: nat)
    requires Accounted(list, used, blocks) && NoDuplicates(list) && i + 1 < |list|
    requires list[i] in blocks && list[i + 1] in blocks
    ensures Accounted(Remove(list, i + 1), used, Merged(blocks, list[i], list[i + 1]))
  {
    forall a
      ensures a in Remove(list, i + 1) <==> a in list && a != list[i + 1]
    {
      MemberRemove(list, i + 1, a);
    }
  }

  lemma MergeGapsBut(base: int, list: seq<int>, blocks: map<int, int>, i: nat, loose: set<int>)
    requires Ascending(base, list, blocks) && GapsBut(list, blocks, loose) && 1 <= i < |list| - 1
    requires list[i] in blocks && list[i + 1] in blocks && list[i] + blocks[list[i]] == list[i + 1]
    requires forall m :: m in loose ==> m <= i
    ensures GapsBut(Remove(list, i + 1), Merged(blocks, list[i], list[i + 1]), loose - {i})
  {
    forall m | 1 <= m < |list| - 2 && m !in loose - {i}
      ensures var now, after := Remove(list, i + 1), Merged(blocks, list[i], list[i + 1]);
              now[m] in after && Gap(now, after, m)
    {
      assert At(if m < i then m else m + 1);
      MergeGaps(base, list, blocks, i, m);
    }
  }

  /** Merging entry i with its neighbour keeps the heap sound, once they touch. */
  lemma MergeSound(base: int, s: Shape, arena: set<int>, used: set<int>, i: nat, loose: set<int>)
    requires 1 <= i < |s.list| - 1 && SoundBut(base, s, arena, used, loose) && forall m :: m in loose ==> m <= i
    requires s.list[i] in s.blocks && s.list[i + 1] in s.blocks && s.list[i] + s.blocks[s.list[i]] == s.list[i + 1]
    ensures s.list[i + 1] in s.ptr && SoundBut(base, MergeAt(s, i), arena, used, loose - {i})
  {
    assert At(i) && At(i + 1);
    AscendingNoDuplicates(base, s.list, s.blocks);
    MergeAscending(base, s.list, s.blocks, i);
    RemoveCircular(s.list, s.ptr, i);
    MergeTiling(s.blocks, arena, s.list[i], s.list[i + 1]);
    MergeGapsBut(base, s.list, s.blocks, i, loose);
    MergeAccounted(s.list, used, s.blocks, i);
  }

  lemma InsertGapsBut(base: int, list: seq<int>, blocks: map<int, int>, k: nat, bp: int)
    requires Ordered(base, list, blocks) && Slot(list, bp, k)
    ensures GapsBut(Insert(list, k + 1, bp), blocks, {k, k + 1})
  {
    var now := Insert(list, k + 1, bp);
    forall m {:trigger At(m)} | At(m) && 1 <= m < |now| - 1 && m != k && m != k + 1
      ensures now[m] in blocks && Gap(now, blocks, m)
    {
      InsertGaps(base, list, blocks, k, bp, m);
    }
  }

  /** Linking bp after entry k, before any coalescing. */
  function InsertAfter(s: Shape, k: nat, bp: int): Shape
    requires k < |s.list| && s.list[k] in s.ptr
  {
    Shape(Insert(s.list, k + 1, bp), s.blocks, s.ptr[bp := s.ptr[s.list[k]]][s.list[k] := bp])
  }

  lemma InsertSound(base: int, s: Shape, arena: set<int>, used: set<int>, k: nat, bp: int)
    requires SoundBut(base, s, arena, used, {}) && Slot(s.list, bp, k) && bp in used && base < bp
    ensures s.list[k] in s.ptr && SoundBut(base, InsertAfter(s, k, bp), arena, used - {bp}, {k, k + 1})
  {
    assert At(k) && At(bp);
    AscendingNoDuplicates(base, s.list, s.blocks);
    InsertAscending(base, s.list, s.blocks, arena, k, bp);
    InsertCircular(s.list, s.ptr, k, bp);
    InsertGapsBut(base, s.list, s.blocks, k, bp);
    forall a
      ensures a in Insert(s.list, k + 1, bp) <==> a in s.list || a == bp
    {
      MemberInsert(s.list, k + 1, bp, a);
    }
  }

  /** Entries i and i + 1 do not touch: nothing to coalesce there. */
  lemma ApartSound(base: int, s: Shape, arena: set<int>, used: set<int>, i: nat, loose: set<int>)
    requires SoundBut(base, s, arena, used, loose)
    requires 1 <= i < |s.list| - 1 ==> s.list[i] !in s.blocks || s.list[i] + s.blocks[s.list[i]] != s.list[i + 1]
    ensures SoundBut(base, s, arena, used, loose - {i})
  {
    assert At(i) && At(i + 1);
  }

  /** malloc takes the whole entry k + 1. */
  lemma UnlinkSound(base: int, s: Shape, arena: set<int>, used: set<int>, k: nat)
    requires SoundBut(base, s, arena, used, {}) && k + 1 < |s.list|
    ensures var a := s.list[k + 1];
            && a in s.ptr && s.list[k] in s.ptr && a in s.blocks
            && SoundBut(base, Shape(Remove(s.list, k + 1), s.blocks, s.ptr[s.list[k] := s.ptr[a]]), arena,
                used + {a}, {})
  {
    assert At(k) && At(k + 1);
    AscendingNoDuplicates(base, s.list, s.blocks);
    RemoveCircular(s.list, s.ptr, k);
    RemoveAscending(base, s.list, s.blocks, k + 1);
    forall a
      ensures a in Remove(s.list, k + 1) <==> a in s.list && a != s.list[k + 1]
    {
      MemberRemove(s.list, k + 1, a);
    }
  }

  lemma RemoveAscending(base: int, list: seq<int>, blocks: map<int, int>, i: nat)
    requires Ordered(base, list, blocks) && 1 <= i < |list|
    ensures Ascending(base, Remove(list, i), blocks) && GapsBut(Remove(list, i), blocks, {})
  {
    var now := Remove(list, i);
    forall k | 1 <= k < |now|
      ensures now[k] in blocks && base < now[k] && blocks[now[k]] >= 1
    {
      assert At(if k < i then k else k + 1);
    }
    forall k, j | 1 <= k < j < |now|
      ensures now[k] + blocks[now[k]] <= now[j]
    {
      assert At(if k < i then k else k + 1) && At(if j < i then j else j + 1);
    }
    forall m {:trigger At(m)} | At(m) && 1 <= m < |now| - 1
      ensures now[m] in blocks && Gap(now, blocks, m)
    {
      assert At(m + 1) && At(m + 2);
    }
  }

  /** malloc takes the last n units of entry k. */
  lemma SplitSound(base: int, s: Shape, arena: set<int>, used: set<int>, k: nat, n: int)
    requires SoundBut(base, s, arena, used, {}) && 1 <= k < |s.list|
    requires s.list[k] in s.blocks && 1 <= n < s.blocks[s.list[k]]
    ensures var a := s.list[k]; var t := a + s.blocks[a] - n;
            t !in s.blocks && t > base && SoundBut(base, s.(blocks := Split(s.blocks, a, n)), arena, used + {t}, {})
  {
    var a := s.list[k];
    var t, now := a + s.blocks[a] - n, Split(s.blocks, a, n);
    SplitTiling(s.blocks, arena, a, n);
    assert At(k);
    forall i {:trigger At(i)} | At(i) && 1 <= i < |s.list|
      ensures s.list[i] in now && now[s.list[i]] >= 1 && now[s.list[i]] <= s.blocks[s.list[i]]
    {
    }
    if t in s.list {
      var j :| 0 <= j < |s.list| && s.list[j] == t;
      assert At(j);
    }
  }

  lemma SplitSizes(base: int, size: map<int, int>, blocks: map<int, int>, a: int, n: int)
    requires SizesAgree(base, size, blocks) && At(a) && a in blocks && base < a && 1 <= n < blocks[a]
    ensures a in size && size[a] == blocks[a]
    ensures SizesAgree(base, size[a := size[a] - n][a + blocks[a] - n := n], Split(blocks, a, n))
  {
  }

  lemma SplitStep(base: int, s: Shape, arena: set<int>, used: set<int>, size: map<int, int>, k: nat, n: int)
    requires SoundBut(base, s, arena, used, {}) && SizesAgree(base, size, s.blocks) && 1 <= k < |s.list|
    requires s.list[k] in s.blocks && 1 <= n < s.blocks[s.list[k]]
    ensures var a := s.list[k]; var t := a + s.blocks[a] - n;
            && t !in used && t > base && a !in used + {t} && a in size
            && SoundBut(base, s.(blocks := Split(s.blocks, a, n)), arena, used + {t}, {})
            && SizesAgree(base, size[a := size[a] - n][t := n], Split(s.blocks, a, n))
  {
    var a := s.list[k];
    assert At(k) && At(a) && At(a + s.blocks[a] - n);
    SplitSound(base, s, arena, used, k, n);
    SplitSizes(base, size, s.blocks, a, n);
  }

  /** A fresh region joins as an allocated block, about to be freed. */
  lemma GrowSound(base: int, s: Shape, arena: set<int>, used: set<int>, a: int, n: int)
    requires SoundBut(base, s, arena, used, {}) && n >= 1 && arena !! Region(a, n) && a > base
    ensures a !in s.blocks && SoundBut(base, s.(blocks := s.blocks[a := n]), arena + Region(a, n), used + {a}, {})
  {
    AddTiling(s.blocks, arena, a, n);
    forall i {:trigger At(i)} | At(i) && 1 <= i < |s.list|
      ensures s.list[i] in s.blocks && s.list[i] != a
    {
    }
    if a in s.list {
      var j :| 0 <= j < |s.list| && s.list[j] == a;
      assert At(j);
    }
  }

  /** All of free()'s surgery: link bp after entry k, then coalesce to the right and to the left. */
  ghost function Freed(s: Shape, k: nat, bp: int): Shape
    requires Slot(s.list, bp, k) && s.list[k] in s.ptr && bp in s.blocks
    requires forall i :: 1 <= i < |s.list| ==> s.list[i] in s.blocks && s.list[i] in s.ptr
  {
    var linked := InsertAfter(s, k, bp);
    var joined := if k + 1 < |s.list| && bp + s.blocks[bp] == s.list[k + 1] then MergeAt(linked, k + 1) else linked;
    if k > 0 && s.list[k] + s.blocks[s.list[k]] == bp then MergeAt(joined, k) else joined
  }

  lemma FreedSound(base: int, s: Shape, arena: set<int>, used: set<int>, k: nat, bp: int)
    requires SoundBut(base, s, arena, used, {}) && At(k) && At(bp) && Slot(s.list, bp, k) && bp in used && base < bp
    requires forall i :: 1 <= i < |s.list| ==> s.list[i] in s.blocks && s.list[i] in s.ptr
    ensures s.list[k] in s.ptr && SoundBut(base, Freed(s, k, bp), arena, used - {bp}, {})
  {
    InsertSound(base, s, arena, used, k, bp);
    var linked := InsertAfter(s, k, bp);
    var right := k + 1 < |s.list| && bp + s.blocks[bp] == s.list[k + 1];
    var joined := if right then MergeAt(linked, k + 1) else linked;
    if right {
      MergeSound(base, linked, arena, used - {bp}, k + 1, {k, k + 1});
    } else {
      ApartSound(base, linked, arena, used - {bp}, k + 1, {k, k + 1});
    }
    assert {k, k + 1} - {k + 1} == {k};
    if k > 0 && s.list[k] + s.blocks[s.list[k]] == bp {
      MergeSound(base, joined, arena, used - {bp}, k, {k});
    } else {
      ApartSound(base, joined, arena, used - {bp}, k, {k});
    }
    assert {k} - {k} == {};
  }

  /** The header stores of free(), p being the entry before bp. */
  function LinkedPtr(ptr: map<int, int>, size: map<int, int>, p: int, bp: int): map<int, int>
    requires p in ptr && bp in size && p in size && (bp + size[bp] == ptr[p] ==> ptr[p] in ptr)
  {
    var next := ptr[p];
    var ptr1 := ptr[bp := if bp + size[bp] == next then ptr[next] else next];
    ptr1[p := if p + size[p] == bp then ptr1[bp] else bp]
  }

  function LinkedSize(ptr: map<int, int>, size: map<int, int>, p: int, bp: int): map<int, int>
    requires p in ptr && bp in size && p in size && (bp + size[bp] == ptr[p] ==> ptr[p] in size)
  {
    var next := ptr[p];
    var size1 := if bp + size[bp] == next then size[bp := size[bp] + size[next]] else size;
    if p + size[p] == bp then size1[p := size[p] + size1[bp]] else size1
  }

  /** What free() may assume about its place in the list. */
  ghost predicate FreeAt(base: int, s: Shape, arena: set<int>, used: set<int>, size: map<int, int>, k: nat, bp: int) {
    && SoundBut(base, s, arena, used, {}) && SizesAgree(base, size, s.blocks)
    && At(k) && At(bp) && Slot(s.list, bp, k) && bp in used && base < bp
    && (forall i :: 1 <= i < |s.list| ==> s.list[i] in s.blocks && s.list[i] in s.ptr)
  }

  /** The entry before bp and the entry after it, as the headers show them. */
  lemma Neighbours(base: int, s: Shape, arena: set<int>, used: set<int>, size: map<int, int>, k: nat, bp: int)
    requires FreeAt(base, s, arena, used, size, k, bp)
    ensures var p := s.list[k];
            && p in s.ptr && p in size && bp in size && bp in s.blocks && size[bp] == s.blocks[bp] >= 1
            && (p + size[p] == bp <==> k > 0 && p + s.blocks[p] == bp)
            && (bp + size[bp] == s.ptr[p] <==> k + 1 < |s.list| && bp + s.blocks[bp] == s.list[k + 1])
            && (k + 1 < |s.list| ==>
                s.ptr[p] == s.list[k + 1] && s.list[k + 1] in size && size[s.list[k + 1]] == s.blocks[s.list[k + 1]])
            && (k > 0 ==> size[p] == s.blocks[p])
  {
    assert At(k) && At(k + 1) && At(s.list[k]) && (k + 1 < |s.list| ==> At(s.list[k + 1]));
  }

  lemma LinkedPtrIsFreed(base: int, s: Shape, arena: set<int>, used: set<int>, size: map<int, int>, k: nat, bp: int)
    requires FreeAt(base, s, arena, used, size, k, bp)
    ensures s.list[k] in s.ptr && s.list[k] in size && bp in size && bp in s.blocks
    ensures bp + size[bp] == s.ptr[s.list[k]] ==> s.ptr[s.list[k]] in s.ptr
    ensures LinkedPtr(s.ptr, size, s.list[k], bp) == Freed(s, k, bp).ptr
  {
    Neighbours(base, s, arena, used, size, k, bp);
  }

  lemma LinkedSizeIsFreed(base: int, s: Shape, arena: set<int>, used: set<int>, size: map<int, int>, k: nat, bp: int)
    requires FreeAt(base, s, arena, used, size, k, bp)
    ensures s.list[k] in s.ptr && s.list[k] in size && bp in size && bp in s.blocks
    ensures bp + size[bp] == s.ptr[s.list[k]] ==> s.ptr[s.list[k]] in size
    ensures SizesAgree(base, LinkedSize(s.ptr, size, s.list[k], bp), Freed(s, k, bp).blocks)
  {
    Neighbours(base, s, arena, used, size, k, bp);
  }

  lemma FreedEffect(base: int, s: Shape, arena: set<int>, used: set<int>, size: map<int, int>, k: nat, bp: int)
    requires FreeAt(base, s, arena, used, size, k, bp)
    ensures s.list[k] in s.ptr && bp in s.blocks && s.list[k] in Freed(s, k, bp).list
    ensures forall a {:trigger At(a)} :: At(a) && a in used && a != bp ==>
                a in s.blocks && a in Freed(s, k, bp).blocks && Freed(s, k, bp).blocks[a] == s.blocks[a]
    ensures exists a :: a in Freed(s, k, bp).list && Holds(Freed(s, k, bp).blocks, a, bp, s.blocks[bp])
  {
    Neighbours(base, s, arena, used, size, k, bp);
    var t := Freed(s, k, bp);
    assert t.list[k] == s.list[k];
    if k > 0 && s.list[k] + s.blocks[s.list[k]] == bp {
      assert Holds(t.blocks, s.list[k], bp, s.blocks[bp]);
    } else {
      assert t.list[k + 1] == bp;
      assert Holds(t.blocks, bp, bp, s.blocks[bp]);
    }
  }

  /** free() in one step: what its stores produce. */
  lemma FreeStep(base: int, s: Shape, arena: set<int>, used: set<int>, size: map<int, int>, k: nat, bp: int)
    returns (t: Shape)
    requires FreeAt(base, s, arena, used, size, k, bp)
    ensures var p := s.list[k];
            && p in s.ptr && p in size && bp in size && p != bp && bp in s.blocks && p in t.list
            && (bp + size[bp] == s.ptr[p] ==> s.ptr[p] in s.ptr && s.ptr[p] in size)
            && LinkedPtr(s.ptr, size, p, bp) == t.ptr && SizesAgree(base, LinkedSize(s.ptr, size, p, bp), t.blocks)
    ensures SoundBut(base, t, arena, used - {bp}, {})
    ensures forall a {:trigger At(a)} :: At(a) && a in used && a != bp ==>
                a in s.blocks && a in t.blocks && t.blocks[a] == s.blocks[a]
    ensures exists a :: a in t.list && Holds(t.blocks, a, bp, s.blocks[bp])
  {
    t := Freed(s, k, bp);
    FreedSound(base, s, arena, used, k, bp);
    LinkedPtrIsFreed(base, s, arena, used, size, k, bp);
    LinkedSizeIsFreed(base, s, arena, used, size, k, bp);
    FreedEffect(base, s, arena, used, size, k, bp);
  }

  /** Block a contains the n units from bp on. */
  predicate Holds(blocks: map<int, int>, a: int, bp: int, n: int) {
    a in blocks && a <= bp && bp + n <= a + blocks[a]
  }

  /** nunits of malloc: the payload rounded up to whole units, plus the header. */
  function Units(nbytes: nat): nat {
    (nbytes + HEADER_BYTES - 1) / HEADER_BYTES + 1
  }

  /** One unit is the header; the others hold the bytes asked for, and none is spare. */
  lemma UnitsHoldBytes(nbytes: nat)
    ensures HEADER_BYTES * (Units(nbytes) - 1) >= nbytes
    ensures HEADER_BYTES * (Units(nbytes) - 1) < nbytes + HEADER_BYTES
  {
  }

  class Heap {
    const base: int
    var ptr: map<int, int>
    var size: map<int, int>
    var freep: int
    ghost var list: seq<int>
    ghost var used: set<int>
    ghost var blocks: map<int, int>
    ghost var arena: set<int>

    ghost function View(): Shape
      reads this
    {
      Shape(list, blocks, ptr)
    }

    /** Before the first malloc freep is null and there is nothing. */
    ghost predicate Valid()
      reads this
    {
      && base > 0
      && (if freep == 0 then blocks == map[] && used == {} && list == [] && arena == {}
          else freep in list && SoundBut(base, View(), arena, used, {}) && SizesAgree(base, size, blocks))
    }

    constructor (base: int)
      requires base > 0
      ensures Valid() && this.base == base && used == {} && arena == {} && freep == 0
    {
      this.base := base;
      ptr, size, freep := map[], map[], 0;
      list, used, blocks, arena := [], {}, map[], {};
    }

    lemma ListEntries()
      requires Valid() && freep != 0
      ensures forall i :: 1 <= i < |list| ==> list[i] in blocks && list[i] in ptr
      ensures forall a {:trigger At(a)} :: At(a) && a in used ==> a !in list && base < a && a in blocks && a in size
    {
      forall i | 1 <= i < |list|
        ensures list[i] in blocks && list[i] in ptr
      {
        assert At(i);
      }
    }

    /** The search loop of free(): it stops at the slot of bp, from wherever freep stands. */
    method FindSlot(bp: int) returns (p: int, ghost k: nat)
      requires Valid() && freep != 0 && At(bp) && bp in used
      ensures Slot(list, bp, k) && p == list[k] && p in list && p in ptr && Stop(bp, p, ptr[p])
    {
      ListEntries();
      SlotExists(base, list, blocks, bp, |list|);
      k :| Slot(list, bp, k);
      p := freep;
      ghost var j: nat :| j < |list| && list[j] == freep;
      assert At(j);
      StopsAtSlot(base, list, blocks, bp, k, j);
      while !Stop(bp, p, ptr[p])
        invariant At(j) && 0 <= j < |list| && p == list[j]
        invariant Stop(bp, p, ptr[p]) <==> j == k
        decreases if j <= k then k - j else |list| - j + k
      {
        p := ptr[p];
        j := if j + 1 < |list| then j + 1 else 0;
        assert At(j);
        StopsAtSlot(base, list, blocks, bp, k, j);
      }
    }

    /** free: the block leaves `used`, every other allocated block keeps its place and size, and the
        list stays circular, ordered and fully coalesced. */
    method Free(ap: int)
      requires Valid() && At(ap - 1) && ap - 1 in used
      modifies this
      ensures Valid() && freep != 0 && used == old(used) - {ap - 1} && arena == old(arena)
      ensures Keeps(used, old(blocks))
      ensures exists a :: a in list && Holds(blocks, a, ap - 1, old(blocks)[ap - 1])
      ensures exists k: nat :: Slot(old(list), ap - 1, k) && freep == old(list)[k]
    {
      var bp := ap - 1;
      ListEntries();
      var p;
      ghost var k: nat;
      p, k := FindSlot(bp);
      assert FreeAt(base, View(), arena, used, size, k, bp) && Slot(old(list), bp, k);
      hide SoundBut, SizesAgree, LinkedPtr, LinkedSize, FreeAt, Slot, Stop;
      ghost var freed := FreeStep(base, View(), arena, used, size, k, bp);
      StoreLinks(p, bp);
      freep := p;
      list, blocks, used := freed.list, freed.blocks, used - {bp};
      assert View() == freed;
    }

    /** The two coalescing tests of free() and their stores. */
    method StoreLinks(p: int, bp: int)
      requires p in ptr && bp in size && p in size && p != bp
      requires bp + size[bp] == ptr[p] ==> ptr[p] in ptr && ptr[p] in size
      modifies this`ptr, this`size
      ensures ptr == LinkedPtr(old(ptr), old(size), p, bp) && size == LinkedSize(old(ptr), old(size), p, bp)
    {
      var next := ptr[p];
      if bp + size[bp] == next {
        size := size[bp := size[bp] + size[next]];
        ptr := ptr[bp := ptr[next]];
      } else {
        ptr := ptr[bp := next];
      }
      if p + size[p] == bp {
        size := size[p := size[p] + size[bp]];
        ptr := ptr[p := ptr[bp]];
      } else {
        ptr := ptr[p := bp];
      }
    }

    /** What a call may not disturb: the blocks handed out before it. */
    ghost predicate Keeps(was: set<int>, had: map<int, int>)
      reads this
    {
      forall a {:trigger At(a)} :: At(a) && a in was ==> a in had && a in blocks && blocks[a] == had[a]
    }

    /** morecore: a region of at least MIN_UNITS units is freed into the list.  `more` is what sbrk
        returns. */
    method Morecore(nu: nat, more: Option<int>) returns (ok: bool)
      requires Valid() && freep != 0 && nu >= 1
      requires more.Some? ==> more.value > base && arena !! Region(more.value, Ask(nu))
      modifies this
      ensures ok == more.Some? && Valid() && freep != 0 && used == old(used) && Keeps(used, old(blocks))
      ensures !ok ==> View() == old(View()) && freep == old(freep) && arena == old(arena) && size == old(size)
      ensures ok ==> arena == old(arena) + Region(more.value, Ask(nu))
      ensures ok ==> arena == old(arena) + Region(more.value, if nu < 4096 then 4096 else nu)
      ensures ok ==> exists a :: a in list && a in blocks && blocks[a] >= nu
    {
      if more.None? { return false; }
      var n := if nu < MIN_UNITS then MIN_UNITS else nu;
      var hp := more.value;
      assert At(hp);
      GrowSound(base, View(), arena, used, hp, n);
      ghost var was, had := used, blocks;
      size := size[hp := n];
      blocks, used, arena := blocks[hp := n], used + {hp}, arena + Region(hp, n);
      assert hp !in was && used - {hp} == was;
      Free(hp + 1);
      return true;
    }

    /** malloc finds an entry of exactly the right size: unlink it. */
    method TakeWhole(prevp: int, p: int, ghost i: nat)
      requires Valid() && freep != 0 && i + 1 < |list| && prevp == list[i] && p == list[i + 1]
      modifies this
      ensures Valid() && freep == prevp && arena == old(arena) && blocks == old(blocks)
      ensures p !in old(used) && used == old(used) + {p} && p in blocks && p > 0
    {
      assert At(i) && At(i + 1) && At(p);
      UnlinkSound(base, View(), arena, used, i);
      ptr := ptr[prevp := ptr[p]];
      list := Remove(list, i + 1);
      used := used + {p};
      assert list[i] == prevp;
      freep := prevp;
    }

    /** malloc finds a larger entry: cut its last nunits units off. */
    method TakeTail(prevp: int, p: int, ghost i: nat, nunits: nat) returns (q: int)
      requires Valid() && freep != 0 && i + 1 < |list| && prevp == list[i] && p == list[i + 1]
      requires p in blocks && p in size && size[p] == blocks[p] && 1 <= nunits < size[p]
      modifies this
      ensures Valid() && freep == prevp && arena == old(arena) && blocks == Split(old(blocks), p, nunits)
      ensures q == p + old(blocks)[p] - nunits && q !in old(used) && used == old(used) + {q} && q > 0 && p !in used
    {
      assert At(i);
      hide SoundBut, SizesAgree;
      SplitStep(base, View(), arena, used, size, i + 1, nunits);
      var left := size[p] - nunits;
      q := p + left;
      size := size[p := left][q := nunits];
      freep := prevp;
      blocks, used := Split(blocks, p, nunits), used + {q};
    }

    /** The exit of malloc's loop. */
    method Take(prevp: int, p: int, ghost i: nat, nunits: nat) returns (ap: int)
      requires Valid() && freep != 0 && i < |list| && prevp == list[i] && p == Next(list, i)
      requires nunits >= 1 && p in size && size[p] >= nunits
      modifies this
      ensures Valid() && freep == prevp && arena == old(arena)
      ensures ap - 1 !in old(used) && used == old(used) + {ap - 1} && ap > 1
      ensures ap - 1 in blocks && blocks[ap - 1] == nunits && Keeps(old(used), old(blocks))
      ensures p in old(blocks) && ap - 1 == p + old(blocks)[p] - nunits
    {
      assert At(p) && At(i + 1) && i + 1 < |list|;
      if size[p] == nunits {
        TakeWhole(prevp, p, i);
        return p + 1;
      } else {
        var q := TakeTail(prevp, p, i, nunits);
        return q + 1;
      }
    }

    /** The first malloc builds the list out of base alone. */
    method Init()
      requires Valid() && freep == 0
      modifies this
      ensures Valid() && freep == base && used == old(used) && arena == old(arena) && blocks == old(blocks)
    {
      ptr, size, freep := ptr[base := base], size[base := 0], base;
      list := [base];
    }

    /** malloc.  `more` is what sbrk would return; it is asked at most once.  The block handed out is
        new, has exactly the units asked for, and no other allocated block moves; with Valid() this
        means no two allocated blocks overlap and every unit ever obtained is free or allocated.
        sbrk is asked exactly when no free entry is large enough, and null comes back exactly when it
        then refuses. */
    method Malloc(nbytes: nat, more: Option<int>) returns (ap: int)
      requires Valid() && nbytes < 0x1_0000_0000
      requires more.Some? ==> Ask(Units(nbytes)) * HEADER_BYTES < INT_LIMIT && more.value > base
      requires more.Some? ==> arena !! Region(more.value, Ask(Units(nbytes)))
      modifies this
      ensures Valid() && (ap == 0 ==> used == old(used) && Keeps(used, old(blocks)))
      ensures ap == 0 <==> more.None? && NoneFits(old(list), old(blocks), Units(nbytes))
      ensures ap != 0 ==>
                && ap - 1 !in old(used) && used == old(used) + {ap - 1} && Keeps(old(used), old(blocks))
                && ap - 1 in blocks && blocks[ap - 1] == Units(nbytes)
                && nbytes <= HEADER_BYTES * (blocks[ap - 1] - 1) < nbytes + HEADER_BYTES
      ensures ap != 0 && !NoneFits(old(list), old(blocks), Units(nbytes)) ==>
                IsNextFit(old(list), old(blocks), old(freep), Units(nbytes), ap - 1)
      ensures arena == old(arena) + (if more.None? || !NoneFits(old(list), old(blocks), Units(nbytes)) then {}
                                     else Region(more.value, Ask(Units(nbytes))))
    {
      var nunits := Units(nbytes);
      UnitsHoldBytes(nbytes);
      var prevp, p;
      ghost var f: nat, none;
      prevp, p, f, none := StartSearch(nunits);
      hide SoundBut, SizesAgree, NoneFits, IsNextFit, Ahead, Behind, Units, Region, Next;
      ghost var was, had, had0, entries, from := used, blocks, arena, list, freep;
      ghost var i: nat, grown := f, false;
      while true
        invariant Searching(prevp, p, i, f, nunits, grown) && used == was && Keeps(was, had)
        invariant if grown then more.Some? && none && arena == had0 + Region(more.value, Ask(nunits))
                  else arena == had0 && blocks == had && list == entries && freep == from && Behind(i, f, nunits)
        decreases if grown then 0 else 1, Steps(|list|, i, f)
      {
        SearchTurn(prevp, p, i, f, nunits, grown);
        if size[p] >= nunits {
          FitIsThere(prevp, p, i, f, nunits, grown);
          if !grown {
            FitIsNext(prevp, p, i, f, nunits);
          }
          ap := Take(prevp, p, i, nunits);
          return;
        }
        if !grown {
          BehindTurn(prevp, p, i, f, nunits);
        }
        if p == freep {
          var ok;
          ok, f := Refill(nunits, more);
          if !ok { return 0; }
          grown := true;
          p := freep;
          i := f;
        } else {
          i := if i + 1 < |list| then i + 1 else 0;
        }
        prevp := p;
        p := ptr[p];
      }
    }

    /** malloc up to its loop, which starts after entry f.  `none` says that no entry is large enough. */
    method StartSearch(nunits: nat) returns (prevp: int, p: int, ghost f: nat, ghost none: bool)
      requires Valid() && nunits >= 1
      modifies this
      ensures Searching(prevp, p, f, f, nunits, false) && Behind(f, f, nunits)
      ensures used == old(used) && arena == old(arena) && blocks == old(blocks) && Keeps(used, blocks)
      ensures !none ==> list == old(list) && freep == old(freep)
      ensures none == NoneFits(list, blocks, nunits) == NoneFits(old(list), old(blocks), nunits)
    {
      if freep == 0 {
        Init();
      }
      prevp := freep;
      f :| f < |list| && list[f] == freep;
      assert At(f);
      p := ptr[prevp];
      none := NoneFits(list, blocks, nunits);
    }

    /** morecore inside malloc's loop: the search starts over from freep, with a large enough entry
        ahead of it. */
    method Refill(nunits: nat, more: Option<int>) returns (ok: bool, ghost g: nat)
      requires Valid() && freep != 0 && nunits >= 1
      requires more.Some? ==> more.value > base && arena !! Region(more.value, Ask(nunits))
      modifies this
      ensures ok == more.Some? && Valid() && used == old(used) && Keeps(used, old(blocks))
      ensures arena == if ok then old(arena) + Region(more.value, Ask(nunits)) else old(arena)
      ensures ok ==> freep in ptr && Searching(freep, ptr[freep], g, g, nunits, true)
    {
      ok := Morecore(nunits, more);
      g := 0;
      if !ok { return; }
      g :| g < |list| && list[g] == freep;
      ghost var m: nat :| m < |list| && list[m] in blocks && blocks[list[m]] >= nunits;
      assert At(g) && At(m) && Ahead(m, g, g, nunits);
    }

    /** malloc's search: prevp is entry i, p the one after it, freep entry f.  Once morecore has run,
        a large enough entry lies between p and freep. */
    ghost predicate Searching(prevp: int, p: int, i: nat, f: nat, nunits: nat, grown: bool)
      reads this
    {
      && Valid() && freep != 0 && nunits >= 1
      && i < |list| && f < |list| && list[f] == freep && prevp == list[i] && p == Next(list, i)
      && (grown ==> exists m: nat {:trigger At(m)} :: At(m) && m < |list| && Ahead(m, i, f, nunits))
    }

    /** Every entry the search has visited is too small. */
    ghost predicate Behind(i: nat, f: nat, nunits: nat)
      requires i < |list| && f < |list|
      reads this
    {
      forall m: nat {:trigger At(m)} :: At(m) && m < |list| && Distance(|list|, m, f) >= Steps(|list|, i, f) ==>
        TooSmall(list[m], blocks, nunits)
    }

    lemma FitIsThere(prevp: int, p: int, i: nat, f: nat, nunits: nat, grown: bool)
      requires Searching(prevp, p, i, f, nunits, grown) && p in size && size[p] >= nunits
      ensures !NoneFits(list, blocks, nunits)
    {
      var j := if i + 1 < |list| then i + 1 else 0;
      assert At(i) && At(j) && At(p) && p == list[j];
      assert !TooSmall(p, blocks, nunits);
    }

    /** The entry the search stops at is the first large enough one after freep. */
    lemma FitIsNext(prevp: int, p: int, i: nat, f: nat, nunits: nat)
      requires Searching(prevp, p, i, f, nunits, false) && Behind(i, f, nunits) && p in size && size[p] >= nunits
      ensures var j := if i + 1 < |list| then i + 1 else 0;
              p in blocks && IsNextFit(list, blocks, freep, nunits, p + blocks[p] - nunits)
    {
      var j := if i + 1 < |list| then i + 1 else 0;
      assert At(i) && At(j) && At(f) && At(p) && p == list[j];
      forall m: nat {:trigger At(m)} | At(m) && m < |list| && Distance(|list|, m, f) > Distance(|list|, j, f)
        ensures TooSmall(list[m], blocks, nunits)
      {
      }
      assert NextFit(list, blocks, f, j, nunits);
    }

    /** A turn that finds p too small leaves one more entry behind, at the end all of them. */
    lemma BehindTurn(prevp: int, p: int, i: nat, f: nat, nunits: nat)
      requires Searching(prevp, p, i, f, nunits, false) && Behind(i, f, nunits) && p in size && size[p] < nunits
      ensures var j := if i + 1 < |list| then i + 1 else 0;
              if p == freep then NoneFits(list, blocks, nunits) else Behind(j, f, nunits)
    {
      var j := if i + 1 < |list| then i + 1 else 0;
      assert At(i) && At(j) && At(f) && At(p) && p == list[j];
      assert TooSmall(p, blocks, nunits);
      if p == freep {
        assert j == f;
        forall a | a in list
          ensures TooSmall(a, blocks, nunits)
        {
          var m: nat :| m < |list| && list[m] == a;
          assert At(m);
        }
      } else {
        forall m: nat {:trigger At(m)} | At(m) && m < |list| && Distance(|list|, m, f) >= Steps(|list|, j, f)
          ensures TooSmall(list[m], blocks, nunits)
        {
        }
      }
    }

    /** Entry m is large enough and still to be visited. */
    ghost predicate Ahead(m: nat, i: nat, f: nat, nunits: nat)
      requires m < |list| && i < |list| && f < |list|
      reads this
    {
      list[m] in blocks && blocks[list[m]] >= nunits && Distance(|list|, m, f) < Steps(|list|, i, f)
    }

    /** A turn that finds p too small: either the circle is complete and morecore has not run yet, or
        the search moves one entry closer to freep. */
    lemma SearchTurn(prevp: int, p: int, i: nat, f: nat, nunits: nat, grown: bool)
      requires Searching(prevp, p, i, f, nunits, grown)
      ensures p in size && p in ptr
      ensures var j := if i + 1 < |list| then i + 1 else 0;
              size[p] < nunits ==>
                if p == freep then !grown
                else Searching(p, ptr[p], j, f, nunits, grown) && Steps(|list|, j, f) < Steps(|list|, i, f)
    {
      var j := if i + 1 < |list| then i + 1 else 0;
      assert At(i) && At(j) && At(f) && At(p);
      if size[p] < nunits && grown {
        var m: nat :| At(m) && m < |list| && Ahead(m, i, f, nunits);
        assert At(list[m]);
      }
    }
  }

  function Distance(n: nat, m: nat, f: nat): nat
    requires m < n && f < n
  {
    if m <= f then f - m else n - m + f
  }

  /** How far entry i is from entry f, going round a list of n entries; a full turn when they are
      the same. */
  function Steps(n: nat, i: nat, f: nat): nat
    requires i < n && f < n
  {
    if i < f then f - i else n - i + f
  }

  ghost predicate NoneFits(list: seq<int>, blocks: map<int, int>, nunits: nat) {
    forall a :: a in list ==> TooSmall(a, blocks, nunits)
  }

  /** Going round from the entry after f, j is the first entry that is large enough. */
  ghost predicate NextFit(list: seq<int>, blocks: map<int, int>, f: nat, j: nat, nunits: nat) {
    && f < |list| && j < |list| && list[j] in blocks && blocks[list[j]] >= nunits
    && forall m: nat {:trigger At(m)} :: At(m) && m < |list| && Distance(|list|, m, f) > Distance(|list|, j, f) ==>
        TooSmall(list[m], blocks, nunits)
  }

  /** a is where the last nunits units of that entry begin. */
  ghost predicate IsNextFit(list: seq<int>, blocks: map<int, int>, freep: int, nunits: nat, a: int) {
    exists f: nat, j: nat ::
      NextFit(list, blocks, f, j, nunits) && list[f] == freep && a == list[j] + blocks[list[j]] - nunits
  }

  predicate TooSmall(a: int, blocks: map<int, int>, nunits: nat) {
    a in blocks ==> blocks[a] < nunits
  }

  /** The size morecore asks sbrk for. */
  function Ask(nu: nat): nat {
    if nu < MIN_UNITS then MIN_UNITS else nu
  }

  // What Valid() means to a user of the heap

  /** Two blocks handed out never share a unit, and lie inside what sbrk returned. */
  lemma NoOverlap(h: Heap, a: int, b: int)
    requires h.Valid() && a in h.used && b in h.used && a != b
    ensures a in h.blocks && b in h.blocks && (a + h.blocks[a] <= b || b + h.blocks[b] <= a)
    ensures Region(a, h.blocks[a]) <= h.arena
  {
    assert At(a) && At(b);
    forall u | u in Region(a, h.blocks[a])
      ensures u in h.arena
    {
      assert Covers(h.blocks, a, u);
    }
  }

  /** Conservation: every unit obtained from sbrk lies in exactly one block, and that block is either
      on the free list or handed out, not both. */
  lemma EveryUnitAccounted(h: Heap, u: int)
    requires h.Valid() && u in h.arena
    ensures exists a :: Covers(h.blocks, a, u) && (a in h.used <==> a !in h.list)
    ensures forall a, b :: Covers(h.blocks, a, u) && Covers(h.blocks, b, u) ==> a == b
  {
    var a :| Covers(h.blocks, a, u);
    assert At(a);
    forall x, y | Covers(h.blocks, x, u) && Covers(h.blocks, y, u)
      ensures x == y
    {
      assert At(x) && At(y);
    }
  }

  /** The free list as the headers have it: a circle through base in address order, no two of its
      blocks touching. */
  lemma FreeListShape(h: Heap, k: nat)
    requires h.Valid() && h.freep != 0 && k < |h.list|
    ensures h.list[0] == h.base && h.freep in h.list && h.list[k] in h.ptr
    ensures h.ptr[h.list[k]] == if k + 1 < |h.list| then h.list[k + 1] else h.base
    ensures k + 1 < |h.list| ==> h.list[k] < h.list[k + 1]
    ensures k > 0 ==> h.list[k] in h.blocks && h.list[k] in h.size && h.size[h.list[k]] == h.blocks[h.list[k]]
    ensures k > 0 && k + 1 < |h.list| ==> h.list[k] + h.blocks[h.list[k]] < h.list[k + 1]
  {
    assert At(k) && At(k + 1) && At(0) && At(h.list[k]);
  }

  // The int argument of sbrk

  function ToInt32(x: nat): int {
    var y := x % 0x1_0000_0000;
    if y >= INT_LIMIT then y - 0x1_0000_0000 else y
  }

  /** morecore passes nu * sizeof(Header) as an int: sbrk is asked for what the header will record
      exactly when the request is at most 0x7FFFFFE0 bytes. */
  lemma SbrkArgumentFits(nbytes: nat)
    requires nbytes < 0x1_0000_0000
    ensures ToInt32(Ask(Units(nbytes)) * HEADER_BYTES) == Ask(Units(nbytes)) * HEADER_BYTES <==> nbytes <= 0x7FFF_FFE0
    ensures nbytes <= 0x7FFF_FFE0 ==> Ask(Units(nbytes)) * HEADER_BYTES < INT_LIMIT
  {
    var q := (nbytes + 15) / 16;
    assert 16 * q <= nbytes + 15 < 16 * q + 16;
  }

  /** What the process owns once sbrk(bytes) has returned the old break hp. */
  function Obtained(arena: set<int>, hp: int, bytes: int): set<int> {
    if bytes >= 0 then arena + Region(hp, bytes / HEADER_BYTES)
    else arena - Region(hp + bytes / HEADER_BYTES, -bytes / HEADER_BYTES)
  }

  /** Above that limit morecore breaks conservation: the block it adds has units sbrk did not give.
      Up to it, the blocks still tile exactly what was obtained. */
  lemma ConservedExactly(blocks: map<int, int>, arena: set<int>, hp: int, nbytes: nat)
    requires Tiling(blocks, arena) && nbytes < 0x1_0000_0000 && arena !! Region(hp, Ask(Units(nbytes)))
    ensures var n := Ask(Units(nbytes));
            Tiling(blocks[hp := n], Obtained(arena, hp, ToInt32(n * HEADER_BYTES))) <==> nbytes <= 0x7FFF_FFE0
  {
    var n := Ask(Units(nbytes));
    SbrkArgumentFits(nbytes);
    if nbytes <= 0x7FFF_FFE0 {
      AddTiling(blocks, arena, hp, n);
    } else {
      var u := hp + n - 1;
      assert Covers(blocks[hp := n], hp, u);
      assert InRegion(hp, n, u);
    }
  }

  /** The largest request asks sbrk for 16 bytes and records 2^28 + 1 units. */
  lemma SbrkArgumentWraps()
    ensures Ask(Units(0xFFFF_FFFF)) == 0x1000_0001 && ToInt32(Ask(Units(0xFFFF_FFFF)) * HEADER_BYTES) == HEADER_BYTES
  {
  }
}
