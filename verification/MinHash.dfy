/** The MinHash signature of cache.c: a key is cut into words, and entry k of its signature is the
    least value of the k-th hash over those words.  The FNV-1a pair is a parameter. */
module MinHash {
  import opened BlockBytes

  const SIG_K: nat := 64
  const WORD_MAX: nat := 32
  const MIN_WORDS_FOR_SEMANTIC: nat := 3
  const UINT64: nat := 0x1_0000_0000_0000_0000

  type Word = seq<Byte>

  type Hash = Word -> nat

  const STOPWORDS: seq<string> := [
    "the", "a", "an", "is", "are", "was", "of", "to", "in", "on", "at",
    "for", "and", "or", "what", "how", "why", "do", "does", "did",
    "i", "you", "it", "this", "that", "me", "my", "please", "can"]

  predicate IsWordByte(c: Byte) {
    48 <= c <= 57 || 65 <= c <= 90 || 97 <= c <= 122 || 0x80 <= c
  }

  function Low(c: Byte): Byte {
    if 65 <= c <= 90 then c + 32 else c
  }

  predicate Spells(s: string, w: Word) {
    |s| == |w| && forall j :: 0 <= j < |w| ==> s[j] as int == w[j]
  }

  predicate IsStop(w: Word) {
    exists i :: 0 <= i < |STOPWORDS| && Spells(STOPWORDS[i], w)
  }

  // The words of a key

  /** The length of the run of word bytes that starts s. */
  function RunLen(s: seq<Byte>): (n: nat)
    ensures n <= |s| && (forall i :: 0 <= i < n ==> IsWordByte(s[i])) && (n < |s| ==> !IsWordByte(s[n]))
  {
    if s == [] || !IsWordByte(s[0]) then 0 else 1 + RunLen(s[1..])
  }

  function Lowered(s: seq<Byte>): (r: seq<Byte>)
    ensures |r| == |s| && forall i :: 0 <= i < |s| ==> r[i] == Low(s[i])
  {
    if s == [] then [] else Lowered(s[..|s| - 1]) + [Low(s[|s| - 1])]
  }

  /** A run as a word: lowercased and cut to WORD_MAX bytes. */
  function Clean(run: seq<Byte>): Word {
    if |run| <= WORD_MAX then Lowered(run) else Lowered(run[..WORD_MAX])
  }

  function Content(run: seq<Byte>): seq<Word> {
    if IsStop(Clean(run)) then [] else [Clean(run)]
  }

  /** The content words of a key, in order and with repetitions. */
  function Words(key: seq<Byte>): seq<Word>
    decreases |key|
  {
    if key == [] then []
    else if !IsWordByte(key[0]) then Words(key[1..])
    else Content(key[..RunLen(key)]) + Words(key[RunLen(key)..])
  }

  function WordSet(key: seq<Byte>): set<Word> {
    set w | w in Words(key)
  }

  lemma {:induction false} RunLenCut(a: seq<Byte>, s: Byte, b: seq<Byte>)
    requires !IsWordByte(s)
    ensures RunLen(a + [s] + b) == RunLen(a)
  {
    if a != [] && IsWordByte(a[0]) {
      RunLenCut(a[1..], s, b);
      assert (a + [s] + b)[1..] == a[1..] + [s] + b;
    }
  }

  /** Any separator splits a key into two independent lists of words. */
  lemma {:induction false} SeparatorSplits(a: seq<Byte>, s: Byte, b: seq<Byte>)
    requires !IsWordByte(s)
    ensures Words(a + [s] + b) == Words(a) + Words(b)
    decreases |a|
  {
    hide IsStop, Clean;
    var t := a + [s] + b;
    if a == [] {
      assert t[1..] == b;
    } else if !IsWordByte(a[0]) {
      SeparatorSplits(a[1..], s, b);
      assert t[1..] == a[1..] + [s] + b;
    } else {
      RunLenCut(a, s, b);
      var n := RunLen(a);
      SeparatorSplits(a[n..], s, b);
      assert t[n..] == a[n..] + [s] + b && t[..n] == a[..n];
    }
  }

  lemma CleanLowered(run: seq<Byte>)
    ensures Clean(Lowered(run)) == Clean(run)
  {
    var cut := if |run| <= WORD_MAX then run else run[..WORD_MAX];
    assert Lowered(Lowered(cut)) == Lowered(cut);
    assert Lowered(run)[..|cut|] == Lowered(cut) && Lowered(run)[..|run|] == Lowered(run);
  }

  /** Case does not matter. */
  lemma {:induction false} CaseIgnored(key: seq<Byte>)
    ensures Words(Lowered(key)) == Words(key)
    decreases |key|
  {
    hide Lowered, RunLen, IsStop, Clean;
    if key != [] {
      var low := Lowered(key);
      assert IsWordByte(low[0]) <==> IsWordByte(key[0]);
      hide IsWordByte;
      if !IsWordByte(key[0]) {
        CaseIgnored(key[1..]);
        assert low[1..] == Lowered(key[1..]);
      } else {
        RunLenLowered(key);
        var n := RunLen(key);
        FirstWordRuns(key);
        CaseIgnored(key[n..]);
        CleanLowered(key[..n]);
        assert low[n..] == Lowered(key[n..]) && low[..n] == Lowered(key[..n]);
      }
    }
  }

  lemma FirstWordRuns(s: seq<Byte>)
    requires s != [] && IsWordByte(s[0])
    ensures RunLen(s) > 0
  {
  }

  lemma {:induction false} RunLenLowered(s: seq<Byte>)
    ensures RunLen(Lowered(s)) == RunLen(s)
  {
    if s != [] && IsWordByte(s[0]) {
      RunLenLowered(s[1..]);
      assert Lowered(s)[1..] == Lowered(s[1..]);
    }
  }

  /** Neither the order of phrases, nor the punctuation between them, nor their repetition matters. */
  lemma OrderAndPunctuationIgnored(a: seq<Byte>, s: Byte, b: seq<Byte>, t: Byte)
    requires !IsWordByte(s) && !IsWordByte(t)
    ensures WordSet(a + [s] + b) == WordSet(b + [t] + a) == WordSet(a) + WordSet(b)
    ensures WordSet(a + [s] + a) == WordSet(a)
  {
    SeparatorSplits(a, s, b);
    SeparatorSplits(b, t, a);
    SeparatorSplits(a, s, a);
  }

  /** An unbroken run of letters, digits and bytes from 0x80 on is one word, lowercased and cut to 32
      bytes, unless that is one of the listed words. */
  lemma OneWord(run: seq<Byte>, w: Word)
    requires run != [] && forall c :: c in run ==> 48 <= c <= 57 || 65 <= c <= 90 || 97 <= c <= 122 || 0x80 <= c
    requires |w| == (if |run| < 32 then |run| else 32)
    requires forall j :: 0 <= j < |w| ==> w[j] == if 65 <= run[j] <= 90 then run[j] + 32 else run[j]
    ensures Words(run) == if IsStop(w) then [] else [w]
  {
    hide IsStop, Lowered, Words;
    assert forall i :: 0 <= i < |run| ==> run[i] in run;
    CleanIs(run, w);
    hide Clean;
    WholeRun(run);
  }

  lemma CleanIs(run: seq<Byte>, w: Word)
    requires |w| == (if |run| < 32 then |run| else 32)
    requires forall j :: 0 <= j < |w| ==> w[j] == if 65 <= run[j] <= 90 then run[j] + 32 else run[j]
    ensures Clean(run) == w
  {
    var c := Clean(run);
    forall j | 0 <= j < |w|
      ensures c[j] == w[j]
    {
      assert w[j] == Low(run[j]);
    }
    hide Lowered;
  }

  lemma WholeRun(run: seq<Byte>)
    requires run != [] && IsWordByte(run[0]) && RunLen(run) == |run|
    ensures Words(run) == if IsStop(Clean(run)) then [] else [Clean(run)]
  {
    hide IsStop, Clean;
    assert run[..|run|] == run && run[|run|..] == [] && Words([]) == [];
  }

  /** Any other byte separates. */
  lemma OtherBytesSeparate(a: seq<Byte>, s: Byte, b: seq<Byte>)
    requires !(48 <= s <= 57 || 65 <= s <= 90 || 97 <= s <= 122 || 0x80 <= s)
    ensures Words(a + [s] + b) == Words(a) + Words(b) && Words([]) == []
  {
    SeparatorSplits(a, s, b);
  }

  // The signature

  function NonZero(h: nat): (r: nat)
    ensures r > 0 && (h < UINT64 ==> r < UINT64)
  {
    if h == 0 then 1 else h
  }

  /** The k-th hash of a word, h1 + k * h2 in 64 bits. */
  function G(fa: Hash, fb: Hash, k: nat, w: Word): (g: nat)
    ensures 0 < g < UINT64
  {
    NonZero((NonZero(fa(w)) + k * NonZero(fb(w))) % UINT64)
  }

  /** The hashes of a word start at fa and go on in steps of fb, in 64 bits; 0 is moved to 1 in each. */
  lemma GSteps(fa: Hash, fb: Hash, k: nat, w: Word)
    requires fa(w) < UINT64
    ensures G(fa, fb, 0, w) == if fa(w) == 0 then 1 else fa(w)
    ensures AStep(G(fa, fb, k, w), G(fa, fb, k + 1, w), if fb(w) == 0 then 1 else fb(w))
  {
    var h1, h2 := NonZero(fa(w)), NonZero(fb(w));
    var x := (h1 + k * h2) % UINT64;
    OneStep(h1, h2, k);
    GFirst(fa, fb, w);
    assert G(fa, fb, k, w) == NonZero(x) && x < UINT64;
    hide G;
    GNext(fa, fb, k, w, x);
    assert StepsFrom(G(fa, fb, k, w), G(fa, fb, k + 1, w), x, h2);
  }

  lemma GFirst(fa: Hash, fb: Hash, w: Word)
    requires fa(w) < UINT64
    ensures G(fa, fb, 0, w) == if fa(w) == 0 then 1 else fa(w)
  {
  }

  lemma GNext(fa: Hash, fb: Hash, k: nat, w: Word, x: nat)
    requires (x + NonZero(fb(w))) % UINT64 == (NonZero(fa(w)) + (k + 1) * NonZero(fb(w))) % UINT64
    ensures G(fa, fb, k + 1, w) == NonZero((x + NonZero(fb(w))) % UINT64)
  {
  }

  lemma OneStep(h1: nat, h2: nat, k: nat)
    ensures ((h1 + k * h2) % UINT64 + h2) % UINT64 == (h1 + (k + 1) * h2) % UINT64
  {
    AddMod(h1 + k * h2, h2);
    assert h1 + k * h2 + h2 == h1 + (k + 1) * h2;
  }

  lemma AddMod(x: nat, y: nat)
    ensures (x % UINT64 + y) % UINT64 == (x + y) % UINT64
  {
  }

  ghost predicate AStep(g: nat, next: nat, step: nat) {
    exists x: nat {:trigger StepsFrom(g, next, x, step)} :: x < UINT64 && StepsFrom(g, next, x, step)
  }

  /** g is x and its successor is x + step, both with 0 moved to 1. */
  predicate StepsFrom(g: nat, next: nat, x: nat, step: nat) {
    && g == (if x == 0 then 1 else x)
    && next == (if (x + step) % UINT64 == 0 then 1 else (x + step) % UINT64)
  }

  function SigAt(fa: Hash, fb: Hash, k: nat, ws: seq<Word>): (m: nat)
    ensures m < UINT64
  {
    if ws == [] then UINT64 - 1
    else
      var rest := SigAt(fa, fb, k, ws[..|ws| - 1]);
      var g := G(fa, fb, k, ws[|ws| - 1]);
      if g < rest then g else rest
  }

  /** m is the pointwise minimum over a set of words. */
  ghost predicate IsMin(fa: Hash, fb: Hash, k: nat, ws: set<Word>, m: nat) {
    && (forall w :: w in ws ==> m <= G(fa, fb, k, w))
    && (if ws == {} then m == UINT64 - 1 else exists w :: w in ws && m == G(fa, fb, k, w))
  }

  lemma {:induction false} SigIsMin(fa: Hash, fb: Hash, k: nat, ws: seq<Word>)
    ensures IsMin(fa, fb, k, (set w | w in ws), SigAt(fa, fb, k, ws))
  {
    if ws != [] {
      var front, last := ws[..|ws| - 1], ws[|ws| - 1];
      SigIsMin(fa, fb, k, front);
      assert forall w :: w in ws <==> w in front || w == last;
      assert last in ws;
      if front == [] {
        assert SigAt(fa, fb, k, ws) == G(fa, fb, k, last);
      } else {
        assert front[0] in (set w | w in front);
      }
    }
  }

  /** Keys with the same word set have the same signature. */
  lemma SameWordsSameSignature(fa: Hash, fb: Hash, k: nat, a: seq<Byte>, b: seq<Byte>)
    requires WordSet(a) == WordSet(b)
    ensures SigAt(fa, fb, k, Words(a)) == SigAt(fa, fb, k, Words(b))
  {
    SigIsMin(fa, fb, k, Words(a));
    SigIsMin(fa, fb, k, Words(b));
  }

  // The loops

  method IsStopword(w: Word) returns (r: bool)
    ensures r <==> IsStop(w)
  {
    var words := STOPWORDS;
    assert IsStop(w) <==> exists k :: 0 <= k < |words| && Spells(words[k], w);
    hide *;
    var i := 0;
    while i < |words|
      invariant 0 <= i <= |words|
      invariant forall k :: 0 <= k < i ==> !Spells(words[k], w)
    {
      var same := SameWord(words[i], w);
      if same { return true; }
      i := i + 1;
    }
    return false;
  }

  method SameWord(s: string, w: Word) returns (r: bool)
    ensures r <==> Spells(s, w)
  {
    var j := 0;
    while j < |w| && j < |s| && s[j] as int == w[j]
      invariant 0 <= j <= |w| && j <= |s| && forall k :: 0 <= k < j ==> s[k] as int == w[k]
    {
      j := j + 1;
    }
    return j == |w| && j == |s|;
  }

  /** A word grows by one byte until it is full. */
  lemma CleanMore(run: seq<Byte>, c: Byte)
    ensures Clean(run + [c]) == if |run| < WORD_MAX then Clean(run) + [Low(c)] else Clean(run)
    ensures |Clean(run)| == if |run| < WORD_MAX then |run| else WORD_MAX
  {
    if |run| < WORD_MAX {
      assert (run + [c])[..|run|] == run;
    } else {
      assert (run + [c])[..WORD_MAX] == run[..WORD_MAX] && run[..|run|] == run;
    }
  }

  lemma RunMore(s: seq<Byte>)
    requires s != [] && IsWordByte(s[0])
    ensures RunLen(s) == 1 + RunLen(s[1..])
  {
  }

  /** The next word of the key: bytes i up to e, cleaned. */
  method NextWord(key: seq<Byte>, i: nat) returns (w: Word, e: nat)
    requires i < |key| && IsWordByte(key[i])
    ensures e == i + RunLen(key[i..]) <= |key| && w == Clean(key[i..e])
  {
    w, e := [], i;
    hide RunLen, Clean;
    CleanEmpty();
    assert key[i..e] == [];
    while e < |key| && IsWordByte(key[e])
      invariant i <= e <= |key| && RunLen(key[i..]) == e - i + RunLen(key[e..])
      invariant w == Clean(key[i..e])
    {
      var c := Low(key[e]);
      RunMore(key[e..]);
      CleanMore(key[i..e], key[e]);
      assert key[i..e + 1] == key[i..e] + [key[e]] && key[e..][1..] == key[e + 1..];
      if |w| < WORD_MAX {
        w := w + [c];
      }
      e := e + 1;
    }
    RunNone(key[e..]);
  }

  lemma CleanEmpty()
    ensures Clean([]) == []
  {
  }

  lemma RunNone(s: seq<Byte>)
    requires s == [] || !IsWordByte(s[0])
    ensures RunLen(s) == 0
  {
  }

  /** The signature of a list of words. */
  ghost predicate IsSig(fa: Hash, fb: Hash, sig: seq<nat>, ws: seq<Word>) {
    |sig| == SIG_K && forall k :: 0 <= k < SIG_K ==> sig[k] == SigAt(fa, fb, k, ws)
  }

  /** The words found before position i are `seen`. */
  ghost predicate SoFar(key: seq<Byte>, i: nat, seen: seq<Word>) {
    i <= |key| && seen + Words(key[i..]) == Words(key)
  }

  lemma SoFarSkip(key: seq<Byte>, i: nat, seen: seq<Word>)
    requires SoFar(key, i, seen) && i < |key| && !IsWordByte(key[i])
    ensures SoFar(key, i + 1, seen)
  {
    assert key[i..][1..] == key[i + 1..];
  }

  lemma SoFarWord(key: seq<Byte>, i: nat, seen: seq<Word>, e: nat)
    requires SoFar(key, i, seen) && i < |key| && IsWordByte(key[i]) && e == i + RunLen(key[i..])
    ensures SoFar(key, e, seen + Content(key[i..e]))
  {
    hide IsStop, Clean, RunLen;
    assert key[i..][..e - i] == key[i..e] && key[i..][e - i..] == key[e..];
    assert seen + Content(key[i..e]) + Words(key[e..]) == seen + (Content(key[i..e]) + Words(key[e..]));
  }

  lemma SoFarAll(key: seq<Byte>, i: nat, seen: seq<Word>)
    requires SoFar(key, i, seen) && i == |key|
    ensures seen == Words(key)
  {
    assert seen + [] == seen;
  }

  /** build_signature: entry k is the least k-th hash over the content words; the result is their
      number, or 0 when they are too few to match on. */
  method BuildSignature(fa: Hash, fb: Hash, key: seq<Byte>) returns (n: nat, sig: seq<nat>)
    ensures IsSig(fa, fb, sig, Words(key))
    ensures n == if |Words(key)| < MIN_WORDS_FOR_SEMANTIC then 0 else |Words(key)|
  {
    sig := AllOnes(SIG_K);
    ghost var seen: seq<Word> := [];
    var words, i := 0, 0;
    assert key[0..] == key;
    assert SoFar(key, 0, []) && IsSig(fa, fb, sig, []);
    hide IsStop, Clean, SigAt, SoFar, Words, RunLen, IsSig;
    while i < |key|
      invariant i <= |key| && SoFar(key, i, seen) && words == |seen| && IsSig(fa, fb, sig, seen)
    {
      if !IsWordByte(key[i]) {
        SoFarSkip(key, i, seen);
        i := i + 1;
      } else {
        var w, e := NextWord(key, i);
        SoFarWord(key, i, seen, e);
        var stop := IsStopword(w);
        if stop {
          assert seen + Content(key[i..e]) == seen;
        } else {
          sig := Lessen(fa, fb, sig, w, seen);
          words := words + 1;
          seen := seen + [w];
        }
        i := e;
      }
    }
    SoFarAll(key, i, seen);
    n := if words < MIN_WORDS_FOR_SEMANTIC then 0 else words;
  }

  function AllOnes(n: nat): (s: seq<nat>)
    ensures |s| == n && forall k :: 0 <= k < n ==> s[k] == UINT64 - 1
  {
    if n == 0 then [] else AllOnes(n - 1) + [UINT64 - 1]
  }

  /** build_signature's inner loop for one word. */
  method Lessen(fa: Hash, fb: Hash, sig: seq<nat>, w: Word, ghost seen: seq<Word>) returns (r: seq<nat>)
    requires IsSig(fa, fb, sig, seen)
    ensures IsSig(fa, fb, r, seen + [w])
  {
    r := sig;
    var k := 0;
    assert (seen + [w])[..|seen|] == seen;
    while k < SIG_K
      invariant k <= SIG_K == |r|
      invariant forall j :: 0 <= j < SIG_K ==> r[j] == SigAt(fa, fb, j, if j < k then seen + [w] else seen)
    {
      var g := G(fa, fb, k, w);
      if g < r[k] {
        r := r[k := g];
      }
      k := k + 1;
    }
  }

  /** The number of positions where two signatures agree. */
  function Matches(a: seq<nat>, b: seq<nat>): (c: nat)
    requires |a| == |b|
    ensures c <= |a| && (c == |a| <==> a == b)
  {
    if a == [] then 0
    else
      assert a == a[..|a| - 1] + [a[|a| - 1]] && b == b[..|b| - 1] + [b[|b| - 1]];
      Matches(a[..|a| - 1], b[..|b| - 1]) + (if a[|a| - 1] == b[|b| - 1] then 1 else 0)
  }

  function EqualPlaces(a: seq<nat>, b: seq<nat>): set<nat>
    requires |a| == |b|
  {
    set k: nat | k < |a| && a[k] == b[k]
  }

  lemma {:induction false} MatchesIsCount(a: seq<nat>, b: seq<nat>)
    requires |a| == |b|
    ensures Matches(a, b) == |EqualPlaces(a, b)|
    decreases |a|
  {
    if a == [] {
      assert EqualPlaces(a, b) == {};
    } else {
      var k := |a| - 1;
      MatchesIsCount(a[..k], b[..k]);
      assert EqualPlaces(a, b) == EqualPlaces(a[..k], b[..k]) + if a[k] == b[k] then {k} else {};
    }
  }

  method JaccardMatchCount(a: seq<nat>, b: seq<nat>) returns (c: nat)
    requires |a| == |b| == SIG_K
    ensures c == Matches(a, b) == |EqualPlaces(a, b)|
  {
    MatchesIsCount(a, b);
    var k := 0;
    c := 0;
    while k < SIG_K
      invariant k <= SIG_K && c == Matches(a[..k], b[..k])
    {
      assert a[..k + 1][..k] == a[..k] && b[..k + 1][..k] == b[..k];
      if a[k] == b[k] {
        c := c + 1;
      }
      k := k + 1;
    }
    assert a[..k] == a && b[..k] == b;
  }
}
