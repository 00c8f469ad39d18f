/** A disk block as bytes, and the two other ways fs.c reads one: as 256 little-endian block numbers
    (the indirect block) and as 8192 bits (the free map). */
module BlockBytes {

  const BSIZE: nat := 1024
  const NINDIRECT: nat := 256
  const BPB: nat := 8192

  type Byte = x: nat | x < 256

  datatype Block = Block(bytes: seq<Byte>) {
    predicate Full() {
      |bytes| == BSIZE
    }
  }

  function Zeros(n: nat): (z: seq<Byte>)
    ensures |z| == n && forall i :: 0 <= i < n ==> z[i] == 0
  {
    if n == 0 then [] else Zeros(n - 1) + [0]
  }

  function ZeroBlock(): (z: Block)
    ensures z.Full() && forall i :: 0 <= i < BSIZE ==> z.bytes[i] == 0
  {
    Block(Zeros(BSIZE))
  }

  // Bits: data[bi/8] & (1 << (bi % 8))

  function Mask(k: nat): (m: nat)
    ensures m >= 1
  {
    if k == 0 then 1 else 2 * Mask(k - 1)
  }

  predicate Bit(x: nat, k: nat) {
    if k == 0 then x % 2 == 1 else Bit(x / 2, k - 1)
  }

  lemma {:induction false} SetBit(x: nat, k: nat, j: nat)
    requires !Bit(x, k)
    ensures Bit(x + Mask(k), j) <==> j == k || Bit(x, j)
  {
    if k > 0 {
      var m := Mask(k - 1);
      assert (x + 2 * m) / 2 == x / 2 + m && (x + 2 * m) % 2 == x % 2;
      if j > 0 {
        SetBit(x / 2, k - 1, j - 1);
      }
    } else {
      assert j > 0 ==> (x + 1) / 2 == x / 2;
    }
  }

  lemma {:induction false} SetBitFits(x: nat, k: nat, n: nat)
    requires !Bit(x, k) && k < n && x < Mask(n)
    ensures x + Mask(k) < Mask(n)
  {
    var h, m := x / 2, Mask(n - 1);
    assert Mask(n) == 2 * m && h < m;
    if k > 0 {
      var l := Mask(k - 1);
      assert Mask(k) == 2 * l && !Bit(h, k - 1);
      SetBitFits(h, k - 1, n - 1);
    } else {
      assert x == 2 * h;
    }
  }

  lemma {:induction false} ClearBit(x: nat, k: nat, j: nat)
    requires Bit(x, k)
    ensures x >= Mask(k) && (Bit(x - Mask(k), j) <==> j != k && Bit(x, j))
  {
    if k > 0 {
      var m := Mask(k - 1);
      ClearBit(x / 2, k - 1, if j > 0 then j - 1 else 0);
      assert (x - 2 * m) / 2 == x / 2 - m && (x - 2 * m) % 2 == x % 2;
    } else {
      assert j > 0 ==> (x - 1) / 2 == x / 2;
    }
  }

  /** Bit k is the one 2^k stands for. */
  lemma {:induction false} BitIs(x: nat, k: nat)
    ensures Bit(x, k) <==> x / Mask(k) % 2 == 1
    decreases k
  {
    if k > 0 {
      BitIs(x / 2, k - 1);
      HalfThen(x, Mask(k - 1));
    }
  }

  lemma HalfThen(x: nat, m: nat)
    requires m > 0
    ensures x / 2 / m == x / (2 * m)
  {
    var q, h := x / (2 * m), x / 2;
    assert x == q * (2 * m) + x % (2 * m);
    assert h == q * m + x % (2 * m) / 2;
    QuotientUnique(h, m, q, x % (2 * m) / 2);
  }

  lemma QuotientUnique(x: nat, m: nat, q: nat, r: nat)
    requires r < m && x == q * m + r
    ensures x / m == q
  {
    var p := x / m;
    assert (p - q) * m == r - x % m;
    if p != q {
      AtLeastOnce(if p > q then p - q else q - p, m);
    }
  }

  lemma AtLeastOnce(k: nat, m: nat)
    requires k >= 1
    ensures k * m >= m
  {
    assert k * m == m + (k - 1) * m;
  }

  const MASKS: seq<nat> := [1, 2, 4, 8, 16, 32, 64, 128]

  predicate BitAt(b: Block, bi: nat) {
    bi / 8 < |b.bytes| && Bit(b.bytes[bi / 8], bi % 8)
  }

  function WithBit(b: Block, bi: nat): (r: Block)
    requires b.Full() && bi < BPB && !BitAt(b, bi)
    ensures r.Full()
  {
    SetBitFits(b.bytes[bi / 8], bi % 8, 8);
    assert Mask(8) == 256 by { assert Mask(4) == 16; }
    Block(b.bytes[bi / 8 := b.bytes[bi / 8] + Mask(bi % 8)])
  }

  /** Bit bi of a block is bit bi % 8 of byte bi / 8. */
  lemma MapBit(b: Block, bi: nat)
    requires b.Full() && bi < BPB
    ensures BitAt(b, bi) <==> b.bytes[bi / 8] / MASKS[bi % 8] % 2 == 1
  {
    BitIs(b.bytes[bi / 8], bi % 8);
    assert Mask(3) == 8 && Mask(5) == 32 && Mask(7) == 128;
    assert Mask(bi % 8) == MASKS[bi % 8];
  }

  lemma WithBitAt(b: Block, bi: nat, bj: nat)
    requires b.Full() && bi < BPB && !BitAt(b, bi)
    ensures BitAt(WithBit(b, bi), bj) <==> bj == bi || BitAt(b, bj)
  {
    SetBit(b.bytes[bi / 8], bi % 8, bj % 8);
  }

  function WithoutBit(b: Block, bi: nat): (r: Block)
    requires b.Full() && bi < BPB && BitAt(b, bi)
    ensures r.Full()
  {
    ClearBit(b.bytes[bi / 8], bi % 8, 0);
    Block(b.bytes[bi / 8 := b.bytes[bi / 8] - Mask(bi % 8)])
  }

  lemma WithoutBitAt(b: Block, bi: nat, bj: nat)
    requires b.Full() && bi < BPB && BitAt(b, bi)
    ensures BitAt(WithoutBit(b, bi), bj) <==> bj != bi && BitAt(b, bj)
  {
    ClearBit(b.bytes[bi / 8], bi % 8, bj % 8);
  }

  // Words: ((uint*)data)[i]

  function Word(b: Block, i: nat): nat {
    if 4 * i + 3 < |b.bytes|
    then (b.bytes[4 * i] as nat) + 0x100 * (b.bytes[4 * i + 1] as nat) + 0x1_0000 * (b.bytes[4 * i + 2] as nat)
        + 0x100_0000 * (b.bytes[4 * i + 3] as nat)
    else 0
  }

  function WithWord(b: Block, i: nat, v: nat): (r: Block)
    requires b.Full() && i < NINDIRECT && v < 0x1_0000_0000
    ensures r.Full()
  {
    Block(b.bytes[4 * i := v % 0x100][4 * i + 1 := v / 0x100 % 0x100]
                 [4 * i + 2 := v / 0x1_0000 % 0x100][4 * i + 3 := v / 0x100_0000])
  }

  /** Words are little-endian. */
  lemma LittleEndian(b: Block, i: nat, w: Byte, x: Byte, y: Byte, z: Byte)
    requires 4 * i + 4 <= |b.bytes| && b.bytes[4 * i..4 * i + 4] == [w, x, y, z]
    ensures Word(b, i) == w + 256 * (x + 256 * (y + 256 * z))
  {
    assert b.bytes[4 * i..4 * i + 4][0] == b.bytes[4 * i] && b.bytes[4 * i..4 * i + 4][1] == b.bytes[4 * i + 1];
    assert b.bytes[4 * i..4 * i + 4][2] == b.bytes[4 * i + 2] && b.bytes[4 * i..4 * i + 4][3] == b.bytes[4 * i + 3];
  }

  lemma Digits(v: nat)
    requires v < 0x1_0000_0000
    ensures v == v % 0x100 + 0x100 * (v / 0x100 % 0x100) + 0x1_0000 * (v / 0x1_0000 % 0x100)
                + 0x100_0000 * (v / 0x100_0000)
  {
    var w := v / 0x100;
    var y := w / 0x100;
    assert v == 0x100 * w + v % 0x100 && w == 0x100 * y + w % 0x100 && y == 0x100 * (y / 0x100) + y % 0x100;
    assert v / 0x1_0000 == y && v / 0x100_0000 == y / 0x100;
  }

  lemma WithWordAt(b: Block, i: nat, v: nat, j: nat)
    requires b.Full() && i < NINDIRECT && v < 0x1_0000_0000
    ensures Word(WithWord(b, i, v), j) == if j == i then v else Word(b, j)
  {
    var r := WithWord(b, i, v).bytes;
    if j == i {
      Digits(v);
      assert r[4 * i] == v % 0x100 && r[4 * i + 1] == v / 0x100 % 0x100;
      assert r[4 * i + 2] == v / 0x1_0000 % 0x100 && r[4 * i + 3] == v / 0x100_0000;
    } else if 4 * j + 3 < |r| {
      assert r[4 * j] == b.bytes[4 * j];
      assert r[4 * j + 1] == b.bytes[4 * j + 1];
      assert r[4 * j + 2] == b.bytes[4 * j + 2];
      assert r[4 * j + 3] == b.bytes[4 * j + 3];
    }
  }

  lemma ZeroWord(j: nat)
    ensures Word(ZeroBlock(), j) == 0
  {
  }
}
