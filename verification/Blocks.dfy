/** 128-bit blocks as two 64-bit words, their XOR, and their bytes in memory. */
module Blocks {
  import opened Arithmetic
  import opened Digits
  import B = Bitwise

  // __m128i with its high and its low 64-bit lane.
  datatype Block = Block(hi: Word, lo: Word)

  const ZERO_BLOCK := Block(0, 0)

  // MakeBlock and _mm_set_epi64x: high lane first.
  function MakeBlock(hi: Word, lo: Word): Block {
    Block(hi, lo)
  }

  // The blocks read as an array of uint64_t: low lane first.
  function AsWords(blocks: seq<Block>): (w: seq<Word>)
    ensures |w| == 2 * |blocks|
    ensures forall i :: 0 <= i < |blocks| ==> w[2 * i] == blocks[i].lo && w[2 * i + 1] == blocks[i].hi
  {
    seq(2 * |blocks|, k requires 0 <= k < 2 * |blocks| => if k % 2 == 0 then blocks[k / 2].lo else blocks[k / 2].hi)
  }

  lemma XorFits(a: Word, b: Word)
    ensures B.Xor(a, b) < TWO_64
  {
    hide Pow2, B.Xor;
    Pow2Constants();
    B.XorBound(a, b, 64);
  }

  function XorWord(a: Word, b: Word): Word {
    XorFits(a, b);
    B.Xor(a, b)
  }

  function Xor(x: Block, y: Block): Block {
    Block(XorWord(x.hi, y.hi), XorWord(x.lo, y.lo))
  }

  lemma XorCommutes(x: Block, y: Block)
    ensures Xor(x, y) == Xor(y, x)
  {
    B.XorCommutes(x.hi, y.hi);
    B.XorCommutes(x.lo, y.lo);
  }

  lemma XorAssociates(x: Block, y: Block, z: Block)
    ensures Xor(Xor(x, y), z) == Xor(x, Xor(y, z))
  {
    B.XorAssociates(x.hi, y.hi, z.hi);
    B.XorAssociates(x.lo, y.lo, z.lo);
  }

  lemma XorZero(x: Block)
    ensures Xor(x, ZERO_BLOCK) == x && Xor(ZERO_BLOCK, x) == x
  {
    B.XorZero(x.hi);
    B.XorZero(x.lo);
    XorCommutes(x, ZERO_BLOCK);
  }

  lemma XorSelf(x: Block)
    ensures Xor(x, x) == ZERO_BLOCK
  {
    B.XorSelf(x.hi);
    B.XorSelf(x.lo);
  }

  // A mask comes off again.
  lemma XorCancels(x: Block, y: Block)
    ensures Xor(Xor(x, y), y) == x
  {
    hide Xor;
    XorAssociates(x, y, y);
    XorSelf(y);
    XorZero(x);
  }

  // (u + v) + (x + y) == (u + x) + (v + y)
  lemma XorSwap(u: Block, v: Block, x: Block, y: Block)
    ensures Xor(Xor(u, v), Xor(x, y)) == Xor(Xor(u, x), Xor(v, y))
  {
    hide Xor;
    XorAssociates(u, v, Xor(x, y));
    XorAssociates(v, x, y);
    XorCommutes(v, x);
    XorAssociates(x, v, y);
    XorAssociates(u, x, Xor(v, y));
  }

  // The low n bytes of w, lowest first.
  function WordBytes(w: nat, n: nat): (bytes: seq<Octet>)
    ensures |bytes| == n
  {
    if n == 0 then [] else [w % 256] + WordBytes(w / 256, n - 1)
  }

  function BytesWord(bytes: seq<Octet>): (w: nat)
    ensures w < Pow2(8 * |bytes|)
  {
    if bytes == [] then 0
    else
      Pow2Adds(8, 8 * |bytes| - 8);
      bytes[0] + 256 * BytesWord(bytes[1..])
  }

  lemma {:induction false} WordRoundTrip(w: nat, n: nat)
    requires w < Pow2(8 * n)
    ensures BytesWord(WordBytes(w, n)) == w
  {
    if n > 0 {
      Pow2Adds(8, 8 * (n - 1));
      WordRoundTrip(w / 256, n - 1);
    }
  }

  // memcpy of a block into sixteen bytes, and back.
  function BlockBytes(b: Block): (bytes: seq<Octet>)
    ensures |bytes| == 16
  {
    WordBytes(b.lo, 8) + WordBytes(b.hi, 8)
  }

  lemma BytesFit(bytes: seq<Octet>)
    requires |bytes| == 8
    ensures BytesWord(bytes) < TWO_64
  {
    hide Pow2;
    Pow2Constants();
    assert BytesWord(bytes) < Pow2(8 * |bytes|);
  }

  function BytesBlock(bytes: seq<Octet>): Block
    requires |bytes| == 16
  {
    BytesFit(bytes[..8]);
    BytesFit(bytes[8..]);
    Block(BytesWord(bytes[8..]), BytesWord(bytes[..8]))
  }

  lemma {:induction false} WordByteAt(w: nat, n: nat, k: nat)
    requires k < n
    ensures WordBytes(w, n)[k] == w / Pow2(8 * k) % 256
  {
    if k == 0 {
    } else {
      Pow2Adds(8, 8 * (k - 1));
      Pow2Constants();
      DivDiv(w, 256, Pow2(8 * (k - 1)));
      WordByteAt(w / 256, n - 1, k - 1);
    }
  }

  // The bytes of a number whose low m bytes are lo.
  lemma {:induction false} WordBytesAppend(w: nat, hi: nat, lo: nat, p: nat, m: nat, n: nat)
    requires p == Pow2(8 * m) && lo < p && w == hi * p + lo
    ensures WordBytes(w, m + n) == WordBytes(lo, m) + WordBytes(hi, n)
    decreases m
  {
    if m == 0 {
    } else {
      var q := Pow2(8 * (m - 1));
      Pow2Constants();
      Pow2Adds(8, 8 * (m - 1));
      hide *;
      ByteOff(w, hi, lo, p, q);
      WordBytesAppend(w / 256, hi, lo / 256, q, m - 1, n);
      FirstByte(w, m + n);
      FirstByte(lo, m);
      Associates([lo % 256], WordBytes(lo / 256, m - 1), WordBytes(hi, n));
    }
  }

  lemma Associates(a: seq<Octet>, b: seq<Octet>, c: seq<Octet>)
    ensures a + (b + c) == a + b + c
  {
  }

  lemma FirstByte(w: nat, n: nat)
    requires n > 0
    ensures WordBytes(w, n) == [w % 256] + WordBytes(w / 256, n - 1)
  {
  }

  lemma ByteOff(w: nat, hi: nat, lo: nat, p: nat, q: nat)
    requires lo < p == 256 * q && w == hi * p + lo
    ensures w % 256 == lo % 256 && w / 256 == hi * q + lo / 256 && lo / 256 < q
  {
    var r := hi * q;
    assert hi * p == 256 * r;
    LowByte(r, lo);
  }

  lemma LowByte(r: nat, lo: nat)
    ensures (256 * r + lo) % 256 == lo % 256 && (256 * r + lo) / 256 == r + lo / 256
  {
  }

  // In memory byte k of a block is byte k of its number, the low lane first.
  lemma BlockByteAt(b: Block, k: nat)
    requires k < 16
    ensures BlockBytes(b)[k] == (b.hi * TWO_64 + b.lo) / Pow2(8 * k) % 256
  {
    hide Pow2, WordBytes;
    Pow2Constants();
    WordBytesAppend(b.hi * TWO_64 + b.lo, b.hi, b.lo, TWO_64, 8, 8);
    WordByteAt(b.hi * TWO_64 + b.lo, 16, k);
  }

  // Eight bytes are a number in base 256, lowest byte first.
  lemma EightBytes(x: seq<Octet>, d: seq<nat>)
    requires |x| == |d| == 8 && forall k :: 0 <= k < 8 ==> d[k] == x[k]
    ensures BytesWord(x) == d[0] + 0x100 * d[1] + 0x1_0000 * d[2] + 0x100_0000 * d[3] + 0x1_0000_0000 * d[4]
                            + 0x100_0000_0000 * d[5] + 0x1_0000_0000_0000 * d[6] + 0x100_0000_0000_0000 * d[7]
  {
    hide Pow2;
    var x1, x2, x3, x4 := x[1..], x[2..], x[3..], x[4..];
    var x5, x6, x7 := x[5..], x[6..], x[7..];
    assert BytesWord(x7) == x[7] + 256 * BytesWord([]) by {
      assert x7[1..] == [];
    }
    assert BytesWord(x6) == x[6] + 256 * BytesWord(x7) by {
      assert x6[1..] == x7;
    }
    assert BytesWord(x5) == x[5] + 256 * BytesWord(x6) by {
      assert x5[1..] == x6;
    }
    assert BytesWord(x4) == x[4] + 256 * BytesWord(x5) by {
      assert x4[1..] == x5;
    }
    assert BytesWord(x3) == x[3] + 256 * BytesWord(x4) by {
      assert x3[1..] == x4;
    }
    assert BytesWord(x2) == x[2] + 256 * BytesWord(x3) by {
      assert x2[1..] == x3;
    }
    assert BytesWord(x1) == x[1] + 256 * BytesWord(x2) by {
      assert x1[1..] == x2;
    }
  }

  // Sixteen bytes are the number of the block read from them.
  lemma SixteenBytes(x: seq<Octet>, d: seq<nat>)
    requires |x| == |d| == 16 && forall k :: 0 <= k < 16 ==> d[k] == x[k]
    ensures BytesBlock(x).hi * TWO_64 + BytesBlock(x).lo
            == d[0] + 0x100 * d[1] + 0x1_0000 * d[2] + 0x100_0000 * d[3] + 0x1_0000_0000 * d[4]
               + 0x100_0000_0000 * d[5] + 0x1_0000_0000_0000 * d[6] + 0x100_0000_0000_0000 * d[7]
               + TWO_64 * (d[8] + 0x100 * d[9] + 0x1_0000 * d[10] + 0x100_0000 * d[11] + 0x1_0000_0000 * d[12]
                           + 0x100_0000_0000 * d[13] + 0x1_0000_0000_0000 * d[14] + 0x100_0000_0000_0000 * d[15])
  {
    hide Pow2, BytesWord;
    EightBytes(x[..8], d[..8]);
    EightBytes(x[8..], d[8..]);
  }

  lemma {:induction false} WordTrip(bytes: seq<Octet>)
    ensures WordBytes(BytesWord(bytes), |bytes|) == bytes
  {
    if bytes != [] {
      var w := BytesWord(bytes[1..]);
      DivModUnique(bytes[0] + 256 * w, w, bytes[0], 256);
      WordTrip(bytes[1..]);
    }
  }

  // Byte k of the number of the block read from sixteen bytes is byte k of those.
  lemma BytesBlockByteAt(x: seq<Octet>, k: nat)
    requires |x| == 16 && k < 16
    ensures (BytesBlock(x).hi * TWO_64 + BytesBlock(x).lo) / Pow2(8 * k) % 256 == x[k]
  {
    hide Pow2, WordBytes, BytesWord;
    BlockByteAt(BytesBlock(x), k);
    WordTrip(x[..8]);
    WordTrip(x[8..]);
  }

  // Bit k of each half of the XOR of two blocks.
  lemma XorBlockBit(x: Block, y: Block, k: nat)
    ensures Xor(x, y).lo / Pow2(k) % 2 == 1 <==> x.lo / Pow2(k) % 2 != y.lo / Pow2(k) % 2
    ensures Xor(x, y).hi / Pow2(k) % 2 == 1 <==> x.hi / Pow2(k) % 2 != y.hi / Pow2(k) % 2
  {
    hide Pow2, B.Xor;
    B.XorBit(x.lo, y.lo, k);
    B.XorBit(x.hi, y.hi, k);
  }

  lemma BlockRoundTrip(b: Block)
    ensures BytesBlock(BlockBytes(b)) == b
  {
    hide Pow2, WordBytes, BytesWord;
    Pow2Constants();
    WordRoundTrip(b.lo, 8);
    WordRoundTrip(b.hi, 8);
    assert BlockBytes(b)[..8] == WordBytes(b.lo, 8);
    assert BlockBytes(b)[8..] == WordBytes(b.hi, 8);
  }
}
