/** Secret-shared equality of 128-bit blocks: perform_block_equality. */
module BlockEquality {
  import opened PackedBits
  import opened Digits
  import opened AndTree
  import opened BatchEquality
  import Blocks
  import Equality

  // Each half of a block is compared as one 64-bit word in radix 2^5.
  const RADIX := Radix(64, 5)

  // shares[0] and shares[1]: the flags of the low and of the high words.
  method Deinterleave(resShares: array<Byte>, n: nat) returns (low: array<Byte>, high: array<Byte>)
    requires resShares.Length == 2 * n
    ensures fresh(low) && fresh(high) && low != high && low.Length == high.Length == n
    ensures forall i :: 0 <= i < n ==> low[i] == resShares[2 * i] && high[i] == resShares[2 * i + 1]
  {
    low, high := new Byte[n](_ => ZERO), new Byte[n](_ => ZERO);
    for i := 0 to n
      invariant forall k :: 0 <= k < i ==> low[k] == resShares[2 * k] && high[k] == resShares[2 * k + 1]
    {
      low[i] := resShares[2 * i];
      high[i] := resShares[2 * i + 1];
    }
  }

  // The packed flags under the triple bytes.
  method MaskFlags(flags: array<Byte>, triple: seq<Byte>) returns (ei: array<Byte>)
    requires flags.Length == 8 * |triple|
    ensures fresh(ei) && ei.Length == |triple|
    ensures forall c :: 0 <= c < |triple| ==> ei[c] == Xor(triple[c], PackAt(flags[..], 8 * c))
  {
    ei := new Byte[|triple|](_ => ZERO);
    for c := 0 to |triple|
      invariant forall k :: 0 <= k < c ==> ei[k] == triple[k]
    {
      ei[c] := triple[c];
    }
    var i := 0;
    while i < flags.Length
      invariant i <= flags.Length && i % 8 == 0
      invariant forall k :: 0 <= k < |triple| ==> ei[k] == if 8 * k < i then Xor(triple[k], PackAt(flags[..], 8 * k)) else triple[k]
    {
      assert flags[..][i..i + 8] == flags[i..i + 8];
      ei[i / 8] := Xor(ei[i / 8], Pack8(flags[i..i + 8]));
      i := i + 8;
    }
  }

  // Result flag i of one party.
  ghost predicate CombinedAt(alice: bool, e: seq<Byte>, f: seq<Byte>, t: Triples, ans: Byte, i: nat) {
    ans == Flag(ProductByte(alice, e, f, t.a, t.b, t.c, 0, i / 8)[i % 8])
  }

  // The last loop: eight result flags from each byte of product shares.
  method CombineFlags(alice: bool, e: array<Byte>, f: array<Byte>, t: Triples, n: nat) returns (ans: array<Byte>)
    requires n % 8 == 0 && e.Length == f.Length == |t.a| == |t.b| == |t.c| == n / 8
    ensures fresh(ans) && ans.Length == n
    ensures forall i :: 0 <= i < n ==> CombinedAt(alice, e[..], f[..], t, ans[i], i)
  {
    hide ProductByte;
    ans := new Byte[n](_ => ZERO);
    var i := 0;
    while i < n
      invariant i <= n && i % 8 == 0
      invariant forall k :: 0 <= k < i ==> CombinedAt(alice, e[..], f[..], t, ans[k], k)
    {
      var tmp := ProductAt(alice, e, f, t, i / 8);
      UnpackTo(ans, i, tmp);
      forall k | 0 <= k < i + 8
        ensures CombinedAt(alice, e[..], f[..], t, ans[k], k)
      {
        if i <= k {
          assert k / 8 == i / 8 && k % 8 == k - i;
        }
      }
      i := i + 8;
    }
  }

  // One byte of product shares.
  method ProductAt(alice: bool, e: array<Byte>, f: array<Byte>, t: Triples, c: nat) returns (tmp: Byte)
    requires c < e.Length == f.Length == |t.a| == |t.b| == |t.c|
    ensures tmp == ProductByte(alice, e[..], f[..], t.a, t.b, t.c, 0, c)
  {
    tmp := if alice then And(e[c], f[c]) else ZERO;
    tmp := Xor(tmp, And(f[c], t.a[c]));
    tmp := Xor(tmp, And(e[c], t.b[c]));
    tmp := Xor(tmp, t.c[c]);
  }

  // The shares of one block comparison.
  ghost predicate SharesBlockEqual(z1: Byte, z2: Byte, b1: Blocks.Block, b2: Blocks.Block) {
    IsFlag(z1) && IsFlag(z2) && (z1[0] != z2[0] <==> b1 == b2)
  }

  /** The randomness of one block comparison run: two equality threads and one more packed multiplication. */
  datatype BlockDraws = BlockDraws(threads: seq<Equality.Draws>, alice: Triples, bob: Triples) {
    ghost predicate Fit(n: nat)
      requires n % 8 == 0
    {
      TriplesMatch(alice, bob, n / 8) && Equality.ThreadsFit(RADIX, 2 * n, threads)
    }
  }

  // Byte c of the difference one party opens: its own masked byte XOR the peer's.
  ghost predicate OpenedFor(e: seq<Byte>, mine: seq<Byte>, myTriple: seq<Byte>, theirs: seq<Byte>, theirTriple: seq<Byte>, c: nat) {
    ByteOf(e, c) == Xor(Xor(ByteOf(myTriple, c), PackAt(mine, 8 * c)), Xor(ByteOf(theirTriple, c), PackAt(theirs, 8 * c)))
  }

  // Mask both parties' flags and exchange them.
  method OpenFlags(flags1: array<Byte>, flags2: array<Byte>, t: seq<Byte>, u: seq<Byte>) returns (e1: array<Byte>, e2: array<Byte>)
    requires flags1.Length == flags2.Length == 8 * |t| == 8 * |u|
    ensures fresh(e1) && fresh(e2) && e1.Length == e2.Length == |t|
    ensures forall c :: 0 <= c < |t| ==> OpenedFor(e1[..], flags1[..], t, flags2[..], u, c)
    ensures forall c :: 0 <= c < |t| ==> OpenedFor(e2[..], flags2[..], u, flags1[..], t, c)
  {
    hide PackAt;
    var ei1 := MaskFlags(flags1, t);
    var ei2 := MaskFlags(flags2, u);
    var commSize := |t|;
    e1 := new Byte[commSize](_ => ZERO);
    e2 := new Byte[commSize](_ => ZERO);
    Exchange(ei1, ei2, commSize, e1);
    Exchange(ei2, ei1, commSize, e2);
  }

  // The secret flag i of z is the AND of the secret flags i of x and y.
  ghost predicate AndShared(x1: Byte, x2: Byte, y1: Byte, y2: Byte, z1: Byte, z2: Byte) {
    IsFlag(z1) && IsFlag(z2) && (z1[0] != z2[0] <==> x1[0] != x2[0] && y1[0] != y2[0])
  }

  // One packed Beaver AND of both parties' flags.
  method AndFlags(low1: array<Byte>, high1: array<Byte>, low2: array<Byte>, high2: array<Byte>, t: Triples, u: Triples, n: nat)
    returns (ans1: array<Byte>, ans2: array<Byte>)
    requires n % 8 == 0 && low1.Length == high1.Length == low2.Length == high2.Length == n && TriplesMatch(t, u, n / 8)
    ensures fresh(ans1) && fresh(ans2) && ans1 != ans2 && ans1.Length == ans2.Length == n
    ensures forall i :: 0 <= i < n ==> AndShared(low1[i], low2[i], high1[i], high2[i], ans1[i], ans2[i])
  {
    hide OpenedFor, CombinedAt, AndShared;
    var e1, e2 := OpenFlags(low1, low2, t.a, u.a);
    var f1, f2 := OpenFlags(high1, high2, t.b, u.b);
    ans1 := CombineFlags(true, e1, f1, t, n);
    ans2 := CombineFlags(false, e2, f2, u, n);
    forall i | 0 <= i < n
      ensures AndShared(low1[i], low2[i], high1[i], high2[i], ans1[i], ans2[i])
    {
      FlagProduct(low1[..], low2[..], high1[..], high2[..], t, u, e1[..], f1[..], e2[..], f2[..], n, i, ans1[i], ans2[i]);
    }
  }

  lemma FlagProduct(x1: seq<Byte>, x2: seq<Byte>, y1: seq<Byte>, y2: seq<Byte>, t: Triples, u: Triples,
                    e1: seq<Byte>, f1: seq<Byte>, e2: seq<Byte>, f2: seq<Byte>, n: nat, i: nat, z1: Byte, z2: Byte)
    requires n % 8 == 0 && i < n && |x1| == |x2| == |y1| == |y2| == n && TriplesMatch(t, u, n / 8)
    requires OpenedFor(e1, x1, t.a, x2, u.a, i / 8) && OpenedFor(e2, x2, u.a, x1, t.a, i / 8)
    requires OpenedFor(f1, y1, t.b, y2, u.b, i / 8) && OpenedFor(f2, y2, u.b, y1, t.b, i / 8)
    requires CombinedAt(true, e1, f1, t, z1, i) && CombinedAt(false, e2, f2, u, z2, i)
    ensures AndShared(x1[i], x2[i], y1[i], y2[i], z1, z2)
  {
    var c := i / 8;
    hide PackAt, BeaverShare, ValidTriple;
    assert ValidTriple(t.a[c], u.a[c], t.b[c], u.b[c], t.c[c], u.c[c]);
    OpenedProduct(PackAt(x1, 8 * c), PackAt(x2, 8 * c), PackAt(y1, 8 * c), PackAt(y2, 8 * c), t.a[c], u.a[c],
                  t.b[c], u.b[c], t.c[c], u.c[c], ByteOf(e1, c), ByteOf(f1, c), ByteOf(e2, c), ByteOf(f2, c));
    PackAtBit(x1, i);
    PackAtBit(x2, i);
    PackAtBit(y1, i);
    PackAtBit(y2, i);
  }

  lemma PackAtBit(flags: seq<Byte>, i: nat)
    requires i < |flags| && |flags| % 8 == 0
    ensures PackAt(flags, 8 * (i / 8))[i % 8] == flags[i][0]
  {
  }

  lemma WordsDecide(b1: Blocks.Block, b2: Blocks.Block)
    ensures b1 == b2 <==> b1.lo % Pow2(64) == b2.lo % Pow2(64) && b1.hi % Pow2(64) == b2.hi % Pow2(64)
  {
    hide Pow2;
    WordFits(b1.lo);
    WordFits(b2.lo);
    WordFits(b1.hi);
    WordFits(b2.hi);
  }

  /**
   perform_block_equality of both parties on a bin count divisible by 8: their answers for bin i differ
   exactly when their blocks i are equal.
   */
  method PerformBlockEquality(inputs1: seq<Blocks.Block>, inputs2: seq<Blocks.Block>, draws: BlockDraws)
    returns (ans1: array<Byte>, ans2: array<Byte>)
    requires |inputs1| == |inputs2| && |inputs1| % 8 == 0 && draws.Fit(|inputs1|)
    ensures fresh(ans1) && fresh(ans2) && ans1 != ans2 && ans1.Length == ans2.Length == |inputs1|
    ensures forall i :: 0 <= i < |inputs1| ==> SharesBlockEqual(ans1[i], ans2[i], inputs1[i], inputs2[i])
  {
    hide Equality.SharesEqual, AndShared;
    var n := |inputs1|;
    var numCmps := 2 * n;
    var x1, x2 := Blocks.AsWords(inputs1), Blocks.AsWords(inputs2);
    var res1, res2 := new Byte[numCmps](_ => Flag(true)), new Byte[numCmps](_ => Flag(true));
    var ok := Equality.PerformEquality(RADIX, x1, x2, draws.threads, res1, res2);
    assert ok;
    var low1, high1 := Deinterleave(res1, n);
    var low2, high2 := Deinterleave(res2, n);
    ans1, ans2 := AndFlags(low1, high1, low2, high2, draws.alice, draws.bob, n);
    forall i | 0 <= i < n
      ensures SharesBlockEqual(ans1[i], ans2[i], inputs1[i], inputs2[i])
    {
      assert Equality.SharesEqual(64, res1[..][2 * i], res2[..][2 * i], x1[2 * i], x2[2 * i]);
      assert Equality.SharesEqual(64, res1[..][2 * i + 1], res2[..][2 * i + 1], x1[2 * i + 1], x2[2 * i + 1]);
      HalvesDecide(inputs1[i], inputs2[i], low1[i], low2[i], high1[i], high2[i], ans1[i], ans2[i]);
    }
  }

  lemma HalvesDecide(b1: Blocks.Block, b2: Blocks.Block, low1: Byte, low2: Byte, high1: Byte, high2: Byte, z1: Byte, z2: Byte)
    requires Equality.SharesEqual(64, low1, low2, b1.lo, b2.lo) && Equality.SharesEqual(64, high1, high2, b1.hi, b2.hi)
    requires AndShared(low1, low2, high1, high2, z1, z2)
    ensures SharesBlockEqual(z1, z2, b1, b2)
  {
    hide Pow2;
    WordsDecide(b1, b2);
  }
}
