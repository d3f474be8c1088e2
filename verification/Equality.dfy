/**
 Equality of two parties' words, shared as one flag per comparison: the single-entry case of the batch protocol,
 run in two chunks with the roles swapped in the second.
 */
module Equality {
  import opened Arithmetic
  import opened PackedBits
  import opened Digits
  import opened AndTree
  import opened BatchEquality

  // The buffers of one Equality object comparing n words.
  function EqualityShape(radix: Radix, n: nat): Shape
    requires radix.Valid()
  {
    Shape(1, radix.NumDigits(), n)
  }

  /** What one thread draws: Alice's leaf masks and both parties' triples. */
  datatype Draws = Draws(masks: seq<bool>, alice: Triples, bob: Triples) {
    ghost predicate Fit(radix: Radix, n: nat)
      requires radix.Valid() && n % 8 == 0
    {
      && |masks| == radix.NumDigits() * n
      && TriplesMatch(alice, bob, EqualityShape(radix, n).TripleBytes())
    }
  }

  // The shares of one comparison of the low l bits.
  ghost predicate SharesEqual(l: nat, z1: Byte, z2: Byte, x1: Word, x2: Word) {
    IsFlag(z1) && IsFlag(z2) && (z1[0] != z2[0] <==> x1 % Pow2(l) == x2 % Pow2(l))
  }

  lemma SingleHit(radix: Radix, s: Shape, x: seq<Word>, y: seq<Word>, masks: seq<bool>, zA: Byte, zB: Byte, j: nat)
    requires Compatible(radix, s) && s.batch == 1
    requires |x| == |y| == s.cmps && |masks| == s.Size() && j < s.cmps
    requires SharesHits(radix, s, x, y, masks, 1, zA, zB, j)
    ensures SharesEqual(radix.l, zA, zB, x[j], y[j])
  {
    assert Cell(j, 0, 1) == j;
    assert Hits(radix, s, x, y, masks, 1, j, 0) == 0;
    assert Hits(radix, s, x, y, masks, 1, j, 1) == if Hit(radix, s, x, y, masks, 1, 0, j) then 1 else 0;
  }

  // equality_thread: in odd threads the second party plays Alice.
  method EqualityThread(tid: nat, radix: Radix, x1: seq<Word>, x2: seq<Word>, draws: Draws)
    returns (ok: bool, z1: seq<Byte>, z2: seq<Byte>)
    requires radix.Valid() && |x1| == |x2| && |x1| % 8 == 0 && draws.Fit(radix, |x1|)
    ensures ok <==> radix.Supported()
    ensures ok ==> |z1| == |z2| == |x1|
    ensures ok ==> forall j :: 0 <= j < |x1| ==> SharesEqual(radix.l, z1[j], z2[j], x1[j], x2[j])
  {
    var s := EqualityShape(radix, |x1|);
    assert s.Size() == radix.NumDigits() * |x1|;
    if tid % 2 == 1 {
      ok, z2, z1 := PerformBatchEquality(radix, s, x2, x1, draws.masks, 1, draws.alice, draws.bob);
    } else {
      ok, z1, z2 := PerformBatchEquality(radix, s, x1, x2, draws.masks, 1, draws.alice, draws.bob);
    }
    if ok {
      forall j | 0 <= j < |x1|
        ensures SharesEqual(radix.l, z1[j], z2[j], x1[j], x2[j])
      {
        if tid % 2 == 1 {
          SingleHit(radix, s, x2, x1, draws.masks, z2[j], z1[j], j);
        } else {
          SingleHit(radix, s, x1, x2, draws.masks, z1[j], z2[j], j);
        }
      }
    }
  }

  function ChunkSize(numCmps: nat): nat {
    numCmps / (8 * 2) * 8
  }

  // Number of comparisons of chunk i; the last chunk takes the rest.
  function ChunkLength(numCmps: nat, i: nat): nat
    requires i < 2
  {
    if i == 1 then numCmps - ChunkSize(numCmps) else ChunkSize(numCmps)
  }

  // The chunks tile the comparisons, and both are whole bytes when the total is.
  lemma ChunksTile(numCmps: nat, j: nat)
    requires numCmps % 8 == 0 && j < numCmps
    ensures ChunkLength(numCmps, 0) % 8 == 0 && ChunkLength(numCmps, 1) % 8 == 0
    ensures exists i :: 0 <= i < 2 && i * ChunkSize(numCmps) <= j < i * ChunkSize(numCmps) + ChunkLength(numCmps, i)
    ensures !(0 <= j < ChunkLength(numCmps, 0) && ChunkSize(numCmps) <= j < ChunkSize(numCmps) + ChunkLength(numCmps, 1))
  {
    var i := if j < ChunkSize(numCmps) then 0 else 1;
    assert 0 <= i < 2 && i * ChunkSize(numCmps) <= j < i * ChunkSize(numCmps) + ChunkLength(numCmps, i);
  }

  // The chunk size is the largest multiple of 8 that fits twice, and the loop's offset and length are those of chunk i.
  lemma ChunkFits(numCmps: nat, i: nat)
    requires numCmps % 8 == 0 && i < 2
    ensures ChunkSize(numCmps) % 8 == 0 && 2 * ChunkSize(numCmps) <= numCmps < 2 * ChunkSize(numCmps) + 16
    ensures ChunkLength(numCmps, i) == (if i == 2 - 1 then numCmps - i * ChunkSize(numCmps) else ChunkSize(numCmps))
    ensures ChunkLength(numCmps, i) % 8 == 0 && i * ChunkSize(numCmps) + ChunkLength(numCmps, i) <= numCmps
    ensures i * ChunkSize(numCmps) + ChunkLength(numCmps, i) == if i == 1 then numCmps else ChunkSize(numCmps)
  {
    SixteensFit(numCmps);
    hide ChunkSize;
    if i == 0 {
    } else {
    }
  }

  lemma SixteensFit(numCmps: nat)
    requires numCmps % 8 == 0
    ensures ChunkSize(numCmps) % 8 == 0 && 2 * ChunkSize(numCmps) <= numCmps < 2 * ChunkSize(numCmps) + 16
    ensures (numCmps - ChunkSize(numCmps)) % 8 == 0
  {
    var t, q := Div(numCmps, 8), Div(numCmps, 16);
    DivMod(numCmps, 8);
    DivMod(numCmps, 16);
    assert 8 * t == numCmps && ChunkSize(numCmps) == q * 8;
    hide Div;
    DivModUnique(q * 8, q, 0, 8);
    DivModUnique((t - q) * 8, t - q, 0, 8);
  }

  // The first n comparisons are shared correctly.
  ghost predicate SharedBelow(l: nat, z1: seq<Byte>, z2: seq<Byte>, x1: seq<Word>, x2: seq<Word>, n: nat)
    requires n <= |z1| == |z2| == |x1| == |x2|
  {
    forall j :: 0 <= j < n ==> SharesEqual(l, z1[j], z2[j], x1[j], x2[j])
  }

  lemma NoneShared(l: nat, z1: seq<Byte>, z2: seq<Byte>, x1: seq<Word>, x2: seq<Word>)
    requires |z1| == |z2| == |x1| == |x2|
    ensures SharedBelow(l, z1, z2, x1, x2, 0)
  {
  }

  // Thread i on the comparisons offset .. offset + n - 1.
  method RunChunk(i: nat, offset: nat, n: nat, radix: Radix, x1: seq<Word>, x2: seq<Word>, draws: Draws,
                  z1: array<Byte>, z2: array<Byte>) returns (ok: bool)
    requires radix.Valid() && |x1| == |x2| == z1.Length == z2.Length && z1 != z2
    requires n % 8 == 0 && offset + n <= |x1| && draws.Fit(radix, n)
    requires SharedBelow(radix.l, z1[..], z2[..], x1, x2, offset)
    modifies z1, z2
    ensures ok <==> radix.Supported()
    ensures ok ==> SharedBelow(radix.l, z1[..], z2[..], x1, x2, offset + n)
  {
    hide SharesEqual, Radix.Supported, Draws.Fit;
    var c1, c2;
    ok, c1, c2 := EqualityThread(i, radix, x1[offset..offset + n], x2[offset..offset + n], draws);
    if ok {
      Store(z1, offset, c1);
      Store(z2, offset, c2);
      forall j | 0 <= j < offset + n
        ensures SharesEqual(radix.l, z1[j], z2[j], x1[j], x2[j])
      {
        if offset <= j {
          assert SharesEqual(radix.l, c1[j - offset], c2[j - offset], x1[offset..offset + n][j - offset], x2[offset..offset + n][j - offset]);
        } else {
          assert old(SharesEqual(radix.l, z1[..][j], z2[..][j], x1[j], x2[j]));
        }
      }
    }
  }

  // What the two threads draw fits their chunks.
  ghost predicate ThreadsFit(radix: Radix, numCmps: nat, draws: seq<Draws>)
    requires radix.Valid() && numCmps % 8 == 0
  {
    ChunkFits(numCmps, 0);
    ChunkFits(numCmps, 1);
    |draws| == 2 && draws[0].Fit(radix, ChunkLength(numCmps, 0)) && draws[1].Fit(radix, ChunkLength(numCmps, 1))
  }

  lemma ThreadFits(radix: Radix, numCmps: nat, draws: seq<Draws>, i: nat)
    requires radix.Valid() && numCmps % 8 == 0 && ThreadsFit(radix, numCmps, draws) && i < 2
    ensures |draws| == 2 && ChunkLength(numCmps, i) % 8 == 0 && draws[i].Fit(radix, ChunkLength(numCmps, i))
  {
    hide ChunkLength, Draws.Fit;
    ChunkFits(numCmps, i);
  }

  /**
   perform_equality: for any words, masks and valid triples the two parties' flags for comparison j differ exactly
   when their words agree on the low l bits.
   */
  method PerformEquality(radix: Radix, x1: seq<Word>, x2: seq<Word>, draws: seq<Draws>, z1: array<Byte>, z2: array<Byte>)
    returns (ok: bool)
    requires radix.Valid() && |x1| == |x2| == z1.Length == z2.Length && |x1| % 8 == 0 && z1 != z2
    requires ThreadsFit(radix, |x1|, draws)
    modifies z1, z2
    ensures ok <==> radix.Supported()
    ensures ok <==> radix.l % radix.beta <= 4
    ensures ok ==> SharedBelow(radix.l, z1[..], z2[..], x1, x2, |x1|)
  {
    radix.SupportedIff();
    hide SharesEqual, Radix.Supported, Draws.Fit, SharedBelow, ChunkLength, ThreadsFit;
    var numCmps := |x1|;
    var chunkSize := numCmps / (8 * 2) * 8;
    assert chunkSize == ChunkSize(numCmps);
    hide ChunkSize;
    NoneShared(radix.l, z1[..], z2[..], x1, x2);
    var i := 0;
    ok := true;
    while i < 2 && ok
      invariant 0 <= i <= 2 && (if i == 0 then ok else ok <==> radix.Supported())
      invariant ok ==> SharedBelow(radix.l, z1[..], z2[..], x1, x2, if i == 2 then numCmps else i * chunkSize)
      decreases 2 - i
    {
      var offset := i * chunkSize;
      ChunkFits(numCmps, i);
      ThreadFits(radix, numCmps, draws, i);
      var n := if i == 2 - 1 then numCmps - offset else chunkSize;
      ok := RunChunk(i, offset, n, radix, x1, x2, draws[i], z1, z2);
      i := i + 1;
    }
  }

  // The thread's writes through z + offset.
  method Store(z: array<Byte>, offset: nat, c: seq<Byte>)
    requires offset + |c| <= z.Length
    modifies z
    ensures forall j :: 0 <= j < z.Length ==> z[j] == if offset <= j < offset + |c| then c[j - offset] else old(z[j])
  {
    for k := 0 to |c|
      invariant forall j :: 0 <= j < z.Length ==> z[j] == if offset <= j < offset + k then c[j - offset] else old(z[j])
    {
      z[offset + k] := c[k];
    }
  }
}
