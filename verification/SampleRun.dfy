/** One concrete run: all contracts and antecedents of the results about complete runs can be met together. */
module SampleRun {
  import opened Digits
  import opened Blocks
  import opened HashTableEntry
  import opened Flattening
  import opened VoleOprf
  import opened Triangles
  import opened CircuitPsi
  import opened LocalTriangleCount
  import B = Bitwise
  import BatchEquality
  import BlockEquality
  import CuckooTable
  import Equality
  import PackedBits
  import SimpleTable

  const ONE := Block(0, 1)

  // A product that looks at the lowest bits only.
  function Mul(a: Block, b: Block): Block {
    if a.lo % 2 == 1 && b.lo % 2 == 1 then ONE else ZERO_BLOCK
  }

  lemma XorBits()
    ensures Xor(ZERO_BLOCK, ZERO_BLOCK) == ZERO_BLOCK == Xor(ONE, ONE)
    ensures Xor(ONE, ZERO_BLOCK) == ONE == Xor(ZERO_BLOCK, ONE)
    ensures Compress(ZERO_BLOCK) == 0 && Compress(ONE) == 1
  {
    hide Xor;
    XorZero(ZERO_BLOCK);
    XorZero(ONE);
    XorSelf(ONE);
    B.XorZero(0);
    B.XorZero(1);
  }

  lemma LowestBit(x: Block, y: Block)
    ensures Xor(x, y).lo % 2 == 1 <==> x.lo % 2 != y.lo % 2
  {
    hide B.Xor;
    B.XorStep(x.lo, y.lo);
  }

  lemma MulIsProduct()
    ensures FieldProduct(Mul)
  {
    hide Xor;
    XorBits();
    forall a, b, c
      ensures Mul(a, Xor(b, c)) == Xor(Mul(a, b), Mul(a, c))
    {
      LowestBit(b, c);
    }
  }

  function Unit(p: nat): (row: seq<Block>)
    ensures |row| == 3
  {
    [if p == 0 then ONE else ZERO_BLOCK, if p == 1 then ONE else ZERO_BLOCK, if p == 2 then ONE else ZERO_BLOCK]
  }

  predicate IsBit(b: Block) {
    b == ZERO_BLOCK || b == ONE
  }

  ghost function Cell(pos: Block -> nat, ks: seq<Block>, vs: seq<Block>, p: nat): Block
    requires |ks| == |vs|
  {
    if exists i :: 0 <= i < |ks| && pos(ks[i]) == p && vs[i] == ONE then ONE else ZERO_BLOCK
  }

  ghost function Cells(pos: Block -> nat, ks: seq<Block>, vs: seq<Block>): (v: seq<Block>)
    requires |ks| == |vs|
    ensures |v| == 3
  {
    [Cell(pos, ks, vs, 0), Cell(pos, ks, vs, 1), Cell(pos, ks, vs, 2)]
  }

  ghost predicate Fits(pos: Block -> nat, ks: seq<Block>, vs: seq<Block>)
    requires |ks| == |vs|
  {
    forall i :: 0 <= i < |ks| ==> pos(ks[i]) < 3 && Cells(pos, ks, vs)[pos(ks[i])] == vs[i]
  }

  ghost function Fill(pos: Block -> nat, ks: seq<Block>, vs: seq<Block>): Option<seq<Block>> {
    if |ks| == |vs| && Fits(pos, ks, vs) then Some(Cells(pos, ks, vs)) else None
  }

  // A store of three one-bit cells. pos says which cell a key reads.
  ghost function Store(pos: Block -> nat): Okvs {
    Okvs(y => Unit(pos(y)), 3, Mul, (ks, vs) => Fill(pos, ks, vs))
  }

  lemma DecodeCell(pos: Block -> nat, v: seq<Block>, y: Block)
    requires |v| == 3 && IsBit(v[0]) && IsBit(v[1]) && IsBit(v[2])
    ensures Store(pos).Decode(v, y) == if pos(y) < 3 then v[pos(y)] else ZERO_BLOCK
  {
    hide Xor;
    XorBits();
    var row := Unit(pos(y));
    var r1, v1 := row[1..], v[1..];
    var r2, v2 := r1[1..], v1[1..];
    assert r2[1..] == [] && v2[1..] == [];
    assert Inner(Mul, r2, v2) == Mul(row[2], v[2]);
    assert Inner(Mul, r1, v1) == Xor(Mul(row[1], v[1]), Mul(row[2], v[2]));
  }

  lemma FillSolves(pos: Block -> nat, ks: seq<Block>, vs: seq<Block>)
    requires |ks| == |vs| && Fits(pos, ks, vs)
    ensures Store(pos).Solves(ks, vs, Cells(pos, ks, vs))
  {
    hide Okvs.Decode;
    forall i | 0 <= i < |ks|
      ensures Store(pos).Decode(Cells(pos, ks, vs), ks[i]) == vs[i]
    {
      DecodeCell(pos, Cells(pos, ks, vs), ks[i]);
    }
  }

  lemma StoreValid(pos: Block -> nat)
    ensures Store(pos).Valid()
  {
    hide FieldProduct, Okvs.Solves, Fits, Cells;
    MulIsProduct();
    var o := Store(pos);
    forall ks, vs | |ks| == |vs| && o.solve(ks, vs).Some?
      ensures o.Solves(ks, vs, o.solve(ks, vs).value)
    {
      FillSolves(pos, ks, vs);
    }
    forall y
      ensures |o.row(y)| == o.size
    {
      assert o.row(y) == Unit(pos(y));
    }
  }

  ghost function ZeroVole(): Vole {
    Vole(Zeros(3), Zeros(3), Zeros(3), ZERO_BLOCK)
  }

  lemma ZeroVoleValid()
    ensures ZeroVole().Valid(Mul, 3)
  {
    hide Xor;
    XorBits();
    assert XorAll(Zeros(3), Scale(Mul, ZERO_BLOCK, Zeros(3))) == Zeros(3);
  }

  ghost function ZeroTriples(n: nat): (t: BatchEquality.Triples)
    ensures BatchEquality.TriplesMatch(t, t, n)
  {
    var z: seq<PackedBits.Byte> := seq(n, i => PackedBits.ZERO);
    BatchEquality.Triples(z, z, z)
  }

  ghost function ZeroDraws(n: nat): (d: BlockEquality.BlockDraws)
    requires n % 8 == 0
    ensures d.Fit(n)
  {
    var radix := BlockEquality.RADIX;
    var l0, l1 := Equality.ChunkLength(2 * n, 0), Equality.ChunkLength(2 * n, 1);
    Equality.ChunkFits(2 * n, 0);
    Equality.ChunkFits(2 * n, 1);
    var t0, t1 := ZeroTriples(Equality.EqualityShape(radix, l0).TripleBytes()), ZeroTriples(Equality.EqualityShape(radix, l1).TripleBytes());
    var u := ZeroTriples(n / 8);
    BlockEquality.BlockDraws([Equality.Draws(seq(radix.NumDigits() * l0, i => false), t0, t0),
                              Equality.Draws(seq(radix.NumDigits() * l1, i => false), t1, t1)], u, u)
  }

  // The hint store's cell 0 is read by the keys of element 1, cell 1 by all others.
  function HintCellOf(y: Block): nat {
    if y.lo == 1 then 0 else 1
  }

  function FirstCell(y: Block): nat {
    0
  }

  function NumberedCell(y: Block): nat {
    y.lo
  }

  ghost function SampleSetup(h: Hashing, binNum: nat): Setup {
    var n := h.bins;
    Setup(binNum, h, 1, Store(FirstCell), Store(HintCellOf), ZeroVole(), seq(n, i => ONE), Zeros(n),
          if n % 8 == 0 then ZeroDraws(n) else ZeroDraws(0))
  }

  // The contracts of all parameters can be met together, for any hashing into whole bytes of bins.
  lemma ContractsConsistent(h: Hashing, binNum: nat)
    requires h.Valid() && h.bins == NumBins(binNum)
    ensures SampleSetup(h, binNum).Valid()
  {
    hide Okvs.Valid, Vole.Valid, BlockEquality.BlockDraws.Fit;
    StoreValid(FirstCell);
    StoreValid(HintCellOf);
    ZeroVoleValid();
  }

  const GRAPH := Graph(3, 2, v => if v == 0 then [1, 2] else if v == 1 then [0, 2] else if v == 2 then [0, 1] else [])

  const DRAWS := Draws(i => [ONE, ONE], v => [], v => [ZERO_BLOCK, ZERO_BLOCK], [])

  lemma GraphValid()
    ensures GRAPH.Valid() && DRAWS.Fit(GRAPH, 0) && (1, 2) in TrianglesAt(GRAPH, 0)
  {
    forall v: Word | v < 3
      ensures GRAPH.ValidList(v)
    {
      assert v == 0 || v == 1 || v == 2;
    }
  }

  // Elements 1 go to bins 0 and 1, all others to bins 2 and 3.
  const HASHING := Hashing(x => if x == 1 then [0, 1] else [2, 3], 2, 8)

  // Vertex w's encoding has ONE in the cells of its neighbours.
  lemma Encodes(w: Word, a: Word, b: Word)
    requires w < 3 && GRAPH.neighbors(w) == [a, b] && a < 3 && b < 3 && a != b && a != w && b != w
    ensures var e := Encoding(GRAPH, DRAWS, Store(NumberedCell), w);
            && e.Some? && |e.value| == 3 && forall u :: 0 <= u < 3 ==> e.value[u] == if u == a || u == b then ONE else ZERO_BLOCK
  {
    var ks, vs := ToBlocks([a, b]) + [], [ONE, ONE];
    assert ks == [Block(0, a), Block(0, b)];
    assert NumberedCell(ks[0]) == a && NumberedCell(ks[1]) == b;
    forall u: nat | u < 3
      ensures Cell(NumberedCell, ks, vs, u) == if u == a || u == b then ONE else ZERO_BLOCK
    {
      if u == a {
        assert NumberedCell(ks[0]) == u && vs[0] == ONE;
      } else if u == b {
        assert NumberedCell(ks[1]) == u && vs[1] == ONE;
      }
    }
    assert Fits(NumberedCell, ks, vs);
    assert GRAPH.neighbors(w) == [a, b] && DRAWS.listPads(w) == [] && DRAWS.rand(w) == vs;
  }

  lemma DecodesAt(w: Word, a: Word, b: Word, u: Word)
    requires w < 3 && GRAPH.neighbors(w) == [a, b] && a < 3 && b < 3 && a != b && a != w && b != w && u < 3
    ensures Encoding(GRAPH, DRAWS, Store(NumberedCell), w).Some?
    ensures Store(NumberedCell).Decode(Encoding(GRAPH, DRAWS, Store(NumberedCell), w).value, MakeBlock(0, u))
            == if u == a || u == b then ONE else ZERO_BLOCK
  {
    hide Okvs.Decode;
    Encodes(w, a, b);
    DecodeCell(NumberedCell, Encoding(GRAPH, DRAWS, Store(NumberedCell), w).value, MakeBlock(0, u));
  }

  // Vertex 0 decodes its two neighbours' encodings at its two neighbours.
  lemma SampleRows()
    requires DRAWS.Fit(GRAPH, 0) && |GRAPH.neighbors(0)| <= GRAPH.maxDegree
    ensures Encoded(GRAPH, DRAWS, Store(NumberedCell), 0)
    ensures DecodedRows(GRAPH, DRAWS, Store(NumberedCell), 0) == [[ZERO_BLOCK, ONE], [ONE, ZERO_BLOCK]]
  {
    hide Okvs.Decode, Encoding;
    DecodesAt(1, 0, 2, 1);
    DecodesAt(1, 0, 2, 2);
    DecodesAt(2, 0, 1, 1);
    DecodesAt(2, 0, 1, 2);
    assert GRAPH.neighbors(0) == [1, 2];
    var rows := DecodedRows(GRAPH, DRAWS, Store(NumberedCell), 0);
    assert rows[0] == [ZERO_BLOCK, ONE];
    assert rows[1] == [ONE, ZERO_BLOCK];
  }

  lemma FlattenTwo<T>(a: seq<T>, b: seq<T>)
    ensures Flatten([a, b]) == a + b
  {
    assert [a, b][..1] == [a] && [a][..0] == [];
    assert Flatten([a]) == a;
  }

  lemma SampleElements()
    requires DRAWS.Fit(GRAPH, 0) && |GRAPH.neighbors(0)| <= GRAPH.maxDegree && Encoded(GRAPH, DRAWS, Store(NumberedCell), 0)
    ensures Elements(GRAPH, DRAWS, Store(NumberedCell), 0) == ELEMENTS
  {
    hide Compress, Flatten, Encoded, Store, DecodedRows;
    XorBits();
    SampleRows();
    FlattenTwo([ZERO_BLOCK, ONE], [ONE, ZERO_BLOCK]);
    assert [ZERO_BLOCK, ONE] + [ONE, ZERO_BLOCK] == [ZERO_BLOCK, ONE, ONE, ZERO_BLOCK];
  }

  lemma SampleSent(x: Word)
    requires x in Sent(GRAPH, DRAWS)
    ensures x == 1
  {
    hide Flatten, Compress;
    XorBits();
    var rows := SentRows(DRAWS, 3);
    var t :| 0 <= t < |Flatten(rows)| && x == Compress(Flatten(rows)[t]);
    FlattenIn(rows, Flatten(rows)[t]);
  }

  lemma SampleNoStray()
    requires DRAWS.Fit(GRAPH, 0)
    ensures NoStray(GRAPH, DRAWS, Store(NumberedCell), 0, Sent(GRAPH, DRAWS))
  {
    hide Okvs.Decode, Compress, Flatten;
    XorBits();
    var sent := Sent(GRAPH, DRAWS);
    assert 0 !in sent && DUMMY_ELEMENT !in sent by {
      if 0 in sent {
        SampleSent(0);
      }
      if DUMMY_ELEMENT in sent {
        SampleSent(DUMMY_ELEMENT);
      }
    }
    DecodesAt(1, 0, 2, 1);
    DecodesAt(2, 0, 1, 2);
    assert GRAPH.neighbors(0) == [1, 2] && GRAPH.neighbors(1) == [0, 2] && GRAPH.neighbors(2) == [0, 1];
  }

  // An element put into an empty slot.
  lemma InsertFree(table: seq<Entry>, value: Word, id: nat)
    requires HASHING.Valid() && |table| == 8 && table[HASHING.Address(value, 0)].IsEmpty()
    ensures var a := HASHING.Address(value, 0);
            CuckooTable.Inserting(HASHING, table, value, id, 2)
            == CuckooTable.Chained(table[a := NewEntry(HASHING, value, id)], table[a], 0)
  {
  }

  // An element put over one of the same value that still is in its first bin.
  lemma InsertOver(table: seq<Entry>, value: Word, id: nat, other: nat)
    requires HASHING.Valid() && |table| == 8 && value != DUMMY_ELEMENT
    requires table[HASHING.Address(value, 0)] == NewEntry(HASHING, value, other) && table[HASHING.Address(value, 1)].IsEmpty()
    requires HASHING.Address(value, 0) != HASHING.Address(value, 1)
    ensures var moved := NewEntry(HASHING, value, other).IterateFunctionNumber();
            CuckooTable.Inserting(HASHING, table, value, id, 2)
            == CuckooTable.Chained(table[HASHING.Address(value, 0) := NewEntry(HASHING, value, id)][HASHING.Address(value, 1) := moved],
                                   table[HASHING.Address(value, 1)], 1)
  {
    var a, b := HASHING.Address(value, 0), HASHING.Address(value, 1);
    var e := NewEntry(HASHING, value, other);
    var t := table[a := NewEntry(HASHING, value, id)];
    assert e.IterateFunctionNumber().GetCurrentAddress() == b;
    CuckooTable.ChainEnds(HASHING, t[b := e.IterateFunctionNumber()], t[b], 1);
  }

  const EMPTY_TABLE := seq(8, i => EMPTY_ENTRY)
  const ELEMENTS: seq<Word> := [0, 1, 1, 0]

  // Repeated elements move to their second bins; nothing is stashed.
  lemma SampleMapped()
    requires HASHING.Valid()
    ensures CuckooTable.Mapped(HASHING, ELEMENTS, 1, 4).stash == []
  {
    hide CuckooTable.Mapped, CuckooTable.Inserting;
    assert HASHING.Address(0, 0) == 2 && HASHING.Address(0, 1) == 3 && HASHING.Address(1, 0) == 0 && HASHING.Address(1, 1) == 1;
    var e0, e1, e2 := NewEntry(HASHING, 0, 0), NewEntry(HASHING, 1, 1), NewEntry(HASHING, 1, 2);
    var t1 := EMPTY_TABLE[2 := e0];
    var t2 := t1[0 := e1];
    var t3 := t2[0 := e2][1 := e1.IterateFunctionNumber()];
    InsertFree(EMPTY_TABLE, 0, 0);
    InsertFree(t1, 1, 1);
    InsertOver(t2, 1, 2, 1);
    InsertOver(t3, 0, 3, 0);
    CuckooTable.MappedNext(HASHING, ELEMENTS, 1, 0);
    CuckooTable.MappedNext(HASHING, ELEMENTS, 1, 1);
    CuckooTable.MappedNext(HASHING, ELEMENTS, 1, 2);
    CuckooTable.MappedNext(HASHING, ELEMENTS, 1, 3);
  }

  lemma ZeroKey(xs: seq<Block>)
    ensures OprfKey(Store(FirstCell), ZeroVole(), xs) == Some(Zeros(3))
  {
    hide Xor;
    XorBits();
    var vs := Zeros(|xs|);
    assert Fits(FirstCell, xs, vs);
    assert ZeroEncoding(Store(FirstCell), xs) == Some([ZERO_BLOCK, ZERO_BLOCK, ZERO_BLOCK]);
    assert XorAll(Zeros(3), Scale(Mul, ZERO_BLOCK, XorAll([ZERO_BLOCK, ZERO_BLOCK, ZERO_BLOCK], Zeros(3)))) == Zeros(3);
  }

  // All keys of the sender are element 1's, and all values hidden at them are ONE.
  lemma SampleHint(s: Setup, sent: seq<Word>)
    requires s.Valid() && s == SampleSetup(HASHING, 8) && forall x :: x in sent ==> x == 1
    ensures HintFor(s, sent, Zeros(3)).Some?
    ensures var v := HintFor(s, sent, Zeros(3)).value; |v| == 3 && IsBit(v[0]) && v[1] == v[2] == ZERO_BLOCK
  {
    hide Xor, Okvs.Decode, Flatten, SimpleTable.Bin, Okvs.Valid, Vole.Valid;
    XorBits();
    var rows := SenderRows(s, sent);
    var values := HintValues(s, rows, Zeros(3));
    var ks, vs := Flatten(rows), Flatten(values);
    SameShape(rows, values);
    forall i | 0 <= i < |ks|
      ensures HintCellOf(ks[i]) == 0
    {
      FlattenIn(rows, ks[i]);
      var b, j :| 0 <= b < |rows| && 0 <= j < |rows[b]| && rows[b][j] == ks[i];
      SimpleTable.KeyInBin(s.hashing, sent, |sent|, b, ks[i]);
      assert sent[..|sent|] == sent;
    }
    forall i | 0 <= i < |vs|
      ensures vs[i] == ONE
    {
      FlattenIn(values, vs[i]);
      var b, j :| 0 <= b < |values| && 0 <= j < |values[b]| && values[b][j] == vs[i];
      DecodeCell(FirstCell, Zeros(3), rows[b][j]);
    }
    assert Fits(HintCellOf, ks, vs);
  }

  // Slots of other elements decode to zero, which is nobody's random value.
  lemma SampleNoFalseMatch(s: Setup, vec: seq<Word>, sent: seq<Word>)
    requires s.Valid() && s == SampleSetup(HASHING, 8) && forall x :: x in sent ==> x == 1
    requires 1 in sent
    ensures Succeeds(s, vec, sent) && NoFalseMatch(s, vec, sent)
  {
    hide Xor, Okvs.Decode, Okvs.Valid, Vole.Valid, ReceiverMap, HintFor;
    XorBits();
    ZeroKey(ReceiverKeys(s, vec));
    SampleHint(s, sent);
    var hint := HintFor(s, sent, Zeros(3)).value;
    forall i | 0 <= i < s.hashing.bins && !ReceiverMap(s, vec).table[i].IsEmpty() && ReceiverMap(s, vec).table[i].value !in sent
      ensures RunBlock(s, vec, sent, i) != s.randomValues[i]
    {
      var key := CuckooTable.KeyOf(ReceiverMap(s, vec).table[i]);
      assert key.lo != 1;
      DecodeCell(HintCellOf, hint, key);
      DecodeCell(FirstCell, Zeros(3), key);
    }
  }

  lemma OneIsSent()
    ensures 1 in Sent(GRAPH, DRAWS)
  {
    hide Flatten, Compress;
    XorBits();
    var rows := SentRows(DRAWS, 3);
    FlattenAt(rows, 0, 0);
    assert Sent(GRAPH, DRAWS)[Offset(rows, 0)] == 1;
  }

  /**
   Three vertices joined to each other: a run for one of them meets every contract, all its systems can be solved,
   nothing is stashed, nothing collides, and there is a triangle to count.
   */
  lemma TriangleRun()
    ensures GRAPH.Valid() && 0 < GRAPH.vertices && DRAWS.Fit(GRAPH, 0) && Store(NumberedCell).Valid()
    ensures |GRAPH.neighbors(0)| == GRAPH.maxDegree && SampleSetup(HASHING, 8).Valid()
    ensures var s, baxos := SampleSetup(HASHING, 8), Store(NumberedCell);
            && Solvable(GRAPH, DRAWS, baxos, s, 0)
            && NoStray(GRAPH, DRAWS, baxos, 0, Sent(GRAPH, DRAWS))
            && NoFalseMatch(s, Elements(GRAPH, DRAWS, baxos, 0), Sent(GRAPH, DRAWS))
            && ReceiverMap(s, Elements(GRAPH, DRAWS, baxos, 0)).stash == []
    ensures TrianglesAt(GRAPH, 0) != {}
  {
    hide Okvs.Valid, Setup.Valid, NoStray, NoFalseMatch, Succeeds, Elements, Sent, Store;
    GraphValid();
    assert HASHING.Valid();
    assert HASHING.bins == NumBins(8);
    StoreValid(NumberedCell);
    ContractsConsistent(HASHING, 8);
    SampleRows();
    SampleElements();
    SampleNoStray();
    SampleMapped();
    OneIsSent();
    forall x | x in Sent(GRAPH, DRAWS)
      ensures x == 1
    {
      SampleSent(x);
    }
    SampleNoFalseMatch(SampleSetup(HASHING, 8), Elements(GRAPH, DRAWS, Store(NumberedCell), 0), Sent(GRAPH, DRAWS));
  }
}
