/** The whole program: neighbours publish encodings, the querying vertex decodes them, and the PSI counts triangles. */
module LocalTriangleCount {
  import opened Digits
  import opened Blocks
  import opened HashTableEntry
  import opened Counting
  import opened Flattening
  import opened VoleOprf
  import opened Triangles
  import opened CircuitPsi
  import LaneArithmetic

  /** The pseudo-random data: per-vertex values from the fixed seed, and fresh padding. */
  datatype Draws = Draws(rand: nat -> seq<Block>, listPads: Word -> seq<Block>, rowFillers: Word -> seq<Block>, pads: seq<Word>) {
    ghost predicate Fit(g: Graph, x: Word) {
      && (forall i :: |rand(i)| == g.maxDegree)
      && (forall v :: |rowFillers(v)| == g.maxDegree)
      && (forall v: Word {:trigger listPads(v)} :: v < g.vertices ==> |g.neighbors(v)| + |listPads(v)| == g.maxDegree)
      && |g.neighbors(x)| * g.maxDegree + |pads| == g.maxDegree * g.maxDegree
    }
  }

  // u64s_to_blocks.
  function ToBlocks(ids: seq<Word>): (blocks: seq<Block>)
    ensures |blocks| == |ids| && forall i :: 0 <= i < |ids| ==> blocks[i] == Block(0, ids[i])
  {
    seq(|ids|, i requires 0 <= i < |ids| => MakeBlock(0, ids[i]))
  }

  // neighbor: the vertex encodes its random values at its neighbours, padded to the maximum degree.
  function Encoding(g: Graph, d: Draws, baxos: Okvs, v: Word): Option<seq<Block>> {
    baxos.solve(ToBlocks(g.neighbors(v)) + d.listPads(v), d.rand(v))
  }

  // One row of neighbor_request: the encoding decoded at all of x's neighbours, the rest of the row random.
  function Row(g: Graph, d: Draws, baxos: Okvs, x: Word, w: Word, encoding: seq<Block>): seq<Block>
    requires |g.neighbors(x)| <= |d.rowFillers(w)|
  {
    var n := |g.neighbors(x)|;
    seq(n, j requires 0 <= j < n => baxos.Decode(encoding, MakeBlock(0, g.neighbors(x)[j]))) + d.rowFillers(w)[n..]
  }

  // The sender's set: every vertex's random values.
  function SentRows(d: Draws, n: nat): seq<seq<Block>> {
    seq(n, i requires 0 <= i < n => d.rand(i))
  }

  // Entry v * width + k of the sender's set is value k of vertex v, for all vertices and no others.
  lemma SentAt(d: Draws, vertices: nat, width: nat, v: nat, k: nat)
    requires (forall i :: 0 <= i < vertices ==> |d.rand(i)| == width) && v < vertices && k < width
    ensures |Flatten(SentRows(d, vertices))| == vertices * width && v * width + k < vertices * width
    ensures Flatten(SentRows(d, vertices))[v * width + k] == d.rand(v)[k]
  {
    UniformAt(SentRows(d, vertices), width, v, k);
  }

  lemma SentLength(d: Draws, vertices: nat, width: nat)
    requires forall i :: 0 <= i < vertices ==> |d.rand(i)| == width
    ensures |Flatten(SentRows(d, vertices))| == vertices * width
  {
    UniformLength(SentRows(d, vertices), width);
  }

  method SenderSet(d: Draws, vertices: nat, ghost width: nat) returns (randoms: seq<Block>)
    requires forall i :: 0 <= i < vertices ==> |d.rand(i)| == width
    ensures randoms == Flatten(SentRows(d, vertices)) && |randoms| == vertices * width
    ensures forall v, k :: 0 <= v < vertices && 0 <= k < width && v * width + k < |randoms| ==>
              randoms[v * width + k] == d.rand(v)[k]
  {
    randoms := [];
    for i := 0 to vertices
      invariant randoms == Flatten(SentRows(d, i))
    {
      randoms := randoms + d.rand(i);
      assert SentRows(d, i + 1)[..i] == SentRows(d, i);
    }
    hide Flatten, SentRows;
    SentLength(d, vertices, width);
    forall v, k | 0 <= v < vertices && 0 <= k < width && v * width + k < |randoms|
      ensures randoms[v * width + k] == d.rand(v)[k]
    {
      SentAt(d, vertices, width, v, k);
    }
  }

  // Every neighbour of x could encode its values.
  ghost predicate Encoded(g: Graph, d: Draws, baxos: Okvs, x: Word) {
    forall w :: w in g.neighbors(x) ==> Encoding(g, d, baxos, w).Some?
  }

  // All rows of neighbor_request.
  ghost function DecodedRows(g: Graph, d: Draws, baxos: Okvs, x: Word): seq<seq<Block>>
    requires d.Fit(g, x) && |g.neighbors(x)| <= g.maxDegree && Encoded(g, d, baxos, x)
  {
    var l := g.neighbors(x);
    seq(|l|, k requires 0 <= k < |l| => Row(g, d, baxos, x, l[k], Encoding(g, d, baxos, l[k]).value))
  }

  // neighbor_request: one row per neighbour, or nothing if a neighbour's system has no solution. Column j of a row is
  // what the neighbour's encoding gives at x's neighbour j, and that is the neighbour's own k-th value where its own
  // neighbour k is the same vertex; the columns after those are random.
  method NeighborRequest(g: Graph, d: Draws, baxos: Okvs, x: Word) returns (ok: bool, rows: seq<seq<Block>>)
    requires g.Valid() && x < g.vertices && d.Fit(g, x) && baxos.Valid()
    ensures |g.neighbors(x)| <= g.maxDegree
    ensures ok <==> forall w :: w in g.neighbors(x) ==> baxos.solve(ToBlocks(g.neighbors(w)) + d.listPads(w), d.rand(w)).Some?
    ensures ok ==> |rows| == |g.neighbors(x)| && forall i :: 0 <= i < |rows| ==> |rows[i]| == g.maxDegree
    ensures ok ==> forall i, j :: 0 <= i < |rows| && 0 <= j < |rows[i]| && |g.neighbors(x)| <= j ==>
              rows[i][j] == d.rowFillers(g.neighbors(x)[i])[j]
    ensures ok ==> forall i, j :: 0 <= i < |rows| && 0 <= j < |g.neighbors(x)| ==>
              var w := g.neighbors(x)[i];
              var e := baxos.solve(ToBlocks(g.neighbors(w)) + d.listPads(w), d.rand(w));
              e.Some? && rows[i][j] == baxos.Decode(e.value, Block(0, g.neighbors(x)[j]))
    ensures ok ==> forall i, j, k :: 0 <= i < |rows| && 0 <= j < |g.neighbors(x)| && 0 <= k < |g.neighbors(g.neighbors(x)[i])| ==>
              g.neighbors(g.neighbors(x)[i])[k] == g.neighbors(x)[j] ==>
              k < |d.rand(g.neighbors(x)[i])| && rows[i][j] == d.rand(g.neighbors(x)[i])[k]
    ensures ok <==> Encoded(g, d, baxos, x)
    ensures ok ==> rows == DecodedRows(g, d, baxos, x)
  {
    var neighbors := g.neighbors(x);
    assert g.ValidList(x);
    rows := [];
    ok := true;
    hide Okvs.Valid, Okvs.Decode;
    for i := 0 to |neighbors|
      invariant |rows| == i && forall k :: 0 <= k < i ==> RowDecoded(g, d, baxos, x, neighbors[k], rows[k])
    {
      var w := neighbors[i];
      var encoding := Encoding(g, d, baxos, w);
      if encoding.None? {
        ok := false;
        return;
      }
      rows := rows + [Row(g, d, baxos, x, w, encoding.value)];
    }
    RowsSpelledOut(g, d, baxos, x, rows);
  }

  // The decoded rows, cell by cell.
  lemma RowsSpelledOut(g: Graph, d: Draws, baxos: Okvs, x: Word, rows: seq<seq<Block>>)
    requires g.Valid() && x < g.vertices && d.Fit(g, x) && baxos.Valid() && |g.neighbors(x)| <= g.maxDegree
    requires RowsDecoded(g, d, baxos, x, rows)
    ensures forall i :: 0 <= i < |rows| ==> |rows[i]| == g.maxDegree
    ensures forall i, j :: 0 <= i < |rows| && 0 <= j < |rows[i]| && |g.neighbors(x)| <= j ==>
              rows[i][j] == d.rowFillers(g.neighbors(x)[i])[j]
    ensures forall i, j :: 0 <= i < |rows| && 0 <= j < |g.neighbors(x)| ==>
              var w := g.neighbors(x)[i];
              var e := baxos.solve(ToBlocks(g.neighbors(w)) + d.listPads(w), d.rand(w));
              e.Some? && rows[i][j] == baxos.Decode(e.value, Block(0, g.neighbors(x)[j]))
    ensures forall i, j, k :: 0 <= i < |rows| && 0 <= j < |g.neighbors(x)| && 0 <= k < |g.neighbors(g.neighbors(x)[i])| ==>
              g.neighbors(g.neighbors(x)[i])[k] == g.neighbors(x)[j] ==>
              k < |d.rand(g.neighbors(x)[i])| && rows[i][j] == d.rand(g.neighbors(x)[i])[k]
  {
    hide Okvs.Valid, Okvs.Decode;
    assert g.ValidList(x);
    forall i, j, k | 0 <= i < |rows| && 0 <= j < |g.neighbors(x)| && 0 <= k < |g.neighbors(g.neighbors(x)[i])|
                     && g.neighbors(g.neighbors(x)[i])[k] == g.neighbors(x)[j]
      ensures k < |d.rand(g.neighbors(x)[i])| && rows[i][j] == d.rand(g.neighbors(x)[i])[k]
    {
      EncodedValue(g, d, baxos, x, g.neighbors(x)[i], rows[i], j, k);
    }
  }

  // Where neighbour w's own neighbour k is x's neighbour j, column j of w's row is w's value k.
  lemma EncodedValue(g: Graph, d: Draws, baxos: Okvs, x: Word, w: Word, row: seq<Block>, j: nat, k: nat)
    requires g.Valid() && x < g.vertices && d.Fit(g, x) && baxos.Valid() && |g.neighbors(x)| <= g.maxDegree
    requires w < g.vertices && RowDecoded(g, d, baxos, x, w, row)
    requires j < |g.neighbors(x)| && k < |g.neighbors(w)| && g.neighbors(w)[k] == g.neighbors(x)[j]
    ensures k < |d.rand(w)| && j < |row| && row[j] == d.rand(w)[k]
  {
    hide Okvs.Decode;
    assert g.ValidList(w);
    var keys := ToBlocks(g.neighbors(w)) + d.listPads(w);
    assert baxos.Solves(keys, d.rand(w), Encoding(g, d, baxos, w).value);
    assert keys[k] == MakeBlock(0, g.neighbors(x)[j]);
  }

  // Distinct values of w give distinct entries at distinct common neighbours.
  lemma DistinctEntries(g: Graph, d: Draws, baxos: Okvs, x: Word, w: Word, row: seq<Block>, i: nat, j: nat)
    requires g.Valid() && x < g.vertices && d.Fit(g, x) && baxos.Valid() && |g.neighbors(x)| <= g.maxDegree
    requires w < g.vertices && RowDecoded(g, d, baxos, x, w, row) && Distinct(d.rand(w))
    requires i < j < |g.neighbors(x)| && g.neighbors(x)[i] in g.neighbors(w) && g.neighbors(x)[j] in g.neighbors(w)
    ensures j < |row| && row[i] != row[j]
  {
    hide Okvs.Valid, Okvs.Decode, RowDecoded, Draws.Fit;
    var k :| 0 <= k < |g.neighbors(w)| && g.neighbors(w)[k] == g.neighbors(x)[i];
    var l :| 0 <= l < |g.neighbors(w)| && g.neighbors(w)[l] == g.neighbors(x)[j];
    assert g.ValidList(x);
    EncodedValue(g, d, baxos, x, w, row, i, k);
    EncodedValue(g, d, baxos, x, w, row, j, l);
  }

  ghost predicate RowDecoded(g: Graph, d: Draws, baxos: Okvs, x: Word, w: Word, row: seq<Block>)
  {
    && d.Fit(g, x) && |g.neighbors(x)| <= g.maxDegree && Encoding(g, d, baxos, w).Some?
    && row == Row(g, d, baxos, x, w, Encoding(g, d, baxos, w).value)
  }

  ghost predicate RowsDecoded(g: Graph, d: Draws, baxos: Okvs, x: Word, rows: seq<seq<Block>>)
  {
    |rows| == |g.neighbors(x)| && forall k :: 0 <= k < |rows| ==> RowDecoded(g, d, baxos, x, g.neighbors(x)[k], rows[k])
  }

  lemma DecodedRowsDecoded(g: Graph, d: Draws, baxos: Okvs, x: Word)
    requires d.Fit(g, x) && |g.neighbors(x)| <= g.maxDegree && Encoded(g, d, baxos, x)
    ensures RowsDecoded(g, d, baxos, x, DecodedRows(g, d, baxos, x))
  {
  }

  // A neighbour of both x and w gives one of w's own random values.
  lemma SharedNeighborDecodes(g: Graph, d: Draws, baxos: Okvs, x: Word, w: Word, row: seq<Block>, j: nat)
    requires g.Valid() && x < g.vertices && d.Fit(g, x) && baxos.Valid() && |g.neighbors(x)| <= g.maxDegree
    requires w < g.vertices && RowDecoded(g, d, baxos, x, w, row)
    requires j < |g.neighbors(x)| && g.Adjacent(w, g.neighbors(x)[j])
    ensures j < |row| && row[j] in Flatten(SentRows(d, g.vertices))
  {
    hide Okvs.Valid, Okvs.Decode, RowDecoded;
    var k :| 0 <= k < |g.neighbors(w)| && g.neighbors(w)[k] == g.neighbors(x)[j];
    EncodedValue(g, d, baxos, x, w, row, j, k);
    FlattenAt(SentRows(d, g.vertices), w, k);
  }

  // No accidental collisions: decodings elsewhere, fillers, pads and the dummy miss the sender's compressed set.
  ghost predicate NoStray(g: Graph, d: Draws, baxos: Okvs, x: Word, sent: seq<Word>)
    requires d.Fit(g, x)
  {
    && DUMMY_ELEMENT !in sent
    && (forall p :: p in d.pads ==> p !in sent)
    && (forall w, b :: w in g.neighbors(x) && b in d.rowFillers(w) ==> Compress(b) !in sent)
    && (forall w, u :: w in g.neighbors(x) && u in g.neighbors(x) && !g.Adjacent(w, u) && Encoding(g, d, baxos, w).Some? ==>
          Compress(baxos.Decode(Encoding(g, d, baxos, w).value, MakeBlock(0, u))) !in sent)
  }

  // Spelled out with the neighbours' systems.
  lemma NoStrayFrom(g: Graph, d: Draws, baxos: Okvs, x: Word, sent: seq<Word>)
    requires d.Fit(g, x) && TWO_64 - 1 !in sent
    requires forall p :: p in d.pads ==> p !in sent
    requires forall w, b :: w in g.neighbors(x) && b in d.rowFillers(w) ==> XorWord(b.lo, b.hi) !in sent
    requires forall w, u :: w in g.neighbors(x) && u in g.neighbors(x) && u !in g.neighbors(w) ==>
               var e := baxos.solve(ToBlocks(g.neighbors(w)) + d.listPads(w), d.rand(w));
               e.Some? ==> Compress(baxos.Decode(e.value, Block(0, u))) !in sent
    ensures NoStray(g, d, baxos, x, sent)
  {
    hide Okvs.Decode, XorWord;
  }

  // One row hits the sender's set once for each neighbour of x that is also w's.
  lemma RowCount(g: Graph, d: Draws, baxos: Okvs, x: Word, w: Word, row: seq<Block>, sent: seq<Word>)
    requires g.Valid() && x < g.vertices && d.Fit(g, x) && baxos.Valid() && NoStray(g, d, baxos, x, sent)
    requires sent == CompressAll(Flatten(SentRows(d, g.vertices)))
    requires w in g.neighbors(x) && RowDecoded(g, d, baxos, x, w, row)
    ensures CountIf(row, (b: Block) => Compress(b) in sent) == CountIf(g.neighbors(x), (u: Word) => g.Adjacent(w, u))
  {
    hide Okvs.Decode, Compress, CountIf, Okvs.Valid, Flatten;
    var l, n := g.neighbors(x), |g.neighbors(x)|;
    var p, q := (b: Block) => Compress(b) in sent, (u: Word) => g.Adjacent(w, u);
    assert g.ValidList(x);
    forall j | 0 <= j < n
      ensures p(row[..n][j]) <==> q(l[j])
    {
      if g.Adjacent(w, l[j]) {
        SharedNeighborDecodes(g, d, baxos, x, w, row, j);
        var t :| 0 <= t < |Flatten(SentRows(d, g.vertices))| && Flatten(SentRows(d, g.vertices))[t] == row[j];
        assert sent[t] == Compress(row[j]);
      } else {
        assert row[j] == baxos.Decode(Encoding(g, d, baxos, w).value, MakeBlock(0, l[j]));
      }
    }
    CountIfPairwise(row[..n], l, p, q);
    assert row[n..] == d.rowFillers(w)[n..];
    CountIfNone(row[n..], p);
    assert row == row[..n] + row[n..];
    CountIfAppend(row[..n], row[n..], p);
  }

  lemma {:induction false} RowsCount(g: Graph, d: Draws, baxos: Okvs, x: Word, rows: seq<seq<Block>>, sent: seq<Word>, n: nat)
    requires g.Valid() && x < g.vertices && d.Fit(g, x) && baxos.Valid() && NoStray(g, d, baxos, x, sent)
    requires sent == CompressAll(Flatten(SentRows(d, g.vertices)))
    requires RowsDecoded(g, d, baxos, x, rows) && n <= |rows|
    ensures CountIf(Flatten(rows[..n]), (b: Block) => Compress(b) in sent)
            == OrderedPairs(g, g.neighbors(x)[..n], g.neighbors(x))
  {
    hide Okvs.Valid, Compress, NoStray, Graph.Valid, RowDecoded, Graph.Adjacent, Draws.Fit;
    if n > 0 {
      RowsCount(g, d, baxos, x, rows, sent, n - 1);
      assert rows[..n][..n - 1] == rows[..n - 1];
      assert g.neighbors(x)[..n][..n - 1] == g.neighbors(x)[..n - 1];
      RowCount(g, d, baxos, x, g.neighbors(x)[n - 1], rows[n - 1], sent);
      CountIfAppend(Flatten(rows[..n - 1]), rows[n - 1], (b: Block) => Compress(b) in sent);
    }
  }

  // The receiver's padded elements hit the sender's set twice per triangle.
  lemma HitsAreTwiceTriangles(g: Graph, d: Draws, baxos: Okvs, x: Word, rows: seq<seq<Block>>, vec: seq<Word>, sent: seq<Word>)
    requires g.Valid() && x < g.vertices && d.Fit(g, x) && baxos.Valid() && NoStray(g, d, baxos, x, sent)
    requires sent == CompressAll(Flatten(SentRows(d, g.vertices))) && RowsDecoded(g, d, baxos, x, rows)
    requires vec == CompressAll(Flatten(rows)) + d.pads
    ensures CountIf(vec, y => y != DUMMY_ELEMENT && y in sent) == 2 * |TrianglesAt(g, x)|
  {
    hide Okvs.Valid, Compress, Graph.Valid, RowDecoded, Draws.Fit, CountIf, Flatten, TrianglesAt, OrderedPairs;
    var q, p := (y: Word) => y in sent, (b: Block) => Compress(b) in sent;
    CountIfAgree(vec, y => y != DUMMY_ELEMENT && y in sent, q);
    CountIfAppend(CompressAll(Flatten(rows)), d.pads, q);
    CountIfNone(d.pads, q);
    CountIfPairwise(CompressAll(Flatten(rows)), Flatten(rows), q, p);
    RowsCount(g, d, baxos, x, rows, sent, |rows|);
    assert rows[..|rows|] == rows && g.neighbors(x)[..|rows|] == g.neighbors(x);
    DoubleCounting(g, x);
  }

  lemma CountFits(g: Graph, x: Word)
    requires g.Valid() && x < g.vertices
    ensures 2 * |TrianglesAt(g, x)| < TWO_64
  {
    hide OrderedPairs, TrianglesAt;
    assert g.ValidList(x);
    var l := g.neighbors(x);
    DoubleCounting(g, x);
    OrderedPairsBound(g, l, l);
    Squares(|l|, g.maxDegree);
  }

  lemma Squares(m: nat, n: nat)
    requires m <= n
    ensures m * m <= n * n
  {
  }

  // The printed number: half of the low word. It is n exactly when nothing is missing from the double.
  lemma LowWordHalved(b: Block, n: nat, missing: nat)
    requires LaneArithmetic.Value(b) == (2 * n - missing) % LaneArithmetic.TWO_128 && missing <= 2 * n < TWO_64
    ensures b.lo / 2 == (2 * n - missing) / 2
    ensures b.lo / 2 == n <==> missing == 0
  {
  }

  // The receiver's padded elements and the sender's elements.
  ghost function Elements(g: Graph, d: Draws, baxos: Okvs, x: Word): seq<Word>
    requires d.Fit(g, x) && |g.neighbors(x)| <= g.maxDegree && Encoded(g, d, baxos, x)
  {
    CompressAll(Flatten(DecodedRows(g, d, baxos, x))) + d.pads
  }

  ghost function Sent(g: Graph, d: Draws): seq<Word> {
    CompressAll(Flatten(SentRows(d, g.vertices)))
  }

  // Element i * maxDegree + j is cell j of row i, folded; the padding follows.
  lemma ElementAt(g: Graph, d: Draws, baxos: Okvs, x: Word, i: nat, j: nat)
    requires d.Fit(g, x) && |g.neighbors(x)| <= g.maxDegree && Encoded(g, d, baxos, x)
    requires i < |g.neighbors(x)| && j < g.maxDegree
    ensures |Elements(g, d, baxos, x)| == g.maxDegree * g.maxDegree
    ensures |DecodedRows(g, d, baxos, x)| == |g.neighbors(x)| && |DecodedRows(g, d, baxos, x)[i]| == g.maxDegree
    ensures i * g.maxDegree + j < g.maxDegree * g.maxDegree
    ensures var b := DecodedRows(g, d, baxos, x)[i][j];
            Elements(g, d, baxos, x)[i * g.maxDegree + j] == XorWord(b.lo, b.hi)
    ensures Elements(g, d, baxos, x)[|Elements(g, d, baxos, x)| - |d.pads|..] == d.pads
  {
    RowWidths(g, d, baxos, x);
    hide Okvs.Decode, Flatten, XorWord, Row, Encoding, DecodedRows;
    var rows := DecodedRows(g, d, baxos, x);
    UniformAt(rows, g.maxDegree, i, j);
    CellBoundSquare(g, d, x, i, j);
  }

  lemma RowWidths(g: Graph, d: Draws, baxos: Okvs, x: Word)
    requires d.Fit(g, x) && |g.neighbors(x)| <= g.maxDegree && Encoded(g, d, baxos, x)
    ensures |DecodedRows(g, d, baxos, x)| == |g.neighbors(x)|
    ensures forall i :: 0 <= i < |DecodedRows(g, d, baxos, x)| ==> |DecodedRows(g, d, baxos, x)[i]| == g.maxDegree
  {
    hide Okvs.Decode;
  }

  lemma CellBoundSquare(g: Graph, d: Draws, x: Word, i: nat, j: nat)
    requires d.Fit(g, x) && i * g.maxDegree + j < |g.neighbors(x)| * g.maxDegree
    ensures i * g.maxDegree + j < g.maxDegree * g.maxDegree
  {
  }

  // Element v * maxDegree + k of the sender is value k of vertex v, folded.
  lemma SentElementAt(g: Graph, d: Draws, x: Word, v: nat, k: nat)
    requires d.Fit(g, x) && v < g.vertices && k < g.maxDegree
    ensures |Sent(g, d)| == g.vertices * g.maxDegree && v * g.maxDegree + k < g.vertices * g.maxDegree
    ensures Sent(g, d)[v * g.maxDegree + k] == XorWord(d.rand(v)[k].lo, d.rand(v)[k].hi)
  {
    hide XorWord, Flatten;
    SentAt(d, g.vertices, g.maxDegree, v, k);
  }

  // All systems of the run can be solved: the neighbours' encodings, and those of the PSI on the resulting sets.
  ghost predicate Solvable(g: Graph, d: Draws, baxos: Okvs, s: Setup, x: Word)
    requires d.Fit(g, x) && |g.neighbors(x)| <= g.maxDegree && s.Valid()
  {
    Encoded(g, d, baxos, x) && Succeeds(s, Elements(g, d, baxos, x), Sent(g, d))
  }

  // Spelled out with the neighbours' systems.
  lemma SolvableIff(g: Graph, d: Draws, baxos: Okvs, s: Setup, x: Word)
    requires d.Fit(g, x) && |g.neighbors(x)| <= g.maxDegree && s.Valid()
    ensures Encoded(g, d, baxos, x) <==>
            forall w :: w in g.neighbors(x) ==> baxos.solve(ToBlocks(g.neighbors(w)) + d.listPads(w), d.rand(w)).Some?
    ensures Encoded(g, d, baxos, x) ==>
              (Solvable(g, d, baxos, s, x) <==> Succeeds(s, Elements(g, d, baxos, x), Sent(g, d)))
    ensures !Encoded(g, d, baxos, x) ==> !Solvable(g, d, baxos, s, x)
  {
    hide Succeeds, Elements, Sent;
  }

  /** How a run ends. */
  datatype Result =
    | NoNeighbors
    | SolverFailed
    | Counted(triangles: nat, out: Outcome)

  lemma ElementsHit(g: Graph, d: Draws, baxos: Okvs, x: Word)
    requires g.Valid() && x < g.vertices && d.Fit(g, x) && baxos.Valid() && |g.neighbors(x)| <= g.maxDegree
    requires Encoded(g, d, baxos, x) && NoStray(g, d, baxos, x, Sent(g, d))
    ensures CountIf(Elements(g, d, baxos, x), y => y != DUMMY_ELEMENT && y in Sent(g, d)) == 2 * |TrianglesAt(g, x)| < TWO_64
  {
    hide Graph.Valid, Draws.Fit, Okvs.Valid, RowsDecoded, DecodedRows, Flatten, TrianglesAt, CountIf, NoStray, Compress;
    DecodedRowsDecoded(g, d, baxos, x);
    var vec, sent := Elements(g, d, baxos, x), Sent(g, d);
    HitsAreTwiceTriangles(g, d, baxos, x, DecodedRows(g, d, baxos, x), vec, sent);
    CountIfAgree(vec, y => y != DUMMY_ELEMENT && y in sent, y => y != DUMMY_ELEMENT && y in Sent(g, d));
    CountFits(g, x);
  }

  lemma RandWidth(g: Graph, d: Draws, x: Word)
    requires d.Fit(g, x)
    ensures forall i :: |d.rand(i)| == g.maxDegree
  {
  }

  lemma RunCounts(g: Graph, d: Draws, baxos: Okvs, s: Setup, x: Word, out: Outcome)
    requires g.Valid() && x < g.vertices && d.Fit(g, x) && baxos.Valid() && s.Valid()
    requires |g.neighbors(x)| <= g.maxDegree && Solvable(g, d, baxos, s, x)
    requires PsiCorrect(s, Elements(g, d, baxos, x), Sent(g, d), out)
    ensures var vec, sent := Elements(g, d, baxos, x), Sent(g, d);
            NoStray(g, d, baxos, x, sent) && NoFalseMatch(s, vec, sent) ==>
              && out.answer.lo / 2 == (2 * |TrianglesAt(g, x)| - StashedHits(s, vec, sent)) / 2
              && (out.answer.lo / 2 == |TrianglesAt(g, x)| <==> StashedHits(s, vec, sent) == 0)
  {
    hide Graph.Valid, Draws.Fit, Okvs.Valid, Setup.Valid, Elements, Sent, TrianglesAt, CountIf, NoStray, NoFalseMatch, PsiCorrect,
         LaneArithmetic.Value, StashedHits, Succeeds;
    var vec, sent := Elements(g, d, baxos, x), Sent(g, d);
    if NoStray(g, d, baxos, x, sent) && NoFalseMatch(s, vec, sent) {
      PsiCardinality(s, vec, sent, out);
      ElementsHit(g, d, baxos, x);
      CountIfAgree(vec, y => y != DUMMY_ELEMENT && y in sent, y => y != DUMMY_ELEMENT && y in Sent(g, d));
      LowWordHalved(out.answer, |TrianglesAt(g, x)|, StashedHits(s, vec, sent));
    }
  }

  /**
   The program run for vertex x of any graph. It ends silently exactly for a vertex without neighbours, and fails
   exactly when one of its own systems has no solution. Otherwise it prints half of its answer, which is the number of
   triangles at x under an empty stash and no accidental collision.
   */
  method CountTriangles(g: Graph, d: Draws, baxos: Okvs, s: Setup, x: Word) returns (r: Result)
    requires g.Valid() && x < g.vertices && d.Fit(g, x) && baxos.Valid() && s.Valid()
    ensures |g.neighbors(x)| <= g.maxDegree
    ensures r.NoNeighbors? <==> g.neighbors(x) == []
    ensures r.SolverFailed? <==> g.neighbors(x) != [] && !Solvable(g, d, baxos, s, x)
    ensures r.Counted? ==> Solvable(g, d, baxos, s, x)
    ensures r.Counted? ==> PsiCorrect(s, Elements(g, d, baxos, x), Sent(g, d), r.out) && r.triangles == r.out.answer.lo / 2
    ensures r.Counted? && NoStray(g, d, baxos, x, Sent(g, d)) && NoFalseMatch(s, Elements(g, d, baxos, x), Sent(g, d)) ==>
              && r.triangles == (2 * |TrianglesAt(g, x)| - StashedHits(s, Elements(g, d, baxos, x), Sent(g, d))) / 2
              && (r.triangles == |TrianglesAt(g, x)| <==> StashedHits(s, Elements(g, d, baxos, x), Sent(g, d)) == 0)
  {
    assert g.ValidList(x);
    hide Graph.Valid, Draws.Fit, Okvs.Valid, Setup.Valid, DecodedRows, Flatten, PsiCorrect, Succeeds, NoStray, NoFalseMatch, StashedHits, TrianglesAt;
    if |g.neighbors(x)| == 0 {
      return NoNeighbors;
    }
    var ok, rows := NeighborRequest(g, d, baxos, x);
    if !ok {
      return SolverFailed;
    }
    var setR := FlattenRows(rows);
    RandWidth(g, d, x);
    var setS := SenderSet(d, g.vertices, g.maxDegree);
    var out;
    ok, out := PsiCa(s, setR, d.pads, setS);
    if !ok {
      return SolverFailed;
    }
    r := Counted(out.answer.lo / 2, out);
    RunCounts(g, d, baxos, s, x, out);
  }
}
