/** The PSI-cardinality protocol between psi_ca_receiver and psi_ca_sender. */
module CircuitPsi {
  import opened Digits
  import opened Blocks
  import opened HashTableEntry
  import opened Counting
  import opened Flattening
  import opened VoleOprf
  import opened LaneArithmetic
  import opened MaskedSum
  import B = Bitwise
  import BlockEquality
  import PackedBits
  import CuckooTable
  import SimpleTable
  import TableAgreement

  // A block folded to 64 bits: low ^ high.
  function Compress(b: Block): Word {
    XorWord(b.lo, b.hi)
  }

  // Two blocks collide exactly when their low and their high halves differ in the same bits.
  lemma CompressionCollides(x: Block, y: Block)
    ensures Compress(x) == Compress(y) <==> XorWord(x.lo, y.lo) == XorWord(x.hi, y.hi)
  {
    hide B.Xor;
    if Compress(x) == Compress(y) {
      B.XorCross(x.lo, x.hi, y.lo, y.hi);
    }
    if XorWord(x.lo, y.lo) == XorWord(x.hi, y.hi) {
      B.XorCross(x.lo, y.lo, x.hi, y.hi);
    }
  }

  // Bit k of the folded word is set exactly when bits k of the two halves differ.
  lemma CompressBit(b: Block, k: nat)
    ensures Compress(b) / Pow2(k) % 2 == 1 <==> b.lo / Pow2(k) % 2 != b.hi / Pow2(k) % 2
  {
    hide Pow2, B.Xor;
    B.XorBit(b.lo, b.hi, k);
  }

  function CompressAll(blocks: seq<Block>): (vec: seq<Word>)
    ensures |vec| == |blocks|
  {
    seq(|blocks|, i requires 0 <= i < |blocks| => Compress(blocks[i]))
  }

  method CompressSet(blocks: seq<Block>) returns (vec: seq<Word>)
    ensures vec == CompressAll(blocks)
  {
    vec := [];
    for i := 0 to |blocks|
      invariant |vec| == i && forall k :: 0 <= k < i ==> vec[k] == Compress(blocks[k])
    {
      vec := vec + [Compress(blocks[i])];
    }
  }

  // The receiver's elements with their padding, and the payload 1 of each.
  method ReceiverElements(blocks: seq<Block>, pads: seq<Word>) returns (vec: seq<Word>, payloads: map<Word, Word>)
    ensures vec == CompressAll(blocks) + pads
    ensures |vec| == |blocks| + |pads| && vec[|blocks|..] == pads
    ensures forall i :: 0 <= i < |blocks| ==> vec[i] == XorWord(blocks[i].lo, blocks[i].hi)
    ensures forall x :: x in vec ==> x in payloads && payloads[x] == 1
  {
    vec := CompressSet(blocks);
    vec := vec + pads;
    payloads := map[];
    for i := 0 to |vec|
      invariant forall x :: x in vec[..i] ==> x in payloads && payloads[x] == 1
    {
      payloads := payloads[vec[i] := 1];
      assert vec[..i + 1] == vec[..i] + [vec[i]];
    }
    assert vec[..|vec|] == vec;
  }

  // The cells of the first n rows are masked with their row's random value.
  ghost predicate RowsMasked(rows: seq<seq<Block>>, randomValues: seq<Block>, was: seq<Block>, now: seq<Block>, n: nat)
    requires n <= |rows| == |randomValues|
  {
    forall i, j :: 0 <= i < n && 0 <= j < |rows[i]| ==> MaskedCell(rows, randomValues, was, now, i, j)
  }

  // The sender's masking loop: the running index follows the rows.
  method MaskRows(rows: seq<seq<Block>>, randomValues: seq<Block>, oprf: array<Block>)
    requires |randomValues| == |rows| && oprf.Length == |Flatten(rows)|
    modifies oprf
    ensures RowsMasked(rows, randomValues, old(oprf[..]), oprf[..], |rows|)
  {
    hide Xor, RowsMasked;
    var tmp := 0;
    ghost var was := oprf[..];
    assert rows[..|rows|] == rows;
    NoRowsMasked(rows, randomValues, was);
    for i := 0 to |rows|
      invariant tmp == Offset(rows, i)
      invariant forall t :: tmp <= t < oprf.Length ==> oprf[t] == was[t]
      invariant RowsMasked(rows, randomValues, was, oprf[..], i)
    {
      OffsetNext(rows, i);
      OffsetBound(rows, i + 1);
      ghost var before := oprf[..];
      tmp := MaskRow(rows, randomValues, oprf, i, tmp, was);
      RowMaskedNext(rows, randomValues, was, before, oprf[..], i);
    }
  }

  lemma NoRowsMasked(rows: seq<seq<Block>>, randomValues: seq<Block>, was: seq<Block>)
    requires |randomValues| == |rows|
    ensures RowsMasked(rows, randomValues, was, was, 0)
  {
  }

  lemma RowMaskedNext(rows: seq<seq<Block>>, randomValues: seq<Block>, was: seq<Block>, before: seq<Block>, now: seq<Block>, n: nat)
    requires n < |rows| == |randomValues| && |before| == |now|
    requires RowsMasked(rows, randomValues, was, before, n)
    requires forall t :: 0 <= t < Offset(rows, n) && t < |now| ==> now[t] == before[t]
    requires forall j :: 0 <= j < |rows[n]| ==> MaskedCell(rows, randomValues, was, now, n, j)
    ensures RowsMasked(rows, randomValues, was, now, n + 1)
  {
    hide Xor;
    forall i, j | 0 <= i < n + 1 && 0 <= j < |rows[i]|
      ensures MaskedCell(rows, randomValues, was, now, i, j)
    {
      if i < n {
        assert MaskedCell(rows, randomValues, was, before, i, j);
        FlattenAt(rows[..n], i, j);
        assert rows[..n][..i] == rows[..i];
      }
    }
  }

  ghost predicate MaskedCell(rows: seq<seq<Block>>, randomValues: seq<Block>, was: seq<Block>, now: seq<Block>, i: nat, j: nat)
    requires i < |rows| == |randomValues|
  {
    var t := Offset(rows, i) + j;
    t < |was| == |now| && now[t] == Xor(randomValues[i], was[t])
  }

  method MaskRow(rows: seq<seq<Block>>, randomValues: seq<Block>, oprf: array<Block>, i: nat, start: nat, ghost was: seq<Block>)
    returns (tmp: nat)
    requires i < |rows| == |randomValues| && start == Offset(rows, i) && start + |rows[i]| <= oprf.Length == |was|
    requires forall t :: start <= t < oprf.Length ==> oprf[t] == was[t]
    modifies oprf
    ensures tmp == start + |rows[i]|
    ensures forall t :: 0 <= t < start || tmp <= t < oprf.Length ==> oprf[t] == old(oprf[t])
    ensures forall j :: 0 <= j < |rows[i]| ==> MaskedCell(rows, randomValues, was, oprf[..], i, j)
  {
    hide Xor, Offset;
    tmp := start;
    for j := 0 to |rows[i]|
      invariant tmp == start + j
      invariant forall t :: 0 <= t < start || tmp <= t < oprf.Length ==> oprf[t] == old(oprf[t])
      invariant forall t :: start <= t < tmp ==> oprf[t] == Xor(randomValues[i], was[t])
    {
      oprf[tmp] := Xor(randomValues[i], oprf[tmp]);
      tmp := tmp + 1;
    }
  }

  // The bin count: the real-valued multiple of the squared degree, rounded up to whole bytes.
  function NumBins(binNum: nat): (nbins: nat)
    ensures nbins % 8 == 0 && binNum <= nbins < binNum + 8
  {
    binNum + if binNum % 8 == 0 then 0 else 8 - binNum % 8
  }

  /** Everything the two parties agree on or draw at random. */
  datatype Setup = Setup(binNum: nat, hashing: Hashing, recursionLimiter: nat, oprf: Okvs, hint: Okvs, vole: Vole,
                         randomValues: seq<Block>, otMasks: seq<Block>, draws: BlockEquality.BlockDraws) {
    ghost predicate Valid() {
      && hashing.Valid() && hashing.bins == NumBins(binNum)
      && oprf.Valid() && hint.Valid() && vole.Valid(oprf.mul, oprf.size)
      && |randomValues| == |otMasks| == hashing.bins && draws.Fit(hashing.bins)
    }
  }

  // The receiver's table, stash and exported keys.
  ghost function ReceiverMap(s: Setup, vec: seq<Word>): (m: CuckooTable.Mapping)
    requires s.Valid()
    ensures |m.table| == s.hashing.bins
  {
    CuckooTable.Mapped(s.hashing, vec, s.recursionLimiter, |vec|)
  }

  ghost function ReceiverKeys(s: Setup, vec: seq<Word>): seq<Block>
    requires s.Valid()
  {
    CuckooTable.ExportedKeys(ReceiverMap(s, vec).table, s.hashing.bins)
  }

  // The PRF key that the OPRF run on the receiver's keys sets up.
  ghost function PrfKey(s: Setup, vec: seq<Word>): Option<seq<Block>>
    requires s.Valid()
  {
    OprfKey(s.oprf, s.vole, ReceiverKeys(s, vec))
  }

  // The sender's bins.
  ghost function SenderRows(s: Setup, sent: seq<Word>): (rows: seq<seq<Block>>)
    requires s.Valid()
    ensures |rows| == s.hashing.bins
  {
    seq(s.hashing.bins, b requires 0 <= b < s.hashing.bins => SimpleTable.Bin(s.hashing, sent, |sent|, b))
  }

  // The value hidden at each key of each row: the row's random value under the key's PRF value.
  ghost function HintValues(s: Setup, rows: seq<seq<Block>>, prfKey: seq<Block>): (values: seq<seq<Block>>)
    requires |rows| == |s.randomValues|
    ensures |values| == |rows| && forall i :: 0 <= i < |rows| ==> |values[i]| == |rows[i]|
  {
    seq(|rows|, i requires 0 <= i < |rows| =>
      seq(|rows[i]|, j requires 0 <= j < |rows[i]| => Xor(s.randomValues[i], s.oprf.Decode(prfKey, rows[i][j]))))
  }

  // The sender's hint for a PRF key.
  ghost function HintFor(s: Setup, sent: seq<Word>, prfKey: seq<Block>): Option<seq<Block>>
    requires s.Valid()
  {
    var rows := SenderRows(s, sent);
    s.hint.solve(Flatten(rows), Flatten(HintValues(s, rows, prfKey)))
  }

  // The two systems of a run can be solved: that of the OPRF client, and that of the hint.
  ghost predicate Succeeds(s: Setup, vec: seq<Word>, sent: seq<Word>)
    requires s.Valid()
  {
    PrfKey(s, vec).Some? && HintFor(s, sent, PrfKey(s, vec).value).Some?
  }

  // No solution for the zeros at the receiver's keys, no run.
  lemma FailsWithoutKey(s: Setup, vec: seq<Word>, sent: seq<Word>, zeros: seq<Block>)
    requires s.Valid()
    requires var keys := CuckooTable.ExportedKeys(CuckooTable.Mapped(s.hashing, vec, s.recursionLimiter, |vec|).table, s.hashing.bins);
             |zeros| == |keys| && s.oprf.solve(keys, zeros).None?
    requires forall i :: 0 <= i < |zeros| ==> zeros[i] == Block(0, 0)
    ensures !Succeeds(s, vec, sent)
  {
    ZeroEncodingIs(s.oprf, ReceiverKeys(s, vec), zeros);
  }

  /** The objects of one run: the client's solution and the key it leads to, the sender's bins, and the values to hide. */
  datatype RunParts = RunParts(zeros: seq<Block>, p: seq<Block>, prfKey: seq<Block>, rows: seq<seq<Block>>, values: seq<seq<Block>>) {
    ghost predicate Of(s: Setup, vec: seq<Word>, sent: seq<Word>)
      requires s.Valid()
    {
      var keys := CuckooTable.ExportedKeys(CuckooTable.Mapped(s.hashing, vec, s.recursionLimiter, |vec|).table, s.hashing.bins);
      && |zeros| == |keys| && (forall i :: 0 <= i < |zeros| ==> zeros[i] == Block(0, 0))
      && s.oprf.solve(keys, zeros) == Some(p) && |p| == |prfKey| == s.oprf.size
      && (forall i :: 0 <= i < |prfKey| ==> prfKey[i] == Xor(s.vole.b[i], s.oprf.mul(s.vole.delta, Xor(p[i], s.vole.a[i]))))
      && |rows| == |values| == s.hashing.bins
      && (forall b :: 0 <= b < |rows| ==> rows[b] == SimpleTable.Bin(s.hashing, sent, |sent|, b) && |values[b]| == |rows[b]|)
      && (forall b, j :: 0 <= b < |rows| && 0 <= j < |rows[b]| ==>
            values[b][j] == Xor(s.randomValues[b], s.oprf.Decode(prfKey, rows[b][j])))
    }
  }

  // Otherwise the run succeeds exactly when the hint can be solved: at the flattened bins, with each bin's random value
  // under the PRF values of its keys.
  lemma SucceedsIffHint(s: Setup, vec: seq<Word>, sent: seq<Word>, run: RunParts)
    requires s.Valid() && run.Of(s, vec, sent)
    ensures PrfKey(s, vec) == Some(run.prfKey) && HintFor(s, sent, run.prfKey) == s.hint.solve(Flatten(run.rows), Flatten(run.values))
    ensures Succeeds(s, vec, sent) <==> s.hint.solve(Flatten(run.rows), Flatten(run.values)).Some?
  {
    hide RunParts.Of, OprfKey, Setup.Valid, SenderRows, HintValues;
    RunKey(s, vec, sent, run);
    RunRows(s, vec, sent, run);
  }

  lemma RunKey(s: Setup, vec: seq<Word>, sent: seq<Word>, run: RunParts)
    requires s.Valid() && run.Of(s, vec, sent)
    ensures PrfKey(s, vec) == Some(run.prfKey)
  {
    hide Xor, Okvs.Decode, Flatten, Okvs.Valid, OprfKey, CuckooTable.Mapped, CuckooTable.ExportedKeys, SimpleTable.Bin;
    OprfKeyIs(s.oprf, s.vole, ReceiverKeys(s, vec), run.zeros, run.p, run.prfKey);
  }

  lemma RunRows(s: Setup, vec: seq<Word>, sent: seq<Word>, run: RunParts)
    requires s.Valid() && run.Of(s, vec, sent)
    ensures run.rows == SenderRows(s, sent) && |run.rows| == |s.randomValues|
    ensures run.values == HintValues(s, run.rows, run.prfKey)
  {
    hide Xor, Okvs.Decode, Flatten, Okvs.Valid, OprfKey, CuckooTable.Mapped, CuckooTable.ExportedKeys, SimpleTable.Bin;
    var values := HintValues(s, run.rows, run.prfKey);
    forall b | 0 <= b < |run.rows|
      ensures run.values[b] == values[b]
    {
      assert |run.values[b]| == |values[b]|;
      forall j | 0 <= j < |run.rows[b]|
        ensures run.values[b][j] == values[b][j]
      {
      }
    }
  }

  // The parts of a run exist whenever the client's system can be solved.
  lemma RunPartsExist(s: Setup, vec: seq<Word>, sent: seq<Word>) returns (run: RunParts)
    requires s.Valid() && ZeroEncoding(s.oprf, ReceiverKeys(s, vec)).Some?
    ensures run.Of(s, vec, sent)
  {
    hide Xor, Okvs.Decode, Flatten, Okvs.Valid;
    var keys := ReceiverKeys(s, vec);
    ZeroEncodingSolves(s.oprf, keys);
    var p := ZeroEncoding(s.oprf, keys).value;
    var prfKey := ServerKey(s.oprf, s.vole, p);
    var rows := SenderRows(s, sent);
    run := RunParts(Zeros(|keys|), p, prfKey, rows, HintValues(s, rows, prfKey));
  }

  // The block a receiver slot takes into the equality test: hint decode XOR OPRF output at its key, zero if empty.
  ghost function SlotBlock(s: Setup, e: Entry, prfKey: seq<Block>, hint: seq<Block>): Block {
    if e.IsEmpty() then ZERO_BLOCK
    else Xor(s.hint.Decode(hint, CuckooTable.KeyOf(e)), s.oprf.Decode(prfKey, CuckooTable.KeyOf(e)))
  }

  // The block of slot i in the run on the given sets.
  ghost function RunBlock(s: Setup, vec: seq<Word>, sent: seq<Word>, i: nat): Block
    requires s.Valid() && Succeeds(s, vec, sent) && i < s.hashing.bins
  {
    var prfKey := PrfKey(s, vec).value;
    SlotBlock(s, ReceiverMap(s, vec).table[i], prfKey, HintFor(s, sent, prfKey).value)
  }

  // The hint decodes, at every key of every sender bin, to that bin's random value under the key's PRF value.
  ghost predicate HintOpens(s: Setup, sent: seq<Word>, prfKey: seq<Block>, hint: seq<Block>)
    requires s.Valid()
  {
    forall b, key :: 0 <= b < s.hashing.bins && key in SimpleTable.Bin(s.hashing, sent, |sent|, b) ==>
      s.hint.Decode(hint, key) == Xor(s.randomValues[b], s.oprf.Decode(prfKey, key))
  }

  lemma HintDecodes(s: Setup, sent: seq<Word>, prfKey: seq<Block>)
    requires s.Valid() && HintFor(s, sent, prfKey).Some?
    ensures HintOpens(s, sent, prfKey, HintFor(s, sent, prfKey).value)
  {
    hide Xor, Okvs.Decode, Okvs.Valid, HintValues, Flatten;
    var rows := SenderRows(s, sent);
    forall b, key | 0 <= b < s.hashing.bins && key in SimpleTable.Bin(s.hashing, sent, |sent|, b)
      ensures s.hint.Decode(HintFor(s, sent, prfKey).value, key) == Xor(s.randomValues[b], s.oprf.Decode(prfKey, key))
    {
      var j :| 0 <= j < |rows[b]| && rows[b][j] == key;
      HintCell(s, rows, prfKey, HintFor(s, sent, prfKey).value, b, j);
    }
  }

  lemma HintCell(s: Setup, rows: seq<seq<Block>>, prfKey: seq<Block>, hint: seq<Block>, b: nat, j: nat)
    requires s.hint.Valid() && |rows| == |s.randomValues| && b < |rows| && j < |rows[b]|
    requires s.hint.solve(Flatten(rows), Flatten(HintValues(s, rows, prfKey))) == Some(hint)
    ensures s.hint.Decode(hint, rows[b][j]) == Xor(s.randomValues[b], s.oprf.Decode(prfKey, rows[b][j]))
  {
    hide Xor, Okvs.Decode, FieldProduct, Flatten, Offset;
    var values := HintValues(s, rows, prfKey);
    var t := SameCell(rows, values, b, j);
    assert s.hint.Solves(Flatten(rows), Flatten(values), hint);
  }

  // The sender's bins, PRF values and hint.
  method SenderHint(s: Setup, sent: seq<Word>, key: seq<Octet>, ghost prfKey: seq<Block>) returns (hint: Option<seq<Block>>)
    requires s.Valid() && KeyEncodes(key, prfKey)
    ensures hint == HintFor(s, sent, prfKey)
  {
    hide Xor, RowsMasked, KeyEncodes, Okvs.Decode;
    var simpleTable := new SimpleTable.SimpleTable(s.hashing);
    simpleTable.Insert(sent);
    assert simpleTable.elements == sent;
    var rows, _ := simpleTable.AsRaw2DVectorNoID();
    var keys := FlattenRows(rows);
    var values := Evaluate1(s.oprf, key, keys, prfKey);
    var masked := new Block[|values|](i requires 0 <= i < |values| => values[i]);
    assert masked[..] == values;
    MaskRows(rows, s.randomValues, masked);
    hint := s.hint.solve(keys, masked[..]);
    assert rows == SenderRows(s, sent);
    MaskedExact(s, rows, values, masked[..], prfKey);
  }

  // The masked vector is exactly the values to be hidden.
  lemma MaskedExact(s: Setup, rows: seq<seq<Block>>, values: seq<Block>, masked: seq<Block>, prfKey: seq<Block>)
    requires |rows| == |s.randomValues| && |values| == |masked| == |Flatten(rows)|
    requires forall t :: 0 <= t < |values| ==> values[t] == s.oprf.Decode(prfKey, Flatten(rows)[t])
    requires RowsMasked(rows, s.randomValues, values, masked, |rows|)
    ensures masked == Flatten(HintValues(s, rows, prfKey))
  {
    hide Xor, Okvs.Decode;
    var hidden := HintValues(s, rows, prfKey);
    SameShape(rows, hidden);
    forall i, j | 0 <= i < |hidden| && 0 <= j < |hidden[i]| && Offset(hidden, i) + j < |masked|
      ensures masked[Offset(hidden, i) + j] == hidden[i][j]
    {
      var t := SameCell(rows, hidden, i, j);
      assert MaskedCell(rows, s.randomValues, values, masked, i, j);
    }
    FlattenUnique(hidden, masked);
  }

  // The receiver's table and its exported keys.
  method ReceiverTable(s: Setup, vec: seq<Word>)
    returns (table: seq<Entry>, stash: seq<Entry>, idxs: seq<nat>, keys: seq<Block>)
    requires s.Valid()
    ensures table == ReceiverMap(s, vec).table && stash == ReceiverMap(s, vec).stash
    ensures CuckooTable.WellPlaced(s.hashing, vec, table, stash)
    ensures CuckooTable.ConservedAll(vec, table, stash, |vec|, EMPTY_ENTRY)
    ensures keys == ReceiverKeys(s, vec)
    ensures idxs == CuckooTable.Occupied(table, |table|)
    ensures |keys| == |idxs| && forall k :: 0 <= k < |idxs| ==> CuckooTable.KeyAt(table, idxs[k], keys[k])
  {
    var cuckooTable := new CuckooTable.CuckooTable(s.hashing, s.recursionLimiter);
    cuckooTable.Insert(vec);
    assert cuckooTable.elements == vec;
    var ok := cuckooTable.AllocateTable();
    cuckooTable.MapElementsToTable();
    idxs, keys := cuckooTable.AsRawVectorNoID();
    table, stash := cuckooTable.hashTable, cuckooTable.stash;
  }

  // Decode the hint at the receiver's keys and take the PRF values off.
  method Unmask(s: Setup, hint: seq<Block>, keys: seq<Block>, prf: seq<Block>) returns (values: array<Block>)
    requires |prf| == |keys|
    ensures fresh(values) && values.Length == |keys|
    ensures forall k :: 0 <= k < |keys| ==> values[k] == Xor(s.hint.Decode(hint, keys[k]), prf[k])
  {
    hide Xor, Okvs.Decode;
    values := new Block[|keys|](k requires 0 <= k < |keys| => s.hint.Decode(hint, keys[k]));
    for i := 0 to |keys|
      invariant forall k :: 0 <= k < |keys| ==>
                  values[k] == if k < i then Xor(s.hint.Decode(hint, keys[k]), prf[k]) else s.hint.Decode(hint, keys[k])
    {
      values[i] := Xor(values[i], prf[i]);
    }
  }

  // One block per bin: zero where the bin is empty.
  method Scatter(bins: nat, idxs: seq<nat>, values: array<Block>) returns (blocks: seq<Block>)
    requires |idxs| == values.Length && Increasing(idxs) && forall k :: 0 <= k < |idxs| ==> idxs[k] < bins
    ensures |blocks| == bins
    ensures forall k :: 0 <= k < |idxs| ==> blocks[idxs[k]] == values[k]
    ensures forall i :: 0 <= i < bins && i !in idxs ==> blocks[i] == ZERO_BLOCK
  {
    blocks := seq(bins, i => ZERO_BLOCK);
    for i := 0 to |idxs|
      invariant |blocks| == bins
      invariant forall k :: 0 <= k < i ==> blocks[idxs[k]] == values[k]
      invariant forall b :: 0 <= b < bins && b !in idxs[..i] ==> blocks[b] == ZERO_BLOCK
    {
      blocks := blocks[idxs[i] := values[i]];
      assert idxs[..i + 1] == idxs[..i] + [idxs[i]];
    }
    assert idxs[..|idxs|] == idxs;
  }

  /** What a run leaves behind at the receiver. */
  datatype Outcome = Outcome(table: seq<Entry>, stash: seq<Entry>, eqBlocks: seq<Block>, answer: Block)

  // Bins below n that are occupied and whose block equals the sender's random value.
  function MatchCount(table: seq<Entry>, eqBlocks: seq<Block>, randomValues: seq<Block>, n: nat): nat
    requires n <= |table| == |eqBlocks| == |randomValues|
  {
    if n == 0 then 0
    else MatchCount(table, eqBlocks, randomValues, n - 1)
         + if !table[n - 1].IsEmpty() && eqBlocks[n - 1] == randomValues[n - 1] then 1 else 0
  }

  // The outcome of the run on the given sets: the table and stash of the mapping, in every slot the block of that slot,
  // among them the sender's value wherever it has the element, and the number of matched bins as the answer.
  ghost predicate PsiCorrect(s: Setup, vec: seq<Word>, sent: seq<Word>, out: Outcome)
    requires s.Valid()
  {
    && Succeeds(s, vec, sent)
    && out.table == ReceiverMap(s, vec).table && out.stash == ReceiverMap(s, vec).stash
    && CuckooTable.WellPlaced(s.hashing, vec, out.table, out.stash)
    && CuckooTable.ConservedAll(vec, out.table, out.stash, |vec|, EMPTY_ENTRY)
    && |out.eqBlocks| == s.hashing.bins
    && (forall i :: 0 <= i < s.hashing.bins ==> out.eqBlocks[i] == RunBlock(s, vec, sent, i))
    && (forall i :: 0 <= i < s.hashing.bins && !out.table[i].IsEmpty() && out.table[i].value in sent ==>
          out.eqBlocks[i] == s.randomValues[i])
    && Value(out.answer) == MatchCount(out.table, out.eqBlocks, s.randomValues, s.hashing.bins) % TWO_128
  }

  // The payload of bin i is 1 exactly when it is occupied.
  lemma OccupiedPay(table: seq<Entry>, idxs: seq<nat>, keys: seq<Block>, payloads: map<Word, Word>, i: nat)
    requires idxs == CuckooTable.Occupied(table, |table|) && |keys| == |idxs| && i < |table|
    requires forall k :: 0 <= k < |keys| ==> keys[k].lo in payloads && payloads[keys[k].lo] == 1
    ensures Increasing(idxs) && PayAt(idxs, keys, payloads, i, |idxs|) == if table[i].IsEmpty() then 0 else 1
  {
    CuckooTable.OccupiedExact(table, |table|);
    if table[i].IsEmpty() {
      assert idxs[..|idxs|] == idxs;
      PayAtMiss(idxs, keys, payloads, i, |idxs|);
    } else {
      var j :| 0 <= j < |idxs| && idxs[j] == i;
      PayAtHit(idxs, keys, payloads, j, |idxs|);
    }
  }

  lemma {:induction false} GainIsMatches(table: seq<Entry>, eqBlocks: seq<Block>, randomValues: seq<Block>,
                                         ansR: seq<bool>, ansS: seq<bool>, pay: nat -> Word, n: nat)
    requires n <= |table| == |eqBlocks| == |randomValues| == |ansR| == |ansS|
    requires forall i :: 0 <= i < |table| ==> pay(i) == if table[i].IsEmpty() then 0 else 1
    requires forall i :: 0 <= i < |table| ==> (ansR[i] != ansS[i] <==> eqBlocks[i] == randomValues[i])
    ensures Gain(ansR, ansS, pay, n) == MatchCount(table, eqBlocks, randomValues, n)
  {
    if n > 0 {
      GainIsMatches(table, eqBlocks, randomValues, ansR, ansS, pay, n - 1);
    }
  }

  // The transfers and the two sums, from the equality shares on.
  method SumMatches(s: Setup, table: seq<Entry>, idxs: seq<nat>, keys: seq<Block>, payloads: map<Word, Word>,
                    ghost eqBlocks: seq<Block>, ansR: seq<bool>, ansS: seq<bool>) returns (answer: Block)
    requires s.Valid() && |table| == |eqBlocks| == |ansR| == |ansS| == s.hashing.bins
    requires idxs == CuckooTable.Occupied(table, |table|) && |keys| == |idxs|
    requires forall k :: 0 <= k < |keys| ==> keys[k].lo in payloads && payloads[keys[k].lo] == 1
    requires forall i :: 0 <= i < |table| ==> (ansR[i] != ansS[i] <==> eqBlocks[i] == s.randomValues[i])
    ensures Value(answer) == MatchCount(table, eqBlocks, s.randomValues, s.hashing.bins) % TWO_128
  {
    hide AddWithCarry, SubWithBorrow, Value, PayAt, CuckooTable.Occupied;
    var n := s.hashing.bins;
    CuckooTable.OccupiedExact(table, |table|);
    var ot0, ot1 := BuildTransfers(ansR, idxs, keys, payloads, s.otMasks);
    var padding := seq(128 - n % 128, i => ZERO_BLOCK);
    ot0, ot1 := ot0 + padding, ot1 + padding;
    var choices := ansS + seq(128 - n % 128, i => false);
    var received := seq(|choices|, i requires 0 <= i < |choices| => Pick(choices[i], ot0[i], ot1[i]));
    var own := seq(n, i requires 0 <= i < n => Pick(ansR[i], ot0[i], ot1[i]));
    var sumS := AddUp(received[..n], n);
    var sumR := AddUp(own, n);
    assert own == s.otMasks;
    ghost var pay := (i: nat) => PayAt(idxs, keys, payloads, i, |idxs|);
    forall i | 0 <= i < |table|
      ensures pay(i) == if table[i].IsEmpty() then 0 else 1
    {
      OccupiedPay(table, idxs, keys, payloads, i);
    }
    MaskedDifference(ansR, ansS, s.otMasks, pay, received[..n], n, sumS, sumR);
    GainIsMatches(table, eqBlocks, s.randomValues, ansR, ansS, pay, n);
    answer := SubWithBorrow(sumS, sumR);
  }

  // An occupied bin whose element the sender has carries the sender's random value.
  lemma BinMatches(s: Setup, vec: seq<Word>, sent: seq<Word>, table: seq<Entry>, stash: seq<Entry>, i: nat,
                   prfKey: seq<Block>, hint: seq<Block>)
    requires s.Valid() && HintOpens(s, sent, prfKey, hint)
    requires CuckooTable.WellPlaced(s.hashing, vec, table, stash)
    requires i < |table| && !table[i].IsEmpty() && table[i].value in sent
    ensures SlotBlock(s, table[i], prfKey, hint) == s.randomValues[i]
  {
    hide Xor, Okvs.Decode, SimpleTable.Bin;
    var key := CuckooTable.KeyOf(table[i]);
    TableAgreement.SlotAgrees(s.hashing, vec, table, stash, sent, i, key);
    XorCancels(s.randomValues[i], s.oprf.Decode(prfKey, key));
  }

  // The blocks the receiver enters into the equality test.
  method ReceiverBlocks(s: Setup, ghost table: seq<Entry>, idxs: seq<nat>, keys: seq<Block>, prf: seq<Block>,
                        hint: seq<Block>, ghost prfKey: seq<Block>) returns (eqBlocks: seq<Block>)
    requires |table| == s.hashing.bins && idxs == CuckooTable.Occupied(table, |table|) && |keys| == |idxs| == |prf|
    requires forall k :: 0 <= k < |idxs| ==> CuckooTable.KeyAt(table, idxs[k], keys[k])
    requires forall k :: 0 <= k < |keys| ==> prf[k] == s.oprf.Decode(prfKey, keys[k])
    ensures |eqBlocks| == s.hashing.bins
    ensures forall i :: 0 <= i < |table| ==> eqBlocks[i] == SlotBlock(s, table[i], prfKey, hint)
  {
    hide Okvs.Decode, Xor, CuckooTable.Occupied;
    CuckooTable.OccupiedExact(table, |table|);
    var values := Unmask(s, hint, keys, prf);
    eqBlocks := Scatter(s.hashing.bins, idxs, values);
    forall i | 0 <= i < |table|
      ensures eqBlocks[i] == SlotBlock(s, table[i], prfKey, hint)
    {
      if !table[i].IsEmpty() {
        var k :| 0 <= k < |idxs| && idxs[k] == i;
        assert CuckooTable.KeyAt(table, i, keys[k]);
      }
    }
  }

  // The equality shares as selection bits.
  method EqualityShares(s: Setup, eqBlocks: seq<Block>) returns (ansR: seq<bool>, ansS: seq<bool>)
    requires s.Valid() && |eqBlocks| == s.hashing.bins
    ensures |ansR| == |ansS| == s.hashing.bins
    ensures forall i :: 0 <= i < s.hashing.bins ==> (ansR[i] != ansS[i] <==> eqBlocks[i] == s.randomValues[i])
  {
    var ans1, ans2 := BlockEquality.PerformBlockEquality(eqBlocks, s.randomValues, s.draws);
    ansR := seq(s.hashing.bins, i requires 0 <= i < s.hashing.bins reads ans1 => ans1[i][0]);
    ansS := seq(s.hashing.bins, i requires 0 <= i < s.hashing.bins reads ans2 => ans2[i][0]);
    forall i | 0 <= i < s.hashing.bins
      ensures ansR[i] != ansS[i] <==> eqBlocks[i] == s.randomValues[i]
    {
      assert BlockEquality.SharesBlockEqual(ans1[i], ans2[i], eqBlocks[i], s.randomValues[i]);
    }
  }

  /**
   One run of both parties, for all sets, paddings and randomness. It succeeds exactly when its two systems can be
   solved. The receiver is then left with the number of matched bins modulo 2^128, each bin having been tested on the
   block that its own slot gives, and every bin holding one of the sender's elements being matched.
   */
  method PsiCa(s: Setup, setR: seq<Block>, pads: seq<Word>, setS: seq<Block>) returns (ok: bool, out: Outcome)
    requires s.Valid()
    ensures ok <==> Succeeds(s, CompressAll(setR) + pads, CompressAll(setS))
    ensures ok ==> PsiCorrect(s, CompressAll(setR) + pads, CompressAll(setS), out)
  {
    hide CuckooTable.WellPlaced, CuckooTable.ConservedAll, CuckooTable.Occupied, Setup.Valid, Okvs.Decode, KeyEncodes,
         Value, SlotBlock, ReceiverMap, HintFor, OprfKey, ZeroEncoding;
    var vec, payloads := ReceiverElements(setR, pads);
    var sent := CompressSet(setS);
    var table, stash, idxs, keys := ReceiverTable(s, vec);
    TableFacts(s, vec, table, stash, idxs, keys);
    out := Outcome(table, stash, [], ZERO_BLOCK);
    var prf, key;
    SetupParts(s);
    OprfKeyIff(s.oprf, s.vole, keys);
    ok, prf, key := RunOprf(s.oprf, keys, s.vole);
    if !ok {
      return;
    }
    ghost var prfKey := PrfKey(s, vec).value;
    var hint := SenderHint(s, sent, key, prfKey);
    if hint.None? {
      ok := false;
      return;
    }
    var eqBlocks := ReceiverBlocks(s, table, idxs, keys, prf, hint.value, prfKey);
    MembersMatch(s, vec, sent, table, stash, eqBlocks);
    var ansR, ansS := EqualityShares(s, eqBlocks);
    var answer := SumMatches(s, table, idxs, keys, payloads, eqBlocks, ansR, ansS);
    out := Outcome(table, stash, eqBlocks, answer);
  }

  lemma MembersMatch(s: Setup, vec: seq<Word>, sent: seq<Word>, table: seq<Entry>, stash: seq<Entry>, eqBlocks: seq<Block>)
    requires s.Valid() && Succeeds(s, vec, sent) && table == ReceiverMap(s, vec).table
    requires |eqBlocks| == |table| == |s.randomValues|
    requires CuckooTable.WellPlaced(s.hashing, vec, table, stash)
    requires forall i :: 0 <= i < |table| ==> eqBlocks[i] == RunBlock(s, vec, sent, i)
    ensures forall i :: 0 <= i < |table| && !table[i].IsEmpty() && table[i].value in sent ==> eqBlocks[i] == s.randomValues[i]
  {
    hide SlotBlock, ReceiverMap, HintFor, HintOpens, CuckooTable.WellPlaced, Setup.Valid;
    var prfKey := PrfKey(s, vec).value;
    HintDecodes(s, sent, prfKey);
    forall i | 0 <= i < |table| && !table[i].IsEmpty() && table[i].value in sent
      ensures eqBlocks[i] == s.randomValues[i]
    {
      BinMatches(s, vec, sent, table, stash, i, prfKey, HintFor(s, sent, prfKey).value);
    }
  }

  lemma SetupParts(s: Setup)
    requires s.Valid()
    ensures s.oprf.Valid() && s.vole.Valid(s.oprf.mul, s.oprf.size)
  {
  }

  // The exported keys carry inserted elements.
  lemma TableFacts(s: Setup, vec: seq<Word>, table: seq<Entry>, stash: seq<Entry>, idxs: seq<nat>, keys: seq<Block>)
    requires s.Valid() && CuckooTable.WellPlaced(s.hashing, vec, table, stash)
    requires idxs == CuckooTable.Occupied(table, |table|) && |keys| == |idxs|
    requires forall k :: 0 <= k < |idxs| ==> CuckooTable.KeyAt(table, idxs[k], keys[k])
    ensures |table| == s.hashing.bins == |s.randomValues|
    ensures forall k :: 0 <= k < |keys| ==> keys[k].lo in vec
  {
    hide CuckooTable.Occupied;
    forall k | 0 <= k < |keys|
      ensures keys[k].lo in vec
    {
      assert CuckooTable.KeyAt(table, idxs[k], keys[k]);
      assert Belongs(s.hashing, vec, table[idxs[k]]);
    }
  }

  // No occupied bin matches by accident: the block of a slot whose element the sender lacks is not the bin's random value.
  ghost predicate NoFalseMatch(s: Setup, vec: seq<Word>, sent: seq<Word>)
    requires s.Valid() && Succeeds(s, vec, sent)
  {
    forall i :: 0 <= i < s.hashing.bins ==>
      !ReceiverMap(s, vec).table[i].IsEmpty() && ReceiverMap(s, vec).table[i].value !in sent ==>
        RunBlock(s, vec, sent, i) != s.randomValues[i]
  }

  // How many stashed elements the sender has.
  ghost function StashedHits(s: Setup, vec: seq<Word>, sent: seq<Word>): (n: nat)
    requires s.Valid()
    ensures ReceiverMap(s, vec).stash == [] ==> n == 0
  {
    CountIf(ReceiverMap(s, vec).stash, (e: Entry) => !e.IsEmpty() && e.value in sent)
  }

  lemma {:induction false} MatchesAreEntries(table: seq<Entry>, eqBlocks: seq<Block>, randomValues: seq<Block>, sent: seq<Word>, n: nat)
    requires n <= |table| == |eqBlocks| == |randomValues|
    requires forall i :: 0 <= i < |table| && !table[i].IsEmpty() ==> (eqBlocks[i] == randomValues[i] <==> table[i].value in sent)
    ensures MatchCount(table, eqBlocks, randomValues, n) == CountIf(table[..n], (e: Entry) => !e.IsEmpty() && e.value in sent)
  {
    if n > 0 {
      MatchesAreEntries(table, eqBlocks, randomValues, sent, n - 1);
      assert table[..n][..n - 1] == table[..n - 1];
    }
  }

  /**
   Without an accidental match the answer is the number of the receiver's elements that the sender has, repetitions
   included and the dummy excluded, less those that were stashed. The code goes on with a stash that is not empty.
   */
  lemma PsiCardinality(s: Setup, vec: seq<Word>, sent: seq<Word>, out: Outcome)
    requires s.Valid() && PsiCorrect(s, vec, sent, out) && NoFalseMatch(s, vec, sent)
    ensures StashedHits(s, vec, sent) <= CountIf(vec, x => x != DUMMY_ELEMENT && x in sent)
    ensures Value(out.answer)
            == (CountIf(vec, x => x != DUMMY_ELEMENT && x in sent) - StashedHits(s, vec, sent)) % TWO_128
  {
    hide CuckooTable.ConservedAll, CuckooTable.WellPlaced, Value, MatchCount, CountIf, PsiCorrect, NoFalseMatch, ReceiverMap,
         Setup.Valid;
    OutcomeParts(s, vec, sent, out);
    var q := (x: Word) => x in sent;
    MatchesAreEntries(out.table, out.eqBlocks, s.randomValues, sent, |out.table|);
    assert out.table[..|out.table|] == out.table;
    TableAgreement.MatchingSlots(s.hashing, vec, out.table, out.stash, q);
    CountIfAgree(out.table, (e: Entry) => !e.IsEmpty() && q(e.value), (e: Entry) => !e.IsEmpty() && e.value in sent);
    CountIfAgree(out.stash, (e: Entry) => !e.IsEmpty() && q(e.value), (e: Entry) => !e.IsEmpty() && e.value in sent);
    CountIfAgree(vec, x => x != DUMMY_ELEMENT && q(x), x => x != DUMMY_ELEMENT && x in sent);
  }

  // What slot i enters into the equality test, from the parts of the run.
  lemma TestedBlock(s: Setup, vec: seq<Word>, sent: seq<Word>, out: Outcome, run: RunParts, hint: seq<Block>, i: nat)
    requires s.Valid() && PsiCorrect(s, vec, sent, out) && run.Of(s, vec, sent) && i < s.hashing.bins
    requires s.hint.solve(Flatten(run.rows), Flatten(run.values)) == Some(hint)
    ensures out.table == CuckooTable.Mapped(s.hashing, vec, s.recursionLimiter, |vec|).table && |out.table| == |out.eqBlocks| == s.hashing.bins
    ensures out.stash == CuckooTable.Mapped(s.hashing, vec, s.recursionLimiter, |vec|).stash
    ensures var e := out.table[i];
            if e.value == TWO_64 - 1 then out.eqBlocks[i] == Block(0, 0)
            else e.functionId < TWO_64 && (var key := Block(e.functionId, e.value);
              out.eqBlocks[i] == Xor(s.hint.Decode(hint, key), s.oprf.Decode(run.prfKey, key)))
  {
    hide Xor, Okvs.Decode, Flatten, Okvs.Valid, CuckooTable.Mapped, CuckooTable.ConservedAll, RunParts.Of, Value, MatchCount;
    SucceedsIffHint(s, vec, sent, run);
    if out.table[i].value != TWO_64 - 1 {
      CuckooTable.PlacedCongruent(s.hashing, vec, out.table, out.stash, i);
    }
  }

  // The answer counts the occupied slots that enter the sender's value.
  lemma {:induction false} MatchCountIsSet(table: seq<Entry>, eqBlocks: seq<Block>, randomValues: seq<Block>, n: nat)
    requires n <= |table| == |eqBlocks| == |randomValues|
    ensures MatchCount(table, eqBlocks, randomValues, n)
            == |set i | 0 <= i < n && table[i].value != TWO_64 - 1 && eqBlocks[i] == randomValues[i]|
  {
    var all := set i | 0 <= i < n && table[i].value != TWO_64 - 1 && eqBlocks[i] == randomValues[i];
    if n == 0 {
      assert all == {};
    } else {
      MatchCountIsSet(table, eqBlocks, randomValues, n - 1);
      var before := set i | 0 <= i < n - 1 && table[i].value != TWO_64 - 1 && eqBlocks[i] == randomValues[i];
      assert all == if n - 1 in all then before + {n - 1} else before;
    }
  }

  lemma AnswerCounts(s: Setup, vec: seq<Word>, sent: seq<Word>, out: Outcome)
    requires s.Valid() && PsiCorrect(s, vec, sent, out)
    ensures |out.table| == |out.eqBlocks| == |s.randomValues|
    ensures out.answer.hi * TWO_64 + out.answer.lo
            == |set i | 0 <= i < |out.table| && out.table[i].value != TWO_64 - 1 && out.eqBlocks[i] == s.randomValues[i]| % TWO_128
  {
    hide Okvs.Valid, CuckooTable.ConservedAll, CuckooTable.WellPlaced, Succeeds, RunBlock, MatchCount;
    MatchCountIsSet(out.table, out.eqBlocks, s.randomValues, |out.table|);
  }

  // No accidental match, in terms of the outcome.
  lemma NoFalseMatchIff(s: Setup, vec: seq<Word>, sent: seq<Word>, out: Outcome)
    requires s.Valid() && PsiCorrect(s, vec, sent, out)
    ensures |out.table| == |out.eqBlocks| == |s.randomValues|
    ensures NoFalseMatch(s, vec, sent) <==>
            forall i :: 0 <= i < |out.table| && out.table[i].value != TWO_64 - 1 && out.table[i].value !in sent ==>
              out.eqBlocks[i] != s.randomValues[i]
  {
    hide Okvs.Valid, CuckooTable.ConservedAll, CuckooTable.WellPlaced, Succeeds, RunBlock, MatchCount, ReceiverMap, Value;
  }

  lemma StashedHitsIsSet(s: Setup, vec: seq<Word>, sent: seq<Word>)
    requires s.Valid()
    ensures var stash := CuckooTable.Mapped(s.hashing, vec, s.recursionLimiter, |vec|).stash;
            StashedHits(s, vec, sent) == |set i | 0 <= i < |stash| && stash[i].value != TWO_64 - 1 && stash[i].value in sent|
  {
    hide CountIf, CuckooTable.Mapped, Setup.Valid;
    CountsHits(ReceiverMap(s, vec).stash, sent);
  }

  lemma CountsHits(stash: seq<Entry>, sent: seq<Word>)
    ensures CountIf(stash, (e: Entry) => !e.IsEmpty() && e.value in sent)
            == |set i | 0 <= i < |stash| && stash[i].value != TWO_64 - 1 && stash[i].value in sent|
  {
    hide CountIf;
    CountIfIsSet(stash, (e: Entry) => !e.IsEmpty() && e.value in sent,
                 set i | 0 <= i < |stash| && stash[i].value != TWO_64 - 1 && stash[i].value in sent);
  }

  lemma OutcomeParts(s: Setup, vec: seq<Word>, sent: seq<Word>, out: Outcome)
    requires s.Valid() && PsiCorrect(s, vec, sent, out) && NoFalseMatch(s, vec, sent)
    ensures s.hashing.Valid() && CuckooTable.WellPlaced(s.hashing, vec, out.table, out.stash)
    ensures CuckooTable.ConservedAll(vec, out.table, out.stash, |vec|, EMPTY_ENTRY)
    ensures |out.table| == |out.eqBlocks| == |s.randomValues| == s.hashing.bins && out.stash == ReceiverMap(s, vec).stash
    ensures Value(out.answer) == MatchCount(out.table, out.eqBlocks, s.randomValues, s.hashing.bins) % TWO_128
    ensures forall i :: 0 <= i < |out.table| && !out.table[i].IsEmpty() ==>
              (out.eqBlocks[i] == s.randomValues[i] <==> out.table[i].value in sent)
  {
    hide CuckooTable.ConservedAll, Value, MatchCount, ReceiverMap, RunBlock;
  }

  /** For distinct receiver elements other than the dummy, that is the size of the intersection less the stashed part. */
  lemma IntersectionSize(s: Setup, vec: seq<Word>, sent: seq<Word>, out: Outcome)
    requires s.Valid() && PsiCorrect(s, vec, sent, out) && NoFalseMatch(s, vec, sent)
    requires DUMMY_ELEMENT !in vec && forall i, j :: 0 <= i < j < |vec| ==> vec[i] != vec[j]
    ensures Value(out.answer) == (|set x | x in vec && x in sent| - StashedHits(s, vec, sent)) % TWO_128
  {
    hide Value, PsiCorrect, NoFalseMatch, Setup.Valid, CountIf, StashedHits;
    PsiCardinality(s, vec, sent, out);
    DistinctHits(vec, sent);
  }

  lemma DistinctHits(vec: seq<Word>, sent: seq<Word>)
    requires DUMMY_ELEMENT !in vec && forall i, j :: 0 <= i < j < |vec| ==> vec[i] != vec[j]
    ensures CountIf(vec, x => x != DUMMY_ELEMENT && x in sent) == |set x | x in vec && x in sent|
  {
    hide CountIf;
    var q := (x: Word) => x in sent;
    CountIfAgree(vec, x => x != DUMMY_ELEMENT && x in sent, q);
    CountIfDistinct(vec, q);
    assert Selected(vec, q) == (set x | x in vec && x in sent);
  }
}
