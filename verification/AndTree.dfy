/**
 The stride-doubling AND tree over secret-shared flags: traverse_and_compute_ANDs.
 Both parties are run in lockstep; each exchange of masked operands is one joint step.
 */
module AndTree {
  import opened Arithmetic
  import opened PackedBits

  // How many batch entries, digits per entry and comparisons one buffer of flags holds.
  datatype Shape = Shape(batch: nat, digits: nat, cmps: nat) {
    predicate Valid() {
      digits >= 1 && cmps % 8 == 0
    }

    function Size(): nat {
      batch * digits * cmps
    }

    // Position of digit j of batch entry k of comparison m.
    function At(k: nat, j: nat, m: nat): nat {
      Flat(k, j, m, digits, cmps)
    }

    // Comparisons are packed eight to a byte.
    function RowBytes(): nat {
      cmps / 8
    }

    // Byte of the c-th pair of a round that holds comparisons 8q .. 8q+7 of batch entry k.
    function ByteAt(c: nat, k: nat, q: nat): nat {
      Flat(c, k, q, batch, RowBytes())
    }

    // Bytes of triples the constructor allocates: one triple per AND.
    function TripleBytes(): nat
      requires Valid()
    {
      (digits - 1) * batch * RowBytes()
    }

    // Rows still carrying a value when the stride is i.
    function Live(i: nat): nat
      requires i > 0
    {
      CeilDiv(digits, i)
    }

    function Pairs(i: nat): nat
      requires i > 0
    {
      Live(i) / 2
    }

    // First row of the c-th pair of the round with stride i.
    function First(i: nat, c: nat): nat {
      2 * i * c
    }

    // Which pair row j belongs to.
    function PairIndex(i: nat, j: nat): nat
      requires i > 0
    {
      Div(j, 2 * i)
    }

    // Bytes a round with stride i exchanges, and triple bytes it uses.
    function RoundBytes(i: nat): nat
      requires i > 0
    {
      Pairs(i) * batch * RowBytes()
    }

    // Row j absorbs row j + i in the round with stride i.
    predicate Paired(j: nat, i: nat)
      requires i > 0
    {
      j % (2 * i) == 0 && j + i < digits
    }

    lemma PairsExact(i: nat, c: nat)
      requires i > 0
      ensures c < Pairs(i) <==> First(i, c) + i < digits
    {
      CeilDivBounds(digits, i);
      var n := Live(i);
      assert (2 * c + 1) * i == 2 * i * c + i;
      if c < Pairs(i) {
        MulMonotone(2 * c + 1, n - 1, i);
        assert (n - 1) * i == n * i - i;
      } else {
        MulMonotone(n, 2 * c + 1, i);
      }
    }

    // Each round halves the live rows, rounding up.
    lemma LiveHalves(i: nat)
      requires i > 0
      ensures Live(2 * i) == Live(i) - Pairs(i)
    {
      CeilDivBounds(digits, i);
      var n := Live(i);
      var q := n - Pairs(i);
      assert q * (2 * i) == (2 * q) * i;
      assert n <= 2 * q <= n + 1;
      MulMonotone(n, 2 * q, i);
      MulMonotone(2 * q, n + 1, i);
      assert (n + 1) * i == n * i + i;
      CeilDivUnique(digits, 2 * i, q);
    }

    lemma AtBound(k: nat, j: nat, m: nat)
      requires k < batch && j < digits && m < cmps
      ensures At(k, j, m) < Size()
    {
      FlatBound(k, j, m, batch, digits, cmps);
    }

    lemma AtNext(k: nat, j: nat, m: nat, n: nat)
      ensures At(k, j, m + n) == At(k, j, m) + n
    {
    }

    lemma AtInjective(k: nat, j: nat, m: nat, k': nat, j': nat, m': nat)
      requires j < digits && m < cmps && j' < digits && m' < cmps
      requires At(k, j, m) == At(k', j', m')
      ensures k == k' && j == j' && m == m'
    {
      FlatInjective(k, j, m, k', j', m', digits, cmps);
    }

    lemma ByteAtInjective(c: nat, k: nat, q: nat, c': nat, k': nat, q': nat)
      requires k < batch && q < RowBytes() && k' < batch && q' < RowBytes()
      requires ByteAt(c, k, q) == ByteAt(c', k', q')
      ensures c == c' && k == k' && q == q'
    {
      FlatInjective(c, k, q, c', k', q', batch, RowBytes());
    }

    lemma RoundBound(i: nat, c: nat, k: nat, q: nat)
      requires i > 0 && c < Pairs(i) && k < batch && q < RowBytes()
      ensures ByteAt(c, k, q) < RoundBytes(i)
    {
      hide Pairs, RowBytes;
      ByteAtBound(c, k, q, Pairs(i));
    }

    // A round uses as many triple bits as it computes ANDs.
    lemma RoundBits(i: nat)
      requires Valid() && i > 0
      ensures Pairs(i) * batch * cmps == 8 * RoundBytes(i)
    {
      assert cmps == 8 * RowBytes();
    }

    // Triple bits used up by the rounds before stride i: the rounds' pairs telescope.
    function UsedBits(i: nat): int
      requires i > 0
    {
      (digits - Live(i)) * batch * cmps
    }

    lemma UsedStart()
      requires digits >= 1
      ensures Live(1) == digits && UsedBits(1) == 0
    {
    }

    lemma UsedNext(i: nat)
      requires Valid() && i > 0
      ensures UsedBits(2 * i) == UsedBits(i) + 8 * RoundBytes(i)
    {
      LiveHalves(i);
      RoundBits(i);
      var d, n := digits - Live(i), Pairs(i);
      assert (d + n) * batch * cmps == d * batch * cmps + n * batch * cmps;
    }

    // All of the triples and nothing more are used once one row is live.
    lemma UsedEnd(i: nat)
      requires Valid() && i >= digits
      ensures UsedBits(i) == 8 * TripleBytes()
    {
      CeilDivUnique(digits, i, 1);
      assert cmps == 8 * RowBytes();
    }

    lemma UsedFits(i: nat)
      requires Valid() && 0 < i < digits
      ensures 0 <= UsedBits(i) && UsedBits(i) % 8 == 0 && UsedBits(i) / 8 + RoundBytes(i) <= TripleBytes()
    {
      hide Live, Pairs, UsedBits, RowBytes;
      var d, n := digits - Live(i), Pairs(i);
      LiveRange(i);
      UsedBytes(i);
      ScaledSum(d, n, digits - 1, batch, RowBytes());
    }

    lemma LiveRange(i: nat)
      requires digits > 0 && i > 0
      ensures 1 <= Live(i) - Pairs(i) && Live(i) <= digits
    {
      hide CeilDiv, Pairs;
      LiveHalves(i);
      CeilDivRange(digits, i);
      CeilDivRange(digits, 2 * i);
    }

    lemma UsedBytes(i: nat)
      requires Valid() && i > 0 && Live(i) <= digits
      ensures UsedBits(i) == 8 * ((digits - Live(i)) * batch * RowBytes())
    {
      hide CeilDiv, Live;
      TimesEight(digits - Live(i), batch, cmps, RowBytes());
    }

    lemma ByteAtBound(c: nat, k: nat, q: nat, count: nat)
      requires c < count && k < batch && q < RowBytes()
      ensures ByteAt(c, k, q) < count * batch * RowBytes()
    {
      FlatBound(c, k, q, count, batch, RowBytes());
    }

    // The byte index the loops compute from bit counts.
    lemma ByteIndex(c: nat, k: nat, m: nat, tripleCount: nat)
      requires Valid() && m % 8 == 0 && tripleCount % 8 == 0
      ensures (c * batch * cmps + k * cmps + m) / 8 == ByteAt(c, k, m / 8)
      ensures (tripleCount + c * batch * cmps + k * cmps + m) / 8 == tripleCount / 8 + ByteAt(c, k, m / 8)
    {
      var w, q := RowBytes(), m / 8;
      assert cmps == 8 * w && m == 8 * q;
      assert c * batch * cmps == 8 * (c * batch * w);
      assert k * cmps == 8 * (k * w);
      assert ByteAt(c, k, q) == c * batch * w + k * w + q;
    }

    lemma ByteAtStart()
      ensures ByteAt(0, 0, 0) == 0
    {
    }

    // The next eight comparisons, and their byte.
    lemma NextOctet(c: nat, k: nat, m: nat)
      requires Valid() && m % 8 == 0 && m < cmps
      ensures (m + 8) % 8 == 0 && m + 8 <= cmps && ByteAt(c, k, (m + 8) / 8) == ByteAt(c, k, m / 8) + 1
    {
    }

    lemma ByteAtNextRow(c: nat, k: nat)
      ensures ByteAt(c, k, cmps / 8) == ByteAt(c, k + 1, 0)
    {
    }

    lemma ByteAtNextPair(c: nat)
      ensures ByteAt(c, batch, 0) == ByteAt(c + 1, 0, 0)
    {
    }

    lemma FirstNext(i: nat, c: nat)
      ensures First(i, 0) == 0 && First(i, c + 1) == First(i, c) + 2 * i
    {
    }

    lemma ByteAtEnd(i: nat)
      requires i > 0
      ensures ByteAt(Pairs(i), 0, 0) == RoundBytes(i)
    {
    }

    // The flag position the loops compute.
    lemma FlagIndex(k: nat, j: nat, m: nat)
      ensures j * cmps + k * digits * cmps + m == At(k, j, m)
    {
      assert (k * digits + j) * cmps == k * digits * cmps + j * cmps;
    }
  }

  // The byte packed from the eight flags at offset off.
  function PackAt(flags: seq<Byte>, off: nat): Byte {
    if off + 8 <= |flags| then Pack8(flags[off..off + 8]) else ZERO
  }

  function ByteOf(s: seq<Byte>, t: nat): Byte {
    if t < |s| then s[t] else ZERO
  }

  // out holds shares XOR packed flags for every pair of the round, d rows away from the pair's first row,
  // for all bytes below t.
  ghost predicate Masked(s: Shape, flags: seq<Byte>, shares: seq<Byte>, base: nat, i: nat, d: nat, t: nat, out: seq<Byte>)
    requires i > 0
  {
    forall c, k, q :: 0 <= c < s.Pairs(i) && 0 <= k < s.batch && 0 <= q < s.RowBytes() && s.ByteAt(c, k, q) < t ==>
      ByteOf(out, s.ByteAt(c, k, q))
      == Xor(ByteOf(shares, base + s.ByteAt(c, k, q)), PackAt(flags, s.At(k, s.First(i, c) + d, 8 * q)))
  }

  lemma MaskedStep(s: Shape, flags: seq<Byte>, shares: seq<Byte>, base: nat, i: nat, d: nat,
                   c: nat, k: nat, q: nat, out: seq<Byte>, out': seq<Byte>)
    requires i > 0 && k < s.batch && q < s.RowBytes()
    requires Masked(s, flags, shares, base, i, d, s.ByteAt(c, k, q), out)
    requires s.ByteAt(c, k, q) < |out|
    requires out' == out[s.ByteAt(c, k, q) :=
                         Xor(ByteOf(shares, base + s.ByteAt(c, k, q)), PackAt(flags, s.At(k, s.First(i, c) + d, 8 * q)))]
    ensures Masked(s, flags, shares, base, i, d, s.ByteAt(c, k, q) + 1, out')
  {
    hide Shape.ByteAt, Shape.At, Shape.First, Shape.Pairs, PackAt;
    var t := s.ByteAt(c, k, q);
    forall c', k', q' | 0 <= c' < s.Pairs(i) && 0 <= k' < s.batch && 0 <= q' < s.RowBytes() && s.ByteAt(c', k', q') < t + 1
      ensures ByteOf(out', s.ByteAt(c', k', q'))
              == Xor(ByteOf(shares, base + s.ByteAt(c', k', q')), PackAt(flags, s.At(k', s.First(i, c') + d, 8 * q')))
    {
      if s.ByteAt(c', k', q') == t {
        s.ByteAtInjective(c', k', q', c, k, q);
      }
    }
  }

  // The byte of product shares a party computes from the opened bytes and its triples.
  function ProductByte(alice: bool, e: seq<Byte>, f: seq<Byte>, a: seq<Byte>, b: seq<Byte>, c: seq<Byte>,
                       base: nat, t: nat): Byte
  {
    BeaverShare(alice, ByteOf(e, t), ByteOf(f, t), ByteOf(a, base + t), ByteOf(b, base + t), ByteOf(c, base + t))
  }

  // Flag (k, j, m) after the products below byte t of the round have been written over flags.
  function FlagAfter(s: Shape, flags: seq<Byte>, z: nat -> Byte, i: nat, t: nat, k: nat, j: nat, m: nat): Byte
    requires i > 0
  {
    var u := s.ByteAt(s.PairIndex(i, j), k, m / 8);
    if s.Paired(j, i) && u < t then Flag(z(u)[m % 8]) else ByteOf(flags, s.At(k, j, m))
  }

  ghost predicate Written(s: Shape, flags: seq<Byte>, flags': seq<Byte>, z: nat -> Byte, i: nat, t: nat)
    requires i > 0
  {
    && |flags'| == |flags|
    && forall k, j, m :: 0 <= k < s.batch && 0 <= j < s.digits && 0 <= m < s.cmps ==>
      ByteOf(flags', s.At(k, j, m)) == FlagAfter(s, flags, z, i, t, k, j, m)
  }

  lemma WrittenStart(s: Shape, flags: seq<Byte>, z: nat -> Byte, i: nat)
    requires i > 0
    ensures Written(s, flags, flags, z, i, 0)
  {
  }

  lemma DoubledIndex(i: nat, c: nat, j: nat)
    requires i > 0 && j % (2 * i) == 0
    ensures j == 2 * i * (j / (2 * i))
    ensures (2 * i * c) / (2 * i) == c && (2 * i * c) % (2 * i) == 0
  {
    DivModUnique(2 * i * c, c, 0, 2 * i);
  }

  // Which flags belong to byte (c, k, q): the eight at the pair's first row.
  lemma ByteCovers(s: Shape, i: nat, c: nat, k: nat, q: nat, k': nat, j: nat, m: nat)
    requires s.Valid() && i > 0 && k < s.batch && q < s.RowBytes() && s.First(i, c) + i < s.digits
    requires k' < s.batch && j < s.digits && m < s.cmps
    ensures s.At(k, s.First(i, c), 8 * q) <= s.At(k', j, m) < s.At(k, s.First(i, c), 8 * q) + 8
            <==> s.Paired(j, i) && s.ByteAt(s.PairIndex(i, j), k', m / 8) == s.ByteAt(c, k, q)
    ensures s.Paired(j, i) && s.ByteAt(s.PairIndex(i, j), k', m / 8) == s.ByteAt(c, k, q)
            ==> s.At(k', j, m) == s.At(k, s.First(i, c), 8 * q) + m % 8
  {
    var off, p := s.At(k, s.First(i, c), 8 * q), s.At(k', j, m);
    if off <= p < off + 8 {
      assert s.At(k, s.First(i, c), 8 * q + (p - off)) == p;
      s.AtInjective(k, s.First(i, c), 8 * q + (p - off), k', j, m);
      DoubledIndex(i, c, 0);
    }
    if s.Paired(j, i) && s.ByteAt(s.PairIndex(i, j), k', m / 8) == s.ByteAt(c, k, q) {
      s.ByteAtInjective(s.PairIndex(i, j), k', m / 8, c, k, q);
      DoubledIndex(i, c, j);
      assert s.At(k, s.First(i, c), 8 * q + m % 8) == off + m % 8;
    }
  }

  lemma WrittenStep(s: Shape, flags: seq<Byte>, cur: seq<Byte>, next: seq<Byte>, z: nat -> Byte,
                    i: nat, c: nat, k: nat, q: nat, off: nat)
    requires s.Valid() && i > 0 && k < s.batch && q < s.RowBytes() && s.First(i, c) + i < s.digits
    requires Written(s, flags, cur, z, i, s.ByteAt(c, k, q))
    requires |cur| == s.Size() && off == s.At(k, s.First(i, c), 8 * q) && off + 8 <= |cur|
    requires |next| == |cur|
    requires forall p :: 0 <= p < |cur| ==>
               next[p] == if off <= p < off + 8 then Flag(z(s.ByteAt(c, k, q))[p - off]) else cur[p]
    ensures Written(s, flags, next, z, i, s.ByteAt(c, k, q) + 1)
  {
    forall k', j, m | 0 <= k' < s.batch && 0 <= j < s.digits && 0 <= m < s.cmps
      ensures ByteOf(next, s.At(k', j, m)) == FlagAfter(s, flags, z, i, s.ByteAt(c, k, q) + 1, k', j, m)
    {
      s.AtBound(k', j, m);
      ByteCovers(s, i, c, k, q, k', j, m);
    }
  }

  // Both masked operands of the round, for all bytes below t.
  ghost predicate OperandsMasked(p: Party, flags: seq<Byte>, base: nat, i: nat, t: nat, ei: seq<Byte>, fi: seq<Byte>)
    requires i > 0
  {
    Masked(p.shape, flags, p.ai, base, i, 0, t, ei) && Masked(p.shape, flags, p.bi, base, i, i, t, fi)
  }

  /** One party's side of the tree: its flags, its triples, and the two local phases of a round. */
  class Party {
    const shape: Shape
    const alice: bool
    const leafEq: array<Byte>
    const ai: seq<Byte>
    const bi: seq<Byte>
    const ci: seq<Byte>

    constructor (shape: Shape, alice: bool, leafEq: array<Byte>, ai: seq<Byte>, bi: seq<Byte>, ci: seq<Byte>)
      requires shape.Valid() && leafEq.Length == shape.Size()
      requires |ai| == |bi| == |ci| == shape.TripleBytes()
      ensures Valid()
      ensures this.shape == shape && this.alice == alice && this.leafEq == leafEq
      ensures this.ai == ai && this.bi == bi && this.ci == ci
    {
      this.shape, this.alice, this.leafEq := shape, alice, leafEq;
      this.ai, this.bi, this.ci := ai, bi, ci;
    }

    ghost predicate Valid() {
      shape.Valid() && leafEq.Length == shape.Size() && |ai| == |bi| == |ci| == shape.TripleBytes()
    }

    // First phase of the round with stride i: mask both operands of every pair with the next triples.
    method MaskOperands(i: nat, tripleCount: nat, ei: array<Byte>, fi: array<Byte>) returns (counter: nat)
      requires Valid() && 0 < i < shape.digits && tripleCount % 8 == 0
      requires ei != fi && ei != leafEq && fi != leafEq && ei.Length == fi.Length == shape.TripleBytes()
      requires tripleCount / 8 + shape.RoundBytes(i) <= shape.TripleBytes()
      modifies ei, fi
      ensures counter == shape.Pairs(i)
      ensures OperandsMasked(this, leafEq[..], tripleCount / 8, i, shape.RoundBytes(i), ei[..], fi[..])
    {
      shape.ByteAtStart();
      ghost var base := tripleCount / 8;
      assert OperandsMasked(this, leafEq[..], base, i, 0, ei[..], fi[..]);
      shape.ByteAtEnd(i);
      shape.FirstNext(i, 0);
      hide *;
      counter := 0;
      var j := 0;
      while j < shape.digits && j + i < shape.digits
        invariant j == shape.First(i, counter) && counter <= shape.Pairs(i)
        invariant OperandsMasked(this, leafEq[..], base, i, shape.ByteAt(counter, 0, 0), ei[..], fi[..])
        decreases shape.digits - j
      {
        shape.PairsExact(i, counter);
        MaskPair(i, tripleCount, counter, j, ei, fi);
        shape.FirstNext(i, counter);
        counter := counter + 1;
        j := j + 2 * i;
      }
      shape.PairsExact(i, counter);
    }

    // All batch entries of the pair of rows j and j + i.
    method MaskPair(i: nat, tripleCount: nat, counter: nat, j: nat, ei: array<Byte>, fi: array<Byte>)
      requires Valid() && i > 0 && tripleCount % 8 == 0
      requires ei != fi && ei != leafEq && fi != leafEq && ei.Length == fi.Length == shape.TripleBytes()
      requires tripleCount / 8 + shape.RoundBytes(i) <= shape.TripleBytes()
      requires counter < shape.Pairs(i) && j == shape.First(i, counter) && j + i < shape.digits
      requires OperandsMasked(this, leafEq[..], tripleCount / 8, i, shape.ByteAt(counter, 0, 0), ei[..], fi[..])
      modifies ei, fi
      ensures OperandsMasked(this, leafEq[..], tripleCount / 8, i, shape.ByteAt(counter + 1, 0, 0), ei[..], fi[..])
    {
      hide *;
      var k := 0;
      while k < shape.batch
        invariant k <= shape.batch
        invariant OperandsMasked(this, leafEq[..], tripleCount / 8, i, shape.ByteAt(counter, k, 0), ei[..], fi[..])
      {
        MaskRow(i, tripleCount, counter, j, k, ei, fi);
        k := k + 1;
      }
      shape.ByteAtNextPair(counter);
    }

    // The comparisons of batch entry k at row j, eight at a time.
    method MaskRow(i: nat, tripleCount: nat, counter: nat, j: nat, k: nat, ei: array<Byte>, fi: array<Byte>)
      requires Valid() && i > 0 && tripleCount % 8 == 0
      requires ei != fi && ei != leafEq && fi != leafEq && ei.Length == fi.Length == shape.TripleBytes()
      requires tripleCount / 8 + shape.RoundBytes(i) <= shape.TripleBytes()
      requires counter < shape.Pairs(i) && j == shape.First(i, counter) && j + i < shape.digits && k < shape.batch
      requires OperandsMasked(this, leafEq[..], tripleCount / 8, i, shape.ByteAt(counter, k, 0), ei[..], fi[..])
      modifies ei, fi
      ensures OperandsMasked(this, leafEq[..], tripleCount / 8, i, shape.ByteAt(counter, k + 1, 0), ei[..], fi[..])
    {
      assert shape.Valid();
      hide *;
      var nc := shape.cmps;
      var m := 0;
      while m < nc
        invariant m <= nc && m % 8 == 0
        invariant OperandsMasked(this, leafEq[..], tripleCount / 8, i, shape.ByteAt(counter, k, m / 8), ei[..], fi[..])
      {
        MaskByte(i, tripleCount, counter, j, k, m, ei, fi);
        shape.NextOctet(counter, k, m);
        m := m + 8;
      }
      shape.ByteAtNextRow(counter, k);
    }

    // The byte of the round, and of the triples, that comparison m of batch entry k of pair counter falls in.
    method ByteIndices(i: nat, tripleCount: nat, counter: nat, k: nat, m: nat) returns (t: nat, u: nat)
      requires Valid() && i > 0 && m % 8 == 0 && tripleCount % 8 == 0
      requires counter < shape.Pairs(i) && k < shape.batch && m < shape.cmps
      requires tripleCount / 8 + shape.RoundBytes(i) <= shape.TripleBytes()
      ensures t == shape.ByteAt(counter, k, m / 8) && u == tripleCount / 8 + t < shape.TripleBytes()
    {
      var bs, nc := shape.batch, shape.cmps;
      shape.ByteIndex(counter, k, m, tripleCount);
      shape.ByteAtBound(counter, k, m / 8, shape.Pairs(i));
      assert tripleCount / 8 + shape.ByteAt(counter, k, m / 8) < shape.TripleBytes();
      hide *;
      t := (counter * bs * nc + k * nc + m) / 8;
      u := (tripleCount + counter * bs * nc + k * nc + m) / 8;
    }

    // Where the flags of comparisons m .. m + 7 at row j start.
    method FlagOffset(k: nat, j: nat, m: nat) returns (x: nat)
      requires Valid() && m % 8 == 0 && k < shape.batch && j < shape.digits && m < shape.cmps
      ensures x == shape.At(k, j, m) && x + 8 <= leafEq.Length
    {
      var nd, nc := shape.digits, shape.cmps;
      shape.FlagIndex(k, j, m);
      shape.AtBound(k, j, m + 7);
      shape.AtNext(k, j, m, 7);
      assert leafEq.Length == shape.Size();
      hide *;
      x := j * nc + k * nd * nc + m;
    }

    // Body of the innermost loop of the first phase.
    method MaskByte(i: nat, tripleCount: nat, counter: nat, j: nat, k: nat, m: nat, ei: array<Byte>, fi: array<Byte>)
      requires Valid() && i > 0 && tripleCount % 8 == 0
      requires ei != fi && ei != leafEq && fi != leafEq && ei.Length == fi.Length == shape.TripleBytes()
      requires tripleCount / 8 + shape.RoundBytes(i) <= shape.TripleBytes()
      requires counter < shape.Pairs(i) && j == shape.First(i, counter) && j + i < shape.digits
      requires k < shape.batch && m < shape.cmps && m % 8 == 0
      requires OperandsMasked(this, leafEq[..], tripleCount / 8, i, shape.ByteAt(counter, k, m / 8), ei[..], fi[..])
      modifies ei, fi
      ensures OperandsMasked(this, leafEq[..], tripleCount / 8, i, shape.ByteAt(counter, k, m / 8) + 1, ei[..], fi[..])
    {
      assert leafEq.Length == shape.Size() && |ai| == |bi| == shape.TripleBytes();
      hide *;
      ghost var ei0, fi0 := ei[..], fi[..];
      var t, u := ByteIndices(i, tripleCount, counter, k, m);
      var x := FlagOffset(k, j, m);
      var y := FlagOffset(k, j + i, m);
      MaskAt(t, u, x, y, ei, fi);
      MaskedStep(shape, leafEq[..], ai, tripleCount / 8, i, 0, counter, k, m / 8, ei0, ei[..]);
      MaskedStep(shape, leafEq[..], bi, tripleCount / 8, i, i, counter, k, m / 8, fi0, fi[..]);
    }

    // Mask the flags at x and at y with byte u of the triples into byte t.
    method MaskAt(t: nat, u: nat, x: nat, y: nat, ei: array<Byte>, fi: array<Byte>)
      requires ei != fi && ei != leafEq && fi != leafEq
      requires t < ei.Length == fi.Length && u < |ai| == |bi| && x + 8 <= leafEq.Length && y + 8 <= leafEq.Length
      modifies ei, fi
      ensures ei[..] == old(ei[..])[t := Xor(ByteOf(ai, u), PackAt(leafEq[..], x))]
      ensures fi[..] == old(fi[..])[t := Xor(ByteOf(bi, u), PackAt(leafEq[..], y))]
    {
      ei[t] := ai[u];
      fi[t] := bi[u];
      ei[t] := Xor(ei[t], Pack8(leafEq[x..x + 8]));
      fi[t] := Xor(fi[t], Pack8(leafEq[y..y + 8]));
      assert leafEq[..][x..x + 8] == leafEq[x..x + 8];
      assert leafEq[..][y..y + 8] == leafEq[y..y + 8];
    }

    // Second phase: from the opened bytes, overwrite each pair's first row with shares of the product.
    method CombineShares(i: nat, oldTripleCount: nat, e: array<Byte>, f: array<Byte>)
      requires Valid() && 0 < i < shape.digits && oldTripleCount % 8 == 0
      requires e != leafEq && f != leafEq && e.Length == f.Length == shape.TripleBytes()
      requires oldTripleCount / 8 + shape.RoundBytes(i) <= shape.TripleBytes()
      modifies leafEq
      ensures Written(shape, old(leafEq[..]), leafEq[..], Products(e[..], f[..], oldTripleCount / 8), i,
                      shape.RoundBytes(i))
    {
      shape.ByteAtStart();
      shape.ByteAtEnd(i);
      shape.FirstNext(i, 0);
      hide *;
      var counter, j := 0, 0;
      ghost var flags := leafEq[..];
      ghost var z := Products(e[..], f[..], oldTripleCount / 8);
      WrittenStart(shape, flags, z, i);
      while j < shape.digits && j + i < shape.digits
        invariant j == shape.First(i, counter) && counter <= shape.Pairs(i)
        invariant Written(shape, flags, leafEq[..], z, i, shape.ByteAt(counter, 0, 0))
        decreases shape.digits - j
      {
        shape.PairsExact(i, counter);
        CombinePair(i, oldTripleCount, counter, j, e, f, flags);
        shape.FirstNext(i, counter);
        counter := counter + 1;
        j := j + 2 * i;
      }
      shape.PairsExact(i, counter);
    }

    // All batch entries of the pair of rows j and j + i.
    method CombinePair(i: nat, oldTripleCount: nat, counter: nat, j: nat,
                       e: array<Byte>, f: array<Byte>, ghost flags: seq<Byte>)
      requires Valid() && i > 0 && oldTripleCount % 8 == 0
      requires e != leafEq && f != leafEq && e.Length == f.Length == shape.TripleBytes()
      requires oldTripleCount / 8 + shape.RoundBytes(i) <= shape.TripleBytes()
      requires counter < shape.Pairs(i) && j == shape.First(i, counter) && j + i < shape.digits
      requires Written(shape, flags, leafEq[..], Products(e[..], f[..], oldTripleCount / 8), i,
                       shape.ByteAt(counter, 0, 0))
      modifies leafEq
      ensures Written(shape, flags, leafEq[..], Products(e[..], f[..], oldTripleCount / 8), i,
                      shape.ByteAt(counter + 1, 0, 0))
    {
      hide *;
      var k := 0;
      while k < shape.batch
        invariant k <= shape.batch
        invariant Written(shape, flags, leafEq[..], Products(e[..], f[..], oldTripleCount / 8), i,
                          shape.ByteAt(counter, k, 0))
      {
        CombineRow(i, oldTripleCount, counter, j, k, e, f, flags);
        k := k + 1;
      }
      shape.ByteAtNextPair(counter);
    }

    // The comparisons of batch entry k at row j, eight at a time.
    method CombineRow(i: nat, oldTripleCount: nat, counter: nat, j: nat, k: nat,
                      e: array<Byte>, f: array<Byte>, ghost flags: seq<Byte>)
      requires Valid() && i > 0 && oldTripleCount % 8 == 0
      requires e != leafEq && f != leafEq && e.Length == f.Length == shape.TripleBytes()
      requires oldTripleCount / 8 + shape.RoundBytes(i) <= shape.TripleBytes()
      requires counter < shape.Pairs(i) && j == shape.First(i, counter) && j + i < shape.digits && k < shape.batch
      requires Written(shape, flags, leafEq[..], Products(e[..], f[..], oldTripleCount / 8), i,
                       shape.ByteAt(counter, k, 0))
      modifies leafEq
      ensures Written(shape, flags, leafEq[..], Products(e[..], f[..], oldTripleCount / 8), i,
                      shape.ByteAt(counter, k + 1, 0))
    {
      assert shape.Valid();
      hide *;
      var nc := shape.cmps;
      var m := 0;
      while m < nc
        invariant m <= nc && m % 8 == 0
        invariant Written(shape, flags, leafEq[..], Products(e[..], f[..], oldTripleCount / 8), i,
                          shape.ByteAt(counter, k, m / 8))
      {
        CombineByte(i, oldTripleCount, counter, j, k, m, e, f, flags);
        shape.NextOctet(counter, k, m);
        m := m + 8;
      }
      shape.ByteAtNextRow(counter, k);
    }

    // The product bytes of the round whose triples start at byte base.
    ghost function Products(e: seq<Byte>, f: seq<Byte>, base: nat): nat -> Byte {
      (t: nat) => ProductByte(alice, e, f, ai, bi, ci, base, t)
    }

    // Body of the innermost loop of the second phase.
    method CombineByte(i: nat, oldTripleCount: nat, counter: nat, j: nat, k: nat, m: nat,
                       e: array<Byte>, f: array<Byte>, ghost flags: seq<Byte>)
      requires Valid() && i > 0 && oldTripleCount % 8 == 0
      requires e != leafEq && f != leafEq && e.Length == f.Length == shape.TripleBytes()
      requires oldTripleCount / 8 + shape.RoundBytes(i) <= shape.TripleBytes()
      requires counter < shape.Pairs(i) && j == shape.First(i, counter) && j + i < shape.digits
      requires k < shape.batch && m < shape.cmps && m % 8 == 0
      requires Written(shape, flags, leafEq[..], Products(e[..], f[..], oldTripleCount / 8), i,
                       shape.ByteAt(counter, k, m / 8))
      modifies leafEq
      ensures Written(shape, flags, leafEq[..], Products(e[..], f[..], oldTripleCount / 8), i,
                      shape.ByteAt(counter, k, m / 8) + 1)
    {
      assert leafEq.Length == shape.Size() && |ai| == |bi| == |ci| == shape.TripleBytes() && shape.Valid();
      hide *;
      ghost var cur := leafEq[..];
      var t, u := ByteIndices(i, oldTripleCount, counter, k, m);
      var x := FlagOffset(k, j, m);
      CombineAt(t, u, x, oldTripleCount / 8, e, f);
      WrittenStep(shape, flags, cur, leafEq[..], Products(e[..], f[..], oldTripleCount / 8),
                  i, counter, k, m / 8, shape.At(k, j, m));
    }

    // Unpack the product of byte t, computed with byte u of the triples, over the flags at x.
    method CombineAt(t: nat, u: nat, x: nat, ghost base: nat, e: array<Byte>, f: array<Byte>)
      requires e != leafEq && f != leafEq
      requires t < e.Length == f.Length && u < |ai| == |bi| == |ci| && x + 8 <= leafEq.Length && u == base + t
      modifies leafEq
      ensures forall p :: 0 <= p < leafEq.Length ==>
                leafEq[p] == if x <= p < x + 8 then Flag(Products(e[..], f[..], base)(t)[p - x]) else old(leafEq[p])
    {
      var tempZ := if alice then And(e[t], f[t]) else ZERO;
      tempZ := Xor(tempZ, And(f[t], ai[u]));
      tempZ := Xor(tempZ, And(e[t], bi[u]));
      tempZ := Xor(tempZ, ci[u]);
      assert tempZ == Products(e[..], f[..], base)(t);
      UnpackTo(leafEq, x, tempZ);
    }
  }

  // uint8_to_bool of eight entries.
  method UnpackTo(flags: array<Byte>, off: nat, z: Byte)
    requires off + 8 <= flags.Length
    modifies flags
    ensures forall p :: 0 <= p < flags.Length ==>
              flags[p] == if off <= p < off + 8 then Flag(z[p - off]) else old(flags[p])
  {
    for n := 0 to 8
      invariant forall p :: 0 <= p < flags.Length ==>
                  flags[p] == if off <= p < off + n then Flag(z[p - off]) else old(flags[p])
    {
      flags[off + n] := Flag(z[n]);
    }
  }

  // send_data / recv_data of n masked bytes, then the peer's bytes are XORed with one's own.
  method Exchange(own: array<Byte>, peer: array<Byte>, n: nat, out: array<Byte>)
    requires n <= own.Length && n <= peer.Length && n <= out.Length && out != own && out != peer
    modifies out
    ensures forall t :: 0 <= t < n ==> ByteOf(out[..], t) == Xor(ByteOf(own[..], t), ByteOf(peer[..], t))
  {
    forall t | 0 <= t < n {
      out[t] := peer[t];
    }
    for t := 0 to n
      invariant forall u :: 0 <= u < n ==> out[u] == if u < t then Xor(own[u], peer[u]) else peer[u]
    {
      out[t] := Xor(out[t], own[t]);
      XorCommutes(own[t], peer[t]);
    }
  }

  // The secret value at a position: the XOR of the two parties' flags.
  predicate Secret(a: seq<Byte>, b: seq<Byte>, p: nat) {
    ByteOf(a, p)[0] != ByteOf(b, p)[0]
  }

  lemma SecretMeans(a: seq<Byte>, b: seq<Byte>, p: nat)
    ensures Secret(a, b, p) <==> ByteOf(a, p)[0] != ByteOf(b, p)[0]
  {
  }

  // The triple generator's contract.
  ghost predicate TriplesValid(p: Party, q: Party) {
    forall t: nat :: ValidTriple(ByteOf(p.ai, t), ByteOf(q.ai, t), ByteOf(p.bi, t), ByteOf(q.bi, t),
                                 ByteOf(p.ci, t), ByteOf(q.ci, t))
  }

  // What a round with stride i does to one secret value: a paired row absorbs the row i below it.
  ghost predicate RoundDoneAt(s: Shape, i: nat, a: seq<Byte>, b: seq<Byte>, a': seq<Byte>, b': seq<Byte>,
                              k: nat, j: nat, m: nat)
    requires i > 0
  {
    Secret(a', b', s.At(k, j, m)) ==
      (Secret(a, b, s.At(k, j, m)) && (s.Paired(j, i) ==> Secret(a, b, s.At(k, j + i, m))))
  }

  ghost predicate RoundDone(s: Shape, i: nat, a: seq<Byte>, b: seq<Byte>, a': seq<Byte>, b': seq<Byte>)
    requires i > 0
  {
    forall k, j, m :: 0 <= k < s.batch && 0 <= j < s.digits && 0 <= m < s.cmps ==> RoundDoneAt(s, i, a, b, a', b', k, j, m)
  }

  // Byte t of the masked bytes both parties end up with.
  ghost predicate OpenedAt(e: seq<Byte>, mine: seq<Byte>, theirs: seq<Byte>, n: nat) {
    forall t :: 0 <= t < n ==> ByteOf(e, t) == Xor(ByteOf(mine, t), ByteOf(theirs, t))
  }

  // The bytes of one round: what each party masked (mine, theirs) and what each opened.
  datatype Transcript = Transcript(i: nat, base: nat, eiA: seq<Byte>, fiA: seq<Byte>, eiB: seq<Byte>, fiB: seq<Byte>,
                                   eA: seq<Byte>, fA: seq<Byte>, eB: seq<Byte>, fB: seq<Byte>)

  // The parties hold flags a and b, use the triples from byte base on, and exchanged masked operands honestly.
  ghost predicate RoundRun(p: Party, q: Party, a: seq<Byte>, b: seq<Byte>, r: Transcript) {
    && p.shape.Valid() && p.shape == q.shape && p.alice && !q.alice && TriplesValid(p, q) && r.i > 0
    && |a| == |b| == p.shape.Size()
    && OperandsMasked(p, a, r.base, r.i, p.shape.RoundBytes(r.i), r.eiA, r.fiA)
    && OperandsMasked(q, b, r.base, r.i, p.shape.RoundBytes(r.i), r.eiB, r.fiB)
    && OpenedAt(r.eA, r.eiA, r.eiB, p.shape.RoundBytes(r.i)) && OpenedAt(r.fA, r.fiA, r.fiB, p.shape.RoundBytes(r.i))
    && OpenedAt(r.eB, r.eiB, r.eiA, p.shape.RoundBytes(r.i)) && OpenedAt(r.fB, r.fiB, r.fiA, p.shape.RoundBytes(r.i))
  }

  // What party p masked for byte (c, k, n).
  lemma MaskedAt(p: Party, flags: seq<Byte>, base: nat, i: nat, ei: seq<Byte>, fi: seq<Byte>, c: nat, k: nat, n: nat)
    requires i > 0 && c < p.shape.Pairs(i) && k < p.shape.batch && n < p.shape.RowBytes()
    requires OperandsMasked(p, flags, base, i, p.shape.RoundBytes(i), ei, fi)
    ensures var t := p.shape.ByteAt(c, k, n);
            && t < p.shape.RoundBytes(i)
            && ByteOf(ei, t) == Xor(ByteOf(p.ai, base + t), PackAt(flags, p.shape.At(k, p.shape.First(i, c) + 0, 8 * n)))
            && ByteOf(fi, t) == Xor(ByteOf(p.bi, base + t), PackAt(flags, p.shape.At(k, p.shape.First(i, c) + i, 8 * n)))
  {
    hide Shape.ByteAt, Shape.At, Shape.First, Shape.RoundBytes, Shape.Pairs, Shape.RowBytes, PackAt, ByteOf;
    p.shape.RoundBound(i, c, k, n);
  }

  // Byte t of both parties' product shares reconstructs to the AND of the two rows.
  lemma ProductReconstructs(p: Party, q: Party, a: seq<Byte>, b: seq<Byte>, r: Transcript, c: nat, k: nat, n: nat)
    requires RoundRun(p, q, a, b, r) && c < p.shape.Pairs(r.i) && k < p.shape.batch && n < p.shape.RowBytes()
    ensures var t, x, y := p.shape.ByteAt(c, k, n), p.shape.At(k, p.shape.First(r.i, c) + 0, 8 * n),
                           p.shape.At(k, p.shape.First(r.i, c) + r.i, 8 * n);
            && t < p.shape.RoundBytes(r.i)
            && Xor(ProductByte(true, r.eA, r.fA, p.ai, p.bi, p.ci, r.base, t),
                   ProductByte(false, r.eB, r.fB, q.ai, q.bi, q.ci, r.base, t))
               == And(Xor(PackAt(a, x), PackAt(b, x)), Xor(PackAt(a, y), PackAt(b, y)))
  {
    hide Shape.ByteAt, Shape.At, Shape.First, Shape.RoundBytes, Shape.Pairs, Shape.RowBytes, PackAt, ByteOf,
         OperandsMasked, BeaverShare, ValidTriple;
    MaskedAt(p, a, r.base, r.i, r.eiA, r.fiA, c, k, n);
    MaskedAt(q, b, r.base, r.i, r.eiB, r.fiB, c, k, n);
    var t := p.shape.ByteAt(c, k, n);
    var x, y := p.shape.At(k, p.shape.First(r.i, c) + 0, 8 * n), p.shape.At(k, p.shape.First(r.i, c) + r.i, 8 * n);
    var u := r.base + t;
    assert ByteOf(r.eA, t) == Xor(ByteOf(r.eiA, t), ByteOf(r.eiB, t)) && ByteOf(r.eB, t) == Xor(ByteOf(r.eiB, t), ByteOf(r.eiA, t));
    assert ByteOf(r.fA, t) == Xor(ByteOf(r.fiA, t), ByteOf(r.fiB, t)) && ByteOf(r.fB, t) == Xor(ByteOf(r.fiB, t), ByteOf(r.fiA, t));
    assert ValidTriple(ByteOf(p.ai, u), ByteOf(q.ai, u), ByteOf(p.bi, u), ByteOf(q.bi, u), ByteOf(p.ci, u), ByteOf(q.ci, u));
    OpenedProduct(PackAt(a, x), PackAt(b, x), PackAt(a, y), PackAt(b, y), ByteOf(p.ai, u), ByteOf(q.ai, u),
                  ByteOf(p.bi, u), ByteOf(q.bi, u), ByteOf(p.ci, u), ByteOf(q.ci, u),
                  ByteOf(r.eA, t), ByteOf(r.fA, t), ByteOf(r.eB, t), ByteOf(r.fB, t));
  }

  lemma PackedFlag(s: Shape, flags: seq<Byte>, k: nat, j: nat, m: nat)
    requires s.Valid() && |flags| == s.Size() && k < s.batch && j < s.digits && m < s.cmps
    ensures PackAt(flags, s.At(k, j, 8 * (m / 8)))[m % 8] == ByteOf(flags, s.At(k, j, m))[0]
  {
    var m0 := 8 * (m / 8);
    s.AtBound(k, j, m0 + 7);
    s.AtNext(k, j, m0, 7);
    s.AtNext(k, j, m0, m % 8);
  }

  // The pair that row j leads.
  lemma PairOf(s: Shape, i: nat, j: nat)
    requires i > 0 && s.Paired(j, i)
    ensures s.First(i, s.PairIndex(i, j)) == j && s.PairIndex(i, j) < s.Pairs(i)
  {
    DoubledIndex(i, 0, j);
    s.PairsExact(i, j / (2 * i));
  }

  lemma RoundRunParties(p: Party, q: Party, a: seq<Byte>, b: seq<Byte>, r: Transcript)
    requires RoundRun(p, q, a, b, r)
    ensures p.shape == q.shape && p.alice && !q.alice
  {
    hide OperandsMasked, OpenedAt, TriplesValid;
  }

  lemma RoundRunBasics(p: Party, q: Party, a: seq<Byte>, b: seq<Byte>, r: Transcript, j: nat, m: nat)
    requires RoundRun(p, q, a, b, r) && p.shape.Paired(j, r.i) && m < p.shape.cmps
    ensures p.shape.Valid() && p.shape == q.shape && |a| == |b| == p.shape.Size()
    ensures r.i > 0 && j + r.i < p.shape.digits && m / 8 < p.shape.RowBytes()
  {
    hide OperandsMasked, OpenedAt, TriplesValid, Shape.Size;
  }

  // The secret value of row j after its pair was combined.
  lemma PairedFlag(p: Party, q: Party, a: seq<Byte>, b: seq<Byte>, r: Transcript, k: nat, j: nat, m: nat)
    requires RoundRun(p, q, a, b, r) && p.shape.Paired(j, r.i)
    requires k < p.shape.batch && j < p.shape.digits && m < p.shape.cmps
    ensures p.shape.ByteAt(p.shape.PairIndex(r.i, j), k, m / 8) < p.shape.RoundBytes(r.i)
    ensures var t := p.shape.ByteAt(p.shape.PairIndex(r.i, j), k, m / 8);
            ProductByte(true, r.eA, r.fA, p.ai, p.bi, p.ci, r.base, t)[m % 8]
            != ProductByte(false, r.eB, r.fB, q.ai, q.bi, q.ci, r.base, t)[m % 8]
            <==> Secret(a, b, p.shape.At(k, j, m)) && Secret(a, b, p.shape.At(k, j + r.i, m))
  {
    hide *;
    RoundRunBasics(p, q, a, b, r, j, m);
    SecretMeans(a, b, p.shape.At(k, j, m));
    SecretMeans(a, b, p.shape.At(k, j + r.i, m));
    PairOf(p.shape, r.i, j);
    ProductReconstructs(p, q, a, b, r, p.shape.PairIndex(r.i, j), k, m / 8);
    PackedFlag(p.shape, a, k, j, m);
    PackedFlag(p.shape, b, k, j, m);
    PackedFlag(p.shape, a, k, j + r.i, m);
    PackedFlag(p.shape, b, k, j + r.i, m);
  }

  // One round of the tree, as a whole: honest parties turn their secret values into those RoundDone describes.
  lemma RoundCorrect(p: Party, q: Party, a: seq<Byte>, b: seq<Byte>, r: Transcript, a': seq<Byte>, b': seq<Byte>)
    requires r.i > 0 && RoundRun(p, q, a, b, r)
    requires Written(p.shape, a, a', p.Products(r.eA, r.fA, r.base), r.i, p.shape.RoundBytes(r.i))
    requires Written(p.shape, b, b', q.Products(r.eB, r.fB, r.base), r.i, p.shape.RoundBytes(r.i))
    ensures RoundDone(p.shape, r.i, a, b, a', b')
  {
    hide RoundRun, Written, RoundDoneAt, Shape.RoundBytes;
    forall k, j, m | 0 <= k < p.shape.batch && 0 <= j < p.shape.digits && 0 <= m < p.shape.cmps
      ensures RoundDoneAt(p.shape, r.i, a, b, a', b', k, j, m)
    {
      RoundAt(p, q, a, b, r, a', b', k, j, m);
    }
  }

  lemma RoundAt(p: Party, q: Party, a: seq<Byte>, b: seq<Byte>, r: Transcript, a': seq<Byte>, b': seq<Byte>,
                k: nat, j: nat, m: nat)
    requires r.i > 0 && RoundRun(p, q, a, b, r)
    requires Written(p.shape, a, a', p.Products(r.eA, r.fA, r.base), r.i, p.shape.RoundBytes(r.i))
    requires Written(p.shape, b, b', q.Products(r.eB, r.fB, r.base), r.i, p.shape.RoundBytes(r.i))
    requires k < p.shape.batch && j < p.shape.digits && m < p.shape.cmps
    ensures RoundDoneAt(p.shape, r.i, a, b, a', b', k, j, m)
  {
    hide RoundRun, Written, Secret, Shape.At, Shape.Paired, Shape.RoundBytes, Shape.PairIndex, Shape.ByteAt, ByteOf;
    var s := p.shape;
    RoundRunParties(p, q, a, b, r);
    SecretMeans(a', b', s.At(k, j, m));
    WrittenMeans(p, a, a', r.eA, r.fA, r.base, r.i, k, j, m);
    WrittenMeans(q, b, b', r.eB, r.fB, r.base, r.i, k, j, m);
    if s.Paired(j, r.i) {
      PairedFlag(p, q, a, b, r, k, j, m);
    } else {
      SecretMeans(a, b, s.At(k, j, m));
    }
  }

  lemma WrittenMeans(p: Party, a: seq<Byte>, a': seq<Byte>, e: seq<Byte>, f: seq<Byte>, base: nat, i: nat,
                     k: nat, j: nat, m: nat)
    requires i > 0 && Written(p.shape, a, a', p.Products(e, f, base), i, p.shape.RoundBytes(i))
    requires k < p.shape.batch && j < p.shape.digits && m < p.shape.cmps
    ensures var t := p.shape.ByteAt(p.shape.PairIndex(i, j), k, m / 8);
            ByteOf(a', p.shape.At(k, j, m)) ==
            if p.shape.Paired(j, i) && t < p.shape.RoundBytes(i)
            then Flag(ProductByte(p.alice, e, f, p.ai, p.bi, p.ci, base, t)[m % 8])
            else ByteOf(a, p.shape.At(k, j, m))
  {
    hide Shape.ByteAt, Shape.At, Shape.RoundBytes, Shape.PairIndex, Shape.Paired, ByteOf, ProductByte;
  }

  /** The exchange buffers one party allocates for a traversal. */
  class Buffers {
    const ei: array<Byte>
    const fi: array<Byte>
    const e: array<Byte>
    const f: array<Byte>

    constructor (n: nat)
      ensures Fits(n) && fresh(ei) && fresh(fi) && fresh(e) && fresh(f)
    {
      ei := new Byte[n](_ => ZERO);
      fi := new Byte[n](_ => ZERO);
      e := new Byte[n](_ => ZERO);
      f := new Byte[n](_ => ZERO);
    }

    ghost predicate Fits(n: nat) {
      ei.Length == fi.Length == e.Length == f.Length == n && ei != fi && ei != e && ei != f && fi != e && fi != f && e != f
    }

    ghost function Arrays(): set<object> {
      {ei, fi, e, f}
    }
  }

  // Two honest parties with disjoint memory, ready to traverse.
  ghost predicate Counterparts(p: Party, q: Party) {
    p.Valid() && q.Valid() && p.shape == q.shape && p.alice && !q.alice && p.leafEq != q.leafEq && TriplesValid(p, q)
  }

  ghost predicate Separate(p: Party, q: Party, x: Buffers, y: Buffers) {
    && p.Valid() && q.Valid() && p.shape == q.shape
    && x.Fits(p.shape.TripleBytes()) && y.Fits(p.shape.TripleBytes()) && x.Arrays() !! y.Arrays()
    && p.leafEq !in x.Arrays() + y.Arrays() && q.leafEq !in x.Arrays() + y.Arrays()
  }

  // One round of both parties: mask, exchange, combine.
  method Round(p: Party, q: Party, i: nat, tripleCount: nat, x: Buffers, y: Buffers) returns (tripleCount': nat)
    requires Counterparts(p, q) && Separate(p, q, x, y) && 0 < i < p.shape.digits
    requires tripleCount % 8 == 0 && tripleCount / 8 + p.shape.RoundBytes(i) <= p.shape.TripleBytes()
    modifies x.Arrays(), y.Arrays(), p.leafEq, q.leafEq
    ensures tripleCount' == tripleCount + 8 * p.shape.RoundBytes(i)
    ensures RoundDone(p.shape, i, old(p.leafEq[..]), old(q.leafEq[..]), p.leafEq[..], q.leafEq[..])
    ensures old(AllFlags(p.shape, p.leafEq[..])) ==> AllFlags(p.shape, p.leafEq[..])
    ensures old(AllFlags(p.shape, q.leafEq[..])) ==> AllFlags(p.shape, q.leafEq[..])
  {
    ghost var a, b := p.leafEq[..], q.leafEq[..];
    p.shape.RoundBits(i);
    hide Masked, OperandsMasked, Written, RoundDone, TriplesValid, AllFlags, Shape.RoundBytes, Shape.TripleBytes, Shape.Pairs, Shape.Size;
    var counter := p.MaskOperands(i, tripleCount, x.ei, x.fi);
    var counterQ := q.MaskOperands(i, tripleCount, y.ei, y.fi);
    tripleCount' := tripleCount + counter * p.shape.batch * p.shape.cmps;
    var commSize := counter * p.shape.batch * p.shape.cmps / 8;
    Exchange(x.ei, y.ei, commSize, x.e);
    Exchange(x.fi, y.fi, commSize, x.f);
    Exchange(y.ei, x.ei, commSize, y.e);
    Exchange(y.fi, x.fi, commSize, y.f);
    ghost var r := Transcript(i, tripleCount / 8, x.ei[..], x.fi[..], y.ei[..], y.fi[..], x.e[..], x.f[..], y.e[..], y.f[..]);
    p.CombineShares(i, tripleCount, x.e, x.f);
    q.CombineShares(i, tripleCount, y.e, y.f);
    RoundCorrect(p, q, a, b, r, p.leafEq[..], q.leafEq[..]);
    if AllFlags(p.shape, a) {
      WrittenKeepsFlags(p.shape, a, p.leafEq[..], p.Products(r.eA, r.fA, r.base), i, p.shape.RoundBytes(i));
    }
    if AllFlags(p.shape, b) {
      WrittenKeepsFlags(q.shape, b, q.leafEq[..], q.Products(r.eB, r.fB, r.base), i, q.shape.RoundBytes(i));
    }
  }

  // Rows lo .. hi - 1 of one comparison are all true.
  ghost predicate AllRows(s: Shape, a: seq<Byte>, b: seq<Byte>, k: nat, lo: nat, hi: nat, m: nat) {
    forall d :: lo <= d < hi ==> Secret(a, b, s.At(k, d, m))
  }

  function Min(x: nat, y: nat): nat {
    if x <= y then x else y
  }

  // The tree invariant before the round with stride i, at row j: it carries the AND of the i leaves from j on.
  ghost predicate TreeAt(s: Shape, i: nat, a0: seq<Byte>, b0: seq<Byte>, a: seq<Byte>, b: seq<Byte>, k: nat, j: nat, m: nat) {
    Secret(a, b, s.At(k, j, m)) <==> AllRows(s, a0, b0, k, j, Min(j + i, s.digits), m)
  }

  predicate Multiple(j: nat, i: nat)
    requires i > 0
  {
    j % i == 0
  }

  ghost predicate Tree(s: Shape, i: nat, a0: seq<Byte>, b0: seq<Byte>, a: seq<Byte>, b: seq<Byte>)
    requires i > 0
  {
    forall k, j, m :: 0 <= k < s.batch && 0 <= j < s.digits && 0 <= m < s.cmps && Multiple(j, i) ==>
      TreeAt(s, i, a0, b0, a, b, k, j, m)
  }

  lemma TreeStart(s: Shape, a: seq<Byte>, b: seq<Byte>)
    ensures Tree(s, 1, a, b, a, b)
  {
    hide Shape.At, Secret;
  }

  lemma MultipleHalf(i: nat, j: nat)
    requires i > 0 && Multiple(j, 2 * i)
    ensures Multiple(j, i) && Multiple(j + i, i)
  {
    var c := Div(j, 2 * i);
    DoubledIndex(i, c, j);
    assert 2 * i * c == (2 * c) * i;
    assert (2 * c) * i + i == (2 * c + 1) * i;
    DivModUnique(j, 2 * c, 0, i);
    DivModUnique(j + i, 2 * c + 1, 0, i);
  }

  lemma {:induction false} TreeStep(s: Shape, i: nat, a0: seq<Byte>, b0: seq<Byte>,
                                    a: seq<Byte>, b: seq<Byte>, a': seq<Byte>, b': seq<Byte>)
    requires i > 0 && Tree(s, i, a0, b0, a, b) && RoundDone(s, i, a, b, a', b')
    ensures Tree(s, 2 * i, a0, b0, a', b')
  {
    hide Secret, Shape.At, Multiple;
    forall k, j, m | 0 <= k < s.batch && 0 <= j < s.digits && 0 <= m < s.cmps && Multiple(j, 2 * i)
      ensures TreeAt(s, 2 * i, a0, b0, a', b', k, j, m)
    {
      MultipleHalf(i, j);
      assert RoundDoneAt(s, i, a, b, a', b', k, j, m);
      assert TreeAt(s, i, a0, b0, a, b, k, j, m);
      PairedMeans(s, i, j);
      if j + i < s.digits {
        assert TreeAt(s, i, a0, b0, a, b, k, j + i, m);
      }
    }
  }

  lemma PairedMeans(s: Shape, i: nat, j: nat)
    requires i > 0 && Multiple(j, 2 * i)
    ensures s.Paired(j, i) <==> j + i < s.digits
  {
  }

  // Every flag of the buffer is 0 or 1.
  ghost predicate AllFlags(s: Shape, flags: seq<Byte>) {
    forall k, j, m :: 0 <= k < s.batch && 0 <= j < s.digits && 0 <= m < s.cmps ==> IsFlag(ByteOf(flags, s.At(k, j, m)))
  }

  lemma WrittenKeepsFlags(s: Shape, flags: seq<Byte>, flags': seq<Byte>, z: nat -> Byte, i: nat, t: nat)
    requires i > 0 && Written(s, flags, flags', z, i, t) && AllFlags(s, flags)
    ensures AllFlags(s, flags')
  {
    hide Shape.At, Shape.ByteAt, Shape.PairIndex, Shape.Paired, ByteOf;
    forall k, j, m | 0 <= k < s.batch && 0 <= j < s.digits && 0 <= m < s.cmps
      ensures IsFlag(ByteOf(flags', s.At(k, j, m)))
    {
      assert ByteOf(flags', s.At(k, j, m)) == FlagAfter(s, flags, z, i, t, k, j, m);
    }
  }

  lemma TreeEnd(s: Shape, i: nat, a0: seq<Byte>, b0: seq<Byte>, a: seq<Byte>, b: seq<Byte>)
    requires i >= s.digits >= 1 && Tree(s, i, a0, b0, a, b)
    ensures forall k, m :: 0 <= k < s.batch && 0 <= m < s.cmps ==> TreeAt(s, s.digits, a0, b0, a, b, k, 0, m)
  {
    hide Secret, Shape.At, AllRows;
    assert Multiple(0, i);
    forall k, m | 0 <= k < s.batch && 0 <= m < s.cmps
      ensures TreeAt(s, s.digits, a0, b0, a, b, k, 0, m)
    {
      assert TreeAt(s, i, a0, b0, a, b, k, 0, m);
    }
  }

  // One iteration of the traversal: a round and what it does to the tree invariant.
  method TraverseRound(p: Party, q: Party, i: nat, tripleCount: nat, x: Buffers, y: Buffers,
                       ghost a0: seq<Byte>, ghost b0: seq<Byte>) returns (tripleCount': nat)
    requires Counterparts(p, q) && Separate(p, q, x, y) && 0 < i < p.shape.digits
    requires tripleCount == p.shape.UsedBits(i)
    requires AllFlags(p.shape, p.leafEq[..]) && AllFlags(p.shape, q.leafEq[..])
    requires Tree(p.shape, i, a0, b0, p.leafEq[..], q.leafEq[..])
    modifies x.Arrays(), y.Arrays(), p.leafEq, q.leafEq
    ensures tripleCount' == p.shape.UsedBits(2 * i)
    ensures AllFlags(p.shape, p.leafEq[..]) && AllFlags(p.shape, q.leafEq[..])
    ensures Tree(p.shape, 2 * i, a0, b0, p.leafEq[..], q.leafEq[..])
  {
    hide Tree, RoundDone, TriplesValid, AllFlags, Shape.UsedBits, Shape.RoundBytes, Shape.TripleBytes, Shape.Size;
    ghost var a, b := p.leafEq[..], q.leafEq[..];
    p.shape.UsedFits(i);
    p.shape.UsedNext(i);
    tripleCount' := Round(p, q, i, tripleCount, x, y);
    TreeStep(p.shape, i, a0, b0, a, b, p.leafEq[..], q.leafEq[..]);
  }

  /**
   traverse_and_compute_ANDs of both parties: afterwards row 0 of every comparison shares the AND of all its digits,
   and exactly the allocated triples have been used.
   */
  method Traverse(p: Party, q: Party) returns (tripleCount: nat)
    requires Counterparts(p, q) && AllFlags(p.shape, p.leafEq[..]) && AllFlags(p.shape, q.leafEq[..])
    modifies p.leafEq, q.leafEq
    ensures tripleCount == 8 * p.shape.TripleBytes()
    ensures AllFlags(p.shape, p.leafEq[..]) && AllFlags(p.shape, q.leafEq[..])
    ensures forall k, m :: 0 <= k < p.shape.batch && 0 <= m < p.shape.cmps ==>
              TreeAt(p.shape, p.shape.digits, old(p.leafEq[..]), old(q.leafEq[..]), p.leafEq[..], q.leafEq[..], k, 0, m)
  {
    var s := p.shape;
    ghost var a0, b0 := p.leafEq[..], q.leafEq[..];
    var x := new Buffers(s.TripleBytes());
    var y := new Buffers(s.TripleBytes());
    s.UsedStart();
    TreeStart(s, a0, b0);
    tripleCount := 0;
    var i := 1;
    while i < s.digits
      invariant i > 0 && tripleCount == s.UsedBits(i)
      invariant AllFlags(s, p.leafEq[..]) && AllFlags(s, q.leafEq[..])
      invariant Tree(s, i, a0, b0, p.leafEq[..], q.leafEq[..])
      decreases s.digits - i
    {
      hide *;
      tripleCount := TraverseRound(p, q, i, tripleCount, x, y, a0, b0);
      i := i * 2;
    }
    TreeEnd(s, i, a0, b0, p.leafEq[..], q.leafEq[..]);
    s.UsedEnd(i);
  }
}
