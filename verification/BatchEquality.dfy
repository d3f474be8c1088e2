/**
 Secret-shared equality tests of Alice's batch of words against Bob's word, eight comparisons at a time:
 leaf comparison by table-lookup oblivious transfer, in-place unpacking, AND tree, parity over the batch.
 */
module BatchEquality {
  import opened Arithmetic
  import opened PackedBits
  import opened Digits
  import opened AndTree

  // The buffers are shaped for the radix: one row per digit.
  predicate Compatible(radix: Radix, s: Shape) {
    radix.Valid() && s.Valid() && s.digits == radix.NumDigits()
  }

  // Bit m of the message Alice offers at digit i of comparison j for choice k.
  ghost predicate MessageBit(radix: Radix, s: Shape, x: seq<Word>, masks: seq<bool>, i: nat, j: nat, k: nat, m: nat)
    requires Compatible(radix, s) && |x| == s.batch * s.cmps && |masks| == s.Size()
    requires i < s.digits && j < s.cmps
  {
    m < s.batch && (CellBound(j, m, s.cmps, s.batch); s.AtBound(m, i, j);
      (radix.Digit(x[Cell(j, m, s.batch)], i) == k) != masks[s.At(m, i, j)])
  }

  // set_leaf_ot_messages: the table offered at digit i of comparison j.
  ghost predicate Offered(radix: Radix, s: Shape, x: seq<Word>, masks: seq<bool>, i: nat, j: nat, table: seq<Byte>)
    requires Compatible(radix, s) && |x| == s.batch * s.cmps && |masks| == s.Size()
    requires i < s.digits && j < s.cmps
  {
    && |table| == Pow2(radix.Width(i))
    && forall k, m :: 0 <= k < |table| && 0 <= m < 8 ==> (table[k][m] <==> MessageBit(radix, s, x, masks, i, j, k, m))
  }

  ghost predicate OfferedBelow(radix: Radix, s: Shape, x: seq<Word>, masks: seq<bool>, tables: seq<seq<Byte>>)
    requires Compatible(radix, s) && |x| == s.batch * s.cmps && |masks| == s.Size()
  {
    forall i, j :: 0 <= i < s.digits && 0 <= j < s.cmps && Cell(i, j, s.cmps) < |tables| ==>
      Offered(radix, s, x, masks, i, j, tables[Cell(i, j, s.cmps)])
  }

  /** One party's object: its digits and its flags. */
  class LeafParty {
    const radix: Radix
    const shape: Shape
    const entries: nat
    const digits: array<nat>
    const leafEq: array<Byte>

    // entries is radixArrSize: all batch words for Alice, one word per comparison for Bob.
    constructor (radix: Radix, shape: Shape, entries: nat)
      requires Compatible(radix, shape)
      ensures Valid() && fresh(digits) && fresh(leafEq)
      ensures this.radix == radix && this.shape == shape && this.entries == entries
    {
      this.radix, this.shape, this.entries := radix, shape, entries;
      digits := new nat[shape.digits * entries](_ => 0);
      leafEq := new Byte[shape.Size()](_ => ZERO);
    }

    ghost predicate Valid() {
      && Compatible(radix, shape)
      && digits.Length == shape.digits * entries && leafEq.Length == shape.Size()
    }

    // Digit i of word j is stored for all cells below t.
    ghost predicate DigitsBelow(data: seq<Word>, t: nat)
      reads digits
      requires Valid() && |data| == entries
    {
      forall i, j :: 0 <= i < shape.digits && 0 <= j < entries && Cell(i, j, entries) < t ==> DigitStored(data, i, j)
    }

    ghost predicate DigitStored(data: seq<Word>, i: nat, j: nat)
      reads digits
      requires Valid() && |data| == entries && j < entries
    {
      Cell(i, j, entries) < digits.Length && digits[Cell(i, j, entries)] == radix.Digit(data[j], i)
    }

    method SetDigits(data: seq<Word>)
      requires Valid() && |data| == entries
      modifies digits
      ensures DigitsBelow(data, digits.Length)
    {
      hide DigitsBelow, DigitStored;
      DigitsNone(data);
      var i := 0;
      while i < shape.digits
        invariant i <= shape.digits && DigitsBelow(data, Cell(i, 0, entries))
      {
        SetDigitRow(data, i);
        i := i + 1;
      }
    }

    lemma DigitsNone(data: seq<Word>)
      requires Valid() && |data| == entries
      ensures DigitsBelow(data, 0) && Cell(0, 0, entries) == 0
    {
    }

    method SetDigitRow(data: seq<Word>, i: nat)
      requires Valid() && |data| == entries && i < shape.digits
      requires DigitsBelow(data, Cell(i, 0, entries))
      modifies digits
      ensures DigitsBelow(data, Cell(i + 1, 0, entries))
    {
      hide *;
      var j := 0;
      while j < entries
        invariant j <= entries && DigitsBelow(data, Cell(i, j, entries))
      {
        SetDigit(data, i, j);
        CellNext(i, j, entries);
        j := j + 1;
      }
      CellNext(i, 0, entries);
    }

    method SetDigit(data: seq<Word>, i: nat, j: nat)
      requires Valid() && |data| == entries && i < shape.digits && j < entries
      requires DigitsBelow(data, Cell(i, j, entries))
      modifies digits
      ensures DigitsBelow(data, Cell(i, j, entries) + 1)
    {
      CellBound(i, j, shape.digits, entries);
      ghost var was := digits[..];
      digits[i * entries + j] := radix.Digit(data[j], i);
      forall i', j' | 0 <= i' < shape.digits && 0 <= j' < entries && Cell(i', j', entries) < Cell(i, j, entries) + 1
        ensures DigitStored(data, i', j')
      {
        if Cell(i', j', entries) == Cell(i, j, entries) {
          CellInjective(i', j', i, j, entries);
        } else {
          assert old(DigitStored(data, i', j'));
        }
      }
    }

    // Alice's leaf flags are her random masks.
    ghost predicate HoldsMasks(masks: seq<bool>)
      reads leafEq
    {
      leafEq.Length == |masks| && forall p :: 0 <= p < |masks| ==> leafEq[p] == Flag(masks[p])
    }

    // random_bool, with the random flags given.
    method SetMasks(masks: seq<bool>)
      requires Valid() && |masks| == shape.Size()
      modifies leafEq
      ensures HoldsMasks(masks)
    {
      forall p | 0 <= p < leafEq.Length {
        leafEq[p] := Flag(masks[p]);
      }
    }

    // Body of set_leaf_ot_messages for one choice k: one masked comparison per batch entry.
    method OtMessage(ghost x: seq<Word>, ghost masks: seq<bool>, i: nat, j: nat, k: nat) returns (msg: Byte)
      requires Valid() && 1 <= shape.batch <= 8 && entries == shape.batch * shape.cmps == |x| && |masks| == shape.Size()
      requires i < shape.digits && j < shape.cmps
      requires DigitsBelow(x, digits.Length) && HoldsMasks(masks)
      ensures forall m :: 0 <= m < 8 ==> (msg[m] <==> MessageBit(radix, shape, x, masks, i, j, k, m))
    {
      msg := ZERO;
      for m := 0 to shape.batch
        invariant forall n :: 0 <= n < 8 ==> (msg[n] <==> n < m && MessageBit(radix, shape, x, masks, i, j, k, n))
      {
        var bit := MaskedComparison(x, masks, i, j, k, m);
        msg := Or(msg, ShiftLeft(Flag(bit), m));
      }
    }

    method MaskedComparison(ghost x: seq<Word>, ghost masks: seq<bool>, i: nat, j: nat, k: nat, m: nat) returns (bit: bool)
      requires Valid() && entries == shape.batch * shape.cmps == |x| && |masks| == shape.Size()
      requires i < shape.digits && j < shape.cmps && m < shape.batch
      requires DigitsBelow(x, digits.Length) && HoldsMasks(masks)
      ensures bit == MessageBit(radix, shape, x, masks, i, j, k, m)
    {
      var bs, nd, nc := shape.batch, shape.digits, shape.cmps;
      CellBound(j, m, nc, bs);
      CellBound(i, Cell(j, m, bs), nd, entries);
      shape.AtBound(m, i, j);
      shape.FlagIndex(m, i, j);
      assert DigitStored(x, i, Cell(j, m, bs));
      assert i * entries + j * bs + m == Cell(i, Cell(j, m, bs), entries);
      assert m * nd * nc + i * nc + j == shape.At(m, i, j);
      bit := (digits[i * entries + j * bs + m] == k) != leafEq[m * nd * nc + i * nc + j][0];
    }

    method SetLeafOtMessages(ghost x: seq<Word>, ghost masks: seq<bool>, i: nat, j: nat, n: nat) returns (table: seq<Byte>)
      requires Valid() && 1 <= shape.batch <= 8 && entries == shape.batch * shape.cmps == |x| && |masks| == shape.Size()
      requires i < shape.digits && j < shape.cmps && n == Pow2(radix.Width(i))
      requires DigitsBelow(x, digits.Length) && HoldsMasks(masks)
      ensures Offered(radix, shape, x, masks, i, j, table)
    {
      table := [];
      for k := 0 to n
        invariant |table| == k
        invariant forall k', m :: 0 <= k' < k && 0 <= m < 8 ==> (table[k'][m] <==> MessageBit(radix, shape, x, masks, i, j, k', m))
      {
        hide *;
        var msg := OtMessage(x, masks, i, j, k);
        table := table + [msg];
      }
    }

    // Alice's part of setLeafMessages: all tables, digit by digit.
    method SetLeafMessages(x: seq<Word>, masks: seq<bool>) returns (tables: seq<seq<Byte>>)
      requires Valid() && 1 <= shape.batch <= 8 && entries == shape.batch * shape.cmps == |x| && |masks| == shape.Size()
      modifies digits, leafEq
      ensures HoldsMasks(masks)
      ensures |tables| == shape.digits * shape.cmps && OfferedBelow(radix, shape, x, masks, tables)
    {
      hide *;
      SetDigits(x);
      SetMasks(masks);
      tables := OfferAll(x, masks);
    }

    method OfferAll(ghost x: seq<Word>, ghost masks: seq<bool>) returns (tables: seq<seq<Byte>>)
      requires Valid() && 1 <= shape.batch <= 8 && entries == shape.batch * shape.cmps == |x| && |masks| == shape.Size()
      requires DigitsBelow(x, digits.Length) && HoldsMasks(masks)
      ensures |tables| == shape.digits * shape.cmps && OfferedBelow(radix, shape, x, masks, tables)
    {
      hide Offered, HoldsMasks, DigitsBelow, Shape.Size;
      tables := [];
      var i := 0;
      CellNext(0, 0, shape.cmps);
      while i < shape.digits
        invariant i <= shape.digits && |tables| == Cell(i, 0, shape.cmps)
        invariant OfferedBelow(radix, shape, x, masks, tables)
      {
        tables := OfferRow(x, masks, i, tables);
        i := i + 1;
      }
    }

    method OfferRow(ghost x: seq<Word>, ghost masks: seq<bool>, i: nat, tables: seq<seq<Byte>>) returns (tables': seq<seq<Byte>>)
      requires Valid() && 1 <= shape.batch <= 8 && entries == shape.batch * shape.cmps == |x| && |masks| == shape.Size()
      requires DigitsBelow(x, digits.Length) && HoldsMasks(masks)
      requires i < shape.digits && |tables| == Cell(i, 0, shape.cmps) && OfferedBelow(radix, shape, x, masks, tables)
      ensures |tables'| == Cell(i + 1, 0, shape.cmps) && OfferedBelow(radix, shape, x, masks, tables')
    {
      hide Offered, HoldsMasks, DigitsBelow, Shape.Size;
      tables' := tables;
      for j := 0 to shape.cmps
        invariant |tables'| == Cell(i, j, shape.cmps) && OfferedBelow(radix, shape, x, masks, tables')
      {
        var n := if i == shape.digits - 1 && radix.R() > 0 then Pow2(radix.R()) else Pow2(radix.beta);
        var table := SetLeafOtMessages(x, masks, i, j, n);
        ghost var before := tables';
        tables' := tables' + [table];
        CellNext(i, j, shape.cmps);
        forall i', j' | 0 <= i' < shape.digits && 0 <= j' < shape.cmps && Cell(i', j', shape.cmps) < |tables'|
          ensures Offered(radix, shape, x, masks, i', j', tables'[Cell(i', j', shape.cmps)])
        {
          if Cell(i', j', shape.cmps) == Cell(i, j, shape.cmps) {
            CellInjective(i', j', i, j, shape.cmps);
          }
        }
      }
      CellNext(i, 0, shape.cmps);
    }

    // Flag t of Bob after the transfers: the packed low otLen bits of the message at his digit.
    ghost predicate PackedAt(x: seq<Word>, y: seq<Word>, masks: seq<bool>, otLen: nat, i: nat, j: nat, packed: Byte)
      requires Compatible(radix, shape) && |x| == shape.batch * shape.cmps && |y| == shape.cmps && |masks| == shape.Size()
      requires i < shape.digits && j < shape.cmps
    {
      forall m :: 0 <= m < 8 ==>
        (packed[m] <==> m < otLen && MessageBit(radix, shape, x, masks, i, j, radix.Digit(y[j], i), m))
    }

    // The first digits * cmps flags hold packed messages.
    ghost predicate PackedBelow(x: seq<Word>, y: seq<Word>, masks: seq<bool>, otLen: nat, flags: seq<Byte>, t: nat)
      requires Compatible(radix, shape) && |x| == shape.batch * shape.cmps && |y| == shape.cmps && |masks| == shape.Size()
    {
      forall i, j :: 0 <= i < shape.digits && 0 <= j < shape.cmps && Cell(i, j, shape.cmps) < t ==>
        PackedAt(x, y, masks, otLen, i, j, ByteOf(flags, Cell(i, j, shape.cmps)))
    }

    // The leaf transfers: for each cell Bob learns the low otLen bits of the table entry at his digit.
    method ReceiveLeaves(ghost x: seq<Word>, y: seq<Word>, ghost masks: seq<bool>, tables: seq<seq<Byte>>, otLen: nat)
      requires Valid() && shape.batch >= 1 && entries == shape.cmps == |y|
      requires |x| == shape.batch * shape.cmps && |masks| == shape.Size()
      requires DigitsBelow(y, digits.Length)
      requires |tables| == shape.digits * shape.cmps && OfferedBelow(radix, shape, x, masks, tables)
      modifies leafEq
      ensures PackedBelow(x, y, masks, otLen, leafEq[..], shape.digits * shape.cmps)
    {
      hide Offered, OfferedBelow, DigitsBelow, PackedBelow, PackedAt, Shape.Size;
      PackedNone(x, y, masks, otLen);
      CellNext(0, 0, shape.cmps);
      var i := 0;
      while i < shape.digits
        invariant i <= shape.digits
        invariant PackedBelow(x, y, masks, otLen, leafEq[..], Cell(i, 0, shape.cmps))
      {
        var j := 0;
        while j < shape.cmps
          invariant j <= shape.cmps
          invariant PackedBelow(x, y, masks, otLen, leafEq[..], Cell(i, j, shape.cmps))
        {
          ReceiveLeaf(x, y, masks, tables, otLen, i, j);
          CellNext(i, j, shape.cmps);
          j := j + 1;
        }
        CellNext(i, 0, shape.cmps);
        i := i + 1;
      }
    }

    lemma PackedNone(x: seq<Word>, y: seq<Word>, masks: seq<bool>, otLen: nat)
      requires Compatible(radix, shape) && |x| == shape.batch * shape.cmps && |y| == shape.cmps && |masks| == shape.Size()
      ensures PackedBelow(x, y, masks, otLen, leafEq[..], 0)
    {
    }

    method ReceiveLeaf(ghost x: seq<Word>, y: seq<Word>, ghost masks: seq<bool>, tables: seq<seq<Byte>>, otLen: nat,
                       i: nat, j: nat)
      requires Valid() && shape.batch >= 1 && entries == shape.cmps == |y|
      requires |x| == shape.batch * shape.cmps && |masks| == shape.Size()
      requires DigitsBelow(y, digits.Length)
      requires |tables| == shape.digits * shape.cmps && OfferedBelow(radix, shape, x, masks, tables)
      requires i < shape.digits && j < shape.cmps
      requires PackedBelow(x, y, masks, otLen, leafEq[..], Cell(i, j, shape.cmps))
      modifies leafEq
      ensures PackedBelow(x, y, masks, otLen, leafEq[..], Cell(i, j, shape.cmps) + 1)
    {
      hide MessageBit, Radix.Digit;
      ghost var was := leafEq[..];
      var t := i * shape.cmps + j;
      CellBound(i, j, shape.digits, shape.cmps);
      FirstPlane();
      assert DigitStored(y, i, j);
      assert Offered(radix, shape, x, masks, i, j, tables[Cell(i, j, shape.cmps)]);
      leafEq[t] := LowBits(tables[t][digits[t]], otLen);
      PackedStep(x, y, masks, otLen, i, j, was, leafEq[..]);
    }

    // The packed cells are the flags of batch entry 0.
    lemma FirstPlane()
      requires shape.batch >= 1
      ensures shape.digits * shape.cmps <= shape.Size()
    {
      MulMonotone(1, shape.batch, shape.digits);
      MulMonotone(shape.digits, shape.batch * shape.digits, shape.cmps);
    }

    lemma PackedStep(x: seq<Word>, y: seq<Word>, masks: seq<bool>, otLen: nat, i: nat, j: nat, was: seq<Byte>, now: seq<Byte>)
      requires Compatible(radix, shape) && |x| == shape.batch * shape.cmps && |y| == shape.cmps && |masks| == shape.Size()
      requires i < shape.digits && j < shape.cmps && Cell(i, j, shape.cmps) < |was|
      requires PackedBelow(x, y, masks, otLen, was, Cell(i, j, shape.cmps))
      requires |now| == |was| && PackedAt(x, y, masks, otLen, i, j, now[Cell(i, j, shape.cmps)])
      requires now == was[Cell(i, j, shape.cmps) := now[Cell(i, j, shape.cmps)]]
      ensures PackedBelow(x, y, masks, otLen, now, Cell(i, j, shape.cmps) + 1)
    {
      hide PackedAt;
      forall i', j' | 0 <= i' < shape.digits && 0 <= j' < shape.cmps && Cell(i', j', shape.cmps) < Cell(i, j, shape.cmps) + 1
        ensures PackedAt(x, y, masks, otLen, i', j', ByteOf(now, Cell(i', j', shape.cmps)))
      {
        if Cell(i', j', shape.cmps) == Cell(i, j, shape.cmps) {
          CellInjective(i', j', i, j, shape.cmps);
        }
      }
    }

    function Plane(): nat {
      shape.digits * shape.cmps
    }

    // Bit b of packed cell t has reached its own plane.
    ghost predicate UnpackedAt(packed: seq<Byte>, flags: seq<Byte>, b: nat, t: nat)
      requires b < 8
    {
      ByteOf(flags, Cell(b, t, Plane())) == Flag(ByteOf(packed, t)[b])
    }

    // The cells before i are unpacked, as are planes j and up of cell i; every other packed byte is still in place.
    ghost predicate Unpacking(packed: seq<Byte>, flags: seq<Byte>, i: nat, j: nat)
      requires shape.batch <= 8
    {
      && |flags| == |packed|
      && (forall b, t :: 0 <= b < shape.batch && 0 <= t < Plane() && (t < i || (t == i && j <= b)) ==> UnpackedAt(packed, flags, b, t))
      && (forall t :: i <= t < Plane() && (t > i || j > 0) ==> ByteOf(flags, t) == ByteOf(packed, t))
    }

    lemma PlaneBound(b: nat, t: nat)
      requires b < shape.batch && t < Plane()
      ensures Cell(b, t, Plane()) < shape.Size()
    {
      CellBound(b, t, shape.batch, Plane());
      assert shape.batch * Plane() == shape.Size();
    }

    // Bob's unpacking loop: the batch index runs downwards, so the packed byte itself goes last.
    method UnpackLeaves()
      requires Valid() && 1 <= shape.batch <= 8
      modifies leafEq
      ensures Unpacking(old(leafEq[..]), leafEq[..], Plane(), shape.batch)
    {
      hide UnpackedAt, Shape.Size, Plane;
      ghost var packed := leafEq[..];
      var n := Plane();
      for i := 0 to n
        invariant Unpacking(packed, leafEq[..], i, shape.batch)
      {
        for j := shape.batch downto 0
          invariant Unpacking(packed, leafEq[..], i, j)
        {
          UnpackCell(packed, i, j);
        }
      }
    }

    method UnpackCell(ghost packed: seq<Byte>, i: nat, j: nat)
      requires Valid() && 1 <= shape.batch <= 8 && i < Plane() && j < shape.batch
      requires Unpacking(packed, leafEq[..], i, j + 1)
      modifies leafEq
      ensures Unpacking(packed, leafEq[..], i, j)
    {
      hide Unpacking, Shape.Size;
      StillPacked(packed, i, j);
      ghost var was := leafEq[..];
      var nd, nc := shape.digits, shape.cmps;
      leafEq[j * nd * nc + i] := And(ShiftRight(leafEq[i], j), Flag(true));
      ShiftedFlag(was[i], j);
      UnpackStep(packed, was, leafEq[..], i, j);
    }

    lemma StillPacked(packed: seq<Byte>, i: nat, j: nat)
      requires Valid() && 1 <= shape.batch <= 8 && i < Plane() && j < shape.batch
      requires Unpacking(packed, leafEq[..], i, j + 1)
      ensures i < leafEq.Length && leafEq[i] == ByteOf(packed, i)
      ensures j * shape.digits * shape.cmps + i == Cell(j, i, Plane()) < leafEq.Length
    {
      hide *;
      PlaneIndex(j, i);
      PlaneIndex(0, i);
      CellNext(0, 0, Plane());
      StillPackedByte(packed, i, j);
    }

    lemma PlaneIndex(b: nat, t: nat)
      requires Valid() && b < shape.batch && t < Plane()
      ensures b * shape.digits * shape.cmps + t == Cell(b, t, Plane()) < leafEq.Length
      ensures b == 0 ==> Cell(b, t, Plane()) == t
    {
      PlaneBound(b, t);
      assert b * shape.digits * shape.cmps == b * Plane();
    }

    lemma StillPackedByte(packed: seq<Byte>, i: nat, j: nat)
      requires shape.batch <= 8 && i < Plane() && i < leafEq.Length && Unpacking(packed, leafEq[..], i, j + 1)
      ensures leafEq[i] == ByteOf(packed, i)
    {
      hide Plane, UnpackedAt;
      assert ByteOf(leafEq[..], i) == ByteOf(packed, i);
    }

    lemma UnpackStep(packed: seq<Byte>, was: seq<Byte>, now: seq<Byte>, i: nat, j: nat)
      requires shape.batch <= 8 && i < Plane() && j < shape.batch && Cell(j, i, Plane()) < |was|
      requires Unpacking(packed, was, i, j + 1)
      requires now == was[Cell(j, i, Plane()) := Flag(ByteOf(packed, i)[j])]
      ensures Unpacking(packed, now, i, j)
    {
      hide Plane;
      var n := Plane();
      forall b, t | 0 <= b < shape.batch && 0 <= t < n && (t < i || (t == i && j <= b))
        ensures UnpackedAt(packed, now, b, t)
      {
        if Cell(b, t, n) == Cell(j, i, n) {
          CellInjective(b, t, j, i, n);
        } else {
          assert UnpackedAt(packed, was, b, t);
        }
      }
      forall t | i <= t < n && (t > i || j > 0)
        ensures ByteOf(now, t) == ByteOf(packed, t)
      {
        assert Cell(0, t, n) == t;
        if t == Cell(j, i, n) {
          CellInjective(0, t, j, i, n);
        }
      }
    }
  }

  // What the leaf phase shares at digit i of batch entry k of comparison j.
  ghost predicate LeafTruth(radix: Radix, s: Shape, x: seq<Word>, y: seq<Word>, masks: seq<bool>, otLen: nat,
                            k: nat, i: nat, j: nat)
    requires Compatible(radix, s) && |x| == s.batch * s.cmps && |y| == s.cmps && |masks| == s.Size()
    requires k < s.batch && i < s.digits && j < s.cmps
  {
    CellBound(j, k, s.cmps, s.batch);
    s.AtBound(k, i, j);
    if k < otLen then radix.Digit(x[Cell(j, k, s.batch)], i) == radix.Digit(y[j], i) else masks[s.At(k, i, j)]
  }

  lemma LeafShared(p: LeafParty, q: LeafParty, x: seq<Word>, y: seq<Word>, masks: seq<bool>, otLen: nat,
                   packed: seq<Byte>, a: seq<Byte>, b: seq<Byte>, k: nat, i: nat, j: nat)
    requires p.Valid() && q.Valid() && p.radix == q.radix && p.shape == q.shape && 1 <= p.shape.batch <= 8
    requires |x| == p.shape.batch * p.shape.cmps && |y| == p.shape.cmps && |masks| == p.shape.Size()
    requires k < p.shape.batch && i < p.shape.digits && j < p.shape.cmps
    requires |a| == p.shape.Size() && forall t :: 0 <= t < |a| ==> a[t] == Flag(masks[t])
    requires q.PackedBelow(x, y, masks, otLen, packed, q.Plane())
    requires q.Unpacking(packed, b, q.Plane(), q.shape.batch)
    ensures Secret(a, b, p.shape.At(k, i, j)) <==> LeafTruth(p.radix, p.shape, x, y, masks, otLen, k, i, j)
    ensures IsFlag(ByteOf(a, p.shape.At(k, i, j))) && IsFlag(ByteOf(b, p.shape.At(k, i, j)))
  {
    var s := p.shape;
    var t := Cell(i, j, s.cmps);
    CellBound(i, j, s.digits, s.cmps);
    s.AtBound(k, i, j);
    FlatIsCell(k, i, j, s.digits, s.cmps);
    assert q.PackedAt(x, y, masks, otLen, i, j, ByteOf(packed, t));
    assert q.UnpackedAt(packed, b, k, t);
  }

  /** The output of the triple generator for one party. */
  datatype Triples = Triples(a: seq<Byte>, b: seq<Byte>, c: seq<Byte>)

  // The generator's contract for n bytes of triples.
  ghost predicate TriplesMatch(t: Triples, u: Triples, n: nat) {
    && |t.a| == |t.b| == |t.c| == n && |u.a| == |u.b| == |u.c| == n
    && forall i :: 0 <= i < n ==> ValidTriple(t.a[i], u.a[i], t.b[i], u.b[i], t.c[i], u.c[i])
  }

  // Batch entry k of comparison j, as the protocol decides it. Entries past the transferred message bits
  // never reach Bob: for those the AND of Alice's own masks comes out.
  ghost predicate Hit(radix: Radix, s: Shape, x: seq<Word>, y: seq<Word>, masks: seq<bool>, otLen: nat, k: nat, j: nat)
    requires Compatible(radix, s) && |x| == s.batch * s.cmps && |y| == s.cmps && |masks| == s.Size()
    requires k < s.batch && j < s.cmps
  {
    CellBound(j, k, s.cmps, s.batch);
    if k < otLen then x[Cell(j, k, s.batch)] % Pow2(radix.l) == y[j] % Pow2(radix.l)
    else forall i {:trigger s.At(k, i, j)} :: 0 <= i < s.digits ==> (s.AtBound(k, i, j); masks[s.At(k, i, j)])
  }

  // The AND tree over the leaf truths decides Hit.
  lemma TreeDecidesHit(radix: Radix, s: Shape, x: seq<Word>, y: seq<Word>, masks: seq<bool>, otLen: nat,
                       a0: seq<Byte>, b0: seq<Byte>, k: nat, j: nat)
    requires Compatible(radix, s) && |x| == s.batch * s.cmps && |y| == s.cmps && |masks| == s.Size()
    requires k < s.batch && j < s.cmps
    requires forall i :: 0 <= i < s.digits ==>
               (Secret(a0, b0, s.At(k, i, j)) <==> LeafTruth(radix, s, x, y, masks, otLen, k, i, j))
    ensures AllRows(s, a0, b0, k, 0, s.digits, j) <==> Hit(radix, s, x, y, masks, otLen, k, j)
  {
    hide Secret, Shape.At, LeafTruth, Hit;
    var all := forall i :: 0 <= i < s.digits ==> LeafTruth(radix, s, x, y, masks, otLen, k, i, j);
    assert AllRows(s, a0, b0, k, 0, s.digits, j) <==> all;
    AllLeaves(radix, s, x, y, masks, otLen, k, j);
  }

  lemma AllLeaves(radix: Radix, s: Shape, x: seq<Word>, y: seq<Word>, masks: seq<bool>, otLen: nat, k: nat, j: nat)
    requires Compatible(radix, s) && |x| == s.batch * s.cmps && |y| == s.cmps && |masks| == s.Size()
    requires k < s.batch && j < s.cmps
    ensures (forall i :: 0 <= i < s.digits ==> LeafTruth(radix, s, x, y, masks, otLen, k, i, j))
            <==> Hit(radix, s, x, y, masks, otLen, k, j)
  {
    hide Shape.At, Radix.Digit;
    CellBound(j, k, s.cmps, s.batch);
    var u, v := x[Cell(j, k, s.batch)], y[j];
    radix.DigitsDecide(u, v);
    if k < otLen {
      forall i | 0 <= i < s.digits
        ensures LeafTruth(radix, s, x, y, masks, otLen, k, i, j) <==> radix.Digit(u, i) == radix.Digit(v, i)
      {
      }
    } else {
      forall i | 0 <= i < s.digits
        ensures s.At(k, i, j) < |masks| && (LeafTruth(radix, s, x, y, masks, otLen, k, i, j) <==> masks[s.At(k, i, j)])
      {
        s.AtBound(k, i, j);
      }
    }
  }

  // XOR of row 0 of the first n batch entries of comparison j.
  function XorUpTo(s: Shape, flags: seq<Byte>, j: nat, n: nat): Byte {
    if n == 0 then ZERO else Xor(XorUpTo(s, flags, j, n - 1), ByteOf(flags, s.At(n - 1, 0, j)))
  }

  // The final loop of the traversal: one result share per comparison.
  method ResultShares(s: Shape, flags: array<Byte>) returns (shares: seq<Byte>)
    requires s.Valid() && flags.Length == s.Size()
    ensures |shares| == s.cmps && forall j :: 0 <= j < s.cmps ==> shares[j] == XorUpTo(s, flags[..], j, s.batch)
  {
    shares := [];
    for i := 0 to s.cmps
      invariant |shares| == i && forall j :: 0 <= j < i ==> shares[j] == XorUpTo(s, flags[..], j, s.batch)
    {
      var res := ZERO;
      for j := 0 to s.batch
        invariant res == XorUpTo(s, flags[..], i, j)
      {
        s.AtBound(j, 0, i);
        s.FlagIndex(j, 0, i);
        res := Xor(res, flags[j * s.digits * s.cmps + i]);
      }
      shares := shares + [res];
    }
  }

  // How many of the first n batch entries of comparison j are hits.
  ghost function Hits(radix: Radix, s: Shape, x: seq<Word>, y: seq<Word>, masks: seq<bool>, otLen: nat, j: nat, n: nat): nat
    requires Compatible(radix, s) && |x| == s.batch * s.cmps && |y| == s.cmps && |masks| == s.Size()
    requires n <= s.batch && j < s.cmps
  {
    if n == 0 then 0
    else Hits(radix, s, x, y, masks, otLen, j, n - 1) + if Hit(radix, s, x, y, masks, otLen, n - 1, j) then 1 else 0
  }

  lemma {:induction false} ParityShared(radix: Radix, s: Shape, x: seq<Word>, y: seq<Word>, masks: seq<bool>, otLen: nat,
                                        a: seq<Byte>, b: seq<Byte>, j: nat, n: nat)
    requires Compatible(radix, s) && |x| == s.batch * s.cmps && |y| == s.cmps && |masks| == s.Size()
    requires n <= s.batch && j < s.cmps
    requires forall k :: 0 <= k < s.batch ==> (Secret(a, b, s.At(k, 0, j)) <==> Hit(radix, s, x, y, masks, otLen, k, j))
    requires forall k :: 0 <= k < s.batch ==> IsFlag(ByteOf(a, s.At(k, 0, j))) && IsFlag(ByteOf(b, s.At(k, 0, j)))
    ensures IsFlag(XorUpTo(s, a, j, n)) && IsFlag(XorUpTo(s, b, j, n))
    ensures XorUpTo(s, a, j, n)[0] != XorUpTo(s, b, j, n)[0] <==> Hits(radix, s, x, y, masks, otLen, j, n) % 2 == 1
  {
    hide Hit, Shape.At, ByteOf, IsFlag, Secret, Xor;
    if n > 0 {
      ParityShared(radix, s, x, y, masks, otLen, a, b, j, n - 1);
      var p := s.At(n - 1, 0, j);
      SecretMeans(a, b, p);
      FlagXor(XorUpTo(s, a, j, n - 1), ByteOf(a, p));
      FlagXor(XorUpTo(s, b, j, n - 1), ByteOf(b, p));
    } else {
      FlagZero();
    }
  }

  // Both parties' result shares of comparison j.
  ghost predicate SharesHits(radix: Radix, s: Shape, x: seq<Word>, y: seq<Word>, masks: seq<bool>, otLen: nat,
                             zA: Byte, zB: Byte, j: nat)
    requires Compatible(radix, s) && |x| == s.batch * s.cmps && |y| == s.cmps && |masks| == s.Size() && j < s.cmps
  {
    && IsFlag(zA) && IsFlag(zB)
    && (zA[0] != zB[0] <==> Hits(radix, s, x, y, masks, otLen, j, s.batch) % 2 == 1)
  }

  // The leaf phase of both parties: tables, transfers, unpacking.
  method LeafPhase(p: LeafParty, q: LeafParty, x: seq<Word>, y: seq<Word>, masks: seq<bool>, otLen: nat)
    requires p.Valid() && q.Valid() && p.radix == q.radix && p.shape == q.shape && 1 <= p.shape.batch <= 8
    requires p.entries == p.shape.batch * p.shape.cmps == |x| && q.entries == p.shape.cmps == |y| && |masks| == p.shape.Size()
    requires p.leafEq != q.leafEq && p.digits != q.digits
    modifies p.leafEq, p.digits, q.leafEq, q.digits
    ensures AllFlags(p.shape, p.leafEq[..]) && AllFlags(p.shape, q.leafEq[..])
    ensures forall k, i, j {:trigger p.shape.At(k, i, j)} :: 0 <= k < p.shape.batch && 0 <= i < p.shape.digits && 0 <= j < p.shape.cmps ==>
              (Secret(p.leafEq[..], q.leafEq[..], p.shape.At(k, i, j)) <==>
               LeafTruth(p.radix, p.shape, x, y, masks, otLen, k, i, j))
  {
    hide OfferedBelow, LeafParty.DigitsBelow, LeafParty.PackedBelow, LeafParty.Unpacking, LeafTruth, Secret, Shape.At, Shape.Size;
    var tables := p.SetLeafMessages(x, masks);
    q.SetDigits(y);
    q.ReceiveLeaves(x, y, masks, tables, otLen);
    ghost var packed := q.leafEq[..];
    q.UnpackLeaves();
    forall k, i, j | 0 <= k < p.shape.batch && 0 <= i < p.shape.digits && 0 <= j < p.shape.cmps
      ensures IsFlag(ByteOf(p.leafEq[..], p.shape.At(k, i, j))) && IsFlag(ByteOf(q.leafEq[..], p.shape.At(k, i, j)))
      ensures Secret(p.leafEq[..], q.leafEq[..], p.shape.At(k, i, j)) <==>
              LeafTruth(p.radix, p.shape, x, y, masks, otLen, k, i, j)
    {
      LeafShared(p, q, x, y, masks, otLen, packed, p.leafEq[..], q.leafEq[..], k, i, j);
    }
  }

  /**
   perform_batch_equality: for all words, masks and valid triples, the parties' result shares of comparison j
   XOR to the parity of its hits. Fails exactly when the radix leaves an unsupported last digit.
   */
  method PerformBatchEquality(radix: Radix, s: Shape, x: seq<Word>, y: seq<Word>, masks: seq<bool>, otLen: nat,
                              t: Triples, u: Triples) returns (ok: bool, zA: seq<Byte>, zB: seq<Byte>)
    requires Compatible(radix, s) && 1 <= s.batch <= 8
    requires |x| == s.batch * s.cmps && |y| == s.cmps && |masks| == s.Size() && TriplesMatch(t, u, s.TripleBytes())
    ensures ok <==> radix.Supported()
    ensures ok <==> radix.l % radix.beta <= 4
    ensures ok ==> |zA| == |zB| == s.cmps
    ensures ok ==> forall j :: 0 <= j < s.cmps ==> SharesHits(radix, s, x, y, masks, otLen, zA[j], zB[j], j)
  {
    ok := radix.R() <= 4;
    zA, zB := [], [];
    if ok {
      var alice := new LeafParty(radix, s, s.batch * s.cmps);
      var bob := new LeafParty(radix, s, s.cmps);
      LeafPhase(alice, bob, x, y, masks, otLen);
      zA, zB := TreePhase(radix, s, x, y, masks, otLen, t, u, alice.leafEq, bob.leafEq);
    }
  }

  // The AND tree over the shared leaves, and the result shares.
  method TreePhase(radix: Radix, s: Shape, ghost x: seq<Word>, ghost y: seq<Word>, ghost masks: seq<bool>, ghost otLen: nat,
                   t: Triples, u: Triples, a: array<Byte>, b: array<Byte>) returns (zA: seq<Byte>, zB: seq<Byte>)
    requires Compatible(radix, s) && |x| == s.batch * s.cmps && |y| == s.cmps && |masks| == s.Size()
    requires TriplesMatch(t, u, s.TripleBytes()) && a != b && a.Length == b.Length == s.Size()
    requires AllFlags(s, a[..]) && AllFlags(s, b[..])
    requires forall k, i, j {:trigger s.At(k, i, j)} :: 0 <= k < s.batch && 0 <= i < s.digits && 0 <= j < s.cmps ==>
               (Secret(a[..], b[..], s.At(k, i, j)) <==> LeafTruth(radix, s, x, y, masks, otLen, k, i, j))
    modifies a, b
    ensures |zA| == |zB| == s.cmps
    ensures forall j :: 0 <= j < s.cmps ==> SharesHits(radix, s, x, y, masks, otLen, zA[j], zB[j], j)
  {
    hide LeafTruth, Secret, Shape.At, Shape.Size, Hit, AllRows, XorUpTo;
    ghost var a0, b0 := a[..], b[..];
    var p := new Party(s, true, a, t.a, t.b, t.c);
    var q := new Party(s, false, b, u.a, u.b, u.c);
    assert Counterparts(p, q);
    var _ := Traverse(p, q);
    zA := ResultShares(s, a);
    zB := ResultShares(s, b);
    forall j | 0 <= j < s.cmps
      ensures SharesHits(radix, s, x, y, masks, otLen, zA[j], zB[j], j)
    {
      forall k | 0 <= k < s.batch
        ensures Secret(a[..], b[..], s.At(k, 0, j)) <==> Hit(radix, s, x, y, masks, otLen, k, j)
      {
        assert TreeAt(s, s.digits, a0, b0, a[..], b[..], k, 0, j);
        TreeDecidesHit(radix, s, x, y, masks, otLen, a0, b0, k, j);
      }
      ParityShared(radix, s, x, y, masks, otLen, a[..], b[..], j, s.batch);
    }
  }

  // How many of the first n batch entries of comparison j equal Bob's word on the low l bits.
  ghost function Matches(radix: Radix, s: Shape, x: seq<Word>, y: seq<Word>, j: nat, n: nat): nat
    requires |x| == s.batch * s.cmps && |y| == s.cmps && n <= s.batch && j < s.cmps
  {
    if n == 0 then 0
    else
      CellBound(j, n - 1, s.cmps, s.batch);
      Matches(radix, s, x, y, j, n - 1)
      + if x[Cell(j, n - 1, s.batch)] % Pow2(radix.l) == y[j] % Pow2(radix.l) then 1 else 0
  }

  // The parties' result shares of comparison j XOR to the parity of its matches.
  ghost predicate CorrectOn(radix: Radix, s: Shape, x: seq<Word>, y: seq<Word>, zA: Byte, zB: Byte, j: nat)
    requires |x| == s.batch * s.cmps && |y| == s.cmps && j < s.cmps
  {
    zA[0] != zB[0] <==> Matches(radix, s, x, y, j, s.batch) % 2 == 1
  }

  // With transfers of otLen bits no run ends in the exception, and whatever shares a run yields are right.
  ghost predicate AlwaysCorrect(radix: Radix, s: Shape, otLen: nat)
    requires Compatible(radix, s)
  {
    && radix.Supported()
    && forall x, y, masks, zA, zB, j :: |x| == s.batch * s.cmps && |y| == s.cmps && |masks| == s.Size() && 0 <= j < s.cmps ==>
         SharesHits(radix, s, x, y, masks, otLen, zA, zB, j) ==> CorrectOn(radix, s, x, y, zA, zB, j)
  }

  lemma {:induction false} LongMessagesSuffice(radix: Radix, s: Shape, otLen: nat, x: seq<Word>, y: seq<Word>,
                                               masks: seq<bool>, j: nat, n: nat)
    requires Compatible(radix, s) && |x| == s.batch * s.cmps && |y| == s.cmps && |masks| == s.Size() && j < s.cmps
    requires n <= s.batch <= otLen
    ensures Hits(radix, s, x, y, masks, otLen, j, n) == Matches(radix, s, x, y, j, n)
  {
    if n > 0 {
      LongMessagesSuffice(radix, s, otLen, x, y, masks, j, n - 1);
    }
  }

  // Comparison 0 of all-zero words under all-zero masks, with batch entry otLen changed to 1 when odd is set.
  lemma {:induction false} ShortMessagesMiss(radix: Radix, s: Shape, otLen: nat, x: seq<Word>, y: seq<Word>,
                                             masks: seq<bool>, odd: bool, n: nat)
    requires Compatible(radix, s) && |x| == s.batch * s.cmps && |y| == s.cmps && |masks| == s.Size() && 0 < s.cmps
    requires n <= s.batch && otLen < s.batch
    requires forall p :: 0 <= p < |masks| ==> !masks[p]
    requires forall k :: 0 <= k < |x| ==> x[k] == if odd && k == otLen then 1 else 0
    requires y[0] == 0
    ensures Hits(radix, s, x, y, masks, otLen, 0, n) == Min(n, otLen)
    ensures Matches(radix, s, x, y, 0, n) == if odd && n > otLen then n - 1 else n
  {
    if n > 0 {
      ShortMessagesMiss(radix, s, otLen, x, y, masks, odd, n - 1);
      hide *;
      ShortStep(radix, s, otLen, x, y, masks, odd, n);
    } else {
    }
  }

  lemma ShortStep(radix: Radix, s: Shape, otLen: nat, x: seq<Word>, y: seq<Word>, masks: seq<bool>, odd: bool, n: nat)
    requires Compatible(radix, s) && |x| == s.batch * s.cmps && |y| == s.cmps && |masks| == s.Size() && 0 < s.cmps
    requires 0 < n <= s.batch && otLen < s.batch
    requires forall p :: 0 <= p < |masks| ==> !masks[p]
    requires forall k :: 0 <= k < |x| ==> x[k] == if odd && k == otLen then 1 else 0
    requires y[0] == 0
    ensures Hits(radix, s, x, y, masks, otLen, 0, n)
            == Hits(radix, s, x, y, masks, otLen, 0, n - 1) + if n - 1 < otLen then 1 else 0
    ensures Matches(radix, s, x, y, 0, n) == Matches(radix, s, x, y, 0, n - 1) + if odd && n - 1 == otLen then 0 else 1
  {
    hide Hit, Shape.At, Pow2, Shape.Size;
    CellBound(0, n - 1, s.cmps, s.batch);
    BitsDiffer(radix);
    MissedHit(radix, s, otLen, x, y, masks, n - 1);
  }

  // 0 and 1 differ on the low bits.
  lemma BitsDiffer(radix: Radix)
    requires radix.Valid()
    ensures 0 % Pow2(radix.l) == 0 && 1 % Pow2(radix.l) == 1
  {
    assert Pow2(radix.l) == 2 * Pow2(radix.l - 1);
    DivModUnique(0, 0, 0, Pow2(radix.l));
    DivModUnique(1, 0, 1, Pow2(radix.l));
  }

  // Under all-zero masks an entry past the transferred bits is never a hit, and one before them is if its word is 0.
  lemma MissedHit(radix: Radix, s: Shape, otLen: nat, x: seq<Word>, y: seq<Word>, masks: seq<bool>, k: nat)
    requires Compatible(radix, s) && |x| == s.batch * s.cmps && |y| == s.cmps && |masks| == s.Size() && 0 < s.cmps
    requires k < s.batch && k < |x| && y[0] == 0 && (k < otLen ==> x[k] == 0) && forall p :: 0 <= p < |masks| ==> !masks[p]
    ensures Cell(0, k, s.batch) == k
    ensures Hit(radix, s, x, y, masks, otLen, k, 0) <==> k < otLen
  {
    hide Pow2, Shape.At;
    CellBound(0, k, s.cmps, s.batch);
    s.AtBound(k, 0, 0);
    if k >= otLen {
      assert !masks[s.At(k, 0, 0)];
    }
  }

  /**
   With transfers of otLen bits the batch protocol shares the parity of the matches on every input exactly when its last
   digit is supported and the batch is no larger than otLen. The code transfers 3 bits whatever the batch size.
   */
  lemma CorrectIffBatchFits(radix: Radix, s: Shape, otLen: nat)
    requires Compatible(radix, s) && s.cmps > 0
    ensures AlwaysCorrect(radix, s, otLen) <==> radix.l % radix.beta <= 4 && s.batch <= otLen
  {
    radix.SupportedIff();
    hide Hits, Matches, Shape.Size, Radix.Supported;
    if s.batch <= otLen {
      forall x, y, masks, zA, zB, j | |x| == s.batch * s.cmps && |y| == s.cmps && |masks| == s.Size() && 0 <= j < s.cmps
                                      && SharesHits(radix, s, x, y, masks, otLen, zA, zB, j)
        ensures CorrectOn(radix, s, x, y, zA, zB, j)
      {
        LongMessagesSuffice(radix, s, otLen, x, y, masks, j, s.batch);
      }
    } else {
      ShortBatchFails(radix, s, otLen);
    }
  }

  lemma ShortBatchFails(radix: Radix, s: Shape, otLen: nat)
    requires Compatible(radix, s) && s.cmps > 0 && otLen < s.batch
    ensures !AlwaysCorrect(radix, s, otLen)
  {
    hide Hits, Matches, Shape.Size;
    var odd := s.batch % 2 == otLen % 2;
    var x: seq<Word> := seq(s.batch * s.cmps, k => if odd && k == otLen then 1 else 0);
    var y: seq<Word> := seq(s.cmps, k => 0);
    var masks := seq(s.Size(), k => false);
    ShortMessagesMiss(radix, s, otLen, x, y, masks, odd, s.batch);
    var zA, zB := Flag(otLen % 2 == 1), ZERO;
    assert SharesHits(radix, s, x, y, masks, otLen, zA, zB, 0);
    assert !CorrectOn(radix, s, x, y, zA, zB, 0);
  }
}
