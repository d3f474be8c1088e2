/** Adding up payloads under equality shares: one masked oblivious transfer per bin, and the two running sums. */
module MaskedSum {
  import opened Digits
  import opened Blocks
  import opened LaneArithmetic

  // The payload of bin i: that of its key among the first k active bins, else 0.
  function PayAt(idxs: seq<nat>, keys: seq<Block>, payloads: map<Word, Word>, i: nat, k: nat): Word
    requires k <= |idxs| == |keys| && forall j :: 0 <= j < |keys| ==> keys[j].lo in payloads
  {
    if k == 0 then 0
    else if idxs[k - 1] == i then payloads[keys[k - 1].lo]
    else PayAt(idxs, keys, payloads, i, k - 1)
  }

  predicate Increasing(idxs: seq<nat>) {
    forall j, k :: 0 <= j < k < |idxs| ==> idxs[j] < idxs[k]
  }

  lemma {:induction false} PayAtHit(idxs: seq<nat>, keys: seq<Block>, payloads: map<Word, Word>, j: nat, k: nat)
    requires j < k <= |idxs| == |keys| && Increasing(idxs) && forall j :: 0 <= j < |keys| ==> keys[j].lo in payloads
    ensures PayAt(idxs, keys, payloads, idxs[j], k) == payloads[keys[j].lo]
  {
    if j < k - 1 {
      PayAtHit(idxs, keys, payloads, j, k - 1);
    }
  }

  lemma {:induction false} PayAtMiss(idxs: seq<nat>, keys: seq<Block>, payloads: map<Word, Word>, i: nat, k: nat)
    requires k <= |idxs| == |keys| && forall j :: 0 <= j < |keys| ==> keys[j].lo in payloads
    requires i !in idxs[..k]
    ensures PayAt(idxs, keys, payloads, i, k) == 0
  {
    if k > 0 {
      assert idxs[..k] == idxs[..k - 1] + [idxs[k - 1]];
      PayAtMiss(idxs, keys, payloads, i, k - 1);
    }
  }

  // Message b of a pair.
  function Pick(b: bool, m0: Block, m1: Block): Block {
    if b then m1 else m0
  }

  // The pair offered for bin i: the mask at the receiver's own share, mask plus payload at the other.
  predicate Offered(ans: bool, r: Block, pay: Word, m0: Block, m1: Block) {
    Pick(ans, m0, m1) == r && Pick(!ans, m0, m1) == AddWithCarry(r, MakeBlock(0, pay))
  }

  // The merge loop: j walks through the active bins as i walks through all bins.
  method BuildTransfers(ans: seq<bool>, idxs: seq<nat>, keys: seq<Block>, payloads: map<Word, Word>, r: seq<Block>)
    returns (ot0: seq<Block>, ot1: seq<Block>)
    requires |r| == |ans| && |keys| == |idxs| && Increasing(idxs) && forall k :: 0 <= k < |idxs| ==> idxs[k] < |ans|
    requires forall j :: 0 <= j < |keys| ==> keys[j].lo in payloads
    ensures |ot0| == |ot1| == |ans|
    ensures forall i :: 0 <= i < |ans| ==> Offered(ans[i], r[i], PayAt(idxs, keys, payloads, i, |idxs|), ot0[i], ot1[i])
  {
    hide AddWithCarry, PayAt;
    ot0, ot1 := [], [];
    var j := 0;
    for i := 0 to |ans|
      invariant |ot0| == |ot1| == i && j <= |idxs|
      invariant (forall k :: 0 <= k < j ==> idxs[k] < i) && (forall k :: j <= k < |idxs| ==> i <= idxs[k])
      invariant forall i' :: 0 <= i' < i ==> Offered(ans[i'], r[i'], PayAt(idxs, keys, payloads, i', |idxs|), ot0[i'], ot1[i'])
    {
      var block0 := ZERO_BLOCK;
      if j < |idxs| && i == idxs[j] {
        PayAtHit(idxs, keys, payloads, j, |idxs|);
        block0 := MakeBlock(0, payloads[keys[j].lo]);
        j := j + 1;
      } else {
        assert idxs[..|idxs|] == idxs;
        PayAtMiss(idxs, keys, payloads, i, |idxs|);
      }
      var other := AddWithCarry(r[i], block0);
      ot0, ot1 := ot0 + [if ans[i] then other else r[i]], ot1 + [if ans[i] then r[i] else other];
    }
  }

  function SumTo(blocks: seq<Block>, n: nat): nat
    requires n <= |blocks|
  {
    if n == 0 then 0 else SumTo(blocks, n - 1) + Value(blocks[n - 1])
  }

  // The running 128-bit sum over the first n blocks.
  method AddUp(blocks: seq<Block>, n: nat) returns (sum: Block)
    requires n <= |blocks|
    ensures Value(sum) == SumTo(blocks, n) % TWO_128
  {
    hide AddWithCarry, Value;
    ZeroValue();
    sum := ZERO_BLOCK;
    for i := 0 to n
      invariant Value(sum) == SumTo(blocks, i) % TWO_128
    {
      AddCorrect(sum, blocks[i]);
      sum := AddWithCarry(sum, blocks[i]);
    }
  }

  lemma ZeroValue()
    ensures Value(ZERO_BLOCK) == 0
  {
  }

  // The payloads of the bins whose two shares differ.
  function Gain(ansR: seq<bool>, ansS: seq<bool>, pay: nat -> Word, n: nat): nat
    requires n <= |ansR| == |ansS|
  {
    if n == 0 then 0 else Gain(ansR, ansS, pay, n - 1) + if ansR[n - 1] != ansS[n - 1] then pay(n - 1) else 0
  }

  // What the sender picks differs from the masks by exactly the gained payloads, modulo 2^128.
  lemma {:induction false} PickedSum(ansR: seq<bool>, ansS: seq<bool>, r: seq<Block>, pay: nat -> Word,
                                     picked: seq<Block>, n: nat)
    requires n <= |ansR| == |ansS| == |r| == |picked|
    requires forall i :: 0 <= i < n ==>
               picked[i] == if ansS[i] == ansR[i] then r[i] else AddWithCarry(r[i], MakeBlock(0, pay(i)))
    ensures (SumTo(picked, n) - SumTo(r, n) - Gain(ansR, ansS, pay, n)) % TWO_128 == 0
  {
    hide AddWithCarry, Value;
    if n > 0 {
      PickedSum(ansR, ansS, r, pay, picked, n - 1);
      AddCorrect(r[n - 1], MakeBlock(0, pay(n - 1)));
      LowValue(pay(n - 1));
    }
  }

  lemma LowValue(w: Word)
    ensures Value(MakeBlock(0, w)) == w
  {
  }

  lemma RemaindersDiffer(a: nat, b: nat, g: nat)
    requires (a - b - g) % TWO_128 == 0
    ensures (a % TWO_128 - b % TWO_128) % TWO_128 == g % TWO_128
  {
    var q := (a - b - g) / TWO_128 - a / TWO_128 + b / TWO_128;
    assert a % TWO_128 - b % TWO_128 == g + q * TWO_128;
    var s, t := g % TWO_128, g / TWO_128 + q;
    assert a % TWO_128 - b % TWO_128 == s + t * TWO_128;
  }

  /**
   For all masks and payloads, the sender's sum minus the receiver's is the sum of the payloads whose equality
   shares differ, modulo 2^128.
   */
  lemma MaskedDifference(ansR: seq<bool>, ansS: seq<bool>, r: seq<Block>, pay: nat -> Word,
                         picked: seq<Block>, n: nat, sumS: Block, sumR: Block)
    requires n <= |ansR| == |ansS| == |r| == |picked|
    requires forall i :: 0 <= i < n ==>
               picked[i] == if ansS[i] == ansR[i] then r[i] else AddWithCarry(r[i], MakeBlock(0, pay(i)))
    requires Value(sumS) == SumTo(picked, n) % TWO_128 && Value(sumR) == SumTo(r, n) % TWO_128
    ensures Value(SubWithBorrow(sumS, sumR)) == Gain(ansR, ansS, pay, n) % TWO_128
  {
    hide AddWithCarry, SubWithBorrow, Value, SumTo, Gain;
    PickedSum(ansR, ansS, r, pay, picked, n);
    SubCorrect(sumS, sumR);
    RemaindersDiffer(SumTo(picked, n), SumTo(r, n), Gain(ansR, ansS, pay, n));
  }
}
