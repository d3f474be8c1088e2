/** Receiving a given number of bytes from a queue of blocks of arbitrary sizes. */
module Channel {
  import opened Digits

  // The bytes of the blocks, in order.
  function Stream(blocks: seq<seq<Octet>>): seq<Octet> {
    if blocks == [] then [] else blocks[0] + Stream(blocks[1..])
  }

  lemma {:induction false} StreamAppend(xs: seq<seq<Octet>>, ys: seq<seq<Octet>>)
    ensures Stream(xs + ys) == Stream(xs) + Stream(ys)
  {
    if xs == [] {
      assert xs + ys == ys;
    } else {
      hide Stream;
      StreamAppend(xs[1..], ys);
      assert (xs + ys)[1..] == xs[1..] + ys;
      StreamHead(xs);
      StreamHead(xs + ys);
    }
  }

  // What is left of the blocks once n bytes have been received: whole blocks are dropped as long as they do not
  // hold more than is still wanted; a block that does is shortened, an exhausted one is not kept.
  function Remaining(blocks: seq<seq<Octet>>, n: nat): seq<seq<Octet>>
    requires blocks != [] && n <= |Stream(blocks)|
  {
    if |blocks[0]| == n then blocks[1..]
    else if n < |blocks[0]| then [blocks[0][n..]] + blocks[1..]
    else
      assert Stream(blocks) == blocks[0] + Stream(blocks[1..]);
      Remaining(blocks[1..], n - |blocks[0]|)
  }

  lemma StreamHead(blocks: seq<seq<Octet>>)
    requires blocks != []
    ensures Stream(blocks) == blocks[0] + Stream(blocks[1..])
    ensures blocks[1..] == [] ==> Stream(blocks[1..]) == []
  {
  }

  lemma RemainingCases(blocks: seq<seq<Octet>>, n: nat)
    requires blocks != [] && n <= |Stream(blocks)|
    ensures |blocks[0]| == n ==> Remaining(blocks, n) == blocks[1..]
    ensures n < |blocks[0]| ==> Remaining(blocks, n) == [blocks[0][n..]] + blocks[1..]
    ensures n > |blocks[0]| ==> blocks[1..] != [] && n - |blocks[0]| <= |Stream(blocks[1..])|
                                && Remaining(blocks, n) == Remaining(blocks[1..], n - |blocks[0]|)
  {
    StreamHead(blocks);
  }

  // Receiving n bytes leaves exactly the rest of the stream.
  lemma {:induction false} RemainingStream(blocks: seq<seq<Octet>>, n: nat)
    requires blocks != [] && n <= |Stream(blocks)|
    ensures Stream(Remaining(blocks, n)) == Stream(blocks)[n..]
  {
    if |blocks[0]| == n {
    } else if n < |blocks[0]| {
      assert ([blocks[0][n..]] + blocks[1..])[1..] == blocks[1..];
    } else {
      RemainingStream(blocks[1..], n - |blocks[0]|);
    }
  }

  // Which blocks are left: those after the one in which the n bytes end, and the rest of that one if there is any.
  lemma {:induction false} RemainingIs(blocks: seq<seq<Octet>>, n: nat, k: nat)
    requires k < |blocks| && n <= |Stream(blocks)|
    requires (k == 0 || |Stream(blocks[..k])| < n) && |Stream(blocks[..k])| <= n <= |Stream(blocks[..k])| + |blocks[k]|
    ensures var m := n - |Stream(blocks[..k])|;
            Remaining(blocks, n) == if m == |blocks[k]| then blocks[k + 1..] else [blocks[k][m..]] + blocks[k + 1..]
  {
    if k == 0 {
    } else {
      assert blocks[..k][0] == blocks[0] && blocks[..k][1..] == blocks[1..][..k - 1];
      StreamHead(blocks[..k]);
      RemainingCases(blocks, n);
      hide Stream, Remaining;
      BlockPast(blocks, n, k);
      RemainingIs(blocks[1..], n - |blocks[0]|, k - 1);
      assert blocks[1..][k..] == blocks[k + 1..];
    }
  }

  // The first of several blocks needed is used up.
  lemma BlockPast(blocks: seq<seq<Octet>>, n: nat, k: nat)
    requires 0 < k < |blocks| && |Stream(blocks[..k])| < n <= |Stream(blocks)|
    ensures |blocks[0]| < n && n - |blocks[0]| <= |Stream(blocks[1..])|
    ensures k == 1 || |Stream(blocks[1..][..k - 1])| < n - |blocks[0]|
    ensures |Stream(blocks[1..][..k - 1])| == |Stream(blocks[..k])| - |blocks[0]|
  {
    assert blocks[..k][0] == blocks[0] && blocks[..k][1..] == blocks[1..][..k - 1];
    StreamHead(blocks);
    StreamHead(blocks[..k]);
  }

  // Two receives in a row take the stream on from where the first stopped.
  lemma ReceiveTwice(blocks: seq<seq<Octet>>, m: nat, n: nat)
    requires blocks != [] && m + n <= |Stream(blocks)| && Remaining(blocks, m) != []
    ensures n <= |Stream(Remaining(blocks, m))|
    ensures Stream(Remaining(blocks, m))[..n] == Stream(blocks)[m..m + n]
    ensures Stream(Remaining(Remaining(blocks, m), n)) == Stream(blocks)[m + n..]
  {
    RemainingStream(blocks, m);
    RemainingStream(Remaining(blocks, m), n);
  }

  // The receive gets past its waits: there is a block at every recursive call.
  predicate Completes(blocks: seq<seq<Octet>>, n: nat) {
    blocks != [] && (n <= |blocks[0]| || Completes(blocks[1..], n - |blocks[0]|))
  }

  // It does exactly when some block comes at all and the blocks hold enough bytes.
  lemma {:induction false} CompletesIff(blocks: seq<seq<Octet>>, n: nat)
    ensures Completes(blocks, n) <==> blocks != [] && n <= |Stream(blocks)|
  {
    if blocks != [] && n > |blocks[0]| {
      CompletesIff(blocks[1..], n - |blocks[0]|);
      StreamHead(blocks);
    }
  }

  class Channel {
    // m_qRcvedBlocks, and the blocks the receiving thread has yet to deliver, in order of arrival.
    var queue: seq<seq<Octet>>
    var pending: seq<seq<Octet>>

    constructor (queue: seq<seq<Octet>>, pending: seq<seq<Octet>>)
      ensures this.queue == queue && this.pending == pending
    {
      this.queue, this.pending := queue, pending;
    }

    ghost function Blocks(): seq<seq<Octet>>
      reads this
    {
      queue + pending
    }

    // Waiting on the event: the receiving thread delivers some blocks, at least one.
    method Wait()
      requires pending != []
      modifies this
      ensures queue != [] && |pending| < old(|pending|) && Blocks() == old(Blocks())
    {
      var k :| 1 <= k <= |pending|;
      queue, pending := queue + pending[..k], pending[k..];
    }

    // blocking_receive of one whole block.
    method ReceiveBlock() returns (block: seq<Octet>)
      requires Blocks() != []
      modifies this
      ensures block == old(Blocks())[0] && Blocks() == old(Blocks())[1..]
    {
      while |queue| == 0
        invariant Blocks() == old(Blocks())
        decreases |pending|
      {
        Wait();
      }
      block := queue[0];
      queue := queue[1..];
    }

    // The front block is taken off the queue, or shortened when it holds more than is wanted.
    method TakeFront(rcvsize: nat) returns (retBlock: seq<Octet>)
      requires Blocks() != []
      modifies this
      ensures retBlock == old(Blocks())[0]
      ensures Blocks() == if rcvsize < |retBlock| then [retBlock[rcvsize..]] + old(Blocks())[1..] else old(Blocks())[1..]
    {
      ghost var before := Blocks();
      while |queue| == 0
        invariant Blocks() == before
        decreases |pending|
      {
        Wait();
      }
      retBlock := queue[0];
      assert before[1..] == queue[1..] + pending;
      if rcvsize < |retBlock| {
        queue := [retBlock[rcvsize..]] + queue[1..];
        assert Blocks() == [retBlock[rcvsize..]] + before[1..];
      } else {
        queue := queue[1..];
      }
    }

    /**
     blocking_receive of rcvsize bytes into the buffer from start on. It returns when the blocks at hand and to come
     hold that many bytes and are not all used up beforehand; even rcvsize 0 waits for a block.
     */
    method Receive(rcvbuf: array<Octet>, start: nat, rcvsize: nat)
      requires start + rcvsize <= rcvbuf.Length
      requires Completes(Blocks(), rcvsize)
      modifies this, rcvbuf
      ensures old(Blocks()) != [] && rcvsize <= |Stream(old(Blocks()))| && Blocks() == Remaining(old(Blocks()), rcvsize)
      ensures rcvbuf[..] == old(rcvbuf[..])[..start] + Stream(old(Blocks()))[..rcvsize] + old(rcvbuf[..])[start + rcvsize..]
      decreases |Blocks()|
    {
      hide Stream, Remaining;
      ghost var before, buf := Blocks(), rcvbuf[..];
      CompletesIff(before, rcvsize);
      StreamHead(before);
      RemainingCases(before, rcvsize);
      var retBlock := TakeFront(rcvsize);
      var rcvedThisCall := |retBlock|;
      if rcvsize < rcvedThisCall {
        rcvedThisCall := rcvsize;
      } else if rcvsize > rcvedThisCall {
        Receive(rcvbuf, start + rcvedThisCall, rcvsize - rcvedThisCall);
      }
      PartsFit(buf, rcvbuf[..], start, rcvsize, retBlock, Stream(before[1..]));
      Copy(rcvbuf, start, retBlock[..rcvedThisCall]);
    }

    // The front block and what the recursive call received make up the wanted bytes.
    lemma PartsFit(buf: seq<Octet>, now: seq<Octet>, start: nat, n: nat, block: seq<Octet>, rest: seq<Octet>)
      requires start + n <= |buf| && n <= |block| + |rest|
      requires if n <= |block| then now == buf
               else now == buf[..start + |block|] + rest[..n - |block|] + buf[start + n..]
      ensures var m := if n <= |block| then n else |block|;
              now[..start] + block[..m] + now[start + m..] == buf[..start] + (block + rest)[..n] + buf[start + n..]
    {
    }
  }

  // memcpy.
  method Copy(dst: array<Octet>, start: nat, src: seq<Octet>)
    requires start + |src| <= dst.Length
    modifies dst
    ensures dst[..] == old(dst[..])[..start] + src + old(dst[..])[start + |src|..]
  {
    forall i | 0 <= i < |src| {
      dst[start + i] := src[i];
    }
  }
}
