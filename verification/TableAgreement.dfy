/** How the receiver's cuckoo table and the sender's simple table meet. */
module TableAgreement {
  import opened Digits
  import opened Blocks
  import opened HashTableEntry
  import opened Counting
  import CuckooTable
  import SimpleTable

  // An occupied slot's key is in the sender's bin of the same number exactly when the sender has the element.
  lemma SlotAgrees(h: Hashing, elements: seq<Word>, table: seq<Entry>, stash: seq<Entry>, sent: seq<Word>, i: nat, key: Block)
    requires h.Valid() && CuckooTable.WellPlaced(h, elements, table, stash) && CuckooTable.KeyAt(table, i, key)
    ensures key in SimpleTable.Bin(h, sent, |sent|, i) <==> key.lo in sent
  {
    SimpleTable.KeyInBin(h, sent, |sent|, i, key);
    assert sent[..|sent|] == sent;
  }

  // No key lies in two bins.
  lemma OneBin(h: Hashing, sent: seq<Word>, key: Block, b: nat, b': nat)
    requires h.Valid() && key in SimpleTable.Bin(h, sent, |sent|, b) && key in SimpleTable.Bin(h, sent, |sent|, b')
    ensures b == b'
  {
    SimpleTable.KeyInBin(h, sent, |sent|, b, key);
    SimpleTable.KeyInBin(h, sent, |sent|, b', key);
  }

  // No two slots hold the same key, even when elements repeat.
  lemma KeysDistinct(h: Hashing, elements: seq<Word>, table: seq<Entry>, stash: seq<Entry>, i: nat, j: nat, key: Block)
    requires h.Valid() && CuckooTable.WellPlaced(h, elements, table, stash)
    requires CuckooTable.KeyAt(table, i, key) && CuckooTable.KeyAt(table, j, key)
    ensures i == j
  {
  }

  // The copies of the selected ones among the first n elements.
  function SumCopies(entries: seq<Entry>, n: nat, p: nat -> bool): nat {
    if n == 0 then 0 else SumCopies(entries, n - 1, p) + if p(n - 1) then CuckooTable.Copies(entries, n - 1) else 0
  }

  lemma {:induction false} SumCopiesPush(entries: seq<Entry>, e: Entry, n: nat, p: nat -> bool)
    ensures SumCopies(entries + [e], n, p)
            == SumCopies(entries, n, p) + if !e.IsEmpty() && e.globalId < n && p(e.globalId) then 1 else 0
  {
    if n > 0 {
      SumCopiesPush(entries, e, n - 1, p);
      CuckooTable.CopiesPush(entries, e, n - 1);
    }
  }

  lemma {:induction false} SumCopiesNone(n: nat, p: nat -> bool)
    ensures SumCopies([], n, p) == 0
  {
    if n > 0 {
      SumCopiesNone(n - 1, p);
    }
  }

  // Summing copies over the elements is counting entries over the slots.
  lemma {:induction false} CopiesAreEntries(entries: seq<Entry>, n: nat, p: nat -> bool)
    requires forall e :: e in entries && !e.IsEmpty() ==> e.globalId < n
    ensures SumCopies(entries, n, p) == CountIf(entries, (e: Entry) => !e.IsEmpty() && p(e.globalId))
  {
    if entries == [] {
      SumCopiesNone(n, p);
    } else {
      var k := |entries| - 1;
      assert entries == entries[..k] + [entries[k]];
      CopiesAreEntries(entries[..k], n, p);
      SumCopiesPush(entries[..k], entries[k], n, p);
    }
  }

  lemma {:induction false} CopiesAreElements(elements: seq<Word>, entries: seq<Entry>, n: nat, p: nat -> bool, q: Word -> bool)
    requires n <= |elements|
    requires forall id :: 0 <= id < n ==> CuckooTable.Copies(entries, id) == if elements[id] != DUMMY_ELEMENT then 1 else 0
    requires forall id :: 0 <= id < n ==> p(id) == q(elements[id])
    ensures SumCopies(entries, n, p) == CountIf(elements[..n], x => x != DUMMY_ELEMENT && q(x))
  {
    if n > 0 {
      CopiesAreElements(elements, entries, n - 1, p, q);
      assert elements[..n][..n - 1] == elements[..n - 1];
    }
  }

  lemma {:induction false} CopiesAppend(s: seq<Entry>, t: seq<Entry>, id: nat)
    ensures CuckooTable.Copies(s + t, id) == CuckooTable.Copies(s, id) + CuckooTable.Copies(t, id)
  {
    if t == [] {
      assert s + t == s;
    } else {
      CopiesAppend(s, t[..|t| - 1], id);
      assert (s + t)[..|s + t| - 1] == s + t[..|t| - 1];
    }
  }

  /**
   The occupied slots and the stashed entries whose element satisfies q are as many as the non-dummy inserted elements
   that do, repetitions included. With q as membership in the sender's set and an empty stash this is the number of
   matching bins.
   */
  lemma MatchingSlots(h: Hashing, elements: seq<Word>, table: seq<Entry>, stash: seq<Entry>, q: Word -> bool)
    requires h.Valid() && CuckooTable.WellPlaced(h, elements, table, stash)
    requires CuckooTable.ConservedAll(elements, table, stash, |elements|, EMPTY_ENTRY)
    ensures CountIf(table, (e: Entry) => !e.IsEmpty() && q(e.value)) + CountIf(stash, (e: Entry) => !e.IsEmpty() && q(e.value))
            == CountIf(elements, x => x != DUMMY_ELEMENT && q(x))
  {
    hide CountIf, SumCopies, CuckooTable.Copies;
    var n, all := |elements|, table + stash;
    var p := (id: nat) => id < n && q(elements[id]);
    forall id | 0 <= id < n
      ensures CuckooTable.Copies(all, id) == if elements[id] != DUMMY_ELEMENT then 1 else 0
    {
      assert CuckooTable.ConservedAt(elements, table, stash, n, EMPTY_ENTRY, id);
      CopiesAppend(table, stash, id);
    }
    CopiesAreElements(elements, all, n, p, q);
    assert elements[..n] == elements;
    CopiesAreEntries(all, n, p);
    CountIfAgree(all, (e: Entry) => !e.IsEmpty() && p(e.globalId), (e: Entry) => !e.IsEmpty() && q(e.value));
    CountIfAppend(table, stash, (e: Entry) => !e.IsEmpty() && q(e.value));
  }
}
