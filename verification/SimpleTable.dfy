/** The sender's simple table: every element in all of its bins. */
module SimpleTable {
  import opened Digits
  import opened Blocks
  import opened HashTableEntry

  // The keys that the first n functions put into bin b for element x, in the order of the functions.
  function KeysFor(h: Hashing, x: Word, b: nat, n: nat): seq<Block>
    requires h.Valid() && n <= h.functions
  {
    if n == 0 then []
    else KeysFor(h, x, b, n - 1) + if h.Address(x, n - 1) == b then [MakeBlock(n - 1, x)] else []
  }

  // Bin b after the first n elements.
  function Bin(h: Hashing, elements: seq<Word>, n: nat, b: nat): seq<Block>
    requires h.Valid() && n <= |elements|
  {
    if n == 0 then [] else Bin(h, elements, n - 1, b) + KeysFor(h, elements[n - 1], b, h.functions)
  }

  lemma {:induction false} KeyFor(h: Hashing, x: Word, b: nat, n: nat, key: Block)
    requires h.Valid() && n <= h.functions
    ensures key in KeysFor(h, x, b, n) <==> key.lo == x && key.hi < n && h.Address(x, key.hi) == b
  {
    if n > 0 {
      KeyFor(h, x, b, n - 1, key);
    }
  }

  // A key (f, x) is in bin b exactly when x was inserted and f sends it there.
  lemma {:induction false} KeyInBin(h: Hashing, elements: seq<Word>, n: nat, b: nat, key: Block)
    requires h.Valid() && n <= |elements|
    ensures key in Bin(h, elements, n, b) <==>
            key.lo in elements[..n] && key.hi < h.functions && h.Address(key.lo, key.hi) == b
  {
    if n > 0 {
      KeyInBin(h, elements, n - 1, b, key);
      KeyFor(h, elements[n - 1], b, h.functions, key);
      assert elements[..n] == elements[..n - 1] + [elements[n - 1]];
    }
  }

  // Each element contributes its keys in the order of the functions, each at most once.
  lemma {:induction false} KeysIncrease(h: Hashing, x: Word, b: nat, n: nat)
    requires h.Valid() && n <= h.functions
    ensures forall j, k :: 0 <= j < k < |KeysFor(h, x, b, n)| ==> KeysFor(h, x, b, n)[j].hi < KeysFor(h, x, b, n)[k].hi
  {
    if n > 0 {
      KeysIncrease(h, x, b, n - 1);
      var keys := KeysFor(h, x, b, n - 1);
      forall k | 0 <= k < |keys|
        ensures keys[k].hi < n - 1
      {
        KeyFor(h, x, b, n - 1, keys[k]);
      }
    }
  }

  lemma OneElementBin(h: Hashing, x: Word, b: nat)
    requires h.Valid()
    ensures forall j, k :: 0 <= j < k < |Bin(h, [x], 1, b)| ==> Bin(h, [x], 1, b)[j].hi < Bin(h, [x], 1, b)[k].hi
  {
    assert Bin(h, [x], 1, b) == Bin(h, [x], 0, b) + KeysFor(h, x, b, h.functions);
    KeysIncrease(h, x, b, h.functions);
  }

  // The elements contribute to a bin one after the other.
  lemma {:induction false} BinAppend(h: Hashing, xs: seq<Word>, ys: seq<Word>, n: nat, b: nat)
    requires h.Valid() && n <= |ys|
    ensures Bin(h, xs + ys, |xs| + n, b) == Bin(h, xs, |xs|, b) + Bin(h, ys, n, b)
  {
    if n == 0 {
      BinPrefix(h, xs, ys, |xs|, b);
    } else {
      BinAppend(h, xs, ys, n - 1, b);
      assert (xs + ys)[|xs| + n - 1] == ys[n - 1];
    }
  }

  lemma {:induction false} BinPrefix(h: Hashing, xs: seq<Word>, ys: seq<Word>, n: nat, b: nat)
    requires h.Valid() && n <= |xs|
    ensures Bin(h, xs + ys, n, b) == Bin(h, xs, n, b)
  {
    if n > 0 {
      BinPrefix(h, xs, ys, n - 1, b);
    }
  }

  // The exported keys of a bin of entries.
  function KeysOf(entries: seq<Entry>): (keys: seq<Block>)
    requires forall e :: e in entries ==> e.functionId < TWO_64
    ensures |keys| == |entries|
  {
    if entries == [] then [] else KeysOf(entries[..|entries| - 1]) + [entries[|entries| - 1].Key()]
  }

  // Key k is that of entry k: function number above, element below.
  lemma {:induction false} KeysOfAt(entries: seq<Entry>, k: nat)
    requires (forall e :: e in entries ==> e.functionId < TWO_64) && k < |entries|
    ensures KeysOf(entries)[k] == Block(entries[k].functionId, entries[k].value)
  {
    if k < |entries| - 1 {
      KeysOfAt(entries[..|entries| - 1], k);
    }
  }

  lemma KeysOfPush(entries: seq<Entry>, e: Entry)
    requires forall x :: x in entries + [e] ==> x.functionId < TWO_64
    ensures forall x :: x in entries ==> x in entries + [e]
    ensures KeysOf(entries + [e]) == KeysOf(entries) + [e.Key()]
  {
    assert forall x :: x in entries ==> x in entries + [e];
    assert (entries + [e])[..|entries|] == entries;
  }

  // A bin of entries that exports the keys keys.
  ghost predicate Exports(bin: seq<Entry>, keys: seq<Block>) {
    (forall e :: e in bin ==> e.functionId < TWO_64) && KeysOf(bin) == keys
  }

  // Every entry is that of an inserted element, in the bin of its current address.
  ghost predicate EntriesBelong(h: Hashing, elements: seq<Word>, table: seq<seq<Entry>>)
    requires h.Valid()
  {
    forall b, k :: 0 <= b < |table| && 0 <= k < |table[b]| ==>
      Belongs(h, elements, table[b][k]) && h.Address(table[b][k].value, table[b][k].functionId) == b
  }

  // The size of the largest bin is max.
  ghost predicate MaxBin(table: seq<seq<Entry>>, max: nat) {
    && (forall b :: 0 <= b < |table| ==> |table[b]| <= max)
    && (max > 0 ==> exists b :: 0 <= b < |table| && |table[b]| == max)
  }

  lemma PushExports(h: Hashing, elements: seq<Word>, n: nat, i: nat, b: nat, bin: seq<Entry>, e: Entry)
    requires h.Valid() && n < |elements| && i < h.functions
    requires e.functionId == i && e.value == elements[n]
    requires Exports(bin, Bin(h, elements, n, b) + KeysFor(h, elements[n], b, i))
    ensures h.Address(elements[n], i) == b ==> Exports(bin + [e], Bin(h, elements, n, b) + KeysFor(h, elements[n], b, i + 1))
    ensures h.Address(elements[n], i) != b ==> Exports(bin, Bin(h, elements, n, b) + KeysFor(h, elements[n], b, i + 1))
  {
    if h.Address(elements[n], i) == b {
      KeysOfPush(bin, e);
    }
  }

  lemma PushBelongs(h: Hashing, elements: seq<Word>, table: seq<seq<Entry>>, a: nat, e: Entry)
    requires h.Valid() && EntriesBelong(h, elements, table) && a < |table|
    requires Belongs(h, elements, e) && h.Address(e.value, e.functionId) == a
    ensures EntriesBelong(h, elements, table[a := table[a] + [e]])
  {
  }

  lemma PushMax(table: seq<seq<Entry>>, max: nat, a: nat, bin: seq<Entry>)
    requires a < |table| && MaxBin(table, max) && |bin| == |table[a]| + 1
    ensures MaxBin(table[a := bin], if |bin| > max then |bin| else max)
  {
    var table' := table[a := bin];
    if |bin| > max {
      assert |table'[a]| == |bin|;
    } else {
      var b :| 0 <= b < |table| && |table[b]| == max;
      assert b != a && |table'[b]| == max;
    }
  }

  // The number of columns of the exported bins.
  ghost predicate Columns(h: Hashing, elements: seq<Word>, max: nat)
    requires h.Valid()
  {
    && (forall b :: 0 <= b < h.bins ==> |Bin(h, elements, |elements|, b)| <= max)
    && exists b :: 0 <= b < h.bins && |Bin(h, elements, |elements|, b)| == max
  }

  // The 0 that the code returns for it is right exactly when nothing was inserted.
  lemma ZeroColumnsIff(h: Hashing, elements: seq<Word>)
    requires h.Valid()
    ensures Columns(h, elements, 0) <==> elements == []
  {
    if elements == [] {
      assert |Bin(h, elements, 0, 0)| == 0;
    } else {
      var x := elements[0];
      assert x in elements[..|elements|];
      KeyInBin(h, elements, |elements|, h.Address(x, 0), MakeBlock(0, x));
    }
  }

  // It is wrong already for a single element.
  lemma OneElementHasColumns(h: Hashing, x: Word)
    requires h.Valid()
    ensures MakeBlock(0, x) in Bin(h, [x], 1, h.Address(x, 0)) && !Columns(h, [x], 0)
  {
    KeyInBin(h, [x], 1, h.Address(x, 0), MakeBlock(0, x));
  }

  class SimpleTable {
    const hashing: Hashing
    var elements: seq<Word>
    var hashTable: seq<seq<Entry>>
    var maxObservedBinSize: nat
    var mapped: bool

    constructor (hashing: Hashing)
      ensures this.hashing == hashing && elements == [] && hashTable == [] && maxObservedBinSize == 0 && !mapped
    {
      this.hashing := hashing;
      elements, hashTable, maxObservedBinSize, mapped := [], [], 0, false;
    }

    method Insert(es: seq<Word>)
      modifies this`elements
      ensures elements == old(elements) + es
    {
      elements := elements + es;
    }

    // The keys of all bins, straight from the elements. The reported number of columns is always 0.
    method AsRaw2DVectorNoID() returns (raw: seq<seq<Block>>, maxColumns: nat)
      requires hashing.Valid()
      ensures |raw| == hashing.bins && maxColumns == 0
      ensures forall b :: 0 <= b < |raw| ==> raw[b] == Bin(hashing, elements, |elements|, b)
    {
      raw := seq(hashing.bins, b => []);
      maxColumns := 0;
      for elementId := 0 to |elements|
        invariant |raw| == hashing.bins
        invariant forall b :: 0 <= b < |raw| ==> raw[b] == Bin(hashing, elements, elementId, b)
      {
        var currentEntry := NewEntry(hashing, elements[elementId], elementId);
        for i := 0 to hashing.functions
          invariant |raw| == hashing.bins
          invariant forall b :: 0 <= b < |raw| ==>
                      raw[b] == Bin(hashing, elements, elementId, b) + KeysFor(hashing, elements[elementId], b, i)
        {
          var entryCopy := currentEntry.SetCurrentAddress(i);
          var a := entryCopy.GetAddressAt(i);
          raw := raw[a := raw[a] + [entryCopy.Key()]];
        }
      }
    }

    lemma StartsEmpty()
      requires hashing.Valid() && maxObservedBinSize == 0 && hashTable == seq(hashing.bins, b => [])
      ensures MaxBin(hashTable, maxObservedBinSize) && EntriesBelong(hashing, elements, hashTable)
      ensures forall b :: 0 <= b < |hashTable| ==> Exports(hashTable[b], Bin(hashing, elements, 0, b))
    {
    }

    // MapElementsToTable: the entries of each bin export the same keys, and the statistic is the largest bin.
    method MapElementsToTable()
      requires hashing.Valid() && !mapped && maxObservedBinSize == 0 && hashTable == seq(hashing.bins, b => [])
      modifies this`hashTable, this`maxObservedBinSize, this`mapped
      ensures mapped && |hashTable| == hashing.bins && MaxBin(hashTable, maxObservedBinSize)
      ensures EntriesBelong(hashing, elements, hashTable)
      ensures forall b :: 0 <= b < |hashTable| ==> |hashTable[b]| == |Bin(hashing, elements, |elements|, b)| <= maxObservedBinSize
      ensures maxObservedBinSize > 0 ==> exists b :: 0 <= b < |hashTable| && |hashTable[b]| == maxObservedBinSize
      ensures forall b, k :: 0 <= b < |hashTable| && 0 <= k < |hashTable[b]| ==>
                var e := hashTable[b][k];
                && e.globalId < |elements| && e.value == elements[e.globalId] && e.functionId < hashing.functions
                && Bin(hashing, elements, |elements|, b)[k] == Block(e.functionId, e.value)
      ensures forall b :: 0 <= b < |hashTable| ==> Exports(hashTable[b], Bin(hashing, elements, |elements|, b))
    {
      hide Exports, MaxBin, EntriesBelong;
      StartsEmpty();
      for elementId := 0 to |elements|
        invariant |hashTable| == hashing.bins && MaxBin(hashTable, maxObservedBinSize) && EntriesBelong(hashing, elements, hashTable)
        invariant forall b :: 0 <= b < |hashTable| ==> Exports(hashTable[b], Bin(hashing, elements, elementId, b))
      {
        var currentEntry := NewEntry(hashing, elements[elementId], elementId);
        assert forall b :: 0 <= b < |hashTable| ==>
            Bin(hashing, elements, elementId, b) + KeysFor(hashing, elements[elementId], b, 0) == Bin(hashing, elements, elementId, b);
        for i := 0 to hashing.functions
          invariant |hashTable| == hashing.bins && MaxBin(hashTable, maxObservedBinSize)
          invariant EntriesBelong(hashing, elements, hashTable)
          invariant forall b :: 0 <= b < |hashTable| ==>
                      Exports(hashTable[b], Bin(hashing, elements, elementId, b) + KeysFor(hashing, elements[elementId], b, i))
        {
          PushEntry(elementId, i, currentEntry.SetCurrentAddress(i));
        }
      }
      TableMeans();
      mapped := true;
    }

    // The table spelled out.
    lemma TableMeans()
      requires hashing.Valid() && |hashTable| == hashing.bins && MaxBin(hashTable, maxObservedBinSize)
      requires EntriesBelong(hashing, elements, hashTable)
      requires forall b :: 0 <= b < |hashTable| ==> Exports(hashTable[b], Bin(hashing, elements, |elements|, b))
      ensures forall b :: 0 <= b < |hashTable| ==> |hashTable[b]| == |Bin(hashing, elements, |elements|, b)| <= maxObservedBinSize
      ensures maxObservedBinSize > 0 ==> exists b :: 0 <= b < |hashTable| && |hashTable[b]| == maxObservedBinSize
      ensures forall b, k :: 0 <= b < |hashTable| && 0 <= k < |hashTable[b]| ==>
                var e := hashTable[b][k];
                && e.globalId < |elements| && e.value == elements[e.globalId] && e.functionId < hashing.functions
                && Bin(hashing, elements, |elements|, b)[k] == Block(e.functionId, e.value)
    {
      hide Bin;
      forall b, k | 0 <= b < |hashTable| && 0 <= k < |hashTable[b]|
        ensures Bin(hashing, elements, |elements|, b)[k] == Block(hashTable[b][k].functionId, hashTable[b][k].value)
      {
        KeysOfAt(hashTable[b], k);
      }
    }

    method PushEntry(elementId: nat, i: nat, entryCopy: Entry)
      requires hashing.Valid() && |hashTable| == hashing.bins && MaxBin(hashTable, maxObservedBinSize)
      requires EntriesBelong(hashing, elements, hashTable)
      requires elementId < |elements| && i < hashing.functions
      requires entryCopy == NewEntry(hashing, elements[elementId], elementId).SetCurrentAddress(i)
      requires forall b :: 0 <= b < |hashTable| ==>
                 Exports(hashTable[b], Bin(hashing, elements, elementId, b) + KeysFor(hashing, elements[elementId], b, i))
      modifies this`hashTable, this`maxObservedBinSize
      ensures |hashTable| == hashing.bins && MaxBin(hashTable, maxObservedBinSize) && EntriesBelong(hashing, elements, hashTable)
      ensures forall b :: 0 <= b < |hashTable| ==>
                Exports(hashTable[b], Bin(hashing, elements, elementId, b) + KeysFor(hashing, elements[elementId], b, i + 1))
    {
      hide Exports, MaxBin, Bin, KeysFor, EntriesBelong;
      var a := entryCopy.GetAddressAt(i);
      PushBelongs(hashing, elements, hashTable, a, entryCopy);
      PushMax(hashTable, maxObservedBinSize, a, hashTable[a] + [entryCopy]);
      forall b | 0 <= b < |hashTable|
        ensures Exports(hashTable[a := hashTable[a] + [entryCopy]][b],
                        Bin(hashing, elements, elementId, b) + KeysFor(hashing, elements[elementId], b, i + 1))
      {
        PushExports(hashing, elements, elementId, i, b, hashTable[b], entryCopy);
      }
      hashTable := hashTable[a := hashTable[a] + [entryCopy]];
      var binSize := |hashTable[a]|;
      if binSize > maxObservedBinSize {
        maxObservedBinSize := binSize;
      }
    }

    method GetNumOfElementsInBins() returns (counts: seq<nat>)
      ensures |counts| == |hashTable|
      ensures forall i :: 0 <= i < |counts| ==> counts[i] == |hashTable[i]|
    {
      counts := seq(|hashTable|, i => 0);
      for i := 0 to |hashTable|
        invariant |counts| == |hashTable|
        invariant forall j :: 0 <= j < i ==> counts[j] == |hashTable[j]|
      {
        counts := counts[i := |hashTable[i]|];
      }
    }
  }
}
