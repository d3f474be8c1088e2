/** Entries of both hash tables, and the hash positions they are stored at. */
module HashTableEntry {
  import opened Arithmetic
  import opened Digits
  import opened Blocks

  // The value that marks an empty slot.
  const DUMMY_ELEMENT: Word := TWO_64 - 1

  // HashToPosition of a table, with the number of functions and of bins it is used with.
  datatype Hashing = Hashing(positions: Word -> seq<nat>, functions: nat, bins: nat) {
    ghost predicate Valid() {
      0 < functions < TWO_64 && 0 < bins && forall x :: |positions(x)| == functions
    }

    // The bin that function f sends x to.
    function Address(x: Word, f: nat): (a: nat)
      requires Valid() && f < functions
      ensures a < bins && (positions(x)[f] - a) % bins == 0
    {
      RemainderCongruent(positions(x)[f], bins);
      positions(x)[f] % bins
    }
  }

  datatype Entry = Entry(value: Word, globalId: nat, functions: nat, bins: nat, functionId: nat, addresses: seq<nat>) {
    predicate IsEmpty() {
      value == DUMMY_ELEMENT
    }

    function GetElement(): Word {
      value
    }

    predicate Addressable() {
      bins > 0 && functionId < functions == |addresses|
    }

    function GetAddressAt(f: nat): (a: nat)
      requires bins > 0 && f < |addresses|
      ensures a < bins && (addresses[f] - a) % bins == 0
    {
      RemainderCongruent(addresses[f], bins);
      addresses[f] % bins
    }

    function GetCurrentAddress(): (a: nat)
      requires Addressable()
      ensures a < bins && (addresses[functionId] - a) % bins == 0
    {
      RemainderCongruent(addresses[functionId], bins);
      addresses[functionId] % bins
    }

    function SetPossibleAddresses(addresses': seq<nat>): Entry {
      this.(addresses := addresses')
    }

    function SetCurrentAddress(f: nat): Entry {
      this.(functionId := f)
    }

    function IterateFunctionNumber(): Entry
      requires functions > 0
    {
      this.(functionId := (functionId + 1) % functions)
    }

    // The key a table exports for the entry: function number above, element below.
    function Key(): Block
      requires functionId < TWO_64
    {
      MakeBlock(functionId, value)
    }
  }

  // A position below the bin count is its own address.
  lemma OwnAddress(h: Hashing, e: Entry, x: Word, f: nat)
    requires h.Valid() && f < h.functions && e.Addressable() && f < |e.addresses|
    ensures h.positions(x)[f] < h.bins ==> h.Address(x, f) == h.positions(x)[f]
    ensures e.addresses[f] < e.bins ==> e.GetAddressAt(f) == e.addresses[f]
    ensures e.addresses[e.functionId] < e.bins ==> e.GetCurrentAddress() == e.addresses[e.functionId]
  {
    hide Hashing.Address, Entry.GetAddressAt, Entry.GetCurrentAddress;
    CongruentBelow(h.positions(x)[f], h.Address(x, f), 0, h.bins);
    CongruentBelow(e.addresses[f], e.GetAddressAt(f), 0, e.bins);
    CongruentBelow(e.addresses[e.functionId], e.GetCurrentAddress(), 0, e.bins);
  }

  // Positions that differ by a multiple of the bin count have the same address.
  lemma SameAddress(h: Hashing, h': Hashing, x: Word, f: nat, q: nat)
    requires h.Valid() && h'.Valid() && f < h.functions && f < h'.functions && h.bins == h'.bins
    requires h'.positions(x)[f] == h.positions(x)[f] + q * h.bins
    ensures h'.Address(x, f) == h.Address(x, f)
  {
    hide Hashing.Address;
    var n, p, a, a' := h.bins, h.positions(x)[f], h.Address(x, f), h'.Address(x, f);
    CongruentBelow(p, a, 0, n);
    CongruentBelow(p + q * n, a', 0, n);
    CongruentBelow(p + q * n, a, q, n);
  }

  // An address congruent to a position is its remainder.
  lemma CongruentBelow(p: nat, a: nat, q: nat, n: nat)
    requires n > 0 && a < n && (p - a - q * n) % n == 0
    ensures p % n == a && (p < n ==> a == p)
  {
    var t := (p - a - q * n) / n + q;
    assert p == t * n + a;
    if t < 0 {
      assert false;
    }
    DivModUnique(p, t, a, n);
    if p < n {
      DivModUnique(p, 0, p, n);
    }
  }

  // The dummy is the largest word.
  lemma DummyIsLargest(x: Word)
    ensures x <= DUMMY_ELEMENT && (x == DUMMY_ELEMENT <==> x + 1 == TWO_64)
  {
  }

  // The default constructor.
  const EMPTY_ENTRY := Entry(DUMMY_ELEMENT, DUMMY_ELEMENT, 0, 0, 0, [])

  // The entry made for element number id.
  function NewEntry(h: Hashing, value: Word, id: nat): Entry {
    Entry(value, id, h.functions, h.bins, 0, []).SetPossibleAddresses(h.positions(value))
  }

  // The entry carries element number globalId and its own hash positions.
  ghost predicate Belongs(h: Hashing, elements: seq<Word>, e: Entry) {
    && e.globalId < |elements| && e.value == elements[e.globalId]
    && e.functions == h.functions && e.bins == h.bins && e.functionId < h.functions
    && e.addresses == h.positions(e.value)
  }

  lemma BelongingAddress(h: Hashing, elements: seq<Word>, e: Entry)
    requires h.Valid() && Belongs(h, elements, e)
    ensures e.Addressable() && e.GetCurrentAddress() == h.Address(e.value, e.functionId) < h.bins
  {
  }

  // The entry after n evictions.
  function Iterated(e: Entry, n: nat): (r: Entry)
    requires e.functions > 0
    ensures r.functions == e.functions
  {
    if n == 0 then e else Iterated(e, n - 1).IterateFunctionNumber()
  }

  // Evictions walk through the functions cyclically and change nothing else.
  lemma {:induction false} EvictionsCycle(e: Entry, n: nat)
    requires e.functionId < e.functions
    ensures Iterated(e, n) == e.SetCurrentAddress((e.functionId + n) % e.functions)
  {
    if n > 0 {
      EvictionsCycle(e, n - 1);
      NextMod(e.functionId + n - 1, e.functions);
    }
  }

  // Every function is tried within as many evictions as there are functions, which end where they began.
  lemma EveryFunctionTried(e: Entry, f: nat)
    requires e.functionId < e.functions && f < e.functions
    ensures exists n :: 0 <= n < e.functions && Iterated(e, n).functionId == f
    ensures Iterated(e, e.functions) == e
  {
    hide Iterated;
    var n := if e.functionId <= f then f - e.functionId else f + e.functions - e.functionId;
    AroundMod(e.functionId, e.functions);
    AroundMod(f, e.functions);
    EvictionsCycle(e, e.functions);
    EvictionsCycle(e, n);
    assert Iterated(e, n).functionId == f;
  }

  lemma AroundMod(f: nat, m: nat)
    requires f < m
    ensures f % m == f && (f + m) % m == f
  {
    DivModUnique(f, 0, f, m);
    DivModUnique(f + m, 1, f, m);
  }

  lemma NextMod(a: nat, m: nat)
    requires m > 0
    ensures (a % m + 1) % m == (a + 1) % m
  {
    var q, r := a / m, a % m;
    assert a == q * m + r;
    if r + 1 == m {
      assert (q + 1) * m == q * m + m;
      DivModUnique(a + 1, q + 1, 0, m);
      DivModUnique(r + 1, 1, 0, m);
    } else {
      DivModUnique(a + 1, q, r + 1, m);
      DivModUnique(r + 1, 0, r + 1, m);
    }
  }
}
