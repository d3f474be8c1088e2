/** The receiver's cuckoo table: insertion by eviction with a stash. */
module CuckooTable {
  import opened Digits
  import opened Blocks
  import opened HashTableEntry

  // 1 if e holds element number id.
  function Has(e: Entry, id: nat): nat {
    if !e.IsEmpty() && e.globalId == id then 1 else 0
  }

  // How many of the entries hold element number id.
  function Copies(entries: seq<Entry>, id: nat): nat {
    if entries == [] then 0 else Copies(entries[..|entries| - 1], id) + Has(entries[|entries| - 1], id)
  }

  lemma {:induction false} CopiesUpdate(s: seq<Entry>, i: nat, e: Entry, id: nat)
    requires i < |s|
    ensures Copies(s[i := e], id) + Has(s[i], id) == Copies(s, id) + Has(e, id)
  {
    var n := |s| - 1;
    var t := s[i := e];
    if i == n {
      assert t[..n] == s[..n];
    } else {
      CopiesUpdate(s[..n], i, e, id);
      assert t[..n] == s[..n][i := e];
    }
  }

  lemma CopiesPush(s: seq<Entry>, e: Entry, id: nat)
    ensures Copies(s + [e], id) == Copies(s, id) + Has(e, id)
  {
    assert (s + [e])[..|s|] == s;
  }

  lemma {:induction false} CopiesNone(n: nat, id: nat)
    ensures Copies(seq(n, i => EMPTY_ENTRY), id) == 0
  {
    if n > 0 {
      CopiesNone(n - 1, id);
      assert seq(n, i => EMPTY_ENTRY)[..n - 1] == seq(n - 1, i => EMPTY_ENTRY);
    }
  }

  // Element number id is one of the first n, and not the dummy.
  predicate Inserted(elements: seq<Word>, n: nat, id: nat)
    requires n <= |elements|
  {
    id < n && elements[id] != DUMMY_ELEMENT
  }

  // Table, stash and the entry in hand together hold element number id once if it was inserted, else not at all.
  predicate ConservedAt(elements: seq<Word>, table: seq<Entry>, stash: seq<Entry>, n: nat, hand: Entry, id: nat)
    requires n <= |elements|
  {
    Copies(table, id) + Copies(stash, id) + Has(hand, id) == if Inserted(elements, n, id) then 1 else 0
  }

  // Every inserted element is held exactly once; dummies leave no trace.
  ghost predicate ConservedAll(elements: seq<Word>, table: seq<Entry>, stash: seq<Entry>, n: nat, hand: Entry)
    requires n <= |elements|
  {
    forall id: nat :: ConservedAt(elements, table, stash, n, hand, id)
  }

  lemma SwapConserves(elements: seq<Word>, table: seq<Entry>, stash: seq<Entry>, n: nat, a: nat, hand: Entry)
    requires n <= |elements| && a < |table|
    requires ConservedAll(elements, table, stash, n, hand)
    ensures ConservedAll(elements, table[a := hand], stash, n, table[a])
  {
    var table', hand' := table[a := hand], table[a];
    forall id: nat
      ensures ConservedAt(elements, table', stash, n, hand', id)
    {
      assert ConservedAt(elements, table, stash, n, hand, id);
      CopiesUpdate(table, a, hand, id);
    }
  }

  lemma StashConserves(elements: seq<Word>, table: seq<Entry>, stash: seq<Entry>, n: nat, hand: Entry)
    requires n <= |elements|
    requires ConservedAll(elements, table, stash, n, hand)
    ensures ConservedAll(elements, table, stash + [hand], n, EMPTY_ENTRY)
  {
    var stash' := stash + [hand];
    forall id: nat
      ensures ConservedAt(elements, table, stash', n, EMPTY_ENTRY, id)
    {
      assert ConservedAt(elements, table, stash, n, hand, id);
      CopiesPush(stash, hand, id);
    }
  }

  // Taking the next element in hand.
  lemma TakeConserves(h: Hashing, elements: seq<Word>, table: seq<Entry>, stash: seq<Entry>, id: nat)
    requires id < |elements|
    requires ConservedAll(elements, table, stash, id, EMPTY_ENTRY)
    ensures ConservedAll(elements, table, stash, id + 1, NewEntry(h, elements[id], id))
  {
    var hand, n := NewEntry(h, elements[id], id), id + 1;
    forall i: nat
      ensures ConservedAt(elements, table, stash, n, hand, i)
    {
      assert ConservedAt(elements, table, stash, id, EMPTY_ENTRY, i);
    }
  }

  // An entry is conserved whatever its current function, and empty entries are all alike.
  lemma SameHand(elements: seq<Word>, table: seq<Entry>, stash: seq<Entry>, n: nat, hand: Entry, hand': Entry)
    requires n <= |elements|
    requires ConservedAll(elements, table, stash, n, hand)
    requires (hand.IsEmpty() && hand'.IsEmpty()) || (hand.value == hand'.value && hand.globalId == hand'.globalId)
    ensures ConservedAll(elements, table, stash, n, hand')
  {
    forall id: nat
      ensures ConservedAt(elements, table, stash, n, hand', id)
    {
      assert ConservedAt(elements, table, stash, n, hand, id);
    }
  }

  // The first n slots that are not empty.
  function Occupied(table: seq<Entry>, n: nat): seq<nat>
    requires n <= |table|
  {
    if n == 0 then [] else Occupied(table, n - 1) + if table[n - 1].IsEmpty() then [] else [n - 1]
  }

  predicate KeyAt(table: seq<Entry>, i: nat, key: Block) {
    i < |table| && table[i].functionId < TWO_64 && !table[i].IsEmpty() && key == table[i].Key()
  }

  // The key exported for an entry.
  function KeyOf(e: Entry): Block {
    if e.functionId < TWO_64 then e.Key() else ZERO_BLOCK
  }

  // The keys of the first n slots, empty ones left out.
  function ExportedKeys(table: seq<Entry>, n: nat): (keys: seq<Block>)
    requires n <= |table|
    ensures |keys| == |Occupied(table, n)|
  {
    if n == 0 then [] else ExportedKeys(table, n - 1) + if table[n - 1].IsEmpty() then [] else [KeyOf(table[n - 1])]
  }

  // Key k belongs to the k-th occupied slot: function number above, element below.
  lemma {:induction false} ExportedAt(table: seq<Entry>, n: nat, k: nat)
    requires n <= |table| && k < |Occupied(table, n)|
    ensures Occupied(table, n)[k] < n && (var e := table[Occupied(table, n)[k]];
            e.functionId < TWO_64 ==> ExportedKeys(table, n)[k] == Block(e.functionId, e.value))
  {
    if k < |Occupied(table, n - 1)| {
      ExportedAt(table, n - 1, k);
    }
  }

  // They are listed once each, in increasing order.
  lemma {:induction false} OccupiedExact(table: seq<Entry>, n: nat)
    requires n <= |table|
    ensures forall j, k :: 0 <= j < k < |Occupied(table, n)| ==> Occupied(table, n)[j] < Occupied(table, n)[k]
    ensures forall k :: 0 <= k < |Occupied(table, n)| ==> Occupied(table, n)[k] < n && !table[Occupied(table, n)[k]].IsEmpty()
    ensures forall i :: 0 <= i < n && !table[i].IsEmpty() ==> i in Occupied(table, n)
  {
    if n > 0 {
      OccupiedExact(table, n - 1);
    }
  }

  // Every non-empty slot holds an element's entry at the address of its current function; stashed entries hold elements.
  ghost predicate WellPlaced(h: Hashing, elements: seq<Word>, table: seq<Entry>, stash: seq<Entry>)
    requires h.Valid()
  {
    && |table| == h.bins
    && (forall i :: 0 <= i < |table| && !table[i].IsEmpty() ==>
          Belongs(h, elements, table[i]) && h.Address(table[i].value, table[i].functionId) == i)
    && (forall i :: 0 <= i < |stash| ==> !stash[i].IsEmpty() && Belongs(h, elements, stash[i]))
  }

  // An entry of the given hashing can be placed.
  ghost predicate Placeable(h: Hashing, e: Entry) {
    e.bins == h.bins && e.functions == h.functions && e.Addressable()
  }

  /** The table and the entry left in hand after an eviction chain, and the number of moves it took. */
  datatype Chained = Chained(table: seq<Entry>, hand: Entry, moves: nat)

  // The eviction chain: an entry in hand moves to its next function's bin and takes out whatever is there, until the
  // hand is empty or the budget of moves is used up.
  ghost function Chain(h: Hashing, table: seq<Entry>, hand: Entry, budget: nat): (c: Chained)
    requires h.Valid() && |table| == h.bins
    ensures |c.table| == h.bins && c.moves <= budget
    decreases budget
  {
    if hand.IsEmpty() || budget == 0 || !Placeable(h, hand) then Chained(table, hand, 0)
    else
      var moved := hand.IterateFunctionNumber();
      var a := moved.GetCurrentAddress();
      var c := Chain(h, table[a := moved], table[a], budget - 1);
      c.(moves := c.moves + 1)
  }

  // Inserting element number id.
  ghost function Inserting(h: Hashing, table: seq<Entry>, value: Word, id: nat, budget: nat): (c: Chained)
    requires h.Valid() && |table| == h.bins
    ensures |c.table| == h.bins && c.moves <= budget
  {
    var a := h.Address(value, 0);
    Chain(h, table[a := NewEntry(h, value, id)], table[a], budget)
  }

  /** Table and stash after mapping, and the number of moves in all. */
  datatype Mapping = Mapping(table: seq<Entry>, stash: seq<Entry>, moves: nat)

  // Mapping the first n elements: one insertion after the other, each with limit + 1 moves at most.
  ghost function Mapped(h: Hashing, elements: seq<Word>, limit: nat, n: nat): (m: Mapping)
    requires h.Valid() && n <= |elements|
    ensures |m.table| == h.bins
  {
    if n == 0 then Mapping(seq(h.bins, i => EMPTY_ENTRY), [], 0)
    else
      var m := Mapped(h, elements, limit, n - 1);
      var c := Inserting(h, m.table, elements[n - 1], n - 1, limit + 1);
      Mapping(c.table, if c.hand.IsEmpty() then m.stash else m.stash + [c.hand], m.moves + c.moves)
  }

  // Every insertion has stayed within its budget of limit + 1 moves, and every stashed entry has cost all of it.
  predicate WithinBudget(stashed: nat, moves: nat, n: nat, limit: nat) {
    stashed <= n && stashed * (limit + 1) <= moves <= n * (limit + 1)
  }

  lemma BudgetMeans(stashed: nat, moves: nat, n: nat, limit: nat)
    requires WithinBudget(stashed, moves, n, limit)
    ensures stashed * (limit + 1) <= moves <= n * (limit + 1)
  {
  }

  lemma BudgetNext(stashed: nat, moves: nat, n: nat, limit: nat, cost: nat)
    requires WithinBudget(stashed, moves, n, limit) && cost <= limit + 1
    ensures WithinBudget(stashed, moves + cost, n + 1, limit)
    ensures cost == limit + 1 ==> WithinBudget(stashed + 1, moves + cost, n + 1, limit)
  {
    assert (n + 1) * (limit + 1) == n * (limit + 1) + (limit + 1);
    assert (stashed + 1) * (limit + 1) == stashed * (limit + 1) + (limit + 1);
  }

  lemma MappedNext(h: Hashing, elements: seq<Word>, limit: nat, n: nat)
    requires h.Valid() && n < |elements|
    ensures Mapped(h, elements, limit, 0) == Mapping(seq(h.bins, i => EMPTY_ENTRY), [], 0)
    ensures var m := Mapped(h, elements, limit, n);
            var c := Inserting(h, m.table, elements[n], n, limit + 1);
            Mapped(h, elements, limit, n + 1)
            == Mapping(c.table, if c.hand.IsEmpty() then m.stash else m.stash + [c.hand], m.moves + c.moves)
  {
  }

  // The table stores every element exactly when none is the dummy.
  lemma AllStoredIff(elements: seq<Word>, table: seq<Entry>, stash: seq<Entry>)
    requires ConservedAll(elements, table, stash, |elements|, EMPTY_ENTRY)
    ensures (forall id :: 0 <= id < |elements| ==> Copies(table, id) + Copies(stash, id) == 1) <==> DUMMY_ELEMENT !in elements
  {
    hide Copies;
    forall id | 0 <= id < |elements|
      ensures Copies(table, id) + Copies(stash, id) == 1 <==> elements[id] != DUMMY_ELEMENT
    {
      assert ConservedAt(elements, table, stash, |elements|, EMPTY_ENTRY, id);
    }
    if DUMMY_ELEMENT in elements {
      var id :| 0 <= id < |elements| && elements[id] == DUMMY_ELEMENT;
      assert Copies(table, id) + Copies(stash, id) != 1;
    }
  }

  lemma ChainMoves(h: Hashing, elements: seq<Word>, table: seq<Entry>, hand: Entry, budget: nat)
    requires h.Valid() && |table| == h.bins && budget > 0 && !hand.IsEmpty() && Belongs(h, elements, hand)
    ensures var moved := hand.IterateFunctionNumber();
            && Belongs(h, elements, moved) && moved.Addressable() && moved.GetCurrentAddress() < |table|
            && var c := Chain(h, table[moved.GetCurrentAddress() := moved], table[moved.GetCurrentAddress()], budget - 1);
               Chain(h, table, hand, budget) == c.(moves := c.moves + 1)
  {
    BelongingAddress(h, elements, hand.IterateFunctionNumber());
  }

  lemma InsertingChain(h: Hashing, table: seq<Entry>, value: Word, id: nat, budget: nat)
    requires h.Valid() && |table| == h.bins
    ensures Inserting(h, table, value, id, budget)
            == Chain(h, table[h.Address(value, 0) := NewEntry(h, value, id)], table[h.Address(value, 0)], budget)
  {
  }

  lemma NewBelongs(h: Hashing, elements: seq<Word>, id: nat)
    requires h.Valid() && id < |elements|
    ensures Belongs(h, elements, NewEntry(h, elements[id], id).SetCurrentAddress(0))
  {
  }

  // One link of the chain spelled out: function number plus one, the hash position of that function modulo the bins.
  lemma ChainUnfolds(h: Hashing, elements: seq<Word>, table: seq<Entry>, hand: Entry, budget: nat)
    requires h.Valid() && |table| == h.bins
    ensures hand.value == TWO_64 - 1 || budget == 0 ==> Chain(h, table, hand, budget) == Chained(table, hand, 0)
    ensures hand.value != TWO_64 - 1 && budget > 0 && Belongs(h, elements, hand) ==>
              var f := (hand.functionId + 1) % h.functions;
              var a := h.positions(hand.value)[f] % h.bins;
              var c := Chain(h, table[a := hand.(functionId := f)], table[a], budget - 1);
              f < h.functions && Chain(h, table, hand, budget) == Chained(c.table, c.hand, c.moves + 1)
  {
    if hand.value != TWO_64 - 1 && budget > 0 && Belongs(h, elements, hand) {
      hide Chain;
      ChainMoves(h, elements, table, hand, budget);
      BelongingAddress(h, elements, hand.IterateFunctionNumber());
      assert hand.IterateFunctionNumber() == hand.(functionId := (hand.functionId + 1) % h.functions);
    }
  }

  // The first slot is that of function 0.
  lemma InsertingUnfolds(h: Hashing, table: seq<Entry>, value: Word, id: nat, budget: nat)
    requires h.Valid() && |table| == h.bins
    ensures var a := h.positions(value)[0] % h.bins;
            var e := Entry(value, id, h.functions, h.bins, 0, h.positions(value));
            Inserting(h, table, value, id, budget) == Chain(h, table[a := e], table[a], budget)
  {
  }

  // A stored entry's slot is congruent to the hash position of its element under its current function.
  lemma PlacedCongruent(h: Hashing, elements: seq<Word>, table: seq<Entry>, stash: seq<Entry>, i: nat)
    requires h.Valid() && WellPlaced(h, elements, table, stash) && i < |table| && table[i].value != TWO_64 - 1
    ensures var e := table[i];
            && i < h.bins && e.globalId < |elements| && e.value == elements[e.globalId] && e.functionId < h.functions
            && (h.positions(e.value)[e.functionId] - i) % h.bins == 0
  {
  }

  lemma ChainEnds(h: Hashing, table: seq<Entry>, hand: Entry, budget: nat)
    requires h.Valid() && |table| == h.bins && (hand.IsEmpty() || budget == 0)
    ensures Chain(h, table, hand, budget) == Chained(table, hand, 0)
  {
  }

  class CuckooTable {
    const hashing: Hashing
    const recursionLimiter: nat
    var elements: seq<Word>
    var hashTable: seq<Entry>
    var stash: seq<Entry>
    var remappings: nat
    var mapped: bool

    constructor (hashing: Hashing, recursionLimiter: nat)
      ensures this.hashing == hashing && this.recursionLimiter == recursionLimiter
      ensures elements == [] && hashTable == [] && stash == [] && remappings == 0 && !mapped
    {
      this.hashing, this.recursionLimiter := hashing, recursionLimiter;
      elements, hashTable, stash, remappings, mapped := [], [], [], 0, false;
    }

    ghost predicate Placed()
      reads this
      requires hashing.Valid()
    {
      WellPlaced(hashing, elements, hashTable, stash)
    }

    ghost predicate Conserved(n: nat, hand: Entry)
      reads this
      requires n <= |elements|
    {
      ConservedAll(elements, hashTable, stash, n, hand)
    }

    method Insert(es: seq<Word>)
      modifies this`elements
      ensures elements == old(elements) + es
    {
      elements := elements + es;
    }

    // Fails when there are no bins.
    method AllocateTable() returns (ok: bool)
      modifies this`hashTable
      ensures ok <==> hashing.bins > 0
      ensures ok ==> hashTable == seq(hashing.bins, i => EMPTY_ENTRY)
      ensures !ok ==> hashTable == old(hashTable)
    {
      ok := hashing.bins > 0;
      if ok {
        hashTable := seq(hashing.bins, i => EMPTY_ENTRY);
      }
    }

    // std::swap of the entry in hand with its slot.
    method SwapIn(hand: Entry, ghost n: nat) returns (hand': Entry)
      requires hashing.Valid() && Placed() && n <= |elements| && Conserved(n, hand)
      requires Belongs(hashing, elements, hand)
      modifies this`hashTable
      ensures hand.Addressable() && hand.GetCurrentAddress() == hashing.Address(hand.value, hand.functionId) < old(|hashTable|)
      ensures hashTable == old(hashTable)[hand.GetCurrentAddress() := hand]
      ensures hand' == old(hashTable)[hand.GetCurrentAddress()]
      ensures Placed() && Conserved(n, hand')
      ensures !hand'.IsEmpty() ==> Belongs(hashing, elements, hand')
    {
      BelongingAddress(hashing, elements, hand);
      var a := hand.GetCurrentAddress();
      ghost var was := hashTable;
      hand' := hashTable[a];
      hashTable := hashTable[a := hand];
      SwapConserves(elements, was, stash, n, a, hand);
    }

    // One move of the eviction loop: on to the next function's slot.
    method MoveOn(hand: Entry, ghost n: nat, ghost budget: nat) returns (hand': Entry)
      requires hashing.Valid() && Placed() && n <= |elements| && Conserved(n, hand)
      requires !hand.IsEmpty() && Belongs(hashing, elements, hand) && budget > 0 && |hashTable| == hashing.bins
      modifies this`hashTable, this`remappings
      ensures Placed() && Conserved(n, hand') && |hashTable| == hashing.bins && remappings == old(remappings) + 1
      ensures !hand'.IsEmpty() ==> Belongs(hashing, elements, hand')
      ensures var c := Chain(hashing, hashTable, hand', budget - 1);
              Chain(hashing, old(hashTable), hand, budget) == c.(moves := c.moves + 1)
    {
      hide ConservedAt, ConservedAll, Chain, WellPlaced, Belongs;
      ChainMoves(hashing, elements, hashTable, hand, budget);
      remappings := remappings + 1;
      hand' := hand.IterateFunctionNumber();
      SameHand(elements, hashTable, stash, n, hand, hand');
      hand' := SwapIn(hand', n);
    }

    // The body of the element loop: place the element, then move evicted entries on until one lands in an empty
    // slot or the limit is reached.
    method InsertElement(id: nat)
      requires hashing.Valid() && Placed() && id < |elements| && Conserved(id, EMPTY_ENTRY)
      modifies this`hashTable, this`stash, this`remappings
      ensures Placed() && Conserved(id + 1, EMPTY_ENTRY) && old(|hashTable|) == hashing.bins
      ensures var c := Inserting(hashing, old(hashTable), elements[id], id, recursionLimiter + 1);
              && hashTable == c.table && stash == (if c.hand.IsEmpty() then old(stash) else old(stash) + [c.hand])
              && remappings == old(remappings) + c.moves
      ensures |stash| > old(|stash|) ==> remappings == old(remappings) + recursionLimiter + 1
    {
      hide ConservedAt, ConservedAll, Chain, WellPlaced, Inserting, Belongs;
      TableSize();
      InsertingChain(hashing, hashTable, elements[id], id, recursionLimiter + 1);
      NewBelongs(hashing, elements, id);
      TakeConserves(hashing, elements, hashTable, stash, id);
      var hand := NewEntry(hashing, elements[id], id);
      hand := hand.SetCurrentAddress(0);
      hand := SwapIn(hand, id + 1);
      var step := 0;
      ghost var final := Inserting(hashing, old(hashTable), elements[id], id, recursionLimiter + 1);
      while !hand.IsEmpty()
        invariant Placed() && Conserved(id + 1, hand) && |hashTable| == hashing.bins
        invariant !hand.IsEmpty() ==> Belongs(hashing, elements, hand)
        invariant stash == old(stash) && remappings == old(remappings) + step && step <= recursionLimiter + 1
        invariant var c := Chain(hashing, hashTable, hand, recursionLimiter + 1 - step);
                  final == c.(moves := c.moves + step)
        decreases recursionLimiter + 1 - step
      {
        if step > recursionLimiter {
          ChainEnds(hashing, hashTable, hand, 0);
          Stash(hand, id + 1);
          return;
        } else {
          hand := MoveOn(hand, id + 1, recursionLimiter + 1 - step);
        }
        step := step + 1;
      }
      ChainEnds(hashing, hashTable, hand, recursionLimiter + 1 - step);
      SameHand(elements, hashTable, stash, id + 1, hand, EMPTY_ENTRY);
    }

    method Stash(hand: Entry, ghost n: nat)
      requires hashing.Valid() && Placed() && n <= |elements| && Conserved(n, hand)
      requires !hand.IsEmpty() && Belongs(hashing, elements, hand)
      modifies this`stash
      ensures Placed() && Conserved(n, EMPTY_ENTRY) && stash == old(stash) + [hand]
    {
      hide ConservedAt, ConservedAll, WellPlaced, Belongs;
      StashConserves(elements, hashTable, stash, n, hand);
      ghost var was := stash;
      stash := stash + [hand];
      StashPlaced(was, hand);
    }

    lemma TableSize()
      requires hashing.Valid() && Placed()
      ensures |hashTable| == hashing.bins
    {
    }

    lemma PlacedFunction(i: nat)
      requires hashing.Valid() && Placed() && i < |hashTable|
      ensures !hashTable[i].IsEmpty() ==> hashTable[i].functionId < TWO_64
    {
    }

    lemma StashPlaced(was: seq<Entry>, hand: Entry)
      requires hashing.Valid() && WellPlaced(hashing, elements, hashTable, was)
      requires stash == was + [hand] && !hand.IsEmpty() && Belongs(hashing, elements, hand)
      ensures Placed()
    {
    }

    lemma StartsMapped()
      requires hashing.Valid() && hashTable == seq(hashing.bins, i => EMPTY_ENTRY)
      ensures Mapped(hashing, elements, recursionLimiter, 0) == Mapping(hashTable, [], 0)
      ensures WellPlaced(hashing, elements, hashTable, []) && WithinBudget(0, 0, 0, recursionLimiter)
    {
    }

    lemma StartsConserved()
      requires hashTable == seq(hashing.bins, i => EMPTY_ENTRY) && stash == []
      ensures Conserved(0, EMPTY_ENTRY)
    {
      forall id: nat
        ensures ConservedAt(elements, hashTable, stash, 0, EMPTY_ENTRY, id)
      {
        CopiesNone(hashing.bins, id);
      }
    }

    /**
     MapElementsToTable: table and stash are those of inserting the elements one after the other. Together they hold
     every non-dummy element exactly once, every stored entry sits at its own current address, each insertion has
     stayed within the recursion limit, and every stashed entry has cost the whole limit.
     */
    method MapElementsToTable()
      requires hashing.Valid() && !mapped && stash == [] && remappings == 0
      requires hashTable == seq(hashing.bins, i => EMPTY_ENTRY)
      modifies this`hashTable, this`stash, this`remappings, this`mapped
      ensures mapped && Placed() && Conserved(|elements|, EMPTY_ENTRY)
      ensures Mapping(hashTable, stash, remappings) == Mapped(hashing, elements, recursionLimiter, |elements|)
      ensures WithinBudget(|stash|, remappings, |elements|, recursionLimiter)
      ensures |stash| * (recursionLimiter + 1) <= remappings <= |elements| * (recursionLimiter + 1)
    {
      hide ConservedAt, ConservedAll, Inserting, WithinBudget, Mapped, WellPlaced;
      StartsConserved();
      StartsMapped();
      var elementId := 0;
      while elementId < |elements|
        invariant elementId <= |elements| && Placed() && Conserved(elementId, EMPTY_ENTRY)
        invariant Mapping(hashTable, stash, remappings) == Mapped(hashing, elements, recursionLimiter, elementId)
        invariant WithinBudget(|stash|, remappings, elementId, recursionLimiter)
      {
        BudgetNext(|stash|, remappings, elementId, recursionLimiter,
                   Inserting(hashing, hashTable, elements[elementId], elementId, recursionLimiter + 1).moves);
        MappedNext(hashing, elements, recursionLimiter, elementId);
        TableSize();
        InsertElement(elementId);
        elementId := elementId + 1;
      }
      BudgetMeans(|stash|, remappings, |elements|, recursionLimiter);
      mapped := true;
    }

    // The occupied slots in increasing order, and the key of each.
    method AsRawVectorNoID() returns (idxs: seq<nat>, keys: seq<Block>)
      requires hashing.Valid() && Placed()
      ensures idxs == Occupied(hashTable, |hashTable|) && keys == ExportedKeys(hashTable, |hashTable|)
      ensures |keys| == |idxs| && forall k :: 0 <= k < |idxs| ==> KeyAt(hashTable, idxs[k], keys[k])
    {
      hide WellPlaced, Belongs;
      TableSize();
      idxs, keys := [], [];
      for i := 0 to hashing.bins
        invariant idxs == Occupied(hashTable, i) && keys == ExportedKeys(hashTable, i)
        invariant |keys| == |idxs| && forall k :: 0 <= k < |idxs| ==> KeyAt(hashTable, idxs[k], keys[k])
      {
        PlacedFunction(i);
        var element := hashTable[i].GetElement();
        if element != DUMMY_ELEMENT {
          keys := keys + [MakeBlock(hashTable[i].functionId, element)];
          idxs := idxs + [i];
        }
      }
    }

    method GetNumOfElementsInBins() returns (counts: seq<nat>)
      ensures |counts| == |hashTable|
      ensures forall i :: 0 <= i < |counts| ==> counts[i] == if hashTable[i].IsEmpty() then 0 else 1
    {
      counts := seq(|hashTable|, i => 0);
      for i := 0 to |hashTable|
        invariant |counts| == |hashTable|
        invariant forall j :: 0 <= j < |counts| ==> counts[j] == if j < i && !hashTable[j].IsEmpty() then 1 else 0
      {
        if !hashTable[i].IsEmpty() {
          counts := counts[i := counts[i] + 1];
        }
      }
    }
  }
}
