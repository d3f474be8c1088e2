/**
 The reader/writer spin lock as interleaved atomic steps: any number of ReaderLock and WriterLock objects, each
 somewhere inside acquire, try_acquire or unlock, over one counter and one flag.
 */
module Locks {

  // What an unlock was called for: on its own, or as the first step of an acquire.
  datatype Purpose = JustUnlock | ThenAcquire(blocking: bool)

  // Where a lock object stands. Blocking tells acquire from try_acquire.
  datatype Handle =
    | RIdle                       // locker_ is null
    | RHeld                       // the lock has been granted
    | RUnlock(purpose: Purpose)   // about to subtract in unlock
    | RAdd(blocking: bool)        // about to add
    | RCheck(blocking: bool)      // added, about to load the writer flag
    | RBack(blocking: bool)       // saw a writer, about to subtract again
    | RSpin                       // waiting for the writer flag to clear
    | WIdle
    | WHeld
    | WUnlock(purpose: Purpose)   // about to clear the flag in unlock
    | WCas(blocking: bool)        // about to compare-exchange the flag
    | WCheck(blocking: bool)      // set the flag, about to load the counter
    | WBack                       // try_acquire saw readers, about to clear the flag
  {
    // Between its add and its subtract.
    predicate Counted() {
      RHeld? || RUnlock? || RCheck? || RBack?
    }

    // Between setting and clearing the flag.
    predicate Owner() {
      WHeld? || WUnlock? || WCheck? || WBack?
    }

    // Past its check of the other side.
    predicate ReadInside() {
      RHeld? || RUnlock?
    }

    predicate WriteInside() {
      WHeld? || WUnlock?
    }

    // Not inside any operation and not holding.
    predicate AtRest() {
      RIdle? || WIdle?
    }
  }

  datatype State = State(readers: int, writer: bool, handles: map<nat, Handle>)

  const INITIAL := State(0, false, map[])

  // A call that starts an operation on an idle or holding object.
  datatype Call = Acquire(blocking: bool) | Unlock

  function Started(h: Handle, c: Call): Handle
    requires h.RIdle? || h.RHeld? || h.WIdle? || h.WHeld?
  {
    match c
    case Acquire(b) =>
      if h.RIdle? then RAdd(b) else if h.RHeld? then RUnlock(ThenAcquire(b))
      else if h.WIdle? then WCas(b) else WUnlock(ThenAcquire(b))
    case Unlock =>
      if h.RHeld? then RUnlock(JustUnlock) else if h.WHeld? then WUnlock(JustUnlock) else h
  }

  // One atomic step of an object inside an operation: its next place, the counter and the flag.
  function Advance(h: Handle, readers: int, writer: bool): (Handle, int, bool)
    requires !h.AtRest() && !h.RHeld? && !h.WHeld?
  {
    match h
    case RUnlock(p) => (if p.JustUnlock? then RIdle else RAdd(p.blocking), readers - 1, writer)
    case RAdd(b) => (RCheck(b), readers + 1, writer)
    case RCheck(b) => (if writer then RBack(b) else RHeld, readers, writer)
    case RBack(b) => (if b then RSpin else RIdle, readers - 1, writer)
    case RSpin => (if writer then RSpin else RAdd(true), readers, writer)
    case WUnlock(p) => (if p.JustUnlock? then WIdle else WCas(p.blocking), readers, false)
    case WCas(b) => (if !writer then WCheck(b) else if b then h else WIdle, readers, true)
    case WCheck(b) => (if readers == 0 then WHeld else if b then h else WBack, readers, writer)
    case WBack => (WIdle, readers, false)
  }

  datatype Step = New(id: nat, reader: bool) | Drop(id: nat) | Start(id: nat, call: Call) | Run(id: nat)

  ghost predicate Enabled(s: State, t: Step) {
    match t
    case New(id, reader) => id !in s.handles
    case Drop(id) => id in s.handles && s.handles[id].AtRest()
    case Start(id, call) => id in s.handles && (s.handles[id].AtRest() || s.handles[id].RHeld? || s.handles[id].WHeld?)
    case Run(id) => id in s.handles && !s.handles[id].AtRest() && !s.handles[id].RHeld? && !s.handles[id].WHeld?
  }

  ghost function Apply(s: State, t: Step): State
    requires Enabled(s, t)
  {
    match t
    case New(id, reader) => s.(handles := s.handles[id := if reader then RIdle else WIdle])
    case Drop(id) => s.(handles := s.handles - {id})
    case Start(id, call) => s.(handles := s.handles[id := Started(s.handles[id], call)])
    case Run(id) =>
      var (h, readers, writer) := Advance(s.handles[id], s.readers, s.writer);
      State(readers, writer, s.handles[id := h])
  }

  ghost function CountedIds(s: State): set<nat> {
    set id | id in s.handles && s.handles[id].Counted()
  }

  ghost function OwnerIds(s: State): set<nat> {
    set id | id in s.handles && s.handles[id].Owner()
  }

  // The counter counts the objects between add and subtract, the flag has one owner exactly when set,
  // and no reader is inside together with a writer.
  ghost predicate Inv(s: State) {
    && s.readers == |CountedIds(s)|
    && |OwnerIds(s)| == (if s.writer then 1 else 0)
    && Exclusion(s)
  }

  lemma IdsUpdate(s: State, id: nat, h: Handle, readers: int, writer: bool)
    ensures var s' := State(readers, writer, s.handles[id := h]);
            && CountedIds(s') == (if h.Counted() then CountedIds(s) + {id} else CountedIds(s) - {id})
            && OwnerIds(s') == (if h.Owner() then OwnerIds(s) + {id} else OwnerIds(s) - {id})
  {
  }

  // Moving one element into or out of a set.
  lemma CardUpdate(ids: set<nat>, id: nat, member: bool)
    ensures |if member then ids + {id} else ids - {id}| == |ids| - (if id in ids then 1 else 0) + (if member then 1 else 0)
  {
    if id in ids {
      assert ids + {id} == ids;
    } else {
      assert ids - {id} == ids;
    }
  }

  lemma AtMostOne(ids: set<nat>, v: nat, w: nat)
    requires |ids| <= 1 && v in ids && w in ids
    ensures v == w
  {
    assert |ids - {v}| == |ids| - 1;
    assert w !in ids - {v};
  }

  lemma NoOwner(s: State)
    requires Inv(s) && !s.writer
    ensures forall w :: w in s.handles ==> !s.handles[w].Owner()
  {
    assert OwnerIds(s) == {};
    forall w | w in s.handles
      ensures !s.handles[w].Owner()
    {
      assert w !in OwnerIds(s);
    }
  }

  lemma NoReader(s: State)
    requires Inv(s) && s.readers == 0
    ensures forall r :: r in s.handles ==> !s.handles[r].Counted()
  {
    assert CountedIds(s) == {};
    forall r | r in s.handles
      ensures !s.handles[r].Counted()
    {
      assert r !in CountedIds(s);
    }
  }

  lemma OneOwner(s: State, v: nat, w: nat)
    requires Inv(s) && v in s.handles && w in s.handles && s.handles[v].Owner() && s.handles[w].Owner()
    ensures v == w && s.writer
  {
    assert v in OwnerIds(s) && w in OwnerIds(s);
    AtMostOne(OwnerIds(s), v, w);
  }

  lemma OwnerHasFlag(s: State, id: nat)
    requires Inv(s) && id in s.handles && s.handles[id].Owner()
    ensures s.writer
  {
    OneOwner(s, id, id);
  }

  // A step moves its object in or out of a count exactly as it moves the counter or the flag.
  lemma AdvanceCounts(h: Handle, readers: int, writer: bool)
    requires !h.AtRest() && !h.RHeld? && !h.WHeld? && (h.Owner() ==> writer)
    ensures var (h', readers', writer') := Advance(h, readers, writer);
            && readers' == readers - (if h.Counted() then 1 else 0) + (if h'.Counted() then 1 else 0)
            && (if writer' then 1 else 0) == (if writer then 1 else 0) - (if h.Owner() then 1 else 0) + (if h'.Owner() then 1 else 0)
  {
  }

  lemma RunKeepsCounts(s: State, id: nat)
    requires Inv(s) && Enabled(s, Run(id))
    ensures var s' := Apply(s, Run(id));
            s'.readers == |CountedIds(s')| && |OwnerIds(s')| == (if s'.writer then 1 else 0)
  {
    hide CountedIds, OwnerIds, Advance, Handle.Counted, Handle.Owner, Exclusion;
    var h := s.handles[id];
    var (h', readers, writer) := Advance(h, s.readers, s.writer);
    if h.Owner() {
      OwnerHasFlag(s, id);
    }
    AdvanceCounts(h, s.readers, s.writer);
    IdsUpdate(s, id, h', readers, writer);
    IdsMember(s, id);
    CardUpdate(CountedIds(s), id, h'.Counted());
    CardUpdate(OwnerIds(s), id, h'.Owner());
  }

  lemma IdsMember(s: State, id: nat)
    requires id in s.handles
    ensures (id in CountedIds(s) <==> s.handles[id].Counted()) && (id in OwnerIds(s) <==> s.handles[id].Owner())
  {
  }

  ghost predicate Exclusion(s: State) {
    forall r, w :: r in s.handles && w in s.handles && s.handles[r].ReadInside() ==> !s.handles[w].WriteInside()
  }

  // A reader enters only when no flag is set, a writer only when no reader is counted.
  lemma RunKeepsExclusion(s: State, id: nat)
    requires Inv(s) && Enabled(s, Run(id))
    ensures Exclusion(Apply(s, Run(id)))
  {
    hide CountedIds, OwnerIds;
    if !s.writer {
      NoOwner(s);
    }
    if s.readers == 0 {
      NoReader(s);
    }
  }

  lemma StepKeepsInv(s: State, t: Step)
    requires Inv(s) && Enabled(s, t)
    ensures Inv(Apply(s, t))
  {
    match t
    case Run(id) =>
      RunKeepsCounts(s, id);
      RunKeepsExclusion(s, id);
    case Drop(id) =>
      var s' := Apply(s, t);
      assert CountedIds(s') == CountedIds(s) && OwnerIds(s') == OwnerIds(s);
    case New(id, reader) =>
      var s' := Apply(s, t);
      assert CountedIds(s') == CountedIds(s) && OwnerIds(s') == OwnerIds(s);
    case Start(id, call) =>
      StartKeepsInv(s, id, call);
  }

  lemma StartKeepsInv(s: State, id: nat, call: Call)
    requires Inv(s) && Enabled(s, Start(id, call))
    ensures Inv(Apply(s, Start(id, call)))
  {
    var h, h' := s.handles[id], Started(s.handles[id], call);
    assert h.Counted() == h'.Counted() && h.Owner() == h'.Owner();
    assert h.ReadInside() == h'.ReadInside() && h.WriteInside() == h'.WriteInside();
    hide Started, Handle.Counted, Handle.Owner;
    var s' := Apply(s, Start(id, call));
    assert CountedIds(s') == CountedIds(s) && OwnerIds(s') == OwnerIds(s);
  }

  // Any interleaving of steps from the initial state.
  ghost predicate IsRun(states: seq<State>, steps: seq<Step>) {
    && |states| == |steps| + 1 && states[0] == INITIAL
    && forall i :: 0 <= i < |steps| ==> Enabled(states[i], steps[i]) && states[i + 1] == Apply(states[i], steps[i])
  }

  // The runs are exactly those that start in the initial state and go on with any enabled step.
  lemma RunsExtend(states: seq<State>, steps: seq<Step>, t: Step)
    ensures IsRun([State(0, false, map[])], [])
    ensures IsRun(states, steps) && Enabled(states[|steps|], t) ==> IsRun(states + [Apply(states[|steps|], t)], steps + [t])
  {
  }

  lemma {:induction false} RunKeepsInv(states: seq<State>, steps: seq<Step>, n: nat)
    requires IsRun(states, steps) && n < |states|
    ensures Inv(states[n])
  {
    if n == 0 {
      assert CountedIds(INITIAL) == {} && OwnerIds(INITIAL) == {};
    } else {
      RunKeepsInv(states, steps, n - 1);
      StepKeepsInv(states[n - 1], steps[n - 1]);
    }
  }

  /** In every state of every run: two writers are never inside, nor a writer together with a reader. */
  lemma MutualExclusion(states: seq<State>, steps: seq<Step>, n: nat, v: nat, w: nat)
    requires IsRun(states, steps) && n < |states| && v in states[n].handles && w in states[n].handles && v != w
    requires states[n].handles[w].WHeld? || states[n].handles[w].WUnlock?
    ensures var h := states[n].handles[v]; !h.WHeld? && !h.WUnlock? && !h.RHeld? && !h.RUnlock?
  {
    RunKeepsInv(states, steps, n);
    if states[n].handles[v].WriteInside() {
      OneOwner(states[n], v, w);
    }
  }

  /** In every state of every run the counter and the flag are exactly accounted for. */
  lemma Accounting(states: seq<State>, steps: seq<Step>, n: nat)
    requires IsRun(states, steps) && n < |states|
    ensures states[n].readers == |CountedIds(states[n])|
    ensures states[n].writer <==> exists w :: w in states[n].handles && states[n].handles[w].Owner()
    ensures (forall id :: id in states[n].handles ==> states[n].handles[id].AtRest()) ==> states[n].readers == 0 && !states[n].writer
  {
    RunKeepsInv(states, steps, n);
    var s := states[n];
    if s.writer {
      assert OwnerIds(s) != {};
      var w :| w in OwnerIds(s);
    } else {
      NoOwner(s);
    }
    if forall id :: id in s.handles ==> s.handles[id].AtRest() {
      assert CountedIds(s) == {};
    }
  }

  // An object that holds the lock, or whose next step takes it further.
  predicate Unblocked(h: Handle, readers: int, writer: bool) {
    h.ReadInside() || h.WriteInside() || (!h.AtRest() && Advance(h, readers, writer).0 != h)
  }

  lemma CountedUnblocked(s: State)
    requires Inv(s) && s.readers != 0
    ensures exists r :: r in s.handles && s.handles[r].Counted() && Unblocked(s.handles[r], s.readers, s.writer)
  {
    assert CountedIds(s) != {};
    var r :| r in CountedIds(s);
    assert Unblocked(s.handles[r], s.readers, s.writer);
  }

  /**
   In every state of every run, whenever some object spins in vain, another one holds the lock or can move on:
   the lock never deadlocks by itself.
   */
  lemma NoDeadlock(states: seq<State>, steps: seq<Step>, n: nat, id: nat)
    requires IsRun(states, steps) && n < |states| && id in states[n].handles
    requires var h := states[n].handles[id];
             (h in {RSpin, WCas(true)} && states[n].writer) || (h == WCheck(true) && states[n].readers != 0)
    ensures exists o :: o in states[n].handles && o != id && (var h := states[n].handles[o];
              h.RHeld? || h.RUnlock? || h.WHeld? || h.WUnlock?
              || (!h.RIdle? && !h.WIdle? && Advance(h, states[n].readers, states[n].writer).0 != h))
  {
    RunKeepsInv(states, steps, n);
    var s := states[n];
    if s.handles[id] == WCheck(true) {
      CountedUnblocked(s);
    } else {
      assert OwnerIds(s) != {};
      var w :| w in OwnerIds(s);
      if !Unblocked(s.handles[w], s.readers, s.writer) {
        CountedUnblocked(s);
      }
    }
  }

  // Inside a blocking acquire.
  predicate Acquiring(h: Handle) {
    match h
    case RUnlock(p) => p == ThenAcquire(true)
    case WUnlock(p) => p == ThenAcquire(true)
    case RAdd(b) => b
    case RCheck(b) => b
    case RBack(b) => b
    case RSpin => true
    case WCas(b) => b
    case WCheck(b) => b
    case _ => false
  }

  lemma AcquiringAdvances(h: Handle, readers: int, writer: bool)
    requires Acquiring(h)
    ensures var h' := Advance(h, readers, writer).0; Acquiring(h') || h'.RHeld? || h'.WHeld?
  {
  }

  /** A blocking acquire never returns without the lock, however the other objects move. */
  lemma {:induction false} AcquireReturnsHolding(states: seq<State>, steps: seq<Step>, m: nat, n: nat, id: nat)
    requires IsRun(states, steps) && m <= n < |states| && id in states[m].handles && Acquiring(states[m].handles[id])
    requires forall k :: m <= k <= n && id in states[k].handles ==> !states[k].handles[id].RHeld? && !states[k].handles[id].WHeld?
    ensures id in states[n].handles && Acquiring(states[n].handles[id])
  {
    if m < n {
      AcquireReturnsHolding(states, steps, m, n - 1, id);
      var s := states[n - 1];
      AcquiringAdvances(s.handles[id], s.readers, s.writer);
      assert states[n] == Apply(s, steps[n - 1]);
    }
  }

  // Inside an unlock or a try_acquire.
  predicate Passing(h: Handle) {
    !h.AtRest() && !h.RHeld? && !h.WHeld? && !Acquiring(h)
  }

  // An object inside an operation is in a blocking acquire or in one of the others.
  lemma InsideIsEither(h: Handle)
    ensures h !in {RIdle, WIdle, RHeld, WHeld} <==> Acquiring(h) != Passing(h)
    ensures h in {RIdle, WIdle, RHeld, WHeld} ==> !Acquiring(h) && !Passing(h)
  {
  }

  // How many of its own steps such an object has left at most.
  function StepsLeft(h: Handle): nat {
    match h
    case RUnlock(p) => if p.JustUnlock? then 1 else 4
    case WUnlock(p) => if p.JustUnlock? then 1 else 4
    case RAdd(_) => 3
    case RCheck(_) => 2
    case RBack(_) => 1
    case WCas(_) => 3
    case WCheck(_) => 2
    case WBack => 1
    case _ => 0
  }

  // How many of the steps m .. n - 1 object id took.
  function OwnSteps(steps: seq<Step>, m: nat, n: nat, id: nat): nat
    requires m <= n <= |steps|
  {
    if m == n then 0 else OwnSteps(steps, m, n - 1, id) + if steps[n - 1] == Run(id) then 1 else 0
  }

  // Its own steps use them up; nobody else moves it.
  lemma PassingStep(s: State, t: Step, id: nat)
    requires Enabled(s, t) && id in s.handles && Passing(s.handles[id])
    requires id in Apply(s, t).handles && Passing(Apply(s, t).handles[id])
    ensures StepsLeft(Apply(s, t).handles[id]) + (if t == Run(id) then 1 else 0) <= StepsLeft(s.handles[id])
  {
  }

  lemma PassingRange(h: Handle)
    requires Passing(h)
    ensures 1 <= StepsLeft(h) <= 4
  {
  }

  /** An unlock or a try_acquire ends within four steps of its own, however the other objects move. */
  lemma {:induction false} TryIsWaitFree(states: seq<State>, steps: seq<Step>, m: nat, n: nat, id: nat)
    requires IsRun(states, steps) && m <= n < |states|
    requires forall k :: m <= k <= n ==> id in states[k].handles && Passing(states[k].handles[id])
    ensures OwnSteps(steps, m, n, id) + StepsLeft(states[n].handles[id]) <= StepsLeft(states[m].handles[id])
    ensures OwnSteps(steps, m, n, id) < 4
  {
    hide StepsLeft, Passing, Apply, Enabled;
    if m < n {
      TryIsWaitFree(states, steps, m, n - 1, id);
      assert Enabled(states[n - 1], steps[n - 1]) && states[n - 1 + 1] == Apply(states[n - 1], steps[n - 1]);
      PassingStep(states[n - 1], steps[n - 1], id);
    }
    PassingRange(states[m].handles[id]);
    PassingRange(states[n].handles[id]);
  }

  // The object after n steps of its own, with nobody else moving.
  function Alone(h: Handle, readers: int, writer: bool, n: nat): Handle
    decreases n
  {
    if n == 0 || h.AtRest() || h.RHeld? || h.WHeld? then h
    else
      var (h', readers', writer') := Advance(h, readers, writer);
      Alone(h', readers', writer', n - 1)
  }

  // On its way to the lock, not yet turned away.
  predicate Approaching(h: Handle) {
    Acquiring(h) || h.RAdd? || h.RCheck? || h.WCas? || h.WCheck? || (h.RUnlock? && h.purpose.ThenAcquire?)
    || (h.WUnlock? && h.purpose.ThenAcquire?)
  }

  // No object other than id contributes to the counter or owns the flag.
  ghost predicate Uncontended(s: State, id: nat) {
    forall o :: o in s.handles && o != id ==> !s.handles[o].Counted() && !s.handles[o].Owner()
  }

  /** Without contention an acquire of either kind has the lock after at most four steps. */
  lemma UncontendedSucceeds(s: State, id: nat)
    requires Inv(s) && id in s.handles && Approaching(s.handles[id])
    requires forall o :: o in s.handles && o != id ==> !s.handles[o].Counted() && !s.handles[o].Owner()
    ensures var h := Alone(s.handles[id], s.readers, s.writer, 4); h.RHeld? || h.WHeld?
  {
    OnlyOneCounts(s, id);
    AloneSucceeds(s.handles[id]);
  }

  lemma OnlyOneCounts(s: State, id: nat)
    requires Inv(s) && id in s.handles && Uncontended(s, id)
    ensures s.readers == (if s.handles[id].Counted() then 1 else 0) && s.writer == s.handles[id].Owner()
  {
    assert CountedIds(s) == if s.handles[id].Counted() then {id} else {};
    assert OwnerIds(s) == if s.handles[id].Owner() then {id} else {};
  }

  lemma AloneSucceeds(h: Handle)
    requires Approaching(h)
    ensures var h' := Alone(h, if h.Counted() then 1 else 0, h.Owner(), 4); h'.RHeld? || h'.WHeld?
  {
    var (h1, r1, w1) := Advance(h, if h.Counted() then 1 else 0, h.Owner());
    assert Alone(h, if h.Counted() then 1 else 0, h.Owner(), 4) == Alone(h1, r1, w1, 3);
    if !h1.RHeld? && !h1.WHeld? {
      var (h2, r2, w2) := Advance(h1, r1, w1);
      assert Alone(h1, r1, w1, 3) == Alone(h2, r2, w2, 2);
      if !h2.RHeld? && !h2.WHeld? {
        var (h3, r3, w3) := Advance(h2, r2, w2);
        assert Alone(h2, r2, w2, 2) == Alone(h3, r3, w3, 1);
      }
    }
  }

  predicate IsReader(h: Handle) {
    h.RIdle? || h.RHeld? || h.RUnlock? || h.RAdd? || h.RCheck? || h.RBack? || h.RSpin?
  }

  // Between its calls an object can always be called, and a new one can always be made.
  lemma CallsEnabled(s: State, id: nat, call: Call, reader: bool)
    ensures id !in s.handles ==> Enabled(s, New(id, reader))
                                 && Apply(s, New(id, reader)) == State(s.readers, s.writer, s.handles[id := if reader then RIdle else WIdle])
    ensures id in s.handles && (s.handles[id] in {RIdle, WIdle, RHeld, WHeld}) ==> Enabled(s, Start(id, call))
    ensures id in s.handles && s.handles[id] !in {RIdle, WIdle, RHeld, WHeld} ==> Enabled(s, Run(id))
  {
  }

  // A call of acquire or try_acquire, at rest or holding, sets the object on its way and touches nothing else.
  lemma AcquireStarts(s: State, id: nat, blocking: bool)
    requires id in s.handles && s.handles[id] in {RIdle, WIdle, RHeld, WHeld}
    ensures Enabled(s, Start(id, Acquire(blocking)))
    ensures var s' := Apply(s, Start(id, Acquire(blocking)));
            && s'.readers == s.readers && s'.writer == s.writer && s'.handles.Keys == s.handles.Keys
            && (forall o :: o in s.handles && o != id ==> s'.handles[o] == s.handles[o])
            && (if blocking then Acquiring(s'.handles[id]) else Passing(s'.handles[id])) && Approaching(s'.handles[id])
            && (IsReader(s'.handles[id]) <==> IsReader(s.handles[id]))
  {
  }

  // Called on a holder it first gives up what the object holds, in its first step.
  lemma AcquireReleasesFirst(s: State, id: nat, blocking: bool)
    requires id in s.handles && s.handles[id] in {RHeld, WHeld}
    ensures Enabled(s, Start(id, Acquire(blocking))) && Enabled(Apply(s, Start(id, Acquire(blocking))), Run(id))
    ensures var s' := Apply(Apply(s, Start(id, Acquire(blocking))), Run(id));
            && id in s'.handles && !s'.handles[id].Counted() && !s'.handles[id].Owner() && Approaching(s'.handles[id])
            && s'.readers == s.readers - (if s.handles[id].RHeld? then 1 else 0)
            && s'.writer == (s.handles[id].RHeld? && s.writer)
  {
  }

  // An unlock of a holder ends after one step, with its contribution gone; at rest it does nothing.
  lemma UnlockReleases(s: State, id: nat)
    requires id in s.handles && s.handles[id] in {RIdle, WIdle, RHeld, WHeld}
    ensures Enabled(s, Start(id, Unlock))
    ensures s.handles[id] in {RIdle, WIdle} ==> Apply(s, Start(id, Unlock)) == s
    ensures s.handles[id] in {RHeld, WHeld} ==> Enabled(Apply(s, Start(id, Unlock)), Run(id))
    ensures s.handles[id] in {RHeld, WHeld} ==>
              Apply(Apply(s, Start(id, Unlock)), Run(id))
              == (if s.handles[id].RHeld? then State(s.readers - 1, s.writer, s.handles[id := RIdle])
                  else State(s.readers, false, s.handles[id := WIdle]))
  {
    assert s.handles[id := s.handles[id]] == s.handles;
    assert s.handles[id := RUnlock(JustUnlock)][id := RIdle] == s.handles[id := RIdle];
    assert s.handles[id := WUnlock(JustUnlock)][id := WIdle] == s.handles[id := WIdle];
  }

  // Waiting changes nothing, and a step decides by what it reads of the other side.
  lemma LooksDecide(h: Handle, readers: int, writer: bool)
    ensures (h in {RSpin, WCas(true)} && writer) || (h == WCheck(true) && readers != 0) ==>
              Advance(h, readers, writer) == (h, readers, writer)
    ensures h.RCheck? ==> (Advance(h, readers, writer).0.RHeld? <==> !writer)
    ensures h.WCheck? ==> (Advance(h, readers, writer).0.WHeld? <==> readers == 0)
    ensures h.WCas? ==> (Advance(h, readers, writer).0.WCheck? <==> !writer)
    ensures h == WCas(false) && writer ==> Advance(h, readers, writer) == (WIdle, readers, true)
    ensures h == RCheck(false) && writer ==> Advance(RBack(false), readers, writer) == (RIdle, readers - 1, writer)
    ensures h == WCheck(false) && readers != 0 ==> Advance(WBack, readers, writer) == (WIdle, readers, false)
  {
  }
}
