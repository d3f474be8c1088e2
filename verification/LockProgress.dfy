/** From every reachable state of the lock, an acquiring object can still get it. */
module LockProgress {
  import opened Locks

  ghost predicate CanRun(s: State, steps: seq<Step>)
    decreases |steps|
  {
    steps == [] || (Enabled(s, steps[0]) && CanRun(Apply(s, steps[0]), steps[1..]))
  }

  ghost function End(s: State, steps: seq<Step>): State
    requires CanRun(s, steps)
    decreases |steps|
  {
    if steps == [] then s else End(Apply(s, steps[0]), steps[1..])
  }

  // A step inside an operation, or a holder other than id giving the lock back.
  predicate Helpful(t: Step, id: nat) {
    t.Run? || (t.Start? && t.call == Unlock && t.id != id)
  }

  // The steps lead from s to s' without any new acquire.
  ghost predicate Leads(s: State, steps: seq<Step>, s': State, id: nat) {
    CanRun(s, steps) && End(s, steps) == s' && forall t :: t in steps ==> Helpful(t, id)
  }

  lemma {:induction false} LeadsOn(s: State, a: seq<Step>, s': State, b: seq<Step>, s'': State, id: nat)
    requires Leads(s, a, s', id) && Leads(s', b, s'', id)
    ensures Leads(s, a + b, s'', id)
    decreases |a|
  {
    hide Apply, Enabled, Helpful;
    if a == [] {
      assert a + b == b;
    } else {
      LeadsOn(Apply(s, a[0]), a[1..], s', b, s'', id);
      assert (a + b)[1..] == a[1..] + b;
    }
  }

  // Such a continuation of a run makes a longer run.
  lemma {:induction false} RunGoesOn(states: seq<State>, steps: seq<Step>, more: seq<Step>) returns (all: seq<State>)
    requires IsRun(states, steps) && CanRun(states[|steps|], more)
    ensures IsRun(all, steps + more) && all[|steps + more|] == End(states[|steps|], more)
    decreases |more|
  {
    if more == [] {
      all := states;
      assert steps + more == steps;
    } else {
      hide Enabled, Apply;
      var s := Apply(states[|steps|], more[0]);
      RunsExtend(states, steps, more[0]);
      all := RunGoesOn(states + [s], steps + [more[0]], more[1..]);
      assert steps + [more[0]] + more[1..] == steps + more;
    }
  }

  // Helpful steps leave id a reader or a writer.
  lemma {:induction false} LeadsKeepsKind(s: State, steps: seq<Step>, s': State, id: nat)
    requires id in s.handles && Leads(s, steps, s', id)
    ensures id in s'.handles && (IsReader(s'.handles[id]) <==> IsReader(s.handles[id]))
    decreases |steps|
  {
    if steps != [] {
      assert steps[0] in steps;
      HelpfulKeepsKind(s, steps[0], id);
      LeadsKeepsKind(Apply(s, steps[0]), steps[1..], s', id);
    }
  }

  lemma HelpfulKeepsKind(s: State, t: Step, id: nat)
    requires id in s.handles && Enabled(s, t) && Helpful(t, id)
    ensures id in Apply(s, t).handles && (IsReader(Apply(s, t).handles[id]) <==> IsReader(s.handles[id]))
  {
  }

  lemma OneStep(s: State, t: Step, id: nat)
    requires Enabled(s, t) && Helpful(t, id)
    ensures Leads(s, [t], Apply(s, t), id)
  {
    assert [t][1..] == [];
  }

  lemma {:induction false} LeadsKeepsInv(s: State, steps: seq<Step>, s': State, id: nat)
    requires Inv(s) && Leads(s, steps, s', id)
    ensures Inv(s')
    decreases |steps|
  {
    hide Inv, Apply, Enabled, Helpful;
    if steps != [] {
      StepKeepsInv(s, steps[0]);
      LeadsKeepsInv(Apply(s, steps[0]), steps[1..], s', id);
    }
  }

  // How far a counted reader is from giving up its count.
  function ReaderRank(h: Handle): nat {
    match h
    case RCheck(_) => 3
    case RHeld => 2
    case _ => 1
  }

  // The next helpful step of a counted reader.
  function ReaderStep(h: Handle, o: nat): Step {
    if h.RHeld? then Start(o, Unlock) else Run(o)
  }

  lemma ReaderMoves(s: State, o: nat, id: nat)
    requires o in s.handles && o != id && s.handles[o].Counted()
    ensures var t := ReaderStep(s.handles[o], o);
            && Enabled(s, t) && Helpful(t, id) && o in Apply(s, t).handles
            && var h := Apply(s, t).handles[o];
               && Apply(s, t) == State(if h.Counted() then s.readers else s.readers - 1, s.writer, s.handles[o := h])
               && !h.Owner() && (h.Counted() ==> ReaderRank(h) < ReaderRank(s.handles[o]))
  {
  }

  // A counted reader can be brought to give up its count.
  lemma {:induction false} ReleaseReader(s: State, o: nat, id: nat) returns (steps: seq<Step>, h: Handle)
    requires o in s.handles && o != id && s.handles[o].Counted()
    ensures Leads(s, steps, State(s.readers - 1, s.writer, s.handles[o := h]), id) && !h.Counted() && !h.Owner()
    decreases ReaderRank(s.handles[o])
  {
    ReaderMoves(s, o, id);
    var t := ReaderStep(s.handles[o], o);
    hide Apply, Enabled, Leads, ReaderStep, ReaderRank, Helpful, Handle.Counted, Handle.Owner;
    OneStep(s, t, id);
    var s1 := Apply(s, t);
    steps, h := [t], s1.handles[o];
    if h.Counted() {
      var rest;
      rest, h := ReleaseReader(s1, o, id);
      assert s1.handles[o := h] == s.handles[o := h];
      LeadsOn(s, [t], s1, rest, State(s.readers - 1, s.writer, s.handles[o := h]), id);
      steps := [t] + rest;
    }
  }

  // No reader other than id is counted.
  ghost predicate NoOtherReader(s: State, id: nat) {
    forall o :: o in s.handles && o != id ==> !s.handles[o].Counted()
  }

  // Objects that are not counted, and id, have stayed where they were.
  ghost predicate OthersStay(s: State, s': State, id: nat) {
    forall o :: o in s.handles && (o == id || !s.handles[o].Counted()) ==> o in s'.handles && s'.handles[o] == s.handles[o]
  }

  lemma {:induction false} ReleaseReaders(s: State, id: nat) returns (steps: seq<Step>, s': State)
    requires Inv(s) && id in s.handles
    ensures Leads(s, steps, s', id) && Inv(s') && NoOtherReader(s', id) && OthersStay(s, s', id) && s'.writer == s.writer
    decreases |CountedIds(s)|
  {
    if o :| o in s.handles && o != id && s.handles[o].Counted() {
      var first, h := ReleaseReader(s, o, id);
      var s1 := State(s.readers - 1, s.writer, s.handles[o := h]);
      LeadsKeepsInv(s, first, s1, id);
      FewerReaders(s, s1);
      hide Leads, Inv, Handle.Counted, Handle.Owner;
      var rest;
      rest, s' := ReleaseReaders(s1, id);
      LeadsOn(s, first, s1, rest, s', id);
      steps := first + rest;
    } else {
      steps, s' := [], s;
    }
  }

  lemma FewerReaders(s: State, s': State)
    requires Inv(s) && Inv(s') && s'.readers < s.readers
    ensures |CountedIds(s')| < |CountedIds(s)|
  {
  }

  // How far an owner is from clearing the flag.
  function OwnerRank(h: Handle): nat {
    match h
    case WCheck(_) => 3
    case WHeld => 2
    case _ => 1
  }

  function OwnerStep(h: Handle, o: nat): Step {
    if h.WHeld? then Start(o, Unlock) else Run(o)
  }

  lemma OwnerMoves(s: State, o: nat, id: nat)
    requires o in s.handles && o != id && s.handles[o].Owner() && s.writer && s.readers == 0
    ensures var t := OwnerStep(s.handles[o], o);
            && Enabled(s, t) && Helpful(t, id) && o in Apply(s, t).handles
            && var h := Apply(s, t).handles[o];
               && Apply(s, t) == State(0, h.Owner(), s.handles[o := h])
               && !h.Counted() && (h.Owner() ==> OwnerRank(h) < OwnerRank(s.handles[o]))
  {
  }

  // With no reader counted, an owner can be brought to clear the flag.
  lemma {:induction false} ReleaseOwner(s: State, o: nat, id: nat) returns (steps: seq<Step>, h: Handle)
    requires o in s.handles && o != id && s.handles[o].Owner() && s.writer && s.readers == 0
    ensures Leads(s, steps, State(0, false, s.handles[o := h]), id) && !h.Counted() && !h.Owner()
    decreases OwnerRank(s.handles[o])
  {
    OwnerMoves(s, o, id);
    var t := OwnerStep(s.handles[o], o);
    hide Apply, Enabled, Leads, OwnerStep, OwnerRank, Helpful, Handle.Counted, Handle.Owner;
    OneStep(s, t, id);
    var s1 := Apply(s, t);
    steps, h := [t], s1.handles[o];
    if h.Owner() {
      var rest;
      rest, h := ReleaseOwner(s1, o, id);
      assert s1.handles[o := h] == s.handles[o := h];
      LeadsOn(s, [t], s1, rest, State(0, false, s.handles[o := h]), id);
      steps := [t] + rest;
    }
  }

  predicate Holding(h: Handle) {
    h.RHeld? || h.WHeld?
  }

  function RetreatRank(h: Handle): nat {
    match h
    case RCheck(_) => 2
    case RBack(_) => 1
    case RUnlock(_) => 1
    case _ => 0
  }

  lemma RetreatMoves(s: State, id: nat)
    requires id in s.handles && Acquiring(s.handles[id]) && s.handles[id].Counted()
    ensures Enabled(s, Run(id)) && id in Apply(s, Run(id)).handles
    ensures var h := Apply(s, Run(id)).handles[id];
            Holding(h) || (Acquiring(h) && RetreatRank(h) < RetreatRank(s.handles[id]))
  {
  }

  // An acquiring reader gets the lock or gives up its count for now.
  lemma {:induction false} Retreat(s: State, id: nat) returns (steps: seq<Step>, s': State)
    requires id in s.handles && Acquiring(s.handles[id])
    ensures Leads(s, steps, s', id) && id in s'.handles
    ensures Holding(s'.handles[id]) || (Acquiring(s'.handles[id]) && !s'.handles[id].Counted())
    decreases RetreatRank(s.handles[id])
  {
    if s.handles[id].Counted() {
      RetreatMoves(s, id);
      OneStep(s, Run(id), id);
      hide Apply, Enabled, Leads, RetreatRank, Acquiring, Holding, Handle.Counted;
      var s1 := Apply(s, Run(id));
      steps, s' := [Run(id)], s1;
      if !Holding(s1.handles[id]) {
        var rest;
        rest, s' := Retreat(s1, id);
        LeadsOn(s, [Run(id)], s1, rest, s', id);
        steps := [Run(id)] + rest;
      }
    } else {
      steps, s' := [], s;
    }
  }

  lemma {:induction false} RunAlone(s: State, id: nat, n: nat) returns (steps: seq<Step>, s': State)
    requires id in s.handles
    ensures Leads(s, steps, s', id) && id in s'.handles && s'.handles[id] == Alone(s.handles[id], s.readers, s.writer, n)
    ensures |steps| <= n && forall t :: t in steps ==> t == Run(id)
    decreases n
  {
    var h := s.handles[id];
    if n == 0 || h.AtRest() || Holding(h) {
      steps, s' := [], s;
    } else {
      OneStep(s, Run(id), id);
      var s1 := Apply(s, Run(id));
      var rest;
      rest, s' := RunAlone(s1, id, n - 1);
      LeadsOn(s, [Run(id)], s1, rest, s', id);
      steps := [Run(id)] + rest;
    }
  }

  // From a state where no reader is counted, at most one owner stands in the way.
  lemma ReleaseAll(s: State, id: nat) returns (steps: seq<Step>, s': State)
    requires Inv(s) && id in s.handles && !s.handles[id].Counted() && NoOtherReader(s, id)
    ensures Leads(s, steps, s', id) && Inv(s') && Uncontended(s', id) && id in s'.handles && s'.handles[id] == s.handles[id]
  {
    assert CountedIds(s) == {};
    if o :| o in s.handles && o != id && s.handles[o].Owner() {
      OwnerHasFlag(s, o);
      var h;
      steps, h := ReleaseOwner(s, o, id);
      s' := State(0, false, s.handles[o := h]);
      LeadsKeepsInv(s, steps, s', id);
      NoOwner(s');
    } else {
      steps, s' := [], s;
    }
  }

  lemma {:induction false} Acquires(s: State, id: nat) returns (steps: seq<Step>, s': State)
    requires Inv(s) && id in s.handles && Acquiring(s.handles[id]) && !s.handles[id].Counted()
    ensures Leads(s, steps, s', id) && id in s'.handles && Holding(s'.handles[id])
  {
    hide Leads, Inv, Handle.Counted, Handle.Owner;
    var a, s1 := ReleaseReaders(s, id);
    var b, s2 := ReleaseAll(s1, id);
    UncontendedSucceeds(s2, id);
    var c;
    c, s' := RunAlone(s2, id, 4);
    LeadsOn(s, a, s1, b, s2, id);
    LeadsOn(s, a + b, s2, c, s', id);
    steps := a + b + c;
  }

  /**
   In every state of every run, a blocking acquire can still end with the lock: there are finitely many steps, none of
   which starts another acquire, after which the object holds it.
   */
  lemma CanAlwaysAcquire(states: seq<State>, steps: seq<Step>, n: nat, id: nat) returns (more: seq<Step>)
    requires IsRun(states, steps) && n < |states| && id in states[n].handles && Acquiring(states[n].handles[id])
    ensures CanRun(states[n], more) && id in End(states[n], more).handles
    ensures forall t :: t in more ==> t.Run? || (t.Start? && t.call == Unlock && t.id != id)
    ensures End(states[n], more).handles[id] == if IsReader(states[n].handles[id]) then RHeld else WHeld
  {
    RunKeepsInv(states, steps, n);
    var first, s1 := Retreat(states[n], id);
    more := first;
    if !Holding(s1.handles[id]) {
      LeadsKeepsInv(states[n], first, s1, id);
      var rest, s2 := Acquires(s1, id);
      LeadsOn(states[n], first, s1, rest, s2, id);
      more := first + rest;
    }
    LeadsKeepsKind(states[n], more, End(states[n], more), id);
  }

  lemma {:induction false} AloneKeepsKind(h: Handle, readers: int, writer: bool, n: nat)
    ensures IsReader(Alone(h, readers, writer, n)) <==> IsReader(h)
    decreases n
  {
    if n != 0 && !h.AtRest() && !Holding(h) {
      var (h', readers', writer') := Advance(h, readers, writer);
      AloneKeepsKind(h', readers', writer', n - 1);
    }
  }

  /**
   With no other object counted or owning the flag, a call of acquire or try_acquire on an object at rest or holding
   gets the lock: the call and at most four steps of the object, all of which are possible.
   */
  lemma CallSucceeds(s: State, id: nat, blocking: bool) returns (steps: seq<Step>)
    requires Inv(s) && id in s.handles && s.handles[id] in {RIdle, WIdle, RHeld, WHeld}
    requires forall o :: o in s.handles && o != id ==> !s.handles[o].Counted() && !s.handles[o].Owner()
    ensures 1 <= |steps| <= 5 && steps[0] == Start(id, Acquire(blocking)) && forall t :: t in steps[1..] ==> t == Run(id)
    ensures CanRun(s, steps) && id in End(s, steps).handles
    ensures End(s, steps).handles[id] == if IsReader(s.handles[id]) then RHeld else WHeld
  {
    var call := Start(id, Acquire(blocking));
    AcquireStarts(s, id, blocking);
    var s1 := Apply(s, call);
    StepKeepsInv(s, call);
    UncontendedSucceeds(s1, id);
    AloneKeepsKind(s1.handles[id], s1.readers, s1.writer, 4);
    var rest, s2 := RunAlone(s1, id, 4);
    steps := [call] + rest;
    assert steps[1..] == rest;
  }

  /**
   From every state of every run, a new object of either kind can be made, call acquire and end up with the lock, once
   the holders give it back.
   */
  lemma NewObjectCanAcquire(states: seq<State>, steps: seq<Step>, n: nat, id: nat, reader: bool) returns (more: seq<Step>)
    requires IsRun(states, steps) && n < |states| && id !in states[n].handles
    ensures |more| >= 2 && more[0] == New(id, reader) && more[1] == Start(id, Acquire(true))
    ensures forall t :: t in more[2..] ==> t.Run? || (t.Start? && t.call == Unlock && t.id != id)
    ensures CanRun(states[n], more) && id in End(states[n], more).handles
    ensures End(states[n], more).handles[id] == if reader then RHeld else WHeld
  {
    RunKeepsInv(states, steps, n);
    var s := states[n];
    CallsEnabled(s, id, Unlock, reader);
    var s1 := Apply(s, New(id, reader));
    StepKeepsInv(s, New(id, reader));
    AcquireStarts(s1, id, true);
    var call := Start(id, Acquire(true));
    var s2 := Apply(s1, call);
    StepKeepsInv(s1, call);
    assert !s2.handles[id].Counted();
    var rest, s3 := Acquires(s2, id);
    LeadsKeepsKind(s2, rest, s3, id);
    more := [New(id, reader), call] + rest;
    assert more[1..] == [call] + rest;
    assert more[1..][1..] == rest;
    assert more[2..] == rest;
  }
}
