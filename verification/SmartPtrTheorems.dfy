/**
 What the invariant means for whole runs. The results about references hold for every spin lock in
 runs that leave each operation its target, and progress holds for every spin lock in all runs.
 */
module SmartPtrTheorems {
  import opened SmartPtr
  import opened SmartPtrInvariant
  import opened SmartPtrCounts
  import opened SmartPtrSteps
  import opened SmartPtrLocks

  // ---------------------------------------------------------------- safety

  /** No operation under way is changing `p`. */
  ghost predicate Settled(st: State, p: Address) {
    p in st.ptrs && forall t :: t in st.ops ==> st.ops[t].kind.target != p
  }

  /** A pointer that nobody is changing never names freed memory. */
  ghost predicate NoDangling(st: State) {
    forall p :: Settled(st, p) && st.ptrs[p].loc.Some? ==>
      st.ptrs[p].loc.value < |st.stores| && st.stores[st.ptrs[p].loc.value].frees == 0
  }

  ghost predicate FreedOnce(st: State) {
    forall s :: 0 <= s < |st.stores| ==> st.stores[s].frees <= 1
  }

  function Naming(st: State, s: StorageId): set<Address> {
    set p | p in st.ptrs && st.ptrs[p].loc == Some(s)
  }

  /** Between operations: counts are the pointers naming the storage, and it is freed once they are gone. */
  ghost predicate ExactAtRest(st: State) {
    st.ops == map[] ==> forall s {:trigger Naming(st, s)} :: 0 <= s < |st.stores| ==>
      && st.stores[s].count == |Naming(st, s)|
      && st.stores[s].frees == (if Naming(st, s) == {} then 1 else 0)
  }

  ghost predicate Safe(st: State) {
    NoDangling(st) && FreedOnce(st) && ExactAtRest(st)
  }

  lemma InvIsSafe(st: State)
    requires Inv(st)
    ensures Safe(st)
  {
    forall p | Settled(st, p) && st.ptrs[p].loc.Some?
      ensures st.ptrs[p].loc.value < |st.stores| && st.stores[st.ptrs[p].loc.value].frees == 0
    {
      SettledRef(st, p);
      var s := st.ptrs[p].loc.value;
      assert p in Owners(st, s);
    }
    if st.ops == map[] {
      forall s {:trigger Naming(st, s)} | 0 <= s < |st.stores|
        ensures st.stores[s].count == |Naming(st, s)| && st.stores[s].frees == (if Naming(st, s) == {} then 1 else 0)
      {
        RestingOwners(st, s);
      }
    }
  }

  lemma SettledRef(st: State, p: Address)
    requires Settled(st, p)
    ensures Ref(st, p) == st.ptrs[p].loc
  {
  }

  lemma RestingOwners(st: State, s: StorageId)
    requires st.ops == map[]
    ensures Owners(st, s) == Naming(st, s)
  {
    forall p | p in st.ptrs ensures Ref(st, p) == st.ptrs[p].loc { SettledRef(st, p); }
  }

  /** The storage whose memory the thread's next step reads, updates or frees. */
  function Touches(st: State, t: Thread): Option<StorageId>
    requires t in st.ops
  {
    var op := st.ops[t];
    match op.pc
    case Drop => st.At(op.kind.target).loc
    case Free(s) => Some(s)
    case Add => st.NewRef(op)
    case Write => st.NewRef(op)
    case _ => None
  }

  /** No step of any operation ever touches freed storage. */
  lemma NoUseAfterFree(macro: SpinMacro, events: seq<Event>, t: Thread)
    requires ExclusiveRun(macro, events) && t in Exec(macro, INIT, events).ops
    ensures var st := Exec(macro, INIT, events);
            Touches(st, t).Some? ==> Touches(st, t).value < |st.stores| && st.stores[Touches(st, t).value].frees == 0
  {
    RunKeepsInv(macro, events);
    var st := Exec(macro, INIT, events);
    var op := st.ops[t];
    match op.pc
    case Drop =>
      TargetRef(st, t);
      if st.At(op.kind.target).loc.Some? {
        assert OpWf(st, op) && op.kind.target in Owners(st, st.At(op.kind.target).loc.value);
      }
    case Free(s) => assert Claims(op, s);
    case Add => NewRefLives(st, t);
    case Write => NewRefLives(st, t);
    case _ =>
  }

  /**
   At every moment the count of a storage is the number of pointers that account for it: those
   naming it, less the old references dropped by assignments and destructors in flight, plus the
   new ones already taken but not yet written.
   */
  lemma CountIsReferences(macro: SpinMacro, events: seq<Event>, s: StorageId)
    requires ExclusiveRun(macro, events) && s < |Exec(macro, INIT, events).stores|
    ensures var st := Exec(macro, INIT, events);
            && st.stores[s].count == |Owners(st, s)|
            && (st.stores[s].frees > 0 ==> Owners(st, s) == {})
            && (Owners(st, s) == {} && st.stores[s].frees == 0 ==> exists t :: t in st.ops && Claims(st.ops[t], s))
  {
    RunKeepsInv(macro, events);
    var st := Exec(macro, INIT, events);
    assert st.stores[s].count == |Owners(st, s)|;
  }

  // ---------------------------------------------------------------- the operations do what they promise

  /** An operation about to release its locks has made its target name what it was asked to. */
  ghost predicate Delivered(st: State, op: Op) {
    op.pc.Unlock1? && !op.kind.Destroy? ==> st.At(op.kind.target).loc == st.NewRef(op)
  }

  ghost predicate AllDelivered(st: State) {
    forall t {:trigger Delivered(st, st.ops[t])} :: t in st.ops ==> Delivered(st, st.ops[t])
  }

  /** A step changes where a pointer points only if it is its own operation's target, in the locked part. */
  lemma StepMovesOnlyItsTarget(macro: SpinMacro, st: State, t: Thread, p: Address)
    requires t in st.ops && OpWf(st, st.ops[t]) && p in st.ptrs
    requires p != st.ops[t].kind.target || !st.ops[t].Holds(p)
    ensures Advance(macro, st, t).At(p).loc == st.At(p).loc
  {
  }

  lemma StepDelivers(macro: SpinMacro, st: State, t: Thread, u: Thread)
    requires Wf(st) && Exclusive(st) && AllDelivered(st)
    requires t in st.ops && u in Advance(macro, st, t).ops
    ensures var st' := Advance(macro, st, t); Delivered(st', st'.ops[u])
  {
    if u == t {
      OwnStepDelivers(macro, st, t);
    } else {
      OtherStepDelivers(macro, st, t, u);
    }
  }

  lemma OwnStepDelivers(macro: SpinMacro, st: State, t: Thread)
    requires t in st.ops && OpWf(st, st.ops[t]) && Delivered(st, st.ops[t])
    requires t in Advance(macro, st, t).ops
    ensures var st' := Advance(macro, st, t); Delivered(st', st'.ops[t])
  {
  }

  lemma OtherStepDelivers(macro: SpinMacro, st: State, t: Thread, u: Thread)
    requires Wf(st) && Exclusive(st) && u != t && t in st.ops && u in st.ops && Delivered(st, st.ops[u])
    ensures var st' := Advance(macro, st, t); u in st'.ops && st'.ops[u] == st.ops[u] && Delivered(st', st.ops[u])
  {
    var k := st.ops[u].kind;
    assert OpWf(st, st.ops[t]) && OpWf(st, st.ops[u]);
    if st.ops[u].pc.Unlock1? {
      assert st.ops[u].Holds(st.ops[u].kind.target) ==> !st.ops[t].Holds(st.ops[u].kind.target);
      assert !st.ops[u].Holds(st.ops[t].kind.target) || !st.ops[t].Holds(st.ops[t].kind.target);
      StepMovesOnlyItsTarget(macro, st, t, k.target);
      StepMovesOnlyItsTarget(macro, st, t, k.Source());
    }
  }

  /**
   Whatever the other threads do meanwhile, a copy or assignment leaves its target naming the
   source's storage, and a raw constructor the storage it made.
   */
  lemma {:induction false} OperationsDeliver(macro: SpinMacro, events: seq<Event>)
    requires ExclusiveRun(macro, events)
    ensures AllDelivered(Exec(macro, INIT, events))
  {
    if events != [] {
      var before, e := events[..|events| - 1], events[|events| - 1];
      ExclusivePrefix(macro, events);
      OperationsDeliver(macro, before);
      RunKeepsInv(macro, before);
      NextDelivers(macro, Exec(macro, INIT, before), e);
    }
  }

  lemma NextDelivers(macro: SpinMacro, st: State, e: Event)
    requires Inv(st) && AllDelivered(st)
    ensures AllDelivered(Next(macro, st, e))
  {
    var st' := Next(macro, st, e);
    forall u | u in st'.ops
      ensures Delivered(st', st'.ops[u])
    {
      if e.Step? && e.t in st.ops {
        StepDelivers(macro, st, e.t, u);
      } else if u in st.ops {
        assert OpWf(st, st.ops[u]) && Delivered(st, st.ops[u]);
      }
    }
  }

  // ---------------------------------------------------------------- deadlock freedom

  /** The thread is at a lock that is taken. */
  predicate AtTakenLock(st: State, t: Thread)
    requires t in st.ops
  {
    || (st.ops[t].pc.Lock1? && st.At(st.ops[t].kind.First()).lock.Some?)
    || (st.ops[t].pc.Lock2? && st.At(st.ops[t].kind.Second()).lock.Some?)
  }

  function Wanted(op: Op): Address {
    if op.pc.Lock1? then op.kind.First() else op.kind.Second()
  }

  function Above(st: State, p: Address): set<Address> {
    set q | q in st.ptrs && q > p
  }

  /** Following the lock each thread waits for leads upwards in the address order, so to one that can step. */
  lemma {:induction false} FindRunner(st: State, t: Thread) returns (u: Thread)
    requires Wf(st) && Locks(st) && t in st.ops
    ensures u in st.ops && !AtTakenLock(st, u)
    decreases Above(st, Wanted(st.ops[t]))
  {
    u := t;
    if AtTakenLock(st, t) {
      assert OpWf(st, st.ops[t]);
      var p := Wanted(st.ops[t]);
      var holder := st.ptrs[p].lock.value;
      assert st.ops[holder].Holds(p) && OpWf(st, st.ops[holder]);
      u := holder;
      if AtTakenLock(st, holder) {
        var p' := Wanted(st.ops[holder]);
        assert p' in Above(st, p) && p' !in Above(st, p');
        u := FindRunner(st, holder);
      }
    }
  }

  /** A step away from a taken lock, or past it when the spin lock does not wait, changes the state. */
  lemma StepIsReal(macro: SpinMacro, st: State, t: Thread)
    requires t in st.ops && OpWf(st, st.ops[t]) && (AtTakenLock(st, t) ==> !macro.Excludes())
    ensures Advance(macro, st, t) != st
  {
    var st' := Advance(macro, st, t);
    if t in st'.ops && st'.ops[t] == st.ops[t] {
      assert st'.At(Wanted(st.ops[t])) != st.At(Wanted(st.ops[t]));
    }
  }

  /** With every spin lock, in every reachable state with an unfinished operation, some thread has a step that changes the state. */
  lemma NoDeadlock(macro: SpinMacro, events: seq<Event>)
    requires Exec(macro, INIT, events).ops != map[]
    ensures var st := Exec(macro, INIT, events); exists t :: t in st.ops && Advance(macro, st, t) != st
  {
    RunKeepsWf(macro, events);
    var st := Exec(macro, INIT, events);
    var t :| t in st.ops;
    if macro.Excludes() {
      RunKeepsLocks(macro, events);
      t := FindRunner(st, t);
    }
    assert OpWf(st, st.ops[t]);
    StepIsReal(macro, st, t);
  }

  // ---------------------------------------------------------------- every run can be finished

  /** An upper bound on the places in the code an operation still has to pass. */
  function Remaining(op: Op): nat {
    match op.pc
    case Lock1 => 10
    case Lock2 => 9
    case Make => 8
    case Compare => 7
    case Drop => 6
    case Free(_) => 5
    case Add => 4
    case Write => 3
    case Unlock1 => 2
    case Unlock2 => 1
  }

  ghost function Work(ops: map<Thread, Op>): nat {
    if ops == map[] then 0 else
      var t :| t in ops;
      Remaining(ops[t]) + Work(ops - {t})
  }

  lemma {:induction false} WorkOf(ops: map<Thread, Op>, t: Thread)
    requires t in ops
    ensures Work(ops) == Remaining(ops[t]) + Work(ops - {t})
  {
    var u :| u in ops && Work(ops) == Remaining(ops[u]) + Work(ops - {u});
    if u != t {
      WorkOf(ops - {u}, t);
      WorkOf(ops - {t}, u);
      assert ops - {u} - {t} == ops - {t} - {u};
    }
  }

  /** Thread `t` has passed a place in its code, or finished, and no other operation has moved. */
  ghost predicate Passed(before: map<Thread, Op>, after: map<Thread, Op>, t: Thread)
    requires t in before
  {
    after == before - {t} || (t in after && after == before[t := after[t]] && Remaining(after[t]) < Remaining(before[t]))
  }

  lemma {:induction false} WorkShrinks(before: map<Thread, Op>, after: map<Thread, Op>, t: Thread)
    requires t in before && Passed(before, after, t)
    ensures Work(after) < Work(before)
  {
    WorkOf(before, t);
    if t in after {
      WorkOf(after, t);
      assert after - {t} == before - {t};
    }
  }

  /** A step passes a place in the code, unless it is at a lock whose loop it does not end. */
  lemma StepPasses(macro: SpinMacro, st: State, t: Thread)
    requires t in st.ops && OpWf(st, st.ops[t])
    requires (st.ops[t].pc.Lock1? || st.ops[t].pc.Lock2?) ==> macro.LoopEnds(AtTakenLock(st, t))
    ensures Passed(st.ops, Advance(macro, st, t).ops, t)
  {
  }

  /** A round on a free lock whose loop it does not end leaves the lock taken. */
  lemma StepTakes(macro: SpinMacro, st: State, t: Thread)
    requires t in st.ops && OpWf(st, st.ops[t]) && (st.ops[t].pc.Lock1? || st.ops[t].pc.Lock2?)
    requires !AtTakenLock(st, t) && !macro.LoopEnds(false)
    ensures Advance(macro, st, t).ops == st.ops && AtTakenLock(Advance(macro, st, t), t)
  {
  }

  ghost predicate Ready(macro: SpinMacro, st: State) {
    Wf(st) && (macro.Excludes() ==> Locks(st))
  }

  lemma StepReady(macro: SpinMacro, st: State, t: Thread)
    requires Ready(macro, st) && t in st.ops
    ensures Ready(macro, Advance(macro, st, t))
  {
    StepWf(macro, st, t);
    if macro.Excludes() {
      StepLocks(macro, st, t);
    }
  }

  /** One or two steps of one thread pass a place in its code. */
  lemma MoveOn(macro: SpinMacro, st: State) returns (moves: seq<Event>)
    requires Ready(macro, st) && st.ops != map[]
    ensures |moves| <= 2 && forall i :: 0 <= i < |moves| ==> moves[i].Step?
    ensures Ready(macro, Exec(macro, st, moves)) && Work(Exec(macro, st, moves).ops) < Work(st.ops)
  {
    var t :| t in st.ops;
    if macro.Excludes() {
      t := FindRunner(st, t);
    }
    assert OpWf(st, st.ops[t]);
    StepReady(macro, st, t);
    ExecOne(macro, st, Step(t));
    moves := [Step(t)];
    if (st.ops[t].pc.Lock1? || st.ops[t].pc.Lock2?) && !macro.LoopEnds(AtTakenLock(st, t)) {
      var taken := Advance(macro, st, t);
      StepTakes(macro, st, t);
      StepReady(macro, taken, t);
      assert OpWf(taken, taken.ops[t]);
      StepPasses(macro, taken, t);
      WorkShrinks(taken.ops, Advance(macro, taken, t).ops, t);
      ExecOne(macro, taken, Step(t));
      ExecAppend(macro, st, moves, [Step(t)]);
      moves := moves + [Step(t)];
    } else {
      StepPasses(macro, st, t);
      WorkShrinks(st.ops, Advance(macro, st, t).ops, t);
    }
  }

  lemma ExecOne(macro: SpinMacro, st: State, e: Event)
    ensures Exec(macro, st, [e]) == Next(macro, st, e)
  {
    assert [e][..0] == [] && Exec(macro, st, [e][..0]) == st;
  }

  lemma {:induction false} ExecAppend(macro: SpinMacro, st: State, a: seq<Event>, b: seq<Event>)
    ensures Exec(macro, st, a + b) == Exec(macro, Exec(macro, st, a), b)
  {
    if b == [] {
      assert a + b == a;
    } else {
      var c := b[..|b| - 1];
      ExecAppend(macro, st, a, c);
      assert (a + b)[..|a + b| - 1] == a + c;
    }
  }

  lemma {:induction false} Drain(macro: SpinMacro, st: State) returns (schedule: seq<Event>)
    requires Ready(macro, st)
    ensures |schedule| <= 2 * Work(st.ops) && forall i :: 0 <= i < |schedule| ==> schedule[i].Step?
    ensures Exec(macro, st, schedule).ops == map[]
    decreases Work(st.ops)
  {
    schedule := [];
    if st.ops != map[] {
      var moves := MoveOn(macro, st);
      var rest := Drain(macro, Exec(macro, st, moves));
      ExecAppend(macro, st, moves, rest);
      schedule := moves + rest;
    }
  }

  /** With every spin lock, every run can be continued by a bounded number of steps that finish all operations. */
  lemma EveryRunCanFinish(macro: SpinMacro, events: seq<Event>) returns (schedule: seq<Event>)
    ensures |schedule| <= 2 * Work(Exec(macro, INIT, events).ops) && forall i :: 0 <= i < |schedule| ==> schedule[i].Step?
    ensures Exec(macro, INIT, events + schedule).ops == map[]
  {
    RunKeepsWf(macro, events);
    if macro.Excludes() {
      RunKeepsLocks(macro, events);
    }
    schedule := Drain(macro, Exec(macro, INIT, events));
    ExecAppend(macro, INIT, events, schedule);
  }
}
