/** What the locks do: with a spin lock that waits, every run leaves each operation its pointers to itself. */
module SmartPtrLocks {
  import opened SmartPtr
  import opened SmartPtrInvariant
  import opened SmartPtrSteps

  /** A lock is held exactly by the operation whose place in its code says so. */
  ghost predicate Locks(st: State) {
    && (forall p :: p in st.ptrs && st.ptrs[p].lock.Some? ==> st.ptrs[p].lock.value in st.ops && st.ops[st.ptrs[p].lock.value].Holds(p))
    && (forall p, t {:trigger st.ops[t].Holds(p)} :: t in st.ops && st.ops[t].Holds(p) ==> p in st.ptrs && st.ptrs[p].lock == Some(t))
  }

  ghost predicate MutualExclusion(st: State) {
    forall t, u, p {:trigger st.ops[t].Holds(p), st.ops[u].Holds(p)} ::
      t in st.ops && u in st.ops && st.ops[t].Holds(p) && st.ops[u].Holds(p) ==> t == u
  }

  lemma LocksExclude(st: State)
    requires Locks(st)
    ensures MutualExclusion(st) && Exclusive(st)
  {
  }

  // ---------------------------------------------------------------- well-formedness needs no lock

  /** A step within the operation: the pointers stay, up to their locks. */
  lemma MoveWf(st: State, locked: State, t: Thread, stores: seq<Storage>, op: Op)
    requires Wf(st) && Blind(st, locked) && t in st.ops
    requires op.kind == st.ops[t].kind && PcFits(op) && (Unwritten(op) ==> Unwritten(st.ops[t]))
    ensures Wf(State(locked.ptrs, stores, locked.ops[t := op]))
  {
    BlindWf(st, locked);
    LocalWf(locked, t, stores, op);
  }

  lemma SpinWf(macro: SpinMacro, st: State, t: Thread)
    requires t in st.ops && Wf(st) && (st.ops[t].pc.Lock1? || st.ops[t].pc.Lock2?)
    ensures Wf(Advance(macro, st, t))
  {
    var op := st.ops[t];
    assert OpWf(st, op);
    var p := if op.pc.Lock1? then op.kind.First() else op.kind.Second();
    var locked := if st.At(p).lock.Some? then st else st.WithLock(p, Some(t));
    LockIsBlind(st, p, Some(t));
    BlindWf(st, locked);
    if macro.LoopEnds(st.At(p).lock.Some?) {
      MoveWf(st, locked, t, st.stores, op.(pc := if op.pc.Lock1? && op.kind.Two() then Lock2 else op.kind.Body()));
    }
  }

  /** With any spin lock operations stay well formed. */
  lemma StepWf(macro: SpinMacro, st: State, t: Thread)
    requires t in st.ops && Wf(st)
    ensures Wf(Advance(macro, st, t))
  {
    var op, st' := st.ops[t], Advance(macro, st, t);
    assert OpWf(st, op);
    match op.pc
    case Lock1 => SpinWf(macro, st, t);
    case Lock2 => SpinWf(macro, st, t);
    case Write => WriteWf(st, t, op.(pc := Unlock1), st.NewRef(op));
    case Unlock1 =>
      if op.kind.Two() {
        LockIsBlind(st, op.kind.target, None);
        MoveWf(st, st.WithLock(op.kind.target, None), t, st.stores, op.(pc := Unlock2));
      } else if op.kind.Destroy? {
        GoneWf(st, t);
      } else {
        FinishWf(st, t, st');
      }
    case Unlock2 => FinishWf(st, t, st');
    case _ =>
      assert st' == State(st.ptrs, st'.stores, st.ops[t := st'.ops[t]]);
      MoveWf(st, st, t, st'.stores, st'.ops[t]);
  }

  lemma {:induction false} RunKeepsWf(macro: SpinMacro, events: seq<Event>)
    ensures Wf(Exec(macro, INIT, events))
  {
    if events != [] {
      var before := events[..|events| - 1];
      RunKeepsWf(macro, before);
      NextWf(macro, Exec(macro, INIT, before), events[|events| - 1]);
    }
  }

  lemma NextWf(macro: SpinMacro, st: State, e: Event)
    requires Wf(st)
    ensures Wf(Next(macro, st, e))
  {
    match e
    case Default(p) =>
      forall u | u in st.ops ensures OpWf(Next(macro, st, e), st.ops[u]) { assert OpWf(st, st.ops[u]); }
    case Begin(t, k) => if Allowed(st, t, k) { BeginWf(macro, st, t, k); }
    case Step(t) => if t in st.ops { StepWf(macro, st, t); }
  }

  // ---------------------------------------------------------------- the locks themselves

  /** Moving on without touching a lock. */
  lemma LocalLocks(st: State, st': State, t: Thread, op: Op)
    requires Locks(st) && t in st.ops && st'.ops == st.ops[t := op]
    requires st'.ptrs.Keys == st.ptrs.Keys && forall p :: p in st.ptrs ==> st'.ptrs[p].lock == st.ptrs[p].lock
    requires forall q :: op.Holds(q) <==> st.ops[t].Holds(q)
    ensures Locks(st')
  {
  }

  /** Taking the free lock of `p`. */
  lemma AcquireLocks(st: State, t: Thread, p: Address, op: Op)
    requires Locks(st) && t in st.ops && p in st.ptrs && st.ptrs[p].lock == None
    requires forall q :: op.Holds(q) <==> st.ops[t].Holds(q) || q == p
    ensures Locks(State(st.ptrs[p := st.ptrs[p].(lock := Some(t))], st.stores, st.ops[t := op]))
  {
  }

  /** Releasing the lock of `p`, another still to come. */
  lemma ReleaseLocks(st: State, t: Thread, p: Address, op: Op)
    requires Locks(st) && t in st.ops && p in st.ptrs && st.ptrs[p].lock == Some(t)
    requires forall q :: op.Holds(q) <==> st.ops[t].Holds(q) && q != p
    ensures Locks(State(st.ptrs[p := st.ptrs[p].(lock := None)], st.stores, st.ops[t := op]))
  {
  }

  /** The last step: the operation and its one remaining lock are gone, and perhaps the pointer with it. */
  lemma FinishLocks(st: State, st': State, t: Thread, p: Address)
    requires Locks(st) && t in st.ops && st'.ops == st.ops - {t} && p in st.ptrs
    requires forall q :: st.ops[t].Holds(q) <==> q == p
    requires st.ptrs.Keys - {p} <= st'.ptrs.Keys <= st.ptrs.Keys && (p in st'.ptrs ==> st'.ptrs[p].lock == None)
    requires forall q :: q in st.ptrs && q != p ==> st'.ptrs[q].lock == st.ptrs[q].lock
    ensures Locks(st')
  {
    assert st.ops[t].Holds(p) && st.ptrs[p].lock == Some(t);
  }

  lemma SpinLocks(macro: SpinMacro, st: State, t: Thread)
    requires macro.Excludes() && t in st.ops && Wf(st) && Locks(st) && (st.ops[t].pc.Lock1? || st.ops[t].pc.Lock2?)
    ensures Locks(Advance(macro, st, t))
  {
    var op := st.ops[t];
    assert OpWf(st, op);
    var p := if op.pc.Lock1? then op.kind.First() else op.kind.Second();
    if st.ptrs[p].lock == None {
      AcquireLocks(st, t, p, op.(pc := if op.pc.Lock1? && op.kind.Two() then Lock2 else op.kind.Body()));
    } else {
      assert Advance(macro, st, t) == st;
    }
  }

  /** With a spin lock that waits, every step leaves each lock with the operation that is in its code. */
  lemma StepLocks(macro: SpinMacro, st: State, t: Thread)
    requires macro.Excludes() && t in st.ops && Wf(st) && Locks(st)
    ensures Locks(Advance(macro, st, t))
  {
    var op, st' := st.ops[t], Advance(macro, st, t);
    assert OpWf(st, op);
    match op.pc
    case Lock1 => SpinLocks(macro, st, t);
    case Lock2 => SpinLocks(macro, st, t);
    case Unlock1 =>
      assert op.Holds(op.kind.target);
      if op.kind.Two() {
        ReleaseLocks(st, t, op.kind.target, op.(pc := Unlock2));
      } else {
        FinishLocks(st, st', t, op.kind.target);
      }
    case Unlock2 => FinishLocks(st, st', t, op.kind.Source());
    case _ => LocalLocks(st, st', t, st'.ops[t]);
  }

  lemma {:induction false} RunKeepsLocks(macro: SpinMacro, events: seq<Event>)
    requires macro.Excludes()
    ensures Locks(Exec(macro, INIT, events))
  {
    if events != [] {
      var before, e := events[..|events| - 1], events[|events| - 1];
      RunKeepsLocks(macro, before);
      RunKeepsWf(macro, before);
      var st := Exec(macro, INIT, before);
      match e
      case Default(p) =>
      case Begin(t, k) => if Allowed(st, t, k) { BeginLocks(macro, st, t, k); }
      case Step(t) => if t in st.ops { StepLocks(macro, st, t); }
    }
  }

  lemma BeginLocks(macro: SpinMacro, st: State, t: Thread, k: Kind)
    requires Wf(st) && Locks(st) && Allowed(st, t, k)
    ensures Locks(Next(macro, st, Begin(t, k)))
  {
    var st' := Next(macro, st, Begin(t, k));
    forall p, u | u in st'.ops && st'.ops[u].Holds(p)
      ensures p in st'.ptrs && st'.ptrs[p].lock == Some(u)
    {
      assert u != t && p in st.ptrs && st.ptrs[p].lock == Some(u);
    }
  }

  /** A spin lock that waits makes every run exclusive. */
  lemma WaitingLockExcludes(macro: SpinMacro, events: seq<Event>)
    requires macro.Excludes()
    ensures ExclusiveRun(macro, events)
    ensures MutualExclusion(Exec(macro, INIT, events))
  {
    forall k {:trigger events[..k]} | 0 <= k <= |events|
      ensures Exclusive(Exec(macro, INIT, events[..k]))
    {
      RunKeepsLocks(macro, events[..k]);
      LocksExclude(Exec(macro, INIT, events[..k]));
    }
    RunKeepsLocks(macro, events);
    LocksExclude(Exec(macro, INIT, events));
  }
}
