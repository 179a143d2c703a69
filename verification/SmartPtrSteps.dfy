/** Every step of every operation keeps counts and frees exact, as long as no operation's target is disturbed. */
module SmartPtrSteps {
  import opened SmartPtr
  import opened SmartPtrInvariant
  import opened SmartPtrCounts

  /** What the target itself accounts for, while its thread has it to itself. */
  lemma TargetRef(st: State, t: Thread)
    requires Exclusive(st) && t in st.ops && st.ops[t].Holds(st.ops[t].kind.target)
    ensures var op := st.ops[t];
            Ref(st, op.kind.target) == if Changing(st, t, op.kind.target) then InFlight(st, op) else st.At(op.kind.target).loc
  {
    if Changing(st, t, st.ops[t].kind.target) {
      RefOfChanging(st, t);
    } else {
      RefOfHeld(st, t, st.ops[t].kind.target);
    }
  }

  // ---------------------------------------------------------------- the locks do not matter by themselves

  lemma BlindKeeps(st: State, st': State)
    requires Data(st) && Exclusive(st) && Blind(st, st')
    ensures Data(st') && Exclusive(st')
  {
    BlindWf(st, st');
    forall q ensures Ref(st', q) == Ref(st, q) { BlindRef(st, st', q); }
    CountsKept(st, st');
    FreesKept(st, st');
  }

  /** Moving on without taking, dropping, making or freeing anything. */
  lemma MoveKeeps(st: State, t: Thread, pc: Pc)
    requires Data(st) && Exclusive(st) && t in st.ops && Exclusive(st.WithPc(t, pc))
    requires PcFits(st.ops[t].(pc := pc)) && (Unwritten(st.ops[t].(pc := pc)) ==> Unwritten(st.ops[t]))
    requires forall s: nat :: !Claims(st.ops[t], s) && !Claims(st.ops[t].(pc := pc), s)
    requires !Changing(st, t, st.ops[t].kind.target)
    requires pc.Add? ==> st.ops[t].kind.CopyOf? && Unwritten(st.ops[t])
    requires Changing(st.WithPc(t, pc), t, st.ops[t].kind.target) ==> pc.Add?
    ensures Data(st.WithPc(t, pc))
  {
    var op', st' := st.ops[t].(pc := pc), st.WithPc(t, pc);
    LocalWf(st, t, st.stores, op');
    forall q ensures Ref(st', q) == Ref(st, q) {
      if q == op'.kind.target && pc.Add? {
        CopyStarts(st, t);
      } else {
        LocalRef(st, t, st.stores, op', q);
      }
    }
    CountsKept(st, st');
    FreesKept(st, st');
  }

  /** A copy about to take its reference accounts for nothing, as it did before. */
  lemma CopyStarts(st: State, t: Thread)
    requires Wf(st) && t in st.ops && st.ops[t].kind.CopyOf? && Unwritten(st.ops[t]) && !Changing(st, t, st.ops[t].kind.target)
    requires Exclusive(st.WithPc(t, Add))
    ensures Ref(st, st.ops[t].kind.target) == None == Ref(st.WithPc(t, Add), st.ops[t].kind.target)
  {
    var op := st.ops[t];
    assert OpWf(st, op);
    RefOfChanging(st.WithPc(t, Add), t);
    forall u ensures !Changing(st, u, op.kind.target) {
      assert u in st.ops && u != t ==> !st.ops[u].kind.Uses(op.kind.target);
    }
  }

  /** Lock1 and Lock2: a round may set the lock, end the loop, both or neither. */
  lemma StepSpin(macro: SpinMacro, st: State, t: Thread)
    requires t in st.ops && Inv(st) && Exclusive(Advance(macro, st, t)) && (st.ops[t].pc.Lock1? || st.ops[t].pc.Lock2?)
    ensures Data(Advance(macro, st, t))
  {
    var op := st.ops[t];
    assert OpWf(st, op);
    var p := if op.pc.Lock1? then op.kind.First() else op.kind.Second();
    var next := if op.pc.Lock1? && op.kind.Two() then Lock2 else op.kind.Body();
    var locked := if st.At(p).lock.Some? then st else st.WithLock(p, Some(t));
    LockIsBlind(st, p, Some(t));
    BlindKeeps(st, locked);
    if macro.LoopEnds(st.At(p).lock.Some?) {
      assert Advance(macro, st, t) == locked.WithPc(t, next);
      MoveKeeps(locked, t, next);
    } else {
      assert Advance(macro, st, t) == locked;
    }
  }

  lemma StepMake(macro: SpinMacro, st: State, t: Thread)
    requires t in st.ops && Inv(st) && Exclusive(Advance(macro, st, t)) && st.ops[t].pc.Make?
    ensures Data(Advance(macro, st, t))
  {
    var op := st.ops[t];
    assert OpWf(st, op);
    var s := |st.stores|;
    var op' := Op(op.kind, Add, Some(s));
    var st' := State(st.ptrs, st.stores + [Storage(0, 0)], st.ops[t := op']);
    assert Advance(macro, st, t) == st';
    LocalWf(st, t, st'.stores, op');
    TargetRef(st, t);
    TargetRef(st', t);
    forall q ensures Ref(st', q) == Ref(st, q) { if q != op.kind.target { LocalRef(st, t, st'.stores, op', q); } }
    CountsKept(st, st');
    FreesMoved(st, st', t, s);
  }

  lemma StepCompare(macro: SpinMacro, st: State, t: Thread)
    requires t in st.ops && Inv(st) && Exclusive(Advance(macro, st, t)) && st.ops[t].pc.Compare?
    ensures Data(Advance(macro, st, t))
  {
    var op := st.ops[t];
    assert OpWf(st, op);
    var op' := op.(pc := if st.At(op.kind.Source()).loc != st.At(op.kind.target).loc then Drop else Unlock1);
    var st' := State(st.ptrs, st.stores, st.ops[t := op']);
    assert Advance(macro, st, t) == st';
    LocalWf(st, t, st'.stores, op');
    TargetRef(st, t);
    TargetRef(st', t);
    forall q ensures Ref(st', q) == Ref(st, q) { if q != op.kind.target { LocalRef(st, t, st'.stores, op', q); } }
    CountsKept(st, st');
    FreesKept(st, st');
  }

  /** The atomic decrement of a live count, in the state it leaves. */
  lemma DropKeeps(st: State, t: Thread, s: StorageId, st': State)
    requires t in st.ops && Inv(st) && st.ops[t].pc.Drop? && PcFits(st.ops[t])
    requires Ref(st, st.ops[t].kind.target) == Some(s) && st.ops[t].kind.target in st.ptrs
    requires s < |st.stores| && st.stores[s].count == |Owners(st, s)| > 0 && st.stores[s].frees == 0
    requires var left := st.stores[s].(count := st.stores[s].count - 1);
             st' == State(st.ptrs, st.stores[s := left], st.ops[t := st.ops[t].(pc := if left.count == 0 then Free(s) else st.ops[t].kind.AfterDrop())])
    requires Exclusive(st')
    ensures Data(st')
  {
    var op', target := st'.ops[t], st.ops[t].kind.target;
    LocalWf(st, t, st'.stores, op');
    TargetRef(st', t);
    forall q | q != target ensures Ref(st', q) == Ref(st, q) { LocalRef(st, t, st'.stores, op', q); }
    CountsDropped(st, st', target, s);
    forall u | u in st.ops && u != t ensures !Claims(st.ops[u], s) { }
    FreesMoved(st, st', t, s);
  }

  lemma StepDrop(macro: SpinMacro, st: State, t: Thread)
    requires t in st.ops && Inv(st) && Exclusive(Advance(macro, st, t)) && st.ops[t].pc.Drop?
    ensures Data(Advance(macro, st, t))
  {
    var op := st.ops[t];
    assert OpWf(st, op);
    var target, st' := op.kind.target, Advance(macro, st, t);
    TargetRef(st, t);
    var previous := st.At(target).loc;
    if previous.Some? {
      var s := previous.value;
      assert target in Owners(st, s) && s < |st.stores| && st.stores[s].count == |Owners(st, s)| > 0;
      DropKeeps(st, t, s, st');
    } else {
      var op' := op.(pc := op.kind.AfterDrop());
      assert st' == State(st.ptrs, st.stores, st.ops[t := op']);
      LocalWf(st, t, st.stores, op');
      TargetRef(st', t);
      forall q ensures Ref(st', q) == Ref(st, q) { if q != target { LocalRef(st, t, st.stores, op', q); } }
      CountsKept(st, st');
      FreesKept(st, st');
    }
  }

  lemma StepFree(macro: SpinMacro, st: State, t: Thread)
    requires t in st.ops && Inv(st) && Exclusive(Advance(macro, st, t)) && st.ops[t].pc.Free?
    ensures Data(Advance(macro, st, t))
    ensures var s := st.ops[t].pc.dead; s < |st.stores| && st.stores[s] == Storage(0, 0) && Owners(st, s) == {}
  {
    var op := st.ops[t];
    assert OpWf(st, op);
    var s := op.pc.dead;
    assert Claims(op, s) && st.stores[s] == Storage(0, 0) && |Owners(st, s)| == 0;
    var op' := op.(pc := op.kind.AfterDrop());
    var st' := State(st.ptrs, st.stores[s := Storage(0, 1)], st.ops[t := op']);
    assert Advance(macro, st, t) == st';
    LocalWf(st, t, st'.stores, op');
    TargetRef(st, t);
    TargetRef(st', t);
    forall q ensures Ref(st', q) == Ref(st, q) { if q != op.kind.target { LocalRef(st, t, st'.stores, op', q); } }
    CountsKept(st, st');
    FreesMoved(st, st', t, s);
  }

  /** The storage an operation is taking a reference to exists, is not freed, and is safe from it. */
  ghost predicate NewRefIsLive(st: State, t: Thread)
    requires t in st.ops
  {
    var r := st.NewRef(st.ops[t]);
    r.Some? ==> r.value < |st.stores| && st.stores[r.value].frees == 0 &&
                (st.ops[t].pc.Write? || st.ops[t].kind.Two() ==> st.stores[r.value].count > 0)
  }

  lemma NewRefLives(st: State, t: Thread)
    requires t in st.ops && Inv(st) && (st.ops[t].pc.Add? || st.ops[t].pc.Write?)
    ensures NewRefIsLive(st, t)
  {
    var op := st.ops[t];
    assert OpWf(st, op);
    var r := st.NewRef(op);
    if r.Some? {
      if op.kind.Two() {
        var q := op.kind.Source();
        RefOfHeld(st, t, q);
        assert q in Owners(st, r.value);
      } else if op.pc.Add? {
        assert Claims(op, r.value);
      } else {
        TargetRef(st, t);
        assert op.kind.target in Owners(st, r.value);
      }
    }
  }

  lemma StepAdd(macro: SpinMacro, st: State, t: Thread)
    requires t in st.ops && Inv(st) && Exclusive(Advance(macro, st, t)) && st.ops[t].pc.Add?
    ensures Data(Advance(macro, st, t)) && NewRefIsLive(st, t)
  {
    var op := st.ops[t];
    assert OpWf(st, op);
    var target := op.kind.target;
    var st' := Advance(macro, st, t);
    var op' := op.(pc := Write);
    assert st' == State(st.ptrs, st'.stores, st.ops[t := op']);
    LocalWf(st, t, st'.stores, op');
    TargetRef(st, t);
    TargetRef(st', t);
    NewRefLives(st, t);
    forall q | q != target ensures Ref(st', q) == Ref(st, q) { LocalRef(st, t, st'.stores, op', q); }
    var r := st.NewRef(op);
    if r.Some? {
      var s := r.value;
      CountsAdded(st, st', target, s);
      assert op.kind.FromRaw? ==> Claims(op, s);
      forall u | u in st.ops && u != t ensures !Claims(st.ops[u], s) { }
      FreesMoved(st, st', t, s);
    } else {
      CountsKept(st, st');
      FreesKept(st, st');
    }
  }

  lemma StepWrite(macro: SpinMacro, st: State, t: Thread)
    requires t in st.ops && Inv(st) && Exclusive(Advance(macro, st, t)) && st.ops[t].pc.Write?
    ensures Data(Advance(macro, st, t)) && NewRefIsLive(st, t)
  {
    var op := st.ops[t];
    assert OpWf(st, op);
    var op' := op.(pc := Unlock1);
    var st' := Written(st, t, op', st.NewRef(op));
    assert Advance(macro, st, t) == st';
    WriteWf(st, t, op', st.NewRef(op));
    NewRefLives(st, t);
    forall q ensures Ref(st', q) == Ref(st, q) { WriteRef(st, t, op', q); }
    CountsKept(st, st');
    FreesKept(st, st');
  }

  lemma StepRelease(macro: SpinMacro, st: State, t: Thread)
    requires t in st.ops && Inv(st) && Exclusive(Advance(macro, st, t)) && st.ops[t].pc.Unlock1? && st.ops[t].kind.Two()
    ensures Data(Advance(macro, st, t))
  {
    var p := st.ops[t].kind.target;
    LockIsBlind(st, p, None);
    BlindKeeps(st, st.WithLock(p, None));
    MoveKeeps(st.WithLock(p, None), t, Unlock2);
  }

  lemma StepGone(macro: SpinMacro, st: State, t: Thread)
    requires t in st.ops && Inv(st) && st.ops[t].pc.Unlock1? && st.ops[t].kind.Destroy?
    ensures Data(Advance(macro, st, t))
  {
    var st' := Gone(st, t);
    assert OpWf(st, st.ops[t]) && Advance(macro, st, t) == st';
    GoneWf(st, t);
    forall u | u in st.ops && u != t ensures !st.ops[u].kind.Uses(st.ops[t].kind.target) { }
    forall q ensures q != st.ops[t].kind.target ==> Ref(st', q) == Ref(st, q) ensures Ref(st, st.ops[t].kind.target) == None { GoneRef(st, t, q); }
    CountsKept(st, st');
    FreesKept(st, st');
  }

  lemma StepFinish(macro: SpinMacro, st: State, t: Thread)
    requires t in st.ops && Inv(st)
    requires (st.ops[t].pc.Unlock1? && st.ops[t].kind.FromRaw?) || st.ops[t].pc.Unlock2?
    ensures Data(Advance(macro, st, t))
  {
    var st' := Advance(macro, st, t);
    assert OpWf(st, st.ops[t]) && Finished(st, t, st');
    FinishWf(st, t, st');
    forall q ensures Ref(st', q) == Ref(st, q) { FinishRef(st, t, st', q); }
    CountsKept(st, st');
    FreesKept(st, st');
  }

  /**
   The step theorem, for every spin lock: counts and frees stay exact over any step after which
   operations in their locked part still have their targets to themselves.
   */
  lemma StepKeepsData(macro: SpinMacro, st: State, t: Thread)
    requires t in st.ops && Inv(st) && Exclusive(Advance(macro, st, t))
    ensures Data(Advance(macro, st, t))
  {
    match st.ops[t].pc
    case Lock1 => StepSpin(macro, st, t);
    case Lock2 => StepSpin(macro, st, t);
    case Make => StepMake(macro, st, t);
    case Compare => StepCompare(macro, st, t);
    case Drop => StepDrop(macro, st, t);
    case Free(_) => StepFree(macro, st, t);
    case Add => StepAdd(macro, st, t);
    case Write => StepWrite(macro, st, t);
    case Unlock1 =>
      if st.ops[t].kind.Two() {
        StepRelease(macro, st, t);
      } else if st.ops[t].kind.Destroy? {
        StepGone(macro, st, t);
      } else {
        StepFinish(macro, st, t);
      }
    case Unlock2 => StepFinish(macro, st, t);
  }

  // ---------------------------------------------------------------- starting operations

  /** A null pointer object appears. */
  lemma DefaultKeepsData(macro: SpinMacro, st: State, p: Address)
    requires Inv(st)
    ensures Data(Next(macro, st, Default(p)))
  {
    var st' := Next(macro, st, Default(p));
    if p !in st.ptrs {
      forall u | u in st'.ops
        ensures OpWf(st', st'.ops[u])
      {
        assert OpWf(st, st.ops[u]);
      }
      forall q ensures q in st'.ptrs && q !in st.ptrs ==> Ref(st', q) == None
               ensures q in st.ptrs ==> Ref(st', q) == Ref(st, q) {
        NewcomerRef(st, st', q);
      }
      CountsKept(st, st');
      FreesKept(st, st');
    }
  }

  /** Starting an operation, or a pointer appearing in unused memory, changes nobody's reference. */
  lemma NewcomerRef(st: State, st': State, q: Address)
    requires Wf(st) && Exclusive(st) && st.ptrs.Keys <= st'.ptrs.Keys
    requires forall u :: u in st.ops ==> u in st'.ops && st'.ops[u] == st.ops[u]
    requires forall u :: u in st'.ops && u !in st.ops ==> st'.ops[u].pc.Lock1?
    requires forall p :: st'.At(p).loc == st.At(p).loc
    ensures Ref(st', q) == Ref(st, q)
    ensures q !in st.ptrs ==> Ref(st, q) == None
  {
    SameRef(st, st', q);
    if u :| Changing(st, u, q) {
      assert OpWf(st, st.ops[u]);
    }
  }

  lemma BeginWf(macro: SpinMacro, st: State, t: Thread, k: Kind)
    requires Wf(st) && Allowed(st, t, k)
    ensures Wf(Next(macro, st, Begin(t, k)))
  {
    var st' := Next(macro, st, Begin(t, k));
    forall u | u in st'.ops
      ensures OpWf(st', st'.ops[u])
      ensures u != t ==> (!k.Assign? ==> !st'.ops[u].kind.Uses(k.target)) && (!st'.ops[u].kind.Assign? ==> !k.Uses(st'.ops[u].kind.target))
    {
      assert u != t ==> OpWf(st, st.ops[u]);
    }
  }

  lemma BeginKeepsData(macro: SpinMacro, st: State, t: Thread, k: Kind)
    requires Inv(st) && Allowed(st, t, k)
    ensures Data(Next(macro, st, Begin(t, k)))
  {
    var st' := Next(macro, st, Begin(t, k));
    BeginWf(macro, st, t, k);
    forall q ensures q in st'.ptrs && q !in st.ptrs ==> Ref(st', q) == None
             ensures q in st.ptrs ==> Ref(st', q) == Ref(st, q) {
      NewcomerRef(st, st', q);
    }
    CountsKept(st, st');
    FreesKept(st, st');
  }

  // ---------------------------------------------------------------- whole runs

  /** At every moment of the run operations in their locked part have their targets to themselves. */
  ghost predicate ExclusiveRun(macro: SpinMacro, events: seq<Event>) {
    forall k {:trigger events[..k]} :: 0 <= k <= |events| ==> Exclusive(Exec(macro, INIT, events[..k]))
  }

  lemma ExclusivePrefix(macro: SpinMacro, events: seq<Event>)
    requires ExclusiveRun(macro, events)
    ensures Exclusive(Exec(macro, INIT, events))
    ensures events != [] ==> ExclusiveRun(macro, events[..|events| - 1])
  {
    assert events[..|events|] == events;
    if events != [] {
      var before := events[..|events| - 1];
      forall k {:trigger before[..k]} | 0 <= k <= |before|
        ensures Exclusive(Exec(macro, INIT, before[..k]))
      {
        assert before[..k] == events[..k];
      }
    }
  }

  /** In every such run, of any length, with any number of threads and any spin lock, the invariant holds. */
  lemma {:induction false} RunKeepsInv(macro: SpinMacro, events: seq<Event>)
    requires ExclusiveRun(macro, events)
    ensures Inv(Exec(macro, INIT, events))
  {
    ExclusivePrefix(macro, events);
    if events == [] {
      InitIsSound();
    } else {
      var st := Exec(macro, INIT, events[..|events| - 1]);
      RunKeepsInv(macro, events[..|events| - 1]);
      match events[|events| - 1]
      case Default(p) => DefaultKeepsData(macro, st, p);
      case Begin(t, k) => if Allowed(st, t, k) { BeginKeepsData(macro, st, t, k); }
      case Step(t) => if t in st.ops { StepKeepsData(macro, st, t); }
    }
  }

  lemma InitIsSound()
    ensures Inv(INIT)
  {
  }
}
