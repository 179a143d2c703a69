/**
 What the steps of the smart-pointer protocol keep. Nothing here depends on the locks themselves,
 only on whether an operation that is changing a pointer has it to itself.
 */
module SmartPtrInvariant {
  import opened SmartPtr

  predicate PcFits(op: Op) {
    match op.pc
    case Lock1 => true
    case Lock2 => op.kind.Two()
    case Make => op.kind.FromRaw?
    case Compare => op.kind.Assign?
    case Drop => op.kind.Assign? || op.kind.Destroy?
    case Free(_) => op.kind.Assign? || op.kind.Destroy?
    case Add => !op.kind.Destroy? && (op.kind.FromRaw? ==> op.made.Some?)
    case Write => !op.kind.Destroy?
    case Unlock1 => true
    case Unlock2 => op.kind.Two()
  }

  /** A constructor has not written its pointer yet. */
  predicate Unwritten(op: Op) {
    && (op.kind.FromRaw? || op.kind.CopyOf?)
    && (op.pc.Lock1? || op.pc.Lock2? || op.pc.Make? || op.pc.Add?)
  }

  ghost predicate OpWf(st: State, op: Op) {
    && op.kind.target in st.ptrs && op.kind.Source() in st.ptrs
    && (op.kind.Two() ==> op.kind.target != op.kind.Source() && st.ptrs[op.kind.Source()].ready)
    && (st.ptrs[op.kind.target].ready <==> op.kind.Assign?)
    && PcFits(op)
    && (Unwritten(op) ==> st.ptrs[op.kind.target].loc == None)
  }

  /** Operations are well formed, and only assignment works on a pointer that others may use. */
  ghost predicate Wf(st: State) {
    && (forall t {:trigger OpWf(st, st.ops[t])} :: t in st.ops ==> OpWf(st, st.ops[t]))
    && (forall t, u {:trigger st.ops[u].kind.Uses(st.ops[t].kind.target)} :: t in st.ops && u in st.ops && t != u && !st.ops[t].kind.Assign? ==> !st.ops[u].kind.Uses(st.ops[t].kind.target))
  }

  /** An operation in its locked part has its target to itself. */
  ghost predicate Exclusive(st: State) {
    forall t, u {:trigger st.ops[u].Holds(st.ops[t].kind.target)} ::
      t in st.ops && u in st.ops && t != u && st.ops[t].Holds(st.ops[t].kind.target) ==> !st.ops[u].Holds(st.ops[t].kind.target)
  }

  /** Operation `t` has dropped its target's reference and not yet written the new one. */
  predicate Changing(st: State, t: Thread, p: Address) {
    && t in st.ops && st.ops[t].kind.target == p
    && (st.ops[t].pc.Free? || st.ops[t].pc.Add? || st.ops[t].pc.Write? || (st.ops[t].pc.Unlock1? && st.ops[t].kind.Destroy?))
  }

  /** The reference a changing operation has already taken for its target. */
  function InFlight(st: State, op: Op): Option<StorageId> {
    if op.pc.Write? then st.NewRef(op) else None
  }

  /**
   The storage whose count pointer `p` accounts for: the one it names, except that an operation
   in flight may have dropped the old reference or already taken the new one.
   */
  ghost function Ref(st: State, p: Address): Option<StorageId> {
    if exists t :: Changing(st, t, p) then
      var t :| Changing(st, t, p);
      InFlight(st, st.ops[t])
    else st.At(p).loc
  }

  ghost function Owners(st: State, s: StorageId): set<Address> {
    set p | p in st.ptrs && Ref(st, p) == Some(s)
  }

  /** An operation that has the only way to `s`: about to free it, or about to take its first reference. */
  predicate Claims(op: Op, s: StorageId) {
    op.pc == Free(s) || (op.kind.FromRaw? && op.pc.Add? && op.made == Some(s))
  }

  ghost predicate Counts(st: State) {
    && (forall p {:trigger Ref(st, p)} :: p in st.ptrs && Ref(st, p).Some? ==> Ref(st, p).value < |st.stores|)
    && (forall s {:trigger Owners(st, s)} :: 0 <= s < |st.stores| ==> st.stores[s].count == |Owners(st, s)|)
  }

  ghost predicate Frees(st: State) {
    && (forall s :: 0 <= s < |st.stores| && st.stores[s].frees > 0 ==> st.stores[s].frees == 1 && st.stores[s].count == 0)
    && (forall t, s: nat {:trigger Claims(st.ops[t], s)} :: t in st.ops && Claims(st.ops[t], s) ==> s < |st.stores| && st.stores[s] == Storage(0, 0))
    && (forall t, u, s: nat {:trigger Claims(st.ops[t], s), Claims(st.ops[u], s)} :: t in st.ops && u in st.ops && Claims(st.ops[t], s) && Claims(st.ops[u], s) ==> t == u)
    && (forall s :: 0 <= s < |st.stores| && st.stores[s] == Storage(0, 0) ==> exists t :: t in st.ops && Claims(st.ops[t], s))
  }

  ghost predicate Data(st: State) {
    Wf(st) && Counts(st) && Frees(st)
  }

  ghost predicate Inv(st: State) {
    Data(st) && Exclusive(st)
  }

  // ---------------------------------------------------------------- references

  lemma OneChanger(st: State, t: Thread, u: Thread, p: Address)
    requires Exclusive(st) && Changing(st, t, p) && Changing(st, u, p)
    ensures t == u
  {
    assert st.ops[t].Holds(st.ops[t].kind.target) && st.ops[u].Holds(st.ops[t].kind.target);
  }

  lemma RefOfChanging(st: State, t: Thread)
    requires Exclusive(st) && t in st.ops && Changing(st, t, st.ops[t].kind.target)
    ensures Ref(st, st.ops[t].kind.target) == InFlight(st, st.ops[t])
  {
    var p := st.ops[t].kind.target;
    var u :| Changing(st, u, p) && Ref(st, p) == InFlight(st, st.ops[u]);
    OneChanger(st, t, u, p);
  }

  lemma NoOtherChanger(st: State, t: Thread, u: Thread, p: Address)
    requires Exclusive(st) && t in st.ops && st.ops[t].Holds(p)
    ensures u != t ==> !Changing(st, u, p)
  {
    if u in st.ops {
      assert u != t && st.ops[u].Holds(st.ops[u].kind.target) ==> !st.ops[t].Holds(st.ops[u].kind.target);
    }
  }

  /** What a pointer accounts for while an operation that has it locked is not changing it. */
  lemma RefOfHeld(st: State, t: Thread, p: Address)
    requires Exclusive(st) && t in st.ops && st.ops[t].Holds(p) && !Changing(st, t, p)
    ensures Ref(st, p) == st.At(p).loc
  {
    forall u
      ensures !Changing(st, u, p)
    {
      NoOtherChanger(st, t, u, p);
    }
  }

  /** A reference stays when the operations changing the pointer do, and what they have taken does. */
  lemma SameRef(st: State, st': State, p: Address)
    requires Exclusive(st)
    requires forall u :: Changing(st', u, p) <==> Changing(st, u, p)
    requires forall u :: Changing(st, u, p) && Changing(st', u, p) ==> InFlight(st', st'.ops[u]) == InFlight(st, st.ops[u])
    requires st'.At(p).loc == st.At(p).loc
    ensures Ref(st', p) == Ref(st, p)
  {
    if u :| Changing(st, u, p) {
      assert Changing(st', u, p);
      var v :| Changing(st', v, p) && Ref(st', p) == InFlight(st', st'.ops[v]);
      var w :| Changing(st, w, p) && Ref(st, p) == InFlight(st, st.ops[w]);
      OneChanger(st, v, w, p);
    }
  }

  // ---------------------------------------------------------------- the shapes of a step

  /** Only locks differ. */
  ghost predicate Blind(st: State, st': State) {
    && st'.stores == st.stores && st'.ops == st.ops && st'.ptrs.Keys == st.ptrs.Keys
    && forall p :: p in st.ptrs ==> st'.ptrs[p].loc == st.ptrs[p].loc && st'.ptrs[p].ready == st.ptrs[p].ready
  }

  lemma BlindWf(st: State, st': State)
    requires Wf(st) && Blind(st, st')
    ensures Wf(st')
  {
    forall u | u in st'.ops
      ensures OpWf(st', st'.ops[u])
    {
      assert OpWf(st, st.ops[u]);
    }
  }

  lemma BlindRef(st: State, st': State, q: Address)
    requires Exclusive(st) && Blind(st, st')
    ensures Ref(st', q) == Ref(st, q)
  {
    SameRef(st, st', q);
  }

  lemma LockIsBlind(st: State, p: Address, lock: Option<Thread>)
    ensures Blind(st, st.WithLock(p, lock))
  {
  }

  /** Moving thread `t` on, with new storages but the same pointers. */
  lemma LocalWf(st: State, t: Thread, stores: seq<Storage>, op: Op)
    requires Wf(st) && t in st.ops
    requires op.kind == st.ops[t].kind && PcFits(op) && (Unwritten(op) ==> Unwritten(st.ops[t]))
    ensures Wf(State(st.ptrs, stores, st.ops[t := op]))
  {
    var st' := State(st.ptrs, stores, st.ops[t := op]);
    assert OpWf(st, st.ops[t]);
    forall u | u in st'.ops
      ensures OpWf(st', st'.ops[u])
    {
      assert u != t ==> OpWf(st, st.ops[u]);
    }
  }

  /** It affects no reference but its target's, and not that one unless it starts or stops changing it. */
  lemma LocalRef(st: State, t: Thread, stores: seq<Storage>, op: Op, q: Address)
    requires Exclusive(st) && t in st.ops && op.kind == st.ops[t].kind
    requires q != op.kind.target || (!Changing(st, t, q) && !Changing(State(st.ptrs, stores, st.ops[t := op]), t, q))
    ensures Ref(State(st.ptrs, stores, st.ops[t := op]), q) == Ref(st, q)
  {
    SameRef(st, State(st.ptrs, stores, st.ops[t := op]), q);
  }

  /** Writing the target pointer, which the thread has to itself. */
  function Written(st: State, t: Thread, op: Op, loc: Option<StorageId>): State {
    State(st.ptrs[op.kind.target := st.At(op.kind.target).(loc := loc)], st.stores, st.ops[t := op])
  }

  lemma WriteWf(st: State, t: Thread, op: Op, loc: Option<StorageId>)
    requires Wf(st) && t in st.ops && op.kind == st.ops[t].kind && PcFits(op) && !Unwritten(op)
    ensures Wf(Written(st, t, op, loc))
  {
    var st' := Written(st, t, op, loc);
    assert OpWf(st, st.ops[t]);
    forall u | u in st'.ops
      ensures OpWf(st', st'.ops[u])
    {
      if u != t {
        assert OpWf(st, st.ops[u]);
        assert !st.ops[u].kind.Assign? ==> !op.kind.Uses(st.ops[u].kind.target);
      }
    }
  }

  lemma WriteRef(st: State, t: Thread, op: Op, q: Address)
    requires Exclusive(st) && t in st.ops && st.ops[t].pc.Write? && op == st.ops[t].(pc := Unlock1)
    requires !op.kind.Destroy? && Exclusive(Written(st, t, op, st.NewRef(op)))
    ensures Ref(Written(st, t, op, st.NewRef(op)), q) == Ref(st, q)
  {
    var target, st' := op.kind.target, Written(st, t, op, st.NewRef(op));
    assert st.ops[t].Holds(target);
    if q == target {
      RefOfChanging(st, t);
      RefOfHeld(st', t, q);
    } else {
      forall u | Changing(st, u, q)
        ensures InFlight(st', st'.ops[u]) == InFlight(st, st.ops[u])
      {
        assert st.ops[u].pc.Write? ==> st.ops[u].Holds(st.ops[u].kind.Source());
        assert u != t && !st.ops[u].Holds(st.ops[t].kind.target);
      }
      SameRef(st, st', q);
    }
  }

  /** The last step of an operation that leaves its target behind: locks apart, the target is ready. */
  ghost predicate Finished(st: State, t: Thread, st': State)
    requires t in st.ops
  {
    && st'.ptrs.Keys == st.ptrs.Keys && st'.stores == st.stores && st'.ops == st.ops - {t}
    && forall p :: p in st.ptrs ==>
         && st'.ptrs[p].loc == st.ptrs[p].loc
         && st'.ptrs[p].ready == (st.ptrs[p].ready || p == st.ops[t].kind.target)
  }

  lemma FinishWf(st: State, t: Thread, st': State)
    requires t in st.ops && Wf(st) && Finished(st, t, st')
    ensures Wf(st')
  {
    forall u | u in st'.ops
      ensures OpWf(st', st'.ops[u])
    {
      assert OpWf(st, st.ops[u]) && OpWf(st, st.ops[t]);
      assert !st.ops[u].kind.Assign? ==> !st.ops[t].kind.Uses(st.ops[u].kind.target);
    }
  }

  lemma FinishRef(st: State, t: Thread, st': State, q: Address)
    requires Exclusive(st) && t in st.ops && Finished(st, t, st')
    requires st.ops[t].pc.Unlock2? || (st.ops[t].pc.Unlock1? && !st.ops[t].kind.Destroy?)
    ensures Ref(st', q) == Ref(st, q)
  {
    SameRef(st, st', q);
  }

  /** The last step of a destructor. */
  function Gone(st: State, t: Thread): State
    requires t in st.ops
  {
    State(st.ptrs - {st.ops[t].kind.target}, st.stores, st.ops - {t})
  }

  lemma GoneWf(st: State, t: Thread)
    requires t in st.ops && st.ops[t].kind.Destroy? && Wf(st)
    ensures Wf(Gone(st, t))
  {
    var st' := Gone(st, t);
    forall u | u in st'.ops
      ensures OpWf(st', st'.ops[u])
    {
      assert OpWf(st, st.ops[u]) && !st.ops[u].kind.Uses(st.ops[t].kind.target);
    }
  }

  lemma GoneRef(st: State, t: Thread, q: Address)
    requires Exclusive(st) && t in st.ops && st.ops[t].kind.Destroy? && st.ops[t].pc.Unlock1?
    requires forall u :: u in st.ops && u != t ==> !st.ops[u].kind.Uses(st.ops[t].kind.target)
    ensures q != st.ops[t].kind.target ==> Ref(Gone(st, t), q) == Ref(st, q)
    ensures Ref(st, st.ops[t].kind.target) == None
  {
    RefOfChanging(st, t);
    if q != st.ops[t].kind.target {
      forall u | Changing(st, u, q)
        ensures Changing(Gone(st, t), u, q) && InFlight(Gone(st, t), st.ops[u]) == InFlight(st, st.ops[u])
      {
        assert !st.ops[u].kind.Uses(st.ops[t].kind.target);
      }
      SameRef(st, Gone(st, t), q);
    }
  }
}
