/**
 The reference-counted smart pointer (TSP/inc/SmartPtr.h) as a protocol: every constructor, copy,
 assignment and destructor is a sequence of atomic steps on shared pointers and storages, and the
 steps of different threads interleave in any order.
 */
module SmartPtr {

  type Address = nat
  type Thread = nat
  type StorageId = nat

  datatype Option<T> = None | Some(value: T)

  /** A pointer object. `lock` is free or held; who holds it is recorded for the proofs only. */
  datatype Ptr = Ptr(lock: Option<Thread>, loc: Option<StorageId>, ready: bool)

  /** A storage object, with how often its memory has been freed. */
  datatype Storage = Storage(count: int, frees: nat)

  /** The four operations; `target` is `this`, `source` the other pointer. */
  datatype Kind =
    | FromRaw(target: Address)
    | CopyOf(target: Address, source: Address)
    | Assign(target: Address, source: Address)
    | Destroy(target: Address)
  {
    predicate Two() { CopyOf? || Assign? }

    /** The other pointer, when there is one. */
    function Source(): Address { if Two() then source else target }

    predicate Uses(p: Address) { p == target || p == Source() }

    /** Locks are taken in address order (TSP/inc/SmartPtr.h:342-356). */
    function First(): Address {
      if target < Source() then target else Source()
    }

    function Second(): Address {
      if target < Source() then Source() else target
    }

    /** The first step under the locks. */
    function Body(): Pc {
      match this
      case FromRaw(_) => Make
      case CopyOf(_, _) => Add
      case Assign(_, _) => Compare
      case Destroy(_) => Drop
    }

    /** What follows the removal of the old reference. */
    function AfterDrop(): Pc { if Assign? then Add else Unlock1 }
  }

  datatype Pc = Lock1 | Lock2 | Make | Compare | Drop | Free(dead: StorageId) | Add | Write | Unlock1 | Unlock2

  /** An operation under way; `made` is the storage a raw constructor has just created. */
  datatype Op = Op(kind: Kind, pc: Pc, made: Option<StorageId>)
  {
    /** The locks the operation holds. */
    predicate Holds(p: Address) {
      match pc
      case Lock1 => false
      case Lock2 => p == kind.First()
      case Unlock2 => p == kind.Source()
      case _ => kind.Uses(p)
    }
  }

  datatype State = State(ptrs: map<Address, Ptr>, stores: seq<Storage>, ops: map<Thread, Op>)
  {
    function At(p: Address): Ptr { if p in ptrs then ptrs[p] else Ptr(None, None, false) }

    /** The storage the operation is taking a reference to. */
    function NewRef(op: Op): Option<StorageId> {
      if op.kind.Two() then At(op.kind.Source()).loc else op.made
    }

    predicate InUse(p: Address) { exists t :: t in ops && ops[t].kind.Uses(p) }

    function WithPc(t: Thread, pc: Pc): State
      requires t in ops
    {
      this.(ops := ops[t := ops[t].(pc := pc)])
    }

    function WithLock(p: Address, lock: Option<Thread>): State {
      if p in ptrs then this.(ptrs := ptrs[p := ptrs[p].(lock := lock)]) else this
    }

    function WithCount(s: Option<StorageId>, delta: int): State {
      if s.Some? && s.value < |stores| then
        this.(stores := stores[s.value := stores[s.value].(count := stores[s.value].count + delta)])
      else this
    }
  }

  const INIT := State(map[], [], map[])

  // ---------------------------------------------------------------- the spin-lock macros

  /**
   `SPINLOCK` is a loop `while( p )` or `while( !p )` around an atomic primitive that sets the lock
   if it is free; `p` is the old value of the lock, or whether the lock was changed
   (TSP/inc/Threading.h:120-164).
   */
  datatype SpinMacro = SpinMacro(returnsOld: bool, negated: bool)
  {
    /** The primitive's result. */
    predicate Primitive(wasLocked: bool) {
      if returnsOld then wasLocked else !wasLocked
    }

    /** Whether one round of the loop is its last. Every round leaves the lock set. */
    predicate LoopEnds(wasLocked: bool) {
      if negated then Primitive(wasLocked) else !Primitive(wasLocked)
    }

    /** The loop waits while the lock is held. */
    predicate Excludes() {
      !LoopEnds(true)
    }
  }

  const INTERLOCKED_EXCHANGE := SpinMacro(true, false)   // Windows, and the Intel compiler
  const ATOMIC_SWAP := SpinMacro(true, false)            // Solaris
  const BOOLEAN_CAS := SpinMacro(false, true)            // Mac OS
  const VALUE_CAS := SpinMacro(true, true)               // GCC

  /** One round of the loop by thread `t` on the lock of `p`. */
  function Spin(macro: SpinMacro, st: State, t: Thread, p: Address, next: Pc): State
    requires t in st.ops
  {
    var wasLocked := st.At(p).lock.Some?;
    var locked := if wasLocked then st else st.WithLock(p, Some(t));
    if macro.LoopEnds(wasLocked) then locked.WithPc(t, next) else locked
  }

  // ---------------------------------------------------------------- the steps

  function Advance(macro: SpinMacro, st: State, t: Thread): State
    requires t in st.ops
  {
    var op := st.ops[t];
    var k := op.kind;
    match op.pc
    case Lock1 => Spin(macro, st, t, k.First(), if k.Two() then Lock2 else k.Body())
    case Lock2 => Spin(macro, st, t, k.Second(), k.Body())
    case Make =>
      State(st.ptrs, st.stores + [Storage(0, 0)], st.ops[t := Op(k, Add, Some(|st.stores|))])
    case Compare =>
      st.WithPc(t, if st.At(k.Source()).loc != st.At(k.target).loc then Drop else Unlock1)
    case Drop =>
      var previous := st.At(k.target).loc;
      var st' := st.WithCount(previous, -1);
      st'.WithPc(t, if previous.Some? && previous.value < |st'.stores| && st'.stores[previous.value].count == 0 then Free(previous.value) else k.AfterDrop())
    case Free(s) =>
      var st' := if s < |st.stores| then st.(stores := st.stores[s := st.stores[s].(frees := st.stores[s].frees + 1)]) else st;
      st'.WithPc(t, k.AfterDrop())
    case Add =>
      st.WithCount(st.NewRef(op), 1).WithPc(t, Write)
    case Write =>
      st.(ptrs := st.ptrs[k.target := st.At(k.target).(loc := st.NewRef(op))]).WithPc(t, Unlock1)
    case Unlock1 =>
      if k.Two() then st.WithLock(k.target, None).WithPc(t, Unlock2)
      else if k.Destroy? then State(st.ptrs - {k.target}, st.stores, st.ops - {t})
      else State(st.ptrs[k.target := Ptr(None, st.At(k.target).loc, true)], st.stores, st.ops - {t})
    case Unlock2 =>
      var st' := st.WithLock(k.Source(), None);
      State(st'.ptrs[k.target := st'.At(k.target).(ready := true)], st.stores, st.ops - {t})
  }

  /** What a program may do: start an operation on an idle thread, or let a thread take a step. */
  datatype Event = Default(p: Address) | Begin(t: Thread, kind: Kind) | Step(t: Thread)

  /**
   The rules every C++ program keeps: construct only in unused memory, use only constructed
   pointers, and do not destroy a pointer that another operation is using.
   */
  predicate Allowed(st: State, t: Thread, k: Kind) {
    && t !in st.ops
    && match k
       case FromRaw(p) => p !in st.ptrs
       case CopyOf(p, q) => p !in st.ptrs && q in st.ptrs && st.ptrs[q].ready
       case Assign(p, q) => p != q && p in st.ptrs && st.ptrs[p].ready && q in st.ptrs && st.ptrs[q].ready
       case Destroy(p) => p in st.ptrs && st.ptrs[p].ready && !st.InUse(p)
  }

  ghost function Next(macro: SpinMacro, st: State, e: Event): State {
    match e
    case Default(p) =>
      if p in st.ptrs then st else st.(ptrs := st.ptrs[p := Ptr(None, None, true)])
    case Begin(t, k) =>
      if !Allowed(st, t, k) then st
      else
        var ptrs := if k.Assign? then st.ptrs
                    else if k.Destroy? then st.ptrs[k.target := st.ptrs[k.target].(ready := false)]
                    else st.ptrs[k.target := Ptr(None, None, false)];
        State(ptrs, st.stores, st.ops[t := Op(k, Lock1, None)])
    case Step(t) =>
      if t in st.ops then Advance(macro, st, t) else st
  }

  ghost function Exec(macro: SpinMacro, st: State, events: seq<Event>): State {
    if events == [] then st else Next(macro, Exec(macro, st, events[..|events| - 1]), events[|events| - 1])
  }
}
