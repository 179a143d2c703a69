/** The reference counts are exact in every interleaving, and each storage is freed once. */
module SmartPtrCounts {
  import opened SmartPtr
  import opened SmartPtrInvariant

  // ---------------------------------------------------------------- counts

  ghost predicate SameRefs(st: State, st': State) {
    forall p {:trigger Ref(st', p)} ::
      if p in st'.ptrs then (if p in st.ptrs then Ref(st', p) == Ref(st, p) else Ref(st', p) == None)
      else p in st.ptrs ==> Ref(st, p) == None
  }

  lemma OwnersSame(st: State, st': State, s: StorageId)
    requires SameRefs(st, st')
    ensures Owners(st', s) == Owners(st, s)
  {
    forall p
      ensures p in Owners(st', s) <==> p in Owners(st, s)
    {
      var r := Ref(st', p);
    }
  }

  /** No reference moves and no count changes; new storages start at zero. */
  lemma CountsKept(st: State, st': State)
    requires Counts(st) && SameRefs(st, st')
    requires |st.stores| <= |st'.stores|
    requires forall s :: 0 <= s < |st'.stores| ==> st'.stores[s].count == if s < |st.stores| then st.stores[s].count else 0
    ensures Counts(st')
  {
    forall s: nat
      ensures Owners(st', s) == Owners(st, s)
      ensures s >= |st.stores| ==> Owners(st, s) == {}
    {
      OwnersSame(st, st', s);
    }
    forall p, s: nat | p in st'.ptrs && Ref(st', p) == Some(s)
      ensures s < |st'.stores|
    {
      assert p in Owners(st', s);
    }
  }

  /** Exactly one pointer's reference changes, from `before` to `after`. */
  ghost predicate OneRef(st: State, st': State, p: Address) {
    && st'.ptrs.Keys == st.ptrs.Keys && p in st.ptrs
    && forall q {:trigger Ref(st', q)} :: q != p ==> Ref(st', q) == Ref(st, q)
  }

  lemma OwnersChange(st: State, st': State, p: Address, s: StorageId)
    requires OneRef(st, st', p)
    ensures Owners(st', s) == if Ref(st', p) == Some(s) then Owners(st, s) + {p} else Owners(st, s) - {p}
    ensures p in Owners(st, s) <==> Ref(st, p) == Some(s)
  {
    forall q
      ensures q in Owners(st', s) <==> (if q == p then Ref(st', p) == Some(s) else q in Owners(st, s))
    {
      var r := Ref(st', q);
    }
  }

  lemma CountsDropped(st: State, st': State, p: Address, s: StorageId)
    requires Counts(st) && OneRef(st, st', p)
    requires Ref(st, p) == Some(s) && Ref(st', p) == None
    requires s < |st.stores| && st'.stores == st.stores[s := st.stores[s].(count := st.stores[s].count - 1)]
    ensures Counts(st')
  {
    forall r: nat | r < |st.stores|
      ensures st'.stores[r].count == |Owners(st', r)|
    {
      OwnersChange(st, st', p, r);
    }
    forall q, r: nat | q in st'.ptrs && Ref(st', q) == Some(r)
      ensures r < |st'.stores|
    {
      assert q != p;
    }
  }

  lemma CountsAdded(st: State, st': State, p: Address, s: StorageId)
    requires Counts(st) && OneRef(st, st', p)
    requires Ref(st, p) == None && Ref(st', p) == Some(s)
    requires s < |st.stores| && st'.stores == st.stores[s := st.stores[s].(count := st.stores[s].count + 1)]
    ensures Counts(st')
  {
    forall r: nat | r < |st.stores|
      ensures st'.stores[r].count == |Owners(st', r)|
    {
      OwnersChange(st, st', p, r);
    }
    forall q, r: nat | q in st'.ptrs && Ref(st', q) == Some(r)
      ensures r < |st'.stores|
    {
      if q != p {
        assert Ref(st, q) == Some(r);
      }
    }
  }

  // ---------------------------------------------------------------- frees

  ghost predicate SameClaims(st: State, st': State) {
    forall u, s: nat :: (u in st'.ops && Claims(st'.ops[u], s)) <==> (u in st.ops && Claims(st.ops[u], s))
  }

  lemma FreesKept(st: State, st': State)
    requires Frees(st) && st'.stores == st.stores && SameClaims(st, st')
    ensures Frees(st')
  {
    forall s | 0 <= s < |st'.stores| && st'.stores[s] == Storage(0, 0)
      ensures exists t :: t in st'.ops && Claims(st'.ops[t], s)
    {
      var t :| t in st.ops && Claims(st.ops[t], s);
      assert t in st'.ops && Claims(st'.ops[t], s);
    }
    forall t, s: nat | t in st'.ops && Claims(st'.ops[t], s)
      ensures s < |st'.stores| && st'.stores[s] == Storage(0, 0)
    {
      assert t in st.ops && Claims(st.ops[t], s);
    }
  }

  /** Thread `t` moves on: it alone may gain or lose a claim, and only one storage changes. */
  lemma FreesMoved(st: State, st': State, t: Thread, s: StorageId)
    requires Frees(st) && t in st.ops && t in st'.ops && st'.ops.Keys == st.ops.Keys
    requires forall u :: u in st.ops && u != t ==> st'.ops[u] == st.ops[u] && !Claims(st.ops[u], s)
    requires forall r: nat :: r != s ==> !Claims(st.ops[t], r) && !Claims(st'.ops[t], r)
    requires s < |st'.stores| && |st.stores| <= |st'.stores| <= |st.stores| + 1 && (|st'.stores| > |st.stores| ==> s == |st.stores|)
    requires forall r :: 0 <= r < |st.stores| && r != s ==> st'.stores[r] == st.stores[r]
    requires Claims(st'.ops[t], s) <==> st'.stores[s] == Storage(0, 0)
    requires st'.stores[s].frees > 0 ==> st'.stores[s].frees == 1 && st'.stores[s].count == 0
    ensures Frees(st')
  {
    forall r | 0 <= r < |st'.stores| && st'.stores[r] == Storage(0, 0)
      ensures exists u :: u in st'.ops && Claims(st'.ops[u], r)
    {
      if r == s {
        assert Claims(st'.ops[t], s);
      } else {
        var u :| u in st.ops && Claims(st.ops[u], r);
        assert u != t;
        assert u in st'.ops && Claims(st'.ops[u], r);
      }
    }
    forall u, r: nat | u in st'.ops && Claims(st'.ops[u], r)
      ensures r < |st'.stores| && st'.stores[r] == Storage(0, 0)
    {
      if u == t {
        assert r == s;
      } else {
        assert Claims(st.ops[u], r) && r != s;
      }
    }
    forall u, v, r: nat | u in st'.ops && v in st'.ops && Claims(st'.ops[u], r) && Claims(st'.ops[v], r)
      ensures u == v
    {
      if r != s {
        assert u != t && v != t;
      }
    }
  }
}
