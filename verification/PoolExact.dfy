/** How many allocating threads a pool stands: the exact boundary over pool size and thread count. */
module PoolExact {
  import opened Pool
  import opened PoolThreads

  /** A slot popped by an allocating thread belongs to no caller and to no other allocating thread. */
  ghost predicate Safe(s: State) {
    && (forall a: nat, i: nat :: a < |s.allocs| && Carries(s.allocs[a], i) ==> i !in s.owned)
    && (forall a: nat, b: nat, i: nat :: a < b < |s.allocs| && Carries(s.allocs[a], i) ==> !Carries(s.allocs[b], i))
  }

  // ---------------------------------------------------------------- a pool of one slot

  /** Where the only slot is. */
  datatype Holder = Chain | Caller | Allocator(a: nat) | Deallocator(t: nat)

  /** The link of the only slot never changes, so no allocating thread's link can be stale. */
  predicate AllocAt(a: Alloc, mine: bool) {
    && (Carries(a, 0) <==> mine)
    && (a.ALoadNext? ==> a.head == 0) && (a.ACas? ==> a.head == 0 && a.next == -1)
    && (a.ACountAlloc? || a.ACountTotal? || a.AHandOut? ==> a.slot == 0)
  }

  predicate DeallocAt(d: Dealloc, mine: bool) {
    && (Returns(d, 0) <==> mine)
    && (d.DLoadHead? || d.DStoreNext? || d.DCas? ==> d.slot == 0)
    && (d.DStoreNext? || d.DCas? ==> d.head == -1)
  }

  predicate OneSlot(s: State, w: Holder) {
    && s.next == [-1]
    && s.head == (if w.Chain? then 0 else -1)
    && s.owned == (if w.Caller? then {0} else {})
    && (w.Deallocator? ==> w.t in s.frees)
    && (forall a: nat :: a < |s.allocs| ==> AllocAt(s.allocs[a], w == Allocator(a)))
    && (forall t: nat :: t in s.frees ==> DeallocAt(s.frees[t], w == Deallocator(t)))
  }

  lemma AllocKeepsOneSlot(s: State, w: Holder, a: nat, spurious: bool) returns (w': Holder)
    requires OneSlot(s, w) && a < |s.allocs|
    ensures OneSlot(AllocStep(s, a, spurious), w')
  {
    var p := s.allocs[a];
    assert AllocAt(p, w == Allocator(a));
    w' := if p.ACas? && s.head == p.head && !spurious then Allocator(a) else if p.AHandOut? then Caller else w;
    AllocMoves(s, w, a, spurious, w');
    hide DeallocAt, AllocAt, Carries;
    var s' := AllocStep(s, a, spurious);
    assert forall b: nat :: b < |s'.allocs| && b != a ==> s'.allocs[b] == s.allocs[b];
  }

  /** The thread itself: where it is afterwards and what that does to the head and the caller. */
  lemma AllocMoves(s: State, w: Holder, a: nat, spurious: bool, w': Holder)
    requires a < |s.allocs| && AllocAt(s.allocs[a], w == Allocator(a)) && s.next == [-1]
    requires s.head == (if w.Chain? then 0 else -1) && s.owned == if w.Caller? then {0} else {}
    requires var p := s.allocs[a];
             w' == if p.ACas? && s.head == p.head && !spurious then Allocator(a) else if p.AHandOut? then Caller else w
    ensures var s' := AllocStep(s, a, spurious);
            && |s'.allocs| == |s.allocs| && AllocAt(s'.allocs[a], w' == Allocator(a))
            && s'.next == s.next && s'.frees == s.frees
            && s'.head == (if w'.Chain? then 0 else -1) && s'.owned == (if w'.Caller? then {0} else {})
            && (w' != w ==> !w'.Deallocator? && !w.Deallocator?)
            && (w' != w ==> (w.Allocator? ==> w.a == a) && (w'.Allocator? ==> w'.a == a))
  {
    assert s.allocs[a].AHandOut? ==> {} + {0} == {0};
  }

  lemma DeallocKeepsOneSlot(s: State, w: Holder, t: nat, spurious: bool) returns (w': Holder)
    requires OneSlot(s, w) && t in s.frees
    ensures OneSlot(DeallocStep(s, t, spurious), w')
  {
    var d := s.frees[t];
    assert DeallocAt(d, w == Deallocator(t));
    w' := if d.DCas? && s.head == d.head && !spurious then Chain else w;
  }

  lemma StepKeepsOneSlot(s: State, w: Holder, act: Action) returns (w': Holder)
    requires OneSlot(s, w)
    ensures OneSlot(Step(s, act), w')
  {
    w' := w;
    match act
    case CallAllocate(a) =>
    case StepAllocate(a, spurious) =>
      if a < |s.allocs| { w' := AllocKeepsOneSlot(s, w, a, spurious); }
    case CallDeallocate(t, i) =>
      if t !in s.frees && i in s.owned { w' := Deallocator(t); }
    case StepDeallocate(t, spurious) =>
      if t in s.frees { w' := DeallocKeepsOneSlot(s, w, t, spurious); }
    case Shutdown =>
  }

  /** With one slot, any number of allocating threads is safe. */
  lemma {:induction false} OneSlotSafety(m: nat, run: seq<Action>) returns (w: Holder)
    ensures OneSlot(Exec(Start(1, m), run), w) && Safe(Exec(Start(1, m), run))
    decreases |run|
  {
    if run == [] {
      w := Chain;
    } else {
      var k := |run| - 1;
      var v := OneSlotSafety(m, run[..k]);
      w := StepKeepsOneSlot(Exec(Start(1, m), run[..k]), v, run[k]);
    }
    OneSlotIsSafe(Exec(Start(1, m), run), w);
  }

  lemma OneSlotIsSafe(s: State, w: Holder)
    requires OneSlot(s, w)
    ensures Safe(s)
  {
    forall a: nat, i: nat | a < |s.allocs| && Carries(s.allocs[a], i) ensures i == 0 && w == Allocator(a) {
      assert AllocAt(s.allocs[a], w == Allocator(a));
    }
  }

  // ---------------------------------------------------------------- the boundary

  lemma OneAllocatorIsSafe(n: nat, run: seq<Action>)
    requires n > 0
    ensures Safe(Exec(Start(n, 1), run))
  {
    hide Exec, Start, Inv;
    var g := PoolSafety(n, run);
    CarriedIsNotOwned(Exec(Start(n, 1), run), g);
  }

  lemma CarriedIsNotOwned(s: State, g: Ghost)
    requires Inv(s, g)
    ensures Safe(s)
  {
    hide IsChain, Locals, Counts, Carries;
    forall i: nat | Carries(s.allocs[0], i) ensures i !in s.owned {
      assert HasRole(g, i, Carried) && !HasRole(g, i, Owned);
    }
  }

  lemma {:induction false} AllocatorsStay(s: State, run: seq<Action>)
    ensures |Exec(s, run).allocs| == |s.allocs|
  {
    if run != [] {
      var k := |run| - 1;
      AllocatorsStay(s, run[..k]);
      StepAllocators(Exec(s, run[..k]), run[k]);
      hide Step;
    }
  }

  lemma StepAllocators(s: State, act: Action)
    ensures |Step(s, act).allocs| == |s.allocs|
  {
    match act
    case StepAllocate(a, spurious) =>
    case StepDeallocate(t, spurious) =>
    case _ =>
  }

  /** The pool with `n` slots and `m` allocating threads is safe over all interleavings if and only if at
      most one thread allocates or there is only one slot. */
  lemma SafeExactly(n: nat, m: nat)
    requires n > 0
    ensures (forall run: seq<Action> :: Safe(Exec(Start(n, m), run))) <==> m <= 1 || n == 1
  {
    if m == 0 {
      forall run: seq<Action> ensures Safe(Exec(Start(n, m), run)) { AllocatorsStay(Start(n, m), run); }
    } else if m == 1 {
      forall run: seq<Action> ensures Safe(Exec(Start(n, m), run)) { OneAllocatorIsSafe(n, run); }
    } else if n == 1 {
      forall run: seq<Action> ensures Safe(Exec(Start(n, m), run)) { var _ := OneSlotSafety(m, run); }
    } else {
      var run := TwoAllocatorsUnsafe(n, m);
      assert Carries(Exec(Start(n, m), run).allocs[1], 1);
    }
  }
}
