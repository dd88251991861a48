/** The pool under concurrency: allocating threads and deallocating threads, every load, store,
    compare-and-swap and counter update a step of its own. */
module PoolThreads {
  import opened Pool

  /** Where an allocating thread is.  `head` is the index it loaded last. */
  datatype Alloc =
    | AIdle
    | ALoadShutdown
    | ALoadHead
    | ALoadNext(head: nat)
    | ACas(head: nat, next: int)
    | ACountAlloc(slot: nat)
    | ACountTotal(slot: nat)
    | AHandOut(slot: nat)
    | ACountFailure

  /** Where a deallocating thread is. */
  datatype Dealloc =
    | DLoadHead(slot: nat)
    | DStoreNext(slot: nat, head: int)
    | DCas(slot: nat, head: int)
    | DCountAlloc
    | DCountTotal

  /** `owned` are the slots handed out to callers and not yet given back. */
  datatype State = State(head: int, next: seq<int>, shutdown: bool,
                         allocCount: int, totalAllocs: nat, totalDeallocs: nat, failures: nat,
                         allocs: seq<Alloc>, frees: map<nat, Dealloc>, owned: set<nat>)

  /** A compare-and-swap may fail spuriously: `compare_exchange_weak`. */
  datatype Action =
    | CallAllocate(a: nat)
    | StepAllocate(a: nat, spurious: bool)
    | CallDeallocate(t: nat, slot: nat)
    | StepDeallocate(t: nat, spurious: bool)
    | Shutdown

  /** The loop condition of `allocateRaw`. */
  function Loop(head: int): Alloc { if head >= 0 then ALoadNext(head) else ACountFailure }

  function AllocStep(s: State, a: nat, spurious: bool): State
    requires a < |s.allocs|
  {
    match s.allocs[a]
    case AIdle => s
    case ALoadShutdown => s.(allocs := s.allocs[a := if s.shutdown then ACountFailure else ALoadHead])
    case ALoadHead => s.(allocs := s.allocs[a := Loop(s.head)])
    case ALoadNext(h) => if h < |s.next| then s.(allocs := s.allocs[a := ACas(h, s.next[h])]) else s
    case ACas(h, nx) =>
      if s.head == h && !spurious then s.(head := nx, allocs := s.allocs[a := ACountAlloc(h)])
      else s.(allocs := s.allocs[a := Loop(s.head)])
    case ACountAlloc(i) => s.(allocCount := s.allocCount + 1, allocs := s.allocs[a := ACountTotal(i)])
    case ACountTotal(i) => s.(totalAllocs := s.totalAllocs + 1, allocs := s.allocs[a := AHandOut(i)])
    case AHandOut(i) => s.(owned := s.owned + {i}, allocs := s.allocs[a := AIdle])
    case ACountFailure => s.(failures := s.failures + 1, allocs := s.allocs[a := AIdle])
  }

  function DeallocStep(s: State, t: nat, spurious: bool): State
    requires t in s.frees
  {
    match s.frees[t]
    case DLoadHead(i) => s.(frees := s.frees[t := DStoreNext(i, s.head)])
    case DStoreNext(i, h) => if i < |s.next| then s.(next := s.next[i := h], frees := s.frees[t := DCas(i, h)]) else s
    case DCas(i, h) =>
      if s.head == h && !spurious then s.(head := i, frees := s.frees[t := DCountAlloc])
      else s.(frees := s.frees[t := DStoreNext(i, s.head)])
    case DCountAlloc => s.(allocCount := s.allocCount - 1, frees := s.frees[t := DCountTotal])
    case DCountTotal => s.(totalDeallocs := s.totalDeallocs + 1, frees := s.frees - {t})
  }

  /** A caller gives back a slot it owns, on a thread of its own. */
  function Step(s: State, act: Action): State {
    match act
    case CallAllocate(a) =>
      if a < |s.allocs| && s.allocs[a].AIdle? then s.(allocs := s.allocs[a := ALoadShutdown]) else s
    case StepAllocate(a, spurious) => if a < |s.allocs| then AllocStep(s, a, spurious) else s
    case CallDeallocate(t, i) =>
      if t !in s.frees && i in s.owned then s.(owned := s.owned - {i}, frees := s.frees[t := DLoadHead(i)]) else s
    case StepDeallocate(t, spurious) => if t in s.frees then DeallocStep(s, t, spurious) else s
    case Shutdown => s.(shutdown := true)
  }

  // ---------------------------------------------------------------- who holds what

  /** The slot an allocating thread has popped and not yet handed out. */
  predicate Carries(a: Alloc, i: nat) {
    (a.ACountAlloc? || a.ACountTotal? || a.AHandOut?) && a.slot == i
  }

  /** The slot a deallocating thread has taken back and not yet pushed. */
  predicate Returns(d: Dealloc, i: nat) {
    (d.DLoadHead? || d.DStoreNext? || d.DCas?) && d.slot == i
  }

  /** Every slot has exactly one role: in the chain, with a caller, popped by an allocating thread and
      not yet handed out, or taken back by a deallocating thread and not yet pushed. */
  datatype Role = Free | Owned | Carried | Returned(t: nat)

  /** History: the chain in its order, and the slots' roles. */
  datatype Ghost = Ghost(free: seq<nat>, role: seq<Role>)

  function PendingAllocated(frees: map<nat, Dealloc>): set<nat> { set t | t in frees && frees[t].DCountAlloc? }

  function PendingTotal(frees: map<nat, Dealloc>): set<nat> {
    set t | t in frees && (frees[t].DCountAlloc? || frees[t].DCountTotal?)
  }

  predicate HasRole(g: Ghost, i: nat, r: Role) { i < |g.role| && g.role[i] == r }

  ghost predicate Partition(s: State, g: Ghost)
    requires |s.allocs| == 1
  {
    && |g.role| == |s.next|
    && (forall i: nat :: i in g.free <==> HasRole(g, i, Free))
    && (forall i: nat :: i in s.owned <==> HasRole(g, i, Owned))
    && (forall i: nat :: Carries(s.allocs[0], i) <==> HasRole(g, i, Carried))
    && (forall t: nat, i: nat :: (t in s.frees && Returns(s.frees[t], i)) <==> HasRole(g, i, Returned(t)))
  }

  /** What the threads know.  The index the allocator loaded is still in the chain and its link has not
      changed, because nobody else pops; a returned slot's link is what its thread stored. */
  predicate Locals(s: State, g: Ghost)
    requires |s.allocs| == 1
  {
    && (match s.allocs[0]
        case ALoadNext(h) => HasRole(g, h, Free)
        case ACas(h, nx) => HasRole(g, h, Free) && h < |s.next| && s.next[h] == nx
        case _ => true)
    && (forall t :: t in s.frees && s.frees[t].DCas? ==>
        s.frees[t].slot < |s.next| && s.next[s.frees[t].slot] == s.frees[t].head)
  }

  predicate Counts(s: State, free: seq<nat>)
    requires |s.allocs| == 1
  {
    var a := s.allocs[0];
    var out := |s.next| - |free|;
    && s.allocCount == out - (if a.ACountAlloc? then 1 else 0) + |PendingAllocated(s.frees)|
    && s.totalAllocs - s.totalDeallocs ==
        out - (if a.ACountAlloc? || a.ACountTotal? then 1 else 0) + |PendingTotal(s.frees)|
  }

  ghost predicate Inv(s: State, g: Ghost) {
    && |s.allocs| == 1
    && IsChain(s.next, s.head, g.free)
    && Partition(s, g) && Locals(s, g) && Counts(s, g.free)
  }

  // ---------------------------------------------------------------- every step keeps the invariant

  /** Giving slot `i` the role `r` changes nobody else's role. */
  lemma Reassign(g: Ghost, i: nat, r: Role, j: nat, q: Role)
    requires i < |g.role|
    ensures HasRole(g.(role := g.role[i := r]), j, q) <==> if j == i then q == r else HasRole(g, j, q)
  {
  }

  /** The allocator's successful compare-and-swap: the index it loaded is the top of the chain, and the
      link it loaded is still that slot's link. */
  lemma AllocatorPops(s: State, g: Ghost) returns (g': Ghost)
    requires Inv(s, g) && s.allocs[0].ACas? && s.head == s.allocs[0].head
    ensures Inv(AllocStep(s, 0, false), g')
  {
    hide PendingAllocated, PendingTotal, IsChain, Distinct, Partition;
    var h := s.allocs[0].head;
    FreeRole(s, g);
    assert HasRole(g, h, Free) && h in g.free && g.free != [];
    ChainPop(s.next, s.head, g.free);
    var rest := g.free[1..];
    assert g.free == [h] + rest;
    g' := Ghost(rest, g.role[h := Carried]);
    PartitionAfterPop(s, g, h, rest);
  }

  lemma PartitionAfterPop(s: State, g: Ghost, h: nat, rest: seq<nat>)
    requires |s.allocs| == 1 && Partition(s, g) && s.allocs[0].ACas? && s.head == s.allocs[0].head == h
    requires g.free == [h] + rest && h !in rest
    ensures h < |g.role| && Partition(AllocStep(s, 0, false), Ghost(rest, g.role[h := Carried]))
  {
    assert g.free[0] == h;
    assert HasRole(g, h, Free);
    var s', g' := AllocStep(s, 0, false), Ghost(rest, g.role[h := Carried]);
    forall i: nat, q: Role ensures HasRole(g', i, q) <==> if i == h then q == Carried else HasRole(g, i, q) {
      Reassign(g, h, Carried, i, q);
    }
    hide HasRole;
    assert forall i: nat :: i in g.free <==> i == h || i in rest;
  }

  lemma AllocatorHandsOut(s: State, g: Ghost) returns (g': Ghost)
    requires Inv(s, g) && s.allocs[0].AHandOut?
    ensures s.allocs[0].slot !in s.owned && Inv(AllocStep(s, 0, false), g')
  {
    hide PendingAllocated, PendingTotal, IsChain;
    var a := s.allocs[0];
    assert Carries(a, a.slot);
    assert HasRole(g, a.slot, Carried);
    g' := g.(role := g.role[a.slot := Owned]);
    forall i: nat, q: Role ensures HasRole(g', i, q) <==> if i == a.slot then q == Owned else HasRole(g, i, q) {
      Reassign(g, a.slot, Owned, i, q);
    }
    hide HasRole;
    assert Partition(AllocStep(s, 0, false), g');
  }

  lemma AllocatorMoves(s: State, g: Ghost, spurious: bool)
    requires Inv(s, g) && !s.allocs[0].AHandOut? && !(s.allocs[0].ACas? && s.head == s.allocs[0].head && !spurious)
    ensures Inv(AllocStep(s, 0, spurious), g)
  {
    hide PendingAllocated, PendingTotal, IsChain, HeadOf, Partition;
    var a := s.allocs[0];
    ChainHead(s.next, s.head, g.free);
    FreeRole(s, g);
    var s' := AllocStep(s, 0, spurious);
    assert forall i: nat :: Carries(s'.allocs[0], i) <==> Carries(a, i);
    hide Carries, HasRole;
    PartitionFrame(s, s', g);
  }

  lemma FreeRole(s: State, g: Ghost)
    requires |s.allocs| == 1 && Partition(s, g)
    ensures |g.role| == |s.next| && forall i: nat :: i in g.free <==> HasRole(g, i, Free)
  {
  }

  /** The partition does not depend on what a thread that carries nothing is doing. */
  lemma PartitionFrame(s: State, s': State, g: Ghost)
    requires |s.allocs| == 1 == |s'.allocs| && Partition(s, g)
    requires |s'.next| == |s.next| && s'.owned == s.owned && s'.frees == s.frees
    requires forall i: nat :: Carries(s'.allocs[0], i) <==> Carries(s.allocs[0], i)
    ensures Partition(s', g)
  {
    hide HasRole, Carries, Returns;
  }

  lemma ChainHead(next: seq<int>, head: int, free: seq<nat>)
    requires IsChain(next, head, free)
    ensures head >= 0 ==> head as nat in free
    ensures forall i: nat :: i in free ==> i < |next|
  {
    if head >= 0 { assert free[0] in free; }
  }

  /** A deallocating thread's successful compare-and-swap: its slot goes on top of the chain. */
  lemma DeallocatorPushes(s: State, g: Ghost, t: nat) returns (g': Ghost)
    requires Inv(s, g) && t in s.frees && s.frees[t].DCas? && s.head == s.frees[t].head
    ensures Inv(DeallocStep(s, t, false), g')
  {
    hide IsChain, Partition, PendingAllocated, PendingTotal;
    var i := s.frees[t].slot;
    var s' := DeallocStep(s, t, false);
    PartitionAfterPush(s, g, t);
    g' := Ghost([i] + g.free, g.role[i := Free]);
    ChainPush(s.next, s.head, g.free, i);
    PendingAfterPush(s.frees, t);
    forall j: nat ensures HasRole(g', j, Free) <==> j == i || HasRole(g, j, Free) { Reassign(g, i, Free, j, Free); }
    hide HasRole;
    assert Locals(s', g');
  }

  /** Both counter updates of a thread that has just pushed are pending. */
  lemma PendingAfterPush(frees: map<nat, Dealloc>, t: nat)
    requires t in frees && frees[t].DCas?
    ensures |PendingAllocated(frees[t := DCountAlloc])| == |PendingAllocated(frees)| + 1
    ensures |PendingTotal(frees[t := DCountAlloc])| == |PendingTotal(frees)| + 1
  {
    assert PendingAllocated(frees[t := DCountAlloc]) == PendingAllocated(frees) + {t};
    assert PendingTotal(frees[t := DCountAlloc]) == PendingTotal(frees) + {t};
  }

  lemma PartitionAfterPush(s: State, g: Ghost, t: nat)
    requires |s.allocs| == 1 && Partition(s, g) && t in s.frees && s.frees[t].DCas?
    ensures var i := s.frees[t].slot;
            && i < |s.next| && |g.role| == |s.next| && i !in g.free
            && Partition(s.(head := i, frees := s.frees[t := DCountAlloc]), Ghost([i] + g.free, g.role[i := Free]))
  {
    var i := s.frees[t].slot;
    assert Returns(s.frees[t], i);
    assert HasRole(g, i, Returned(t));
    assert !HasRole(g, i, Free);
    var s', g' := s.(head := i, frees := s.frees[t := DCountAlloc]), Ghost([i] + g.free, g.role[i := Free]);
    forall j: nat, q: Role ensures HasRole(g', j, q) <==> if j == i then q == Free else HasRole(g, j, q) {
      Reassign(g, i, Free, j, q);
    }
    hide HasRole;
    forall u: nat, j: nat ensures (u in s'.frees && Returns(s'.frees[u], j)) <==> HasRole(g', j, Returned(u)) {
      assert (u in s.frees && Returns(s.frees[u], j)) <==> HasRole(g, j, Returned(u));
      assert HasRole(g, j, Returned(t)) <==> j == i;
    }
  }

  /** Its other steps on the way there: the link of a slot outside the chain is rewritten. */
  lemma DeallocatorMoves(s: State, g: Ghost, t: nat, spurious: bool)
    requires Inv(s, g) && t in s.frees && (s.frees[t].DLoadHead? || s.frees[t].DStoreNext? || s.frees[t].DCas?)
    requires !(s.frees[t].DCas? && s.head == s.frees[t].head && !spurious)
    ensures Inv(DeallocStep(s, t, spurious), g)
  {
    hide IsChain, HeadOf, PendingAllocated, PendingTotal;
    var d := s.frees[t];
    var i := d.slot;
    var s' := DeallocStep(s, t, spurious);
    assert Returns(d, i);
    assert HasRole(g, i, Returned(t)) && !HasRole(g, i, Free);
    if d.DStoreNext? { ChainFrame(s.next, s.head, g.free, i, d.head); }
    PendingFrame(s.frees, t, s'.frees[t]);
    LocalsAfterMove(s, g, t, spurious);
    assert forall u: nat, j: nat :: (u in s'.frees && Returns(s'.frees[u], j)) <==>
        (u in s.frees && Returns(s.frees[u], j));
    hide Returns, HasRole, Locals;
    assert Partition(s', g);
  }

  /** A thread that has not pushed yet has nothing pending. */
  lemma PendingFrame(frees: map<nat, Dealloc>, t: nat, d: Dealloc)
    requires t in frees && !frees[t].DCountAlloc? && !frees[t].DCountTotal? && !d.DCountAlloc? && !d.DCountTotal?
    ensures PendingAllocated(frees[t := d]) == PendingAllocated(frees)
    ensures PendingTotal(frees[t := d]) == PendingTotal(frees)
  {
  }

  /** Two threads return different slots, so the link one of them stores is not the other's. */
  lemma LocalsAfterMove(s: State, g: Ghost, t: nat, spurious: bool)
    requires |s.allocs| == 1 && Partition(s, g) && Locals(s, g)
    requires t in s.frees && (s.frees[t].DLoadHead? || s.frees[t].DStoreNext? || s.frees[t].DCas?)
    requires !(s.frees[t].DCas? && s.head == s.frees[t].head && !spurious)
    ensures Locals(DeallocStep(s, t, spurious), g)
  {
    var s', i := DeallocStep(s, t, spurious), s.frees[t].slot;
    assert Returns(s.frees[t], i);
    assert HasRole(g, i, Returned(t)) && !HasRole(g, i, Free);
    forall u | u in s'.frees && s'.frees[u].DCas?
      ensures s'.frees[u].slot < |s'.next| && s'.next[s'.frees[u].slot] == s'.frees[u].head
    {
      if u != t {
        var j := s.frees[u].slot;
        assert Returns(s.frees[u], j);
        assert HasRole(g, j, Returned(u));
      }
    }
  }

  /** Its two counter updates after the push. */
  lemma DeallocatorCounts(s: State, g: Ghost, t: nat)
    requires Inv(s, g) && t in s.frees && (s.frees[t].DCountAlloc? || s.frees[t].DCountTotal?)
    ensures Inv(DeallocStep(s, t, false), g) && DeallocStep(s, t, true) == DeallocStep(s, t, false)
  {
    hide IsChain, PendingAllocated, PendingTotal, HasRole;
    var s' := DeallocStep(s, t, false);
    PendingCounted(s.frees, t);
    assert forall u: nat, j: nat :: (u in s'.frees && Returns(s'.frees[u], j)) <==>
        (u in s.frees && Returns(s.frees[u], j));
    hide Returns;
    assert Partition(s', g);
  }

  /** One counter update is pending no longer. */
  lemma PendingCounted(frees: map<nat, Dealloc>, t: nat)
    requires t in frees
    ensures frees[t].DCountAlloc? ==> |PendingAllocated(frees[t := DCountTotal])| == |PendingAllocated(frees)| - 1 &&
                                      PendingTotal(frees[t := DCountTotal]) == PendingTotal(frees)
    ensures frees[t].DCountTotal? ==> PendingAllocated(frees - {t}) == PendingAllocated(frees) &&
                                      |PendingTotal(frees - {t})| == |PendingTotal(frees)| - 1
  {
    if frees[t].DCountAlloc? {
      assert PendingAllocated(frees[t := DCountTotal]) == PendingAllocated(frees) - {t};
    } else if frees[t].DCountTotal? {
      assert PendingTotal(frees - {t}) == PendingTotal(frees) - {t};
    }
  }

  /** A caller hands a slot back. */
  lemma CallerReturns(s: State, g: Ghost, t: nat, i: nat) returns (g': Ghost)
    requires Inv(s, g) && t !in s.frees && i in s.owned
    ensures Inv(Step(s, CallDeallocate(t, i)), g')
  {
    hide IsChain;
    var s' := Step(s, CallDeallocate(t, i));
    assert PendingAllocated(s'.frees) == PendingAllocated(s.frees);
    assert PendingTotal(s'.frees) == PendingTotal(s.frees);
    hide PendingAllocated, PendingTotal;
    assert HasRole(g, i, Owned);
    g' := g.(role := g.role[i := Returned(t)]);
    forall j: nat, q: Role ensures HasRole(g', j, q) <==> if j == i then q == Returned(t) else HasRole(g, j, q) {
      Reassign(g, i, Returned(t), j, q);
    }
    hide HasRole;
    forall u: nat, j: nat ensures (u in s'.frees && Returns(s'.frees[u], j)) <==> HasRole(g', j, Returned(u)) {
      assert (u in s.frees && Returns(s.frees[u], j)) <==> HasRole(g, j, Returned(u));
    }
    assert Partition(s', g');
  }

  /** A call and a shutdown move nothing. */
  lemma CallKeepsInv(s: State, g: Ghost, act: Action)
    requires Inv(s, g) && (act.CallAllocate? || act.Shutdown?)
    ensures Inv(Step(s, act), g)
  {
    hide IsChain, PendingAllocated, PendingTotal, HasRole;
    var s' := Step(s, act);
    assert forall i: nat :: Carries(s'.allocs[0], i) <==> Carries(s.allocs[0], i);
    PartitionFrame(s, s', g);
  }

  /** Every step keeps the invariant, with the history brought up to date. */
  lemma StepKeepsInv(s: State, g: Ghost, act: Action) returns (g': Ghost)
    requires Inv(s, g)
    ensures Inv(Step(s, act), g')
  {
    assert |s.allocs| == 1;
    hide Inv;
    g' := g;
    match act
    case CallAllocate(a) => CallKeepsInv(s, g, act);
    case StepAllocate(a, spurious) =>
      if a == 0 {
        var p := s.allocs[0];
        if p.ACas? && s.head == p.head && !spurious { g' := AllocatorPops(s, g); }
        else if p.AHandOut? { g' := AllocatorHandsOut(s, g); }
        else { AllocatorMoves(s, g, spurious); }
      }
    case CallDeallocate(t, i) =>
      if t !in s.frees && i in s.owned { g' := CallerReturns(s, g, t, i); }
    case StepDeallocate(t, spurious) =>
      if t in s.frees {
        var d := s.frees[t];
        if d.DCountAlloc? || d.DCountTotal? { DeallocatorCounts(s, g, t); }
        else if d.DCas? && s.head == d.head && !spurious { g' := DeallocatorPushes(s, g, t); }
        else { DeallocatorMoves(s, g, t, spurious); }
      }
    case Shutdown => CallKeepsInv(s, g, act);
  }

  // ---------------------------------------------------------------- whole runs

  /** The pool as its constructor leaves it, for `m` allocating threads. */
  function Start(n: nat, m: nat): State
    requires n > 0
  {
    State(0, seq(n, i => if i + 1 < n then i + 1 else -1), false, 0, 0, 0, 0, seq(m, i => AIdle), map[], {})
  }

  function Exec(s: State, run: seq<Action>): State {
    if run == [] then s else Step(Exec(s, run[..|run| - 1]), run[|run| - 1])
  }

  lemma StartInv(n: nat) returns (g: Ghost)
    requires n > 0
    ensures Inv(Start(n, 1), g)
  {
    g := Ghost(seq(n, i => i), seq(n, i => Free));
    assert forall i :: 0 <= i < n ==> g.free[i] == i;
    forall i | 0 <= i < n ensures Start(n, 1).next[g.free[i]] == HeadOf(g.free[i + 1..]) {
      if i + 1 < n { assert g.free[i + 1..][0] == g.free[i + 1]; }
    }
    forall i: nat ensures i in g.free <==> HasRole(g, i, Free) {
      if i < n { assert g.free[i] == i; }
    }
  }

  /** With one allocating thread and any number of deallocating ones, over every interleaving: the chain
      is a list of distinct slots, every slot has exactly one role, the slot being handed out is nobody's,
      and the counters are right up to the updates still pending. */
  lemma {:induction false} PoolSafety(n: nat, run: seq<Action>) returns (g: Ghost)
    requires n > 0
    ensures var s := Exec(Start(n, 1), run);
            && Inv(s, g)
            && (s.allocs[0].AHandOut? ==> s.allocs[0].slot !in s.owned && s.allocs[0].slot !in g.free)
            && (s.allocs[0].AIdle? && s.frees == map[] ==> s.allocCount == |s.owned| == s.totalAllocs - s.totalDeallocs)
    decreases |run|
  {
    if run == [] {
      g := StartInv(n);
    } else {
      var k := |run| - 1;
      var p := PoolSafety(n, run[..k]);
      hide Inv;
      g := StepKeepsInv(Exec(Start(n, 1), run[..k]), p, run[k]);
    }
    Consequences(Exec(Start(n, 1), run), g);
  }

  lemma Consequences(s: State, g: Ghost)
    requires Inv(s, g)
    ensures s.allocs[0].AHandOut? ==> s.allocs[0].slot !in s.owned && s.allocs[0].slot !in g.free
    ensures s.allocs[0].AIdle? && s.frees == map[] ==> s.allocCount == |s.owned| == s.totalAllocs - s.totalDeallocs
  {
    var a := s.allocs[0];
    if a.AHandOut? {
      assert Carries(a, a.slot);
      assert HasRole(g, a.slot, Carried) && !HasRole(g, a.slot, Owned) && !HasRole(g, a.slot, Free);
    }
    if a.AIdle? && s.frees == map[] { Quiescent(s, g); }
  }

  lemma Quiescent(s: State, g: Ghost)
    requires Inv(s, g) && s.allocs[0].AIdle? && s.frees == map[]
    ensures s.allocCount == |s.owned| == s.totalAllocs - s.totalDeallocs
  {
    RestCounts(s, g);
    hide Inv;
    forall i: nat ensures i < |s.next| <==> i in s.owned || i in g.free { TwoRoles(s, g, i); }
    forall i | i in s.owned ensures i !in g.free { TwoRoles(s, g, i); }
    SplitBelow(|s.next|, s.owned, g.free);
  }

  /** With nothing under way both counters count the slots outside the chain. */
  lemma RestCounts(s: State, g: Ghost)
    requires Inv(s, g) && s.allocs[0].AIdle? && s.frees == map[]
    ensures s.allocCount == s.totalAllocs - s.totalDeallocs == |s.next| - |g.free| && Distinct(g.free)
  {
    hide Partition, Locals;
    assert PendingAllocated(s.frees) == {} && PendingTotal(s.frees) == {};
  }

  lemma SplitBelow(n: nat, owned: set<nat>, free: seq<nat>)
    requires Distinct(free)
    requires forall i: nat :: i < n <==> i in owned || i in free
    requires forall i :: i in owned ==> i !in free
    ensures |owned| == n - |free|
  {
    CountDistinct(free);
    var f := set i | 0 <= i < |free| :: free[i];
    assert forall i: nat :: i in f <==> i in free;
    assert Below(n) == owned + f;
    assert owned !! f;
  }

  lemma TwoRoles(s: State, g: Ghost, i: nat)
    requires Inv(s, g) && s.allocs[0].AIdle? && s.frees == map[]
    ensures i < |s.next| <==> i in s.owned || i in g.free
    ensures i in s.owned ==> i !in g.free
  {
    hide IsChain, Counts, Locals;
    assert i in g.free <==> HasRole(g, i, Free);
    assert i in s.owned <==> HasRole(g, i, Owned);
    assert !HasRole(g, i, Carried);
    assert forall t: nat :: !HasRole(g, i, Returned(t));
    assert i < |s.next| ==> HasRole(g, i, g.role[i]);
  }

  // ---------------------------------------------------------------- two allocating threads

  lemma ExecSnoc(s: State, run: seq<Action>, act: Action)
    ensures Exec(s, run + [act]) == Step(Exec(s, run), act)
  {
    assert (run + [act])[..|run|] == run;
  }

  /** Follows a run of actions from a state already reached. */
  lemma {:induction false} ExecConcat(s: State, a: seq<Action>, b: seq<Action>)
    ensures Exec(s, a + b) == Exec(Exec(s, a), b)
    decreases |b|
  {
    if b == [] {
      assert a + b == a;
    } else {
      var k := |b| - 1;
      assert (a + b)[..|a| + k] == a + b[..k];
      ExecConcat(s, a, b[..k]);
    }
  }

  function Turns(a: nat, n: nat): seq<Action> { seq(n, i => StepAllocate(a, false)) }

  function With(s: State, a: nat, p: Alloc): State
    requires a < |s.allocs|
  {
    s.(allocs := s.allocs[a := p])
  }

  lemma WithOnly(s: State, a: nat, p: Alloc)
    requires a < |s.allocs|
    ensures var r := With(s, a, p); |r.allocs| == |s.allocs| && r.allocs[a] == p && r.owned == s.owned
  {
  }

  /** The thread's own steps from one place in the code to the next. */
  lemma Undisturbed(s: State, a: nat)
    requires a < |s.allocs| && !s.shutdown && 0 <= s.head < |s.next|
    ensures var h := s.head as nat; var nx := s.next[h]; var act := StepAllocate(a, false);
            var popped := s.(head := nx); var counted := popped.(allocCount := s.allocCount + 1);
            var totalled := counted.(totalAllocs := s.totalAllocs + 1);
            && Step(With(s, a, AIdle), CallAllocate(a)) == With(s, a, ALoadShutdown)
            && Step(With(s, a, ALoadShutdown), act) == With(s, a, ALoadHead)
            && Step(With(s, a, ALoadHead), act) == With(s, a, ALoadNext(h))
            && Step(With(s, a, ALoadNext(h)), act) == With(s, a, ACas(h, nx))
            && Step(With(s, a, ACas(h, nx)), act) == With(popped, a, ACountAlloc(h))
            && Step(With(popped, a, ACountAlloc(h)), act) == With(counted, a, ACountTotal(h))
            && Step(With(counted, a, ACountTotal(h)), act) == With(totalled, a, AHandOut(h))
            && Step(With(totalled, a, AHandOut(h)), act) == With(totalled.(owned := s.owned + {h}), a, AIdle)
  {
  }

  /** An undisturbed allocation from an idle thread: eight actions later the top slot is owned. */
  lemma Allocates(s: State, a: nat)
    requires a < |s.allocs| && s.allocs[a].AIdle? && !s.shutdown && 0 <= s.head < |s.next|
    ensures Exec(s, [CallAllocate(a)] + Turns(a, 7)) ==
            s.(head := s.next[s.head], allocCount := s.allocCount + 1, totalAllocs := s.totalAllocs + 1,
               owned := s.owned + {s.head as nat})
  {
    hide Step, With, Exec, Turns;
    var s1 := With(s, a, ALoadShutdown);
    Undisturbed(s, a);
    FirstActions(s, a, 7);
    TurnsUnroll(s1, a, 0);
    TurnsUnroll(s1, a, 1);
    TurnsUnroll(s1, a, 2);
    TurnsUnroll(s1, a, 3);
    TurnsUnroll(s1, a, 4);
    TurnsUnroll(s1, a, 5);
    TurnsUnroll(s1, a, 6);
    BackToIdle(s, a);
  }

  lemma BackToIdle(s: State, a: nat)
    requires a < |s.allocs| && s.allocs[a].AIdle? && 0 <= s.head < |s.next|
    ensures var t := s.(head := s.next[s.head], allocCount := s.allocCount + 1, totalAllocs := s.totalAllocs + 1,
                        owned := s.owned + {s.head as nat});
            With(t, a, AIdle) == t
  {
    assert s.allocs[a := AIdle] == s.allocs;
  }

  lemma TurnsUnroll(s: State, a: nat, n: nat)
    ensures Exec(s, Turns(a, n + 1)) == Step(Exec(s, Turns(a, n)), StepAllocate(a, false))
    ensures Exec(s, Turns(a, 0)) == s
  {
    assert Turns(a, n + 1) == Turns(a, n) + [StepAllocate(a, false)];
    ExecSnoc(s, Turns(a, n), StepAllocate(a, false));
    assert Turns(a, 0) == [];
  }

  /** A deallocation that nothing interferes with, up to its push. */
  lemma Pushes(s: State, t: nat, i: nat)
    requires t !in s.frees && i in s.owned && i < |s.next|
    ensures var d := StepDeallocate(t, false);
            Exec(s, [CallDeallocate(t, i), d, d, d]) ==
            s.(head := i, next := s.next[i := s.head], frees := s.frees[t := DCountAlloc], owned := s.owned - {i})
  {
    var d := StepDeallocate(t, false);
    var call := CallDeallocate(t, i);
    var s1 := s.(owned := s.owned - {i}, frees := s.frees[t := DLoadHead(i)]);
    var s2 := s1.(frees := s.frees[t := DStoreNext(i, s.head)]);
    var s3 := s2.(next := s.next[i := s.head], frees := s.frees[t := DCas(i, s.head)]);
    var s4 := s.(head := i, next := s.next[i := s.head], frees := s.frees[t := DCountAlloc], owned := s.owned - {i});
    assert Step(s, call) == s1 && Step(s1, d) == s2 && Step(s2, d) == s3 && Step(s3, d) == s4;
    hide Step;
    ExecFour(s, call, d, d, d);
  }

  lemma ExecFour(s: State, a: Action, b: Action, c: Action, d: Action)
    ensures Exec(s, [a, b, c, d]) == Step(Step(Step(Step(s, a), b), c), d)
  {
    hide Step;
    ExecSnoc(s, [], a);
    ExecSnoc(s, [a], b);
    ExecSnoc(s, [a, b], c);
    ExecSnoc(s, [a, b, c], d);
    assert [] + [a] == [a] && [a] + [b] == [a, b] && [a, b] + [c] == [a, b, c] && [a, b, c] + [d] == [a, b, c, d];
  }

  /** With two or more allocating threads the bare index compare-and-swap is not enough: in every pool of
      at least two slots there is a run that ends with a slot being handed out while a caller owns it.
      Thread 0 loads slot 0 and its link; thread 1 allocates slots 0 and 1; slot 0 comes back; thread 0's
      compare-and-swap succeeds on the stale link. */
  lemma TwoAllocatorsUnsafe(n: nat, m: nat) returns (run: seq<Action>)
    requires n >= 2 && m >= 2
    ensures var s := Exec(Start(n, m), run); |s.allocs| == m && s.allocs[1] == AHandOut(1) && 1 in s.owned
  {
    var s0 := Start(n, m);
    var third := if n == 2 then -1 else 2;
    assert s0.next[0] == 1 && s0.next[1] == third;
    var s1 := With(s0, 0, ACas(0, 1));
    var s2 := s1.(head := 1, allocCount := 1, totalAllocs := 1, owned := {0});
    var s3 := s2.(head := third, allocCount := 2, totalAllocs := 2, owned := {0, 1});
    var s4 := s3.(head := 0, next := s3.next[0 := third], frees := map[7 := DCountAlloc], owned := {1});
    var s5 := With(s4, 0, ACountAlloc(0)).(head := 1);
    var a := [CallAllocate(0)] + Turns(0, 3);
    var b := [CallAllocate(1)] + Turns(1, 7);
    var c := [CallDeallocate(7, 0), StepDeallocate(7, false), StepDeallocate(7, false), StepDeallocate(7, false)];
    var d := [StepAllocate(0, false)];
    var e := [CallAllocate(1)] + Turns(1, 6);
    assert Exec(s0, a) == s1 by { StopsAtCas(s0, 0); }
    assert Exec(s1, b) == s2 by { Allocates(s1, 1); assert {} + {0} == {0}; }
    assert Exec(s2, b) == s3 by { Allocates(s2, 1); assert {0} + {1} == {0, 1}; }
    assert Exec(s3, c) == s4 by { Pushes(s3, 7, 0); assert {0, 1} - {0} == {1}; }
    assert Exec(s4, d) == s5 by { assert d[..0] == []; assert s4.allocs[0] == ACas(0, 1); }
    var s6 := Exec(s5, e);
    assert |s6.allocs| == m && s6.allocs[1] == AHandOut(1) && 1 in s6.owned by { StopsAtHandOut(s5, 1); }
    run := a + b + b + c + d + e;
    hide Exec, Turns, With, Start;
    ExecConcat(s0, a, b);
    ExecConcat(s0, a + b, b);
    ExecConcat(s0, a + b + b, c);
    ExecConcat(s0, a + b + b + c, d);
    ExecConcat(s0, a + b + b + c + d, e);
  }

  lemma StopsAtCas(s: State, a: nat)
    requires a < |s.allocs| && s.allocs[a].AIdle? && !s.shutdown && 0 <= s.head < |s.next|
    ensures Exec(s, [CallAllocate(a)] + Turns(a, 3)) == With(s, a, ACas(s.head, s.next[s.head]))
  {
    hide Step, With, Exec, Turns;
    FirstActions(s, a, 3);
    TurnsUnroll(With(s, a, ALoadShutdown), a, 0);
    TurnsUnroll(With(s, a, ALoadShutdown), a, 1);
    TurnsUnroll(With(s, a, ALoadShutdown), a, 2);
    Undisturbed(s, a);
  }

  lemma StopsAtHandOut(s: State, a: nat)
    requires a < |s.allocs| && s.allocs[a].AIdle? && !s.shutdown && 0 <= s.head < |s.next|
    ensures var r := Exec(s, [CallAllocate(a)] + Turns(a, 6));
            |r.allocs| == |s.allocs| && r.allocs[a] == AHandOut(s.head) && r.owned == s.owned
  {
    hide Step, Exec, Turns, With;
    var s1 := With(s, a, ALoadShutdown);
    var r := s.(head := s.next[s.head], allocCount := s.allocCount + 1, totalAllocs := s.totalAllocs + 1);
    WithOnly(r, a, AHandOut(s.head));
    FirstActions(s, a, 6);
    TurnsUnroll(s1, a, 0);
    TurnsUnroll(s1, a, 1);
    TurnsUnroll(s1, a, 2);
    TurnsUnroll(s1, a, 3);
    TurnsUnroll(s1, a, 4);
    TurnsUnroll(s1, a, 5);
    Undisturbed(s, a);
  }

  lemma FirstActions(s: State, a: nat, n: nat)
    requires a < |s.allocs| && s.allocs[a].AIdle?
    ensures Exec(s, [CallAllocate(a)] + Turns(a, n)) == Exec(With(s, a, ALoadShutdown), Turns(a, n))
  {
    hide Turns;
    var c := [CallAllocate(a)];
    ExecSnoc(s, [], CallAllocate(a));
    assert [] + c == c;
    ExecConcat(s, c, Turns(a, n));
  }
}
