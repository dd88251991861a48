/** `MessagePool`: a stack of free slot indices threaded through `next_free_index`. */
module Pool {
  import opened Bytes

  function HeadOf(free: seq<nat>): int { if free == [] then -1 else free[0] }

  predicate Distinct(free: seq<nat>) { forall i, j :: 0 <= i < j < |free| ==> free[i] != free[j] }

  /** The chain from `head` visits exactly `free`, in this order, and ends; no slot twice, so no cycle. */
  predicate IsChain(next: seq<int>, head: int, free: seq<nat>) {
    && head == HeadOf(free) && Distinct(free)
    && (forall i :: 0 <= i < |free| ==> free[i] < |next|)
    && (forall i :: 0 <= i < |free| ==> next[free[i]] == HeadOf(free[i + 1..]))
  }

  lemma ChainPop(next: seq<int>, head: int, free: seq<nat>)
    requires IsChain(next, head, free) && free != []
    ensures head == free[0] && IsChain(next, next[head], free[1..]) && free[0] !in free[1..]
  {
    var rest := free[1..];
    forall i | 0 <= i < |rest| ensures next[rest[i]] == HeadOf(rest[i + 1..]) {
      assert rest[i] == free[i + 1] && rest[i + 1..] == free[i + 2..];
    }
  }

  lemma DropBehind(slot: nat, free: seq<nat>, i: nat)
    requires i <= |free|
    ensures ([slot] + free)[i + 1..] == free[i..]
    ensures free[0..] == free
  {
  }

  lemma ChainPush(next: seq<int>, head: int, free: seq<nat>, slot: nat)
    requires IsChain(next, head, free) && slot < |next| && slot !in free && next[slot] == head
    ensures IsChain(next, slot, [slot] + free)
  {
    var more := [slot] + free;
    forall i | 0 <= i < |more| ensures next[more[i]] == HeadOf(more[i + 1..]) {
      DropBehind(slot, free, i);
      assert i > 0 ==> more[i] == free[i - 1];
    }
  }

  /** Writing the link of a slot outside the chain does not touch the chain. */
  lemma ChainFrame(next: seq<int>, head: int, free: seq<nat>, slot: nat, v: int)
    requires IsChain(next, head, free) && slot < |next| && slot !in free
    ensures IsChain(next[slot := v], head, free)
  {
    forall i | 0 <= i < |free| ensures next[slot := v][free[i]] == HeadOf(free[i + 1..]) {
      assert free[i] in free;
    }
  }

  /** Distinct indices below n: never more than n of them. */
  lemma DistinctBound(free: seq<nat>, n: nat)
    requires Distinct(free) && forall i :: 0 <= i < |free| ==> free[i] < n
    ensures |free| <= n
    ensures |free| == n ==> forall i :: 0 <= i < n ==> i in free
  {
    var s := set i | 0 <= i < |free| :: free[i];
    CountDistinct(free);
    var all := Below(n);
    assert s <= all;
    Subset(s, all);
    if |free| == n {
      assert s == all;
      forall i: nat | i < n ensures i in free { assert i in all; }
    }
  }

  lemma Subset(a: set<nat>, b: set<nat>)
    requires a <= b
    ensures |a| <= |b| && (|a| == |b| ==> a == b)
  {
    assert |b| == |a| + |b - a| by { assert b == a + (b - a); }
    if |a| == |b| { assert b - a == {}; }
  }

  lemma {:induction false} CountDistinct(free: seq<nat>)
    requires Distinct(free)
    ensures |set i | 0 <= i < |free| :: free[i]| == |free|
  {
    var s := set i | 0 <= i < |free| :: free[i];
    if free == [] {
      assert s == {};
    } else {
      var n := |free| - 1;
      var init := free[..n];
      CountDistinct(init);
      var s' := set i | 0 <= i < |init| :: init[i];
      assert s == s' + {free[n]};
    }
  }

  function Below(n: nat): (s: set<nat>)
    ensures |s| == n && forall i: nat :: i in s <==> i < n
  {
    if n == 0 then {} else Below(n - 1) + {n - 1}
  }

  // ---------------------------------------------------------------- one thread at a time

  class MessagePool {
    const poolSize: nat
    const nextFree: array<int>
    var head: int
    var allocatedCount: int
    var totalAllocations: nat
    var totalDeallocations: nat
    var allocationFailures: nat
    var isShutdown: bool
    ghost var free: seq<nat>

    ghost predicate Valid()
      reads this, nextFree
    {
      && poolSize > 0 && nextFree.Length == poolSize
      && IsChain(nextFree[..], head, free)
      && allocatedCount == poolSize - |free| >= 0
    }

    constructor (poolSize: nat)
      requires poolSize > 0
      ensures Valid() && fresh(nextFree) && this.poolSize == poolSize
      ensures |free| == poolSize && !isShutdown
      ensures totalAllocations == totalDeallocations == allocationFailures == 0
    {
      this.poolSize := poolSize;
      this.nextFree := new int[poolSize];
      totalAllocations, totalDeallocations, allocationFailures, isShutdown := 0, 0, 0, false;
      new;
      InitializeFreeList();
    }

    /** What the source's constructor does with any size: an empty pool is refused with an exception. */
    static method Create(poolSize: nat) returns (pool: MessagePool?)
      ensures pool == null <==> poolSize == 0
      ensures pool != null ==>
                && fresh(pool) && fresh(pool.nextFree) && pool.Valid() && pool.poolSize == poolSize
                && |pool.free| == poolSize && !pool.isShutdown
    {
      if poolSize == 0 { return null; }
      pool := new MessagePool(poolSize);
    }

    /** Links every slot to its successor. */
    method InitializeFreeList()
      requires poolSize > 0 && nextFree.Length == poolSize
      modifies this`head, this`allocatedCount, this`free, nextFree
      ensures Valid() && allocatedCount == 0
      ensures |free| == poolSize && forall i :: 0 <= i < poolSize ==> free[i] == i
    {
      for i := 0 to poolSize - 1
        invariant forall j :: 0 <= j < i ==> nextFree[j] == j + 1
      {
        nextFree[i] := i + 1;
      }
      nextFree[poolSize - 1] := -1;
      head := 0;
      allocatedCount := 0;
      free := seq(poolSize, i => i);
    }

    /** Pops the top of the stack; fails only on an empty stack or after shutdown. */
    method Allocate() returns (slot: Option<nat>)
      requires Valid()
      modifies this
      ensures Valid() && isShutdown == old(isShutdown)
      ensures slot.Some? <==> !isShutdown && old(free) != []
      ensures if slot.Some? then old(free) == [slot.value] + free else free == old(free)
      ensures allocationFailures == old(allocationFailures) + if slot.Some? then 0 else 1
      ensures totalAllocations == old(totalAllocations) + if slot.Some? then 1 else 0
      ensures totalDeallocations == old(totalDeallocations)
    {
      if isShutdown || head < 0 {
        allocationFailures := allocationFailures + 1;
        return None;
      }
      ChainPop(nextFree[..], head, free);
      slot := Some(head);
      assert free == [free[0]] + free[1..];
      head := nextFree[head];
      free := free[1..];
      allocatedCount := allocatedCount + 1;
      totalAllocations := totalAllocations + 1;
    }

    /** Pushes a slot its caller owns; a slot of another pool is ignored. */
    method Deallocate(slot: nat)
      requires Valid() && slot !in free
      modifies this`head, this`free, this`allocatedCount, this`totalDeallocations, nextFree
      ensures Valid()
      ensures free == (if slot < poolSize then [slot] else []) + old(free)
      ensures totalDeallocations == old(totalDeallocations) + if slot < poolSize then 1 else 0
    {
      if slot >= poolSize {
        assert [] + free == free;
        return;
      }
      ghost var before := nextFree[..];
      ChainFrame(before, head, free, slot, head);
      nextFree[slot] := head;
      assert nextFree[..] == before[slot := head];
      ChainPush(nextFree[..], head, free, slot);
      head := slot;
      free := [slot] + free;
      DistinctBound(free, poolSize);
      allocatedCount := allocatedCount - 1;
      totalDeallocations := totalDeallocations + 1;
    }

    /** `reset` refuses while a slot is out; otherwise the chain is rebuilt in index order. */
    method Reset() returns (ok: bool)
      requires Valid()
      modifies this`head, this`allocatedCount, this`free, nextFree
      ensures Valid() && (ok <==> |old(free)| == poolSize)
      ensures if ok then |free| == poolSize else free == old(free)
    {
      DistinctBound(free, poolSize);
      if allocatedCount > 0 { return false; }
      InitializeFreeList();
      ok := true;
    }
  }
}
