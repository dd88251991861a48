/** What one `allocate` achieves, whatever the deallocating threads do meanwhile. */
module PoolProgress {
  import opened Pool
  import opened PoolThreads

  predicate NoCall(run: seq<Action>) { forall i :: 0 <= i < |run| ==> !run[i].CallAllocate? }

  predicate NoPush(run: seq<Action>) { forall i :: 0 <= i < |run| ==> !run[i].StepDeallocate? }

  /** A slot has been popped, and nobody has looked for one in vain. */
  predicate Allocated(s: State, r: State) { r.totalAllocs == s.totalAllocs + 1 && r.failures == s.failures }

  predicate Failed(s: State, r: State) { r.totalAllocs == s.totalAllocs && r.failures == s.failures + 1 }

  predicate Pending(s: State, r: State) { r.totalAllocs == s.totalAllocs && r.failures == s.failures }

  /** `allocate` called in `s` by the only allocating thread, some steps later, in `r`. */
  ghost predicate Allocating(s: State, r: State) {
    && (exists g: Ghost :: Inv(r, g)) && |r.allocs| == 1 && (s.shutdown ==> r.shutdown)
    && match r.allocs[0]
       case ALoadShutdown => Pending(s, r) && (s.head >= 0 ==> r.head >= 0)
       case ALoadHead => Pending(s, r) && !s.shutdown && (s.head >= 0 ==> r.head >= 0)
       case ALoadNext(_) => Pending(s, r) && !s.shutdown && (s.head >= 0 ==> r.head >= 0)
       case ACas(_, _) => Pending(s, r) && !s.shutdown && (s.head >= 0 ==> r.head >= 0)
       case ACountAlloc(_) => Pending(s, r) && !s.shutdown
       case ACountTotal(_) => Pending(s, r) && !s.shutdown
       case AHandOut(_) => Allocated(s, r) && !s.shutdown
       case ACountFailure => Pending(s, r) && (r.shutdown || s.head < 0)
       case AIdle =>
         || (Allocated(s, r) && !s.shutdown)
         || (Failed(s, r) && (r.shutdown || s.head < 0))
  }

  /** What a step of another thread leaves alone. */
  lemma OtherSteps(r: State, act: Action)
    requires |r.allocs| == 1 && !act.CallAllocate? && !act.StepAllocate?
    ensures var r' := Step(r, act);
            && r'.allocs == r.allocs && r'.totalAllocs == r.totalAllocs && r'.failures == r.failures
            && (r.head >= 0 ==> r'.head >= 0) && (r.shutdown ==> r'.shutdown)
  {
  }

  lemma AllocatingStep(s: State, r: State, act: Action)
    requires Allocating(s, r) && !act.CallAllocate?
    ensures Allocating(s, Step(r, act))
  {
    hide Inv;
    var g: Ghost :| Inv(r, g);
    var g' := StepKeepsInv(r, g, act);
    if act.StepAllocate? {
      HeadIsFree(r, g);
    } else {
      OtherSteps(r, act);
      hide Step;
    }
  }

  /** While the allocator holds a loaded index, there is a slot to pop. */
  lemma HeadIsFree(r: State, g: Ghost)
    requires Inv(r, g)
    ensures |r.allocs| == 1
    ensures r.allocs[0].ALoadNext? || r.allocs[0].ACas? ==> r.head >= 0
    ensures r.allocs[0].ALoadNext? ==> r.allocs[0].head < |r.next|
  {
    hide Counts;
    var a := r.allocs[0];
    if a.ALoadNext? || a.ACas? {
      assert HasRole(g, a.head, Free);
      assert a.head in g.free;
    }
  }

  lemma {:induction false} AllocatingRun(s: State, g: Ghost, run: seq<Action>)
    requires Inv(s, g) && s.allocs[0].AIdle? && NoCall(run)
    ensures Allocating(s, Exec(s, [CallAllocate(0)] + run))
    decreases |run|
  {
    hide Inv, Exec, Allocating, Step;
    var call := [CallAllocate(0)];
    if run == [] {
      ExecSnoc(s, [], CallAllocate(0));
      ExecNothing(s);
      assert [] + call == call && call + run == call;
      AllocatingStart(s, g);
    } else {
      var k := |run| - 1;
      AllocatingRun(s, g, run[..k]);
      ExecSnoc(s, call + run[..k], run[k]);
      assert call + run[..k] + [run[k]] == call + run;
      AllocatingStep(s, Exec(s, call + run[..k]), run[k]);
    }
  }

  lemma ExecNothing(s: State)
    ensures Exec(s, []) == s
  {
  }

  lemma AllocatingStart(s: State, g: Ghost)
    requires Inv(s, g) && s.allocs[0].AIdle?
    ensures Allocating(s, Step(s, CallAllocate(0)))
  {
    var g' := StepKeepsInv(s, g, CallAllocate(0));
    hide Inv;
  }

  /** One `allocate` of the only allocating thread, over every interleaving after which it has come back:
      it took exactly one slot or counted exactly one failure.  With a free slot when it started and no
      shutdown it took one, whatever the deallocating threads did; after a shutdown, and with no free slot
      when none was pushed meanwhile, it failed. */
  lemma AllocateOutcome(s: State, g: Ghost, run: seq<Action>)
    requires Inv(s, g) && s.allocs[0].AIdle? && NoCall(run)
    requires Exec(s, [CallAllocate(0)] + run).allocs == [AIdle]
    ensures var r := Exec(s, [CallAllocate(0)] + run);
            && (Allocated(s, r) || Failed(s, r))
            && (s.shutdown ==> Failed(s, r))
            && (!r.shutdown && s.head >= 0 ==> Allocated(s, r))
            && (s.head < 0 && NoPush(run) ==> Failed(s, r))
  {
    hide Inv, Exec;
    AllocatingRun(s, g, run);
    if s.head < 0 && NoPush(run) { StaysEmpty(s, g, run); }
  }

  /** With no free slot and nobody pushing, nothing is popped. */
  lemma {:induction false} StaysEmpty(s: State, g: Ghost, run: seq<Action>)
    requires Inv(s, g) && s.allocs[0].AIdle? && NoCall(run) && NoPush(run) && s.head < 0
    ensures var r := Exec(s, [CallAllocate(0)] + run);
            && r.head < 0 && r.totalAllocs == s.totalAllocs && |r.allocs| == 1
            && r.allocs[0] in {ALoadShutdown, ALoadHead, ACountFailure, AIdle}
    decreases |run|
  {
    hide Inv, Exec;
    var call := [CallAllocate(0)];
    if run == [] {
      ExecSnoc(s, [], CallAllocate(0));
      ExecNothing(s);
      assert [] + call == call && call + run == call;
      InvShape(s, g);
    } else {
      var k := |run| - 1;
      StaysEmpty(s, g, run[..k]);
      ExecSnoc(s, call + run[..k], run[k]);
      assert call + run[..k] + [run[k]] == call + run;
    }
  }

  lemma InvShape(s: State, g: Ghost)
    requires Inv(s, g)
    ensures |s.allocs| == 1
  {
  }

  /** A new pool has no history. */
  lemma StartCounts(n: nat, m: nat)
    requires n > 0
    ensures var s := Start(n, m);
            s.allocCount == s.totalAllocs == s.totalDeallocs == s.failures == 0 && !s.shutdown && s.owned == {}
  {
  }
}
