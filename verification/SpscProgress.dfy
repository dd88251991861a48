/** What one `push` and one `tryPop` achieve, whatever the other thread does meanwhile. */
module SpscProgress {
  import opened Bits
  import opened Ring
  import opened Spsc

  lemma ExecSnoc<T>(s: State<T>, run: seq<Action<T>>, a: Action<T>)
    requires Inv(s)
    ensures Exec(s, run + [a]) == Step(Exec(s, run), a)
  {
    assert (run + [a])[..|run|] == run;
    hide Inv;
  }

  lemma ExecNothing<T>(s: State<T>)
    requires Inv(s)
    ensures Exec(s, []) == s
  {
  }

  /** Facts of the invariant in terms of the history alone. */
  lemma Outstanding<T>(s: State<T>)
    requires Inv(s)
    ensures s.pushed == s.popped + Queue(s) && |Queue(s)| < |s.slots|
  {
    hide Pow2, Next, Window;
    WindowSize(s.slots, s.head, s.tail, s.k);
  }

  /** A thread's step leaves the other thread's part of the history alone. */
  lemma StepEffects<T>(r: State<T>, a: Action<T>)
    requires Inv(r)
    ensures var r' := Step(r, a);
            && Inv(r') && |r'.slots| == |r.slots| && (r.shutdown ==> r'.shutdown)
            && |r'.pushed| >= |r.pushed| && |r'.popped| >= |r.popped|
            && r.pushed <= r'.pushed && r.popped <= r'.popped
            && (!a.StepProducer? && !a.CallPush? ==>
                  && r'.producer == r.producer && r'.pushed == r.pushed
                  && r'.pushCount == r.pushCount && r'.dropCount == r.dropCount)
            && (!a.StepConsumer? && !a.CallPop? ==>
                  r'.consumer == r.consumer && r'.popped == r.popped && r'.popCount == r.popCount)
  {
    hide Inv, Window, Next, Pow2;
    InvFacts(r);
    StepKeepsInv(r, a);
  }

  // ---------------------------------------------------------------- push

  function ProducerTurns<T>(run: seq<Action<T>>): nat {
    if run == [] then 0 else ProducerTurns(run[..|run| - 1]) + if run[|run| - 1].StepProducer? then 1 else 0
  }

  predicate NoPush<T>(run: seq<Action<T>>) { forall i :: 0 <= i < |run| ==> !run[i].CallPush? }

  ghost predicate Accepted<T>(s: State<T>, x: T, r: State<T>) {
    r.pushed == s.pushed + [x] && r.pushCount == s.pushCount + 1 && r.dropCount == s.dropCount
  }

  ghost predicate Dropped<T>(s: State<T>, r: State<T>) {
    r.pushed == s.pushed && r.pushCount == s.pushCount && r.dropCount == s.dropCount + 1
  }

  ghost predicate Refused<T>(s: State<T>, r: State<T>) {
    r.pushed == s.pushed && r.pushCount == s.pushCount && r.dropCount == s.dropCount
  }

  ghost predicate Room<T>(s: State<T>) { |s.pushed| - |s.popped| < |s.slots| - 1 }

  /** `push(x)` called in `s`, `n` steps of the producer later, in `r`. */
  ghost predicate Pushing<T>(s: State<T>, x: T, r: State<T>, n: nat) {
    && Inv(r) && |r.slots| == |s.slots| && |r.popped| >= |s.popped| && (s.shutdown ==> r.shutdown)
    && match r.producer
       case PLoadShutdown(y) => n == 0 && y == x && Refused(s, r)
       case PLoadTail(y) => n == 1 && y == x && Refused(s, r) && !s.shutdown
       case PLoadHead(y, _) => n == 2 && y == x && Refused(s, r) && !s.shutdown
       case PWriteSlot(y, _) => n == 3 && y == x && Refused(s, r) && !s.shutdown && MadeRoom(s, r)
       case PStoreTail(y, _) => n == 4 && y == x && Refused(s, r) && !s.shutdown && MadeRoom(s, r)
       case PCountPush =>
         && n == 5 && !s.shutdown && MadeRoom(s, r)
         && r.pushed == s.pushed + [x] && r.pushCount == s.pushCount && r.dropCount == s.dropCount
       case PCountDrop => n == 3 && Refused(s, r) && !s.shutdown && !Room(s)
       case PIdle =>
         || (n >= 6 && Accepted(s, x, r) && !s.shutdown && MadeRoom(s, r))
         || (n >= 4 && Dropped(s, r) && !s.shutdown && !Room(s))
         || (n >= 1 && Refused(s, r) && r.shutdown)
  }

  /** There was room from the start, or the consumer has made some. */
  ghost predicate MadeRoom<T>(s: State<T>, r: State<T>) { Room(s) || |r.popped| > |s.popped| }

  lemma PushingStep<T>(s: State<T>, x: T, r: State<T>, n: nat, a: Action<T>)
    requires Pushing(s, x, r, n) && !a.CallPush?
    ensures Pushing(s, x, Step(r, a), n + if a.StepProducer? then 1 else 0)
  {
    hide Inv, Window, Next, Queue, Pow2, ConsumerStep;
    StepEffects(r, a);
    if a.StepProducer? {
      InvFacts(r);
      RefinesFifo(r, a);
      Outstanding(r);
    } else {
      hide Step;
    }
  }

  lemma PushingStart<T>(s: State<T>, x: T)
    requires Inv(s) && s.producer.PIdle?
    ensures Pushing(s, x, Step(s, CallPush(x)), 0)
  {
    StepKeepsInv(s, CallPush(x));
    hide Inv, Window, Next, Pow2;
  }

  lemma {:induction false} PushingRun<T>(s: State<T>, x: T, run: seq<Action<T>>)
    requires Inv(s) && s.producer.PIdle? && NoPush(run)
    ensures Pushing(s, x, Exec(s, [CallPush(x)] + run), ProducerTurns(run))
    decreases |run|
  {
    hide Pushing, Step, Exec, Inv;
    var call := [CallPush(x)];
    if run == [] {
      ExecNothing(s);
      ExecSnoc(s, [], CallPush(x));
      assert [] + call == call && call + run == call;
      PushingStart(s, x);
    } else {
      var k := |run| - 1;
      PushingRun(s, x, run[..k]);
      ExecSnoc(s, call + run[..k], run[k]);
      assert call + run[..k] + [run[k]] == call + run;
      PushingStep(s, x, Exec(s, call + run[..k]), ProducerTurns(run[..k]), run[k]);
    }
  }

  /** One `push`, over every interleaving that lets it finish.  Six steps of its own are enough.  It is
      accepted, dropped, or refused because of a shutdown.  With room when it starts and no shutdown it is
      accepted, whatever the consumer does; with a full queue from which nothing is popped meanwhile it is
      dropped and counted; after a shutdown nothing happens. */
  lemma PushOutcome<T>(s: State<T>, x: T, run: seq<Action<T>>)
    requires Inv(s) && s.producer.PIdle? && NoPush(run) && ProducerTurns(run) >= 6
    ensures var r := Exec(s, [CallPush(x)] + run);
            && r.producer.PIdle?
            && (Accepted(s, x, r) || Dropped(s, r) || Refused(s, r))
            && (Refused(s, r) ==> r.shutdown)
            && (s.shutdown ==> Refused(s, r))
            && (!r.shutdown && |Queue(s)| < |s.slots| - 1 ==> Accepted(s, x, r))
            && (!r.shutdown && |Queue(s)| == |s.slots| - 1 && r.popped == s.popped ==> Dropped(s, r))
  {
    hide Inv, Window, Next, Queue, Exec, Pow2;
    InvFacts(s);
    Outstanding(s);
    PushingRun(s, x, run);
  }

  // ---------------------------------------------------------------- tryPop

  function ConsumerTurns<T>(run: seq<Action<T>>): nat {
    if run == [] then 0 else ConsumerTurns(run[..|run| - 1]) + if run[|run| - 1].StepConsumer? then 1 else 0
  }

  predicate NoPop<T>(run: seq<Action<T>>) { forall i :: 0 <= i < |run| ==> !run[i].CallPop? }

  ghost predicate Took<T>(s: State<T>, r: State<T>) {
    |r.popped| == |s.popped| + 1 && r.popCount == s.popCount + 1
  }

  ghost predicate Nothing<T>(s: State<T>, r: State<T>) {
    |r.popped| == |s.popped| && r.popCount == s.popCount
  }

  /** `tryPop` called in `s`, `n` steps of the consumer later, in `r`. */
  ghost predicate Popping<T>(s: State<T>, r: State<T>, n: nat) {
    && Inv(r) && |r.pushed| >= |s.pushed| && (s.shutdown ==> r.shutdown)
    && match r.consumer
       case CLoadShutdown => n == 0 && Nothing(s, r)
       case CLoadHead => n == 1 && Nothing(s, r) && !s.shutdown
       case CLoadTail(_) => n == 2 && Nothing(s, r) && !s.shutdown
       case CReadSlot(_) => n == 3 && Nothing(s, r) && !s.shutdown
       case CStoreHead(_, _) => n == 4 && Nothing(s, r) && !s.shutdown
       case CCountPop => n == 5 && |r.popped| == |s.popped| + 1 && r.popCount == s.popCount && !s.shutdown
       case CIdle =>
         || (n >= 6 && Took(s, r) && !s.shutdown)
         || (n >= 3 && Nothing(s, r) && !s.shutdown && |s.pushed| == |s.popped|)
         || (n >= 1 && Nothing(s, r) && r.shutdown)
  }

  lemma PoppingStep<T>(s: State<T>, r: State<T>, n: nat, a: Action<T>)
    requires Popping(s, r, n) && !a.CallPop? && |s.pushed| >= |s.popped|
    ensures Popping(s, Step(r, a), n + if a.StepConsumer? then 1 else 0)
  {
    hide Inv, Window, Next, Queue, Pow2, ProducerStep;
    StepEffects(r, a);
    if a.StepConsumer? {
      InvFacts(r);
      RefinesFifo(r, a);
      Outstanding(r);
    } else {
      hide Step;
    }
  }

  lemma PoppingStart<T>(s: State<T>)
    requires Inv(s) && s.consumer.CIdle?
    ensures Popping(s, Step(s, CallPop), 0)
  {
    StepKeepsInv(s, CallPop);
    hide Inv, Window, Next, Pow2;
  }

  lemma {:induction false} PoppingRun<T>(s: State<T>, run: seq<Action<T>>)
    requires Inv(s) && s.consumer.CIdle? && NoPop(run)
    ensures Popping(s, Exec(s, [CallPop] + run), ConsumerTurns(run))
    decreases |run|
  {
    hide Popping, Step, Exec, Inv;
    Outstanding(s);
    var call := [CallPop];
    if run == [] {
      ExecNothing(s);
      ExecSnoc(s, [], CallPop);
      assert [] + call == call && call + run == call;
      PoppingStart(s);
    } else {
      var k := |run| - 1;
      PoppingRun(s, run[..k]);
      ExecSnoc(s, call + run[..k], run[k]);
      assert call + run[..k] + [run[k]] == call + run;
      PoppingStep(s, Exec(s, call + run[..k]), ConsumerTurns(run[..k]), run[k]);
    }
  }

  /** The history only grows. */
  lemma {:induction false} ExecGrows<T>(s: State<T>, run: seq<Action<T>>)
    requires Inv(s)
    ensures s.pushed <= Exec(s, run).pushed && s.popped <= Exec(s, run).popped
    decreases |run|
  {
    hide Step, Exec, Inv;
    if run == [] {
      ExecNothing(s);
    } else {
      var k := |run| - 1;
      ExecGrows(s, run[..k]);
      ExecSnoc(s, run[..k], run[k]);
      assert run[..k] + [run[k]] == run;
      StepEffects(Exec(s, run[..k]), run[k]);
    }
  }

  /** One `tryPop`, over every interleaving that lets it finish.  With a value outstanding when it starts
      and no shutdown it takes the oldest, whatever the producer does; with an empty queue to which nothing
      is pushed meanwhile it comes back with nothing; so it does after a shutdown. */
  lemma PopOutcome<T>(s: State<T>, run: seq<Action<T>>)
    requires Inv(s) && s.consumer.CIdle? && NoPop(run) && ConsumerTurns(run) >= 6
    ensures var r := Exec(s, [CallPop] + run);
            && r.consumer.CIdle?
            && (if r.popCount == s.popCount then r.popped == s.popped
                else r.popCount == s.popCount + 1 && |s.popped| < |r.pushed| &&
                     r.popped == s.popped + [r.pushed[|s.popped|]])
            && (s.shutdown ==> r.popped == s.popped)
            && (!r.shutdown && Queue(s) != [] ==> r.popped == s.popped + [Queue(s)[0]])
            && (Queue(s) == [] && r.pushed == s.pushed ==> r.popped == s.popped)
  {
    hide Inv, Window, Next, Queue, Exec, Pow2;
    InvFacts(s);
    Outstanding(s);
    PoppingRun(s, run);
    ExecGrows(s, [CallPop] + run);
    var r := Exec(s, [CallPop] + run);
    Outstanding(r);
    assert r.popped <= r.pushed;
    assert Queue(s) != [] ==> s.pushed[|s.popped|] == Queue(s)[0];
  }
}
