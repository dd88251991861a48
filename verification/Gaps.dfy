/** `SequenceNumGapManager`: gap entries kept in a ring that can only be searched by draining it. */
module Gaps {
  import opened Bytes
  import opened Bits
  import opened Ring

  const GAP_QUEUE_SIZE := 1024
  const GAP_TIMEOUT_MS := 10000
  const MAX_RETRY_COUNT := 5

  /** Times are readings of the steady clock in milliseconds. */
  datatype Entry = Entry(seqNum: int, timestamp: int, deadline: int, retries: nat, resolved: bool)

  function NewEntry(n: int, now: int): Entry { Entry(n, now, now + GAP_TIMEOUT_MS, 0, false) }

  predicate Matches(e: Entry, n: int) { e.seqNum == n && !e.resolved }

  // ---------------------------------------------------------------- what the operations mean

  predicate Has(es: seq<Entry>, n: int) { exists i :: 0 <= i < |es| && Matches(es[i], n) }

  /** The ring holds one entry less than its capacity; a push beyond that is lost. */
  function Add(es: seq<Entry>, n: int, now: int): seq<Entry> {
    if Has(es, n) || |es| >= GAP_QUEUE_SIZE - 1 then es else es + [NewEntry(n, now)]
  }

  /** Position of the first match, or the length. */
  function FirstMatch(es: seq<Entry>, n: int): (i: nat)
    ensures i <= |es| && (i < |es| ==> Matches(es[i], n)) && forall j :: 0 <= j < i ==> !Matches(es[j], n)
  {
    if es == [] || Matches(es[0], n) then 0 else
    var i := 1 + FirstMatch(es[1..], n);
    assert forall j :: 1 <= j < |es| ==> es[j] == es[1..][j - 1];
    i
  }

  /** What is left is rotated: the entries behind the match, then those before it. */
  function Resolve(es: seq<Entry>, n: int): seq<Entry> {
    var i := FirstMatch(es, n);
    if i < |es| then es[i + 1..] + es[..i] else es
  }

  /** One entry under `processGaps`: `t` is the reading that decides the timeout, `u` the one the new
      deadline is set from. */
  function Visit(e: Entry, t: int, u: int): Option<Entry> {
    if e.resolved then None
    else if t > e.deadline then
      if e.retries < MAX_RETRY_COUNT then Some(e.(retries := e.retries + 1, deadline := u + GAP_TIMEOUT_MS)) else None
    else Some(e)
  }

  /** A resend is attempted. */
  predicate Attempts(e: Entry, t: int) { !e.resolved && t > e.deadline && e.retries < MAX_RETRY_COUNT }

  function Requeued(o: Option<Entry>): seq<Entry> { if o.Some? then [o.value] else [] }

  /** `processGaps`: the k-th entry visited takes readings `clock(2k)` and `clock(2k + 1)`. */
  function Process(es: seq<Entry>, clock: nat -> int): seq<Entry> {
    if es == [] then [] else
    var k := |es| - 1;
    Process(es[..k], clock) + Requeued(Visit(es[k], clock(2 * k), clock(2 * k + 1)))
  }

  lemma {:induction false} ProcessShrinks(es: seq<Entry>, clock: nat -> int)
    ensures |Process(es, clock)| <= |es|
  {
    if es != [] { ProcessShrinks(es[..|es| - 1], clock); }
  }

  // ---------------------------------------------------------------- the manager

  class SequenceNumGapManager {
    const queue: LockFreeQueue<Entry>

    ghost predicate Valid()
      reads this, queue, queue.messages
    {
      queue.Valid() && queue.capacity == GAP_QUEUE_SIZE && !queue.isShutdown
    }

    ghost function Entries(): seq<Entry>
      requires Valid()
      reads this, queue, queue.messages
    {
      queue.Contents()
    }

    constructor ()
      ensures Valid() && Entries() == [] && fresh(queue) && fresh(queue.messages)
    {
      hide Pow2, Window;
      Capacity1024();
      queue := new LockFreeQueue<Entry>(GAP_QUEUE_SIZE);
    }

    /** Drains the ring into a list. */
    method Drain() returns (taken: seq<Entry>)
      requires Valid()
      modifies queue
      ensures Valid() && taken == old(Entries()) && Entries() == []
    {
      hide Window, Pow2;
      taken := [];
      ghost var all := Entries();
      assert [] + all == all;
      var more := true;
      while more
        invariant Valid() && all == taken + Entries() && (!more ==> Entries() == [])
        decreases |all| - |taken|, more
      {
        ghost var before := Entries();
        var e := queue.TryPop();
        if e.Some? {
          Assoc(taken, [e.value], Entries());
          taken := taken + [e.value];
        } else {
          more := false;
        }
      }
    }

    /** Pushes a list back; there is always room for what was there before. */
    method Refill(es: seq<Entry>)
      requires Valid() && |Entries()| + |es| < GAP_QUEUE_SIZE
      modifies queue, queue.messages
      ensures Valid() && Entries() == old(Entries()) + es
    {
      ghost var was := Entries();
      assert was + [] == was;
      for i := 0 to |es|
        invariant Valid() && Entries() == was + es[..i]
      {
        var ok := queue.Push(es[i]);
        assert ok && es[..i + 1] == es[..i] + [es[i]];
        Assoc(was, es[..i], [es[i]]);
      }
      assert es[..|es|] == es;
    }

    /** A search that leaves the ring exactly as it was. */
    method HasGap(n: int) returns (found: bool)
      requires Valid()
      modifies queue, queue.messages
      ensures Valid() && Entries() == old(Entries())
      ensures found <==> Has(Entries(), n)
    {
      QueueBound();
      var taken := Drain();
      found := false;
      for i := 0 to |taken|
        invariant found <==> exists j :: 0 <= j < i && Matches(taken[j], n)
      {
        if Matches(taken[i], n) { found := true; }
      }
      assert [] + taken == taken;
      Refill(taken);
    }

    lemma QueueBound()
      requires Valid()
      ensures |Entries()| < GAP_QUEUE_SIZE
    {
      WindowSize(queue.messages[..], queue.head, queue.tail, queue.k);
    }

    method AddGapEntry(n: int, now: int)
      requires Valid()
      modifies queue, queue.messages
      ensures Valid() && Entries() == Add(old(Entries()), n, now)
      ensures !Has(old(Entries()), n) && |old(Entries())| < 1023 ==>
                Entries() == old(Entries()) + [Entry(n, now, now + 10000, 0, false)]
    {
      var found := HasGap(n);
      if found { return; }
      var ok := queue.Push(NewEntry(n, now));
      assert Entries() + [] == Entries();
    }

    /** Drains up to and including the first match. */
    method DrainUntil(n: int) returns (kept: seq<Entry>, found: bool)
      requires Valid()
      modifies queue
      ensures Valid()
      ensures var es := old(Entries()); var i := FirstMatch(es, n);
              && kept == es[..i] && (found <==> i < |es|)
              && Entries() == if found then es[i + 1..] else []
    {
      hide Window, Pow2, FirstMatch, Matches;
      ghost var all := Entries();
      assert [] + all == all;
      kept, found := [], false;
      var more := true;
      while more
        invariant Valid() && !found && all == kept + Entries() && (!more ==> Entries() == [])
        invariant forall j :: 0 <= j < |kept| ==> !Matches(kept[j], n)
        decreases |all| - |kept|, more
      {
        var e := queue.TryPop();
        if e.None? {
          more := false;
        } else {
          SplitAt(all, kept, e.value, Entries());
          if Matches(e.value, n) {
            FirstMatchIs(all, n, |kept|);
            return kept, true;
          }
          kept := kept + [e.value];
        }
      }
      assert kept + [] == kept && all[..|all|] == all;
      FirstMatchIs(all, n, |all|);
    }

    /** Removes the first match; what was in front of it goes to the back. */
    method ResolveGapEntry(n: int) returns (resolved: bool)
      requires Valid()
      modifies queue, queue.messages
      ensures Valid() && Entries() == Resolve(old(Entries()), n)
      ensures resolved <==> Has(old(Entries()), n)
    {
      QueueBound();
      ghost var all := Entries();
      FirstMatchIs(all, n, FirstMatch(all, n));
      hide Window, Pow2, FirstMatch, Matches, Has;
      var kept: seq<Entry>;
      kept, resolved := DrainUntil(n);
      assert !resolved ==> kept == all && [] + kept == all;
      Refill(kept);
    }

    method ClearAllGaps()
      requires Valid()
      modifies queue
      ensures Valid() && Entries() == []
    {
      var gone := Drain();
    }

    /** Visits every entry once; `sent` are the numbers for which a resend is attempted, in order. */
    method ProcessGaps(clock: nat -> int) returns (sent: seq<int>)
      requires Valid()
      modifies queue, queue.messages
      ensures Valid() && Entries() == Process(old(Entries()), clock)
      ensures sent == Sent(old(Entries()), clock)
    {
      QueueBound();
      hide Window, Pow2, Visit, Attempts, Process, Sent;
      var taken := Drain();
      var requeue: seq<Entry>;
      requeue, sent := VisitAll(taken, clock);
      ProcessShrinks(taken, clock);
      assert [] + requeue == requeue;
      Refill(requeue);
    }
  }

  method VisitAll(taken: seq<Entry>, clock: nat -> int) returns (requeue: seq<Entry>, sent: seq<int>)
    ensures requeue == Process(taken, clock) && sent == Sent(taken, clock)
  {
    hide Visit, Attempts, Process, Sent;
    requeue, sent := [], [];
    VisitNone(taken, clock);
    for i := 0 to |taken|
      invariant requeue == Process(taken[..i], clock) && sent == Sent(taken[..i], clock)
    {
      VisitNext(taken, i, clock);
      var e, t, u := taken[i], clock(2 * i), clock(2 * i + 1);
      if Attempts(e, t) { sent := sent + [e.seqNum]; }
      requeue := requeue + Requeued(Visit(e, t, u));
    }
    assert taken[..|taken|] == taken;
  }

  lemma VisitNone(es: seq<Entry>, clock: nat -> int)
    ensures Process(es[..0], clock) == [] && Sent(es[..0], clock) == []
  {
  }

  lemma VisitNext(es: seq<Entry>, i: nat, clock: nat -> int)
    requires i < |es|
    ensures Process(es[..i + 1], clock) ==
            Process(es[..i], clock) + Requeued(Visit(es[i], clock(2 * i), clock(2 * i + 1)))
    ensures Sent(es[..i + 1], clock) ==
            Sent(es[..i], clock) + if Attempts(es[i], clock(2 * i)) then [es[i].seqNum] else []
  {
    assert es[..i + 1][..i] == es[..i];
    hide Visit, Attempts;
  }

  lemma SplitAt(all: seq<Entry>, kept: seq<Entry>, e: Entry, rest: seq<Entry>)
    requires all == kept + ([e] + rest)
    ensures |kept| < |all| && all[..|kept|] == kept && all[|kept|] == e && all[|kept| + 1..] == rest
    ensures all == (kept + [e]) + rest
  {
  }

  function Sent(es: seq<Entry>, clock: nat -> int): seq<int> {
    if es == [] then [] else
    var k := |es| - 1;
    if Attempts(es[k], clock(2 * k)) then Sent(es[..k], clock) + [es[k].seqNum] else Sent(es[..k], clock)
  }

  lemma FirstMatchIs(es: seq<Entry>, n: int, i: nat)
    requires i <= |es| && (i < |es| ==> Matches(es[i], n)) && forall j :: 0 <= j < i ==> !Matches(es[j], n)
    ensures FirstMatch(es, n) == i
    ensures Has(es, n) <==> i < |es|
  {
    var k := FirstMatch(es, n);
    assert k >= i;
  }

  lemma Capacity1024()
    ensures GAP_QUEUE_SIZE == Pow2(10) && GAP_QUEUE_SIZE <= Pow2(63)
  {
    assert Pow2(5) == 32 && Pow2(6) == 64;
    Pow2Grows(5, 10);
    Pow2Grows(10, 63);
  }
}
