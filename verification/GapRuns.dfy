/** The gap queue over whole runs of its operations. */
module GapRuns {
  import opened Bytes
  import opened Gaps

  /** The queue is a set of numbers: none twice, none marked resolved, never full. */
  predicate Good(es: seq<Entry>) {
    && (forall i, j :: 0 <= i < j < |es| ==> es[i].seqNum != es[j].seqNum)
    && (forall i :: 0 <= i < |es| ==> !es[i].resolved)
    && |es| < GAP_QUEUE_SIZE
  }

  lemma AddKeepsGood(es: seq<Entry>, n: int, now: int)
    requires Good(es)
    ensures Good(Add(es, n, now))
    ensures forall m :: Has(Add(es, n, now), m) <==> Has(es, m) || (m == n && |es| < GAP_QUEUE_SIZE - 1)
  {
    var es' := Add(es, n, now);
    if es' != es {
      assert es'[|es|] == NewEntry(n, now);
      forall i | 0 <= i < |es| ensures es'[i].seqNum != n { assert Matches(es[i], es[i].seqNum); }
      forall m ensures Has(es', m) <==> Has(es, m) || m == n {
        assert Matches(es'[|es|], n);
        if i :| 0 <= i < |es| && Matches(es[i], m) { assert Matches(es'[i], m); }
      }
    }
  }

  /** Exactly one entry leaves, the others stay with all they carry. */
  lemma ResolveKeepsGood(es: seq<Entry>, n: int)
    requires Good(es)
    ensures Good(Resolve(es, n)) && !Has(Resolve(es, n), n)
    ensures |Resolve(es, n)| == |es| - (if Has(es, n) then 1 else 0)
    ensures forall e :: e in Resolve(es, n) <==> e in es && e.seqNum != n
  {
    var i, r := FirstMatch(es, n), Resolve(es, n);
    FirstMatchIs(es, n, i);
    if i < |es| {
      assert |r| == |es| - 1;
      assert forall j :: 0 <= j < |r| ==> r[j] == if j < |es| - i - 1 then es[i + 1 + j] else es[j - (|es| - i - 1)];
      assert forall j :: i < j < |es| ==> es[j] == r[j - i - 1];
      assert forall j :: 0 <= j < i ==> es[j] == r[j + (|es| - i - 1)];
    } else {
      forall e | e in es ensures e.seqNum != n {
        var j :| 0 <= j < |es| && es[j] == e;
        assert !Matches(es[j], n);
      }
    }
  }

  // ---------------------------------------------------------------- resend attempts

  /** The attempts made for a number since its entry was born, and the reading its deadline was last set
      from: the birth, or the second reading of the last attempt. */
  datatype Life = Life(born: int, sends: seq<int>, timer: int)

  /** The i-th attempt came more than the timeout behind the one before. */
  predicate Waited(l: Life, i: nat)
    requires i < |l.sends|
  {
    l.sends[i] > (if i == 0 then l.born else l.sends[i - 1]) + GAP_TIMEOUT_MS
  }

  /** At most five attempts, the first and any two in a row more than the timeout apart. */
  predicate Legal(l: Life) {
    |l.sends| <= MAX_RETRY_COUNT && forall i :: 0 <= i < |l.sends| ==> Waited(l, i)
  }

  function Latest(l: Life): int { if l.sends == [] then l.born else l.sends[|l.sends| - 1] }

  type Log = map<int, Life>

  /** An entry knows how often it was resent, and waits exactly the timeout from the last time. */
  predicate Linked(e: Entry, log: Log) {
    && !e.resolved
    && e.seqNum in log && e.retries == |log[e.seqNum].sends| <= MAX_RETRY_COUNT
    && e.deadline == log[e.seqNum].timer + GAP_TIMEOUT_MS && log[e.seqNum].timer >= Latest(log[e.seqNum])
  }

  predicate Inv(es: seq<Entry>, log: Log) {
    && Good(es)
    && (forall i :: 0 <= i < |es| ==> Linked(es[i], log))
    && (forall n :: n in log ==> Legal(log[n]))
  }

  /** The two readings for one entry are in order. */
  predicate Monotone(clock: nat -> int, n: nat) {
    forall k: nat :: k < n ==> clock(2 * k) <= clock(2 * k + 1)
  }

  function Record(log: Log, e: Entry, t: int, u: int): Log {
    if Attempts(e, t) && e.seqNum in log then
      log[e.seqNum := log[e.seqNum].(sends := log[e.seqNum].sends + [t], timer := u)]
    else log
  }

  function LogProcess(es: seq<Entry>, clock: nat -> int, log: Log): Log {
    if es == [] then log else
    var k := |es| - 1;
    Record(LogProcess(es[..k], clock, log), es[k], clock(2 * k), clock(2 * k + 1))
  }

  lemma VisitKeepsLinked(e: Entry, log: Log, t: int, u: int)
    requires Linked(e, log) && Legal(log[e.seqNum]) && t <= u
    ensures var log' := Record(log, e, t, u);
            && log'.Keys == log.Keys && Legal(log'[e.seqNum])
            && (Visit(e, t, u).Some? ==> Visit(e, t, u).value.seqNum == e.seqNum && Linked(Visit(e, t, u).value, log'))
            && forall m :: m in log && m != e.seqNum ==> log'[m] == log[m]
  {
    var l := log[e.seqNum];
    if Attempts(e, t) {
      SendAgain(l, t, u);
      var l' := l.(sends := l.sends + [t], timer := u);
      assert Record(log, e, t, u) == log[e.seqNum := l'];
      assert Visit(e, t, u) == Some(e.(retries := e.retries + 1, deadline := u + GAP_TIMEOUT_MS));
    } else if t > e.deadline {
      assert Visit(e, t, u) == None;
    } else {
      assert Visit(e, t, u) == Some(e);
    }
  }

  /** One more attempt, more than the timeout behind the last. */
  lemma SendAgain(l: Life, t: int, u: int)
    requires Legal(l) && |l.sends| < MAX_RETRY_COUNT && t > Latest(l) + GAP_TIMEOUT_MS
    ensures var l' := l.(sends := l.sends + [t], timer := u); Legal(l') && Latest(l') == t
  {
    var l' := l.(sends := l.sends + [t], timer := u);
    forall i | 0 <= i < |l'.sends| ensures Waited(l', i) {
      if i < |l.sends| { assert Waited(l, i); }
    }
  }

  /** The history gains exactly the attempts `processGaps` makes: each number as often as it is resent. */
  lemma {:induction false} LogsWhatIsSent(es: seq<Entry>, clock: nat -> int, log: Log, n: int)
    requires n in log && forall i :: 0 <= i < |es| ==> es[i].seqNum in log
    ensures var log' := LogProcess(es, clock, log);
            && log'.Keys == log.Keys && log'[n].born == log[n].born && log[n].sends <= log'[n].sends
            && |log'[n].sends| == |log[n].sends| + multiset(Sent(es, clock))[n]
    decreases |es|
  {
    if es != [] {
      var k := |es| - 1;
      LogsWhatIsSent(es[..k], clock, log, n);
      ProcessSnoc(es, clock, log);
    }
  }

  predicate Mentions(es: seq<Entry>, n: int) { exists i :: 0 <= i < |es| && es[i].seqNum == n }

  /** The invariant of the visiting loop: what has been visited is linked to the log written so far, and
      what has not is still linked to the old one. */
  lemma {:induction false} ProcessKeepsInv(es: seq<Entry>, clock: nat -> int, log: Log)
    requires Inv(es, log) && Monotone(clock, |es|)
    ensures Inv(Process(es, clock), LogProcess(es, clock, log))
    ensures forall n :: Mentions(Process(es, clock), n) ==> Mentions(es, n)
    ensures LogProcess(es, clock, log).Keys == log.Keys
    ensures forall n :: n in log && !Mentions(es, n) ==> LogProcess(es, clock, log)[n] == log[n]
    decreases |es|
  {
    if es != [] {
      var k := |es| - 1;
      var init, e, t, u := es[..k], es[k], clock(2 * k), clock(2 * k + 1);
      assert Monotone(clock, k);
      ProcessKeepsInv(init, clock, log);
      var done, mid := Process(init, clock), LogProcess(init, clock, log);
      assert !Mentions(init, e.seqNum);
      assert mid[e.seqNum] == log[e.seqNum];
      hide Process, LogProcess, Legal;
      assert t <= u;
      VisitKeepsLinked(e, mid, t, u);
      ProcessSnoc(es, clock, log);
      ProcessShrinks(es, clock);
      AppendVisited(done, mid, e, t, u, Process(es, clock), LogProcess(es, clock, log));
      forall n | n in log && !Mentions(es, n) ensures LogProcess(es, clock, log)[n] == log[n] {
        assert es[k].seqNum != n;
        MentionsPrefix(es, k, n);
      }
      forall n | Mentions(Process(es, clock), n) ensures Mentions(es, n) {
        MentionsPrefix(es, k, n);
        assert es[k].seqNum == e.seqNum;
      }
    }
  }

  lemma MentionsPrefix(es: seq<Entry>, k: nat, n: int)
    requires k <= |es|
    ensures Mentions(es[..k], n) ==> Mentions(es, n)
  {
    if i :| 0 <= i < k && es[..k][i].seqNum == n { assert es[i].seqNum == n; }
  }

  lemma ProcessSnoc(es: seq<Entry>, clock: nat -> int, log: Log)
    requires es != []
    ensures var k := |es| - 1;
            && Process(es, clock) == Process(es[..k], clock) + Requeued(Visit(es[k], clock(2 * k), clock(2 * k + 1)))
            && LogProcess(es, clock, log) ==
               Record(LogProcess(es[..k], clock, log), es[k], clock(2 * k), clock(2 * k + 1))
  {
  }

  lemma AppendVisited(done: seq<Entry>, mid: Log, e: Entry, t: int, u: int, all: seq<Entry>, log': Log)
    requires Inv(done, mid) && !Mentions(done, e.seqNum) && Linked(e, mid) && t <= u
    requires all == done + Requeued(Visit(e, t, u)) && |all| < GAP_QUEUE_SIZE && log' == Record(mid, e, t, u)
    ensures Inv(all, log')
    ensures forall n :: Mentions(all, n) ==> Mentions(done, n) || n == e.seqNum
  {
    VisitKeepsLinked(e, mid, t, u);
    hide Visit, Record, Legal;
    forall i | 0 <= i < |done| ensures Linked(done[i], log') {
      assert done[i].seqNum != e.seqNum;
    }
    assert forall i :: 0 <= i < |all| ==> if i < |done| then all[i] == done[i] else all[i].seqNum == e.seqNum;
  }

  // ---------------------------------------------------------------- runs

  datatype Op = AddOp(n: int, now: int) | ResolveOp(n: int) | HasOp(n: int) | ProcessOp(clock: nat -> int) | ClearOp

  datatype State = State(es: seq<Entry>, log: Log)

  /** What an operation does to the queue, and to the history. */
  function Step(s: State, op: Op): State {
    match op
    case AddOp(n, now) =>
      var es' := Add(s.es, n, now);
      State(es', if |es'| > |s.es| then s.log[n := Life(now, [], now)] else s.log)
    case ResolveOp(n) => s.(es := Resolve(s.es, n))
    case HasOp(n) => s
    case ProcessOp(clock) => State(Process(s.es, clock), LogProcess(s.es, clock, s.log))
    case ClearOp => s.(es := [])
  }

  ghost predicate MonotoneOp(op: Op) { op.ProcessOp? ==> Monotone(op.clock, GAP_QUEUE_SIZE) }

  lemma StepKeepsInv(s: State, op: Op)
    requires Inv(s.es, s.log) && MonotoneOp(op)
    ensures Inv(Step(s, op).es, Step(s, op).log)
  {
    match op
    case AddOp(n, now) =>
      AddKeepsGood(s.es, n, now);
      var s' := Step(s, op);
      if |s'.es| > |s.es| {
        forall i | 0 <= i < |s'.es| ensures Linked(s'.es[i], s'.log) {
          if i < |s.es| { assert s'.es[i] == s.es[i]; assert Matches(s.es[i], s.es[i].seqNum); }
        }
      }
    case ResolveOp(n) =>
      ResolveKeepsGood(s.es, n);
      var r := Resolve(s.es, n);
      hide Resolve;
      forall i | 0 <= i < |r| ensures Linked(r[i], s.log) { assert r[i] in s.es; }
    case HasOp(n) =>
    case ProcessOp(clock) => ProcessKeepsInv(s.es, clock, s.log);
    case ClearOp =>
  }

  function Exec(s: State, ops: seq<Op>): State {
    if ops == [] then s else Step(Exec(s, ops[..|ops| - 1]), ops[|ops| - 1])
  }

  /** At most five attempts, each more than ten seconds behind the one before or the birth. */
  predicate Spaced(born: int, sends: seq<int>) {
    && |sends| <= 5
    && forall i :: 0 <= i < |sends| ==> sends[i] > (if i == 0 then born else sends[i - 1]) + 10000
  }

  /** In every run of add, has, resolve, process and clear from the empty queue: no number appears twice,
      nothing queued is marked resolved, and for every number at most five resends are attempted while
      its entry lives, the first and any two in a row more than ten seconds apart. */
  lemma {:induction false} RunKeepsInv(ops: seq<Op>)
    requires forall i :: 0 <= i < |ops| ==> MonotoneOp(ops[i])
    ensures var s := Exec(State([], map[]), ops);
            && Inv(s.es, s.log) && |s.es| < 1024
            && (forall i, j :: 0 <= i < j < |s.es| ==> s.es[i].seqNum != s.es[j].seqNum)
            && (forall n :: n in s.log ==> Spaced(s.log[n].born, s.log[n].sends))
  {
    if ops != [] {
      var k := |ops| - 1;
      RunKeepsInv(ops[..k]);
      StepKeepsInv(Exec(State([], map[]), ops[..k]), ops[k]);
    }
    InvLimits(Exec(State([], map[]), ops));
    hide Inv, Spaced;
  }

  lemma InvLimits(s: State)
    requires Inv(s.es, s.log)
    ensures |s.es| < 1024 && forall i, j :: 0 <= i < j < |s.es| ==> s.es[i].seqNum != s.es[j].seqNum
    ensures forall n :: n in s.log ==> Spaced(s.log[n].born, s.log[n].sends)
  {
    forall n | n in s.log ensures Spaced(s.log[n].born, s.log[n].sends) { LegalIsSpaced(s.log[n]); }
  }

  lemma LegalIsSpaced(l: Life)
    requires Legal(l)
    ensures Spaced(l.born, l.sends)
  {
    forall i | 0 <= i < |l.sends| ensures l.sends[i] > (if i == 0 then l.born else l.sends[i - 1]) + 10000 {
      assert Waited(l, i);
    }
  }

  // ---------------------------------------------------------------- attempts come in time

  /** With unique numbers, a number is resent exactly when its own entry is due. */
  lemma {:induction false} SentExactly(es: seq<Entry>, clock: nat -> int, k: nat)
    requires k < |es| && forall i, j :: 0 <= i < j < |es| ==> es[i].seqNum != es[j].seqNum
    ensures es[k].seqNum in Sent(es, clock) <==> Attempts(es[k], clock(2 * k))
    decreases |es|
  {
    var last := |es| - 1;
    SentMentioned(es[..last], clock);
    if k < last {
      SentExactly(es[..last], clock, k);
    } else {
      assert forall i :: 0 <= i < last ==> es[..last][i].seqNum != es[k].seqNum;
    }
  }

  lemma {:induction false} SentMentioned(es: seq<Entry>, clock: nat -> int)
    ensures forall n :: n in Sent(es, clock) ==> Mentions(es, n)
    decreases |es|
  {
    if es != [] {
      var last := |es| - 1;
      SentMentioned(es[..last], clock);
      forall n | n in Sent(es, clock) ensures Mentions(es, n) {
        MentionsPrefix(es, last, n);
        assert es[last].seqNum == n ==> Mentions(es, n);
      }
    }
  }

  /** Resends are prompt, over every run: when the queue is processed next, a number whose entry's deadline
      was last set from the reading `timer` is resent if and only if its visit reads more than ten seconds
      past it and fewer than five attempts were made; with five made it leaves the queue instead, and
      before that nothing happens to it. */
  lemma PromptResend(ops: seq<Op>, clock: nat -> int, k: nat)
    requires forall i :: 0 <= i < |ops| ==> MonotoneOp(ops[i])
    requires k < |Exec(State([], map[]), ops).es| && MonotoneOp(ProcessOp(clock))
    ensures var s := Exec(State([], map[]), ops); var n, t := s.es[k].seqNum, clock(2 * k);
            && n in s.log
            && var l := s.log[n];
            && (n in Sent(s.es, clock) <==> t > l.timer + 10000 && |l.sends| < 5)
            && (t > l.timer + 10000 && |l.sends| == 5 ==> !Mentions(Process(s.es, clock), n))
            && l.timer >= Latest(l)
  {
    hide Exec, Process, Sent, Legal, Good;
    RunKeepsInv(ops);
    var s := Exec(State([], map[]), ops);
    assert Linked(s.es[k], s.log);
    SentExactly(s.es, clock, k);
    var n := s.es[k].seqNum;
    if s.es[k].retries == MAX_RETRY_COUNT && clock(2 * k) > s.es[k].deadline {
      GoodIsSmall(s.es);
      SixthTimeoutRemoves(s.es, clock, s.log, k);
    }
  }

  lemma GoodIsSmall(es: seq<Entry>)
    requires Good(es)
    ensures |es| <= GAP_QUEUE_SIZE
  {
  }

  /** An entry marked resolved is dropped without an attempt, whatever the time. */
  lemma ResolvedLeaves(e: Entry, t: int, u: int)
    requires e.resolved
    ensures Visit(e, t, u) == None && !Attempts(e, t)
  {
  }

  /** The first attempt for a number added at `now` is made at the first visit more than ten seconds later,
      and not before. */
  lemma FirstResend(es: seq<Entry>, n: int, now: int, clock: nat -> int)
    requires Good(es) && !Has(es, n) && |es| < 1023
    ensures n in Sent(Add(es, n, now), clock) <==> clock(2 * |es|) > now + 10000
  {
    AddKeepsGood(es, n, now);
    var all := Add(es, n, now);
    assert all[|es|] == NewEntry(n, now);
    hide Add, Has;
    SentExactly(all, clock, |es|);
  }

  /** The attempt after one made at readings `t` and `u` is due more than ten seconds past `u`. */
  lemma NextResend(e: Entry, t: int, u: int, t': int)
    requires Attempts(e, t)
    ensures var o := Visit(e, t, u);
            && o.Some? && o.value.seqNum == e.seqNum && o.value.retries == e.retries + 1 <= 5 && !o.value.resolved
            && (Attempts(o.value, t') <==> t' > u + 10000 && e.retries + 1 < 5)
  {
  }

  // ---------------------------------------------------------------- live entries run out

  /** Timeouts an entry can still survive, and the one that removes it. */
  function Fuel(es: seq<Entry>): int {
    if es == [] then 0 else Fuel(es[..|es| - 1]) + (MAX_RETRY_COUNT + 1 - es[|es| - 1].retries)
  }

  function Timeouts(es: seq<Entry>, clock: nat -> int): nat {
    if es == [] then 0 else
    var k := |es| - 1;
    Timeouts(es[..k], clock) + if clock(2 * k) > es[k].deadline then 1 else 0
  }

  /** `processGaps` uses up exactly one unit per timeout, and changes nothing when there is none: a queue
      that keeps timing out and is not added to is empty after at most six timeouts an entry. */
  lemma {:induction false} ProcessBurnsFuel(es: seq<Entry>, clock: nat -> int, log: Log)
    requires forall i :: 0 <= i < |es| ==> Linked(es[i], log)
    ensures Fuel(Process(es, clock)) == Fuel(es) - Timeouts(es, clock)
    ensures Fuel(es) >= |es|
    ensures Timeouts(es, clock) == 0 ==> Process(es, clock) == es
    decreases |es|
  {
    FuelUnfolds(es, clock);
    hide Process, Visit, Linked, Fuel, Timeouts, Requeued;
    if es != [] {
      var k := |es| - 1;
      var e, t, u := es[k], clock(2 * k), clock(2 * k + 1);
      ProcessBurnsFuel(es[..k], clock, log);
      ProcessSnoc(es, clock, log);
      VisitFuel(e, log, t, u);
      FuelSnoc(Process(es[..k], clock), Visit(e, t, u));
      if Timeouts(es, clock) == 0 {
        assert Requeued(Visit(e, t, u)) == [e] by { RequeuedSome(e); }
        assert es == es[..k] + [e];
      }
    }
  }

  lemma RequeuedSome(e: Entry)
    ensures Requeued(Some(e)) == [e]
  {
  }

  lemma FuelUnfolds(es: seq<Entry>, clock: nat -> int)
    ensures es == [] ==> Fuel(es) == Timeouts(es, clock) == 0 && Process(es, clock) == []
    ensures es != [] ==>
              var k := |es| - 1;
              && Fuel(es) == Fuel(es[..k]) + (MAX_RETRY_COUNT + 1 - es[k].retries)
              && Timeouts(es, clock) == Timeouts(es[..k], clock) + if clock(2 * k) > es[k].deadline then 1 else 0
  {
  }

  lemma VisitFuel(e: Entry, log: Log, t: int, u: int)
    requires Linked(e, log)
    ensures var o := Visit(e, t, u); var timeout := t > e.deadline;
            && (if o.Some? then MAX_RETRY_COUNT + 1 - o.value.retries else 0) ==
                MAX_RETRY_COUNT + 1 - e.retries - (if timeout then 1 else 0)
            && (!timeout ==> o == Some(e)) && e.retries <= MAX_RETRY_COUNT
            && (timeout && e.retries == MAX_RETRY_COUNT ==> o == None)
            && (o.Some? ==> o.value.seqNum == e.seqNum)
  {
  }

  lemma FuelSnoc(es: seq<Entry>, o: Option<Entry>)
    ensures Fuel(es + Requeued(o)) == Fuel(es) + if o.Some? then MAX_RETRY_COUNT + 1 - o.value.retries else 0
  {
    if o.Some? { assert (es + [o.value])[..|es|] == es; } else { assert es + [] == es; }
  }

  /** The timeout after the fifth attempt removes the entry. */
  lemma {:induction false} SixthTimeoutRemoves(es: seq<Entry>, clock: nat -> int, log: Log, k: nat)
    requires Inv(es, log) && Monotone(clock, |es|) && k < |es|
    requires es[k].retries == MAX_RETRY_COUNT && clock(2 * k) > es[k].deadline
    ensures !Mentions(Process(es, clock), es[k].seqNum)
    decreases |es|
  {
    hide Process, Visit, Legal, Requeued, LogProcess;
    var last := |es| - 1;
    var init, e := es[..last], es[|es| - 1];
    InvPrefix(es, log, last);
    hide Inv, Linked;
    assert Monotone(clock, last);
    ProcessKeepsInv(init, clock, log);
    ProcessSnoc(es, clock, log);
    var o := Visit(e, clock(2 * last), clock(2 * last + 1));
    VisitFuel(e, log, clock(2 * last), clock(2 * last + 1));
    var n, done := es[k].seqNum, Process(init, clock);
    if k < last {
      assert init[k] == es[k];
      SixthTimeoutRemoves(init, clock, log, k);
    }
    NotAppended(done, o, n);
  }

  lemma InvPrefix(es: seq<Entry>, log: Log, k: nat)
    requires Inv(es, log) && k < |es|
    ensures Inv(es[..k], log) && Linked(es[k], log) && !Mentions(es[..k], es[k].seqNum)
    ensures forall i :: 0 <= i < k ==> es[i].seqNum != es[k].seqNum
  {
    hide Linked, Legal;
  }

  lemma NotAppended(done: seq<Entry>, o: Option<Entry>, n: int)
    requires !Mentions(done, n) && (o.Some? ==> o.value.seqNum != n)
    ensures !Mentions(done + Requeued(o), n)
  {
  }
}
