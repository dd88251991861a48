/** `FixSessionManager`: incoming sequence numbers, gap detection and session state. */
module SessionManager {
  import opened Bytes
  import opened ParserTypes
  import opened Gaps
  import opened GapRuns

  const TAG_MSG_SEQ_NUM := 34
  const TAG_NEW_SEQ_NO := 36
  const TAG_POSS_DUP := 43
  const TAG_SENDER := 49
  const TAG_TARGET := 56
  const TAG_BEGIN_SEQ_NO := 7
  const TAG_END_SEQ_NO := 16
  const TAG_TEST_REQ_ID := 112

  datatype SessionState = DISCONNECTED | CONNECTING | LOGON_SENT | LOGGED_ON | LOGOUT_SENT | DISCONNECTING

  datatype SessionConfig = SessionConfig(sender: string, target: string, validateSequenceNumbers: bool)

  // ---------------------------------------------------------------- judging one number

  /** `getField` and `std::stoi`: `None` is a missing field or a caught exception. */
  function NumberIn(m: FieldMap, tag: int): Option<int> { if tag in m then Stoi(m[tag]) else None }

  predicate IsResend(m: FieldMap) { TAG_POSS_DUP in m && m[TAG_POSS_DUP] == "Y" }

  /** The outcome of `validateSequenceNumber`.  `Overflowed` is the increment of the largest `int`. */
  datatype Verdict = Accepted(expected: int) | Rejected | Gap(received: int) | Overflowed

  function Judge(expected: int, m: FieldMap): Verdict {
    var n := NumberIn(m, TAG_MSG_SEQ_NUM);
    if n.None? then Rejected
    else if n.value == expected || (n.value > expected && IsResend(m)) then
      if n.value == INT_MAX then Overflowed else Accepted(n.value + 1)
    else if n.value > expected then Gap(n.value)
    else if IsResend(m) then Accepted(expected)
    else Rejected
  }

  /** The verdict, number by number: e was expected, MsgSeqNum (34) reads r, PossDupFlag (43) is Y or not.
      Only the largest `int` has no successor. */
  lemma VerdictMeaning(e: int, m: FieldMap)
    ensures var v := Judge(e, m); var resent := 43 in m && m[43] == "Y";
            if 34 !in m || Stoi(m[34]).None? then v == Rejected else
            var r := Stoi(m[34]).value;
            && (r == e && r < 0x7fff_ffff ==> v == Accepted(e + 1))
            && (r > e && resent && r < 0x7fff_ffff ==> v == Accepted(r + 1))
            && (r == 0x7fff_ffff && (r == e || (r > e && resent)) ==> v == Overflowed)
            && (r < e ==> v == if resent then Accepted(e) else Rejected)
            && (r > e && !resent ==> v == Gap(r))
  {
    NumberFits(m, TAG_MSG_SEQ_NUM);
    hide Stoi;
  }

  // ---------------------------------------------------------------- gaps

  /** One `addGapEntry` per missing number, lowest first; `clock(n)` is the reading when n is added. */
  function AddRange(es: seq<Entry>, lo: int, hi: int, clock: int -> int): seq<Entry>
    decreases hi - lo
  {
    if hi <= lo then es else Add(AddRange(es, lo, hi - 1, clock), hi - 1, clock(hi - 1))
  }

  /** Numbers in `[lo, hi)` without an entry. */
  function Missing(es: seq<Entry>, lo: int, hi: int): nat
    decreases hi - lo
  {
    if hi <= lo then 0 else Missing(es, lo, hi - 1) + if Has(es, hi - 1) then 0 else 1
  }

  /** Gap detection: earlier entries stay in front untouched, nothing outside the range is added, no
      number is queued twice, and every missing number gets an entry if and only if the ring has room
      for all of them. */
  lemma {:induction false} GapDetection(es: seq<Entry>, lo: int, hi: int, clock: int -> int)
    requires Good(es)
    ensures var r := AddRange(es, lo, hi, clock); var need := |es| + Missing(es, lo, hi);
            && Good(r) && es <= r
            && |r| == (if need < GAP_QUEUE_SIZE then need else GAP_QUEUE_SIZE - 1)
            && (forall n :: Has(r, n) && !Has(es, n) ==> lo <= n < hi)
            && (forall n :: Has(es, n) ==> Has(r, n))
            && ((forall n :: lo <= n < hi ==> Has(r, n)) <==> need < GAP_QUEUE_SIZE)
    decreases hi - lo
  {
    if lo < hi {
      var p, n, now := AddRange(es, lo, hi - 1, clock), hi - 1, clock(hi - 1);
      GapDetection(es, lo, hi - 1, clock);
      AddKeepsGood(p, n, now);
      var r := Add(p, n, now);
      assert AddRange(es, lo, hi, clock) == r;
      assert Has(p, n) <==> Has(es, n);
      AddLength(p, n, now);
      hide Has, Good, AddRange, Add;
      assert forall k :: Has(r, k) <==> Has(p, k) || (k == n && |p| < GAP_QUEUE_SIZE - 1);
      assert (forall k :: lo <= k < hi ==> Has(r, k)) ==> Has(r, n);
      if |es| + Missing(es, lo, hi - 1) >= GAP_QUEUE_SIZE {
        assert |p| == GAP_QUEUE_SIZE - 1;
        assert !(forall k :: lo <= k < hi - 1 ==> Has(p, k));
      }
    }
  }

  /** Every number from `lo` up to but not including `hi` has an entry exactly when the ring of 1024 has room
      for those without one; no other number gains an entry, in particular not `hi`, and none loses one. */
  ghost predicate Requested(was: seq<Entry>, es: seq<Entry>, lo: int, hi: int) {
    && Good(es)
    && ((forall n :: lo <= n < hi ==> Has(es, n)) <==> |was| + Missing(was, lo, hi) < 1024)
    && (forall n :: n < lo || hi <= n ==> (Has(es, n) <==> Has(was, n)))
    && (forall n :: Has(was, n) ==> Has(es, n))
  }

  lemma RangeIsRequested(es: seq<Entry>, lo: int, hi: int, clock: int -> int)
    requires Good(es)
    ensures Requested(es, AddRange(es, lo, hi, clock), lo, hi)
  {
    GapDetection(es, lo, hi, clock);
    hide Good, Has, AddRange, Missing;
  }

  lemma AddRangeUnfolds(es: seq<Entry>, lo: int, hi: int, clock: int -> int)
    ensures hi <= lo ==> AddRange(es, lo, hi, clock) == es
    ensures lo < hi ==> AddRange(es, lo, hi, clock) == Add(AddRange(es, lo, hi - 1, clock), hi - 1, clock(hi - 1))
  {
  }

  lemma AddLength(es: seq<Entry>, n: int, now: int)
    ensures es <= Add(es, n, now)
    ensures |Add(es, n, now)| == |es| + if Has(es, n) || |es| >= GAP_QUEUE_SIZE - 1 then 0 else 1
  {
  }

  // ---------------------------------------------------------------- the manager

  /** `validateSessionMessage`: the counterparty's ids, mirrored. */
  predicate AddressedToUs(cfg: SessionConfig, m: FieldMap) {
    TAG_SENDER in m && TAG_TARGET in m && m[TAG_SENDER] == cfg.target && m[TAG_TARGET] == cfg.sender
  }

  /** The checks in front of the sequence number. */
  predicate Reaches(cfg: SessionConfig, m: FieldMap) { TAG_MSG_TYPE in m && AddressedToUs(cfg, m) }

  /** The type handlers: the value returned, and the expected number and the session state they leave.
      `sent` says whether an answer could be created and routed. */
  function Dispatch(m: FieldMap, expected: int, state: SessionState, sent: bool): (bool, int, SessionState)
    requires TAG_MSG_TYPE in m
  {
    var t := m[TAG_MSG_TYPE];
    if t == "A" then (true, expected, LOGGED_ON)
    else if t == "5" then (true, expected, DISCONNECTED)
    else if t == "0" || t == "3" then (true, expected, state)
    else if t == "1" then (TAG_TEST_REQ_ID in m && sent, expected, state)
    else if t == "2" then
      (NumberIn(m, TAG_BEGIN_SEQ_NO).Some? && NumberIn(m, TAG_END_SEQ_NO).Some? && sent, expected, state)
    else if t == "4" then
      var n := NumberIn(m, TAG_NEW_SEQ_NO);
      (n.Some?, if n.Some? then n.value else expected, state)
    else (false, expected, state)
  }

  /** A message that passed validation. */
  datatype Passed = Passed(number: int, resend: bool)

  datatype Progress = Progress(expected: int, passed: seq<Passed>)

  /** What one incoming message does to the expected number. */
  function Receive(cfg: SessionConfig, p: Progress, m: FieldMap): Progress {
    if !Reaches(cfg, m) then p else
    var v := Judge(p.expected, m);
    if !v.Accepted? then p else
    Progress(Dispatch(m, v.expected, LOGGED_ON, true).1,
             p.passed + [Passed(NumberIn(m, TAG_MSG_SEQ_NUM).value, IsResend(m))])
  }

  /** A message is for this session exactly when it names a type (35), comes from the counterparty (49) and
      is addressed to us (56). */
  lemma ReachesMeaning(cfg: SessionConfig, m: FieldMap)
    ensures Reaches(cfg, m) <==> 35 in m && 49 in m && 56 in m && m[49] == cfg.target && m[56] == cfg.sender
  {
  }

  /** What the handlers do, type by type: only a Logon and a Logout change the session state, only a
      SequenceReset with a readable NewSeqNo (36) changes the expected number, a TestRequest needs its
      TestReqID (112), a ResendRequest both its bounds (7 and 16), and no other type is handled. */
  lemma DispatchMeaning(m: FieldMap, e: int, state: SessionState, sent: bool)
    requires 35 in m
    ensures var t, d := m[35], Dispatch(m, e, state, sent);
            && d.2 == (if t == "A" then LOGGED_ON else if t == "5" then DISCONNECTED else state)
            && d.1 == (if t == "4" && 36 in m && Stoi(m[36]).Some? then Stoi(m[36]).value else e)
            && (d.0 <==>
                || t in {"A", "5", "0", "3"}
                || (t == "1" && 112 in m && sent)
                || (t == "2" && 7 in m && 16 in m && Stoi(m[7]).Some? && Stoi(m[16]).Some? && sent)
                || (t == "4" && 36 in m && Stoi(m[36]).Some?))
  {
    hide Stoi;
  }

  /** One step of a run, whatever the session state and whether or not an answer can be sent. */
  lemma ReceiveStep(cfg: SessionConfig, expected: int, state: SessionState, m: FieldMap, sent: bool)
    ensures Reaches(cfg, m) ==> TAG_MSG_TYPE in m
    ensures var p := Progress(expected, []); var v := Judge(expected, m);
            if Reaches(cfg, m) && v.Accepted? then
              && NumberIn(m, TAG_MSG_SEQ_NUM).Some?
              && Receive(cfg, p, m) == Progress(Dispatch(m, v.expected, state, sent).1,
                                                [Passed(NumberIn(m, TAG_MSG_SEQ_NUM).value, IsResend(m))])
            else Receive(cfg, p, m) == p
  {
    hide NumberIn, AddressedToUs, IsResend;
    assert forall q: Passed :: [] + [q] == [q];
  }

  class FixSessionManager {
    const cfg: SessionConfig
    const gaps: SequenceNumGapManager?
    var expected: int
    var state: SessionState

    ghost predicate Valid()
      reads this, gaps, if gaps != null then {gaps.queue, gaps.queue.messages} else {}
    {
      gaps != null ==> gaps.Valid()
    }

    ghost function Entries(): seq<Entry>
      requires Valid()
      reads this, gaps, if gaps != null then {gaps.queue, gaps.queue.messages} else {}
    {
      if gaps != null then gaps.Entries() else []
    }

    constructor (cfg: SessionConfig, gaps: SequenceNumGapManager?)
      requires gaps != null ==> gaps.Valid()
      ensures Valid() && this.cfg == cfg && this.gaps == gaps && expected == 1 && state == DISCONNECTED
    {
      this.cfg, this.gaps, this.expected, this.state := cfg, gaps, 1, DISCONNECTED;
    }

    /** Judges a message, moves the expected number, and turns a gap into entries. */
    method ValidateSequenceNumber(m: FieldMap, clock: int -> int) returns (v: Verdict)
      requires Valid()
      modifies this`expected, if gaps != null then {gaps.queue, gaps.queue.messages} else {}
      ensures Valid() && v == Judge(old(expected), m)
      ensures expected == if v.Accepted? then v.expected else old(expected)
      ensures v.Gap? && gaps != null ==> Entries() == AddRange(old(Entries()), old(expected), v.received, clock)
      ensures !v.Gap? ==> Entries() == old(Entries())
      // the same, number by number
      ensures 34 !in m || Stoi(m[34]).None? ==> v == Rejected && expected == old(expected)
      ensures 34 in m && Stoi(m[34]).Some? ==>
                var e, r, resent := old(expected), Stoi(m[34]).value, 43 in m && m[43] == "Y";
                && (r == e && r < 0x7fff_ffff ==> v.Accepted? && expected == e + 1)
                && (r > e && resent && r < 0x7fff_ffff ==> v.Accepted? && expected == r + 1)
                && (r < e ==> (v.Accepted? <==> resent) && expected == e)
                && (r > e && !resent ==> !v.Accepted? && expected == e)
                && (r > e && !resent && gaps != null && Good(old(Entries())) ==>
                      Requested(old(Entries()), Entries(), e, r))
                && (r <= e || resent ==> Entries() == old(Entries()))
    {
      VerdictMeaning(expected, m);
      if NumberIn(m, TAG_MSG_SEQ_NUM).Some? && gaps != null && Good(Entries()) {
        RangeIsRequested(Entries(), expected, NumberIn(m, TAG_MSG_SEQ_NUM).value, clock);
      }
      hide Stoi, Requested, AddRange, Good;
      var n := NumberIn(m, TAG_MSG_SEQ_NUM);
      if n.None? { return Rejected; }
      var resend := IsResend(m);
      if n.value == expected || (n.value > expected && resend) {
        if n.value == INT_MAX { return Overflowed; }
        expected := n.value + 1;
        return Accepted(expected);
      }
      if n.value > expected {
        if gaps != null { AddAll(expected, n.value, clock); }
        return Gap(n.value);
      }
      if resend { return Accepted(expected); }
      return Rejected;
    }

    method AddAll(lo: int, hi: int, clock: int -> int)
      requires Valid() && gaps != null && lo <= hi
      modifies gaps.queue, gaps.queue.messages
      ensures Valid() && Entries() == AddRange(old(Entries()), lo, hi, clock)
    {
      hide Add, AddRange, Has;
      ghost var was := Entries();
      AddRangeUnfolds(was, lo, lo, clock);
      var s := lo;
      while s < hi
        invariant lo <= s <= hi && Valid() && Entries() == AddRange(was, lo, s, clock)
      {
        AddRangeUnfolds(was, lo, s + 1, clock);
        gaps.AddGapEntry(s, clock(s));
        s := s + 1;
      }
    }

    /** Checks, judges, dispatches; the verdict is `None` when the number was not looked at. */
    method HandleMessage(message: Option<FieldMap>, clock: int -> int, sent: bool)
        returns (handled: bool, v: Option<Verdict>)
      requires Valid()
      modifies this, if gaps != null then {gaps.queue, gaps.queue.messages} else {}
      ensures Valid()
      ensures v.Some? <==> message.Some? && Reaches(cfg, message.value) && cfg.validateSequenceNumbers
      ensures v.Some? ==> v.value == Judge(old(expected), message.value)
      ensures Entries() == if v.Some? && v.value.Gap? && gaps != null
                           then AddRange(old(Entries()), old(expected), v.value.received, clock) else old(Entries())
      ensures message.None? || !Reaches(cfg, message.value) || (v.Some? && !v.value.Accepted?) ==>
                !handled && expected == old(expected) && state == old(state)
      ensures message.Some? && Reaches(cfg, message.value) && (v.None? || v.value.Accepted?) ==>
                (handled, expected, state) ==
                Dispatch(message.value, if v.Some? then v.value.expected else old(expected), old(state), sent)
      // one step of a run
      ensures message.Some? && cfg.validateSequenceNumbers ==>
                Receive(cfg, Progress(old(expected), []), message.value) ==
                Progress(expected, if v.Some? && v.value.Accepted?
                                   then [Passed(NumberIn(message.value, TAG_MSG_SEQ_NUM).value,
                                                IsResend(message.value))]
                                   else [])
      // the state of the session and what the caller is told
      ensures message.Some? && Reaches(cfg, message.value) && (v.Some? ==> v.value.Accepted?) ==>
                var m := message.value; var t := m[35];
                && state == (if t == "A" then LOGGED_ON else if t == "5" then DISCONNECTED else old(state))
                && (t in {"A", "5", "0", "3"} ==> handled)
                && (t !in {"A", "5", "0", "1", "2", "3", "4"} ==> !handled)
    {
      hide Judge, AddRange, Dispatch, NumberIn, Reaches, IsResend, Stoi;
      if message.Some? {
        ReachesMeaning(cfg, message.value);
        ReceiveStep(cfg, expected, state, message.value, sent);
      }
      if message.None? || !Reaches(cfg, message.value) { return false, None; }
      v := None;
      if cfg.validateSequenceNumbers {
        var verdict := ValidateSequenceNumber(message.value, clock);
        v := Some(verdict);
        if !verdict.Accepted? { return false, v; }
      }
      DispatchMeaning(message.value, expected, state, sent);
      var r := Dispatch(message.value, expected, state, sent);
      handled, expected, state := r.0, r.1, r.2;
    }
  }

  // ---------------------------------------------------------------- whole runs

  function ReceiveAll(cfg: SessionConfig, p: Progress, ms: seq<FieldMap>): Progress {
    if ms == [] then p else Receive(cfg, ReceiveAll(cfg, p, ms[..|ms| - 1]), ms[|ms| - 1])
  }

  predicate NoReset(ms: seq<FieldMap>) {
    forall i :: 0 <= i < |ms| ==> TAG_MSG_TYPE !in ms[i] || ms[i][TAG_MSG_TYPE] != "4"
  }

  function Originals(ps: seq<Passed>): seq<int> {
    if ps == [] then [] else
    var k := |ps| - 1;
    if ps[k].resend then Originals(ps[..k]) else Originals(ps[..k]) + [ps[k].number]
  }

  predicate Increasing(xs: seq<int>) { forall i, j :: 0 <= i < j < |xs| ==> xs[i] < xs[j] }

  predicate InOrder(start: int, p: Progress) {
    && start <= p.expected
    && Increasing(Originals(p.passed))
    && (forall i :: 0 <= i < |Originals(p.passed)| ==> start <= Originals(p.passed)[i] < p.expected)
  }

  /** One above the last original, or the start while there is none. */
  function Mark(start: int, p: Progress): int {
    var os := Originals(p.passed);
    if os == [] then start else os[|os| - 1] + 1
  }

  /** The number an accepted SequenceReset sets. */
  function ResetTo(cfg: SessionConfig, p: Progress, m: FieldMap): Option<int> {
    if Reaches(cfg, m) && Judge(p.expected, m).Accepted? && m[TAG_MSG_TYPE] == "4" then NumberIn(m, TAG_NEW_SEQ_NO)
    else None
  }

  /** The guard: an original SequenceReset leads past its own number, a resent one not behind the mark. */
  predicate Forward(cfg: SessionConfig, start: int, p: Progress, m: FieldMap) {
    var n := ResetTo(cfg, p, m);
    n.Some? ==> n.value >= if IsResend(m) then Mark(start, p) else p.expected + 1
  }

  predicate AllForward(cfg: SessionConfig, start: int, ms: seq<FieldMap>) {
    ms == [] || (var k := |ms| - 1;
    AllForward(cfg, start, ms[..k]) && Forward(cfg, start, ReceiveAll(cfg, Progress(start, []), ms[..k]), ms[k]))
  }

  lemma OriginalsSnoc(ps: seq<Passed>, q: Passed)
    ensures Originals(ps + [q]) == if q.resend then Originals(ps) else Originals(ps) + [q.number]
  {
    assert (ps + [q])[..|ps|] == ps;
  }

  /** What one message does, with the number judged and the number it resets to. */
  lemma ReceiveCases(cfg: SessionConfig, p: Progress, m: FieldMap)
    ensures var r := Receive(cfg, p, m); var n := NumberIn(m, TAG_MSG_SEQ_NUM); var t := ResetTo(cfg, p, m);
            if Reaches(cfg, m) && Judge(p.expected, m).Accepted? then
              && n.Some? && r.passed == p.passed + [Passed(n.value, IsResend(m))]
              && (IsResend(m) || p.expected == n.value < INT_MAX)
              && (if t.Some? then r.expected == t.value
                  else p.expected <= r.expected && (IsResend(m) || r.expected == p.expected + 1))
            else r == p && t.None?
  {
    NumberFits(m, TAG_MSG_SEQ_NUM);
    hide NumberIn, AddressedToUs, IsResend;
  }

  lemma NumberFits(m: FieldMap, tag: int)
    ensures NumberIn(m, tag).Some? ==> INT_MIN <= NumberIn(m, tag).value <= INT_MAX
  {
    hide SkipSpaces, DigitRun, DecValue;
  }

  /** One message keeps the order if and only if it meets the guard. */
  lemma ReceiveInOrder(cfg: SessionConfig, start: int, p: Progress, m: FieldMap)
    requires InOrder(start, p)
    ensures InOrder(start, Receive(cfg, p, m)) <==> Forward(cfg, start, p, m)
  {
    ReceiveCases(cfg, p, m);
    if Reaches(cfg, m) && Judge(p.expected, m).Accepted? {
      PassOne(start, p, Passed(NumberIn(m, TAG_MSG_SEQ_NUM).value, IsResend(m)), Receive(cfg, p, m).expected);
    }
  }

  lemma PassOne(start: int, p: Progress, q: Passed, expected: int)
    requires InOrder(start, p) && (q.resend || p.expected == q.number)
    ensures start <= Mark(start, p) <= p.expected
    ensures InOrder(start, Progress(expected, p.passed + [q])) <==>
            expected >= if q.resend then Mark(start, p) else p.expected + 1
    ensures Mark(start, Progress(expected, p.passed + [q])) == if q.resend then Mark(start, p) else p.expected + 1
  {
    OriginalsSnoc(p.passed, q);
    var was, os := Originals(p.passed), Originals(p.passed + [q]);
    hide Originals;
    assert !q.resend ==> os[|os| - 1] == q.number;
  }

  /** A run whose resets all lead forward is in order. */
  lemma {:induction false} ForwardKeepsOrder(cfg: SessionConfig, start: int, ms: seq<FieldMap>)
    requires AllForward(cfg, start, ms)
    ensures InOrder(start, ReceiveAll(cfg, Progress(start, []), ms))
  {
    if ms != [] {
      var k := |ms| - 1;
      ForwardKeepsOrder(cfg, start, ms[..k]);
      ReceiveInOrder(cfg, start, ReceiveAll(cfg, Progress(start, []), ms[..k]), ms[k]);
    }
  }

  // ---------------------------------------------------------------- exactly when none is accepted twice

  /** The originals so far start at `start` or later and strictly increase: none is accepted twice. */
  predicate InSequence(start: int, p: Progress) {
    && Increasing(Originals(p.passed))
    && forall i :: 0 <= i < |Originals(p.passed)| ==> start <= Originals(p.passed)[i]
  }

  /** No prefix of the run, continued without resets in any way, takes an original out of sequence. */
  ghost predicate AlwaysInSequence(cfg: SessionConfig, start: int, ms: seq<FieldMap>) {
    forall k: nat, ns: seq<FieldMap> :: k <= |ms| && NoReset(ns) ==>
      InSequence(start, ReceiveAll(cfg, Progress(start, []), ms[..k] + ns))
  }

  function Heartbeat(cfg: SessionConfig, n: int): FieldMap {
    map[TAG_SENDER := cfg.target, TAG_TARGET := cfg.sender, TAG_MSG_TYPE := "0", TAG_MSG_SEQ_NUM := IntStr(n)]
  }

  /** A Heartbeat with the expected number is accepted. */
  lemma HeartbeatPasses(cfg: SessionConfig, p: Progress)
    requires INT_MIN <= p.expected < INT_MAX
    ensures Receive(cfg, p, Heartbeat(cfg, p.expected)) ==
            Progress(p.expected + 1, p.passed + [Passed(p.expected, false)])
    ensures NoReset([Heartbeat(cfg, p.expected)])
  {
    StoiIntStr(p.expected);
    hide Stoi, IntStr;
  }

  lemma ReceiveAllSnoc(cfg: SessionConfig, p: Progress, ms: seq<FieldMap>, m: FieldMap)
    ensures ReceiveAll(cfg, p, ms + [m]) == Receive(cfg, ReceiveAll(cfg, p, ms), m)
  {
    assert (ms + [m])[..|ms|] == ms;
  }

  lemma {:induction false} AllForwardPrefix(cfg: SessionConfig, start: int, ms: seq<FieldMap>, k: nat)
    requires k <= |ms| && AllForward(cfg, start, ms)
    ensures AllForward(cfg, start, ms[..k])
  {
    if k < |ms| {
      AllForwardPrefix(cfg, start, ms[..|ms| - 1], k);
      assert ms[..|ms| - 1][..k] == ms[..k];
    } else {
      assert ms[..k] == ms;
    }
  }

  /** Messages other than SequenceReset meet the guard. */
  lemma {:induction false} AllForwardContinues(cfg: SessionConfig, start: int, ms: seq<FieldMap>, ns: seq<FieldMap>)
    requires AllForward(cfg, start, ms) && NoReset(ns)
    ensures AllForward(cfg, start, ms + ns)
  {
    if ns == [] {
      assert ms + ns == ms;
    } else {
      var k := |ns| - 1;
      AllForwardContinues(cfg, start, ms, ns[..k]);
      assert (ms + ns)[..|ms + ns| - 1] == ms + ns[..k];
      assert (ms + ns)[|ms + ns| - 1] == ns[k];
      hide Reaches, Judge, ReceiveAll;
    }
  }

  /** The mark stays an `int`. */
  lemma {:induction false} MarkFits(cfg: SessionConfig, start: int, ms: seq<FieldMap>)
    requires start <= INT_MAX && AllForward(cfg, start, ms)
    ensures Mark(start, ReceiveAll(cfg, Progress(start, []), ms)) <= INT_MAX
  {
    if ms != [] {
      var k := |ms| - 1;
      MarkFits(cfg, start, ms[..k]);
      ForwardKeepsOrder(cfg, start, ms[..k]);
      var p := ReceiveAll(cfg, Progress(start, []), ms[..k]);
      ReceiveCases(cfg, p, ms[k]);
      hide Reaches, Judge, Mark, InOrder, Receive;
      if Reaches(cfg, ms[k]) && Judge(p.expected, ms[k]).Accepted? {
        PassOne(start, p, Passed(NumberIn(ms[k], TAG_MSG_SEQ_NUM).value, IsResend(ms[k])),
            Receive(cfg, p, ms[k]).expected);
      }
    }
  }

  /** Behind a message that fails the guard, the Heartbeat the session then expects is out of sequence. */
  lemma BackwardBreaks(cfg: SessionConfig, start: int, p: Progress, m: FieldMap)
    requires InOrder(start, p) && Mark(start, p) <= INT_MAX && !Forward(cfg, start, p, m)
    ensures var q := Receive(cfg, p, m); var h := Heartbeat(cfg, q.expected);
            NoReset([h]) && !InSequence(start, Receive(cfg, q, h))
  {
    ReceiveCases(cfg, p, m);
    NumberFits(m, TAG_NEW_SEQ_NO);
    var q := Receive(cfg, p, m);
    PassOne(start, p, Passed(NumberIn(m, TAG_MSG_SEQ_NUM).value, IsResend(m)), q.expected);
    HeartbeatPasses(cfg, q);
    OriginalsSnoc(q.passed, Passed(q.expected, false));
    BelowMark(start, q);
  }

  lemma BelowMark(start: int, q: Progress)
    requires q.expected < Mark(start, q)
    ensures !InSequence(start, Progress(q.expected + 1, q.passed + [Passed(q.expected, false)]))
  {
    OriginalsSnoc(q.passed, Passed(q.expected, false));
    var was, os := Originals(q.passed), Originals(q.passed + [Passed(q.expected, false)]);
    hide Originals;
    assert os[|was|] == q.expected;
    if was != [] { assert os[|was| - 1] == was[|was| - 1]; }
  }

  /** In-order acceptance, exactly: over a run and everything that may follow any part of it, the
      messages accepted as originals carry strictly increasing numbers, none accepted twice, if and only
      if every accepted SequenceReset leads forward. */
  lemma {:induction false} InOrderAcceptance(cfg: SessionConfig, start: int, ms: seq<FieldMap>)
    requires INT_MIN <= start <= INT_MAX
    ensures AlwaysInSequence(cfg, start, ms) <==> AllForward(cfg, start, ms)
    ensures AllForward(cfg, start, ms) ==> InOrder(start, ReceiveAll(cfg, Progress(start, []), ms))
  {
    if AllForward(cfg, start, ms) {
      ForwardKeepsOrder(cfg, start, ms);
      forall k: nat, ns: seq<FieldMap> | k <= |ms| && NoReset(ns)
        ensures InSequence(start, ReceiveAll(cfg, Progress(start, []), ms[..k] + ns))
      {
        AllForwardPrefix(cfg, start, ms, k);
        AllForwardContinues(cfg, start, ms[..k], ns);
        ForwardKeepsOrder(cfg, start, ms[..k] + ns);
      }
    } else {
      var k, ns := Breaks(cfg, start, ms);
      assert !InSequence(start, ReceiveAll(cfg, Progress(start, []), ms[..k] + ns));
    }
  }

  /** The shortest prefix that fails the guard, and the Heartbeat that shows it. */
  lemma {:induction false} Breaks(cfg: SessionConfig, start: int, ms: seq<FieldMap>) returns (k: nat, ns: seq<FieldMap>)
    requires INT_MIN <= start <= INT_MAX && !AllForward(cfg, start, ms)
    ensures k <= |ms| && NoReset(ns)
    ensures !InSequence(start, ReceiveAll(cfg, Progress(start, []), ms[..k] + ns))
  {
    var l := |ms| - 1;
    if !AllForward(cfg, start, ms[..l]) {
      k, ns := Breaks(cfg, start, ms[..l]);
      assert ms[..l][..k] == ms[..k];
    } else {
      ForwardKeepsOrder(cfg, start, ms[..l]);
      MarkFits(cfg, start, ms[..l]);
      var p := ReceiveAll(cfg, Progress(start, []), ms[..l]);
      BackwardBreaks(cfg, start, p, ms[l]);
      k, ns := |ms|, [Heartbeat(cfg, Receive(cfg, p, ms[l]).expected)];
      ReceiveAllSnoc(cfg, Progress(start, []), ms, ns[0]);
      assert ms[..k] == ms;
    }
  }

  // ---------------------------------------------------------------- what a backward reset replays

  /** Consecutive Heartbeats from the expected number on are all accepted. */
  lemma {:induction false} HeartbeatsPass(cfg: SessionConfig, p: Progress, hi: int)
    requires INT_MIN <= p.expected <= hi <= INT_MAX
    ensures ReceiveAll(cfg, p, seq(hi - p.expected, i => Heartbeat(cfg, p.expected + i))) ==
            Progress(hi, p.passed + seq(hi - p.expected, i => Passed(p.expected + i, false)))
    decreases hi - p.expected
  {
    hide Receive, Heartbeat, ReceiveAll, NoReset;
    var n := hi - p.expected;
    var hs, qs := seq(n, i => Heartbeat(cfg, p.expected + i)), seq(n, i => Passed(p.expected + i, false));
    if n == 0 {
      assert p.passed + qs == p.passed && hs == [];
      ReceiveNothing(cfg, p);
    } else {
      var hs', qs' := seq(n - 1, i => Heartbeat(cfg, p.expected + i)), seq(n - 1, i => Passed(p.expected + i, false));
      assert hs == hs' + [Heartbeat(cfg, hi - 1)] && qs == qs' + [Passed(hi - 1, false)];
      HeartbeatsPass(cfg, p, hi - 1);
      ReceiveAllSnoc(cfg, p, hs', Heartbeat(cfg, hi - 1));
      HeartbeatPasses(cfg, Progress(hi - 1, p.passed + qs'));
      Assoc(p.passed, qs', [Passed(hi - 1, false)]);
    }
  }

  lemma ReceiveNothing(cfg: SessionConfig, p: Progress)
    ensures ReceiveAll(cfg, p, []) == p
  {
  }

  /** An original SequenceReset numbered e that is set to n <= e: the originals n to e are accepted, so
      e a second time. */
  lemma ResetReplays(cfg: SessionConfig, p: Progress, m: FieldMap)
    requires ResetTo(cfg, p, m).Some? && !IsResend(m) && ResetTo(cfg, p, m).value <= p.expected
    ensures var e, n := p.expected, ResetTo(cfg, p, m).value;
            ReceiveAll(cfg, Receive(cfg, p, m), seq(e + 1 - n, i => Heartbeat(cfg, n + i))) ==
            Progress(e + 1, p.passed + [Passed(e, false)] + seq(e + 1 - n, i => Passed(n + i, false)))
  {
    ReceiveCases(cfg, p, m);
    NumberFits(m, TAG_NEW_SEQ_NO);
    HeartbeatsPass(cfg, Receive(cfg, p, m), p.expected + 1);
  }

  /** Without resets and without PossDupFlag the accepted messages carry exactly the consecutive numbers
      from the start: nothing skipped, nothing repeated, whatever else arrived in between. */
  lemma {:induction false} ExactlyConsecutive(cfg: SessionConfig, start: int, ms: seq<FieldMap>)
    requires NoReset(ms) && forall i :: 0 <= i < |ms| ==> !IsResend(ms[i])
    ensures var p := ReceiveAll(cfg, Progress(start, []), ms);
            && |p.passed| == p.expected - start
            && forall i :: 0 <= i < |p.passed| ==> p.passed[i] == Passed(start + i, false)
  {
    if ms != [] {
      var k := |ms| - 1;
      assert NoReset(ms[..k]) && forall i :: 0 <= i < k ==> !IsResend(ms[..k][i]);
      ExactlyConsecutive(cfg, start, ms[..k]);
      hide NumberIn, AddressedToUs;
    }
  }

  /** The expected number falls at exactly one kind of message: an accepted SequenceReset whose NewSeqNo
      is below it. */
  lemma FallsOnlyOnReset(cfg: SessionConfig, p: Progress, m: FieldMap)
    ensures Receive(cfg, p, m).expected < p.expected <==>
            && Reaches(cfg, m) && Judge(p.expected, m).Accepted?
            && m[TAG_MSG_TYPE] == "4"
            && NumberIn(m, TAG_NEW_SEQ_NO).Some? && NumberIn(m, TAG_NEW_SEQ_NO).value < p.expected
  {
    hide NumberIn, AddressedToUs;
  }

  /** A run in which a SequenceReset sets the expected number back, and the next original is one that was
      accepted before. */
  lemma ResetRewinds(cfg: SessionConfig)
    ensures var ids := map[TAG_SENDER := cfg.target, TAG_TARGET := cfg.sender];
            var a := ids[TAG_MSG_TYPE := "0"][TAG_MSG_SEQ_NUM := "1"];
            var b := ids[TAG_MSG_TYPE := "4"][TAG_MSG_SEQ_NUM := "2"][TAG_NEW_SEQ_NO := "1"];
            ReceiveAll(cfg, Progress(1, []), [a, b, a]) ==
                Progress(2, [Passed(1, false), Passed(2, false), Passed(1, false)])
  {
    hide Stoi, ReceiveAll;
    Numerals();
    var ids := map[TAG_SENDER := cfg.target, TAG_TARGET := cfg.sender];
    var a := ids[TAG_MSG_TYPE := "0"][TAG_MSG_SEQ_NUM := "1"];
    var b := ids[TAG_MSG_TYPE := "4"][TAG_MSG_SEQ_NUM := "2"][TAG_NEW_SEQ_NO := "1"];
    var p0 := Progress(1, []);
    var p1, p2 := Progress(2, [Passed(1, false)]), Progress(1, [Passed(1, false), Passed(2, false)]);
    var p3 := Progress(2, [Passed(1, false), Passed(2, false), Passed(1, false)]);
    assert Receive(cfg, p0, a) == p1 && Receive(cfg, p1, b) == p2 && Receive(cfg, p2, a) == p3;
    hide Receive;
    ReceiveNothing(cfg, p0);
    ReceiveAllSnoc(cfg, p0, [], a);
    ReceiveAllSnoc(cfg, p0, [a], b);
    ReceiveAllSnoc(cfg, p0, [a, b], a);
    assert [] + [a] == [a] && [a] + [b] == [a, b] && [a, b] + [a] == [a, b, a];
  }

  lemma Numerals()
    ensures Stoi("1") == Some(1) && Stoi("2") == Some(2)
  {
    StoiIntStr(1);
    StoiIntStr(2);
    assert Dec(1) == "1" && Dec(2) == "2";
    hide Stoi;
  }
}
