/** What each handler of the state machine says about the bytes in front of it, and why asking for more
    bytes loses nothing. */
module MachineVerdicts {
  import opened Bytes
  import opened ParserTypes
  import opened Decoders
  import opened WireFormat
  import opened StateMachine

  // ---------------------------------------------------------------- handler by handler

  /** IDLE: fewer than nine bytes, or up to 512 without "8=FIX.4.4", wait; what stands in front of it is
      skipped; at the front it is entered. */
  lemma IdleVerdict(s: string, i: nat, ctx: Context, free: nat)
    requires i <= |s| && (forall k: nat :: k < i ==> !At(s, "8=FIX.4.4", k)) && (i < |s| ==> At(s, "8=FIX.4.4", i))
    ensures i == |s| <= 512 ==> HandleIdle(s, ctx, free) == More(0, ctx, free)
    ensures 0 < i < |s| ==> HandleIdle(s, ctx, free) == More(i, ctx, free)
    ensures i == 0 < |s| ==> HandleIdle(s, ctx, free) == More(0, ctx.(state := PARSING_BEGIN_STRING), free)
  {
    SearchIs(s, BEGIN_STRING, 0, i);
    hide Search;
    if i < |s| { assert |s| >= 9; }
  }

  /** IDLE with more than 512 bytes and no "8=FIX.4.4": skip to the first "8=FIX" in front of the last five
      bytes and report the failed transition, or drop everything.  The context is reset either way. */
  lemma IdleRecovery(s: string, i: nat, ctx: Context, free: nat)
    requires ctx.state == IDLE && |s| > 512 && forall k: nat :: !At(s, "8=FIX.4.4", k)
    requires i <= |s| && (forall k: nat :: k < i && k < |s| - 5 ==> !At(s, "8=FIX", k))
    requires i == |s| || (i < |s| - 5 && At(s, "8=FIX", i))
    ensures HandleIdle(s, ctx, free) ==
            if i < |s| then Reply(Fail(StateTransitionError, i, ERROR_RECOVERY), EMPTY, free)
            else Reply(Fail(NeedMoreData, |s|, IDLE), EMPTY, free)
  {
    hide At;
    SearchIs(s, BEGIN_STRING, 0, |s|);
    RecoverySkip(s, i);
  }

  lemma RecoverySkip(s: string, i: nat)
    requires 5 <= |s| && i <= |s| && (forall k: nat :: k < i && k < |s| - 5 ==> !At(s, "8=FIX", k))
    requires i == |s| || (i < |s| - 5 && At(s, "8=FIX", i))
    ensures SkipToNextPotentialMessage(s) == i
  {
    hide At, Search;
    if i < |s| {
      SearchIs(s, "8=FIX", 0, i);
    } else {
      var j := Search(s, "8=FIX", 0);
      assert j < |s| - 5 ==> At(s, "8=FIX", j);
    }
  }

  /** ERROR_RECOVERY and CORRUPTED_SKIP do the same to whatever is there; with fewer than five bytes the
      source's loop bound wraps. */
  lemma RecoveryVerdict(s: string, i: nat, ctx: Context, free: nat)
    requires i <= |s| && (forall k: nat :: k < i && k < |s| - 5 ==> !At(s, "8=FIX", k))
    requires i == |s| || (i < |s| - 5 && At(s, "8=FIX", i))
    ensures HandleRecovery(s, ctx, free) ==
            if |s| < 5 then Reply(Undefined, ctx, free)
            else if i < |s| then Reply(Fail(StateTransitionError, i, ERROR_RECOVERY), EMPTY, free)
            else Reply(Fail(NeedMoreData, |s|, IDLE), EMPTY, free)
  {
    if |s| >= 5 { RecoverySkip(s, i); }
  }

  /** PARSING_BEGIN_STRING: "8=FIX.4.4", anything, SOH. */
  lemma BeginStringVerdict(v: string, rest: string, ctx: Context, free: nat)
    requires SohFree(v)
    ensures HandleBeginString("8=FIX.4.4" + v + [SOH] + rest, ctx, free) ==
            More(10 + |v|, ctx.(state := PARSING_BODY_LENGTH), free)
    ensures HandleBeginString("8=FIX.4.4" + v, ctx, free) == Error(InvalidFormat, 0, ctx, free)
  {
    var s := "8=FIX.4.4" + v + [SOH] + rest;
    assert s[0..9] == "8=FIX.4.4";
    FindBehind("8=FIX.4.4", v, SOH, rest);
    var u := "8=FIX.4.4" + v;
    assert u[0..9] == "8=FIX.4.4";
    assert forall k :: 9 <= k < |u| ==> u[k] == v[k - 9];
    FindIs(u, SOH, 9, |u|);
    hide Find;
  }

  /** Any other front is malformed, and so is one too short to tell. */
  lemma NoBeginString(s: string, ctx: Context, free: nat)
    requires !At(s, "8=FIX.4.4", 0)
    ensures HandleBeginString(s, ctx, free) == Error(InvalidFormat, 0, ctx, free)
  {
  }

  /** PARSING_BODY_LENGTH: "9=", a number between 1 and the limit, SOH. */
  lemma BodyLengthVerdict(cfg: Config, v: string, rest: string, ctx: Context, free: nat)
    requires SohFree(v)
    ensures HandleBodyLength(cfg, "9=" + v + [SOH] + rest, ctx, free) ==
            var p := ParseInt(v);
            if p.Overflow? then Reply(Undefined, ctx, free)
            else if p.Number? && 1 <= p.value <= cfg.maxMessageSize then
              More(3 + |v|, ctx.(state := PARSING_TAG, expected := p.value), free)
            else Error(InvalidFormat, 0, ctx, free)
    ensures HandleBodyLength(cfg, "9=" + v, ctx, free) == Error(InvalidFormat, 0, ctx, free)
  {
    hide Find, ParseInt;
    var s := "9=" + v + [SOH] + rest;
    FindBehind("9=", v, SOH, rest);
    assert s == "9=" + v + ([SOH] + rest);
    Middle("9=", v, [SOH] + rest);
    assert s[0] == '9' && s[1] == '=';
    var u := "9=" + v;
    assert forall k :: 2 <= k < |u| ==> u[k] == v[k - 2];
    FindIs(u, SOH, 2, |u|);
  }

  lemma NoBodyLength(cfg: Config, s: string, ctx: Context, free: nat)
    requires !At(s, "9=", 0)
    ensures HandleBodyLength(cfg, s, ctx, free) == Error(InvalidFormat, 0, ctx, free)
  {
    if |s| >= 2 { assert s[0..2] == [s[0], s[1]]; }
  }

  /** PARSING_TAG: a number between 1 and 99999 in front of '='. */
  lemma TagVerdict(v: string, rest: string, ctx: Context, free: nat)
    requires '=' !in v
    ensures HandleTag(v + "=" + rest, ctx, free) ==
            if v == "" then Error(InvalidFormat, 0, ctx, free) else
            var p := ParseInt(v);
            if p.Overflow? then Reply(Undefined, ctx, free)
            else if p.Number? && 1 <= p.value <= 99999 then
              More(|v|, ctx.(state := EXPECTING_EQUALS, tag := p.value), free)
            else Error(FieldParseError, |v|, ctx, free)
    ensures HandleTag(v, ctx, free) == if |v| > 10 then Error(InvalidFormat, 0, ctx, free) else More(0, ctx, free)
  {
    hide Find, ParseInt;
    FindBehind("", v, '=', rest);
    var s := v + "=" + rest;
    assert "" + v + ['='] + rest == s;
    assert s == v + ("=" + rest);
    Middle("", v, "=" + rest);
    FindIs(v, '=', 0, |v|);
  }

  /** EXPECTING_EQUALS and EXPECTING_SOH: one byte, or none yet. */
  lemma DelimiterVerdict(s: string, ctx: Context, free: nat)
    ensures HandleEquals("", ctx, free) == More(0, ctx, free) == HandleSoh("", ctx, free)
    ensures s != "" && s[0] == '=' ==> HandleEquals(s, ctx, free) == More(1, ctx.(state := PARSING_VALUE), free)
    ensures s != "" && s[0] != '=' ==> HandleEquals(s, ctx, free) == Error(InvalidFormat, 0, ctx, free)
    ensures s != "" && s[0] != SOH ==> HandleSoh(s, ctx, free) == Error(InvalidFormat, 0, ctx, free)
    ensures s != "" && s[0] == SOH ==>
              var r := HandleSoh(s, ctx, free); var f := Field(ctx.tag, ctx.value);
              && r.outcome == Fail(NeedMoreData, 1, r.ctx.state) && r.free == free
              && r.ctx.parsed == ctx.parsed + [f] && r.ctx.bodyBytes == ctx.bodyBytes + |Render(f)|
              && r.ctx.expected == ctx.expected && r.ctx.tag == 0 && r.ctx.value == ""
              && r.ctx.state == if ctx.bodyBytes + |Render(f)| >= ctx.expected then PARSING_CHECKSUM else PARSING_TAG
  {
    hide Dec;
  }

  /** PARSING_VALUE: everything up to SOH, or nothing yet. */
  lemma ValueVerdict(v: string, rest: string, ctx: Context, free: nat)
    requires SohFree(v)
    ensures HandleValue(v + [SOH] + rest, ctx, free) == More(|v|, ctx.(state := EXPECTING_SOH, value := v), free)
    ensures HandleValue(v, ctx, free) == More(0, ctx, free)
  {
    hide Find;
    FindBehind("", v, SOH, rest);
    assert "" + v + [SOH] + rest == v + [SOH] + rest;
    assert v + [SOH] + rest == v + ([SOH] + rest);
    Middle("", v, [SOH] + rest);
    FindIs(v, SOH, 0, |v|);
  }

  /** PARSING_CHECKSUM: "10=", exactly three digits, SOH. */
  lemma ChecksumVerdict(v: string, rest: string, ctx: Context, free: nat)
    requires SohFree(v)
    ensures |"10=" + v + [SOH] + rest| >= 5 ==>
              HandleChecksum("10=" + v + [SOH] + rest, ctx, free) ==
              if |v| == 3 && AllDigits(v) then
                Reply(Fail(FinishedParsingFields, 7, MESSAGE_COMPLETE),
                      ctx.(state := MESSAGE_COMPLETE, parsed := ctx.parsed + [Field(TAG_CHECKSUM, v)]), free)
              else Error(InvalidFormat, 3 + |v|, ctx, free)
    ensures HandleChecksum("10=" + v, ctx, free) == More(0, ctx, free)
  {
    hide Find, AllDigits;
    var s := "10=" + v + [SOH] + rest;
    assert s[0..3] == "10=";
    FindBehind("10=", v, SOH, rest);
    assert s == "10=" + v + ([SOH] + rest);
    Middle("10=", v, [SOH] + rest);
    var u := "10=" + v;
    assert u[0..3] == "10=";
    assert forall k :: 3 <= k < |u| ==> u[k] == v[k - 3];
    FindIs(u, SOH, 3, |u|);
  }

  lemma NoChecksum(s: string, ctx: Context, free: nat)
    ensures |s| < 5 ==> HandleChecksum(s, ctx, free) == More(0, ctx, free)
    ensures |s| >= 5 && !At(s, "10=", 0) ==> HandleChecksum(s, ctx, free) == Error(InvalidFormat, 0, ctx, free)
  {
  }

  /** MESSAGE_COMPLETE: the first CheckSum among the fields decides; one that is no number costs the slot. */
  lemma CompleteVerdict(cfg: Config, ctx: Context, free: nat, stamp: string)
    requires free > 0 && cfg.validateChecksum && First(ctx.parsed, TAG_CHECKSUM).Some?
    ensures var r := HandleComplete(cfg, ctx, free, stamp); var c := Stoi(First(ctx.parsed, TAG_CHECKSUM).value);
            if c.None? then r == Reply(Threw, ctx, free - 1)
            else if ByteSum(Rebuilt(ctx)) == c.value % 256 then r.outcome.Ok() && r.free == free - 1 && r.ctx == EMPTY
            else r == Error(ChecksumError, 0, ctx, free)
  {
    hide Stoi, ByteSum, Rebuilt, Assembled, Dec;
  }

  /** The message put together: header as it must be, the first MsgType, and the last value of other tags. */
  lemma AssembledMeaning(ctx: Context, stamp: string)
    ensures var m := Assembled(ctx, stamp); var t := First(ctx.parsed, TAG_MSG_TYPE);
            && TAG_BEGIN_STRING in m && m[TAG_BEGIN_STRING] == "FIX.4.4"
            && TAG_BODY_LENGTH in m && m[TAG_BODY_LENGTH] == Dec(ctx.expected)
            && (t.Some? ==> TAG_MSG_TYPE in m && m[TAG_MSG_TYPE] == t.value)
            && forall k :: k !in {TAG_BEGIN_STRING, TAG_BODY_LENGTH, TAG_MSG_TYPE} ==>
                 var all := SetAll(Fresh(stamp), ctx.parsed);
                 (k in m <==> k in all) && (k in m ==> m[k] == all[k])
  {
    hide Dec, SetAll, First;
  }

  // ---------------------------------------------------------------- asking for more loses nothing

  /** No recovery is under way or about to start: its scan looks at all the bytes there are. */
  predicate Calm(buf: string, pos: nat, ctx: Context) {
    && ctx.state != ERROR_RECOVERY && ctx.state != CORRUPTED_SKIP
    && (ctx.state == IDLE ==> |buf| - pos <= 512)
  }

  /** The reply moves on: it is not an error, and if it asks for more it has done something first. */
  predicate Moves(r: Reply, state: ParseState) {
    && r.outcome.Returned? && r.outcome.status in {NeedMoreData, FinishedParsingFields, AllocationFailed}
    && (r.outcome.status == NeedMoreData ==> r.outcome.consumed > 0 || r.ctx.state != state)
  }

  lemma IdleExtends(s: string, t: string, ctx: Context, free: nat)
    requires |s| <= 512 && ctx.state == IDLE && Moves(HandleIdle(s, ctx, free), IDLE)
    ensures HandleIdle(s + t, ctx, free) == HandleIdle(s, ctx, free)
  {
    hide Search, At, AttemptErrorRecovery;
    SearchExtends(s, t, BEGIN_STRING);
  }

  lemma BeginStringExtends(s: string, t: string, ctx: Context, free: nat)
    requires Moves(HandleBeginString(s, ctx, free), ctx.state)
    ensures HandleBeginString(s + t, ctx, free) == HandleBeginString(s, ctx, free)
  {
    hide Find, At;
    AtFront(s, t, BEGIN_STRING);
    FindExtends(s, t, SOH, 9);
  }

  lemma BodyLengthExtends(cfg: Config, s: string, t: string, ctx: Context, free: nat)
    requires Moves(HandleBodyLength(cfg, s, ctx, free), ctx.state)
    ensures HandleBodyLength(cfg, s + t, ctx, free) == HandleBodyLength(cfg, s, ctx, free)
  {
    hide Find, ParseInt;
    FindExtends(s, t, SOH, 2);
    var e := Find(s, SOH, 2);
    assert (s + t)[2..e] == s[2..e];
  }

  lemma TagExtends(s: string, t: string, ctx: Context, free: nat)
    requires ctx.state == PARSING_TAG && Moves(HandleTag(s, ctx, free), PARSING_TAG)
    ensures HandleTag(s + t, ctx, free) == HandleTag(s, ctx, free)
  {
    hide Find, ParseInt;
    FindExtends(s, t, '=', 0);
    var e := Find(s, '=', 0);
    assert (s + t)[..e] == s[..e];
  }

  lemma ValueExtends(s: string, t: string, ctx: Context, free: nat)
    requires ctx.state == PARSING_VALUE && Moves(HandleValue(s, ctx, free), PARSING_VALUE)
    ensures HandleValue(s + t, ctx, free) == HandleValue(s, ctx, free)
  {
    hide Find;
    FindExtends(s, t, SOH, 0);
    var e := Find(s, SOH, 0);
    assert (s + t)[..e] == s[..e];
  }

  lemma ChecksumExtends(s: string, t: string, ctx: Context, free: nat)
    requires ctx.state == PARSING_CHECKSUM && Moves(HandleChecksum(s, ctx, free), PARSING_CHECKSUM)
    ensures HandleChecksum(s + t, ctx, free) == HandleChecksum(s, ctx, free)
  {
    hide Find, At, AllDigits;
    AtFront(s, t, "10=");
    FindExtends(s, t, SOH, 3);
    assert (s + t)[3..6] == s[3..6];
  }

  /** A handler that moved on moves on in the same way when more bytes follow. */
  lemma HandleExtends(cfg: Config, s: string, t: string, ctx: Context, free: nat, stamp: string)
    requires Calm(s, 0, ctx) && Moves(Handle(cfg, s, ctx, free, stamp), ctx.state)
    ensures Handle(cfg, s + t, ctx, free, stamp) == Handle(cfg, s, ctx, free, stamp)
  {
    hide HandleIdle, HandleBeginString, HandleBodyLength, HandleTag, HandleValue, HandleChecksum, HandleComplete, Dec;
    match ctx.state
    case IDLE => IdleExtends(s, t, ctx, free);
    case PARSING_BEGIN_STRING => BeginStringExtends(s, t, ctx, free);
    case PARSING_BODY_LENGTH => BodyLengthExtends(cfg, s, t, ctx, free);
    case PARSING_TAG => TagExtends(s, t, ctx, free);
    case EXPECTING_EQUALS => assert s != "" ==> (s + t)[0] == s[0];
    case PARSING_VALUE => ValueExtends(s, t, ctx, free);
    case EXPECTING_SOH => assert s != "" ==> (s + t)[0] == s[0];
    case PARSING_CHECKSUM => ChecksumExtends(s, t, ctx, free);
    case MESSAGE_COMPLETE =>
  }

  lemma AtFront(s: string, t: string, pat: string)
    requires |pat| <= |s|
    ensures At(s + t, pat, 0) <==> At(s, pat, 0)
  {
    assert (s + t)[0..|pat|] == s[0..|pat|];
  }

  /** The machine stays calm while it moves on. */
  lemma StaysCalm(cfg: Config, buf: string, pos: nat, ctx: Context, free: nat, stamp: string)
    requires pos <= |buf| && Calm(buf, pos, ctx) && Step(cfg, buf, pos, ctx, free, stamp).Continue?
    ensures var n := Step(cfg, buf, pos, ctx, free, stamp); Calm(buf, n.pos, n.ctx)
  {
    hide Find, Search, ParseInt, At, Dec, AttemptErrorRecovery, HandleErrorRecovery, AllDigits, Stoi, ByteSum, Rebuilt,
      Assembled;
  }

  /** One turn over a prefix: it is the turn over the whole, or it asks for more at the place where the
      whole goes on. */
  lemma StepExtends(cfg: Config, a: string, b: string, pos: nat, ctx: Context, free: nat, stamp: string)
    requires pos <= |a| && Calm(a, pos, ctx) && b != ""
    ensures var t, u := Step(cfg, a, pos, ctx, free, stamp), Step(cfg, a + b, pos, ctx, free, stamp);
            && (t.Continue? ==> u == t)
            && (t.Stop? && t.reply.outcome.Returned? && t.reply.outcome.status == NeedMoreData ==>
                  var p := t.reply.outcome.consumed;
                  (p == pos && t.reply.ctx == ctx) || u == Continue(p, t.reply.ctx))
  {
    hide Handle;
    assert (a + b)[pos..] == a[pos..] + b;
    var r := Handle(cfg, a[pos..], ctx, free, stamp);
    if r.outcome.Returned? {
      Statuses(cfg, a[pos..], ctx, free, stamp);
      if Moves(r, ctx.state) { HandleExtends(cfg, a[pos..], b, ctx, free, stamp); }
    }
  }

  /** What a calm handler can return, and that it leaves the context alone when it only waits. */
  lemma Statuses(cfg: Config, s: string, ctx: Context, free: nat, stamp: string)
    requires Calm(s, 0, ctx)
    ensures var r := Handle(cfg, s, ctx, free, stamp);
            r.outcome.Returned? ==>
              && r.outcome.status in {Success, NeedMoreData, FinishedParsingFields, InvalidFormat, FieldParseError,
                                      ChecksumError, AllocationFailed}
              && (r.outcome.status == NeedMoreData && r.outcome.consumed == 0 && r.ctx.state == ctx.state ==>
                  r.ctx == ctx)
  {
    hide Find, Search, ParseInt, At, Dec, AttemptErrorRecovery, HandleErrorRecovery, AllDigits, Stoi, ByteSum, Rebuilt,
      Assembled;
  }

  /** Asking for more loses nothing: when the machine stops for want of data, going on from where it
      stopped, with the context it left and the bytes that came after, ends as one run over all the bytes
      does.  Only a recovery, which looks at everything there is, is excepted. */
  lemma {:induction false} MachineResumes(cfg: Config, a: string, b: string, pos: nat, ctx: Context, free: nat,
      stamp: string)
    requires pos <= |a| && Calm(a, pos, ctx) && b != ""
    requires var e := Run(cfg, a, pos, ctx, free, stamp);
             e.Ended? && e.reply.outcome.Returned? && e.reply.outcome.status == NeedMoreData
    ensures var r := Run(cfg, a, pos, ctx, free, stamp).reply;
            && r.outcome.consumed <= |a|
            && Run(cfg, a + b, pos, ctx, free, stamp) == Run(cfg, a + b, r.outcome.consumed, r.ctx, free, stamp)
    decreases |a| - pos, Rank(ctx.state)
  {
    hide Step, Spins, Calm, Handle;
    RunUnfolds(cfg, a, pos, ctx, free, stamp);
    RunUnfolds(cfg, a + b, pos, ctx, free, stamp);
    ProgressOrSpin(cfg, a, pos, ctx, free, stamp);
    StepExtends(cfg, a, b, pos, ctx, free, stamp);
    SpinsAgree(cfg, a, b, pos, ctx, free, stamp);
    MovedOn(cfg, a, pos, ctx, free, stamp);
    StopsInside(cfg, a, pos, ctx, free, stamp);
    var t := Step(cfg, a, pos, ctx, free, stamp);
    if t.Continue? {
      StaysCalm(cfg, a, pos, ctx, free, stamp);
      MachineResumes(cfg, a, b, t.pos, t.ctx, free, stamp);
    }
  }

  /** Cuts in the header are not all alike: behind the version field the machine waits, inside it the cut is
      an error. */
  lemma CutsInHeader(cfg: Config, v: string, free: nat, stamp: string)
    requires SohFree(v)
    ensures Run(cfg, "8=FIX.4.4" + v + [SOH], 0, EMPTY, free, stamp) ==
            Ended(More(10 + |v|, EMPTY.(state := PARSING_BODY_LENGTH), free))
    ensures Run(cfg, "8=FIX.4.4" + v, 0, EMPTY, free, stamp) ==
            Ended(Error(InvalidFormat, 0, EMPTY.(state := PARSING_BEGIN_STRING), free))
  {
    hide Step, Spins, At, Search, Find;
    BeginStringVerdict(v, "", EMPTY.(state := PARSING_BEGIN_STRING), free);
    var s, u := "8=FIX.4.4" + v + [SOH], "8=FIX.4.4" + v;
    assert s == "8=FIX.4.4" + v + [SOH] + "";
    EntersVersion(cfg, s, free, stamp);
    EntersVersion(cfg, u, free, stamp);
    RunUnfolds(cfg, s, 0, EMPTY.(state := PARSING_BEGIN_STRING), free, stamp);
    RunUnfolds(cfg, u, 0, EMPTY.(state := PARSING_BEGIN_STRING), free, stamp);
    VersionStep(cfg, s, free, stamp);
    VersionStep(cfg, u, free, stamp);
  }

  lemma EntersVersion(cfg: Config, s: string, free: nat, stamp: string)
    requires |s| >= 9 && s[..9] == "8=FIX.4.4"
    ensures Run(cfg, s, 0, EMPTY, free, stamp) ==
            Run(cfg, s, 0, EMPTY.(state := PARSING_BEGIN_STRING), free, stamp)
  {
    assert s[0..] == s && s[0..9] == "8=FIX.4.4";
    SearchIs(s, BEGIN_STRING, 0, 0);
    hide Search;
    RunUnfolds(cfg, s, 0, EMPTY, free, stamp);
  }

  lemma VersionStep(cfg: Config, s: string, free: nat, stamp: string)
    ensures var ctx := EMPTY.(state := PARSING_BEGIN_STRING); var r := HandleBeginString(s, ctx, free);
            && !Spins(s, 0, ctx, free)
            && (r.outcome.consumed == |s| || r.outcome.status == InvalidFormat ==>
                Step(cfg, s, 0, ctx, free, stamp) == Stop(r))
  {
    hide At, Find;
    assert s[0..] == s;
  }

  lemma RunUnfolds(cfg: Config, buf: string, pos: nat, ctx: Context, free: nat, stamp: string)
    requires pos <= |buf|
    ensures Run(cfg, buf, pos, ctx, free, stamp) ==
            if Spins(buf, pos, ctx, free) then Diverges else
            var t := Step(cfg, buf, pos, ctx, free, stamp);
            if t.Stop? then Ended(t.reply) else Run(cfg, buf, t.pos, t.ctx, free, stamp)
  {
    hide Step, Spins;
  }

  /** A turn that moved on does not turn on the spot when more bytes follow. */
  lemma SpinsAgree(cfg: Config, a: string, b: string, pos: nat, ctx: Context, free: nat, stamp: string)
    requires pos <= |a| && Calm(a, pos, ctx) && !Spins(a, pos, ctx, free)
    ensures var r := Handle(cfg, a[pos..], ctx, free, stamp);
            r.outcome.Returned? &&
                (r.ctx.state != ctx.state || r.outcome.consumed > 0 || r.outcome.status != NeedMoreData) ==>
              !Spins(a + b, pos, ctx, free)
  {
    if ctx.state == IDLE {
      var s := a[pos..];
      assert (a + b)[pos..] == s + b;
      hide At, Search;
      if Search(s, BEGIN_STRING, 0) < |s| { SearchExtends(s, b, BEGIN_STRING); }
    }
  }

  /** When a turn goes on, or stops elsewhere than it began, its handler did something. */
  lemma MovedOn(cfg: Config, buf: string, pos: nat, ctx: Context, free: nat, stamp: string)
    requires pos <= |buf| && Calm(buf, pos, ctx)
    ensures var t, r := Step(cfg, buf, pos, ctx, free, stamp), Handle(cfg, buf[pos..], ctx, free, stamp);
            var moved := r.outcome.Returned? &&
                         (r.ctx.state != ctx.state || r.outcome.consumed > 0 || r.outcome.status != NeedMoreData);
            && (t.Continue? ==> moved)
            && (t.Stop? && t.reply.outcome.Returned? && t.reply.outcome.status == NeedMoreData ==>
                  moved || (t.reply.outcome.consumed == pos && t.reply.ctx == ctx))
  {
    Statuses(cfg, buf[pos..], ctx, free, stamp);
    hide Handle;
  }

  lemma StopsInside(cfg: Config, buf: string, pos: nat, ctx: Context, free: nat, stamp: string)
    requires pos <= |buf|
    ensures var t := Step(cfg, buf, pos, ctx, free, stamp);
            t.Stop? && t.reply.outcome.Returned? && t.reply.outcome.status != Success ==>
                t.reply.outcome.consumed <= |buf|
  {
    hide Handle;
  }
}
