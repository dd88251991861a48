/** The incremental parser `processStateMachine`: eleven states, one handler each, and the loop that
    drives them. */
module StateMachine {
  import opened Bytes
  import opened ParserTypes
  import opened Decoders
  import opened WireFormat
  import opened FieldLists

  /** `ParseContext`, without its error reporting. */
  datatype Context = Context(state: ParseState, expected: nat, tag: nat, value: string, parsed: seq<Field>,
      bodyBytes: nat)

  const EMPTY := Context(IDLE, 0, 0, "", [], 0)

  /** A handler's result, the context it leaves and the pool's free slots. */
  datatype Reply = Reply(outcome: Outcome, ctx: Context, free: nat)

  function More(consumed: nat, ctx: Context, free: nat): Reply {
    Reply(Fail(NeedMoreData, consumed, ctx.state), ctx, free)
  }

  function Error(status: ParseStatus, consumed: nat, ctx: Context, free: nat): Reply {
    Reply(Fail(status, consumed, ERROR_RECOVERY), ctx, free)
  }

  // ---------------------------------------------------------------- handlers

  function HandleIdle(s: string, ctx: Context, free: nat): Reply {
    if |s| < 9 then More(0, ctx, free) else
    var i := Search(s, BEGIN_STRING, 0);
    if i == |s| then
      if |s| > 512 then
        var r := AttemptErrorRecovery(ctx.state, s);
        Reply(Fail(r.status, r.skipped, r.reported),
              if LegalTransition(ctx.state, ERROR_RECOVERY) then EMPTY else ctx, free)
      else More(0, ctx, free)
    else if i > 0 then More(i, ctx, free)
    else More(0, ctx.(state := PARSING_BEGIN_STRING), free)
  }

  function HandleBeginString(s: string, ctx: Context, free: nat): Reply {
    if |s| < 10 || !At(s, BEGIN_STRING, 0) || Find(s, SOH, 9) == |s| then Error(InvalidFormat, 0, ctx, free)
    else More(Find(s, SOH, 9) + 1, ctx.(state := PARSING_BODY_LENGTH), free)
  }

  function HandleBodyLength(cfg: Config, s: string, ctx: Context, free: nat): Reply {
    if |s| < 3 || s[0] != '9' || s[1] != '=' || Find(s, SOH, 2) == |s| then Error(InvalidFormat, 0, ctx, free) else
    var e := Find(s, SOH, 2);
    match ParseInt(s[2..e])
    case NotANumber => Error(InvalidFormat, 0, ctx, free)
    case Overflow => Reply(Undefined, ctx, free)
    case Number(n) =>
      if n == 0 || n > cfg.maxMessageSize then Error(InvalidFormat, 0, ctx, free)
      else More(e + 1, ctx.(state := PARSING_TAG, expected := n), free)
  }

  function HandleTag(s: string, ctx: Context, free: nat): Reply {
    var e := Find(s, '=', 0);
    if e == |s| then (if |s| > 10 then Error(InvalidFormat, 0, ctx, free) else More(0, ctx, free))
    else if e == 0 then Error(InvalidFormat, 0, ctx, free)
    else match ParseInt(s[..e])
      case NotANumber => Error(FieldParseError, e, ctx, free)
      case Overflow => Reply(Undefined, ctx, free)
      case Number(tag) =>
        if !(0 < tag <= 99999) then Error(FieldParseError, e, ctx, free)
        else More(e, ctx.(state := EXPECTING_EQUALS, tag := tag), free)
  }

  function HandleEquals(s: string, ctx: Context, free: nat): Reply {
    if s == "" then More(0, ctx, free)
    else if s[0] != '=' then Error(InvalidFormat, 0, ctx, free)
    else More(1, ctx.(state := PARSING_VALUE), free)
  }

  function HandleValue(s: string, ctx: Context, free: nat): Reply {
    var e := Find(s, SOH, 0);
    if e == |s| then More(0, ctx, free) else More(e, ctx.(state := EXPECTING_SOH, value := s[..e]), free)
  }

  function HandleSoh(s: string, ctx: Context, free: nat): Reply {
    if s == "" then More(0, ctx, free)
    else if s[0] != SOH then Error(InvalidFormat, 0, ctx, free)
    else
      var bytes := ctx.bodyBytes + |Dec(ctx.tag)| + 1 + |ctx.value| + 1;
      More(1, Context(if bytes >= ctx.expected then PARSING_CHECKSUM else PARSING_TAG, ctx.expected, 0, "",
                      ctx.parsed + [Field(ctx.tag, ctx.value)], bytes), free)
  }

  function HandleChecksum(s: string, ctx: Context, free: nat): Reply {
    if |s| < 5 then More(0, ctx, free)
    else if !At(s, "10=", 0) then Error(InvalidFormat, 0, ctx, free)
    else
      var e := Find(s, SOH, 3);
      if e == |s| then More(0, ctx, free)
      else if e == 3 then Error(InvalidFormat, 3, ctx, free)
      else if e != 6 || !AllDigits(s[3..6]) then Error(InvalidFormat, e, ctx, free)
      else Reply(Fail(FinishedParsingFields, 7, MESSAGE_COMPLETE),
                 ctx.(state := MESSAGE_COMPLETE, parsed := ctx.parsed + [Field(TAG_CHECKSUM, s[3..6])]), free)
  }

  /** `std::find_if`: the first field with the tag. */
  function First(fs: seq<Field>, tag: int): Option<string> {
    if fs == [] then None else if fs[0].tag == tag then Some(fs[0].value) else First(fs[1..], tag)
  }

  function Without(fs: seq<Field>, tag: int): seq<Field> {
    if fs == [] then [] else (if fs[0].tag == tag then [] else [fs[0]]) + Without(fs[1..], tag)
  }

  /** The bytes the checksum is taken over, put together again from the parsed fields. */
  function Rebuilt(ctx: Context): string {
    Header(ctx.expected) + RenderAll(Without(ctx.parsed, TAG_CHECKSUM))
  }

  function Assembled(ctx: Context, stamp: string): FieldMap {
    var m := SetAll(Fresh(stamp), ctx.parsed)[TAG_BEGIN_STRING := "FIX.4.4"][TAG_BODY_LENGTH := Dec(ctx.expected)];
    var t := First(ctx.parsed, TAG_MSG_TYPE);
    if t.Some? then m[TAG_MSG_TYPE := t.value] else m
  }

  function HandleComplete(cfg: Config, ctx: Context, free: nat, stamp: string): Reply {
    if free == 0 then Error(AllocationFailed, 0, ctx, free) else
    var c := First(ctx.parsed, TAG_CHECKSUM);
    var total := 9 + 1 + |Dec(ctx.expected)| + 3 + ctx.expected + 7;
    var accepted := Reply(Returned(Success, total, Some(Assembled(ctx, stamp)), IDLE), EMPTY, free - 1);
    if !cfg.validateChecksum || c.None? then accepted else
    var received := Stoi(c.value);
    if received.None? then Reply(Threw, ctx, free - 1)
    else if ByteSum(Rebuilt(ctx)) != received.value % 256 then Error(ChecksumError, 0, ctx, free)
    else accepted
  }

  function HandleRecovery(s: string, ctx: Context, free: nat): Reply {
    if |s| < 5 then Reply(Undefined, ctx, free) else
    var r := HandleErrorRecovery(s);
    Reply(Fail(r.status, r.skipped, r.reported), EMPTY, free)
  }

  function Handle(cfg: Config, s: string, ctx: Context, free: nat, stamp: string): (r: Reply)
    ensures r.outcome.Returned? && r.outcome.status != Success ==> r.outcome.consumed <= |s|
  {
    match ctx.state
    case IDLE => HandleIdle(s, ctx, free)
    case PARSING_BEGIN_STRING => HandleBeginString(s, ctx, free)
    case PARSING_BODY_LENGTH => HandleBodyLength(cfg, s, ctx, free)
    case PARSING_TAG => HandleTag(s, ctx, free)
    case EXPECTING_EQUALS => HandleEquals(s, ctx, free)
    case PARSING_VALUE => HandleValue(s, ctx, free)
    case EXPECTING_SOH => HandleSoh(s, ctx, free)
    case PARSING_CHECKSUM => HandleChecksum(s, ctx, free)
    case MESSAGE_COMPLETE => HandleComplete(cfg, ctx, free, stamp)
    case ERROR_RECOVERY => HandleRecovery(s, ctx, free)
    case CORRUPTED_SKIP => HandleRecovery(s, ctx, free)
  }

  // ---------------------------------------------------------------- the loop

  datatype Turn = Stop(reply: Reply) | Continue(pos: nat, ctx: Context)

  /** One turn: which statuses return, and which go round again. */
  function Step(cfg: Config, buf: string, pos: nat, ctx: Context, free: nat, stamp: string): (t: Turn)
    requires pos <= |buf|
    ensures t.Continue? ==> pos <= t.pos <= |buf|
  {
    var r := Handle(cfg, buf[pos..], ctx, free, stamp);
    match r.outcome
    case Threw => Stop(r)
    case Undefined => Stop(r)
    case Returned(status, consumed, message, state) =>
      var total := pos + consumed;
      var changed := r.ctx.state != ctx.state;
      if status in {Success, RecoverySuccess, InvalidFormat, ChecksumError, FieldParseError}
         || (status == NeedMoreData && (total >= |buf| || (consumed == 0 && !changed)))
      then Stop(r.(outcome := Returned(status, total, message, state)))
      else Continue(total, r.ctx)
  }

  /** Every turn that goes on keeps the state or makes a transition the table allows; from every
      configuration, reachable or not. */
  lemma StepsAreLegal(cfg: Config, buf: string, pos: nat, ctx: Context, free: nat, stamp: string)
    requires pos <= |buf|
    ensures var t := Step(cfg, buf, pos, ctx, free, stamp);
            t.Continue? ==> t.ctx.state == ctx.state || LegalTransition(ctx.state, t.ctx.state)
  {
    hide Find, Search, ParseInt, At, SkipToNextPotentialMessage;
  }

  function Rank(s: ParseState): nat {
    match s
    case ERROR_RECOVERY => 3
    case CORRUPTED_SKIP => 3
    case IDLE => 2
    case PARSING_BEGIN_STRING => 1
    case PARSING_VALUE => 1
    case _ => 0
  }

  /** The configurations in which the loop turns on the spot: a completed message with no pool slot
      left, and more than 512 bytes that start with "8=FIX" and hold no "8=FIX.4.4". */
  predicate Spins(buf: string, pos: nat, ctx: Context, free: nat)
    requires pos <= |buf|
  {
    || (ctx.state == MESSAGE_COMPLETE && free == 0)
    || (ctx.state == IDLE && |buf| - pos > 512 && At(buf[pos..], "8=FIX", 0)
        && Search(buf[pos..], BEGIN_STRING, 0) == |buf| - pos)
  }

  /** Termination, both ways and from every configuration: a turn that goes on either brings
      (remaining bytes, rank of the state) down, or it is one of the spinning configurations and
      comes back to the same place. */
  lemma ProgressOrSpin(cfg: Config, buf: string, pos: nat, ctx: Context, free: nat, stamp: string)
    requires pos <= |buf|
    ensures var t := Step(cfg, buf, pos, ctx, free, stamp);
            if Spins(buf, pos, ctx, free) then
              t.Continue? && t.pos == pos && t.ctx.state == ctx.state && Spins(buf, t.pos, t.ctx, free)
            else
              t.Continue? ==> t.pos > pos || Rank(t.ctx.state) < Rank(ctx.state)
  {
    hide Find, ParseInt, At, LegalTransition;
    if ctx.state == IDLE { IdleProgress(buf, pos, ctx, free); }
  }

  lemma IdleProgress(buf: string, pos: nat, ctx: Context, free: nat)
    requires pos <= |buf| && ctx.state == IDLE
    ensures var s := buf[pos..]; var r := HandleIdle(s, ctx, free);
            && r.outcome.Returned?
            && (Spins(buf, pos, ctx, free) ==>
                r.outcome.status == StateTransitionError && r.outcome.consumed == 0 && r.ctx.state == IDLE)
            && (!Spins(buf, pos, ctx, free) && r.outcome.status != NeedMoreData ==> r.outcome.consumed > 0)
            && (r.outcome.status == NeedMoreData && r.outcome.consumed == 0 ==>
                r.ctx.state in {IDLE, PARSING_BEGIN_STRING})
  {
    var s := buf[pos..];
    if |s| >= 9 && Search(s, BEGIN_STRING, 0) == |s| && |s| > 512 {
      var i := Search(s, "8=FIX", 0);
      assert At(s, "8=FIX", 0) <==> i == 0;
    }
  }

  /** Where a run ends: at a return of the loop, or never. */
  datatype Ending = Ended(reply: Reply) | Diverges

  function Run(cfg: Config, buf: string, pos: nat, ctx: Context, free: nat, stamp: string): Ending
    requires pos <= |buf|
    decreases |buf| - pos, Rank(ctx.state)
  {
    if Spins(buf, pos, ctx, free) then Diverges else
    ProgressOrSpin(cfg, buf, pos, ctx, free, stamp);
    match Step(cfg, buf, pos, ctx, free, stamp)
    case Stop(r) => Ended(r)
    case Continue(pos', ctx') => Run(cfg, buf, pos', ctx', free, stamp)
  }

  /** The driving loop.  Where the source turns on the spot for ever, this one says so and stops. */
  method ProcessStateMachine(cfg: Config, buf: string, start: Context, free: nat, stamp: string) returns (r: Ending)
    ensures r == Run(cfg, buf, 0, start, free, stamp)
  {
    hide Step, Spins;
    var pos, ctx := 0, start;
    while !Spins(buf, pos, ctx, free)
      invariant pos <= |buf|
      invariant Run(cfg, buf, pos, ctx, free, stamp) == Run(cfg, buf, 0, start, free, stamp)
      decreases |buf| - pos, Rank(ctx.state)
    {
      ProgressOrSpin(cfg, buf, pos, ctx, free, stamp);
      var t := Step(cfg, buf, pos, ctx, free, stamp);
      if t.Stop? { return Ended(t.reply); }
      pos, ctx := t.pos, t.ctx;
    }
    r := Diverges;
  }

  // ---------------------------------------------------------------- well-formed messages

  /** A body the machine takes field by field: canonical tags within its bound, each once, and none of
      the three tags it handles itself. */
  predicate MachineBody(fs: seq<Field>) {
    && (forall i :: 0 <= i < |fs| ==> 0 < fs[i].tag <= 99999 && SohFree(fs[i].value))
    && DistinctTags(fs)
    && !HasTag(fs, TAG_BEGIN_STRING) && !HasTag(fs, TAG_BODY_LENGTH) && !HasTag(fs, TAG_CHECKSUM)
  }

  /** The configuration in front of the next field: `done` stored and counted, `rest` ahead. */
  function Between(n: nat, done: seq<Field>, state: ParseState): Context {
    Context(state, n, 0, "", done, |RenderAll(done)|)
  }

  /** A handler that asks for more with bytes left: the loop goes on behind what it took. */
  lemma GoesOn(cfg: Config, buf: string, pos: nat, ctx: Context, consumed: nat, next: Context, free: nat, stamp: string)
    requires pos + consumed < |buf| && next.state != ctx.state && !Spins(buf, pos, ctx, free)
    requires Handle(cfg, buf[pos..], ctx, free, stamp) == More(consumed, next, free)
    ensures Run(cfg, buf, pos, ctx, free, stamp) == Run(cfg, buf, pos + consumed, next, free, stamp)
  {
    hide Handle;
  }

  /** Two turns take a tag and its '='. */
  lemma TagTurns(cfg: Config, buf: string, pos: nat, ctx: Context, e: nat, tag: nat, free: nat, stamp: string)
    requires pos + e + 1 < |buf| && ctx.state == PARSING_TAG && 0 < e && 0 < tag <= 99999
    requires Find(buf[pos..], '=', 0) == e && ParseInt(buf[pos..][..e]) == Number(tag)
    ensures Run(cfg, buf, pos, ctx, free, stamp) ==
            Run(cfg, buf, pos + e + 1, ctx.(state := PARSING_VALUE, tag := tag), free, stamp)
  {
    hide ParseInt, Run, Find, Handle;
    var c1 := ctx.(state := EXPECTING_EQUALS, tag := tag);
    TagHandled(cfg, buf[pos..], ctx, e, tag, free, stamp);
    GoesOn(cfg, buf, pos, ctx, e, c1, free, stamp);
    assert buf[pos + e..][0] == buf[pos..][e] == '=';
    EqualsHandled(cfg, buf[pos + e..], c1, free, stamp);
    GoesOn(cfg, buf, pos + e, c1, 1, c1.(state := PARSING_VALUE), free, stamp);
  }

  /** Two turns take a value and its SOH. */
  lemma ValueTurns(cfg: Config, buf: string, pos: nat, ctx: Context, v: string, free: nat, stamp: string)
    requires pos + |v| + 1 < |buf| && ctx.state == PARSING_VALUE
    requires Find(buf[pos..], SOH, 0) == |v| && buf[pos..][..|v|] == v
    ensures var bytes := ctx.bodyBytes + |Dec(ctx.tag)| + 1 + |v| + 1;
            var next := Context(if bytes >= ctx.expected then PARSING_CHECKSUM else PARSING_TAG, ctx.expected, 0, "",
                                ctx.parsed + [Field(ctx.tag, v)], bytes);
            Run(cfg, buf, pos, ctx, free, stamp) == Run(cfg, buf, pos + |v| + 1, next, free, stamp)
  {
    hide Dec, Run, Find, Handle;
    var c3 := ctx.(state := EXPECTING_SOH, value := v);
    ValueHandled(cfg, buf[pos..], ctx, v, free, stamp);
    GoesOn(cfg, buf, pos, ctx, |v|, c3, free, stamp);
    assert buf[pos + |v|..][0] == buf[pos..][|v|] == SOH;
    var bytes := ctx.bodyBytes + |Dec(ctx.tag)| + 1 + |v| + 1;
    SohHandled(cfg, buf[pos + |v|..], c3, free, stamp);
    GoesOn(cfg, buf, pos + |v|, c3, 1,
        Context(if bytes >= ctx.expected then PARSING_CHECKSUM else PARSING_TAG, ctx.expected, 0, "",
                                ctx.parsed + [Field(ctx.tag, v)], bytes), free, stamp);
  }

  /** Tag, '=', value, SOH: four turns take one field. */
  lemma FieldTurns(cfg: Config, buf: string, pos: nat, n: nat, done: seq<Field>, f: Field, rest: string, free: nat,
      stamp: string)
    requires pos <= |buf| && buf[pos..] == Render(f) + rest && rest != ""
    requires 0 < f.tag <= 99999 && SohFree(f.value)
    ensures pos + |Render(f)| <= |buf| && buf[pos + |Render(f)|..] == rest
    ensures var next := Context(if |RenderAll(done)| + |Render(f)| >= n then PARSING_CHECKSUM else PARSING_TAG,
                                n, 0, "", done + [f], |RenderAll(done)| + |Render(f)|);
            Run(cfg, buf, pos, Between(n, done, PARSING_TAG), free, stamp) ==
                Run(cfg, buf, pos + |Render(f)|, next, free, stamp)
  {
    hide Dec, ParseInt, RenderAll, Run, Render, SohFree, Find;
    var v, e := f.value, |Dec(f.tag)|;
    FieldString(buf[pos..], f, rest);
    SuffixOfSuffix(buf, pos, e + 1);
    SuffixOfSuffix(buf, pos, |Render(f)|);
    var c0 := Between(n, done, PARSING_TAG);
    TagTurns(cfg, buf, pos, c0, e, f.tag, free, stamp);
    ValueTurns(cfg, buf, pos + e + 1, c0.(state := PARSING_VALUE, tag := f.tag), v, free, stamp);
  }

  lemma FieldString(s: string, f: Field, rest: string)
    requires s == Render(f) + rest && 0 < f.tag <= 99999 && SohFree(f.value)
    ensures var v, e := f.value, |Dec(f.tag)|;
            && e > 0 && |Render(f)| == e + |v| + 2 && |s| == e + 2 + |v| + |rest|
            && Find(s, '=', 0) == e && ParseInt(s[..e]) == Number(f.tag)
            && Find(s[e + 1..], SOH, 0) == |v| && s[e + 1..][..|v|] == v
            && s[|Render(f)|..] == rest
  {
    hide Dec, ParseInt, SohFree, Find;
    var d, v := Dec(f.tag), f.value;
    ParseIntDec(f.tag);
    Delimiters(d, v, rest);
    ValueTurn(s, |d|, v);
  }

  lemma SuffixOfSuffix(buf: string, pos: nat, k: nat)
    requires pos + k <= |buf|
    ensures buf[pos..][k..] == buf[pos + k..]
  {
  }

  lemma TagHandled(cfg: Config, s: string, ctx: Context, e: nat, tag: nat, free: nat, stamp: string)
    requires ctx.state == PARSING_TAG && Find(s, '=', 0) == e && 0 < e < |s| && ParseInt(s[..e]) == Number(tag) &&
            0 < tag <= 99999
    ensures Handle(cfg, s, ctx, free, stamp) == More(e, ctx.(state := EXPECTING_EQUALS, tag := tag), free)
  {
  }

  lemma EqualsHandled(cfg: Config, s: string, ctx: Context, free: nat, stamp: string)
    requires ctx.state == EXPECTING_EQUALS && s != "" && s[0] == '='
    ensures Handle(cfg, s, ctx, free, stamp) == More(1, ctx.(state := PARSING_VALUE), free)
  {
  }

  lemma ValueHandled(cfg: Config, s: string, ctx: Context, v: string, free: nat, stamp: string)
    requires ctx.state == PARSING_VALUE && Find(s, SOH, 0) == |v| < |s| && s[..|v|] == v
    ensures Handle(cfg, s, ctx, free, stamp) == More(|v|, ctx.(state := EXPECTING_SOH, value := v), free)
  {
  }

  lemma SohHandled(cfg: Config, s: string, ctx: Context, free: nat, stamp: string)
    requires ctx.state == EXPECTING_SOH && s != "" && s[0] == SOH
    ensures var bytes := ctx.bodyBytes + |Dec(ctx.tag)| + 1 + |ctx.value| + 1;
            Handle(cfg, s, ctx, free, stamp) ==
            More(1, Context(if bytes >= ctx.expected then PARSING_CHECKSUM else PARSING_TAG, ctx.expected, 0, "",
                            ctx.parsed + [Field(ctx.tag, ctx.value)], bytes), free)
  {
    hide Dec;
  }

  lemma ValueTurn(s: string, e: nat, v: string)
    requires e + 1 + |v| < |s| && Find(s, SOH, e + 1) == e + 1 + |v| && s[e + 1..e + 1 + |v|] == v
    ensures var t := s[e + 1..]; Find(t, SOH, 0) == |v| < |t| && t[..|v|] == v
  {
    var t := s[e + 1..];
    FindIs(t, SOH, 0, |v|);
    assert t[..|v|] == s[e + 1..e + 1 + |v|];
  }

  /** The body, field by field: the count of body bytes reaches BodyLength exactly behind the last
      field, and there the machine turns to the checksum. */
  lemma {:induction false} BodyTurns(cfg: Config, buf: string, pos: nat, n: nat, done: seq<Field>, fs: seq<Field>,
      rest: string, free: nat, stamp: string)
    requires pos <= |buf| && buf[pos..] == RenderAll(fs) + rest && rest != "" && fs != []
    requires forall i :: 0 <= i < |fs| ==> 0 < fs[i].tag <= 99999 && SohFree(fs[i].value)
    requires n == |RenderAll(done)| + |RenderAll(fs)|
    ensures pos + |RenderAll(fs)| <= |buf| && buf[pos + |RenderAll(fs)|..] == rest
    ensures Run(cfg, buf, pos, Between(n, done, PARSING_TAG), free, stamp)
         == Run(cfg, buf, pos + |RenderAll(fs)|, Between(n, done + fs, PARSING_CHECKSUM), free, stamp)
    decreases |fs|
  {
    hide Run, Render, SohFree, RenderAll;
    var f, tail := fs[0], fs[1..];
    RenderSnoc(done, f);
    RenderCons(fs);
    Assoc(Render(f), RenderAll(tail), rest);
    FieldTurns(cfg, buf, pos, n, done, f, RenderAll(tail) + rest, free, stamp);
    assert done + [f] + tail == done + fs;
    if tail == [] {
      NothingRendered();
      assert RenderAll(tail) + rest == rest;
      assert done + [f] == done + fs;
    } else {
      RenderedNotEmpty(tail);
      BodyTurns(cfg, buf, pos + |Render(f)|, n, done + [f], tail, rest, free, stamp);
    }
  }

  lemma RenderSnoc(done: seq<Field>, f: Field)
    ensures RenderAll(done + [f]) == RenderAll(done) + Render(f)
  {
    hide Render;
    RenderAllConcat(done, [f]);
    RenderTwo(f, f);
  }

  lemma RenderCons(fs: seq<Field>)
    requires fs != []
    ensures RenderAll(fs) == Render(fs[0]) + RenderAll(fs[1..])
  {
  }

  lemma RenderedNotEmpty(fs: seq<Field>)
    requires fs != []
    ensures |RenderAll(fs)| > 0
  {
  }

  /** Three turns take the header. */
  lemma HeaderTurns(cfg: Config, n: nat, rest: string, free: nat, stamp: string)
    requires 0 < n <= cfg.maxMessageSize && n <= INT_MAX && rest != ""
    ensures var buf := Header(n) + rest;
            Run(cfg, buf, 0, EMPTY, free, stamp) == Run(cfg, buf, |Header(n)|, Between(n, [], PARSING_TAG), free, stamp)
  {
    var buf, h := Header(n) + rest, |Header(n)|;
    HeaderShape(n, rest);
    ParseIntDec(n);
    hide Header, Dec, ParseInt, Run;
    assert buf[0..] == buf;
    SearchIs(buf, BEGIN_STRING, 0, 0);
    var c1 := EMPTY.(state := PARSING_BEGIN_STRING);
    var c2 := c1.(state := PARSING_BODY_LENGTH);
    GoesOn(cfg, buf, 0, EMPTY, 0, c1, free, stamp);
    FindIs(buf, SOH, 9, 9);
    GoesOn(cfg, buf, 0, c1, 10, c2, free, stamp);
    var s := buf[10..];
    FindIs(s, SOH, 2, h - 11);
    assert s[2..h - 11] == buf[12..h - 1] == Dec(n);
    assert s[0] == '9' && s[1] == '=';
    GoesOn(cfg, buf, 10, c2, h - 10, Between(n, [], PARSING_TAG), free, stamp);
  }

  /** The configuration once the trailer has been read. */
  function Completed(n: nat, fs: seq<Field>, ddd: string): Context {
    Between(n, fs, MESSAGE_COMPLETE).(parsed := fs + [Field(TAG_CHECKSUM, ddd)])
  }

  lemma TrailerTurn(cfg: Config, buf: string, pos: nat, n: nat, fs: seq<Field>, ddd: string, after: string, free: nat,
      stamp: string)
    requires pos <= |buf| && buf[pos..] == Trailer(ddd) + after && |ddd| == 3 && AllDigits(ddd)
    ensures pos + 7 <= |buf|
    ensures Run(cfg, buf, pos, Between(n, fs, PARSING_CHECKSUM), free, stamp)
         == Run(cfg, buf, pos + 7, Completed(n, fs, ddd), free, stamp)
  {
    hide RenderAll, Trailer, At, Find, AllDigits;
    var s := buf[pos..];
    TrailerFound(s, ddd, after);
    var c := Between(n, fs, PARSING_CHECKSUM);
    assert Handle(cfg, s, c, free, stamp).ctx == Completed(n, fs, ddd);
    assert Handle(cfg, s, c, free, stamp).outcome == Fail(FinishedParsingFields, 7, MESSAGE_COMPLETE);
    hide Handle;
  }

  lemma TrailerFound(s: string, ddd: string, after: string)
    requires s == Trailer(ddd) + after && |ddd| == 3 && AllDigits(ddd)
    ensures |s| >= 7 && At(s, "10=", 0) && Find(s, SOH, 3) == 6 && s[3..6] == ddd
  {
    TrailerShape("", ddd, after);
    assert s[6] == SOH && forall k :: 3 <= k < 6 ==> s[k] == s[3..6][k - 3];
    FindIs(s, SOH, 3, 6);
  }

  /** The bytes rebuilt for the checksum are the bytes received. */
  lemma RebuiltIsReceived(n: nat, fs: seq<Field>, ddd: string)
    requires !HasTag(fs, TAG_CHECKSUM)
    ensures Rebuilt(Completed(n, fs, ddd)) == Header(n) + RenderAll(fs)
    ensures First(fs + [Field(TAG_CHECKSUM, ddd)], TAG_CHECKSUM) == Some(ddd)
  {
    hide RenderAll, Header;
    FilterTrailer(fs, ddd);
  }

  lemma {:induction false} FilterTrailer(fs: seq<Field>, ddd: string)
    requires !HasTag(fs, TAG_CHECKSUM)
    ensures Without(fs + [Field(TAG_CHECKSUM, ddd)], TAG_CHECKSUM) == fs
    ensures First(fs + [Field(TAG_CHECKSUM, ddd)], TAG_CHECKSUM) == Some(ddd)
    decreases |fs|
  {
    var c := Field(TAG_CHECKSUM, ddd);
    if fs == [] {
      assert fs + [c] == [c] && [c][1..] == [];
    } else {
      assert fs == [fs[0]] + fs[1..];
      HasTagCons(fs[0], fs[1..], TAG_CHECKSUM);
      assert (fs + [c])[1..] == fs[1..] + [c];
      FilterTrailer(fs[1..], ddd);
    }
  }

  lemma {:induction false} FirstIsStored(fs: seq<Field>, rest: seq<Field>, t: int)
    requires DistinctTags(fs)
    ensures First(fs + rest, t) == if t in MapOf(fs) then Some(MapOf(fs)[t]) else First(rest, t)
    decreases |fs|
  {
    if fs == [] {
      assert fs + rest == rest;
    } else {
      MapOfCons(fs);
      NotInTail(fs);
      assert (fs + rest)[1..] == fs[1..] + rest;
      FirstIsStored(fs[1..], rest, t);
    }
  }

  /** The message assembled is the one the generic decoder collects. */
  lemma AssembledIsCollected(n: nat, fs: seq<Field>, ddd: string, stamp: string)
    requires MachineBody(fs)
    ensures Assembled(Completed(n, fs, ddd), stamp) == Collected(stamp, n, fs, ddd)
  {
    hide Dec, SetAll, HasTag, First, RenderAll, DistinctTags;
    var c, x, y := Field(TAG_CHECKSUM, ddd), HeaderFields(n)[0], HeaderFields(n)[1];
    var base, m := Fresh(stamp), MapOf(fs);
    assert TAG_BEGIN_STRING !in m && TAG_BODY_LENGTH !in m && TAG_CHECKSUM !in m by { MapOfLookup(fs); }
    SetAllConcat(base, fs, [c]);
    SetAllOverrides(base, fs);
    SetTwo(base + m, c, c);
    SetTwo(base, x, y);
    SetAllOverrides(base[x.tag := x.value][y.tag := y.value], fs);
    FirstIsStored(fs, [c], TAG_MSG_TYPE);
    assert First([c], TAG_MSG_TYPE) == None by { NoTypeInTrailer(c); }
    hide MapOf;
    var a := (base + m)[c.tag := c.value][x.tag := x.value][y.tag := y.value];
    assert a == (base[x.tag := x.value][y.tag := y.value] + m)[c.tag := c.value];
    assert TAG_MSG_TYPE in m ==> a[TAG_MSG_TYPE := m[TAG_MSG_TYPE]] == a;
  }

  lemma NoTypeInTrailer(c: Field)
    requires c.tag == TAG_CHECKSUM
    ensures First([c], TAG_MSG_TYPE) == None
  {
    assert [c][1..] == [];
  }

  /** A well-formed message is taken through to the end: every field stored, the checksum taken over
      the received bytes, the message handed out with exactly its fields.  The loop adds the handler's
      own total to what it had consumed already, so it reports twice the length; and with an empty
      pool it never returns. */
  lemma WellFormedRun(cfg: Config, fs: seq<Field>, ddd: string, after: string, free: nat, stamp: string)
    requires fs != [] && MachineBody(fs) && |ddd| == 3 && AllDigits(ddd)
    requires |RenderAll(fs)| <= cfg.maxMessageSize && |RenderAll(fs)| <= INT_MAX
    ensures var n := |RenderAll(fs)|; var frame := Header(n) + RenderAll(fs); var wire := |frame| + 7;
            Run(cfg, frame + (Trailer(ddd) + after), 0, EMPTY, free, stamp) ==
            if free == 0 then Diverges
            else if SumAccepted(cfg, frame, ddd) then
              Ended(Reply(Returned(Success, 2 * wire, Some(Collected(stamp, n, fs, ddd)), IDLE), EMPTY, free - 1))
            else
              Ended(Reply(Fail(ChecksumError, wire, ERROR_RECOVERY), Completed(n, fs, ddd), free))
  {
    hide Run, RenderAll, Header, Trailer, Collected, MachineBody, AllDigits, SumAccepted, Completed, SohFree;
    var n := |RenderAll(fs)|;
    var frame, rest := Header(n) + RenderAll(fs), Trailer(ddd) + after;
    var buf := frame + rest;
    MachineBodyFacts(fs);
    Assoc(Header(n), RenderAll(fs), rest);
    assert rest != "" by { TrailerShape("", ddd, after); }
    HeaderTurns(cfg, n, RenderAll(fs) + rest, free, stamp);
    assert buf[|Header(n)|..] == RenderAll(fs) + rest;
    assert |RenderAll([])| == 0 by { NothingRendered(); }
    BodyTurns(cfg, buf, |Header(n)|, n, [], fs, rest, free, stamp);
    assert [] + fs == fs;
    TrailerTurn(cfg, buf, |frame|, n, fs, ddd, after, free, stamp);
    CompleteTurn(cfg, buf, |frame| + 7, n, fs, ddd, free, stamp);
  }

  lemma NothingRendered()
    ensures |RenderAll([])| == 0
  {
  }

  lemma MachineBodyFacts(fs: seq<Field>)
    requires MachineBody(fs)
    ensures forall i :: 0 <= i < |fs| ==> 0 < fs[i].tag <= 99999 && SohFree(fs[i].value)
    ensures fs != [] ==> |RenderAll(fs)| > 0
  {
    if fs != [] { RenderedNotEmpty(fs); }
  }

  lemma CompleteTurn(cfg: Config, buf: string, pos: nat, n: nat, fs: seq<Field>, ddd: string, free: nat, stamp: string)
    requires pos <= |buf| && MachineBody(fs) && |ddd| == 3 && AllDigits(ddd)
    requires pos == |Header(n) + RenderAll(fs)| + 7 && n == |RenderAll(fs)|
    ensures var frame := Header(n) + RenderAll(fs);
            Run(cfg, buf, pos, Completed(n, fs, ddd), free, stamp) ==
            if free == 0 then Diverges
            else if SumAccepted(cfg, frame, ddd) then
              Ended(Reply(Returned(Success, 2 * pos, Some(Collected(stamp, n, fs, ddd)), IDLE), EMPTY, free - 1))
            else
              Ended(Reply(Fail(ChecksumError, pos, ERROR_RECOVERY), Completed(n, fs, ddd), free))
  {
    hide Header, RenderAll, Collected, MachineBody, SumAccepted, HandleComplete, AllDigits;
    var ctx := Completed(n, fs, ddd);
    if free > 0 {
      CompleteHandled(cfg, n, fs, ddd, free, stamp);
      assert Handle(cfg, buf[pos..], ctx, free, stamp) == HandleComplete(cfg, ctx, free, stamp);
      hide Handle;
    }
  }

  lemma CompleteHandled(cfg: Config, n: nat, fs: seq<Field>, ddd: string, free: nat, stamp: string)
    requires MachineBody(fs) && |ddd| == 3 && AllDigits(ddd) && free > 0 && n == |RenderAll(fs)|
    ensures var frame := Header(n) + RenderAll(fs); var ctx := Completed(n, fs, ddd);
            HandleComplete(cfg, ctx, free, stamp) ==
            if SumAccepted(cfg, frame, ddd) then
              Reply(Returned(Success, |frame| + 7, Some(Collected(stamp, n, fs, ddd)), IDLE), EMPTY, free - 1)
            else Reply(Fail(ChecksumError, 0, ERROR_RECOVERY), ctx, free)
  {
    HeaderShape(n, "");
    hide Header, RenderAll, Assembled, Collected, Rebuilt, ByteSum, Stoi, DecValue, First, Trailer, ChecksumMatches,
      DistinctTags, HasTag, SohFree;
    RebuiltIsReceived(n, fs, ddd);
    AssembledIsCollected(n, fs, ddd, stamp);
    ChecksumsAgree("", ddd);
  }

  /** The machine against the generic decoder on the same bytes: it accepts whatever `parseMessage`
      accepts, with the same fields; the generic decoder alone insists on a MsgType when strict. */
  lemma MachineRefinesGeneric(cfg: Config, fs: seq<Field>, ddd: string, free: nat, stamp: string)
    requires fs != [] && MachineBody(fs) && |ddd| == 3 && AllDigits(ddd) && free > 0
    requires |RenderAll(fs)| <= cfg.maxMessageSize && |RenderAll(fs)| <= INT_MAX
    ensures var s := Header(|RenderAll(fs)|) + RenderAll(fs) + Trailer(ddd);
            var run := Run(cfg, s, 0, EMPTY, free, stamp); var generic := ParseMessage(cfg, s, free, stamp);
            && run.Ended?
            && (generic.outcome.Ok() <==> run.reply.outcome.Ok() && (cfg.strict ==> HasTag(fs, TAG_MSG_TYPE)))
            && (generic.outcome.Ok() ==>
                generic.outcome.message == run.reply.outcome.message && generic.free == run.reply.free)
  {
    hide Run, Header, Trailer, Collected, MachineBody, AllDigits, SumAccepted, Completed, ParseMessage, RenderAll;
    var frame := Header(|RenderAll(fs)|) + RenderAll(fs);
    WellFormedRun(cfg, fs, ddd, "", free, stamp);
    assert Trailer(ddd) + "" == Trailer(ddd);
    GenericOnFields(cfg, fs, ddd, free, stamp);
  }

  lemma GenericOnFields(cfg: Config, fs: seq<Field>, ddd: string, free: nat, stamp: string)
    requires fs != [] && MachineBody(fs) && |ddd| == 3 && AllDigits(ddd) && free > 0
    ensures var n := |RenderAll(fs)|; var frame := Header(n) + RenderAll(fs);
            var d := ParseMessage(cfg, frame + Trailer(ddd), free, stamp);
            && (d.outcome.Ok() <==> SumAccepted(cfg, frame, ddd) && (cfg.strict ==> HasTag(fs, TAG_MSG_TYPE)))
            && (d.outcome.Ok() ==> d.outcome.message == Some(Collected(stamp, n, fs, ddd)) && d.free == free - 1)
  {
    hide Header, Trailer, Dec, RenderAll, ChecksumMatches, Tokenize, SetAll, ByteSum, DecValue, HasRequiredFields;
    var n := |RenderAll(fs)|;
    var frame, body := Header(n) + RenderAll(fs), RenderAll(fs);
    var all := HeaderFields(n) + fs;
    HeaderIsRendered(n);
    RenderAllConcat(HeaderFields(n), fs);
    MachineBodyPlain(n, fs);
    TokenizeRendered(all, Trailer(ddd), true, 0);
    TrailerAlone(ddd, |frame|);
    assert "" + Trailer(ddd) == Trailer(ddd);
    Assoc(HeaderFields(n), fs, [Field(TAG_CHECKSUM, ddd)]);
    ChecksumsAgree(frame, ddd);
    StoredAll(stamp, n, fs, ddd);
  }

  lemma MachineBodyPlain(n: nat, fs: seq<Field>)
    requires MachineBody(fs)
    ensures AllPlain(HeaderFields(n) + fs) && !HasTag(HeaderFields(n) + fs, TAG_CHECKSUM)
  {
    hide Dec;
    var h := HeaderFields(n);
    assert forall i :: 0 <= i < |fs| ==> (h + fs)[2 + i] == fs[i];
    assert forall i :: 2 <= i < |h + fs| ==> (h + fs)[i] == fs[i - 2];
  }

  lemma StoredAll(stamp: string, n: nat, fs: seq<Field>, ddd: string)
    requires MachineBody(fs)
    ensures SetAll(Fresh(stamp), HeaderFields(n) + fs + [Field(TAG_CHECKSUM, ddd)]) == Collected(stamp, n, fs, ddd)
    ensures HasRequiredFields(Collected(stamp, n, fs, ddd)) <==> HasTag(fs, TAG_MSG_TYPE)
  {
    hide Dec, SetAll, HasTag, DistinctTags;
    var c, x, y := Field(TAG_CHECKSUM, ddd), HeaderFields(n)[0], HeaderFields(n)[1];
    SetAllConcat(Fresh(stamp), HeaderFields(n) + fs, [c]);
    SetAllConcat(Fresh(stamp), HeaderFields(n), fs);
    SetTwo(SetAll(SetAll(Fresh(stamp), HeaderFields(n)), fs), c, c);
    SetTwo(Fresh(stamp), x, y);
    SetAllOverrides(SetAll(Fresh(stamp), HeaderFields(n)), fs);
    MapOfLookup(fs);
  }
}
