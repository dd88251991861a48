/** `StreamFixParser::parse`: one call per received chunk, with a carry-over buffer between calls. */
module StreamParser {
  import opened Bytes
  import opened ParserTypes
  import opened Framing
  import opened Decoders
  import opened FastDecoders

  /** What a call keeps for the next one: the carry-over bytes, the pool's free slots, the number of
      consecutive errors and the context's state. */
  datatype Memory = Memory(partial: string, free: nat, errors: nat, state: ParseState)

  /** What a call did: its result, what it kept, the messages it decoded on the way (only the last
      of these can reach the caller), and whether its `catch` block was entered. */
  datatype Call = Call(outcome: Outcome, memory: Memory, decoded: seq<FieldMap>, caught: bool)

  /** What every call keeps, on every input: no pool slot is lost except the one an exception passes
      by, and the context is back in IDLE. */
  predicate Kept(c: Call, k: Memory) {
    !c.outcome.Undefined? ==>
      && c.memory.free + |c.decoded| + (if c.caught then 1 else 0) == k.free
      && (k.state == IDLE ==> c.memory.state == IDLE)
      && (|k.partial| <= PARTIAL_BUFFER_SIZE ==> |c.memory.partial| <= PARTIAL_BUFFER_SIZE)
  }

  /** SendingTime stamps: by position in the buffer, then by allocation at that position. */
  type Clock = nat -> nat -> string

  /** `canRecoverFromError`. */
  predicate CanRecover(cfg: Config, status: ParseStatus, state: ParseState) {
    cfg.recovery && status in {InvalidFormat, FieldParseError, ChecksumError} && state != MESSAGE_COMPLETE
  }

  /** The context's state after an error, whether or not recovery is attempted. */
  function AfterError(cfg: Config, status: ParseStatus, reported: ParseState, state: ParseState, s: string): ParseState
    requires |s| >= 5
  {
    if CanRecover(cfg, status, reported) then AttemptErrorRecovery(state, s).left else state
  }

  function Cons(m: FieldMap, c: Call): Call {
    c.(decoded := [m] + c.decoded)
  }

  /** The framing and decoding loop over the bytes still ahead of the cursor. */
  function Drain(cfg: Config, rest: string, cursor: nat, k: Memory, last: Option<FieldMap>, clock: Clock): (c: Call)
    ensures Kept(c, k)
    decreases |rest|
  {
    if rest == "" then
      Call(if last.Some? then Returned(Success, cursor, last, IDLE) else Fail(NeedMoreData, cursor, IDLE),
           k.(partial := ""), [], false)
    else
      var f := FindCompleteMessage(cfg, rest);
      if f.FrameUndefined? then Call(Undefined, k, [], false)
      else if f.status == NeedMoreData then
        if |rest| > PARTIAL_BUFFER_SIZE then Call(Undefined, k, [], false)
        else Call(Fail(NeedMoreData, 0, f.state), k.(partial := rest), [], false)
      else if f.status != Success then
        Call(Fail(f.status, f.consumed, f.state),
             k.(partial := "", errors := k.errors + 1, state := AfterError(cfg, f.status, f.state, k.state, rest)),
                 [], false)
      else
        DecodeAt(cfg, rest, f, cursor, k, clock)
  }

  /** One framed message.  The cursor advances by the decoder's count, not by the frame. */
  function DecodeAt(cfg: Config, rest: string, f: Frame, cursor: nat, k: Memory, clock: Clock): (c: Call)
    requires f.Frame? && f.status == Success && f.start + 14 <= f.end <= |rest|
    ensures Kept(c, k)
    decreases |rest|, 0
  {
    var d := ParseCompleteMessage(cfg, rest[f.start..], f.end - f.start, k.free, clock(cursor));
    match d.outcome
    case Undefined => Call(Undefined, k, [], false)
    case Threw => Call(Fail(InvalidFormat, 0, ERROR_RECOVERY), k.(partial := "", free := d.free), [], true)
    case Returned(status, consumed, message, state) =>
      var k' := k.(free := d.free, partial := "");
      if status == Success then
        Cons(message.value,
             Drain(cfg, if consumed <= |rest| then rest[consumed..] else "", cursor + consumed,
                   k'.(errors := 0), message, clock))
      else
        Call(Fail(status, cursor + consumed, state),
             k'.(errors := if status == NeedMoreData then k.errors else k.errors + 1,
                 state := AfterError(cfg, status, state, k.state, rest[f.start..f.end])), [], false)
  }

  /** One turn of the loop, as `Drain` takes it. */
  lemma DrainUnfolds(cfg: Config, rest: string, cursor: nat, k: Memory, last: Option<FieldMap>, clock: Clock)
    ensures Drain(cfg, rest, cursor, k, last, clock) ==
      if rest == "" then
        Call(if last.Some? then Returned(Success, cursor, last, IDLE) else Fail(NeedMoreData, cursor, IDLE),
             k.(partial := ""), [], false)
      else
        var f := FindCompleteMessage(cfg, rest);
        if f.FrameUndefined? then Call(Undefined, k, [], false)
        else if f.status == NeedMoreData then
          if |rest| > PARTIAL_BUFFER_SIZE then Call(Undefined, k, [], false)
          else Call(Fail(NeedMoreData, 0, f.state), k.(partial := rest), [], false)
        else if f.status != Success then
          Call(Fail(f.status, f.consumed, f.state),
               k.(partial := "", errors := k.errors + 1, state := AfterError(cfg, f.status, f.state, k.state, rest)),
                   [], false)
        else
          DecodeAt(cfg, rest, f, cursor, k, clock)
  {
  }

  /** One call of `parse`. */
  function Parse(cfg: Config, k: Memory, chunk: string, clock: Clock): (c: Call)
    ensures Kept(c, k)
  {
    if chunk == "" then Call(Fail(InvalidFormat, 0, IDLE), k, [], false)
    else if BreakerOpen(cfg, k) then Call(Fail(CorruptedData, 0, ERROR_RECOVERY), k, [], false)
    else if k.partial != "" && |k.partial| + |chunk| > PARTIAL_BUFFER_SIZE then
      Call(Fail(MessageTooLarge, 0, ERROR_RECOVERY), k, [], false)
    else Drain(cfg, k.partial + chunk, 0, k, None, clock)
  }

  /** `isCircuitBreakerActive`: the flag is never raised, so only the error count matters. */
  predicate BreakerOpen(cfg: Config, k: Memory) {
    cfg.recovery && k.errors >= cfg.maxConsecutiveErrors
  }

  /** Recovery, where it is switched on and the error is one of the recoverable three, takes every state but
      MESSAGE_COMPLETE and ERROR_RECOVERY to IDLE; without it nothing moves. */
  lemma AfterErrorMeaning(cfg: Config, status: ParseStatus, reported: ParseState, state: ParseState, s: string)
    requires |s| >= 5
    ensures AfterError(cfg, status, reported, state, s) ==
            if && cfg.recovery && reported != MESSAGE_COMPLETE
               && (status == InvalidFormat || status == FieldParseError || status == ChecksumError)
               && state != MESSAGE_COMPLETE && state != ERROR_RECOVERY
            then IDLE else state
  {
  }

  // ---------------------------------------------------------------- the error count and the breaker

  /** The call ended in an error that is counted: not for want of data, and not through an exception. */
  predicate Failed(c: Call) {
    c.outcome.Returned? && c.outcome.status != Success && c.outcome.status != NeedMoreData && !c.caught
  }

  /** Every decoded message sets the count back, and an error adds one. */
  lemma {:induction false} DrainErrors(cfg: Config, rest: string, cursor: nat, k: Memory, last: Option<FieldMap>,
      clock: Clock)
    ensures var c := Drain(cfg, rest, cursor, k, last, clock);
            !c.outcome.Undefined? ==>
              c.memory.errors == (if c.decoded == [] then k.errors else 0) + if Failed(c) then 1 else 0
    decreases |rest|
  {
    hide Drain, Kept, ParseCompleteMessage, FindCompleteMessage, AfterError;
    DrainUnfolds(cfg, rest, cursor, k, last, clock);
    if rest != "" {
      var f := FindCompleteMessage(cfg, rest);
      if f.Frame? && f.status == Success {
        var d := ParseCompleteMessage(cfg, rest[f.start..], f.end - f.start, k.free, clock(cursor));
        if d.outcome.Ok() {
          var n := d.outcome.consumed;
          DrainErrors(cfg, if n <= |rest| then rest[n..] else "", cursor + n,
                      k.(free := d.free, partial := "", errors := 0), d.outcome.message, clock);
        }
      }
    }
  }

  /** The error count over one call.  A call that is refused outright changes nothing; an open breaker
      refuses every call. */
  lemma ErrorsCounted(cfg: Config, k: Memory, chunk: string, clock: Clock)
    ensures var c := Parse(cfg, k, chunk, clock); var open := cfg.recovery && k.errors >= cfg.maxConsecutiveErrors;
            if chunk == "" || open || (k.partial != "" && |k.partial| + |chunk| > 65536) then
              && c.memory == k && c.decoded == []
              && (chunk == "" ==> c.outcome == Fail(InvalidFormat, 0, IDLE))
              && (chunk != "" && open ==> c.outcome == Fail(CorruptedData, 0, ERROR_RECOVERY))
              && (chunk != "" && !open ==> c.outcome == Fail(MessageTooLarge, 0, ERROR_RECOVERY))
            else
              !c.outcome.Undefined? ==>
                c.memory.errors == (if c.decoded == [] then k.errors else 0) + if Failed(c) then 1 else 0
  {
    hide Drain, Kept;
    DrainErrors(cfg, k.partial + chunk, 0, k, None, clock);
  }
}
