/** States, statuses and results shared by the framing stage, the decoders and the state machine. */
module ParserTypes {
  import opened Bytes

  datatype ParseState =
    | IDLE | PARSING_BEGIN_STRING | PARSING_BODY_LENGTH | PARSING_TAG | EXPECTING_EQUALS
    | PARSING_VALUE | EXPECTING_SOH | PARSING_CHECKSUM | MESSAGE_COMPLETE | ERROR_RECOVERY | CORRUPTED_SKIP

  datatype ParseStatus =
    | Success | NeedMoreData | FinishedParsingFields | InvalidFormat | ChecksumError | AllocationFailed
    | MessageTooLarge | UnsupportedVersion | StateTransitionError | FieldParseError | RecoverySuccess
    | CorruptedData

  /** How a parser call ends.  `Threw` is a C++ exception leaving the callee.  `Undefined` marks
      what C++ gives no meaning to: signed overflow, or looking at bytes that were never received. */
  datatype Outcome =
    | Returned(status: ParseStatus, consumed: nat, message: Option<FieldMap>, state: ParseState)
    | Threw
    | Undefined
  {
    predicate Ok() { Returned? && status == Success }
  }

  /** The parser's setters: `setMaxMessageSize`, `setValidateChecksum`, `setStrictValidation`, ... */
  datatype Config = Config(maxMessageSize: nat, validateChecksum: bool, strict: bool,
                           recovery: bool, maxConsecutiveErrors: nat)

  const BEGIN_STRING := "8=FIX.4.4"
  const PARTIAL_BUFFER_SIZE := 65536

  // Field tags the parsers name
  const TAG_BEGIN_STRING := 8
  const TAG_BODY_LENGTH := 9
  const TAG_CHECKSUM := 10
  const TAG_MSG_TYPE := 35
  const TAG_SENDING_TIME := 52

  /** `isValidStateTransition`. */
  predicate LegalTransition(from: ParseState, to: ParseState) {
    match from
    case IDLE => to in {PARSING_BEGIN_STRING, PARSING_BODY_LENGTH, ERROR_RECOVERY}
    case PARSING_BEGIN_STRING => to in {PARSING_BODY_LENGTH, ERROR_RECOVERY}
    case PARSING_BODY_LENGTH => to in {PARSING_TAG, ERROR_RECOVERY}
    case PARSING_TAG => to in {EXPECTING_EQUALS, ERROR_RECOVERY}
    case EXPECTING_EQUALS => to in {PARSING_VALUE, ERROR_RECOVERY}
    case PARSING_VALUE => to in {EXPECTING_SOH, ERROR_RECOVERY}
    case EXPECTING_SOH => to in {PARSING_TAG, PARSING_CHECKSUM, ERROR_RECOVERY}
    case PARSING_CHECKSUM => to in {MESSAGE_COMPLETE, ERROR_RECOVERY}
    case MESSAGE_COMPLETE => to == IDLE
    case ERROR_RECOVERY => to in {IDLE, CORRUPTED_SKIP}
    case CORRUPTED_SKIP => to in {IDLE, ERROR_RECOVERY}
  }

  /** `skipToNextPotentialMessage`: the loop bound is `length - 5` on an unsigned type, so the source
      relies on at least five bytes. */
  function SkipToNextPotentialMessage(s: string): (i: nat)
    requires |s| >= 5
    ensures i == |s| || (i < |s| - 5 && At(s, "8=FIX", i))
  {
    var i := Search(s, "8=FIX", 0);
    if i < |s| - 5 then i else |s|
  }

  /** What error recovery returns, and the state it leaves the context in. */
  datatype Recovery = Recovery(status: ParseStatus, skipped: nat, reported: ParseState, left: ParseState)

  /** `handleErrorRecovery`.  The scan is followed by a reset to IDLE and a request for the transition
      IDLE to IDLE, which the table refuses, so recovery never reports success. */
  function HandleErrorRecovery(s: string): (r: Recovery)
    requires |s| >= 5
    ensures r.status != RecoverySuccess && r.left == IDLE && r.skipped <= |s|
    ensures r.reported == IDLE <==> r.status == NeedMoreData
  {
    var skip := SkipToNextPotentialMessage(s);
    if skip >= |s| then Recovery(NeedMoreData, |s|, IDLE, IDLE)
    else if LegalTransition(IDLE, IDLE) then Recovery(RecoverySuccess, skip, IDLE, IDLE)
    else Recovery(StateTransitionError, skip, ERROR_RECOVERY, IDLE)
  }

  /** `attemptErrorRecovery`. */
  function AttemptErrorRecovery(state: ParseState, s: string): (r: Recovery)
    requires |s| >= 5
    ensures r.status != RecoverySuccess
    ensures r.left == if LegalTransition(state, ERROR_RECOVERY) then IDLE else state
  {
    if !LegalTransition(state, ERROR_RECOVERY) then Recovery(StateTransitionError, 0, state, state)
    else HandleErrorRecovery(s)
  }

  /** The transition table read backwards: where each state can be entered from. */
  lemma Predecessors(from: ParseState)
    ensures !LegalTransition(from, from)
    ensures LegalTransition(from, IDLE) <==> from in {MESSAGE_COMPLETE, ERROR_RECOVERY, CORRUPTED_SKIP}
    ensures LegalTransition(from, PARSING_BEGIN_STRING) <==> from == IDLE
    ensures LegalTransition(from, PARSING_BODY_LENGTH) <==> from in {IDLE, PARSING_BEGIN_STRING}
    ensures LegalTransition(from, PARSING_TAG) <==> from in {PARSING_BODY_LENGTH, EXPECTING_SOH}
    ensures LegalTransition(from, EXPECTING_EQUALS) <==> from == PARSING_TAG
    ensures LegalTransition(from, PARSING_VALUE) <==> from == EXPECTING_EQUALS
    ensures LegalTransition(from, EXPECTING_SOH) <==> from == PARSING_VALUE
    ensures LegalTransition(from, PARSING_CHECKSUM) <==> from == EXPECTING_SOH
    ensures LegalTransition(from, MESSAGE_COMPLETE) <==> from == PARSING_CHECKSUM
    ensures LegalTransition(from, ERROR_RECOVERY) <==> from !in {MESSAGE_COMPLETE, ERROR_RECOVERY}
    ensures LegalTransition(from, CORRUPTED_SKIP) <==> from == ERROR_RECOVERY
  {
  }

  /** Recovery cannot be entered from MESSAGE_COMPLETE or from itself, and then nothing is skipped. */
  lemma RecoveryRefused(state: ParseState, s: string)
    requires |s| >= 5 && state in {MESSAGE_COMPLETE, ERROR_RECOVERY}
    ensures AttemptErrorRecovery(state, s) == Recovery(StateTransitionError, 0, state, state)
  {
  }
}
