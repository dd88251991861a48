/** Stage 1 of `StreamFixParser::parse`: locating one message in a byte buffer. */
module Framing {
  import opened Bytes
  import opened ParserTypes

  /** `findCompleteMessage`: the status, the position it reports, and on success the frame
      `[start, end)`.  `located` says that "8=" was found. */
  datatype Frame = Frame(status: ParseStatus, consumed: nat, state: ParseState, start: nat, end: nat, located: bool)
                 | FrameUndefined

  function Incomplete(state: ParseState, located: bool): Frame {
    Frame(NeedMoreData, 0, state, 0, 0, located)
  }

  function Malformed(at: nat): Frame {
    Frame(InvalidFormat, at, ERROR_RECOVERY, 0, 0, true)
  }

  function FindCompleteMessage(cfg: Config, s: string): (r: Frame)
    ensures r.Frame? && r.status == Success ==> r.start + 14 <= r.end <= |s|
    ensures r.Frame? && r.status != NeedMoreData ==> |s| >= 10
    ensures r.Frame? ==> r.status in {Success, NeedMoreData, InvalidFormat}
  {
    if |s| < 10 then Incomplete(IDLE, false) else
    var begin := Search(s, "8=", 0);
    if begin == |s| then Frame(InvalidFormat, 0, IDLE, 0, 0, false)
    else if begin + |BEGIN_STRING| > |s| then Incomplete(PARSING_BEGIN_STRING, true)
    else if !At(s, BEGIN_STRING, begin) then Malformed(begin)
    else BeginString(cfg, s, begin)
  }

  /** The header from a recognised "8=FIX.4.4" on: its SOH, then "9=". */
  function BeginString(cfg: Config, s: string, begin: nat): (r: Frame)
    requires At(s, BEGIN_STRING, begin)
    ensures r.Frame? && r.status == Success ==> r.start + 14 <= r.end <= |s|
    ensures r.Frame? ==> r.status in {Success, NeedMoreData, InvalidFormat}
  {
    BeginStringHasNoSoh(s, begin);
    var soh := Find(s, SOH, begin);
    if soh == |s| then Incomplete(PARSING_BEGIN_STRING, true)
    else if soh + 5 > |s| then Incomplete(PARSING_BODY_LENGTH, true)
    else if s[soh + 1] != '9' || s[soh + 2] != '=' then Malformed(soh + 1)
    else BodyLength(cfg, s, begin, soh + 3)
  }

  lemma BeginStringHasNoSoh(s: string, begin: nat)
    requires At(s, BEGIN_STRING, begin)
    ensures Find(s, SOH, begin) >= begin + 9
  {
    assert forall k :: 0 <= k < 9 ==> s[begin + k] == s[begin..begin + 9][k] == BEGIN_STRING[k];
  }

  /** The BodyLength value starting at `at`, and the frame it implies: header plus BodyLength bytes. */
  function BodyLength(cfg: Config, s: string, begin: nat, at: nat): (r: Frame)
    requires begin + 12 <= at <= |s|
    ensures r.Frame? && r.status == Success ==> r.start + 14 <= r.end <= |s|
    ensures r.Frame? ==> r.status in {Success, NeedMoreData, InvalidFormat}
  {
    var end := Find(s, SOH, at);
    if end == |s| then Incomplete(PARSING_BODY_LENGTH, true) else
    match ParseInt(s[at..end])
    case NotANumber => Malformed(at)
    case Overflow => FrameUndefined
    case Number(n) =>
      if n == 0 || n > cfg.maxMessageSize then Malformed(at)
      else if end + 1 + n > |s| then Incomplete(PARSING_TAG, true)
      else Frame(Success, 0, IDLE, begin, end + 1 + n, true)
  }

  /** A verdict that appended bytes cannot change. */
  predicate Final(r: Frame) {
    r.FrameUndefined? || r.status == Success || (r.status == InvalidFormat && r.located)
  }

  /** Framing verdicts are stable: once a frame, a malformed header or an overflowing BodyLength
      has been seen, later bytes give the same verdict and the same bounds. */
  lemma StableUnderExtension(cfg: Config, s: string, t: string)
    requires Final(FindCompleteMessage(cfg, s))
    ensures FindCompleteMessage(cfg, s + t) == FindCompleteMessage(cfg, s)
  {
    var begin := Search(s, "8=", 0);
    SearchExtends(s, t, "8=");
    assert At(s + t, BEGIN_STRING, begin) == At(s, BEGIN_STRING, begin) by {
      assert (s + t)[begin..begin + 9] == s[begin..begin + 9];
    }
    if At(s, BEGIN_STRING, begin) {
      BeginStringStable(cfg, s, t, begin);
    }
  }

  lemma BeginStringStable(cfg: Config, s: string, t: string, begin: nat)
    requires At(s, BEGIN_STRING, begin) && At(s + t, BEGIN_STRING, begin)
    requires Final(BeginString(cfg, s, begin))
    ensures BeginString(cfg, s + t, begin) == BeginString(cfg, s, begin)
  {
    hide At, Find, BodyLength;
    FindExtends(s, t, SOH, begin);
    BeginStringHasNoSoh(s, begin);
    var soh := Find(s, SOH, begin);
    if s[soh + 1] == '9' && s[soh + 2] == '=' {
      BodyLengthStable(cfg, s, t, begin, soh + 3);
    }
  }

  lemma BodyLengthStable(cfg: Config, s: string, t: string, begin: nat, at: nat)
    requires begin + 12 <= at <= |s|
    requires Final(BodyLength(cfg, s, begin, at))
    ensures BodyLength(cfg, s + t, begin, at) == BodyLength(cfg, s, begin, at)
  {
    FindExtends(s, t, SOH, at);
    var end := Find(s, SOH, at);
    assert (s + t)[at..end] == s[at..end];
  }
}
