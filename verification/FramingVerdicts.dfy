/** What the framing stage says about a buffer, in terms of its bytes, and when more bytes can still help. */
module FramingVerdicts {
  import opened Bytes
  import opened ParserTypes
  import opened Framing

  // ---------------------------------------------------------------- landmarks

  /** The first "8=" is at b. */
  ghost predicate StartsAt(s: string, b: nat) {
    At(s, "8=", b) && forall k: nat :: k < b ==> !At(s, "8=", k)
  }

  ghost predicate NoStart(s: string) { forall k: nat :: !At(s, "8=", k) }

  /** The first SOH at or behind `from` is at e. */
  predicate EndsAt(s: string, from: nat, e: nat) {
    from <= e < |s| && s[e] == SOH && forall k :: from <= k < e ==> s[k] != SOH
  }

  predicate NoEnd(s: string, from: nat) { forall k :: from <= k < |s| ==> s[k] != SOH }

  /** "8=FIX.4.4" stands at b, the first "8=", and its field ends at h. */
  ghost predicate Headed(s: string, b: nat, h: nat) {
    StartsAt(s, b) && At(s, "8=FIX.4.4", b) && EndsAt(s, b, h)
  }

  /** Behind it stands "9=", and that field ends at e.  The source looks for four bytes there. */
  ghost predicate Measured(s: string, b: nat, h: nat, e: nat) {
    Headed(s, b, h) && h + 5 <= |s| && At(s, "9=", h + 1) && EndsAt(s, h + 3, e)
  }

  /** A frame: BodyLength is a number within the limit, and that many bytes follow its field. */
  ghost predicate Framed(cfg: Config, s: string, b: nat, end: nat) {
    exists h: nat, e: nat ::
      && Measured(s, b, h, e) && ParseInt(s[h + 3..e]).Number?
      && 1 <= ParseInt(s[h + 3..e]).value <= cfg.maxMessageSize
      && end == e + 1 + ParseInt(s[h + 3..e]).value <= |s|
  }

  /** A header no later byte can mend, with the position the source reports. */
  ghost predicate Broken(cfg: Config, s: string, at: nat) {
    || (StartsAt(s, at) && at + 9 <= |s| && !At(s, "8=FIX.4.4", at))
    || (exists b: nat, h: nat :: Headed(s, b, h) && h + 5 <= |s| && !At(s, "9=", h + 1) && at == h + 1)
    || (exists b: nat, h: nat, e: nat ::
          && Measured(s, b, h, e) && at == h + 3
          && (ParseInt(s[h + 3..e]).NotANumber? ||
              (ParseInt(s[h + 3..e]).Number? && !(1 <= ParseInt(s[h + 3..e]).value <= cfg.maxMessageSize))))
  }

  ghost predicate Overflows(s: string) {
    exists b: nat, h: nat, e: nat :: Measured(s, b, h, e) && ParseInt(s[h + 3..e]).Overflow?
  }

  lemma StartIs(s: string)
    ensures var b := Search(s, "8=", 0); if b < |s| then StartsAt(s, b) && b + 2 <= |s| else NoStart(s)
    ensures forall b: nat :: StartsAt(s, b) ==> b == Search(s, "8=", 0) < |s|
  {
    hide Search;
    forall b: nat | StartsAt(s, b) ensures b == Search(s, "8=", 0) < |s| {}
  }

  lemma EndIs(s: string, from: nat)
    requires from <= |s|
    ensures var e := Find(s, SOH, from); if e < |s| then EndsAt(s, from, e) else NoEnd(s, from)
    ensures forall e: nat :: EndsAt(s, from, e) ==> e == Find(s, SOH, from) < |s|
  {
    hide Find;
  }

  /** There is at most one place for each landmark. */
  lemma HeadedIs(s: string, b: nat, h: nat)
    ensures Headed(s, b, h) <==>
            && b == Search(s, "8=", 0) < |s| && At(s, "8=FIX.4.4", b)
            && h == Find(s, SOH, b) < |s|
  {
    hide Search, Find;
    StartIs(s);
    if b <= |s| { EndIs(s, b); }
  }

  lemma MeasuredIs(s: string, b: nat, h: nat, e: nat)
    ensures Measured(s, b, h, e) <==>
            && Headed(s, b, h) && h + 5 <= |s| && At(s, "9=", h + 1)
            && e == Find(s, SOH, h + 3) < |s|
  {
    hide Find, Headed, At;
    if h + 3 <= |s| { EndIs(s, h + 3); }
  }

  // ---------------------------------------------------------------- the verdict

  /** Something is still missing: of the version or its field, */
  ghost predicate WaitsForVersion(s: string) {
    exists b: nat :: StartsAt(s, b) && (b + 9 > |s| || (At(s, "8=FIX.4.4", b) && NoEnd(s, b)))
  }

  /** of the four bytes behind it or the BodyLength field, */
  ghost predicate WaitsForLength(s: string) {
    exists b: nat, h: nat :: Headed(s, b, h) && (h + 5 > |s| || (At(s, "9=", h + 1) && NoEnd(s, h + 3)))
  }

  /** or of the body. */
  ghost predicate WaitsForBody(cfg: Config, s: string) {
    exists b: nat, h: nat, e: nat ::
      && Measured(s, b, h, e) && ParseInt(s[h + 3..e]).Number?
      && 1 <= ParseInt(s[h + 3..e]).value <= cfg.maxMessageSize
      && e + 1 + ParseInt(s[h + 3..e]).value > |s|
  }

  ghost predicate Waiting(cfg: Config, s: string) {
    WaitsForVersion(s) || WaitsForLength(s) || WaitsForBody(cfg, s)
  }

  /** `r` is the verdict the bytes of `s` call for. */
  ghost predicate Right(cfg: Config, s: string, r: Frame) {
    && (r.FrameUndefined? <==> |s| >= 10 && Overflows(s))
    && (r.Frame? && r.status == Success <==> exists b: nat, end: nat :: Framed(cfg, s, b, end))
    && (r.Frame? && r.status == Success ==> Framed(cfg, s, r.start, r.end))
    && (r.Frame? && r.status == InvalidFormat <==>
        |s| >= 10 && (NoStart(s) || exists at: nat :: Broken(cfg, s, at)))
    && (r.Frame? && r.status == InvalidFormat ==>
        if NoStart(s) then r.consumed == 0 && r.state == IDLE
        else Broken(cfg, s, r.consumed) && r.state == ERROR_RECOVERY)
    && (r.Frame? && r.status == NeedMoreData <==> |s| < 10 || Waiting(cfg, s))
    && (r.Frame? && r.status == NeedMoreData ==>
        && r.consumed == 0
        && r.state == if |s| < 10 then IDLE
                      else if WaitsForVersion(s) then PARSING_BEGIN_STRING
                      else if WaitsForLength(s) then PARSING_BODY_LENGTH
                      else PARSING_TAG)
  }

  /** Every verdict of the framing stage, exactly: a frame with its bounds, also behind other bytes; a
      broken header with the position reported; no "8=" at all; an overflowing BodyLength; or something
      still missing. */
  lemma FramingVerdict(cfg: Config, s: string)
    ensures Right(cfg, s, FindCompleteMessage(cfg, s))
  {
    hide Search, Find, At, Right, BeginString, BodyLength;
    StartIs(s);
    var b := Search(s, "8=", 0);
    if |s| < 10 {
      ShortBuffer(cfg, s);
    } else if b == |s| {
      NothingStarts(cfg, s);
    } else if b + 9 > |s| || !At(s, BEGIN_STRING, b) {
      WrongVersion(cfg, s, b);
    } else {
      RightVersion(cfg, s, b);
    }
  }

  lemma HeadedLength(s: string, b: nat, h: nat)
    requires Headed(s, b, h)
    ensures b + 9 <= h < |s|
  {
    hide Search, Find;
    HeadedIs(s, b, h);
    BeginStringHasNoSoh(s, b);
  }

  lemma ShortBuffer(cfg: Config, s: string)
    requires |s| < 10
    ensures Right(cfg, s, FindCompleteMessage(cfg, s))
  {
    hide Search, Find, At, Headed, Waiting, Overflows, NoStart, Broken;
    forall b: nat, h: nat, e: nat ensures !Measured(s, b, h, e) {
      if Headed(s, b, h) { HeadedLength(s, b, h); }
    }
  }

  lemma NothingStarts(cfg: Config, s: string)
    requires |s| >= 10 && Search(s, "8=", 0) == |s|
    ensures Right(cfg, s, FindCompleteMessage(cfg, s))
  {
    hide Search, Find, At;
    StartIs(s);
    assert forall b: nat :: !StartsAt(s, b);
    hide StartsAt, NoStart;
  }

  /** Where a buffer starts, nothing else does. */
  lemma OneStart(s: string, b: nat)
    requires b == Search(s, "8=", 0) < |s|
    ensures StartsAt(s, b) && !NoStart(s) && forall k: nat :: StartsAt(s, k) ==> k == b
  {
    hide Search;
    StartIs(s);
  }

  lemma WrongVersion(cfg: Config, s: string, b: nat)
    requires |s| >= 10 && b == Search(s, "8=", 0) < |s| && (b + 9 > |s| || !At(s, BEGIN_STRING, b))
    ensures Right(cfg, s, FindCompleteMessage(cfg, s))
  {
    hide Search, Find;
    OneStart(s, b);
    hide StartsAt, NoStart, EndsAt;
    assert forall k: nat, h: nat :: !Headed(s, k, h);
    hide Headed, At;
    assert b + 9 <= |s| ==> Broken(cfg, s, b);
  }

  lemma RightVersion(cfg: Config, s: string, b: nat)
    requires |s| >= 10 && b == Search(s, "8=", 0) < |s| && At(s, BEGIN_STRING, b)
    ensures Right(cfg, s, FindCompleteMessage(cfg, s))
  {
    hide Search, Find, Right, BeginString;
    BeginStringFits(s, b);
    var h := Find(s, SOH, b);
    if h == |s| { Unended(cfg, s, b); } else { Ended(cfg, s, b, h); }
  }

  lemma BeginStringFits(s: string, b: nat)
    requires At(s, BEGIN_STRING, b)
    ensures b + 9 <= |s|
  {
  }

  lemma Unended(cfg: Config, s: string, b: nat)
    requires |s| >= 10 && b == Search(s, "8=", 0) < |s| && At(s, BEGIN_STRING, b) && Find(s, SOH, b) == |s|
    ensures Right(cfg, s, FindCompleteMessage(cfg, s))
  {
    hide Search, Find, BodyLength;
    OneStart(s, b);
    EndIs(s, b);
    BeginStringFits(s, b);
    forall k: nat, h: nat ensures !Headed(s, k, h) { HeadedIs(s, k, h); }
    hide StartsAt, NoStart, EndsAt, Headed, NoEnd, At;
    assert StartsAt(s, b) && At(s, "8=FIX.4.4", b) && NoEnd(s, b);
  }

  lemma Ended(cfg: Config, s: string, b: nat, h: nat)
    requires |s| >= 10 && b == Search(s, "8=", 0) < |s| && At(s, BEGIN_STRING, b) && h == Find(s, SOH, b) < |s|
    ensures Right(cfg, s, FindCompleteMessage(cfg, s))
  {
    hide Search, Find, Right;
    OneHeader(s, b, h);
    if h + 5 <= |s| && At(s, "9=", h + 1) {
      var e := Find(s, SOH, h + 3);
      if e == |s| { LengthOpen(cfg, s, b, h); } else { LengthClosed(cfg, s, b, h, e); }
    } else {
      NoLength(cfg, s, b, h);
    }
  }

  /** The header is where it is and nowhere else, and it does not end too early. */
  lemma OneHeader(s: string, b: nat, h: nat)
    requires b == Search(s, "8=", 0) < |s| && At(s, BEGIN_STRING, b) && h == Find(s, SOH, b) < |s|
    ensures StartsAt(s, b) && !NoStart(s) && Headed(s, b, h) && b + 9 <= h && !NoEnd(s, b)
    ensures forall k: nat :: StartsAt(s, k) ==> k == b
    ensures forall k: nat, j: nat :: Headed(s, k, j) ==> k == b && j == h
    ensures s[h + 1..] != "" ==> (At(s, "9=", h + 1) <==> h + 3 <= |s| && s[h + 1] == '9' && s[h + 2] == '=')
  {
    hide Search, Find;
    OneStart(s, b);
    HeadedIs(s, b, h);
    HeadedLength(s, b, h);
    forall k: nat, j: nat | Headed(s, k, j) ensures k == b && j == h { HeadedIs(s, k, j); }
    assert s[h] == SOH;
    if h + 3 <= |s| { assert s[h + 1..h + 3] == [s[h + 1], s[h + 2]]; }
  }

  lemma NoLength(cfg: Config, s: string, b: nat, h: nat)
    requires |s| >= 10 && b == Search(s, "8=", 0) < |s| && At(s, BEGIN_STRING, b) && h == Find(s, SOH, b) < |s|
    requires h + 5 > |s| || !At(s, "9=", h + 1)
    ensures Right(cfg, s, FindCompleteMessage(cfg, s))
  {
    hide Search, Find;
    OneHeader(s, b, h);
    BeginStringFits(s, b);
    hide StartsAt, NoStart, EndsAt, Headed, NoEnd, At;
    assert forall k: nat, j: nat, e: nat :: !Measured(s, k, j, e);
    hide Measured;
    if h + 5 <= |s| {
      assert s[h + 1..] != "";
      assert Headed(s, b, h) && !At(s, "9=", h + 1);
      assert Broken(cfg, s, h + 1);
    } else {
      assert WaitsForLength(s);
    }
  }

  lemma LengthOpen(cfg: Config, s: string, b: nat, h: nat)
    requires |s| >= 10 && b == Search(s, "8=", 0) < |s| && At(s, BEGIN_STRING, b) && h == Find(s, SOH, b) < |s|
    requires h + 5 <= |s| && At(s, "9=", h + 1) && Find(s, SOH, h + 3) == |s|
    ensures Right(cfg, s, FindCompleteMessage(cfg, s))
  {
    hide Search, Find;
    OneHeader(s, b, h);
    EndIs(s, h + 3);
    BeginStringFits(s, b);
    forall k: nat, j: nat, e: nat ensures !Measured(s, k, j, e) { MeasuredIs(s, k, j, e); }
    assert s[h + 1..] != "";
    hide StartsAt, NoStart, EndsAt, Headed, NoEnd, At, Measured;
    assert Headed(s, b, h) && At(s, "9=", h + 1) && NoEnd(s, h + 3);
    assert WaitsForLength(s);
  }

  lemma LengthClosed(cfg: Config, s: string, b: nat, h: nat, e: nat)
    requires |s| >= 10 && b == Search(s, "8=", 0) < |s| && At(s, BEGIN_STRING, b) && h == Find(s, SOH, b) < |s|
    requires h + 5 <= |s| && At(s, "9=", h + 1) && Find(s, SOH, h + 3) == e < |s|
    ensures Right(cfg, s, FindCompleteMessage(cfg, s))
  {
    hide Search, Find, ParseInt, StartsAt, NoStart, EndsAt, Headed, NoEnd, At, Measured, Right;
    OneHeader(s, b, h);
    BeginStringFits(s, b);
    OneLength(s, b, h, e);
    assert s[h + 1..] != "";
    assert FindCompleteMessage(cfg, s) == BodyLength(cfg, s, b, h + 3);
    hide FindCompleteMessage, BeginString;
    JudgeLength(cfg, s, b, h, e, ParseInt(s[h + 3..e]));
  }

  lemma OneLength(s: string, b: nat, h: nat, e: nat)
    requires Headed(s, b, h) && h + 5 <= |s| && At(s, "9=", h + 1) && Find(s, SOH, h + 3) == e < |s|
    requires forall k: nat, j: nat :: Headed(s, k, j) ==> k == b && j == h
    ensures Measured(s, b, h, e) && !NoEnd(s, h + 3)
    ensures forall k: nat, j: nat, f: nat :: Measured(s, k, j, f) ==> k == b && j == h && f == e
  {
    hide Find, Headed, At;
    MeasuredIs(s, b, h, e);
    EndIs(s, h + 3);
    forall k: nat, j: nat, f: nat | Measured(s, k, j, f) ensures k == b && j == h && f == e { MeasuredIs(s, k, j, f); }
  }

  lemma LengthCases(cfg: Config, s: string, b: nat, at: nat, e: nat, p: IntParse)
    requires b + 12 <= at <= |s| && e == Find(s, SOH, at) < |s| && p == ParseInt(s[at..e])
    ensures var r := BodyLength(cfg, s, b, at);
            if p.Overflow? then r == FrameUndefined
            else if p.NotANumber? || !(1 <= p.value <= cfg.maxMessageSize) then r == Malformed(at)
            else if e + 1 + p.value > |s| then r == Incomplete(PARSING_TAG, true)
            else r == Frame(Success, 0, IDLE, b, e + 1 + p.value, true)
  {
    hide Find, ParseInt;
  }

  lemma JudgeLength(cfg: Config, s: string, b: nat, h: nat, e: nat, p: IntParse)
    requires |s| >= 10 && StartsAt(s, b) && !NoStart(s) && Headed(s, b, h) && !NoEnd(s, b) && b + 9 <= h
    requires h + 5 <= |s| && At(s, "9=", h + 1) && At(s, "8=FIX.4.4", b)
    requires forall k: nat :: StartsAt(s, k) ==> k == b
    requires forall k: nat, j: nat :: Headed(s, k, j) ==> k == b && j == h
    requires Measured(s, b, h, e) && !NoEnd(s, h + 3) && e == Find(s, SOH, h + 3) < |s|
    requires forall k: nat, j: nat, f: nat :: Measured(s, k, j, f) ==> k == b && j == h && f == e
    requires p == ParseInt(s[h + 3..e])
    ensures Right(cfg, s, BodyLength(cfg, s, b, h + 3))
  {
    hide ParseInt, StartsAt, NoStart, EndsAt, Headed, NoEnd, At, Measured, Find, BodyLength;
    LengthCases(cfg, s, b, h + 3, e, p);
    var fits := p.Number? && 1 <= p.value <= cfg.maxMessageSize;
    forall k: nat, end: nat | Framed(cfg, s, k, end) ensures fits && k == b && end == e + 1 + p.value <= |s| {}
    forall at: nat | Broken(cfg, s, at) ensures !fits && !p.Overflow? && at == h + 3 {}
    assert Waiting(cfg, s) ==> fits && e + 1 + p.value > |s|;
    assert Overflows(s) <==> p.Overflow?;
    if fits && e + 1 + p.value <= |s| {
      assert Framed(cfg, s, b, e + 1 + p.value);
    } else if fits {
      assert WaitsForBody(cfg, s);
    } else if !p.Overflow? {
      assert Broken(cfg, s, h + 3);
    }
  }
}
