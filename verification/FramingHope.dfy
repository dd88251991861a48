/** When more bytes can still complete a frame.  The framing stage's NeedMoreData does not say so: it also
    waits behind bytes that nothing can mend, and gives up on ten bytes that hold no "8=" yet. */
module FramingHope {
  import opened Bytes
  import opened ParserTypes
  import opened Framing
  import opened FramingVerdicts

  /** Some continuation makes a frame. */
  ghost predicate Framable(cfg: Config, s: string) {
    exists t: string, b: nat, end: nat :: Framed(cfg, s + t, b, end)
  }

  /** Digits that still may grow into a BodyLength within the limit. */
  predicate Growable(cfg: Config, v: string) {
    AllDigits(v) && DecValue(v) <= cfg.maxMessageSize && DecValue(v) <= INT_MAX
  }

  predicate Fits(cfg: Config, p: IntParse) { p.Number? && 1 <= p.value <= cfg.maxMessageSize }

  /** What there is of the header is the beginning of a header. */
  ghost predicate Hopeful(cfg: Config, s: string) {
    || NoStart(s)
    || (exists b: nat :: InVersion(s, b))
    || (exists b: nat :: BehindVersion(s, b))
    || (exists b: nat, h: nat :: InTag(s, b, h))
    || (exists b: nat, h: nat :: InLength(cfg, s, b, h))
    || (exists b: nat, h: nat, e: nat :: Closed(cfg, s, b, h, e))
  }

  /** The buffer ends inside "8=FIX.4.4", inside the field it starts, inside "9=", or inside BodyLength. */
  ghost predicate InVersion(s: string, b: nat) {
    StartsAt(s, b) && b + 9 > |s| && s[b..] <= "8=FIX.4.4"
  }

  ghost predicate BehindVersion(s: string, b: nat) {
    StartsAt(s, b) && At(s, "8=FIX.4.4", b) && NoEnd(s, b)
  }

  ghost predicate InTag(s: string, b: nat, h: nat) {
    Headed(s, b, h) && h + 3 > |s| && s[h + 1..] <= "9="
  }

  ghost predicate InLength(cfg: Config, s: string, b: nat, h: nat) {
    Headed(s, b, h) && At(s, "9=", h + 1) && NoEnd(s, h + 3) && Growable(cfg, s[h + 3..])
  }

  ghost predicate Closed(cfg: Config, s: string, b: nat, h: nat, e: nat) {
    Headed(s, b, h) && At(s, "9=", h + 1) && EndsAt(s, h + 3, e) && Fits(cfg, ParseInt(s[h + 3..e]))
  }

  // ---------------------------------------------------------------- landmarks under extension

  lemma AtExtends(s: string, t: string, pat: string, i: nat)
    ensures At(s, pat, i) ==> At(s + t, pat, i)
    ensures i + |pat| <= |s| ==> (At(s + t, pat, i) <==> At(s, pat, i))
  {
    if i + |pat| <= |s| { assert (s + t)[i..i + |pat|] == s[i..i + |pat|]; }
  }

  lemma StartExtends(s: string, t: string, b: nat)
    requires b + 2 <= |s|
    ensures StartsAt(s + t, b) <==> StartsAt(s, b)
  {
    hide At;
    forall k: nat | k <= b ensures At(s + t, "8=", k) <==> At(s, "8=", k) { AtExtends(s, t, "8=", k); }
  }

  lemma EndExtends(s: string, t: string, from: nat, e: nat)
    requires e < |s|
    ensures EndsAt(s + t, from, e) <==> EndsAt(s, from, e)
  {
    assert forall k :: 0 <= k < |s| ==> (s + t)[k] == s[k];
  }

  lemma HeadExtends(s: string, t: string, b: nat, h: nat)
    requires h < |s|
    ensures Headed(s + t, b, h) <==> Headed(s, b, h)
  {
    hide At, StartsAt, EndsAt;
    if Headed(s, b, h) || Headed(s + t, b, h) {
      if Headed(s, b, h) { HeadedLength(s, b, h); } else { HeadedLength(s + t, b, h); }
      AtExtends(s, t, "8=FIX.4.4", b);
      StartExtends(s, t, b);
      EndExtends(s, t, b, h);
    }
  }

  // ---------------------------------------------------------------- a frame leaves hope in every prefix

  lemma {:induction false} PrefixValue(v: string, k: nat)
    requires k <= |v| && AllDigits(v)
    ensures AllDigits(v[..k]) && DecValue(v[..k]) <= DecValue(v)
    decreases |v|
  {
    if k < |v| {
      PrefixValue(v[..|v| - 1], k);
      assert v[..|v| - 1][..k] == v[..k];
    } else {
      assert v[..k] == v;
    }
  }

  lemma NumberIsDigits(v: string)
    requires ParseInt(v).Number?
    ensures AllDigits(v) && DecValue(v) == ParseInt(v).value <= INT_MAX && v != ""
  {
    AccumulateMeaning(v);
  }

  lemma FrameGivesHope(cfg: Config, s: string, t: string, b: nat, end: nat)
    requires Framed(cfg, s + t, b, end)
    ensures Hopeful(cfg, s) && cfg.maxMessageSize >= 1
  {
    hide At, StartsAt, Headed, NoEnd, NoStart, ParseInt, Growable, Hopeful;
    var u := s + t;
    var h: nat, e: nat :|
      && Measured(u, b, h, e) && ParseInt(u[h + 3..e]).Number?
      && 1 <= ParseInt(u[h + 3..e]).value <= cfg.maxMessageSize
      && end == e + 1 + ParseInt(u[h + 3..e]).value <= |u|;
    HeadedLength(u, b, h);
    if |s| < b + 2 { BeforeStart(cfg, s, t, b, h); }
    else if |s| < b + 9 { InsideVersion(cfg, s, t, b, h); }
    else if |s| <= h { PastVersion(cfg, s, t, b, h); }
    else if |s| < h + 3 { InsideTag(cfg, s, t, b, h); }
    else if |s| <= e { InsideLength(cfg, s, t, b, h, e); }
    else { BehindLength(cfg, s, t, b, h, e); }
  }

  lemma BeforeStart(cfg: Config, s: string, t: string, b: nat, h: nat)
    requires Headed(s + t, b, h) && |s| < b + 2
    ensures Hopeful(cfg, s)
  {
    hide At, EndsAt;
    forall k: nat ensures !At(s, "8=", k) {
      if At(s, "8=", k) { AtFits(s, "8=", k); AtExtends(s, t, "8=", k); }
    }
  }

  lemma AtFits(s: string, pat: string, k: nat)
    requires At(s, pat, k)
    ensures k + |pat| <= |s|
  {
  }

  lemma InsideVersion(cfg: Config, s: string, t: string, b: nat, h: nat)
    requires Headed(s + t, b, h) && b + 2 <= |s| < b + 9
    ensures Hopeful(cfg, s)
  {
    hide StartsAt, EndsAt;
    StartExtends(s, t, b);
    var u := s + t;
    assert u[b..b + 9] == "8=FIX.4.4";
    assert forall k :: b <= k < |s| ==> s[k] == u[k] == u[b..b + 9][k - b];
    assert s[b..] <= "8=FIX.4.4";
    assert InVersion(s, b);
  }

  lemma PastVersion(cfg: Config, s: string, t: string, b: nat, h: nat)
    requires Headed(s + t, b, h) && b + 9 <= |s| <= h
    ensures Hopeful(cfg, s)
  {
    StartExtends(s, t, b);
    AtExtends(s, t, "8=FIX.4.4", b);
    assert forall k :: 0 <= k < |s| ==> s[k] == (s + t)[k];
    hide StartsAt, At;
    assert BehindVersion(s, b);
  }

  lemma InsideTag(cfg: Config, s: string, t: string, b: nat, h: nat)
    requires Headed(s + t, b, h) && At(s + t, "9=", h + 1) && h < |s| < h + 3
    ensures Hopeful(cfg, s)
  {
    hide Headed;
    HeadExtends(s, t, b, h);
    var u := s + t;
    assert u[h + 1..h + 3] == "9=";
    assert forall k :: h + 1 <= k < |s| ==> s[k] == u[k] == u[h + 1..h + 3][k - h - 1];
    assert InTag(s, b, h);
  }

  lemma InsideLength(cfg: Config, s: string, t: string, b: nat, h: nat, e: nat)
    requires Measured(s + t, b, h, e) && h + 3 <= |s| <= e && Fits(cfg, ParseInt((s + t)[h + 3..e]))
    ensures Hopeful(cfg, s)
  {
    hide Headed, ParseInt, At;
    HeadExtends(s, t, b, h);
    AtExtends(s, t, "9=", h + 1);
    var u := s + t;
    var v := u[h + 3..e];
    NumberIsDigits(v);
    PrefixValue(v, |s| - h - 3);
    assert v[..|s| - h - 3] == s[h + 3..];
    assert forall k :: h + 3 <= k < |s| ==> s[k] == u[k];
    assert InLength(cfg, s, b, h);
  }

  lemma BehindLength(cfg: Config, s: string, t: string, b: nat, h: nat, e: nat)
    requires Measured(s + t, b, h, e) && e < |s| && Fits(cfg, ParseInt((s + t)[h + 3..e]))
    ensures Hopeful(cfg, s)
  {
    assert h + 3 <= e;
    hide Headed, ParseInt, At, EndsAt;
    HeadExtends(s, t, b, h);
    AtExtends(s, t, "9=", h + 1);
    EndExtends(s, t, h + 3, e);
    assert (s + t)[h + 3..e] == s[h + 3..e];
    assert Closed(cfg, s, b, h, e);
  }

  // ---------------------------------------------------------------- hope can be fulfilled

  lemma Continue(cfg: Config, s: string, t: string)
    requires Framable(cfg, s + t)
    ensures Framable(cfg, s)
  {
    hide Framed;
    var t': string, b: nat, end: nat :| Framed(cfg, s + t + t', b, end);
    Assoc(s, t, t');
    assert Framed(cfg, s + (t + t'), b, end);
  }

  lemma FinishBody(cfg: Config, s: string, b: nat, h: nat, e: nat)
    requires Closed(cfg, s, b, h, e)
    ensures Framable(cfg, s)
  {
    var n := ParseInt(s[h + 3..e]).value;
    var t := seq(n + 5, i => '0');
    var u := s + t;
    assert h + 3 <= e < |s| by { AtFits(s, "9=", h + 1); }
    hide Headed, ParseInt, At, EndsAt;
    HeadExtends(s, t, b, h);
    AtExtends(s, t, "9=", h + 1);
    EndExtends(s, t, h + 3, e);
    assert u[h + 3..e] == s[h + 3..e];
    assert Measured(u, b, h, e);
    assert Framed(cfg, u, b, e + 1 + n);
  }

  lemma FinishLength(cfg: Config, s: string, b: nat, h: nat)
    requires InLength(cfg, s, b, h) && cfg.maxMessageSize >= 1
    ensures Framable(cfg, s)
  {
    hide Headed, At, Framable, AllDigits, DecValue;
    AtFits(s, "9=", h + 1);
    var v := s[h + 3..];
    if DecValue(v) >= 1 {
      CloseLength(cfg, s, b, h);
    } else {
      HeadExtends(s, "1", b, h);
      AtExtends(s, "1", "9=", h + 1);
      var s' := s + "1";
      assert s'[h + 3..] == v + "1";
      OneMoreDigit(cfg, v);
      assert NoEnd(s', h + 3);
      CloseLength(cfg, s', b, h);
      Continue(cfg, s, "1");
    }
  }

  lemma OneMoreDigit(cfg: Config, v: string)
    requires Growable(cfg, v) && DecValue(v) == 0 && cfg.maxMessageSize >= 1
    ensures Growable(cfg, v + "1") && DecValue(v + "1") == 1
  {
    assert (v + "1")[..|v|] == v;
  }

  lemma CloseLength(cfg: Config, s: string, b: nat, h: nat)
    requires Headed(s, b, h) && At(s, "9=", h + 1) && h + 3 <= |s| && NoEnd(s, h + 3)
    requires Growable(cfg, s[h + 3..]) && DecValue(s[h + 3..]) >= 1
    ensures Framable(cfg, s)
  {
    hide Headed, At, Framable, ParseInt;
    var v, s' := s[h + 3..], s + [SOH];
    HeadedLength(s, b, h);
    HeadExtends(s, [SOH], b, h);
    AtExtends(s, [SOH], "9=", h + 1);
    assert EndsAt(s', h + 3, |s|);
    assert s'[h + 3..|s|] == v;
    DigitsAreNumber(v);
    assert Closed(cfg, s', b, h, |s|);
    FinishBody(cfg, s', b, h, |s|);
    Continue(cfg, s, [SOH]);
  }

  lemma DigitsAreNumber(v: string)
    requires AllDigits(v) && 1 <= DecValue(v) <= INT_MAX
    ensures ParseInt(v) == Number(DecValue(v))
  {
    AccumulateMeaning(v);
  }

  lemma FinishTag(cfg: Config, s: string, b: nat, h: nat)
    requires InTag(s, b, h) && cfg.maxMessageSize >= 1
    ensures Framable(cfg, s)
  {
    HeadedLength(s, b, h);
    hide Headed, Framable, DecValue;
    var t := "9="[|s| - h - 1..];
    var s' := s + t;
    HeadExtends(s, t, b, h);
    assert s'[h + 1..] == s[h + 1..] + t == "9=";
    assert s'[h + 1..h + 3] == "9=" && |s'| == h + 3;
    assert s'[h + 3..] == "";
    EmptyGrows(cfg);
    FinishLength(cfg, s', b, h);
    Continue(cfg, s, t);
  }

  lemma EmptyGrows(cfg: Config)
    ensures Growable(cfg, "")
  {
  }

  lemma FinishVersion(cfg: Config, s: string, b: nat)
    requires BehindVersion(s, b) && cfg.maxMessageSize >= 1
    ensures Framable(cfg, s)
  {
    AtFits(s, "8=FIX.4.4", b);
    var s' := s + [SOH];
    AtExtends(s, [SOH], "8=FIX.4.4", b);
    StartExtends(s, [SOH], b);
    hide StartsAt, At, Framable;
    assert EndsAt(s', b, |s|);
    assert Headed(s', b, |s|);
    assert s'[|s| + 1..] == "";
    FinishTag(cfg, s', b, |s|);
    Continue(cfg, s, [SOH]);
  }

  lemma FinishStart(cfg: Config, s: string, b: nat)
    requires InVersion(s, b) && cfg.maxMessageSize >= 1
    ensures Framable(cfg, s)
  {
    AtFits(s, "8=", b);
    var t := "8=FIX.4.4"[|s| - b..];
    var s' := s + t;
    StartExtends(s, t, b);
    hide StartsAt, Framable;
    assert s'[b..] == s[b..] + t == "8=FIX.4.4";
    assert s'[b..b + 9] == "8=FIX.4.4" && |s'| == b + 9;
    assert forall k :: b <= k < |s'| ==> s'[k] == s'[b..][k - b];
    assert NoEnd(s', b);
    FinishVersion(cfg, s', b);
    Continue(cfg, s, t);
  }

  lemma StartFresh(cfg: Config, s: string)
    requires NoStart(s) && cfg.maxMessageSize >= 1
    ensures Framable(cfg, s)
  {
    var s' := s + "8=";
    forall k: nat | k < |s| ensures !At(s', "8=", k) {
      AtExtends(s, "8=", "8=", k);
      if k + 1 == |s| { assert s'[k..k + 2][1] == s'[k + 1] == '8'; }
    }
    assert s'[|s|..|s| + 2] == "8=";
    assert StartsAt(s', |s|);
    hide StartsAt, Framable;
    assert s'[|s|..] == "8=" <= "8=FIX.4.4";
    FinishStart(cfg, s', |s|);
    Continue(cfg, s, "8=");
  }

  /** More bytes can complete a frame if and only if what there is of a header is the beginning of one. */
  lemma HopeExact(cfg: Config, s: string)
    ensures Framable(cfg, s) <==> cfg.maxMessageSize >= 1 && Hopeful(cfg, s)
  {
    hide StartsAt, At, EndsAt, Headed, NoStart, NoEnd, Framed, Growable, ParseInt, Fits;
    if Framable(cfg, s) {
      var t: string, b: nat, end: nat :| Framed(cfg, s + t, b, end);
      FrameGivesHope(cfg, s, t, b, end);
    } else if cfg.maxMessageSize >= 1 && Hopeful(cfg, s) {
      Fulfil(cfg, s);
    }
  }

  lemma Fulfil(cfg: Config, s: string)
    requires Hopeful(cfg, s) && cfg.maxMessageSize >= 1
    ensures Framable(cfg, s)
  {
    hide NoStart, Framable, InVersion, BehindVersion, InTag, InLength, Closed;
    if NoStart(s) {
      StartFresh(cfg, s);
    } else if b: nat :| InVersion(s, b) {
      FinishStart(cfg, s, b);
    } else if b: nat :| BehindVersion(s, b) {
      FinishVersion(cfg, s, b);
    } else if b: nat, h: nat :| InTag(s, b, h) {
      FinishTag(cfg, s, b, h);
    } else if b: nat, h: nat :| InLength(cfg, s, b, h) {
      FinishLength(cfg, s, b, h);
    } else {
      var b: nat, h: nat, e: nat :| Closed(cfg, s, b, h, e);
      FinishBody(cfg, s, b, h, e);
    }
  }

  // ---------------------------------------------------------------- hope and verdict

  /** Where more bytes can help, the framing stage asks for them unless it has a frame already or has seen
      ten bytes without any "8=". */
  lemma AsksWhenHopeful(cfg: Config, s: string)
    requires Framable(cfg, s) && |s| >= 10
    ensures var r := FindCompleteMessage(cfg, s);
            r.Frame? && (r.status == NeedMoreData <==> !NoStart(s) && r.status != Success)
  {
    hide FindCompleteMessage, Framed, NoStart, Broken, Waiting, Overflows;
    FramingVerdict(cfg, s);
    var r := FindCompleteMessage(cfg, s);
    var t: string, b: nat, end: nat :| Framed(cfg, s + t, b, end);
    FramingVerdict(cfg, s + t);
    LocatedWhenStarted(cfg, s);
    if Final(r) { StableUnderExtension(cfg, s, t); }
  }

  lemma LocatedWhenStarted(cfg: Config, s: string)
    ensures var r := FindCompleteMessage(cfg, s); r.Frame? && r.status == InvalidFormat && !NoStart(s) ==> r.located
  {
    hide Search, Find, At, ParseInt;
    StartIs(s);
  }

  /** It also asks where nothing can help: behind "9=abc" it waits for a SOH, although only digits could
      have become a BodyLength. */
  lemma WaitsInVain(cfg: Config)
    ensures var s := "8=FIX.4.4" + [SOH] + "9=abc";
            FindCompleteMessage(cfg, s) == Incomplete(PARSING_BODY_LENGTH, true) && !Framable(cfg, s)
  {
    var s := "8=FIX.4.4" + [SOH] + "9=abc";
    assert s[0..2] == "8=" && s[0..9] == "8=FIX.4.4" && s[10..12] == "9=" && s[12..] == "abc";
    SearchIs(s, "8=", 0, 0);
    FindIs(s, SOH, 0, 9);
    FindIs(s, SOH, 12, 15);
    hide Search, Find;
    HopeExact(cfg, s);
    StartIs(s);
    EndIs(s, 0);
    forall b: nat, h: nat | Headed(s, b, h) ensures b == 0 && h == 9 { HeadedIs(s, b, h); }
    EndIs(s, 12);
    assert !IsDigit(s[12..][0]);
  }
}
