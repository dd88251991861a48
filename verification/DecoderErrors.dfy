/** What the decoders report when a message is not right, and where. */
module DecoderErrors {
  import opened Bytes
  import opened ParserTypes
  import opened Decoders
  import opened FastDecoders
  import opened WireFormat

  // ---------------------------------------------------------------- one field

  /** A field is a number, '=', a value and SOH; what is missing decides the error and its position. */
  lemma FieldVerdict(v: string, w: string, rest: string)
    requires '=' !in v && SohFree(w)
    ensures ReadField(v) == Bad(NoEquals, 0)
    ensures var p := ParseInt(v);
            && (p.NotANumber? ==> ReadField(v + "=" + rest) == Bad(BadTag, 0))
            && (p.Overflow? ==> ReadField(v + "=" + rest) == Bad(TagOverflow, 0))
            && (p.Number? ==> ReadField(v + "=" + w) == Bad(NoSoh, |v| + 1))
            && (p.Number? ==> ReadField(v + "=" + w + [SOH] + rest) == Got(Field(p.value, w), |v| + |w| + 2))
  {
    hide Find, ParseInt, SohFree;
    FindIs(v, '=', 0, |v|);
    Delimiters(v, w, rest);
    EqualsFound(v, rest);
    Unended(v, w);
  }

  lemma EqualsFound(v: string, rest: string)
    requires '=' !in v
    ensures Find(v + "=" + rest, '=', 0) == |v| && (v + "=" + rest)[..|v|] == v
  {
    hide Find;
    FindBehind("", v, '=', rest);
    assert "" + v + ['='] + rest == v + "=" + rest;
    assert v + "=" + rest == v + ("=" + rest);
    Middle("", v, "=" + rest);
  }

  lemma Unended(v: string, w: string)
    requires '=' !in v && SohFree(w)
    ensures var s := v + "=" + w; Find(s, '=', 0) == |v| && Find(s, SOH, |v| + 1) == |s| && s[..|v|] == v
  {
    hide Find;
    EqualsFound(v, w);
    var s := v + "=" + w;
    assert forall k :: |v| + 1 <= k < |s| ==> s[k] == w[k - |v| - 1];
    FindIs(s, SOH, |v| + 1, |s|);
  }

  /** Fields in front of a malformed one are read, and the error is reported behind them. */
  lemma StopsAtBroken(fs: seq<Field>, s: string, stop: bool, base: nat)
    requires AllPlain(fs) && !(stop && HasTag(fs, TAG_CHECKSUM)) && s != "" && ReadField(s).Bad?
    ensures Tokenize(RenderAll(fs) + s, stop, base)
         == Tokens(fs, ReadField(s).why, base + |RenderAll(fs)| + ReadField(s).at)
  {
    hide AllPlain, RenderAll, Tokenize, HasTag, ReadField;
    TokenizeRendered(fs, s, stop, base);
    TokenizeStep(s, stop, base + |RenderAll(fs)|);
    assert fs + [] == fs;
  }

  // ---------------------------------------------------------------- the generic decoder

  /** The generic decoder stops at the first malformed field and reports where it is; a tag beyond `int`
      has no meaning; without a free slot it does not start. */
  lemma GenericBroken(cfg: Config, fs: seq<Field>, s: string, free: nat, stamp: string)
    requires AllPlain(fs) && !HasTag(fs, TAG_CHECKSUM) && s != "" && ReadField(s).Bad?
    ensures ParseMessage(cfg, RenderAll(fs) + s, free, stamp) ==
            if free == 0 then Decoded(Fail(AllocationFailed, 0, IDLE), 0)
            else if ReadField(s).why == TagOverflow then Decoded(Undefined, free)
            else Decoded(Fail(InvalidFormat, |RenderAll(fs)| + ReadField(s).at, IDLE), free)
  {
    hide AllPlain, RenderAll, Tokenize, HasTag, ReadField, Validate;
    StopsAtBroken(fs, s, true, 0);
  }

  /** A message that is all there but for its checksum is a checksum error, unless a required field is
      missing: that is found first. */
  lemma GenericChecks(cfg: Config, s: string, free: nat, stamp: string)
    requires free > 0 && Tokenize(s, true, 0).end == Complete
    ensures var m := SetAll(Fresh(stamp), Tokenize(s, true, 0).fields); var d := ParseMessage(cfg, s, free, stamp);
            var whole := 8 in m && 9 in m && 35 in m && 10 in m;
            if cfg.strict && !whole then d == Decoded(Fail(InvalidFormat, 0, IDLE), free)
            else if cfg.validateChecksum && !ChecksumMatches(s) then d == Decoded(Fail(ChecksumError, 0, IDLE), free)
            else d == Decoded(Returned(Success, |s|, Some(m), IDLE), free - 1)
  {
    hide Tokenize, SetAll, ChecksumMatches;
  }

  // ---------------------------------------------------------------- the fast decoders

  /** What turns a frame away before its body is looked at, in this order: it is too short, it does not end
      in SOH (which only the decoders for TestRequest and ResendRequest call an error), it does not begin
      with "8=FIX.4.4", or the pool is empty. */
  lemma FastRefusals(cfg: Config, p: Profile, mem: string, length: nat, free: nat, stamp: string)
    requires Specialised(p) && length <= |mem|
    ensures var d := FastDecode(cfg, p, mem, length, free, stamp); var terse := p.msgType == "1" || p.msgType == "2";
            if length < ShortestFrame(p.msgType) then d == Decoded(Fail(InvalidFormat, 0, IDLE), free)
            else if mem[length - 1] != SOH then
              d == Decoded(if terse then Fail(InvalidFormat, 0, ERROR_RECOVERY)
                  else Fail(NeedMoreData, 0, PARSING_TAG), free)
            else if mem[..9] != "8=FIX.4.4" then d == Decoded(Fail(InvalidFormat, 0, ERROR_RECOVERY), free)
            else free == 0 ==> d == Decoded(Fail(AllocationFailed, 0, ERROR_RECOVERY), 0)
  {
    hide FastBody;
    if length >= ShortestFrame(p.msgType) { assert mem[0..9] == mem[..9]; }
  }

  /** A malformed field behind well-formed ones: its kind decides the status, and the terse decoders do not
      say where it is. */
  lemma FastBroken(cfg: Config, p: Profile, fs: seq<Field>, s: string, after: string, free: nat, stamp: string)
    requires Specialised(p) && AllPlain(fs) && s != "" && ReadField(s).Bad? && free > 0
    requires var body := RenderAll(fs) + s;
             EndsWithSoh(body) && |body| <= INT_MAX && |Header(|body|)| + |body| >= ShortestFrame(p.msgType)
    ensures var body := RenderAll(fs) + s; var h := |Header(|body|)|;
            var d := FastDecode(cfg, p, Header(|body|) + body + after, h + |body|, free, stamp);
            var at := if p.msgType == "1" || p.msgType == "2" then 0 else h + |RenderAll(fs)| + ReadField(s).at;
            d == if ReadField(s).why == TagOverflow then Decoded(Undefined, free)
                 else Decoded(Fail(if ReadField(s).why == BadTag then FieldParseError else InvalidFormat, at,
                                   ERROR_RECOVERY), free)
  {
    hide AllPlain, RenderAll, Tokenize, HasTag, ReadField, Header, EndsWithSoh, FastDecode, FastTrailer, SetAll, Preset;
    var body := RenderAll(fs) + s;
    var h := |Header(|body|)|;
    FastOnBody(cfg, p, body, after, free, stamp);
    StopsAtBroken(fs, s, false, h);
    BadIsNotComplete(s);
  }

  lemma BadIsNotComplete(s: string)
    requires ReadField(s).Bad?
    ensures ReadField(s).why != Complete
  {
  }

  /** A BodyLength that is no number. */
  lemma FastBadLength(cfg: Config, p: Profile, v: string, rest: string, free: nat, stamp: string)
    requires Specialised(p) && SohFree(v) && ParseInt(v).NotANumber? && free > 0
    requires var mem := "8=FIX.4.4" + [SOH] + "9=" + v + [SOH] + rest;
             |mem| >= ShortestFrame(p.msgType) && EndsWithSoh(mem)
    ensures var mem := "8=FIX.4.4" + [SOH] + "9=" + v + [SOH] + rest;
            FastDecode(cfg, p, mem, |mem|, free, stamp) == Decoded(Fail(InvalidFormat, 0, ERROR_RECOVERY), free)
  {
    hide Find, ParseInt, FastFields;
    var front := "8=FIX.4.4" + [SOH] + "9=";
    var mem := front + v + [SOH] + rest;
    assert mem == "8=FIX.4.4" + [SOH] + "9=" + v + [SOH] + rest;
    assert mem[0..9] == "8=FIX.4.4";
    FindBehind(front, v, SOH, rest);
    assert mem == front + v + ([SOH] + rest);
    Middle(front, v, [SOH] + rest);
    assert mem[..|mem|] == mem;
  }

  /** What stands behind the body must begin with "10=" when checksums are validated; received bytes that
      end inside it are not enough to tell. */
  lemma FastNoTrailer(cfg: Config, p: Profile, frame: string, t: string, m: FieldMap, free: nat)
    requires Specialised(p) && cfg.validateChecksum && free > 0
    ensures var d := FastTrailer(cfg, p, frame + t, |frame|, m, free);
            var at := if p.msgType == "1" || p.msgType == "2" then 0 else |frame|;
            && (t < "10=" ==> d == Decoded(Undefined, free))
            && (!(t <= "10=") && !("10=" <= t) ==> d == Decoded(Fail(ChecksumError, at, ERROR_RECOVERY), free))
            && ("10=" <= t && |t| < 6 ==> d == Decoded(Undefined, free))
  {
    var mem := frame + t;
    assert mem[|frame|..] == t;
    assert "10=" <= t <==> |t| >= 3 && t[0..3] == "10=";
    hide Stoi, ByteSum;
  }

  // ---------------------------------------------------------------- dispatch

  /** The type decides who decodes; without a terminated "35=" there is none. */
  lemma DispatchVerdict(cfg: Config, mem: string, length: nat, free: nat, clock: nat -> string)
    requires length <= |mem|
    ensures var t := ExtractMsgType(mem[..length]);
            if FastType(t) then
              exists p: Profile :: Specialised(p) && p.msgType == t &&
                ParseIntelligent(cfg, mem, length, free, clock) == FastDecode(cfg, p, mem, length, free, clock(0))
            else
              ParseIntelligent(cfg, mem, length, free, clock) == ParseMessage(cfg, mem[..length], free, clock(0))
    ensures length == 0 ==>
              ParseCompleteMessage(cfg, mem, length, free, clock) == Decoded(Fail(InvalidFormat, 0, IDLE), free)
  {
    hide ExtractMsgType, FastDecode, ParseMessage, FastType;
    var t := ExtractMsgType(mem[..length]);
    var p := FastProfile(t);
    if FastType(t) { assert Specialised(p.value) && p.value.msgType == t; }
  }

  lemma NoMsgType(s: string, front: string, v: string)
    ensures (forall k: nat :: !At(s, "35=", k)) ==> ExtractMsgType(s) == ""
    ensures SohFree(v) && (forall k: nat :: k < |front| ==> !At(front + "35=" + v, "35=", k)) ==>
              ExtractMsgType(front + "35=" + v) == ""
  {
    hide Find, Search;
    if forall k: nat :: !At(s, "35=", k) { SearchIs(s, "35=", 0, |s|); }
    var u := front + "35=" + v;
    if SohFree(v) && forall k: nat :: k < |front| ==> !At(u, "35=", k) {
      assert u[|front|..|front| + 3] == "35=";
      SearchIs(u, "35=", 0, |front|);
      assert forall k :: |front| + 3 <= k < |u| ==> u[k] == v[k - |front| - 3];
      FindIs(u, SOH, |front| + 3, |u|);
    }
  }
}
