/** Well-formed messages of the six fast types, and what framing and decoding make of their bytes
    when they are whole, when they are cut short, and when their trailer is not theirs. */
module FastMessages {
  import opened Bytes
  import opened ParserTypes
  import opened Framing
  import opened Decoders
  import opened FastDecoders
  import opened WireFormat

  datatype Message = Message(msgType: string, fields: seq<Field>)

  function AllFields(m: Message): seq<Field> {
    [Field(TAG_MSG_TYPE, m.msgType)] + m.fields
  }

  function Body(m: Message): string { RenderAll(AllFields(m)) }

  function FrameOf(m: Message): string { Header(|Body(m)|) + Body(m) }

  function Digits(m: Message): (d: string)
    ensures |d| == 3
  {
    Pad3(ByteSum(FrameOf(m)))
  }

  function Wire(m: Message): string { FrameOf(m) + Trailer(Digits(m)) }

  /** SendingTime is present, so the stamp of the pool message is overwritten; the size limits are the
      framing stage's and the specialisation's own. */
  predicate WellFormed(cfg: Config, m: Message) {
    && FastType(m.msgType)
    && AllPlain(m.fields) && HasTag(m.fields, TAG_SENDING_TIME)
    && |Body(m)| <= cfg.maxMessageSize && |Body(m)| <= INT_MAX
    && ShortestFrame(m.msgType) <= |FrameOf(m)| <= PARTIAL_BUFFER_SIZE
  }

  /** The field map such a message denotes: later fields win, CheckSum last. */
  function Content(m: Message): FieldMap {
    SetAll(map[], HeaderFields(|Body(m)|) + AllFields(m))[TAG_CHECKSUM := Digits(m)]
  }

  // ---------------------------------------------------------------- shape

  lemma MsgTypePlain(m: Message)
    requires FastType(m.msgType)
    ensures SohFree(m.msgType) && Plain(Field(TAG_MSG_TYPE, m.msgType))
  {
  }

  lemma BodyShape(m: Message)
    requires FastType(m.msgType) && AllPlain(m.fields)
    ensures AllPlain(AllFields(m))
    ensures Body(m) == Render(Field(TAG_MSG_TYPE, m.msgType)) + RenderAll(m.fields)
    ensures EndsWithSoh(Body(m)) && |Body(m)| >= 5
  {
    MsgTypePlain(m);
    hide FastProfile, Plain, SohFree;
    var fs := AllFields(m);
    assert fs[0] == Field(TAG_MSG_TYPE, m.msgType) && fs[1..] == m.fields;
    RenderEndsWithSoh(fs);
    assert Dec(35) == Dec(3) + ['5'];
  }

  lemma {:induction false} RenderEndsWithSoh(fs: seq<Field>)
    requires fs != []
    ensures EndsWithSoh(RenderAll(fs))
    decreases |fs|
  {
    hide IntStr;
    if |fs| > 1 {
      RenderEndsWithSoh(fs[1..]);
    } else {
      assert fs[1..] == [];
    }
  }

  // ---------------------------------------------------------------- framing

  /** A buffer that starts with the whole frame is framed at once, whatever follows. */
  lemma FramesWhole(cfg: Config, m: Message, after: string)
    requires WellFormed(cfg, m)
    ensures FindCompleteMessage(cfg, FrameOf(m) + after) == Frame(Success, 0, IDLE, 0, |FrameOf(m)|, true)
  {
    BodyShape(m);
    hide FastProfile, AllPlain, HasTag, Body;
    var n := |Body(m)|;
    FramesBody(cfg, n, Body(m) + after);
    Assoc(Header(n), Body(m), after);
  }

  lemma FramesBody(cfg: Config, n: nat, rest: string)
    requires 0 < n <= cfg.maxMessageSize && n <= INT_MAX
    ensures FindCompleteMessage(cfg, Header(n) + rest) ==
            if |rest| < n then Incomplete(PARSING_TAG, true) else Frame(Success, 0, IDLE, 0, |Header(n)| + n, true)
  {
    var s := Header(n) + rest;
    var e := 12 + |Dec(n)|;
    HeaderShape(n, rest);
    ParseIntDec(n);
    hide Header, Dec, ParseInt;
    assert s[0..9] == BEGIN_STRING;
    assert s[0] == '8' && s[1] == '=' by { assert s[0] == s[0..9][0] && s[1] == s[0..9][1]; }
    assert At(s, "8=", 0) by { assert s[0..2] == "8="; }
    SearchIs(s, "8=", 0, 0);
    FindIs(s, SOH, 0, 9);
    FindIs(s, SOH, 12, e);
  }

  /** A frame cut anywhere before its end asks for more data. */
  lemma FramesPrefix(cfg: Config, m: Message, k: nat)
    requires WellFormed(cfg, m) && k < |FrameOf(m)|
    ensures FindCompleteMessage(cfg, FrameOf(m)[..k]).Frame?
    ensures FindCompleteMessage(cfg, FrameOf(m)[..k]).status == NeedMoreData
  {
    BodyShape(m);
    hide FastProfile, AllPlain, HasTag, Body, Header;
    var n, h := |Body(m)|, |Header(|Body(m)|)|;
    if k >= h {
      assert FrameOf(m)[..k] == Header(n) + Body(m)[..k - h];
      FramesBody(cfg, n, Body(m)[..k - h]);
    } else {
      assert FrameOf(m)[..k] == Header(n)[..k];
      FramesHeaderPrefix(cfg, n, k);
    }
  }

  lemma FramesHeaderPrefix(cfg: Config, n: nat, k: nat)
    requires k < |Header(n)|
    ensures FindCompleteMessage(cfg, Header(n)[..k]).Frame?
    ensures FindCompleteMessage(cfg, Header(n)[..k]).status == NeedMoreData
  {
    var s := Header(n)[..k];
    HeaderShape(n, "");
    hide Header, Dec, ParseInt;
    assert Header(n) + "" == Header(n);
    assert forall i :: 0 <= i < k ==> s[i] == (Header(n) + "")[i];
    if k >= 10 {
      var w := Header(n) + "";
      assert s[0..9] == w[0..9] == BEGIN_STRING;
      assert s[0] == s[0..9][0] && s[1] == s[0..9][1];
      assert At(s, "8=", 0) by { assert s[0..2] == "8="; }
      SearchIs(s, "8=", 0, 0);
      FindIs(s, SOH, 0, 9);
      if k >= 14 {
        FindIs(s, SOH, 12, k);
      }
    }
  }

  // ---------------------------------------------------------------- decoding

  /** Maps that differ at most in the value of `t` become equal once `t` is set. */
  lemma {:induction false} SetAllForgets(a: FieldMap, b: FieldMap, fs: seq<Field>, t: int)
    requires a - {t} == b - {t}
    requires HasTag(fs, t)
    ensures SetAll(a, fs) == SetAll(b, fs)
    decreases |fs|
  {
    var f, tail := fs[0], fs[1..];
    var a', b' := a[f.tag := f.value], b[f.tag := f.value];
    if f.tag == t {
      assert forall k :: k != t ==> (k in a <==> k in a - {t}) && (k in b <==> k in b - {t});
      assert forall k :: k in a - {t} ==> a[k] == (a - {t})[k] == (b - {t})[k] == b[k];
      assert a' == b';
    } else {
      assert [f] + tail == fs;
      HasTagCons(f, tail, t);
      assert a' - {t} == (a - {t})[f.tag := f.value];
      assert b' - {t} == (b - {t})[f.tag := f.value];
      SetAllForgets(a', b', tail, t);
    }
  }

  /** What a specialisation has stored when it reaches the trailer. */
  function Filled(m: Message, p: Profile, stamp: string): FieldMap {
    SetAll(SetAll(Fresh(stamp), Preset(p, |Body(m)|)), AllFields(m))
  }

  lemma FilledIsContent(m: Message, p: Profile, stamp: string)
    requires p.msgType == m.msgType && HasTag(m.fields, TAG_SENDING_TIME)
    ensures Filled(m, p, stamp)[TAG_CHECKSUM := Digits(m)] == Content(m)
  {
    hide Body, Digits, HasTag, Dec;
    var n := |Body(m)|;
    var x, y := HeaderFields(n)[0], HeaderFields(n)[1];
    SetTwo(Fresh(stamp), x, y);
    SetTwo(map[], x, y);
    hide SetAll;
    FieldsAgree(p, stamp, n, m.fields, Digits(m));
    SetAllConcat(map[], HeaderFields(n), AllFields(m));
    HasTagCons(Field(TAG_MSG_TYPE, m.msgType), m.fields, TAG_SENDING_TIME);
    SetAllForgets(SetAll(Fresh(stamp), [x, y]), SetAll(map[], [x, y]), AllFields(m), TAG_SENDING_TIME);
  }

  /** Up to the trailer, a well-formed frame is always decoded completely. */
  lemma FastReachesTrailer(cfg: Config, m: Message, after: string, free: nat, stamp: string)
    requires WellFormed(cfg, m) && free > 0
    ensures var p := FastProfile(m.msgType).value; var mem := FrameOf(m) + after; var e := |FrameOf(m)|;
            && mem[..e] == FrameOf(m) && mem[e..] == after
            && FastDecode(cfg, p, mem, e, free, stamp) == FastTrailer(cfg, p, mem, e, Filled(m, p, stamp), free)
  {
    hide FastProfile, AllPlain, HasTag, Body, Header, EndsWithSoh, Tokenize, FastDecode, FastTrailer, SetAll, Preset,
      AllFields, FastFields, Balanced;
    BodyShape(m);
    var p, n, h := FastProfile(m.msgType).value, |Body(m)|, |Header(|Body(m)|)|;
    var mem := FrameOf(m) + after;
    assert mem == Header(n) + Body(m) + after && |FrameOf(m)| == h + n && mem[..h + n] == FrameOf(m);
    hide FrameOf;
    FastOnBody(cfg, p, Body(m), after, free, stamp);
    BodyTokens(m, h);
    FieldsComplete(cfg, p, mem, h, n, free, stamp, AllFields(m));
  }

  lemma FieldsComplete(cfg: Config, p: Profile, mem: string, start: nat, n: nat, free: nat, stamp: string,
      fs: seq<Field>)
    requires free > 0 && start + n <= |mem|
    requires var t := Tokenize(mem[start..start + n], false, start); t.end == Complete && t.fields == fs
    ensures FastFields(cfg, p, mem, start, n, free, stamp)
         == FastTrailer(cfg, p, mem, start + n, SetAll(SetAll(Fresh(stamp), Preset(p, n)), fs), free)
  {
    hide Tokenize, FastTrailer, SetAll, Preset;
  }

  lemma BodyTokens(m: Message, base: nat)
    requires AllPlain(AllFields(m))
    ensures Tokenize(Body(m), false, base).fields == AllFields(m)
    ensures Tokenize(Body(m), false, base).end == Complete
  {
    hide AllPlain, RenderAll, Tokenize, HasTag;
    var fs := AllFields(m);
    TokenizeNothing(false, base + |RenderAll(fs)|);
    TokenizeRendered(fs, "", false, base);
    assert RenderAll(fs) + "" == RenderAll(fs);
    assert fs + [] == fs;
  }

  /** The dispatcher sends a well-formed frame to its specialisation. */
  lemma Dispatches(cfg: Config, m: Message, after: string, free: nat, clock: nat -> string)
    requires WellFormed(cfg, m)
    ensures var p := FastProfile(m.msgType).value; var mem := FrameOf(m) + after; var e := |FrameOf(m)|;
            ParseIntelligent(cfg, mem, e, free, clock) == FastDecode(cfg, p, mem, e, free, clock(0))
  {
    BodyShape(m);
    MsgTypePlain(m);
    MsgTypeFirst(|Body(m)|, m.msgType, RenderAll(m.fields));
    hide FastProfile, AllPlain, HasTag, Body, Header, EndsWithSoh, FastDecode, ExtractMsgType, Render, RenderAll;
    assert (FrameOf(m) + after)[..|FrameOf(m)|] == FrameOf(m);
  }

  /** Both together: `parseCompleteMessage` ends as the trailer check does, or falls back. */
  lemma CompleteReachesTrailer(cfg: Config, m: Message, after: string, free: nat, clock: nat -> string)
    requires WellFormed(cfg, m) && free > 0
    ensures var p := FastProfile(m.msgType).value; var frame := FrameOf(m); var mem := frame + after;
            var t := FastTrailer(cfg, p, mem, |frame|, Filled(m, p, clock(0)), free);
            && mem[..|frame|] == frame && mem[|frame|..] == after
            && ParseCompleteMessage(cfg, mem, |frame|, free, clock) ==
               if t.outcome.Returned? && !t.outcome.Ok() then ParseMessage(cfg, frame, t.free, clock(1)) else t
  {
    BodyShape(m);
    hide FastProfile, AllPlain, HasTag, Body, Header, EndsWithSoh, FastDecode, FastTrailer, FrameOf, Filled,
      ParseMessage, ParseIntelligent, AllFields, Balanced;
    Dispatches(cfg, m, after, free, clock);
    FastReachesTrailer(cfg, m, after, free, clock(0));
    assert |FrameOf(m)| > 0;
  }

  /** Every three bytes behind "10=" have their exact verdict.  With checksum validation: an exception
      that costs a pool slot if `std::stoi` rejects them, acceptance if they read as the checksum, and
      otherwise whatever the generic decoder makes of the frame without its trailer; in strict mode, for a
      body without CheckSum, that is a rejection that keeps the slot.  Without validation they are stored
      as they are. */
  lemma TrailerVerdict(cfg: Config, m: Message, x: string, after: string, free: nat, clock: nat -> string)
    requires WellFormed(cfg, m) && free > 0 && |x| == 3
    ensures var frame := FrameOf(m); var mem := frame + ("10=" + x + after);
            var d := ParseCompleteMessage(cfg, mem, |frame|, free, clock);
            if cfg.validateChecksum && Stoi(x).None? then d == Decoded(Threw, free - 1)
            else if cfg.validateChecksum ==> ByteSum(frame) == Stoi(x).value % 256 then
              d == Decoded(Returned(Success, |frame| + 7, Some(Content(m)[TAG_CHECKSUM := x]), IDLE), free - 1)
            else
              && d == ParseMessage(cfg, frame, free, clock(1))
              && (!HasTag(m.fields, TAG_CHECKSUM) && cfg.strict ==> d == Decoded(Fail(InvalidFormat, 0, IDLE), free))
              && (!HasTag(m.fields, TAG_CHECKSUM) && d.outcome.Ok() ==> TAG_CHECKSUM !in d.outcome.message.value)
  {
    hide FastProfile, AllPlain, HasTag, Body, FrameOf, Filled, Content, ParseMessage, ParseCompleteMessage, Stoi,
      ByteSum, Balanced, Digits, FastTrailer, WellFormed;
    WellFormedFacts(cfg, m);
    var tr := "10=" + x + after;
    var p := FastProfile(m.msgType).value;
    var f := Filled(m, p, clock(0));
    CompleteReachesTrailer(cfg, m, tr, free, clock);
    TrailerReads(cfg, p, FrameOf(m) + tr, |FrameOf(m)|, f, free, x, after);
    FilledIsContent(m, p, clock(0));
    assert f[TAG_CHECKSUM := Digits(m)][TAG_CHECKSUM := x] == f[TAG_CHECKSUM := x];
    if !HasTag(m.fields, TAG_CHECKSUM) { GenericOnBareFrame(cfg, m, free, clock(1)); }
  }

  lemma WellFormedFacts(cfg: Config, m: Message)
    requires WellFormed(cfg, m)
    ensures FastProfile(m.msgType).Some? && FastProfile(m.msgType).value.msgType == m.msgType
    ensures HasTag(m.fields, TAG_SENDING_TIME) && AllPlain(AllFields(m))
  {
    BodyShape(m);
  }

  lemma TrailerReads(cfg: Config, p: Profile, mem: string, e: nat, f: FieldMap, free: nat, x: string, after: string)
    requires e <= |mem| && free > 0 && |x| == 3 && mem[e..] == "10=" + x + after
    ensures FastTrailer(cfg, p, mem, e, f, free) ==
            if cfg.validateChecksum && Stoi(x).None? then Decoded(Threw, free - 1)
            else if cfg.validateChecksum ==> ByteSum(mem[..e]) == Stoi(x).value % 256 then
              Decoded(Returned(Success, e + 7, Some(f[TAG_CHECKSUM := x]), IDLE), free - 1)
            else
              Decoded(Fail(ChecksumError, Where(p, e), ERROR_RECOVERY), free)
  {
    hide Stoi, ByteSum;
    var tr := mem[e..];
    assert tr[0..3] == "10=" && tr[3..6] == x && |tr| >= 6;
  }

  /** Without its trailer a frame has no CheckSum: the generic decoder rejects it in strict mode, and
      otherwise never reports one. */
  lemma GenericOnBareFrame(cfg: Config, m: Message, free: nat, stamp: string)
    requires AllPlain(AllFields(m)) && free > 0 && !HasTag(m.fields, TAG_CHECKSUM)
    ensures var d := ParseMessage(cfg, FrameOf(m), free, stamp);
            && d.outcome.Returned?
            && (cfg.strict ==> d == Decoded(Fail(InvalidFormat, 0, IDLE), free))
            && (d.outcome.Ok() ==> d.outcome.message.Some? && TAG_CHECKSUM !in d.outcome.message.value)
  {
    hide FastProfile, Plain, Header, EndsWithSoh, Tokenize, ChecksumMatches, SetAll, RenderAll;
    var n := |Body(m)|;
    var fs := HeaderFields(n) + AllFields(m);
    HeaderIsRendered(n);
    RenderAllConcat(HeaderFields(n), AllFields(m));
    HasTagCons(Field(TAG_MSG_TYPE, m.msgType), m.fields, TAG_CHECKSUM);
    HasTagConcat(HeaderFields(n), AllFields(m), TAG_CHECKSUM);
    hide HasTag, Dec;
    WholeTokens(fs, 0);
    SetAllAbsent(Fresh(stamp), fs, TAG_CHECKSUM);
  }

  /** A message of any other type goes to the generic decoder, which is handed the frame without its
      trailer: a strict parser never accepts one, whatever follows the frame, and keeps the pool. */
  lemma OtherTypesRejected(cfg: Config, m: Message, after: string, free: nat, clock: nat -> string)
    requires !FastType(m.msgType) && SohFree(m.msgType) && AllPlain(m.fields) && !HasTag(m.fields, TAG_CHECKSUM)
    requires cfg.strict && free > 0
    ensures ParseCompleteMessage(cfg, FrameOf(m) + after, |FrameOf(m)|, free, clock)
         == Decoded(Fail(InvalidFormat, 0, IDLE), free)
  {
    hide FastProfile, FastType, HasTag, Header, EndsWithSoh, ExtractMsgType, Render, RenderAll, ParseMessage,
      FastDecode;
    var mem, frame := FrameOf(m) + after, FrameOf(m);
    var f := Field(TAG_MSG_TYPE, m.msgType);
    assert AllFields(m)[0] == f && AllFields(m)[1..] == m.fields;
    assert Plain(f);
    assert AllPlain(AllFields(m));
    RenderCons(f, m.fields);
    MsgTypeFirst(|Body(m)|, m.msgType, RenderAll(m.fields));
    assert mem[..|frame|] == frame;
    NonEmptyHeader(|Body(m)|);
    GenericOnBareFrame(cfg, m, free, clock(0));
    GenericOnBareFrame(cfg, m, free, clock(1));
  }

  lemma RenderCons(f: Field, fs: seq<Field>)
    ensures RenderAll([f] + fs) == Render(f) + RenderAll(fs)
  {
    hide Render;
    assert ([f] + fs)[1..] == fs;
  }

  lemma NonEmptyHeader(n: nat)
    ensures |Header(n)| > 0
  {
    HeaderShape(n, "");
  }

  lemma HasTagConcat(a: seq<Field>, b: seq<Field>, tag: int)
    ensures HasTag(a + b, tag) <==> HasTag(a, tag) || HasTag(b, tag)
  {
    assert forall i :: 0 <= i < |a| ==> (a + b)[i] == a[i];
    assert forall i :: 0 <= i < |b| ==> (a + b)[|a| + i] == b[i];
    assert forall i :: |a| <= i < |a + b| ==> (a + b)[i] == b[i - |a|];
  }

  lemma WholeTokens(fs: seq<Field>, base: nat)
    requires AllPlain(fs) && !HasTag(fs, TAG_CHECKSUM)
    ensures Tokenize(RenderAll(fs), true, base).fields == fs
    ensures Tokenize(RenderAll(fs), true, base).end == Complete
  {
    hide AllPlain, RenderAll, Tokenize, HasTag;
    TokenizeNothing(true, base + |RenderAll(fs)|);
    TokenizeRendered(fs, "", true, base);
    assert RenderAll(fs) + "" == RenderAll(fs);
    assert fs + [] == fs;
  }

  lemma {:induction false} SetAllAbsent(m: FieldMap, fs: seq<Field>, k: int)
    requires k !in m && !HasTag(fs, k)
    ensures k !in SetAll(m, fs)
    decreases |fs|
  {
    if fs != [] {
      assert [fs[0]] + fs[1..] == fs;
      HasTagCons(fs[0], fs[1..], k);
      SetAllAbsent(m[fs[0].tag := fs[0].value], fs[1..], k);
    }
  }

  lemma DigitsRead(m: Message)
    ensures Stoi(Digits(m)) == Some(ByteSum(FrameOf(m)))
    ensures ByteSum(FrameOf(m)) % 256 == ByteSum(FrameOf(m))
  {
    hide FrameOf, Pad3, Stoi, DecValue, ParseInt, Total;
    Pad3Value(ByteSum(FrameOf(m)));
  }

  /** A whole message is decoded to its content and consumes exactly its bytes, whatever follows. */
  lemma DecodesWhole(cfg: Config, m: Message, after: string, free: nat, clock: nat -> string)
    requires WellFormed(cfg, m) && free > 0
    ensures ParseCompleteMessage(cfg, Wire(m) + after, |FrameOf(m)|, free, clock)
         == Decoded(Returned(Success, |Wire(m)|, Some(Content(m)), IDLE), free - 1)
  {
    hide FastProfile, AllPlain, HasTag, Body, FrameOf, Filled, Content, ParseMessage, ParseCompleteMessage, Stoi,
      ByteSum, Balanced, Trailer, Digits;
    DigitsRead(m);
    var frame, tr := FrameOf(m), Trailer(Digits(m));
    CompleteReachesTrailer(cfg, m, tr + after, free, clock);
    FilledIsContent(m, FastProfile(m.msgType).value, clock(0));
    TrailerShape(frame, Digits(m), after);
    Assoc(frame, tr, after);
  }

  /** A buffer that ends inside the trailer makes the decoder look past what was received, except that
      it never looks at the final SOH: with only that byte missing it accepts one byte early. */
  lemma DecodesCut(cfg: Config, m: Message, k: nat, free: nat, clock: nat -> string)
    requires WellFormed(cfg, m) && free > 0 && k < 7
    ensures |Trailer(Digits(m))| == 7
    ensures var d := ParseCompleteMessage(cfg, FrameOf(m) + Trailer(Digits(m))[..k], |FrameOf(m)|, free, clock);
            if k < 6 then d.outcome.Undefined?
            else d == Decoded(Returned(Success, |FrameOf(m)| + 7, Some(Content(m)), IDLE), free - 1)
  {
    hide FastProfile, AllPlain, HasTag, Body, FrameOf, Filled, Content, ParseMessage, ParseCompleteMessage, Stoi,
      ByteSum, Balanced, Digits;
    DigitsRead(m);
    var tr := Trailer(Digits(m))[..k];
    CompleteReachesTrailer(cfg, m, tr, free, clock);
    FilledIsContent(m, FastProfile(m.msgType).value, clock(0));
    assert k <= 3 ==> tr == "10="[..k];
    assert k >= 3 ==> tr[0..3] == "10=";
    assert k == 6 ==> tr[3..6] == Digits(m);
  }
}
