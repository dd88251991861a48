/** Messages as they appear on the wire, and what the two decoders make of them. */
module WireFormat {
  import opened Bytes
  import opened ParserTypes
  import opened Decoders
  import opened FastDecoders

  /** "8=FIX.4.4<SOH>9=n<SOH>". */
  function Header(n: nat): string {
    BEGIN_STRING + [SOH] + "9=" + Dec(n) + [SOH]
  }

  function HeaderFields(n: nat): seq<Field> {
    [Field(TAG_BEGIN_STRING, "FIX.4.4"), Field(TAG_BODY_LENGTH, Dec(n))]
  }

  function Trailer(ddd: string): string {
    "10=" + ddd + [SOH]
  }

  /** Where everything is in a buffer that starts with a header. */
  lemma HeaderShape(n: nat, rest: string)
    ensures var s := Header(n) + rest; var e := 12 + |Dec(n)|;
            && |Header(n)| == e + 1 && |s| == e + 1 + |rest|
            && At(s, BEGIN_STRING, 0) && s[9] == SOH && s[10] == '9' && s[11] == '='
            && s[12..e] == Dec(n) && s[e] == SOH && s[e + 1..] == rest
            && (forall k :: 0 <= k < 9 ==> s[k] != SOH)
            && (forall k :: 12 <= k < e ==> s[k] != SOH && s[k] != '=')
  {
    var d := Dec(n);
    var s := BEGIN_STRING + [SOH] + "9=" + d + [SOH] + rest;
    assert s == Header(n) + rest;
    hide Dec;
    assert s[..9] == BEGIN_STRING;
    assert s[12..12 + |d|] == d;
    assert forall k :: 12 <= k < 12 + |d| ==> s[k] == d[k - 12];
    assert s[13 + |d|..] == rest;
  }

  lemma HeaderIsRendered(n: nat)
    ensures Header(n) == RenderAll(HeaderFields(n))
    ensures AllPlain(HeaderFields(n)) && !HasTag(HeaderFields(n), TAG_CHECKSUM)
  {
    var a, b := HeaderFields(n)[0], HeaderFields(n)[1];
    RenderTwo(a, b);
    assert Dec(8) == "8" && Dec(9) == "9";
    hide Dec, RenderAll;
    assert Render(a) == "8=FIX.4.4" + [SOH];
    assert Render(b) == "9=" + Dec(n) + [SOH];
  }

  // ---------------------------------------------------------------- the fast path on an exact header

  predicate EndsWithSoh(s: string) { s != "" && s[|s| - 1] == SOH }

  /** A frame with an exact header and a numeral BodyLength is decoded from its body on. */
  lemma FastOnBody(cfg: Config, p: Profile, body: string, after: string, free: nat, stamp: string)
    requires 25 <= p.minLength <= |Header(|body|)| + |body|
    requires EndsWithSoh(body) && |body| <= INT_MAX && free > 0
    ensures var n := |body|; var mem := Header(n) + body + after; var h := |Header(n)|;
            && mem[h..h + n] == body && mem[h + n..] == after
            && FastDecode(cfg, p, mem, h + n, free, stamp) == FastFields(cfg, p, mem, h, n, free, stamp)
  {
    hide Header, FastFields, Find, ParseInt, At, Dec;
    var n := |body|;
    var h := |Header(n)|;
    var mem := Header(n) + body + after;
    HeaderShape(n, body + after);
    Assoc(Header(n), body, after);
    assert mem[h..] == body + after;
    assert mem[h + n..] == after;
    assert mem[h + n - 1] == body[n - 1];
    assert forall k :: 0 <= k < h + n ==> mem[..h + n][k] == mem[k];
    FindIs(mem[..h + n], SOH, HEADER_SKIP, h - 1);
    assert mem[HEADER_SKIP..h - 1] == Dec(n);
    ParseIntDec(n);
  }

  /** MsgType dispatch looks at the first "35=" in the frame; with MsgType first in the body that is it. */
  lemma MsgTypeFirst(n: nat, msgType: string, rest: string)
    requires SohFree(msgType)
    ensures ExtractMsgType(Header(n) + (Render(Field(TAG_MSG_TYPE, msgType)) + rest)) == msgType
  {
    var r := Render(Field(TAG_MSG_TYPE, msgType));
    MsgTypeField(msgType);
    hide Header, Dec, Render, ExtractMsgType;
    var s, h := Header(n) + (r + rest), |Header(n)|;
    HeaderShape(n, r + rest);
    TypeBehind(s, h, msgType, rest);
  }

  lemma MsgTypeField(msgType: string)
    ensures Render(Field(TAG_MSG_TYPE, msgType)) == "35=" + msgType + [SOH]
  {
    assert Dec(35) == Dec(3) + ['5'] == "35";
  }

  lemma TypeBehind(s: string, h: nat, msgType: string, rest: string)
    requires 13 < h <= |s| && At(s, BEGIN_STRING, 0) && s[9] == SOH && s[10] == '9' && s[11] == '=' && s[h - 1] == SOH
    requires forall k :: 12 <= k < h - 1 ==> s[k] != SOH && s[k] != '='
    requires s[h..] == "35=" + msgType + [SOH] + rest && SohFree(msgType)
    ensures ExtractMsgType(s) == msgType
  {
    var t := "35=" + msgType + [SOH] + rest;
    assert forall k :: 0 <= k < |t| ==> s[h + k] == s[h..][k] == t[k];
    assert t[0] == '3' && t[1] == '5' && t[2] == '=' && t[3..3 + |msgType|] == msgType;
    assert forall k :: 0 <= k < |msgType| ==> t[3 + k] == msgType[k];
    NoMsgTypeInHeader(s, h);
    hide At, SohFree;
    assert At(s, "35=", h) by { assert s[h..h + 3] == "35="; MeansAt(s, "35=", h); }
    SearchIs(s, "35=", 0, h);
    FindIs(s, SOH, h + 3, h + 3 + |msgType|);
    SliceOfSuffix(s, h, 3, 3 + |msgType|);
  }

  lemma MeansAt(s: string, pat: string, i: nat)
    requires i + |pat| <= |s| && s[i..i + |pat|] == pat
    ensures At(s, pat, i)
  {
  }

  lemma NoMsgTypeInHeader(s: string, h: nat)
    requires 13 < h <= |s| && At(s, BEGIN_STRING, 0) && s[9] == SOH && s[10] == '9' && s[11] == '=' && s[h - 1] == SOH
    requires forall k :: 12 <= k < h - 1 ==> s[k] != SOH && s[k] != '='
    requires h < |s| ==> s[h] != '='
    requires h + 1 < |s| ==> s[h + 1] != '='
    ensures forall k :: 0 <= k < h ==> !At(s, "35=", k)
  {
    forall k | 0 <= k < h ensures !At(s, "35=", k) {
      assert k + 3 <= |s| ==> s[k..k + 3][1] == s[k + 1] && s[k..k + 3][2] == s[k + 2];
      assert forall i :: 0 <= i < 9 ==> s[i] == s[0..9][i];
    }
  }

  // ---------------------------------------------------------------- fast and generic agree

  /** Bytes after a buffer that ends in SOH cannot turn a malformed first field into a good one. */
  lemma ReadFieldExtends(s: string, t: string)
    requires EndsWithSoh(s)
    ensures ReadField(s).Got? ==> ReadField(s + t) == ReadField(s)
    ensures ReadField(s).Bad? ==> ReadField(s + t).Bad?
  {
    var e := Find(s, '=', 0);
    var u := s + t;
    if e < |s| {
      FindExtends(s, t, '=', 0);
      assert u[..e] == s[..e];
      var q := Find(s, SOH, e + 1);
      assert q < |s|;
      FindExtends(s, t, SOH, e + 1);
      assert u[e + 1..q] == s[e + 1..q];
    } else {
      var e' := Find(u, '=', 0);
      assert forall k :: 0 <= k < |s| ==> u[k] == s[k];
      assert e' >= |s|;
      assert u[..e'][|s| - 1] == SOH;
      AccumulateMeaning(u[..e']);
    }
  }

  lemma ReadTrailer(ddd: string)
    requires |ddd| == 3 && AllDigits(ddd)
    ensures ReadField(Trailer(ddd)) == Got(Field(TAG_CHECKSUM, ddd), 7)
  {
    Delimiters("10", ddd, "");
    assert Dec(10) == Dec(1) + ['0'] == "10";
    ParseIntDec(10);
    assert "10" + "=" + ddd + [SOH] + "" == Trailer(ddd);
  }

  /** The generic scan of body and trailer against the fast scan of the body alone.  The generic scan
      stops at the first CheckSum, so a CheckSum inside the body hides whatever follows it. */
  lemma {:induction false} TokenizeTrailer(body: string, ddd: string, base: nat)
    requires body == "" || EndsWithSoh(body)
    requires |ddd| == 3 && AllDigits(ddd)
    ensures var t := Tokenize(body, false, base); var u := Tokenize(body + Trailer(ddd), true, base);
            && (u.end == Complete <==> t.end == Complete || HasTag(t.fields, TAG_CHECKSUM))
            && (u.end == Complete ==> HasTag(u.fields, TAG_CHECKSUM))
            && (t.end == Complete && !HasTag(t.fields, TAG_CHECKSUM) ==>
                u.fields == t.fields + [Field(TAG_CHECKSUM, ddd)])
    decreases |body|
  {
    hide Tokenize, ReadField, Trailer, HasTag;
    if body == "" {
      TrailerAlone(ddd, base);
    } else {
      var tr := Trailer(ddd);
      var h := ReadField(body);
      ReadFieldExtends(body, tr);
      TokenizeStep(body, false, base);
      TokenizeStep(body + tr, true, base);
      if h.Got? {
        var f, next := h.field, h.next;
        var rest := body[next..];
        var t, u := Tokenize(rest, false, base + next), Tokenize(rest + tr, true, base + next);
        assert (body + tr)[next..] == rest + tr;
        HasTagCons(f, t.fields, TAG_CHECKSUM);
        HasTagCons(f, u.fields, TAG_CHECKSUM);
        HasTagCons(f, [], TAG_CHECKSUM);
        TokenizeTrailer(rest, ddd, base + next);
        Assoc([f], t.fields, [Field(TAG_CHECKSUM, ddd)]);
        assert [f] + [] == [f];
      } else {
        HasNoTag(TAG_CHECKSUM);
      }
    }
  }

  lemma HasNoTag(tag: int)
    ensures !HasTag([], tag)
  {
  }

  lemma TrailerAlone(ddd: string, base: nat)
    requires |ddd| == 3 && AllDigits(ddd)
    ensures Tokenize("" + Trailer(ddd), true, base) == Tokens([Field(TAG_CHECKSUM, ddd)], Complete, base + 7)
    ensures Tokenize("", false, base) == Tokens([], Complete, base)
    ensures HasTag([Field(TAG_CHECKSUM, ddd)], TAG_CHECKSUM) && !HasTag([], TAG_CHECKSUM)
  {
    ReadTrailer(ddd);
    assert "" + Trailer(ddd) == Trailer(ddd);
    hide ReadField;
    assert [Field(TAG_CHECKSUM, ddd)][0].tag == TAG_CHECKSUM;
  }

  lemma TrailerShape(before: string, ddd: string, after: string)
    requires |ddd| == 3
    ensures var t := Trailer(ddd) + after; At(t, "10=", 0) && |t| >= 7 && t[3..6] == ddd
    ensures var s := before + Trailer(ddd);
            && |s| == |before| + 7 && At(s, "10=", |s| - 7) && s[|s| - 4..|s| - 1] == ddd && s[..|s| - 7] == before
  {
    var t := Trailer(ddd) + after;
    assert t[0..3] == "10=";
    assert t[3..6] == ddd;
    var s := before + Trailer(ddd);
    assert s[|before|..|before| + 3] == "10=";
    assert s[|before| + 3..|before| + 6] == ddd;
    assert s[..|before|] == before;
  }

  /** Both decoders agree about a three digit trailer. */
  lemma ChecksumsAgree(before: string, ddd: string)
    requires |ddd| == 3 && AllDigits(ddd)
    ensures Stoi(ddd) == Some(DecValue(ddd))
    ensures ChecksumMatches(before + Trailer(ddd)) <==> ByteSum(before) == DecValue(ddd) % 256
  {
    TrailerShape(before, ddd, "");
    Decimal3(ddd);
    AccumulateMeaning(ddd);
    StoiDigits(ddd);
    hide ByteSum, Trailer, DecValue, Accumulate;
  }

  /** The fields both decoders end up with. */
  function Collected(stamp: string, n: nat, fields: seq<Field>, ddd: string): FieldMap {
    SetAll(SetAll(Fresh(stamp), HeaderFields(n)), fields)[TAG_CHECKSUM := ddd]
  }

  lemma FieldsAgree(p: Profile, stamp: string, n: nat, tail: seq<Field>, ddd: string)
    ensures var fields := [Field(TAG_MSG_TYPE, p.msgType)] + tail; var c := Collected(stamp, n, fields, ddd);
            && SetAll(SetAll(Fresh(stamp), Preset(p, n)), fields)[TAG_CHECKSUM := ddd] == c
            && SetAll(Fresh(stamp), HeaderFields(n) + (fields + [Field(TAG_CHECKSUM, ddd)])) == c
            && HasRequiredFields(c)
  {
    hide Dec;
    var f := Field(TAG_MSG_TYPE, p.msgType);
    var fields := [f] + tail;
    var header := SetAll(Fresh(stamp), HeaderFields(n));
    SetTwo(Fresh(stamp), HeaderFields(n)[0], HeaderFields(n)[1]);
    SetThree(Fresh(stamp), Preset(p, n)[0], Preset(p, n)[1], Preset(p, n)[2]);
    var preset := SetAll(Fresh(stamp), Preset(p, n));
    assert fields[1..] == tail;
    assert preset[f.tag := f.value] == header[f.tag := f.value];
    SetAllConcat(Fresh(stamp), HeaderFields(n), fields + [Field(TAG_CHECKSUM, ddd)]);
    SetAllConcat(header, fields, [Field(TAG_CHECKSUM, ddd)]);
    SetTwo(SetAll(header, fields), Field(TAG_CHECKSUM, ddd), f);
    SetAllKeeps(header[f.tag := f.value], tail, TAG_BEGIN_STRING);
    SetAllKeeps(header[f.tag := f.value], tail, TAG_BODY_LENGTH);
    SetAllKeeps(header[f.tag := f.value], tail, TAG_MSG_TYPE);
  }

  /** MsgType first, then `tail`: any bytes that end in SOH. */
  function BodyOf(msgType: string, tail: string): string {
    Render(Field(TAG_MSG_TYPE, msgType)) + tail
  }

  /** The scope in which the two decoders are compared: an exact header whose BodyLength is the
      canonical numeral of the body's length, MsgType first, and three trailer digits. */
  predicate Comparable(p: Profile, tail: string, ddd: string) {
    && Specialised(p)
    && |BodyOf(p.msgType, tail)| <= INT_MAX
    && |ddd| == 3 && AllDigits(ddd)
  }

  predicate SumAccepted(cfg: Config, frame: string, ddd: string)
    requires AllDigits(ddd)
  {
    cfg.validateChecksum ==> ByteSum(frame) == DecValue(ddd) % 256
  }

  lemma ProfileSohFree(p: Profile)
    requires Specialised(p)
    ensures SohFree(p.msgType) && p.minLength >= 25
  {
  }

  lemma TokenizeMsgType(msgType: string, tail: string, stop: bool, base: nat) returns (rest: seq<Field>)
    requires SohFree(msgType)
    ensures Tokenize(BodyOf(msgType, tail), stop, base).fields == [Field(TAG_MSG_TYPE, msgType)] + rest
  {
    var f := Field(TAG_MSG_TYPE, msgType);
    TokenizeOne(f, tail, stop, base);
    rest := Tokenize(tail, stop, base + |Render(f)|).fields;
    hide Tokenize, Render;
  }

  /** The trailer check on three digits: accepted exactly when the sum is. */
  lemma FastOnTrailer(cfg: Config, p: Profile, frame: string, ddd: string, after: string, m: FieldMap, free: nat)
    requires |ddd| == 3 && AllDigits(ddd) && free > 0
    ensures var d := FastTrailer(cfg, p, frame + (Trailer(ddd) + after), |frame|, m, free);
            if SumAccepted(cfg, frame, ddd) then
              d == Decoded(Returned(Success, |frame| + 7, Some(m[TAG_CHECKSUM := ddd]), IDLE), free - 1)
            else
              !d.outcome.Ok() && !d.outcome.Threw? && d.free == free
  {
    TrailerShape(frame, ddd, after);
    ChecksumsAgree(frame, ddd);
    hide Trailer, AllDigits, Stoi, DecValue, ByteSum, ChecksumMatches, At;
    var mem := frame + (Trailer(ddd) + after);
    assert mem[|frame|..] == Trailer(ddd) + after;
    assert mem[..|frame|] == frame;
  }

  /** What a fast decoder makes of a frame it is willing to look at. */
  lemma FastOnFrame(cfg: Config, p: Profile, tail: string, ddd: string, after: string, free: nat, stamp: string)
    requires Comparable(p, tail, ddd) && free > 0
    requires var body := BodyOf(p.msgType, tail); EndsWithSoh(body) && |Header(|body|)| + |body| >= p.minLength
    ensures var body := BodyOf(p.msgType, tail); var n := |body|; var frame := Header(n) + body;
            var t := Tokenize(body, false, |Header(n)|);
            var d := FastDecode(cfg, p, frame + (Trailer(ddd) + after), |frame|, free, stamp);
            if t.end == Complete && SumAccepted(cfg, frame, ddd) then
              d == Decoded(Returned(Success, |frame| + 7, Some(Collected(stamp, n, t.fields, ddd)), IDLE), free - 1)
            else
              !d.outcome.Ok() && !d.outcome.Threw? && d.free == free
  {
    hide FastDecode, FastTrailer, Tokenize, Header, Trailer, BodyOf, Collected, SetAll, FastProfile, Preset,
      EndsWithSoh, SohFree, AllDigits, SumAccepted, HasRequiredFields, HeaderFields;
    ProfileSohFree(p);
    var body := BodyOf(p.msgType, tail);
    var n := |body|;
    var frame := Header(n) + body;
    var t := Tokenize(body, false, |Header(n)|);
    var rest := TokenizeMsgType(p.msgType, tail, false, |Header(n)|);
    FieldsAgree(p, stamp, n, rest, ddd);
    FastOnBody(cfg, p, body, Trailer(ddd) + after, free, stamp);
    FastOnTrailer(cfg, p, frame, ddd, after, SetAll(SetAll(Fresh(stamp), Preset(p, n)), t.fields), free);
  }

  /** Any other frame it turns down. */
  lemma FastTurnsDown(cfg: Config, p: Profile, tail: string, ddd: string, after: string, free: nat, stamp: string)
    requires Comparable(p, tail, ddd)
    requires var body := BodyOf(p.msgType, tail);
             free == 0 || !EndsWithSoh(body) || |Header(|body|)| + |body| < p.minLength
    ensures var body := BodyOf(p.msgType, tail); var frame := Header(|body|) + body;
            var d := FastDecode(cfg, p, frame + (Trailer(ddd) + after), |frame|, free, stamp);
            !d.outcome.Ok() && !d.outcome.Threw? && d.free == free
  {
    var body := BodyOf(p.msgType, tail);
    var frame := Header(|body|) + body;
    var mem := frame + (Trailer(ddd) + after);
    assert body != "";
    hide FastBody, BodyOf, Header, Trailer;
    assert mem[|frame| - 1] == body[|body| - 1];
  }

  lemma {:induction false} SetAllHas(m: FieldMap, fs: seq<Field>, tag: int)
    requires HasTag(fs, tag)
    ensures tag in SetAll(m, fs)
    decreases |fs|
  {
    var f, rest := fs[0], fs[1..];
    if f.tag == tag {
      SetAllKeeps(m[f.tag := f.value], rest, tag);
    } else {
      assert fs == [f] + rest;
      HasTagCons(f, rest, tag);
      SetAllHas(m[f.tag := f.value], rest, tag);
    }
  }

  /** A message with the header, a MsgType and a CheckSum has all required fields. */
  lemma Required(stamp: string, n: nat, fs: seq<Field>)
    requires HasTag(fs, TAG_MSG_TYPE) && HasTag(fs, TAG_CHECKSUM)
    ensures HasRequiredFields(SetAll(Fresh(stamp), HeaderFields(n) + fs))
  {
    hide Dec;
    SetAllConcat(Fresh(stamp), HeaderFields(n), fs);
    SetTwo(Fresh(stamp), HeaderFields(n)[0], HeaderFields(n)[1]);
    var header := SetAll(Fresh(stamp), HeaderFields(n));
    SetAllKeeps(header, fs, TAG_BEGIN_STRING);
    SetAllKeeps(header, fs, TAG_BODY_LENGTH);
    SetAllHas(header, fs, TAG_MSG_TYPE);
    SetAllHas(header, fs, TAG_CHECKSUM);
  }

  /** The generic scan of frame and trailer: the header's fields, then `fs`. */
  lemma GenericTokens(p: Profile, tail: string, ddd: string) returns (fs: seq<Field>)
    requires Comparable(p, tail, ddd) && EndsWithSoh(BodyOf(p.msgType, tail))
    ensures var body := BodyOf(p.msgType, tail); var n := |body|; var t := Tokenize(body, false, |Header(n)|);
            var u := Tokenize(Header(n) + body + Trailer(ddd), true, 0); var inner := HasTag(t.fields, TAG_CHECKSUM);
            && (u.end == Complete <==> t.end == Complete || inner)
            && (t.end == Complete && !inner ==> fs == t.fields + [Field(TAG_CHECKSUM, ddd)])
            && u.fields == HeaderFields(n) + fs && HasTag(fs, TAG_MSG_TYPE)
            && (u.end == Complete ==> HasTag(fs, TAG_CHECKSUM))
  {
    hide Tokenize, Header, Trailer, BodyOf, FastProfile, HasTag, HeaderFields, EndsWithSoh, SohFree, AllDigits,
      AllPlain, RenderAll;
    ProfileSohFree(p);
    var body, tr := BodyOf(p.msgType, tail), Trailer(ddd);
    var n := |body|;
    HeaderIsRendered(n);
    TokenizeRendered(HeaderFields(n), body + tr, true, 0);
    TokenizeTrailer(body, ddd, |Header(n)|);
    Assoc(Header(n), body, tr);
    fs := Tokenize(body + tr, true, |Header(n)|).fields;
    BodyGrows(p.msgType, tail, tr);
    var rest := TokenizeMsgType(p.msgType, tail + tr, true, |Header(n)|);
    HasTagCons(Field(TAG_MSG_TYPE, p.msgType), rest, TAG_MSG_TYPE);
  }

  lemma BodyGrows(msgType: string, tail: string, more: string)
    ensures BodyOf(msgType, tail) + more == BodyOf(msgType, tail + more)
  {
    hide Render;
  }

  lemma GenericOnFrame(cfg: Config, p: Profile, tail: string, ddd: string, free: nat, stamp: string)
    requires Comparable(p, tail, ddd) && EndsWithSoh(BodyOf(p.msgType, tail)) && free > 0
    ensures var body := BodyOf(p.msgType, tail); var n := |body|; var frame := Header(n) + body;
            var t := Tokenize(body, false, |Header(n)|); var inner := HasTag(t.fields, TAG_CHECKSUM);
            var d := ParseMessage(cfg, frame + Trailer(ddd), free, stamp);
            if (t.end == Complete || inner) && SumAccepted(cfg, frame, ddd) then
              && d.outcome.Ok() && d.outcome.consumed == |frame| + 7 && d.outcome.state == IDLE && d.free == free - 1
              && (!inner ==> d.outcome.message == Some(Collected(stamp, n, t.fields, ddd)))
            else
              !d.outcome.Ok() && !d.outcome.Threw? && d.free == free
  {
    hide Tokenize, Header, Trailer, BodyOf, Collected, SetAll, ByteSum, DecValue, FastProfile, HasTag, HeaderFields,
      ChecksumMatches, HasRequiredFields, EndsWithSoh, SohFree, AllDigits;
    ProfileSohFree(p);
    var fs := GenericTokens(p, tail, ddd);
    var body := BodyOf(p.msgType, tail);
    var n := |body|;
    var frame := Header(n) + body;
    if HasTag(fs, TAG_CHECKSUM) { Required(stamp, n, fs); }
    var rest := TokenizeMsgType(p.msgType, tail, false, |Header(n)|);
    FieldsAgree(p, stamp, n, rest, ddd);
    TrailerShape(frame, ddd, "");
    ChecksumsAgree(frame, ddd);
  }

  /** The fast decoders refine the generic one: a specialisation accepts a frame if and only if
      `parseMessage` accepts frame and trailer together, the frame ends in SOH, it has the
      specialisation's minimum length, and a CheckSum inside the body hides nothing malformed.  Without a
      CheckSum inside the body the results are then equal: fields, bytes and slots.  A frame turned down
      keeps the pool, and the dispatcher picks that specialisation. */
  lemma FastRefinesGeneric(cfg: Config, p: Profile, tail: string, ddd: string, after: string, free: nat, stamp: string)
    requires Comparable(p, tail, ddd)
    ensures var body := BodyOf(p.msgType, tail); var frame := Header(|body|) + body;
            var fast := FastDecode(cfg, p, frame + (Trailer(ddd) + after), |frame|, free, stamp);
            var generic := ParseMessage(cfg, frame + Trailer(ddd), free, stamp);
            var t := Tokenize(body, false, |Header(|body|)|); var inner := HasTag(t.fields, TAG_CHECKSUM);
            && FastProfile(ExtractMsgType(frame)) == Some(p)
            && (fast.outcome.Ok() <==>
                generic.outcome.Ok() && EndsWithSoh(body) && |frame| >= p.minLength && (inner ==> t.end == Complete))
            && (fast.outcome.Ok() ==> fast.outcome.consumed == generic.outcome.consumed)
            && (fast.outcome.Ok() && !inner ==> fast == generic)
            && fast.free == (if fast.outcome.Ok() then free - 1 else free)
            && generic.free == (if generic.outcome.Ok() then free - 1 else free)
  {
    ProfileSohFree(p);
    var body := BodyOf(p.msgType, tail);
    MsgTypeFirst(|body|, p.msgType, tail);
    if free > 0 && EndsWithSoh(body) { GenericOnFrame(cfg, p, tail, ddd, free, stamp); }
    if free > 0 && EndsWithSoh(body) && |Header(|body|)| + |body| >= p.minLength {
      FastOnFrame(cfg, p, tail, ddd, after, free, stamp);
    } else {
      FastTurnsDown(cfg, p, tail, ddd, after, free, stamp);
    }
    hide FastDecode, ExtractMsgType, Tokenize, BodyOf, Header, Trailer, FastProfile, SumAccepted, EndsWithSoh,
      Validate, HasTag;
  }

  // ---------------------------------------------------------------- where they disagree

  /** A frame that does not end in SOH: a "0" behind the last field.  The generic scan reads on into the
      trailer, where "010" is CheckSum; whatever the fields, it accepts. */
  lemma LooseEnd(cfg: Config, p: Profile, fs: seq<Field>, after: string, free: nat, stamp: string)
    requires Specialised(p) && AllPlain(fs) && !HasTag(fs, TAG_CHECKSUM) && free > 0
    requires |BodyOf(p.msgType, RenderAll(fs) + "0")| <= INT_MAX
    ensures var body := BodyOf(p.msgType, RenderAll(fs) + "0"); var frame := Header(|body|) + body;
            var ddd := Pad3(ByteSum(frame));
            && !FastDecode(cfg, p, frame + (Trailer(ddd) + after), |frame|, free, stamp).outcome.Ok()
            && ParseMessage(cfg, frame + Trailer(ddd), free, stamp).outcome.Ok()
  {
    hide Pad3, ByteSum, Tokenize, FastDecode, Header, Trailer, Stoi, ParseInt, DecValue, HasTag, RenderAll, AllPlain,
      FastProfile, SetAll, HasRequiredFields, ChecksumMatches, HeaderFields, AllDigits, SohFree, BodyOf;
    var body := BodyOf(p.msgType, RenderAll(fs) + "0");
    var n := |body|;
    var frame := Header(n) + body;
    var ddd := Pad3(ByteSum(frame));
    Pad3Value(ByteSum(frame));
    Pad3Decimal(ByteSum(frame));
    LooseBody(p.msgType, fs);
    FastTurnsDown(cfg, p, RenderAll(fs) + "0", ddd, after, free, stamp);
    LooseTokens(p, fs, ddd);
    var all := [Field(TAG_MSG_TYPE, p.msgType)] + fs + [Field(TAG_CHECKSUM, ddd)];
    LooseTags(p.msgType, fs, ddd);
    Required(stamp, n, all);
    ChecksumsAgree(frame, ddd);
    TrailerShape(frame, ddd, "");
  }

  lemma LooseBody(msgType: string, fs: seq<Field>)
    ensures !EndsWithSoh(BodyOf(msgType, RenderAll(fs) + "0"))
  {
    hide Render, RenderAll;
    var body := BodyOf(msgType, RenderAll(fs) + "0");
    assert body[|body| - 1] == '0';
  }

  lemma LooseTags(msgType: string, fs: seq<Field>, ddd: string)
    ensures var all := [Field(TAG_MSG_TYPE, msgType)] + fs + [Field(TAG_CHECKSUM, ddd)];
            HasTag(all, TAG_MSG_TYPE) && HasTag(all, TAG_CHECKSUM)
  {
    var all := [Field(TAG_MSG_TYPE, msgType)] + fs + [Field(TAG_CHECKSUM, ddd)];
    assert all[0].tag == TAG_MSG_TYPE && all[|all| - 1].tag == TAG_CHECKSUM;
  }

  /** The generic scan of header, fields, "0" and trailer. */
  lemma LooseTokens(p: Profile, fs: seq<Field>, ddd: string)
    requires Specialised(p) && AllPlain(fs) && !HasTag(fs, TAG_CHECKSUM)
    requires |ddd| == 3 && AllDigits(ddd)
    ensures var body := BodyOf(p.msgType, RenderAll(fs) + "0"); var n := |body|;
            var u := Tokenize(Header(n) + body + Trailer(ddd), true, 0);
            && u.end == Complete
            && u.fields == HeaderFields(n) + ([Field(TAG_MSG_TYPE, p.msgType)] + fs + [Field(TAG_CHECKSUM, ddd)])
  {
    hide Tokenize, Header, Trailer, FastProfile, HasTag, HeaderFields, SohFree, AllDigits, AllPlain, RenderAll, Render;
    ProfileSohFree(p);
    var f, c := Field(TAG_MSG_TYPE, p.msgType), Field(TAG_CHECKSUM, ddd);
    var body, tr := BodyOf(p.msgType, RenderAll(fs) + "0"), Trailer(ddd);
    var n := |body|;
    var h := |Header(n)|;
    HeaderIsRendered(n);
    TokenizeRendered(HeaderFields(n), body + tr, true, 0);
    Assoc(Header(n), body, tr);
    var rest := RenderAll(fs) + ("0" + tr);
    assert body + tr == Render(f) + rest;
    TokenizeOne(f, rest, true, h);
    TokenizeRendered(fs, "0" + tr, true, h + |Render(f)|);
    LooseTrailer(ddd, h + |Render(f)| + |RenderAll(fs)|);
    assert [f] + (fs + [c]) == [f] + fs + [c];
  }

  lemma LooseTrailer(ddd: string, base: nat)
    requires |ddd| == 3 && AllDigits(ddd)
    ensures Tokenize("0" + Trailer(ddd), true, base) == Tokens([Field(TAG_CHECKSUM, ddd)], Complete, base + 8)
  {
    var s := "0" + Trailer(ddd);
    Delimiters("010", ddd, "");
    Decimal3("010");
    AccumulateMeaning("010");
    assert "010" + "=" + ddd + [SOH] + "" == s;
    assert ReadField(s) == Got(Field(TAG_CHECKSUM, ddd), 8) by { hide DecValue, Accumulate; }
    hide ReadField;
  }

  /** A frame below the minimum length: a TestRequest with nothing but its MsgType. */
  lemma ShortFrame(cfg: Config, after: string, free: nat, stamp: string)
    requires free > 0
    ensures var p := Profile("1", 25, true); var frame := Header(5) + BodyOf("1", "");
            var ddd := Pad3(ByteSum(frame));
            && !FastDecode(cfg, p, frame + (Trailer(ddd) + after), |frame|, free, stamp).outcome.Ok()
            && ParseMessage(cfg, frame + Trailer(ddd), free, stamp).outcome.Ok()
  {
    hide Pad3, ByteSum, Tokenize, FastDecode, ParseMessage, Header, BodyOf, Trailer, Stoi, ParseInt, DecValue,
      EndsWithSoh, HasTag;
    var p, body := Profile("1", 25, true), BodyOf("1", "");
    var frame := Header(5) + body;
    ShortBody();
    Pad3Value(ByteSum(frame));
    Pad3Decimal(ByteSum(frame));
    var ddd := Pad3(ByteSum(frame));
    GenericOnFrame(cfg, p, "", ddd, free, stamp);
    FastTurnsDown(cfg, p, "", ddd, after, free, stamp);
  }

  lemma ShortBody()
    ensures var body := BodyOf("1", ""); |body| == 5 && EndsWithSoh(body) && |Header(5)| == 14
    ensures var t := Tokenize(BodyOf("1", ""), false, 14); t.end == Complete && !HasTag(t.fields, TAG_CHECKSUM)
  {
    MsgTypeField("1");
    HeaderShape(5, "");
    assert |Dec(5)| == 1;
    var f := Field(TAG_MSG_TYPE, "1");
    hide Dec, Header;
    assert BodyOf("1", "") == "35=1" + [SOH];
    TokenizeOne(f, "", false, 14);
    TokenizeNothing(false, 14 + |Render(f)|);
    hide Tokenize;
    assert [f] + [] == [f];
  }
}
