/** Printing a message and feeding the bytes to the stream parser. */
module PrintParse {
  import opened Bytes
  import opened ParserTypes
  import opened Framing
  import opened Decoders
  import opened FastDecoders
  import opened WireFormat
  import opened FastMessages
  import opened StreamParser
  import opened FieldLists
  import opened Printer

  /** The printed message as the wire format sees it. */
  function AsMessage(fs: seq<Field>): Message {
    Message(Get(MapOf(fs), TAG_MSG_TYPE), Except(fs, PRINTED_APART))
  }

  /** A message of a fast type that the printer and the parser's limits both admit.  BodyLength and
      CheckSum may be stored or not, with any value. */
  predicate Sendable(cfg: Config, fs: seq<Field>) {
    && DistinctTags(fs)
    && TAG_MSG_TYPE in MapOf(fs) && BeginStringOf(MapOf(fs)) == "FIX.4.4"
    && WellFormed(cfg, AsMessage(fs))
  }

  /** What the receiver should end up with. */
  function Sent(fs: seq<Field>): FieldMap {
    MapOf(fs)[TAG_BEGIN_STRING := "FIX.4.4"][TAG_BODY_LENGTH := Dec(BodyLengthOf(fs))][TAG_CHECKSUM := ChecksumOf(fs)]
  }

  /** Header, BodyLength and body come out of the printer as a wire frame. */
  lemma PrintsFrame(fs: seq<Field>)
    requires DistinctTags(fs) && TAG_MSG_TYPE in MapOf(fs) && BeginStringOf(MapOf(fs)) == "FIX.4.4"
    ensures PrintedPrefix(fs) == FrameOf(AsMessage(fs))
    ensures |Body(AsMessage(fs))| == BodyLengthOf(fs)
    ensures PrintedFields(fs) == HeaderFields(BodyLengthOf(fs)) + AllFields(AsMessage(fs))
  {
    hide Render, RenderAll, Except, MapOf, Dec, Header, BodyLengthOf;
    var m, p := AsMessage(fs), PrintedFields(fs);
    BodyLengthMeaning(fs);
    assert p[2..] == AllFields(m);
    assert p[..2] == HeaderFields(BodyLengthOf(fs));
    assert p == p[..2] + p[2..];
    HeaderIsRendered(BodyLengthOf(fs));
  }

  lemma ContentIsSent(fs: seq<Field>)
    requires DistinctTags(fs) && TAG_MSG_TYPE in MapOf(fs) && BeginStringOf(MapOf(fs)) == "FIX.4.4"
    ensures Content(AsMessage(fs))[TAG_CHECKSUM := ChecksumOf(fs)] == Sent(fs)
  {
    PrintsFrame(fs);
    hide Render, RenderAll, Except, MapOf, Dec, Header, BodyLengthOf, FrameOf, Body, SetAll, ChecksumOf, PrintedPrefix,
      Digits, DistinctTags, PrintedFields, HeaderFields, AllFields;
    StorePrinted(map[], fs);
    var p, c := PrintedFields(fs), Field(TAG_CHECKSUM, ChecksumOf(fs));
    SetAllConcat(map[], p, [c]);
    SetTwo(SetAll(map[], p), c, c);
    var m, s, x := MapOf(fs), SetAll(map[], p), ChecksumOf(fs);
    assert map[] + m == m;
    assert Content(AsMessage(fs)) == s[TAG_CHECKSUM := Digits(AsMessage(fs))];
    assert Content(AsMessage(fs))[TAG_CHECKSUM := x] == s[TAG_CHECKSUM := x];
    var b, n := Field(TAG_BEGIN_STRING, "FIX.4.4").value, Dec(BodyLengthOf(fs));
    assert s[TAG_CHECKSUM := x] ==
        m[TAG_BEGIN_STRING := b][TAG_BODY_LENGTH := n][TAG_MSG_TYPE := m[TAG_MSG_TYPE]][TAG_CHECKSUM := x];
  }

  /** Does the receiver accept the trailer? */
  predicate TrailerAccepted(cfg: Config, fs: seq<Field>) { cfg.validateChecksum ==> Excess(fs) % 256 == 0 }

  /** Print then parse: the parser takes the message apart into exactly its fields if and only if the
      printed header bytes and the stored ones agree modulo 256 or checksums are not validated.  All bytes
      are then consumed.  Otherwise a strict parser rejects the message, decodes nothing and keeps the
      pool as it was. */
  lemma PrintThenParse(cfg: Config, fs: seq<Field>, k: Memory, clock: Clock)
    requires Sendable(cfg, fs)
    requires k.partial == "" && k.free > 0 && !BreakerOpen(cfg, k)
    ensures var c := Parse(cfg, k, Print(fs), clock);
            && (c.decoded == [Sent(fs)] <==> TrailerAccepted(cfg, fs))
            && (TrailerAccepted(cfg, fs) ==>
                  && c.outcome == Returned(Success, |Print(fs)|, Some(Sent(fs)), IDLE)
                  && c.memory == Memory("", k.free - 1, 0, k.state))
            && (!TrailerAccepted(cfg, fs) && cfg.strict ==>
                  c.outcome == Fail(InvalidFormat, 0, IDLE) && c.memory.free == k.free && c.decoded == [])
  {
    hide WellFormed, FrameOf, Trailer, Content, FindCompleteMessage, ParseCompleteMessage, Render, Print,
      TrailerAccepted, Sent, PrintedPrefix, ChecksumOf, AsMessage, DistinctTags, MapOf, BreakerOpen, BeginStringOf,
      AttemptErrorRecovery, Cons, Kept, Parse;
    var frame, x := FrameOf(AsMessage(fs)), ChecksumOf(fs);
    var tr := "10=" + x + [SOH];
    PrintedText(fs);
    FramesWhole(cfg, AsMessage(fs), tr);
    PrintedVerdict(cfg, fs, k.free, clock(0));
    ParsesOne(cfg, Print(fs), |frame|, Sent(fs), k, clock);
    SentHasCheckSum(fs);
  }

  lemma SentHasCheckSum(fs: seq<Field>)
    ensures TAG_CHECKSUM in Sent(fs)
  {
    hide MapOf, Dec, BodyLengthOf, ChecksumOf;
  }

  lemma PrintedText(fs: seq<Field>)
    requires DistinctTags(fs) && TAG_MSG_TYPE in MapOf(fs) && BeginStringOf(MapOf(fs)) == "FIX.4.4"
    ensures Print(fs) == FrameOf(AsMessage(fs)) + ("10=" + ChecksumOf(fs) + [SOH])
    ensures |Print(fs)| == |FrameOf(AsMessage(fs))| + 7
  {
    PrintsFrame(fs);
    CheckSumField(ChecksumOf(fs));
    hide PrintedPrefix, Render, FrameOf, StoredText, Pad3, AsMessage, DistinctTags, MapOf;
    assert |ChecksumOf(fs)| == 3;
  }

  lemma PrintedVerdict(cfg: Config, fs: seq<Field>, free: nat, clock: nat -> string)
    requires Sendable(cfg, fs) && free > 0
    ensures var frame := FrameOf(AsMessage(fs)); var mem := frame + ("10=" + ChecksumOf(fs) + [SOH]);
            var d := ParseCompleteMessage(cfg, mem, |frame|, free, clock);
            if TrailerAccepted(cfg, fs) then
              d == Decoded(Returned(Success, |frame| + 7, Some(Sent(fs)), IDLE), free - 1)
            else
              && (cfg.strict ==> d == Decoded(Fail(InvalidFormat, 0, IDLE), free))
              && (d.outcome.Ok() ==> TAG_CHECKSUM !in d.outcome.message.value)
  {
    hide WellFormed, FrameOf, Content, ParseCompleteMessage, Excess, Sent, AsMessage, DistinctTags, MapOf, HasTag,
      BeginStringOf, ChecksumOf, ByteSum, Stoi;
    NoStoredCheckSum(fs);
    ContentIsSent(fs);
    ChecksumReads(fs);
    TrailerVerdict(cfg, AsMessage(fs), ChecksumOf(fs), [SOH], free, clock);
  }

  /** The printed trailer reads as a number, and when it is the frame's sum. */
  lemma ChecksumReads(fs: seq<Field>)
    requires DistinctTags(fs) && TAG_MSG_TYPE in MapOf(fs) && BeginStringOf(MapOf(fs)) == "FIX.4.4"
    ensures |ChecksumOf(fs)| == 3 && Stoi(ChecksumOf(fs)).Some?
    ensures ByteSum(FrameOf(AsMessage(fs))) == Stoi(ChecksumOf(fs)).value % 256 <==> Excess(fs) % 256 == 0
  {
    hide FrameOf, Excess, PrintedPrefix, AsMessage, DistinctTags, MapOf, BeginStringOf, StoredText, Pad3, Stoi, Total,
      PrintedFields, HeaderFields, AllFields, Body, BodyLengthOf;
    PrintsFrame(fs);
    TrailerIsRight(fs);
    Pad3Reads(ByteSum(StoredText(fs)), ByteSum(PrintedPrefix(fs)));
  }

  lemma NoStoredCheckSum(fs: seq<Field>)
    ensures !HasTag(AsMessage(fs).fields, TAG_CHECKSUM)
  {
    ExceptMembers(fs, PRINTED_APART);
  }

  /** A chunk that is one framed message: the call ends as its decoder does. */
  lemma ParsesOne(cfg: Config, s: string, n: nat, sent: FieldMap, k: Memory, clock: Clock)
    requires k.partial == "" && k.free > 0 && !BreakerOpen(cfg, k)
    requires 14 <= n <= |s| && FindCompleteMessage(cfg, s) == Frame(Success, 0, IDLE, 0, n, true)
    ensures var d := ParseCompleteMessage(cfg, s, n, k.free, clock(0));
            var c := Parse(cfg, k, s, clock);
            && (d == Decoded(Returned(Success, |s|, Some(sent), IDLE), k.free - 1) ==>
                 && c.outcome == Returned(Success, |s|, Some(sent), IDLE)
                 && c.memory == Memory("", k.free - 1, 0, k.state)
                 && c.decoded == [sent])
            && (d == Decoded(Fail(InvalidFormat, 0, IDLE), k.free) ==>
                 c.outcome == Fail(InvalidFormat, 0, IDLE) && c.memory.free == k.free && c.decoded == [])
            && (!d.outcome.Ok() ==> c.decoded == [])
            && (d.outcome.Ok() ==> c.decoded != [] && c.decoded[0] == d.outcome.message.value)
  {
    hide FindCompleteMessage, ParseCompleteMessage, BreakerOpen, AttemptErrorRecovery, Kept, Drain;
    assert k.partial + s == s && s[0..] == s && s[|s|..] == "";
    DrainUnfolds(cfg, s, 0, k, None, clock);
    DrainUnfolds(cfg, "", |s|, Memory("", k.free - 1, 0, k.state), Some(sent), clock);
    assert [sent] + [] == [sent];
  }

  /** A trailer that is no number ends the call in its `catch` block: nothing is decoded, the rest of the
      buffer is dropped, and the pool is a slot short. */
  lemma LostSlot(cfg: Config, m: Message, x: string, after: string, k: Memory, clock: Clock)
    requires WellFormed(cfg, m) && cfg.validateChecksum && |x| == 3 && Stoi(x).None?
    requires k.partial == "" && k.free > 0 && !BreakerOpen(cfg, k)
    ensures var c := Parse(cfg, k, FrameOf(m) + ("10=" + x + after), clock);
            c == Call(Fail(InvalidFormat, 0, ERROR_RECOVERY), k.(free := k.free - 1), [], true)
  {
    hide WellFormed, FrameOf, FindCompleteMessage, ParseCompleteMessage, BreakerOpen, Stoi, Kept, Drain, Content,
      ByteSum;
    var tr := "10=" + x + after;
    var s := FrameOf(m) + tr;
    FramesWhole(cfg, m, tr);
    TrailerVerdict(cfg, m, x, after, k.free, clock(0));
    assert k.partial + s == s && s[0..] == s && s != "";
    DrainUnfolds(cfg, s, 0, k, None, clock);
  }
}
