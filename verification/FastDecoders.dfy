/** The six `OptimizedParser` specialisations.  They share one algorithm and differ in the MsgType
    they store, the shortest frame they look at, and whether they report positions. */
module FastDecoders {
  import opened Bytes
  import opened ParserTypes
  import opened Decoders

  datatype Profile = Profile(msgType: string, minLength: nat, compact: bool)

  /** The types that are worth a decoder of their own: Heartbeat, TestRequest, ResendRequest, Reject,
      ExecutionReport and OrderCancelReject. */
  predicate FastType(msgType: string) { msgType in {"0", "1", "2", "3", "8", "9"} }

  /** The shortest frame of each, in bytes. */
  function ShortestFrame(msgType: string): nat {
    if msgType == "8" then 40 else if msgType in {"0", "9"} then 30 else 25
  }

  /** `p` is one of the six specialisations. */
  predicate Specialised(p: Profile) {
    FastType(p.msgType) && p.minLength == ShortestFrame(p.msgType) && (p.compact <==> p.msgType in {"1", "2"})
  }

  /** Dispatch table of `parseIntelligent`: every fast type has its specialisation, no other type has. */
  function FastProfile(msgType: string): (p: Option<Profile>)
    ensures p.Some? <==> FastType(msgType)
    ensures p.Some? ==> p.value.msgType == msgType && Specialised(p.value)
  {
    if msgType == "8" then Some(Profile("8", 40, false))       // EXECUTION_REPORT
    else if msgType == "0" then Some(Profile("0", 30, false))  // HEARTBEAT
    else if msgType == "9" then Some(Profile("9", 30, false))  // ORDER_CANCEL_REJECT
    else if msgType == "3" then Some(Profile("3", 25, false))  // REJECT
    else if msgType == "1" then Some(Profile("1", 25, true))   // TEST_REQUEST
    else if msgType == "2" then Some(Profile("2", 25, true))   // RESEND_REQUEST
    else None
  }

  const HEADER_SKIP := 12 // "8=FIX.4.4<SOH>9="

  /** The header fields a specialisation stores before it reads the body. */
  function Preset(p: Profile, bodyLength: nat): seq<Field> {
    [Field(TAG_BEGIN_STRING, "FIX.4.4"), Field(TAG_MSG_TYPE, p.msgType), Field(TAG_BODY_LENGTH, Dec(bodyLength))]
  }

  function Where(p: Profile, at: nat): nat { if p.compact then 0 else at }

  function FastDecode(cfg: Config, p: Profile, mem: string, length: nat, free: nat, stamp: string): (d: Decoded)
    requires length <= |mem| && p.minLength >= 25
    ensures Balanced(d, free)
  {
    if length < p.minLength then Decoded(Fail(InvalidFormat, 0, IDLE), free)
    else if mem[length - 1] != SOH then
      Decoded(if p.compact then Fail(InvalidFormat, 0, ERROR_RECOVERY) else Fail(NeedMoreData, 0, PARSING_TAG), free)
    else if !At(mem, BEGIN_STRING, 0) then Decoded(Fail(InvalidFormat, 0, ERROR_RECOVERY), free)
    else if free == 0 then Decoded(Fail(AllocationFailed, 0, ERROR_RECOVERY), free)
    else FastBody(cfg, p, mem, length, free, stamp)
  }

  /** From the BodyLength value on, holding one pool slot.  A scan told to run past the received
      bytes is Undefined. */
  function FastBody(cfg: Config, p: Profile, mem: string, length: nat, free: nat, stamp: string): (d: Decoded)
    requires HEADER_SKIP <= length <= |mem| && free > 0
    ensures Balanced(d, free)
  {
    var e := Find(mem[..length], SOH, HEADER_SKIP);
    if e == length then Decoded(Fail(NeedMoreData, 0, PARSING_BODY_LENGTH), free) else
    match ParseInt(mem[HEADER_SKIP..e])
    case NotANumber => Decoded(Fail(InvalidFormat, 0, ERROR_RECOVERY), free)
    case Overflow => Decoded(Undefined, free)
    case Number(n) =>
      FastFields(cfg, p, mem, e + 1, n, free, stamp)
  }

  /** The body `mem[start..start + n]`, field by field, then the trailer behind it. */
  function FastFields(cfg: Config, p: Profile, mem: string, start: nat, n: nat, free: nat, stamp: string): (d: Decoded)
    requires free > 0 && start <= |mem|
    ensures Balanced(d, free)
  {
    if start + n > |mem| then Decoded(Undefined, free) else
    var t := Tokenize(mem[start..start + n], false, start);
    match t.end
    case NoEquals => Decoded(Fail(InvalidFormat, Where(p, t.pos), ERROR_RECOVERY), free)
    case BadTag => Decoded(Fail(FieldParseError, Where(p, t.pos), ERROR_RECOVERY), free)
    case TagOverflow => Decoded(Undefined, free)
    case NoSoh => Decoded(Fail(InvalidFormat, Where(p, t.pos), ERROR_RECOVERY), free)
    case Complete => FastTrailer(cfg, p, mem, start + n, SetAll(SetAll(Fresh(stamp), Preset(p, n)), t.fields), free)
  }

  /** The trailer "10=ddd" is taken from the bytes right after the body.  `std::stoi` may throw, and
      then the slot is not given back. */
  function FastTrailer(cfg: Config, p: Profile, mem: string, bodyEnd: nat, m: FieldMap, free: nat): (d: Decoded)
    requires bodyEnd <= |mem| && free > 0
    ensures Balanced(d, free)
  {
    var t := mem[bodyEnd..];
    if cfg.validateChecksum && !At(t, "10=", 0) then
      if |t| < 3 && t == "10="[..|t|] then Decoded(Undefined, free)
      else Decoded(Fail(ChecksumError, Where(p, bodyEnd), ERROR_RECOVERY), free)
    else if |t| < 6 then Decoded(Undefined, free)
    else
      var accepted := Returned(Success, bodyEnd + 7, Some(m[TAG_CHECKSUM := t[3..6]]), IDLE);
      if !cfg.validateChecksum then Decoded(accepted, free - 1) else
      match Stoi(t[3..6])
      case None => Decoded(Threw, free - 1)
      case Some(x) =>
        if ByteSum(mem[..bodyEnd]) == x % 256 then Decoded(accepted, free - 1)
        else Decoded(Fail(ChecksumError, Where(p, bodyEnd), ERROR_RECOVERY), free)
  }

  // ---------------------------------------------------------------- the imperative decoder

  /** The shared body of the specialisations: one scanning loop over the body, then the checksum loop. */
  method DecodeFast(cfg: Config, p: Profile, mem: string, length: nat, free: nat, stamp: string) returns (r: Decoded)
    requires length <= |mem| && p.minLength >= 25
    ensures r == FastDecode(cfg, p, mem, length, free, stamp)
  {
    hide Tokenize, Find, Stoi, ByteSum, ParseInt, SetAll, At;
    if length < p.minLength { return Decoded(Fail(InvalidFormat, 0, IDLE), free); }
    if mem[length - 1] != SOH {
      return Decoded(if p.compact then Fail(InvalidFormat, 0, ERROR_RECOVERY)
                     else Fail(NeedMoreData, 0, PARSING_TAG), free);
    }
    if !At(mem, BEGIN_STRING, 0) { return Decoded(Fail(InvalidFormat, 0, ERROR_RECOVERY), free); }
    if free == 0 { return Decoded(Fail(AllocationFailed, 0, ERROR_RECOVERY), free); }
    var e := Find(mem[..length], SOH, HEADER_SKIP);
    if e == length { return Decoded(Fail(NeedMoreData, 0, PARSING_BODY_LENGTH), free); }
    var n := ParseInteger(mem[HEADER_SKIP..e]);
    if n.NotANumber? { return Decoded(Fail(InvalidFormat, 0, ERROR_RECOVERY), free); }
    if n.Overflow? { return Decoded(Undefined, free); }
    var bodyEnd := e + 1 + n.value;
    if bodyEnd > |mem| { return Decoded(Undefined, free); }
    var message := SetAll(Fresh(stamp), Preset(p, n.value));
    var end: TokenEnd, at: nat;
    message, end, at := ScanBody(mem[e + 1..bodyEnd], e + 1, message);
    match end {
      case NoEquals => return Decoded(Fail(InvalidFormat, Where(p, at), ERROR_RECOVERY), free);
      case BadTag => return Decoded(Fail(FieldParseError, Where(p, at), ERROR_RECOVERY), free);
      case TagOverflow => return Decoded(Undefined, free);
      case NoSoh => return Decoded(Fail(InvalidFormat, Where(p, at), ERROR_RECOVERY), free);
      case Complete =>
    }
    r := CheckTrailer(cfg, p, mem, bodyEnd, message, free);
  }

  /** The field loop: stops at the first malformed field, otherwise at the end of the body. */
  method ScanBody(body: string, base: nat, preset: FieldMap) returns (message: FieldMap, end: TokenEnd, at: nat)
    ensures var t := Tokenize(body, false, base); end == t.end && at == t.pos && message == SetAll(preset, t.fields)
  {
    hide ReadField;
    message := preset;
    var current := 0;
    ghost var done: seq<Field> := [];
    ghost var all := Tokenize(body, false, base);
    assert body[0..] == body;
    PrependNone(all);
    while current < |body|
      invariant 0 <= current <= |body|
      invariant all == Prepend(done, Tokenize(body[current..], false, base + current))
      invariant message == SetAll(preset, done)
    {
      var h := ScanField(body, current);
      assert done + [] == done;
      if h.Bad? { return message, h.why, base + current + h.at; }
      var f := h.field;
      message := message[f.tag := f.value];
      SetSnoc(preset, done, f);
      assert body[current..][h.next..] == body[current + h.next..];
      PrependTwice(done, [f], Tokenize(body[current + h.next..], false, base + current + h.next));
      current := current + h.next;
      done := done + [f];
    }
    assert done + [] == done;
    return message, Complete, base + current;
  }

  method CheckTrailer(cfg: Config, p: Profile, mem: string, bodyEnd: nat, m: FieldMap, free: nat) returns (r: Decoded)
    requires bodyEnd <= |mem| && free > 0
    ensures r == FastTrailer(cfg, p, mem, bodyEnd, m, free)
  {
    hide Stoi, ByteSum;
    var t := mem[bodyEnd..];
    if cfg.validateChecksum && !At(t, "10=", 0) {
      if |t| < 3 && t == "10="[..|t|] { return Decoded(Undefined, free); }
      return Decoded(Fail(ChecksumError, Where(p, bodyEnd), ERROR_RECOVERY), free);
    }
    if |t| < 6 { return Decoded(Undefined, free); }
    var message := m[TAG_CHECKSUM := t[3..6]];
    if cfg.validateChecksum {
      var sum := ComputeByteSum(mem[..bodyEnd]);
      var received := Stoi(t[3..6]);
      if received.None? { return Decoded(Threw, free - 1); }
      if sum != received.value % 256 {
        return Decoded(Fail(ChecksumError, Where(p, bodyEnd), ERROR_RECOVERY), free);
      }
    }
    r := Decoded(Returned(Success, bodyEnd + 7, Some(message), IDLE), free - 1);
  }

  // ---------------------------------------------------------------- dispatch

  /** `StreamParserUtils::extractMsgType`: the value after the first "35=" anywhere in the buffer. */
  function ExtractMsgType(s: string): string {
    var i := Search(s, "35=", 0);
    if i == |s| then "" else
    var e := Find(s, SOH, i + 3);
    if e == |s| then "" else s[i + 3..e]
  }

  /** `parseIntelligent`.  `clock(k)` is the SendingTime the k-th message allocation is stamped with. */
  function ParseIntelligent(cfg: Config, mem: string, length: nat, free: nat, clock: nat -> string): (d: Decoded)
    requires length <= |mem|
    ensures length > 0 ==> Balanced(d, free)
  {
    var p := FastProfile(ExtractMsgType(mem[..length]));
    if p.Some? then FastDecode(cfg, p.value, mem, length, free, clock(0))
    else ParseMessage(cfg, mem[..length], free, clock(0))
  }

  /** `parseCompleteMessage`: the dispatcher first, the generic decoder if that did not succeed.
      It keeps one pool slot exactly when it hands out a message or an exception passes through it;
      every other return gives back what it took. */
  function ParseCompleteMessage(cfg: Config, mem: string, length: nat, free: nat, clock: nat -> string): (d: Decoded)
    requires length <= |mem|
    ensures Balanced(d, free)
  {
    if length == 0 then Decoded(Fail(InvalidFormat, 0, IDLE), free) else
    var d := ParseIntelligent(cfg, mem, length, free, clock);
    if !d.outcome.Returned? || d.outcome.Ok() then d
    else ParseMessage(cfg, mem[..length], d.free, clock(1))
  }
}
