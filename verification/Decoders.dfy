/** Stage 2 of `StreamFixParser::parse`: the generic decoder `parseMessage`, the hand-specialised
    fast decoders, and the dispatch between them.

    A decoder that starts at some byte of a receive buffer may look at every byte received after it,
    whatever length it is told; `mem` is all of those bytes and `length` the frame it is handed. */
module Decoders {
  import opened Bytes
  import opened ParserTypes

  // ---------------------------------------------------------------- tag=value<SOH> tokens

  datatype TokenEnd = Complete | NoEquals | BadTag | TagOverflow | NoSoh

  /** The fields read before the scan ended, why it ended, and where. */
  datatype Tokens = Tokens(fields: seq<Field>, end: TokenEnd, pos: nat)

  function Prepend(fs: seq<Field>, t: Tokens): Tokens {
    t.(fields := fs + t.fields)
  }

  /** One field at the front of a buffer and where the next one starts, or why there is none. */
  datatype Head = Got(field: Field, next: nat) | Bad(why: TokenEnd, at: nat)

  function ReadField(s: string): (h: Head)
    ensures h.Got? ==> 0 < h.next <= |s|
    ensures h.Bad? ==> h.why != Complete
  {
    var e := Find(s, '=', 0);
    if e == |s| then Bad(NoEquals, 0) else
    match ParseInt(s[..e])
    case NotANumber => Bad(BadTag, 0)
    case Overflow => Bad(TagOverflow, 0)
    case Number(tag) =>
      var q := Find(s, SOH, e + 1);
      if q == |s| then Bad(NoSoh, e + 1) else Got(Field(tag, s[e + 1..q]), q + 1)
  }

  /** Reads fields off the front of `s`; `stop` ends the scan after CheckSum (10).
      `base` is the position of `s` in the enclosing buffer. */
  function Tokenize(s: string, stop: bool, base: nat): Tokens
    decreases |s|
  {
    if s == "" then Tokens([], Complete, base) else
    match ReadField(s)
    case Bad(why, at) => Tokens([], why, base + at)
    case Got(f, next) =>
      if stop && f.tag == TAG_CHECKSUM then Tokens([f], Complete, base + next)
      else Prepend([f], Tokenize(s[next..], stop, base + next))
  }

  predicate HasTag(fs: seq<Field>, tag: int) {
    exists i :: 0 <= i < |fs| && fs[i].tag == tag
  }

  lemma HasTagCons(f: Field, fs: seq<Field>, tag: int)
    ensures HasTag([f] + fs, tag) <==> f.tag == tag || HasTag(fs, tag)
  {
    var all := [f] + fs;
    assert all[0] == f && forall i :: 0 <= i < |fs| ==> all[i + 1] == fs[i];
    assert forall i :: 1 <= i < |all| ==> all[i] == fs[i - 1];
  }

  lemma TokenizeNothing(stop: bool, base: nat)
    ensures Tokenize("", stop, base) == Tokens([], Complete, base)
  {
  }

  /** One unfolding of `Tokenize`. */
  lemma TokenizeStep(s: string, stop: bool, base: nat)
    requires s != ""
    ensures ReadField(s).Bad? ==> Tokenize(s, stop, base) == Tokens([], ReadField(s).why, base + ReadField(s).at)
    ensures ReadField(s).Bad? ==> ReadField(s).why != Complete
    ensures ReadField(s).Got? ==>
              var f, next := ReadField(s).field, ReadField(s).next;
              Tokenize(s, stop, base) ==
              if stop && f.tag == TAG_CHECKSUM then Tokens([f], Complete, base + next)
              else Prepend([f], Tokenize(s[next..], stop, base + next))
  {
    hide ReadField;
  }

  /** A field the printer can produce and the tokenizer can read back. */
  predicate Plain(f: Field) {
    0 <= f.tag <= INT_MAX && SohFree(f.value)
  }

  predicate AllPlain(fs: seq<Field>) { forall i :: 0 <= i < |fs| ==> Plain(fs[i]) }

  lemma ReadRendered(f: Field, rest: string)
    requires Plain(f)
    ensures Render(f) != ""
    ensures ReadField(Render(f) + rest) == Got(f, |Render(f)|)
    ensures (Render(f) + rest)[|Render(f)|..] == rest
  {
    var t, v := Dec(f.tag), f.value;
    Delimiters(t, v, rest);
    ParseIntDec(f.tag);
    hide Dec, ParseInt, Find, SohFree;
    var s := t + "=" + v + [SOH] + rest;
    assert s == Render(f) + rest;
  }

  lemma PrependNone(t: Tokens)
    ensures Prepend([], t) == t
  {
    assert [] + t.fields == t.fields;
  }

  lemma PrependTwice(a: seq<Field>, b: seq<Field>, t: Tokens)
    ensures Prepend(a, Prepend(b, t)) == Prepend(a + b, t)
  {
    assert a + (b + t.fields) == (a + b) + t.fields;
  }

  lemma TokenizeOne(f: Field, rest: string, stop: bool, base: nat)
    requires Plain(f) && !(stop && f.tag == TAG_CHECKSUM)
    ensures Tokenize(Render(f) + rest, stop, base) == Prepend([f], Tokenize(rest, stop, base + |Render(f)|))
  {
    hide ReadField, Render, Plain, Prepend, Tokenize;
    ReadRendered(f, rest);
    assert Render(f) + rest != "";
    TokenizeStep(Render(f) + rest, stop, base);
  }

  /** Tokenizing undoes rendering, in front of any continuation. */
  lemma {:induction false} TokenizeRendered(fs: seq<Field>, rest: string, stop: bool, base: nat)
    requires AllPlain(fs) && !(stop && HasTag(fs, TAG_CHECKSUM))
    ensures Tokenize(RenderAll(fs) + rest, stop, base)
         == Prepend(fs, Tokenize(rest, stop, base + |RenderAll(fs)|))
    decreases |fs|
  {
    hide Tokenize, Render, Plain, Prepend;
    var t := Tokenize(rest, stop, base + |RenderAll(fs)|);
    if fs == [] {
      assert RenderAll(fs) + rest == rest;
      PrependNone(t);
    } else {
      var f, tail := fs[0], fs[1..];
      assert AllPlain(tail);
      assert HasTag(tail, TAG_CHECKSUM) ==> HasTag(fs, TAG_CHECKSUM);
      Assoc(Render(f), RenderAll(tail), rest);
      TokenizeOne(f, RenderAll(tail) + rest, stop, base);
      TokenizeRendered(tail, rest, stop, base + |Render(f)|);
      PrependTwice([f], tail, t);
      assert [f] + tail == fs;
    }
  }

  // ---------------------------------------------------------------- the generic decoder

  /** A decoder's outcome and the free pool slots it leaves. */
  datatype Decoded = Decoded(outcome: Outcome, free: nat)

  function Fail(status: ParseStatus, at: nat, state: ParseState): Outcome {
    Returned(status, at, None, state)
  }

  /** `validateMessageChecksum`. */
  predicate ChecksumMatches(s: string) {
    |s| >= 7 && At(s, "10=", |s| - 7) &&
    var x := ParseInt(s[|s| - 4..|s| - 1]);
    x.Number? && ByteSum(s[..|s| - 7]) == x.value % 256
  }

  /** `validateParsedMessage`. */
  predicate HasRequiredFields(m: FieldMap) {
    TAG_BEGIN_STRING in m && TAG_BODY_LENGTH in m && TAG_MSG_TYPE in m && TAG_CHECKSUM in m
  }

  /** A pool message as its default constructor leaves it: SendingTime is already set. */
  function Fresh(stamp: string): FieldMap {
    map[TAG_SENDING_TIME := stamp]
  }

  /** Slot balance: a decoder keeps the one slot it took when it hands out a message, loses it when
      an exception passes through, and gives it back on every other return. */
  predicate Balanced(d: Decoded, free: nat) {
    && (d.outcome.Ok() ==> d.outcome.message.Some? && d.outcome.consumed > 0 && d.free == free - 1)
    && (d.outcome.Threw? ==> d.free == free - 1)
    && (d.outcome.Returned? && !d.outcome.Ok() ==> d.outcome.message.None? && d.free == free)
  }

  /** A decoder keeps the slot it took exactly when it hands out a message. */
  function Settle(o: Outcome, free: nat): Decoded
    requires free > 0
  {
    Decoded(o, if o.Ok() then free - 1 else free)
  }

  /** `parseMessage` over the whole of `s`. */
  function ParseMessage(cfg: Config, s: string, free: nat, stamp: string): (d: Decoded)
    ensures s != "" ==> Balanced(d, free)
    ensures !d.outcome.Threw?
  {
    if free == 0 then Decoded(Fail(AllocationFailed, 0, IDLE), 0) else
    var t := Tokenize(s, true, 0);
    Settle(if t.end == TagOverflow then Undefined
           else if t.end != Complete then Fail(InvalidFormat, t.pos, IDLE)
           else Validate(cfg, s, SetAll(Fresh(stamp), t.fields)), free)
  }

  function Validate(cfg: Config, s: string, m: FieldMap): Outcome {
    if cfg.strict && !HasRequiredFields(m) then Fail(InvalidFormat, 0, IDLE)
    else if cfg.validateChecksum && !ChecksumMatches(s) then Fail(ChecksumError, 0, IDLE)
    else Returned(Success, |s|, Some(m), IDLE)
  }

  /** The scanning loop of `parseMessage`, with the message it fills and the slot it holds. */
  method DecodeGeneric(cfg: Config, s: string, free: nat, stamp: string) returns (r: Decoded)
    ensures r == ParseMessage(cfg, s, free, stamp)
  {
    hide ReadField, ChecksumMatches, HasRequiredFields, Find, Tokenize, SetAll, Balanced;
    if free == 0 { return Decoded(Fail(AllocationFailed, 0, IDLE), 0); }
    var message := Fresh(stamp);
    var current := 0;
    ghost var done: seq<Field> := [];
    ghost var all := Tokenize(s, true, 0);
    assert s[0..] == s;
    PrependNone(all);
    SetNothing(message);
    TokenizeNothing(true, |s|);
    assert s[|s|..] == "";
    while current < |s|
      invariant 0 <= current <= |s|
      invariant all == Prepend(done, Tokenize(s[current..], true, current))
      invariant message == SetAll(Fresh(stamp), done)
    {
      var h := ScanField(s, current);
      TokenizeStep(s[current..], true, current);
      if h.Bad? {
        if h.why == TagOverflow { return Decoded(Undefined, free); }
        return Decoded(Fail(InvalidFormat, current + h.at, IDLE), free);
      }
      var f := h.field;
      message := message[f.tag := f.value];
      SetSnoc(Fresh(stamp), done, f);
      assert s[current..][h.next..] == s[current + h.next..];
      PrependTwice(done, [f], Tokenize(s[current + h.next..], true, current + h.next));
      current := current + h.next;
      done := done + [f];
      if f.tag == TAG_CHECKSUM {
        assert all.end == Complete && all.fields == done;
        break;
      }
    }
    assert done + [] == done;
    assert all.end == Complete && all.fields == done;
    if cfg.strict && !HasRequiredFields(message) {
      return Decoded(Fail(InvalidFormat, 0, IDLE), free);
    }
    if cfg.validateChecksum && !ChecksumMatches(s) {
      return Decoded(Fail(ChecksumError, 0, IDLE), free);
    }
    r := Decoded(Returned(Success, |s|, Some(message), IDLE), free - 1);
  }

  /** One turn of the scanning loop: pointers into the buffer instead of a copied suffix. */
  method ScanField(s: string, current: nat) returns (h: Head)
    requires current < |s|
    ensures h == ReadField(s[current..])
  {
    hide ParseInt, Find;
    ghost var rest := s[current..];
    var equals := Find(s, '=', current);
    FindInSuffix(s, current, '=', current);
    if equals == |s| { return Bad(NoEquals, 0); }
    SliceOfSuffix(s, current, 0, equals - current);
    var tag := ParseInteger(s[current..equals]);
    if tag.NotANumber? { return Bad(BadTag, 0); }
    if tag.Overflow? { return Bad(TagOverflow, 0); }
    var soh := Find(s, SOH, equals + 1);
    FindInSuffix(s, current, SOH, equals + 1);
    if soh == |s| { return Bad(NoSoh, equals + 1 - current); }
    SliceOfSuffix(s, current, equals + 1 - current, soh - current);
    h := Got(Field(tag.value, s[equals + 1..soh]), soh + 1 - current);
  }
}
