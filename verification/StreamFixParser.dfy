/** The parser object: the loop of `StreamFixParser::parse` over a carry-over buffer of fixed size. */
module ParserObject {
  import opened Bytes
  import opened ParserTypes
  import opened Framing
  import opened Decoders
  import opened FastDecoders
  import opened StreamParser

  /** `parseCompleteMessage` with its two decoding loops. */
  method DecodeComplete(cfg: Config, mem: string, length: nat, free: nat, clock: nat -> string) returns (d: Decoded)
    requires 0 < length <= |mem|
    ensures d == ParseCompleteMessage(cfg, mem, length, free, clock)
  {
    hide ExtractMsgType, FastDecode, ParseMessage, FastProfile;
    var p := FastProfile(ExtractMsgType(mem[..length]));
    if p.Some? {
      d := DecodeFast(cfg, p.value, mem, length, free, clock(0));
    } else {
      d := DecodeGeneric(cfg, mem[..length], free, clock(0));
    }
    if d.outcome.Returned? && !d.outcome.Ok() {
      d := DecodeGeneric(cfg, mem[..length], d.free, clock(1));
    }
  }

  class StreamFixParser {
    const cfg: Config
    const partialBuffer: array<char>
    var partialSize: nat
    var free: nat
    var errors: nat
    var state: ParseState

    ghost predicate Valid()
      reads this
    {
      partialBuffer.Length == PARTIAL_BUFFER_SIZE && partialSize <= PARTIAL_BUFFER_SIZE
    }

    function Remembered(): Memory
      requires Valid()
      reads this, partialBuffer
    {
      Memory(partialBuffer[..partialSize], free, errors, state)
    }

    constructor (cfg: Config, free: nat)
      ensures Valid() && fresh(partialBuffer) && this.cfg == cfg
      ensures Remembered() == Memory("", free, 0, IDLE)
    {
      this.cfg := cfg;
      this.partialBuffer := new char[PARTIAL_BUFFER_SIZE];
      this.partialSize, this.free, this.errors, this.state := 0, free, 0, IDLE;
    }

    /** `memcpy` into the carry-over buffer. */
    method Store(s: string)
      requires Valid() && |s| <= PARTIAL_BUFFER_SIZE
      modifies this`partialSize, partialBuffer
      ensures Valid() && partialSize == |s| && partialBuffer[..partialSize] == s
    {
      for i := 0 to |s|
        invariant partialBuffer[..i] == s[..i]
      {
        partialBuffer[i] := s[i];
      }
      partialSize := |s|;
    }

    /** The main entry point.  Whatever the bytes, it does what `StreamParser.Parse` says, unless that
        has no defined meaning. */
    method Parse(chunk: string, clock: Clock) returns (r: Outcome, ghost decoded: seq<FieldMap>)
      requires Valid()
      modifies this, partialBuffer
      ensures Valid()
      ensures var c := StreamParser.Parse(cfg, old(Remembered()), chunk, clock);
              && r == c.outcome
              && (!r.Undefined? ==> Remembered() == c.memory && decoded == c.decoded)
    {
      hide Drain, Kept;
      decoded := [];
      if chunk == "" { return Fail(InvalidFormat, 0, IDLE), []; }
      if BreakerOpen(cfg, Remembered()) { return Fail(CorruptedData, 0, ERROR_RECOVERY), []; }
      if partialSize != 0 && partialSize + |chunk| > PARTIAL_BUFFER_SIZE {
        return Fail(MessageTooLarge, 0, ERROR_RECOVERY), [];
      }
      var data := partialBuffer[..partialSize] + chunk;
      ghost var k := Remembered();
      partialSize := 0;
      r, decoded := Loop(data, clock, k);
    }

    /** The framing and decoding loop. */
    method Loop(data: string, clock: Clock, ghost start: Memory) returns (r: Outcome, ghost decoded: seq<FieldMap>)
      requires Valid() && partialSize == 0 && start.free == free && start.errors == errors && start.state == state
      modifies this, partialBuffer
      ensures Valid()
      ensures var c := Drain(cfg, data, 0, start, None, clock);
              && r == c.outcome
              && (!r.Undefined? ==> Remembered() == c.memory && decoded == c.decoded)
    {
      hide FindCompleteMessage, ParseCompleteMessage, AttemptErrorRecovery, AfterError, Kept, Drain, Cons;
      ghost var c := Drain(cfg, data, 0, start, None, clock);
      decoded := [];
      ghost var k := start;
      var cursor := 0;
      var last: Option<FieldMap> := None;
      assert data[0..] == data;
      assert [] + c.decoded == c.decoded;
      while cursor < |data|
        invariant Valid()
        invariant k.free == free && k.errors == errors && k.state == state && partialSize == 0
        invariant Continues(c, decoded, Drain(cfg, Rest(data, cursor), cursor, k, last, clock))
        decreases |data| - cursor
      {
        var rest := data[cursor..];
        DrainUnfolds(cfg, rest, cursor, k, last, clock);
        assert decoded + [] == decoded;
        var f := FindCompleteMessage(cfg, rest);
        if f.FrameUndefined? { return Undefined, decoded; }
        if f.status == NeedMoreData {
          if |rest| > PARTIAL_BUFFER_SIZE { return Undefined, decoded; }
          Store(rest);
          return Fail(NeedMoreData, 0, f.state), decoded;
        }
        if f.status != Success {
          state := AfterError(cfg, f.status, f.state, state, rest);
          errors := errors + 1;
          return Fail(f.status, f.consumed, f.state), decoded;
        }
        var d := DecodeComplete(cfg, rest[f.start..], f.end - f.start, free, clock(cursor));
        if d.outcome.Undefined? { return Undefined, decoded; }
        free := d.free;
        if d.outcome.Threw? { return Fail(InvalidFormat, 0, ERROR_RECOVERY), decoded; }
        if d.outcome.status != Success {
          if d.outcome.status != NeedMoreData { errors := errors + 1; }
          state := AfterError(cfg, d.outcome.status, d.outcome.state, state, rest[f.start..f.end]);
          return Fail(d.outcome.status, cursor + d.outcome.consumed, d.outcome.state), decoded;
        }
        errors := 0;
        last := d.outcome.message;
        cursor := cursor + d.outcome.consumed;
        k := Memory("", free, 0, state);
        ContinuesCons(c, decoded, last.value, Drain(cfg, Rest(data, cursor), cursor, k, last, clock));
        decoded := decoded + [last.value];
      }
      assert Rest(data, cursor) == "";
      DrainUnfolds(cfg, "", cursor, k, last, clock);
      assert decoded + [] == decoded;
      r := if last.Some? then Returned(Success, cursor, last, IDLE) else Fail(NeedMoreData, cursor, IDLE);
    }
  }

  /** The bytes from the cursor on; the cursor may have passed the end. */
  ghost function Rest(data: string, cursor: nat): string {
    if cursor <= |data| then data[cursor..] else ""
  }

  /** `c` is `rest` with `done` decoded in front of it. */
  ghost predicate Continues(c: Call, done: seq<FieldMap>, rest: Call) {
    c == rest.(decoded := done + rest.decoded)
  }

  lemma ContinuesCons(c: Call, done: seq<FieldMap>, m: FieldMap, rest: Call)
    requires Continues(c, done, Cons(m, rest))
    ensures Continues(c, done + [m], rest)
  {
    Assoc(done, [m], rest.decoded);
  }
}
