/** Chunking invariance of `StreamFixParser::parse`: for a stream of well-formed messages it does not
    matter how the bytes are cut into calls, as long as no call ends inside a trailer and the
    carry-over fits.  Both directions: these cuts are exactly the harmful ones. */
module Chunking {
  import opened Bytes
  import opened ParserTypes
  import opened Framing
  import opened FastDecoders
  import opened WireFormat
  import opened FastMessages
  import opened StreamParser

  function Stream(ms: seq<Message>): string {
    if ms == [] then "" else Wire(ms[0]) + Stream(ms[1..])
  }

  predicate AllWellFormed(cfg: Config, ms: seq<Message>) {
    forall i :: 0 <= i < |ms| ==> WellFormed(cfg, ms[i])
  }

  // ---------------------------------------------------------------- what `p` received bytes amount to

  /** The contents of the messages that lie wholly within the first `p` bytes. */
  function DecodedBy(ms: seq<Message>, p: nat): seq<FieldMap> {
    if ms == [] || p < |Wire(ms[0])| then []
    else [Content(ms[0])] + DecodedBy(ms[1..], p - |Wire(ms[0])|)
  }

  /** The messages that do not. */
  function Remaining(ms: seq<Message>, p: nat): seq<Message> {
    if ms == [] || p < |Wire(ms[0])| then ms else Remaining(ms[1..], p - |Wire(ms[0])|)
  }

  /** The bytes received of the first of those. */
  function Undecoded(ms: seq<Message>, p: nat): string {
    if ms == [] then ""
    else if p < |Wire(ms[0])| then Wire(ms[0])[..p]
    else Undecoded(ms[1..], p - |Wire(ms[0])|)
  }

  /** `p` falls behind the BodyLength bytes of some message but not behind its trailer. */
  predicate InTrailer(ms: seq<Message>, p: nat) {
    ms != [] &&
    if p < |Wire(ms[0])| then p >= |FrameOf(ms[0])| else InTrailer(ms[1..], p - |Wire(ms[0])|)
  }

  // ---------------------------------------------------------------- one drain

  lemma FrameSizes(m: Message)
    ensures |Wire(m)| == |FrameOf(m)| + 7 && |FrameOf(m)| > 0
    ensures Wire(m)[..|FrameOf(m)|] == FrameOf(m)
  {
    hide FrameOf, Digits;
    assert |FrameOf(m)| > 0 by { NonEmptyFrame(m); }
  }

  lemma NonEmptyFrame(m: Message)
    ensures |FrameOf(m)| > 0
  {
    hide Body;
    HeaderShape(|Body(m)|, "");
  }

  /** The loop meets a whole message: decode it and go on behind it. */
  lemma DrainWhole(cfg: Config, m: Message, rest: string, cursor: nat, k: Memory, last: Option<FieldMap>, clock: Clock)
    requires WellFormed(cfg, m) && k.free > 0
    ensures Drain(cfg, Wire(m) + rest, cursor, k, last, clock)
         == Cons(Content(m),
             Drain(cfg, rest, cursor + |Wire(m)|, Memory("", k.free - 1, 0, k.state), Some(Content(m)), clock))
  {
    hide WellFormed, FrameOf, Trailer, Digits, Content, FindCompleteMessage, ParseCompleteMessage, Cons, Drain, Kept,
      AfterError;
    FrameSizes(m);
    var frame, w := FrameOf(m), Wire(m) + rest;
    Assoc(frame, Trailer(Digits(m)), rest);
    FramesWhole(cfg, m, Trailer(Digits(m)) + rest);
    DecodesWhole(cfg, m, rest, k.free, clock(cursor));
    assert w[0..] == w && w[|Wire(m)|..] == rest;
    DrainUnfolds(cfg, w, cursor, k, last, clock);
  }

  /** The loop meets a frame cut short: keep its bytes. */
  lemma DrainPrefix(cfg: Config, m: Message, q: nat, cursor: nat, k: Memory, last: Option<FieldMap>, clock: Clock)
    requires WellFormed(cfg, m) && 0 < q < |FrameOf(m)|
    ensures var c := Drain(cfg, FrameOf(m)[..q], cursor, k, last, clock);
            && c.outcome.Returned? && c.outcome.status == NeedMoreData
            && c.memory == k.(partial := FrameOf(m)[..q]) && c.decoded == []
  {
    hide FrameOf, FindCompleteMessage, Body, Drain, Kept, WellFormed;
    FramesPrefix(cfg, m, q);
    PrefixFits(cfg, m);
    DrainUnfolds(cfg, FrameOf(m)[..q], cursor, k, last, clock);
  }

  lemma PrefixFits(cfg: Config, m: Message)
    requires WellFormed(cfg, m)
    ensures |FrameOf(m)| <= PARTIAL_BUFFER_SIZE
  {
  }

  /** The loop meets a frame with a cut trailer: undefined, or a message decoded too early. */
  lemma DrainCut(cfg: Config, m: Message, q: nat, cursor: nat, k: Memory, last: Option<FieldMap>, clock: Clock)
    requires WellFormed(cfg, m) && k.free > 0 && |FrameOf(m)| <= q < |Wire(m)|
    ensures var c := Drain(cfg, Wire(m)[..q], cursor, k, last, clock); c.outcome.Undefined? || |c.decoded| > 0
  {
    hide WellFormed, FrameOf, Trailer, Digits, Content, FindCompleteMessage, ParseCompleteMessage;
    FrameSizes(m);
    var frame, i := FrameOf(m), q - |FrameOf(m)|;
    var tr := Trailer(Digits(m))[..i];
    assert Wire(m)[..q] == frame + tr;
    FramesWhole(cfg, m, tr);
    DecodesCut(cfg, m, i, k.free, clock(cursor));
    assert (frame + tr)[0..] == frame + tr;
  }

  /** What one call must have done with the bytes in front of it. */
  predicate Drained(c: Call, ms: seq<Message>, q: nat, k: Memory) {
    && !c.outcome.Undefined?
    && c.decoded == DecodedBy(ms, q)
    && |c.decoded| <= k.free
    && c.memory.partial == Undecoded(ms, q)
    && c.memory.free == k.free - |c.decoded|
    && c.memory.errors <= k.errors
    && c.memory.state == k.state
  }

  /** The loop over the first `q` bytes of a stream does the right thing exactly when `q` is not
      inside a trailer; there it is undefined or decodes too much. */
  lemma {:induction false} DrainStream(cfg: Config, ms: seq<Message>, q: nat, cursor: nat, k: Memory,
      last: Option<FieldMap>, clock: Clock)
    requires AllWellFormed(cfg, ms) && q <= |Stream(ms)| && k.free >= |ms|
    ensures var c := Drain(cfg, Stream(ms)[..q], cursor, k, last, clock);
            && (!InTrailer(ms, q) ==> Drained(c, ms, q, k))
            && (InTrailer(ms, q) ==> c.outcome.Undefined? || |c.decoded| > |DecodedBy(ms, q)|)
    decreases |ms|
  {
    hide WellFormed, FrameOf, Wire, Content, Drain, Stream, DecodedBy, Undecoded, InTrailer;
    if ms == [] || q == 0 {
      DrainNothing(cfg, ms, q, cursor, k, last, clock);
    } else if q < |Wire(ms[0])| {
      DrainInside(cfg, ms, q, cursor, k, last, clock);
    } else {
      var m, tail, w := ms[0], ms[1..], |Wire(ms[0])|;
      StreamCons(ms);
      assert Stream(ms)[..q] == Wire(m) + Stream(tail)[..q - w];
      DrainWhole(cfg, m, Stream(tail)[..q - w], cursor, k, last, clock);
      DrainStream(cfg, tail, q - w, cursor + w, Memory("", k.free - 1, 0, k.state), Some(Content(m)), clock);
      PositionBehind(ms, q);
    }
  }

  lemma DrainNothing(cfg: Config, ms: seq<Message>, q: nat, cursor: nat, k: Memory, last: Option<FieldMap>,
      clock: Clock)
    requires (ms == [] || q == 0) && q <= |Stream(ms)|
    ensures !InTrailer(ms, q) && Drained(Drain(cfg, Stream(ms)[..q], cursor, k, last, clock), ms, q, k)
  {
    hide FrameOf, Wire, Content, Stream, DecodedBy, Undecoded, InTrailer, Drain, Kept;
    StreamNothing();
    assert Stream(ms)[..q] == "";
    DrainUnfolds(cfg, "", cursor, k, last, clock);
    if ms == [] { PositionNowhere(q); } else { PositionZero(ms); }
  }

  lemma StreamNothing()
    ensures Stream([]) == ""
  {
  }

  lemma DrainInside(cfg: Config, ms: seq<Message>, q: nat, cursor: nat, k: Memory, last: Option<FieldMap>, clock: Clock)
    requires AllWellFormed(cfg, ms) && ms != [] && k.free >= |ms| && 0 < q < |Wire(ms[0])| && q <= |Stream(ms)|
    ensures var c := Drain(cfg, Stream(ms)[..q], cursor, k, last, clock);
            && (!InTrailer(ms, q) ==> Drained(c, ms, q, k))
            && (InTrailer(ms, q) ==> c.outcome.Undefined? || |c.decoded| > |DecodedBy(ms, q)|)
  {
    hide WellFormed, FrameOf, Wire, Content, Drain, Stream, DecodedBy, Undecoded, InTrailer;
    var m := ms[0];
    FrameSizes(m);
    StreamCons(ms);
    PositionInside(ms, q);
    assert Stream(ms)[..q] == Wire(m)[..q];
    if q < |FrameOf(m)| {
      assert Wire(m)[..q] == FrameOf(m)[..q];
      DrainPrefix(cfg, m, q, cursor, k, last, clock);
    } else {
      DrainCut(cfg, m, q, cursor, k, last, clock);
    }
  }

  // Unfoldings of the four position functions.

  lemma PositionInside(ms: seq<Message>, p: nat)
    requires ms != [] && p < |Wire(ms[0])|
    ensures DecodedBy(ms, p) == [] && Remaining(ms, p) == ms && Undecoded(ms, p) == Wire(ms[0])[..p]
    ensures InTrailer(ms, p) <==> p >= |FrameOf(ms[0])|
  {
  }

  lemma PositionBehind(ms: seq<Message>, p: nat)
    requires ms != [] && p >= |Wire(ms[0])|
    ensures var q := p - |Wire(ms[0])|; var tail := ms[1..];
            && DecodedBy(ms, p) == [Content(ms[0])] + DecodedBy(tail, q)
            && Remaining(ms, p) == Remaining(tail, q)
            && Undecoded(ms, p) == Undecoded(tail, q)
            && (InTrailer(ms, p) <==> InTrailer(tail, q))
  {
  }

  lemma StreamCons(ms: seq<Message>)
    requires ms != []
    ensures Stream(ms) == Wire(ms[0]) + Stream(ms[1..])
  {
  }

  // ---------------------------------------------------------------- positions

  /** Everything about position `p + extra` can be read off what is left at `p`. */
  lemma {:induction false} Resume(ms: seq<Message>, p: nat, extra: nat)
    requires p + extra <= |Stream(ms)|
    ensures var r, u := Remaining(ms, p), Undecoded(ms, p);
            && |r| == |ms| - |DecodedBy(ms, p)|
            && |u| <= p && |u| + extra <= |Stream(r)|
            && Stream(r) == Stream(ms)[p - |u|..]
            && u == Stream(r)[..|u|]
            && DecodedBy(ms, p + extra) == DecodedBy(ms, p) + DecodedBy(r, |u| + extra)
            && Undecoded(ms, p + extra) == Undecoded(r, |u| + extra)
            && (InTrailer(ms, p + extra) <==> InTrailer(r, |u| + extra))
    decreases |ms|
  {
    hide Wire, Content, FrameOf, Stream, DecodedBy, Undecoded, InTrailer, Remaining;
    if ms == [] {
      ResumeNothing(p, extra);
    } else if p < |Wire(ms[0])| {
      StreamCons(ms);
      PositionInside(ms, p);
      assert Wire(ms[0])[..p] == Stream(ms)[..p];
      assert [] + DecodedBy(ms, p + extra) == DecodedBy(ms, p + extra);
    } else {
      var tail, w := ms[1..], |Wire(ms[0])|;
      StreamCons(ms);
      PositionBehind(ms, p);
      PositionBehind(ms, p + extra);
      Resume(tail, p - w, extra);
      var u := Undecoded(tail, p - w);
      assert Stream(ms)[w..] == Stream(tail);
      assert Stream(ms)[p - |u|..] == Stream(tail)[p - w - |u|..];
      Assoc([Content(ms[0])], DecodedBy(tail, p - w), DecodedBy(Remaining(tail, p - w), |u| + extra));
    }
  }

  lemma ResumeNothing(p: nat, extra: nat)
    requires p + extra <= |Stream([])|
    ensures p == extra == 0 && Stream([]) == "" && Remaining([], p) == [] && Undecoded([], p) == "" &&
            DecodedBy([], p) == []
    ensures DecodedBy([], p + extra) == [] && Undecoded([], p + extra) == "" && !InTrailer([], p + extra)
  {
  }

  // ---------------------------------------------------------------- whole sessions

  /** A session so far: what the parser keeps, every message decoded, and that nothing was undefined. */
  datatype Progress = Progress(memory: Memory, decoded: seq<FieldMap>, defined: bool)

  function Extend(s: Progress, c: Call): Progress {
    Progress(c.memory, s.decoded + c.decoded, s.defined && !c.outcome.Undefined?)
  }

  /** One `parse` call per chunk, starting from `k`. */
  function Session(cfg: Config, k: Memory, chunks: seq<string>, clocks: nat -> Clock): Progress {
    if chunks == [] then Progress(k, [], true) else
    var n := |chunks| - 1;
    var s := Session(cfg, k, chunks[..n], clocks);
    Extend(s, Parse(cfg, s.memory, chunks[n], clocks(n)))
  }

  function Received(chunks: seq<string>): string {
    if chunks == [] then "" else Received(chunks[..|chunks| - 1]) + chunks[|chunks| - 1]
  }

  /** The session has decoded exactly the messages received so far and keeps exactly the rest. */
  predicate Conforms(s: Progress, ms: seq<Message>, p: nat, k: Memory) {
    && s.defined
    && s.decoded == DecodedBy(ms, p)
    && |s.decoded| <= k.free
    && s.memory.partial == Undecoded(ms, p)
    && s.memory.free == k.free - |s.decoded|
    && s.memory.errors <= k.errors
    && s.memory.state == k.state
  }

  /** A call that receives `chunk` after `p` bytes does not end inside a trailer, and its carry-over
      and chunk together fit the 64 KiB buffer. */
  predicate Harmless(ms: seq<Message>, p: nat, chunk: string) {
    chunk == "" ||
    (!InTrailer(ms, p + |chunk|) && (Undecoded(ms, p) == "" || |Undecoded(ms, p)| + |chunk| <= PARTIAL_BUFFER_SIZE))
  }

  /** One call: from a conforming session the next one conforms exactly when the call is harmless. */
  lemma StepExact(cfg: Config, ms: seq<Message>, k: Memory, s: Progress, p: nat, chunk: string, clock: Clock)
    requires AllWellFormed(cfg, ms) && k.free >= |ms| && !BreakerOpen(cfg, k)
    requires p + |chunk| <= |Stream(ms)| && chunk == Stream(ms)[p..p + |chunk|]
    requires Conforms(s, ms, p, k) && !InTrailer(ms, p)
    ensures Conforms(Extend(s, Parse(cfg, s.memory, chunk, clock)), ms, p + |chunk|, k) <==> Harmless(ms, p, chunk)
  {
    hide WellFormed, Stream, DecodedBy, Undecoded, InTrailer, Remaining, Drain;
    var c := Parse(cfg, s.memory, chunk, clock);
    var r, u := Remaining(ms, p), Undecoded(ms, p);
    var q := |u| + |chunk|;
    Resume(ms, p, |chunk|);
    if chunk == "" {
      assert s.decoded + [] == s.decoded;
    } else if u != "" && q > PARTIAL_BUFFER_SIZE {
      Advances(r, |u|, q);
      assert s.decoded + [] == s.decoded;
    } else {
      assert u + chunk == Stream(r)[..q] by {
        SliceOfSuffix(Stream(ms), p - |u|, |u|, q);
        assert Stream(r)[..q] == Stream(r)[..|u|] + Stream(r)[|u|..q];
      }
      RemainingWellFormed(cfg, ms, p);
      DrainStream(cfg, r, q, 0, s.memory, None, clock);
    }
  }

  lemma {:induction false} RemainingWellFormed(cfg: Config, ms: seq<Message>, p: nat)
    requires AllWellFormed(cfg, ms)
    ensures AllWellFormed(cfg, Remaining(ms, p))
    decreases |ms|
  {
    hide WellFormed, Wire;
    if ms != [] && p >= |Wire(ms[0])| {
      RemainingWellFormed(cfg, ms[1..], p - |Wire(ms[0])|);
    }
  }

  /** More bytes always show: in the messages decoded or in the bytes kept. */
  lemma Advances(r: seq<Message>, i: nat, j: nat)
    requires i < j <= |Stream(r)|
    ensures DecodedBy(r, j) == [] ==> |Undecoded(r, j)| > i
  {
    hide Wire, Content;
    if r == [] {
    } else if j < |Wire(r[0])| {
    }
  }

  /** Every call of the session is harmless. */
  predicate HarmlessSession(ms: seq<Message>, chunks: seq<string>) {
    chunks == [] ||
    var init := chunks[..|chunks| - 1];
    HarmlessSession(ms, init) && Harmless(ms, |Received(init)|, chunks[|chunks| - 1])
  }

  /** The session conforms after every call. */
  predicate ConformingSession(cfg: Config, ms: seq<Message>, k: Memory, chunks: seq<string>, clocks: nat -> Clock) {
    && (chunks == [] || ConformingSession(cfg, ms, k, chunks[..|chunks| - 1], clocks))
    && Conforms(Session(cfg, k, chunks, clocks), ms, |Received(chunks)|, k)
  }

  /** Chunking invariance, both ways: however a stream of well-formed messages is cut into calls,
      every call decodes exactly the messages completed so far and keeps exactly the rest
      if and only if no call ends inside a trailer or overflows the carry-over buffer. */
  lemma {:induction false} ChunkingInvariance(cfg: Config, ms: seq<Message>, k: Memory, chunks: seq<string>,
      clocks: nat -> Clock)
    requires AllWellFormed(cfg, ms) && k.free >= |ms| && !BreakerOpen(cfg, k) && k.partial == ""
    requires Received(chunks) <= Stream(ms)
    ensures ConformingSession(cfg, ms, k, chunks, clocks) <==> HarmlessSession(ms, chunks)
    ensures HarmlessSession(ms, chunks) ==> !InTrailer(ms, |Received(chunks)|)
    decreases |chunks|
  {
    hide WellFormed, Stream, DecodedBy, Undecoded, InTrailer, Remaining, Parse, BreakerOpen, AllWellFormed;
    if chunks == [] {
      PositionZero(ms);
    } else {
      var n := |chunks| - 1;
      var init, chunk := chunks[..n], chunks[n];
      var p := |Received(init)|;
      assert Received(init) <= Stream(ms);
      ChunkingInvariance(cfg, ms, k, init, clocks);
      if HarmlessSession(ms, init) {
        assert chunk == Stream(ms)[p..p + |chunk|];
        StepExact(cfg, ms, k, Session(cfg, k, init, clocks), p, chunk, clocks(n));
      }
    }
  }

  lemma PositionZero(ms: seq<Message>)
    ensures DecodedBy(ms, 0) == [] && Undecoded(ms, 0) == "" && !InTrailer(ms, 0)
  {
    hide FrameOf, Wire, Content, DecodedBy, Undecoded, InTrailer, Remaining;
    if ms == [] {
      PositionNowhere(0);
    } else {
      FrameSizes(ms[0]);
      PositionInside(ms, 0);
    }
  }

  /** Hence two harmless ways of cutting the same bytes cannot be told apart afterwards. */
  lemma SameBytesSameSession(cfg: Config, ms: seq<Message>, k: Memory, a: seq<string>, b: seq<string>,
      ca: nat -> Clock, cb: nat -> Clock)
    requires AllWellFormed(cfg, ms) && k.free >= |ms| && !BreakerOpen(cfg, k) && k.partial == ""
    requires Received(a) == Received(b) <= Stream(ms)
    requires HarmlessSession(ms, a) && HarmlessSession(ms, b)
    ensures var s, t := Session(cfg, k, a, ca), Session(cfg, k, b, cb);
            && s.decoded == t.decoded && s.memory.partial == t.memory.partial
            && s.memory.free == t.memory.free && s.memory.state == t.memory.state
  {
    ChunkingInvariance(cfg, ms, k, a, ca);
    ChunkingInvariance(cfg, ms, k, b, cb);
  }

  lemma {:induction false} DecodedAll(ms: seq<Message>)
    ensures |DecodedBy(ms, |Stream(ms)|)| == |ms|
    ensures forall i :: 0 <= i < |ms| ==> DecodedBy(ms, |Stream(ms)|)[i] == Content(ms[i])
    ensures Undecoded(ms, |Stream(ms)|) == ""
    decreases |ms|
  {
    hide Wire, Content, FrameOf, Stream, DecodedBy, Undecoded, Remaining, InTrailer;
    if ms == [] {
      PositionNowhere(|Stream(ms)|);
    } else {
      DecodedAll(ms[1..]);
      StreamCons(ms);
      PositionBehind(ms, |Stream(ms)|);
    }
  }

  lemma PositionNowhere(p: nat)
    ensures DecodedBy([], p) == [] && Undecoded([], p) == "" && !InTrailer([], p)
  {
  }

  // ---------------------------------------------------------------- the breaker

  /** Nothing a parser receives closes an open breaker again: it keeps what it has and decodes nothing. */
  lemma {:induction false} BreakerStaysOpen(cfg: Config, k: Memory, chunks: seq<string>, clocks: nat -> Clock)
    requires BreakerOpen(cfg, k)
    ensures Session(cfg, k, chunks, clocks).memory == k && Session(cfg, k, chunks, clocks).decoded == []
  {
    hide Parse;
    if chunks != [] {
      var n := |chunks| - 1;
      BreakerStaysOpen(cfg, k, chunks[..n], clocks);
      ErrorsCounted(cfg, k, chunks[n], clocks(n));
    }
  }
}
