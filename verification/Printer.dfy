/** `FixMessage::toString` and `FixMessage::parseFromString`.  `fs` is the order in which the message's
    own hash table iterates its fields. */
module Printer {
  import opened Bytes
  import opened ParserTypes
  import opened FieldLists

  const HEADER_TAGS: set<int> := {TAG_BEGIN_STRING, TAG_BODY_LENGTH, TAG_CHECKSUM}
  const PRINTED_APART: set<int> := {TAG_BEGIN_STRING, TAG_BODY_LENGTH, TAG_MSG_TYPE, TAG_CHECKSUM}

  /** `getFieldValue`. */
  function Get(m: FieldMap, tag: int): string { if tag in m then m[tag] else "" }

  function BeginStringOf(m: FieldMap): string {
    if TAG_BEGIN_STRING in m then m[TAG_BEGIN_STRING] else "FIX.4.4"
  }

  /** `calculateBodyLength`: every stored field but BeginString, BodyLength and CheckSum. */
  function BodyLengthOf(fs: seq<Field>): nat {
    |RenderAll(Except(fs, HEADER_TAGS))|
  }

  /** `toStringWithoutChecksum`: what the checksum is computed over. */
  function StoredText(fs: seq<Field>): string {
    RenderAll(Except(fs, {TAG_CHECKSUM}))
  }

  function ChecksumOf(fs: seq<Field>): string {
    Pad3(ByteSum(StoredText(fs)))
  }

  function PrintedFields(fs: seq<Field>): seq<Field> {
    var m := MapOf(fs);
    [Field(TAG_BEGIN_STRING, BeginStringOf(m)), Field(TAG_BODY_LENGTH, Dec(BodyLengthOf(fs))),
     Field(TAG_MSG_TYPE, Get(m, TAG_MSG_TYPE))] + Except(fs, PRINTED_APART)
  }

  /** Everything `toString` prints before "10=". */
  function PrintedPrefix(fs: seq<Field>): string { RenderAll(PrintedFields(fs)) }

  function Print(fs: seq<Field>): string {
    PrintedPrefix(fs) + Render(Field(TAG_CHECKSUM, ChecksumOf(fs)))
  }

  // ---------------------------------------------------------------- the printing loops

  method CalculateBodyLength(fs: seq<Field>) returns (length: nat)
    ensures length == BodyLengthOf(fs)
  {
    length := 0;
    ghost var done: seq<Field> := [];
    for i := 0 to |fs|
      invariant done == Except(fs[..i], HEADER_TAGS) && length == |RenderAll(done)|
    {
      var f := fs[i];
      TakeOne(fs, i, HEADER_TAGS);
      if f.tag !in HEADER_TAGS {
        length := length + |IntStr(f.tag)| + 1 + |f.value| + 1;
        RenderAllConcat(done, [f]);
        RenderTwo(f, f);
        done := done + [f];
      }
    }
    assert fs[..|fs|] == fs;
  }

  /** The loop of `toString` and of `toStringWithoutChecksum`. */
  method AppendFields(prefix: string, fs: seq<Field>, tags: set<int>) returns (s: string)
    ensures s == prefix + RenderAll(Except(fs, tags))
  {
    s := prefix;
    ghost var done: seq<Field> := [];
    assert prefix + "" == prefix;
    for i := 0 to |fs|
      invariant done == Except(fs[..i], tags) && s == prefix + RenderAll(done)
    {
      var f := fs[i];
      TakeOne(fs, i, tags);
      if f.tag !in tags {
        RenderAllConcat(done, [f]);
        RenderTwo(f, f);
        Assoc(prefix, RenderAll(done), Render(f));
        s := s + Render(f);
        done := done + [f];
      }
    }
    assert fs[..|fs|] == fs;
  }

  lemma TakeOne(fs: seq<Field>, i: nat, tags: set<int>)
    requires i < |fs|
    ensures Except(fs[..i + 1], tags) == Except(fs[..i], tags) + if fs[i].tag in tags then [] else [fs[i]]
  {
    assert fs[..i + 1] == fs[..i] + [fs[i]];
    ExceptConcat(fs[..i], [fs[i]], tags);
    assert [fs[i]][1..] == [];
  }

  /** `toString` without its cache. */
  method PrintFresh(fs: seq<Field>) returns (s: string)
    ensures s == Print(fs)
  {
    hide Render, RenderAll, Except, MapOf, Dec, ByteSum, Pad3;
    var m := MapOf(fs);
    var n := CalculateBodyLength(fs);
    var a, b, c := Field(TAG_BEGIN_STRING, BeginStringOf(m)), Field(TAG_BODY_LENGTH, Dec(n)),
        Field(TAG_MSG_TYPE, Get(m, TAG_MSG_TYPE));
    s := Render(a) + Render(b) + Render(c);
    RenderThree(a, b, c);
    RenderAllConcat([a, b, c], Except(fs, PRINTED_APART));
    s := AppendFields(s, fs, PRINTED_APART);
    var text := AppendFields("", fs, {TAG_CHECKSUM});
    assert "" + StoredText(fs) == StoredText(fs);
    var sum := ComputeByteSum(text);
    s := s + Render(Field(TAG_CHECKSUM, Pad3(sum)));
  }

  lemma RenderThree(a: Field, b: Field, c: Field)
    ensures RenderAll([a, b, c]) == Render(a) + Render(b) + Render(c)
  {
    hide Render;
    RenderTwo(b, c);
    assert [a, b, c][1..] == [b, c];
    Assoc(Render(a), Render(b), Render(c));
  }

  // ---------------------------------------------------------------- BodyLength

  /** The printed BodyLength counts the bytes from behind its own SOH to the SOH before "10=" exactly
      when a MsgType is stored; otherwise it misses the printed "35=<SOH>". */
  lemma BodyLengthMeaning(fs: seq<Field>)
    requires DistinctTags(fs)
    ensures var body := RenderAll(PrintedFields(fs)[2..]);
            && |body| == BodyLengthOf(fs) + (if TAG_MSG_TYPE in MapOf(fs) then 0 else 4)
            && PrintedPrefix(fs) == RenderAll(PrintedFields(fs)[..2]) + body
  {
    hide Render, Except, Dec, MapOf;
    var m, rest := MapOf(fs), Except(fs, PRINTED_APART);
    var t := Field(TAG_MSG_TYPE, Get(m, TAG_MSG_TYPE));
    var p := PrintedFields(fs);
    assert p[2..] == [t] + rest;
    assert p == p[..2] + p[2..];
    RenderAllConcat(p[..2], p[2..]);
    RenderAllConcat([t], rest);
    RenderTwo(t, t);
    SumExcept(fs, HEADER_TAGS, TAG_MSG_TYPE, RenderedLength());
    assert HEADER_TAGS + {TAG_MSG_TYPE} == PRINTED_APART;
    SumIsTotal(rest);
    SumIsTotal(Except(fs, HEADER_TAGS));
    EmptyMsgType();
  }

  lemma EmptyMsgType()
    ensures |Render(Field(TAG_MSG_TYPE, ""))| == 4
  {
    assert Dec(35) == Dec(3) + ['5'];
  }

  // ---------------------------------------------------------------- the checksum

  function Share(tag: int, value: string): int { Total(Render(Field(tag, value))) }

  function StoredShare(m: FieldMap, tag: int): int { if tag in m then Share(tag, m[tag]) else 0 }

  /** Bytes printed in the header minus bytes stored for it. */
  function Excess(fs: seq<Field>): int {
    var m := MapOf(fs);
    Share(TAG_BEGIN_STRING, BeginStringOf(m)) - StoredShare(m, TAG_BEGIN_STRING)
    + Share(TAG_BODY_LENGTH, Dec(BodyLengthOf(fs))) - StoredShare(m, TAG_BODY_LENGTH)
    + Share(TAG_MSG_TYPE, Get(m, TAG_MSG_TYPE)) - StoredShare(m, TAG_MSG_TYPE)
  }

  /** The checksum is computed over the stored fields, the receiver computes it over the printed ones:
      the two byte totals differ by exactly the header fields printed but not stored, or stored with
      another value. */
  lemma ChecksumGap(fs: seq<Field>)
    requires DistinctTags(fs)
    ensures Total(PrintedPrefix(fs)) == Total(StoredText(fs)) + Excess(fs)
  {
    hide Render, Except, Dec, MapOf, BodyLengthOf, Sum, Total, RenderAll, DistinctTags;
    StoredSum(fs);
    PrintedSum(fs);
  }

  /** The stored fields are those printed apart and the rest. */
  lemma StoredSum(fs: seq<Field>)
    requires DistinctTags(fs)
    ensures var m := MapOf(fs);
            Total(StoredText(fs)) ==
            StoredShare(m, TAG_BEGIN_STRING) + StoredShare(m, TAG_BODY_LENGTH) + StoredShare(m, TAG_MSG_TYPE)
            + Sum(Except(fs, PRINTED_APART), RenderedTotal())
  {
    hide Render, Except, Dec, MapOf, Sum, Total, RenderAll, DistinctTags;
    var w := RenderedTotal();
    SumIsTotal(Except(fs, {TAG_CHECKSUM}));
    SumExcept(fs, {TAG_CHECKSUM}, TAG_BEGIN_STRING, w);
    SumExcept(fs, {TAG_CHECKSUM, TAG_BEGIN_STRING}, TAG_BODY_LENGTH, w);
    SumExcept(fs, {TAG_CHECKSUM, TAG_BEGIN_STRING, TAG_BODY_LENGTH}, TAG_MSG_TYPE, w);
    assert {TAG_CHECKSUM} + {TAG_BEGIN_STRING} == {TAG_CHECKSUM, TAG_BEGIN_STRING};
    assert {TAG_CHECKSUM, TAG_BEGIN_STRING} + {TAG_BODY_LENGTH} == {TAG_CHECKSUM, TAG_BEGIN_STRING, TAG_BODY_LENGTH};
    assert {TAG_CHECKSUM, TAG_BEGIN_STRING, TAG_BODY_LENGTH} + {TAG_MSG_TYPE} == PRINTED_APART;
  }

  /** The printed fields are the three of the header and the rest. */
  lemma PrintedSum(fs: seq<Field>)
    ensures var m := MapOf(fs);
            Total(PrintedPrefix(fs)) ==
            Share(TAG_BEGIN_STRING, BeginStringOf(m)) + Share(TAG_BODY_LENGTH, Dec(BodyLengthOf(fs)))
            + Share(TAG_MSG_TYPE, Get(m, TAG_MSG_TYPE)) + Sum(Except(fs, PRINTED_APART), RenderedTotal())
  {
    hide Render, Except, Dec, MapOf, BodyLengthOf, Sum, Total, RenderAll;
    var p, w := PrintedFields(fs), RenderedTotal();
    var rest := Except(fs, PRINTED_APART);
    SumIsTotal(p);
    assert p == [p[0], p[1], p[2]] + rest;
    SumConcat([p[0], p[1], p[2]], rest, w);
    SumThree(p[0], p[1], p[2], w);
  }

  lemma SumThree(a: Field, b: Field, c: Field, w: Field -> nat)
    ensures Sum([a, b, c], w) == w(a) + w(b) + w(c)
  {
    hide Sum;
    SumUnfolds([a, b, c], w);
    SumUnfolds([b, c], w);
    SumUnfolds([c], w);
    SumUnfolds([], w);
    assert [a, b, c][1..] == [b, c] && [b, c][1..] == [c] && [c][1..] == [];
  }

  /** The printed trailer is the printed bytes' checksum if and only if that difference vanishes
      modulo 256. */
  lemma TrailerIsRight(fs: seq<Field>)
    requires DistinctTags(fs)
    ensures ChecksumOf(fs) == Pad3(ByteSum(PrintedPrefix(fs))) <==> Excess(fs) % 256 == 0
  {
    ChecksumGap(fs);
    hide Excess, PrintedPrefix, StoredText, Total;
    Pad3Value(ByteSum(PrintedPrefix(fs)));
    Pad3Value(ByteSum(StoredText(fs)));
    SameResidue(Total(StoredText(fs)), Excess(fs), Total(PrintedPrefix(fs)));
  }

  lemma SameResidue(a: int, d: int, b: int)
    requires b == a + d
    ensures a % 256 == b % 256 <==> d % 256 == 0
  {
  }

  /** Nothing printed depends on the order of iteration except the order of the fields. */
  lemma OrderDoesNotMatter(a: seq<Field>, b: seq<Field>)
    requires DistinctTags(a) && DistinctTags(b) && MapOf(a) == MapOf(b)
    ensures BodyLengthOf(a) == BodyLengthOf(b)
    ensures ChecksumOf(a) == ChecksumOf(b)
    ensures Excess(a) == Excess(b)
    ensures |Print(a)| == |Print(b)| && Total(Print(a)) == Total(Print(b))
  {
    hide Render, Except, Dec, MapOf, Pad3, Sum, RenderAll, Total;
    MeasuresAgree(a, b, HEADER_TAGS);
    MeasuresAgree(a, b, {TAG_CHECKSUM});
    MeasuresAgree(a, b, PRINTED_APART);
    var p, q := PrintedFields(a)[..3], PrintedFields(b)[..3];
    assert PrintedFields(a) == p + Except(a, PRINTED_APART) && PrintedFields(b) == q + Except(b, PRINTED_APART);
    assert p == q;
    RenderAllConcat(p, Except(a, PRINTED_APART));
    RenderAllConcat(q, Except(b, PRINTED_APART));
    TotalConcat(RenderAll(p), RenderAll(Except(a, PRINTED_APART)));
    TotalConcat(RenderAll(q), RenderAll(Except(b, PRINTED_APART)));
    TotalConcat(PrintedPrefix(a), Render(Field(TAG_CHECKSUM, ChecksumOf(a))));
    TotalConcat(PrintedPrefix(b), Render(Field(TAG_CHECKSUM, ChecksumOf(b))));
  }

  lemma MeasuresAgree(a: seq<Field>, b: seq<Field>, tags: set<int>)
    requires DistinctTags(a) && DistinctTags(b) && MapOf(a) == MapOf(b)
    ensures |RenderAll(Except(a, tags))| == |RenderAll(Except(b, tags))|
    ensures Total(RenderAll(Except(a, tags))) == Total(RenderAll(Except(b, tags)))
  {
    hide Render, Except, MapOf, Sum, RenderAll, Total;
    MapOfExcept(a, tags);
    MapOfExcept(b, tags);
    var x, y := Except(a, tags), Except(b, tags);
    SumPermutes(x, y, RenderedLength());
    SumPermutes(x, y, RenderedTotal());
    SumIsTotal(x);
    SumIsTotal(y);
  }

  // ---------------------------------------------------------------- verifyChecksum

  /** `FixMessageUtils::verifyChecksum`: the last "10=" ends the bytes the sum is taken over. */
  predicate VerifyChecksum(s: string) {
    var pos := SearchLast(s, "10=", |s|);
    pos.Some? &&
    var start := pos.value + 3;
    var end := Find(s, SOH, start);
    Pad3(ByteSum(s[..pos.value])) == s[start..end]
  }

  /** The library's own verifier accepts what the library prints if and only if the header bytes
      printed and stored agree modulo 256: for every message, whatever its values hold. */
  lemma PrintedVerifies(fs: seq<Field>)
    requires DistinctTags(fs)
    ensures VerifyChecksum(Print(fs)) <==> Excess(fs) % 256 == 0
  {
    TrailerIsRight(fs);
    CheckSumField(ChecksumOf(fs));
    hide PrintedPrefix, ChecksumOf, Excess, Render, Pad3, ByteSum, DistinctTags;
    VerifyTrailer(PrintedPrefix(fs), ChecksumOf(fs));
  }

  lemma CheckSumField(ddd: string)
    ensures Render(Field(TAG_CHECKSUM, ddd)) == "10=" + ddd + [SOH]
  {
    assert Dec(10) == Dec(1) + ['0'] == "10";
  }

  lemma VerifyTrailer(before: string, ddd: string)
    requires |ddd| == 3 && AllDigits(ddd)
    ensures VerifyChecksum(before + ("10=" + ddd + [SOH])) <==> Pad3(ByteSum(before)) == ddd
  {
    hide Pad3, ByteSum, AllDigits, SearchLast, Find, At;
    var n, s := |before|, before + ("10=" + ddd + [SOH]);
    LastTrailer(before, ddd);
    assert s[..n] == before && s[n + 3..n + 6] == ddd;
  }

  /** The last "10=" is the trailer's, and the value behind it ends at the last byte. */
  lemma LastTrailer(before: string, ddd: string)
    requires |ddd| == 3 && AllDigits(ddd)
    ensures var n, s := |before|, before + ("10=" + ddd + [SOH]);
            SearchLast(s, "10=", |s|) == Some(n) && Find(s, SOH, n + 3) == n + 6
  {
    hide AllDigits, SearchLast, Find;
    DigitsAreNoDelimiters(ddd);
    var n, t := |before|, "10=" + ddd + [SOH];
    var s := before + t;
    assert s[n..n + 3] == "10=";
    assert At(s, "10=", n);
    assert t[3] == ddd[0] && t[4] == ddd[1] && t[5] == ddd[2] && t[6] == SOH;
    assert s[n + 3] == t[3] && s[n + 4] == t[4] && s[n + 5] == t[5] && s[n + 6] == t[6];
    forall k | n < k < |s| ensures !At(s, "10=", k) {
      assert k + 3 <= |s| ==> s[k..k + 3][2] == s[k + 2] != '=';
    }
    FindIs(s, SOH, n + 3, n + 6);
  }

  lemma DigitsAreNoDelimiters(ddd: string)
    requires AllDigits(ddd)
    ensures SOH !in ddd && '=' !in ddd
  {
  }

  /** A message stored with its header, BodyLength at the computed length, is printed right. */
  lemma StampedIsRight(fs: seq<Field>)
    requires DistinctTags(fs)
    requires var m := MapOf(fs); TAG_BEGIN_STRING in m && TAG_MSG_TYPE in m
    requires var m := MapOf(fs); TAG_BODY_LENGTH in m && m[TAG_BODY_LENGTH] == Dec(BodyLengthOf(fs))
    ensures VerifyChecksum(Print(fs))
  {
    hide VerifyChecksum, Print, Total, BodyLengthOf, Render, MapOf;
    PrintedVerifies(fs);
  }

  /** A message whose BodyLength was never stored, as the session manager builds them, is always
      printed with a wrong checksum: no BodyLength below a million makes up for it. */
  lemma UnstampedIsWrong(fs: seq<Field>)
    requires DistinctTags(fs)
    requires var m := MapOf(fs); TAG_BEGIN_STRING in m && TAG_MSG_TYPE in m && TAG_BODY_LENGTH !in m
    requires BodyLengthOf(fs) < 1_000_000
    ensures !VerifyChecksum(Print(fs))
  {
    hide VerifyChecksum, Print, BodyLengthOf, Excess, Total, Render, Dec;
    PrintedVerifies(fs);
    ExcessIsBodyLength(fs);
    BodyLengthShare(BodyLengthOf(fs));
  }

  /** "9=n<SOH>" never sums to a multiple of 256 when n has at most six digits. */
  lemma BodyLengthShare(n: nat)
    requires n < 1_000_000
    ensures Total(Render(Field(TAG_BODY_LENGTH, Dec(n)))) % 256 != 0
  {
    hide Dec, Total, Render;
    var d := Dec(n);
    BodyLengthField(d);
    DecShort(n);
    TotalOfDigits(d);
    HeaderBytes();
    TotalConcat("9=" + d, [SOH]);
    TotalConcat("9=", d);
    NoMultiple(|d|, Total(d));
  }

  lemma BodyLengthField(d: string)
    ensures Render(Field(TAG_BODY_LENGTH, d)) == "9=" + d + [SOH]
  {
    assert Dec(9) == "9";
    assert "9" + "=" == "9=";
  }

  lemma NoMultiple(digits: nat, total: nat)
    requires digits <= 6 && 48 * digits <= total <= 57 * digits
    ensures (119 + total) % 256 != 0
  {
    assert 119 + total < 512;
    assert digits <= 2 || 119 + total > 256;
  }

  lemma HeaderBytes()
    ensures Total([SOH]) == 1 && Total("9=") == 118
  {
    assert [SOH][..0] == "" && "9="[..1] == "9" && "9"[..0] == "";
    assert Total("9") == 57;
  }

  lemma ExcessIsBodyLength(fs: seq<Field>)
    requires var m := MapOf(fs); TAG_BEGIN_STRING in m && TAG_MSG_TYPE in m && TAG_BODY_LENGTH !in m
    ensures Excess(fs) == Total(Render(Field(TAG_BODY_LENGTH, Dec(BodyLengthOf(fs)))))
  {
    hide Total, Render, Dec, BodyLengthOf;
  }

  // ---------------------------------------------------------------- parseFromString

  /** One turn of the loop: a tag if `std::stoi` accepts it, the value, and where to go on. */
  datatype Pair = NoPair | Pair(tag: Option<int>, value: string, next: nat)

  function ReadPair(s: string): (p: Pair)
    ensures p.Pair? ==> 0 < p.next <= |s| + 1
  {
    var e := Find(s, '=', 0);
    if e == |s| then NoPair else
    var q := Find(s, SOH, e);
    Pair(Stoi(s[..e]), s[e + 1..q], q + 1)
  }

  function Put(m: FieldMap, p: Pair): FieldMap {
    if p.Pair? && p.tag.Some? then m[p.tag.value := p.value] else m
  }

  /** `parseFromString` on top of the fields already stored; a field whose tag `std::stoi` rejects is
      skipped, and the last value need not be terminated. */
  function ParseFrom(m: FieldMap, s: string): FieldMap
    decreases |s|
  {
    var p := ReadPair(s);
    if p.NoPair? then m
    else if p.next >= |s| then Put(m, p)
    else ParseFrom(Put(m, p), s[p.next..])
  }

  lemma ParseNothing(m: FieldMap)
    ensures ParseFrom(m, "") == m
  {
  }

  method ParseText(m: FieldMap, raw: string) returns (r: FieldMap)
    ensures r == ParseFrom(m, raw)
  {
    hide ReadPair, Put;
    r := m;
    var pos := 0;
    assert raw[0..] == raw;
    if raw == "" { ParseNothing(m); }
    while pos < |raw|
      invariant ParseFrom(m, raw) == if pos < |raw| then ParseFrom(r, raw[pos..]) else r
      decreases |raw| - pos
    {
      var p := ScanPair(raw, pos);
      if p.NoPair? { return; }
      r := Put(r, p);
      assert pos + p.next <= |raw| ==> raw[pos..][p.next..] == raw[pos + p.next..];
      pos := pos + p.next;
    }
  }

  method ScanPair(raw: string, pos: nat) returns (p: Pair)
    requires pos < |raw|
    ensures p == ReadPair(raw[pos..])
  {
    hide Stoi, Find;
    ghost var rest := raw[pos..];
    var eq := Find(raw, '=', pos);
    FindInSuffix(raw, pos, '=', pos);
    if eq == |raw| { return NoPair; }
    var soh := Find(raw, SOH, eq);
    FindInSuffix(raw, pos, SOH, eq);
    SliceOfSuffix(raw, pos, 0, eq - pos);
    SliceOfSuffix(raw, pos, eq + 1 - pos, soh - pos);
    p := Pair(Stoi(raw[pos..eq]), raw[eq + 1..soh], soh + 1 - pos);
  }

  /** A field of a message: its tag is a C++ `int` and its value holds no delimiter. */
  predicate Printable(f: Field) { INT_MIN <= f.tag <= INT_MAX && SohFree(f.value) }

  lemma ParseOne(m: FieldMap, f: Field, rest: string)
    requires Printable(f)
    ensures ParseFrom(m, Render(f) + rest) == ParseFrom(m[f.tag := f.value], rest)
  {
    PairRendered(f, rest);
    ParseNothing(m[f.tag := f.value]);
    hide ReadPair, Render;
  }

  lemma PairRendered(f: Field, rest: string)
    requires Printable(f)
    ensures var s := Render(f) + rest;
            && ReadPair(s) == Pair(Some(f.tag), f.value, |Render(f)|) && s[|Render(f)|..] == rest
  {
    IntStrHasNoEquals(f.tag);
    StoiIntStr(f.tag);
    hide IntStr, Stoi, Find, SohFree;
    Delimiters(IntStr(f.tag), f.value, rest);
    assert IntStr(f.tag) + "=" + f.value + [SOH] + rest == Render(f) + rest;
  }

  /** Parsing undoes printing, whatever was stored before. */
  lemma {:induction false} ParseRendered(m: FieldMap, fs: seq<Field>)
    requires forall i :: 0 <= i < |fs| ==> Printable(fs[i])
    ensures ParseFrom(m, RenderAll(fs)) == SetAll(m, fs)
    decreases |fs|
  {
    if fs != [] {
      hide Render, Printable, ParseFrom;
      ParseOne(m, fs[0], RenderAll(fs[1..]));
      ParseRendered(m[fs[0].tag := fs[0].value], fs[1..]);
    }
  }

  /** What is not a rendered field: a text without '=' stores nothing, a field whose tag is no number is
      skipped, and a last field without its SOH is read to the end. */
  lemma LooseText(m: FieldMap, tag: string, value: string, rest: string)
    requires '=' !in tag && SohFree(value)
    ensures ParseFrom(m, tag) == m
    ensures Stoi(tag).None? ==> ParseFrom(m, tag + "=" + value + [SOH] + rest) == ParseFrom(m, rest)
    ensures Stoi(tag).Some? ==> ParseFrom(m, tag + "=" + value) == m[Stoi(tag).value := value]
  {
    hide Stoi, Find, SohFree;
    FindIs(tag, '=', 0, |tag|);
    Delimiters(tag, value, rest);
    ParseNothing(m);
    Unterminated(m, tag, value);
    var s := tag + "=" + value + [SOH] + rest;
    assert ReadPair(s) == Pair(Stoi(tag), value, |tag| + |value| + 2);
    hide ReadPair;
  }

  lemma Unterminated(m: FieldMap, tag: string, value: string)
    requires '=' !in tag && SohFree(value)
    ensures ParseFrom(m, tag + "=" + value) == if Stoi(tag).Some? then m[Stoi(tag).value := value] else m
  {
    hide Stoi, Find;
    var s := tag + "=" + value;
    FindIs(s, '=', 0, |tag|);
    assert forall k :: |tag| < k < |s| ==> s[k] == value[k - |tag| - 1];
    FindIs(s, SOH, |tag|, |s|);
    assert s[..|tag|] == tag && s[|tag| + 1..] == value;
    assert s[|tag| + 1..|s|] == value;
  }

  /** The simple round trip: parsing a printed message over any stored fields gives back every field,
      with the header and the trailer as printed. */
  lemma RoundTrip(base: FieldMap, fs: seq<Field>)
    requires DistinctTags(fs) && forall i :: 0 <= i < |fs| ==> Printable(fs[i])
    ensures var m := MapOf(fs);
            ParseFrom(base, Print(fs)) ==
            (base + m)[TAG_BEGIN_STRING := BeginStringOf(m)][TAG_BODY_LENGTH := Dec(BodyLengthOf(fs))]
                      [TAG_MSG_TYPE := Get(m, TAG_MSG_TYPE)][TAG_CHECKSUM := ChecksumOf(fs)]
  {
    hide Printable, RenderAll, Render, Dec, ChecksumOf, BodyLengthOf, Except, MapOf, ParseFrom, SetAll;
    var p, c := PrintedFields(fs), Field(TAG_CHECKSUM, ChecksumOf(fs));
    RenderAllConcat(p, [c]);
    RenderTwo(c, c);
    PrintedArePrintable(fs);
    ParseRendered(base, p + [c]);
    StorePrinted(base, fs);
  }

  /** Storing the printed fields in their order. */
  lemma StorePrinted(base: FieldMap, fs: seq<Field>)
    requires DistinctTags(fs)
    ensures var m := MapOf(fs);
            SetAll(base, PrintedFields(fs) + [Field(TAG_CHECKSUM, ChecksumOf(fs))]) ==
            (base + m)[TAG_BEGIN_STRING := BeginStringOf(m)][TAG_BODY_LENGTH := Dec(BodyLengthOf(fs))]
                      [TAG_MSG_TYPE := Get(m, TAG_MSG_TYPE)][TAG_CHECKSUM := ChecksumOf(fs)]
  {
    hide Dec, ChecksumOf, BodyLengthOf, Except, MapOf, SetAll;
    var m, rest := MapOf(fs), Except(fs, PRINTED_APART);
    var p, c := PrintedFields(fs), Field(TAG_CHECKSUM, ChecksumOf(fs));
    var h := SetAll(base, p[..3]);
    assert p == p[..3] + rest && p[..3] == [p[0], p[1], p[2]];
    SetAllConcat(base, p, [c]);
    SetAllConcat(base, p[..3], rest);
    SetAllOverrides(h, rest);
    MapOfExcept(fs, PRINTED_APART);
    SetThree(base, p[0], p[1], p[2]);
    SetTwo(h + MapOf(rest), c, c);
  }

  lemma PrintedArePrintable(fs: seq<Field>)
    requires DistinctTags(fs) && forall i :: 0 <= i < |fs| ==> Printable(fs[i])
    ensures var all := PrintedFields(fs) + [Field(TAG_CHECKSUM, ChecksumOf(fs))];
            forall i :: 0 <= i < |all| ==> Printable(all[i])
  {
    hide RenderAll, Except;
    MapOfLookup(fs);
    ExceptMembers(fs, PRINTED_APART);
    var m, rest := MapOf(fs), Except(fs, PRINTED_APART);
    forall i | 0 <= i < |rest| ensures Printable(rest[i]) { assert rest[i] in fs; }
    assert TAG_BEGIN_STRING in m ==> Field(TAG_BEGIN_STRING, m[TAG_BEGIN_STRING]) in fs;
    assert TAG_MSG_TYPE in m ==> Field(TAG_MSG_TYPE, m[TAG_MSG_TYPE]) in fs;
  }
}
