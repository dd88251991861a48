/** Byte-level vocabulary shared by the printer, the parsers and the state machine:
    searching, decimal numerals, the two integer readers and the FIX checksum.

    A byte buffer is a `string`.  The cast `static_cast<uint8_t>(c)` is `Byte(c)`. */
module Bytes {

  const SOH: char := '\U{0001}'
  const INT_MAX: int := 0x7FFF_FFFF
  const INT_MIN: int := -0x8000_0000

  datatype Option<+T> = None | Some(value: T)

  datatype Field = Field(tag: int, value: string)

  type FieldMap = map<int, string>

  // ---------------------------------------------------------------- searching

  /** `std::find` and `memchr`: the first position of `c` at or after `from`, or `|s|`. */
  function Find(s: string, c: char, from: nat): (i: nat)
    requires from <= |s|
    ensures from <= i <= |s|
    ensures forall k :: from <= k < i ==> s[k] != c
    ensures i < |s| ==> s[i] == c
    decreases |s| - from
  {
    if from == |s| || s[from] == c then from else Find(s, c, from + 1)
  }

  /** Searching a suffix is searching the whole from there on. */
  lemma FindInSuffix(s: string, h: nat, c: char, from: nat)
    requires h <= from <= |s|
    ensures Find(s[h..], c, from - h) == Find(s, c, from) - h
  {
    hide Find;
    var i := Find(s, c, from);
    assert forall k :: from - h <= k < i - h ==> s[h..][k] == s[k + h];
    FindIs(s[h..], c, from - h, i - h);
  }

  lemma FindIs(s: string, c: char, from: nat, i: nat)
    requires from <= i <= |s|
    requires forall k :: from <= k < i ==> s[k] != c
    requires i < |s| ==> s[i] == c
    ensures Find(s, c, from) == i
  {
    assert Find(s, c, from) >= i;
  }

  /** A hit does not move when bytes are appended. */
  lemma FindExtends(s: string, t: string, c: char, from: nat)
    requires from <= |s| && Find(s, c, from) < |s|
    ensures Find(s + t, c, from) == Find(s, c, from)
  {
    FindIs(s + t, c, from, Find(s, c, from));
  }

  predicate At(s: string, pat: string, i: nat) {
    i + |pat| <= |s| && s[i..i + |pat|] == pat
  }

  /** `std::search` and `std::string::find`: the first occurrence of `pat` at or after `from`, or `|s|`. */
  function Search(s: string, pat: string, from: nat): (i: nat)
    requires from <= |s| && pat != ""
    ensures from <= i <= |s|
    ensures forall k :: from <= k < i ==> !At(s, pat, k)
    ensures i < |s| ==> At(s, pat, i)
    decreases |s| - from
  {
    if from == |s| || At(s, pat, from) then from else Search(s, pat, from + 1)
  }

  lemma SearchIs(s: string, pat: string, from: nat, i: nat)
    requires from <= i <= |s| && pat != ""
    requires forall k :: from <= k < i ==> !At(s, pat, k)
    requires i < |s| ==> At(s, pat, i)
    ensures Search(s, pat, from) == i
  {
    assert Search(s, pat, from) >= i;
  }

  lemma SearchExtends(s: string, t: string, pat: string)
    requires pat != "" && Search(s, pat, 0) < |s|
    ensures Search(s + t, pat, 0) == Search(s, pat, 0)
  {
    var i := Search(s, pat, 0);
    forall k | 0 <= k <= i ensures At(s + t, pat, k) == At(s, pat, k) {
      assert i + |pat| <= |s|;
      assert (s + t)[k..k + |pat|] == s[k..k + |pat|];
    }
    SearchIs(s + t, pat, 0, i);
  }

  /** `std::string::rfind`: the last occurrence of `pat` that starts before `n`. */
  function SearchLast(s: string, pat: string, n: nat): (r: Option<nat>)
    ensures r.Some? ==> r.value < n && At(s, pat, r.value) && forall k :: r.value < k < n ==> !At(s, pat, k)
    ensures r.None? ==> forall k :: 0 <= k < n ==> !At(s, pat, k)
  {
    if n == 0 then None else if At(s, pat, n - 1) then Some(n - 1) else SearchLast(s, pat, n - 1)
  }

  // ---------------------------------------------------------------- decimal numerals

  predicate IsDigit(c: char) { '0' <= c <= '9' }

  predicate AllDigits(s: string) { forall i :: 0 <= i < |s| ==> IsDigit(s[i]) }

  function Digit(d: nat): (c: char)
    requires d < 10
    ensures IsDigit(c) && DigitValue(c) == d
  {
    (d + '0' as int) as char
  }

  function DigitValue(c: char): (d: nat)
    requires IsDigit(c)
    ensures d < 10
  {
    c as int - '0' as int
  }

  /** The canonical numeral of `n`: no leading zero unless `n` is zero. */
  function Dec(n: nat): (s: string)
    ensures s != "" && AllDigits(s)
    ensures n > 0 ==> s[0] != '0'
  {
    if n < 10 then [Digit(n)] else Dec(n / 10) + [Digit(n % 10)]
  }

  /** `std::to_string(int)` and `operator<<(int)`. */
  function IntStr(n: int): (s: string) {
    if n < 0 then "-" + Dec(-n) else Dec(n)
  }

  /** Positional value of a digit string, without any width. */
  function DecValue(s: string): nat
    requires AllDigits(s)
  {
    if s == "" then 0 else DecValue(s[..|s| - 1]) * 10 + DigitValue(s[|s| - 1])
  }

  lemma {:induction false} DecValueDec(n: nat)
    ensures DecValue(Dec(n)) == n
  {
    var s := Dec(n);
    if n >= 10 {
      DecValueDec(n / 10);
      assert s[..|s| - 1] == Dec(n / 10);
    } else {
      assert s[..0] == "";
    }
  }

  /** Width of a canonical numeral below 10^k. */
  lemma {:induction false} DecShort(n: nat)
    ensures n < 1_000_000 ==> |Dec(n)| <= 6
    ensures n < 100_000 ==> |Dec(n)| <= 5
    ensures n < 10_000 ==> |Dec(n)| <= 4
    ensures n < 1_000 ==> |Dec(n)| <= 3
    ensures n < 100 ==> |Dec(n)| <= 2
  {
    if n >= 10 { DecShort(n / 10); }
  }

  // ---------------------------------------------------------------- parseInteger

  /** Outcome of `parseInteger`: the accumulator has no overflow guard, so a numeral above
      `INT_MAX` is signed overflow, which C++ leaves undefined. */
  datatype IntParse = Number(value: nat) | NotANumber | Overflow

  /** The accumulator after the whole of `s`; the loop stops at the first bad character. */
  function Accumulate(s: string): (r: IntParse)
    ensures r.Number? ==> AllDigits(s) && r.value <= INT_MAX
  {
    if s == "" then Number(0) else
      var p := Accumulate(s[..|s| - 1]);
      var c := s[|s| - 1];
      if !p.Number? then p
      else if !IsDigit(c) then NotANumber
      else if p.value * 10 + DigitValue(c) > INT_MAX then Overflow
      else Number(p.value * 10 + DigitValue(c))
  }

  function ParseInt(s: string): IntParse {
    if s == "" then NotANumber else Accumulate(s)
  }

  /** What the accumulator means: exactly the digit strings whose value fits are numbers. */
  lemma {:induction false} AccumulateMeaning(s: string)
    ensures AllDigits(s) ==> Accumulate(s) == (if DecValue(s) <= INT_MAX then Number(DecValue(s)) else Overflow)
    ensures !AllDigits(s) ==> !Accumulate(s).Number?
  {
    if s != "" {
      AccumulateMeaning(s[..|s| - 1]);
    }
  }

  lemma ParseIntDec(n: nat)
    requires n <= INT_MAX
    ensures ParseInt(Dec(n)) == Number(n)
  {
    AccumulateMeaning(Dec(n));
    DecValueDec(n);
  }

  method ParseInteger(s: string) returns (r: IntParse)
    ensures AllDigits(s) && s != "" && DecValue(s) <= INT_MAX ==> r == Number(DecValue(s))
    ensures !AllDigits(s) || s == "" ==> !r.Number?
    ensures r == ParseInt(s)
  {
    AccumulateMeaning(s);
    if s == "" { return NotANumber; }
    var acc: nat := 0;
    for i := 0 to |s|
      invariant Accumulate(s[..i]) == Number(acc)
    {
      assert s[..i + 1][..i] == s[..i];
      if !IsDigit(s[i]) {
        Stops(s, i + 1);
        return NotANumber;
      }
      acc := acc * 10 + DigitValue(s[i]);
      if acc > INT_MAX {
        Stops(s, i + 1);
        return Overflow;
      }
    }
    assert s[..|s|] == s;
    r := Number(acc);
  }

  /** Once the accumulator has failed, later characters do not matter. */
  lemma {:induction false} Stops(s: string, i: nat)
    requires i <= |s| && !Accumulate(s[..i]).Number?
    ensures Accumulate(s) == Accumulate(s[..i])
    decreases |s|
  {
    if i < |s| {
      var p := s[..|s| - 1];
      assert p[..i] == s[..i];
      Stops(p, i);
    } else {
      assert s[..i] == s;
    }
  }

  // ---------------------------------------------------------------- std::stoi

  predicate IsSpace(c: char) { c == ' ' || '\t' <= c <= '\r' }

  function SkipSpaces(s: string): string {
    if s != "" && IsSpace(s[0]) then SkipSpaces(s[1..]) else s
  }

  /** Length of the longest digit prefix. */
  function DigitRun(s: string): (k: nat)
    ensures k <= |s| && AllDigits(s[..k])
    ensures k < |s| ==> !IsDigit(s[k])
  {
    if s != "" && IsDigit(s[0]) then
      var k := DigitRun(s[1..]);
      assert s[..k + 1] == [s[0]] + s[1..][..k];
      k + 1
    else 0
  }

  /** `std::stoi`: leading white space, a sign, the longest digit run.  `None` is an exception. */
  function Stoi(s: string): Option<int> {
    var t := SkipSpaces(s);
    var signed := t != "" && (t[0] == '-' || t[0] == '+');
    var u := if signed then t[1..] else t;
    var k := DigitRun(u);
    if k == 0 then None else
      var d: int := DecValue(u[..k]);
      var v := if signed && t[0] == '-' then -d else d;
      if INT_MIN <= v <= INT_MAX then Some(v) else None
  }

  lemma StoiDigits(s: string)
    requires s != "" && AllDigits(s)
    ensures Stoi(s) == if DecValue(s) <= INT_MAX then Some(DecValue(s)) else None
  {
    assert IsDigit(s[0]);
    assert SkipSpaces(s) == s;
    assert DigitRun(s) == |s|;
    assert s[..|s|] == s;
  }

  predicate AllSpaces(s: string) { forall i :: 0 <= i < |s| ==> IsSpace(s[i]) }

  lemma {:induction false} SkipsAll(sp: string, t: string)
    requires AllSpaces(sp) && (t != "" ==> !IsSpace(t[0]))
    ensures SkipSpaces(sp + t) == t
    decreases |sp|
  {
    if sp == "" {
      assert sp + t == t;
    } else {
      assert (sp + t)[0] == sp[0] && (sp + t)[1..] == sp[1..] + t;
      SkipsAll(sp[1..], t);
    }
  }

  lemma {:induction false} DigitRunIs(d: string, rest: string)
    requires AllDigits(d) && (rest != "" ==> !IsDigit(rest[0]))
    ensures DigitRun(d + rest) == |d| && (d + rest)[..|d|] == d
    decreases |d|
  {
    if d == "" {
      assert d + rest == rest;
    } else {
      assert (d + rest)[0] == d[0] && (d + rest)[1..] == d[1..] + rest;
      DigitRunIs(d[1..], rest);
    }
  }

  /** `std::stoi` on any text: white space, a sign, digits, and anything that is no digit behind them.
      Without a digit, or beyond `int`, it throws. */
  lemma StoiMeaning(sp: string, sign: string, d: string, rest: string)
    requires AllSpaces(sp) && sign in {"", "+", "-"} && AllDigits(d) && (rest != "" ==> !IsDigit(rest[0]))
    requires sign == "" && d == "" && rest != "" ==> !IsSpace(rest[0]) && rest[0] != '+' && rest[0] != '-'
    ensures var v := if sign == "-" then 0 - DecValue(d) else DecValue(d);
            Stoi(sp + sign + d + rest) == if d != "" && INT_MIN <= v <= INT_MAX then Some(v) else None
  {
    hide SkipSpaces, DigitRun, DecValue, Stoi, AllSpaces;
    var u := d + rest;
    assert d != "" ==> u[0] == d[0] && IsDigit(d[0]);
    assert d == "" ==> u == rest;
    hide AllDigits;
    Assoc(sp + sign, d, rest);
    Assoc(sp, sign, u);
    assert sign == "" ==> sign + u == u;
    assert sign != "" ==> (sign + u)[0] == sign[0];
    SkipsAll(sp, sign + u);
    DigitRunIs(d, rest);
    StoiSigned(sp + (sign + u), sign, u);
  }

  lemma StoiSigned(s: string, sign: string, u: string)
    requires sign in {"", "+", "-"} && SkipSpaces(s) == sign + u
    requires sign == "" && u != "" ==> u[0] != '+' && u[0] != '-'
    ensures var k := DigitRun(u); var v := if sign == "-" then 0 - DecValue(u[..k]) else DecValue(u[..k]);
            Stoi(s) == if k > 0 && INT_MIN <= v <= INT_MAX then Some(v) else None
  {
    hide SkipSpaces, DigitRun, DecValue;
    assert sign != "" ==> (sign + u)[0] == sign[0] && (sign + u)[1..] == u;
    assert sign == "" ==> sign + u == u;
  }

  /** `std::stoi(std::to_string(n)) == n` for every `int`. */
  lemma StoiIntStr(n: int)
    requires INT_MIN <= n <= INT_MAX
    ensures Stoi(IntStr(n)) == Some(n)
  {
    if n >= 0 {
      DecValueDec(n);
      StoiDigits(Dec(n));
    } else {
      DecValueDec(-n);
      var d := Dec(-n);
      var s := IntStr(n);
      assert SkipSpaces(s) == s;
      assert s[1..] == d;
      assert DigitRun(d) == |d|;
      assert d[..|d|] == d;
    }
  }

  // ---------------------------------------------------------------- checksum

  /** `static_cast<uint8_t>(c)`. */
  function Byte(c: char): (b: nat)
    ensures b < 256
  {
    c as int % 256
  }

  /** Sum of all bytes. */
  function Total(s: string): nat {
    if s == "" then 0 else Total(s[..|s| - 1]) + Byte(s[|s| - 1])
  }

  /** The FIX checksum: the sum of all bytes modulo 256. */
  function ByteSum(s: string): (b: nat)
    ensures b < 256
  {
    Total(s) % 256
  }

  lemma {:induction false} TotalConcat(s: string, t: string)
    ensures Total(s + t) == Total(s) + Total(t)
  {
    if t == "" {
      assert s + t == s;
    } else {
      TotalConcat(s, t[..|t| - 1]);
      assert (s + t)[..|s + t| - 1] == s + t[..|t| - 1];
    }
  }

  lemma {:induction false} TotalOfDigits(s: string)
    requires AllDigits(s)
    ensures 48 * |s| <= Total(s) <= 57 * |s|
  {
    if s != "" { TotalOfDigits(s[..|s| - 1]); }
  }

  /** The loop all the parsers share: a `uint8_t` accumulator that wraps. */
  method ComputeByteSum(s: string) returns (b: nat)
    ensures b == ByteSum(s)
  {
    hide ByteSum, Byte;
    b := 0;
    ByteSumNothing();
    for i := 0 to |s|
      invariant b == ByteSum(s[..i])
    {
      ByteSumSnoc(s[..i], s[i]);
      assert s[..i + 1] == s[..i] + [s[i]];
      b := (b + Byte(s[i])) % 256;
    }
    assert s[..|s|] == s;
  }

  lemma ByteSumNothing()
    ensures ByteSum("") == 0
  {
  }

  lemma ByteSumSnoc(s: string, c: char)
    ensures ByteSum(s + [c]) == (ByteSum(s) + Byte(c)) % 256
  {
    hide Byte;
    assert (s + [c])[..|s|] == s;
  }

  /** Three digits, zero filled: the CheckSum value of FIX 4.4. */
  function Pad3(n: nat): (s: string)
    requires n < 256
    ensures |s| == 3 && AllDigits(s)
  {
    [Digit(n / 100), Digit(n / 10 % 10), Digit(n % 10)]
  }

  lemma Pad3Value(n: nat)
    requires n < 256
    ensures DecValue(Pad3(n)) == n
    ensures ParseInt(Pad3(n)) == Number(n) && Stoi(Pad3(n)) == Some(n)
  {
    hide Pad3, DecValue, Accumulate, Stoi;
    Pad3Decimal(n);
    AccumulateMeaning(Pad3(n));
    StoiDigits(Pad3(n));
  }

  lemma Pad3Decimal(n: nat)
    requires n < 256
    ensures DecValue(Pad3(n)) == n
  {
    hide DecValue, AllDigits;
    Decimal3(Pad3(n));
    assert n == n / 100 * 100 + n / 10 % 10 * 10 + n % 10;
  }

  /** A trailer read back is the sum it was printed from, and equal trailers are equal sums. */
  lemma Pad3Reads(a: nat, b: nat)
    requires a < 256 && b < 256
    ensures Stoi(Pad3(a)) == Some(a)
    ensures b == a % 256 <==> Pad3(a) == Pad3(b)
  {
    hide Pad3, Stoi, ParseInt;
    Pad3Value(a);
    Pad3Value(b);
    assert a % 256 == a;
  }

  lemma Decimal3(s: string)
    requires |s| == 3 && AllDigits(s)
    ensures DecValue(s) == DigitValue(s[0]) * 100 + DigitValue(s[1]) * 10 + DigitValue(s[2])
  {
    assert s[..2][..1] == s[..1];
    assert s[..1][..0] == "";
    assert DecValue(s[..1]) == DigitValue(s[0]);
    assert DecValue(s[..2]) == DigitValue(s[0]) * 10 + DigitValue(s[1]);
  }

  // ---------------------------------------------------------------- fields on the wire

  predicate SohFree(s: string) { forall i :: 0 <= i < |s| ==> s[i] != SOH }

  /** `tag=value<SOH>`. */
  function Render(f: Field): string {
    IntStr(f.tag) + "=" + f.value + [SOH]
  }

  function RenderAll(fs: seq<Field>): string {
    if fs == [] then "" else Render(fs[0]) + RenderAll(fs[1..])
  }

  lemma Assoc<T>(a: seq<T>, b: seq<T>, c: seq<T>)
    ensures (a + b) + c == a + (b + c)
  {
  }

  lemma SliceOfSuffix<T>(s: seq<T>, a: nat, i: nat, j: nat)
    requires i <= j && a + j <= |s|
    ensures s[a..][i..j] == s[a + i..a + j]
  {
  }

  lemma {:induction false} RenderAllConcat(a: seq<Field>, b: seq<Field>)
    ensures RenderAll(a + b) == RenderAll(a) + RenderAll(b)
  {
    if a == [] {
      assert a + b == b;
    } else {
      calc {
        RenderAll(a + b);
        { assert (a + b)[1..] == a[1..] + b; }
        Render(a[0]) + RenderAll(a[1..] + b);
        { RenderAllConcat(a[1..], b); }
        Render(a[0]) + (RenderAll(a[1..]) + RenderAll(b));
        { Assoc(Render(a[0]), RenderAll(a[1..]), RenderAll(b)); }
        RenderAll(a) + RenderAll(b);
      }
    }
  }

  lemma RenderTwo(a: Field, b: Field)
    ensures RenderAll([a]) == Render(a)
    ensures RenderAll([a, b]) == Render(a) + Render(b)
  {
    hide Render;
    assert [a][1..] == [] && [a, b][1..] == [b] && [b][1..] == [];
    assert RenderAll([b]) == Render(b) + "";
  }

  /** `fields_[tag] = value` for each field in turn: later fields win. */
  function SetAll(m: FieldMap, fs: seq<Field>): FieldMap
    decreases |fs|
  {
    if fs == [] then m else SetAll(m[fs[0].tag := fs[0].value], fs[1..])
  }

  lemma {:induction false} SetAllConcat(m: FieldMap, a: seq<Field>, b: seq<Field>)
    ensures SetAll(m, a + b) == SetAll(SetAll(m, a), b)
    decreases |a|
  {
    if a == [] {
      assert a + b == b;
    } else {
      SetAllConcat(m[a[0].tag := a[0].value], a[1..], b);
      assert (a + b)[1..] == a[1..] + b;
    }
  }

  lemma SetNothing(m: FieldMap)
    ensures SetAll(m, []) == m
  {
  }

  lemma SetSnoc(m: FieldMap, fs: seq<Field>, f: Field)
    ensures SetAll(m, fs + [f]) == SetAll(m, fs)[f.tag := f.value]
  {
    SetAllConcat(m, fs, [f]);
    assert [f][1..] == [];
  }

  lemma SetTwo(m: FieldMap, a: Field, b: Field)
    ensures SetAll(m, [a]) == m[a.tag := a.value]
    ensures SetAll(m, [a, b]) == m[a.tag := a.value][b.tag := b.value]
  {
    assert [a][1..] == [] && [a, b][1..] == [b] && [b][1..] == [];
    assert SetAll(m[a.tag := a.value], [b]) == SetAll(m[a.tag := a.value][b.tag := b.value], []);
  }

  lemma SetThree(m: FieldMap, a: Field, b: Field, c: Field)
    ensures SetAll(m, [a, b, c]) == m[a.tag := a.value][b.tag := b.value][c.tag := c.value]
  {
    assert [a, b, c][1..] == [b, c];
    SetTwo(m[a.tag := a.value], b, c);
  }

  lemma {:induction false} SetAllKeeps(m: FieldMap, fs: seq<Field>, k: int)
    requires k in m
    ensures k in SetAll(m, fs)
    decreases |fs|
  {
    if fs != [] { SetAllKeeps(m[fs[0].tag := fs[0].value], fs[1..], k); }
  }

  /** Positions of the two delimiters of a field inside a longer buffer. */
  lemma Delimiters(t: string, v: string, rest: string)
    requires SohFree(v) && '=' !in t
    ensures var s := t + "=" + v + [SOH] + rest; var e := |t|;
            && |s| == e + 2 + |v| + |rest|
            && Find(s, '=', 0) == e
            && Find(s, SOH, e) == Find(s, SOH, e + 1) == e + 1 + |v|
            && s[..e] == t
            && s[e + 1..e + 1 + |v|] == v
            && s[e + 2 + |v|..] == rest
  {
    hide Find;
    var e := |t|;
    var front, tail := t + "=", v + [SOH] + rest;
    var s := t + "=" + v + [SOH] + rest;
    assert s == "" + t + ['='] + tail && s == t + ("=" + tail);
    FindBehind("", t, '=', tail);
    assert front + v + [SOH] + rest == s && front + v + ([SOH] + rest) == s;
    FindBehind(front, v, SOH, rest);
    Middle("", t, "=" + tail);
    Middle(front, v, [SOH] + rest);
    FindSkips(s, SOH, e);
  }

  /** The first `c` behind `a` ends a value without `c`. */
  lemma FindBehind(a: string, v: string, c: char, rest: string)
    requires c !in v
    ensures Find(a + v + [c] + rest, c, |a|) == |a| + |v|
  {
    hide Find;
    var s := a + v + [c] + rest;
    assert forall k :: |a| <= k < |a| + |v| ==> s[k] == v[k - |a|];
    FindIs(s, c, |a|, |a| + |v|);
  }

  lemma FindSkips(s: string, c: char, from: nat)
    requires from < |s| && s[from] != c
    ensures Find(s, c, from) == Find(s, c, from + 1)
  {
  }

  lemma Middle(a: string, b: string, c: string)
    ensures (a + b + c)[|a|..|a| + |b|] == b
    ensures a == "" ==> (b + c)[..|b|] == b
  {
  }

  lemma IntStrHasNoEquals(n: int)
    ensures '=' !in IntStr(n) && IntStr(n) != ""
  {
  }
}
