/** `FastStringConversion::int_to_string`: digits are written right to left into a fixed
    thread-local buffer, and the result is a view of its end. */
module FastString {
  import opened Bytes

  const INT_BUFFER_SIZE := 32

  function Pow10(k: nat): (p: nat)
    ensures p >= 1
  {
    if k == 0 then 1 else 10 * Pow10(k - 1)
  }

  /** Everything still to be written, then what is already in the buffer. */
  ghost function Pending(v: nat): string {
    if v == 0 then "" else Dec(v)
  }

  lemma PendingStep(v: nat)
    requires v > 0
    ensures Pending(v) == Pending(v / 10) + [Digit(v % 10)]
  {
  }

  lemma Pow10Step(v: nat, k: nat)
    requires 0 < v < Pow10(k)
    ensures k > 0 && v / 10 < Pow10(k - 1)
  {
  }

  /** Ten digits are enough for an `int`. */
  lemma TenDigits()
    ensures INT_MAX < Pow10(10)
  {
    assert Pow10(5) == 100000;
    assert Pow10(7) == 10000000;
    assert Pow10(9) == 1000000000;
  }

  method IntToString(value: int, buffer: array<char>) returns (start: nat, end: nat)
    requires INT_MIN <= value <= INT_MAX
    requires buffer.Length == INT_BUFFER_SIZE
    modifies buffer
    ensures start <= end <= buffer.Length
    ensures buffer[start..end] == IntStr(value)
    ensures Stoi(buffer[start..end]) == Some(value)
  {
    StoiIntStr(value);
    end := buffer.Length - 1;
    if value == 0 {
      start := end - 1;
      buffer[start] := '0';
    } else if value == INT_MIN {
      end := PrintMostNegative(buffer);
      start := 0;
    } else if value < 0 {
      start := WriteDigits(-value, buffer, end);
      start := start - 1;
      buffer[start] := '-';
      assert buffer[start..end] == ['-'] + buffer[start + 1..end];
    } else {
      start := WriteDigits(value, buffer, end);
    }
  }

  /** The digit loop, right to left. */
  method WriteDigits(value: nat, buffer: array<char>, end: nat) returns (start: nat)
    requires 0 < value <= INT_MAX && 11 <= end <= buffer.Length
    modifies buffer
    ensures 1 <= start <= end
    ensures buffer[start..end] == Dec(value)
  {
    hide Dec, Digit, Pow10;
    TenDigits();
    start := end;
    var v: nat := value;
    ghost var k: nat := 10;
    while v > 0
      invariant k <= 10 && start == end - (10 - k)
      invariant v < Pow10(k)
      invariant Dec(value) == Pending(v) + buffer[start..end]
    {
      ghost var written := buffer[start..end];
      PendingStep(v);
      Pow10Step(v, k);
      Assoc(Pending(v / 10), [Digit(v % 10)], written);
      start := start - 1;
      buffer[start] := Digit(v % 10);
      assert buffer[start..end] == [Digit(v % 10)] + written;
      v := v / 10;
      k := k - 1;
    }
  }

  /** The one value whose negation overflows is printed by `snprintf`, from the front. */
  method PrintMostNegative(buffer: array<char>) returns (end: nat)
    requires buffer.Length == INT_BUFFER_SIZE
    modifies buffer
    ensures end <= buffer.Length && buffer[..end] == IntStr(INT_MIN)
  {
    var text := IntStr(INT_MIN);
    MostNegative();
    for i := 0 to |text|
      invariant buffer[..i] == text[..i]
    {
      buffer[i] := text[i];
    }
    end := |text|;
  }

  lemma MostNegative()
    ensures |IntStr(INT_MIN)| <= INT_BUFFER_SIZE
  {
    DecShort(21474);
    assert Dec(214748) == Dec(21474) + [Digit(8)];
    assert Dec(2147483) == Dec(214748) + [Digit(3)];
    assert Dec(21474836) == Dec(2147483) + [Digit(6)];
    assert Dec(214748364) == Dec(21474836) + [Digit(4)];
    assert Dec(2147483648) == Dec(214748364) + [Digit(8)];
  }
}
