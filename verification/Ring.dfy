/** `LockFreeQueue`: the ring buffer used by one thread at a time, and the ring buffer shared by one
    producer and one consumer, one atomic access per step. */
module Ring {
  import opened Bits
  import opened Bytes

  /** The index behind `i`: `(i + 1) & mask`. */
  function Next(i: nat, k: nat): (j: nat) {
    And(i + 1, Pow2(k) - 1)
  }

  lemma NextWraps(i: nat, k: nat)
    requires i < Pow2(k)
    ensures Next(i, k) == (if i + 1 == Pow2(k) then 0 else i + 1) < Pow2(k)
  {
    MaskIsModulo(i + 1, k);
    hide Pow2, And;
    if i + 1 == Pow2(k) { Remainder(i + 1, Pow2(k), 1, 0); } else { Remainder(i + 1, Pow2(k), 0, i + 1); }
  }

  /** The queued values, oldest first. */
  function Window<T>(slots: seq<T>, head: nat, tail: nat): seq<T>
    requires head < |slots| && tail < |slots|
  {
    if head <= tail then slots[head..tail] else slots[head..] + slots[..tail]
  }

  function Distance(head: nat, tail: nat, capacity: nat): int {
    if head <= tail then tail - head else capacity + tail - head
  }

  lemma WindowPush<T>(slots: seq<T>, head: nat, tail: nat, k: nat, x: T)
    requires |slots| == Pow2(k) && head < |slots| && tail < |slots| && Next(tail, k) != head
    ensures Next(tail, k) < |slots|
    ensures Window(slots[tail := x], head, tail) == Window(slots, head, tail)
    ensures slots[tail] == x ==> Window(slots, head, Next(tail, k)) == Window(slots, head, tail) + [x]
  {
    hide Pow2, Next;
    NextWraps(tail, k);
  }

  lemma WindowPop<T>(slots: seq<T>, head: nat, tail: nat, k: nat)
    requires |slots| == Pow2(k) && head < |slots| && tail < |slots| && head != tail
    ensures Next(head, k) < |slots|
    ensures Window(slots, head, tail) == [slots[head]] + Window(slots, Next(head, k), tail)
  {
    hide Pow2, Next;
    NextWraps(head, k);
  }

  /** The queue is full at capacity - 1 and empty at equal indices. */
  lemma WindowSize<T>(slots: seq<T>, head: nat, tail: nat, k: nat)
    requires |slots| == Pow2(k) && head < |slots| && tail < |slots|
    ensures |Window(slots, head, tail)| == Distance(head, tail, |slots|) < |slots|
    ensures Next(tail, k) == head <==> |Window(slots, head, tail)| == |slots| - 1
    ensures head == tail <==> Window(slots, head, tail) == []
  {
    hide Pow2, Next;
    NextWraps(tail, k);
  }

  // ---------------------------------------------------------------- the queue object

  /** The least power of two not below the request, 2^k; above 2^63 the last addition wraps to zero. */
  method ComputeNextPowerOfTwo(n0: nat) returns (n: nat, ghost k: nat)
    requires n0 < WORD
    ensures n0 <= Pow2(63) ==> k <= 63 && n == Pow2(k) >= n0 && forall j: nat :: Pow2(j) >= n0 ==> Pow2(j) >= n
    ensures n0 > Pow2(63) ==> n == 0
  {
    hide Pow2, Or, Shr;
    Pow2Facts();
    k := 0;
    if n0 == 0 {
      forall j: nat ensures Pow2(j) >= 1 { Pow2Grows(0, j); }
      return 1, 0;
    }
    n := n0 - 1;
    n := Or(n, Shr(n, 1));
    n := Or(n, Shr(n, 2));
    n := Or(n, Shr(n, 4));
    n := Or(n, Shr(n, 8));
    n := Or(n, Shr(n, 16));
    n := Or(n, Shr(n, 32));
    n := (n + 1) % WORD;
    k := LeastPowerOfTwo(n0);
  }

  class LockFreeQueue<T(0)> {
    ghost const k: nat
    const capacity: nat
    const mask: nat
    const messages: array<T>
    var head: nat
    var tail: nat
    var pushCount: nat
    var popCount: nat
    var dropCount: nat
    var isShutdown: bool

    ghost predicate Valid()
      reads this
    {
      && k <= 63 && capacity == Pow2(k) && mask == capacity - 1 && messages.Length == capacity
      && head < capacity && tail < capacity
    }

    ghost function Contents(): seq<T>
      requires Valid()
      reads this, messages
    {
      Window(messages[..], head, tail)
    }

    /** The capacity is the least power of two that the requested size fits into. */
    constructor (maxSize: nat)
      requires maxSize <= Pow2(63)
      ensures Valid() && fresh(messages) && Contents() == [] && !isShutdown
      ensures capacity >= maxSize && forall j: nat :: Pow2(j) >= maxSize ==> Pow2(j) >= capacity
      ensures pushCount == popCount == dropCount == 0
    {
      hide Pow2;
      Pow2Facts();
      var c, e := ComputeNextPowerOfTwo(maxSize);
      k := e;
      capacity := c;
      mask := c - 1;
      messages := new T[c];
      head, tail, pushCount, popCount, dropCount, isShutdown := 0, 0, 0, 0, 0, false;
    }

    method Push(x: T) returns (ok: bool)
      requires Valid()
      modifies this, messages
      ensures Valid() && isShutdown == old(isShutdown)
      ensures ok <==> !old(isShutdown) && |old(Contents())| < capacity - 1
      ensures Contents() == old(Contents()) + if ok then [x] else []
      ensures pushCount == old(pushCount) + (if ok then 1 else 0)
      ensures dropCount == old(dropCount) + (if ok || old(isShutdown) then 0 else 1)
      ensures popCount == old(popCount)
    {
      hide Pow2, And;
      WindowSize(messages[..], head, tail, k);
      assert Contents() + [] == Contents();
      if isShutdown { return false; }
      var nextTail := And(tail + 1, mask);
      if nextTail == head {
        dropCount := dropCount + 1;
        return false;
      }
      ghost var before := messages[..];
      WindowPush(before, head, tail, k, x);
      messages[tail] := x;
      assert messages[..] == before[tail := x];
      WindowPush(messages[..], head, tail, k, x);
      tail := nextTail;
      pushCount := pushCount + 1;
      return true;
    }

    method TryPop() returns (r: Option<T>)
      requires Valid()
      modifies this
      ensures Valid() && isShutdown == old(isShutdown)
      ensures r.Some? <==> !old(isShutdown) && old(Contents()) != []
      ensures if r.Some? then old(Contents()) == [r.value] + Contents() else Contents() == old(Contents())
      ensures popCount == old(popCount) + (if r.Some? then 1 else 0)
      ensures pushCount == old(pushCount) && dropCount == old(dropCount)
    {
      hide Pow2, And;
      WindowSize(messages[..], head, tail, k);
      if isShutdown { return None; }
      if head == tail { return None; }
      WindowPop(messages[..], head, tail, k);
      r := Some(messages[head]);
      head := And(head + 1, mask);
      popCount := popCount + 1;
    }

    /** `size()`: an unsigned subtraction that may wrap, then the mask. */
    method Size() returns (n: nat)
      requires Valid()
      ensures n == |Contents()|
    {
      hide Pow2, And, Next;
      MaskedDistance(head, tail, k);
      WindowSize(messages[..], head, tail, k);
      n := And((tail - head) % WORD, mask);
    }

    method Shutdown()
      requires Valid()
      modifies this`isShutdown
      ensures Valid() && isShutdown
    {
      isShutdown := true;
    }
  }
}
