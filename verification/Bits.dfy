/** Bit operations on unsigned machine words, and `LockFreeQueue::nextPowerOfTwo`. */
module Bits {

  const WORD: nat := Pow2(64) // one more than the largest size_t

  function Pow2(k: nat): (p: nat)
    ensures p >= 1
  {
    if k == 0 then 1 else 2 * Pow2(k - 1)
  }

  function Or(x: nat, y: nat): nat {
    if x == 0 then y else if y == 0 then x
    else 2 * Or(x / 2, y / 2) + if x % 2 == 1 || y % 2 == 1 then 1 else 0
  }

  function And(x: nat, y: nat): nat {
    if x == 0 || y == 0 then 0
    else 2 * And(x / 2, y / 2) + if x % 2 == 1 && y % 2 == 1 then 1 else 0
  }

  /** `x >> s`. */
  function Shr(x: nat, s: nat): nat {
    if s == 0 then x else Shr(x / 2, s - 1)
  }

  predicate Bit(x: nat, i: nat) {
    if i == 0 then x % 2 == 1 else Bit(x / 2, i - 1)
  }

  // ---------------------------------------------------------------- bits of the operations

  lemma {:induction false} BitZero(i: nat)
    ensures !Bit(0, i)
  {
    if i > 0 { BitZero(i - 1); }
  }

  lemma {:induction false} BitOr(x: nat, y: nat, i: nat)
    ensures Bit(Or(x, y), i) <==> Bit(x, i) || Bit(y, i)
  {
    BitZero(i);
    if i > 0 && x > 0 && y > 0 {
      assert Or(x, y) / 2 == Or(x / 2, y / 2);
      BitOr(x / 2, y / 2, i - 1);
    }
  }

  lemma {:induction false} BitShr(x: nat, s: nat, i: nat)
    ensures Bit(Shr(x, s), i) <==> Bit(x, i + s)
    decreases s
  {
    if s > 0 { BitShr(x / 2, s - 1, i); }
  }

  lemma {:induction false} SameBits(x: nat, y: nat)
    requires forall i :: Bit(x, i) <==> Bit(y, i)
    ensures x == y
    decreases x + y
  {
    if x != y {
      assert Bit(x, 0) <==> Bit(y, 0);
      forall i: nat ensures Bit(x / 2, i) <==> Bit(y / 2, i) {
        assert Bit(x, i + 1) <==> Bit(y, i + 1);
      }
      SameBits(x / 2, y / 2);
    }
  }

  lemma {:induction false} BitOnes(k: nat, i: nat)
    ensures Bit(Pow2(k) - 1, i) <==> i < k
  {
    if k == 0 {
      BitZero(i);
    } else if i > 0 {
      assert (Pow2(k) - 1) / 2 == Pow2(k - 1) - 1;
      BitOnes(k - 1, i - 1);
    }
  }

  /** Position of the highest bit. */
  function TopBit(x: nat): (b: nat)
    requires x > 0
    ensures Pow2(b) <= x < Pow2(b + 1)
  {
    if x == 1 then 0 else 1 + TopBit(x / 2)
  }

  lemma {:induction false} TopBitIsHighest(x: nat, i: nat)
    requires x > 0
    ensures Bit(x, TopBit(x))
    ensures i > TopBit(x) ==> !Bit(x, i)
    decreases x
  {
    if x == 1 {
      if i > 0 { BitZero(i - 1); }
    } else {
      TopBitIsHighest(x / 2, if i > 0 then i - 1 else 0);
    }
  }

  lemma {:induction false} Pow2Grows(a: nat, b: nat)
    requires a <= b
    ensures Pow2(a) <= Pow2(b)
    ensures Pow2(b) == Pow2(a) * Pow2(b - a)
    decreases b - a
  {
    if a < b { Pow2Grows(a, b - 1); }
  }

  // ---------------------------------------------------------------- nextPowerOfTwo

  /** One line of the cascade: `n |= n >> s`. */
  function Smear(x: nat, s: nat): nat { Or(x, Shr(x, s)) }

  /** `y` is `x` smeared over `w` places: a bit is set when one of `w` bits from it upward was. */
  ghost predicate Smeared(x: nat, y: nat, w: nat) {
    forall i: nat :: Bit(y, i) <==> exists j: nat :: i <= j < i + w && Bit(x, j)
  }

  lemma SmearDoubles(x: nat, y: nat, w: nat)
    requires Smeared(x, y, w)
    ensures Smeared(x, Smear(y, w), 2 * w)
  {
    forall i: nat ensures Bit(Smear(y, w), i) <==> exists j: nat :: i <= j < i + 2 * w && Bit(x, j) {
      BitOr(y, Shr(y, w), i);
      BitShr(y, w, i);
      assert Bit(y, i) <==> exists j: nat :: i <= j < i + w && Bit(x, j);
      assert Bit(y, i + w) <==> exists j: nat :: i + w <= j < i + w + w && Bit(x, j);
      if j: nat :| i <= j < i + 2 * w && Bit(x, j) {
        assert if j < i + w then Bit(y, i) else Bit(y, i + w);
      }
    }
  }

  function Cascade(x: nat): nat {
    Smear(Smear(Smear(Smear(Smear(Smear(x, 1), 2), 4), 8), 16), 32)
  }

  /** The cascade fills every bit below the highest one. */
  lemma CascadeFills(x: nat)
    requires 0 < x < WORD
    ensures TopBit(x) < 64 && Cascade(x) == Pow2(TopBit(x) + 1) - 1
  {
    hide Smear, Or, Shr, Pow2, TopBit, Cascade;
    var b := TopBit(x);
    if b >= 64 { Pow2Grows(64, b); assert false; }
    CascadeSmears(x);
    forall i: nat ensures Bit(Cascade(x), i) <==> Bit(Pow2(b + 1) - 1, i) {
      FilledBelow(x, Cascade(x), i);
      BitOnes(b + 1, i);
    }
    hide Bit;
    SameBits(Cascade(x), Pow2(b + 1) - 1);
  }

  lemma CascadeSmears(x: nat)
    ensures Smeared(x, Cascade(x), 64)
  {
    hide Smear, Smeared;
    var x1 := Smear(x, 1);
    var x2 := Smear(x1, 2);
    var x4 := Smear(x2, 4);
    var x8 := Smear(x4, 8);
    var x16 := Smear(x8, 16);
    SmearedSelf(x);
    SmearDoubles(x, x, 1);
    SmearDoubles(x, x1, 2);
    SmearDoubles(x, x2, 4);
    SmearDoubles(x, x4, 8);
    SmearDoubles(x, x8, 16);
    SmearDoubles(x, x16, 32);
  }

  lemma FilledBelow(x: nat, y: nat, i: nat)
    requires x > 0 && Smeared(x, y, 64) && TopBit(x) < 64
    ensures Bit(y, i) <==> i <= TopBit(x)
  {
    hide Bit, TopBit;
    var b := TopBit(x);
    TopBitIsHighest(x, i);
    assert Bit(y, i) <==> exists j: nat :: i <= j < i + 64 && Bit(x, j);
    if i > b {
      forall j: nat | i <= j ensures !Bit(x, j) { TopBitIsHighest(x, j); }
    }
  }

  lemma SmearedSelf(x: nat)
    ensures Smeared(x, x, 1)
  {
    forall i: nat ensures Bit(x, i) <==> exists j: nat :: i <= j < i + 1 && Bit(x, j) {
      if j: nat :| i <= j < i + 1 && Bit(x, j) { assert j == i; }
    }
  }

  /** `nextPowerOfTwo` on a 64-bit word; the final addition wraps. */
  function NextPowerOfTwo(n: nat): nat
    requires n < WORD
  {
    if n == 0 then 1 else (Cascade(n - 1) + 1) % WORD
  }

  /** For n <= 2^63 the result is a power of two, at least n, and no smaller one is; above 2^63
      the addition wraps to zero, and no queue can be built. */
  lemma LeastPowerOfTwo(n: nat) returns (k: nat)
    requires n < WORD
    ensures n <= Pow2(63) ==>
            k <= 63 && NextPowerOfTwo(n) == Pow2(k) >= n && (forall j: nat :: Pow2(j) >= n ==> Pow2(j) >= Pow2(k))
    ensures n > Pow2(63) ==> NextPowerOfTwo(n) == 0
  {
    hide Cascade, Pow2, TopBit;
    Pow2Facts();
    if n <= 1 {
      k := 0;
      CascadeOfZero();
      Remainder(1, WORD, 0, 1);
      forall j: nat ensures Pow2(j) >= Pow2(0) { Pow2Grows(0, j); }
    } else {
      CascadeFills(n - 1);
      var b := TopBit(n - 1);
      k := b + 1;
      if b < 63 {
        Pow2Grows(k, 63);
        Remainder(Pow2(k), WORD, 0, Pow2(k));
        forall j: nat | Pow2(j) >= n ensures Pow2(j) >= Pow2(k) {
          if j <= b { Pow2Grows(j, b); } else { Pow2Grows(k, j); }
        }
      } else {
        assert k == 64;
        Remainder(WORD, WORD, 1, 0);
      }
    }
  }

  lemma Pow2Facts()
    ensures WORD == 2 * Pow2(63) && Pow2(0) == 1 && Pow2(64) == WORD && Pow2(63) >= 1
    ensures forall k: nat :: Pow2(k + 1) == 2 * Pow2(k)
  {
  }

  lemma CascadeOfZero()
    ensures Cascade(0) == 0
  {
    assert forall s: nat :: Shr(0, s) == 0 by {
      forall s: nat ensures Shr(0, s) == 0 { ShrZero(s); }
    }
  }

  lemma {:induction false} ShrZero(s: nat)
    ensures Shr(0, s) == 0
  {
    if s > 0 { ShrZero(s - 1); }
  }

  // ---------------------------------------------------------------- masks

  /** Masking with capacity - 1 is the remainder modulo the capacity. */
  lemma {:induction false} MaskIsModulo(x: nat, k: nat)
    ensures And(x, Pow2(k) - 1) == x % Pow2(k)
    decreases k
  {
    if k > 0 {
      MaskIsModulo(x / 2, k - 1);
      assert (Pow2(k) - 1) / 2 == Pow2(k - 1) - 1;
      ModHalves(x, Pow2(k - 1));
    }
  }

  lemma ModHalves(x: nat, p: nat)
    requires p > 0
    ensures x % (2 * p) == 2 * ((x / 2) % p) + x % 2
  {
    var q, r := (x / 2) / p, (x / 2) % p;
    assert x / 2 == q * p + r;
    assert x == q * (2 * p) + (2 * r + x % 2) by { assert q * (2 * p) == 2 * (q * p); }
    Remainder(x, 2 * p, q, 2 * r + x % 2);
  }

  lemma Remainder(x: nat, d: nat, q: nat, r: nat)
    requires d > 0 && r < d && x == q * d + r
    ensures x % d == r
  {
    var q', r' := x / d, x % d;
    assert x == q' * d + r';
    SmallMultiple(q - q', d) by { assert (q - q') * d == q * d - q' * d; }
  }

  lemma SmallMultiple(a: int, d: int)
    requires d > 0 && -d < a * d < d
    ensures a == 0
  {
    assert a >= 1 ==> a * d >= d;
    assert a <= -1 ==> a * d <= -d;
  }

  /** `(tail - head) & mask`, with the subtraction on unsigned words: the distance around the ring. */
  lemma MaskedDistance(head: nat, tail: nat, k: nat)
    requires k <= 63 && head < Pow2(k) && tail < Pow2(k)
    ensures And((tail - head) % WORD, Pow2(k) - 1) == if tail >= head then tail - head else Pow2(k) + tail - head
  {
    hide Pow2, And;
    Pow2Facts();
    Pow2Grows(k, 63);
    if tail >= head {
      Remainder(tail - head, WORD, 0, tail - head);
      MaskIsModulo(tail - head, k);
      Remainder(tail - head, Pow2(k), 0, tail - head);
    } else {
      WrapAround(tail - head, WORD);
      MaskIsModulo(WORD + tail - head, k);
      WrappedDistance(head, tail, k);
    }
  }

  lemma WrappedDistance(head: nat, tail: nat, k: nat)
    requires k <= 63 && tail < head < Pow2(k) && Pow2(k) <= WORD
    ensures (WORD + tail - head) % Pow2(k) == Pow2(k) + tail - head
  {
    hide Pow2;
    Pow2Grows(k, 64);
    OneLess(WORD, Pow2(k), Pow2(64 - k), Pow2(k) + tail - head);
  }

  lemma OneLess(w: nat, c: nat, d: nat, x: nat)
    requires w == c * d && d >= 1 && x < c <= w
    ensures (w - c + x) % c == x
  {
    MulPred(c, d);
    Remainder(w - c + x, c, d - 1, x);
  }

  lemma MulPred(c: nat, d: nat)
    requires d >= 1
    ensures (d - 1) * c == c * d - c
  {
  }

  lemma WrapAround(a: int, d: int)
    requires d > 0 && -d <= a < 0
    ensures a % d == a + d
  {
    var q, r := a / d, a % d;
    assert a == q * d + r;
    assert (q + 1) * d == q * d + d;
    SmallMultiple(q + 1, d);
  }
}
