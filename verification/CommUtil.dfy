/** The bit tricks of CommUtil and the growth rule of AbstractCharBuf that rests on them. */
module CommUtil {
  import opened Words

  // ----- Bits of natural numbers: the operators | and >> -----

  function Or(a: nat, b: nat): (r: nat)
    decreases a + b
  {
    if a + b == 0 then 0 else 2 * Or(a / 2, b / 2) + (if a % 2 + b % 2 == 0 then 0 else 1)
  }

  function Shr(n: nat, k: nat): (r: nat)
    decreases k
  {
    if k == 0 then n else Shr(n / 2, k - 1)
  }

  predicate Bit(n: nat, i: nat)
    decreases i
  {
    if i == 0 then n % 2 == 1 else Bit(n / 2, i - 1)
  }

  lemma {:induction false} BitZero(i: nat)
    ensures !Bit(0, i)
  {
    if i > 0 {
      BitZero(i - 1);
    }
  }

  lemma {:induction false} BitOr(a: nat, b: nat, i: nat)
    ensures Bit(Or(a, b), i) <==> Bit(a, i) || Bit(b, i)
    decreases i
  {
    if a + b == 0 {
      BitZero(i);
    } else if i > 0 {
      BitOr(a / 2, b / 2, i - 1);
    }
  }

  lemma {:induction false} BitShr(n: nat, k: nat, i: nat)
    ensures Bit(Shr(n, k), i) <==> Bit(n, i + k)
    decreases k
  {
    if k > 0 {
      BitShr(n / 2, k - 1, i);
    }
  }

  lemma {:induction false} BitsAbove(n: nat, q: nat, i: nat)
    requires n < Pow2(q) && q <= i
    ensures !Bit(n, i)
  {
    if q == 0 {
      BitZero(i);
    } else {
      BitsAbove(n / 2, q - 1, i - 1);
    }
  }

  /** The number whose set bits are exactly those below q is 2^q - 1. */
  lemma {:induction false} AllOnes(m: nat, q: nat)
    requires forall i: nat :: Bit(m, i) <==> i < q
    ensures m == Pow2(q) - 1
    decreases q, m
  {
    if q > 0 {
      assert Bit(m, 0);
      forall i: nat
        ensures Bit(m / 2, i) <==> i < q - 1
      {
        assert Bit(m, i + 1) <==> i + 1 < q;
      }
      AllOnes(m / 2, q - 1);
    } else if m > 0 {
      assert !Bit(m, 0);
      forall i: nat
        ensures !Bit(m / 2, i)
      {
        assert !Bit(m, i + 1);
      }
      AllOnes(m / 2, 0);
    }
  }

  lemma {:induction false} TopBit(n: nat) returns (p: nat)
    requires n > 0
    ensures Pow2(p) <= n < Pow2(p + 1) && Bit(n, p)
  {
    if n == 1 {
      p := 0;
    } else {
      var p' := TopBit(n / 2);
      p := p' + 1;
    }
  }

  // ----- roundUpPower2 -----

  /** The reference: halve, rounding up, until one is left. */
  function PowerAtLeast(cap: nat): (r: nat)
    requires cap >= 1
    ensures r >= cap
  {
    if cap == 1 then 1 else 2 * PowerAtLeast((cap + 1) / 2)
  }

  /** PowerAtLeast is a power of two, and no power of two that reaches cap is smaller. */
  lemma {:induction false} PowerAtLeastIsLeast(cap: nat)
    requires cap >= 1
    ensures exists k: nat :: PowerAtLeast(cap) == Pow2(k)
    ensures forall k: nat :: Pow2(k) >= cap ==> PowerAtLeast(cap) <= Pow2(k)
  {
    if cap == 1 {
      assert PowerAtLeast(cap) == Pow2(0);
    } else {
      var half := (cap + 1) / 2;
      PowerAtLeastIsLeast(half);
      var k: nat :| PowerAtLeast(half) == Pow2(k);
      assert PowerAtLeast(cap) == Pow2(k + 1);
      forall j: nat | Pow2(j) >= cap
        ensures PowerAtLeast(cap) <= Pow2(j)
      {
        assert Pow2(j) == 2 * Pow2(j - 1);
        assert Pow2(j - 1) >= half;
      }
    }
  }

  lemma {:induction false} PowerBetween(cap: nat, k: nat)
    requires Pow2(k) < cap <= Pow2(k + 1)
    ensures PowerAtLeast(cap) == Pow2(k + 1)
  {
    PowerAtLeastIsLeast(cap);
    var j: nat :| PowerAtLeast(cap) == Pow2(j);
    if j <= k {
      Pow2Monotone(j, k);
    } else {
      Pow2Monotone(k + 1, j);
    }
  }

  /** p is the top bit of m, and the w bits from there downwards are all set. */
  ghost predicate OnesFrom(m: nat, p: nat, w: nat) {
    forall i: nat :: (i > p ==> !Bit(m, i)) && (p - w < i <= p ==> Bit(m, i))
  }

  /** One or-shift step doubles the run of ones below the top bit. */
  lemma {:induction false} SmearDoubles(m: nat, p: nat, w: nat)
    requires OnesFrom(m, p, w)
    ensures OnesFrom(Or(m, Shr(m, w)), p, 2 * w)
  {
    var r := Or(m, Shr(m, w));
    forall i: nat
      ensures (i > p ==> !Bit(r, i)) && (p - 2 * w < i <= p ==> Bit(r, i))
    {
      BitOr(m, Shr(m, w), i);
      BitShr(m, w, i);
      assert i > p ==> !Bit(m, i) && !Bit(m, i + w);
      assert p - 2 * w < i <= p ==> Bit(m, i) || Bit(m, i + w);
    }
  }

  /** The five or-shift steps. */
  function Cascade(n: nat): nat {
    var n1 := Or(n, Shr(n, 1));
    var n2 := Or(n1, Shr(n1, 2));
    var n4 := Or(n2, Shr(n2, 4));
    var n8 := Or(n4, Shr(n4, 8));
    Or(n8, Shr(n8, 16))
  }

  lemma {:induction false} OrAtLeast(a: nat, b: nat)
    ensures Or(a, b) >= a
    decreases a + b
  {
    if a + b > 0 {
      OrAtLeast(a / 2, b / 2);
    }
  }

  lemma {:induction false} CascadeGrows(n: nat)
    ensures Cascade(n) >= n
  {
    var n1 := Or(n, Shr(n, 1));
    var n2 := Or(n1, Shr(n1, 2));
    var n4 := Or(n2, Shr(n2, 4));
    var n8 := Or(n4, Shr(n4, 8));
    OrAtLeast(n, Shr(n, 1));
    OrAtLeast(n1, Shr(n1, 2));
    OrAtLeast(n2, Shr(n2, 4));
    OrAtLeast(n4, Shr(n4, 8));
    OrAtLeast(n8, Shr(n8, 16));
  }

  /** On 32-bit numbers the cascade fills every position below the top bit. */
  lemma {:induction false} CascadeFills(n: nat)
    requires 0 < n < 0x1_0000_0000
    ensures Cascade(n) == PowerAtLeast(n + 1) - 1
  {
    var p := TopBit(n);
    CascadeOnes(n, p);
    AllOnes(Cascade(n), p + 1);
    PowerBetween(n + 1, p);
  }

  lemma {:induction false} CascadeOnes(n: nat, p: nat)
    requires Pow2(p) <= n < Pow2(p + 1) && Bit(n, p) && n < 0x1_0000_0000
    ensures forall i: nat :: Bit(Cascade(n), i) <==> i < p + 1
  {
    assert p < 32 by {
      Pow2Table();
      if p >= 32 {
        Pow2Monotone(32, p);
      }
    }
    forall i: nat | i > p
      ensures !Bit(n, i)
    {
      BitsAbove(n, p + 1, i);
    }
    SmearDoubles(n, p, 1);
    var n1 := Or(n, Shr(n, 1));
    SmearDoubles(n1, p, 2);
    var n2 := Or(n1, Shr(n1, 2));
    SmearDoubles(n2, p, 4);
    var n4 := Or(n2, Shr(n2, 4));
    SmearDoubles(n4, p, 8);
    SmearDoubles(Or(n4, Shr(n4, 8)), p, 16);
    assert OnesFrom(Cascade(n), p, 32);
  }

  const SIZE_MAX := 0xFFFF_FFFF_FFFF_FFFF
  /** `1 << 31` overflows to INT_MIN and converts to this size_t. */
  const MAXIMUM_CAPACITY := 0xFFFF_FFFF_8000_0000

  /** The argument is a size_t; the subtraction wraps at zero. */
  method RoundUpPower2(cap: nat) returns (r: nat)
    requires cap <= 0x1_0000_0000
    ensures cap >= 1 ==> r == PowerAtLeast(cap)
    ensures cap == 0 ==> r == MAXIMUM_CAPACITY
  {
    var n: nat := if cap == 0 then SIZE_MAX else cap - 1;
    ghost var start := n;
    n := Or(n, Shr(n, 1));
    n := Or(n, Shr(n, 2));
    n := Or(n, Shr(n, 4));
    n := Or(n, Shr(n, 8));
    n := Or(n, Shr(n, 16));
    RoundedUp(cap, start, n);
    r := if n <= 0 then 1 else if n >= MAXIMUM_CAPACITY then MAXIMUM_CAPACITY else n + 1;
  }

  lemma {:induction false} RoundedUp(cap: nat, start: nat, n: nat)
    requires cap <= 0x1_0000_0000 && start == (if cap == 0 then SIZE_MAX else cap - 1) && n == Cascade(start)
    ensures cap == 0 ==> n >= MAXIMUM_CAPACITY
    ensures cap >= 1 ==> n < MAXIMUM_CAPACITY && PowerAtLeast(cap) == (if n <= 0 then 1 else n + 1)
  {
    if cap == 0 {
      CascadeGrows(start);
    } else if cap == 1 {
      ShrZero();
    } else {
      CascadeFills(start);
      Pow2Table();
      PowerAtLeastIsLeast(cap);
      CascadeGrows(start);
    }
  }

  lemma ShrZero()
    ensures Cascade(0) == 0
  {
    forall k: nat
      ensures Shr(0, k) == 0
    {
      ShrOfZero(k);
    }
  }

  lemma {:induction false} ShrOfZero(k: nat)
    ensures Shr(0, k) == 0
    decreases k
  {
    if k > 0 {
      ShrOfZero(k - 1);
    }
  }

  // ----- calculateNewCapacity -----

  /** The value of newCapacity after k rounds of `newCapacity <<= 1` in 32-bit arithmetic. */
  function Doubled(start: int, k: nat): int {
    if k == 0 then start else ToInt32(2 * Doubled(start, k - 1))
  }

  /** What the int newCapacity starts from: the size_t result of roundUpPower2, narrowed. */
  function FirstCapacity(capacity: nat): int {
    ToInt32(if capacity == 0 then MAXIMUM_CAPACITY else PowerAtLeast(capacity))
  }

  /** The loop of calculateNewCapacity, which the caller enters when minNewCapacity exceeds the capacity; by
      GrowthLoopEndsIff the requests left out here are those for which it never ends. */
  method CalculateNewCapacity(capacity: nat, minNewCapacity: nat, maxCapacity: nat) returns (r: Option<nat>)
    requires maxCapacity <= INT_MAX
    requires minNewCapacity > maxCapacity || (1 <= capacity <= TWO_30 && minNewCapacity <= TWO_30)
    ensures r == None <==> minNewCapacity > maxCapacity
    ensures r.Some? ==> r.value == Min(PowerAtLeast(Max(capacity, minNewCapacity)), maxCapacity)
  {
    if minNewCapacity > maxCapacity {
      return None;
    }
    ghost var bound := Max(capacity, minNewCapacity);
    var rounded := RoundUpPower2(capacity);
    PowerAtMost30(capacity);
    PowerAtMost30(bound);
    PowerAtLeastIsLeast(capacity);
    PowerAtLeastIsLeast(bound);
    ghost var j: nat :| rounded == Pow2(j);
    ghost var k: nat :| PowerAtLeast(bound) == Pow2(k);
    var newCapacity := ToInt32(rounded);
    PowerOrder(j, k, capacity, bound);
    while newCapacity < minNewCapacity
      invariant capacity <= newCapacity == Pow2(j) <= Pow2(k)
      decreases minNewCapacity - newCapacity
    {
      PowerBelow(j, k);
      newCapacity := ToInt32(2 * newCapacity);
      j := j + 1;
    }
    r := Some(Min(newCapacity, maxCapacity));
  }

  lemma {:induction false} PowerAtMost30(cap: nat)
    requires 1 <= cap <= TWO_30
    ensures PowerAtLeast(cap) <= TWO_30
  {
    Pow2Table();
    PowerAtLeastIsLeast(cap);
  }

  lemma {:induction false} PowerOrder(j: nat, k: nat, cap: nat, bound: nat)
    requires 1 <= cap <= bound && PowerAtLeast(cap) == Pow2(j) && PowerAtLeast(bound) == Pow2(k)
    ensures Pow2(j) <= Pow2(k)
  {
    PowerAtLeastIsLeast(cap);
  }

  lemma {:induction false} PowerBelow(j: nat, k: nat)
    requires Pow2(j) < Pow2(k)
    ensures Pow2(j + 1) <= Pow2(k)
  {
    if k <= j {
      Pow2Monotone(k, j);
    } else {
      Pow2Monotone(j + 1, k);
    }
  }

  /** The 32-bit doubling of a power of two: it reaches 2^30, then the sign bit, then stays zero. */
  lemma {:induction false} DoubledPower(j: nat, k: nat)
    requires j <= 30
    ensures Doubled(Pow2(j), k) == if j + k <= 30 then Pow2(j + k) else if j + k == 31 then INT_MIN else 0
    decreases k
  {
    if k == 0 {
      PowerInt(j);
    } else {
      DoubledPower(j, k - 1);
      ShiftLeft(Doubled(Pow2(j), k - 1));
      if j + k <= 30 {
        PowerInt(j + k);
        assert Pow2(j + k) == 2 * Pow2(j + k - 1);
      } else if j + k == 31 {
        assert j + (k - 1) == 30;
        Pow2Table();
      }
    }
  }

  lemma ShiftLeft(x: int)
    ensures 0 <= 2 * x <= INT_MAX ==> ToInt32(2 * x) == 2 * x
    ensures x == TWO_30 ==> ToInt32(2 * x) == INT_MIN
    ensures x == INT_MIN || x == 0 ==> ToInt32(2 * x) == 0
  {
  }

  lemma {:induction false} PowerInt(j: nat)
    requires j <= 30
    ensures Pow2(j) <= TWO_30
  {
    Pow2Table();
    Pow2Monotone(j, 30);
  }

  lemma {:induction false} DoubledMin(k: nat)
    ensures Doubled(INT_MIN, k) == if k == 0 then INT_MIN else 0
  {
    if k > 0 {
      DoubledMin(k - 1);
    }
  }

  /** The growth loop reaches the request exactly for capacities in 1..2^30 and requests up to 2^30;
      for every other pair it shifts its counter to zero and never ends. */
  lemma {:induction false} GrowthLoopEndsIff(capacity: nat, minNewCapacity: nat)
    requires capacity < minNewCapacity <= INT_MAX
    ensures (exists k: nat :: Doubled(FirstCapacity(capacity), k) >= minNewCapacity) <==>
            1 <= capacity && minNewCapacity <= TWO_30
  {
    if 1 <= capacity <= TWO_30 {
      LoopReaches(capacity, minNewCapacity);
    } else {
      LoopStaysBelow(capacity);
    }
  }

  lemma {:induction false} LoopReaches(capacity: nat, minNewCapacity: nat)
    requires 1 <= capacity <= TWO_30 && capacity < minNewCapacity
    ensures (exists k: nat :: Doubled(FirstCapacity(capacity), k) >= minNewCapacity) <==> minNewCapacity <= TWO_30
  {
    var j := FirstPower(capacity);
    forall k: nat
      ensures Doubled(FirstCapacity(capacity), k) <= TWO_30
      ensures j + k == 30 ==> Doubled(FirstCapacity(capacity), k) == TWO_30
    {
      PowerReaches(j, k);
    }
    assert Doubled(FirstCapacity(capacity), 30 - j) == TWO_30;
  }

  lemma {:induction false} FirstPower(capacity: nat) returns (j: nat)
    requires 1 <= capacity <= TWO_30
    ensures j <= 30 && FirstCapacity(capacity) == Pow2(j)
  {
    Pow2Table();
    PowerAtMost30(capacity);
    PowerAtLeastIsLeast(capacity);
    j :| PowerAtLeast(capacity) == Pow2(j);
    if j > 30 {
      Pow2Monotone(31, j);
    }
  }

  lemma {:induction false} PowerReaches(j: nat, k: nat)
    requires j <= 30
    ensures Doubled(Pow2(j), k) <= TWO_30 && (j + k == 30 ==> Doubled(Pow2(j), k) == TWO_30)
  {
    DoubledPower(j, k);
    PowerInt(if j + k <= 30 then j + k else 30);
    Pow2Table();
  }

  lemma {:induction false} LoopStaysBelow(capacity: nat)
    requires capacity == 0 || TWO_30 < capacity <= INT_MAX
    ensures forall k: nat :: Doubled(FirstCapacity(capacity), k) <= 0
  {
    Pow2Table();
    if capacity > 0 {
      PowerBetween(capacity, 30);
    }
    forall k: nat
      ensures Doubled(FirstCapacity(capacity), k) <= 0
    {
      DoubledMin(k);
    }
  }

  /** The grown capacity is the smaller of the maximum and the least power of two that covers both arguments. */
  lemma {:induction false} GrownCapacityIsLeast(capacity: nat, minNewCapacity: nat, maxCapacity: nat, other: nat,
      k: nat)
    requires 1 <= capacity && minNewCapacity <= maxCapacity && capacity <= maxCapacity
    requires other == Min(Pow2(k), maxCapacity) && other >= Max(capacity, minNewCapacity)
    ensures
      var grown := Min(PowerAtLeast(Max(capacity, minNewCapacity)), maxCapacity);
      Max(capacity, minNewCapacity) <= grown <= other
  {
    PowerAtLeastIsLeast(Max(capacity, minNewCapacity));
  }
}
