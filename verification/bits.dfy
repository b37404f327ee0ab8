/**
 Index arithmetic of the ring buffer: powers of two, bitwise AND on naturals,
 the slot mask `Capacity - 1`, the compile-time capacity check, and the facts
 that let the rest of the model write `counter & mask` as `counter % Capacity`.
 */
module Bits {

  /** 2^64, the modulus of the source's `size_t` counters. */
  const WordModulus: nat := 0x1_0000_0000_0000_0000

  /** `n` is 2^k for some k >= 0. */
  predicate IsPowerOfTwo(n: nat)
    decreases n
  {
    n == 1 || (n >= 2 && n % 2 == 0 && IsPowerOfTwo(n / 2))
  }

  /** Bitwise AND of two naturals, computed from the least significant bit. */
  function BitAnd(a: nat, b: nat): (r: nat)
    ensures r <= a && r <= b
    decreases a
  {
    if a == 0 || b == 0 then 0
    else 2 * BitAnd(a / 2, b / 2) + (if a % 2 == 1 && b % 2 == 1 then 1 else 0)
  }

  /** The slot mask of a buffer of the given capacity. */
  function Mask(capacity: nat): nat
    requires capacity > 0
  {
    capacity - 1
  }

  lemma {:induction false} MulAtLeast(d: nat, e: int)
    requires e >= 1
    ensures d * e >= d
    decreases e
  {
    if e > 1 {
      MulAtLeast(d, e - 1);
      assert d * e == d * (e - 1) + d;
    }
  }

  lemma MulSign(d: nat, e: int)
    ensures e >= 1 ==> d * e >= d
    ensures e <= 0 ==> d * e <= 0
  {
    if e >= 1 {
      MulAtLeast(d, e);
    } else if e < 0 && d > 0 {
      MulAtLeast(d, -e);
      assert d * e == -(d * -e);
    }
  }

  /** A value below the modulus is its own remainder. */
  lemma ModSmall(x: nat, d: nat)
    requires x < d
    ensures x % d == x
  {
    ModUnique(x, d, 0, x);
  }

  /** `x == d * q + r` with `0 <= r < d` determines quotient and remainder. */
  lemma ModUnique(x: nat, d: nat, q: nat, r: nat)
    requires 0 <= r < d
    requires x == d * q + r
    ensures x % d == r
    ensures x / d == q
  {
    var q', r' := x / d, x % d;
    var e := q' - q;
    assert d * e == r - r' by {
      assert x == d * q' + r';
      assert d * q' - d * q == d * (q' - q);
    }
    if e >= 1 {
      MulAtLeast(d, e);
    } else if e <= -1 {
      MulAtLeast(d, -e);
    }
  }

  /** Adding a multiple of `d` does not change the remainder modulo `d`. */
  lemma ModAddMultiple(a: nat, d: nat, m: nat)
    requires d > 0
    ensures (a + d * m) % d == a % d
  {
    assert a == d * (a / d) + a % d;
    assert a + d * m == d * (a / d + m) + a % d;
    ModUnique(a + d * m, d, a / d + m, a % d);
  }

  /** Splitting off the lowest bit: `x % 2m` from `(x / 2) % m` and `x % 2`. */
  lemma ModDouble(x: nat, m: nat)
    requires m > 0
    ensures x % (2 * m) == 2 * ((x / 2) % m) + x % 2
  {
    var q, b := x / 2, x % 2;
    var a, s := q / m, q % m;
    assert q == m * a + s;
    assert x == (2 * m) * a + (2 * s + b) by {
      assert x == 2 * q + b;
      assert 2 * (m * a) == (2 * m) * a;
    }
    ModUnique(x, 2 * m, a, 2 * s + b);
  }

  /** Masking with `Capacity - 1` is reduction modulo `Capacity` when `Capacity` is a power of two. */
  lemma {:induction false} MaskIsModulo(x: nat, capacity: nat)
    requires IsPowerOfTwo(capacity)
    ensures BitAnd(x, Mask(capacity)) == x % capacity
    decreases capacity
  {
    if capacity == 1 {
    } else if x == 0 {
    } else {
      var half := capacity / 2;
      assert (capacity - 1) / 2 == half - 1 && (capacity - 1) % 2 == 1;
      MaskIsModulo(x / 2, half);
      assert BitAnd(x, capacity - 1) == 2 * BitAnd(x / 2, half - 1) + x % 2;
      ModDouble(x, half);
    }
  }

  /** The slot `counter & mask` that a counter addresses. */
  function Slot(counter: nat, capacity: nat): (i: nat)
    requires IsPowerOfTwo(capacity)
    ensures i == counter % capacity
    ensures i < capacity
  {
    MaskIsModulo(counter, capacity);
    BitAnd(counter, Mask(capacity))
  }

  /** `size_t` subtraction: the difference of two words reduced modulo 2^64. */
  function WordSub(a: nat, b: nat): (r: nat)
    requires a < WordModulus && b < WordModulus
    ensures r < WordModulus
    ensures (r + b) % WordModulus == a
  {
    if a >= b then a - b else a + WordModulus - b
  }

  /** The compile-time check `(Capacity & (Capacity - 1)) == 0`, with `Capacity - 1` computed in `size_t`. */
  predicate StaticAssertAccepts(capacity: nat)
    requires capacity < WordModulus
  {
    BitAnd(capacity, WordSub(capacity, 1)) == 0
  }

  /** A capacity check that also rejects 0: a non-zero power of two that fits a `size_t`. */
  predicate CapacityAccepted(capacity: nat)
    requires capacity < WordModulus
  {
    capacity != 0 && StaticAssertAccepts(capacity)
  }

  lemma {:induction false} BitAndSelf(a: nat)
    ensures BitAnd(a, a) == a
    decreases a
  {
    if a != 0 {
      BitAndSelf(a / 2);
    }
  }

  /** For a positive capacity the static check holds exactly of the powers of two. */
  lemma {:induction false} BitAndPredecessorZero(c: nat)
    requires c > 0
    ensures BitAnd(c, c - 1) == 0 <==> IsPowerOfTwo(c)
    decreases c
  {
    if c == 1 {
    } else if c % 2 == 1 {
      // the low bit of c - 1 is clear, and the higher bits equal those of c
      assert (c - 1) / 2 == c / 2 && (c - 1) % 2 == 0;
      BitAndSelf(c / 2);
      assert BitAnd(c, c - 1) == 2 * BitAnd(c / 2, c / 2);
      assert BitAnd(c, c - 1) != 0;
      assert !IsPowerOfTwo(c);
    } else {
      assert (c - 1) / 2 == c / 2 - 1 && (c - 1) % 2 == 1;
      assert BitAnd(c, c - 1) == 2 * BitAnd(c / 2, c / 2 - 1);
      BitAndPredecessorZero(c / 2);
    }
  }

  /** The corrected capacity check accepts exactly the powers of two below 2^64. */
  lemma CapacityAcceptedIsPowerOfTwo(capacity: nat)
    requires capacity < WordModulus
    ensures CapacityAccepted(capacity) <==> IsPowerOfTwo(capacity)
  {
    if capacity != 0 {
      assert WordSub(capacity, 1) == capacity - 1;
      BitAndPredecessorZero(capacity);
    }
  }

  /** The static check as written also accepts 0, which is not a power of two:
      `0 - 1` wraps to a mask of all ones, so the slot index of every counter is
      the counter itself, and no index is below the capacity 0. */
  lemma StaticAssertAdmitsZero(counter: nat)
    requires counter < WordModulus
    ensures StaticAssertAccepts(0)
    ensures !IsPowerOfTwo(0)
    ensures WordSub(0, 1) == WordModulus - 1
    ensures BitAnd(counter, WordSub(0, 1)) == counter
  {
    WordModulusIsPow2();
    Pow2IsPowerOfTwo(64);
    MaskIsModulo(counter, WordModulus);
    ModSmall(counter, WordModulus);
  }

  function Pow2(k: nat): (p: nat)
    ensures p >= 1
  {
    if k == 0 then 1 else 2 * Pow2(k - 1)
  }

  lemma {:induction false} Pow2IsPowerOfTwo(k: nat)
    ensures IsPowerOfTwo(Pow2(k))
  {
    if k > 0 {
      Pow2IsPowerOfTwo(k - 1);
      assert Pow2(k) / 2 == Pow2(k - 1);
    }
  }

  lemma {:induction false} Pow2Add(a: nat, b: nat)
    ensures Pow2(a + b) == Pow2(a) * Pow2(b)
    decreases a
  {
    if a > 0 {
      Pow2Add(a - 1, b);
      assert Pow2(a + b) == 2 * Pow2(a - 1 + b);
    }
  }

  lemma WordModulusIsPow2()
    ensures Pow2(64) == WordModulus
  {
    assert Pow2(1) == 2;
    Pow2Add(1, 1);
    assert Pow2(2) == 4;
    Pow2Add(2, 2);
    assert Pow2(4) == 16;
    Pow2Add(4, 4);
    assert Pow2(8) == 0x100;
    Pow2Add(8, 8);
    assert Pow2(16) == 0x1_0000;
    Pow2Add(16, 16);
    assert Pow2(32) == 0x1_0000_0000;
    Pow2Add(32, 32);
  }

  /** A power of two divides every power of two at least as large. */
  lemma {:induction false} PowerOfTwoDivides(small: nat, large: nat)
    requires IsPowerOfTwo(small) && IsPowerOfTwo(large)
    requires small <= large
    ensures large % small == 0
    decreases small
  {
    if small > 1 {
      PowerOfTwoDivides(small / 2, large / 2);
      var k := (large / 2) / (small / 2);
      assert large / 2 == (small / 2) * k;
      assert large == small * k;
      ModUnique(large, small, k, 0);
    }
  }

  /** Slot indices are unaffected when a counter wraps around at 2^64, so
      unbounded counters address the same slots as the source's `size_t` ones. */
  lemma WrappedCounterSameSlot(x: nat, capacity: nat)
    requires IsPowerOfTwo(capacity) && capacity <= WordModulus
    ensures Slot(x % WordModulus, capacity) == Slot(x, capacity)
  {
    WordModulusIsPow2();
    Pow2IsPowerOfTwo(64);
    PowerOfTwoDivides(capacity, WordModulus);
    ModOfMultipleModulus(x, WordModulus, capacity);
  }

  /** Reducing modulo a multiple `m` of `d` first does not change the remainder modulo `d`. */
  lemma ModOfMultipleModulus(x: nat, m: nat, d: nat)
    requires d > 0 && m > 0 && m % d == 0
    ensures (x % m) % d == x % d
  {
    var k, q, r := m / d, x / m, x % m;
    assert m == d * k;
    assert x == m * q + r;
    var dk: nat := d * k;
    assert dk * q == d * (k * q) by {
      MulAssociates(d, k, q);
    }
    assert x == r + d * (k * q);
    ModAddMultiple(r, d, k * q);
  }

  lemma MulAssociates(a: nat, b: nat, c: nat)
    ensures (a * b) * c == a * (b * c)
  {
  }

  /** The `size_t` distance of two wrapped counters is their true distance, as long as it is below 2^64. */
  lemma WrappedDistance(head: nat, tail: nat)
    requires tail <= head && head - tail < WordModulus
    ensures WordSub(head % WordModulus, tail % WordModulus) == head - tail
  {
    var h, t := head % WordModulus, tail % WordModulus;
    var d := head - tail;
    assert head == (d + t) + WordModulus * (tail / WordModulus);
    ModAddMultiple(d + t, WordModulus, tail / WordModulus);
    if d + t < WordModulus {
      ModUnique(d + t, WordModulus, 0, d + t);
    } else {
      ModUnique(d + t, WordModulus, 1, d + t - WordModulus);
    }
  }
}
