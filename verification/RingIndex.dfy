/** Index arithmetic of include/hotpath/spsc_ring.hpp: wrapping 64-bit counters, masked positions. */
module RingIndex {
  /** `std::size_t` has 64 bits. */
  const WORD_BITS: nat := 64
  const WORD: nat := 0x1_0000_0000_0000_0000

  function Pow2(k: nat): (p: nat)
    ensures p >= 1
  {
    if k == 0 then 1 else 2 * Pow2(k - 1)
  }

  /** A counter as the machine holds it. */
  function Wrap(n: int): (w: nat)
    ensures w < WORD
  {
    n % WORD
  }

  /** Unsigned subtraction. */
  function WrapSub(a: nat, b: nat): (w: nat) {
    Wrap(a - b)
  }

  /** Bitwise and, bit by bit. */
  function BitAnd(x: nat, y: nat): (r: nat) {
    if x == 0 || y == 0 then 0 else (x % 2) * (y % 2) + 2 * BitAnd(x / 2, y / 2)
  }

  /** `std::bit_ceil`. */
  function BitCeil(n: nat): (c: nat) {
    if n <= 1 then 1 else 2 * BitCeil((n + 1) / 2)
  }

  /** The slot of the unbounded counter `n`. */
  function Slot(n: nat, c: nat): (i: nat)
    requires c >= 1
    ensures i < c
  {
    n % c
  }

  /** A number of slots the constructor can allocate. */
  ghost predicate IsCapacity(c: nat) {
    exists k: nat :: 1 <= k < WORD_BITS && c == Pow2(k)
  }

  lemma {:induction false} Pow2Add(j: nat, k: nat)
    ensures Pow2(j + k) == Pow2(j) * Pow2(k)
  {
    if j > 0 {
      Pow2Add(j - 1, k);
    }
  }

  lemma Pow2One()
    ensures Pow2(1) == 2
  {
  }

  lemma WordIsPow2()
    ensures Pow2(WORD_BITS) == WORD
  {
    hide Pow2;
    Pow2One();
    Pow2Add(1, 1);
    Pow2Add(2, 2);
    Pow2Add(4, 4);
    Pow2Add(8, 8);
    Pow2Add(16, 16);
    Pow2Add(32, 32);
  }

  lemma {:induction false} Pow2Monotone(j: nat, k: nat)
    requires j < k
    ensures 2 * Pow2(j) <= Pow2(k)
  {
    if j + 1 < k {
      Pow2Monotone(j, k - 1);
    }
  }

  /** `bit_ceil` is the least power of two that is not below its argument. */
  lemma {:induction false} BitCeilIsLeast(n: nat) returns (k: nat)
    ensures BitCeil(n) == Pow2(k) && n <= Pow2(k)
    ensures forall j: nat :: n <= Pow2(j) ==> k <= j
  {
    if n <= 1 {
      k := 0;
    } else {
      var h := BitCeilIsLeast((n + 1) / 2);
      k := h + 1;
      forall j: nat | n <= Pow2(j)
        ensures k <= j
      {
        assert j > 0 && (n + 1) / 2 <= Pow2(j - 1);
      }
    }
  }

  /** The slots of the constructor: a power of two, at least two, and no more than asked for otherwise. */
  lemma CapacityOf(asked: nat)
    requires asked <= Pow2(63)
    ensures var c := BitCeil(if asked < 2 then 2 else asked);
      && IsCapacity(c) && c >= 2 && c >= asked
      && forall d: nat :: IsCapacity(d) && d >= asked ==> c <= d
  {
    var n := if asked < 2 then 2 else asked;
    var k := BitCeilIsLeast(n);
    assert Pow2(0) == 1 && Pow2(1) == 2;
    assert k >= 1 && k <= 63 by { Pow2Monotone(1, 63); }
    forall d: nat | IsCapacity(d) && d >= asked
      ensures Pow2(k) <= d
    {
      var j: nat :| 1 <= j < WORD_BITS && d == Pow2(j);
      if 1 < j { Pow2Monotone(1, j); }
      if k < j { Pow2Monotone(k, j); }
    }
  }

  /** Masking with one less than a power of two is reduction modulo that power. */
  lemma {:induction false} MaskIsModulo(x: nat, k: nat)
    ensures BitAnd(x, Pow2(k) - 1) == x % Pow2(k)
  {
    if k > 0 {
      var p := Pow2(k - 1);
      if x == 0 {
        SmallModulo(0, 2 * p);
      } else {
        MaskIsModulo(x / 2, k - 1);
        assert (2 * p - 1) % 2 == 1 && (2 * p - 1) / 2 == p - 1;
        ModuloByHalves(x, p);
      }
    }
  }

  lemma SmallModulo(x: nat, m: nat)
    requires x < m
    ensures x % m == x
  {
  }

  lemma SmallMultiple(m: int, d: int)
    requires -m < m * d < m
    ensures d == 0
  {
    assert d >= 1 ==> m * d >= m;
    assert d <= -1 ==> m * -d >= m;
  }

  /** A remainder is determined by the quotient that leaves it. */
  lemma RemainderIs(n: nat, m: nat, q: nat, r: nat)
    requires r < m && n == m * q + r
    ensures n % m == r
  {
    assert m * (q - n / m) == n % m - r;
    SmallMultiple(m, q - n / m);
  }

  lemma ModuloByHalves(x: nat, p: nat)
    requires p >= 1
    ensures x % (2 * p) == x % 2 + 2 * (x / 2 % p)
  {
    var q, r := x / 2 / p, x / 2 % p;
    assert x / 2 == p * q + r;
    assert x == 2 * p * q + (x % 2 + 2 * r);
    RemainderIs(x, 2 * p, q, x % 2 + 2 * r);
  }

  lemma AddMultiple(r: nat, m: nat, q: nat)
    requires m >= 1
    ensures (m * q + r) % m == r % m
  {
    var n := m * q + r;
    assert n == m * (q + r / m) + r % m;
    RemainderIs(n, m, q + r / m, r % m);
  }

  /** A capacity divides the range of the counters. */
  lemma CapacityDivides(c: nat) returns (m: nat)
    requires IsCapacity(c)
    ensures c >= 2 && m >= 1 && WORD == c * m && 2 * c <= WORD
  {
    var k: nat :| 1 <= k < WORD_BITS && c == Pow2(k);
    m := Pow2(WORD_BITS - k);
    Pow2Add(k, WORD_BITS - k);
    WordIsPow2();
    Pow2Monotone(0, k);
    Pow2Monotone(k, WORD_BITS);
  }

  /** The masked position of a wrapped counter is the unbounded counter modulo the capacity, so nothing
      happens to the slot order when the counter overflows. */
  lemma MaskedSlot(n: nat, c: nat)
    requires IsCapacity(c)
    ensures c >= 2
    ensures BitAnd(Wrap(n), c - 1) == Slot(n, c)
  {
    hide Pow2, BitAnd, Wrap;
    var m := CapacityDivides(c);
    var k: nat :| 1 <= k < WORD_BITS && c == Pow2(k);
    MaskIsModulo(Wrap(n), k);
    WrapKeepsRemainder(n, c, m);
  }

  lemma WrapKeepsRemainder(n: nat, c: nat, m: nat)
    requires c >= 1 && WORD == c * m
    ensures Wrap(n) % c == n % c
  {
    var q := n / WORD;
    assert c * m * q == c * (m * q);
    assert n == c * (m * q) + Wrap(n);
    AddMultiple(Wrap(n), c, m * q);
  }

  /** Subtraction of wrapped counters is the true difference while it is below the range. */
  lemma WrappedDifference(a: nat, b: nat)
    requires 0 <= a - b < WORD
    ensures WrapSub(Wrap(a), Wrap(b)) == a - b
  {
  }

  lemma WrappedBehind(a: nat, b: nat)
    requires a < b < a + WORD
    ensures WrapSub(Wrap(a), Wrap(b)) == WORD + a - b
  {
  }

  /** Whole turns of a counter. */
  function Turns(k: int): (n: int) {
    k * WORD
  }

  /** A wrapped difference is at most `c` exactly when the true one is, but for whole turns. */
  lemma WrappedWithin(a: nat, b: nat, c: nat)
    requires c < WORD
    ensures WrapSub(Wrap(a), Wrap(b)) <= c <==> exists k: int :: b + Turns(k) <= a <= b + Turns(k) + c
  {
    var d := a - b;
    assert WrapSub(Wrap(a), Wrap(b)) == d % WORD;
    if d % WORD <= c {
      assert b + Turns(d / WORD) <= a <= b + Turns(d / WORD) + c;
    }
    if k: int :| b + Turns(k) <= a <= b + Turns(k) + c {
      assert d - k * WORD == d % WORD;
    }
  }

  lemma WrappedSuccessor(n: nat)
    ensures Wrap(Wrap(n) + 1) == Wrap(n + 1)
  {
  }

  lemma WrappedEqual(a: nat, b: nat)
    requires a - b < WORD && b - a < WORD
    ensures Wrap(a) == Wrap(b) <==> a == b
  {
  }

  /** Counters less than a capacity apart have different slots. */
  lemma SlotsDiffer(a: nat, b: nat, c: nat)
    requires c >= 1 && a < b < a + c
    ensures Slot(a, c) != Slot(b, c)
  {
    var d := b / c - a / c;
    assert b - a == c * d + (b % c - a % c);
    if a % c == b % c {
      SmallMultiple(c, d);
    }
  }
}
