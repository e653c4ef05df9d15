/** Unsigned machine arithmetic: powers of two, bitwise operators on naturals, and the
    bit-field helpers the driver builds its masks and register words from. */
module Bits {

  const TWO_16: nat := 0x1_0000
  const TWO_32: nat := 0x1_0000_0000
  const TWO_64: nat := 0x1_0000_0000_0000_0000
  const MAX_POWER_OF_2_VALUE: nat := 0x8000_0000
  const POWER_OF_2_ERROR: nat := 0xFFFF_FFFF

  function Min(a: nat, b: nat): nat {
    if a <= b then a else b
  }

  /** The n byte addresses from `addr` on. */
  function Addresses(addr: nat, n: nat): (r: seq<nat>)
    ensures |r| == n
  {
    seq(n, i requires 0 <= i < n => addr + i)
  }

  /** Truncation of a mathematical integer to u32, as C's unsigned conversion does it. */
  function U32(x: int): (r: nat)
    ensures r < TWO_32
    ensures 0 <= x < TWO_32 ==> r == x
  {
    x % TWO_32
  }

  /** A u32 read as an int. */
  function S32(x: nat): int {
    if x < MAX_POWER_OF_2_VALUE then x else x - TWO_32
  }

  function Pow2(k: nat): (r: nat)
    ensures r >= 1
  {
    if k == 0 then 1 else 2 * Pow2(k - 1)
  }

  ghost predicate IsPow2(n: nat) {
    exists k: nat :: n == Pow2(k)
  }

  /** Bitwise conjunction, least significant bit first. */
  function And(a: nat, b: nat): nat {
    if a == 0 || b == 0 then 0
    else (if a % 2 == 1 && b % 2 == 1 then 1 else 0) + 2 * And(a / 2, b / 2)
  }

  /** Bitwise disjunction, least significant bit first. */
  function Or(a: nat, b: nat): nat
    decreases a
  {
    if a == 0 then b
    else if b == 0 then a
    else (if a % 2 == 1 || b % 2 == 1 then 1 else 0) + 2 * Or(a / 2, b / 2)
  }

  /** The rounded-up quotient the driver counts pages with: DIV_ROUND_UP, page by page. */
  function DivUp(n: nat, d: nat): (r: nat)
    requires d > 0
  {
    if n == 0 then 0 else if n <= d then 1 else 1 + DivUp(n - d, d)
  }

  /** The remainder n % d, page by page. */
  function Rem(n: nat, d: nat): (r: nat)
    requires d > 0
    ensures r < d
  {
    if n < d then n else Rem(n - d, d)
  }

  lemma MulMonotone(a: int, b: int, d: nat)
    requires a <= b
    ensures a * d <= b * d
  {
  }

  lemma MulNext(a: int, d: int)
    ensures (a + 1) * d == a * d + d
  {
  }

  lemma {:induction false} DivUpBounds(n: nat, d: nat)
    requires d > 0
    ensures n <= DivUp(n, d) * d < n + d
    ensures n > 0 ==> DivUp(n, d) >= 1
  {
    if n > d {
      DivUpBounds(n - d, d);
      MulNext(DivUp(n - d, d), d);
    }
  }

  lemma {:induction false} RemIsMod(n: nat, d: nat)
    requires d > 0
    ensures Rem(n, d) == n % d
  {
    if n < d {
      DivModUnique(n, d, 0, n);
    } else {
      RemIsMod(n - d, d);
      var q := (n - d) / d;
      MulNext(q, d);
      DivModUnique(n, d, q + 1, (n - d) % d);
    }
  }

  /** DivUp is the quotient the macro computes. */
  lemma DivUpIsQuotient(n: nat, d: nat)
    requires d > 0
    ensures DivUp(n, d) == (n + d - 1) / d
  {
    DivUpBounds(n, d);
    var q := DivUp(n, d);
    DivModUnique(n + d - 1, d, q, n + d - 1 - q * d);
  }

  /** Whole pages in front of the rest add up. */
  lemma {:induction false} DivUpAdd(k: nat, n: nat, d: nat)
    requires d > 0
    ensures DivUp(k * d + n, d) == k + DivUp(n, d)
    ensures Rem(k * d + n, d) == Rem(n, d)
  {
    if k > 0 {
      DivUpAdd(k - 1, n, d);
      MulNext(k - 1, d);
      MulMonotone(0, k - 1, d);
      assert k * d + n - d == (k - 1) * d + n;
    }
  }

  lemma DivModUnique(x: int, d: nat, q: int, r: int)
    requires d > 0
    requires x == q * d + r && 0 <= r < d
    ensures x / d == q && x % d == r
  {
    var q' := x / d;
    assert x == q' * d + x % d;
    if q' < q {
      MulMonotone(q' + 1, q, d);
    } else if q' > q {
      MulMonotone(q + 1, q', d);
    }
  }

  lemma MulAssoc(a: int, q: int, n: int)
    ensures a * (q * n) == (a * q) * n
  {
  }

  lemma MulDistribute(a: int, b: int, n: int)
    ensures (a + b) * n == a * n + b * n
  {
  }

  /** Reducing modulo a multiple of n first does not change the remainder modulo n. */
  lemma ModOfMultiple(x: int, big: nat, q: nat, n: nat)
    requires n > 0 && q > 0 && big == q * n
    ensures big > 0 && (x % big) % n == x % n
  {
    MulMonotone(1, q, n);
    var a, r := x / big, x % big;
    var b := r / n;
    assert x == a * big + r;
    assert r == b * n + r % n;
    MulAssoc(a, q, n);
    MulDistribute(a * q, b, n);
    DivModUnique(x, n, a * q + b, r % n);
  }

  lemma ModPlus(x: int, y: int, n: nat)
    requires n > 0
    ensures (x % n + y) % n == (x + y) % n
  {
    var q, z := x / n, x % n + y;
    var p := z / n;
    assert x == q * n + x % n;
    assert z == p * n + z % n;
    MulDistribute(q, p, n);
    DivModUnique(x + y, n, q + p, z % n);
  }

  // ----- unfolding steps -----

  lemma AndStep(a: nat, b: nat)
    ensures And(a, b) == (if a % 2 == 1 && b % 2 == 1 then 1 else 0) + 2 * And(a / 2, b / 2)
  {
  }

  lemma OrStep(a: nat, b: nat)
    ensures Or(a, b) == (if a % 2 == 1 || b % 2 == 1 then 1 else 0) + 2 * Or(a / 2, b / 2)
  {
    if a == 0 {
      assert Or(a / 2, b / 2) == b / 2;
    } else if b == 0 {
      assert Or(a / 2, b / 2) == a / 2;
    }
  }

  /** a * 2^k, by doubling. */
  function Shift(a: nat, k: nat): nat {
    if k == 0 then a else 2 * Shift(a, k - 1)
  }

  lemma {:induction false} ShiftIsMul(a: nat, k: nat)
    ensures Shift(a, k) == a * Pow2(k)
  {
    if k > 0 {
      ShiftIsMul(a, k - 1);
      MulAssoc(2, a, Pow2(k - 1));
      MulAssoc(a, 2, Pow2(k - 1));
    }
  }

  // ----- the two operators work field by field -----

  lemma AndCarry(x: nat, y: nat, b: nat, d: nat, high: nat)
    requires x % 2 == b % 2 && y % 2 == d % 2
    requires And(x / 2, y / 2) == high + And(b / 2, d / 2)
    ensures And(x, y) == 2 * high + And(b, d)
  {
    AndStep(x, y);
    AndStep(b, d);
  }

  lemma AndOfZeros()
    ensures And(0, 0) == 0
  {
  }

  lemma {:induction false} AndShift(a: nat, b: nat, c: nat, d: nat, k: nat)
    requires b < Pow2(k) && d < Pow2(k)
    ensures And(Shift(a, k) + b, Shift(c, k) + d) == Shift(And(a, c), k) + And(b, d)
    decreases k
  {
    hide And;
    if k == 0 {
      AndOfZeros();
    } else {
      AndShift(a, b / 2, c, d / 2, k - 1);
      var x, y := Shift(a, k) + b, Shift(c, k) + d;
      assert x / 2 == Shift(a, k - 1) + b / 2;
      assert y / 2 == Shift(c, k - 1) + d / 2;
      AndCarry(x, y, b, d, Shift(And(a, c), k - 1));
    }
  }

  lemma AndSplit(a: nat, b: nat, c: nat, d: nat, k: nat)
    requires b < Pow2(k) && d < Pow2(k)
    ensures And(a * Pow2(k) + b, c * Pow2(k) + d) == And(a, c) * Pow2(k) + And(b, d)
  {
    AndShift(a, b, c, d, k);
    ShiftIsMul(a, k);
    ShiftIsMul(c, k);
    ShiftIsMul(And(a, c), k);
  }

  lemma OrCarry(x: nat, y: nat, b: nat, d: nat, high: nat)
    requires x % 2 == b % 2 && y % 2 == d % 2
    requires Or(x / 2, y / 2) == high + Or(b / 2, d / 2)
    ensures Or(x, y) == 2 * high + Or(b, d)
  {
    OrStep(x, y);
    OrStep(b, d);
  }

  lemma OrOfZeros()
    ensures Or(0, 0) == 0
  {
  }

  lemma {:induction false} OrShift(a: nat, b: nat, c: nat, d: nat, k: nat)
    requires b < Pow2(k) && d < Pow2(k)
    ensures Or(Shift(a, k) + b, Shift(c, k) + d) == Shift(Or(a, c), k) + Or(b, d)
    decreases k
  {
    hide Or;
    if k == 0 {
      OrOfZeros();
    } else {
      OrShift(a, b / 2, c, d / 2, k - 1);
      var x, y := Shift(a, k) + b, Shift(c, k) + d;
      assert x / 2 == Shift(a, k - 1) + b / 2;
      assert y / 2 == Shift(c, k - 1) + d / 2;
      OrCarry(x, y, b, d, Shift(Or(a, c), k - 1));
    }
  }

  lemma OrSplit(a: nat, b: nat, c: nat, d: nat, k: nat)
    requires b < Pow2(k) && d < Pow2(k)
    ensures Or(a * Pow2(k) + b, c * Pow2(k) + d) == Or(a, c) * Pow2(k) + Or(b, d)
  {
    OrShift(a, b, c, d, k);
    ShiftIsMul(a, k);
    ShiftIsMul(c, k);
    ShiftIsMul(Or(a, c), k);
  }

  lemma OddHalf(p: nat)
    requires p >= 1
    ensures (2 * p - 1) / 2 == p - 1 && (2 * p - 1) % 2 == 1
  {
  }

  lemma {:induction false} AndOnes(b: nat, k: nat)
    requires b < Pow2(k)
    ensures And(b, Pow2(k) - 1) == b
  {
    hide And;
    if k > 0 {
      AndStep(b, Pow2(k) - 1);
      OddHalf(Pow2(k - 1));
      AndOnes(b / 2, k - 1);
    } else {
      AndNone(b);
    }
  }

  lemma {:induction false} OrBelow(a: nat, b: nat, k: nat)
    requires a < Pow2(k) && b < Pow2(k)
    ensures Or(a, b) < Pow2(k)
  {
    if k > 0 {
      OrStep(a, b);
      OrBelow(a / 2, b / 2, k - 1);
    }
  }

  /** Masking with 2^k - 1 is the remainder modulo 2^k. */
  lemma AndMask(x: nat, k: nat)
    ensures And(x, Pow2(k) - 1) == x % Pow2(k)
  {
    hide And, Pow2, Shift;
    var q, r := x / Pow2(k), x % Pow2(k);
    ShiftIsMul(q, k);
    AndLow(q, r, k);
  }

  lemma AndLow(q: nat, r: nat, k: nat)
    requires r < Pow2(k)
    ensures And(Shift(q, k) + r, Pow2(k) - 1) == r
  {
    hide And, Pow2;
    AndShift(q, r, 0, Pow2(k) - 1, k);
    AndOnes(r, k);
    ShiftZero(k);
    AndNone(q);
  }

  lemma AndNone(q: nat)
    ensures And(q, 0) == 0
  {
  }

  lemma {:induction false} ShiftZero(k: nat)
    ensures Shift(0, k) == 0
  {
    if k > 0 {
      ShiftZero(k - 1);
    }
  }

  lemma OrZero(a: nat)
    ensures Or(a, 0) == a && Or(0, a) == a
  {
  }

  /** A disjunction of fields that do not overlap is their sum. */
  lemma OrDisjoint(a: nat, b: nat, k: nat)
    requires b < Pow2(k)
    ensures Or(a * Pow2(k), b) == a * Pow2(k) + b
  {
    hide Or, Pow2, Shift;
    ShiftIsMul(a, k);
    ShiftZero(k);
    OrShift(a, 0, 0, b, k);
    OrZero(a);
    OrZero(b);
  }

  // ----- powers of two -----

  lemma {:induction false} Pow2Add(a: nat, b: nat)
    ensures Pow2(a + b) == Pow2(a) * Pow2(b)
  {
    if a > 0 {
      Pow2Add(a - 1, b);
      MulAssoc(2, Pow2(a - 1), Pow2(b));
      assert a + b - 1 == a - 1 + b;
    }
  }

  lemma {:induction false} Pow2Monotone(a: nat, b: nat)
    requires a <= b
    ensures Pow2(a) <= Pow2(b)
  {
    if a < b {
      Pow2Monotone(a, b - 1);
    }
  }

  lemma Pow2Values()
    ensures Pow2(2) == 4 && Pow2(6) == 64 && Pow2(8) == 0x100 && Pow2(12) == 0x1000
    ensures Pow2(16) == TWO_16 && Pow2(24) == 0x100_0000 && Pow2(26) == 0x400_0000
    ensures Pow2(31) == MAX_POWER_OF_2_VALUE && Pow2(32) == TWO_32 && Pow2(64) == TWO_64
    ensures Pow2(7) == 128
  {
    assert Pow2(2) == 4;
    assert Pow2(4) == 16;
    assert Pow2(6) == 64;
    assert Pow2(7) == 128;
    assert Pow2(8) == 0x100;
    Pow2Add(8, 4);
    Pow2Add(8, 8);
    Pow2Add(8, 16);
    Pow2Add(24, 2);
    Pow2Add(24, 7);
    Pow2Add(16, 16);
    Pow2Add(32, 32);
  }

  /** The bit trick of is_powerof2: v & (v - 1), with v - 1 taken in 64 bits. */
  predicate IsPowerOf2(v: nat) {
    And(v, (v - 1) % TWO_64) == 0
  }

  lemma {:induction false} LowestBitTrick(v: nat)
    requires v > 0
    ensures And(v, v - 1) == 0 <==> IsPow2(v)
  {
    AndStep(v, v - 1);
    var m := v / 2;
    if v == 1 {
      assert v == Pow2(0);
    } else if v % 2 == 1 {
      assert (v - 1) / 2 == m;
      AndSelf(m);
      forall k: nat ensures v != Pow2(k) {
        assert k > 0 ==> Pow2(k) % 2 == 0;
      }
    } else {
      assert (v - 1) / 2 == m - 1 && (v - 1) % 2 == 1;
      LowestBitTrick(m);
      if IsPow2(m) {
        var k: nat :| m == Pow2(k);
        assert v == Pow2(k + 1);
      }
      if IsPow2(v) {
        var k: nat :| v == Pow2(k);
        assert k > 0;
        assert m == Pow2(k - 1);
      }
    }
  }

  lemma {:induction false} AndSelf(m: nat)
    ensures And(m, m) == m
  {
    if m > 0 {
      AndSelf(m / 2);
    }
  }

  /** is_powerof2 accepts the powers of two and zero, and nothing else. */
  lemma IsPowerOf2Exact(v: nat)
    requires v < TWO_64
    ensures IsPowerOf2(v) <==> v == 0 || IsPow2(v)
  {
    if v > 0 {
      LowestBitTrick(v);
      assert (v - 1) % TWO_64 == v - 1;
    }
  }

  lemma LeastPower(value: nat, k: nat, p: nat)
    requires k == 0 || Pow2(k - 1) < value
    requires IsPow2(p) && value <= p
    ensures Pow2(k) <= p
  {
    var j: nat :| p == Pow2(j);
    if j < k {
      Pow2Monotone(j, k - 1);
    } else {
      Pow2Monotone(k, j);
    }
  }

  /** get_nearest_powerof_2: the least power of two that is at least `value`. */
  method NearestPowerOf2(value: nat) returns (power: nat)
    requires value < TWO_32
    ensures power >= 1
    ensures value > MAX_POWER_OF_2_VALUE ==> power == POWER_OF_2_ERROR
    ensures value <= MAX_POWER_OF_2_VALUE ==>
              IsPow2(power) && value <= power <= MAX_POWER_OF_2_VALUE
              && forall p: nat :: IsPow2(p) && value <= p ==> power <= p
  {
    if value > MAX_POWER_OF_2_VALUE {
      return POWER_OF_2_ERROR;
    }
    power := 1;
    ghost var k := 0;
    Pow2Values();
    while value > power
      invariant power == Pow2(k) && k <= 31
      invariant k == 0 || Pow2(k - 1) < value
    {
      if k == 31 {
        assert false;
      }
      power := U32(power * 2);
      k := k + 1;
      Pow2Monotone(k, 31);
    }
    Pow2Monotone(k, 31);
    forall p: nat | IsPow2(p) && value <= p ensures power <= p {
      LeastPower(value, k, p);
    }
  }
}
