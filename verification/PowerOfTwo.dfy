/** next_power_of_two of libuv/src/unix/core.c, on 32-bit numbers. */
module PowerOfTwo {
  import opened Arith

  const WORD := 0x1_0000_0000

  type u32 = n: nat | n < WORD

  function Pow2(k: nat): (p: nat)
    ensures p > 0
  {
    if k == 0 then 1 else 2 * Pow2(k - 1)
  }

  /** Bitwise or. */
  function Or(a: nat, b: nat): nat {
    if a == 0 && b == 0 then 0
    else 2 * Or(a / 2, b / 2) + if a % 2 == 1 || b % 2 == 1 then 1 else 0
  }

  lemma PowStep(k: nat)
    ensures Pow2(k) == if k == 0 then 1 else 2 * Pow2(k - 1)
  {
  }

  lemma {:induction false} PowSum(a: nat, b: nat)
    ensures Pow2(a + b) == Pow2(a) * Pow2(b)
  {
    hide Pow2;
    PowStep(a);
    PowStep(a + b);
    if a > 0 {
      PowSum(a - 1, b);
      Double(Pow2(a - 1), Pow2(b));
    }
  }

  lemma {:induction false} PowGrows(a: nat, b: nat)
    requires a <= b
    ensures Pow2(a) <= Pow2(b)
    decreases b
  {
    if a < b {
      PowGrows(a, b - 1);
    }
  }

  lemma {:induction false} OrBounds(a: nat, b: nat, k: nat)
    requires a < Pow2(k) && b < Pow2(k)
    ensures a <= Or(a, b) < Pow2(k) && b <= Or(a, b)
    decreases k
  {
    if k > 0 {
      OrBounds(a / 2, b / 2, k - 1);
    }
  }

  /** The or with a number of at most k bits leaves the bits above alone. */
  lemma {:induction false} OrAbove(t: nat, l: nat, b: nat, k: nat)
    requires l < Pow2(k) && b < Pow2(k)
    ensures Or(t * Pow2(k) + l, b) >= t * Pow2(k) + b
    decreases k
  {
    if k == 0 {
      assert t * 1 == t;
      OrWithZero(t);
    } else {
      var p := Pow2(k - 1);
      var a := t * Pow2(k) + l;
      assert t * (2 * p) == 2 * (t * p);
      assert a / 2 == t * p + l / 2;
      OrAbove(t, l / 2, b / 2, k - 1);
    }
  }

  lemma {:induction false} OrWithZero(a: nat)
    ensures Or(a, 0) == a
    decreases a
  {
    if a > 0 {
      OrWithZero(a / 2);
    }
  }

  /** Of the n bits of v the first m are ones. */
  predicate Ones(v: nat, n: nat, m: nat) {
    v < Pow2(n) && v + Pow2(if n > m then n - m else 0) >= Pow2(n)
  }

  lemma Quotient(v: nat, d: nat, c: nat)
    requires d > 0
    ensures v < d * c ==> v / d < c
    ensures v >= d * c ==> v / d >= c
  {
    DivMod(v, d);
    var q := v / d;
    if q >= c {
      MulMono(c, q, d);
    } else {
      MulMono(q + 1, c, d);
      Distribute(q, 1, d);
    }
  }

  lemma LastQuotients(v: nat, d: nat, p: nat, r: nat)
    requires d > 0 && p > 0 && r > 0 && d * p <= v + p
    requires p == d * r || (p <= d && r == 1)
    ensures v / d + r >= p
  {
    if p >= r {
      Distribute(p, r, d);
      Quotient(v, d, p - r);
    }
  }

  /** v lies in the last p of d * p numbers: its quotient by p is d - 1, that by d is in the last r of p. */
  lemma TopDigits(v: nat, d: nat, p: nat, r: nat)
    requires d > 0 && p > 0 && r > 0 && v < d * p <= v + p
    requires p == d * r || (p <= d && r == 1)
    ensures v / d < p && v / p >= d - 1 && v / d + r >= p
  {
    Quotient(v, d, p);
    Distribute(d, 1, p);
    Quotient(v, p, d - 1);
    LastQuotients(v, d, p, r);
  }

  /** v |= v >> m doubles the ones. */
  lemma Smear(v: nat, n: nat, m: nat)
    requires Ones(v, n, m) && m > 0
    ensures Ones(Or(v, v / Pow2(m)), n, 2 * m)
  {
    hide Or, Pow2;
    var d := Pow2(m);
    DivMod(v, d);
    OrBounds(v, v / d, n);
    if n > m {
      var k := n - m;
      var p, r := Pow2(k), Pow2(if k > m then k - m else 0);
      PowSum(m, k);
      if k > m {
        PowSum(m, k - m);
      } else {
        PowGrows(k, m);
        assert r == 1 by { PowZero(); }
      }
      TopDigits(v, d, p, r);
      DivMod(v, p);
      OrTop(v / p, v % p, v / d, d, p, k);
    }
  }

  lemma PowZero()
    ensures Pow2(0) == 1 && Pow2(1) == 2 && Pow2(2) == 4 && Pow2(4) == 16 && Pow2(8) == 256 && Pow2(16) == 65536
  {
    assert Pow2(2) == 4;
    PowSum(2, 2);
    PowSum(4, 4);
    PowSum(8, 8);
  }

  lemma OrTop(high: nat, low: nat, x: nat, d: nat, p: nat, k: nat)
    requires d > 0 && p == Pow2(k) && low < p && x < p && high >= d - 1
    ensures Or(high * p + low, x) >= d * p - p + x
  {
    hide Or, Pow2;
    OrAbove(high, low, x, k);
    MulMono(d - 1, high, p);
    Distribute(d, 1, p);
  }

  /** r is the least power of two that is not below val. */
  ghost predicate IsLeastPower(r: nat, val: nat) {
    exists k: nat :: r == Pow2(k) && val <= r && (k > 0 ==> Pow2(k - 1) < val)
  }

  ghost predicate IsPower(n: nat) {
    exists k: nat :: n == Pow2(k)
  }

  lemma LeastIsPower(r: nat, val: nat)
    requires IsLeastPower(r, val)
    ensures IsPower(r) && val <= r
  {
  }

  lemma TwoIsPower()
    ensures IsPower(2)
  {
    assert Pow2(1) == 2;
  }

  lemma {:induction false} Width(v: nat) returns (n: nat)
    ensures v < Pow2(n) && (n > 0 ==> Pow2(n - 1) <= v)
    decreases v
  {
    if v == 0 {
      n := 0;
    } else {
      n := Width(v / 2);
      n := n + 1;
    }
  }

  lemma ThirtyTwoBits()
    ensures Pow2(32) == WORD && Pow2(31) == WORD / 2
  {
    PowZero();
    PowSum(16, 16);
    assert Pow2(32) == 2 * Pow2(31);
  }

  lemma OnesStart(v: nat, n: nat)
    requires v < Pow2(n) && (n > 0 ==> Pow2(n - 1) <= v)
    ensures Ones(v, n, 1)
  {
  }

  /** Five doublings make all bits of a number of 32 bits ones. */
  lemma Filled(v: u32) returns (n: nat)
    ensures n <= 32 && v < Pow2(n) && (n > 0 ==> Pow2(n - 1) <= v)
    ensures var v1 := Or(v, v / 2); var v2 := Or(v1, v1 / 4); var v4 := Or(v2, v2 / 16); var v8 := Or(v4, v4 / 256);
            Or(v8, v8 / 65536) == Pow2(n) - 1
  {
    hide Or, Pow2;
    ThirtyTwoBits();
    PowZero();
    n := Width(v);
    if n > 32 {
      PowGrows(32, n - 1);
    }
    OnesStart(v, n);
    Smear(v, n, 1);
    var v1 := Or(v, v / 2);
    Smear(v1, n, 2);
    var v2 := Or(v1, v1 / 4);
    Smear(v2, n, 4);
    var v4 := Or(v2, v2 / 16);
    Smear(v4, n, 8);
    var v8 := Or(v4, v4 / 256);
    Smear(v8, n, 16);
  }

  /** The number is found just for values from 1 to 2^31; for all others the sum wraps to 0. */
  method NextPowerOfTwo(val: u32) returns (r: u32)
    ensures 1 <= val <= WORD / 2 ==> IsLeastPower(r, val)
    ensures !(1 <= val <= WORD / 2) ==> r == 0
  {
    hide Or, Pow2;
    ThirtyTwoBits();
    var v: nat := (val + (WORD - 1)) % WORD;
    ghost var n := Filled(v);
    v := Or(v, v / 2);
    v := Or(v, v / 4);
    v := Or(v, v / 16);
    v := Or(v, v / 256);
    v := Or(v, v / 65536);
    if n < 32 {
      PowGrows(n, 31);
    }
    r := (v + 1) % WORD;
    assert 1 <= val <= WORD / 2 ==> r == Pow2(n);
  }
}
