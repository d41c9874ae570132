/** The powers of two of machine words, the size of a page, and facts about products, powers, quotients and
    remainders that several models use. */
module Arithmetic {

  const PAGE: nat := 0x1000

  const TWO8: nat := 0x100
  const TWO16: nat := 0x1_0000
  const TWO20: nat := 0x10_0000
  const TWO32: nat := 0x1_0000_0000
  const TWO36: nat := 0x10_0000_0000
  const TWO41: nat := 0x200_0000_0000
  const TWO53: nat := 0x20_0000_0000_0000
  const TWO64: nat := 0x1_0000_0000_0000_0000

  /** Quotient and remainder are unique. */
  lemma DivModIs(x: int, a: nat, q: int, r: nat)
    requires r < a && x == a * q + r
    ensures x / a == q && x % a == r
  {
    var p, s := x / a, x % a;
    assert a * p + s == a * q + r;
    if p < q { NextMultiple(a, p, q); }
    if p > q { NextMultiple(a, q, p); }
  }

  lemma NextMultiple(a: nat, x: int, y: int)
    requires x < y
    ensures a * x + a <= a * y
  {
    assert a * (x + 1) == a * x + a;
    ScaleInt(a, x + 1, y);
  }

  lemma ScaleInt(a: nat, x: int, y: int)
    requires x <= y
    ensures a * x <= a * y
  {}

  lemma ModUnique(q: nat, a: nat, r: nat)
    requires r < a
    ensures (a * q + r) / a == q && (a * q + r) % a == r
  {
    DivModIs(a * q + r, a, q, r);
  }

  function Power(base: nat, n: nat): (r: nat)
    ensures base > 0 ==> r > 0
  {
    if n == 0 then 1 else base * Power(base, n - 1)
  }

  lemma {:induction false} PowerAdd(base: nat, n: nat, m: nat)
    ensures Power(base, n + m) == Power(base, n) * Power(base, m)
  {
    if n > 0 {
      PowerAdd(base, n - 1, m);
      Associate(base, Power(base, n - 1), Power(base, m));
    }
  }

  lemma Associate(a: nat, b: nat, c: nat)
    ensures a * (b * c) == a * b * c
  {}

  /** The product of two powers of two that are known. */
  lemma TwoTo(n: nat, v: nat, m: nat, w: nat)
    requires Power(2, n) == v && Power(2, m) == w
    ensures Power(2, n + m) == v * w
  {
    PowerAdd(2, n, m);
  }

  lemma PowersOfTwo()
    ensures Power(2, 12) == PAGE && Power(2, 41) == TWO41 && Power(2, 64) == TWO64
  {
    assert Power(2, 0) == 1 && Power(2, 1) == 2;
    hide Power;
    TwoTo(1, 2, 1, 2);
    TwoTo(2, 4, 2, 4);
    TwoTo(4, 16, 4, 16);
    TwoTo(8, TWO8, 4, 16);
    TwoTo(8, TWO8, 8, TWO8);
    TwoTo(16, TWO16, 16, TWO16);
    TwoTo(32, TWO32, 8, TWO8);
    TwoTo(40, 0x100_0000_0000, 1, 2);
    TwoTo(32, TWO32, 32, TWO32);
  }

  lemma Scale(b: nat, x: nat, y: nat)
    requires x <= y
    ensures b * x <= b * y
  {}

  /** The parts of a division. */
  lemma Divide(x: nat, a: nat)
    requires a > 0
    ensures x / a >= 0 && 0 <= x % a < a && x == x / a * a + x % a
    ensures x < a <==> x / a == 0
    ensures a >= 2 && x > 0 ==> x / a < x
  {
    if x < a { ModUnique(0, a, x); } else { Positive(x / a, a); }
    if a >= 2 && x / a >= x > 0 { Scale(a, x, x / a); Scale(x, 2, a); assert false; }
  }

  lemma Positive(q: int, a: nat)
    requires q * a > 0
    ensures q > 0
  {}

  /** One more digit keeps a number below the next power. */
  lemma Carry(d: nat, p: nat, base: nat, v: nat)
    requires v < base
    ensures d < p <==> d * base + v < base * p
  {
    if d < p { Scale(base, d + 1, p); } else { Scale(base, p, d); }
    assert base * (d + 1) == base * d + base && base * d == d * base;
  }

  lemma Remainder(d: nat, p: nat, y: nat)
    requires y < p
    ensures (d * p + y) % p == y
  {
    ModUnique(d, p, y);
    assert p * d == d * p;
  }
}
