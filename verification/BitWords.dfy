/** Single bits of 32-bit words held as numbers: `Bit` is w & ( 1 << b ), `Set` is
    w | ( 1 << b ) and `Clear` is w & ~( 1 << b ). */
module BitWords {
  import opened Arithmetic

  const FULL: nat := 0xffff_ffff

  type Word = w: nat | w <= FULL

  predicate Bit(w: nat, b: nat) {
    if b == 0 then w % 2 == 1 else Bit(w / 2, b - 1)
  }

  function Set(w: nat, b: nat): nat {
    if b == 0 then w / 2 * 2 + 1 else Set(w / 2, b - 1) * 2 + w % 2
  }

  function Clear(w: nat, b: nat): nat {
    if b == 0 then w / 2 * 2 else Clear(w / 2, b - 1) * 2 + w % 2
  }

  /** 2^n - 1: the word whose n low bits are set. */
  function Ones(n: nat): nat {
    if n == 0 then 0 else Ones(n - 1) * 2 + 1
  }

  /** Setting one bit changes that bit and no other. */
  lemma {:induction false} SetBit(w: nat, b: nat, c: nat)
    ensures Bit(Set(w, b), c) == (b == c || Bit(w, c))
  {
    if b > 0 {
      var s := Set(w / 2, b - 1);
      assert Set(w, b) == s * 2 + w % 2;
      assert Set(w, b) / 2 == s && Set(w, b) % 2 == w % 2;
      if c > 0 { SetBit(w / 2, b - 1, c - 1); }
    }
  }

  /** Clearing one bit changes that bit and no other. */
  lemma {:induction false} ClearBit(w: nat, b: nat, c: nat)
    ensures Bit(Clear(w, b), c) == (b != c && Bit(w, c))
  {
    if b > 0 {
      var s := Clear(w / 2, b - 1);
      assert Clear(w, b) == s * 2 + w % 2;
      assert Clear(w, b) / 2 == s && Clear(w, b) % 2 == w % 2;
      if c > 0 { ClearBit(w / 2, b - 1, c - 1); }
    }
  }

  /** Writing a bit of an n-bit word leaves an n-bit word. */
  lemma {:induction false} StaysInWord(w: nat, b: nat, n: nat)
    requires b < n && w <= Ones(n)
    ensures Set(w, b) <= Ones(n) && Clear(w, b) <= Ones(n)
  {
    if b > 0 { StaysInWord(w / 2, b - 1, n - 1); }
  }

  /** The word of n ones has every bit below n set, and it is the only n-bit word that does. */
  lemma {:induction false} OnesBit(n: nat, b: nat)
    requires b < n
    ensures Bit(Ones(n), b)
  {
    if b > 0 { OnesBit(n - 1, b - 1); }
  }

  lemma {:induction false} AllSetIsOnes(w: nat, n: nat)
    requires w <= Ones(n) && forall b: nat | b < n :: Bit(w, b)
    ensures w == Ones(n)
  {
    if n > 0 {
      assert Bit(w, 0);
      forall b: nat | b < n - 1 ensures Bit(w / 2, b) { assert Bit(w, b + 1); }
      AllSetIsOnes(w / 2, n - 1);
    }
  }

  lemma Ones32()
    ensures Ones(32) == FULL
  {
    assert Ones(8) == 0xff;
    assert Ones(16) == 0xffff;
    assert Ones(24) == 0xff_ffff;
  }

  /** The bitwise or of two numbers. */
  function Or(a: nat, b: nat): nat {
    if a == 0 then b
    else if b == 0 then a
    else 2 * Or(a / 2, b / 2) + if a % 2 == 1 || b % 2 == 1 then 1 else 0
  }

  /** It has the bits of both. */
  lemma {:induction false} OrBit(a: nat, b: nat, n: nat)
    ensures Bit(Or(a, b), n) == (Bit(a, n) || Bit(b, n))
  {
    NoBits(n);
    if a > 0 && b > 0 {
      var half := Or(a / 2, b / 2);
      var low := if a % 2 == 1 || b % 2 == 1 then 1 else 0;
      assert Or(a, b) == 2 * half + low;
      assert Or(a, b) / 2 == half && Or(a, b) % 2 == low;
      if n > 0 { OrBit(a / 2, b / 2, n - 1); }
    }
  }

  lemma {:induction false} NoBits(n: nat)
    ensures !Bit(0, n)
  {
    if n > 0 { NoBits(n - 1); }
  }

  predicate NoCommonBit(a: nat, b: nat) {
    a == 0 || b == 0 || ((a % 2 == 0 || b % 2 == 0) && NoCommonBit(a / 2, b / 2))
  }

  lemma {:induction false} OrIsSum(a: nat, b: nat)
    requires NoCommonBit(a, b)
    ensures Or(a, b) == a + b
  {
    if a > 0 && b > 0 { OrIsSum(a / 2, b / 2); }
  }

  function Shift(a: nat, n: nat): nat { if n == 0 then a else Shift(a / 2, n - 1) }

  lemma {:induction false} ShiftBit(a: nat, n: nat, b: nat)
    ensures Bit(Shift(a, n), b) == Bit(a, b + n)
  {
    if n > 0 { ShiftBit(a / 2, n - 1, b); }
  }

  predicate LowBitsClear(a: nat, n: nat) { n == 0 || (a % 2 == 0 && LowBitsClear(a / 2, n - 1)) }

  /** Nothing in common below bit n where one has no bits, nor from there on. */
  lemma {:induction false} SplitAt(a: nat, b: nat, n: nat)
    requires LowBitsClear(a, n) && NoCommonBit(Shift(a, n), Shift(b, n))
    ensures NoCommonBit(a, b)
  {
    if n > 0 { SplitAt(a / 2, b / 2, n - 1); }
  }

  lemma {:induction false} BelowAndAbove(a: nat, b: nat, n: nat)
    requires Shift(a, n) == 0 && LowBitsClear(b, n)
    ensures NoCommonBit(a, b)
  {
    if n > 0 { BelowAndAbove(a / 2, b / 2, n - 1); }
  }

  lemma {:induction false} ShiftDivides(a: nat, n: nat)
    ensures Shift(a, n) == a / Power(2, n)
    ensures LowBitsClear(a, n) <==> a % Power(2, n) == 0
  {
    if n > 0 {
      ShiftDivides(a / 2, n - 1);
      Halves(a, Power(2, n - 1));
    }
  }

  lemma Halves(a: nat, p: nat)
    requires p > 0
    ensures a / 2 / p == a / (2 * p) && a % (2 * p) == a % 2 + 2 * (a / 2 % p)
  {
    var h := a / 2;
    var q, r := h / p, h % p;
    Divide(h, p);
    Doubled(p, q);
    ModUnique(q, 2 * p, a % 2 + 2 * r);
  }

  lemma Doubled(p: nat, q: nat)
    ensures 2 * p * q == 2 * (q * p)
  {}

  lemma {:induction false} LowBitsBit(a: nat, n: nat, b: nat)
    ensures Bit(a % Power(2, n), b) == (b < n && Bit(a, b))
  {
    if n == 0 {
      NoBits(b);
    } else {
      Halves(a, Power(2, n - 1));
      var r := a / 2 % Power(2, n - 1);
      assert a % Power(2, n) == 2 * r + a % 2;
      assert (2 * r + a % 2) / 2 == r && (2 * r + a % 2) % 2 == a % 2;
      if b > 0 { LowBitsBit(a / 2, n - 1, b - 1); }
    }
  }
}
