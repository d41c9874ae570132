/** convert_number of kernel/lib/_vcbprintf.cc: the digits of a number, against positional notation. */
module Digits {
  import opened Arithmetic
  import opened Sequences

  const LOWER := "0123456789abcdef"
  const UPPER := "0123456789ABCDEF"
  const MAX_NUMBER_LEN: nat := 130

  function Digit(d: nat, caps: bool): char
    requires d < 16
  {
    if caps then UPPER[d] else LOWER[d]
  }

  /** The value of a character read as a digit; -1 when it is none. */
  function DigitValue(c: char): int {
    if '0' <= c <= '9' then c as int - '0' as int
    else if 'a' <= c <= 'f' then c as int - 'a' as int + 10
    else if 'A' <= c <= 'F' then c as int - 'A' as int + 10
    else -1
  }

  predicate IsDigit(c: char, base: nat) { 0 <= DigitValue(c) < base }

  predicate AllDigits(s: string, base: nat) { forall i | 0 <= i < |s| :: IsDigit(s[i], base) }

  /** The number a string of digits stands for. */
  function Denotes(s: string, base: nat): (r: nat)
    requires AllDigits(s, base)
  {
    if s == [] then 0 else Denotes(s[..|s| - 1], base) * base + DigitValue(s[|s| - 1])
  }

  /** The digits of a number, without a superfluous leading zero. */
  function Numeral(num: nat, base: nat, caps: bool): (s: string)
    requires 2 <= base <= 16
    ensures |s| > 0
    decreases num
  {
    Divide(num, base);
    if num < base then [Digit(num, caps)] else Numeral(num / base, base, caps) + [Digit(num % base, caps)]
  }

  lemma DigitReads(d: nat, caps: bool)
    requires d < 16
    ensures DigitValue(Digit(d, caps)) == d
  {
    if d < 8 {
      if d < 4 {} else {}
    } else {
      if d < 12 {} else {}
    }
  }

  /** A number's digits denote it, and it has no more of them than it needs. */
  lemma {:induction false} NumeralDenotes(num: nat, base: nat, caps: bool)
    requires 2 <= base <= 16
    ensures var s := Numeral(num, base, caps);
            && AllDigits(s, base) && Denotes(s, base) == num
            && (|s| > 1 ==> DigitValue(s[0]) != 0)
    decreases num
  {
    var s := Numeral(num, base, caps);
    Divide(num, base);
    NumeralSteps(num, base, caps);
    DigitReads(num % base, caps);
    hide Numeral, Digit, DigitValue;
    if num < base {
      ModUnique(0, base, num);
      assert s[..0] == [];
    } else {
      NumeralDenotes(num / base, base, caps);
    }
  }

  /** Digits above 9 are letters of the case asked for. */
  lemma {:induction false} NumeralCase(num: nat, base: nat, caps: bool)
    requires 2 <= base <= 16
    ensures forall c | c in Numeral(num, base, caps) ::
              '0' <= c <= '9' || if caps then 'A' <= c <= 'F' else 'a' <= c <= 'f'
    decreases num
  {
    Divide(num, base);
    DigitCase(num % base, caps);
    if num < base {
      ModUnique(0, base, num);
    } else {
      NumeralCase(num / base, base, caps);
    }
    hide Digit;
  }

  lemma DigitCase(d: nat, caps: bool)
    requires d < 16
    ensures var c := Digit(d, caps); '0' <= c <= '9' || if caps then 'A' <= c <= 'F' else 'a' <= c <= 'f'
  {
    if d < 8 {
      if d < 4 {} else {}
    } else {
      if d < 12 {} else {}
    }
  }

  lemma AppendDigit(d: nat, v: nat, base: nat, caps: bool)
    requires 2 <= base <= 16 && d >= 1 && v < base
    ensures Numeral(d * base + v, base, caps) == Numeral(d, base, caps) + [Digit(v, caps)]
  {
    ModUnique(d, base, v);
    assert base * d + v == d * base + v;
    Scale(base, 1, d);
  }

  /** There is no other way to write a number without a superfluous leading zero. */
  lemma {:induction false} NumeralUnique(s: string, base: nat, caps: bool)
    requires 2 <= base <= 16 && s != [] && AllDigits(s, base) && (|s| > 1 ==> DigitValue(s[0]) != 0)
    ensures var t := Numeral(Denotes(s, base), base, caps);
            |t| == |s| && forall i | 0 <= i < |s| :: DigitValue(t[i]) == DigitValue(s[i])
  {
    hide Numeral, Denotes, DigitValue, Digit;
    var u, v := s[..|s| - 1], DigitValue(s[|s| - 1]);
    DenotesLast(s, base);
    DigitReads(v, caps);
    if |s| == 1 {
      OneDigit(v, base, caps);
    } else {
      NumeralUnique(u, base, caps);
      OneDigit(0, base, caps);
      DigitReads(0, caps);
      AppendDigit(Denotes(u, base), v, base, caps);
    }
  }

  lemma OneDigit(d: nat, base: nat, caps: bool)
    requires 2 <= base <= 16 && d < base
    ensures Numeral(d, base, caps) == [Digit(d, caps)] && Denotes([], base) == 0
  {}

  lemma DenotesLast(s: string, base: nat)
    requires AllDigits(s, base) && s != []
    ensures Denotes(s, base) == Denotes(s[..|s| - 1], base) * base + DigitValue(s[|s| - 1])
    ensures |s| == 1 ==> Denotes(s, base) == DigitValue(s[0])
  {
    if |s| == 1 { assert s[..0] == []; }
  }

  /** Leading zeros do not change what digits denote; more generally, digits compose by position. */
  lemma {:induction false} DenotesConcat(s: string, t: string, base: nat)
    requires AllDigits(s, base) && AllDigits(t, base)
    ensures AllDigits(s + t, base)
    ensures Denotes(s + t, base) == Denotes(s, base) * Power(base, |t|) + Denotes(t, base)
  {
    if t == [] {
      assert s + t == s;
    } else {
      var u, x := t[..|t| - 1], DigitValue(t[|t| - 1]);
      DenotesConcat(s, u, base);
      assert (s + t)[..|s + t| - 1] == s + u;
      Distribute(Denotes(s, base), Power(base, |u|), Denotes(u, base), base);
    }
  }

  lemma Distribute(a: nat, p: nat, b: nat, base: nat)
    ensures (a * p + b) * base == a * (base * p) + b * base
  {}

  lemma {:induction false} DenotesBelow(s: string, base: nat)
    requires AllDigits(s, base)
    ensures Denotes(s, base) < Power(base, |s|)
  {
    if s != [] {
      var t := s[..|s| - 1];
      DenotesBelow(t, base);
      Carry(Denotes(t, base), Power(base, |t|), base, DigitValue(s[|s| - 1]));
    }
  }

  /** Only numbers of at least base^n have more than n digits. */
  lemma {:induction false} NumeralLength(num: nat, base: nat, caps: bool, n: nat)
    requires 2 <= base <= 16 && n >= 1
    ensures |Numeral(num, base, caps)| <= n <==> num < Power(base, n)
    decreases num
  {
    Divide(num, base);
    NumeralSteps(num, base, caps);
    Carry(num / base, Power(base, n - 1), base, num % base);
    if num >= base && n > 1 { NumeralLength(num / base, base, caps, n - 1); }
  }

  /** The digits kept denote the number modulo base^n, and all of it exactly when it is that small. */
  lemma LastDenotes(num: nat, base: nat, caps: bool, n: nat)
    requires 2 <= base <= 16 && n >= 1
    ensures var s := Last(Numeral(num, base, caps), n);
            && AllDigits(s, base) && Denotes(s, base) == num % Power(base, n)
            && (s == Numeral(num, base, caps) <==> num < Power(base, n))
  {
    hide Numeral, Denotes, Power;
    var s, p := Numeral(num, base, caps), Power(base, n);
    NumeralDenotes(num, base, caps);
    NumeralLength(num, base, caps, n);
    if |s| > n {
      var a, b := s[..|s| - n], s[|s| - n..];
      assert s == a + b;
      DenotesConcat(a, b, base);
      DenotesBelow(b, base);
      Remainder(Denotes(a, base), p, Denotes(b, base));
    } else {
      Remainder(0, p, num);
    }
  }

  lemma {:induction false} BaseAtLeastTwo(base: nat, n: nat)
    requires base >= 2
    ensures Power(2, n) <= Power(base, n)
  {
    if n > 0 {
      BaseAtLeastTwo(base, n - 1);
      Scale(base, Power(2, n - 1), Power(base, n - 1));
      Scale(Power(2, n - 1), 2, base);
    }
  }

  /** The buffer _vcbprintf uses holds every 64-bit number in every base. */
  lemma BufferSuffices(num: nat, base: nat, caps: bool)
    requires num < TWO64 && 2 <= base <= 16
    ensures |Numeral(num, base, caps)| <= 64
    ensures Last(Numeral(num, base, caps), MAX_NUMBER_LEN) == Numeral(num, base, caps)
  {
    PowersOfTwo();
    BaseAtLeastTwo(base, 64);
    NumeralLength(num, base, caps, 64);
  }

  function Clamp(base: nat): (b: nat)
    ensures 2 <= b <= 16
  {
    if base < 2 then 2 else if base > 16 then 16 else base
  }

  lemma NumeralSteps(num: nat, base: nat, caps: bool)
    requires 2 <= base <= 16
    ensures var s := Numeral(num, base, caps);
            && s[|s| - 1] == Digit(num % base, caps)
            && (num >= base ==> s[..|s| - 1] == Numeral(num / base, base, caps))
            && (num < base ==> |s| == 1)
  {
    Divide(num, base);
    if num < base { ModUnique(0, base, num); }
  }

  /** The first loop: how many digits a number has. */
  method CountDigits(num: nat, base: nat, ghost caps: bool) returns (len: nat)
    requires 2 <= base <= 16
    ensures len == |Numeral(num, base, caps)|
  {
    Divide(num, base);
    var tmp: nat := num / base;
    len := 1;
    NumeralSteps(num, base, caps);
    while tmp != 0
      invariant len + (if tmp == 0 then 0 else |Numeral(tmp, base, caps)|) == |Numeral(num, base, caps)|
      decreases tmp
    {
      NumeralSteps(tmp, base, caps);
      Divide(tmp, base);
      tmp := tmp / base;
      len := len + 1;
    }
  }

  ghost predicate Writes(s: string, num: nat, base: nat, caps: bool)
    requires 2 <= base <= 16
  {
    s == Numeral(num, base, caps)
  }

  /** The digit a number ends in, and the rest of it. */
  method SplitDigit(num: nat, base: nat, caps: bool, ghost s: string) returns (c: char, rest: nat)
    requires 2 <= base <= 16 && s != [] && Writes(s, num, base, caps)
    ensures c == s[|s| - 1]
    ensures |s| > 1 ==> Writes(s[..|s| - 1], rest, base, caps)
  {
    hide Numeral;
    NumeralSteps(num, base, caps);
    Divide(num, base);
    c := (if caps then UPPER else LOWER)[num % base];
    rest := num / base;
  }

  /** The second loop: the last len digits, back to front. */
  method WriteDigits(s: array<char>, len: nat, num: nat, base: nat, caps: bool, ghost all: string)
    requires 2 <= base <= 16 && len <= s.Length && len <= |all| && Writes(all, num, base, caps)
    modifies s
    ensures var skip := |all| - len; forall j | 0 <= j < len :: s[j] == all[skip..][j]
    ensures forall j | len <= j < s.Length :: s[j] == old(s[j])
  {
    hide Writes;
    ghost var skip := |all| - len;
    ghost var kept := all[skip..];
    var i, rest := len, num;
    assert all[..skip + i] == all;
    while i > 0
      invariant 0 <= i <= len
      invariant skip + i > 0 ==> Writes(all[..skip + i], rest, base, caps)
      invariant forall j | i <= j < len :: s[j] == kept[j]
      invariant forall j | len <= j < s.Length :: s[j] == old(s[j])
    {
      var c;
      c, rest := SplitDigit(rest, base, caps, all[..skip + i]);
      assert all[..skip + i][..skip + i - 1] == all[..skip + i - 1];
      assert c == kept[i - 1];
      s[i - 1] := c;
      i := i - 1;
    }
  }

  /** convert_number, into an array with room for n characters and the terminator. */
  method ConvertNumber(s: array<char>, n: nat, num: nat, base: nat, caps: bool)
    requires n < s.Length
    modifies s
    ensures var t := if n == 0 then [] else Last(Numeral(num, Clamp(base), caps), n);
            && |t| <= n && s[..|t|] == t && s[|t|] == '\0' && s[|t| + 1..] == old(s[|t| + 1..])
  {
    hide Numeral;
    if n == 0 {
      s[0] := '\0';
      return;
    }
    var b := Clamp(base);
    var len := CountDigits(num, b, caps);
    len := if len > n then n else len;
    WriteDigits(s, len, num, b, caps, Numeral(num, b, caps));
    s[len] := '\0';
  }
}
