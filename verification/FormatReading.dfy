/** What the formatter reads: how a format falls into literal text and directives, what a directive says, and
    which argument it takes, in terms of the characters of the format. */
module FormatReading {
  import opened Arithmetic
  import opened Digits
  import opened FormatSpec
  import opened Format
  import opened FormatFacts

  // ---- numbers --------------------------------------------------------------------------------

  lemma {:induction false} NumberContinues(fmt: string, i: nat, n: nat)
    requires i <= |fmt|
    ensures var (m, j) := NumberAt(fmt, i, n);
            && AllDigits(fmt[i..j], 10) && (j < |fmt| ==> !IsDigit(fmt[j], 10))
            && m == n * Power(10, j - i) + Denotes(fmt[i..j], 10)
    decreases |fmt| - i
  {
    if IsDecimal(At(fmt, i)) {
      var (m, j) := NumberAt(fmt, i, n);
      var d := fmt[i] as int - '0' as int;
      NumberContinues(fmt, i + 1, n * 10 + d);
      assert fmt[i..j] == [fmt[i]] + fmt[i + 1..j];
      FirstDigit(fmt[i], fmt[i + 1..j]);
      Shifted(n, d, Power(10, j - i - 1));
    } else {
      assert fmt[i..i] == [];
      assert n * Power(10, 0) == n;
    }
  }

  lemma FirstDigit(c: char, s: string)
    requires IsDigit(c, 10) && AllDigits(s, 10)
    ensures AllDigits([c] + s, 10)
    ensures Denotes([c] + s, 10) == DigitValue(c) * Power(10, |s|) + Denotes(s, 10)
  {
    DenotesConcat([c], s, 10);
    DenotesLast([c], 10);
  }

  lemma Shifted(n: nat, d: nat, p: nat)
    ensures (n * 10 + d) * p == n * (10 * p) + d * p
  {}

  /** A number is read in decimal, up to the first character that is no decimal digit. */
  lemma NumberReads(fmt: string, i: nat)
    requires i <= |fmt|
    ensures var (n, j) := NumberAt(fmt, i, 0);
            && AllDigits(fmt[i..j], 10) && (j < |fmt| ==> !IsDigit(fmt[j], 10))
            && n == Denotes(fmt[i..j], 10)
  {
    NumberContinues(fmt, i, 0);
  }

  /** The argument of a star, an int: equal to the word's low half modulo 2^32, from -2^31 to 2^31 - 1. */
  lemma SignedIs(bits: int, two: nat)
    requires two > 0 && two % 2 == 0
    ensures var v := Signed(bits, two); 0 <= 2 * v + two < 2 * two && (v - bits) % two == 0
  {
    var q, r := bits / two, bits % two;
    assert bits == two * q + r;
    var v := Signed(bits, two);
    DivModIs(v - bits, two, if v == r then -q else -q - 1, 0);
  }

  // ---- directives -----------------------------------------------------------------------------

  const FLAG_CHARS := "'-+ #0"

  /** fmt[i..j] is a width or a precision with the value n: digits, or digits and a star that takes the
      argument k. */
  predicate IsCount(fmt: string, i: nat, j: nat, n: int, args: nat -> Slot, k: nat, next: nat) {
    && i <= j <= |fmt|
    && if j > i && fmt[j - 1] == '*' then
         AllDigits(fmt[i..j - 1], 10) && next == k + 1 && n == Signed(args(k).bits, TWO32)
       else
         && AllDigits(fmt[i..j], 10) && next == k && n == Denotes(fmt[i..j], 10)
         && !IsDigit(At(fmt, j), 10) && At(fmt, j) != '*'
  }

  lemma CountReads(fmt: string, i: nat, args: nat -> Slot, k: nat)
    requires i <= |fmt|
    ensures var (n, j, next) := CountAt(fmt, i, args, k); IsCount(fmt, i, j, n, args, k, next)
  {
    NumberReads(fmt, i);
    var (n, j) := NumberAt(fmt, i, 0);
    if At(fmt, j) != '*' {
      assert j > i ==> IsDigit(fmt[i..j][j - 1 - i], 10);
    }
  }

  /** How a length modifier is written. */
  function ModifierText(length: Length): string {
    match length
    case LenChar => "hh"
    case LenShort => "h"
    case LenInt => ""
    case LenLong => "l"
    case LenLongLong => "ll"
    case LenIntMax => "j"
    case LenSizeT => "z"
    case LenPtrDiffT => "t"
  }

  /** The longest length modifier that is there is the one read. */
  lemma LengthReads(fmt: string, i: nat)
    requires i <= |fmt|
    ensures var (length, j) := LengthAt(fmt, i);
            && fmt[i..j] == ModifierText(length)
            && forall other | ModifierText(other) <= fmt[i..] :: |ModifierText(other)| <= j - i
  {
    var (length, j) := LengthAt(fmt, i);
    if j == i {
      assert fmt[i..j] == [];
    } else if j == i + 1 {
      assert fmt[i..j] == [fmt[i]];
    } else {
      assert fmt[i..j] == [fmt[i], fmt[i + 1]];
    }
    forall other | ModifierText(other) <= fmt[i..] ensures |ModifierText(other)| <= j - i {
      NotLonger(fmt, i, other);
    }
  }

  lemma NotLonger(fmt: string, i: nat, other: Length)
    requires i <= |fmt| && ModifierText(other) <= fmt[i..]
    ensures |ModifierText(other)| <= LengthAt(fmt, i).1 - i
  {
    var m := ModifierText(other);
    if |m| >= 1 { assert fmt[i] == fmt[i..][0] == m[0]; }
    if |m| == 2 { assert fmt[i + 1] == fmt[i..][1] == m[1]; }
  }

  lemma {:induction false} FlagsEnd(fmt: string, i: nat, f: Flags)
    requires i <= |fmt|
    ensures var j := FlagsAt(fmt, i, f).1;
            (forall k | i <= k < j :: fmt[k] in FLAG_CHARS) && (j < |fmt| ==> fmt[j] !in FLAG_CHARS)
    decreases |fmt| - i
  {
    if IsFlag(At(fmt, i)) { FlagsEnd(fmt, i + 1, AddFlag(f, fmt[i])); }
  }

  /** A directive is flags up to a, a width up to b, a precision behind a period up to c, a length modifier up to e
      and the conversion; the stars take the first arguments. */
  lemma DirectiveReads(fmt: string, i: nat, args: nat -> Slot, k: nat) returns (a: nat, b: nat, c: nat, e: nat)
    requires i <= |fmt| && WrittenAt(fmt, i, args, k).1 <= |fmt|
    ensures var (w, end, next) := WrittenAt(fmt, i, args, k);
            && i <= a <= b <= c <= e < |fmt| && end == e + 1 && w.conv == fmt[e]
            && (forall j | i <= j < a :: fmt[j] in FLAG_CHARS) && fmt[a] !in FLAG_CHARS
            && (w.dot <==> fmt[b] == '.')
            && (exists k1 :: IsCount(fmt, a, b, w.width, args, k, k1) &&
                             if w.dot then b < c && IsCount(fmt, b + 1, c, w.prec, args, k1, next)
                             else b == c && w.prec == 0 && next == k1)
            && fmt[c..e] == ModifierText(w.length)
            && forall other | ModifierText(other) <= fmt[c..] :: |ModifierText(other)| <= e - c
  {
    hide FlagsAt, CountAt, LengthAt, IsCount, ModifierText;
    FlagsEnd(fmt, i, NO_FLAGS);
    a := FlagsAt(fmt, i, NO_FLAGS).1;
    CountReads(fmt, a, args, k);
    var (w, b', k1) := CountAt(fmt, a, args, k);
    b := b';
    if At(fmt, b) == '.' { CountReads(fmt, b + 1, args, k1); }
    c := if At(fmt, b) == '.' then CountAt(fmt, b + 1, args, k1).1 else b;
    LengthReads(fmt, c);
    e := LengthAt(fmt, c).1;
    assert IsCount(fmt, a, b, w, args, k, k1);
  }

  // ---- arguments ------------------------------------------------------------------------------

  /** d and i read the argument as a signed number and the others as an unsigned one, of 64 bits with one of the
      modifiers l, ll, j, z and t and for p, else of 32. */
  lemma ValueIs(w: Written, end: nat, next: nat, arg: Slot)
    ensures var v := ValueOf(Read(w, end, next), arg);
            var two := if w.conv == 'p' || ModifierText(w.length) in ["l", "ll", "j", "z", "t"] then TWO64 else TWO32;
            && (v - arg.bits) % two == 0
            && if w.conv == 'd' || w.conv == 'i' then 0 <= 2 * v + two < 2 * two else 0 <= v < two
  {
    SignedIs(arg.bits, TWO64);
    SignedIs(arg.bits, TWO32);
    Reduced(arg.bits, TWO64);
    Reduced(arg.bits, TWO32);
  }

  lemma Reduced(bits: nat, two: nat)
    requires two > 0
    ensures (bits % two - bits) % two == 0
  {
    DivModIs(bits % two - bits, two, -(bits / two), 0);
  }

  /** %p prints its argument like %#tx. */
  lemma PointerIsHex(source: string, w: Written, end: nat, next: nat, arg: Slot, sent: nat)
    requires w.conv == 'p'
    ensures DirectiveEvents(source, Read(w, end, next), arg, sent) ==
            DirectiveEvents(source, Read(w.(conv := 'x', length := LenPtrDiffT, flags := w.flags.(alt := true)),
                                         end, next), arg, sent)
  {
    hide NumberEvents, Numeral;
  }

  /** What %n stores for a count: the count modulo the size its modifier names, as a signed number but for z. */
  ghost predicate IsStored(length: Length, value: int, count: nat) {
    var two := if length == LenChar then 0x100 else if length == LenShort then 0x1_0000
               else if length == LenInt then TWO32 else TWO64;
    && (value - count) % two == 0
    && if length == LenSizeT then 0 <= value < two else 0 <= 2 * value + two < 2 * two
  }

  lemma StoresCount(source: string, w: Written, end: nat, next: nat, arg: Slot, sent: nat)
    requires w.conv == 'n'
    ensures exists v :: IsStored(w.length, v, sent) &&
                        DirectiveEvents(source, Read(w, end, next), arg, sent) == [Store(w.length, v)]
  {
    SignedIs(sent, TWO8);
    SignedIs(sent, TWO16);
    SignedIs(sent, TWO32);
    SignedIs(sent, TWO64);
    Reduced(sent, TWO64);
    assert IsStored(w.length, StoredValue(w.length, sent), sent);
  }

  /** The conversions. */
  predicate TakesArgument(conv: char) { conv in "pdiouxXcsn" }

  /** A directive of no known conversion is printed as it stands. */
  lemma UnknownPrints(source: string, w: Written, end: nat, next: nat, arg: Slot, sent: nat)
    requires !TakesArgument(w.conv)
    ensures Text(DirectiveEvents(source, Read(w, end, next), arg, sent)) == source
  {
    OneText(source);
  }

  // ---- the parts of a format ------------------------------------------------------------------

  lemma RunEnds(fmt: string, i: nat, j: nat)
    requires i <= j <= |fmt| && (forall x | i <= x < j :: fmt[x] != '%') && (j == |fmt| || fmt[j] == '%')
    ensures RunEnd(fmt, i) == j
    decreases j - i
  {
    if i < j { RunEnds(fmt, i + 1, j); }
  }

  /** From position i on the format does these events, and then what it does from position j on, with the
      arguments from k' on. */
  ghost predicate Does(fmt: string, i: nat, args: nat -> Slot, k: nat, sent: nat, events: seq<Event>, j: nat, k': nat)
    requires i <= |fmt| && Complete(fmt, i, args, k)
  {
    && i < j <= |fmt| && Complete(fmt, j, args, k')
    && Plan(fmt, i, args, k, sent) == events + Plan(fmt, j, args, k', sent + |Text(events)|)
  }

  /** A format does what its first piece does, and then the rest. */
  lemma PlanStep(fmt: string, i: nat, args: nat -> Slot, k: nat, sent: nat)
    requires i < |fmt| && Complete(fmt, i, args, k)
    ensures var p := PieceAt(fmt, i, args, k, sent); Does(fmt, i, args, k, sent, p.events, p.end, p.next)
  {
    hide PieceAt, Text;
    PieceExtent(fmt, i, args, k, sent);
  }

  /** Text up to a percent sign or the end is handed on as it stands. */
  lemma LiteralPart(fmt: string, i: nat, j: nat, args: nat -> Slot, k: nat, sent: nat)
    requires i < j <= |fmt| && (forall x | i <= x < j :: fmt[x] != '%') && (j == |fmt| || fmt[j] == '%')
    requires Complete(fmt, i, args, k)
    ensures Does(fmt, i, args, k, sent, [Out(fmt[i..j])], j, k)
  {
    hide Does, Complete;
    RunEnds(fmt, i + 1, j);
    PlanStep(fmt, i, args, k, sent);
  }

  /** Of two percent signs in a row one is handed on. */
  lemma PercentPart(fmt: string, i: nat, args: nat -> Slot, k: nat, sent: nat)
    requires i + 1 < |fmt| && fmt[i] == '%' && fmt[i + 1] == '%' && Complete(fmt, i, args, k)
    ensures Does(fmt, i, args, k, sent, [Out("%")], i + 2, k)
  {
    hide Does, Complete;
    PlanStep(fmt, i, args, k, sent);
  }

  /** A directive does what it says to the argument behind those of its stars, and one that is known uses that
      argument up; it is told how many characters were handed over before. */
  lemma DirectivePart(fmt: string, i: nat, args: nat -> Slot, k: nat, sent: nat)
    requires i < |fmt| && fmt[i] == '%' && At(fmt, i + 1) != '%' && Complete(fmt, i, args, k)
    ensures WrittenAt(fmt, i + 1, args, k).1 <= |fmt|
    ensures var (w, end, next) := WrittenAt(fmt, i + 1, args, k);
            var events := DirectiveEvents(fmt[i..end], Read(w, end, next), args(next), sent);
            Does(fmt, i, args, k, sent, events, end, if TakesArgument(w.conv) then next + 1 else next)
  {
    DirectivePiece(fmt, i, args, k, sent);
    PlanStep(fmt, i, args, k, sent);
    NotCutShort(fmt, i, args, k, sent);
    hide *;
  }

  lemma NotCutShort(fmt: string, i: nat, args: nat -> Slot, k: nat, sent: nat)
    requires i < |fmt| && Complete(fmt, i, args, k)
    ensures PieceAt(fmt, i, args, k, sent).end <= |fmt|
  {
    hide PieceAt;
    PieceExtent(fmt, i, args, k, sent);
  }

  lemma DirectivePiece(fmt: string, i: nat, args: nat -> Slot, k: nat, sent: nat)
    requires i < |fmt| && fmt[i] == '%' && At(fmt, i + 1) != '%'
    ensures var (w, end, next) := WrittenAt(fmt, i + 1, args, k);
            var p := PieceAt(fmt, i, args, k, sent);
            && p.end == end && p.next == (if TakesArgument(w.conv) then next + 1 else next)
            && (end <= |fmt| ==>
                  p.events == DirectiveEvents(fmt[i..end], Read(w, end, next), args(next), sent))
  {
    hide DirectiveEvents;
    ArgsUsedIs(WrittenAt(fmt, i + 1, args, k).0.conv);
    hide WrittenAt, ArgsUsed;
  }

  lemma ArgsUsedIs(conv: char)
    ensures ArgsUsed(conv) == if TakesArgument(conv) then 1 else 0
  {}

  /** Whatever %n stores is the number of characters handed over before it. */
  lemma {:induction false} StoresCountAll(fmt: string, i: nat, args: nat -> Slot, k: nat, sent: nat, j: nat)
    requires i <= |fmt| && Complete(fmt, i, args, k)
    requires j < |Plan(fmt, i, args, k, sent)| && Plan(fmt, i, args, k, sent)[j].Store?
    ensures var plan := Plan(fmt, i, args, k, sent);
            IsStored(plan[j].length, plan[j].value, sent + |Text(plan[..j])|)
    decreases |fmt| - i
  {
    hide Text, PieceAt, IsStored;
    if i < |fmt| {
      PlanStep(fmt, i, args, k, sent);
      hide Plan, Complete;
      var p := PieceAt(fmt, i, args, k, sent);
      var rest := Plan(fmt, p.end, args, p.next, sent + |Text(p.events)|);
      if j < |p.events| {
        PieceStores(fmt, i, args, k, sent, j);
      } else {
        StoresCountAll(fmt, p.end, args, p.next, sent + |Text(p.events)|, j - |p.events|);
      }
      StoresJoin(p.events, rest, sent, j);
    }
  }

  lemma StoresJoin(events: seq<Event>, rest: seq<Event>, sent: nat, j: nat)
    requires j < |events + rest| && (events + rest)[j].Store?
    requires if j < |events| then j == 0 && IsStored(events[0].length, events[0].value, sent)
             else var e, m := rest[j - |events|], |Text(events)| + |Text(rest[..j - |events|])|;
               IsStored(e.length, e.value, sent + m)
    ensures var e := (events + rest)[j]; IsStored(e.length, e.value, sent + |Text((events + rest)[..j])|)
  {
    var n := |events|;
    if j < n {
      NoText();
      assert (events + rest)[..j] == [];
    } else {
      assert (events + rest)[..j] == events + rest[..j - n];
      TextConcat(events, rest[..j - n]);
    }
    hide Text, IsStored;
  }

  /** Only %n stores, and does nothing else. */
  lemma PieceStores(fmt: string, i: nat, args: nat -> Slot, k: nat, sent: nat, j: nat)
    requires i < |fmt|
    requires var p := PieceAt(fmt, i, args, k, sent); j < |p.events| && p.events[j].Store?
    ensures var p := PieceAt(fmt, i, args, k, sent); j == 0 && IsStored(p.events[0].length, p.events[0].value, sent)
  {
    var (w, end, next) := WrittenAt(fmt, i + 1, args, k);
    if w.conv == 'n' {
      StoresCount(fmt[i..Min(end, |fmt|)], w, end, next, args(next), sent);
    } else {
      NoStore(fmt[i..Min(end, |fmt|)], Read(w, end, next), args(next), sent, j);
    }
  }

  ghost predicate OnlyOut(events: seq<Event>) { forall e | e in events :: e.Out? }

  /** Padding goes out in runs of at most 40 characters. */
  lemma {:induction false} PadIsOut(c: char, n: int)
    ensures OnlyOut(Pad(c, n)) && forall e | e in Pad(c, n) :: 1 <= |e.text| <= 40
    decreases Max(n, 0)
  {
    if n >= FILL { PadIsOut(c, n - FILL); }
  }

  lemma OnlyOutJoin(a: seq<Event>, b: seq<Event>)
    requires OnlyOut(a) && OnlyOut(b)
    ensures OnlyOut(a + b)
  {}

  lemma NumberIsOut(f: Layout)
    ensures OnlyOut(NumberEvents(f))
  {
    var gap := f.width - Core(f);
    PadIsOut(' ', gap);
    PadIsOut('0', gap);
    PadIsOut('0', f.prec - |f.digits|);
    hide Pad, Core;
    OptIsOut(f.sign);
    OptIsOut(f.prefix);
    hide Opt;
  }

  lemma OptIsOut(s: string)
    ensures OnlyOut(Opt(s))
  {}

  lemma NoStore(source: string, d: Directive, arg: Slot, sent: nat, j: nat)
    requires d.conv != 'n' && j < |DirectiveEvents(source, d, arg, sent)|
    ensures DirectiveEvents(source, d, arg, sent)[j].Out?
  {
    NumberIsOut(LayoutOf(d, arg));
    PadIsOut(' ', d.width - 1);
    PadIsOut(' ', d.width - |StringOf(d, arg)|);
    hide NumberEvents, Pad, LayoutOf, StringOf, CharOf;
    assert DirectiveEvents(source, d, arg, sent)[j] in DirectiveEvents(source, d, arg, sent);
  }
}
