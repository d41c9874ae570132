/** Formatted integers and strings as section 7.21.6.1 of C11 (ISO/IEC 9899:2011) defines them, and when
    the formatter prints just that. */
module FormatStandard {
  import opened Arithmetic
  import opened Digits
  import opened FormatSpec
  import opened Format
  import opened FormatFacts

  // ---- the standard ---------------------------------------------------------------------------

  /** d and i print signed numbers, the others unsigned ones. */
  predicate Decimal(conv: char) { conv == 'd' || conv == 'i' }

  /** The base of the conversion; p, which the section leaves open, is taken like x. */
  function Radix(conv: char): nat {
    match conv
    case 'o' => 8
    case 'x' => 16
    case 'X' => 16
    case 'p' => 16
    case _ => 10
  }

  /** The argument after the length modifier: h and hh convert it back to short and char. */
  function StandardValue(w: Written, arg: Slot): int {
    var two := match w.length
               case LenChar => TWO8
               case LenShort => TWO16
               case LenInt => TWO32
               case _ => TWO64;
    if Decimal(w.conv) then Signed(arg.bits, two) else arg.bits % two
  }

  /** A negative precision is taken as if the precision were omitted; a lone period means 0. */
  predicate HasPrecision(w: Written) { w.dot && w.prec >= 0 }

  /** A minus sign for a negative number, else what the flags ask for; `+` wins over a space. */
  function StandardSign(w: Written, v: int): string {
    if !Decimal(w.conv) then ""
    else if v < 0 then "-"
    else if w.flags.plus then "+"
    else if w.flags.space then " "
    else ""
  }

  /** At least as many digits as the precision says, 1 by default; none for 0 with precision 0. The flag
      `#` makes sure that an octal number begins with a zero. */
  function StandardDigits(w: Written, v: int): string {
    var least := if HasPrecision(w) then w.prec else 1;
    var n := Numeral(Abs(v), Radix(w.conv), w.conv == 'X');
    var s := if v == 0 && least == 0 then "" else Zeros(least - |n|) + n;
    if w.conv == 'o' && w.flags.alt && (s == "" || s[0] != '0') then "0" + s else s
  }

  /** The flag `#` puts 0x or 0X before a nonzero hexadecimal number. With d, i and u it is undefined;
      here it is taken to do nothing. */
  function StandardPrefix(w: Written, v: int): string {
    if !w.flags.alt || v == 0 then ""
    else if w.conv == 'x' then "0x"
    else if w.conv == 'X' then "0X"
    else ""
  }

  predicate IsLeft(w: Written) { w.flags.left || w.width < 0 }

  /** The flag `0` is ignored with left justification and with a precision. */
  predicate FillsWithZeros(w: Written) { w.flags.zero && !IsLeft(w) && !HasPrecision(w) }

  /** What an integer directive prints. */
  function StandardText(w: Written, arg: Slot): string {
    var v := StandardValue(w, arg);
    var sign, prefix, digits := StandardSign(w, v), StandardPrefix(w, v), StandardDigits(w, v);
    var gap := Abs(w.width) - |sign| - |prefix| - |digits|;
    if IsLeft(w) then sign + prefix + digits + Spaces(gap)
    else if FillsWithZeros(w) then sign + prefix + Zeros(gap) + digits
    else Spaces(gap) + sign + prefix + digits
  }

  /** What %s prints. */
  function StandardString(w: Written, arg: Slot): string {
    var kept := if HasPrecision(w) then Min(w.prec, |arg.text|) else |arg.text|;
    var gap := Spaces(Abs(w.width) - kept);
    if IsLeft(w) then arg.text[..kept] + gap else gap + arg.text[..kept]
  }

  /** The flags are the characters that occur, except that `-` turns `0` off wherever it stands. */
  lemma {:induction false} FlagsAre(fmt: string, i: nat, f: Flags)
    requires i <= |fmt|
    ensures var (g, j) := FlagsAt(fmt, i, f);
            && (g.left <==> f.left || '-' in fmt[i..j]) && (g.plus <==> f.plus || '+' in fmt[i..j])
            && (g.space <==> f.space || ' ' in fmt[i..j]) && (g.alt <==> f.alt || '#' in fmt[i..j])
            && (!(f.left && f.zero) ==> (g.zero <==> (f.zero || '0' in fmt[i..j]) && !g.left))
    decreases |fmt| - i
  {
    if IsFlag(At(fmt, i)) {
      var (g, j) := FlagsAt(fmt, i, f);
      FlagsAre(fmt, i + 1, AddFlag(f, fmt[i]));
      InSlice(fmt, i, j, '-');
      InSlice(fmt, i, j, '+');
      InSlice(fmt, i, j, ' ');
      InSlice(fmt, i, j, '#');
      InSlice(fmt, i, j, '0');
    } else {
      assert fmt[i..i] == [];
    }
  }

  lemma InSlice(fmt: string, i: nat, j: nat, c: char)
    requires i < j <= |fmt|
    ensures c in fmt[i..j] <==> c == fmt[i] || c in fmt[i + 1..j]
  {
    assert fmt[i..j] == [fmt[i]] + fmt[i + 1..j];
  }

  // ---- the shape of a printed number ----------------------------------------------------------

  /** Spaces, a sign, a hexadecimal prefix, zeros, digits that do not begin with a zero, spaces. */
  datatype Shape = Shape(lead: nat, sign: string, prefix: string, zeros: nat, digits: string, trail: nat)

  function Draw(s: Shape): string {
    Fill(' ', s.lead) + (s.sign + (s.prefix + (Fill('0', s.zeros) + (s.digits + Fill(' ', s.trail)))))
  }

  predicate Canonical(s: Shape) {
    && (s.sign == "" || s.sign == "-" || s.sign == "+")
    && (s.prefix == "" || s.prefix == "0x" || s.prefix == "0X")
    && AllDigits(s.digits, 16) && (s.digits != "" ==> s.digits[0] != '0')
    && (s.prefix != "" ==> s.digits != "")
  }

  /** Nothing but spaces. */
  predicate Plain(s: Shape) { s.sign == "" && s.prefix == "" && s.zeros == 0 && s.digits == "" }

  predicate SameDrawing(s: Shape, t: Shape) {
    if Plain(s) && Plain(t) then s.lead + s.trail == t.lead + t.trail else s == t
  }

  lemma Leading(c: char, a: nat, s: string, b: nat, t: string)
    requires Fill(c, a) + s == Fill(c, b) + t
    requires (s == "" || s[0] != c) && (t == "" || t[0] != c)
    ensures a == b && s == t
  {
    var u, v := Fill(c, a) + s, Fill(c, b) + t;
    assert (forall k | 0 <= k < a :: u[k] == c) && (forall k | 0 <= k < b :: v[k] == c);
    assert (a < |u| ==> u[a] == s[0]) && (b < |v| ==> v[b] == t[0]);
    assert a == b;
    assert u[a..] == s && v[b..] == t;
  }

  /** Digits up to the first space, or to the end. */
  lemma DigitsThenSpaces(d: string, a: nat, e: string, b: nat)
    requires AllDigits(d, 16) && AllDigits(e, 16) && d + Fill(' ', a) == e + Fill(' ', b)
    ensures d == e && a == b
  {
    TakesAll(d, Fill(' ', a), 16);
    TakesAll(e, Fill(' ', b), 16);
  }

  /** Zeros, digits and spaces begin neither with an x in second place nor with a sign or a space. */
  function Tail(s: Shape): string { Fill('0', s.zeros) + (s.digits + Fill(' ', s.trail)) }

  lemma TailStarts(s: Shape)
    requires Canonical(s)
    ensures var t := Tail(s);
            && !HasSign(t) && (|t| >= 2 ==> t[1] != 'x' && t[1] != 'X')
            && (s.zeros > 0 || s.digits != "" ==> t != "" && t[0] != ' ')
            && (s.digits + Fill(' ', s.trail) == "" || (s.digits + Fill(' ', s.trail))[0] != '0')
  {
    var t := Tail(s);
    var d := s.digits + Fill(' ', s.trail);
    forall i | 0 <= i < |d| ensures d[i] == ' ' || IsDigit(d[i], 16) {
      if i < |s.digits| { assert IsDigit(s.digits[i], 16); }
    }
    forall i | 0 <= i < |t| ensures t[i] == ' ' || IsDigit(t[i], 16) {
      if i >= s.zeros { assert t[i] == d[i - s.zeros]; }
    }
    if s.zeros == 0 && s.digits != "" { assert t[0] == s.digits[0] && IsDigit(s.digits[0], 16); }
  }

  lemma TailUnique(s: Shape, t: Shape)
    requires Canonical(s) && Canonical(t) && Tail(s) == Tail(t)
    ensures s.zeros == t.zeros && s.digits == t.digits && s.trail == t.trail
  {
    TailStarts(s);
    TailStarts(t);
    Leading('0', s.zeros, s.digits + Fill(' ', s.trail), t.zeros, t.digits + Fill(' ', t.trail));
    DigitsThenSpaces(s.digits, s.trail, t.digits, t.trail);
  }

  /** Whether there is a prefix shows in second place. */
  lemma PrefixShows(s: Shape)
    requires Canonical(s)
    ensures var u := s.prefix + Tail(s);
            var marked := |u| >= 2 && (u[1] == 'x' || u[1] == 'X');
            && s.prefix == (if !marked then "" else if u[1] == 'x' then "0x" else "0X")
            && Tail(s) == u[if marked then 2 else 0..]
  {
    TailStarts(s);
    hide Tail;
  }

  lemma PrefixUnique(s: Shape, t: Shape)
    requires Canonical(s) && Canonical(t) && s.prefix + Tail(s) == t.prefix + Tail(t)
    ensures s.prefix == t.prefix && Tail(s) == Tail(t)
  {
    PrefixShows(s);
    PrefixShows(t);
    hide Canonical, Tail;
  }

  function Body(s: Shape): string { s.sign + (s.prefix + Tail(s)) }

  lemma BodyStarts(s: Shape)
    requires Canonical(s)
    ensures !HasSign(s.prefix + Tail(s))
    ensures !Plain(s) ==> Body(s) != "" && Body(s)[0] != ' '
  {
    TailStarts(s);
    var u := s.prefix + Tail(s);
    if s.prefix == "" { assert u == Tail(s); } else { assert u[0] == s.prefix[0] == '0'; }
    if s.sign == "" { assert Body(s) == u; } else { assert Body(s)[0] == s.sign[0]; }
  }

  lemma BodyUnique(s: Shape, t: Shape)
    requires Canonical(s) && Canonical(t) && Body(s) == Body(t)
    ensures s.sign == t.sign && s.(lead := 0) == t.(lead := 0)
  {
    hide Tail;
    BodyStarts(s);
    BodyStarts(t);
    var u, v := s.prefix + Tail(s), t.prefix + Tail(t);
    assert if s.sign == "" then Body(s) == u else Body(s)[0] == s.sign[0] && Body(s)[1..] == u;
    assert if t.sign == "" then Body(t) == v else Body(t)[0] == t.sign[0] && Body(t)[1..] == v;
    PrefixUnique(s, t);
    TailUnique(s, t);
  }

  lemma PlainIsSpaces(s: Shape)
    requires Plain(s)
    ensures Draw(s) == Fill(' ', s.lead + s.trail)
  {}

  /** Two shapes draw the same text only if they are the same, or nothing but spaces. */
  lemma DrawUnique(s: Shape, t: Shape)
    requires Canonical(s) && Canonical(t)
    ensures Draw(s) == Draw(t) <==> SameDrawing(s, t)
  {
    BodyStarts(s);
    BodyStarts(t);
    if Plain(s) { PlainIsSpaces(s); assert Fill(' ', s.lead + s.trail) + "" == Draw(s); }
    if Plain(t) { PlainIsSpaces(t); assert Fill(' ', t.lead + t.trail) + "" == Draw(t); }
    if Draw(s) == Draw(t) {
      hide Body, Tail;
      DrawIs(s);
      DrawIs(t);
      Leading(' ', if Plain(s) then s.lead + s.trail else s.lead, if Plain(s) then "" else Body(s),
              if Plain(t) then t.lead + t.trail else t.lead, if Plain(t) then "" else Body(t));
      if !Plain(s) && !Plain(t) { BodyUnique(s, t); }
    }
  }

  lemma DrawIs(s: Shape)
    ensures Draw(s) == Fill(' ', s.lead) + Body(s)
  {}

  // ---- what the code draws --------------------------------------------------------------------

  /** The digits of a number without the zero that stands for 0. */
  function Significant(w: Written, v: int): string {
    if v == 0 then "" else Numeral(Abs(v), Radix(w.conv), w.conv == 'X')
  }

  function DigitCount(w: Written, v: int): nat { |Numeral(Abs(v), Radix(w.conv), w.conv == 'X')| }

  /** The sign without the space that `space` asks for. */
  function Inked(sign: string): string { if sign == " " then "" else sign }

  function CodeShape(f: Layout, v: int, digits: string): Shape {
    var gap, shows := Max(f.width - Core(f), 0), ShowsHead(f);
    Shape((if f.left || f.zero then 0 else gap) + (if shows && f.sign == " " then 1 else 0),
          if shows then Inked(f.sign) else "",
          if shows && f.prefix != "0" then f.prefix else "",
          (if f.zero && !f.left then gap else 0) + Max(f.prec - |f.digits|, 0)
          + (if shows && f.prefix == "0" then 1 else 0) + (if v == 0 && !f.blank then 1 else 0),
          digits,
          (if f.blank then 1 else 0) + (if f.left then gap else 0))
  }

  lemma SignificantIs(w: Written, v: int)
    ensures var n := Numeral(Abs(v), Radix(w.conv), w.conv == 'X');
            && DigitCount(w, v) >= 1 && (v == 0 ==> n == "0" && Significant(w, v) == "")
            && (v != 0 ==> Significant(w, v) == n && n[0] != '0')
    ensures AllDigits(Significant(w, v), 16)
  {
    var n, base, caps := Numeral(Abs(v), Radix(w.conv), w.conv == 'X'), Radix(w.conv), w.conv == 'X';
    NumeralDenotes(Abs(v), base, caps);
    OneDigit(0, base, caps);
    forall i | 0 <= i < |n| ensures IsDigit(n[i], 16) { assert IsDigit(n[i], base); }
    if v != 0 && |n| == 1 { DenotesLast(n, base); }
  }

  /** The layout the code computes for a directive. */
  function CodeLayout(w: Written, arg: Slot): Layout { LayoutOf(Read(w, 0, 0), arg) }

  function CodeValue(w: Written, arg: Slot): int { ValueOf(Read(w, 0, 0), arg) }

  lemma LayoutFits(w: Written, arg: Slot)
    requires IsNumber(w.conv) && w.conv != 'p'
    ensures var f, v := CodeLayout(w, arg), CodeValue(w, arg);
            && (f.sign == "" || f.sign == "-" || f.sign == "+" || f.sign == " ")
            && (f.prefix == "" || f.prefix == "0" || f.prefix == "0x" || f.prefix == "0X")
            && (f.prefix != "" ==> v != 0) && (f.blank ==> v == 0 && f.prec == 0)
            && f.digits == Numeral(Abs(v), Radix(w.conv), w.conv == 'X')
            && f.sign == StandardSign(w, v)
  {
    hide Numeral;
    ValueSign(Read(w, 0, 0), arg);
  }

  lemma CodeDraws(source: string, w: Written, end: nat, next: nat, arg: Slot, sent: nat)
    requires IsNumber(w.conv) && w.conv != 'p'
    ensures var f, v := CodeLayout(w, arg), CodeValue(w, arg);
            var s := CodeShape(f, v, Significant(w, v));
            && Text(DirectiveEvents(source, Read(w, end, next), arg, sent)) == Draw(s)
            && Canonical(s)
  {
    hide Numeral, NumberEvents, Text, CodeShape, Significant, Draw;
    var f, v := CodeLayout(w, arg), CodeValue(w, arg);
    LayoutFits(w, arg);
    SignificantIs(w, v);
    assert LayoutOf(Read(w, end, next), arg) == f;
    NumberText(f);
    LayoutDraws(w, f, v);
    CodeCanonical(w, f, v);
  }

  lemma CodeCanonical(w: Written, f: Layout, v: int)
    requires f.sign == "" || f.sign == "-" || f.sign == "+" || f.sign == " "
    requires f.prefix == "" || f.prefix == "0" || f.prefix == "0x" || f.prefix == "0X"
    requires f.prefix != "" ==> v != 0
    ensures Canonical(CodeShape(f, v, Significant(w, v)))
  {
    hide Numeral, Core, Significant, AllDigits;
    SignificantIs(w, v);
  }

  lemma LayoutDraws(w: Written, f: Layout, v: int)
    requires f.sign == "" || f.sign == "-" || f.sign == "+" || f.sign == " "
    requires f.prefix == "" || f.prefix == "0" || f.prefix == "0x" || f.prefix == "0X"
    requires (f.prefix != "" ==> v != 0) && (f.blank ==> v == 0 && f.prec == 0)
    requires f.digits == Numeral(Abs(v), Radix(w.conv), w.conv == 'X')
    ensures Text(NumberEvents(f)) == Draw(CodeShape(f, v, Significant(w, v)))
  {
    hide Numeral, NumberEvents, Text, Core, Significant, Draw, Fill;
    SignificantIs(w, v);
    NumberText(f);
    hide AllDigits;
    var gap, shows := Max(f.width - Core(f), 0), ShowsHead(f);
    var sign, prefix := if shows then f.sign else "", if shows then f.prefix else "";
    NoFill();
    PartsDraw(if f.left || f.zero then 0 else gap, sign, prefix, if f.zero && !f.left then gap else 0,
              Max(f.prec - |f.digits|, 0), f.blank, f.digits, Significant(w, v), if f.left then gap else 0);
  }

  lemma NoFill()
    ensures Fill(' ', 0) == "" && Fill('0', 0) == ""
  {}

  /** The parts of a printed number from left to right, and the shape they make. */
  lemma PartsDraw(lead: nat, sign: string, prefix: string, z: nat, y: nat, blank: bool, shown: string,
                  digits: string, trail: nat)
    requires if blank then digits == "" else shown == digits || (shown == "0" && digits == "")
    ensures Fill(' ', lead) + (sign + (prefix + (Fill('0', z) + (Fill('0', y) +
            ((if blank then " " else shown) + Fill(' ', trail)))))) ==
            Draw(Shape(lead + (if sign == " " then 1 else 0), Inked(sign), if prefix == "0" then "" else prefix,
                       z + y + (if prefix == "0" then 1 else 0) + (if blank || shown == digits then 0 else 1),
                       digits, (if blank then 1 else 0) + trail))
  {
    hide Fill, Inked, Draw;
    RestIs(prefix, z, y, blank, shown, digits, trail);
    SpaceDraws(lead, sign, if prefix == "0" then "" else prefix,
               z + y + (if prefix == "0" then 1 else 0) + (if blank || shown == digits then 0 else 1),
               digits, (if blank then 1 else 0) + trail);
  }

  /** Whatever the sign, the rest draws itself. */
  lemma SpaceDraws(lead: nat, sign: string, prefix: string, zeros: nat, digits: string, trail: nat)
    ensures Fill(' ', lead) + (sign + (prefix + (Fill('0', zeros) + (digits + Fill(' ', trail))))) ==
            Draw(Shape(lead + (if sign == " " then 1 else 0), Inked(sign), prefix, zeros, digits, trail))
  {
    hide Fill, Inked;
    MoveSpace(lead, sign, prefix + (Fill('0', zeros) + (digits + Fill(' ', trail))));
  }

  /** The parts behind the sign. */
  lemma RestIs(prefix: string, z: nat, y: nat, blank: bool, shown: string, digits: string, trail: nat)
    requires if blank then digits == "" else shown == digits || (shown == "0" && digits == "")
    ensures prefix + (Fill('0', z) + (Fill('0', y) + ((if blank then " " else shown) + Fill(' ', trail)))) ==
            (if prefix == "0" then "" else prefix) +
            (Fill('0', z + y + (if prefix == "0" then 1 else 0) + if blank || shown == digits then 0 else 1) +
             (digits + Fill(' ', (if blank then 1 else 0) + trail)))
  {
    hide Fill;
    TailForm(prefix, z, y, blank, shown, trail);
    MoveZero(z + y + if prefix == "0" then 1 else 0, if blank then "" else shown, digits,
             (if blank then 1 else 0) + trail);
  }

  /** The digit of a lone 0 counts as a zero. */
  lemma MoveZero(n: nat, shown: string, digits: string, m: nat)
    requires shown == digits || (shown == "0" && digits == "")
    ensures Fill('0', n) + shown + Fill(' ', m) ==
            Fill('0', n + if shown == digits then 0 else 1) + (digits + Fill(' ', m))
  {
    if shown != digits { FillJoin('0', n, 1); FillOne('0'); }
  }

  /** A space for a sign counts as a leading space. */
  lemma MoveSpace(lead: nat, sign: string, rest: string)
    ensures Fill(' ', lead) + (sign + rest) ==
            Fill(' ', lead + if sign == " " then 1 else 0) + (Inked(sign) + rest)
  {
    if sign == " " {
      FillJoin(' ', lead, 1);
      FillOne(' ');
      assert Fill(' ', lead) + (" " + rest) == Fill(' ', lead) + " " + rest;
      assert "" + rest == rest;
    }
  }

  // ---- what the standard draws ----------------------------------------------------------------

  /** The zeros the digits of the standard begin with. */
  function StandardZeros(w: Written, v: int): nat {
    var least := if HasPrecision(w) then w.prec else 1;
    var z := if v == 0 && least == 0 then 0
             else Max(least - DigitCount(w, v), 0) + if v == 0 then 1 else 0;
    if w.conv == 'o' && w.flags.alt && z == 0 then 1 else z
  }

  function StandardShape(w: Written, v: int): Shape {
    var sign, prefix := StandardSign(w, v), StandardPrefix(w, v);
    var z, n := StandardZeros(w, v), if v == 0 then 0 else DigitCount(w, v);
    var gap := Max(Abs(w.width) - |sign| - |prefix| - z - n, 0);
    Shape((if IsLeft(w) || FillsWithZeros(w) then 0 else gap) + (if sign == " " then 1 else 0),
          Inked(sign), prefix, z + (if FillsWithZeros(w) then gap else 0), Significant(w, v),
          if IsLeft(w) then gap else 0)
  }

  lemma StandardDigitsAre(w: Written, v: int)
    ensures StandardDigits(w, v) == Fill('0', StandardZeros(w, v)) + Significant(w, v)
    ensures |Significant(w, v)| == if v == 0 then 0 else DigitCount(w, v)
  {
    hide Numeral;
    SignificantIs(w, v);
    var n, d := Numeral(Abs(v), Radix(w.conv), w.conv == 'X'), Significant(w, v);
    var least := if HasPrecision(w) then w.prec else 1;
    var y := Max(least - |n|, 0);
    var z := if v == 0 && least == 0 then 0 else y + if v == 0 then 1 else 0;
    var s := if v == 0 && least == 0 then "" else Zeros(least - |n|) + n;
    assert s == Fill('0', z) + d by {
      if v == 0 && least == 0 { assert Fill('0', 0) + "" == ""; } else { LoneZero(y, n, d); }
    }
    FirstZero(z, d);
    assert z == 0 ==> s == d by { assert Fill('0', 0) + d == d; }
    FillOne('0');
  }

  lemma LoneZero(n: nat, shown: string, digits: string)
    requires shown == digits || (shown == "0" && digits == "")
    ensures Fill('0', n) + shown == Fill('0', n + if shown == digits then 0 else 1) + digits
  {
    hide Fill;
    MoveZero(n, shown, digits, 0);
    NoFill();
    assert Fill('0', n) + shown + "" == Fill('0', n) + shown && digits + "" == digits;
  }

  lemma FirstZero(z: nat, d: string)
    requires d == "" || d[0] != '0'
    ensures var s := Fill('0', z) + d; (s == "" || s[0] != '0') <==> z == 0
  {}

  lemma StandardDraws(w: Written, arg: Slot)
    ensures var s := StandardShape(w, StandardValue(w, arg));
            StandardText(w, arg) == Draw(s) && Canonical(s)
  {
    hide Numeral, StandardValue, StandardDigits, StandardZeros, Significant, Fill, Draw, DigitCount;
    var v := StandardValue(w, arg);
    var sign, prefix, z, d := StandardSign(w, v), StandardPrefix(w, v), StandardZeros(w, v), Significant(w, v);
    StandardDigitsAre(w, v);
    SignificantIs(w, v);
    FillLength('0', z);
    var gap := Max(Abs(w.width) - |sign| - |prefix| - z - |d|, 0);
    if IsLeft(w) {
      LeftDraws(sign, prefix, z, d, gap);
    } else if FillsWithZeros(w) {
      ZeroDraws(sign, prefix, z, d, gap);
    } else {
      RightDraws(sign, prefix, z, d, gap);
    }
  }

  lemma FillLength(c: char, n: nat)
    ensures |Fill(c, n)| == n
  {}

  lemma Regrouped(a: string, b: string, c: string, d: string, e: string)
    ensures a + b + c + d + e == a + (b + (c + (d + e))) && a + b + (c + d) + e == a + b + c + d + e
    ensures a + b + c + (d + e) == a + b + c + d + e && "" + a == a == a + ""
  {}

  lemma LeftDraws(sign: string, prefix: string, z: nat, d: string, gap: nat)
    ensures sign + prefix + (Fill('0', z) + d) + Fill(' ', gap) ==
            Draw(Shape(if sign == " " then 1 else 0, Inked(sign), prefix, z, d, gap))
  {
    hide Fill;
    NoFill();
    Regrouped(sign, prefix, Fill('0', z), d, Fill(' ', gap));
    SpaceDraws(0, sign, prefix, z, d, gap);
    hide Draw;
    Regrouped(sign + (prefix + (Fill('0', z) + (d + Fill(' ', gap)))), "", "", "", "");
  }

  lemma ZeroDraws(sign: string, prefix: string, z: nat, d: string, gap: nat)
    ensures sign + prefix + Fill('0', gap) + (Fill('0', z) + d) ==
            Draw(Shape(if sign == " " then 1 else 0, Inked(sign), prefix, z + gap, d, 0))
  {
    hide Fill;
    NoFill();
    FillJoin('0', gap, z);
    assert sign + prefix + Fill('0', gap) + (Fill('0', z) + d) ==
           sign + prefix + (Fill('0', z + gap) + d) + Fill(' ', 0);
    LeftDraws(sign, prefix, z + gap, d, 0);
  }

  lemma RightDraws(sign: string, prefix: string, z: nat, d: string, gap: nat)
    ensures Fill(' ', gap) + sign + prefix + (Fill('0', z) + d) ==
            Draw(Shape(gap + (if sign == " " then 1 else 0), Inked(sign), prefix, z, d, 0))
  {
    hide Fill;
    NoFill();
    Regrouped(Fill(' ', gap), sign, prefix, Fill('0', z), d);
    Regrouped(d, "", "", "", "");
    SpaceDraws(gap, sign, prefix, z, d, 0);
  }

  // ---- when the two agree ---------------------------------------------------------------------

  /** `0` is in force: it was written, and no precision above 0 turned it off. */
  predicate Zeroed(w: Written) { w.flags.zero && !(w.dot && w.prec > 0) }

  /** `#` asks for something in front of the number. */
  predicate Marked(w: Written, v: int) { !Decimal(w.conv) && w.flags.alt && v != 0 }

  /** A number whose digits are printed, in the format's own value v of the argument: no octal mark in
      front of zeros the precision already puts there, no mark with %u (unless `0` with left
      justification loses it and the field is no wider than the digits), no sign or mark that this loses,
      and no zeros in a field that an explicit precision 0 wants filled with spaces. */
  predicate NumberConforms(w: Written, v: int) {
    var n, sign, lost := DigitCount(w, v), StandardSign(w, v), Zeroed(w) && IsLeft(w);
    var mark := if !Marked(w, v) then 0 else if w.conv == 'o' then 1 else 2;
    && !(w.conv == 'o' && Marked(w, v) && w.dot && w.prec > n)
    && (w.conv == 'u' && Marked(w, v) ==> lost && Abs(w.width) <= n)
    && (lost && w.conv != 'u' ==> sign == "" && mark == 0)
    && !(Zeroed(w) && !IsLeft(w) && HasPrecision(w) && Abs(w.width) > n + |sign| + mark)
  }

  /** The value 0 with a precision that is not positive, where the code prints a space instead of the
      digit: this passes only for an explicit precision 0 without an octal mark, and if the space takes the
      place of one that pads the field. */
  predicate BlankConforms(w: Written) {
    var sign, width := StandardSign(w, 0), Abs(w.width);
    && w.prec == 0 && !(w.conv == 'o' && w.flags.alt)
    && if sign == "+" then IsLeft(w) && !Zeroed(w) && width >= 2
       else if Zeroed(w) && IsLeft(w) then (if sign == "" then width >= 1 else width <= 1)
       else if Zeroed(w) then width == |sign| + 1
       else width >= |sign| + 1
  }

  /** An argument with the modifier h or hh lies in the range of short or char. */
  predicate FitsLength(w: Written, arg: Slot) {
    var x := if Decimal(w.conv) then Signed(arg.bits, TWO32) else arg.bits % TWO32;
    match w.length
    case LenChar => if Decimal(w.conv) then -0x80 <= x < 0x80 else x < 0x100
    case LenShort => if Decimal(w.conv) then -0x8000 <= x < 0x8000 else x < 0x1_0000
    case _ => true
  }

  predicate Conforms(w: Written, arg: Slot) {
    var v := StandardValue(w, arg);
    && FitsLength(w, arg)
    && if w.dot && w.prec <= 0 && v == 0 then BlankConforms(w) else NumberConforms(w, v)
  }

  /** The layout of the code in terms of the directive. */
  lemma LayoutIs(w: Written, arg: Slot)
    requires IsNumber(w.conv) && w.conv != 'p'
    ensures var f, v := CodeLayout(w, arg), CodeValue(w, arg);
            && f.left == IsLeft(w) && f.zero == Zeroed(w) && f.width == Abs(w.width)
            && f.prec == (if w.dot then Max(w.prec, 0) else 0) && |f.digits| == DigitCount(w, v)
            && f.sign == StandardSign(w, v)
            && f.prefix == (if !Marked(w, v) then "" else if w.conv == 'o' then "0"
                            else if w.conv == 'X' then "0X" else "0x")
            && (f.blank <==> w.dot && w.prec <= 0 && v == 0)
  {
    hide Numeral;
    LayoutFits(w, arg);
  }

  lemma BlankIff(w: Written, f: Layout)
    requires IsNumber(w.conv) && w.conv != 'p' && w.dot && w.prec <= 0
    requires f.left == IsLeft(w) && f.zero == Zeroed(w) && f.width == Abs(w.width) && f.prec == 0
    requires |f.digits| == 1 && f.sign == StandardSign(w, 0) && f.prefix == "" && f.blank
    requires DigitCount(w, 0) == 1 && Significant(w, 0) == ""
    ensures SameDrawing(CodeShape(f, 0, ""), StandardShape(w, 0)) <==> BlankConforms(w)
  {
    hide DigitCount, Significant;
  }

  lemma NumberIff(w: Written, f: Layout, v: int)
    requires IsNumber(w.conv) && w.conv != 'p' && !f.blank && !(w.dot && w.prec <= 0 && v == 0)
    requires f.left == IsLeft(w) && f.zero == Zeroed(w) && f.width == Abs(w.width)
    requires f.prec == (if w.dot then Max(w.prec, 0) else 0)
    requires |f.digits| == DigitCount(w, v) >= 1 && f.sign == StandardSign(w, v)
    requires f.prefix == (if !Marked(w, v) then "" else if w.conv == 'o' then "0"
                          else if w.conv == 'X' then "0X" else "0x")
    requires ((Significant(w, v) == "") <==> v == 0) && (v == 0 ==> DigitCount(w, v) == 1)
    ensures SameDrawing(CodeShape(f, v, Significant(w, v)), StandardShape(w, v)) <==> NumberConforms(w, v)
  {
    hide DigitCount, Significant;
  }

  lemma Narrow16(b: nat)
    requires b < TWO32
    ensures var v, s := Signed(b, TWO32), Signed(b, TWO16); v == -s ==> v == s || (s < 0 < v)
  {
    var q, r := b / TWO16, b % TWO16;
    assert b == TWO16 * q + r;
  }

  lemma Narrow8(b: nat)
    requires b < TWO32
    ensures var v, s := Signed(b, TWO32), Signed(b, TWO8); v == -s ==> v == s || (s < 0 < v)
  {
    var q, r := b / TWO8, b % TWO8;
    assert b == TWO8 * q + r;
  }

  lemma LowBits(bits: nat)
    ensures var b := bits % TWO32;
            Signed(bits, TWO32) == Signed(b, TWO32) && bits % TWO16 == b % TWO16 && bits % TWO8 == b % TWO8
  {
    var q, b := bits / TWO32, bits % TWO32;
    assert bits == TWO32 * q + b;
    assert bits / TWO16 == TWO16 * q + b / TWO16;
    assert bits / TWO8 == TWO16 * TWO8 * q + b / TWO8;
  }

  /** Narrowing changes a value into another of the same size only by making it negative. */
  lemma NarrowedSign(w: Written, arg: Slot)
    requires IsNumber(w.conv) && w.conv != 'p'
    ensures var v, s := CodeValue(w, arg), StandardValue(w, arg);
            && (Abs(v) == Abs(s) ==> v == s || (s < 0 < v))
            && (!Decimal(w.conv) ==> s >= 0)
  {
    LowBits(arg.bits);
    Narrow16(arg.bits % TWO32);
    Narrow8(arg.bits % TWO32);
  }

  /** The code does not narrow the argument; that makes no difference exactly if it fits. */
  lemma FitsIff(w: Written, arg: Slot)
    requires IsNumber(w.conv) && w.conv != 'p'
    ensures CodeValue(w, arg) == StandardValue(w, arg) <==> FitsLength(w, arg)
  {
    LowBits(arg.bits);
    var b := arg.bits % TWO32;
    Fits8(b);
    Fits16(b);
  }

  lemma Fits8(b: nat)
    requires b < TWO32
    ensures Signed(b, TWO8) == Signed(b, TWO32) <==> -0x80 <= Signed(b, TWO32) < 0x80
    ensures b % TWO8 == b <==> b < 0x100
  {
    var q, r := b / TWO8, b % TWO8;
    assert b == TWO8 * q + r;
  }

  lemma Fits16(b: nat)
    requires b < TWO32
    ensures Signed(b, TWO16) == Signed(b, TWO32) <==> -0x8000 <= Signed(b, TWO32) < 0x8000
    ensures b % TWO16 == b <==> b < 0x1_0000
  {
    var q, r := b / TWO16, b % TWO16;
    assert b == TWO16 * q + r;
  }

  /** Different values are drawn differently. */
  lemma ValueShows(w: Written, arg: Slot)
    requires IsNumber(w.conv) && w.conv != 'p'
    requires SameDrawing(CodeShape(CodeLayout(w, arg), CodeValue(w, arg), Significant(w, CodeValue(w, arg))),
                         StandardShape(w, StandardValue(w, arg)))
    ensures CodeValue(w, arg) == StandardValue(w, arg)
  {
    hide Numeral, CodeValue, StandardValue, Core, DigitCount, StandardZeros;
    var v, s := CodeValue(w, arg), StandardValue(w, arg);
    LayoutIs(w, arg);
    SignificantIs(w, v);
    SignificantIs(w, s);
    NumeralDenotes(Abs(v), Radix(w.conv), w.conv == 'X');
    NumeralDenotes(Abs(s), Radix(w.conv), w.conv == 'X');
    assert Significant(w, v) == Significant(w, s);
    assert Abs(v) == Abs(s);
    NarrowedSign(w, arg);
    ValueSign(Read(w, 0, 0), arg);
  }

  /** The formatter prints what the standard says, for an integer directive written in any way, exactly if
      the argument fits its length modifier and the directive steers clear of the cases Conforms names. */
  lemma StandardIff(source: string, w: Written, end: nat, next: nat, arg: Slot, sent: nat)
    requires IsNumber(w.conv) && w.conv != 'p'
    ensures Text(DirectiveEvents(source, Read(w, end, next), arg, sent)) == StandardText(w, arg)
            <==> Conforms(w, arg)
  {
    hide Numeral, CodeValue, StandardValue, CodeShape, StandardShape, Significant, DigitCount, Draw, Text,
         StandardText, DirectiveEvents, BlankConforms, NumberConforms, SameDrawing, CodeLayout, Canonical;
    var f, v := CodeLayout(w, arg), CodeValue(w, arg);
    CodeDraws(source, w, end, next, arg, sent);
    StandardDraws(w, arg);
    DrawUnique(CodeShape(f, v, Significant(w, v)), StandardShape(w, StandardValue(w, arg)));
    LayoutIs(w, arg);
    CountIs(w, v);
    FitsIff(w, arg);
    hide FitsLength;
    if v == StandardValue(w, arg) {
      if w.dot && w.prec <= 0 && v == 0 { BlankIff(w, f); } else { NumberIff(w, f, v); }
    } else if SameDrawing(CodeShape(f, v, Significant(w, v)), StandardShape(w, StandardValue(w, arg))) {
      ValueShows(w, arg);
    }
  }

  lemma CountIs(w: Written, v: int)
    ensures DigitCount(w, v) >= 1 && (v == 0 ==> DigitCount(w, v) == 1)
    ensures (Significant(w, v) == "") <==> v == 0
  {
    SignificantIs(w, v);
  }

  // ---- strings --------------------------------------------------------------------------------

  /** %s prints what the standard says except for a negative precision, where it prints none of the string:
      that shows unless the string is nothing but spaces the field has room for. */
  lemma StringStandardIff(source: string, w: Written, end: nat, next: nat, arg: Slot, sent: nat)
    requires w.conv == 's'
    ensures Text(DirectiveEvents(source, Read(w, end, next), arg, sent)) == StandardString(w, arg) <==>
            (w.dot && w.prec < 0 ==>
               |arg.text| <= Abs(w.width) && forall i | 0 <= i < |arg.text| :: arg.text[i] == ' ')
  {
    hide Text, DirectiveEvents;
    var d, width := Read(w, end, next), Abs(w.width);
    StringLength(source, d, arg, sent);
    assert arg.text[..|arg.text|] == arg.text;
    if w.dot && w.prec < 0 {
      assert arg.text[..0] == "" && Text(DirectiveEvents(source, d, arg, sent)) == Spaces(width);
      BlankField(arg.text, width, IsLeft(w));
    }
  }

  /** A text in a field is nothing but spaces exactly if the text is, and the field as wide as it is
      exactly if there is room. */
  lemma BlankField(text: string, width: nat, left: bool)
    ensures var gap := Spaces(width - |text|);
            (if left then text + gap else gap + text) == Spaces(width) <==>
            |text| <= width && forall i | 0 <= i < |text| :: text[i] == ' '
  {
    var gap := Spaces(width - |text|);
    var field := if left then text + gap else gap + text;
    assert forall i | 0 <= i < |text| :: text[i] == field[if left then i else |gap| + i];
    if |text| <= width && forall i | 0 <= i < |text| :: text[i] == ' ' {
      assert field == Spaces(width);
    }
  }

  // ---- an example -----------------------------------------------------------------------------

  const FIVE_ZERO := Written(Flags(false, false, false, false, true), 5, true, 0, LenInt, 'd')

  lemma ReadsFiveZero(args: nat -> Slot)
    ensures WrittenAt("%05.0d", 1, args, 0) == (FIVE_ZERO, 6, 0)
  {
    var fmt := "%05.0d";
    var zero := NO_FLAGS.(zero := true);
    assert FlagsAt(fmt, 2, zero) == (zero, 2) && FlagsAt(fmt, 1, NO_FLAGS) == (zero, 2);
    assert NumberAt(fmt, 3, 5) == (5, 3) && NumberAt(fmt, 2, 0) == (5, 3);
    assert NumberAt(fmt, 5, 0) == (0, 5) && NumberAt(fmt, 4, 0) == (0, 5);
  }

  lemma PrintsFiveZero(arg: Slot)
    requires arg.bits % TWO32 == 42
    ensures Text(DirectiveEvents("%05.0d", Read(FIVE_ZERO, 6, 0), arg, 0)) == "00042"
  {
    FortyTwo();
    NumberText(Layout(false, true, 5, 0, "", "", "42", false));
  }

  /** "%05.0d" prints 42 as "00042", although the precision should turn the zeros into spaces. */
  lemma ZeroDespitePrecision(args: nat -> Slot)
    requires args(0).bits % TWO32 == 42
    ensures Complete("%05.0d", 0, args, 0) && Text(Plan("%05.0d", 0, args, 0, 0)) == "00042"
    ensures StandardText(WrittenAt("%05.0d", 1, args, 0).0, args(0)) == "   42"
  {
    hide WrittenAt, DirectiveEvents, Plan, PieceAt, Complete, Numeral;
    ReadsFiveZero(args);
    OneDirective("%05.0d", args);
    PrintsFiveZero(args(0));
    FortyTwo();
  }

  const ADDRESS := Written(Flags(false, false, false, true, true), 16, false, 0, LenLongLong, 'x')

  lemma ReadsAddress(args: nat -> Slot)
    ensures WrittenAt("%#016llx", 1, args, 0) == (ADDRESS, 8, 0)
  {
    var fmt := "%#016llx";
    var alt := NO_FLAGS.(alt := true);
    var both := alt.(zero := true);
    assert FlagsAt(fmt, 3, both) == (both, 3) && FlagsAt(fmt, 2, alt) == (both, 3);
    assert FlagsAt(fmt, 1, NO_FLAGS) == (both, 3);
    assert NumberAt(fmt, 5, 16) == (16, 5) && NumberAt(fmt, 4, 1) == (16, 5) && NumberAt(fmt, 3, 0) == (16, 5);
    assert CountAt(fmt, 3, args, 0) == (16, 5, 0) && LengthAt(fmt, 5) == (LenLongLong, 7);
  }

  lemma AddressConforms(arg: Slot)
    ensures Conforms(ADDRESS, arg)
    ensures var v := arg.bits % TWO64; var n := Numeral(v, 16, false);
            StandardText(ADDRESS, arg) == if v == 0 then Zeros(15) + "0" else "0x" + Zeros(14 - |n|) + n
  {
    var v := arg.bits % TWO64;
    var n := Numeral(v, 16, false);
    OneDigit(0, 16, false);
    hide Numeral;
    assert Zeros(1 - |n|) + n == n;
    assert "" + "" + Zeros(15) + "0" == Zeros(15) + "0";
    assert "" + "0x" + Zeros(14 - |n|) + n == "0x" + Zeros(14 - |n|) + n;
  }

  /** The format the memory map is printed with gives 16 columns: 0x, zeros, and the digits of the address. */
  lemma PrintsAddress(args: nat -> Slot)
    ensures Complete("%#016llx", 0, args, 0)
    ensures var v := args(0).bits % TWO64; var n := Numeral(v, 16, false);
            Text(Plan("%#016llx", 0, args, 0, 0)) ==
            if v == 0 then Zeros(15) + "0" else "0x" + Zeros(14 - |n|) + n
  {
    hide WrittenAt, DirectiveEvents, Plan, PieceAt, Complete, Numeral, Text, StandardText, Conforms, Read;
    ReadsAddress(args);
    AddressIs(args);
    OneDirective("%#016llx", args);
    AddressConforms(args(0));
    StandardIff("%#016llx", ADDRESS, 8, 0, args(0), 0);
  }

  lemma AddressIs(args: nat -> Slot)
    requires WrittenAt("%#016llx", 1, args, 0) == (ADDRESS, 8, 0)
    ensures DirectiveAt("%#016llx", 1, args, 0) == Read(ADDRESS, 8, 0)
    ensures Read(ADDRESS, 8, 0).next == 0 && Read(ADDRESS, 8, 0).end == 8
  {
    hide WrittenAt;
  }
}
