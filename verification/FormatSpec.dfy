/** What kernel/lib/_vcbprintf.cc makes of a format and its arguments: the calls of the output callback
    and the stores of %n, in order. */
module FormatSpec {
  import opened Arithmetic
  import opened Digits

  const FILL: nat := 40   // the longest run of padding handed to the callback at once

  /** What the formatter does to the outside: hand text to the callback, or store a count for %n. */
  datatype Event = Out(text: string) | Store(length: Length, value: int)

  datatype Length = LenChar | LenShort | LenInt | LenLong | LenLongLong | LenIntMax | LenSizeT | LenPtrDiffT

  datatype Flags = Flags(left: bool, plus: bool, space: bool, alt: bool, zero: bool)

  /** A conversion directive as it is written, the stars replaced by their arguments. */
  datatype Written = Written(flags: Flags, width: int, dot: bool, prec: int, length: Length, conv: char)

  /** A conversion directive as the code reads it: conv is its last character, end the position behind it, and
      next the number of the first argument not used for a width or precision. */
  datatype Directive = Directive(flags: Flags, width: nat, dot: bool, prec: nat, length: Length, conv: char,
                                 end: nat, next: nat)

  /** A variadic argument: its 64 bits, and the text before the terminator if it points at one. */
  datatype Slot = Slot(bits: nat, text: string)

  /** The low `two` values of a word as a signed number. */
  function Signed(bits: int, two: nat): int
    requires two > 0
  {
    var x := bits % two;
    if x >= two / 2 then x - two else x
  }

  // ---- parsing --------------------------------------------------------------------------------

  function At(fmt: string, i: nat): char { if i < |fmt| then fmt[i] else '\0' }

  predicate IsFlag(c: char) { c == '\'' || c == '-' || c == '+' || c == ' ' || c == '#' || c == '0' }

  function AddFlag(f: Flags, c: char): Flags {
    if c == '-' then f.(left := true, zero := false)
    else if c == '+' then f.(plus := true)
    else if c == ' ' then f.(space := true)
    else if c == '#' then f.(alt := true)
    else if c == '0' && !f.left then f.(zero := true)
    else f
  }

  function FlagsAt(fmt: string, i: nat, f: Flags): (r: (Flags, nat))
    requires i <= |fmt|
    ensures i <= r.1 <= |fmt|
    decreases |fmt| - i
  {
    if IsFlag(At(fmt, i)) then FlagsAt(fmt, i + 1, AddFlag(f, fmt[i])) else (f, i)
  }

  predicate IsDecimal(c: char) { '0' <= c <= '9' }

  function NumberAt(fmt: string, i: nat, n: nat): (r: (nat, nat))
    requires i <= |fmt|
    ensures i <= r.1 <= |fmt|
    decreases |fmt| - i
  {
    if IsDecimal(At(fmt, i)) then NumberAt(fmt, i + 1, n * 10 + (fmt[i] as int - '0' as int)) else (n, i)
  }

  /** A number or a star, read from position i: its value, the position behind it and the next argument. */
  function CountAt(fmt: string, i: nat, args: nat -> Slot, k: nat): (r: (int, nat, nat))
    requires i <= |fmt|
    ensures i <= r.1 <= |fmt|
  {
    var (n, j) := NumberAt(fmt, i, 0);
    if At(fmt, j) == '*' then (Signed(args(k).bits, TWO32), j + 1, k + 1) else (n, j, k)
  }

  function LengthAt(fmt: string, i: nat): (r: (Length, nat))
    requires i <= |fmt|
    ensures i <= r.1 <= |fmt|
  {
    var c, c2 := At(fmt, i), At(fmt, i + 1);
    if c == 'h' && c2 == 'h' then (LenChar, i + 2)
    else if c == 'l' && c2 == 'l' then (LenLongLong, i + 2)
    else if c == 'h' then (LenShort, i + 1)
    else if c == 'l' then (LenLong, i + 1)
    else if c == 'j' then (LenIntMax, i + 1)
    else if c == 'z' then (LenSizeT, i + 1)
    else if c == 't' then (LenPtrDiffT, i + 1)
    else (LenInt, i)
  }

  const NO_FLAGS := Flags(false, false, false, false, false)

  /** The directive whose percent sign is right before position i, with the position behind it and the
      next argument. */
  function WrittenAt(fmt: string, i: nat, args: nat -> Slot, k: nat): (r: (Written, nat, nat))
    requires i <= |fmt|
    ensures i < r.1 <= |fmt| + 1
  {
    var (f, a) := FlagsAt(fmt, i, NO_FLAGS);
    var (w, b, k1) := CountAt(fmt, a, args, k);
    var dot := At(fmt, b) == '.';
    var (p, c, k2) := if dot then CountAt(fmt, b + 1, args, k1) else (0, b, k1);
    var (length, e) := LengthAt(fmt, c);
    (Written(f, w, dot, p, length, At(fmt, e)), e + 1, k2)
  }

  /** What the code takes a directive for: a negative width stands for left justification, a negative
      precision for 0, and only a precision above 0 turns `0` off. */
  function Read(w: Written, end: nat, next: nat): Directive {
    var prec := if w.dot then Max(w.prec, 0) else 0;
    Directive(w.flags.(left := w.flags.left || w.width < 0, zero := w.flags.zero && prec == 0), Abs(w.width),
              w.dot, prec, w.length, w.conv, end, next)
  }

  function DirectiveAt(fmt: string, i: nat, args: nat -> Slot, k: nat): (d: Directive)
    requires i <= |fmt|
    ensures i < d.end <= |fmt| + 1
  {
    var (w, end, next) := WrittenAt(fmt, i, args, k);
    Read(w, end, next)
  }

  /** Where the text from i on stops: at a percent sign or at the end. */
  function RunEnd(fmt: string, i: nat): (j: nat)
    requires i <= |fmt|
    ensures i <= j <= |fmt|
    decreases |fmt| - i
  {
    if i == |fmt| || fmt[i] == '%' then i else RunEnd(fmt, i + 1)
  }

  // ---- conversions ----------------------------------------------------------------------------

  function Max(a: int, b: int): int { if a < b then b else a }
  function Min(a: int, b: int): int { if a < b then a else b }

  function Fill(c: char, n: nat): (s: string)
    ensures |s| == n && forall i | 0 <= i < n :: s[i] == c
  {
    seq(n, i => c)
  }

  /** pad_string: n characters in runs of at most FILL. */
  function Pad(c: char, n: int): seq<Event>
    decreases Max(n, 0)
  {
    if n <= 0 then [] else if n < FILL then [Out(Fill(c, n))] else [Out(Fill(c, FILL))] + Pad(c, n - FILL)
  }

  function Opt(s: string): seq<Event> { if s == "" then [] else [Out(s)] }

  predicate IsNumber(conv: char) {
    conv == 'p' || conv == 'd' || conv == 'i' || conv == 'o' || conv == 'u' || conv == 'x' || conv == 'X'
  }

  predicate IsSigned(conv: char) { conv == 'd' || conv == 'i' }

  function Base(conv: char): nat {
    if conv == 'o' then 8 else if conv == 'X' || conv == 'x' || conv == 'p' then 16 else 10
  }

  /** Arguments of at most int size are passed as int. */
  predicate IsWide(d: Directive) {
    d.conv == 'p' || (d.length != LenChar && d.length != LenShort && d.length != LenInt)
  }

  /** The number a directive prints. */
  function ValueOf(d: Directive, arg: Slot): int {
    var two := if IsWide(d) then TWO64 else TWO32;
    if IsSigned(d.conv) then Signed(arg.bits, two) else arg.bits % two
  }

  function Abs(v: int): nat { if v < 0 then -v else v }

  /** The parts of a printed number. */
  datatype Layout = Layout(left: bool, zero: bool, width: nat, prec: nat, sign: string, prefix: string,
                           digits: string, blank: bool)

  function SignOf(f: Flags, v: int): string {
    if v < 0 then "-" else if f.plus then "+" else if f.space then " " else ""
  }

  function PrefixOf(conv: char, alt: bool, v: int): string {
    if !alt || v == 0 then "" else if conv == 'o' then "0" else if conv == 'X' then "0X" else "0x"
  }

  function LayoutOf(d: Directive, arg: Slot): Layout {
    var v := ValueOf(d, arg);
    Layout(d.flags.left, d.flags.zero, d.width, d.prec,
           if IsSigned(d.conv) then SignOf(d.flags, v) else "",
           if IsSigned(d.conv) then "" else PrefixOf(d.conv, d.flags.alt || d.conv == 'p', v),
           Numeral(Abs(v), Base(d.conv), d.conv == 'X'),
           d.dot && d.prec == 0 && v == 0)
  }

  /** What the width is compared with. */
  function Core(f: Layout): nat { Max(f.prec, |f.digits|) + |f.sign| + |f.prefix| }

  function NumberEvents(f: Layout): seq<Event> {
    var head := Opt(f.sign) + Opt(f.prefix);
    var gap := f.width - Core(f);
    (if f.left then [] else (if f.zero then head else []) + Pad(if f.zero then '0' else ' ', gap)) +
    ((if f.zero then [] else head) +
     (Pad('0', f.prec - |f.digits|) +
      ([Out(if f.blank then " " else f.digits)] +
       (if f.left then Pad(' ', gap) else []))))
  }

  /** A text in a field: %c and %s. */
  function FieldEvents(left: bool, width: int, text: seq<Event>, len: nat): seq<Event> {
    (if left then [] else Pad(' ', width - len)) + (text + (if left then Pad(' ', width - len) else []))
  }

  function CharOf(arg: Slot): string { [(arg.bits % TWO8) as char] }

  /** The part of a string that %s prints: without a precision all of it, else no more than that; the
      precisions 0 and below leave nothing. */
  function StringOf(d: Directive, arg: Slot): string {
    if d.dot && d.prec < |arg.text| then arg.text[..d.prec] else arg.text
  }

  function StoredValue(length: Length, sent: nat): int {
    match length
    case LenChar => Signed(sent, TWO8)
    case LenShort => Signed(sent, TWO16)
    case LenInt => Signed(sent, TWO32)
    case LenSizeT => sent % TWO64
    case _ => Signed(sent, TWO64)
  }

  /** What a directive does; an unknown one is printed as it stands. */
  function DirectiveEvents(source: string, d: Directive, arg: Slot, sent: nat): seq<Event> {
    if IsNumber(d.conv) then NumberEvents(LayoutOf(d, arg))
    else if d.conv == 'c' then FieldEvents(d.flags.left, d.width, [Out(CharOf(arg))], 1)
    else if d.conv == 's' then FieldEvents(d.flags.left, d.width, Opt(StringOf(d, arg)), |StringOf(d, arg)|)
    else if d.conv == 'n' then [Store(d.length, StoredValue(d.length, sent))]
    else [Out(source)]
  }

  function ArgsUsed(conv: char): nat {
    if IsNumber(conv) || conv == 'c' || conv == 's' || conv == 'n' then 1 else 0
  }

  // ---- whole formats --------------------------------------------------------------------------

  /** A stretch of the format: the text up to a percent sign, a doubled percent sign or a directive; what
      it does, the position behind it and the next argument. */
  datatype Piece = Piece(events: seq<Event>, end: nat, next: nat)

  function PieceAt(fmt: string, i: nat, args: nat -> Slot, k: nat, sent: nat): (p: Piece)
    requires i < |fmt|
    ensures i < p.end
  {
    if fmt[i] != '%' then
      var j := RunEnd(fmt, i + 1);
      Piece([Out(fmt[i..j])], j, k)
    else if At(fmt, i + 1) == '%' then Piece([Out("%")], i + 2, k)
    else
      var d := DirectiveAt(fmt, i + 1, args, k);
      var source := fmt[i..Min(d.end, |fmt|)];
      Piece(DirectiveEvents(source, d, args(d.next), sent), d.end, d.next + ArgsUsed(d.conv))
  }

  /** How far a piece reaches does not depend on what was sent before. */
  lemma PieceExtent(fmt: string, i: nat, args: nat -> Slot, k: nat, sent: nat)
    requires i < |fmt|
    ensures var p, q := PieceAt(fmt, i, args, k, sent), PieceAt(fmt, i, args, k, 0);
            p.end == q.end && p.next == q.next
  {}

  /** No directive from i on is cut short by the end of the format. */
  predicate Complete(fmt: string, i: nat, args: nat -> Slot, k: nat)
    requires i <= |fmt|
    decreases |fmt| - i
  {
    i == |fmt| ||
    var p := PieceAt(fmt, i, args, k, 0);
    p.end <= |fmt| && Complete(fmt, p.end, args, p.next)
  }

  /** Everything the format does from position i on, if the callback takes all it is given. */
  function Plan(fmt: string, i: nat, args: nat -> Slot, k: nat, sent: nat): seq<Event>
    requires i <= |fmt| && Complete(fmt, i, args, k)
    decreases |fmt| - i
  {
    if i == |fmt| then []
    else
      PieceExtent(fmt, i, args, k, sent);
      var p := PieceAt(fmt, i, args, k, sent);
      p.events + Plan(fmt, p.end, args, p.next, sent + |Text(p.events)|)
  }

  /** The characters handed to the callback. */
  function Text(events: seq<Event>): string {
    if events == [] then ""
    else (if events[0].Out? then events[0].text else "") + Text(events[1..])
  }

  lemma {:induction false} TextConcat(a: seq<Event>, b: seq<Event>)
    ensures Text(a + b) == Text(a) + Text(b)
  {
    if a == [] {
      assert a + b == b;
    } else {
      TextConcat(a[1..], b);
      assert (a + b)[1..] == a[1..] + b;
    }
  }

  /** A callback: how many of the characters of a text it takes, after the given events. */
  type Callback = (seq<Event>, string) -> nat

  /** Carrying out events until a text is not taken whole: the events carried out, and whether all were. */
  function Play(accept: Callback, trace: seq<Event>, events: seq<Event>): (seq<Event>, bool)
    decreases |events|
  {
    if events == [] then (trace, true)
    else
      var e := events[0];
      if e.Out? && accept(trace, e.text) != |e.text| then (trace + [e], false)
      else Play(accept, trace + [e], events[1..])
  }

  lemma {:induction false} PlayConcat(accept: Callback, trace: seq<Event>, a: seq<Event>, b: seq<Event>)
    ensures var (t, ok) := Play(accept, trace, a);
            Play(accept, trace, a + b) == if ok then Play(accept, t, b) else (t, false)
    decreases |a|
  {
    if a == [] {
      assert a + b == b;
    } else {
      PlayConcat(accept, trace + [a[0]], a[1..], b);
      assert (a + b)[1..] == a[1..] + b;
    }
  }
}
