/** _vcbprintf of kernel/lib/_vcbprintf.cc as it runs. */
module Format {
  import opened Arithmetic
  import opened Digits
  import opened FormatSpec

  datatype Modifier = Modifier(str: string, key: Length)

  /** The length modifiers, the longest first. */
  const MODIFIERS: seq<Modifier> := [
    Modifier("hh", LenChar), Modifier("ll", LenLongLong), Modifier("h", LenShort), Modifier("l", LenLong),
    Modifier("j", LenIntMax), Modifier("z", LenSizeT), Modifier("t", LenPtrDiffT)
  ]

  /** strncmp of the format at position i with a modifier. */
  predicate Matches(fmt: string, i: nat, m: Modifier) {
    forall j | 0 <= j < |m.str| :: At(fmt, i + j) == m.str[j]
  }

  method ReadFlags(fmt: string, start: nat) returns (f: Flags, i: nat)
    requires start <= |fmt|
    ensures (f, i) == FlagsAt(fmt, start, NO_FLAGS) && i <= |fmt|
  {
    f, i := NO_FLAGS, start;
    while IsFlag(At(fmt, i))
      invariant i <= |fmt| && FlagsAt(fmt, i, f) == FlagsAt(fmt, start, NO_FLAGS)
      decreases |fmt| - i
    {
      f, i := AddFlag(f, fmt[i]), i + 1;
    }
  }

  method ReadNumber(fmt: string, start: nat) returns (n: nat, i: nat)
    requires start <= |fmt|
    ensures (n, i) == NumberAt(fmt, start, 0) && i <= |fmt|
  {
    n, i := 0, start;
    while IsDecimal(At(fmt, i))
      invariant i <= |fmt| && NumberAt(fmt, i, n) == NumberAt(fmt, start, 0)
      decreases |fmt| - i
    {
      n, i := n * 10 + (fmt[i] as int - '0' as int), i + 1;
    }
  }

  method ReadCount(fmt: string, start: nat, args: nat -> Slot, k: nat) returns (n: int, i: nat, next: nat)
    requires start <= |fmt|
    ensures (n, i, next) == CountAt(fmt, start, args, k) && i <= |fmt|
  {
    next := k;
    n, i := ReadNumber(fmt, start);
    if At(fmt, i) == '*' {
      n, i, next := Signed(args(next).bits, TWO32), i + 1, next + 1;
    }
  }

  method ReadLength(fmt: string, start: nat) returns (length: Length, i: nat)
    requires start <= |fmt|
    ensures (length, i) == LengthAt(fmt, start) && i <= |fmt|
  {
    length, i := LenInt, start;
    var m := 0;
    while m < |MODIFIERS|
      invariant 0 <= m <= |MODIFIERS|
      invariant forall j | 0 <= j < m :: !Matches(fmt, start, MODIFIERS[j])
    {
      if Matches(fmt, start, MODIFIERS[m]) {
        FirstMatch(fmt, start, m);
        length, i := MODIFIERS[m].key, start + |MODIFIERS[m].str|;
        return;
      }
      m := m + 1;
    }
    NoMatch(fmt, start);
  }

  lemma MatchIs(fmt: string, i: nat)
    ensures Matches(fmt, i, MODIFIERS[0]) <==> At(fmt, i) == 'h' && At(fmt, i + 1) == 'h'
    ensures Matches(fmt, i, MODIFIERS[1]) <==> At(fmt, i) == 'l' && At(fmt, i + 1) == 'l'
    ensures Matches(fmt, i, MODIFIERS[2]) <==> At(fmt, i) == 'h'
    ensures Matches(fmt, i, MODIFIERS[3]) <==> At(fmt, i) == 'l'
    ensures Matches(fmt, i, MODIFIERS[4]) <==> At(fmt, i) == 'j'
    ensures Matches(fmt, i, MODIFIERS[5]) <==> At(fmt, i) == 'z'
    ensures Matches(fmt, i, MODIFIERS[6]) <==> At(fmt, i) == 't'
  {
    assert forall m: Modifier | |m.str| == 2 ::
      Matches(fmt, i, m) <==> At(fmt, i + 0) == m.str[0] && At(fmt, i + 1) == m.str[1];
    assert forall m: Modifier | |m.str| == 1 :: Matches(fmt, i, m) <==> At(fmt, i + 0) == m.str[0];
  }

  /** The first modifier of the table that matches is the one the standard's reading gives. */
  lemma FirstMatch(fmt: string, i: nat, m: nat)
    requires i <= |fmt| && m < |MODIFIERS| && Matches(fmt, i, MODIFIERS[m])
    requires forall j | 0 <= j < m :: !Matches(fmt, i, MODIFIERS[j])
    ensures LengthAt(fmt, i) == (MODIFIERS[m].key, i + |MODIFIERS[m].str|)
  {
    MatchIs(fmt, i);
  }

  lemma NoMatch(fmt: string, i: nat)
    requires i <= |fmt| && forall j | 0 <= j < |MODIFIERS| :: !Matches(fmt, i, MODIFIERS[j])
    ensures LengthAt(fmt, i) == (LenInt, i)
  {
    MatchIs(fmt, i);
  }

  method ReadDirective(fmt: string, start: nat, args: nat -> Slot, k: nat) returns (d: Directive)
    requires start <= |fmt|
    ensures d == DirectiveAt(fmt, start, args, k)
  {
    hide FlagsAt, CountAt, LengthAt, Signed;
    var flags, i := ReadFlags(fmt, start);
    var width, next;
    width, i, next := ReadCount(fmt, i, args, k);
    if width < 0 {
      width := -width;
      flags := flags.(left := true);
    }
    var prec, dot := 0, false;
    if At(fmt, i) == '.' {
      dot := true;
      prec, i, next := ReadCount(fmt, i + 1, args, next);
      if prec < 0 {
        prec := 0;
      }
      flags := flags.(zero := if prec > 0 then false else flags.zero);
    }
    var length;
    length, i := ReadLength(fmt, i);
    d := Directive(flags, width, dot, prec, length, At(fmt, i), i + 1, next);
  }

  /** strlen of the digit buffer. */
  method StrLen(s: array<char>, ghost text: string) returns (n: nat)
    requires |text| < s.Length && s[..|text|] == text && s[|text|] == '\0' && '\0' !in text
    ensures n == |text|
  {
    n := 0;
    while s[n] != '\0'
      invariant 0 <= n <= |text|
      decreases |text| - n
    {
      assert n < |text|;
      n := n + 1;
    }
    assert forall j | 0 <= j < |text| :: s[j] == s[..|text|][j] && text[j] in text;
  }

  lemma NoTerminator(num: nat, base: nat, caps: bool)
    requires 2 <= base <= 16
    ensures '\0' !in Numeral(num, base, caps)
  {
    NumeralDenotes(num, base, caps);
    var s := Numeral(num, base, caps);
    forall i | 0 <= i < |s| ensures s[i] != '\0' { assert IsDigit(s[i], base); }
  }

  /** convert_number into the buffer of _vcbprintf and back out of it. */
  method DigitsOf(num: nat, base: nat, caps: bool) returns (s: string)
    requires num < TWO64 && 2 <= base <= 16
    ensures s == Numeral(num, base, caps)
  {
    var numbuf := new char[MAX_NUMBER_LEN + 1](i => '\0');
    ConvertNumber(numbuf, MAX_NUMBER_LEN, num, base, caps);
    BufferSuffices(num, base, caps);
    NoTerminator(num, base, caps);
    var numlen := StrLen(numbuf, Numeral(num, base, caps));
    s := numbuf[..numlen];
  }

  class Printer {
    const accept: Callback
    var trace: seq<Event>    // every call of the callback, and every store of a %n
    var produced: nat

    constructor (accept: Callback)
      ensures this.accept == accept && trace == [] && produced == 0
    {
      this.accept, trace, produced := accept, [], 0;
    }

    /** The events have been carried out since t, all of them (ok) or up to the first text cut short. */
    ghost predicate Did(t: seq<Event>, sent: nat, events: seq<Event>, ok: bool)
      reads this
    {
      Play(accept, t, events) == (trace, ok) && (ok ==> produced == sent + |Text(events)|)
    }

    /** What is still to be carried out of some events begun at t: doing the rest does them all. */
    ghost predicate ToDo(t: seq<Event>, sent: nat, events: seq<Event>, rest: seq<Event>)
      reads this
    {
      Play(accept, t, events) == Play(accept, trace, rest) &&
      sent + |Text(events)| == produced + |Text(rest)|
    }

    /** One more part is done, or the callback has cut it short and nothing follows. */
    lemma Next(t: seq<Event>, sent: nat, events: seq<Event>, t1: seq<Event>, sent1: nat,
               part: seq<Event>, rest: seq<Event>, ok: bool)
      requires Play(accept, t, events) == Play(accept, t1, part + rest)
      requires sent + |Text(events)| == sent1 + |Text(part + rest)|
      requires Did(t1, sent1, part, ok)
      ensures ok ==> ToDo(t, sent, events, rest)
      ensures !ok ==> Did(t, sent, events, false)
    {
      PlayConcat(accept, t1, part, rest);
      TextConcat(part, rest);
    }

    lemma Nothing()
      ensures Did(trace, produced, [], true)
    {}

    lemma Done(t: seq<Event>, sent: nat, events: seq<Event>)
      requires ToDo(t, sent, events, [])
      ensures Did(t, sent, events, true)
    {}

    /** PUTC and PUTS */
    method Put(s: string) returns (ok: bool)
      modifies this
      ensures Did(old(trace), old(produced), [Out(s)], ok)
    {
      var n := accept(trace, s);
      trace := trace + [Out(s)];
      ok := n == |s|;
      if ok {
        produced := produced + |s|;
      }
      OneText(s);
    }

    method PutOpt(s: string) returns (ok: bool)
      modifies this
      ensures Did(old(trace), old(produced), Opt(s), ok)
    {
      ok := true;
      if s != "" {
        ok := Put(s);
      }
    }

    /** pad_string, which counts what it hands over itself. */
    method PadString(useZero: bool, n: nat) returns (rc: int)
      modifies this`trace
      ensures Play(accept, old(trace), Pad(if useZero then '0' else ' ', n)) == (trace, rc != -1)
      ensures rc != -1 ==> rc == n
    {
      var filler := if useZero then Fill('0', FILL) else Fill(' ', FILL);
      ghost var c := if useZero then '0' else ' ';
      var len := n;
      rc := 0;
      while len > 0
        invariant 0 <= len <= n && rc == n - len
        invariant Play(accept, trace, Pad(c, len)) == Play(accept, old(trace), Pad(c, n))
      {
        PadNext(c, len, accept, trace);
        if len < FILL {
          assert filler[..len] == Fill(c, len);
          var taken := accept(trace, filler[..len]);
          trace := trace + [Out(filler[..len])];
          if taken != len {
            return -1;
          }
          rc := rc + len;
          return;
        } else {
          assert filler == Fill(c, FILL);
          var taken := accept(trace, filler);
          trace := trace + [Out(filler)];
          if taken != FILL {
            return -1;
          }
          len := len - FILL;
          rc := rc + FILL;
        }
      }
    }

    /** Padding up to a width. */
    method PutPad(useZero: bool, n: int) returns (ok: bool)
      modifies this
      ensures Did(old(trace), old(produced), Pad(if useZero then '0' else ' ', n), ok)
    {
      ok := true;
      PadLength(if useZero then '0' else ' ', n);
      if n > 0 {
        var rc := PadString(useZero, n);
        if rc != n {
          return false;
        }
        produced := produced + n;
      }
    }

    /** Sign and prefix. */
    method PutHead(sign: string, prefix: string) returns (ok: bool)
      modifies this
      ensures Did(old(trace), old(produced), Opt(sign) + Opt(prefix), ok)
    {
      label start:
      ok := PutOpt(sign);
      Next(old(trace), old(produced), Opt(sign) + Opt(prefix), old@start(trace), old@start(produced),
           Opt(sign), Opt(prefix), ok);
      if !ok {
        return;
      }
      label after:
      ok := PutOpt(prefix);
      assert Opt(prefix) + [] == Opt(prefix);
      Next(old(trace), old(produced), Opt(sign) + Opt(prefix), old@after(trace), old@after(produced), Opt(prefix), [],
           ok);
      if ok { Done(old(trace), old(produced), Opt(sign) + Opt(prefix)); }
    }

    /** What goes before the digits of a right-justified number. */
    method PutFront(f: Layout) returns (ok: bool)
      modifies this
      ensures Did(old(trace), old(produced), Front(f), ok)
    {
      ok := true;
      if !f.left {
        ghost var head := if f.zero then Opt(f.sign) + Opt(f.prefix) else [];
        ghost var pad := Pad(if f.zero then '0' else ' ', f.width - Core(f));
        assert Front(f) == head + pad;
        label start:
        if f.zero {
          ok := PutHead(f.sign, f.prefix);
        }
        Next(old(trace), old(produced), Front(f), old@start(trace), old@start(produced), head, pad, ok);
        if !ok {
          return;
        }
        label after:
        ok := PutPad(f.zero, f.width - Core(f));
        assert pad + [] == pad;
        Next(old(trace), old(produced), Front(f), old@after(trace), old@after(produced), pad, [], ok);
        if ok { Done(old(trace), old(produced), Front(f)); }
      }
    }

    /** The output of a number, part by part. */
    method PutLayout(f: Layout) returns (ok: bool)
      modifies this
      ensures Did(old(trace), old(produced), NumberEvents(f), ok)
    {
      hide Pad, Core, Play, Text;
      ghost var t, sent, all := trace, produced, NumberEvents(f);
      ghost var e := if f.left then Pad(' ', f.width - Core(f)) else [];
      ghost var d := [Out(if f.blank then " " else f.digits)];
      ghost var c := Pad('0', f.prec - |f.digits|);
      ghost var b := if f.zero then [] else Opt(f.sign) + Opt(f.prefix);
      assert all == Front(f) + (b + (c + (d + e)));
      label l0:
      ok := PutFront(f);
      Next(t, sent, all, old@l0(trace), old@l0(produced), Front(f), b + (c + (d + e)), ok);
      if !ok {
        return;
      }
      label l1:
      if !f.zero {
        ok := PutHead(f.sign, f.prefix);
      } else {
        Nothing();
      }
      Next(t, sent, all, old@l1(trace), old@l1(produced), b, c + (d + e), ok);
      if !ok {
        return;
      }
      label l2:
      ok := PutPad(true, f.prec - |f.digits|);
      Next(t, sent, all, old@l2(trace), old@l2(produced), c, d + e, ok);
      if !ok {
        return;
      }
      label l3:
      ok := Put(if f.blank then " " else f.digits);
      Next(t, sent, all, old@l3(trace), old@l3(produced), d, e, ok);
      if !ok {
        return;
      }
      label l4:
      if f.left {
        ok := PutPad(false, f.width - Core(f));
      } else {
        Nothing();
      }
      assert e + [] == e;
      Next(t, sent, all, old@l4(trace), old@l4(produced), e, [], ok);
      if ok { Done(t, sent, all); }
    }

    /** The argument of an integer conversion, as sign and magnitude. */
    method TakeNumber(d: Directive, arg: Slot) returns (negative: bool, number: nat)
      ensures negative == (ValueOf(d, arg) < 0) && number == Abs(ValueOf(d, arg)) < TWO64
    {
      var narrow := d.length == LenChar || d.length == LenShort || d.length == LenInt;
      if d.conv == 'p' {
        narrow := false;
      }
      if d.conv == 'd' || d.conv == 'i' {
        var signum := Signed(arg.bits, if narrow then TWO32 else TWO64);
        negative := signum < 0;
        number := if negative then -signum else signum;
      } else {
        negative := false;
        number := arg.bits % if narrow then TWO32 else TWO64;
      }
    }

    /** The integer conversions. */
    method PutNumber(d: Directive, arg: Slot) returns (ok: bool)
      requires IsNumber(d.conv)
      modifies this
      ensures Did(old(trace), old(produced), NumberEvents(LayoutOf(d, arg)), ok)
    {
      hide Did, Numeral, NumberEvents;
      var base := if d.conv == 'o' then 8 else if d.conv == 'X' || d.conv == 'x' || d.conv == 'p' then 16 else 10;
      var isSigned := d.conv == 'd' || d.conv == 'i';
      var alt := d.flags.alt || d.conv == 'p';
      var negative, number := TakeNumber(d, arg);
      hide ValueOf;
      var digits := DigitsOf(number, base, d.conv == 'X');
      var sign, prefix := "", "";
      if isSigned {
        if negative || d.flags.plus || d.flags.space {
          sign := if negative then "-" else if d.flags.plus then "+" else " ";
        }
      } else if alt && number != 0 {
        if d.conv == 'o' {
          prefix := "0";
        } else {
          prefix := if d.conv == 'X' then "0X" else "0x";
        }
      }
      var f := Layout(d.flags.left, d.flags.zero, d.width, d.prec, sign, prefix, digits,
                      d.dot && d.prec == 0 && number == 0);
      assert f == LayoutOf(d, arg);
      ok := PutLayout(f);
    }

    /** A text in a field of some width. */
    method PutField(left: bool, width: nat, text: string, len: nat) returns (ok: bool)
      modifies this
      ensures Did(old(trace), old(produced), FieldEvents(left, width, Opt(text), len), ok)
    {
      hide Pad, Play, Text, Opt;
      ghost var t, sent, all := trace, produced, FieldEvents(left, width, Opt(text), len);
      ghost var a := if left then [] else Pad(' ', width - len);
      ghost var b := if left then Pad(' ', width - len) else [];
      ok := true;
      label l0:
      if !left {
        ok := PutPad(false, width - len);
      } else {
        Nothing();
      }
      Next(t, sent, all, old@l0(trace), old@l0(produced), a, Opt(text) + b, ok);
      if !ok {
        return;
      }
      label l1:
      ok := PutOpt(text);
      Next(t, sent, all, old@l1(trace), old@l1(produced), Opt(text), b, ok);
      if !ok {
        return;
      }
      label l2:
      if left {
        ok := PutPad(false, width - len);
      } else {
        Nothing();
      }
      assert b + [] == b;
      Next(t, sent, all, old@l2(trace), old@l2(produced), b, [], ok);
      if ok { Done(t, sent, all); }
    }

    /** %s */
    method PutString(d: Directive, arg: Slot) returns (ok: bool)
      modifies this
      ensures Did(old(trace), old(produced),
                  FieldEvents(d.flags.left, d.width, Opt(StringOf(d, arg)), |StringOf(d, arg)|), ok)
    {
      var prec := d.prec;
      if !(d.dot && d.prec > 0) {
        prec := if d.dot then 0 else |arg.text|;
      } else {
        var len := |arg.text|;
        prec := if prec < len then prec else len;
      }
      assert arg.text[..prec] == StringOf(d, arg);
      ok := PutField(d.flags.left, d.width, arg.text[..prec], prec);
    }

    /** The conversion itself. */
    method Convert(source: string, d: Directive, arg: Slot) returns (ok: bool)
      modifies this
      ensures Did(old(trace), old(produced), DirectiveEvents(source, d, arg, old(produced)), ok)
    {
      if IsNumber(d.conv) {
        ok := PutNumber(d, arg);
      } else if d.conv == 'c' {
        assert Opt(CharOf(arg)) == [Out(CharOf(arg))];
        ok := PutField(d.flags.left, d.width, CharOf(arg), 1);
      } else if d.conv == 's' {
        ok := PutString(d, arg);
      } else if d.conv == 'n' {
        trace := trace + [Store(d.length, StoredValue(d.length, produced))];
        ok := true;
      } else {
        ok := Put(source);
      }
    }

    /** One round of the loop over the format. */
    method PutPiece(fmt: string, i: nat, args: nat -> Slot, k: nat) returns (ok: bool, end: nat, next: nat)
      requires i < |fmt| && Complete(fmt, i, args, k)
      modifies this
      ensures var p := PieceAt(fmt, i, args, k, old(produced));
              Did(old(trace), old(produced), p.events, ok) && end == p.end && next == p.next
    {
      hide DirectiveEvents, DirectiveAt, Play, Text;
      if fmt[i] != '%' {
        end := ReadRun(fmt, i + 1);
        next := k;
        ok := Put(fmt[i..end]);
      } else if At(fmt, i + 1) == '%' {
        ok := Put("%");
        end, next := i + 2, k;
      } else {
        var d := ReadDirective(fmt, i + 1, args, k);
        ok := Convert(fmt[i..d.end], d, args(d.next));
        end, next := d.end, d.next + ArgsUsed(d.conv);
      }
    }

    /** _vcbprintf: carries out the plan of the format, or the part of it up to the first text that the
        callback does not take whole. */
    method Print(fmt: string, args: nat -> Slot) returns (rc: int)
      requires '\0' !in fmt && Complete(fmt, 0, args, 0)
      modifies this
      ensures var (t, ok) := Play(accept, old(trace), Plan(fmt, 0, args, 0, 0));
              && trace == t
              && rc == if ok then Signed(|Text(Plan(fmt, 0, args, 0, 0))|, TWO32) else -1
    {
      hide Play, Text, PieceAt;
      produced := 0;
      ghost var all := Plan(fmt, 0, args, 0, 0);
      var i, k: nat := 0, 0;
      while i < |fmt|
        invariant i <= |fmt| && Complete(fmt, i, args, k)
        invariant ToDo(old(trace), 0, all, Plan(fmt, i, args, k, produced))
        decreases |fmt| - i
      {
        label round:
        PieceExtent(fmt, i, args, k, produced);
        ghost var p := PieceAt(fmt, i, args, k, produced);
        ghost var rest := Plan(fmt, p.end, args, p.next, produced + |Text(p.events)|);
        var ok;
        ok, i, k := PutPiece(fmt, i, args, k);
        Next(old(trace), 0, all, old@round(trace), old@round(produced), p.events, rest, ok);
        if !ok {
          return -1;
        }
      }
      Done(old(trace), 0, all);
      rc := Signed(produced, TWO32);
    }

    /** The text up to the next percent sign. */
    method ReadRun(fmt: string, start: nat) returns (j: nat)
      requires start <= |fmt|
      ensures j == RunEnd(fmt, start)
    {
      j := start;
      while j < |fmt| && fmt[j] != '%'
        invariant start <= j <= |fmt| && RunEnd(fmt, j) == RunEnd(fmt, start)
      {
        j := j + 1;
      }
    }
  }

  /** What goes before the digits of a right-justified number. */
  function Front(f: Layout): seq<Event> {
    if f.left then []
    else (if f.zero then Opt(f.sign) + Opt(f.prefix) else []) + Pad(if f.zero then '0' else ' ', f.width - Core(f))
  }

  lemma OneText(s: string)
    ensures Text([Out(s)]) == s
  {
    assert [Out(s)][1..] == [];
  }

  /** The first run of a padding. */
  lemma PadNext(c: char, n: int, accept: Callback, trace: seq<Event>)
    requires n > 0
    ensures var run := Fill(c, Min(n, FILL)); var u := trace + [Out(run)];
            Play(accept, trace, Pad(c, n)) ==
            if accept(trace, run) != |run| then (u, false) else Play(accept, u, Pad(c, n - FILL))
  {
    var run := Fill(c, Min(n, FILL));
    assert Pad(c, n) == [Out(run)] + Pad(c, n - FILL);
  }

  lemma {:induction false} PadLength(c: char, n: int)
    ensures Text(Pad(c, n)) == Fill(c, Max(n, 0))
    decreases Max(n, 0)
  {
    if n > 0 {
      PadLength(c, n - FILL);
      var run := Fill(c, Min(n, FILL));
      assert Pad(c, n) == [Out(run)] + Pad(c, n - FILL);
      assert Text(Pad(c, n)) == run + Text(Pad(c, n - FILL));
    }
  }
}
