/** What formatted text looks like, for every combination of flags, width, precision and argument. */
module FormatFacts {
  import opened Arithmetic
  import opened Sequences
  import opened Digits
  import opened FormatSpec
  import opened Format

  // ---- field lengths --------------------------------------------------------------------------

  lemma OptText(s: string)
    ensures Text(Opt(s)) == s
  {
    if s != "" { OneText(s); }
  }

  function Spaces(n: int): string { Fill(' ', Max(n, 0)) }
  function Zeros(n: int): string { Fill('0', Max(n, 0)) }

  predicate ShowsHead(f: Layout) { !(f.zero && f.left) }

  /** The characters of a printed number, from left to right. */
  lemma NumberText(f: Layout)
    ensures var gap := f.width - Core(f);
            var sign, prefix := if ShowsHead(f) then f.sign else "", if ShowsHead(f) then f.prefix else "";
            Text(NumberEvents(f)) ==
            (if f.left || f.zero then "" else Spaces(gap)) + (sign + (prefix +
            ((if f.zero && !f.left then Zeros(gap) else "") + (Zeros(f.prec - |f.digits|) +
            ((if f.blank then " " else f.digits) + (if f.left then Spaces(gap) else ""))))))
  {
    hide Pad, Text, Opt, Core, Fill, NumberEvents;
    var gap := f.width - Core(f);
    var head := Opt(f.sign) + Opt(f.prefix);
    var late := if f.zero then [] else head;
    var zeros, digits := Pad('0', f.prec - |f.digits|), [Out(if f.blank then " " else f.digits)];
    var back := if f.left then Pad(' ', gap) else [];
    EventsAre(f);
    TextConcat(Front(f), late + (zeros + (digits + back)));
    TextConcat(late, zeros + (digits + back));
    TextConcat(zeros, digits + back);
    TextConcat(digits, back);
    HeadText(f.sign, f.prefix);
    FrontText(f);
    NoText();
    PadLength('0', f.prec - |f.digits|);
    PadLength(' ', gap);
    OneText(if f.blank then " " else f.digits);
    var x := Zeros(f.prec - |f.digits|) + ((if f.blank then " " else f.digits) + (if f.left then Spaces(gap) else ""));
    assert Text(late + (zeros + (digits + back))) == (if f.zero then "" else f.sign + f.prefix) + x;
    Regroup(f.sign, f.prefix, Zeros(gap), x);
    Regroup(f.sign, f.prefix, "", x);
  }

  lemma EventsAre(f: Layout)
    ensures var gap := f.width - Core(f);
            NumberEvents(f) ==
            Front(f) + ((if f.zero then [] else Opt(f.sign) + Opt(f.prefix)) +
                        (Pad('0', f.prec - |f.digits|) +
                         ([Out(if f.blank then " " else f.digits)] + (if f.left then Pad(' ', gap) else []))))
  {}

  lemma Regroup(s: string, p: string, z: string, x: string)
    ensures s + p + z + x == s + (p + (z + x)) && s + p + x == s + (p + x) && "" + x == x
  {}

  lemma NoText()
    ensures Text([]) == ""
  {}

  lemma HeadText(sign: string, prefix: string)
    ensures Text(Opt(sign) + Opt(prefix)) == sign + prefix
  {
    TextConcat(Opt(sign), Opt(prefix));
    OptText(sign);
    OptText(prefix);
  }

  lemma FrontText(f: Layout)
    ensures var gap := f.width - Core(f);
            Text(Front(f)) == if f.left then "" else if f.zero then f.sign + f.prefix + Zeros(gap) else Spaces(gap)
  {
    hide Pad, Opt, Core;
    var gap := f.width - Core(f);
    var head := if f.zero then Opt(f.sign) + Opt(f.prefix) else [];
    TextConcat(head, Pad(if f.zero then '0' else ' ', gap));
    HeadText(f.sign, f.prefix);
    PadLength(if f.zero then '0' else ' ', gap);
  }

  /** An integer field is as long as its width, or as precision, sign and prefix require if that is
      more, exactly unless `0` meets left justification: then sign and prefix are missing. */
  lemma NumberLength(source: string, d: Directive, arg: Slot, sent: nat)
    requires IsNumber(d.conv)
    ensures var f := LayoutOf(d, arg);
            var n := |Text(DirectiveEvents(source, d, arg, sent))|;
            var due := Max(d.width, Max(d.prec, |f.digits|) + |f.sign| + |f.prefix|);
            && n == due - (if f.zero && f.left then |f.sign| + |f.prefix| else 0)
            && (n == due <==> !(d.flags.zero && d.flags.left && |f.sign| + |f.prefix| > 0))
  {
    hide Numeral, Text, NumberEvents, ValueOf;
    var f := LayoutOf(d, arg);
    NumberText(f);
    if f.blank { OneDigit(0, Base(d.conv), d.conv == 'X'); }
  }

  /** Left justification and `0` are in force together exactly when the star of the width took a
      negative argument after a `0` flag, and there is no positive precision. */
  lemma LeftWithZeroIff(fmt: string, i: nat, args: nat -> Slot, k: nat)
    requires i <= |fmt|
    ensures var d := DirectiveAt(fmt, i, args, k);
            var (f, a) := FlagsAt(fmt, i, NO_FLAGS);
            d.flags.left && d.flags.zero <==> f.zero && CountAt(fmt, a, args, k).0 < 0 && d.prec == 0
  {
    NeverBoth(fmt, i, NO_FLAGS);
  }

  lemma {:induction false} NeverBoth(fmt: string, i: nat, f: Flags)
    requires i <= |fmt| && !(f.left && f.zero)
    ensures var g := FlagsAt(fmt, i, f).0; !(g.left && g.zero)
    decreases |fmt| - i
  {
    if IsFlag(At(fmt, i)) { NeverBoth(fmt, i + 1, AddFlag(f, fmt[i])); }
  }

  /** A format that is one directive from end to end. */
  lemma OneDirective(fmt: string, args: nat -> Slot)
    requires |fmt| > 1 && fmt[0] == '%' && fmt[1] != '%' && DirectiveAt(fmt, 1, args, 0).end == |fmt|
    ensures Complete(fmt, 0, args, 0)
    ensures var d := DirectiveAt(fmt, 1, args, 0);
            Text(Plan(fmt, 0, args, 0, 0)) == Text(DirectiveEvents(fmt, d, args(d.next), 0))
  {
    hide DirectiveAt, DirectiveEvents, Text;
    var p := PieceAt(fmt, 0, args, 0, 0);
    assert fmt[0..|fmt|] == fmt;
    assert Plan(fmt, p.end, args, p.next, |Text(p.events)|) == [];
    assert p.events + [] == p.events;
  }

  /** "%0*d" of the width -5 and the number -42 prints "42  ". */
  lemma ZeroWithNegativeStar(args: nat -> Slot)
    requires Signed(args(0).bits, TWO32) == -5 && Signed(args(1).bits, TWO32) == -42
    ensures Complete("%0*d", 0, args, 0) && Text(Plan("%0*d", 0, args, 0, 0)) == "42  "
  {
    var fmt := "%0*d";
    var zero := NO_FLAGS.(zero := true);
    assert FlagsAt(fmt, 2, zero) == (zero, 2) && FlagsAt(fmt, 1, NO_FLAGS) == (zero, 2);
    assert CountAt(fmt, 2, args, 0) == (-5, 3, 1) && LengthAt(fmt, 3) == (LenInt, 3);
    var d := Directive(Flags(true, false, false, false, true), 5, false, 0, LenInt, 'd', 4, 1);
    assert DirectiveAt(fmt, 1, args, 0) == d;
    OneDirective(fmt, args);
    FortyTwo();
    NumberText(Layout(true, true, 5, 0, "-", "", "42", false));
  }

  lemma FortyTwo()
    ensures Numeral(42, 10, false) == "42"
  {
    assert Numeral(4, 10, false) == "4";
  }

  /** A string field: its width, or what the precision leaves of the string if that is more. */
  lemma StringLength(source: string, d: Directive, arg: Slot, sent: nat)
    requires d.conv == 's'
    ensures var kept := if d.dot then Min(d.prec, |arg.text|) else |arg.text|;
            var pad := Spaces(d.width - kept);
            && |Text(DirectiveEvents(source, d, arg, sent))| == Max(d.width, kept)
            && Text(DirectiveEvents(source, d, arg, sent)) ==
               (if d.flags.left then "" else pad) + arg.text[..kept] + (if d.flags.left then pad else "")
  {
    hide Text, FieldEvents, Opt, Fill;
    var s := StringOf(d, arg);
    assert s == arg.text[..|s|];
    OptText(s);
    FieldText(d.flags.left, d.width, Opt(s), |s|);
  }

  lemma CharLength(source: string, d: Directive, arg: Slot, sent: nat)
    requires d.conv == 'c'
    ensures |Text(DirectiveEvents(source, d, arg, sent))| == Max(d.width, 1)
    ensures var pad := Spaces(d.width - 1);
            Text(DirectiveEvents(source, d, arg, sent)) ==
            (if d.flags.left then "" else pad) + [(arg.bits % TWO8) as char] + (if d.flags.left then pad else "")
  {
    OneText(CharOf(arg));
    FieldText(d.flags.left, d.width, [Out(CharOf(arg))], 1);
  }

  lemma FieldText(left: bool, width: nat, text: seq<Event>, len: nat)
    requires |Text(text)| == len
    ensures var pad := Spaces(width - len);
            Text(FieldEvents(left, width, text, len)) ==
            (if left then "" else pad) + Text(text) + (if left then pad else "")
  {
    hide Pad, Text;
    var pad := Pad(' ', width - len);
    PadLength(' ', width - len);
    NoText();
    TextConcat(if left then [] else pad, text + (if left then pad else []));
    TextConcat(text, if left then pad else []);
  }

  // ---- reading numbers back -------------------------------------------------------------------

  function SkipSpaces(s: string): string {
    if s != "" && s[0] == ' ' then SkipSpaces(s[1..]) else s
  }

  /** The longest prefix of digits. */
  function TakeDigits(s: string, base: nat): (r: string)
    ensures AllDigits(r, base)
  {
    if s != "" && IsDigit(s[0], base) then [s[0]] + TakeDigits(s[1..], base) else ""
  }

  function StripPrefix(s: string): string {
    if |s| >= 2 && s[0] == '0' && (s[1] == 'x' || s[1] == 'X') then s[2..] else s
  }

  predicate HasSign(s: string) { s != "" && (s[0] == '-' || s[0] == '+') }

  /** The number a text shows: after spaces, a sign and a hexadecimal prefix, its digits up to the first
      other character. */
  function ReadBack(s: string, base: nat): Option<int> {
    var t := SkipSpaces(s);
    var digits := TakeDigits(StripPrefix(if HasSign(t) then t[1..] else t), base);
    if digits == "" then None
    else Some(WithSign(t[0] == '-', Denotes(digits, base)))
  }

  function WithSign(negative: bool, n: nat): int { if negative then 0 - n else n }

  lemma {:induction false} SkipsFill(n: nat, s: string)
    ensures SkipSpaces(Fill(' ', n) + s) == SkipSpaces(s)
  {
    if n == 0 {
      assert Fill(' ', n) + s == s;
    } else {
      assert (Fill(' ', n) + s)[1..] == Fill(' ', n - 1) + s;
      SkipsFill(n - 1, s);
    }
  }

  lemma {:induction false} TakesAll(a: string, b: string, base: nat)
    requires AllDigits(a, base) && (b == "" || !IsDigit(b[0], base))
    ensures TakeDigits(a + b, base) == a
  {
    if a == "" {
      assert a + b == b;
    } else {
      assert (a + b)[1..] == a[1..] + b;
      TakesAll(a[1..], b, base);
    }
  }

  lemma {:induction false} ZerosDenote(n: nat, base: nat)
    requires base >= 2
    ensures AllDigits(Fill('0', n), base) && Denotes(Fill('0', n), base) == 0
  {
    if n > 0 {
      assert Fill('0', n)[..n - 1] == Fill('0', n - 1);
      ZerosDenote(n - 1, base);
    }
  }

  /** Zeros, digits and then spaces read as the number the digits denote. */
  lemma ReadDigits(n: nat, digits: string, m: nat, base: nat)
    requires 2 <= base <= 16 && AllDigits(digits, base)
    ensures var all := Fill('0', n) + digits;
            && TakeDigits(StripPrefix(all + Fill(' ', m)), base) == all
            && AllDigits(all, base) && Denotes(all, base) == Denotes(digits, base)
  {
    hide Denotes;
    var all, s := Fill('0', n) + digits, Fill('0', n) + digits + Fill(' ', m);
    ZerosDenote(n, base);
    DenotesConcat(Fill('0', n), digits, base);
    assert StripPrefix(s) == s by {
      if |s| >= 2 { assert s[1] == ' ' || IsDigit(s[1], base) by { if |all| > 1 { assert s[1] == all[1]; } } }
    }
    TakesAll(all, Fill(' ', m), base);
  }

  /** Reading back a number in its normal form. */
  lemma ReadForm(a: nat, sign: string, prefix: string, n: nat, digits: string, m: nat, base: nat)
    requires 2 <= base <= 16 && AllDigits(digits, base)
    requires sign == "" || sign == "-" || sign == "+" || sign == " "
    requires prefix == "" || prefix == "0x" || prefix == "0X"
    requires digits == "" && n == 0 ==> prefix == ""
    ensures ReadBack(Fill(' ', a) + (sign + (prefix + (Fill('0', n) + digits + Fill(' ', m)))), base) ==
            if digits == "" && n == 0 then None
            else Some(WithSign(sign == "-", Denotes(digits, base)))
  {
    hide Denotes, TakeDigits;
    var core := Fill('0', n) + digits + Fill(' ', m);
    var body := prefix + core;
    SkipsFill(a, sign + body);
    ReadDigits(n, digits, m, base);
    PrefixStripped(prefix, n, digits, m, base);
    if digits == "" && n == 0 {
      AllSpaces(sign, m, base);
    } else {
      Starts(prefix, n, digits, m, base);
      SignRead(sign, body);
    }
  }

  lemma PrefixStripped(prefix: string, n: nat, digits: string, m: nat, base: nat)
    requires 2 <= base <= 16 && AllDigits(digits, base)
    requires prefix == "" || prefix == "0x" || prefix == "0X"
    ensures var core := Fill('0', n) + digits + Fill(' ', m);
            TakeDigits(StripPrefix(prefix + core), base) == Fill('0', n) + digits
  {
    hide Denotes, TakeDigits;
    var core := Fill('0', n) + digits + Fill(' ', m);
    ReadDigits(n, digits, m, base);
    if prefix == "" {
      assert prefix + core == core;
    } else {
      assert (prefix + core)[2..] == core;
      assert Fill('0', n) + digits + Fill(' ', m) == (Fill('0', n) + digits) + Fill(' ', m);
      ZerosDenote(n, base);
      TakesAll(Fill('0', n) + digits, Fill(' ', m), base);
    }
  }

  /** The first character after the sign is a digit. */
  lemma Starts(prefix: string, n: nat, digits: string, m: nat, base: nat)
    requires 2 <= base <= 16 && AllDigits(digits, base) && (n > 0 || digits != "")
    requires prefix == "" || prefix == "0x" || prefix == "0X"
    ensures var body := prefix + (Fill('0', n) + digits + Fill(' ', m));
            body != "" && IsDigit(body[0], 16) && body[0] != ' ' && !HasSign(body)
  {
    var core := Fill('0', n) + digits + Fill(' ', m);
    if prefix == "" {
      assert core[0] == if n > 0 then '0' else digits[0];
      if n == 0 { assert IsDigit(digits[0], base); }
    }
  }

  lemma SignRead(sign: string, body: string)
    requires sign == "" || sign == "-" || sign == "+" || sign == " "
    requires body != "" && body[0] != ' ' && !HasSign(body)
    ensures var t := SkipSpaces(sign + body);
            && t != "" && (if HasSign(t) then t[1..] else t) == body
            && (t[0] == '-' <==> sign == "-")
  {
    if sign == "" {
      assert sign + body == body;
    } else {
      assert (sign + body)[1..] == body;
    }
  }

  /** Nothing but a sign and spaces shows no number. */
  lemma AllSpaces(sign: string, m: nat, base: nat)
    requires sign == "" || sign == "-" || sign == "+" || sign == " "
    ensures var t := SkipSpaces(sign + ("" + (Fill('0', 0) + "" + Fill(' ', m))));
            TakeDigits(StripPrefix(if HasSign(t) then t[1..] else t), base) == ""
  {
    var s := Fill(' ', m);
    assert "" + (Fill('0', 0) + "" + s) == s;
    SkipsFill(m, "");
    assert s + "" == s;
    if sign == "" {
      assert sign + s == s;
    } else {
      assert (sign + s)[1..] == s;
    }
    TakesAll("", s, base);
    assert "" + s == s;
  }

  /** A printed number reads back as the argument exactly unless its minus sign is missing (`0` with a
      negative star width), or it is a zero with precision zero printed as a space with no zeros
      before it. */
  lemma ParseBack(source: string, d: Directive, arg: Slot, sent: nat)
    requires IsNumber(d.conv)
    ensures var v, f := ValueOf(d, arg), LayoutOf(d, arg);
            var lostSign := d.flags.zero && d.flags.left && v < 0;
            var lostZero := d.dot && d.prec == 0 && v == 0 &&
                            !(d.flags.zero && !d.flags.left && d.width > Core(f));
            ReadBack(Text(DirectiveEvents(source, d, arg, sent)), Base(d.conv)) == Some(v)
            <==> !lostSign && !lostZero
  {
    hide Numeral, NumberEvents, ReadBack, ValueOf, Text, Denotes;
    var v, f, base := ValueOf(d, arg), LayoutOf(d, arg), Base(d.conv);
    NumeralDenotes(Abs(v), base, d.conv == 'X');
    if f.blank { OneDigit(0, base, d.conv == 'X'); }
    ValueSign(d, arg);
    NormalForm(f, v, base);
  }

  lemma ValueSign(d: Directive, arg: Slot)
    ensures !IsSigned(d.conv) ==> ValueOf(d, arg) >= 0
  {}

  predicate Printable(f: Layout, v: int, base: nat) {
    && 2 <= base <= 16 && AllDigits(f.digits, base) && f.digits != "" && Denotes(f.digits, base) == Abs(v)
    && (f.sign == "" || f.sign == "-" || f.sign == "+" || f.sign == " ") && (v < 0 <==> f.sign == "-")
    && (f.prefix == "" || f.prefix == "0x" || f.prefix == "0X" || f.prefix == "0")
    && (f.blank ==> |f.digits| == 1 && f.prec == 0 && f.prefix == "" && v == 0)
  }

  lemma NormalForm(f: Layout, v: int, base: nat)
    requires Printable(f, v, base)
    ensures ReadBack(Text(NumberEvents(f)), base) ==
            if f.blank && !(f.zero && !f.left && f.width > Core(f)) then None
            else Some(if ShowsHead(f) then v else Abs(v))
  {
    hide NumberEvents, ReadBack, Text, Denotes, AllDigits;
    var gap := f.width - Core(f);
    NumberText(f);
    var sign, prefix := if ShowsHead(f) then f.sign else "", if ShowsHead(f) then f.prefix else "";
    var a := if f.left || f.zero then 0 else Max(gap, 0);
    var z := if f.zero && !f.left then Max(gap, 0) else 0;
    var n := z + Max(f.prec - |f.digits|, 0) + if prefix == "0" then 1 else 0;
    var m := (if f.blank then 1 else 0) + if f.left then Max(gap, 0) else 0;
    var shown := if prefix == "0" then "" else prefix;
    var digits := if f.blank then "" else f.digits;
    assert Denotes("", base) == 0 && AllDigits("", base) by { NoDigits(base); }
    ReadForm(a, sign, shown, n, digits, m, base);
    TailForm(prefix, z, Max(f.prec - |f.digits|, 0), f.blank, f.digits, if f.left then Max(gap, 0) else 0);
    assert Fill('0', 0) == "" && Fill(' ', 0) == "";
  }

  /** Prefix, zeros and digits in the form that is read back. */
  lemma TailForm(prefix: string, z: nat, y: nat, blank: bool, digits: string, b: nat)
    ensures var n := z + y + if prefix == "0" then 1 else 0;
            prefix + (Fill('0', z) + (Fill('0', y) + ((if blank then " " else digits) + Fill(' ', b)))) ==
            (if prefix == "0" then "" else prefix) +
            (Fill('0', n) + (if blank then "" else digits) + Fill(' ', (if blank then 1 else 0) + b))
  {
    hide Fill;
    FillJoin('0', z, y);
    FillJoin('0', 1, z + y);
    FillJoin(' ', 1, b);
    FillOne('0');
    FillOne(' ');
    var d := if blank then "" else digits;
    var e := Fill(' ', (if blank then 1 else 0) + b);
    assert (if blank then " " else digits) + Fill(' ', b) == d + e;
    var zy := Fill('0', z + y);
    assert Fill('0', z) + (Fill('0', y) + (d + e)) == zy + (d + e);
    assert zy + (d + e) == zy + d + e;
    if prefix == "0" {
      assert "0" + (zy + d + e) == ("0" + zy) + d + e;
      assert "" + (Fill('0', 1 + (z + y)) + d + e) == Fill('0', 1 + (z + y)) + d + e;
    }
  }

  lemma FillJoin(c: char, x: nat, y: nat)
    ensures Fill(c, x) + Fill(c, y) == Fill(c, x + y)
  {}

  lemma FillOne(c: char)
    ensures Fill(c, 1) == [c]
  {}

  lemma NoDigits(base: nat)
    ensures AllDigits("", base) && Denotes("", base) == 0
  {}

  // ---- the callback ---------------------------------------------------------------------------

  /** The callback takes the j-th event whole, if it is a text, after those before it. */
  predicate Taken(accept: Callback, trace: seq<Event>, events: seq<Event>, j: nat)
    requires j < |events|
  {
    events[j].Out? ==> accept(trace + events[..j], events[j].text) == |events[j].text|
  }

  /** Everything up to and including the first text cut short is carried out, and nothing after it. */
  lemma {:induction false} PlayStopsAtFirst(accept: Callback, trace: seq<Event>, events: seq<Event>) returns (n: nat)
    ensures n <= |events|
    ensures Play(accept, trace, events) == (trace + events[..n], n == 0 || Taken(accept, trace, events, n - 1))
    ensures forall j: nat | j < n - 1 :: Taken(accept, trace, events, j)
    ensures n < |events| ==> n > 0 && !Taken(accept, trace, events, n - 1)
    ensures Play(accept, trace, events).1 ==> n == |events|
    decreases |events|
  {
    if events == [] {
      n := 0;
      assert trace + events[..0] == trace;
    } else {
      var e, rest := events[0], events[1..];
      assert trace + events[..0] == trace && events[..1] == [e];
      if !Taken(accept, trace, events, 0) {
        n := 1;
      } else {
        var r := PlayStopsAtFirst(accept, trace + [e], rest);
        n := r + 1;
        forall j: nat | j < |rest| ensures trace + [e] + rest[..j] == trace + events[..j + 1] {
          assert [e] + rest[..j] == events[..j + 1];
        }
        assert trace + [e] + rest[..r] == trace + events[..n] by { assert [e] + rest[..r] == events[..n]; }
        assert forall j: nat | j < |rest| ::
          Taken(accept, trace + [e], rest, j) <==> Taken(accept, trace, events, j + 1);
        forall j: nat | j < n - 1 ensures Taken(accept, trace, events, j) {
          if j > 0 { assert Taken(accept, trace + [e], rest, j - 1); }
        }
      }
    }
  }

  /** A callback that takes everything gets everything, in order. */
  lemma TakenWhole(accept: Callback, trace: seq<Event>, events: seq<Event>)
    requires forall t, s :: accept(t, s) == |s|
    ensures Play(accept, trace, events) == (trace + events, true)
  {
    var n := PlayStopsAtFirst(accept, trace, events);
    assert events[..|events|] == events;
  }
}
