/** The log ring of kernel/log/printk.cc against everything ever logged. */
module LogRing {
  import opened Arithmetic
  import opened Sequences
  import opened FormatSpec
  import opened FormatFacts
  import Format

  /** What is read from `start` to `stop` around a buffer. */
  function Around(data: string, start: nat, stop: nat): string
    requires start < |data| && stop < |data|
  {
    if start <= stop then data[start..stop] else data[start..] + data[..stop]
  }

  class Ring {
    const data: array<char>
    var first: nat      // out
    var last: nat       // in
    ghost var history: string

    ghost predicate Valid()
      reads this, data
    {
      && data.Length > 0 && first < data.Length && last < data.Length
      && Around(data[..], first, last) == Last(history, data.Length - 1)
    }

    /** init_printk, with a buffer of `size` characters. */
    constructor (size: nat)
      requires size > 0
      ensures Valid() && history == "" && fresh(data) && data.Length == size
    {
      data := new char[size](i => '\0');
      first, last, history := 0, 0, "";
    }

    /** The body of the loop of emit. */
    method EmitOne(c: char)
      requires Valid()
      modifies this, data
      ensures Valid() && history == old(history) + [c]
    {
      hide Around, Last;
      ghost var before, len := data[..], data.Length;
      data[last] := c;
      last := last + 1;
      if last >= data.Length {
        last := 0;
      }
      if first == last {
        first := first + 1;
        if first >= data.Length {
          first := 0;
        }
      }
      history := history + [c];
      assert data[..] == before[old(last) := c];
      Shift(before, old(first), old(last), c);
      LastGrows(old(history), c, len - 1);
    }

    /** emit: never refuses a character; reading from first to last always gives the end of the history. */
    method Emit(s: string) returns (taken: nat)
      requires Valid()
      modifies this, data
      ensures Valid() && history == old(history) + s && taken == |s|
    {
      hide Around, Last, Valid;
      var i := 0;
      while i < |s|
        invariant 0 <= i <= |s| && Valid() && history == old(history) + s[..i]
      {
        EmitOne(s[i]);
        assert s[..i + 1] == s[..i] + [s[i]];
        i := i + 1;
      }
      assert s[..|s|] == s;
      taken := |s|;
    }
  }

  /** Writing one character around the buffer appends it, and drops the oldest if the buffer was full. */
  lemma Shift(data: string, first: nat, last: nat, c: char)
    requires first < |data| && last < |data|
    ensures var n := |data|;
            var stop := if last + 1 >= n then 0 else last + 1;
            var start := if first == stop then (if first + 1 >= n then 0 else first + 1) else first;
            var all := Around(data, first, last) + [c];
            Around(data[last := c], start, stop) == Last(all, n - 1)
  {
    if |data| == 1 {
    } else if first <= last {
      ShiftPlain(data, first, last, c);
    } else {
      ShiftSplit(data, first, last, c);
    }
  }

  /** What is read lies in one piece, and behind it there is room. */
  lemma ShiftPlain(data: string, first: nat, last: nat, c: char)
    requires first <= last < |data| && |data| >= 2
    ensures var n, d, all := |data|, data[last := c], data[first..last] + [c];
            && (last + 1 < n ==> d[first..last + 1] == all && |all| < n)
            && (last + 1 == n && first > 0 ==> d[first..] + d[..0] == all && |all| < n)
            && (last + 1 == n && first == 0 ==> d[1..] + d[..0] == all[1..] && |all| == n)
  {
    var n, d, all := |data|, data[last := c], data[first..last] + [c];
    if last + 1 < n {
      assert d[first..last + 1] == all;
    } else if first > 0 {
      assert d[first..] + d[..0] == all;
    } else {
      assert d[1..] + d[..0] == all[1..];
    }
  }

  /** What is read goes around the end of the buffer. */
  lemma ShiftSplit(data: string, first: nat, last: nat, c: char)
    requires last < first < |data|
    ensures var n, d, all := |data|, data[last := c], data[first..] + data[..last] + [c];
            && (first > last + 1 ==> d[first..] + d[..last + 1] == all && |all| < n)
            && (first == last + 1 ==> |all| == n && d[..last + 1] == all[n - first..])
            && (first == last + 1 && first + 1 < n ==> d[first + 1..] + d[..last + 1] == all[1..])
  {
    var n, d, all := |data|, data[last := c], data[first..] + data[..last] + [c];
    if first > last + 1 {
      assert d[first..] + d[..last + 1] == all;
    } else {
      assert d[..last + 1] == all[n - first..];
      if first + 1 < n { assert d[first + 1..] + d[..last + 1] == all[1..]; }
    }
  }

  lemma LastGrows(s: string, c: char, n: nat)
    ensures Last(Last(s, n) + [c], n) == Last(s + [c], n)
  {}

  /** What a run of emit calls leaves to be read. */
  function Flat(texts: seq<string>): string {
    if texts == [] then "" else texts[0] + Flat(texts[1..])
  }

  method EmitAll(ring: Ring, texts: seq<string>)
    requires ring.Valid()
    modifies ring, ring.data
    ensures ring.Valid() && ring.history == old(ring.history) + Flat(texts)
    ensures Around(ring.data[..], ring.first, ring.last) ==
            Last(old(ring.history) + Flat(texts), ring.data.Length - 1)
  {
    hide Around, Last;
    var i := 0;
    while i < |texts|
      invariant 0 <= i <= |texts| && ring.Valid()
      invariant ring.history + Flat(texts[i..]) == old(ring.history) + Flat(texts)
    {
      var taken := ring.Emit(texts[i]);
      assert texts[i..][1..] == texts[i + 1..];
      i := i + 1;
    }
  }

  /** The texts a formatter hands over. */
  function Texts(events: seq<Event>): seq<string> {
    if events == [] then [] else (if events[0].Out? then [events[0].text] else []) + Texts(events[1..])
  }

  lemma {:induction false} FlatTexts(events: seq<Event>)
    ensures Flat(Texts(events)) == Text(events)
  {
    if events != [] {
      FlatTexts(events[1..]);
      var t := Texts(events[1..]);
      if events[0].Out? { assert ([events[0].text] + t)[1..] == t; } else { assert [] + t == t; }
    }
  }

  /** printk: since emit takes all it is given, the whole plan of the format is carried out, and the log
      then ends in its text, as far as the ring reaches. */
  method Printk(ring: Ring, fmt: string, args: nat -> Slot) returns (rc: int)
    requires ring.Valid() && '\0' !in fmt && Complete(fmt, 0, args, 0)
    modifies ring, ring.data
    ensures ring.Valid()
    ensures var text := Text(Plan(fmt, 0, args, 0, 0));
            && rc == Signed(|text|, TWO32)
            && ring.history == old(ring.history) + text
  {
    var printer := new Format.Printer((t, s: string) => |s|);
    TakenWhole(printer.accept, [], Plan(fmt, 0, args, 0, 0));
    rc := printer.Print(fmt, args);
    assert printer.trace == Plan(fmt, 0, args, 0, 0);
    FlatTexts(printer.trace);
    var texts := Texts(printer.trace);
    EmitAll(ring, texts);
  }
}
