/** kernel/memory/physmm.cc as it runs: a bitmap of 32-bit words updated in place and the counter
    beside it, each method proved against the functions of module Frames. */
module FrameAllocator {
  import opened Arithmetic
  import opened BitWords
  import opened Frames

  /** The n low bits of a word, lowest first. */
  function WordBits(w: nat, n: nat): (bits: seq<bool>)
    ensures |bits| == n
  {
    if n == 0 then [] else [w % 2 == 1] + WordBits(w / 2, n - 1)
  }

  function BitsOf(words: seq<Word>): (bits: seq<bool>)
    ensures |bits| == 32 * |words|
  {
    if words == [] then [] else WordBits(words[0], 32) + BitsOf(words[1..])
  }

  lemma {:induction false} WordBitsAt(w: nat, n: nat, b: nat)
    requires b < n
    ensures WordBits(w, n)[b] == Bit(w, b)
  {
    if b > 0 { WordBitsAt(w / 2, n - 1, b - 1); }
  }

  lemma {:induction false} BitsOfAt(words: seq<Word>, k: nat)
    requires k < 32 * |words|
    ensures BitsOf(words)[k] == Bit(words[k / 32], k % 32)
  {
    if k < 32 {
      WordBitsAt(words[0], 32, k);
    } else {
      BitsOfAt(words[1..], k - 32);
      assert (k - 32) / 32 == k / 32 - 1 && (k - 32) % 32 == k % 32;
    }
  }

  lemma WriteBit(words: seq<Word>, k: nat, w: Word, b: bool)
    requires k < 32 * |words|
    requires w == if b then Set(words[k / 32], k % 32) else Clear(words[k / 32], k % 32)
    ensures BitsOf(words[k / 32 := w]) == BitsOf(words)[k := b]
  {
    var after, before := BitsOf(words[k / 32 := w]), BitsOf(words);
    forall j | 0 <= j < |after| ensures after[j] == before[k := b][j] {
      BitsOfAt(words, j);
      BitsOfAt(words[k / 32 := w], j);
      if j / 32 == k / 32 {
        SetBit(words[k / 32], k % 32, j % 32);
        ClearBit(words[k / 32], k % 32, j % 32);
      }
    }
  }

  lemma SetWord(w: Word, b: nat)
    requires b < 32
    ensures Set(w, b) <= FULL && Clear(w, b) <= FULL
  {
    Ones32();
    StaysInWord(w, b, 32);
  }

  /** The physical frame a pointer stands for, as the two free functions read it. */
  function Frame(ptr: nat, base: nat): nat {
    (if ptr >= base then ptr - base else ptr) / PAGE
  }

  /** A pointer anywhere into frame k as the linear map shows it, or into it by its physical address if that
      lies below the linear map, stands for frame k. */
  lemma FrameOf(k: nat, offset: nat, base: nat)
    requires offset < PAGE
    ensures Frame(base + PAGE * k + offset, base) == k
    ensures PAGE * k + offset < base ==> Frame(PAGE * k + offset, base) == k
  {
    DivModIs(PAGE * k + offset, PAGE, k, offset);
  }

  class Allocator {
    const data: array<Word>
    const edge: bool
    var used: int
    var base: nat

    ghost function Abs(): Map
      reads this, data
    {
      Map(BitsOf(data[..]), used)
    }

    ghost predicate Valid()
      reads this, data
    {
      Ok(Abs())
    }

    /** A bitmap with frame 0 taken, as init leaves it, and the counter that goes with it. */
    constructor (words: array<Word>, count: int, past: bool)
      requires Ok(Map(BitsOf(words[..]), count))
      ensures Valid() && Abs() == Map(BitsOf(words[..]), count)
      ensures data == words && edge == past && base == 0
    {
      data := words;
      used := count;
      edge := past;
      base := 0;
    }

    method SetPhysicalBaseOffset(offset: nat)
      requires Valid()
      modifies this`base
      ensures Valid() && Abs() == old(Abs()) && base == offset
    {
      base := offset;
    }

    method FreePageCount() returns (n: int)
      requires Valid()
      ensures n == FreeCount(Abs()) && 0 <= n < TWO32
    {
      n := data.Length * 4 * 8 - used;
    }

    method PeekUsed(bit: nat) returns (b: bool)
      ensures b == Peek(BitsOf(data[..]), edge, bit)
    {
      if bit > data.Length * 4 * 8 {
        return true;
      }
      if bit == data.Length * 4 * 8 {
        return edge;
      }
      BitsOfAt(data[..], bit);
      b := Bit(data[bit / 32], bit % 32);
    }

    method MarkUsedBit(bit: nat)
      modifies this`used, data
      ensures Abs() == MarkUsed(old(Abs()), bit)
    {
      if bit < data.Length * 4 * 8 {
        var b := PeekUsed(bit);
        if !b {
          ghost var was := data[..];
          SetWord(data[bit / 32], bit % 32);
          data[bit / 32] := Set(data[bit / 32], bit % 32);
          assert data[..] == was[bit / 32 := data[bit / 32]];
          WriteBit(was, bit, data[bit / 32], true);
          used := used + 1;
        }
      }
    }

    method MarkFreeBit(bit: nat)
      modifies this`used, data
      ensures Abs() == MarkFree(old(Abs()), bit)
    {
      if bit < data.Length * 4 * 8 {
        var b := PeekUsed(bit);
        if b {
          ghost var was := data[..];
          SetWord(data[bit / 32], bit % 32);
          data[bit / 32] := Clear(data[bit / 32], bit % 32);
          assert data[..] == was[bit / 32 := data[bit / 32]];
          WriteBit(was, bit, data[bit / 32], false);
          used := used - 1;
        }
      }
    }

    method MarkUsedPages(addr: nat, length: nat)
      modifies this`used, data
      ensures Abs() == MarkUsedRange(old(Abs()), addr / PAGE, length / PAGE)
    {
      var bit := addr / PAGE;
      var len := length / PAGE;
      while len > 0
        invariant bit >= 0 && len >= 0
        invariant MarkUsedRange(Abs(), bit, len) == MarkUsedRange(old(Abs()), addr / PAGE, length / PAGE)
      {
        MarkUsedBit(bit);
        bit := bit + 1;
        len := len - 1;
      }
    }

    method MarkFreePages(addr: nat, length: nat)
      modifies this`used, data
      ensures Abs() == MarkFreeRange(old(Abs()), addr / PAGE, length / PAGE)
    {
      var bit := addr / PAGE;
      var len := length / PAGE;
      while len > 0
        invariant bit >= 0 && len >= 0
        invariant MarkFreeRange(Abs(), bit, len) == MarkFreeRange(old(Abs()), addr / PAGE, length / PAGE)
      {
        MarkFreeBit(bit);
        bit := bit + 1;
        len := len - 1;
      }
    }

    method SearchFirstFree() returns (addr: nat)
      ensures addr == PAGE * FirstFit(BitsOf(data[..]), true, 1)
    {
      ghost var bits := BitsOf(data[..]);
      var i := 0;
      while i < data.Length
        invariant 0 <= i <= data.Length
        invariant forall j: nat | j < 32 * i :: !FreeRun(bits, true, j, 1)
      {
        if data[i] != FULL {
          var bit := 0;
          while bit < 32
            invariant 0 <= bit <= 32
            invariant forall j: nat | j < 32 * i + bit :: !FreeRun(bits, true, j, 1)
          {
            var b := PeekUsed(i * 32 + bit);
            if !b {
              assert IsFirstFit(bits, true, 1, i * 32 + bit);
              FirstFitUnique(bits, true, 1, i * 32 + bit);
              return (i * 32 + bit) * PAGE;
            }
            assert Peek(bits, true, i * 32 + bit);
            bit := bit + 1;
          }
        } else {
          FullWordHasNoFit(data[..], true, i, 1);
        }
        i := i + 1;
      }
      addr := 0;
    }

    /** The word-skipping search finds the lowest run of num free frames, exactly where the naive
        bit-by-bit search would, and answers 0 when there is none. */
    method SearchFirstFreeRange(num: nat) returns (addr: nat)
      ensures num == 0 ==> addr == 0
      ensures num == 1 ==> addr == PAGE * FirstFit(BitsOf(data[..]), true, 1)
      ensures num >= 2 ==> addr == PAGE * FirstFit(BitsOf(data[..]), edge, num)
    {
      if num <= 1 {
        if num == 0 {
          return 0;
        }
        addr := SearchFirstFree();
        return;
      }
      ghost var bits := BitsOf(data[..]);
      var i := 0;
      while i < data.Length
        invariant 0 <= i <= data.Length
        invariant forall j: nat | j < 32 * i :: !FreeRun(bits, edge, j, num)
      {
        if data[i] != FULL {
          var bit := 0;
          while bit < 32
            invariant 0 <= bit <= 32
            invariant forall j: nat | j < 32 * i + bit :: !FreeRun(bits, edge, j, num)
          {
            var b := PeekUsed(i * 32 + bit);
            if !b {
              var match' := true;
              var n := 1;
              while n < num
                invariant 1 <= n <= num
                invariant match'
                invariant FreeRun(bits, edge, i * 32 + bit, n)
              {
                var c := PeekUsed(i * 32 + (bit + n));
                if c {
                  match' := false;
                  break;
                }
                n := n + 1;
              }
              if match' {
                assert IsFirstFit(bits, edge, num, i * 32 + bit);
                FirstFitUnique(bits, edge, num, i * 32 + bit);
                return (i * 32 + bit) * PAGE;
              }
            } else {
              assert Peek(bits, edge, i * 32 + bit);
            }
            bit := bit + 1;
          }
        } else {
          FullWordHasNoFit(data[..], edge, i, num);
        }
        i := i + 1;
      }
      FirstFitNone(bits, edge, num);
      addr := 0;
    }

    method AllocatePage() returns (ptr: nat)
      requires Valid()
      modifies this`used, data
      ensures var (r, k) := AllocPage(old(Abs()));
              Abs() == r && ptr == (if k == 0 then 0 else PAGE * k + base)
    {
      var n := FreePageCount();
      if n == 0 {
        return 0;
      }
      var addr := SearchFirstFree();
      if addr == 0 {
        return 0;
      }
      ghost var k := addr / PAGE;
      assert addr == PAGE * k;
      MarkUsedPages(addr, PAGE);
      assert MarkUsedRange(old(Abs()), k, 1) == MarkUsedRange(MarkUsed(old(Abs()), k), k + 1, 0);
      ptr := addr + base;
    }

    method AllocatePageRange(count: nat) returns (ptr: nat)
      requires Valid() && count < TWO32
      modifies this`used, data
      ensures var (r, k) := AllocRange(old(Abs()), edge, count);
              Abs() == r && ptr == (if k == 0 then 0 else PAGE * k + base)
    {
      hide Ok, Valid, FirstFit;
      if count <= 1 {
        ptr := AllocatePage();
        return;
      }
      var n := FreePageCount();
      if count < 1 || n < count {
        return 0;
      }
      var addr := SearchFirstFreeRange(count);
      if addr == 0 {
        return 0;
      }
      ghost var k := addr / PAGE;
      assert Product32(count) / PAGE == count % TWO20 by { Product32Pages(count); }
      MarkUsedPages(addr, Product32(count));
      ptr := addr + base;
    }

    method ReleasePage(ptr: nat)
      requires Valid()
      modifies this`used, data
      ensures Valid() && Abs() == FreePage(old(Abs()), Frame(ptr, base))
    {
      var addr := ptr;
      if addr >= base {
        addr := addr - base;
      }
      var bit := addr / PAGE;
      assert bit == Frame(ptr, base);
      ghost var m := Abs();
      assert Ok(FreePage(m, bit)) by { FreeKeepsOk(m, bit, 1); }
      if addr < PAGE {
        return;
      }
      GuardPassesInside(bit, data.Length);
      if bit / 32 + bit % 32 > data.Length * 4 * 8 {
        return;
      }
      MarkFreePages(addr, PAGE);
      assert MarkFreeRange(m, bit, 1) == MarkFreeRange(MarkFree(m, bit), bit + 1, 0);
    }

    /** The guard loop of free_page_range compares a quotient plus a remainder with the size of the
        map; it gives up only frames that lie past the map. */
    method ClampCount(addr: nat, num: nat) returns (count: nat)
      requires 0 < num < TWO32 && data.Length > 0
      ensures count <= num
      ensures var k, all := addr / PAGE, num % TWO20;
              k < data.Length * 32 ==>
                count % TWO20 <= all && (count % TWO20 == all || k + count % TWO20 >= data.Length * 32)
    {
      ghost var k, all := addr / PAGE, num % TWO20;
      count := num;
      while true
        invariant 0 < count <= num
        invariant k < data.Length * 32 ==>
                    count % TWO20 <= all && (count % TWO20 == all || k + count % TWO20 >= data.Length * 32)
        decreases count
      {
        var endAddr := addr + Product32(count);
        EndPage(addr, count);
        GuardPassesInside(endAddr / PAGE, data.Length);
        if endAddr / PAGE / 32 + endAddr / PAGE % 32 < data.Length * 4 * 8 {
          break;
        }
        StepDown(count);
        count := count - 1;
        if count == 0 {
          break;
        }
      }
    }

    method ReleasePageRange(ptr: nat, num: nat)
      requires Valid() && num < TWO32
      modifies this`used, data
      ensures Valid() && Abs() == FreeRange(old(Abs()), Frame(ptr, base), num)
    {
      var addr := ptr;
      if addr >= base {
        addr := addr - base;
      }
      ghost var k := addr / PAGE;
      ghost var m := Abs();
      assert Ok(FreeRange(m, k, num)) by { FreeKeepsOk(m, k, num); }
      if addr < PAGE {
        return;
      }
      var count := num;
      if count < 1 {
        count := 1;
      }
      count := ClampCount(addr, count);
      assert MarkFreeRange(m, k, count % TWO20) == FreeRange(m, k, num) by { ClampedFree(m, k, num, count); }
      if count > 0 {
        var len := Product32(count);
        assert len / PAGE == count % TWO20 by { Product32Pages(count); }
        MarkFreePages(addr, len);
      }
    }
  }

  lemma ClampedFree(m: Map, k: nat, num: nat, count: nat)
    requires Ok(m) && k > 0
    requires var all := (if num == 0 then 1 else num) % TWO20;
             k < |m.bits| ==>
               count % TWO20 <= all && (count % TWO20 == all || k + count % TWO20 >= |m.bits|)
    ensures MarkFreeRange(m, k, count % TWO20) == FreeRange(m, k, num)
  {
    SameFree(m, k, count % TWO20, (if num == 0 then 1 else num) % TWO20);
  }

  lemma StepDown(count: nat)
    requires count > 0
    ensures count % TWO20 > 0 ==> (count - 1) % TWO20 == count % TWO20 - 1
  {}

  lemma FullWordHasNoFit(words: seq<Word>, edge: bool, i: nat, num: nat)
    requires i < |words| && words[i] == FULL && num >= 1
    ensures forall j: nat | 32 * i <= j < 32 * i + 32 :: !FreeRun(BitsOf(words), edge, j, num)
  {
    Ones32();
    forall j: nat | 32 * i <= j < 32 * i + 32 ensures !FreeRun(BitsOf(words), edge, j, num) {
      OnesBit(32, j % 32);
      BitsOfAt(words, j);
      assert Peek(BitsOf(words), edge, j);
    }
  }

  lemma EndPage(addr: nat, count: nat)
    ensures (addr + Product32(count)) / PAGE == addr / PAGE + count % TWO20
  {
    Product32Pages(count);
  }

  /** The guard of free_page_range lets through every end that lies inside the map. */
  lemma GuardPassesInside(end: nat, words: nat)
    requires words >= 1
    ensures end <= words * 32 ==> end / 32 + end % 32 < words * 4 * 8
  {}

  /** Two ranges from the same frame that agree inside the map free the same frames. */
  lemma SameFree(m: Map, k: nat, n: nat, all: nat)
    requires k < |m.bits| ==> n <= all
    requires k < |m.bits| ==> n == all || k + n >= |m.bits|
    requires m.used == CountUsed(m.bits)
    ensures MarkFreeRange(m, k, n) == MarkFreeRange(m, k, all)
  {
    MarkFreeRangeBits(m, k, n);
    MarkFreeRangeBits(m, k, all);
    assert MarkFreeRange(m, k, n).bits == MarkFreeRange(m, k, all).bits;
  }

  /** An allocation followed by its own free leaves bitmap and counter as they were, whatever the count,
      the base offset and the bit past the map. */
  method AllocateThenRelease(a: Allocator, count: nat) returns (ptr: nat)
    requires a.Valid() && count < TWO32
    modifies a`used, a.data
    ensures a.Valid() && a.Abs() == old(a.Abs())
  {
    RoundTrip(a.Abs(), a.edge, count, a.base);
    ptr := a.AllocatePageRange(count);
    if ptr != 0 {
      a.ReleasePageRange(ptr, count);
    }
  }

  lemma RoundTrip(m: Map, edge: bool, count: nat, base: nat)
    requires Ok(m)
    ensures var (r, k) := AllocRange(m, edge, count);
            Ok(r) && if k == 0 then r == m else FreeRange(r, Frame(PAGE * k + base, base), count) == m
  {
    FreeUndoesAlloc(m, edge, count);
  }
}
