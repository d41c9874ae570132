/** The physical frame bitmap of kernel/memory/physmm.cc on values: which frames are used, the
    redundant counter beside it, and what each operation of the file does to the two. */
module Frames {
  import opened Arithmetic

  /** `bits[k]` is bit k of the bitmap (true: used) and `used` is _memory_map_used. */
  datatype Map = Map(bits: seq<bool>, used: int)

  function CountUsed(bits: seq<bool>): (n: nat)
    ensures n <= |bits|
  {
    if bits == [] then 0
    else CountUsed(bits[..|bits| - 1]) + if bits[|bits| - 1] then 1 else 0
  }

  /** What physmm.cc relies on between calls: whole words, the counter in step with the bits,
      frame 0 taken, and a frame number that fits the 32-bit product _memory_map_size * 8. */
  ghost predicate Ok(m: Map) {
    && 32 <= |m.bits| < TWO32
    && |m.bits| % 32 == 0
    && m.used == CountUsed(m.bits)
    && m.bits[0]
  }

  function FreeCount(m: Map): int { |m.bits| - m.used }

  // ---- the two single-bit updates -------------------------------------------------------------

  function MarkUsed(m: Map, k: nat): Map {
    if k < |m.bits| && !m.bits[k] then Map(m.bits[k := true], m.used + 1) else m
  }

  function MarkFree(m: Map, k: nat): Map {
    if k < |m.bits| && m.bits[k] then Map(m.bits[k := false], m.used - 1) else m
  }

  function MarkUsedRange(m: Map, k: nat, n: nat): Map
    decreases n
  {
    if n == 0 then m else MarkUsedRange(MarkUsed(m, k), k + 1, n - 1)
  }

  function MarkFreeRange(m: Map, k: nat, n: nat): Map
    decreases n
  {
    if n == 0 then m else MarkFreeRange(MarkFree(m, k), k + 1, n - 1)
  }

  lemma {:induction false} CountUpdate(bits: seq<bool>, k: nat, b: bool)
    requires k < |bits|
    ensures CountUsed(bits[k := b]) ==
            CountUsed(bits) + (if b then 1 else 0) - (if bits[k] then 1 else 0)
  {
    var last := |bits| - 1;
    if k == last {
      assert bits[k := b][..last] == bits[..last];
    } else {
      assert bits[k := b][..last] == bits[..last][k := b];
      CountUpdate(bits[..last], k, b);
    }
  }

  lemma MarkUsedBits(m: Map, k: nat)
    ensures var r := MarkUsed(m, k);
            && |r.bits| == |m.bits|
            && (forall j | 0 <= j < |m.bits| :: r.bits[j] == (m.bits[j] || j == k))
            && r.used - m.used == CountUsed(r.bits) - CountUsed(m.bits)
  {
    if k < |m.bits| { CountUpdate(m.bits, k, true); }
  }

  lemma MarkFreeBits(m: Map, k: nat)
    ensures var r := MarkFree(m, k);
            && |r.bits| == |m.bits|
            && (forall j | 0 <= j < |m.bits| :: r.bits[j] == (m.bits[j] && j != k))
            && r.used - m.used == CountUsed(r.bits) - CountUsed(m.bits)
  {
    if k < |m.bits| { CountUpdate(m.bits, k, false); }
  }

  /** Marking a range used sets exactly the bits of the range that lie inside the map, and moves the
      counter by the number of bits that changed. */
  lemma {:induction false} MarkUsedRangeBits(m: Map, k: nat, n: nat)
    ensures var r := MarkUsedRange(m, k, n);
            && |r.bits| == |m.bits|
            && (forall j | 0 <= j < |m.bits| :: r.bits[j] == (m.bits[j] || k <= j < k + n))
            && r.used - m.used == CountUsed(r.bits) - CountUsed(m.bits)
    decreases n
  {
    if n > 0 {
      MarkUsedBits(m, k);
      MarkUsedRangeBits(MarkUsed(m, k), k + 1, n - 1);
      hide MarkUsed, CountUsed;
    }
  }

  lemma {:induction false} MarkFreeRangeBits(m: Map, k: nat, n: nat)
    ensures var r := MarkFreeRange(m, k, n);
            && |r.bits| == |m.bits|
            && (forall j | 0 <= j < |m.bits| :: r.bits[j] == (m.bits[j] && !(k <= j < k + n)))
            && r.used - m.used == CountUsed(r.bits) - CountUsed(m.bits)
    decreases n
  {
    if n > 0 {
      MarkFreeBits(m, k);
      MarkFreeRangeBits(MarkFree(m, k), k + 1, n - 1);
      hide MarkFree, CountUsed;
    }
  }

  /** Marking n frames that are all free raises the used count by exactly n. */
  lemma {:induction false} MarkFreshRunCount(m: Map, k: nat, n: nat)
    requires k + n <= |m.bits|
    requires forall j | k <= j < k + n :: !m.bits[j]
    ensures MarkUsedRange(m, k, n).used == m.used + n
    decreases n
  {
    if n > 0 { MarkFreshRunCount(MarkUsed(m, k), k + 1, n - 1); }
  }

  lemma {:induction false} MarkTakenRunCount(m: Map, k: nat, n: nat)
    requires k + n <= |m.bits|
    requires forall j | k <= j < k + n :: m.bits[j]
    ensures MarkFreeRange(m, k, n).used == m.used - n
    decreases n
  {
    if n > 0 { MarkTakenRunCount(MarkFree(m, k), k + 1, n - 1); }
  }

  // ---- searching ------------------------------------------------------------------------------

  /** _peek_used. The bound test in the source lets the first index past the map through, so what it
      then reads is whatever word follows the map: `edge` is that bit. */
  predicate Peek(bits: seq<bool>, edge: bool, k: nat) {
    if k < |bits| then bits[k] else k > |bits| || edge
  }

  ghost predicate FreeRun(bits: seq<bool>, edge: bool, k: nat, num: nat) {
    forall i {:trigger Peek(bits, edge, i)} | k <= i < k + num :: !Peek(bits, edge, i)
  }

  /** k is the lowest frame at which `num` consecutive frames are free. */
  ghost predicate IsFirstFit(bits: seq<bool>, edge: bool, num: nat, k: nat) {
    && k < |bits|
    && FreeRun(bits, edge, k, num)
    && forall j: nat | j < k :: !FreeRun(bits, edge, j, num)
  }

  /** The naive bit-by-bit search, 0 when nothing fits. */
  ghost function FirstFit(bits: seq<bool>, edge: bool, num: nat): (r: nat)
    ensures IsFirstFit(bits, edge, num, r) ||
            (r == 0 && forall j: nat | j < |bits| :: !FreeRun(bits, edge, j, num))
  {
    FirstFitFrom(bits, edge, num, 0)
  }

  ghost function FirstFitFrom(bits: seq<bool>, edge: bool, num: nat, k: nat): (r: nat)
    requires k <= |bits|
    requires forall j: nat | j < k :: !FreeRun(bits, edge, j, num)
    ensures IsFirstFit(bits, edge, num, r) ||
            (r == 0 && forall j: nat | j < |bits| :: !FreeRun(bits, edge, j, num))
    decreases |bits| - k
  {
    if k == |bits| then 0
    else if FreeRun(bits, edge, k, num) then k
    else FirstFitFrom(bits, edge, num, k + 1)
  }

  lemma FirstFitUnique(bits: seq<bool>, edge: bool, num: nat, k: nat)
    requires IsFirstFit(bits, edge, num, k)
    ensures FirstFit(bits, edge, num) == k
  {
    assert IsFirstFit(bits, edge, num, FirstFit(bits, edge, num));
  }

  lemma FirstFitNone(bits: seq<bool>, edge: bool, num: nat)
    requires forall j: nat | j < |bits| :: !FreeRun(bits, edge, j, num)
    ensures FirstFit(bits, edge, num) == 0
  {}

  /** If frame 0 is taken then 0 is never a fit, so 0 can stand for "none": the search answers 0
      exactly when no run exists. */
  lemma ZeroMeansNone(bits: seq<bool>, edge: bool, num: nat)
    requires |bits| > 0 && bits[0] && num >= 1
    ensures FirstFit(bits, edge, num) == 0 <==>
            forall j: nat | j < |bits| :: !FreeRun(bits, edge, j, num)
  {
    if FirstFit(bits, edge, num) == 0 {
      assert Peek(bits, edge, 0);
      assert !FreeRun(bits, edge, 0, num);
    }
  }

  /** A run found in the map ends inside it, or else one bit past it, which takes a clear edge bit. */
  lemma RunEnd(bits: seq<bool>, edge: bool, k: nat, num: nat)
    requires num >= 1 && k < |bits| && FreeRun(bits, edge, k, num)
    ensures k + num <= |bits| || (k + num == |bits| + 1 && !edge)
  {
    assert !Peek(bits, edge, k + num - 1);
    if k + num > |bits| { assert !Peek(bits, edge, |bits|); }
  }

  // ---- the public operations ------------------------------------------------------------------

  /** PAGE_SIZE * count is a 32-bit product, so a range operation reaches count mod 2^20 pages. */
  function Product32(count: nat): nat { (PAGE * count) % TWO32 }

  lemma Product32Pages(count: nat)
    ensures Product32(count) / PAGE == count % TWO20
    ensures Product32(count) == PAGE * (count % TWO20)
  {
    var q, r := count / TWO20, count % TWO20;
    assert PAGE * count == TWO32 * q + PAGE * r;
    Modulus(q, PAGE * r);
  }

  lemma Modulus(q: nat, r: nat)
    requires r < TWO32
    ensures (TWO32 * q + r) % TWO32 == r
  {}

  /** alloc_page: the new map and the frame handed out, 0 for a null result. */
  ghost function AllocPage(m: Map): (r: (Map, nat)) {
    if FreeCount(m) == 0 then (m, 0)
    else
      var k := FirstFit(m.bits, true, 1);
      if k == 0 then (m, 0) else (MarkUsed(m, k), k)
  }

  ghost function AllocRange(m: Map, edge: bool, count: nat): (r: (Map, nat)) {
    if count <= 1 then AllocPage(m)
    else if FreeCount(m) < count then (m, 0)
    else
      var k := FirstFit(m.bits, edge, count);
      if k == 0 then (m, 0) else (MarkUsedRange(m, k, count % TWO20), k)
  }

  /** free_page and free_page_range clear whatever part of the range lies inside the map; frame 0
      is refused. */
  function FreePage(m: Map, k: nat): Map {
    if k == 0 then m else MarkFree(m, k)
  }

  function FreeRange(m: Map, k: nat, count: nat): Map {
    if k == 0 then m else MarkFreeRange(m, k, (if count == 0 then 1 else count) % TWO20)
  }

  /** Pages an allocation request stands for: 0 and 1 both mean one page. */
  function Pages(count: nat): nat { if count <= 1 then 1 else count }

  /** How many frames an operation on a range marks or frees. */
  function Reached(count: nat): nat { Pages(count) % TWO20 }

  lemma {:induction false} UsedPlusRun(bits: seq<bool>, k: nat, num: nat)
    requires k + num <= |bits|
    requires forall j | k <= j < k + num :: !bits[j]
    ensures CountUsed(bits) + num <= |bits|
    decreases |bits|
  {
    if num > 0 {
      var last := |bits| - 1;
      if k + num == |bits| {
        UsedPlusRun(bits[..last], k, num - 1);
      } else {
        UsedPlusRun(bits[..last], k, num);
      }
    }
  }

  /** The quick test of the counter never turns away a request the search could have served, so an
      allocation fails exactly when no run of the wanted length is free. */
  lemma AllocFailsIffNoRun(m: Map, count: nat)
    requires Ok(m)
    ensures AllocRange(m, true, count).1 == 0 <==>
            forall j: nat | j < |m.bits| :: !FreeRun(m.bits, true, j, Pages(count))
    ensures AllocRange(m, true, count).1 == FirstFit(m.bits, true, Pages(count))
  {
    var num := Pages(count);
    ZeroMeansNone(m.bits, true, num);
    var k := FirstFit(m.bits, true, num);
    if k != 0 {
      RunEnd(m.bits, true, k, num);
      assert forall j | k <= j < k + num :: !m.bits[j] by {
        forall j | k <= j < k + num ensures !m.bits[j] { assert !Peek(m.bits, true, j); }
      }
      UsedPlusRun(m.bits, k, num);
    }
  }

  /** What a successful allocation means: the run was free, lies inside the map and does not include
      frame 0, and the frames the 32-bit length reaches are exactly those that became used. */
  lemma AllocTakesFreshRun(m: Map, count: nat)
    requires Ok(m)
    ensures var (r, k) := AllocRange(m, true, count);
            && Ok(r) && |r.bits| == |m.bits|
            && (k == 0 ==> r == m)
            && (k != 0 ==>
                && k + Pages(count) <= |m.bits|
                && FreeCount(r) == FreeCount(m) - Reached(count)
                && (forall j | k <= j < k + Pages(count) :: !m.bits[j])
                && (forall j | k <= j < k + Reached(count) :: r.bits[j])
                && forall j | 0 <= j < |m.bits| && !(k <= j < k + Reached(count)) ::
                  r.bits[j] == m.bits[j])
  {
    var num, n := Pages(count), Reached(count);
    var (r, k) := AllocRange(m, true, count);
    AllocFailsIffNoRun(m, count);
    if k != 0 {
      RunEnd(m.bits, true, k, num);
      forall j | k <= j < k + num ensures !m.bits[j] { assert !Peek(m.bits, true, j); }
      assert r == MarkUsedRange(m, k, n) by {
        if count <= 1 { assert MarkUsedRange(MarkUsed(m, k), k + 1, 0) == MarkUsed(m, k); }
      }
      MarkUsedRangeBits(m, k, n);
      MarkFreshRunCount(m, k, n);
    }
  }

  /** For counts from 2^20 on the 32-bit length wraps: an allocation covers its whole run exactly
      when the count is below 2^20. */
  lemma AllocMarksWholeRunIff(m: Map, count: nat)
    requires Ok(m) && AllocRange(m, true, count).1 != 0
    ensures var (r, k) := AllocRange(m, true, count);
            && k + Pages(count) <= |m.bits| == |r.bits|
            && ((forall j | k <= j < k + Pages(count) :: r.bits[j]) <==> count < TWO20)
  {
    if count < TWO20 {
      AllocTakesFreshRun(m, count);
    } else {
      var (r, k) := AllocRange(m, true, count);
      AllocFailsIffNoRun(m, count);
      RunEnd(m.bits, true, k, count);
      MarkUsedRangeBits(m, k, count % TWO20);
      var j := k + count % TWO20;
      assert !Peek(m.bits, true, j);
      assert !r.bits[j];
    }
  }

  /** A concrete failure: with every frame but 0 free, asking for 2^20 pages succeeds and takes none. */
  lemma HugeAllocTakesNothing()
    ensures var m := Map(seq(TWO20 + 32, i => i == 0), 1);
            Ok(m) && AllocRange(m, true, TWO20) == (m, 1)
  {
    var bits := seq(TWO20 + 32, i => i == 0);
    var m := Map(bits, 1);
    OnlyFirstUsed(bits);
    assert !FreeRun(bits, true, 0, TWO20) by { assert Peek(bits, true, 0); }
    assert FreeRun(bits, true, 1, TWO20);
    assert IsFirstFit(bits, true, TWO20, 1);
    FirstFitUnique(bits, true, TWO20, 1);
  }

  lemma {:induction false} OnlyFirstUsed(bits: seq<bool>)
    requires |bits| > 0 && bits[0] && forall i | 0 < i < |bits| :: !bits[i]
    ensures CountUsed(bits) == 1
  {
    if |bits| > 1 { OnlyFirstUsed(bits[..|bits| - 1]); }
  }

  /** Frees of any frames, owned or not, keep the counter in step and never free frame 0. */
  lemma FreeKeepsOk(m: Map, k: nat, count: nat)
    requires Ok(m)
    ensures Ok(FreePage(m, k)) && Ok(FreeRange(m, k, count))
  {
    if k > 0 {
      MarkFreeRangeBits(m, k, (if count == 0 then 1 else count) % TWO20);
      if k < |m.bits| { CountUpdate(m.bits, k, false); }
    }
  }

  /** Freeing a run whose reached frames are in use gives back exactly those. */
  lemma FreeReturnsRun(m: Map, k: nat, count: nat)
    requires Ok(m) && 1 <= k && k + Reached(count) <= |m.bits|
    requires forall j | k <= j < k + Reached(count) :: m.bits[j]
    ensures var r := FreeRange(m, k, count);
            && Ok(r) && |r.bits| == |m.bits|
            && FreeCount(r) == FreeCount(m) + Reached(count)
            && (forall j | 0 <= j < |m.bits| ::
                  r.bits[j] == (m.bits[j] && !(k <= j < k + Reached(count))))
  {
    FreeKeepsOk(m, k, count);
    MarkFreeRangeBits(m, k, Reached(count));
    MarkTakenRunCount(m, k, Reached(count));
  }

  /** Freeing what was just allocated restores the map, bits and counter, for every count and whatever
      the bit past the map. */
  lemma FreeUndoesAlloc(m: Map, edge: bool, count: nat)
    requires Ok(m)
    ensures var (r, k) := AllocRange(m, edge, count);
            && Ok(r) && FreeRange(r, k, count) == m
            && (count <= 1 ==> FreePage(r, k) == m)
  {
    var (r, k) := AllocRange(m, edge, count);
    if k != 0 {
      AllocMarksFree(m, edge, count);
      hide AllocRange;
      FreeUndoesMark(m, k, Reached(count));
      if count <= 1 { FreeOne(r, k); }
    }
  }

  lemma FreeOne(m: Map, k: nat)
    requires k > 0
    ensures FreeRange(m, k, 1) == FreeRange(m, k, 0) == FreePage(m, k)
  {
    assert MarkFreeRange(MarkFree(m, k), k + 1, 0) == MarkFree(m, k);
  }

  /** What an allocation marks was free, as far as it lies in the map. */
  lemma AllocMarksFree(m: Map, edge: bool, count: nat)
    requires AllocRange(m, edge, count).1 != 0
    ensures var (r, k) := AllocRange(m, edge, count);
            && r == MarkUsedRange(m, k, Reached(count))
            && forall j | k <= j < k + Reached(count) && j < |m.bits| :: !m.bits[j]
  {
    var (r, k) := AllocRange(m, edge, count);
    var e := if count <= 1 then true else edge;
    assert FirstFit(m.bits, e, Pages(count)) == k;
    if count <= 1 { assert MarkUsedRange(MarkUsed(m, k), k + 1, 0) == MarkUsed(m, k); }
    hide AllocRange, FirstFit;
    forall j | k <= j < k + Reached(count) && j < |m.bits| ensures !m.bits[j] { assert !Peek(m.bits, e, j); }
  }

  lemma FreeUndoesMark(m: Map, k: nat, n: nat)
    requires m.used == CountUsed(m.bits) && forall j | k <= j < k + n && j < |m.bits| :: !m.bits[j]
    ensures MarkFreeRange(MarkUsedRange(m, k, n), k, n) == m
    ensures MarkUsedRange(m, k, n).used == CountUsed(MarkUsedRange(m, k, n).bits)
    ensures |MarkUsedRange(m, k, n).bits| == |m.bits|
    ensures forall j | 0 <= j < |m.bits| && m.bits[j] :: MarkUsedRange(m, k, n).bits[j]
  {
    var r := MarkUsedRange(m, k, n);
    MarkUsedRangeBits(m, k, n);
    MarkFreeRangeBits(r, k, n);
    hide MarkUsedRange, MarkFreeRange, CountUsed;
    assert MarkFreeRange(r, k, n).bits == m.bits;
  }
}
