/** Whole runs of the frame allocator: any sequence of allocations and of frees of live allocations. */
module FrameRuns {
  import opened Arithmetic
  import opened Frames

  /** One live allocation: its first frame and the number of pages it was asked for. */
  datatype Run = Run(first: nat, pages: nat)

  /** The bitmap together with the allocations handed out and not yet freed. */
  datatype Heap = Heap(map': Map, live: seq<Run>)

  /** A call: an allocation of `count` pages, or a free of the i-th live allocation with free_page
      (one page) or free_page_range; a free naming no live allocation is not a legal call. */
  datatype Call = Alloc(count: nat) | Free(i: nat, single: bool)

  /** The frames that were marked for an allocation, and that its free gives back. */
  predicate Holds(r: Run, k: int) { r.first <= k < r.first + r.pages % TWO20 }

  /** They are the whole allocation exactly if it is shorter than 2^20 pages. */
  lemma HoldsAllIff(r: Run)
    requires r.pages >= 1
    ensures (forall k | r.first <= k < r.first + r.pages :: Holds(r, k)) <==> r.pages < TWO20
  {
    assert Holds(r, r.first + r.pages - 1) ==> r.pages < TWO20;
  }

  ghost predicate Legal(h: Heap, c: Call) {
    match c
    case Alloc(count) => true
    case Free(i, single) => i < |h.live| && (single ==> h.live[i].pages == 1)
  }

  ghost function Step(h: Heap, c: Call): Heap
    requires Legal(h, c)
  {
    match c
    case Alloc(count) =>
      var (m, k) := AllocRange(h.map', true, count);
      if k == 0 then Heap(m, h.live) else Heap(m, h.live + [Run(k, Pages(count))])
    case Free(i, single) =>
      var r := h.live[i];
      Heap(if single then FreePage(h.map', r.first) else FreeRange(h.map', r.first, r.pages),
           h.live[..i] + h.live[i + 1..])
  }

  /** Legality of a whole sequence of calls, each judged in the state it meets. */
  ghost predicate LegalRun(h: Heap, calls: seq<Call>)
    decreases |calls|
  {
    calls == [] || (Legal(h, calls[0]) && LegalRun(Step(h, calls[0]), calls[1..]))
  }

  ghost function Execute(h: Heap, calls: seq<Call>): Heap
    requires LegalRun(h, calls)
    decreases |calls|
  {
    if calls == [] then h else Execute(Step(h, calls[0]), calls[1..])
  }

  function LivePages(live: seq<Run>): nat {
    if live == [] then 0 else live[0].pages % TWO20 + LivePages(live[1..])
  }

  /** Every live allocation lies inside the map past frame 0, the frames it holds are marked used, and no
      frame is held by two live allocations. */
  ghost predicate Owned(h: Heap) {
    && Ok(h.map')
    && (forall i | 0 <= i < |h.live| ::
          && 1 <= h.live[i].first && 1 <= h.live[i].pages
          && h.live[i].first + h.live[i].pages % TWO20 <= |h.map'.bits|)
    && (forall i, k | 0 <= i < |h.live| && 0 <= k < |h.map'.bits| && Holds(h.live[i], k) ::
          h.map'.bits[k])
    && (forall i, j, k {:trigger Holds(h.live[i], k), Holds(h.live[j], k)} |
          0 <= i < j < |h.live| && Holds(h.live[i], k) :: !Holds(h.live[j], k))
  }

  /** Every used frame is either used in `start` or held by a live allocation, never both. */
  ghost predicate Explained(start: seq<bool>, h: Heap) {
    && |start| == |h.map'.bits|
    && (forall k | 0 <= k < |start| :: h.map'.bits[k] ==> start[k] || Held(h.live, k))
    && (forall k | 0 <= k < |start| :: start[k] ==> h.map'.bits[k] && !Held(h.live, k))
  }

  ghost predicate Held(live: seq<Run>, k: int) {
    exists i | 0 <= i < |live| :: Holds(live[i], k)
  }

  // ---- what a call does ----------------------------------------------------------------------

  /** num frames from k on lie in the map and are free. */
  ghost predicate FreeAt(bits: seq<bool>, k: nat, num: nat) {
    k + num <= |bits| && forall f | k <= f < k + num :: !bits[f]
  }

  ghost predicate LowestFree(bits: seq<bool>, k: nat, num: nat) {
    FreeAt(bits, k, num) && forall j: nat | j < k :: !FreeAt(bits, j, num)
  }

  /** The bits with those of [k, k + n) set to b. */
  ghost predicate Changed(before: seq<bool>, after: seq<bool>, k: nat, n: nat, b: bool) {
    && |after| == |before|
    && forall f | 0 <= f < |before| :: after[f] == if k <= f < k + n then b else before[f]
  }

  /** What is live after a call for num pages that found the map m0: nothing more exactly if there is no
      such run. */
  ghost predicate Served(m0: Map, m: Map, num: nat, before: seq<Run>, after: seq<Run>) {
    if exists k: nat :: FreeAt(m0.bits, k, num) then exists k: nat :: Got(m0, m, num, k, before, after)
    else after == before && m == m0
  }

  /** The lowest free run of num frames, at k, has been handed out. */
  ghost predicate Got(m0: Map, m: Map, num: nat, k: nat, before: seq<Run>, after: seq<Run>) {
    && LowestFree(m0.bits, k, num) && after == before + [Run(k, num)]
    && Changed(m0.bits, m.bits, k, num % TWO20, true)
  }

  /** Free runs as the search sees them. */
  lemma FreeAtIs(bits: seq<bool>, k: nat, num: nat)
    requires num >= 1
    ensures FreeAt(bits, k, num) <==> k < |bits| && FreeRun(bits, true, k, num)
  {
    if k < |bits| && FreeRun(bits, true, k, num) {
      RunEnd(bits, true, k, num);
      forall f | k <= f < k + num ensures !bits[f] { assert !Peek(bits, true, f); }
    }
  }

  lemma AllocServes(m0: Map, count: nat, before: seq<Run>)
    requires Ok(m0)
    ensures var num := Pages(count);
            var (r, k) := AllocRange(m0, true, num);
            Served(m0, r, num, before, if k == 0 then before else before + [Run(k, num)])
  {
    hide Ok, FirstFit;
    var num := Pages(count);
    var (r, k) := AllocRange(m0, true, num);
    forall j: nat ensures FreeAt(m0.bits, j, num) <==> j < |m0.bits| && FreeRun(m0.bits, true, j, num) {
      FreeAtIs(m0.bits, j, num);
    }
    AllocFailsIffNoRun(m0, num);
    AllocTakesFreshRun(m0, num);
    assert Pages(num) == num && Reached(num) == num % TWO20;
    if k != 0 {
      assert FreeAt(m0.bits, k, num);
      assert LowestFree(m0.bits, k, num);
      assert Changed(m0.bits, r.bits, k, num % TWO20, true);
      assert Got(m0, r, num, k, before, before + [Run(k, num)]);
    }
  }

  /** An allocation hands out the lowest run of `count` free frames (0 stands for 1) and marks those of its
      frames that the 32-bit length reaches; if there is none nothing changes. */
  lemma AllocIs(h: Heap, count: nat)
    requires Ok(h.map')
    ensures var h' := Step(h, Alloc(count));
            Served(h.map', h'.map', if count == 0 then 1 else count, h.live, h'.live)
  {
    SameAsPages(h.map', count);
    AllocServes(h.map', count, h.live);
    hide AllocRange, Served, Ok;
  }

  lemma SameAsPages(m: Map, count: nat)
    ensures AllocRange(m, true, count) == AllocRange(m, true, Pages(count))
    ensures Pages(count) == if count == 0 then 1 else count
  {}

  /** A free takes one allocation off the live ones and clears exactly the frames of it that the 32-bit
      length reaches. */
  lemma FreeIs(h: Heap, i: nat, single: bool)
    requires Owned(h) && Legal(h, Free(i, single))
    ensures var h', r := Step(h, Free(i, single)), h.live[i];
            && h'.live == h.live[..i] + h.live[i + 1..]
            && Changed(h.map'.bits, h'.map'.bits, r.first, r.pages % TWO20, false)
  {
    FreeClears(h, i, single);
  }

  lemma {:induction false} LivePagesAppend(a: seq<Run>, r: Run)
    ensures LivePages(a + [r]) == LivePages(a) + r.pages % TWO20
  {
    if a != [] {
      assert (a + [r])[1..] == a[1..] + [r];
      LivePagesAppend(a[1..], r);
    }
  }

  lemma {:induction false} LivePagesRemove(a: seq<Run>, i: nat)
    requires i < |a|
    ensures LivePages(a[..i] + a[i + 1..]) == LivePages(a) - a[i].pages % TWO20
  {
    if i == 0 {
      assert a[..0] + a[1..] == a[1..];
    } else {
      assert (a[..i] + a[i + 1..])[1..] == a[1..][..i - 1] + a[1..][i..];
      LivePagesRemove(a[1..], i - 1);
    }
  }

  lemma HeldAppend(a: seq<Run>, r: Run, k: int)
    ensures Held(a + [r], k) <==> Held(a, k) || Holds(r, k)
  {
    var b := a + [r];
    assert b[|a|] == r;
    if i :| 0 <= i < |a| && Holds(a[i], k) { assert b[i] == a[i]; }
    if i :| 0 <= i < |b| && Holds(b[i], k) { assert i < |a| ==> b[i] == a[i]; }
  }

  lemma HeldRemove(a: seq<Run>, i: nat, k: int)
    requires i < |a|
    ensures Held(a, k) <==> Held(a[..i] + a[i + 1..], k) || Holds(a[i], k)
  {
    var b := a[..i] + a[i + 1..];
    if j :| 0 <= j < |a| && Holds(a[j], k) {
      if j != i { assert b[if j < i then j else j - 1] == a[j]; }
    }
    if j :| 0 <= j < |b| && Holds(b[j], k) { assert a[if j < i then j else j + 1] == b[j]; }
  }

  lemma AllocOwned(h: Heap, count: nat)
    requires Owned(h)
    ensures Owned(Step(h, Alloc(count)))
  {
    hide AllocRange, CountUsed;
    AllocTakesFreshRun(h.map', count);
    var (m, k) := AllocRange(h.map', true, count);
    var h' := Step(h, Alloc(count));
    if k != 0 {
      var n := |h.live|;
      assert h'.live[n] == Run(k, Pages(count));
      forall i, j | 0 <= i < |h'.live| && 0 <= j < |m.bits| && Holds(h'.live[i], j) ensures m.bits[j] {
        if i < n { assert Holds(h.live[i], j); }
      }
      forall i, j, f | 0 <= i < j < |h'.live| && Holds(h'.live[i], f) ensures !Holds(h'.live[j], f) {
        assert Holds(h.live[i], f);
        assert h.map'.bits[f];
      }
    }
  }

  lemma AllocExplained(start: seq<bool>, h: Heap, count: nat)
    requires Ok(h.map') && Explained(start, h)
    ensures Explained(start, Step(h, Alloc(count)))
  {
    hide AllocRange, Ok, Held;
    AllocTakesFreshRun(h.map', count);
    var (m, k) := AllocRange(h.map', true, count);
    if k != 0 {
      var r := Run(k, Pages(count));
      forall f | 0 <= f < |start| ensures Held(h.live + [r], f) <==> Held(h.live, f) || Holds(r, f) {
        HeldAppend(h.live, r, f);
      }
    }
  }

  lemma AllocStep(start: seq<bool>, h: Heap, count: nat)
    requires Owned(h)
    ensures var h' := Step(h, Alloc(count));
            && Owned(h') && |h'.map'.bits| == |h.map'.bits|
            && (Explained(start, h) ==> Explained(start, h'))
            && FreeCount(h'.map') + LivePages(h'.live) == FreeCount(h.map') + LivePages(h.live)
  {
    AllocOwned(h, count);
    if Explained(start, h) { AllocExplained(start, h, count); }
    hide AllocRange, Explained;
    AllocTakesFreshRun(h.map', count);
    LivePagesAppend(h.live, Run(AllocRange(h.map', true, count).1, Pages(count)));
  }

  /** A free of a live allocation clears the frames it holds and no others. */
  lemma FreeClears(h: Heap, i: nat, single: bool)
    requires Owned(h) && Legal(h, Free(i, single))
    ensures var m, r := Step(h, Free(i, single)).map', h.live[i];
            && Ok(m) && |m.bits| == |h.map'.bits|
            && FreeCount(m) == FreeCount(h.map') + r.pages % TWO20
            && forall k | 0 <= k < |m.bits| :: m.bits[k] == (h.map'.bits[k] && !Holds(r, k))
  {
    var r := h.live[i];
    assert forall k | r.first <= k < r.first + Reached(r.pages) :: Holds(r, k);
    FreeReturnsRun(h.map', r.first, r.pages);
    if single {
      assert MarkFreeRange(MarkFree(h.map', r.first), r.first + 1, 0) == MarkFree(h.map', r.first);
    }
  }

  lemma FreeOwned(h: Heap, i: nat, single: bool)
    requires Owned(h) && Legal(h, Free(i, single))
    ensures Owned(Step(h, Free(i, single)))
  {
    FreeClears(h, i, single);
    hide FreeRange, FreePage, CountUsed;
    var h', r := Step(h, Free(i, single)), h.live[i];
    var m := h'.map';
    forall j | 0 <= j < |h'.live|
      ensures h'.live[j] == h.live[if j < i then j else j + 1]
    {}
    forall j, k | 0 <= j < |h'.live| && 0 <= k < |m.bits| && Holds(h'.live[j], k) ensures m.bits[k] {
      var j0 := if j < i then j else j + 1;
      assert Holds(h.live[j0], k);
      assert !Holds(r, k);
    }
    forall a, b, k | 0 <= a < b < |h'.live| && Holds(h'.live[a], k) ensures !Holds(h'.live[b], k) {
      var a0, b0 := if a < i then a else a + 1, if b < i then b else b + 1;
      assert Holds(h.live[a0], k);
      assert !Holds(h.live[b0], k);
    }
  }

  lemma FreeExplained(start: seq<bool>, h: Heap, i: nat, single: bool)
    requires Owned(h) && Legal(h, Free(i, single)) && Explained(start, h)
    ensures Explained(start, Step(h, Free(i, single)))
  {
    FreeClears(h, i, single);
    hide FreeRange, FreePage, CountUsed;
    var h' := Step(h, Free(i, single));
    forall f | 0 <= f < |start|
      ensures h'.map'.bits[f] ==> start[f] || Held(h'.live, f)
      ensures start[f] ==> h'.map'.bits[f] && !Held(h'.live, f)
    {
      HeldRemove(h.live, i, f);
    }
  }

  lemma FreeStep(start: seq<bool>, h: Heap, i: nat, single: bool)
    requires Owned(h) && Legal(h, Free(i, single))
    ensures var h' := Step(h, Free(i, single));
            && Owned(h') && |h'.map'.bits| == |h.map'.bits|
            && (Explained(start, h) ==> Explained(start, h'))
            && FreeCount(h'.map') + LivePages(h'.live) == FreeCount(h.map') + LivePages(h.live)
  {
    FreeOwned(h, i, single);
    if Explained(start, h) { FreeExplained(start, h, i, single); }
    FreeClears(h, i, single);
    LivePagesRemove(h.live, i);
  }

  /** Conservation over whole runs: the counter stays the number of set bits, frame 0 stays taken, what
      live allocations hold stays disjoint and marked, every other used frame was used at the start, and
      free frames plus frames held never change. */
  lemma {:induction false} RunsConservePages(start: seq<bool>, h: Heap, calls: seq<Call>)
    requires Owned(h) && LegalRun(h, calls)
    ensures var h' := Execute(h, calls);
            && Owned(h') && |h'.map'.bits| == |h.map'.bits|
            && (Explained(start, h) ==> Explained(start, h'))
            && FreeCount(h'.map') + LivePages(h'.live) == FreeCount(h.map') + LivePages(h.live)
    decreases |calls|
  {
    if calls != [] {
      match calls[0]
      case Alloc(count) =>
        AllocStep(start, h, count);
        RunsConservePages(start, Step(h, calls[0]), calls[1..]);
      case Free(i, single) =>
        FreeStep(start, h, i, single);
        RunsConservePages(start, Step(h, calls[0]), calls[1..]);
    }
  }

  /** No run leaks: once everything allocated since an idle start is freed again, bitmap and counter
      are those of the start. */
  lemma IdleAgainRestoresMap(m: Map, calls: seq<Call>)
    requires Ok(m) && LegalRun(Heap(m, []), calls)
    requires Execute(Heap(m, []), calls).live == []
    ensures Execute(Heap(m, []), calls).map' == m
  {
    RunsConservePages(m.bits, Heap(m, []), calls);
    var h' := Execute(Heap(m, []), calls);
    assert forall k | 0 <= k < |m.bits| :: !Held(h'.live, k);
    assert h'.map'.bits == m.bits;
  }
}
