/** A compact slab cache over the frame allocator: the blocks of its slabs are pages that alloc_page_range
    delivers (_backing_page_alloc of kernel/memory/cache.cc), while others allocate and free pages too. */
module SlabFrames {
  import opened Arithmetic
  import opened Frames
  import opened SlabLayout
  import opened Slabs
  import opened Cache
  import opened FrameAllocator
  import L = Lists
  import F = FrameRuns
  import R = SlabRuns

  /** A cache with small objects has slabs of one page. */
  lemma CompactIsOnePage(size: nat, align: nat, checkOverflow: bool)
    requires CacheConfig(size, align, checkOverflow).compact
    ensures CacheConfig(size, align, checkOverflow).allocSize == PAGE
  {}

  /** The block at b is frame f seen through the linear map, a live allocation of one page. */
  ghost predicate Backs(live: seq<F.Run>, base: nat, b: nat, f: nat) {
    F.Run(f, 1) in live && b == base + PAGE * f
  }

  ghost predicate Backed(live: seq<F.Run>, base: nat, b: nat) {
    exists f: nat :: Backs(live, base, b, f)
  }

  /** The cache stands on the allocator: every slab has a page of its own. */
  ghost predicate Stands(c: Config, base: nat, h: F.Heap, st: State) {
    && c.compact && c.allocSize == PAGE
    && F.Owned(h) && Inv(c, st)
    && forall a | a in st.slabs :: Backed(h.live, base, st.slabs[a].backing)
  }

  /** The frame the next allocation of one page delivers, 0 if there is none. */
  ghost function NextFrame(h: F.Heap): nat { AllocRange(h.map', true, 1).1 }

  /** The frame of an allocation to come is not that of any slab. */
  lemma OtherFrame(h: F.Heap, base: nat, b: nat)
    requires F.Owned(h) && NextFrame(h) != 0 && Backed(h.live, base, b)
    ensures Apart(base + PAGE * NextFrame(h), PAGE, b, PAGE)
  {
    var k := NextFrame(h);
    var f: nat :| Backs(h.live, base, b, f);
    AllocTakesFreshRun(h.map', 1);
    var i :| 0 <= i < |h.live| && h.live[i] == F.Run(f, 1);
    assert F.Holds(h.live[i], f);
    assert f != k;
    if f < k { Scale(PAGE, f + 1, k); } else { Scale(PAGE, k + 1, f); }
  }

  /** A page the allocator delivers meets all that the cache demands of a new block. */
  lemma PageIsFresh(c: Config, base: nat, h: F.Heap, st: State)
    requires Stands(c, base, h, st) && NextFrame(h) != 0
    ensures GoodConfig(c) && Fresh(c, st, R.SupplyAt(c, base + PAGE * NextFrame(h)))
  {
    var b := base + PAGE * NextFrame(h);
    var p := R.SupplyAt(c, b);
    R.SupplyOk(c, b);
    forall a | a in st.slabs ensures Apart(b, PAGE, st.slabs[a].backing, PAGE) {
      OtherFrame(h, base, st.slabs[a].backing);
    }
    hide R.SupplyAt, SlabOk, NextFrame;
    assert p.addr !in st.slabs;
  }

  // ---- whole runs -----------------------------------------------------------------------------

  /** The allocator with its live allocations, and the cache with the objects handed out. */
  datatype World = World(heap: F.Heap, cache: R.System)

  /** get_object and put_object of the cache, or a call of the allocator by someone else. */
  datatype Call = GetCall | PutCall(ptr: nat) | Elsewhere(call: F.Call)

  ghost predicate Good(c: Config, base: nat, w: World) {
    Stands(c, base, w.heap, w.cache.st) && R.Agrees(c, w.cache)
  }

  /** No slab has its block where r begins. */
  ghost predicate BacksNone(base: nat, st: State, r: F.Run) {
    forall a | a in st.slabs :: st.slabs[a].backing != base + PAGE * r.first
  }

  /** Objects given back are out, and nobody else frees a page of the cache. */
  ghost predicate Legal(c: Config, base: nat, w: World, k: Call) {
    match k
    case GetCall => true
    case PutCall(ptr) => ptr in w.cache.out
    case Elsewhere(call) =>
      F.Legal(w.heap, call) && (call.Free? ==> BacksNone(base, w.cache.st, w.heap.live[call.i]))
  }

  /** What the back end delivers if it is asked. */
  ghost function NextSupply(c: Config, base: nat, h: F.Heap): Supply
    requires GoodConfig(c)
  {
    R.SupplyAt(c, base + PAGE * NextFrame(h))
  }

  /** The heap with the page of a new slab. */
  ghost function HeapAfter(h: F.Heap, st: State): F.Heap {
    if NeedsSlab(st) then F.Step(h, F.Alloc(1)) else h
  }

  lemma Supplied(c: Config, base: nat, h: F.Heap, st: State)
    requires Stands(c, base, h, st) && (NeedsSlab(st) ==> NextFrame(h) != 0)
    ensures NeedsSlab(st) ==> Fresh(c, st, NextSupply(c, base, h))
  {
    if NeedsSlab(st) { PageIsFresh(c, base, h, st); }
  }

  /** get_object fails: a page is needed and none is left. */
  ghost predicate OutOfPages(w: World) { NeedsSlab(w.cache.st) && NextFrame(w.heap) == 0 }

  ghost function Step(c: Config, base: nat, w: World, k: Call): World
    requires Good(c, base, w) && Legal(c, base, w, k)
  {
    match k
    case GetCall =>
      if OutOfPages(w) then w
      else
        Supplied(c, base, w.heap, w.cache.st);
        World(HeapAfter(w.heap, w.cache.st), R.Step(c, w.cache, R.GetCall(NextSupply(c, base, w.heap))))
    case PutCall(ptr) => World(w.heap, R.Step(c, w.cache, R.PutCall(ptr)))
    case Elsewhere(call) => World(F.Step(w.heap, call), w.cache)
  }

  // ---- every step -----------------------------------------------------------------------------

  lemma StillBacked(live: seq<F.Run>, more: seq<F.Run>, base: nat, b: nat)
    requires Backed(live, base, b) && forall r | r in live :: r in more
    ensures Backed(more, base, b)
  {
    var f: nat :| Backs(live, base, b, f);
    assert Backs(more, base, b, f);
  }

  lemma GetStands(c: Config, base: nat, h: F.Heap, st: State)
    requires Stands(c, base, h, st) && (NeedsSlab(st) ==> NextFrame(h) != 0)
    ensures GoodConfig(c) && (NeedsSlab(st) ==> Fresh(c, st, NextSupply(c, base, h)))
    ensures Stands(c, base, HeapAfter(h, st), Get(c, st, NextSupply(c, base, h)).0)
  {
    Supplied(c, base, h, st);
    var p := NextSupply(c, base, h);
    R.GetKeeps(c, st, p);
    R.GetBlocks(c, st, p);
    if NeedsSlab(st) { F.AllocOwned(h, 1); }
    hide Inv, Fresh, Get, F.Owned, R.SupplyAt, Backed, NeedsSlab, F.Step;
    GetBacked(base, h, st, Get(c, st, p).0);
  }

  /** Old slabs keep their pages, a new one has the new page. */
  lemma GetBacked(base: nat, h: F.Heap, st: State, r: State)
    requires NeedsSlab(st) ==> NextFrame(h) != 0
    requires forall a | a in st.slabs :: Backed(h.live, base, st.slabs[a].backing)
    requires forall a | a in st.slabs :: a in r.slabs && r.slabs[a].backing == st.slabs[a].backing
    requires forall a | a in r.slabs && a !in st.slabs ::
               NeedsSlab(st) && r.slabs[a].backing == base + PAGE * NextFrame(h)
    ensures forall a | a in r.slabs :: Backed(HeapAfter(h, st).live, base, r.slabs[a].backing)
  {
    hide Backed, NeedsSlab, AllocRange;
    var g := HeapAfter(h, st);
    assert NeedsSlab(st) ==> g.live == h.live + [F.Run(NextFrame(h), 1)];
    forall a | a in r.slabs ensures Backed(g.live, base, r.slabs[a].backing) {
      if a in st.slabs {
        StillBacked(h.live, g.live, base, st.slabs[a].backing);
      } else {
        NewBacked(h.live, base, NextFrame(h));
      }
    }
  }

  lemma NewBacked(live: seq<F.Run>, base: nat, f: nat)
    ensures Backed(live + [F.Run(f, 1)], base, base + PAGE * f)
  {
    assert Backs(live + [F.Run(f, 1)], base, base + PAGE * f, f);
  }

  lemma PutStands(c: Config, base: nat, h: F.Heap, st: State, a: nat, i: nat)
    requires Stands(c, base, h, st) && IsLive(st, a, i)
    ensures Listed(st) && Stands(c, base, h, Put(st, a, i))
  {
    R.SpreadOfInv(c, st);
    R.PutKeeps(c, st, a, i);
    R.PutBlocks(c, st, a, i);
    hide Inv, Put, F.Owned, Backed;
  }

  lemma AllocStands(c: Config, base: nat, h: F.Heap, st: State, count: nat)
    requires Stands(c, base, h, st)
    ensures Stands(c, base, F.Step(h, F.Alloc(count)), st)
  {
    F.AllocOwned(h, count);
    hide Inv, F.Owned, AllocRange, Backed;
    var g := F.Step(h, F.Alloc(count));
    assert forall r | r in h.live :: r in g.live;
    hide F.Step;
    forall a | a in st.slabs ensures Backed(g.live, base, st.slabs[a].backing) {
      StillBacked(h.live, g.live, base, st.slabs[a].backing);
    }
  }

  lemma FreeStands(c: Config, base: nat, h: F.Heap, st: State, i: nat, single: bool)
    requires Stands(c, base, h, st) && F.Legal(h, F.Free(i, single)) && BacksNone(base, st, h.live[i])
    ensures Stands(c, base, F.Step(h, F.Free(i, single)), st)
  {
    F.FreeOwned(h, i, single);
    hide Inv, F.Owned, FreeRange, FreePage, Backed;
    forall a | a in st.slabs ensures Backed(F.Step(h, F.Free(i, single)).live, base, st.slabs[a].backing) {
      KeptPage(h.live, i, base, st.slabs[a].backing);
    }
  }

  lemma KeptPage(live: seq<F.Run>, i: nat, base: nat, b: nat)
    requires i < |live| && Backed(live, base, b) && b != base + PAGE * live[i].first
    ensures Backed(live[..i] + live[i + 1..], base, b)
  {
    var rest := live[..i] + live[i + 1..];
    var f: nat :| Backs(live, base, b, f);
    var j :| 0 <= j < |live| && live[j] == F.Run(f, 1);
    assert rest[if j < i then j else j - 1] == F.Run(f, 1);
    assert Backs(rest, base, b, f);
  }

  lemma StepGood(c: Config, base: nat, w: World, k: Call)
    requires Good(c, base, w) && Legal(c, base, w, k)
    ensures Good(c, base, Step(c, base, w, k))
  {
    hide Stands, Inv, Fresh, Get, Put;
    match k
    case GetCall =>
      if !OutOfPages(w) {
        GetStands(c, base, w.heap, w.cache.st);
        R.StepAgrees(c, w.cache, R.GetCall(NextSupply(c, base, w.heap)));
      }
    case PutCall(ptr) =>
      R.StepAgrees(c, w.cache, R.PutCall(ptr));
      PutIs(c, w.cache, ptr);
      var a, i :| R.LiveAt(c, w.cache.st, ptr, a, i) && Listed(w.cache.st) &&
                  R.Step(c, w.cache, R.PutCall(ptr)).st == Put(w.cache.st, a, i);
      PutStands(c, base, w.heap, w.cache.st, a, i);
    case Elsewhere(call) =>
      match call {
        case Alloc(count) => AllocStands(c, base, w.heap, w.cache.st, count);
        case Free(i, single) => FreeStands(c, base, w.heap, w.cache.st, i, single);
      }
  }

  /** No frame of the map is free. */
  ghost predicate NoFrameFree(m: Map) { forall k: nat :: !F.FreeAt(m.bits, k, 1) }

  lemma NextFrameIff(h: F.Heap)
    requires F.Owned(h)
    ensures NextFrame(h) == 0 <==> NoFrameFree(h.map')
  {
    AllocFailsIffNoRun(h.map', 1);
    forall k: nat ensures F.FreeAt(h.map'.bits, k, 1) <==> k < |h.map'.bits| && FreeRun(h.map'.bits, true, k, 1) {
      F.FreeAtIs(h.map'.bits, k, 1);
    }
    hide F.FreeAt, FreeRun, AllocRange;
  }

  /** What a call does. get_object fails only if all objects are out and no frame is free; else it hands out an address
      that was not out, and takes a page only if all objects were out. */
  ghost predicate Does(c: Config, base: nat, w: World, k: Call, z: World) {
    match k
    case GetCall =>
      if R.AllOut(w.cache.st) && NoFrameFree(w.heap.map') then z == w
      else
        && (exists ptr :: ptr !in w.cache.out && z.cache.out == w.cache.out + {ptr})
        && if R.AllOut(w.cache.st) then F.Served(w.heap.map', z.heap.map', 1, w.heap.live, z.heap.live)
           else z.heap == w.heap
    case PutCall(ptr) => z.heap == w.heap && z.cache.out == w.cache.out - {ptr}
    case Elsewhere(call) => F.Legal(w.heap, call) && z.heap == F.Step(w.heap, call) && z.cache == w.cache
  }

  lemma StepDoes(c: Config, base: nat, w: World, k: Call)
    requires Good(c, base, w) && Legal(c, base, w, k)
    ensures Does(c, base, w, k, Step(c, base, w, k))
  {
    hide Inv, R.Agrees, F.Owned, Backed, GoodConfig, R.Step, F.Step;
    match k
    case GetCall =>
      NextFrameIff(w.heap);
      R.NeedsSlabIff(c, w.cache.st);
      GetGives(c, base, w);
      hide *;
      GetDoes(c, base, w, Step(c, base, w, k));
    case PutCall(ptr) =>
      R.StepAgrees(c, w.cache, R.PutCall(ptr));
    case Elsewhere(call) =>
  }

  lemma GetGives(c: Config, base: nat, w: World)
    requires Good(c, base, w)
    ensures var z := Step(c, base, w, GetCall);
            if OutOfPages(w) then z == w
            else
              && z.heap == HeapAfter(w.heap, w.cache.st)
              && exists ptr :: ptr !in w.cache.out && z.cache.out == w.cache.out + {ptr}
    ensures Ok(w.heap.map') && (OutOfPages(w) <==> NeedsSlab(w.cache.st) && NextFrame(w.heap) == 0)
  {
    assert Ok(w.heap.map');
    R.SpreadOfInv(c, w.cache.st);
    hide Inv, Fresh, R.Step, F.Step, NextFrame, NeedsSlab, R.Agrees, F.Owned, Backed, Ok, GoodConfig, Listed;
    if !OutOfPages(w) {
      Supplied(c, base, w.heap, w.cache.st);
      R.StepAgrees(c, w.cache, R.GetCall(NextSupply(c, base, w.heap)));
    }
  }

  lemma GetDoes(c: Config, base: nat, w: World, z: World)
    requires Ok(w.heap.map')
    requires NextFrame(w.heap) == 0 <==> NoFrameFree(w.heap.map')
    requires NeedsSlab(w.cache.st) <==> R.AllOut(w.cache.st)
    requires OutOfPages(w) <==> NeedsSlab(w.cache.st) && NextFrame(w.heap) == 0
    requires if OutOfPages(w) then z == w
             else
               && z.heap == HeapAfter(w.heap, w.cache.st)
               && exists ptr :: ptr !in w.cache.out && z.cache.out == w.cache.out + {ptr}
    ensures Does(c, base, w, GetCall, z)
  {
    hide NextFrame, NeedsSlab, OutOfPages, R.AllOut, NoFrameFree, F.Step, Ok, F.Served;
    F.AllocIs(w.heap, 1);
  }

  lemma PutIs(c: Config, y: R.System, ptr: nat)
    requires R.Agrees(c, y) && ptr in y.out
    ensures GoodConfig(c) && Listed(y.st)
    ensures exists a, i :: R.LiveAt(c, y.st, ptr, a, i) && R.Step(c, y, R.PutCall(ptr)).st == Put(y.st, a, i)
  {
    hide Inv, Put;
    R.SpreadOfInv(c, y.st);
  }

  ghost predicate LegalRun(c: Config, base: nat, w: World, calls: seq<Call>)
    requires Good(c, base, w)
    decreases |calls|
  {
    calls == [] ||
    (Legal(c, base, w, calls[0]) &&
     (StepGood(c, base, w, calls[0]); LegalRun(c, base, Step(c, base, w, calls[0]), calls[1..])))
  }

  ghost function Execute(c: Config, base: nat, w: World, calls: seq<Call>): World
    requires Good(c, base, w) && LegalRun(c, base, w, calls)
    decreases |calls|
  {
    if calls == [] then w
    else
      StepGood(c, base, w, calls[0]);
      Execute(c, base, Step(c, base, w, calls[0]), calls[1..])
  }

  /** All of an object lies in one page, which is marked used and held by one live allocation alone. */
  ghost predicate InOwnPage(c: Config, base: nat, h: F.Heap, ptr: nat) {
    exists i {:trigger h.live[i]} | 0 <= i < |h.live| ::
      var f := h.live[i].first;
      && base + PAGE * f <= ptr && ptr + c.objSize <= base + PAGE * (f + 1)
      && 1 <= f < |h.map'.bits| && h.map'.bits[f]
      && F.Holds(h.live[i], f) && forall j | 0 <= j < |h.live| && j != i :: !F.Holds(h.live[j], f)
  }

  lemma ObjectInOwnPage(c: Config, base: nat, w: World, ptr: nat)
    requires Good(c, base, w) && ptr in w.cache.out
    ensures InOwnPage(c, base, w.heap, ptr)
  {
    var st := w.cache.st;
    var a, n :| R.LiveAt(c, st, ptr, a, n);
    R.NoCollision(c, st, a, n, a, n);
    hide Inv, F.Owned, F.Holds, InOwnPage, Backed;
    OwnPage(c, base, w.heap, st.slabs[a].backing, ptr);
  }

  lemma OwnPage(c: Config, base: nat, h: F.Heap, b: nat, ptr: nat)
    requires F.Owned(h) && Backed(h.live, base, b) && b <= ptr && ptr + c.objSize <= b + PAGE
    ensures InOwnPage(c, base, h, ptr)
  {
    var f: nat :| Backs(h.live, base, b, f);
    var i :| 0 <= i < |h.live| && h.live[i] == F.Run(f, 1);
    assert F.Holds(h.live[i], f);
    forall j | 0 <= j < |h.live| && j != i ensures !F.Holds(h.live[j], f) {
      var lo, hi := if i < j then i else j, if i < j then j else i;
      assert F.Holds(h.live[lo], f) ==> !F.Holds(h.live[hi], f);
    }
    hide F.Holds, Ok;
    assert h.live[i].first == f;
  }

  /** No assumption about the back end is left: from a cache without slabs and any allocator, over any run of
      get_object, whether a page is left or not, of put_object and of calls of the allocator by others
      who free no page of the cache, the cache keeps its invariant, pages that live allocations hold stay
      apart and marked, and every object handed out lies in a page that only its slab's allocation
      holds. */
  lemma {:induction false} RunsStandOnFrames(c: Config, base: nat, w: World, calls: seq<Call>)
    requires Good(c, base, w) && LegalRun(c, base, w, calls)
    ensures var z := Execute(c, base, w, calls);
            && Inv(c, z.cache.st) && F.Owned(z.heap) && R.Agrees(c, z.cache) && Good(c, base, z)
            && forall ptr | ptr in z.cache.out :: InOwnPage(c, base, z.heap, ptr)
    decreases |calls|
  {
    hide InOwnPage, Inv, F.Owned;
    if calls != [] {
      StepGood(c, base, w, calls[0]);
      RunsStandOnFrames(c, base, Step(c, base, w, calls[0]), calls[1..]);
    } else {
      forall ptr | ptr in w.cache.out ensures InOwnPage(c, base, w.heap, ptr) { ObjectInOwnPage(c, base, w, ptr); }
    }
  }

  /** Runs can start with any allocator and no slab. */
  lemma StartGood(c: Config, base: nat, h: F.Heap)
    requires GoodConfig(c) && c.compact && c.allocSize == PAGE && F.Owned(h)
    ensures Good(c, base, World(h, R.System(State(map[], [], [], [], []), {})))
  {
    R.EmptyAgrees(c);
  }

  /** What get_object leaves when it is given p, and the object it hands out. */
  ghost predicate Gotten(c: Config, st: State, p: Supply, r: State, ptr: nat) {
    && Inv(c, st) && (NeedsSlab(st) ==> Fresh(c, st, p))
    && var (q, a, i) := Get(c, st, p);
       r == q && a in r.slabs && ptr == Buffer(c, r.slabs[a].backing, i)
  }

  // ---- the code -------------------------------------------------------------------------------

  /** Neither a slab in use nor an empty one is listed. */
  method LacksSlab(cache: SlabCache) returns (b: bool)
    requires cache.Valid()
    ensures b == NeedsSlab(cache.st)
  {
    var noneUsed := L.ListEmpty(cache.used, cache.onUsed);
    var noneFree := L.ListEmpty(cache.free, cache.onFree);
    b := noneUsed && noneFree;
  }

  /** _backing_page_alloc for a block of one page. */
  method DrawPage(phys: Allocator, ghost live: seq<F.Run>) returns (page: nat, ghost now: seq<F.Run>)
    requires phys.Valid() && F.Owned(F.Heap(phys.Abs(), live))
    modifies phys`used, phys.data
    ensures phys.Valid()
    ensures var h := F.Heap(old(phys.Abs()), live);
            && F.Heap(phys.Abs(), now) == (if NextFrame(h) == 0 then h else F.Step(h, F.Alloc(1)))
            && (page == 0 <==> NextFrame(h) == 0)
            && (page != 0 ==> page == phys.base + PAGE * NextFrame(h))
  {
    ghost var h := F.Heap(phys.Abs(), live);
    AllocTakesFreshRun(phys.Abs(), 1);
    page := phys.AllocatePageRange(1);
    now := if NextFrame(h) == 0 then live else F.Step(h, F.Alloc(1)).live;
  }

  /** get_object of a cache on the heap that draws its blocks from the allocator on the heap: a page when
      no slab has a free buffer, a null pointer when none is left. The page is drawn before the slab is
      picked instead of while it is. */
  method GetPaged(cache: SlabCache, phys: Allocator, ghost live: seq<F.Run>)
    returns (ptr: nat, ghost now: seq<F.Run>)
    requires cache.Valid() && phys.Valid()
    requires Stands(cache.cfg, phys.base, F.Heap(phys.Abs(), live), cache.st)
    modifies cache, cache.free, cache.used, cache.full, cache.objMap, cache.Links(), phys`used, phys.data
    ensures cache.Valid() && phys.Valid()
    ensures Stands(cache.cfg, phys.base, F.Heap(phys.Abs(), now), cache.st)
    ensures var h, st := F.Heap(old(phys.Abs()), live), old(cache.st);
            if NeedsSlab(st) && NextFrame(h) == 0 then
              ptr == 0 && cache.st == st && F.Heap(phys.Abs(), now) == h
            else
              && F.Heap(phys.Abs(), now) == HeapAfter(h, st)
              && Gotten(cache.cfg, st, NextSupply(cache.cfg, phys.base, h), cache.st, ptr)
  {
    hide *;
    ghost var h, st := F.Heap(phys.Abs(), live), cache.st;
    StandsFacts(cache.cfg, phys.base, h, st);
    now := live;
    var supply := R.SupplyAt(cache.cfg, 0);
    var lacks := LacksSlab(cache);
    if lacks {
      var page;
      page, now := DrawPage(phys, live);
      if page == 0 {
        return 0, now;
      }
      supply := R.SupplyAt(cache.cfg, page);
    }
    GetStands(cache.cfg, phys.base, h, st);
    GetSame(cache.cfg, st, supply, NextSupply(cache.cfg, phys.base, h));
    ptr := cache.GetObject(supply);
    GottenIs(cache.cfg, st, NextSupply(cache.cfg, phys.base, h), cache.st, ptr);
  }

  lemma StandsFacts(c: Config, base: nat, h: F.Heap, st: State)
    requires Stands(c, base, h, st)
    ensures F.Owned(h) && Inv(c, st) && GoodConfig(c)
    ensures HeapAfter(h, st) == if NeedsSlab(st) then F.Step(h, F.Alloc(1)) else h
    ensures NextSupply(c, base, h) == R.SupplyAt(c, base + PAGE * NextFrame(h))
  {}

  /** What the back ends would deliver does not matter when they are not asked. */
  lemma GetSame(c: Config, st: State, p: Supply, q: Supply)
    requires Inv(c, st) && (NeedsSlab(st) ==> Fresh(c, st, q) && p == q)
    ensures Get(c, st, p) == Get(c, st, q)
  {}

  lemma GottenIs(c: Config, st: State, p: Supply, r: State, ptr: nat)
    requires GoodConfig(c) && Inv(c, st) && (NeedsSlab(st) ==> Fresh(c, st, p))
    requires var (q, a, i) := Get(c, st, p);
             r == q && a in r.slabs && ptr == Buffer(c, r.slabs[a].backing, i)
    ensures Gotten(c, st, p, r, ptr)
  {}
}
