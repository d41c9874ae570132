/** kernel/memory/virtmm.cc as it runs: page tables in physical memory, written in place, their
    frames drawn from the frame allocator. */
module Mmu {
  import opened Arithmetic
  import opened PageTables
  import BitWords
  import Frames
  import opened FrameAllocator

  const WRITABLE: nat := 2
  const MAP_INVALID: nat := 0xffff_ffff_ffff_ffff

  class AddressSpace {
    const phys: Allocator
    const mem: array2<nat>       // physical memory: frames of 512 words
    const root: nat              // the frame of the PML4
    ghost var level: map<nat, nat>

    /** An empty address space: a frame taken from the allocator and cleared. */
    constructor (allocator: Allocator, memory: array2<nat>, pml4: nat)
      requires allocator.Valid() && memory.Length1 == ENTRIES
      requires memory.Length0 == |allocator.Abs().bits|
      requires allocator.base + PAGE * memory.Length0 <= TWO64
      requires 1 <= pml4 < memory.Length0 && allocator.Abs().bits[pml4]
      requires forall i | 0 <= i < ENTRIES :: memory[pml4, i] == 0
      ensures Valid() && phys == allocator && mem == memory && root == pml4
      ensures forall va: nat :: Leaf(Now(), va) == 0
    {
      phys := allocator;
      mem := memory;
      root := pml4;
      level := map[pml4 := 4];
      new;
      assert forall i | 0 <= i < ENTRIES :: Child(Snap(), pml4, i) == 0;
    }

    ghost function Row(f: nat): (r: seq<nat>)
      requires f < mem.Length0
      reads mem
      ensures |r| == mem.Length1
      ensures forall i | 0 <= i < |r| :: r[i] == mem[f, i]
    {
      seq(mem.Length1, i requires 0 <= i < mem.Length1 reads mem => mem[f, i])
    }

    ghost function Snap(): (m: Mem)
      reads mem
      ensures |m| == mem.Length0
      ensures forall f | 0 <= f < |m| :: m[f] == Row(f)
    {
      seq(mem.Length0, f requires 0 <= f < mem.Length0 reads mem => Row(f))
    }

    /** The address space at this moment. */
    ghost function Now(): Space
      reads this, mem, phys, phys.data
    {
      Space(Snap(), root, level, phys.Abs().bits)
    }

    ghost predicate Valid()
      reads this, mem, phys, phys.data
    {
      && phys.Valid()
      && mem.Length1 == ENTRIES
      && phys.base + PAGE * mem.Length0 <= TWO64
      && Tree(Now())
    }

    function VirtAddr(addr: nat): nat
      reads phys`base
    {
      if addr == 0 then 0 else (addr + phys.base) % TWO64
    }

    function PhysAddr(ptr: nat): int
      reads phys`base
    {
      if ptr == 0 then 0 else ptr - phys.base
    }

    /** The pointer through which the table in frame t is reached. */
    function Pointer(t: nat): nat
      reads phys`base
    {
      VirtAddr(PAGE * t)
    }

    lemma PointerIsFrame(t: nat)
      requires 1 <= t < mem.Length0 && phys.base + PAGE * mem.Length0 <= TWO64
      ensures Pointer(t) == PAGE * t + phys.base
      ensures Pointer(t) != 0 && PhysAddr(Pointer(t)) == PAGE * t && PhysAddr(Pointer(t)) / PAGE == t
    {}

    lemma ValidFacts()
      requires Valid()
      ensures phys.Valid() && mem.Length1 == ENTRIES && |Snap()| == mem.Length0 == |Now().used|
      ensures phys.base + PAGE * mem.Length0 <= TWO64
      ensures Now().mem == Snap() && Now().root == root && Now().level == level
      ensures IsTable(Now(), root, 4)
    {}

    /** A table that `Now()` knows is addressed through its pointer. */
    lemma TableFacts(t: nat, l: nat)
      requires Valid() && IsTable(Now(), t, l)
      ensures 1 <= t < mem.Length0 == |Snap()| && |Snap()[t]| == ENTRIES == mem.Length1
      ensures Pointer(t) != 0 && PhysAddr(Pointer(t)) / PAGE == t
    {
      PointerIsFrame(t);
    }

    method WriteWord(f: nat, i: nat, w: nat)
      requires f < mem.Length0 && i < mem.Length1
      modifies mem
      ensures Snap() == Put(old(Snap()), f, i, w)
    {
      mem[f, i] := w;
      forall g | 0 <= g < mem.Length0 ensures Snap()[g] == Put(old(Snap()), f, i, w)[g] {
        assert Row(g) == if g == f then old(Row(g))[i := w] else old(Row(g));
      }
    }

    method ReadWord(f: nat, i: nat) returns (w: nat)
      requires f < mem.Length0 && i < mem.Length1
      ensures w == Snap()[f][i]
    {
      w := mem[f, i];
      assert Snap()[f] == Row(f);
    }

    /** memset( table, 0, PAGE_SIZE ) */
    method ClearFrame(f: nat)
      requires f < mem.Length0 && mem.Length1 == ENTRIES
      modifies mem
      ensures Snap() == old(Snap())[f := seq(ENTRIES, j => 0)]
    {
      var i := 0;
      while i < ENTRIES
        invariant 0 <= i <= ENTRIES
        invariant forall j | 0 <= j < i :: mem[f, j] == 0
        invariant forall g, j | 0 <= g < mem.Length0 && 0 <= j < ENTRIES && g != f :: mem[g, j] == old(mem[g, j])
      {
        mem[f, i] := 0;
        i := i + 1;
      }
      forall g | 0 <= g < mem.Length0 ensures Snap()[g] == old(Snap())[f := seq(ENTRIES, j => 0)][g] {
        if g == f { assert Row(g) == seq(ENTRIES, j => 0); } else { assert Row(g) == old(Row(g)); }
      }
    }

    // ---- _map_region --------------------------------------------------------------------------

    method NewTable(t: nat, i: nat, ghost l: nat) returns (next: nat)
      requires Valid() && IsTable(Now(), t, l) && 2 <= l <= 4 && i < ENTRIES && Child(Snap(), t, i) == 0
      modifies phys`used, phys.data, mem, this`level
      ensures Valid()
      ensures Grown(old(Now()), Now()) && SameLeaves(old(Now()), Now())
      ensures next == 0 ==> Now() == old(Now()) && forall k | 1 <= k < |Now().used| :: Now().used[k]
      ensures next != 0 ==>
                var c := Child(Snap(), t, i);
                c != 0 && IsTable(Now(), c, l - 1) && next == Pointer(c) &&
                BitWords.Bit(Snap()[t][i], 0) && BitWords.Bit(Snap()[t][i], 1)
    {
      hide Grown, SameLeaves, Entry, Frames.FirstFit, Frames.Ok, Frames.MarkUsed, CanHang, Tree;
      ghost var s := Now();
      NewFrame(phys.Abs());
      ValidFacts();
      TableFacts(t, l);
      next := phys.AllocatePage();
      if next == 0 {
        GrownSame(s);
        return;
      }
      ghost var n := PhysAddr(next) / PAGE;
      PointerIsFrame(n);
      HangNew(s, t, l, i, n);
      HangFrame(next, t, i, n, s);
    }

    /** A frame fresh from the allocator is cleared and its address written into an empty entry. */
    method HangFrame(next: nat, t: nat, i: nat, ghost n: nat, ghost s: Space)
      requires 1 <= n < mem.Length0 && next == Pointer(n) && PhysAddr(next) == PAGE * n && mem.Length1 == ENTRIES
      requires CanHang(s, t, i, n, Entry(PAGE * n, WRITABLE)) && Now() == s.(used := s.used[n := true])
      modifies mem, this`level
      ensures Now() == Hang(s, t, i, n, Entry(PAGE * n, WRITABLE))
    {
      hide Entry, Tree;
      assert t < |Snap()| && t != n by { HangPlace(s, t, i, n, Entry(PAGE * n, WRITABLE)); }
      ClearFrame(PhysAddr(next) / PAGE);
      WriteWord(t, i, Entry(PhysAddr(next), WRITABLE));
      level := level[n := level[t] - 1];
    }

    /** The table below `table` on the way to va, made and hung in when the entry is empty; a null
        pointer when no frame is left. */
    method EnterTable(table: nat, ghost t: nat, l: nat, va: nat) returns (next: nat)
      requires Valid() && IsTable(Now(), t, l) && 2 <= l <= 4 && table == Pointer(t)
      modifies phys`used, phys.data, mem, this`level
      ensures Valid()
      ensures Grown(old(Now()), Now()) && SameLeaves(old(Now()), Now())
      ensures next == 0 ==> Now() == old(Now()) && forall k | 1 <= k < |Now().used| :: Now().used[k]
      ensures next != 0 ==>
                && t < |Snap()| && |Snap()[t]| == ENTRIES
                && var c := Child(Snap(), t, Index(va, l));
                   c != 0 && IsTable(Now(), c, l - 1) && next == Pointer(c)
    {
      TableFacts(t, l);
      var e := ReadWord(PhysAddr(table) / PAGE, Index(va, l));
      assert Child(Snap(), t, Index(va, l)) == FrameNo(e);
      next := VirtAddr(PAGE * FrameNo(e));
      if FrameNo(e) != 0 {
        PointerIsFrame(FrameNo(e));
        GrownSame(Now());
      }
      if next == 0 {
        next := NewTable(PhysAddr(table) / PAGE, Index(va, l), l);
      }
    }

    /** The three table steps of one round of _map_region. */
    method EnterPageTable(pml4: nat, va: nat) returns (pt: nat)
      requires Valid() && pml4 == Pointer(root)
      modifies phys`used, phys.data, mem, this`level
      ensures Valid()
      ensures Grown(old(Now()), Now()) && SameLeaves(old(Now()), Now())
      ensures pt == 0 ==> forall k | 1 <= k < |Now().used| :: Now().used[k]
      ensures pt != 0 ==> TableOf(Now(), va) != 0 && pt == Pointer(TableOf(Now(), va))
    {
      hide *;
      ghost var s0 := Now();
      ValidFacts();
      var pdpt := EnterTable(pml4, root, 4, va);
      ghost var s1 := Now();
      if pdpt == 0 {
        return 0;
      }
      ghost var t3 := Child(Snap(), root, Index(va, 4));
      ValidFacts();
      var pdt := EnterTable(pdpt, t3, 3, va);
      ghost var s2 := Now();
      GrownTwice(s0, s1, s2);
      SameTwice(s0, s1, s2);
      if pdt == 0 {
        return 0;
      }
      ghost var t2 := Child(Snap(), t3, Index(va, 3));
      ValidFacts();
      pt := EnterTable(pdt, t2, 2, va);
      ghost var s3 := Now();
      GrownTwice(s0, s2, s3);
      SameTwice(s0, s2, s3);
      if pt == 0 {
        return;
      }
      ValidFacts();
      ThreeSteps(s1, s2, s3, va, t3, t2, Child(Snap(), t2, Index(va, 2)));
      TableOfIsTable(s3, va);
    }

    /** One round of _map_region: the tables for va, then its leaf entry. */
    method MapPage(pml4: nat, va: nat, paddr: nat, flags: nat) returns (ok: bool)
      requires Valid() && pml4 == Pointer(root)
      modifies phys`used, phys.data, mem, this`level
      ensures Valid()
      ensures Grown(old(Now()), Now())
      ensures !ok ==> SameLeaves(old(Now()), Now()) && forall k | 1 <= k < |Now().used| :: Now().used[k]
      ensures ok ==> WroteLeaf(old(Now()), Now(), va, Entry(paddr, flags))
    {
      hide Tree, Grown, SameLeaves, WroteLeaf, TableOf, Leaf, Entry;
      ghost var s := Now();
      var pt := EnterPageTable(pml4, va);
      if pt == 0 {
        return false;
      }
      ghost var r := Now();
      ghost var t := TableOf(r, va);
      ValidFacts();
      TableOfIsTable(r, va);
      TableFacts(t, 1);
      LeafGrown(s, r, va, Entry(paddr, flags));
      WriteWord(PhysAddr(pt) / PAGE, Index(va, 1), Entry(paddr, flags));
      assert Now() == PutLeaf(r, t, Index(va, 1), Entry(paddr, flags));
      ok := true;
    }

    /** The same for the page behind the first `done` pages of a region. */
    method MapNext(pml4: nat, v: nat, p: nat, flags: nat, ghost s: Space, ghost va: nat, ghost paddr: nat,
                   ghost done: nat)
      returns (ok: bool)
      requires Valid() && pml4 == Pointer(root) && Grown(s, Now()) && MappedOver(s, Now(), va, paddr, flags, done)
      requires v == va + PAGE * done && p == paddr + PAGE * done && done < TWO36
      modifies phys`used, phys.data, mem, this`level
      ensures Valid() && Grown(s, Now())
      ensures MappedOver(s, Now(), va, paddr, flags, if ok then done + 1 else done)
      ensures !ok ==> forall k | 1 <= k < |Now().used| :: Now().used[k]
    {
      hide Tree, Grown, SameLeaves, MappedOver, WroteLeaf, Leaf, Entry, Pointer;
      ghost var r := Now();
      ok := MapPage(pml4, v, p, flags);
      GrownTwice(s, r, Now());
      if ok {
        MapOneMore(s, r, Now(), va, paddr, flags, done);
      } else {
        MapSame(s, r, Now(), va, paddr, flags, done);
      }
    }

    /** _map_region: on success the translation function is updated on exactly the pages of the
        region; on failure on the first `done` of them, and no frame is left to allocate. */
    method MapRegion(pml4: nat, va: nat, paddr: nat, len: nat, flags: nat) returns (ok: bool, ghost done: nat)
      requires Valid() && (pml4 == 0 || pml4 == Pointer(root))
      requires 1 <= len && PagesIn(len) <= TWO36
      modifies phys`used, phys.data, mem, this`level
      ensures Valid() && Grown(old(Now()), Now())
      ensures pml4 == 0 ==> !ok && Now() == old(Now())
      ensures MappedOver(old(Now()), Now(), va, paddr, flags, done)
      ensures ok ==> PAGE * (done - 1) < len <= PAGE * done
      ensures !ok ==> PAGE * done < len
      ensures !ok && pml4 != 0 ==> forall k | 1 <= k < |Now().used| :: Now().used[k]
    {
      hide Tree, Grown, SameLeaves, MappedOver, WroteLeaf, Leaf, Entry, Pointer, IsTable;
      ghost var s := Now();
      GrownSame(s);
      MapNone(s, va, paddr, flags);
      done := 0;
      var pages := len;
      if len % PAGE != 0 {
        pages := pages + PAGE;
      }
      pages := pages / PAGE;
      RoundedUp(len);
      hide PagesIn;
      if pml4 == 0 {
        return false, done;
      }
      var v, p := va, paddr;
      while true
        invariant Valid() && Grown(s, Now())
        invariant 1 <= pages <= PagesIn(len) && done + pages == PagesIn(len)
        invariant v == va + PAGE * done && p == paddr + PAGE * done
        invariant MappedOver(s, Now(), va, paddr, flags, done)
        decreases pages
      {
        var mapped := MapNext(pml4, v, p, flags, s, va, paddr, done);
        if !mapped {
          return false, done;
        }
        done := done + 1;
        v := v + PAGE;
        p := p + PAGE;
        pages := pages - 1;
        if pages == 0 {
          break;
        }
      }
      ok := true;
    }

    // ---- lookup_mapping and _unmap_region -----------------------------------------------------

    /** The pointer to the table below `table` on the way to va, null when the entry is empty. */
    method FollowEntry(table: nat, ghost t: nat, l: nat, va: nat) returns (e: nat, next: nat)
      requires Valid() && IsTable(Now(), t, l) && 2 <= l <= 4 && table == Pointer(t)
      ensures t < |Snap()| && |Snap()[t]| == ENTRIES && e == Snap()[t][Index(va, l)]
      ensures next == 0 <==> Child(Snap(), t, Index(va, l)) == 0
      ensures next != 0 ==> var c := Child(Snap(), t, Index(va, l)); IsTable(Now(), c, l - 1) && next == Pointer(c)
    {
      TableFacts(t, l);
      e := ReadWord(PhysAddr(table) / PAGE, Index(va, l));
      next := VirtAddr(PAGE * FrameNo(e));
      assert Child(Snap(), t, Index(va, l)) == FrameNo(e);
      if FrameNo(e) != 0 {
        PointerIsFrame(FrameNo(e));
      }
    }

    /** lookup_mapping: succeeds exactly when the walk ends at an entry whose frame, seen through the
        linear map, is not the null pointer; the entries of the tables that were reached are
        returned, the rest are marked invalid. */
    method LookupMapping(cr3: nat, va: nat) returns (ok: bool, pml4e: nat, pdpte: nat, pdte: nat, pte: nat)
      requires Valid() && (cr3 == 0 || cr3 == PAGE * root)
      ensures cr3 == 0 ==> !ok && pml4e == pdpte == pdte == pte == MAP_INVALID
      ensures cr3 != 0 ==> (ok <==> VirtAddr(PAGE * FrameNo(Leaf(Now(), va))) != 0)
      ensures cr3 != 0 && TableOf(Now(), va) != 0 ==>
                && EntriesOnWalk(Now(), va, pml4e, pdpte, pdte, Leaf(Now(), va))
                && pte == if ok then Leaf(Now(), va) else MAP_INVALID
      ensures TableOf(Now(), va) == 0 ==> !ok && pte == MAP_INVALID
      ensures cr3 != 0 && TableOf(Now(), va) == 0 ==> EntriesBefore(Now(), va, pml4e, pdpte, pdte)
    {
      hide Tree, Grown, SameLeaves, TableOf, Leaf;
      var pml4 := VirtAddr(cr3);
      pml4e, pdpte, pdte, pte := MAP_INVALID, MAP_INVALID, MAP_INVALID, MAP_INVALID;
      if cr3 == 0 {
        return false, pml4e, pdpte, pdte, pte;
      }
      ghost var s := Now();
      ValidFacts();
      TableFacts(root, 4);
      var ptr;
      ghost var t3 := Child(s.mem, root, Index(va, 4));
      pml4e, ptr := FollowEntry(pml4, root, 4, va);
      if ptr == 0 {
        BreakingWalk(s, va);
        BrokenWalk(s, va);
        return false, MAP_INVALID, pdpte, pdte, pte;
      }
      TableFacts(t3, 3);
      ghost var t2 := Child(s.mem, t3, Index(va, 3));
      pdpte, ptr := FollowEntry(ptr, t3, 3, va);
      if ptr == 0 {
        BreakingWalk(s, va);
        BrokenWalk(s, va);
        return false, pml4e, MAP_INVALID, pdte, pte;
      }
      TableFacts(t2, 2);
      ghost var t1 := Child(s.mem, t2, Index(va, 2));
      pdte, ptr := FollowEntry(ptr, t2, 2, va);
      if ptr == 0 {
        BreakingWalk(s, va);
        BrokenWalk(s, va);
        return false, pml4e, pdpte, MAP_INVALID, pte;
      }
      WholeWalk(s, va, t3, t2, t1);
      TableFacts(t1, 1);
      pte := ReadWord(PhysAddr(ptr) / PAGE, Index(va, 1));
      ptr := VirtAddr(PAGE * FrameNo(pte));
      if ptr == 0 {
        return false, pml4e, pdpte, pdte, MAP_INVALID;
      }
      ok := true;
    }

    /** The null test of lookup_mapping means "no frame" unless the linear map wraps to 0. */
    lemma NullPointerIff(f: nat)
      requires phys.base < TWO64 && f < TWO41
      ensures VirtAddr(PAGE * f) == 0 <==> f == 0 || PAGE * f + phys.base == TWO64
    {}

    method MapFixed(cr3: nat, va: nat, paddr: nat, flags: nat) returns (ok: bool)
      requires Valid() && (cr3 == 0 || cr3 == PAGE * root)
      modifies phys`used, phys.data, mem, this`level
      ensures Valid() && Grown(old(Now()), Now())
      ensures MappedOver(old(Now()), Now(), va, paddr, flags, if ok then 1 else 0)
      ensures !ok && cr3 != 0 ==> forall k | 1 <= k < |Now().used| :: Now().used[k]
    {
      hide Tree, Grown, MappedOver;
      ValidFacts();
      TableFacts(root, 4);
      ghost var done;
      ok, done := MapRegion(VirtAddr(cr3), va, paddr, PAGE, flags);
    }

    method UnmapFixed(cr3: nat, va: nat)
      requires Valid() && (cr3 == 0 || cr3 == PAGE * root)
      modifies phys`used, phys.data, mem
      ensures Valid() && Now().used == old(Now()).used
      ensures ClearedOver(old(Now()), Now(), va, if cr3 != 0 then 1 else 0)
    {
      hide Tree, SameTables, ClearedOver, UsedAfter, TableOf, Releasable;
      ghost var s := Now();
      ValidFacts();
      TableFacts(root, 4);
      var ok; ghost var done;
      ok, done := UnmapRegion(VirtAddr(cr3), va, PAGE, false);
      if done == 0 && cr3 != 0 {
        assert va + PAGE * done == va;
        ClearMissing(s, Now(), va);
      }
    }

    /** The page table for va, a null pointer when a table above it is missing. */
    method FindPageTable(pml4: nat, va: nat) returns (pt: nat)
      requires Valid() && pml4 == Pointer(root)
      ensures pt == 0 <==> TableOf(Now(), va) == 0
      ensures pt != 0 ==> pt == Pointer(TableOf(Now(), va))
    {
      ghost var s := Now();
      ValidFacts();
      var e, pdpt := FollowEntry(pml4, root, 4, va);
      if pdpt == 0 {
        return 0;
      }
      ghost var t3 := Child(s.mem, root, Index(va, 4));
      var e', pdt := FollowEntry(pdpt, t3, 3, va);
      if pdt == 0 {
        return 0;
      }
      ghost var t2 := Child(s.mem, t3, Index(va, 3));
      e, pt := FollowEntry(pdt, t2, 2, va);
      if pt == 0 {
        return;
      }
      WholeWalk(s, va, t3, t2, Child(s.mem, t2, Index(va, 2)));
      TableFacts(Child(s.mem, t2, Index(va, 2)), 1);
    }

    /** The frame mapped at va may be given back: it holds no table, and its pointer does not wrap. */
    ghost predicate Releasable(s: Space, va: nat)
      requires Tree(s)
      reads phys`base
    {
      var f := FrameNo(Leaf(s, va));
      f !in s.level && PAGE * f + phys.base < TWO64
    }

    lemma StillReleasable(s: Space, r: Space, va: nat)
      requires Tree(s) && Tree(r) && r.level == s.level && Leaf(r, va) == Leaf(s, va)
      ensures Releasable(s, va) <==> Releasable(r, va)
    {}

    /** One round of _unmap_region. */
    method UnmapPage(pml4: nat, va: nat, freePage: bool) returns (present: bool)
      requires Valid() && pml4 == Pointer(root)
      requires freePage ==> Releasable(Now(), va)
      modifies phys`used, phys.data, mem
      ensures Valid() && SameTables(old(Now()), Now())
      ensures present <==> TableOf(old(Now()), va) != 0
      ensures !present ==> Now() == old(Now())
      ensures present ==> WroteLeaf(old(Now()), Now(), va, Cleared(Leaf(old(Now()), va)))
      ensures Now().used == if freePage && present then Freed(old(Now()).used, FrameNo(Leaf(old(Now()), va)))
                            else old(Now()).used
    {
      hide Tree, SameTables, WroteLeaf, TableOf, Leaf, Releasable, Cleared, Freed;
      SameTablesSelf(Now());
      var pt := FindPageTable(pml4, va);
      if pt == 0 {
        return false;
      }
      ClearEntry(pt, va, freePage);
      present := true;
    }

    method ClearEntry(pt: nat, va: nat, freePage: bool)
      requires Valid() && TableOf(Now(), va) != 0 && pt == Pointer(TableOf(Now(), va))
      requires freePage ==> Releasable(Now(), va)
      modifies phys`used, phys.data, mem
      ensures Valid() && SameTables(old(Now()), Now())
      ensures WroteLeaf(old(Now()), Now(), va, Cleared(Leaf(old(Now()), va)))
      ensures Now().used == if freePage then Freed(old(Now()).used, FrameNo(Leaf(old(Now()), va)))
                            else old(Now()).used
    {
      hide Tree, SameTables, WroteLeaf, TableOf, Leaf, Index, Freed;
      ghost var s := Now();
      ghost var t := TableOf(s, va);
      ValidFacts();
      TableOfIsTable(s, va);
      TableFacts(t, 1);
      hide Pointer, PhysAddr;
      var e := ReadWord(PhysAddr(pt) / PAGE, Index(va, 1));
      assert e == Leaf(s, va) by { LeafIsEntry(s, va); }
      if FrameNo(e) == 0 {
        PutSame(s.mem, t, Index(va, 1));
        ClearLeaf(s, va, s.used);
        return;
      }
      if freePage {
        ReleaseFrame(FrameNo(e));
      }
      ClearLeaf(s, va, Now().used);
      WriteZero(PhysAddr(pt) / PAGE, Index(va, 1), s);
      assert Now() == PutLeaf(s, t, Index(va, 1), 0).(used := Now().used);
    }

    /** The word that unmaps a page. */
    method WriteZero(t: nat, i: nat, ghost s: Space)
      requires t < mem.Length0 && i < mem.Length1 && Snap() == s.mem && root == s.root && level == s.level
      modifies mem
      ensures t < |s.mem| && i < |s.mem[t]| && Now() == PutLeaf(s, t, i, 0).(used := old(Now()).used)
    {
      WriteWord(t, i, 0);
    }

    method ReleaseFrame(f: nat)
      requires Valid() && f != 0 && f !in level && PAGE * f + phys.base < TWO64
      modifies phys`used, phys.data
      ensures Valid() && Now() == old(Now()).(used := Freed(old(Now()).used, f))
      ensures f < |Now().used| ==> !Now().used[f]
    {
      hide IsTable, Tree;
      ghost var s := Now();
      phys.ReleasePage(VirtAddr(PAGE * f));
      assert FrameAllocator.Frame(VirtAddr(PAGE * f), phys.base) == f;
      assert Now().used == Freed(s.used, f);
      ReleasedTree(s, f);
    }

    /** _unmap_region: clears the pages of the region up to the first one whose page table is
        missing. From there on the address no longer advances, so the rest is left as it is. */
    method UnmapRegion(pml4: nat, va: nat, len: nat, freePage: bool) returns (ok: bool, ghost done: nat)
      requires Valid() && (pml4 == 0 || pml4 == Pointer(root))
      requires 1 <= len && PagesIn(len) <= TWO36
      requires freePage ==> forall i: nat | i < PagesIn(len) :: Releasable(Now(), va + PAGE * i)
      modifies phys`used, phys.data, mem
      ensures Valid() && ok == (pml4 != 0)
      ensures SameTables(old(Now()), Now()) && ClearedOver(old(Now()), Now(), va, done)
      ensures pml4 == 0 ==> done == 0
      ensures pml4 != 0 ==> StopsAt(old(Now()), va, PagesIn(len), done)
      ensures if freePage then UsedAfter(old(Now()), Now().used, va, done) else Now().used == old(Now()).used
    {
      hide Tree, SameTables, ClearedOver, WroteLeaf, Leaf, TableOf, Freed, UsedAfter, Releasable, Cleared, TablesUpTo;
      ghost var s := Now();
      SameTablesSelf(s);
      ClearNone(s, va);
      OneMoreTable(s, va, 0);
      done := 0;
      var pages := len;
      if len % PAGE != 0 {
        pages := pages + PAGE;
      }
      pages := pages / PAGE;
      RoundedUp(len);
      hide PagesIn;
      if pml4 == 0 {
        return false, done;
      }
      var v := va;
      while true
        invariant Valid() && SameTables(s, Now()) && ClearedOver(s, Now(), va, done)
        invariant level == s.level
        invariant 1 <= pages && done + pages <= PagesIn(len) && v == va + PAGE * done
        invariant TablesUpTo(s, va, done)
        invariant done + pages < PagesIn(len) ==> TableOf(s, v) == 0
        invariant if freePage then UsedAfter(s, Now().used, va, done) else Now().used == s.used
        decreases pages
      {
        ghost var r := Now();
        NextPageUntouched(s, r, va, done);
        if freePage {
          StillReleasable(s, r, v);
        }
        var present := UnmapPage(pml4, v, freePage);
        TablesTwice(s, r, Now(), v);
        if present {
          ClearOneMore(s, r, Now(), va, done);
          if freePage { FreedOneMore(s, r.used, va, done); }
          OneMoreTable(s, va, done);
          v := v + PAGE;
          done := done + 1;
        }
        pages := pages - 1;
        if pages == 0 {
          break;
        }
      }
      ok := true;
    }
  }

  lemma RoundedUp(len: nat)
    ensures PagesIn(len) == (if len % PAGE != 0 then len + PAGE else len) / PAGE
    ensures len >= 1 ==> PagesIn(len) >= 1 && PAGE * (PagesIn(len) - 1) < len <= PAGE * PagesIn(len)
    ensures forall n: nat | n < PagesIn(len) :: PAGE * n < len
  {
    if len % PAGE == 0 { DivModIs(len + PAGE - 1, PAGE, len / PAGE, PAGE - 1); }
  }

  /** A free frame may be hung into an empty entry, and is the table below it then. */
  lemma HangNew(s: Space, t: nat, l: nat, i: nat, n: nat)
    requires IsTable(s, t, l) && 2 <= l <= 4 && i < ENTRIES && t < |s.mem| && i < |s.mem[t]| && Child(s.mem, t, i) == 0
    requires 1 <= n < |s.mem| && PAGE * n < TWO53 && |s.mem| == |s.used| && !s.used[n]
    ensures CanHang(s, t, i, n, Entry(PAGE * n, WRITABLE))
    ensures var r := Hang(s, t, i, n, Entry(PAGE * n, WRITABLE));
            && Grown(s, r) && SameLeaves(s, r)
            && t < |r.mem| && i < |r.mem[t]| && Child(r.mem, t, i) == n && IsTable(r, n, l - 1)
            && Open(r.mem[t][i])
  {
    hide Grown, SameLeaves, Entry;
    EntryParts(PAGE * n, WRITABLE);
    EntryBits(PAGE * n, WRITABLE, 0);
    EntryBits(PAGE * n, WRITABLE, 1);
    assert BitWords.Bit(WRITABLE, 1);
    HangGrown(s, t, i, n, Entry(PAGE * n, WRITABLE));
    HangTree(s, t, i, n, Entry(PAGE * n, WRITABLE));
  }

  lemma HangPlace(s: Space, t: nat, i: nat, n: nat, w: nat)
    requires CanHang(s, t, i, n, w)
    ensures t < |s.mem| && t != n
  {}

  lemma MapNone(s: Space, va: nat, pa: nat, flags: nat)
    requires Tree(s)
    ensures MappedOver(s, s, va, pa, flags, 0)
  {}

  lemma MapSame(s: Space, r: Space, q: Space, va: nat, pa: nat, flags: nat, n: nat)
    requires Tree(s) && Tree(r) && Tree(q)
    requires MappedOver(s, r, va, pa, flags, n) && SameLeaves(r, q)
    ensures MappedOver(s, q, va, pa, flags, n)
  {
    forall vb: nat
      ensures Leaf(q, vb) == if Offset(va, vb) < n then Entry(pa + PAGE * Offset(va, vb), flags) else Leaf(s, vb)
    {
      assert Leaf(q, vb) == Leaf(r, vb);
    }
  }

  /** The four entries a walk for va reads, one per level. */
  ghost predicate EntriesOnWalk(s: Space, va: nat, e4: nat, e3: nat, e2: nat, e1: nat)
    requires Tree(s)
  {
    && s.mem[s.root][Index(va, 4)] == e4
    && IsTable(s, FrameNo(e4), 3) && s.mem[FrameNo(e4)][Index(va, 3)] == e3
    && IsTable(s, FrameNo(e3), 2) && s.mem[FrameNo(e3)][Index(va, 2)] == e2
    && IsTable(s, FrameNo(e2), 1) && s.mem[FrameNo(e2)][Index(va, 1)] == e1
  }

  /** The entries a walk for va has read when it breaks off: none at an empty PML4 entry, else those of
      the tables it reached but for the last; what was not reached is marked invalid, and an empty PML4
      entry too. */
  ghost predicate EntriesBefore(s: Space, va: nat, e4: nat, e3: nat, e2: nat)
    requires Tree(s)
  {
    var t3 := Child(s.mem, s.root, Index(va, 4));
    if t3 == 0 then e4 == e3 == e2 == MAP_INVALID
    else
      && IsTable(s, t3, 3) && e4 == s.mem[s.root][Index(va, 4)]
      && var t2 := Child(s.mem, t3, Index(va, 3));
         if t2 == 0 then e3 == e2 == MAP_INVALID
         else IsTable(s, t2, 2) && e3 == s.mem[t3][Index(va, 3)] && e2 == MAP_INVALID
  }

  lemma BrokenWalk(s: Space, va: nat)
    requires Tree(s) && TableOf(s, va) == 0
    ensures Leaf(s, va) == 0 && FrameNo(Leaf(s, va)) == 0
  {}

  /** A walk that meets an empty entry arrives nowhere. */
  lemma BreakingWalk(s: Space, va: nat)
    requires Tree(s)
    ensures var t3 := Child(s.mem, s.root, Index(va, 4));
            if t3 == 0 then TableOf(s, va) == 0 else
              && IsTable(s, t3, 3)
              && var t2 := Child(s.mem, t3, Index(va, 3));
                 if t2 == 0 then TableOf(s, va) == 0 else
                   && IsTable(s, t2, 2)
                   && (Child(s.mem, t2, Index(va, 2)) == 0 ==> TableOf(s, va) == 0)
  {
    var t3 := Child(s.mem, s.root, Index(va, 4));
    if t3 != 0 {
      var t2 := Child(s.mem, t3, Index(va, 3));
      if t2 != 0 && Child(s.mem, t2, Index(va, 2)) == 0 {
        assert Reach(s, t2, 2, va) == 0;
        assert Reach(s, t3, 3, va) == 0;
      }
    }
  }

  lemma WholeWalk(s: Space, va: nat, t3: nat, t2: nat, t1: nat)
    requires IsTable(s, t3, 3) && IsTable(s, t2, 2) && IsTable(s, t1, 1)
    requires Child(s.mem, s.root, Index(va, 4)) == t3
    requires Child(s.mem, t3, Index(va, 3)) == t2 && Child(s.mem, t2, Index(va, 2)) == t1
    ensures TableOf(s, va) == t1 && Leaf(s, va) == s.mem[t1][Index(va, 1)]
  {
    GrownSame(s);
    ThreeSteps(s, s, s, va, t3, t2, t1);
  }

  lemma ClearMissing(s: Space, r: Space, va: nat)
    requires Tree(s) && Tree(r) && ClearedOver(s, r, va, 0) && TableOf(s, va) == 0
    ensures ClearedOver(s, r, va, 1)
  {
    forall vb: nat ensures Leaf(r, vb) == if Offset(va, vb) < 1 then Cleared(Leaf(s, vb)) else Leaf(s, vb) {
      OffsetIs(va, vb, 0);
      if VPage(vb) == VPage(va) { SamePageSameLeaf(s, vb, va); }
    }
  }

  /** The used frames after f has been given back; frame 0 never is. */
  function Freed(used: seq<bool>, f: nat): (r: seq<bool>)
    ensures |r| == |used| && forall k: nat | k < |used| :: r[k] == (used[k] && (k != f || k == 0))
  {
    if f != 0 && f < |used| then used[f := false] else used
  }

  ghost predicate NamesFrame(s: Space, va: nat, i: nat, k: nat)
    requires Tree(s)
  {
    FrameNo(Leaf(s, va + PAGE * i)) == k
  }

  /** The used frames are those of s but for the frames that the first n pages from va on were mapped to. */
  ghost predicate UsedAfter(s: Space, used: seq<bool>, va: nat, n: nat)
    requires Tree(s)
  {
    && |used| == |s.used|
    && forall k: nat | k < |used| :: used[k] == (s.used[k] && !(k != 0 && Named(s, va, n, k)))
  }

  /** One of the first n pages from va on is mapped to frame k. */
  ghost predicate Named(s: Space, va: nat, n: nat, k: nat)
    requires Tree(s)
  {
    exists i: nat | i < n :: NamesFrame(s, va, i, k)
  }

  lemma NamedOneMore(s: Space, va: nat, n: nat, k: nat)
    requires Tree(s)
    ensures Named(s, va, n + 1, k) <==> Named(s, va, n, k) || FrameNo(Leaf(s, va + PAGE * n)) == k
  {
    assert NamesFrame(s, va, n, k) <==> FrameNo(Leaf(s, va + PAGE * n)) == k;
    hide Tree, NamesFrame;
    if i: nat :| i < n + 1 && NamesFrame(s, va, i, k) { assert i < n || i == n; }
  }

  lemma FreedOneMore(s: Space, used: seq<bool>, va: nat, n: nat)
    requires Tree(s) && UsedAfter(s, used, va, n)
    ensures UsedAfter(s, Freed(used, FrameNo(Leaf(s, va + PAGE * n))), va, n + 1)
  {
    hide Tree, Leaf, FrameNo, Named;
    forall k: nat
      ensures Named(s, va, n + 1, k) <==> Named(s, va, n, k) || FrameNo(Leaf(s, va + PAGE * n)) == k
    {
      NamedOneMore(s, va, n, k);
    }
  }

  lemma SameTablesSelf(s: Space)
    requires Tree(s)
    ensures SameTables(s, s)
  {}

  lemma ClearNone(s: Space, va: nat)
    requires Tree(s)
    ensures ClearedOver(s, s, va, 0) && UsedAfter(s, s.used, va, 0)
  {}

  lemma LeafIsEntry(s: Space, va: nat)
    requires Tree(s) && TableOf(s, va) != 0
    ensures Leaf(s, va) == s.mem[TableOf(s, va)][Index(va, 1)]
  {}

  lemma ClearLeaf(s: Space, va: nat, used: seq<bool>)
    requires Tree(s) && TableOf(s, va) != 0 && Tree(s.(used := used))
    ensures var w := Cleared(Leaf(s, va));
            var r := PutLeaf(s, TableOf(s, va), Index(va, 1), w).(used := used);
            Tree(r) && SameTables(s, r) && WroteLeaf(s, r, va, w)
  {
    var w := Cleared(Leaf(s, va));
    var q := PutLeaf(s, TableOf(s, va), Index(va, 1), w);
    var r := q.(used := used);
    PutLeafTree(s, TableOf(s, va), Index(va, 1), w);
    forall vb: nat
      ensures TableOf(r, vb) == TableOf(s, vb)
      ensures Leaf(r, vb) == if VPage(vb) == VPage(va) then w else Leaf(s, vb)
    {
      WriteLeaf(s, va, w, vb);
      OtherUsed(q, r, q.root, 4, vb);
    }
  }

  lemma PutSame(m: Mem, t: nat, i: nat)
    requires t < |m| && i < |m[t]|
    ensures Put(m, t, i, m[t][i]) == m
  {
    assert m[t][i := m[t][i]] == m[t];
  }

  lemma OtherUsedTree(s: Space, used: seq<bool>)
    requires Tree(s) && |used| == |s.used| && forall t | t in s.level :: used[t]
    ensures Tree(s.(used := used))
  {}

  lemma ReleasedTree(s: Space, f: nat)
    requires Tree(s) && f !in s.level
    ensures Tree(s.(used := Freed(s.used, f)))
  {
    OtherUsedTree(s, Freed(s.used, f));
  }

  /** Walks do not depend on which frames are in use. */
  lemma {:induction false} OtherUsed(q: Space, r: Space, t: nat, l: nat, va: nat)
    requires IsTable(q, t, l) && Tree(r) && r == q.(used := r.used)
    ensures Reach(r, t, l, va) == Reach(q, t, l, va)
    decreases l
  {
    if l > 1 {
      var c := Child(q.mem, t, Index(va, l));
      if c != 0 { OtherUsed(q, r, c, l - 1, va); }
    }
  }

  lemma NextPageUntouched(s: Space, r: Space, va: nat, n: nat)
    requires Tree(s) && Tree(r) && ClearedOver(s, r, va, n) && SameTables(s, r) && n < TWO36
    ensures Leaf(r, va + PAGE * n) == Leaf(s, va + PAGE * n)
    ensures TableOf(r, va + PAGE * n) == TableOf(s, va + PAGE * n)
  {
    OffsetIs(va, va + PAGE * n, n);
  }

  lemma TablesTwice(s: Space, r: Space, q: Space, v: nat)
    requires Tree(s) && Tree(r) && Tree(q) && SameTables(s, r) && SameTables(r, q)
    ensures SameTables(s, q) && TableOf(q, v) == TableOf(r, v) == TableOf(s, v)
  {
    forall vb: nat ensures TableOf(q, vb) == TableOf(s, vb) { assert TableOf(r, vb) == TableOf(s, vb); }
  }

  lemma ClearOneMore(s: Space, r: Space, q: Space, va: nat, n: nat)
    requires Tree(s) && Tree(r) && Tree(q) && n < TWO36
    requires ClearedOver(s, r, va, n)
    requires WroteLeaf(r, q, va + PAGE * n, Cleared(Leaf(r, va + PAGE * n)))
    ensures ClearedOver(s, q, va, n + 1)
  {
    hide Tree, Leaf, Cleared, Offset, VPage;
    OffsetIs(va, va + PAGE * n, n);
    assert Leaf(r, va + PAGE * n) == Leaf(s, va + PAGE * n);
    forall vb: nat
      ensures Leaf(q, vb) == if Offset(va, vb) < n + 1 then Cleared(Leaf(s, vb)) else Leaf(s, vb)
    {
      OffsetIs(va, vb, n);
      assert Leaf(r, vb) == if Offset(va, vb) < n then Cleared(Leaf(s, vb)) else Leaf(s, vb);
      if VPage(vb) == VPage(va + PAGE * n) { SamePageSameLeaf(s, vb, va + PAGE * n); }
    }
  }

  lemma SamePageSameLeaf(s: Space, va: nat, vb: nat)
    requires Tree(s) && VPage(va) == VPage(vb)
    ensures Leaf(s, va) == Leaf(s, vb) && TableOf(s, va) == TableOf(s, vb)
  {
    SamePageIffSameIndices(va, vb);
    SameIndicesSameReach(s, s.root, 4, va, vb);
    assert Index(va, 1) == Index(vb, 1);
  }

  lemma TableOfIsTable(s: Space, va: nat)
    requires Tree(s) && TableOf(s, va) != 0
    ensures IsTable(s, TableOf(s, va), 1)
  {}

  lemma GrownSame(s: Space)
    requires Tree(s)
    ensures Grown(s, s) && SameLeaves(s, s)
  {}

  /** What one successful alloc_page means to a page table: the frame was free and only it changed. */
  lemma NewFrame(m: Frames.Map)
    requires Frames.Ok(m)
    ensures var (r, k) := Frames.AllocPage(m);
            && Frames.Ok(r) && |r.bits| == |m.bits|
            && (k == 0 ==> r == m && forall j | 1 <= j < |m.bits| :: m.bits[j])
            && (k != 0 ==> k < |m.bits| && !m.bits[k] && r.bits == m.bits[k := true])
  {
    Frames.AllocTakesFreshRun(m, 1);
    Frames.AllocFailsIffNoRun(m, 1);
    var (r, k) := Frames.AllocPage(m);
    assert Frames.AllocRange(m, true, 1) == (r, k);
    if k == 0 {
      forall j | 1 <= j < |m.bits| ensures m.bits[j] {
        assert !Frames.FreeRun(m.bits, true, j, 1);
      }
    }
  }

  // ---- what mapping, unmapping and lookup mean together ---------------------------------------

  /** After a successful mapping each page of the region translates to its own frame with the
      flags asked for and the present bit, and every other page as before. Frame 0 reads as
      unmapped. */
  lemma MappedTranslation(s: Space, r: Space, va: nat, pa: nat, flags: nat, n: nat, vb: nat)
    requires Tree(s) && Tree(r) && MappedOver(s, r, va, pa, flags, n)
    requires pa % PAGE == 0 && pa + PAGE * n <= TWO53 && IsFlags(flags)
    ensures var k, d := pa / PAGE + Offset(va, vb), Decode(Leaf(r, vb));
            if Offset(va, vb) >= n then d == Decode(Leaf(s, vb))
            else if k == 0 then d == Unmapped
            else
              && d.Mapped? && d.frame == k
              && forall b: nat :: BitWords.Bit(d.flags, b) == (b == 0 || BitWords.Bit(flags, b))
  {
    hide Tree, Leaf, IsFlags, Entry, FlagBits, Present;
    assert Leaf(r, vb) == if Offset(va, vb) < n then Entry(pa + PAGE * Offset(va, vb), flags) else Leaf(s, vb);
    if Offset(va, vb) < n {
      EntryParts(pa + PAGE * Offset(va, vb), flags);
    }
  }

  /** The processor gets to every page of the region, whatever the flags: it finds an entry that has the bits
      of the frame's address and of the flags, and the present bit. */
  lemma MappedIsFetched(s: Space, r: Space, va: nat, pa: nat, flags: nat, n: nat, vb: nat)
    requires Tree(s) && Tree(r) && MappedOver(s, r, va, pa, flags, n) && Offset(va, vb) < n
    ensures var e := Fetch(r.mem, r.root, 4, vb);
            && e.Some?
            && forall b: nat ::
                 BitWords.Bit(e.value, b) ==
                 (b == 0 || BitWords.Bit(pa + PAGE * Offset(va, vb), b) || BitWords.Bit(flags, b))
  {
    var p := pa + PAGE * Offset(va, vb);
    FetchIs(r, r.root, 4, vb);
    hide Tree, Entry, Fetch, Offset;
    assert Leaf(r, vb) == Entry(p, flags);
    forall b: nat
      ensures BitWords.Bit(Entry(p, flags), b) == (b == 0 || BitWords.Bit(p, b) || BitWords.Bit(flags, b))
    {
      EntryBits(p, flags, b);
    }
  }

  lemma MappedHasTable(s: Space, r: Space, va: nat, pa: nat, flags: nat, n: nat, i: nat)
    requires Tree(s) && Tree(r) && i < n <= TWO36
    requires PAGE <= pa && pa % PAGE == 0 && pa + PAGE * n <= TWO53 && IsFlags(flags)
    requires MappedOver(s, r, va, pa, flags, n)
    ensures TableOf(r, va + PAGE * i) != 0
  {
    hide Tree, Leaf, TableOf, MappedOver, Offset, VPage, IsFlags;
    OffsetIs(va, va + PAGE * i, i);
    MappedTranslation(s, r, va, pa, flags, n, va + PAGE * i);
    if TableOf(r, va + PAGE * i) == 0 { BrokenWalk(r, va + PAGE * i); }
  }

  /** Unmapping a region just mapped to non-zero frames reaches its end, leaves no page of it
      mapped, and restores the earlier translation everywhere else. */
  lemma UnmapUndoesMap(s: Space, r: Space, q: Space, va: nat, pa: nat, flags: nat, n: nat, done: nat)
    requires Tree(s) && Tree(r) && Tree(q) && n <= TWO36
    requires PAGE <= pa && pa % PAGE == 0 && pa + PAGE * n <= TWO53 && IsFlags(flags)
    requires MappedOver(s, r, va, pa, flags, n)
    requires done <= n && ClearedOver(r, q, va, done)
    requires done < n ==> TableOf(r, va + PAGE * done) == 0
    ensures done == n
    ensures forall vb: nat :: Leaf(q, vb) == if Offset(va, vb) < n then 0 else Leaf(s, vb)
  {
    if done < n { MappedHasTable(s, r, va, pa, flags, n, done); }
    forall vb: nat ensures Leaf(q, vb) == if Offset(va, vb) < n then 0 else Leaf(s, vb) {
      MappedTranslation(s, r, va, pa, flags, n, vb);
      assert Leaf(q, vb) == if Offset(va, vb) < n then Cleared(Leaf(r, vb)) else Leaf(r, vb);
      assert Leaf(r, vb) == if Offset(va, vb) < n then Entry(pa + PAGE * Offset(va, vb), flags) else Leaf(s, vb);
    }
  }

  /** With the frames given back too, exactly those of the region are no longer in use. */
  lemma UnmapFreesMapped(s: Space, r: Space, used: seq<bool>, va: nat, pa: nat, flags: nat, n: nat)
    requires Tree(s) && Tree(r) && n <= TWO36
    requires PAGE <= pa && pa % PAGE == 0 && pa + PAGE * n <= TWO53 && IsFlags(flags)
    requires MappedOver(s, r, va, pa, flags, n) && UsedAfter(r, used, va, n)
    ensures forall k: nat | k < |used| :: used[k] == (r.used[k] && !(pa / PAGE <= k < pa / PAGE + n))
  {
    hide Named;
    forall k: nat ensures Named(r, va, n, k) <==> pa / PAGE <= k < pa / PAGE + n {
      MappedNames(s, r, va, pa, flags, n, k);
    }
  }

  lemma MappedNames(s: Space, r: Space, va: nat, pa: nat, flags: nat, n: nat, k: nat)
    requires Tree(s) && Tree(r) && n <= TWO36
    requires PAGE <= pa && pa % PAGE == 0 && pa + PAGE * n <= TWO53 && IsFlags(flags)
    requires MappedOver(s, r, va, pa, flags, n)
    ensures Named(r, va, n, k) <==> pa / PAGE <= k < pa / PAGE + n
  {
    hide Tree, Leaf, MappedOver, IsFlags, FrameNo, Offset;
    forall i: nat | i < n ensures NamesFrame(r, va, i, k) <==> k == pa / PAGE + i {
      OffsetIs(va, va + PAGE * i, i);
      MappedTranslation(s, r, va, pa, flags, n, va + PAGE * i);
    }
    if pa / PAGE <= k < pa / PAGE + n { assert NamesFrame(r, va, k - pa / PAGE, k); }
  }

  lemma ClearedUpTo(s: Space, q: Space, va: nat, n: nat, done: nat, i: nat)
    requires Tree(s) && Tree(q) && i < n <= TWO36 && done <= n && ClearedOver(s, q, va, done)
    ensures FrameNo(Leaf(q, va + PAGE * i)) == if i < done then 0 else FrameNo(Leaf(s, va + PAGE * i))
  {
    hide Tree, Leaf, Offset, VPage;
    OffsetIs(va, va + PAGE * i, i);
    assert Leaf(q, va + PAGE * i) ==
           if Offset(va, va + PAGE * i) < done then Cleared(Leaf(s, va + PAGE * i)) else Leaf(s, va + PAGE * i);
  }

  /** What UnmapRegion promises of the number of pages it gets to. */
  ghost predicate StopsAt(s: Space, va: nat, n: nat, done: nat)
    requires Tree(s)
  {
    done <= n && TablesUpTo(s, va, done) && (done < n ==> TableOf(s, va + PAGE * done) == 0)
  }

  ghost predicate TablesUpTo(s: Space, va: nat, n: nat)
    requires Tree(s)
  {
    forall i: nat | i < n :: TableOf(s, va + PAGE * i) != 0
  }

  lemma OneMoreTable(s: Space, va: nat, n: nat)
    requires Tree(s)
    ensures TablesUpTo(s, va, 0)
    ensures TablesUpTo(s, va, n) && TableOf(s, va + PAGE * n) != 0 ==> TablesUpTo(s, va, n + 1)
  {
    hide Tree, TableOf;
  }

  /** _unmap_region leaves no page of its region mapped exactly if before the call no page of the region
      was mapped behind one whose page table was missing. */
  lemma UnmapCompleteIff(s: Space, q: Space, va: nat, n: nat, done: nat)
    requires Tree(s) && Tree(q) && n <= TWO36 && ClearedOver(s, q, va, done) && StopsAt(s, va, n, done)
    ensures (forall i: nat | i < n :: FrameNo(Leaf(q, va + PAGE * i)) == 0) <==>
            (forall i: nat, j: nat | i <= j < n && TableOf(s, va + PAGE * i) == 0 ::
               FrameNo(Leaf(s, va + PAGE * j)) == 0)
  {
    forall i: nat | i < n
      ensures FrameNo(Leaf(q, va + PAGE * i)) == if i < done then 0 else FrameNo(Leaf(s, va + PAGE * i))
    {
      ClearedUpTo(s, q, va, n, done, i);
    }
    if i: nat, j: nat :| i <= j < n && TableOf(s, va + PAGE * i) == 0 && FrameNo(Leaf(s, va + PAGE * j)) != 0 {
      assert done <= i;
      assert FrameNo(Leaf(q, va + PAGE * j)) != 0;
    }
  }

  // ---- a region whose unmapping stops early ---------------------------------------------------

  function TableWith(i: nat, w: nat): (r: seq<nat>)
    ensures |r| == ENTRIES && forall j | 0 <= j < ENTRIES :: r[j] == if j == i then w else 0
  {
    seq(ENTRIES, j => if j == i then w else 0)
  }

  /** The page at 2 MiB is mapped to frame 5; the page table for the first 2 MiB is missing. All of the 32
      frames are in use. */
  function Holed(): Space {
    Space(seq(32, f => HoledRow(f)), 1, map[1 := 4, 2 := 3, 3 := 2, 4 := 1], seq(32, f => true))
  }

  function HoledRow(f: int): (r: seq<nat>)
    ensures |r| == ENTRIES
  {
    TableWith(if f == 3 then 1 else 0, if 1 <= f <= 4 then PAGE * (f + 1) + 3 else 0)
  }

  lemma HoledChild(t: nat, i: nat)
    requires 1 <= t <= 4 && i < ENTRIES
    ensures Holed().mem[t] == HoledRow(t)
    ensures Child(Holed().mem, t, i) == if i == (if t == 3 then 1 else 0) then t + 1 else 0
    ensures if i == (if t == 3 then 1 else 0) then Open(Holed().mem[t][i]) else Holed().mem[t][i] == 0
  {
    DivModIs(PAGE * (t + 1) + 3, PAGE, t + 1, 3);
    DivModIs(t + 1, TWO41, 0, t + 1);
  }

  lemma HoledRows()
    ensures var s := Holed();
            && |s.mem| == |s.used| == 32 && s.root == 1
            && (forall t :: t in s.level <==> 1 <= t <= 4) && (forall t | 1 <= t <= 4 :: s.level[t] == 5 - t)
            && forall f | 0 <= f < 32 :: |s.mem[f]| == ENTRIES && s.used[f]
  {}

  lemma {:induction false} AllUsed(bits: seq<bool>)
    requires forall k | 0 <= k < |bits| :: bits[k]
    ensures Frames.CountUsed(bits) == |bits|
  {
    if bits != [] { AllUsed(bits[..|bits| - 1]); }
  }

  /** An address space can be in this state: it is a tree of tables in frames of 512 words, and its used
      frames make up an allocator map. */
  lemma HoledState()
    ensures Tree(Holed()) && |Holed().mem| == 32
    ensures Frames.Ok(Frames.Map(Holed().used, 32))
    ensures forall f | 0 <= f < 32 :: |Holed().mem[f]| == ENTRIES
  {
    AllUsed(Holed().used);
    HoledRows();
    hide Child, Holed, Frames.CountUsed;
    forall t, i | 1 <= t <= 4 && 0 <= i < ENTRIES
      ensures Child(Holed().mem, t, i) == if i == (if t == 3 then 1 else 0) then t + 1 else 0
      ensures if i == (if t == 3 then 1 else 0) then Open(Holed().mem[t][i]) else Holed().mem[t][i] == 0
    {
      HoledChild(t, i);
    }
  }

  /** Unmapping 513 pages from 0 on here meets the missing table at once: whatever the call leaves, the
      last page of the region is still mapped to frame 5. */
  lemma UnmapStopsAtHole(q: Space, done: nat)
    requires Tree(Holed()) && Tree(q) && ClearedOver(Holed(), q, 0, done) && StopsAt(Holed(), 0, 513, done)
    ensures done == 0 && FrameNo(Leaf(q, PAGE * 512)) == 5
  {
    hide Holed, Tree, Leaf, TableOf, ClearedOver;
    HoledLeaf();
    assert TableOf(Holed(), 0 + PAGE * 0) == 0;
    ClearedUpTo(Holed(), q, 0, 513, done, 512);
  }

  lemma HoledLeaf()
    ensures Tree(Holed()) && TableOf(Holed(), 0) == 0
    ensures FrameNo(Leaf(Holed(), PAGE * 512)) == 5
  {
    HoledState();
    var s, va := Holed(), PAGE * 512;
    HoledIndices();
    HoledChild(1, 0);
    HoledChild(2, 0);
    HoledChild(3, 0);
    HoledChild(3, 1);
    HoledChild(4, 0);
    hide Tree, Holed, Index, TableOf, Leaf, HoledRow;
    HoledTables();
    BreakingWalk(s, 0);
    WholeWalk(s, va, 2, 3, 4);
  }

  lemma HoledIndices()
    ensures Index(0, 4) == Index(0, 3) == Index(0, 2) == 0
    ensures var va := PAGE * 512; Index(va, 4) == Index(va, 3) == Index(va, 1) == 0 && Index(va, 2) == 1
  {}

  lemma HoledTables()
    ensures var s := Holed();
            s.root == 1 && IsTable(s, 1, 4) && IsTable(s, 2, 3) && IsTable(s, 3, 2) && IsTable(s, 4, 1)
  {
    HoledState();
    hide Tree;
  }
}
