/** What whole runs of get_object and put_object keep: every slab on the list of its kind, counts that
    add up, and objects that never collide. */
module SlabRuns {
  import opened Arithmetic
  import opened SlabLayout
  import opened Slabs

  // ---- _slab_alloc ----------------------------------------------------------------------------

  /** The control blocks of a new slab are none of the old ones, and no pointer word is shared. */
  lemma NewCtl(c: Config, st: State, p: Supply, q: nat, b: nat)
    requires Inv(c, st) && Fresh(c, st, p) && b in st.slabs
    ensures q in p.ctls ==> q !in st.slabs[b].ctls && q != HeadWord(b) && q != b
    ensures HeadWord(p.addr) !in st.slabs[b].ctls && p.addr !in st.slabs[b].ctls
  {
    hide Spread, Sorted, Separate, Mapped;
    var s, t := Slab(p.backing, p.ctls, Down(|p.ctls|), 0), st.slabs[b];
    if c.compact {
      forall j | 0 <= j < |t.ctls|
        ensures t.backing <= t.ctls[j] && t.ctls[j] + 8 <= t.backing + c.allocSize - SLAB_HEADER
      {
        CtlInBlock(c, t, j);
      }
      if q in p.ctls {
        var i :| 0 <= i < |p.ctls| && p.ctls[i] == q;
        CtlInBlock(c, s, i);
      }
    }
  }

  lemma NewAlone(c: Config, st: State, p: Supply)
    requires Inv(c, st) && Fresh(c, st, p)
    ensures HeadWord(p.addr) !in p.ctls && p.addr !in p.ctls
  {
    if c.compact && (HeadWord(p.addr) in p.ctls || p.addr in p.ctls) {
      var i :| 0 <= i < |p.ctls| && (p.ctls[i] == HeadWord(p.addr) || p.ctls[i] == p.addr);
      CtlInBlock(c, Slab(p.backing, p.ctls, Down(|p.ctls|), 0), i);
    }
  }

  lemma AddCtls(slabs: map<nat, Slab>, a: nat, s: Slab)
    requires CtlsApart(slabs) && NoDup(s.ctls)
    requires forall b, q | b in slabs && q in s.ctls :: q !in slabs[b].ctls
    ensures CtlsApart(slabs[a := s])
  {
    var r := slabs[a := s];
    forall x, y, i, j | x in r && y in r && 0 <= i < |r[x].ctls| && 0 <= j < |r[y].ctls| &&
                        r[x].ctls[i] == r[y].ctls[j]
      ensures x == y && i == j
    {
      assert r[x].ctls[i] in r[x].ctls && r[y].ctls[j] in r[y].ctls;
    }
  }

  lemma GrowSeparate(c: Config, st: State, p: Supply)
    requires Inv(c, st) && Fresh(c, st, p)
    ensures Separate(c, Grow(c, st, p).slabs)
  {
    hide Spread, Sorted, Mapped, CtlsApart;
    var s := Slab(p.backing, p.ctls, Down(|p.ctls|), 0);
    forall b, q | b in st.slabs && q in p.ctls ensures q !in st.slabs[b].ctls { NewCtl(c, st, p, q, b); }
    AddCtls(st.slabs, p.addr, s);
    NewAlone(c, st, p);
    var r := st.slabs[p.addr := s];
    forall a, b | a in r && b in r ensures HeadWord(a) !in r[b].ctls && a !in r[b].ctls {
      if a != p.addr { NewCtl(c, st, p, HeadWord(a), a); NewCtl(c, st, p, a, a); }
      if b != p.addr { NewCtl(c, st, p, 0, b); }
    }
  }

  /** An inline control block lies in the part of the block before the header. */
  lemma CtlInBlock(c: Config, s: Slab, i: nat)
    requires GoodConfig(c) && SlabOk(c, s) && c.compact && i < |s.ctls|
    ensures s.backing <= s.ctls[i] && s.ctls[i] + INLINE_CTL <= s.backing + c.allocSize - SLAB_HEADER
  {
    BuffersFit(c, s.backing, i);
    assert BuffSize(c) * i >= 0 by { Scale(BuffSize(c), 0, i); }
  }

  lemma GrowMapped(c: Config, st: State, p: Supply)
    requires Inv(c, st) && Fresh(c, st, p)
    ensures Mapped(c, Grow(c, st, p))
  {
    if !c.compact {
      var r := Grow(c, st, p);
      var rev := Reversed(p.ctls);
      ReversedSame(p.ctls);
      forall q ensures q in r.objMap <==> exists a :: a in r.slabs && q in r.slabs[a].ctls {
        if q in p.ctls {
          assert p.addr in r.slabs && q in r.slabs[p.addr].ctls;
        } else if q in st.objMap {
          var a :| a in st.slabs && q in st.slabs[a].ctls;
          assert a in r.slabs && q in r.slabs[a].ctls;
        }
      }
      forall i, j | 0 <= i < j < |r.objMap| ensures r.objMap[i] != r.objMap[j] {
        if i < |rev| <= j {
          assert rev[i] in p.ctls && r.objMap[j] in st.objMap;
        }
      }
    }
  }

  lemma ReversedSame(s: seq<nat>)
    requires NoDup(s)
    ensures NoDup(Reversed(s)) && forall q :: q in Reversed(s) <==> q in s
  {
    var r := Reversed(s);
    forall q | q in s ensures q in r {
      var i :| 0 <= i < |s| && s[i] == q;
      assert r[|s| - 1 - i] == q;
    }
  }

  lemma GrowSpread(c: Config, st: State, p: Supply)
    requires Inv(c, st) && Fresh(c, st, p)
    ensures Spread(Grow(c, st, p)) && Sorted(Grow(c, st, p))
  {
    SupplyNew(c, st, p);
    hide Inv, Fresh, Grow, Sorted;
    GrowLists(c, st, p);
    forall a ensures Lists(Grow(c, st, p), a) == if a in Grow(c, st, p).slabs then 1 else 0 { GrowCount(c, st, p, a); }
    hide Lists;
  }

  lemma SupplyNew(c: Config, st: State, p: Supply)
    requires Inv(c, st) && Fresh(c, st, p)
    ensures p.addr !in st.slabs && |p.ctls| > 0 && Spread(st) && Sorted(st)
  {
    hide BuffSize, Buffer, CtlOffset, NoDup, Apart, Separate, Mapped, Spread, Sorted;
  }

  lemma GrowCount(c: Config, st: State, p: Supply, a: nat)
    requires p.addr !in st.slabs && Spread(st)
    ensures Lists(Grow(c, st, p), a) == if a in Grow(c, st, p).slabs then 1 else 0
  {
    hide Listed;
    OccConcat([p.addr], st.free, a);
    assert Lists(st, a) == if a in st.slabs then 1 else 0;
    assert Occ([p.addr], a) == if a == p.addr then 1 else 0 by { assert [p.addr][..0] == []; }
    hide Occ;
  }

  /** The new slab is free, and the others stay where they are. */
  lemma GrowLists(c: Config, st: State, p: Supply)
    requires p.addr !in st.slabs && |p.ctls| > 0 && Listed(st) && Sorted(st)
    ensures Listed(Grow(c, st, p)) && Sorted(Grow(c, st, p))
  {
    var r := Grow(c, st, p);
    assert |r.slabs[p.addr].chain| > 0;
    assert forall a | a in st.slabs :: a in r.slabs && r.slabs[a] == st.slabs[a];
    assert forall a | a in r.free :: a == p.addr || a in st.free;
  }

  lemma GrowInv(c: Config, st: State, p: Supply)
    requires Inv(c, st) && Fresh(c, st, p)
    ensures Inv(c, Grow(c, st, p))
    ensures forall a, i :: IsLive(Grow(c, st, p), a, i) <==> IsLive(st, a, i)
  {
    GrowSeparate(c, st, p);
    GrowMapped(c, st, p);
    GrowSpread(c, st, p);
    GrowLive(c, st, p);
    hide Separate, Mapped, Spread, Sorted, SlabOk, IsLive, Apart;
  }

  /** Every buffer of a new slab is free. */
  lemma GrowLive(c: Config, st: State, p: Supply)
    requires Inv(c, st) && Fresh(c, st, p)
    ensures forall a, i :: IsLive(Grow(c, st, p), a, i) <==> IsLive(st, a, i)
  {
    hide Inv;
    var d := Down(|p.ctls|);
    forall i: nat | i < |p.ctls| ensures i in d { assert d[|p.ctls| - 1 - i] == i; }
  }

  // ---- a change of one slab followed by the sort ----------------------------------------------

  lemma ChangeSpread(st: State, a: nat, s: Slab)
    requires Spread(st) && a in st.slabs
    ensures Spread(st.(slabs := st.slabs[a := s]))
  {
    var r := st.(slabs := st.slabs[a := s]);
    forall b ensures Lists(r, b) == if b in r.slabs then 1 else 0 {
      assert Lists(st, b) == if b in st.slabs then 1 else 0;
    }
  }

  lemma ChangeMapped(c: Config, st: State, a: nat, s: Slab)
    requires Mapped(c, st) && a in st.slabs && s.ctls == st.slabs[a].ctls
    ensures Mapped(c, st.(slabs := st.slabs[a := s]))
  {
    var r := st.(slabs := st.slabs[a := s]);
    assert forall b | b in r.slabs :: r.slabs[b].ctls == st.slabs[b].ctls;
  }

  lemma ChangeSeparate(c: Config, slabs: map<nat, Slab>, a: nat, s: Slab)
    requires GoodConfig(c) && Separate(c, slabs) && a in slabs
    requires s.ctls == slabs[a].ctls && s.backing == slabs[a].backing
    ensures Separate(c, slabs[a := s])
  {
    var r := slabs[a := s];
    assert forall b | b in r :: r[b].ctls == slabs[b].ctls && r[b].backing == slabs[b].backing;
  }

  /** Replacing one slab by one with the same block and control blocks, and sorting, restores the
      invariant. */
  lemma ChangeAndSort(c: Config, st: State, a: nat, s: Slab)
    requires Inv(c, st) && a in st.slabs && SlabOk(c, s)
    requires s.backing == st.slabs[a].backing && s.ctls == st.slabs[a].ctls
    ensures var r := st.(slabs := st.slabs[a := s]);
            Listed(r) && Inv(c, Sort(r)) && Sort(r).slabs == st.slabs[a := s]
  {
    hide Spread, Sort, Separate, Mapped, Sorted;
    var r := st.(slabs := st.slabs[a := s]);
    ChangeSpread(st, a, s);
    SpreadListed(r);
    ChangeMapped(c, st, a, s);
    ChangeSeparate(c, st.slabs, a, s);
    SortSorts(r);
    SpreadListed(Sort(r));
    SameMapped(c, r, Sort(r));
  }

  lemma SpreadListed(st: State)
    requires Spread(st)
    ensures Listed(st)
  {}

  lemma SameMapped(c: Config, st: State, r: State)
    requires Mapped(c, st) && r.slabs == st.slabs && r.objMap == st.objMap
    ensures Mapped(c, r)
  {}

  /** get_object keeps the invariant, hands out a buffer that was not live, and makes it and no other
      buffer live. */
  lemma GetKeeps(c: Config, st: State, p: Supply)
    requires Inv(c, st) && (NeedsSlab(st) ==> Fresh(c, st, p))
    ensures var (r, a, i) := Get(c, st, p);
            && Inv(c, r)
            && !IsLive(st, a, i) && IsLive(r, a, i)
            && forall b, j: nat :: IsLive(r, b, j) <==> IsLive(st, b, j) || (b == a && j == i)
  {
    hide Inv, Spread, Sort, Separate, Mapped, Sorted, Fresh;
    var s1 := if NeedsSlab(st) then Grow(c, st, p) else st;
    if NeedsSlab(st) { GrowInv(c, st, p); }
    SourceHasBuffer(c, s1);
    var a := Source(s1);
    var s := s1.slabs[a];
    ChangeAndSort(c, s1, a, Take(s));
    forall j: nat ensures j in s.chain <==> j in s.chain[1..] || j == s.chain[0] {
      assert s.chain == [s.chain[0]] + s.chain[1..];
    }
  }

  lemma TakeOk(c: Config, s: Slab)
    requires GoodConfig(c) && SlabOk(c, s) && s.chain != []
    ensures SlabOk(c, Take(s)) && s.chain[0] < |s.ctls| && s.chain[0] !in s.chain[1..]
  {
    assert s.chain[0] in s.chain;
    assert forall x | x in s.chain[1..] :: x in s.chain;
  }

  lemma SourceHasBuffer(c: Config, st: State)
    requires Inv(c, st) && !NeedsSlab(st)
    ensures var a := Source(st);
            && a in st.slabs && st.slabs[a].chain != []
            && SlabOk(c, st.slabs[a]) && SlabOk(c, Take(st.slabs[a]))
            && st.slabs[a].chain[0] < |st.slabs[a].ctls|
            && st.slabs[a].chain[0] !in st.slabs[a].chain[1..]
  {
    hide Separate, Mapped, Spread;
    var a := Source(st);
    SpreadListed(st);
    assert a in st.used || a in st.free;
    var s := st.slabs[a];
    assert SlabOk(c, s);
    assert s.chain != [];
    TakeOk(c, s);
  }

  lemma {:induction false} Pigeonhole(s: seq<nat>, n: nat, i: nat)
    requires NoDup(s) && (forall x | x in s :: x < n) && i < n && i !in s
    ensures |s| < n
  {
    CardinalityNoDup(s);
    assert Elements(s) < Below(n) by { assert i in Below(n) && i !in Elements(s); }
    Smaller(Elements(s), Below(n));
  }

  function Elements(s: seq<nat>): set<nat> { set x | x in s }

  lemma Smaller(a: set<nat>, b: set<nat>)
    requires a < b
    ensures |a| < |b|
  {
    var x :| x in b && x !in a;
    assert a <= b - {x};
    NotLarger(a, b - {x});
  }

  lemma {:induction false} NotLarger(a: set<nat>, b: set<nat>)
    requires a <= b
    ensures |a| <= |b|
  {
    if a != {} {
      var x :| x in a;
      NotLarger(a - {x}, b - {x});
    }
  }

  function Below(n: nat): (r: set<nat>)
    ensures |r| == n && forall x: nat :: x in r <==> x < n
  {
    if n == 0 then {} else Below(n - 1) + {n - 1}
  }

  lemma {:induction false} CardinalityNoDup(s: seq<nat>)
    requires NoDup(s)
    ensures |Elements(s)| == |s|
  {
    if s != [] {
      var t, y := s[..|s| - 1], s[|s| - 1];
      CardinalityNoDup(t);
      assert Elements(s) == Elements(t) + {y};
      assert y !in t;
    }
  }

  /** put_object of a live buffer keeps the invariant and ends exactly that buffer's life. */
  lemma PutKeeps(c: Config, st: State, a: nat, i: nat)
    requires Inv(c, st) && IsLive(st, a, i)
    ensures var r := Put(st, a, i);
            && Inv(c, r)
            && !IsLive(r, a, i)
            && forall b, j: nat :: IsLive(st, b, j) <==> IsLive(r, b, j) || (b == a && j == i)
  {
    hide Inv, Spread, Sort, Separate, Mapped, Sorted;
    LiveHasCount(c, st, a, i);
    var s := st.slabs[a];
    ChangeAndSort(c, st, a, s.(chain := [i] + s.chain, refs := s.refs - 1));
  }

  lemma LiveHasCount(c: Config, st: State, a: nat, i: nat)
    requires Inv(c, st) && IsLive(st, a, i)
    ensures Listed(st) && st.slabs[a].refs > 0
    ensures SlabOk(c, st.slabs[a].(chain := [i] + st.slabs[a].chain, refs := st.slabs[a].refs - 1))
  {
    var s := st.slabs[a];
    assert SlabOk(c, s);
    Pigeonhole(s.chain, |s.ctls|, i);
  }

  /** Giving back what was just handed out leaves every slab with the free list and count it had, a slab
      made for the occasion with those it was made with. */
  lemma PutUndoesGet(c: Config, st: State, p: Supply)
    requires Inv(c, st) && (NeedsSlab(st) ==> Fresh(c, st, p))
    ensures var (r, a, i) := Get(c, st, p);
            var s1 := if NeedsSlab(st) then Grow(c, st, p) else st;
            a in r.slabs && Listed(r) && Put(r, a, i).slabs == s1.slabs
  {
    hide Inv, Fresh, Spread, Sort, Separate, Mapped, Sorted;
    var (r, a, i) := Get(c, st, p);
    var s1 := if NeedsSlab(st) then Grow(c, st, p) else st;
    if NeedsSlab(st) { GrowInv(c, st, p); }
    GetKeeps(c, st, p);
    SourceHasBuffer(c, s1);
    var s := s1.slabs[a];
    ChangeAndSort(c, s1, a, Take(s));
    LiveHasCount(c, r, a, i);
    assert [s.chain[0]] + s.chain[1..] == s.chain;
    ChangeAndSort(c, r, a, s);
    assert s1.slabs[a := Take(s)][a := s] == s1.slabs;
  }

  // ---- which slab is where --------------------------------------------------------------------

  /** Where slab a is listed, told by its reference count: all of its buffers are out, none, or some. */
  ghost predicate ListedByCount(st: State, a: nat)
    requires a in st.slabs
  {
    var refs, n := st.slabs[a].refs, |st.slabs[a].ctls|;
    && (a in st.full <==> refs == n) && (a in st.free <==> refs == 0) && (a in st.used <==> 0 < refs < n)
  }

  lemma SlabIsListed(c: Config, st: State, a: nat)
    requires Inv(c, st) && a in st.slabs
    ensures ListedByCount(st, a)
  {
    SlabCounts(c, st, a);
    hide SlabOk, Separate, Mapped, GoodConfig;
    assert Lists(st, a) == 1;
    OccIn(st.free, a);
    OccIn(st.used, a);
    OccIn(st.full, a);
    hide Occ;
  }

  lemma SlabCounts(c: Config, st: State, a: nat)
    requires Inv(c, st) && a in st.slabs
    ensures var s := st.slabs[a]; s.refs + |s.chain| == |s.ctls| > 0
  {
    assert SlabOk(c, st.slabs[a]);
    hide SlabOk, Separate, Mapped, Spread, Sorted, BuffSize;
  }

  /** A slab has an object out and a buffer left. */
  ghost predicate PartlyUsed(st: State, a: nat) {
    a in st.slabs && 0 < st.slabs[a].refs < |st.slabs[a].ctls|
  }

  ghost predicate AllOut(st: State) {
    forall b | b in st.slabs :: st.slabs[b].refs == |st.slabs[b].ctls|
  }

  lemma NeedsSlabIff(c: Config, st: State)
    requires Inv(c, st)
    ensures NeedsSlab(st) <==> AllOut(st)
  {
    SpreadOfInv(c, st);
    forall b | b in st.slabs
      ensures b in st.used || b in st.free <==> st.slabs[b].refs < |st.slabs[b].ctls|
      ensures st.slabs[b].refs <= |st.slabs[b].ctls|
    {
      SlabIsListed(c, st, b);
      SlabCounts(c, st, b);
    }
    hide Inv;
    if st.used != [] { assert st.used[0] in st.used; }
    if st.free != [] { assert st.free[0] in st.free; }
  }

  lemma UsedFirst(c: Config, st: State)
    requires Inv(c, st) && exists b :: PartlyUsed(st, b)
    ensures st.used != [] && st.used[0] in st.slabs && st.slabs[st.used[0]].refs > 0
  {
    SpreadOfInv(c, st);
    var b :| PartlyUsed(st, b);
    SlabIsListed(c, st, b);
    assert st.used[0] in st.used;
    SlabIsListed(c, st, st.used[0]);
    hide Inv;
  }

  /** get_object makes a slab only if every buffer of every slab is out, and takes from a slab that has an
      object out already as long as there is one with a buffer left. */
  lemma GetSpares(c: Config, st: State, p: Supply)
    requires Inv(c, st) && (NeedsSlab(st) ==> Fresh(c, st, p))
    ensures var (r, a, i) := Get(c, st, p);
            && (r.slabs.Keys != st.slabs.Keys <==> AllOut(st))
            && ((exists b :: PartlyUsed(st, b)) ==> a in st.slabs && st.slabs[a].refs > 0)
  {
    hide Inv, Fresh, AllOut, PartlyUsed, Sort;
    NeedsSlabIff(c, st);
    GetKeys(c, st, p);
    if b :| PartlyUsed(st, b) { UsedFirst(c, st); }
  }

  lemma GetKeys(c: Config, st: State, p: Supply)
    requires Inv(c, st) && (NeedsSlab(st) ==> Fresh(c, st, p))
    ensures var (r, a, i) := Get(c, st, p);
            && r.slabs.Keys == st.slabs.Keys + (if NeedsSlab(st) then {p.addr} else {})
            && (NeedsSlab(st) ==> p.addr !in st.slabs)
            && (!NeedsSlab(st) ==> a == if st.used != [] then st.used[0] else st.free[0])
  {
    hide Inv, Spread, Sorted, Mapped, Separate, SlabOk, KindOf, Apart;
    if NeedsSlab(st) { GrowInv(c, st, p); }
    SourceHasBuffer(c, if NeedsSlab(st) then Grow(c, st, p) else st);
  }

  // ---- objects never collide ------------------------------------------------------------------

  /** The bytes from x on that belong to one thing, as a half-open range. */
  datatype Extent = Extent(start: nat, len: nat)

  predicate Disjoint(x: Extent, y: Extent) { Apart(x.start, x.len, y.start, y.len) }

  function Object(c: Config, s: Slab, i: nat): Extent
    requires c.objAlign > 0
  {
    Extent(Buffer(c, s.backing, i), c.objSize)
  }

  function Marker(c: Config, s: Slab, i: nat): Extent
    requires c.objAlign > 0
  {
    Extent(Buffer(c, s.backing, i) + c.objSize, MAGIC_SIZE)
  }

  function InlineCtl(c: Config, s: Slab, i: nat): Extent
    requires c.objAlign > 0
  {
    Extent(Buffer(c, s.backing, i) + CtlOffset(c), INLINE_CTL)
  }

  /** The object of buffer (a, i) shares no byte with the object of any other buffer, with any
      buffer's marker, with any inline control block or with any inline header; it lies in its own
      block, and it is aligned if its block is. */
  lemma NoCollision(c: Config, st: State, a: nat, i: nat, b: nat, j: nat)
    requires Inv(c, st) && a in st.slabs && b in st.slabs
    requires i < Buffers(c) && j < Buffers(c)
    ensures var s, t := st.slabs[a], st.slabs[b];
            && (a != b || i != j ==> Disjoint(Object(c, s, i), Object(c, t, j)))
            && (c.markers ==> Disjoint(Object(c, s, i), Marker(c, t, j)))
            && (c.compact ==> Disjoint(Object(c, s, i), InlineCtl(c, t, j)))
            && (c.compact ==> Disjoint(Object(c, s, i), Extent(b, SLAB_HEADER)))
            && s.backing <= Object(c, s, i).start
            && Object(c, s, i).start + c.objSize <= s.backing + c.allocSize
            && (s.backing % c.objAlign == 0 ==> Object(c, s, i).start % c.objAlign == 0)
  {
    hide Spread, Sorted, Mapped, CtlsApart, HeadsApart;
    var s, t := st.slabs[a], st.slabs[b];
    BuffersFit(c, s.backing, i);
    BuffersFit(c, t.backing, j);
    BufferAbove(c, s.backing, i);
    BufferAbove(c, t.backing, j);
    if a == b && i < j { BuffersApart(c, s.backing, i, j); }
    if a == b && j < i { BuffersApart(c, s.backing, j, i); }
  }

  lemma BufferAbove(c: Config, backing: nat, i: nat)
    requires GoodConfig(c)
    ensures Buffer(c, backing, i) >= backing && BuffSize(c) > 0
  {
    Scale(BuffSize(c), 0, i);
  }

  /** An address is the start of at most one buffer. */
  lemma BufferUnique(c: Config, st: State, a: nat, i: nat, b: nat, j: nat)
    requires Inv(c, st) && a in st.slabs && b in st.slabs && i < Buffers(c) && j < Buffers(c)
    requires Buffer(c, st.slabs[a].backing, i) == Buffer(c, st.slabs[b].backing, j)
    ensures a == b && i == j
  {
    hide Spread, Sorted, Mapped, CtlsApart, HeadsApart;
    var s, t := st.slabs[a], st.slabs[b];
    BuffersFit(c, s.backing, i);
    BuffersFit(c, t.backing, j);
    BufferAbove(c, s.backing, i);
    BufferAbove(c, t.backing, j);
    if a == b && i < j { BuffersApart(c, s.backing, i, j); }
    if a == b && j < i { BuffersApart(c, s.backing, j, i); }
  }

  // ---- whole runs -----------------------------------------------------------------------------

  /** A call: get_object, with what the back ends would deliver, or put_object of an address. */
  datatype Call = GetCall(p: Supply) | PutCall(ptr: nat)

  /** The cache and the addresses handed out and not given back. */
  datatype System = System(st: State, out: set<nat>)

  ghost predicate LiveAt(c: Config, st: State, ptr: nat, a: nat, i: nat)
    requires GoodConfig(c)
  {
    IsLive(st, a, i) && i < Buffers(c) && Buffer(c, st.slabs[a].backing, i) == ptr
  }

  ghost predicate Agrees(c: Config, y: System) {
    && Inv(c, y.st)
    && forall ptr :: ptr in y.out <==> exists a, i :: LiveAt(c, y.st, ptr, a, i)
  }

  ghost predicate Legal(c: Config, y: System, k: Call)
    requires Agrees(c, y)
  {
    match k
    case GetCall(p) => NeedsSlab(y.st) ==> Fresh(c, y.st, p)
    case PutCall(ptr) => ptr in y.out
  }

  ghost function Step(c: Config, y: System, k: Call): System
    requires Agrees(c, y) && Legal(c, y, k)
  {
    match k
    case GetCall(p) =>
      GetKeeps(c, y.st, p);
      var (r, a, i) := Get(c, y.st, p);
      System(r, y.out + {Buffer(c, r.slabs[a].backing, i)})
    case PutCall(ptr) =>
      var a, i :| LiveAt(c, y.st, ptr, a, i);
      SpreadListed(y.st);
      System(Put(y.st, a, i), y.out - {ptr})
  }

  lemma StepAgrees(c: Config, y: System, k: Call)
    requires Agrees(c, y) && Legal(c, y, k)
    ensures Agrees(c, Step(c, y, k))
    ensures k.GetCall? ==> exists ptr :: ptr !in y.out && Step(c, y, k).out == y.out + {ptr}
    ensures k.PutCall? ==> Step(c, y, k).out == y.out - {k.ptr}
  {
    match k
    case GetCall(p) => GetStep(c, y, p);
    case PutCall(ptr) => PutStep(c, y, ptr);
  }

  lemma GetStep(c: Config, y: System, p: Supply)
    requires Agrees(c, y) && Legal(c, y, GetCall(p))
    ensures Agrees(c, Step(c, y, GetCall(p)))
    ensures exists ptr :: ptr !in y.out && Step(c, y, GetCall(p)).out == y.out + {ptr}
  {
    hide Inv, Fresh, Get;
    SpreadOfInv(c, y.st);
    GetKeeps(c, y.st, p);
    var (r, a, i) := Get(c, y.st, p);
    GetBlocks(c, y.st, p);
    var ptr := Buffer(c, r.slabs[a].backing, i);
    var z := Step(c, y, GetCall(p));
    forall q ensures q in z.out <==> exists b, j :: LiveAt(c, r, q, b, j) {
      if q in y.out {
        var b, j :| LiveAt(c, y.st, q, b, j);
        assert LiveAt(c, r, q, b, j);
      }
      if q == ptr { assert LiveAt(c, r, q, a, i); }
      if b, j :| LiveAt(c, r, q, b, j) {
        if !(b == a && j == i) { assert LiveAt(c, y.st, q, b, j); }
      }
    }
    if ptr in y.out {
      var b, j :| LiveAt(c, y.st, ptr, b, j);
      BufferUnique(c, r, a, i, b, j);
    }
  }

  /** get_object moves no block, and hands out a buffer that exists. */
  lemma GetBlocks(c: Config, st: State, p: Supply)
    requires Inv(c, st) && (NeedsSlab(st) ==> Fresh(c, st, p))
    ensures var (r, a, i) := Get(c, st, p);
            && a in r.slabs && i < Buffers(c)
            && (forall b | b in st.slabs :: b in r.slabs && r.slabs[b].backing == st.slabs[b].backing)
            && forall b | b in r.slabs && b !in st.slabs :: NeedsSlab(st) && r.slabs[b].backing == p.backing
  {
    hide Inv, Spread, Sorted, Mapped, Separate, SlabOk, KindOf, Apart;
    var s1 := if NeedsSlab(st) then Grow(c, st, p) else st;
    if NeedsSlab(st) { GrowInv(c, st, p); }
    SourceHasBuffer(c, s1);
    SlabHasAll(c, s1, Source(s1));
  }

  lemma SlabHasAll(c: Config, st: State, a: nat)
    requires Inv(c, st) && a in st.slabs
    ensures GoodConfig(c) && |st.slabs[a].ctls| == Buffers(c)
  {
    assert SlabOk(c, st.slabs[a]);
  }

  lemma PutBlocks(c: Config, st: State, a: nat, i: nat)
    requires Inv(c, st) && IsLive(st, a, i) && Listed(st)
    ensures var r := Put(st, a, i);
            r.slabs.Keys == st.slabs.Keys && forall b | b in st.slabs :: r.slabs[b].backing == st.slabs[b].backing
  {
    hide Inv, Sort;
    LiveHasCount(c, st, a, i);
    var s := st.slabs[a];
    SpreadOfInv(c, st);
    ChangeAndSort(c, st, a, s.(chain := [i] + s.chain, refs := s.refs - 1));
  }

  lemma PutStep(c: Config, y: System, ptr: nat)
    requires Agrees(c, y) && Legal(c, y, PutCall(ptr))
    ensures Agrees(c, Step(c, y, PutCall(ptr)))
  {
    hide Inv, Put, Listed;
    SpreadOfInv(c, y.st);
    var a, i :| LiveAt(c, y.st, ptr, a, i) && Step(c, y, PutCall(ptr)).st == Put(y.st, a, i);
    PutKeeps(c, y.st, a, i);
    PutBlocks(c, y.st, a, i);
    var r := Put(y.st, a, i);
    forall q ensures q in y.out - {ptr} <==> exists b, j :: LiveAt(c, r, q, b, j) {
      if q in y.out && q != ptr {
        var b, j :| LiveAt(c, y.st, q, b, j);
        assert LiveAt(c, r, q, b, j);
      }
      if b, j :| LiveAt(c, r, q, b, j) {
        assert LiveAt(c, y.st, q, b, j);
        if q == ptr { BufferUnique(c, y.st, a, i, b, j); }
      }
    }
  }

  lemma SpreadOfInv(c: Config, st: State)
    requires Inv(c, st)
    ensures Listed(st) && GoodConfig(c)
  {}

  /** Legality of a sequence of calls, each judged in the state it meets. */
  ghost predicate LegalRun(c: Config, y: System, calls: seq<Call>)
    requires Agrees(c, y)
    decreases |calls|
  {
    calls == [] ||
    (Legal(c, y, calls[0]) && (StepAgrees(c, y, calls[0]); LegalRun(c, Step(c, y, calls[0]), calls[1..])))
  }

  ghost function Execute(c: Config, y: System, calls: seq<Call>): System
    requires Agrees(c, y) && LegalRun(c, y, calls)
    decreases |calls|
  {
    if calls == [] then y
    else
      StepAgrees(c, y, calls[0]);
      Execute(c, Step(c, y, calls[0]), calls[1..])
  }

  /** From an empty cache, any sequence of get_object and of put_object of addresses handed out keeps
      every slab on exactly the list of its kind, reference counts and free lists adding up to the
      number of buffers, and obj_map complete; and the addresses out are exactly the buffers on no
      free list. */
  lemma {:induction false} RunsKeepInvariant(c: Config, y: System, calls: seq<Call>)
    requires Agrees(c, y) && LegalRun(c, y, calls)
    ensures var z := Execute(c, y, calls);
            && Agrees(c, z)
            && (forall a {:trigger Lists(z.st, a)} :: Lists(z.st, a) == if a in z.st.slabs then 1 else 0)
            && Listed(z.st)
            && (forall a | a in z.st.slabs ::
                  ListedByCount(z.st, a) && z.st.slabs[a].refs + |z.st.slabs[a].chain| == Buffers(c))
            && Mapped(c, z.st)
    decreases |calls|
  {
    if calls != [] {
      StepAgrees(c, y, calls[0]);
      RunsKeepInvariant(c, Step(c, y, calls[0]), calls[1..]);
    } else {
      forall a | a in y.st.slabs
        ensures ListedByCount(y.st, a) && y.st.slabs[a].refs + |y.st.slabs[a].chain| == Buffers(c)
      {
        SlabIsListed(c, y.st, a);
        assert SlabOk(c, y.st.slabs[a]);
      }
    }
  }

  /** An empty cache agrees with nothing being out, so runs can start there. */
  lemma EmptyAgrees(c: Config)
    requires GoodConfig(c)
    ensures Agrees(c, System(State(map[], [], [], [], []), {}))
  {}

  /** What the back ends may deliver with the block at b: in a compact cache header and control blocks lie
      in the block; else, to have an example, the control blocks behind it and the header at 0. */
  function SupplyAt(c: Config, b: nat): Supply
    requires GoodConfig(c)
  {
    Supply(if c.compact then b + c.allocSize - SLAB_HEADER else 0, b,
           seq(Buffers(c), i requires 0 <= i => CtlAt(c, b, i)))
  }

  function CtlAt(c: Config, b: nat, i: nat): nat
    requires c.objAlign > 0
  {
    if c.compact then Buffer(c, b, i) + CtlOffset(c) else b + c.allocSize + 48 * i
  }

  lemma SupplyOk(c: Config, b: nat)
    requires GoodConfig(c)
    ensures var p := SupplyAt(c, b); SlabOk(c, Slab(p.backing, p.ctls, Down(|p.ctls|), 0))
  {
    var p := SupplyAt(c, b);
    forall i, j | 0 <= i < j < |p.ctls| ensures p.ctls[i] != p.ctls[j] {
      BuffersApart(c, b, i, j);
      BufferAbove(c, b, i);
    }
  }

  /** What get_object demands of the back ends can be met: the first get_object of any cache succeeds. */
  lemma FirstGet(c: Config)
    requires GoodConfig(c)
    ensures var st := State(map[], [], [], [], []);
            && Inv(c, st) && NeedsSlab(st) && Fresh(c, st, SupplyAt(c, PAGE))
            && var (r, a, i) := Get(c, st, SupplyAt(c, PAGE)); Inv(c, r) && IsLive(r, a, i)
  {
    EmptyAgrees(c);
    SupplyOk(c, PAGE);
    GetKeeps(c, State(map[], [], [], [], []), SupplyAt(c, PAGE));
  }
}
