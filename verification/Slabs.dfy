/** The slab cache of kernel/memory/cache.cc on values: which list a slab belongs on, and what sorting,
    get_object and put_object do to the slabs and the lists. */
module Slabs {
  import opened SlabLayout

  // ---- state ----------------------------------------------------------------------------------

  /** One slab: its block, its control blocks (the i-th stands for the i-th buffer), the buffers on
      its free list from the head on, and its reference count. */
  datatype Slab = Slab(backing: nat, ctls: seq<nat>, chain: seq<nat>, refs: nat)

  /** What _slab_full and _slab_empty tell apart. A slab has at least one buffer, so it is never both. */
  datatype Kind = Empty | Partial | Full

  function KindOf(s: Slab): Kind {
    if s.chain == [] then Full else if s.refs == 0 then Empty else Partial
  }

  /** A cache: its slabs by address, the three lists, and obj_map. */
  datatype State = State(slabs: map<nat, Slab>, free: seq<nat>, used: seq<nat>, full: seq<nat>, objMap: seq<nat>)

  ghost predicate NoDup(s: seq<nat>) {
    forall i, j | 0 <= i < j < |s| :: s[i] != s[j]
  }

  /** How often a is listed in s. */
  function Occ(s: seq<nat>, a: nat): nat {
    if s == [] then 0 else Occ(s[..|s| - 1], a) + if s[|s| - 1] == a then 1 else 0
  }

  lemma {:induction false} OccConcat(s: seq<nat>, t: seq<nat>, a: nat)
    ensures Occ(s + t, a) == Occ(s, a) + Occ(t, a)
  {
    if t == [] {
      assert s + t == s;
    } else {
      OccConcat(s, t[..|t| - 1], a);
      assert (s + t)[..|s + t| - 1] == s + t[..|t| - 1];
    }
  }

  lemma {:induction false} OccIn(s: seq<nat>, a: nat)
    ensures a in s <==> Occ(s, a) > 0
  {
    if s != [] {
      OccIn(s[..|s| - 1], a);
      assert a in s <==> a in s[..|s| - 1] || s[|s| - 1] == a;
    }
  }

  /** The slabs are spread over the three lists, each on exactly one of them and once. */
  ghost predicate Spread(st: State) {
    && Listed(st)
    && forall a {:trigger Lists(st, a)} :: Lists(st, a) == if a in st.slabs then 1 else 0
  }

  function Lists(st: State, a: nat): nat { Occ(st.free, a) + Occ(st.used, a) + Occ(st.full, a) }

  ghost predicate Listed(st: State) {
    && (forall a | a in st.free :: a in st.slabs)
    && (forall a | a in st.used :: a in st.slabs)
    && (forall a | a in st.full :: a in st.slabs)
  }

  ghost predicate SlabOk(c: Config, s: Slab)
    requires GoodConfig(c)
  {
    && |s.ctls| == Buffers(c)
    && s.refs + |s.chain| == |s.ctls|
    && NoDup(s.chain) && (forall i | i in s.chain :: i < |s.ctls|)
    && NoDup(s.ctls)
    && (c.compact ==> forall i | 0 <= i < |s.ctls| :: s.ctls[i] == Buffer(c, s.backing, i) + CtlOffset(c))
  }

  /** Slabs without a free buffer are on the full list, those with nothing but free buffers on the free list,
      and the others on the used list. */
  ghost predicate Sorted(st: State)
    requires Listed(st)
  {
    && (forall a | a in st.free :: st.slabs[a].chain != [] && st.slabs[a].refs == 0)
    && (forall a | a in st.used :: st.slabs[a].chain != [] && st.slabs[a].refs > 0)
    && (forall a | a in st.full :: st.slabs[a].chain == [])
  }

  // ---- sorting --------------------------------------------------------------------------------

  /** The slabs of a list whose kind is k, in order; and the others. */
  function Only(slabs: map<nat, Slab>, s: seq<nat>, k: Kind): (r: seq<nat>)
    requires forall a | a in s :: a in slabs
    ensures forall a :: a in r <==> a in s && KindOf(slabs[a]) == k
  {
    if s == [] then []
    else
      var t := s[..|s| - 1];
      var a := s[|s| - 1];
      if KindOf(slabs[a]) == k then Only(slabs, t, k) + [a] else Only(slabs, t, k)
  }

  function Other(slabs: map<nat, Slab>, s: seq<nat>, k: Kind): (r: seq<nat>)
    requires forall a | a in s :: a in slabs
    ensures forall a :: a in r <==> a in s && KindOf(slabs[a]) != k
  {
    if s == [] then []
    else
      var t := s[..|s| - 1];
      var a := s[|s| - 1];
      if KindOf(slabs[a]) != k then Other(slabs, t, k) + [a] else Other(slabs, t, k)
  }

  /** What is picked out of a list stays in order. */
  lemma PicksInOrder(slabs: map<nat, Slab>, s: seq<nat>, t: seq<nat>, k: Kind)
    requires forall a | a in s || a in t :: a in slabs
    ensures Only(slabs, s + t, k) == Only(slabs, s, k) + Only(slabs, t, k)
    ensures Other(slabs, s + t, k) == Other(slabs, s, k) + Other(slabs, t, k)
  {
    OnlyJoins(slabs, s, t, k);
    OtherJoins(slabs, s, t, k);
  }

  lemma {:induction false} OnlyJoins(slabs: map<nat, Slab>, s: seq<nat>, t: seq<nat>, k: Kind)
    requires forall a | a in s || a in t :: a in slabs
    ensures Only(slabs, s + t, k) == Only(slabs, s, k) + Only(slabs, t, k)
  {
    hide Only, KindOf;
    if t == [] {
      assert s + t == s;
      Nothing(slabs, k);
    } else {
      var u, a := t[..|t| - 1], t[|t| - 1];
      assert t == u + [a];
      OnlyJoins(slabs, s, u, k);
      OnlyLast(slabs, s + u, a, k);
      OnlyLast(slabs, u, a, k);
      assert s + t == (s + u) + [a];
    }
  }

  lemma OnlyLast(slabs: map<nat, Slab>, s: seq<nat>, a: nat, k: Kind)
    requires a in slabs && forall b | b in s :: b in slabs
    ensures Only(slabs, s + [a], k) == Only(slabs, s, k) + if KindOf(slabs[a]) == k then [a] else []
  {
    assert (s + [a])[..|s|] == s && (s + [a])[|s|] == a;
    hide KindOf;
  }

  lemma {:induction false} OtherJoins(slabs: map<nat, Slab>, s: seq<nat>, t: seq<nat>, k: Kind)
    requires forall a | a in s || a in t :: a in slabs
    ensures Other(slabs, s + t, k) == Other(slabs, s, k) + Other(slabs, t, k)
  {
    hide Other, KindOf;
    if t == [] {
      assert s + t == s;
      Nothing(slabs, k);
    } else {
      var u, a := t[..|t| - 1], t[|t| - 1];
      assert t == u + [a];
      OtherJoins(slabs, s, u, k);
      OtherLast(slabs, s + u, a, k);
      OtherLast(slabs, u, a, k);
      assert s + t == (s + u) + [a];
    }
  }

  lemma OtherLast(slabs: map<nat, Slab>, s: seq<nat>, a: nat, k: Kind)
    requires a in slabs && forall b | b in s :: b in slabs
    ensures Other(slabs, s + [a], k) == Other(slabs, s, k) + if KindOf(slabs[a]) != k then [a] else []
  {
    assert (s + [a])[..|s|] == s && (s + [a])[|s|] == a;
    hide KindOf;
  }

  lemma Nothing(slabs: map<nat, Slab>, k: Kind)
    ensures Only(slabs, [], k) == [] && Other(slabs, [], k) == []
  {}

  /** _cache_sort: three passes, each appending what it moves to the tail of its target. */
  function Sort(st: State): State
    requires Listed(st)
  {
    var m := st.slabs;
    var used := st.used + Other(m, st.full, Full) + Other(m, st.free, Empty);
    State(m,
          Only(m, st.free, Empty) + Only(m, used, Empty),
          Only(m, used, Partial),
          Only(m, st.full, Full) + Only(m, used, Full),
          st.objMap)
  }

  lemma {:induction false} OnlyOcc(slabs: map<nat, Slab>, s: seq<nat>, k: Kind, a: nat)
    requires forall b | b in s :: b in slabs
    ensures Occ(Only(slabs, s, k), a) == if a in slabs && KindOf(slabs[a]) == k then Occ(s, a) else 0
  {
    if s != [] {
      var t, x := s[..|s| - 1], s[|s| - 1];
      OnlyOcc(slabs, t, k, a);
      if KindOf(slabs[x]) == k { OccConcat(Only(slabs, t, k), [x], a); }
      if a !in slabs { OccIn(t, a); }
    }
  }

  lemma {:induction false} OtherOcc(slabs: map<nat, Slab>, s: seq<nat>, k: Kind, a: nat)
    requires forall b | b in s :: b in slabs
    ensures Occ(Other(slabs, s, k), a) == if a in slabs && KindOf(slabs[a]) != k then Occ(s, a) else 0
  {
    if s != [] {
      var t, x := s[..|s| - 1], s[|s| - 1];
      OtherOcc(slabs, t, k, a);
      if KindOf(slabs[x]) != k { OccConcat(Other(slabs, t, k), [x], a); }
      if a !in slabs { OccIn(t, a); }
    }
  }

  /** Sorting lists every slab exactly as often as before. */
  lemma SortLists(st: State, a: nat)
    requires Listed(st)
    ensures Lists(Sort(st), a) == Lists(st, a)
  {
    var m := st.slabs;
    var moved := st.used + Other(m, st.full, Full);
    var used := moved + Other(m, st.free, Empty);
    OnlyOcc(m, st.full, Full, a);
    OtherOcc(m, st.full, Full, a);
    OnlyOcc(m, st.free, Empty, a);
    OtherOcc(m, st.free, Empty, a);
    OccConcat(st.used, Other(m, st.full, Full), a);
    OccConcat(moved, Other(m, st.free, Empty), a);
    OnlyOcc(m, used, Empty, a);
    OnlyOcc(m, used, Partial, a);
    OnlyOcc(m, used, Full, a);
    OccConcat(Only(m, st.free, Empty), Only(m, used, Empty), a);
    OccConcat(Only(m, st.full, Full), Only(m, used, Full), a);
    if a !in m { OccIn(st.free, a); OccIn(st.used, a); OccIn(st.full, a); }
  }

  /** From any distribution over the three lists, sorting keeps the set of slabs and leaves every slab
      on the list of its kind. */
  lemma SortSorts(st: State)
    requires Spread(st)
    ensures Spread(Sort(st)) && Sorted(Sort(st)) && Sort(st).slabs == st.slabs && Sort(st).objMap == st.objMap
  {
    var r := Sort(st);
    forall a ensures Lists(r, a) == if a in r.slabs then 1 else 0 {
      SortLists(st, a);
      assert Lists(st, a) == if a in st.slabs then 1 else 0;
    }
  }

  lemma {:induction false} AllOfKind(slabs: map<nat, Slab>, s: seq<nat>, k: Kind)
    requires forall a | a in s :: a in slabs && KindOf(slabs[a]) == k
    ensures Only(slabs, s, k) == s && Other(slabs, s, k) == []
    ensures forall k' | k' != k :: Only(slabs, s, k') == []
  {
    hide KindOf;
    if s != [] {
      var t, a := s[..|s| - 1], s[|s| - 1];
      assert s == t + [a];
      AllOfKind(slabs, t, k);
      OnlyLast(slabs, t, a, k);
      OtherLast(slabs, t, a, k);
      forall k' | k' != k ensures Only(slabs, s, k') == [] { OnlyLast(slabs, t, a, k'); }
      hide Only, Other;
    }
  }

  lemma SortedStays(st: State)
    requires Listed(st) && Sorted(st)
    ensures Sort(st) == st
  {
    AllOfKind(st.slabs, st.free, Empty);
    AllOfKind(st.slabs, st.used, Partial);
    AllOfKind(st.slabs, st.full, Full);
    hide Only, Other, KindOf;
    assert st.used + [] + [] == st.used;
    assert st.free + [] == st.free && st.full + [] == st.full;
  }

  /** A second sort changes nothing. */
  lemma SortTwice(st: State)
    requires Spread(st)
    ensures Sort(Sort(st)) == Sort(st)
  {
    SortSorts(st);
    SortedStays(Sort(st));
  }

  // ---- get_object and put_object --------------------------------------------------------------

  /** What the back ends deliver for a new slab: the address of its header, its block, and its control
      blocks. In a compact cache header and control blocks lie in the block itself. */
  datatype Supply = Supply(addr: nat, backing: nat, ctls: seq<nat>)

  function Down(n: nat): (r: seq<nat>)
    ensures |r| == n && forall i | 0 <= i < n :: r[i] == n - 1 - i
  {
    seq(n, i requires 0 <= i < n => n - 1 - i)
  }

  function Reversed(s: seq<nat>): (r: seq<nat>)
    ensures |r| == |s| && forall i | 0 <= i < |s| :: r[i] == s[|s| - 1 - i]
  {
    seq(|s|, i requires 0 <= i < |s| => s[|s| - 1 - i])
  }

  /** _slab_alloc: every buffer free, the last one first, and every external control block known to
      obj_map. */
  function Grow(c: Config, st: State, p: Supply): State {
    State(st.slabs[p.addr := Slab(p.backing, p.ctls, Down(|p.ctls|), 0)],
          [p.addr] + st.free, st.used, st.full,
          if c.compact then st.objMap else Reversed(p.ctls) + st.objMap)
  }

  predicate NeedsSlab(st: State) { st.used == [] && st.free == [] }

  /** The slab get_object takes from, once there is one. */
  function Source(st: State): nat
    requires !NeedsSlab(st)
  {
    if st.used != [] then st.used[0] else st.free[0]
  }

  function Take(s: Slab): Slab
    requires s.chain != []
  {
    s.(chain := s.chain[1..], refs := s.refs + 1)
  }

  /** get_object: the new state, the slab taken from and the number of the buffer handed out. */
  function Get(c: Config, st: State, p: Supply): (r: (State, nat, nat))
    requires Inv(c, st) && (NeedsSlab(st) ==> Fresh(c, st, p))
  {
    var s1 := if NeedsSlab(st) then Grow(c, st, p) else st;
    var a := Source(s1);
    if NeedsSlab(st) then
      assert s1.slabs[a].chain == Down(Buffers(c));
      (Sort(s1.(slabs := s1.slabs[a := Take(s1.slabs[a])])), a, s1.slabs[a].chain[0])
    else
      assert a in st.used || a in st.free;
      (Sort(s1.(slabs := s1.slabs[a := Take(s1.slabs[a])])), a, s1.slabs[a].chain[0])
  }

  /** put_object of buffer i of slab a. */
  function Put(st: State, a: nat, i: nat): State
    requires Listed(st) && a in st.slabs
  {
    var s := st.slabs[a];
    var s' := if s.refs > 0 then s.(chain := [i] + s.chain, refs := s.refs - 1) else s;
    Sort(st.(slabs := st.slabs[a := s']))
  }

  // ---- invariant ------------------------------------------------------------------------------

  predicate Apart(x: nat, xlen: nat, y: nat, ylen: nat) {
    x + xlen <= y || y + ylen <= x
  }

  /** Blocks of different slabs do not overlap. */
  ghost predicate BlocksApart(c: Config, slabs: map<nat, Slab>) {
    forall a, b | a in slabs && b in slabs && a != b ::
      Apart(slabs[a].backing, c.allocSize, slabs[b].backing, c.allocSize)
  }

  /** No control block stands for two buffers. */
  ghost predicate CtlsApart(slabs: map<nat, Slab>) {
    forall a, b, i, j {:trigger slabs[a].ctls[i], slabs[b].ctls[j]} |
      a in slabs && b in slabs && 0 <= i < |slabs[a].ctls| && 0 <= j < |slabs[b].ctls| &&
      slabs[a].ctls[i] == slabs[b].ctls[j] :: a == b && i == j
  }

  /** No control block shares its pointer word with the head of a slab's free list, or its address
      with a slab header. */
  ghost predicate HeadsApart(slabs: map<nat, Slab>) {
    forall a, b | a in slabs && b in slabs :: HeadWord(a) !in slabs[b].ctls && a !in slabs[b].ctls
  }

  ghost predicate Separate(c: Config, slabs: map<nat, Slab>) {
    BlocksApart(c, slabs) && CtlsApart(slabs) && HeadsApart(slabs)
  }

  /** The address of slab->bufctls, the head of the slab's free list. */
  function HeadWord(a: nat): nat { a + 32 }

  /** obj_map of a cache with external control blocks lists exactly all of them, once each. */
  ghost predicate Mapped(c: Config, st: State) {
    if c.compact then st.objMap == []
    else
      && NoDup(st.objMap)
      && (forall p :: p in st.objMap <==> exists a :: a in st.slabs && p in st.slabs[a].ctls)
  }

  ghost predicate Inv(c: Config, st: State) {
    && GoodConfig(c)
    && Spread(st) && Sorted(st)
    && (forall a | a in st.slabs :: SlabOk(c, st.slabs[a]))
    && (c.compact ==> forall a | a in st.slabs :: a == st.slabs[a].backing + c.allocSize - SLAB_HEADER)
    && Separate(c, st.slabs)
    && Mapped(c, st)
  }

  /** What a supply must be for the slab made from it to stand beside the others. */
  ghost predicate Fresh(c: Config, st: State, p: Supply)
    requires GoodConfig(c)
  {
    && p.addr !in st.slabs
    && SlabOk(c, Slab(p.backing, p.ctls, Down(|p.ctls|), 0))
    && (c.compact ==> p.addr == p.backing + c.allocSize - SLAB_HEADER)
    && (forall a | a in st.slabs :: Apart(p.backing, c.allocSize, st.slabs[a].backing, c.allocSize))
    && (!c.compact ==>
        && (forall a | a in st.slabs :: forall q | q in p.ctls :: q !in st.slabs[a].ctls)
        && (forall q | q in p.ctls :: q != HeadWord(p.addr) && q != p.addr)
        && (forall q, a | q in p.ctls && a in st.slabs :: q != HeadWord(a) && q != a)
        && (forall a | a in st.slabs :: HeadWord(p.addr) !in st.slabs[a].ctls && p.addr !in st.slabs[a].ctls))
  }

  ghost predicate IsLive(st: State, a: nat, i: nat) {
    a in st.slabs && i < |st.slabs[a].ctls| && i !in st.slabs[a].chain
  }
}
