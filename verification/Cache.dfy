/** kernel/memory/cache.cc as it runs: slabs on three rings of links, each with a free list threaded
    through the pointer words of its control blocks. */
module Cache {
  import opened Sequences
  import opened SlabLayout
  import opened Slabs
  import opened Lists
  import opened SlabRuns

  function Set(s: seq<Link>): set<Link> { set x | x in s }

  /** The objects whose links these are. */
  function Entries(s: seq<Link>): (r: seq<int>)
    ensures |r| == |s| && forall i | 0 <= i < |s| :: r[i] == s[i].entry
  {
    seq(|s|, i requires 0 <= i < |s| => s[i].entry)
  }

  /** The links of slabs of kind k, in order; and the others. */
  ghost function Stay(m: map<nat, Slab>, s: seq<Link>, k: Kind): (r: seq<Link>)
    requires forall x | x in s :: x.entry in m
    ensures forall x | x in r :: x in s
  {
    if s == [] then []
    else
      var t, x := s[..|s| - 1], s[|s| - 1];
      if KindOf(m[x.entry]) == k then Stay(m, t, k) + [x] else Stay(m, t, k)
  }

  ghost function Move(m: map<nat, Slab>, s: seq<Link>, k: Kind): (r: seq<Link>)
    requires forall x | x in s :: x.entry in m
    ensures forall x | x in r :: x in s
  {
    if s == [] then []
    else
      var t, x := s[..|s| - 1], s[|s| - 1];
      if KindOf(m[x.entry]) != k then Move(m, t, k) + [x] else Move(m, t, k)
  }

  lemma StayEntries(m: map<nat, Slab>, s: seq<Link>, k: Kind)
    requires forall x | x in s :: x.entry in m
    ensures forall a | a in Entries(s) :: a in m
    ensures Entries(Stay(m, s, k)) == Only(m, Entries(s), k)
    ensures Entries(Move(m, s, k)) == Other(m, Entries(s), k)
  {
    OnlyEntries(m, s, k);
    OtherEntries(m, s, k);
  }

  lemma {:induction false} OnlyEntries(m: map<nat, Slab>, s: seq<Link>, k: Kind)
    requires forall x | x in s :: x.entry in m
    ensures forall a | a in Entries(s) :: a in m
    ensures Entries(Stay(m, s, k)) == Only(m, Entries(s), k)
  {
    if s != [] {
      var t, x := s[..|s| - 1], s[|s| - 1];
      assert s == t + [x];
      OnlyEntries(m, t, k);
      EntriesSnoc(t, x);
      EntriesSnoc(Stay(m, t, k), x);
    }
  }

  lemma {:induction false} OtherEntries(m: map<nat, Slab>, s: seq<Link>, k: Kind)
    requires forall x | x in s :: x.entry in m
    ensures forall a | a in Entries(s) :: a in m
    ensures Entries(Move(m, s, k)) == Other(m, Entries(s), k)
  {
    if s != [] {
      var t, x := s[..|s| - 1], s[|s| - 1];
      assert s == t + [x];
      OtherEntries(m, t, k);
      EntriesSnoc(t, x);
      EntriesSnoc(Move(m, t, k), x);
    }
  }

  lemma EntriesSnoc(s: seq<Link>, x: Link)
    ensures Entries(s + [x]) == Entries(s) + [x.entry]
    ensures Entries(s + [x])[..|s|] == Entries(s)
  {}

  /** The neighbours of a link in a ring belong to the ring. */
  lemma Neighbours(head: Link, s: seq<Link>, i: nat)
    requires Ring(head, s) && i < |s|
    ensures s[i].next == (s + [head])[i + 1] && s[i].prev == ([head] + s)[i]
    ensures s[i].next != null && (s[i].next == head || s[i].next in s)
    ensures s[i].prev != null && (s[i].prev == head || s[i].prev in s)
  {
    CutRing(head, s, i);
    CutRing(head, s, i + 1);
    assert ([head] + s[..i + 1])[i + 1] == s[i];
    assert (s[i..] + [head])[0] == s[i];
  }

  /** Two rings with no link in common. */
  ghost predicate TwoRings(h: Link, s: seq<Link>, g: Link, t: seq<Link>)
    reads h, g, s, t
  {
    h != g && g !in s && h !in t && (forall x | x in s :: x !in t) && Ring(h, s) && Ring(g, t)
  }

  ghost predicate ThreeRings(h: Link, s: seq<Link>, g: Link, t: seq<Link>, q: Link, u: seq<Link>)
    reads h, g, q, s, t, u
  {
    TwoRings(h, s, g, t) && TwoRings(h, s, q, u) && TwoRings(g, t, q, u)
  }

  lemma FirstRing(h: Link, s: seq<Link>, g: Link, t: seq<Link>, q: Link, u: seq<Link>)
    requires ThreeRings(h, s, g, t, q, u)
    ensures Ring(h, s) && h !in s
  {}

  /** Every link of a ring, and its head, has a successor. */
  lemma NextInRing(head: Link, s: seq<Link>, k: nat)
    requires Ring(head, s) && k <= |s|
    ensures (s + [head])[k].next != null
  {
    if k < |s| { Neighbours(head, s, k); } else { RingHead(head, s); }
  }

  lemma NextIs(head: Link, s: seq<Link>, k: nat)
    requires Ring(head, s) && k < |s|
    ensures s[k].next == (s + [head])[k + 1]
  {
    Neighbours(head, s, k);
  }

  /** What is left of a list, and what the target holds, before the i-th link is looked at. */
  ghost function LeftAt(m: map<nat, Slab>, s: seq<Link>, k: Kind, i: nat): (r: seq<Link>)
    requires (forall x | x in s :: x.entry in m) && i <= |s|
    ensures forall x | x in r :: x in s
  {
    Stay(m, s[..i], k) + s[i..]
  }

  ghost function GoneAt(m: map<nat, Slab>, s: seq<Link>, t: seq<Link>, k: Kind, i: nat): (r: seq<Link>)
    requires (forall x | x in s :: x.entry in m) && i <= |s|
    ensures forall x | x in r :: x in s || x in t
  {
    t + Move(m, s[..i], k)
  }

  lemma PassHere(m: map<nat, Slab>, s: seq<Link>, k: Kind, i: nat, h: Link)
    requires (forall x | x in s :: x.entry in m) && i <= |s|
    ensures var n, left := |Stay(m, s[..i], k)|, LeftAt(m, s, k, i);
            n <= |left| && (left + [h])[n] == (s + [h])[i]
  {}

  lemma PassNext(m: map<nat, Slab>, s: seq<Link>, k: Kind, i: nat, h: Link)
    requires (forall x | x in s :: x.entry in m) && i < |s|
    ensures var n, left := |Stay(m, s[..i], k)|, LeftAt(m, s, k, i);
            n < |left| && left[n] == s[i] && (left + [h])[n + 1] == (s + [h])[i + 1]
  {}

  lemma PassEnds(m: map<nat, Slab>, s: seq<Link>, t: seq<Link>, k: Kind)
    requires forall x | x in s :: x.entry in m
    ensures LeftAt(m, s, k, 0) == s && GoneAt(m, s, t, k, 0) == t
    ensures LeftAt(m, s, k, |s|) == Stay(m, s, k) && GoneAt(m, s, t, k, |s|) == t + Move(m, s, k)
  {
    assert s[..0] == [] && s[0..] == s && s[..|s|] == s && s[|s|..] == [];
    assert t + [] == t;
  }

  /** A target that receives the slabs of kind k, before the i-th link is looked at. */
  ghost function CameAt(m: map<nat, Slab>, s: seq<Link>, t: seq<Link>, k: Kind, i: nat): (r: seq<Link>)
    requires (forall x | x in s :: x.entry in m) && i <= |s|
    ensures forall x | x in r :: x in s || x in t
  {
    t + Stay(m, s[..i], k)
  }

  lemma CameEnds(m: map<nat, Slab>, s: seq<Link>, t: seq<Link>, k: Kind)
    requires forall x | x in s :: x.entry in m
    ensures CameAt(m, s, t, k, 0) == t && CameAt(m, s, t, k, |s|) == t + Stay(m, s, k)
  {
    assert s[..0] == [] && s[..|s|] == s && t + [] == t;
  }

  lemma CameStep(m: map<nat, Slab>, s: seq<Link>, t: seq<Link>, k: Kind, i: nat)
    requires (forall x | x in s :: x.entry in m) && i < |s|
    ensures CameAt(m, s, t, k, i + 1) ==
            if KindOf(m[s[i].entry]) == k then CameAt(m, s, t, k, i) + [s[i]] else CameAt(m, s, t, k, i)
  {
    assert s[..i + 1][..i] == s[..i] && s[..i + 1][i] == s[i];
  }

  /** The i-th step of the last pass. */
  lemma UsedStep(m: map<nat, Slab>, s: seq<Link>, f: seq<Link>, e: seq<Link>, i: nat)
    requires (forall x | x in s :: x.entry in m) && i < |s|
    ensures var n, left := |Stay(m, s[..i], Partial)|, LeftAt(m, s, Partial, i);
            var kind := KindOf(m[s[i].entry]);
            && n < |left| && left[n] == s[i]
            && LeftAt(m, s, Partial, i + 1) == (if kind == Partial then left else left[..n] + left[n + 1..])
            && CameAt(m, s, f, Full, i + 1) ==
               (if kind == Full then CameAt(m, s, f, Full, i) + [s[i]] else CameAt(m, s, f, Full, i))
            && CameAt(m, s, e, Empty, i + 1) ==
               (if kind == Empty then CameAt(m, s, e, Empty, i) + [s[i]] else CameAt(m, s, e, Empty, i))
  {
    PassStep(m, s, [], Partial, i);
    CameStep(m, s, f, Full, i);
    CameStep(m, s, e, Empty, i);
  }

  /** The i-th link either joins what stays, or leaves for the target. */
  lemma PassStep(m: map<nat, Slab>, s: seq<Link>, t: seq<Link>, k: Kind, i: nat)
    requires (forall x | x in s :: x.entry in m) && i < |s|
    ensures var n, left, gone := |Stay(m, s[..i], k)|, LeftAt(m, s, k, i), GoneAt(m, s, t, k, i);
            && n < |left| && left[n] == s[i]
            && (KindOf(m[s[i].entry]) == k ==>
                  LeftAt(m, s, k, i + 1) == left && GoneAt(m, s, t, k, i + 1) == gone)
            && (KindOf(m[s[i].entry]) != k ==>
                  LeftAt(m, s, k, i + 1) == left[..n] + left[n + 1..] &&
                  GoneAt(m, s, t, k, i + 1) == gone + [s[i]])
  {
    assert s[..i + 1][..i] == s[..i] && s[..i + 1][i] == s[i];
    var a, b := Stay(m, s[..i], k), s[i + 1..];
    assert s[i..] == [s[i]] + b;
    assert LeftAt(m, s, k, i) == a + [s[i]] + b;
  }

  lemma RingDistinct(head: Link, s: seq<Link>)
    requires Ring(head, s)
    ensures Distinct(head, s)
  {}

  lemma RingHead(head: Link, s: seq<Link>)
    requires Ring(head, s)
    ensures head.next == (s + [head])[0] && head.prev == ([head] + s)[|s|]
    ensures head.prev == head || head.prev in s
  {
    CutRing(head, s, 0);
    CutRing(head, s, |s|);
  }

  /** Taking one link out of a ring and hanging it at the tail of another, as the passes of
      _cache_sort do. */
  method MoveToTail(ptr: Link, to: Link, ghost from: Link, ghost s: seq<Link>, ghost i: nat, ghost t: seq<Link>)
    requires Ring(from, s) && Ring(to, t) && i < |s| && ptr == s[i]
    requires from != to && from !in t && to !in s && forall x | x in s :: x !in t
    modifies from, to, Set(s), Set(t)
    ensures TwoRings(from, s[..i] + s[i + 1..], to, t + [ptr])
  {
    hide Ring, Distinct;
    Neighbours(from, s, i);
    RingDistinct(from, s);
    MinusDistinct(from, s, i);
    forall k | 0 <= k < |t| ensures t[k] != ptr.prev && t[k] != ptr.next && t[k] != ptr {
      assert t[k] in t;
    }
    ListDel(ptr, from, s, i);
    assert Ring(to, t);
    RingHead(to, t);
    ghost var r := s[..i] + s[i + 1..];
    assert forall x | x in r :: x in s && x != ptr;
    assert t[..|t|] + [ptr] + t[|t|..] == t + [ptr];
    ListAddTail(to, ptr, to, t, |t|);
  }

  /** MoveToTail in the presence of a third ring, which it leaves alone. */
  method MoveBeside(ptr: Link, to: Link, ghost from: Link, ghost s: seq<Link>, ghost i: nat, ghost t: seq<Link>,
                    ghost other: Link, ghost u: seq<Link>)
    requires i < |s| && ptr == s[i] && ThreeRings(from, s, to, t, other, u)
    modifies from, to, Set(s), Set(t)
    ensures ThreeRings(from, s[..i] + s[i + 1..], to, t + [ptr], other, u)
  {
    assert ptr in s;
    assert forall k | 0 <= k < |u| :: u[k] !in Set(s) && u[k] !in Set(t);
    MoveToTail(ptr, to, from, s, i, t);
    assert Ring(other, u);
  }

  /** The free list of a slab as a circular chain through pointer words: from the head word over the
      control blocks of the free buffers and back. The word of every other control block holds the
      slab's address; the two uses share the word. */
  ghost predicate Threaded(word: map<nat, nat>, a: nat, s: Slab) {
    && HeadWord(a) in word
    && (forall q | q in s.ctls :: q in word)
    && InRange(s)
    && word[HeadWord(a)] == Target(a, s, 0)
    && (forall k {:trigger Leads(word, a, s, k)} | 0 <= k < |s.chain| :: Leads(word, a, s, k))
    && (forall i: nat {:trigger Owned(word, a, s, i)} | i < |s.ctls| && i !in s.chain :: Owned(word, a, s, i))
  }

  /** The word of the k-th control block of the chain holds the address of the next. */
  ghost predicate Leads(word: map<nat, nat>, a: nat, s: Slab, k: nat)
    requires k < |s.chain| && InRange(s)
  {
    var q := s.ctls[s.chain[k]];
    q in word && word[q] == Target(a, s, k + 1)
  }

  /** The word of the i-th control block holds the address of its slab. */
  ghost predicate Owned(word: map<nat, nat>, a: nat, s: Slab, i: nat)
    requires i < |s.ctls|
  {
    s.ctls[i] in word && word[s.ctls[i]] == a
  }

  ghost predicate InRange(s: Slab) {
    forall k | 0 <= k < |s.chain| :: s.chain[k] < |s.ctls|
  }

  /** Where the k-th pointer of the chain leads. */
  ghost function Target(a: nat, s: Slab, k: nat): nat
    requires InRange(s)
  {
    if k < |s.chain| then s.ctls[s.chain[k]] else HeadWord(a)
  }

  /** slist_del of the first control block, whose word then takes the slab's address. */
  lemma PopThread(word: map<nat, nat>, a: nat, s: Slab)
    requires Threaded(word, a, s) && s.chain != [] && NoDup(s.ctls) && NoDup(s.chain) && HeadWord(a) !in s.ctls
    ensures word[HeadWord(a)] == s.ctls[s.chain[0]] && s.ctls[s.chain[0]] in word
    ensures var q := s.ctls[s.chain[0]];
            Threaded(word[HeadWord(a) := word[q]][q := a], a, Take(s))
  {
    hide HeadWord;
    var h, q, t := HeadWord(a), s.ctls[s.chain[0]], Take(s);
    var w := word[h := word[q]][q := a];
    assert q in s.ctls;
    assert Leads(word, a, s, 0);
    forall k | 0 <= k < |t.chain| ensures t.chain[k] < |t.ctls| { assert t.chain[k] == s.chain[k + 1]; }
    forall k: nat | k < |t.chain| ensures Leads(w, a, t, k) {
      assert t.chain[k] == s.chain[k + 1];
      assert Leads(word, a, s, k + 1);
      assert s.ctls[s.chain[k + 1]] in s.ctls && s.ctls[s.chain[k + 1]] != q;
      assert Target(a, t, k + 1) == Target(a, s, k + 2);
    }
    assert s.chain == [s.chain[0]] + t.chain;
    forall i: nat | i < |t.ctls| && i !in t.chain ensures Owned(w, a, t, i) {
      assert t.ctls[i] in s.ctls;
      if i != s.chain[0] { assert Owned(word, a, s, i); }
    }
  }

  /** slist_add of a control block that was on no free list. */
  lemma PushThread(word: map<nat, nat>, a: nat, s: Slab, i: nat, r: nat)
    requires Threaded(word, a, s) && NoDup(s.ctls) && HeadWord(a) !in s.ctls
    requires i < |s.ctls| && i !in s.chain
    ensures Threaded(word[s.ctls[i] := word[HeadWord(a)]][HeadWord(a) := s.ctls[i]], a,
                     s.(chain := [i] + s.chain, refs := r))
  {
    var h, q, t := HeadWord(a), s.ctls[i], s.(chain := [i] + s.chain, refs := r);
    var w := word[q := word[h]][h := q];
    assert q in s.ctls;
    assert InRange(t);
    forall k: nat | k < |t.chain| ensures Leads(w, a, t, k) {
      if k > 0 {
        assert t.chain[k] == s.chain[k - 1] && s.chain[k - 1] in s.chain;
        assert s.ctls[s.chain[k - 1]] in s.ctls;
        assert Leads(word, a, s, k - 1);
      }
    }
    forall j: nat | j < |t.ctls| && j !in t.chain ensures Owned(w, a, t, j) {
      assert j != i && j !in s.chain;
      assert t.ctls[j] in s.ctls;
      assert Owned(word, a, s, j);
    }
  }

  /** slist_add of a further control block of a slab that is being filled. */
  lemma GrowThread(word: map<nat, nat>, a: nat, s: Slab, q: nat)
    requires Threaded(word, a, s) && (forall j: nat | j < |s.ctls| :: j in s.chain)
    requires HeadWord(a) !in s.ctls && q !in s.ctls && q != HeadWord(a)
    ensures Threaded(word[q := word[HeadWord(a)]][HeadWord(a) := q], a,
                     s.(ctls := s.ctls + [q], chain := [|s.ctls|] + s.chain))
  {
    var h, n := HeadWord(a), |s.ctls|;
    var w := word[q := word[h]][h := q];
    var t := s.(ctls := s.ctls + [q], chain := [n] + s.chain);
    assert InRange(t);
    forall k: nat | k < |t.chain| ensures Leads(w, a, t, k) {
      if k > 0 {
        assert t.chain[k] == s.chain[k - 1];
        assert s.ctls[s.chain[k - 1]] in s.ctls;
        assert Leads(word, a, s, k - 1);
      }
    }
    forall j: nat | j < |t.ctls| ensures j in t.chain {
      assert t.chain[0] == n;
      if j < n { assert j in s.chain; }
    }
  }

  /** A free list whose words are left alone stays threaded. */
  lemma OtherThread(word: map<nat, nat>, w: map<nat, nat>, b: nat, t: Slab)
    requires Threaded(word, b, t)
    requires HeadWord(b) in w && w[HeadWord(b)] == word[HeadWord(b)]
    requires forall q | q in t.ctls :: q in w && w[q] == word[q]
    ensures Threaded(w, b, t)
  {
    assert forall i | 0 <= i < |t.ctls| :: t.ctls[i] in t.ctls;
    forall k: nat | k < |t.chain| ensures Leads(w, b, t, k) { assert Leads(word, b, t, k); }
    forall i: nat | i < |t.ctls| && i !in t.chain ensures Owned(w, b, t, i) { assert Owned(word, b, t, i); }
  }

  /** The first n control blocks of a slab point at its first n buffers. */
  ghost predicate Points(c: Config, data: map<nat, nat>, s: Slab, n: nat)
    requires GoodConfig(c) && n <= |s.ctls|
  {
    forall i | 0 <= i < n :: s.ctls[i] in data && data[s.ctls[i]] == Buffer(c, s.backing, i)
  }

  /** In a cache with external control blocks, each knows its buffer. */
  ghost predicate AllPoint(c: Config, data: map<nat, nat>, slabs: map<nat, Slab>)
    requires GoodConfig(c)
  {
    !c.compact ==> forall a | a in slabs :: Points(c, data, slabs[a], |slabs[a].ctls|)
  }

  /** Pointing one more control block of a new slab at its buffer. */
  lemma PointOneMore(c: Config, st: State, p: Supply, data: map<nat, nat>, s: Slab, i: nat)
    requires Inv(c, st) && Fresh(c, st, p) && AllPoint(c, data, st.slabs)
    requires s.ctls == p.ctls && s.backing == p.backing && i < |p.ctls| && Points(c, data, s, i)
    ensures var d := data[p.ctls[i] := Buffer(c, p.backing, i)];
            AllPoint(c, d, st.slabs) && Points(c, d, s, i + 1)
  {
    hide Spread, Sorted, Separate, Mapped, Fresh;
    var d := data[p.ctls[i] := Buffer(c, p.backing, i)];
    assert p.ctls[i] in p.ctls;
    forall a | a in st.slabs && !c.compact ensures Points(c, d, st.slabs[a], |st.slabs[a].ctls|) {
      NewCtlApart(c, st, p, p.ctls[i], a);
      forall j | 0 <= j < |st.slabs[a].ctls|
        ensures st.slabs[a].ctls[j] in d && d[st.slabs[a].ctls[j]] == Buffer(c, st.slabs[a].backing, j)
      {
        assert st.slabs[a].ctls[j] in st.slabs[a].ctls;
        assert Points(c, data, st.slabs[a], |st.slabs[a].ctls|);
      }
    }
    SupplyFits(c, st, p);
  }

  lemma SupplyFits(c: Config, st: State, p: Supply)
    requires Inv(c, st) && Fresh(c, st, p)
    ensures GoodConfig(c) && |p.ctls| == Buffers(c) && NoDup(p.ctls) && BuffSize(c) > 0
    ensures c.compact ==> forall i | 0 <= i < |p.ctls| :: p.ctls[i] == Buffer(c, p.backing, i) + CtlOffset(c)
  {}

  /** A new link joins a ring that has nothing in common with another. */
  lemma WithLink(h: Link, s: seq<Link>, link: Link, g: Link, t: seq<Link>)
    requires Ring(h, [link] + s) && Ring(g, t)
    requires h != g && g !in s && g != link && h !in t && link !in t && forall x | x in s :: x !in t
    ensures TwoRings(h, [link] + s, g, t)
  {}

  lemma EntriesCons(link: Link, s: seq<Link>)
    ensures Entries([link] + s) == [link.entry] + Entries(s)
  {}

  class SlabCache {
    const cfg: Config
    const free: Link
    const used: Link
    const full: Link
    const objMap: Link
    var refs: map<nat, nat>        // slab->refs
    var word: map<nat, nat>        // the pointer words of control blocks and free-list heads
    var data: map<nat, nat>        // bufctl->data of external control blocks
    ghost var st: State
    ghost var onFree: seq<Link>    // the links of the four rings
    ghost var onUsed: seq<Link>
    ghost var onFull: seq<Link>
    ghost var onMap: seq<Link>

    /** _cache_init: an empty cache whose slabs will have room for at least one buffer. */
    constructor (size: nat, align: nat, checkOverflow: bool)
      requires GoodConfig(CacheConfig(size, align, checkOverflow))
      ensures cfg == CacheConfig(size, align, checkOverflow)
      ensures st == State(map[], [], [], [], []) && Valid()
      ensures fresh(free) && fresh(used) && fresh(full) && fresh(objMap)
    {
      var config := InitConfig(size, align, checkOverflow);
      cfg := config;
      free := new Link.Head();
      used := new Link.Head();
      full := new Link.Head();
      objMap := new Link.Head();
      refs, word, data := map[], map[], map[];
      st := State(map[], [], [], [], []);
      onFree, onUsed, onFull, onMap := [], [], [], [];
      new;
      hide Valid, GoodConfig, CacheConfig;
      EmptyValid();
    }

    lemma EmptyValid()
      requires GoodConfig(cfg) && st == State(map[], [], [], [], [])
      requires onFree == onUsed == onFull == onMap == []
      requires free.next == free.prev == free && used.next == used.prev == used
      requires full.next == full.prev == full && objMap.next == objMap.prev == objMap
      requires free != used && free != full && free != objMap && used != full && used != objMap && full != objMap
      ensures Valid()
    {
      hide Inv, Ring;
      EmptyInv(cfg);
      EmptyRing(free);
      EmptyRing(used);
      EmptyRing(full);
      EmptyRing(objMap);
    }

    ghost predicate RefsOk()
      reads this`refs, this`st
    {
      forall a | a in st.slabs :: a in refs && refs[a] == st.slabs[a].refs
    }

    ghost predicate ThreadsOk()
      reads this`word, this`st
    {
      forall a | a in st.slabs :: Threaded(word, a, st.slabs[a])
    }

    ghost predicate DataOk()
      reads this`data, this`st
    {
      GoodConfig(cfg) && AllPoint(cfg, data, st.slabs)
    }

    /** The state of everything but the rings. */
    ghost predicate Words()
      reads this`refs, this`word, this`data, this`st
    {
      Inv(cfg, st) && RefsOk() && ThreadsOk() && DataOk()
    }

    ghost predicate Rings()
      reads this`onFree, this`onUsed, this`onFull, this`onMap
      reads free, used, full, objMap, onFree, onUsed, onFull, onMap
    {
      && ThreeRings(used, onUsed, full, onFull, free, onFree)
      && TwoRings(objMap, onMap, used, onUsed) && TwoRings(objMap, onMap, full, onFull)
      && TwoRings(objMap, onMap, free, onFree)
    }

    /** The rings list the slabs and control blocks of the abstract state. */
    ghost predicate Match()
      reads this`onFree, this`onUsed, this`onFull, this`onMap, this`st
    {
      && Entries(onFree) == st.free && Entries(onUsed) == st.used && Entries(onFull) == st.full
      && Entries(onMap) == st.objMap
    }

    ghost predicate Valid()
      reads this, free, used, full, objMap, onFree, onUsed, onFull, onMap
    {
      Words() && Rings() && Match()
    }

    /** Every link on the rings. */
    ghost function Links(): set<Link>
      reads this`onFree, this`onUsed, this`onFull, this`onMap
    {
      Listing() + Set(onMap)
    }

    /** Those of slabs. */
    ghost function Listing(): set<Link>
      reads this`onFree, this`onUsed, this`onFull
    {
      Set(onFree + onUsed + onFull)
    }

    /** slist_empty( &slab->bufctls ) */
    method SlabFull(a: int) returns (b: bool)
      requires SlabReadable(a)
      ensures b <==> st.slabs[a].chain == []
    {
      ghost var s := st.slabs[a];
      assert s.chain != [] ==> s.ctls[s.chain[0]] in s.ctls;
      b := word[HeadWord(a)] == HeadWord(a);
    }

    /** _slab_empty */
    method SlabEmpty(a: int) returns (b: bool)
      requires SlabReadable(a)
      ensures b <==> st.slabs[a].refs == 0
    {
      b := refs[a] == 0;
    }

    /** _slab_full and _slab_empty together. */
    method FindKind(a: int) returns (k: Kind)
      requires SlabReadable(a)
      ensures k == KindOf(st.slabs[a])
      ensures k == Full <==> st.slabs[a].chain == []
      ensures k == Partial <==> st.slabs[a].chain != [] && st.slabs[a].refs > 0
    {
      var isFull := SlabFull(a);
      if isFull {
        k := Full;
        return;
      }
      var isEmpty := SlabEmpty(a);
      k := if isEmpty then Empty else Partial;
    }

    /** What the passes of _cache_sort rely on for the slabs they look at. */
    ghost predicate SlabReadable(a: int)
      reads this`refs, this`word, this`st
    {
      && a in st.slabs && a in refs && refs[a] == st.slabs[a].refs
      && Threaded(word, a, st.slabs[a]) && HeadWord(a) !in st.slabs[a].ctls
      && (st.slabs[a].refs > 0 || st.slabs[a].chain != [])
    }

    ghost predicate ListsReadable()
      reads this`refs, this`word, this`st
    {
      forall a | a in st.slabs :: SlabReadable(a)
    }

    ghost predicate Readable(s: seq<Link>)
      reads this`refs, this`word, this`st
    {
      forall x | x in s :: x.entry in st.slabs && SlabReadable(x.entry)
    }

    /** The test of one of the first two passes: a slab stays on the full list if it is full, on the free
        list if it has no references. */
    method Stays(a: int, stay: Kind) returns (b: bool)
      requires SlabReadable(a) && (stay == Full || stay == Empty)
      ensures b <==> KindOf(st.slabs[a]) == stay
      ensures b <==> if stay == Full then st.slabs[a].chain == [] else st.slabs[a].refs == 0
    {
      if stay == Full {
        b := SlabFull(a);
      } else {
        b := SlabEmpty(a);
      }
    }

    /** The body of one of the first two passes of _cache_sort, at the k-th link of what is left. */
    method Visit(ptr: Link, from: Link, to: Link, stay: Kind, ghost left: seq<Link>, ghost k: nat,
                 ghost gone: seq<Link>)
      requires k < |left| && ptr == left[k] && SlabReadable(ptr.entry) && (stay == Full || stay == Empty)
      requires TwoRings(from, left, to, gone)
      modifies from, to, Set(left), Set(gone)
      ensures if KindOf(st.slabs[ptr.entry]) == stay then TwoRings(from, left, to, gone)
              else TwoRings(from, left[..k] + left[k + 1..], to, gone + [ptr])
    {
      var stays := Stays(ptr.entry, stay);
      if !stays {
        MoveToTail(ptr, to, from, left, k, gone);
      }
    }

    /** One of the first two passes of _cache_sort: the slabs of a list that are not of kind `stay`
        move to the tail of another list while the list is being walked. */
    method Migrate(from: Link, to: Link, stay: Kind, ghost s: seq<Link>, ghost t: seq<Link>)
      requires Readable(s) && TwoRings(from, s, to, t) && (stay == Full || stay == Empty)
      modifies from, to, Set(s), Set(t)
      ensures TwoRings(from, Stay(st.slabs, s, stay), to, t + Move(st.slabs, s, stay))
    {
      hide SlabReadable, KindOf, Stay, Move, LeftAt, GoneAt;
      ghost var m := st.slabs;
      ghost var i, left, gone := 0, s, t;
      PassEnds(m, s, t, stay);
      RingHead(from, s);
      var ptr := from.next;
      NextInRing(from, s, 0);
      var ref := ptr.next;
      while ptr != from
        invariant 0 <= i <= |s| && left == LeftAt(m, s, stay, i) && gone == GoneAt(m, s, t, stay, i)
        invariant forall x | x in left :: x in s
        invariant forall x | x in gone :: x in s || x in t
        invariant TwoRings(from, left, to, gone)
        invariant ptr == (s + [from])[i] && ref == ptr.next
        decreases |s| - i
      {
        ghost var k := |Stay(m, s[..i], stay)|;
        PassNext(m, s, stay, i, from);
        NextIs(from, left, k);
        assert ptr in s;
        Visit(ptr, from, to, stay, left, k, gone);
        PassStep(m, s, t, stay, i);
        i := i + 1;
        left, gone := LeftAt(m, s, stay, i), GoneAt(m, s, t, stay, i);
        ptr := ref;
        PassHere(m, s, stay, i, from);
        NextInRing(from, left, |Stay(m, s[..i], stay)|);
        ref := ptr.next;
      }
    }

    /** Migrate in the presence of a third ring, which it leaves alone. */
    method MigrateBeside(from: Link, to: Link, stay: Kind, ghost s: seq<Link>, ghost t: seq<Link>,
                         ghost other: Link, ghost u: seq<Link>)
      requires Readable(s) && ThreeRings(to, t, from, s, other, u) && (stay == Full || stay == Empty)
      modifies from, to, Set(s), Set(t)
      ensures ThreeRings(to, t + Move(st.slabs, s, stay), from, Stay(st.slabs, s, stay), other, u)
    {
      assert forall k | 0 <= k < |u| :: u[k] !in Set(s) && u[k] !in Set(t);
      Migrate(from, to, stay, s, t);
      assert Ring(other, u);
    }

    /** The body of the last pass of _cache_sort, at the k-th link of what is left on the used list. */
    method VisitUsed(ptr: Link, ghost left: seq<Link>, ghost k: nat, ghost toFull: seq<Link>, ghost toFree: seq<Link>)
      requires k < |left| && ptr == left[k] && SlabReadable(ptr.entry)
      requires ThreeRings(used, left, full, toFull, free, toFree)
      modifies used, full, free, Set(left), Set(toFull), Set(toFree)
      ensures var kind, rest := KindOf(st.slabs[ptr.entry]), left[..k] + left[k + 1..];
              if kind == Full then ThreeRings(used, rest, full, toFull + [ptr], free, toFree)
              else if kind == Empty then ThreeRings(used, rest, full, toFull, free, toFree + [ptr])
              else ThreeRings(used, left, full, toFull, free, toFree)
    {
      var kind := FindKind(ptr.entry);
      if kind == Full {
        MoveBeside(ptr, full, used, left, k, toFull, free, toFree);
      } else if kind == Empty {
        MoveBeside(ptr, free, used, left, k, toFree, full, toFull);
      }
    }

    /** The rings during the last pass, before the i-th link of the used list is looked at. */
    ghost predicate Sorting(s: seq<Link>, f: seq<Link>, e: seq<Link>, i: nat)
      requires (forall x | x in s :: x.entry in st.slabs) && i <= |s|
      reads this`st, used, full, free, s, f, e
    {
      var left := LeftAt(st.slabs, s, Partial, i);
      var toFull, toFree := CameAt(st.slabs, s, f, Full, i), CameAt(st.slabs, s, e, Empty, i);
      assert forall k | 0 <= k < |left| :: left[k] in s;
      assert forall k | 0 <= k < |toFull| :: toFull[k] in s || toFull[k] in f;
      assert forall k | 0 <= k < |toFree| :: toFree[k] in s || toFree[k] in e;
      ThreeRings(used, left, full, toFull, free, toFree)
    }

    /** Wherever the pass is, the link after the current one is still the next of the original list. */
    lemma NextToSort(s: seq<Link>, f: seq<Link>, e: seq<Link>, i: nat)
      requires (forall x | x in s :: x.entry in st.slabs) && i <= |s| && Sorting(s, f, e, i)
      ensures (s + [used])[i].next != null
      ensures i < |s| ==> s[i].next == (s + [used])[i + 1]
    {
      hide Stay, ThreeRings;
      var left, n := LeftAt(st.slabs, s, Partial, i), |Stay(st.slabs, s[..i], Partial)|;
      FirstRing(used, left, full, CameAt(st.slabs, s, f, Full, i), free, CameAt(st.slabs, s, e, Empty, i));
      PassHere(st.slabs, s, Partial, i, used);
      NextInRing(used, left, n);
      if i < |s| {
        PassNext(st.slabs, s, Partial, i, used);
        NextIs(used, left, n);
      }
    }

    /** One round of the last pass. */
    method SortOne(ptr: Link, ghost s: seq<Link>, ghost f: seq<Link>, ghost e: seq<Link>, ghost i: nat)
      requires Readable(s) && i < |s| && ptr == s[i] && Sorting(s, f, e, i)
      modifies used, full, free, Set(s), Set(f), Set(e)
      ensures Sorting(s, f, e, i + 1)
    {
      hide SlabReadable, KindOf, Stay, LeftAt, CameAt, ThreeRings;
      ghost var m := st.slabs;
      UsedStep(m, s, f, e, i);
      VisitUsed(ptr, LeftAt(m, s, Partial, i), |Stay(m, s[..i], Partial)|,
                CameAt(m, s, f, Full, i), CameAt(m, s, e, Empty, i));
    }

    /** The last pass of _cache_sort: full and empty slabs leave the used list for the tails of theirs. */
    method Resort(ghost s: seq<Link>, ghost f: seq<Link>, ghost e: seq<Link>)
      requires Readable(s) && ThreeRings(used, s, full, f, free, e)
      modifies used, full, free, Set(s), Set(f), Set(e)
      ensures var m := st.slabs;
              ThreeRings(used, Stay(m, s, Partial), full, f + Stay(m, s, Full), free, e + Stay(m, s, Empty))
    {
      hide SlabReadable, KindOf, Stay, Move, LeftAt, CameAt, ThreeRings;
      ghost var m, i := st.slabs, 0;
      PassEnds(m, s, [], Partial);
      CameEnds(m, s, f, Full);
      CameEnds(m, s, e, Empty);
      FirstRing(used, s, full, f, free, e);
      RingHead(used, s);
      var ptr := used.next;
      NextToSort(s, f, e, 0);
      var ref := ptr.next;
      while ptr != used
        invariant 0 <= i <= |s| && Sorting(s, f, e, i) && used !in s
        invariant ptr == (s + [used])[i] && ref == ptr.next
        decreases |s| - i
      {
        NextToSort(s, f, e, i);
        assert ptr in s;
        SortOne(ptr, s, f, e, i);
        i := i + 1;
        ptr := ref;
        NextToSort(s, f, e, i);
        ref := ptr.next;
      }
    }

    /** Every slab on a list can be looked at. */
    lemma AllReadable(s: seq<Link>)
      requires Listed(st) && ListsReadable()
      requires Entries(s) == st.free || Entries(s) == st.used || Entries(s) == st.full
      ensures Readable(s)
    {
      forall x | x in s ensures x.entry in st.slabs {
        var i :| 0 <= i < |s| && s[i] == x;
        assert Entries(s)[i] == x.entry;
      }
    }

    /** The three passes of _cache_sort. */
    method SortRings(ghost s: seq<Link>, ghost f: seq<Link>, ghost e: seq<Link>)
      requires Readable(s) && Readable(f) && Readable(e) && ThreeRings(used, s, full, f, free, e)
      modifies free, used, full, Set(s), Set(f), Set(e)
      ensures var m := st.slabs; var u := SortMoved(m, s, f, e);
              ThreeRings(used, Stay(m, u, Partial), full, SortFull(m, u, f), free, SortFree(m, u, e))
    {
      hide SlabReadable, Stay, Move, KindOf;
      ghost var m := st.slabs;
      MigrateBeside(full, used, Full, f, s, free, e);
      ghost var f1, s1 := Stay(m, f, Full), s + Move(m, f, Full);
      MigrateBeside(free, used, Empty, e, s1, full, f1);
      ghost var e1, s2 := Stay(m, e, Empty), s1 + Move(m, e, Empty);
      Resort(s2, f1, e1);
    }

    /** _cache_sort */
    method CacheSort()
      requires Listed(st) && ListsReadable() && Rings() && Match()
      modifies this`st, this`onFree, this`onUsed, this`onFull
      modifies free, used, full, Set(onFree), Set(onUsed), Set(onFull)
      ensures st == Sort(old(st))
      ensures Rings() && Match()
      ensures Listing() <= old(Listing())
    {
      hide SlabReadable, Stay, SortMoved, SortFull, SortFree, Ring, Sort, Entries, Set, TwoRings, ThreeRings, Listed;
      ghost var m, s, f, e := st.slabs, onUsed, onFull, onFree;
      AllReadable(s);
      AllReadable(f);
      AllReadable(e);
      SortEntries(st, s, f, e);
      SortWithin(m, s, f, e);
      SortAllRings();
      ghost var u := SortMoved(m, s, f, e);
      onUsed, onFull, onFree := Stay(m, u, Partial), SortFull(m, u, f), SortFree(m, u, e);
      st := Sort(st);
    }

    /** The three passes in the presence of the ring of control blocks, which they leave alone. */
    method SortAllRings()
      requires Readable(onUsed) && Readable(onFull) && Readable(onFree) && Rings()
      modifies free, used, full, Set(onFree), Set(onUsed), Set(onFull)
      ensures var m := st.slabs; var u := SortMoved(m, onUsed, onFull, onFree);
              && ThreeRings(used, Stay(m, u, Partial), full, SortFull(m, u, onFull), free, SortFree(m, u, onFree))
              && TwoRings(objMap, onMap, used, Stay(m, u, Partial))
              && TwoRings(objMap, onMap, full, SortFull(m, u, onFull))
              && TwoRings(objMap, onMap, free, SortFree(m, u, onFree))
    {
      hide SlabReadable, Stay, SortMoved, SortFull, SortFree, Ring;
      ghost var s, f, e := onUsed, onFull, onFree;
      assert forall k | 0 <= k < |onMap| :: onMap[k] !in Set(s) && onMap[k] !in Set(f) && onMap[k] !in Set(e);
      SortRings(s, f, e);
      assert Ring(objMap, onMap);
    }

    // ---- _slab_alloc --------------------------------------------------------------------------

    /** The slab in the making once i control blocks have been put on its free list. */
    function Partly(p: Supply, i: nat): Slab
      requires i <= |p.ctls|
    {
      Slab(p.backing, p.ctls[..i], Down(i), 0)
    }

    ghost predicate Filling(p: Supply, i: nat)
      reads this`word, this`st
    {
      && Inv(cfg, st) && Fresh(cfg, st, p) && ThreadsOk()
      && i <= |p.ctls| && Threaded(word, p.addr, Partly(p, i))
    }

    /** INIT_SLIST( slab->bufctls ) */
    method InitSlab(p: Supply)
      requires Inv(cfg, st) && Fresh(cfg, st, p) && ThreadsOk()
      modifies this`word
      ensures Filling(p, 0)
    {
      hide Inv, Fresh;
      ghost var w := word;
      word := word[HeadWord(p.addr) := HeadWord(p.addr)];
      forall a | a in st.slabs ensures Threaded(word, a, st.slabs[a]) {
        NewHead(cfg, st, p, a);
        OtherThread(w, word, a, st.slabs[a]);
      }
      assert Partly(p, 0) == Slab(p.backing, [], [], 0);
    }

    /** slist_add of the i-th control block to the free list of the new slab. */
    method ThreadCtl(p: Supply, i: nat, q: nat)
      requires Filling(p, i) && i < |p.ctls| && q == p.ctls[i]
      modifies this`word
      ensures Filling(p, i + 1)
    {
      hide Inv, Fresh, Threaded;
      ghost var w := word;
      WordsIn(word, p.addr, Partly(p, i));
      word := word[q := word[HeadWord(p.addr)]];
      word := word[HeadWord(p.addr) := q];
      forall a | a in st.slabs ensures Threaded(word, a, st.slabs[a]) {
        NewHead(cfg, st, p, a);
        NewCtlApart(cfg, st, p, q, a);
        OtherWords(w, word, a, st.slabs[a], q, HeadWord(p.addr));
      }
      NewSlabThread(cfg, st, p, w, i);
    }

    /** A new external control block is pointed at its buffer and list_added to obj_map. */
    method MapCtl(q: nat, buffer: nat)
      requires Rings()
      modifies this`data, this`onMap, objMap, Set(onMap)
      ensures Rings() && Entries(onMap) == [q] + Entries(old(onMap))
      ensures data == old(data)[q := buffer]
      ensures fresh(Set(onMap) - old(Set(onMap)))
    {
      hide Ring;
      data := data[q := buffer];
      var link := new Link(q);
      ghost var s := onMap;
      assert forall k | 0 <= k < |onUsed| :: onUsed[k] !in Set(s);
      assert forall k | 0 <= k < |onFull| :: onFull[k] !in Set(s);
      assert forall k | 0 <= k < |onFree| :: onFree[k] !in Set(s);
      FirstIn(objMap, s);
      ListAdd(objMap, link, objMap, s, 0);
      assert s[..0] + [link] + s[0..] == [link] + s;
      onMap := [link] + s;
      assert ThreeRings(used, onUsed, full, onFull, free, onFree);
      hide ThreeRings, Entries;
      WithLink(objMap, s, link, used, onUsed);
      WithLink(objMap, s, link, full, onFull);
      WithLink(objMap, s, link, free, onFree);
      EntriesCons(link, s);
    }

    /** The first i control blocks of the slab in the making know their buffers. */
    ghost predicate Pointed(p: Supply, i: nat)
      reads this`data, this`st
    {
      DataOk() && i <= |p.ctls| && (!cfg.compact ==> Points(cfg, data, Slab(p.backing, p.ctls, [], 0), i))
    }

    /** What obj_map lists once i control blocks of the new slab are done. */
    function MapAt(p: Supply, i: nat, before: seq<int>): seq<int>
      requires i <= |p.ctls|
    {
      if cfg.compact then before else Reversed(p.ctls[..i]) + before
    }

    lemma MapSteps(p: Supply, i: nat, before: seq<int>)
      requires i <= |p.ctls|
      ensures MapAt(p, 0, before) == before
      ensures i < |p.ctls| ==>
                MapAt(p, i + 1, before) ==
                if cfg.compact then MapAt(p, i, before) else [p.ctls[i]] + MapAt(p, i, before)
      ensures MapAt(p, |p.ctls|, before) == if cfg.compact then before else Reversed(p.ctls) + before
    {
      assert p.ctls[..|p.ctls|] == p.ctls;
    }

    /** One round of the loop of _slab_alloc: buffer i gets its control block. */
    method FillOne(p: Supply, i: nat, b: nat)
      requires Filling(p, i) && Pointed(p, i) && Rings() && i < |p.ctls| && b == BuffSize(cfg)
      modifies this`word, this`data, this`onMap, objMap, Set(onMap)
      ensures Filling(p, i + 1) && Pointed(p, i + 1) && Rings()
      ensures Entries(onMap) == if cfg.compact then Entries(old(onMap)) else [p.ctls[i]] + Entries(old(onMap))
      ensures fresh(Set(onMap) - old(Set(onMap)))
    {
      hide Inv, Fresh, Rings, Threaded, AllPoint, GoodConfig;
      SupplyFits(cfg, st, p);
      var buffer := p.backing + b * i;
      var q := if cfg.compact then buffer + CtlOffset(cfg) else p.ctls[i];
      if !cfg.compact {
        PointOneMore(cfg, st, p, data, Slab(p.backing, p.ctls, [], 0), i);
        MapCtl(q, buffer);
      }
      ThreadCtl(p, i, q);
    }

    /** The size of a buffer and how many of them the block has room for. */
    method CountBuffers(p: Supply) returns (b: nat, n: nat)
      requires Inv(cfg, st) && Fresh(cfg, st, p) && DataOk()
      ensures b == BuffSize(cfg) && n == |p.ctls| && Pointed(p, 0)
    {
      hide Inv, Fresh, AllPoint;
      SupplyFits(cfg, st, p);
      b := FindBuffSize(cfg);
      n := (if cfg.compact then cfg.allocSize - SLAB_HEADER else cfg.allocSize) / b;
    }

    /** The loop of _slab_alloc: every buffer of the new slab gets its control block. */
    method FillSlab(p: Supply)
      requires Inv(cfg, st) && ThreadsOk() && DataOk() && Fresh(cfg, st, p) && Rings()
      modifies this`word, this`data, this`onMap, objMap, Set(onMap)
      ensures Filling(p, |p.ctls|) && Pointed(p, |p.ctls|) && Rings()
      ensures Entries(onMap) ==
              if cfg.compact then Entries(old(onMap)) else Reversed(p.ctls) + Entries(old(onMap))
      ensures fresh(Set(onMap) - old(Set(onMap)))
    {
      hide Inv, Fresh, Filling, Pointed, Rings, DataOk, ThreadsOk, Entries, Reversed, BuffSize, MapAt;
      ghost var before := Entries(onMap);
      MapSteps(p, 0, before);
      InitSlab(p);
      var b, n := CountBuffers(p);
      var i := 0;
      while i < n
        invariant 0 <= i <= n && Filling(p, i) && Pointed(p, i) && Rings()
        invariant Entries(onMap) == MapAt(p, i, before)
        invariant fresh(Set(onMap) - old(Set(onMap)))
      {
        FillOne(p, i, b);
        MapSteps(p, i, before);
        i := i + 1;
      }
    }

    /** _slab_alloc up to the point where the slab is on the free list. */
    method FillAndList(p: Supply)
      requires Inv(cfg, st) && ThreadsOk() && DataOk() && Fresh(cfg, st, p) && Rings() && onFree == []
      modifies this`word, this`data, this`onFree, this`onMap, free, objMap, Set(onMap)
      ensures Filling(p, |p.ctls|) && Pointed(p, |p.ctls|) && Rings()
      ensures Entries(onFree) == [p.addr]
      ensures Entries(onMap) ==
              if cfg.compact then Entries(old(onMap)) else Reversed(p.ctls) + Entries(old(onMap))
      ensures fresh(Links() - old(Links()))
    {
      hide Inv, Fresh, Filling, Pointed, Rings, DataOk, ThreadsOk, Entries, Reversed, Set, Links;
      LinksAre();
      FillSlab(p);
      ListFree(p.addr);
      LinksAre();
    }

    /** _slab_alloc: a filled slab at the head of the free list. */
    method SlabAlloc(p: Supply)
      requires Valid() && NeedsSlab(st) && Fresh(cfg, st, p)
      modifies this`refs, this`word, this`data, this`st, this`onFree, this`onMap
      modifies free, objMap, Set(onMap)
      ensures Valid() && st == Grow(cfg, old(st), p)
      ensures fresh(Links() - old(Links()))
    {
      hide Inv, Fresh, Threaded, AllPoint, GoodConfig, Points, Rings, Entries, Links, Set;
      EmptyEntries(onFree);
      FillAndList(p);
      refs := refs[p.addr := 0];
      GrownWords(cfg, st, p, word, data);
      st := Grow(cfg, st, p);
    }

    lemma LinksAre()
      ensures Links() == Set(onFree) + Set(onUsed) + Set(onFull) + Set(onMap)
    {}

    /** list_add of a new slab to the empty free list. */
    method ListFree(a: nat)
      requires Rings() && onFree == []
      modifies this`onFree, free
      ensures Rings() && Entries(onFree) == [a] && fresh(Set(onFree))
    {
      var link := new Link(a);
      FirstIn(free, []);
      ListAdd(free, link, free, [], 0);
      assert [][..0] + [link] + [][0..] == [link];
      onFree := [link];
      assert Ring(used, onUsed) && Ring(full, onFull) && Ring(objMap, onMap);
    }

    // ---- get_object and put_object --------------------------------------------------------------

    /** _slab_get_object: pops the first control block off the slab's free list and returns its
        object. */
    method SlabGetObject(a: nat) returns (ptr: nat)
      requires Words() && a in st.slabs && st.slabs[a].chain != []
      modifies this`refs, this`word, this`st
      ensures ThreadsOk() && RefsOk() && DataOk()
      ensures st == old(st).(slabs := old(st).slabs[a := Take(old(st).slabs[a])])
      ensures ptr == Buffer(cfg, old(st).slabs[a].backing, old(st).slabs[a].chain[0])
    {
      hide Inv, Threaded, GoodConfig, AllPoint;
      ghost var s := st.slabs[a];
      PopAll(cfg, st, word, a);
      PointAt(cfg, data, st, a, s.chain[0]);
      SameCtlsPoint(cfg, data, st.slabs, a, Take(s));
      var q := word[HeadWord(a)];
      word := word[HeadWord(a) := word[q]][q := a];
      refs := refs[a := refs[a] + 1];
      st := st.(slabs := st.slabs[a := Take(s)]);
      ptr := if cfg.compact then q - CtlOffset(cfg) else data[q];
    }

    lemma TakeReadable(s1: State, a: nat)
      requires Inv(cfg, s1) && a in s1.slabs && s1.slabs[a].chain != []
      requires st == s1.(slabs := s1.slabs[a := Take(s1.slabs[a])]) && RefsOk() && ThreadsOk()
      ensures Listed(st) && forall b | b in st.slabs :: SlabReadable(b)
    {
      hide Threaded;
      HeadsOfInv(cfg, s1);
    }

    /** The first part of get_object: the slab to take from, made if there is none. */
    method PickSlab(p: Supply) returns (a: nat)
      requires Valid() && (NeedsSlab(st) ==> Fresh(cfg, st, p))
      modifies this`refs, this`word, this`data, this`st, this`onFree, this`onMap
      modifies free, objMap, Set(onMap)
      ensures Valid() && !NeedsSlab(st) && a == Source(st)
      ensures st == if NeedsSlab(old(st)) then Grow(cfg, old(st), p) else old(st)
      ensures fresh(Links() - old(Links()))
    {
      hide Inv, Fresh, Words, Grow;
      EmptyEntries(onUsed);
      EmptyEntries(onFree);
      var none := ListEmpty(used, onUsed);
      if !none {
        HeadEntry(used, onUsed);
        a := used.next.entry;
        return;
      }
      none := ListEmpty(free, onFree);
      if none {
        SlabAlloc(p);
        GrowHasFree(cfg, old(st), p);
        EmptyEntries(onFree);
      }
      HeadEntry(free, onFree);
      a := free.next.entry;
    }

    /** The second part of get_object: a buffer of the slab, and the sort. */
    method TakeFrom(a: nat) returns (ptr: nat)
      requires Valid() && a in st.slabs && st.slabs[a].chain != []
      requires var s2 := st.(slabs := st.slabs[a := Take(st.slabs[a])]);
               Listed(s2) && Inv(cfg, Sort(s2)) && Sort(s2).slabs == s2.slabs
      modifies this, free, used, full, Set(onFree), Set(onUsed), Set(onFull)
      ensures Valid() && Links() <= old(Links())
      ensures var s2 := old(st).(slabs := old(st).slabs[a := Take(old(st).slabs[a])]); Listed(s2) && st == Sort(s2)
      ensures ptr == Buffer(cfg, old(st).slabs[a].backing, old(st).slabs[a].chain[0])
    {
      hide Inv, Threaded, AllPoint, GoodConfig, Sort, SlabReadable, Rings, Entries;
      ghost var s1 := st;
      ptr := SlabGetObject(a);
      TakeReadable(s1, a);
      CacheSort();
    }

    /** get_object: the object of a buffer that was free, from a slab in use if there is one, else from
        an empty one, else from a new one; afterwards every slab is on the list of its kind. */
    method GetObject(p: Supply) returns (ptr: nat)
      requires Valid() && (NeedsSlab(st) ==> Fresh(cfg, st, p))
      modifies this, free, used, full, objMap, Links()
      ensures Valid() && fresh(Links() - old(Links()))
      ensures var (r, a, i) := Get(cfg, old(st), p);
              st == r && a in r.slabs && ptr == Buffer(cfg, r.slabs[a].backing, i)
    {
      hide Inv, Fresh, Threaded, AllPoint, GoodConfig, Sort, Grow, Rings, Entries;
      GetFrom(cfg, st, p);
      var a := PickSlab(p);
      ptr := TakeFrom(a);
    }

    /** The walk of put_object along obj_map, which stops at the control block of the object. */
    method FindCtl(ptr: nat) returns (found: bool, q: int)
      requires Ring(objMap, onMap) && forall x | x in onMap :: x.entry in data
      ensures found ==> q in Entries(onMap) && q in data && data[q] == ptr
      ensures !found ==> forall x | x in onMap :: data[x.entry] != ptr
    {
      ghost var k := 0;
      RingHead(objMap, onMap);
      var item := objMap.next;
      found, q := false, 0;
      while item != objMap
        invariant 0 <= k <= |onMap| && item == (onMap + [objMap])[k]
        invariant forall j | 0 <= j < k :: data[onMap[j].entry] != ptr
        decreases |onMap| - k
      {
        assert item == onMap[k] && item.entry == Entries(onMap)[k];
        NextIs(objMap, onMap, k);
        q := item.entry;
        if data[q] == ptr {
          found := true;
          return;
        }
        item := item.next;
        k := k + 1;
      }
    }

    /** _slab_put_object: the control block of a live buffer goes back on its slab's free list. */
    method SlabPutObject(a: nat, q: nat, ghost i: nat)
      requires Words() && IsLive(st, a, i) && q == st.slabs[a].ctls[i]
      modifies this`refs, this`word, this`st
      ensures ThreadsOk() && RefsOk() && DataOk()
      ensures st == old(st).(slabs := old(st).slabs[a := Return(old(st).slabs[a], i)])
    {
      hide Inv, Threaded, GoodConfig, AllPoint;
      ghost var s := st.slabs[a];
      LiveHasCount(cfg, st, a, i);
      PushAll(cfg, st, word, a, i);
      SameCtlsPoint(cfg, data, st.slabs, a, Return(s, i));
      if refs[a] != 0 {
        word := word[q := word[HeadWord(a)]][HeadWord(a) := q];
        refs := refs[a := refs[a] - 1];
      }
      st := st.(slabs := st.slabs[a := Return(s, i)]);
    }

    lemma PutReadable(s1: State, a: nat, i: nat)
      requires Inv(cfg, s1) && IsLive(s1, a, i)
      requires st == s1.(slabs := s1.slabs[a := Return(s1.slabs[a], i)]) && RefsOk() && ThreadsOk()
      ensures Listed(st) && forall b | b in st.slabs :: SlabReadable(b)
    {
      hide Threaded;
      HeadsOfInv(cfg, s1);
    }

    /** put_object once the control block is known. */
    method PutCtl(q: nat, ghost a: nat, ghost i: nat)
      requires Valid() && IsLive(st, a, i) && q == st.slabs[a].ctls[i]
      modifies this, free, used, full, Set(onFree), Set(onUsed), Set(onFull)
      ensures Valid() && Links() <= old(Links()) && Listed(old(st)) && st == Put(old(st), a, i)
    {
      hide Inv, Threaded, AllPoint, GoodConfig, Sort, SlabReadable, Rings, Entries, LiveAt;
      LiveHasCount(cfg, st, a, i);
      PutFrom(cfg, st, a, i);
      OwnerOf(cfg, st, word, a, i);
      ghost var s1 := st;
      var slab := word[q];
      SlabPutObject(slab, q, i);
      PutReadable(s1, a, i);
      CacheSort();
    }

    /** put_object: of a live object, the buffer goes back to its slab; of an address at which no buffer
        of a cache with external control blocks starts, nothing. */
    method PutObject(ptr: nat)
      requires Valid()
      requires (exists a, i :: LiveAt(cfg, st, ptr, a, i)) || (!cfg.compact && NoBufferAt(cfg, st, ptr))
      modifies this, free, used, full, Set(onFree), Set(onUsed), Set(onFull)
      ensures Valid() && Links() <= old(Links()) && Listed(old(st))
      ensures forall a, i | LiveAt(cfg, old(st), ptr, a, i) :: st == Put(old(st), a, i)
      ensures NoBufferAt(cfg, old(st), ptr) ==> st == old(st)
    {
      hide Inv, ThreadsOk, RefsOk, AllPoint, GoodConfig, Put, Entries;
      SpreadOfInv(cfg, st);
      var q: int;
      if cfg.compact {
        q := ptr + CtlOffset(cfg);
      } else {
        MapPoints(cfg, data, st, onMap);
        var found;
        found, q := FindCtl(ptr);
        if !found {
          UnknownIsFree(cfg, data, st, onMap, ptr);
          return;
        }
        KnownHasBuffer(cfg, data, st, q, ptr);
      }
      ghost var a, i :| LiveAt(cfg, st, ptr, a, i);
      CtlOfPtr(cfg, data, st, q, ptr, a, i);
      OneAtMost(cfg, st, ptr, a, i);
      PutCtl(q, a, i);
    }
  }

  /** A slab with buffer i back on its free list, as _slab_put_object leaves it. */
  function Return(s: Slab, i: nat): Slab {
    if s.refs > 0 then s.(chain := [i] + s.chain, refs := s.refs - 1) else s
  }

  ghost predicate NoBufferAt(c: Config, st: State, ptr: nat)
    requires GoodConfig(c)
  {
    forall a, i: nat {:trigger Buffer(c, st.slabs[a].backing, i)} |
      a in st.slabs && i < Buffers(c) :: Buffer(c, st.slabs[a].backing, i) != ptr
  }

  /** Pushing leaves the free list of every slab threaded. */
  lemma PushAll(c: Config, st: State, word: map<nat, nat>, a: nat, i: nat)
    requires Inv(c, st) && IsLive(st, a, i)
    requires forall b | b in st.slabs :: Threaded(word, b, st.slabs[b])
    ensures st.slabs[a].refs > 0
    ensures var h, s := HeadWord(a), st.slabs[a]; var q := s.ctls[i];
            && h in word && q in word
            && var w, r := word[q := word[h]][h := q], st.slabs[a := Return(s, i)];
               forall b | b in r :: Threaded(w, b, r[b])
  {
    hide Inv, Threaded;
    SlabFacts(c, st, a);
    LiveHasCount(c, st, a, i);
    var s, q := st.slabs[a], st.slabs[a].ctls[i];
    WordsIn(word, a, s);
    assert q in s.ctls;
    PushThread(word, a, s, i, s.refs - 1);
    OthersKeep(c, st, word, word[q := word[HeadWord(a)]][HeadWord(a) := q], a, q);
  }

  /** The word of a live buffer's control block holds its slab's address. */
  lemma OwnerOf(c: Config, st: State, word: map<nat, nat>, a: nat, i: nat)
    requires Inv(c, st) && IsLive(st, a, i) && forall b | b in st.slabs :: Threaded(word, b, st.slabs[b])
    ensures st.slabs[a].ctls[i] in word && word[st.slabs[a].ctls[i]] == a
  {
    hide Inv;
    assert Owned(word, a, st.slabs[a], i);
  }

  /** put_object on values, step by step. */
  lemma PutFrom(c: Config, st: State, a: nat, i: nat)
    requires Inv(c, st) && IsLive(st, a, i)
    ensures var s2 := st.(slabs := st.slabs[a := Return(st.slabs[a], i)]);
            Listed(st) && Listed(s2) && Inv(c, Sort(s2)) && Sort(s2).slabs == s2.slabs && Put(st, a, i) == Sort(s2)
  {
    hide Inv, Sort;
    LiveHasCount(c, st, a, i);
    ChangeAndSort(c, st, a, Return(st.slabs[a], i));
  }

  /** Every control block obj_map lists belongs to a buffer, and points at it. */
  lemma MapPoints(c: Config, data: map<nat, nat>, st: State, onMap: seq<Link>)
    requires Inv(c, st) && !c.compact && GoodConfig(c) && AllPoint(c, data, st.slabs) && Entries(onMap) == st.objMap
    ensures forall x | x in onMap :: x.entry in data
  {
    hide Spread, Sorted, Separate;
    forall x | x in onMap ensures x.entry in data {
      var k :| 0 <= k < |onMap| && onMap[k] == x;
      assert Entries(onMap)[k] == x.entry;
      assert x.entry in st.objMap;
      var a :| a in st.slabs && x.entry in st.slabs[a].ctls;
      var i :| 0 <= i < |st.slabs[a].ctls| && st.slabs[a].ctls[i] == x.entry;
      assert Points(c, data, st.slabs[a], |st.slabs[a].ctls|);
    }
  }

  lemma UnknownIsFree(c: Config, data: map<nat, nat>, st: State, onMap: seq<Link>, ptr: nat)
    requires Inv(c, st) && !c.compact && GoodConfig(c) && AllPoint(c, data, st.slabs) && Entries(onMap) == st.objMap
    requires forall x | x in onMap :: x.entry in data && data[x.entry] != ptr
    ensures NoBufferAt(c, st, ptr)
    ensures forall a, i :: !LiveAt(c, st, ptr, a, i)
  {
    hide Spread, Sorted, Separate;
    forall a, i: nat | a in st.slabs && i < Buffers(c) ensures Buffer(c, st.slabs[a].backing, i) != ptr {
      var s := st.slabs[a];
      assert SlabOk(c, s);
      assert Points(c, data, s, |s.ctls|);
      assert s.ctls[i] in s.ctls;
      assert s.ctls[i] in Entries(onMap);
      var k :| 0 <= k < |onMap| && Entries(onMap)[k] == s.ctls[i];
      assert onMap[k] in onMap;
    }
  }

  lemma KnownHasBuffer(c: Config, data: map<nat, nat>, st: State, q: int, ptr: nat)
    requires Inv(c, st) && !c.compact && GoodConfig(c) && AllPoint(c, data, st.slabs)
    requires q in st.objMap && q in data && data[q] == ptr
    ensures !NoBufferAt(c, st, ptr)
  {
    hide Spread, Sorted, Separate, GoodConfig;
    var a :| a in st.slabs && q in st.slabs[a].ctls;
    var i :| 0 <= i < |st.slabs[a].ctls| && st.slabs[a].ctls[i] == q;
    assert SlabOk(c, st.slabs[a]);
    assert Points(c, data, st.slabs[a], |st.slabs[a].ctls|);
    assert Buffer(c, st.slabs[a].backing, i) == ptr;
  }

  /** Whichever way it is found, the control block is the one of the buffer that starts at ptr. */
  lemma CtlOfPtr(c: Config, data: map<nat, nat>, st: State, q: int, ptr: nat, a: nat, i: nat)
    requires Inv(c, st) && GoodConfig(c) && AllPoint(c, data, st.slabs) && LiveAt(c, st, ptr, a, i)
    requires c.compact ==> q == ptr + CtlOffset(c)
    requires !c.compact ==> q in st.objMap && q in data && data[q] == ptr
    ensures q == st.slabs[a].ctls[i]
  {
    hide Spread, Sorted, Separate, GoodConfig;
    assert SlabOk(c, st.slabs[a]);
    if !c.compact {
      var b :| b in st.slabs && q in st.slabs[b].ctls;
      var j :| 0 <= j < |st.slabs[b].ctls| && st.slabs[b].ctls[j] == q;
      assert SlabOk(c, st.slabs[b]);
      assert Points(c, data, st.slabs[b], |st.slabs[b].ctls|);
      BufferUnique(c, st, a, i, b, j);
    }
  }

  lemma OneAtMost(c: Config, st: State, ptr: nat, a: nat, i: nat)
    requires Inv(c, st) && GoodConfig(c) && LiveAt(c, st, ptr, a, i)
    ensures !NoBufferAt(c, st, ptr)
    ensures forall b, j | LiveAt(c, st, ptr, b, j) :: b == a && j == i
  {
    hide Inv;
    forall b, j | LiveAt(c, st, ptr, b, j) ensures b == a && j == i {
      BufferUnique(c, st, a, i, b, j);
    }
  }

  lemma GrowHasFree(c: Config, st: State, p: Supply)
    ensures Grow(c, st, p).free != [] && Grow(c, st, p).used == st.used
  {}

  /** get_object on values, step by step. */
  lemma GetFrom(c: Config, st: State, p: Supply)
    requires Inv(c, st) && (NeedsSlab(st) ==> Fresh(c, st, p))
    ensures var s1 := if NeedsSlab(st) then Grow(c, st, p) else st;
            && Inv(c, s1) && !NeedsSlab(s1) && Source(s1) in s1.slabs && s1.slabs[Source(s1)].chain != []
            && var a := Source(s1);
               var s2 := s1.(slabs := s1.slabs[a := Take(s1.slabs[a])]);
               && Listed(s2) && Inv(c, Sort(s2)) && Sort(s2).slabs == s2.slabs
               && Get(c, st, p) == (Sort(s2), a, s1.slabs[a].chain[0])
  {
    hide Inv, Fresh, Sort;
    var s1 := if NeedsSlab(st) then Grow(c, st, p) else st;
    if NeedsSlab(st) { GrowInv(c, st, p); }
    SourceHasBuffer(c, s1);
    ChangeAndSort(c, s1, Source(s1), Take(s1.slabs[Source(s1)]));
  }

  lemma EmptyEntries(s: seq<Link>)
    ensures Entries(s) == [] <==> s == []
  {
    assert |Entries(s)| == |s|;
  }

  lemma HeadEntry(head: Link, s: seq<Link>)
    requires Ring(head, s) && s != []
    ensures head.next == s[0] && s[0].entry == Entries(s)[0]
  {
    RingHead(head, s);
  }

  lemma HeadsOfInv(c: Config, st: State)
    requires Inv(c, st)
    ensures Listed(st) && forall a | a in st.slabs :: HeadWord(a) !in st.slabs[a].ctls
  {}

  lemma SlabFacts(c: Config, st: State, a: nat)
    requires Inv(c, st) && a in st.slabs
    ensures GoodConfig(c) && SlabOk(c, st.slabs[a]) && HeadWord(a) !in st.slabs[a].ctls
  {}

  /** Popping leaves the free list of every slab threaded. */
  lemma PopAll(c: Config, st: State, word: map<nat, nat>, a: nat)
    requires Inv(c, st) && a in st.slabs && st.slabs[a].chain != []
    requires forall b | b in st.slabs :: Threaded(word, b, st.slabs[b])
    ensures st.slabs[a].chain[0] < |st.slabs[a].ctls|
    ensures var h, s := HeadWord(a), st.slabs[a]; var q := s.ctls[s.chain[0]];
            && h in word && word[h] == q && q in word
            && var w, r := word[h := word[q]][q := a], st.slabs[a := Take(s)];
               forall b | b in r :: Threaded(w, b, r[b])
  {
    hide Inv, Threaded;
    SlabFacts(c, st, a);
    var s := st.slabs[a];
    FirstInRange(word, a, s);
    PopThread(word, a, s);
    WordsIn(word, a, s);
    var q := word[HeadWord(a)];
    assert q in s.ctls;
    OthersKeep(c, st, word, word[HeadWord(a) := word[q]][q := a], a, q);
  }

  lemma FirstInRange(word: map<nat, nat>, a: nat, s: Slab)
    requires Threaded(word, a, s) && s.chain != []
    ensures InRange(s)
  {}

  lemma SameCtlsPoint(c: Config, data: map<nat, nat>, slabs: map<nat, Slab>, a: nat, s: Slab)
    requires GoodConfig(c) && AllPoint(c, data, slabs) && a in slabs
    requires s.ctls == slabs[a].ctls && s.backing == slabs[a].backing
    ensures AllPoint(c, data, slabs[a := s])
  {
    hide GoodConfig;
    var r := slabs[a := s];
    forall b | b in r && !c.compact ensures Points(c, data, r[b], |r[b].ctls|) {
      assert Points(c, data, slabs[b], |slabs[b].ctls|);
    }
  }

  /** The words of other slabs are not among those of slab a. */
  lemma OthersKeep(c: Config, st: State, word: map<nat, nat>, w: map<nat, nat>, a: nat, q: nat)
    requires Inv(c, st) && a in st.slabs && q in st.slabs[a].ctls
    requires HeadWord(a) in w && q in w && w == word[q := w[q]][HeadWord(a) := w[HeadWord(a)]]
    requires forall b | b in st.slabs :: Threaded(word, b, st.slabs[b])
    ensures forall b | b in st.slabs && b != a :: Threaded(w, b, st.slabs[b])
  {
    forall b | b in st.slabs && b != a ensures Threaded(w, b, st.slabs[b]) {
      CtlsOfOthers(c, st, a, q, b);
      OtherThread(word, w, b, st.slabs[b]);
    }
  }

  lemma CtlsOfOthers(c: Config, st: State, a: nat, q: nat, b: nat)
    requires Inv(c, st) && a in st.slabs && b in st.slabs && a != b && q in st.slabs[a].ctls
    ensures q !in st.slabs[b].ctls && q != HeadWord(b) && HeadWord(a) !in st.slabs[b].ctls
  {
    var i :| 0 <= i < |st.slabs[a].ctls| && st.slabs[a].ctls[i] == q;
    assert forall j | 0 <= j < |st.slabs[b].ctls| :: st.slabs[b].ctls[j] != q;
  }

  /** From the control block of buffer i back to the buffer. */
  lemma PointAt(c: Config, data: map<nat, nat>, st: State, a: nat, i: nat)
    requires Inv(c, st) && a in st.slabs && i < |st.slabs[a].ctls| && GoodConfig(c) && AllPoint(c, data, st.slabs)
    ensures var q, b := st.slabs[a].ctls[i], Buffer(c, st.slabs[a].backing, i);
            && (c.compact ==> q == b + CtlOffset(c))
            && (!c.compact ==> q in data && data[q] == b)
  {
    assert SlabOk(c, st.slabs[a]);
    if !c.compact { assert Points(c, data, st.slabs[a], |st.slabs[a].ctls|); }
  }

  lemma GrownWords(c: Config, st: State, p: Supply, word: map<nat, nat>, data: map<nat, nat>)
    requires Inv(c, st) && Fresh(c, st, p) && AllPoint(c, data, st.slabs)
    requires forall a | a in st.slabs :: Threaded(word, a, st.slabs[a])
    requires Threaded(word, p.addr, Slab(p.backing, p.ctls[..|p.ctls|], Down(|p.ctls|), 0))
    requires !c.compact ==> Points(c, data, Slab(p.backing, p.ctls, [], 0), |p.ctls|)
    ensures var r := Grow(c, st, p);
            && Inv(c, r) && AllPoint(c, data, r.slabs)
            && forall a | a in r.slabs :: Threaded(word, a, r.slabs[a])
  {
    hide Inv, Fresh, Threaded;
    GrowInv(c, st, p);
    assert p.ctls[..|p.ctls|] == p.ctls;
  }

  lemma FirstIn(head: Link, s: seq<Link>)
    requires Ring(head, s)
    ensures head.next != null && (head.next == head || head.next in s)
  {
    RingHead(head, s);
  }

  lemma NewHead(c: Config, st: State, p: Supply, a: nat)
    requires Inv(c, st) && Fresh(c, st, p) && a in st.slabs
    ensures HeadWord(p.addr) != HeadWord(a) && HeadWord(p.addr) !in st.slabs[a].ctls
    ensures HeadWord(p.addr) !in p.ctls
  {
    NewCtl(c, st, p, 0, a);
    NewAlone(c, st, p);
  }

  lemma NewCtlApart(c: Config, st: State, p: Supply, q: nat, a: nat)
    requires Inv(c, st) && Fresh(c, st, p) && a in st.slabs && q in p.ctls
    ensures q != HeadWord(a) && q !in st.slabs[a].ctls
  {
    NewCtl(c, st, p, q, a);
  }

  lemma WordsIn(word: map<nat, nat>, a: nat, s: Slab)
    requires Threaded(word, a, s)
    ensures HeadWord(a) in word && forall q | q in s.ctls :: q in word
  {}

  lemma OtherWords(word: map<nat, nat>, w: map<nat, nat>, a: nat, s: Slab, q: nat, h: nat)
    requires Threaded(word, a, s) && h in w && q in w
    requires w == word[q := w[q]][h := w[h]]
    requires q != HeadWord(a) && q !in s.ctls && h != HeadWord(a) && h !in s.ctls
    ensures Threaded(w, a, s)
  {
    OtherThread(word, w, a, s);
  }

  lemma NewSlabThread(c: Config, st: State, p: Supply, word: map<nat, nat>, i: nat)
    requires Inv(c, st) && Fresh(c, st, p) && i < |p.ctls|
    requires Threaded(word, p.addr, Slab(p.backing, p.ctls[..i], Down(i), 0))
    ensures var h, q := HeadWord(p.addr), p.ctls[i];
            && h in word
            && Threaded(word[q := word[h]][h := q], p.addr, Slab(p.backing, p.ctls[..i + 1], Down(i + 1), 0))
  {
    var s := Slab(p.backing, p.ctls[..i], Down(i), 0);
    NewAlone(c, st, p);
    assert p.ctls[i] !in p.ctls[..i] && HeadWord(p.addr) !in p.ctls[..i];
    forall j: nat | j < i ensures j in s.chain { assert s.chain[i - 1 - j] == j; }
    GrowThread(word, p.addr, s, p.ctls[i]);
    assert p.ctls[..i + 1] == p.ctls[..i] + [p.ctls[i]];
    assert Down(i + 1) == [i] + Down(i);
  }

  /** The used list between the second and the last pass, and the other two after the last. */
  ghost function SortMoved(m: map<nat, Slab>, s: seq<Link>, f: seq<Link>, e: seq<Link>): (u: seq<Link>)
    requires (forall x | x in s :: x.entry in m) && (forall x | x in f :: x.entry in m)
    requires forall x | x in e :: x.entry in m
    ensures forall x | x in u :: x in s + f + e
  {
    s + Move(m, f, Full) + Move(m, e, Empty)
  }

  ghost function SortFull(m: map<nat, Slab>, u: seq<Link>, f: seq<Link>): (r: seq<Link>)
    requires (forall x | x in u :: x.entry in m) && forall x | x in f :: x.entry in m
    ensures forall x | x in r :: x in u || x in f
  {
    Stay(m, f, Full) + Stay(m, u, Full)
  }

  ghost function SortFree(m: map<nat, Slab>, u: seq<Link>, e: seq<Link>): (r: seq<Link>)
    requires (forall x | x in u :: x.entry in m) && forall x | x in e :: x.entry in m
    ensures forall x | x in r :: x in u || x in e
  {
    Stay(m, e, Empty) + Stay(m, u, Empty)
  }

  /** Sorting makes no links. */
  lemma SortWithin(m: map<nat, Slab>, s: seq<Link>, f: seq<Link>, e: seq<Link>)
    requires (forall x | x in s :: x.entry in m) && (forall x | x in f :: x.entry in m)
    requires forall x | x in e :: x.entry in m
    ensures var u := SortMoved(m, s, f, e);
            Set(SortFree(m, u, e) + Stay(m, u, Partial) + SortFull(m, u, f)) <= Set(e + s + f)
  {
    hide Stay, SortMoved, SortFull, SortFree;
  }

  lemma EntriesConcat(s: seq<Link>, t: seq<Link>)
    ensures Entries(s + t) == Entries(s) + Entries(t)
  {}

  /** Sorting sequences of links sorts the addresses they stand for. */
  lemma SortEntries(st: State, s: seq<Link>, f: seq<Link>, e: seq<Link>)
    requires Listed(st)
    requires Entries(s) == st.used && Entries(f) == st.full && Entries(e) == st.free
    requires (forall x | x in s :: x.entry in st.slabs) && (forall x | x in f :: x.entry in st.slabs)
    requires forall x | x in e :: x.entry in st.slabs
    ensures var m := st.slabs; var u := SortMoved(m, s, f, e);
            && Sort(st).slabs == m && Sort(st).objMap == st.objMap
            && Entries(Stay(m, u, Partial)) == Sort(st).used
            && Entries(SortFull(m, u, f)) == Sort(st).full
            && Entries(SortFree(m, u, e)) == Sort(st).free
  {
    hide Entries, Stay, Move, Only, Other, KindOf;
    var m := st.slabs;
    var u := SortMoved(m, s, f, e);
    StayEntries(m, f, Full);
    StayEntries(m, e, Empty);
    EntriesConcat(s, Move(m, f, Full));
    EntriesConcat(s + Move(m, f, Full), Move(m, e, Empty));
    StayEntries(m, u, Partial);
    StayEntries(m, u, Full);
    StayEntries(m, u, Empty);
    EntriesConcat(Stay(m, f, Full), Stay(m, u, Full));
    EntriesConcat(Stay(m, e, Empty), Stay(m, u, Empty));
  }

  lemma EmptyInv(c: Config)
    requires GoodConfig(c)
    ensures Inv(c, State(map[], [], [], [], []))
  {}
}
