/** Four-level page tables on values (kernel/memory/virtmm.cc; section 4.5 of the Intel 64 and IA-32
    Architectures Software Developer's Manual, Volume 3A): physical memory is a sequence of frames
    of 512 words, and a table tree is read as a function from virtual pages to leaf entries. */
module PageTables {
  import opened Arithmetic
  import opened Sequences
  import BitWords

  const ENTRIES: nat := 512

  type Mem = seq<seq<nat>>

  function Put(mem: Mem, t: nat, i: nat, w: nat): (r: Mem)
    requires t < |mem| && i < |mem[t]|
  {
    var row: seq<nat> := mem[t][i := w];
    mem[t := row]
  }

  // ---- words ----------------------------------------------------------------------------------

  /** Frame number in e & ~kMask: bits 12 to 52. */
  function FrameNo(e: nat): nat { e / PAGE % TWO41 }

  /** The bits of e inside kMask: 0 to 11 and 53 to 63. */
  function FlagBits(e: nat): nat { e % PAGE + e / TWO53 * TWO53 }

  predicate IsFlags(flags: nat) { flags < TWO64 && FrameNo(flags) == 0 }

  /** kPresent | flags: bit 0 set. */
  function Present(flags: nat): nat { if flags % 2 == 0 then flags + 1 else flags }

  /** paddr | ( kPresent | flags ) */
  function Entry(paddr: nat, flags: nat): nat { BitWords.Or(paddr, Present(flags)) }

  /** An entry has the bits of the address and of the flags, and bit 0 besides. */
  lemma EntryBits(paddr: nat, flags: nat, b: nat)
    ensures BitWords.Bit(Entry(paddr, flags), b) == (b == 0 || BitWords.Bit(paddr, b) || BitWords.Bit(flags, b))
  {
    BitWords.OrBit(paddr, Present(flags), b);
    PresentBits(flags, b);
  }

  lemma PresentBits(flags: nat, b: nat)
    ensures BitWords.Bit(Present(flags), b) == (b == 0 || BitWords.Bit(flags, b))
  {
    assert Present(flags) / 2 == flags / 2 && Present(flags) % 2 == 1;
  }

  /** An aligned address inside the mask and flags outside it have no bit in common. */
  lemma EntryIsSum(paddr: nat, flags: nat)
    requires paddr < TWO53 && paddr % PAGE == 0 && IsFlags(flags)
    ensures Entry(paddr, flags) == paddr + Present(flags)
  {
    var f := Present(flags);
    PowersOfTwo();
    BitWords.ShiftDivides(paddr, 12);
    BitWords.ShiftDivides(f, 12);
    BitWords.ShiftDivides(paddr / PAGE, 41);
    BitWords.ShiftDivides(f / PAGE, 41);
    assert f / PAGE == flags / PAGE;
    BitWords.BelowAndAbove(paddr / PAGE, f / PAGE, 41);
    BitWords.SplitAt(paddr, f, 12);
    BitWords.OrIsSum(paddr, f);
  }

  /** The frame number of a word is its bits 12 to 52. */
  lemma FrameNoBits(e: nat, b: nat)
    ensures BitWords.Bit(FrameNo(e), b) == (b < 41 && BitWords.Bit(e, b + 12))
  {
    PowersOfTwo();
    BitWords.LowBitsBit(e / PAGE, 41, b);
    BitWords.ShiftDivides(e, 12);
    BitWords.ShiftBit(e, 12, b);
  }

  /** What the hardware and lookup_mapping read back from an entry is what was put in. */
  lemma EntryParts(paddr: nat, flags: nat)
    requires paddr < TWO53 && paddr % PAGE == 0 && IsFlags(flags)
    ensures FrameNo(Entry(paddr, flags)) == paddr / PAGE
    ensures FlagBits(Entry(paddr, flags)) == Present(flags)
    ensures forall b: nat :: BitWords.Bit(FlagBits(Entry(paddr, flags)), b) == (b == 0 || BitWords.Bit(flags, b))
    ensures Entry(paddr, flags) < TWO64
  {
    EntryIsSum(paddr, flags);
    SumParts(paddr, flags);
    forall b: nat ensures BitWords.Bit(Present(flags), b) == (b == 0 || BitWords.Bit(flags, b)) {
      PresentBits(flags, b);
    }
    hide Entry, FlagBits, Present, FrameNo;
  }

  lemma SumParts(paddr: nat, flags: nat)
    requires paddr < TWO53 && paddr % PAGE == 0 && IsFlags(flags)
    ensures var e := paddr + Present(flags);
            FrameNo(e) == paddr / PAGE && FlagBits(e) == Present(flags) && e < TWO64
  {
    var lo, mid, f := flags % PAGE, flags / PAGE, paddr / PAGE;
    Divide(flags, PAGE);
    Divide(mid, TWO41);
    Divide(paddr, PAGE);
    var hi := mid / TWO41;
    var low := PresentLow(flags, lo, hi);
    PartsOf(paddr + Present(flags), low, f, hi);
    PartsOf(Present(flags), low, 0, hi);
  }

  /** The low bits of the flags with bit 0 set. */
  lemma PresentLow(flags: nat, lo: nat, hi: nat) returns (low: nat)
    requires flags == hi * TWO53 + lo && lo < PAGE && flags < TWO64
    ensures low < PAGE && Present(flags) == hi * TWO53 + low && hi < 2048
  {
    assert flags == 2 * (hi * (TWO53 / 2)) + lo;
    DivModIs(lo, 2, lo / 2, lo % 2);
    DivModIs(flags, 2, hi * (TWO53 / 2) + lo / 2, lo % 2);
    low := if lo % 2 == 0 then lo + 1 else lo;
  }

  /** A word in three parts: below bit 12, bits 12 to 52, and above. */
  lemma PartsOf(e: nat, low: nat, f: nat, hi: nat)
    requires e == hi * TWO53 + f * PAGE + low && low < PAGE && f < TWO41 && hi < 2048
    ensures FrameNo(e) == f && FlagBits(e) == hi * TWO53 + low && e < TWO64
  {
    DivModIs(e, PAGE, hi * TWO41 + f, low);
    DivModIs(hi * TWO41 + f, TWO41, hi, f);
    DivModIs(e, TWO53, hi, f * PAGE + low);
  }

  // ---- indices --------------------------------------------------------------------------------

  /** MMU_PML4_INDEX, MMU_PDPT_INDEX, MMU_PDT_INDEX and MMU_PT_INDEX, for levels 4, 3, 2 and 1. */
  function Index(va: nat, level: nat): (i: nat)
    ensures i < ENTRIES
  {
    if level == 4 then va / 0x80_0000_0000 % 512
    else if level == 3 then va / 0x4000_0000 % 512
    else if level == 2 then va / 0x20_0000 % 512
    else va / 0x1000 % 512
  }

  /** The 36 bits of a virtual address that the four levels translate. */
  function VPage(va: nat): nat { va / PAGE % TWO36 }

  lemma NineBits(va: nat, a: nat)
    requires a > 0
    ensures va / (a * 512) == va / a / 512
  {
    var p, r := va / a, va % a;
    Divide(va, a);
    Divide(p, 512);
    var q, s := p / 512, p % 512;
    Nested(va, a, q, s, r);
    DivModIs(va, a * 512, q, s * a + r);
  }

  lemma Nested(x: nat, a: nat, q: nat, s: nat, r: nat)
    requires x == (q * 512 + s) * a + r && s < 512 && r < a
    ensures x == a * 512 * q + (s * a + r) && s * a + r < a * 512
  {
    Scale(a, s + 1, 512);
    assert a * (s + 1) == s * a + a;
  }

  /** Shifting in steps of nine bits arrives at the four indices. */
  lemma NineBitSteps(va: nat)
    ensures va / 0x20_0000 == va / 0x1000 / 512
    ensures va / 0x4000_0000 == va / 0x20_0000 / 512
    ensures va / 0x80_0000_0000 == va / 0x4000_0000 / 512
  {
    NineBits(va, 0x1000);
    NineBits(va, 0x20_0000);
    NineBits(va, 0x4000_0000);
  }

  /** A number and its four low digits to the base 512. */
  lemma FourDigits(p: nat, p1: nat, p2: nat, p3: nat)
    requires p1 == p / 512 && p2 == p1 / 512 && p3 == p2 / 512
    ensures p % TWO36 == ((p3 % 512 * 512 + p2 % 512) * 512 + p1 % 512) * 512 + p % 512
  {
    Divide(p, 512);
    Divide(p1, 512);
    Divide(p2, 512);
    Divide(p3, 512);
    JoinDigits(p, p1, p2, p3, p3 / 512, p % 512, p1 % 512, p2 % 512, p3 % 512);
  }

  lemma JoinDigits(p: nat, p1: nat, p2: nat, p3: nat, q: nat, a: nat, b: nat, c: nat, d: nat)
    requires p == p1 * 512 + a && p1 == p2 * 512 + b && p2 == p3 * 512 + c && p3 == q * 512 + d
    requires a < 512 && b < 512 && c < 512 && d < 512
    ensures p % TWO36 == ((d * 512 + c) * 512 + b) * 512 + a
  {
    DivModIs(p, TWO36, q, ((d * 512 + c) * 512 + b) * 512 + a);
  }

  /** The four indices are the digits of the page number, so they determine it. */
  lemma IndicesArePage(va: nat)
    ensures VPage(va) == ((Index(va, 4) * 512 + Index(va, 3)) * 512 + Index(va, 2)) * 512 + Index(va, 1)
  {
    NineBitSteps(va);
    FourDigits(va / 0x1000, va / 0x20_0000, va / 0x4000_0000, va / 0x80_0000_0000);
  }

  lemma DigitsUnique(a: nat, b: nat, c: nat, d: nat)
    requires b < 512 && d < 512 && a * 512 + b == c * 512 + d
    ensures a == c && b == d
  {}

  lemma SamePageIffSameIndices(va: nat, vb: nat)
    ensures VPage(va) == VPage(vb) <==> forall l | 1 <= l <= 4 :: Index(va, l) == Index(vb, l)
  {
    hide VPage, Index;
    IndicesArePage(va);
    IndicesArePage(vb);
    var a4, b4 := Index(va, 4), Index(vb, 4);
    var a3, b3 := a4 * 512 + Index(va, 3), b4 * 512 + Index(vb, 3);
    var a2, b2 := a3 * 512 + Index(va, 2), b3 * 512 + Index(vb, 2);
    if VPage(va) == VPage(vb) {
      DigitsUnique(a2, Index(va, 1), b2, Index(vb, 1));
      DigitsUnique(a3, Index(va, 2), b3, Index(vb, 2));
      DigitsUnique(a4, Index(va, 3), b4, Index(vb, 3));
    }
    assert (forall l | 1 <= l <= 4 :: Index(va, l) == Index(vb, l)) ==>
      Index(va, 1) == Index(vb, 1) && Index(va, 2) == Index(vb, 2) && Index(va, 3) == Index(vb, 3) && a4 == b4;
  }

  // ---- trees ----------------------------------------------------------------------------------

  /** An address space at one moment: physical memory, the frame of the PML4, the frames that hold
      its tables, each with its level (4 for the PML4 down to 1 for a page table), and the frames
      the allocator holds to be in use. */
  datatype Space = Space(mem: Mem, root: nat, level: map<nat, nat>, used: seq<bool>)

  function Child(m: Mem, t: nat, i: nat): nat
    requires t < |m| && i < |m[t]|
  {
    FrameNo(m[t][i])
  }

  /** Present and writable, as every entry above a page table must be for the processor to get there. */
  predicate Open(w: nat) { BitWords.Bit(w, 0) && BitWords.Bit(w, 1) }

  /** Entries of upper levels are zero, or open and name a table one level down, and no table is named by two
      entries; every table sits in a used frame other than frame 0. */
  ghost predicate Tree(s: Space) {
    && |s.mem| == |s.used|
    && s.root in s.level && s.level[s.root] == 4
    && (forall t | t in s.level ::
          1 <= t < |s.mem| && |s.mem[t]| == ENTRIES && 1 <= s.level[t] <= 4 && s.used[t])
    && (forall t, i | t in s.level && s.level[t] > 1 && 0 <= i < ENTRIES ::
          var c := Child(s.mem, t, i);
          if c == 0 then s.mem[t][i] == 0
          else c in s.level && s.level[c] == s.level[t] - 1 && Open(s.mem[t][i]))
    && (forall t, i, u, j {:trigger Child(s.mem, t, i), Child(s.mem, u, j)} |
          t in s.level && s.level[t] > 1 && 0 <= i < ENTRIES &&
          u in s.level && s.level[u] > 1 && 0 <= j < ENTRIES &&
          Child(s.mem, t, i) == Child(s.mem, u, j) != 0 :: t == u && i == j)
  }

  ghost predicate IsTable(s: Space, t: nat, l: nat) {
    Tree(s) && t in s.level && s.level[t] == l
  }

  /** The page table the walk for va arrives at from table t of level l, 0 if it breaks off. */
  ghost function Reach(s: Space, t: nat, l: nat, va: nat): (pt: nat)
    requires IsTable(s, t, l)
    ensures pt != 0 ==> IsTable(s, pt, 1)
    decreases l
  {
    if l == 1 then t
    else
      var c := Child(s.mem, t, Index(va, l));
      if c == 0 then 0 else Reach(s, c, l - 1, va)
  }

  /** The leaf entry for va below table t: 0 where the walk breaks off. */
  ghost function LeafFrom(s: Space, t: nat, l: nat, va: nat): nat
    requires IsTable(s, t, l)
  {
    var pt := Reach(s, t, l, va);
    if pt == 0 then 0 else s.mem[pt][Index(va, 1)]
  }

  /** The address space as a function from virtual addresses to leaf entries. */
  ghost function Leaf(s: Space, va: nat): nat
    requires Tree(s)
  {
    LeafFrom(s, s.root, 4, va)
  }

  /** The page table of va, 0 if one of the tables above it is missing. */
  ghost function TableOf(s: Space, va: nat): (pt: nat)
    requires Tree(s)
    ensures pt != 0 ==> IsTable(s, pt, 1)
  {
    Reach(s, s.root, 4, va)
  }

  /** The address space as a partial function: frame and flags, where there is a frame. */
  datatype Translation = Unmapped | Mapped(frame: nat, flags: nat)

  function Decode(e: nat): Translation {
    if FrameNo(e) == 0 then Unmapped else Mapped(FrameNo(e), FlagBits(e))
  }

  /** What the processor finds for va: it goes through an entry only if bit 0 is set, at every level. */
  function Fetch(m: Mem, t: nat, l: nat, va: nat): Option<nat>
    decreases l
  {
    if t >= |m| || |m[t]| != ENTRIES then None
    else
      var e := m[t][Index(va, l)];
      if !BitWords.Bit(e, 0) then None else if l <= 1 then Some(e) else Fetch(m, FrameNo(e), l - 1, va)
  }

  /** The processor finds the leaf entry if that has bit 0, and else nothing: no entry above it is in the way. */
  lemma {:induction false} FetchIs(s: Space, t: nat, l: nat, va: nat)
    requires IsTable(s, t, l) && l >= 1
    ensures var e := LeafFrom(s, t, l, va);
            Fetch(s.mem, t, l, va) == if BitWords.Bit(e, 0) then Some(e) else None
    decreases l
  {
    hide Index;
    BitWords.NoBits(0);
    if l > 1 {
      var c := Child(s.mem, t, Index(va, l));
      if c != 0 { FetchIs(s, c, l - 1, va); }
    }
  }

  /** Two walks that arrive at one page table went the same way all along. */
  lemma {:induction false} ReachInjective(s: Space, t: nat, u: nat, l: nat, va: nat, vb: nat)
    requires IsTable(s, t, l) && IsTable(s, u, l)
    requires Reach(s, t, l, va) == Reach(s, u, l, vb) != 0
    ensures t == u && forall k | 2 <= k <= l :: Index(va, k) == Index(vb, k)
    decreases l
  {
    if l > 1 {
      ReachInjective(s, Child(s.mem, t, Index(va, l)), Child(s.mem, u, Index(vb, l)), l - 1, va, vb);
    }
  }

  lemma {:induction false} SameIndicesSameReach(s: Space, t: nat, l: nat, va: nat, vb: nat)
    requires IsTable(s, t, l)
    requires forall k | 1 <= k <= 4 :: Index(va, k) == Index(vb, k)
    ensures Reach(s, t, l, va) == Reach(s, t, l, vb)
    decreases l
  {
    if l > 1 {
      var c := Child(s.mem, t, Index(va, l));
      if c != 0 { SameIndicesSameReach(s, c, l - 1, va, vb); }
    }
  }

  // ---- writing a leaf entry -------------------------------------------------------------------

  function PutLeaf(s: Space, pt: nat, i: nat, w: nat): Space
    requires pt < |s.mem| && i < |s.mem[pt]|
  {
    s.(mem := Put(s.mem, pt, i, w))
  }

  lemma PutLeafTree(s: Space, pt: nat, i: nat, w: nat)
    requires IsTable(s, pt, 1) && i < ENTRIES
    ensures Tree(PutLeaf(s, pt, i, w))
  {
    var m := Put(s.mem, pt, i, w);
    assert forall t, j | t in s.level && s.level[t] > 1 && 0 <= j < ENTRIES :: Child(m, t, j) == Child(s.mem, t, j);
  }

  /** Changing a page table keeps every walk. */
  lemma {:induction false} PutLeafReach(s: Space, pt: nat, i: nat, w: nat, t: nat, l: nat, va: nat)
    requires IsTable(s, pt, 1) && i < ENTRIES && IsTable(s, t, l)
    ensures var r := PutLeaf(s, pt, i, w);
            Tree(r) && Reach(r, t, l, va) == Reach(s, t, l, va)
    decreases l
  {
    PutLeafTree(s, pt, i, w);
    if l > 1 {
      var c := Child(s.mem, t, Index(va, l));
      assert Child(PutLeaf(s, pt, i, w).mem, t, Index(va, l)) == c;
      if c != 0 { PutLeafReach(s, pt, i, w, c, l - 1, va); }
    }
  }

  /** Writing the leaf entry of va changes the translation of the page of va and of no other page. */
  lemma WriteLeaf(s: Space, va: nat, w: nat, vb: nat)
    requires Tree(s) && TableOf(s, va) != 0
    ensures var r := PutLeaf(s, TableOf(s, va), Index(va, 1), w);
            && Tree(r)
            && TableOf(r, vb) == TableOf(s, vb)
            && Leaf(r, vb) == if VPage(vb) == VPage(va) then w else Leaf(s, vb)
  {
    hide VPage, Index, Tree, Reach;
    RootTable(s);
    var pt, qt := TableOf(s, va), TableOf(s, vb);
    PutLeafReach(s, pt, Index(va, 1), w, s.root, 4, vb);
    TableRow(s, pt);
    if qt != 0 { TableRow(s, qt); }
    SamePageIffSameIndices(va, vb);
    if VPage(va) == VPage(vb) {
      SameIndicesSameReach(s, s.root, 4, va, vb);
      assert Index(va, 1) == Index(vb, 1);
    } else if pt == qt {
      ReachInjective(s, s.root, s.root, 4, va, vb);
      assert Index(va, 1) != Index(vb, 1);
    }
  }

  lemma RootTable(s: Space)
    requires Tree(s)
    ensures IsTable(s, s.root, 4)
  {}

  lemma TableRow(s: Space, t: nat)
    requires IsTable(s, t, 1)
    ensures t < |s.mem| && |s.mem[t]| == ENTRIES
  {}

  // ---- hanging in a new table -----------------------------------------------------------------

  ghost predicate CanHang(s: Space, t: nat, i: nat, n: nat, w: nat) {
    && Tree(s)
    && t in s.level && s.level[t] > 1 && i < ENTRIES && Child(s.mem, t, i) == 0
    && 1 <= n < |s.mem| && !s.used[n] && FrameNo(w) == n && Open(w)
  }

  /** A cleared fresh frame n hung into the empty entry i of table t. */
  ghost function Hang(s: Space, t: nat, i: nat, n: nat, w: nat): Space
    requires CanHang(s, t, i, n, w)
  {
    Space(Put(s.mem[n := seq(ENTRIES, j => 0)], t, i, w), s.root, s.level[n := s.level[t] - 1], s.used[n := true])
  }

  /** The entries of upper levels after hanging in a table. */
  lemma HangChildren(s: Space, t: nat, i: nat, n: nat, w: nat, u: nat, j: nat)
    requires CanHang(s, t, i, n, w) && j < ENTRIES
    requires var r := Hang(s, t, i, n, w); u in r.level && r.level[u] > 1
    ensures var r := Hang(s, t, i, n, w);
            && u < |r.mem| && |r.mem[u]| == ENTRIES
            && Child(r.mem, u, j) == (if u == n then 0 else if u == t && j == i then n else Child(s.mem, u, j))
            && (u != n ==> u in s.level && r.level[u] == s.level[u] &&
                           (Child(s.mem, u, j) == 0 || Child(s.mem, u, j) in s.level))
            && (if Child(r.mem, u, j) == 0 then r.mem[u][j] == 0 else Open(r.mem[u][j]))
  {
    hide Open;
  }

  lemma HangTree(s: Space, t: nat, i: nat, n: nat, w: nat)
    requires CanHang(s, t, i, n, w)
    ensures Tree(Hang(s, t, i, n, w))
  {
    var r := Hang(s, t, i, n, w);
    forall u, j | u in r.level && r.level[u] > 1 && 0 <= j < ENTRIES
      ensures var c := Child(r.mem, u, j);
              if c == 0 then r.mem[u][j] == 0
              else c in r.level && r.level[c] == r.level[u] - 1 && Open(r.mem[u][j])
    {
      HangChildren(s, t, i, n, w, u, j);
    }
    forall u, j, v, k | u in r.level && r.level[u] > 1 && 0 <= j < ENTRIES &&
                        v in r.level && r.level[v] > 1 && 0 <= k < ENTRIES &&
                        Child(r.mem, u, j) == Child(r.mem, v, k) != 0
      ensures u == v && j == k
    {
      HangChildren(s, t, i, n, w, u, j);
      HangChildren(s, t, i, n, w, v, k);
    }
  }

  /** How a table that was there before looks after hanging in another, and what the new one holds. */
  lemma HungTable(s: Space, t: nat, i: nat, n: nat, w: nat, u: nat, l: nat, j: nat, k: nat)
    requires CanHang(s, t, i, n, w) && IsTable(s, u, l) && j < ENTRIES && k < ENTRIES
    ensures var r := Hang(s, t, i, n, w);
            && IsTable(r, u, l) && u < |s.mem| == |r.mem| && |s.mem[u]| == |r.mem[u]| == ENTRIES
            && 1 <= l <= 4 && t in s.level && 2 <= s.level[t] <= 4
            && IsTable(r, n, s.level[t] - 1) && 1 <= n < |r.mem| && |r.mem[n]| == ENTRIES
            && (l == 1 ==> r.mem[u] == s.mem[u])
            && (l > 1 ==> Child(r.mem, u, j) == if u == t && j == i then n else Child(s.mem, u, j))
            && (l > 1 && Child(s.mem, u, j) != 0 ==> IsTable(s, Child(s.mem, u, j), l - 1))
            && (u == t ==> l == s.level[t] && Child(s.mem, u, i) == 0)
            && r.mem[n][k] == 0 && Child(r.mem, n, k) == 0
  {
    HangTree(s, t, i, n, w);
    if l > 1 { HangChildren(s, t, i, n, w, u, j); }
  }

  /** Hanging in a cleared table translates nothing new and nothing differently. */
  lemma {:induction false} HangLeaf(s: Space, t: nat, i: nat, n: nat, w: nat, u: nat, l: nat, va: nat)
    requires CanHang(s, t, i, n, w) && IsTable(s, u, l) && i < ENTRIES
    ensures IsTable(Hang(s, t, i, n, w), u, l)
    ensures LeafFrom(Hang(s, t, i, n, w), u, l, va) == LeafFrom(s, u, l, va)
    decreases l
  {
    hide Tree, Hang, CanHang;
    var r, j, k := Hang(s, t, i, n, w), Index(va, l), Index(va, if l > 1 then l - 1 else 1);
    HungTable(s, t, i, n, w, u, l, j, k);
    if l > 1 {
      if u == t && j == i {
        if l > 2 { assert Reach(r, n, l - 1, va) == 0; }
      } else {
        var c := Child(s.mem, u, j);
        if c != 0 { HangLeaf(s, t, i, n, w, c, l - 1, va); }
      }
    }
  }

  // ---- what an operation may do to an address space -------------------------------------------

  /** From s to r: tables are only added, each out of a frame that was free, those frames and no
      others become used, no upper entry is overwritten, and frames that hold no table keep their
      contents. */
  ghost predicate Grown(s: Space, r: Space) {
    && Tree(s) && Tree(r) && r.root == s.root && |r.mem| == |s.mem|
    && (forall t | t in s.level :: t in r.level && r.level[t] == s.level[t])
    && (forall k | 0 <= k < |s.used| :: r.used[k] == (s.used[k] || k in r.level))
    && (forall t | t in r.level :: t in s.level || !s.used[t])
    && (forall f | 0 <= f < |s.mem| && f !in r.level :: r.mem[f] == s.mem[f])
    && (forall t, i {:trigger Child(r.mem, t, i)} {:trigger Child(s.mem, t, i)} |
          t in s.level && s.level[t] > 1 && 0 <= i < ENTRIES && Child(s.mem, t, i) != 0 ::
          Child(r.mem, t, i) == Child(s.mem, t, i))
  }

  lemma GrownTwice(s: Space, r: Space, q: Space)
    requires Grown(s, r) && Grown(r, q)
    ensures Grown(s, q)
  {}

  ghost predicate SameLeaves(s: Space, r: Space)
    requires Tree(s) && Tree(r)
  {
    forall vb: nat {:trigger Leaf(r, vb)} {:trigger Leaf(s, vb)} :: Leaf(r, vb) == Leaf(s, vb)
  }

  lemma SameTwice(s: Space, r: Space, q: Space)
    requires Tree(s) && Tree(r) && Tree(q) && SameLeaves(s, r) && SameLeaves(r, q)
    ensures SameLeaves(s, q)
  {
    forall vb: nat ensures Leaf(q, vb) == Leaf(s, vb) { assert Leaf(r, vb) == Leaf(s, vb); }
  }

  lemma HangGrown(s: Space, t: nat, i: nat, n: nat, w: nat)
    requires CanHang(s, t, i, n, w)
    ensures var r := Hang(s, t, i, n, w);
            Grown(s, r) && SameLeaves(s, r) && Child(r.mem, t, i) == n
  {
    HangTree(s, t, i, n, w);
    var r := Hang(s, t, i, n, w);
    forall vb: nat ensures Leaf(r, vb) == Leaf(s, vb) { HangLeaf(s, t, i, n, w, s.root, 4, vb); }
  }

  /** The leaf entry of va, and of no other page, went from its old value to w. */
  ghost predicate WroteLeaf(s: Space, r: Space, va: nat, w: nat)
    requires Tree(s) && Tree(r)
  {
    forall vb: nat {:trigger Leaf(r, vb)} {:trigger Leaf(s, vb)} ::
      Leaf(r, vb) == if VPage(vb) == VPage(va) then w else Leaf(s, vb)
  }

  lemma LeafGrown(s: Space, r: Space, va: nat, w: nat)
    requires Grown(s, r) && SameLeaves(s, r) && TableOf(r, va) != 0
    ensures var q := PutLeaf(r, TableOf(r, va), Index(va, 1), w);
            Grown(s, q) && WroteLeaf(s, q, va, w)
  {
    var pt := TableOf(r, va);
    var q := PutLeaf(r, pt, Index(va, 1), w);
    PutLeafTree(r, pt, Index(va, 1), w);
    forall t, i | t in r.level && r.level[t] > 1 && 0 <= i < ENTRIES ensures Child(q.mem, t, i) == Child(r.mem, t, i) {}
    forall vb: nat ensures Leaf(q, vb) == if VPage(vb) == VPage(va) then w else Leaf(s, vb) {
      WriteLeaf(r, va, w, vb);
    }
  }

  /** Tables entered one after the other stay where they were found, so the walk goes through them. */
  lemma ThreeSteps(s1: Space, s2: Space, s3: Space, va: nat, t3: nat, t2: nat, t1: nat)
    requires Grown(s1, s2) && Grown(s2, s3)
    requires IsTable(s1, t3, 3) && IsTable(s2, t2, 2) && IsTable(s3, t1, 1)
    requires Child(s1.mem, s1.root, Index(va, 4)) == t3
    requires Child(s2.mem, t3, Index(va, 3)) == t2 && Child(s3.mem, t2, Index(va, 2)) == t1
    ensures TableOf(s3, va) == t1
  {
    assert Child(s2.mem, s1.root, Index(va, 4)) == t3;
    assert Child(s3.mem, s1.root, Index(va, 4)) == t3;
    assert Child(s3.mem, t3, Index(va, 3)) == t2;
    assert Reach(s3, t2, 2, va) == t1;
    assert Reach(s3, t3, 3, va) == t1;
  }

  // ---- regions --------------------------------------------------------------------------------

  /** How many pages vb lies behind va, on the circle of 2^36 pages. */
  function Offset(va: nat, vb: nat): nat { (vb / PAGE - va / PAGE) % TWO36 }

  lemma OffsetIs(va: nat, vb: nat, n: nat)
    requires n < TWO36
    ensures Offset(va, vb) == n <==> VPage(vb) == VPage(va + PAGE * n)
  {
    assert (va + PAGE * n) / PAGE == va / PAGE + n;
    OnCircle(va / PAGE, vb / PAGE, n);
  }

  lemma OnCircle(a: int, b: int, n: nat)
    requires n < TWO36
    ensures (b - a) % TWO36 == n <==> b % TWO36 == (a + n) % TWO36
  {
    var s, u := (a + n) / TWO36, (a + n) % TWO36;
    if (b - a) % TWO36 == n {
      DivModIs(b, TWO36, (b - a) / TWO36 + s, u);
    }
    if b % TWO36 == u {
      DivModIs(b - a, TWO36, b / TWO36 - s, n);
    }
  }

  /** The number of pages a byte length covers. */
  function PagesIn(len: nat): nat { (len + PAGE - 1) / PAGE }

  /** Function update: the n pages from va on translate to consecutive frames from pa on, and every
      other page as before. */
  ghost predicate MappedOver(s: Space, r: Space, va: nat, pa: nat, flags: nat, n: nat)
    requires Tree(s) && Tree(r)
  {
    forall vb: nat {:trigger Leaf(r, vb)} {:trigger Leaf(s, vb)} ::
      Leaf(r, vb) == if Offset(va, vb) < n then Entry(pa + PAGE * Offset(va, vb), flags) else Leaf(s, vb)
  }

  /** One more page written extends the update by that page. */
  lemma MapOneMore(s: Space, r: Space, q: Space, va: nat, pa: nat, flags: nat, n: nat)
    requires Tree(s) && Tree(r) && Tree(q) && n < TWO36
    requires MappedOver(s, r, va, pa, flags, n)
    requires WroteLeaf(r, q, va + PAGE * n, Entry(pa + PAGE * n, flags))
    ensures MappedOver(s, q, va, pa, flags, n + 1)
  {
    hide Tree, Leaf, Entry, Offset, VPage;
    forall vb: nat
      ensures Leaf(q, vb) ==
              if Offset(va, vb) < n + 1 then Entry(pa + PAGE * Offset(va, vb), flags) else Leaf(s, vb)
    {
      OffsetIs(va, vb, n);
      assert Leaf(r, vb) == if Offset(va, vb) < n then Entry(pa + PAGE * Offset(va, vb), flags) else Leaf(s, vb);
    }
  }

  /** What unmapping leaves of an entry: one that names no frame is not touched. */
  function Cleared(e: nat): (r: nat)
    ensures FrameNo(r) == 0 && r == if FrameNo(e) == 0 then e else 0
  {
    if FrameNo(e) == 0 then e else 0
  }

  ghost predicate ClearedOver(s: Space, r: Space, va: nat, n: nat)
    requires Tree(s) && Tree(r)
  {
    forall vb: nat {:trigger Leaf(r, vb)} {:trigger Leaf(s, vb)} ::
      Leaf(r, vb) == if Offset(va, vb) < n then Cleared(Leaf(s, vb)) else Leaf(s, vb)
  }

  /** Walks are those of s: the page tables themselves have not moved. */
  ghost predicate SameTables(s: Space, r: Space)
    requires Tree(s) && Tree(r)
  {
    forall vb: nat {:trigger TableOf(r, vb)} {:trigger TableOf(s, vb)} :: TableOf(r, vb) == TableOf(s, vb)
  }
}
