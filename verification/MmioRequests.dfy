/** When the registry accepts a request, what it registers then, and how many releases a region needs. */
module MmioRequests {
  import opened Arithmetic
  import opened Sequences
  import opened Mmio
  import BitWords

  // ---- acceptance -----------------------------------------------------------------------------

  /** A region is not in the way of a range. Where neither is empty: they are disjoint, or the range lies inside the
      region, which is not busy. An empty range is stopped only by a busy region around it, and an empty region
      only stops ranges that one of its two bounds lies inside of. */
  predicate Clear(r: Region, b: Region) {
    if b.end <= b.start then !(Busy(r) && Inside(b, r))
    else if r.end <= r.start then !(b.start < r.start < b.end) && !(b.start < r.end < b.end)
    else Disjoint(r, b) || (Inside(b, r) && !Busy(r))
  }

  predicate Busy(r: Region) { BitWords.Bit(r.flags, 0) }

  predicate Shared(flags: nat) { BitWords.Bit(flags, 4) }

  /** The flags as bits. */
  lemma HasIsBit(flags: nat)
    ensures Has(flags, BUSY) == BitWords.Bit(flags, 0) && Has(flags, SHARED) == BitWords.Bit(flags, 4)
    ensures Has(flags, MAPPED) == BitWords.Bit(flags, 5)
  {
    HasPower(flags, 0, BUSY);
    HasPower(flags, 4, SHARED);
    HasPower(flags, 5, MAPPED);
  }

  lemma HasPower(flags: nat, n: nat, bit: nat)
    requires Power(2, n) == bit
    ensures Has(flags, bit) == BitWords.Bit(flags, n)
  {
    BitWords.ShiftDivides(flags, n);
    BitWords.ShiftBit(flags, n, 0);
  }

  lemma CollidesIff(r: Region, b: Region)
    ensures Collides(r, b.start, b.end) <==> !Clear(r, b)
  {
    HasIsBit(r.flags);
    hide Has;
  }

  /** The flags registered are those asked for but for bit 5. */
  lemma WithoutBit(flags: nat, b: nat)
    ensures BitWords.Bit(Without(flags, MAPPED), b) == (b != 5 && BitWords.Bit(flags, b))
  {
    HasIsBit(flags);
    ClearIs(flags, 5);
    assert Power(2, 5) == 32;
    BitWords.ClearBit(flags, 5, b);
    if Has(flags, MAPPED) { assert flags / MAPPED >= 1; }
  }

  lemma {:induction false} ClearIs(w: nat, b: nat)
    ensures w == BitWords.Clear(w, b) + if BitWords.Bit(w, b) then Power(2, b) else 0
  {
    if b > 0 { ClearIs(w / 2, b - 1); }
  }

  /** A request is answered exactly if it is shared and a shared region of its bounds is registered, or else if no
      registered region is in the way of its range; only then a region is registered, with the bounds and
      flags asked for. */
  lemma {:induction false} AcceptedIff(y: System, id: nat, start: nat, size: nat, flags: nat)
    ensures var end := (start + size) % TWO64;
            var b := Region(id, start, end, Without(flags, MAPPED));
            var known := Shared(flags) &&
                         exists r :: r in All(y.root) && r.start == start && r.end == end && Shared(r.flags);
            var (z, got) := Ask(y, id, start, size, flags);
            if known then
              got.Some? && z.live == y.live && All(z.root) == All(y.root)
            else if forall r | r in All(y.root) :: Clear(r, b) then
              got == Some(id) && z.live == y.live + [b] && All(z.root) == All(y.root) + multiset{b}
            else
              got == None && z == y
  {
    hide All, Clear, Has, FindShared, Check, Retain, Place, Without;
    var end := (start + size) % TWO64;
    var b := Region(id, start, end, Without(flags, MAPPED));
    HasIsBit(flags);
    FindSharedIff(y.root, start, end);
    forall r: Region ensures Has(r.flags, SHARED) == Shared(r.flags) { HasIsBit(r.flags); }
    CheckSeesAll(y.root, start, end);
    forall r: Region ensures Collides(r, start, end) <==> !Clear(r, b) { CollidesIff(r, b); }
    hide Collides;
    if FindShared(y.root, start, end).Some? { RetainKeepsAll(y.root, FindShared(y.root, start, end).value); }
    OneMore(y.root, b);
  }

  // ---- handles --------------------------------------------------------------------------------

  /** How many handles on a region are out. */
  function Handles(s: seq<Node>, id: nat): nat {
    if Find(s, id).Some? then Find(s, id).value.refs else 0
  }

  lemma {:induction false} FindConcat(s: seq<Node>, t: seq<Node>, id: nat)
    ensures Find(s + t, id) == if Find(s, id).Some? then Find(s, id) else Find(t, id)
    decreases |s|
  {
    if s == [] {
      assert s + t == t;
    } else {
      assert (s + t)[1..] == s[1..] + t;
      FindConcat(s[1..], t, id);
    }
  }

  lemma FindOne(n: Node, id: nat)
    ensures Find([n], id) == if n.region.id == id then Some(n) else Find(n.children, id)
  {
    assert [n][1..] == [];
  }

  /** One more handle on a registered region counts one more. */
  lemma {:induction false} RetainCounts(s: seq<Node>, id: nat)
    requires Find(s, id).Some?
    ensures Find(RetainIn(s, id), id).Some? && Handles(RetainIn(s, id), id) == Handles(s, id) + 1
    decreases s
  {
    var n := s[0];
    var r := Retain(n, id);
    FindConcat([r], RetainIn(s[1..], id), id);
    FindOne(r, id);
    if n.region.id != id {
      if Find(n.children, id).Some? {
        RetainCounts(n.children, id);
      } else {
        RetainMisses(n.children, id);
        RetainCounts(s[1..], id);
      }
    }
  }

  lemma RetainMisses(s: seq<Node>, id: nat)
    requires Find(s, id).None?
    ensures Find(RetainIn(s, id), id).None?
  {
    hide AllOf, Find, RetainIn;
    FindIff(s, id);
    RetainInKeepsAll(s, id);
    FindIff(RetainIn(s, id), id);
  }

  /** A release counts one less, and the last one takes the region out. */
  lemma {:induction false} ReleaseCounts(s: seq<Node>, id: nat)
    requires Unique(AllOf(s)) && Find(s, id).Some?
    ensures if Handles(s, id) >= 2 then
              Find(ReleaseIn(s, id), id).Some? && Handles(ReleaseIn(s, id), id) == Handles(s, id) - 1
            else
              Find(ReleaseIn(s, id), id).None?
  {
    if Handles(s, id) >= 2 { ReleaseLeaves(s, id); } else { ReleaseRemoves(s, id); }
  }

  lemma {:induction false} ReleaseLeaves(s: seq<Node>, id: nat)
    requires Find(s, id).Some? && Find(s, id).value.refs >= 2
    ensures Find(ReleaseIn(s, id), id).Some? && Handles(ReleaseIn(s, id), id) == Handles(s, id) - 1
    decreases s
  {
    var n := s[0];
    var here := if n.region.id == id then Remains(n) else [Release(n, id)];
    FindConcat(here, ReleaseIn(s[1..], id), id);
    if n.region.id == id {
      FindOne(n.(refs := n.refs - 1), id);
    } else {
      FindOne(Release(n, id), id);
      if Find(n.children, id).Some? {
        ReleaseLeaves(n.children, id);
      } else {
        FindIff(n.children, id);
        ReleaseAbsent(n.children, id);
        ReleaseLeaves(s[1..], id);
      }
    }
  }

  lemma ReleaseRemoves(s: seq<Node>, id: nat)
    requires Unique(AllOf(s)) && Find(s, id).Some? && Find(s, id).value.refs < 2
    ensures Find(ReleaseIn(s, id), id).None?
  {
    hide AllOf, All, Find, ReleaseIn, Unique;
    var n := Find(s, id).value;
    FindIff(s, id);
    ReleaseTakes(s, id);
    UniqueParts(AllOf(ReleaseIn(s, id)), Lost(n));
    AllIs(n);
    assert n.region in Lost(n);
    FindIff(ReleaseIn(s, id), id);
  }

  /** A region just registered has one handle. */
  lemma {:induction false} PlaceCounts(n: Node, r: Node)
    requires Absent(All(n), r.region.id)
    ensures Find(Place(n, r).children, r.region.id) == Some(r)
    decreases n
  {
    var s, id := n.children, r.region.id;
    AllIs(n);
    FindIff(s, id);
    FindOne(r, id);
    if s != [] {
      if PossibleSibling(s[0].region, r.region) {
        var j := Slot(n, r.region.start);
        assert s == s[..j] + s[j..];
        FindConcat(s[..j], s[j..], id);
        FindConcat(s[..j] + [r], s[j..], id);
        FindConcat(s[..j], [r], id);
      } else {
        assert s[0].region in All(s[0]);
        AllOfFirst(s);
        PlaceCounts(s[0], r);
        PlaceKeepsAll(s[0], r);
      }
    }
  }

  function RetainTimes(s: seq<Node>, id: nat, k: nat): seq<Node>
    decreases k
  {
    if k == 0 then s else RetainTimes(RetainIn(s, id), id, k - 1)
  }

  function ReleaseTimes(s: seq<Node>, id: nat, k: nat): seq<Node>
    decreases k
  {
    if k == 0 then s else ReleaseTimes(ReleaseIn(s, id), id, k - 1)
  }

  lemma {:induction false} RetainAll(s: seq<Node>, id: nat, k: nat)
    requires Find(s, id).Some?
    ensures var t := RetainTimes(s, id, k);
            AllOf(t) == AllOf(s) && Find(t, id).Some? && Handles(t, id) == Handles(s, id) + k
    decreases k
  {
    hide AllOf, Find, RetainIn, Handles;
    if k > 0 {
      RetainCounts(s, id);
      RetainInKeepsAll(s, id);
      RetainAll(RetainIn(s, id), id, k - 1);
    }
  }

  lemma {:induction false} ReleaseAll(s: seq<Node>, id: nat, k: nat)
    requires Unique(AllOf(s)) && Find(s, id).Some? && 1 <= Handles(s, id) && k <= Handles(s, id)
    ensures var t := ReleaseTimes(s, id, k);
            if k < Handles(s, id) then Find(t, id).Some? && Handles(t, id) == Handles(s, id) - k else Find(t, id).None?
    decreases k
  {
    hide AllOf, Find, ReleaseIn, Unique;
    if k > 0 {
      ReleaseCounts(s, id);
      ReleaseTakes(s, id);
      UniqueParts(AllOf(ReleaseIn(s, id)), Lost(Find(s, id).value));
      if Handles(s, id) >= 2 {
        ReleaseAll(ReleaseIn(s, id), id, k - 1);
      } else {
        assert k - 1 == 0;
      }
    }
  }

  /** A region registered once and asked for k more times needs k + 1 releases: it stays after the first k, with the
      number of handles left, and is gone after the last. */
  lemma HandlesNeeded(root: Node, r: Region, k: nat, j: nat)
    requires Unique(All(root)) && Absent(All(root), r.id) && j <= k + 1
    ensures var s := RetainTimes(Place(root, Node(r, 1, [])).children, r.id, k);
            var t := ReleaseTimes(s, r.id, j);
            if j <= k then Find(t, r.id).Some? && Handles(t, r.id) == k + 1 - j else Find(t, r.id).None?
  {
    hide All, AllOf, Find, Place, Unique, RetainTimes, ReleaseTimes;
    var m := Place(root, Node(r, 1, []));
    PlaceCounts(root, Node(r, 1, []));
    OneMore(root, r);
    AddUnique(All(root), r);
    AllIs(m);
    UniqueParts(multiset{m.region}, AllOf(m.children));
    RetainAll(m.children, r.id, k);
    ReleaseAll(RetainTimes(m.children, r.id, k), r.id, j);
  }
}
