/** The registry of I/O regions of kernel/memory/mmio.cc: a tree of regions that is searched for
    overlaps, grown by request_region and shrunk by release_region. */
module Mmio {
  import opened Arithmetic
  import opened Sequences

  const BUSY: nat := 1
  const SHARED: nat := 16
  const MAPPED: nat := 32
  const IO_PORT: nat := 64
  const IO_MEM: nat := 128

  /** A requested range, its end not included. */
  datatype Region = Region(id: nat, start: nat, end: nat, flags: nat)

  datatype Node = Node(region: Region, refs: nat, children: seq<Node>)

  predicate Has(flags: nat, bit: nat)
    requires bit > 0
  {
    flags / bit % 2 == 1
  }

  function Without(flags: nat, bit: nat): nat
    requires bit > 0
  {
    if Has(flags, bit) && flags >= bit then flags - bit else flags
  }

  /** The regions of a tree, and of several. */
  function All(n: Node): multiset<Region>
    decreases n
  {
    multiset{n.region} + AllOf(n.children)
  }

  function AllOf(s: seq<Node>): multiset<Region>
    decreases s
  {
    if s == [] then multiset{} else All(s[0]) + AllOf(s[1..])
  }

  // ---- looking for overlaps -------------------------------------------------------------------

  /** The range overlaps the start or the end of a region, or lies in it while it is busy. */
  predicate Collides(r: Region, start: nat, end: nat) {
    || (start < r.start && end > r.start)
    || (start < r.end && end > r.end)
    || (start >= r.start && end <= r.end && Has(r.flags, BUSY))
  }

  /** _check_resource: the root if the range collides with it, else its first child with a collision in it. */
  function Check(n: Node, start: nat, end: nat): Option<Region>
    decreases n
  {
    if Collides(n.region, start, end) then Some(n.region) else CheckAll(n.children, start, end)
  }

  function CheckAll(s: seq<Node>, start: nat, end: nat): Option<Region>
    decreases s
  {
    if s == [] then None
    else if Check(s[0], start, end).Some? then Some(s[0].region)
    else CheckAll(s[1..], start, end)
  }

  /** The check passes exactly when no region of the whole tree collides. */
  lemma {:induction false} CheckSeesAll(n: Node, start: nat, end: nat)
    ensures Check(n, start, end).None? <==> forall r | r in All(n) :: !Collides(r, start, end)
    decreases n
  {
    CheckAllSeesAll(n.children, start, end);
    assert n.region in All(n);
    assert forall r | r in AllOf(n.children) :: r in All(n);
  }

  lemma {:induction false} CheckAllSeesAll(s: seq<Node>, start: nat, end: nat)
    ensures CheckAll(s, start, end).None? <==> forall r | r in AllOf(s) :: !Collides(r, start, end)
    decreases s
  {
    if s != [] {
      CheckSeesAll(s[0], start, end);
      CheckAllSeesAll(s[1..], start, end);
      assert forall r :: r in AllOf(s) <==> r in All(s[0]) || r in AllOf(s[1..]);
    }
  }

  predicate SharedMatch(r: Region, start: nat, end: nat) {
    r.start == start && r.end == end && Has(r.flags, SHARED)
  }

  /** _find_shared: the root if it matches, else its first child with a match in it, itself or deeper. */
  function FindShared(n: Node, start: nat, end: nat): Option<nat>
    decreases n
  {
    if SharedMatch(n.region, start, end) then Some(n.region.id) else FindSharedIn(n.children, start, end)
  }

  function FindSharedIn(s: seq<Node>, start: nat, end: nat): Option<nat>
    decreases s
  {
    if s == [] then None
    else if FindShared(s[0], start, end).Some? then Some(s[0].region.id)
    else FindSharedIn(s[1..], start, end)
  }

  /** A shared request finds something exactly when a shared region of those bounds is registered. */
  lemma {:induction false} FindSharedIff(n: Node, start: nat, end: nat)
    ensures FindShared(n, start, end).Some? <==> exists r :: r in All(n) && SharedMatch(r, start, end)
    decreases n
  {
    FindSharedInIff(n.children, start, end);
    assert n.region in All(n);
    assert forall r | r in AllOf(n.children) :: r in All(n);
  }

  lemma {:induction false} FindSharedInIff(s: seq<Node>, start: nat, end: nat)
    ensures FindSharedIn(s, start, end).Some? <==> exists r :: r in AllOf(s) && SharedMatch(r, start, end)
    decreases s
  {
    if s != [] {
      FindSharedIff(s[0], start, end);
      FindSharedInIff(s[1..], start, end);
      assert forall r :: r in AllOf(s) <==> r in All(s[0]) || r in AllOf(s[1..]);
    }
  }

  /** The first of several trees in which some region matches. */
  ghost function FirstWithMatch(s: seq<Node>, start: nat, end: nat): Option<Node>
    decreases |s|
  {
    if s == [] then None
    else if exists r :: r in All(s[0]) && SharedMatch(r, start, end) then Some(s[0])
    else FirstWithMatch(s[1..], start, end)
  }

  lemma {:induction false} FoundIsFirst(s: seq<Node>, start: nat, end: nat)
    requires FindSharedIn(s, start, end).Some?
    ensures var c := FirstWithMatch(s, start, end);
            c.Some? && c.value.region in AllOf(s) && FindSharedIn(s, start, end) == Some(c.value.region.id)
    decreases |s|
  {
    FindSharedIff(s[0], start, end);
    assert s[0].region in All(s[0]);
    if FindShared(s[0], start, end).None? { FoundIsFirst(s[1..], start, end); }
  }

  /** What a shared request is handed is a shared region of the bounds asked for exactly if the root is
      one, or the first child with a match in its tree is itself the match. */
  lemma FindSharedRightIff(n: Node, start: nat, end: nat)
    requires Unique(All(n)) && FindShared(n, start, end).Some?
    ensures (exists r :: r in All(n) && r.id == FindShared(n, start, end).value && SharedMatch(r, start, end)) <==>
            (SharedMatch(n.region, start, end) ||
             (FirstWithMatch(n.children, start, end).Some? &&
              SharedMatch(FirstWithMatch(n.children, start, end).value.region, start, end)))
  {
    var id := FindShared(n, start, end).value;
    assert n.region in All(n);
    if !SharedMatch(n.region, start, end) {
      FoundIsFirst(n.children, start, end);
      var c := FirstWithMatch(n.children, start, end).value;
      assert c.region in All(n) && c.region.id == id;
    }
  }

  /** Otherwise it is the outermost region around the match: here one that is neither shared nor of the
      bounds asked for. */
  lemma FindSharedHandsOutParent()
    ensures var inner := Node(Region(2, 10, 20, SHARED), 1, []);
            var outer := Node(Region(1, 0, 100, 0), 1, [inner]);
            var root := Node(Region(0, 0, 1000, IO_MEM), 1, [outer]);
            FindShared(root, 10, 20) == Some(1)
  {
    var inner := Node(Region(2, 10, 20, SHARED), 1, []);
    var outer := Node(Region(1, 0, 100, 0), 1, [inner]);
    assert SharedMatch(inner.region, 10, 20);
    assert FindSharedIn([inner], 10, 20).Some?;
    assert FindShared(outer, 10, 20).Some?;
    assert [outer][0] == outer;
  }

  // ---- insertion ------------------------------------------------------------------------------

  predicate PossibleSibling(r: Region, other: Region) {
    other.end < r.start || other.start > r.end
  }

  /** The head of a list of children, taken for a sibling, shows its parent's flags and reference count
      where a region has its start. */
  function HeadStart(parent: Node): nat { parent.region.flags + TWO32 * parent.refs }

  function NextAbove(s: seq<Node>, i: nat, start: nat): (j: nat)
    requires i <= |s|
    ensures i <= j <= |s|
    decreases |s| - i
  {
    if i == |s| || s[i].region.start > start then i else NextAbove(s, i + 1, start)
  }

  /** Where among its future siblings a region goes that was compared with the first of them: the walk
      starts behind the first and passes the list head. */
  function Slot(parent: Node, start: nat): (j: nat)
    requires parent.children != []
    ensures j <= |parent.children|
  {
    var s := parent.children;
    var j := NextAbove(s, 1, start);
    if j < |s| then j
    else if HeadStart(parent) > start then |s|
    else if s[0].region.start > start then 0
    else 1
  }

  /** A region goes before the first sibling but one or later that begins behind it. If there is none it goes last as
      long as its start is below the flags and, 32 bits further up, the count of its parent; else to the front
      or behind the first sibling. */
  lemma SlotIs(parent: Node, start: nat)
    requires parent.children != []
    ensures var s, j := parent.children, Slot(parent, start);
            if exists i :: 1 <= i < |s| && s[i].region.start > start then
              1 <= j < |s| && s[j].region.start > start && forall i | 1 <= i < j :: s[i].region.start <= start
            else if start < parent.region.flags + 0x1_0000_0000 * parent.refs then
              j == |s|
            else
              j == if start < s[0].region.start then 0 else 1
  {
    FirstAbove(parent.children, 1, start);
  }

  lemma {:induction false} FirstAbove(s: seq<Node>, i: nat, start: nat)
    requires i <= |s|
    ensures var j := NextAbove(s, i, start);
            (forall x | i <= x < j :: s[x].region.start <= start) && (j < |s| ==> s[j].region.start > start)
    decreases |s| - i
  {
    if i < |s| && s[i].region.start <= start { FirstAbove(s, i + 1, start); }
  }

  /** _add_nested below a node the region is no sibling of: down the first children until there is none,
      or one the region is a sibling of. */
  function Place(n: Node, r: Node): Node
    decreases n
  {
    if n.children == [] then n.(children := [r])
    else if PossibleSibling(n.children[0].region, r.region) then
      var j := Slot(n, r.region.start);
      n.(children := n.children[..j] + [r] + n.children[j..])
    else n.(children := [Place(n.children[0], r)] + n.children[1..])
  }

  lemma Assoc(a: multiset<Region>, b: multiset<Region>, c: multiset<Region>)
    ensures a + b + c == a + (b + c) && a + b + c == a + c + b
  {}

  lemma AllOfFirst(s: seq<Node>)
    requires s != []
    ensures AllOf(s) == All(s[0]) + AllOf(s[1..])
  {}

  lemma {:induction false} AllOfConcat(s: seq<Node>, t: seq<Node>)
    ensures AllOf(s + t) == AllOf(s) + AllOf(t)
    decreases |s|
  {
    hide AllOf, All;
    if s == [] {
      assert s + t == t;
      NoRegions();
    } else {
      AllOfConcat(s[1..], t);
      assert (s + t)[1..] == s[1..] + t;
      AllOfFirst(s + t);
      AllOfFirst(s);
      Assoc(All(s[0]), AllOf(s[1..]), AllOf(t));
    }
  }

  lemma AllOfOne(n: Node)
    ensures AllOf([n]) == All(n)
  {
    assert [n][1..] == [];
  }

  lemma InsertOne(s: seq<Node>, j: nat, r: Node)
    requires j <= |s|
    ensures AllOf(s[..j] + [r] + s[j..]) == AllOf(s) + All(r)
  {
    hide AllOf, All;
    AllOfOne(r);
    AllOfConcat(s[..j], [r]);
    AllOfConcat(s[..j] + [r], s[j..]);
    AllOfConcat(s[..j], s[j..]);
    assert s == s[..j] + s[j..];
    Assoc(AllOf(s[..j]), All(r), AllOf(s[j..]));
  }

  lemma AllIs(n: Node)
    ensures All(n) == multiset{n.region} + AllOf(n.children)
  {}

  /** Insertion keeps every region reachable and adds the new one. */
  lemma {:induction false} PlaceKeepsAll(n: Node, r: Node)
    ensures All(Place(n, r)) == All(n) + All(r) && Place(n, r).region == n.region
    decreases n
  {
    hide AllOf, All, Slot;
    var s, m := n.children, Place(n, r);
    AllIs(n);
    AllIs(m);
    if s == [] {
      AllOfOne(r);
      NoRegions();
    } else if PossibleSibling(s[0].region, r.region) {
      InsertOne(s, Slot(n, r.region.start), r);
    } else {
      PlaceKeepsAll(s[0], r);
      assert m.children[1..] == s[1..];
      AllOfFirst(s);
      AllOfFirst(m.children);
      Assoc(All(s[0]), All(r), AllOf(s[1..]));
    }
    Assoc(multiset{n.region}, AllOf(s), All(r));
  }

  lemma NoRegions()
    ensures AllOf([]) == multiset{}
  {}

  // ---- release --------------------------------------------------------------------------------

  /** What is left at the place of a region when it is released: list_splice puts its children there,
      unless there is exactly one, which it leaves on the list that goes away. */
  function Remains(n: Node): seq<Node> {
    if n.refs >= 2 then [n.(refs := n.refs - 1)]
    else if |n.children| == 1 then []
    else n.children
  }

  /** _release_resource of the region `id` somewhere below a node. */
  function Release(n: Node, id: nat): Node
    decreases n
  {
    n.(children := ReleaseIn(n.children, id))
  }

  function ReleaseIn(s: seq<Node>, id: nat): seq<Node>
    decreases s
  {
    if s == [] then []
    else (if s[0].region.id == id then Remains(s[0]) else [Release(s[0], id)]) + ReleaseIn(s[1..], id)
  }

  /** Another handle on a region. */
  function Retain(n: Node, id: nat): Node
    decreases n
  {
    Node(n.region, if n.region.id == id then n.refs + 1 else n.refs, RetainIn(n.children, id))
  }

  function RetainIn(s: seq<Node>, id: nat): seq<Node>
    decreases s
  {
    if s == [] then [] else [Retain(s[0], id)] + RetainIn(s[1..], id)
  }

  lemma {:induction false} RetainKeepsAll(n: Node, id: nat)
    ensures All(Retain(n, id)) == All(n) && Retain(n, id).region == n.region
    decreases n
  {
    RetainInKeepsAll(n.children, id);
  }

  lemma {:induction false} RetainInKeepsAll(s: seq<Node>, id: nat)
    ensures AllOf(RetainIn(s, id)) == AllOf(s)
    decreases s
  {
    if s != [] {
      RetainKeepsAll(s[0], id);
      RetainInKeepsAll(s[1..], id);
      AllOfConcat([Retain(s[0], id)], RetainIn(s[1..], id));
      AllOfOne(Retain(s[0], id));
    }
  }

  /** The node of a region, if it is registered. */
  function Find(s: seq<Node>, id: nat): Option<Node>
    decreases s
  {
    if s == [] then None
    else if s[0].region.id == id then Some(s[0])
    else if Find(s[0].children, id).Some? then Find(s[0].children, id)
    else Find(s[1..], id)
  }

  predicate Absent(regions: multiset<Region>, id: nat) {
    forall r | r in regions :: r.id != id
  }

  /** No two registered regions share a handle. */
  ghost predicate Unique(regions: multiset<Region>) {
    forall r, q | r in regions && q in regions && r.id == q.id :: r == q && regions[r] == 1
  }

  lemma {:induction false} FindIff(s: seq<Node>, id: nat)
    ensures Find(s, id).None? <==> Absent(AllOf(s), id)
    ensures Find(s, id).Some? ==> Find(s, id).value.region in AllOf(s) && Find(s, id).value.region.id == id
    decreases s
  {
    hide AllOf, All;
    if s == [] {
      NoRegions();
    } else {
      FindIff(s[0].children, id);
      FindIff(s[1..], id);
      AllOfFirst(s);
      AllIs(s[0]);
      assert forall r :: r in AllOf(s) <==> r == s[0].region || r in AllOf(s[0].children) || r in AllOf(s[1..]);
    }
  }

  lemma {:induction false} ReleaseAbsent(s: seq<Node>, id: nat)
    requires Absent(AllOf(s), id)
    ensures ReleaseIn(s, id) == s
    decreases s
  {
    if s != [] {
      assert s[0].region in AllOf(s);
      assert forall r | r in AllOf(s[0].children) || r in AllOf(s[1..]) :: r in AllOf(s);
      ReleaseAbsent(s[0].children, id);
      ReleaseAbsent(s[1..], id);
    }
  }

  /** What a release takes out of the registry. */
  function Lost(n: Node): multiset<Region> {
    if n.refs >= 2 then multiset{}
    else if |n.children| == 1 then All(n)
    else multiset{n.region}
  }

  lemma RemainsKeep(n: Node)
    ensures AllOf(Remains(n)) + Lost(n) == All(n)
  {
    if n.refs >= 2 { AllOfOne(n.(refs := n.refs - 1)); }
  }

  /** Parts of a collection without doubles have none in common. */
  lemma UniqueParts(a: multiset<Region>, b: multiset<Region>)
    requires Unique(a + b)
    ensures Unique(a) && Unique(b)
    ensures forall r, q | r in a && q in b :: r.id != q.id
  {
    assert forall r :: (a + b)[r] == a[r] + b[r];
    assert forall r, q | r in a && q in b && r.id == q.id :: r in a + b && q in a + b;
    forall r | r in a ensures a[r] == 1 { assert r in a + b; }
    forall r | r in b ensures b[r] == 1 { assert r in a + b; }
  }

  /** A release takes away exactly the region's own node, or nothing if other handles are left; but with
      an only child it takes the child's whole tree along. */
  lemma {:induction false} ReleaseTakes(s: seq<Node>, id: nat)
    requires Unique(AllOf(s)) && Find(s, id).Some?
    ensures AllOf(ReleaseIn(s, id)) + Lost(Find(s, id).value) == AllOf(s)
    decreases s
  {
    hide AllOf, All, Unique, Remains, Lost;
    var n, rest := s[0], s[1..];
    AllOfFirst(s);
    AllIs(n);
    UniqueParts(All(n), AllOf(rest));
    UniqueParts(multiset{n.region}, AllOf(n.children));
    FindIff(n.children, id);
    FindIff(rest, id);
    var here := if n.region.id == id then Remains(n) else [Release(n, id)];
    AllOfConcat(here, ReleaseIn(rest, id));
    var lost := Lost(Find(s, id).value);
    Assoc(AllOf(here), AllOf(ReleaseIn(rest, id)), lost);
    Assoc(AllOf(here), lost, AllOf(ReleaseIn(rest, id)));
    if n.region.id == id {
      assert n.region in All(n);
      ReleaseAbsent(rest, id);
      RemainsKeep(n);
    } else {
      AllOfOne(Release(n, id));
      AllIs(Release(n, id));
      if Find(n.children, id).Some? {
        assert Find(n.children, id).value.region in All(n);
        ReleaseAbsent(rest, id);
        ReleaseTakes(n.children, id);
        Assoc(multiset{n.region}, AllOf(ReleaseIn(n.children, id)), lost);
      } else {
        ReleaseAbsent(n.children, id);
        ReleaseTakes(rest, id);
      }
    }
  }

  /** Every other region stays registered exactly if handles are left or there is not exactly one child. */
  lemma ReleaseKeepsOthersIff(root: Node, id: nat)
    requires Unique(All(root)) && Find(root.children, id).Some?
    ensures var n := Find(root.children, id).value;
            var r := Release(root, id);
            && All(r) + Lost(n) == All(root)
            && ((forall q | q in All(root) && q != n.region :: q in All(r)) <==> (n.refs >= 2 || |n.children| != 1))
  {
    var n := Find(root.children, id).value;
    var r := Release(root, id);
    UniqueParts(multiset{root.region}, AllOf(root.children));
    ReleaseTakes(root.children, id);
    assert All(r) + Lost(n) == All(root);
    UniqueParts(All(r), Lost(n));
    forall q | q in All(root) ensures q in All(r) || q in Lost(n) { assert (All(r) + Lost(n))[q] > 0; }
    if n.refs < 2 && |n.children| == 1 {
      var c := n.children[0].region;
      UniqueParts(multiset{n.region}, AllOf(n.children));
      assert c in AllOf(n.children) && c in Lost(n);
      assert c in All(root) && c != n.region;
    }
  }

  /** A busy region registered inside the region that is released is forgotten, and a range that overlaps
      it passes the check. */
  lemma OnlyChildForgotten()
    ensures var busy := Region(2, 10, 20, BUSY);
            var root := Node(Region(0, 0, 1000, IO_MEM), 1, [Node(Region(1, 0, 100, 0), 1, [Node(busy, 1, [])])]);
            && Check(root, 15, 25).Some?
            && Check(Release(root, 1), 15, 25).None?
  {
    var busy := Region(2, 10, 20, BUSY);
    var outer := Node(Region(1, 0, 100, 0), 1, [Node(busy, 1, [])]);
    var root := Node(Region(0, 0, 1000, IO_MEM), 1, [outer]);
    assert Check(Node(busy, 1, []), 15, 25).Some?;
    assert CheckAll(outer.children, 15, 25).Some?;
    assert Check(outer, 15, 25).Some?;
    assert ReleaseIn([outer], 1) == [] by { assert [outer][1..] == []; }
    assert Release(root, 1) == Node(Region(0, 0, 1000, IO_MEM), 1, []);
  }

  // ---- whole runs -----------------------------------------------------------------------------

  /** As half-open ranges, of which those that do not end behind their start are empty. */
  predicate Disjoint(a: Region, b: Region) {
    a.end <= a.start || b.end <= b.start || a.end <= b.start || b.end <= a.start
  }

  predicate Inside(b: Region, a: Region) { a.start <= b.start && b.end <= a.end }

  /** Any two regions are disjoint, or the later lies within the earlier, which is not busy. */
  ghost predicate Laminar(live: seq<Region>) {
    forall i, j | 0 <= i < j < |live| ::
      Disjoint(live[i], live[j]) || (Inside(live[j], live[i]) && !Has(live[i].flags, BUSY))
  }

  /** A registry and the regions accepted and still registered, in the order they were accepted. */
  datatype System = System(root: Node, live: seq<Region>)

  datatype Call = Request(id: nat, start: nat, size: nat, flags: nat) | Free(id: nat)

  ghost predicate Inv(y: System) {
    && All(y.root) == multiset{y.root.region} + multiset(y.live)
    && Unique(All(y.root))
    && y.root.region.start == 0 && !Has(y.root.region.flags, BUSY)
    && (forall r | r in y.live :: InRoot(r, y.root))
    && Laminar(y.live)
  }

  /** Inside the root, unless it begins right at the root's end. */
  predicate InRoot(r: Region, root: Node) { Inside(r, root.region) || r.start == root.region.end }

  /** The new registry of a request, and the region handed out. `id` stands for a new handle. */
  function Ask(y: System, id: nat, start: nat, size: nat, flags: nat): (System, Option<nat>) {
    var end := (start + size) % TWO64;
    if Has(flags, SHARED) && FindShared(y.root, start, end).Some? then
      var known := FindShared(y.root, start, end).value;
      (y.(root := Retain(y.root, known)), Some(known))
    else if Check(y.root, start, end).None? then
      var r := Region(id, start, end, Without(flags, MAPPED));
      (System(Place(y.root, Node(r, 1, [])), y.live + [r]), Some(id))
    else (y, None)
  }

  /** Those of some regions that are registered. */
  function Keep(live: seq<Region>, registered: multiset<Region>): (r: seq<Region>)
    ensures forall q | q in r :: q in live
  {
    if live == [] then []
    else if live[0] in registered then [live[0]] + Keep(live[1..], registered)
    else Keep(live[1..], registered)
  }

  function Give(y: System, id: nat): System {
    var root := Release(y.root, id);
    System(root, Keep(y.live, AllOf(root.children)))
  }

  /** Requests begin no further than the root's end; what is released is registered. */
  predicate Legal(y: System, k: Call) {
    match k
    case Request(id, start, size, flags) => start <= y.root.region.end && Absent(All(y.root), id)
    case Free(id) => Find(y.root.children, id).Some?
  }

  function Step(y: System, k: Call): System
    requires Legal(y, k)
  {
    match k
    case Request(id, start, size, flags) => Ask(y, id, start, size, flags).0
    case Free(id) => Give(y, id)
  }

  /** A range that does not collide with a region is disjoint from it, or inside it and it is not busy. */
  lemma NoCollision(r: Region, b: Region)
    requires !Collides(r, b.start, b.end)
    ensures Disjoint(r, b) || (Inside(b, r) && !Has(r.flags, BUSY))
  {}

  lemma RequestStep(y: System, id: nat, start: nat, size: nat, flags: nat)
    requires Inv(y) && Legal(y, Request(id, start, size, flags))
    ensures Inv(Ask(y, id, start, size, flags).0)
  {
    hide Has, Inv, FindShared, Check, Retain, Place, All;
    var end := (start + size) % TWO64;
    if Has(flags, SHARED) && FindShared(y.root, start, end).Some? {
      RetainInv(y, FindShared(y.root, start, end).value);
    } else if Check(y.root, start, end).None? {
      AcceptInv(y, Region(id, start, end, Without(flags, MAPPED)));
    }
  }

  lemma RetainInv(y: System, id: nat)
    requires Inv(y)
    ensures Inv(y.(root := Retain(y.root, id)))
  {
    hide Has, All, Retain, Laminar, Unique;
    RetainKeepsAll(y.root, id);
  }

  lemma OneMore(root: Node, r: Region)
    ensures All(Place(root, Node(r, 1, []))) == All(root) + multiset{r}
    ensures Place(root, Node(r, 1, [])).region == root.region
  {
    AllIs(Node(r, 1, []));
    NoRegions();
    hide All, AllOf, Place;
    PlaceKeepsAll(root, Node(r, 1, []));
  }

  lemma {:induction false} AcceptInv(y: System, r: Region)
    requires Inv(y) && Absent(All(y.root), r.id)
    requires Check(y.root, r.start, r.end).None? && r.start <= y.root.region.end
    ensures Inv(System(Place(y.root, Node(r, 1, [])), y.live + [r]))
  {
    Accept(y, r);
    hide Has, All, Place, Check, Laminar, Unique, Inside;
    OneMore(y.root, r);
    assert multiset(y.live + [r]) == multiset(y.live) + multiset{r};
    assert multiset{y.root.region} + multiset(y.live) + multiset{r} ==
           multiset{y.root.region} + (multiset(y.live) + multiset{r});
    AddUnique(All(y.root), r);
  }

  lemma AddUnique(a: multiset<Region>, r: Region)
    requires Unique(a) && Absent(a, r.id)
    ensures Unique(a + multiset{r})
  {
    assert r !in a;
    forall q | q in a + multiset{r} ensures (a + multiset{r})[q] == 1 { assert q == r || (q in a && a[q] == 1); }
  }

  lemma Accept(y: System, r: Region)
    requires Inv(y) && Check(y.root, r.start, r.end).None? && r.start <= y.root.region.end
    ensures Laminar(y.live + [r]) && InRoot(r, y.root)
    ensures Inside(r, y.root.region) <==> r.start < y.root.region.end || r.end <= y.root.region.end
  {
    hide Check, All, Has;
    CheckSeesAll(y.root, r.start, r.end);
    assert y.root.region in All(y.root);
    forall i | 0 <= i < |y.live|
      ensures Disjoint(y.live[i], r) || (Inside(r, y.live[i]) && !Has(y.live[i].flags, BUSY))
    {
      assert y.live[i] in multiset(y.live) && y.live[i] in All(y.root);
      NoCollision(y.live[i], r);
    }
  }

  lemma {:induction false} KeepCount(live: seq<Region>, registered: multiset<Region>, r: Region)
    ensures multiset(Keep(live, registered))[r] == if r in registered then multiset(live)[r] else 0
  {
    if live != [] {
      assert live == [live[0]] + live[1..];
      KeepCount(live[1..], registered, r);
    }
  }

  /** If what is registered and what is lost make up the regions, those kept are those registered. */
  lemma KeepIs(live: seq<Region>, a: multiset<Region>, b: multiset<Region>)
    requires multiset(live) == a + b && Unique(a + b)
    ensures multiset(Keep(live, a)) == a
  {
    UniqueParts(a, b);
    forall r ensures multiset(Keep(live, a))[r] == a[r] {
      KeepCount(live, a, r);
      assert (a + b)[r] == a[r] + b[r];
      if r in a { assert r !in b; }
    }
  }

  lemma {:induction false} KeepLaminar(live: seq<Region>, registered: multiset<Region>)
    requires Laminar(live)
    ensures Laminar(Keep(live, registered))
  {
    if live != [] {
      var rest := live[1..];
      assert forall j | 0 <= j < |rest| :: rest[j] == live[j + 1];
      KeepLaminar(rest, registered);
      FirstApart(live, Keep(rest, registered));
    }
  }

  lemma FirstApart(live: seq<Region>, w: seq<Region>)
    requires live != [] && Laminar(live) && Laminar(w) && forall q | q in w :: q in live[1..]
    ensures Laminar([live[0]] + w)
  {
    hide Has, Disjoint, Inside;
    forall j | 0 <= j < |w|
      ensures Disjoint(live[0], w[j]) || (Inside(w[j], live[0]) && !Has(live[0].flags, BUSY))
    {
      assert w[j] in live[1..];
      var k :| 0 <= k < |live[1..]| && live[1..][k] == w[j];
      assert live[k + 1] == w[j];
    }
  }

  lemma FreeStep(y: System, id: nat)
    requires Inv(y) && Legal(y, Free(id))
    ensures Inv(Give(y, id))
  {
    hide AllOf, Release, Laminar, Find, Has, Lost, Unique;
    var r, n := Release(y.root, id), Find(y.root.children, id).value;
    var kept := AllOf(r.children);
    ReleaseKeepsOthersIff(y.root, id);
    FoundRegion(y.root, id);
    UniqueParts(All(r), Lost(n));
    UniqueParts(multiset{y.root.region}, multiset(y.live));
    SplitRest(y.root.region, kept, Lost(n), multiset(y.live));
    KeepIs(y.live, kept, Lost(n));
    KeepLaminar(y.live, kept);
  }

  lemma SplitRest(r: Region, a: multiset<Region>, b: multiset<Region>, c: multiset<Region>)
    requires multiset{r} + a + b == multiset{r} + c
    ensures a + b == c
  {
    assert forall q :: (multiset{r} + a + b)[q] == multiset{r}[q] + a[q] + b[q];
    assert forall q :: (multiset{r} + c)[q] == multiset{r}[q] + c[q];
    assert forall q :: (a + b)[q] == a[q] + b[q];
  }

  lemma FoundRegion(root: Node, id: nat)
    requires Unique(All(root)) && Find(root.children, id).Some?
    ensures var n := Find(root.children, id).value;
            n.region.id == id && n.region in All(root) && n.region != root.region
    ensures Release(root, id).region == root.region
  {
    FindIff(root.children, id);
    UniqueParts(multiset{root.region}, AllOf(root.children));
  }

  ghost predicate LegalRun(y: System, calls: seq<Call>)
    decreases |calls|
  {
    calls == [] || (Legal(y, calls[0]) && LegalRun(Step(y, calls[0]), calls[1..]))
  }

  function Execute(y: System, calls: seq<Call>): System
    requires LegalRun(y, calls)
    decreases |calls|
  {
    if calls == [] then y else Execute(Step(y, calls[0]), calls[1..])
  }

  /** Over any run of requests and releases the registered regions stay laminar, inside the root unless
      they begin right at its end, and out of busy regions accepted before them; the tree holds each of
      them exactly once. */
  lemma {:induction false} RunsStayLaminar(y: System, calls: seq<Call>)
    requires Inv(y) && LegalRun(y, calls)
    ensures var z := Execute(y, calls);
            && Laminar(z.live)
            && (forall r | r in z.live :: InRoot(r, z.root))
            && All(z.root) == multiset{z.root.region} + multiset(z.live)
            && Inv(z)
    decreases |calls|
  {
    if calls != [] {
      match calls[0] {
        case Request(id, start, size, flags) => RequestStep(y, id, start, size, flags);
        case Free(id) => FreeStep(y, id);
      }
      RunsStayLaminar(Step(y, calls[0]), calls[1..]);
    }
  }

  /** A request right at the root's end is accepted, with a region outside the root. */
  lemma AcceptedOutside()
    ensures var y := System(Node(Region(0, 0, 0xffff_ffff, IO_MEM), 1, []), []);
            var (z, r) := Ask(y, 2, 0xffff_ffff, 1, 0);
            && Inv(y) && Legal(y, Request(2, 0xffff_ffff, 1, 0))
            && r == Some(2) && z.live == [Region(2, 0xffff_ffff, 0x1_0000_0000, 0)]
            && !Inside(z.live[0], z.root.region)
  {
    var root := Node(Region(0, 0, 0xffff_ffff, IO_MEM), 1, []);
    StartInv(root);
    assert Check(root, 0xffff_ffff, 0x1_0000_0000).None?;
    assert Place(root, Node(Region(2, 0xffff_ffff, 0x1_0000_0000, 0), 1, [])).region == root.region;
  }

  // ---- the registry ---------------------------------------------------------------------------

  class Registry {
    var mem: Node
    var ports: Node
    var next: nat                     // the handle of the next region to be allocated
    ghost var memLive: seq<Region>
    ghost var portLive: seq<Region>

    ghost predicate Valid()
      reads this
    {
      && Inv(System(mem, memLive)) && Inv(System(ports, portLive))
      && (forall r | r in All(mem) :: r.id < next) && (forall r | r in All(ports) :: r.id < next)
    }

    constructor ()
      ensures Valid() && memLive == [] && portLive == []
      ensures mem == Node(Region(0, 0, 0xffff_ffff, IO_MEM), 1, [])
      ensures ports == Node(Region(1, 0, 0xffff, IO_PORT), 1, [])
    {
      mem := Node(Region(0, 0, 0xffff_ffff, IO_MEM), 1, []);
      ports := Node(Region(1, 0, 0xffff, IO_PORT), 1, []);
      next, memLive, portLive := 2, [], [];
      new;
      hide Inv, All;
      StartInv(mem);
      StartInv(ports);
    }

    /** The part of request_region that works on one of the two trees. */
    method RequestIn(root: Node, start: nat, size: nat, flags: nat, ghost live: seq<Region>)
      returns (now: Node, r: Option<nat>, ghost nowLive: seq<Region>)
      requires Inv(System(root, live)) && start <= root.region.end && forall q | q in All(root) :: q.id < next
      modifies this`next
      ensures var (y, q) := Ask(System(root, live), old(next), start, size, flags);
              System(now, nowLive) == y && r == q
      ensures Inv(System(now, nowLive)) && old(next) <= next && forall q | q in All(now) :: q.id < next
    {
      RequestStep(System(root, live), next, start, size, flags);
      hide Inv, All, AllOf, Retain, Place, Check, FindShared, Has, Absent;
      var end := (start + size) % TWO64;
      now, r, nowLive := root, None, live;
      if Has(flags, SHARED) {
        r := FindShared(root, start, end);
        if r.Some? {
          RetainKeepsAll(root, r.value);
          now := Retain(root, r.value);
        }
      }
      if r.None? {
        var region := Region(next, start, end, Without(flags, MAPPED));
        if Check(root, start, end).None? {
          OneMore(root, region);
          now, r, nowLive := Place(root, Node(region, 1, [])), Some(next), live + [region];
          next := next + 1;
        }
      }
    }

    method RequestRegion(start: nat, size: nat, flags: nat) returns (r: Option<nat>)
      requires Valid() && start <= (if Has(flags, IO_PORT) then ports else mem).region.end
      modifies this
      ensures Valid()
      ensures if Has(flags, IO_PORT) then
                && (System(ports, portLive), r) == Ask(System(old(ports), old(portLive)), old(next), start, size, flags)
                && mem == old(mem) && memLive == old(memLive)
              else
                && (System(mem, memLive), r) == Ask(System(old(mem), old(memLive)), old(next), start, size, flags)
                && ports == old(ports) && portLive == old(portLive)
    {
      hide Has, Inv, Ask, All, Absent;
      if Has(flags, IO_PORT) {
        ports, r, portLive := RequestIn(ports, start, size, flags, portLive);
      } else {
        mem, r, memLive := RequestIn(mem, start, size, flags, memLive);
      }
    }

    /** release_region of a handle on a region of one of the two trees. */
    method ReleaseRegion(port: bool, id: nat)
      requires Valid()
      requires Legal(if port then System(ports, portLive) else System(mem, memLive), Free(id))
      modifies this
      ensures Valid()
      ensures if port then
                && System(ports, portLive) == Give(System(old(ports), old(portLive)), id)
                && mem == old(mem) && memLive == old(memLive)
              else
                && System(mem, memLive) == Give(System(old(mem), old(memLive)), id)
                && ports == old(ports) && portLive == old(portLive)
    {
      hide Inv, All, Release, Find;
      if port {
        FreeStep(System(ports, portLive), id);
        NothingNew(System(ports, portLive), id);
        portLive := Give(System(ports, portLive), id).live;
        ports := Release(ports, id);
      } else {
        FreeStep(System(mem, memLive), id);
        NothingNew(System(mem, memLive), id);
        memLive := Give(System(mem, memLive), id).live;
        mem := Release(mem, id);
      }
    }
  }

  lemma NothingNew(y: System, id: nat)
    requires Inv(y) && Find(y.root.children, id).Some?
    ensures forall r | r in All(Release(y.root, id)) :: r in All(y.root)
  {
    hide All, Release, Find, Lost, Unique, Laminar;
    ReleaseKeepsOthersIff(y.root, id);
    var n := Find(y.root.children, id).value;
    assert forall r :: (All(Release(y.root, id)) + Lost(n))[r] == All(Release(y.root, id))[r] + Lost(n)[r];
  }

  lemma StartInv(root: Node)
    requires root.children == [] && root.region.start == 0 && !Has(root.region.flags, BUSY)
    ensures Inv(System(root, [])) && All(root) == multiset{root.region}
  {}
}
