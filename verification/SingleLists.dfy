/** The singly linked rings (slist) and the single-headed lists (hlist) of kernel/include/list.h. */
module SingleLists {
  import opened Sequences

  /** A link: slist uses `next` alone. In an hlist `pprev` stands for the cell whose next field the
      source's double pointer points at, the head or the previous node. */
  class Cell {
    var next: Cell?
    var pprev: Cell?

    constructor ()
      ensures next == null && pprev == null
    {
      next, pprev := null, null;
    }
  }

  // ---- slist ----------------------------------------------------------------------------------

  /** Each cell leads to the next. */
  ghost predicate Walk(c: seq<Cell>)
    reads c
  {
    forall i {:trigger c[i].next} | 0 <= i < |c| - 1 :: c[i].next == c[i + 1]
  }

  /** From the head through s and back to the head. */
  ghost predicate Circle(head: Cell, s: seq<Cell>)
    reads head, s
  {
    Distinct(head, s) && Walk([head] + s + [head])
  }

  lemma JoinWalks(a: seq<Cell>, b: seq<Cell>)
    requires |a| > 0 && |b| > 0 && Walk(a) && Walk(b) && a[|a| - 1].next == b[0]
    ensures Walk(a + b)
  {}

  /** The two sides of a cut through a circle. */
  lemma CutCircle(head: Cell, s: seq<Cell>, i: nat)
    requires Circle(head, s) && i <= |s|
    ensures var a, b := [head] + s[..i], s[i..] + [head];
            && Walk(a) && Walk(b) && a[i].next == b[0]
            && forall k | 0 <= k < i :: a[k] != a[i]
  {
    var c, a, b := [head] + s + [head], [head] + s[..i], s[i..] + [head];
    assert forall k | 0 <= k <= i :: a[k] == c[k];
    assert forall k | 0 <= k < |b| :: b[k] == c[i + 1 + k];
  }

  lemma CircleIs(head: Cell, s: seq<Cell>, a: seq<Cell>, b: seq<Cell>)
    requires Distinct(head, s) && Walk(a + b) && a + b == [head] + s + [head]
    ensures Circle(head, s)
  {}

  method SListAdd(head: Cell, elem: Cell, ghost s: seq<Cell>)
    requires Circle(head, s) && elem != head && elem !in s
    modifies head`next, elem`next
    ensures Circle(head, [elem] + s)
  {
    CutCircle(head, s, 0);
    ghost var b := s + [head];
    assert s[0..] == s && Distinct(head, [elem] + s);
    elem.next := head.next;
    head.next := elem;
    assert Walk(b);
    JoinWalks([head], [elem]);
    JoinWalks([head] + [elem], b);
    CircleIs(head, [elem] + s, [head] + [elem], b);
  }

  method SListEmpty(head: Cell, ghost s: seq<Cell>) returns (empty: bool)
    requires Circle(head, s)
    ensures empty <==> s == []
  {
    CutCircle(head, s, 0);
    empty := head.next == head;
  }

  /** slist_del: walks to the predecessor; an element that is not there changes nothing. */
  method SListDel(head: Cell, elem: Cell, ghost s: seq<Cell>)
    requires Circle(head, s) && elem != head
    modifies head, set x | x in s
    ensures elem in s ==> exists i: nat :: i < |s| && s[i] == elem && Circle(head, Minus(s, i)) && elem.next == null
    ensures elem !in s ==> Circle(head, s)
  {
    CutCircle(head, s, 0);
    assert s[0..] == s;
    if head.next == elem {
      Unlink(head, elem, head, s, 0);
      return;
    }
    ghost var k := 0;
    var ptr := head.next;
    while ptr != head
      invariant 0 <= k <= |s| && ptr == (s + [head])[k] && Circle(head, s)
      invariant forall j | 0 <= j <= k && j < |s| :: s[j] != elem
      decreases |s| - k
    {
      assert ptr == s[k] && ptr in s;
      CutCircle(head, s, k + 1);
      if ptr.next == elem {
        Unlink(ptr, elem, head, s, k + 1);
        return;
      }
      ptr := ptr.next;
      k := k + 1;
    }
  }

  /** The element at position i is cut out behind its predecessor. */
  method Unlink(ptr: Cell, elem: Cell, ghost head: Cell, ghost s: seq<Cell>, ghost i: nat)
    requires Circle(head, s) && i < |s| && ptr == ([head] + s)[i] && elem == s[i]
    modifies ptr`next, elem`next
    ensures Circle(head, Minus(s, i)) && elem.next == null
  {
    ghost var a, b := [head] + s[..i], s[i + 1..] + [head];
    OneBetween(head, s, i);
    hide Distinct, Circle;
    ptr.next := elem.next;
    elem.next := null;
    assert Walk(a) && Walk(b);
    JoinWalks(a, b);
    CircleIs(head, Minus(s, i), a, b);
  }

  /** What lies before and behind the element at position i. */
  lemma OneBetween(head: Cell, s: seq<Cell>, i: nat)
    requires Circle(head, s) && i < |s|
    ensures var a, b, elem := [head] + s[..i], s[i + 1..] + [head], s[i];
            && Walk(a) && Walk(b) && a[i].next == elem && elem.next == b[0] && a[i] != elem
            && (forall k | 0 <= k < i :: a[k] != a[i] && a[k] != elem)
            && (forall k | 0 <= k < |b| :: b[k] != elem) && (forall k | 0 <= k < |b| - 1 :: b[k] != a[i])
            && Distinct(head, Minus(s, i)) && a + b == [head] + Minus(s, i) + [head]
  {
    var c := [head] + s[..i + 1];
    CutCircle(head, s, i);
    CutCircle(head, s, i + 1);
    MinusDistinct(head, s, i);
    assert c[i + 1] == s[i] && forall k | 0 <= k <= i :: c[k] == ([head] + s[..i])[k];
    Behind(head, s, i);
  }

  lemma Behind(head: Cell, s: seq<Cell>, i: nat)
    requires Distinct(head, s) && i < |s|
    ensures var b := s[i + 1..] + [head];
            && (forall k | 0 <= k < |b| :: b[k] != s[i])
            && (forall k | 0 <= k < |b| - 1 :: b[k] != ([head] + s[..i])[i])
  {}

  // ---- hlist ----------------------------------------------------------------------------------

  /** Each cell leads to the next, which points back at it. */
  ghost predicate Linked(c: seq<Cell>)
    reads c
  {
    && (forall i {:trigger c[i].next} | 0 <= i < |c| - 1 :: c[i].next == c[i + 1])
    && (forall i {:trigger c[i].pprev} | 1 <= i < |c| :: c[i].pprev == c[i - 1])
  }

  /** From the head through s to the end, and one pointer back from every node. */
  ghost predicate Chain(head: Cell, s: seq<Cell>)
    reads head, s
  {
    var c := [head] + s;
    Distinct(head, s) && Linked(c) && c[|s|].next == null
  }

  lemma JoinLinked(a: seq<Cell>, b: seq<Cell>)
    requires |a| > 0 && Linked(a) && Linked(b)
    requires |b| > 0 ==> a[|a| - 1].next == b[0] && b[0].pprev == a[|a| - 1]
    ensures Linked(a + b)
  {
    if b == [] { assert a + b == a; }
  }

  /** The two sides of a cut through a chain. */
  lemma CutChain(head: Cell, s: seq<Cell>, i: nat)
    requires Chain(head, s) && i <= |s|
    ensures var a, b := [head] + s[..i], s[i..];
            && Linked(a) && Linked(b)
            && (if b == [] then a[i].next == null
                else a[i].next == b[0] && b[0].pprev == a[i] && b[|b| - 1].next == null)
            && (forall k | 0 <= k < i :: a[k] != a[i] && a[k] !in b)
            && a[i] !in b
            && (forall k | 0 < k < |b| :: b[k] != b[0])
  {
    var c, a, b := [head] + s, [head] + s[..i], s[i..];
    assert forall k | 0 <= k <= i :: a[k] == c[k];
    assert forall k | 0 <= k < |b| :: b[k] == c[i + 1 + k];
    assert Distinct(head, s);
  }

  method HListAdd(head: Cell, elem: Cell, ghost s: seq<Cell>)
    requires Chain(head, s) && elem != head && elem !in s
    modifies head`next, elem, set x | x in s
    ensures Chain(head, [elem] + s)
  {
    CutChain(head, s, 0);
    assert s[0..] == s && [head] + s[..0] == [head];
    ghost var t := [elem] + s;
    assert Distinct(head, t);
    var first := head.next;
    elem.next := first;
    if first != null {
      first.pprev := elem;
    }
    head.next := elem;
    elem.pprev := head;
    hide Distinct;
    assert Linked(s);
    JoinLinked([head], [elem]);
    JoinLinked([head] + [elem], s);
    assert [head] + t == [head] + [elem] + s;
  }

  method HListEmpty(head: Cell, ghost s: seq<Cell>) returns (empty: bool)
    requires Chain(head, s)
    ensures empty <==> s == []
  {
    CutChain(head, s, 0);
    empty := head.next == null;
  }

  /** hlist_del: without a walk, and without knowing the head. */
  method HListDel(elem: Cell, ghost head: Cell, ghost s: seq<Cell>, ghost i: nat)
    requires Chain(head, s) && i < |s| && elem == s[i]
    modifies head`next, set x | x in s
    ensures Chain(head, Minus(s, i)) && elem.next == null && elem.pprev == null
  {
    hide Chain, Distinct, Minus;
    ghost var a, b := [head] + s[..i], s[i + 1..];
    Beside(head, s, i);
    var next, pprev := elem.next, elem.pprev;
    pprev.next := elem.next;
    if next != null {
      next.pprev := pprev;
    }
    elem.next := null;
    elem.pprev := null;
    assert Linked(a) && Linked(b);
    JoinLinked(a, b);
    ChainWithout(head, s, i);
  }

  /** What lies on the two sides of a node. */
  lemma Beside(head: Cell, s: seq<Cell>, i: nat)
    requires Chain(head, s) && i < |s|
    ensures var a, b, elem := [head] + s[..i], s[i + 1..], s[i];
            && Linked(a) && Linked(b) && Distinct(head, Minus(s, i))
            && elem.pprev == a[i] && (elem.next == if b == [] then null else b[0])
            && (b != [] ==> b[|b| - 1].next == null)
            && (forall k | 0 <= k < i :: a[k] != a[i] && a[k] !in b)
            && elem !in a && elem !in b && a[i] !in b
            && (forall k | 0 < k < |b| :: b[k] != b[0])
  {
    var c := [head] + s[..i + 1];
    CutChain(head, s, i);
    CutChain(head, s, i + 1);
    MinusDistinct(head, s, i);
    assert c[i + 1] == s[i] && s[i..][0] == s[i];
    assert forall k | 0 <= k <= i :: ([head] + s[..i])[k] == c[k];
  }

  lemma ChainWithout(head: Cell, s: seq<Cell>, i: nat)
    requires i < |s| && Distinct(head, Minus(s, i)) && Linked([head] + s[..i] + s[i + 1..])
    requires ([head] + s[..i] + s[i + 1..])[|s| - 1].next == null
    ensures Chain(head, Minus(s, i))
  {
    assert [head] + Minus(s, i) == [head] + s[..i] + s[i + 1..];
  }
}
