/** The circular doubly linked lists of kernel/include/list.h, on the heap. A ring is a head and the
    sequence of links met by following `next` from it. */
module Lists {
  import opened Sequences

  /** struct list_head, embedded in some object: `entry` is what LIST_ENTRY recovers from it (-1 for
      a list's own head). */
  class Link {
    var prev: Link?
    var next: Link?
    const entry: int

    constructor (e: int)
      ensures entry == e && prev == null && next == null
    {
      entry := e;
      prev := null;
      next := null;
    }

    /** A list head as INIT_LIST leaves it. */
    constructor Head()
      ensures entry == -1 && prev == this && next == this
    {
      entry := -1;
      prev := this;
      next := this;
    }
  }

  /** Consecutive links of c point at each other. */
  ghost predicate Path(c: seq<Link>)
    reads c
  {
    && (forall i {:trigger c[i].next} | 0 <= i < |c| - 1 :: c[i].next == c[i + 1])
    && (forall i {:trigger c[i].prev} | 1 <= i < |c| :: c[i].prev == c[i - 1])
  }

  /** From the head around and back to it, through the links of s in order. */
  ghost predicate Ring(head: Link, s: seq<Link>)
    reads head, s
  {
    Distinct(head, s) && Path([head] + s + [head])
  }

  lemma JoinPaths(a: seq<Link>, b: seq<Link>)
    requires |a| > 0 && |b| > 0 && Path(a) && Path(b)
    requires a[|a| - 1].next == b[0] && b[0].prev == a[|a| - 1]
    ensures Path(a + b)
  {}

  /** Following `next` and following `prev` undo each other everywhere in a ring. */
  lemma MutuallyInverse(head: Link, s: seq<Link>, x: Link)
    requires Ring(head, s) && (x == head || x in s)
    ensures x.next != null && x.prev != null && x.next.prev == x && x.prev.next == x
  {
    var c := [head] + s + [head];
    if x == head {
      assert c[0] == x && c[|s| + 1] == x;
      assert c[|s|].next == c[|s| + 1];
    } else {
      var i :| 0 <= i < |s| && s[i] == x;
      assert c[i + 1] == x;
      assert c[i].next == c[i + 1];
    }
  }

  /** A ring determines its sequence: there is only one way around. */
  lemma RingUnique(head: Link, s: seq<Link>, t: seq<Link>)
    requires Ring(head, s) && Ring(head, t)
    ensures s == t
  {
    if |s| <= |t| {
      RingPrefix(head, s, t, |s|);
      RingEnds(head, s, t);
    } else {
      RingPrefix(head, t, s, |t|);
      RingEnds(head, t, s);
    }
  }

  lemma {:induction false} RingPrefix(head: Link, s: seq<Link>, t: seq<Link>, n: nat)
    requires Ring(head, s) && Ring(head, t) && n <= |s| && n <= |t|
    ensures s[..n] == t[..n]
  {
    if n > 0 {
      RingPrefix(head, s, t, n - 1);
      var c, d := [head] + s + [head], [head] + t + [head];
      assert c[n - 1] == d[n - 1] by {
        if n > 1 { assert c[n - 1] == s[..n - 1][n - 2] && d[n - 1] == t[..n - 1][n - 2]; }
      }
      assert c[n - 1].next == c[n] && d[n - 1].next == d[n];
    }
  }

  lemma RingEnds(head: Link, s: seq<Link>, t: seq<Link>)
    requires Ring(head, s) && Ring(head, t) && |s| <= |t| && t[..|s|] == s
    ensures s == t
  {
    var n, c, d := |s|, [head] + s + [head], [head] + t + [head];
    assert c[n] == d[n] by { if n > 0 { assert d[n] == t[..n][n - 1]; } }
    assert d[n].next == d[n + 1];
  }

  lemma EmptyRing(head: Link)
    requires head.prev == head && head.next == head
    ensures Ring(head, [])
  {}

  method InitList(head: Link)
    modifies head
    ensures Ring(head, [])
  {
    head.prev, head.next := head, head;
  }

  /** What the two sides of a cut through a ring look like: a runs from the head up to position i,
      b from there back to the head. */
  lemma CutRing(head: Link, s: seq<Link>, i: nat)
    requires Ring(head, s) && i <= |s|
    ensures var a, b := [head] + s[..i], s[i..] + [head];
            && Path(a) && Path(b)
            && a[i].next == b[0] && b[0].prev == a[i]
            && (forall k | 0 <= k < i :: a[k] != a[i])
            && (forall k | 0 < k < |b| :: b[k] != b[0])
  {
    var c, a, b := [head] + s + [head], [head] + s[..i], s[i..] + [head];
    assert forall k | 0 <= k <= i :: a[k] == c[k];
    assert forall k | 0 <= k < |b| :: b[k] == c[i + 1 + k];
  }

  /** __list_add: elem goes between two neighbours, at position i of the ring. */
  method InsertBetween(elem: Link, prev: Link, next: Link, ghost head: Link, ghost s: seq<Link>, ghost i: nat)
    requires Ring(head, s) && i <= |s| && elem != head && elem !in s
    requires prev == ([head] + s)[i] && next == (s + [head])[i]
    modifies elem, prev, next
    ensures Ring(head, s[..i] + [elem] + s[i..])
  {
    CutRing(head, s, i);
    ghost var a, b := [head] + s[..i], s[i..] + [head];
    elem.next := next;
    elem.prev := prev;
    prev.next := elem;
    next.prev := elem;
    assert Path(a) && Path(b);
    JoinPaths(a, [elem]);
    JoinPaths(a + [elem], b);
    ghost var t := s[..i] + [elem] + s[i..];
    assert [head] + t + [head] == a + [elem] + b;
    InsertDistinct(head, s, i, elem);
  }

  lemma InsertDistinct(head: Link, s: seq<Link>, i: nat, elem: Link)
    requires Distinct(head, s) && i <= |s| && elem != head && elem !in s
    ensures Distinct(head, s[..i] + [elem] + s[i..])
  {}

  /** list_add, also used as list_add_after: elem goes right behind `at`. */
  method ListAdd(at: Link, elem: Link, ghost head: Link, ghost s: seq<Link>, ghost i: nat)
    requires Ring(head, s) && i <= |s| && at == ([head] + s)[i] && elem != head && elem !in s
    modifies elem, at, at.next
    ensures Ring(head, s[..i] + [elem] + s[i..])
  {
    CutRing(head, s, i);
    InsertBetween(elem, at, at.next, head, s, i);
  }

  /** list_add_tail, also used as list_add_before: elem goes right before `at`. */
  method ListAddTail(at: Link, elem: Link, ghost head: Link, ghost s: seq<Link>, ghost i: nat)
    requires Ring(head, s) && i <= |s| && at == (s + [head])[i] && elem != head && elem !in s
    modifies elem, at, at.prev
    ensures Ring(head, s[..i] + [elem] + s[i..])
  {
    CutRing(head, s, i);
    InsertBetween(elem, at.prev, at, head, s, i);
  }

  /** list_del: the i-th link leaves the ring and is left unlinked. */
  method ListDel(elem: Link, ghost head: Link, ghost s: seq<Link>, ghost i: nat)
    requires Ring(head, s) && i < |s| && elem == s[i]
    modifies elem, elem.prev, elem.next
    ensures Ring(head, s[..i] + s[i + 1..])
    ensures elem.prev == null && elem.next == null
  {
    ghost var a, b := [head] + s[..i], s[i + 1..] + [head];
    CutRing(head, s, i);
    CutRing(head, s, i + 1);
    assert ([head] + s[..i + 1])[i + 1] == elem;
    MinusDistinct(head, s, i);
    elem.prev.next := elem.next;
    elem.next.prev := elem.prev;
    elem.prev := null;
    elem.next := null;
    assert Path(a) && Path(b);
    JoinPaths(a, b);
    assert [head] + (s[..i] + s[i + 1..]) + [head] == a + b;
  }

  method ListEmpty(head: Link, ghost s: seq<Link>) returns (empty: bool)
    requires Ring(head, s)
    ensures empty <==> s == []
  {
    CutRing(head, s, 0);
    empty := head.next == head;
  }

  /** list_splice: the links of `list` move behind position i of another ring. A source list of one
      link is left where it is: its first and last link are the same, which is the test made. */
  method ListSplice(list: Link, at: Link, ghost s: seq<Link>, ghost head: Link, ghost t: seq<Link>, ghost i: nat)
    requires Ring(list, s) && Ring(head, t) && i <= |t| && at == ([head] + t)[i]
    requires list != head && list !in t && head !in s && forall x | x in s :: x !in t
    modifies list, list.next, list.prev, at, at.next
    ensures |s| == 1 ==> Ring(list, s) && Ring(head, t)
    ensures |s| != 1 ==> Ring(list, []) && Ring(head, t[..i] + s + t[i..])
  {
    CutRing(list, s, 0);
    CutRing(list, s, |s|);
    assert s[..|s|] == s && s[0..] == s;
    if list.next != list.prev {
      Graft(list, at, s, head, t, i);
    } else {
      assert |s| <= 1;
      assert |s| == 0 ==> t[..i] + s + t[i..] == t;
    }
  }

  /** Two stretches of links become one; a third, which holds neither of the two words written, stays. */
  method LinkUp(p: Link, n: Link, ghost x: seq<Link>, ghost y: seq<Link>, ghost z: seq<Link>)
    requires Path(x) && Path(y) && Path(z) && |x| > 0 && |y| > 0 && x[|x| - 1] == p && y[0] == n
    requires Spares(p, n, x) && Spares(p, n, y) && Spares(p, n, z)
    modifies p`next, n`prev
    ensures p.next == n && n.prev == p && Path(x + y) && Path(z)
  {
    n.prev := p;
    p.next := n;
    assert Path(x) && Path(y) && Path(z);
    JoinPaths(x, y);
  }

  /** The path c uses neither the next of p nor the prev of n. */
  ghost predicate Spares(p: Link, n: Link, c: seq<Link>) {
    && (forall k | 0 <= k < |c| - 1 :: c[k] != p)
    && (forall k | 1 <= k < |c| :: c[k] != n)
  }

  method Graft(list: Link, at: Link, ghost s: seq<Link>, ghost head: Link, ghost t: seq<Link>, ghost i: nat)
    requires Ring(list, s) && Ring(head, t) && i <= |t| && at == ([head] + t)[i] && |s| >= 2
    requires list != head && list !in t && head !in s && forall x | x in s :: x !in t
    modifies list, list.next, list.prev, at, at.next
    ensures Ring(list, []) && Ring(head, t[..i] + s + t[i..])
  {
    hide Ring, Distinct, Path;
    ghost var a, b := [head] + t[..i], t[i..] + [head];
    CutRing(head, t, i);
    RingInside(list, s);
    SpliceDistinct(head, list, s, t, i);
    assert forall k | 0 <= k < |a| :: a[k] !in s && a[k] != list;
    assert forall k | 0 <= k < |b| :: b[k] !in s && b[k] != list;
    var first, last, graft := list.next, list.prev, at.next;
    assert first in s && last in s && first != last;
    LinkUp(at, first, a, s, b);
    LinkUp(last, graft, a + s, b, []);
    list.prev, list.next := list, list;
    assert Path(a + s + b);
    ghost var r := t[..i] + s + t[i..];
    assert [head] + r + [head] == a + s + b;
    RingIs(head, r);
    EmptyRing(list);
  }

  lemma RingIs(head: Link, s: seq<Link>)
    requires Distinct(head, s) && Path([head] + s + [head])
    ensures Ring(head, s)
  {}

  lemma RingInside(list: Link, s: seq<Link>)
    requires Ring(list, s) && s != []
    ensures Path(s) && list.next == s[0] && list.prev == s[|s| - 1]
    ensures forall k | 0 <= k < |s| :: (k > 0 ==> s[k] != s[0]) && (k < |s| - 1 ==> s[k] != s[|s| - 1])
  {
    var c := [list] + s + [list];
    assert c[0] == list && c[|s|] == s[|s| - 1] && c[|s| + 1] == list;
    forall k | 0 <= k < |s| - 1 ensures s[k].next == s[k + 1] && s[k + 1].prev == s[k] {
      assert c[k + 1] == s[k];
    }
  }

  lemma SpliceDistinct(head: Link, list: Link, s: seq<Link>, t: seq<Link>, i: nat)
    requires i <= |t| && Ring(head, t) && Ring(list, s) && head !in s && forall x | x in s :: x !in t
    ensures Distinct(head, t[..i] + s + t[i..])
  {
    var r := t[..i] + s + t[i..];
    assert forall k | 0 <= k < |r| :: r[k] == if k < i then t[k] else if k < i + |s| then s[k - i] else t[k - |s|];
    forall j, k | 0 <= j < k < |r| ensures r[j] != r[k] {
      if i <= j < i + |s| <= k { assert s[j - i] in s && t[k - |s|] in t; }
      if j < i <= k < i + |s| { assert t[j] in t && s[k - i] in s; }
    }
  }
}
