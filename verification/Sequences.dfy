/** Options, sequences without repetition, and the ends of sequences. */
module Sequences {

  datatype Option<T> = None | Some(value: T)

  /** The elements of s differ from each other and from `head`. */
  ghost predicate Distinct<T>(head: T, s: seq<T>) {
    && head !in s
    && forall i, j | 0 <= i < j < |s| :: s[i] != s[j]
  }

  /** The last n elements, or all of them if there are no more. */
  function Last<T>(s: seq<T>, n: nat): seq<T> {
    if |s| <= n then s else s[|s| - n..]
  }

  /** Without the element at position i. */
  function Minus<T>(s: seq<T>, i: nat): seq<T>
    requires i < |s|
  {
    s[..i] + s[i + 1..]
  }

  lemma MinusDistinct<T>(head: T, s: seq<T>, i: nat)
    requires Distinct(head, s) && i < |s|
    ensures Distinct(head, Minus(s, i)) && s[i] !in Minus(s, i)
    ensures forall x | x in s && x != s[i] :: x in Minus(s, i)
    ensures forall x | x in Minus(s, i) :: x in s
  {
    var t := Minus(s, i);
    assert forall k | 0 <= k < |t| :: t[k] == s[if k < i then k else k + 1];
    forall x | x in s && x != s[i] ensures x in t {
      var k :| 0 <= k < |s| && s[k] == x;
      assert t[if k < i then k else k - 1] == x;
    }
  }
}
