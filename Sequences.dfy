/** The list operations of java.util.ArrayList that a node's child list is
    edited with, stated on sequences. */
module Sequences {

  /** A value that may be absent: the model of an operation that throws
      IndexOutOfBoundsException returns None instead. */
  datatype Option<T> = None | Some(value: T)

  /** ArrayList.indexOf: the position of the first element equal to x, or -1
      when there is none. */
  function IndexOf<T(==)>(s: seq<T>, x: T): (k: int)
    ensures -1 <= k < |s|
    ensures k == -1 <==> x !in s
    ensures 0 <= k ==> s[k] == x && x !in s[..k]
  {
    if |s| == 0 then -1
    else if s[0] == x then 0
    else
      var k := IndexOf(s[1..], x);
      if k == -1 then -1 else k + 1
  }

  /** ArrayList.remove(Object): the first element equal to x is dropped, the
      others keep their order; without such an element nothing changes. */
  function RemoveFirst<T(==)>(s: seq<T>, x: T): (r: seq<T>)
    ensures x !in s ==> r == s
    ensures x in s ==> |r| == |s| - 1
  {
    var k := IndexOf(s, x);
    if k == -1 then s else s[..k] + s[k + 1..]
  }

  /** Removing by value takes away exactly one copy of x, if there is one,
      and nothing else. */
  lemma RemoveFirstMultiset<T>(s: seq<T>, x: T)
    ensures multiset(RemoveFirst(s, x)) == multiset(s) - multiset{x}
  {
    var k := IndexOf(s, x);
    if k == -1 {
      assert x !in multiset(s);
    } else {
      assert s[k] == x && RemoveFirst(s, x) == s[..k] + s[k + 1..];
      DropMultiset(s, k);
    }
  }

  /** Dropping the element at position k takes one copy of it out of the
      multiset of the sequence. */
  lemma DropMultiset<T>(s: seq<T>, k: int)
    requires 0 <= k < |s|
    ensures multiset(s[..k] + s[k + 1..]) == multiset(s) - multiset{s[k]}
  {
    var before, after := s[..k], s[k + 1..];
    assert s == before + ([s[k]] + after);
    assert multiset(s) == multiset(before) + multiset([s[k]] + after);
    assert multiset([s[k]] + after) == multiset{s[k]} + multiset(after);
  }

  /** A child held once is no longer held after it is removed by value. */
  lemma RemoveFirstLastCopy<T>(s: seq<T>, x: T)
    requires multiset(s)[x] == 1
    ensures x !in RemoveFirst(s, x)
  {
    RemoveFirstMultiset(s, x);
    assert multiset(RemoveFirst(s, x))[x] == 0;
  }

  /** Removing by value keeps the elements before the removed one in place
      and shifts the rest down by one. */
  lemma RemoveFirstOrder<T>(s: seq<T>, x: T)
    requires x in s
    ensures var k := IndexOf(s, x);
      && (forall m :: 0 <= m < k ==> RemoveFirst(s, x)[m] == s[m])
      && (forall m :: k <= m < |s| - 1 ==> RemoveFirst(s, x)[m] == s[m + 1])
  {
    var k := IndexOf(s, x);
    var r := RemoveFirst(s, x);
    assert r == s[..k] + s[k + 1..];
  }
}
