/**
 * Counting occurrences in a list, as Python's `list.count` does, and the
 * facts about counting against a fixed ordered list of categories that both
 * classifiers of the HR-diagram script rely on.
 */
module Counting {

  /** No category appears twice in the list. */
  ghost predicate Distinct<T>(cls: seq<T>)
  {
    forall i, j :: 0 <= i < j < |cls| ==> cls[i] != cls[j]
  }

  /** `s.count(x)`: how many elements of `s` are equal to `x`. */
  function Count<T(==)>(s: seq<T>, x: T): (n: nat)
    ensures n == multiset(s)[x]
    ensures n <= |s|
  {
    if s == [] then 0
    else
      assert s == s[..|s| - 1] + [s[|s| - 1]];
      Count(s[..|s| - 1], x) + (if s[|s| - 1] == x then 1 else 0)
  }

  /** Appending one element adds one to its own count and to no other. */
  lemma CountSnoc<T>(s: seq<T>, x: T, y: T)
    ensures Count(s + [x], y) == Count(s, y) + (if x == y then 1 else 0)
  {
    assert multiset(s + [x]) == multiset(s) + multiset{x};
  }

  /** How many elements of `s` belong to one of the categories `cls`. */
  function CountMember<T(==)>(s: seq<T>, cls: seq<T>): (n: nat)
    ensures n <= |s|
  {
    if s == [] then 0
    else CountMember(s[..|s| - 1], cls) + (if s[|s| - 1] in cls then 1 else 0)
  }

  /** The counts of `s`, one per category of `cls`, in the order of `cls`. */
  function CountsOf<T(==)>(s: seq<T>, cls: seq<T>): (r: seq<nat>)
    ensures |r| == |cls|
    ensures forall k :: 0 <= k < |cls| ==> r[k] == multiset(s)[cls[k]]
  {
    if cls == [] then []
    else [Count(s, cls[0])] + CountsOf(s, cls[1..])
  }

  function Sum(ns: seq<nat>): nat
  {
    if ns == [] then 0 else ns[0] + Sum(ns[1..])
  }

  /** An element belongs to `[c] + cs` exactly when it is `c` or belongs to
      `cs`, and never both when `c` is not among `cs`. */
  lemma {:induction false} CountMemberSplit<T>(s: seq<T>, c: T, cs: seq<T>)
    requires c !in cs
    ensures CountMember(s, [c] + cs) == Count(s, c) + CountMember(s, cs)
  {
    if s != [] {
      CountMemberSplit(s[..|s| - 1], c, cs);
      assert s == s[..|s| - 1] + [s[|s| - 1]];
    }
  }

  /** Counting against distinct categories neither loses nor double-counts an
      element: the per-category counts add up to the number of elements that
      fall in some category, and elements outside every category add to none. */
  lemma {:induction false} CountsSum<T>(s: seq<T>, cls: seq<T>)
    requires Distinct(cls)
    ensures Sum(CountsOf(s, cls)) == CountMember(s, cls)
  {
    if cls == [] {
      CountMemberNone(s, cls);
    } else {
      assert cls == [cls[0]] + cls[1..];
      assert cls[0] !in cls[1..];
      CountsSum(s, cls[1..]);
      CountMemberSplit(s, cls[0], cls[1..]);
    }
  }

  /** With no categories at all, nothing is counted. */
  lemma {:induction false} CountMemberNone<T>(s: seq<T>, cls: seq<T>)
    requires cls == []
    ensures CountMember(s, cls) == 0
  {
    if s != [] {
      CountMemberNone(s[..|s| - 1], cls);
    }
  }

  /** An element outside every category changes none of the counts. */
  lemma {:induction false} CountsIgnore<T>(s: seq<T>, x: T, cls: seq<T>)
    requires x !in cls
    ensures CountsOf(s + [x], cls) == CountsOf(s, cls)
  {
    if cls != [] {
      assert multiset(s + [x]) == multiset(s) + multiset{x};
      CountsIgnore(s, x, cls[1..]);
    }
  }
}
