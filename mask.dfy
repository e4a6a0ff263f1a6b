/**
 * Boolean masking of index-aligned columns, `xs[lc == c]` in NumPy: the
 * elements of `xs` at the positions where the code column `lc` equals `c`,
 * kept in their original order. Masking builds a new sequence; the columns it
 * reads are values and stay as they were.
 */
module Mask {
  import opened Counting

  /** `xs[lc == c]`. NumPy refuses a boolean mask whose length differs from
      the masked array, hence the precondition. */
  function Bucket<T>(lc: seq<int>, xs: seq<T>, c: int): (r: seq<T>)
    requires |lc| == |xs|
    ensures |r| == Count(lc, c)
  {
    if lc == [] then []
    else
      var n := |lc| - 1;
      assert lc == lc[..n] + [lc[n]];
      Bucket(lc[..n], xs[..n], c) + (if lc[n] == c then [xs[n]] else [])
  }

  /** The positions where `lc` holds `c`, in increasing order. */
  function MatchIndices(lc: seq<int>, c: int): (r: seq<nat>)
    ensures forall j :: 0 <= j < |r| ==> r[j] < |lc| && lc[r[j]] == c
    ensures forall i :: 0 <= i < |lc| && lc[i] == c ==> i in r
    ensures forall j1, j2 :: 0 <= j1 < j2 < |r| ==> r[j1] < r[j2]
  {
    if lc == [] then []
    else
      var n := |lc| - 1;
      MatchIndices(lc[..n], c) + (if lc[n] == c then [n] else [])
  }

  /** The elements of `xs` at the positions `idx`, in the order of `idx`. */
  function Select<T>(xs: seq<T>, idx: seq<nat>): (r: seq<T>)
    requires forall j :: 0 <= j < |idx| ==> idx[j] < |xs|
  {
    seq(|idx|, j requires 0 <= j < |idx| => xs[idx[j]])
  }

  /** The mask keeps exactly the elements at the positions holding `c`, and
      keeps them in their original relative order. */
  lemma {:induction false} BucketSelects<T>(lc: seq<int>, xs: seq<T>, c: int)
    requires |lc| == |xs|
    ensures Bucket(lc, xs, c) == Select(xs, MatchIndices(lc, c))
  {
    if lc != [] {
      var n := |lc| - 1;
      BucketSelects(lc[..n], xs[..n], c);
    }
  }

  /** Masking a column of pairs is pairing the masked columns: the colour
      index and the magnitude of one star stay together in every bucket. */
  function Zip<A, B>(xs: seq<A>, ys: seq<B>): (r: seq<(A, B)>)
    requires |xs| == |ys|
    ensures |r| == |xs|
    ensures forall i :: 0 <= i < |r| ==> r[i].0 == xs[i] && r[i].1 == ys[i]
  {
    if xs == [] then []
    else
      var n := |xs| - 1;
      Zip(xs[..n], ys[..n]) + [(xs[n], ys[n])]
  }

  lemma {:induction false} BucketZip<A, B>(lc: seq<int>, xs: seq<A>, ys: seq<B>, c: int)
    requires |lc| == |xs| == |ys|
    ensures |Bucket(lc, xs, c)| == |Bucket(lc, ys, c)|
    ensures Bucket(lc, Zip(xs, ys), c) == Zip(Bucket(lc, xs, c), Bucket(lc, ys, c))
  {
    if lc != [] {
      var n := |lc| - 1;
      BucketZip(lc[..n], xs[..n], ys[..n], c);
      assert Zip(xs, ys)[..n] == Zip(xs[..n], ys[..n]);
    }
  }

  /** The elements of `xs` whose code is one of `cls`, in their original order. */
  function FilterIn<T>(lc: seq<int>, xs: seq<T>, cls: seq<int>): (r: seq<T>)
    requires |lc| == |xs|
    ensures |r| == CountMember(lc, cls)
  {
    if lc == [] then []
    else
      var n := |lc| - 1;
      FilterIn(lc[..n], xs[..n], cls) + (if lc[n] in cls then [xs[n]] else [])
  }

  /** One mask per category of `cls`, in the order of `cls`. */
  function BucketsFor<T>(lc: seq<int>, xs: seq<T>, cls: seq<int>): (r: seq<seq<T>>)
    requires |lc| == |xs|
    ensures |r| == |cls|
    ensures forall k :: 0 <= k < |cls| ==> r[k] == Bucket(lc, xs, cls[k])
  {
    if cls == [] then []
    else [Bucket(lc, xs, cls[0])] + BucketsFor(lc, xs, cls[1..])
  }

  function Concat<T>(bs: seq<seq<T>>): seq<T>
  {
    if bs == [] then [] else bs[0] + Concat(bs[1..])
  }

  lemma {:induction false} FilterInSplit<T>(lc: seq<int>, xs: seq<T>, c: int, cs: seq<int>)
    requires |lc| == |xs|
    requires c !in cs
    ensures multiset(FilterIn(lc, xs, [c] + cs))
         == multiset(Bucket(lc, xs, c)) + multiset(FilterIn(lc, xs, cs))
  {
    if lc != [] {
      var n := |lc| - 1;
      FilterInSplit(lc[..n], xs[..n], c, cs);
    }
  }

  lemma {:induction false} FilterInNone<T>(lc: seq<int>, xs: seq<T>, cls: seq<int>)
    requires |lc| == |xs|
    requires cls == []
    ensures FilterIn(lc, xs, cls) == []
  {
    if lc != [] {
      FilterInNone(lc[..|lc| - 1], xs[..|lc| - 1], cls);
    }
  }

  /** Masking by distinct categories partitions the elements whose code is a
      category: each of them lands in exactly one bucket, no element is lost
      or duplicated, and elements with any other code land in none. */
  lemma {:induction false} BucketsPartition<T>(lc: seq<int>, xs: seq<T>, cls: seq<int>)
    requires |lc| == |xs|
    requires Distinct(cls)
    ensures multiset(Concat(BucketsFor(lc, xs, cls))) == multiset(FilterIn(lc, xs, cls))
  {
    if cls == [] {
      FilterInNone(lc, xs, cls);
    } else {
      assert cls == [cls[0]] + cls[1..];
      assert cls[0] !in cls[1..];
      BucketsPartition(lc, xs, cls[1..]);
      FilterInSplit(lc, xs, cls[0], cls[1..]);
    }
  }

  /** A position falls in the mask of `c` exactly when its code is `c`. */
  lemma {:induction false} InBucketIff(lc: seq<int>, c: int, i: nat)
    requires i < |lc|
    ensures i in MatchIndices(lc, c) <==> lc[i] == c
  {
    if i in MatchIndices(lc, c) {
      var r := MatchIndices(lc, c);
      var j :| 0 <= j < |r| && r[j] == i;
    }
  }
}
