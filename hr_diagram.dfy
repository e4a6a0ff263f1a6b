/**
 * The classification step of the XHIP Hertzsprung-Russell diagram script:
 * counting stars per luminosity class (I..VI, coded 1..6 in the catalogue),
 * counting them per MK spectral type (O, B, A, F, G, K, M, read from the
 * first character of the spectral-type string), and splitting the colour
 * index (B-V) and absolute magnitude (Mv) columns into one bucket per
 * luminosity class for plotting. Colour indices and magnitudes are only
 * carried through masks, so their type is a parameter.
 */
module HrDiagram {
  import opened Counting
  import opened Mask

  /** `np.arange(1, 7)`: the catalogue codes of luminosity classes I..VI. */
  const LUM_CLASSES: seq<int> := [1, 2, 3, 4, 5, 6]

  /** The MK spectral types, hottest to coolest, as one-letter labels. */
  const SPECTRAL_TYPES: seq<string> := ["O", "B", "A", "F", "G", "K", "M"]

  /** The letters of SPECTRAL_TYPES. */
  const SPECTRAL_LETTERS: seq<char> := "OBAFGKM"

  /** The six codes are 1..6 in order, and no code appears twice. */
  lemma LumClassCodes()
    ensures |LUM_CLASSES| == 6
    ensures forall k :: 0 <= k < 6 ==> LUM_CLASSES[k] == k + 1
    ensures forall x :: x in LUM_CLASSES <==> 1 <= x <= 6
    ensures Distinct(LUM_CLASSES)
  {
  }

  /** Label k is the one-letter string of letter k, and no label appears
      twice. */
  lemma SpectralLabels()
    ensures |SPECTRAL_TYPES| == |SPECTRAL_LETTERS| == 7
    ensures forall k :: 0 <= k < 7 ==> SPECTRAL_TYPES[k] == [SPECTRAL_LETTERS[k]]
    ensures Distinct(SPECTRAL_TYPES)
  {
  }

  /** `count_lum_class`: six counts, position k holding the number of stars
      whose code is k + 1; codes outside 1..6 add to no count. */
  method CountLumClass(lc: seq<int>) returns (num: seq<nat>)
    ensures |num| == 6
    ensures forall k :: 0 <= k < 6 ==> num[k] == multiset(lc)[k + 1]
    ensures num == CountsOf(lc, LUM_CLASSES)
    ensures Sum(num) == CountMember(lc, LUM_CLASSES)
  {
    var lum := lc;
    var cls := LUM_CLASSES;
    num := [];
    for i := 0 to |cls|
      invariant |num| == i
      invariant forall k :: 0 <= k < i ==> num[k] == Count(lum, cls[k])
    {
      num := num + [Count(lum, cls[i])];
    }
    LumClassCodes();
    CountsSum(lc, LUM_CLASSES);
  }

  /** `i[:1]`: the first character of a spectral type, or the empty string
      for an empty one. */
  function FirstChar(s: string): (r: string)
    ensures r <= s
    ensures |r| <= 1
    ensures s != "" ==> |r| == 1
  {
    if s == "" then "" else s[..1]
  }

  /** `[i[:1] for i in sp]`. */
  function LeadingChars(sp: seq<string>): (r: seq<string>)
    ensures |r| == |sp|
    ensures forall i :: 0 <= i < |sp| ==> r[i] == FirstChar(sp[i])
  {
    if sp == [] then []
    else
      var n := |sp| - 1;
      LeadingChars(sp[..n]) + [FirstChar(sp[n])]
  }

  /** How many spectral types start with one of `letters` (an empty type
      starts with nothing). */
  function LeadingCountIn(sp: seq<string>, letters: seq<char>): (n: nat)
    ensures n <= |sp|
  {
    if sp == [] then 0
    else
      var n := |sp| - 1;
      LeadingCountIn(sp[..n], letters) + (if sp[n] != "" && sp[n][0] in letters then 1 else 0)
  }

  /** Counting the one-letter label `[c]` among the first characters counts
      the types that start with exactly the character `c`: only the first
      character matters, and the match is case-sensitive. */
  lemma {:induction false} FirstCharCount(sp: seq<string>, c: char)
    ensures Count(LeadingChars(sp), [c]) == LeadingCountIn(sp, [c])
  {
    if sp != [] {
      var n := |sp| - 1;
      FirstCharCount(sp[..n], c);
      var prev := LeadingChars(sp[..n]);
      assert LeadingChars(sp) == prev + [FirstChar(sp[n])];
      CountSnoc(prev, FirstChar(sp[n]), [c]);
      FirstCharIs(sp[n], c);
    }
  }

  /** `i[:1] == c` holds exactly when `i` is not empty and starts with `c`. */
  lemma FirstCharIs(s: string, c: char)
    ensures FirstChar(s) == [c] <==> s != "" && s[0] == c
  {
    if s != "" && s[0] == c {
      assert s[..1] == [c];
    }
  }

  /** A first character is one of the seven labels exactly when the type is
      non-empty and starts with one of O, B, A, F, G, K, M. */
  lemma {:induction false} KnownTypeCount(sp: seq<string>)
    ensures CountMember(LeadingChars(sp), SPECTRAL_TYPES) == LeadingCountIn(sp, SPECTRAL_LETTERS)
  {
    if sp != [] {
      var n := |sp| - 1;
      KnownTypeCount(sp[..n]);
      assert LeadingChars(sp)[..n] == LeadingChars(sp[..n]);
      SpectralLabelOf(FirstChar(sp[n]));
    }
  }

  /** A string of at most one character is one of the seven labels exactly
      when it is one of the seven letters. */
  lemma SpectralLabelOf(h: string)
    requires |h| <= 1
    ensures h in SPECTRAL_TYPES <==> h != "" && h[0] in SPECTRAL_LETTERS
  {
    SpectralLabels();
    if h != "" && h[0] in SPECTRAL_LETTERS {
      var k :| 0 <= k < 7 && SPECTRAL_LETTERS[k] == h[0];
      assert h == SPECTRAL_TYPES[k];
    }
  }

  /** `count_sp_type`: the label list unchanged, and beside it one count per
      label, position k holding the number of types whose first character is
      that label's letter; the counts add up to the number of types starting
      with one of the seven letters. */
  method CountSpType(sp: seq<string>) returns (num: seq<nat>, spt: seq<string>)
    ensures spt == SPECTRAL_TYPES
    ensures |num| == |spt|
    ensures forall k :: 0 <= k < |spt| ==> num[k] == LeadingCountIn(sp, [SPECTRAL_LETTERS[k]])
    ensures num == CountsOf(LeadingChars(sp), SPECTRAL_TYPES)
    ensures Sum(num) == LeadingCountIn(sp, SPECTRAL_LETTERS)
  {
    SpectralLabels();
    spt := SPECTRAL_TYPES;
    var spl := LeadingChars(sp);
    num := [];
    for i := 0 to |spt|
      invariant |num| == i
      invariant forall k :: 0 <= k < i ==> num[k] == Count(spl, spt[k])
    {
      num := num + [Count(spl, spt[i])];
    }
    forall k | 0 <= k < |spt|
      ensures num[k] == LeadingCountIn(sp, [SPECTRAL_LETTERS[k]])
    {
      FirstCharCount(sp, SPECTRAL_LETTERS[k]);
    }
    CountsSum(spl, SPECTRAL_TYPES);
    KnownTypeCount(sp);
  }

  /** `[xs[lc == i] for i in np.arange(1, 7)]`: one bucket per luminosity
      class, bucket k as long as the count of code k + 1. */
  function ClassBuckets<T>(lc: seq<int>, xs: seq<T>): (r: seq<seq<T>>)
    requires |lc| == |xs|
    ensures |r| == 6
    ensures forall k :: 0 <= k < 6 ==> |r[k]| == multiset(lc)[k + 1]
  {
    assert forall k :: 0 <= k < 6 ==> LUM_CLASSES[k] == k + 1;
    BucketsFor(lc, xs, LUM_CLASSES)
  }

  /** Bucket k of the comprehension is the mask for code k + 1. */
  lemma ClassBucketIsMask<T>(lc: seq<int>, xs: seq<T>, k: nat)
    requires |lc| == |xs|
    requires k < 6
    ensures ClassBuckets(lc, xs)[k] == Bucket(lc, xs, k + 1)
  {
    LumClassCodes();
  }

  /** Bucket k holds exactly the elements at the positions whose code is
      k + 1, in their original relative order. */
  lemma ClassBucketSelects<T>(lc: seq<int>, xs: seq<T>, k: nat)
    requires |lc| == |xs|
    requires k < 6
    ensures ClassBuckets(lc, xs)[k] == Select(xs, MatchIndices(lc, k + 1))
  {
    ClassBucketIsMask(lc, xs, k);
    BucketSelects(lc, xs, k + 1);
  }

  /** The colour-index and magnitude buckets of a class have equal length,
      that length is the count `count_lum_class` reports for the class, and
      the two buckets pair up star by star. */
  lemma ClassBucketsAligned<A, B>(lc: seq<int>, bv: seq<A>, mv: seq<B>, k: nat)
    requires |lc| == |bv| == |mv|
    requires k < 6
    ensures |ClassBuckets(lc, bv)[k]| == |ClassBuckets(lc, mv)[k]| == CountsOf(lc, LUM_CLASSES)[k]
    ensures ClassBuckets(lc, Zip(bv, mv))[k] == Zip(ClassBuckets(lc, bv)[k], ClassBuckets(lc, mv)[k])
  {
    LumClassCodes();
    BucketZip(lc, bv, mv, k + 1);
  }

  /** Every star whose code is in 1..6 lands in exactly one of the six
      buckets, no star is lost or duplicated, and stars with any other code
      land in none. */
  lemma ClassBucketsPartition<T>(lc: seq<int>, xs: seq<T>)
    requires |lc| == |xs|
    ensures multiset(Concat(ClassBuckets(lc, xs))) == multiset(FilterIn(lc, xs, LUM_CLASSES))
  {
    LumClassCodes();
    BucketsPartition(lc, xs, LUM_CLASSES);
  }

  /** A position whose code is in 1..6 is in the mask of its own class and of
      no other; a position with any other code is in no mask. */
  lemma ClassIndexPartition(lc: seq<int>, i: nat)
    requires i < |lc|
    ensures 1 <= lc[i] <= 6 ==> i in MatchIndices(lc, lc[i])
    ensures forall c :: 1 <= c <= 6 && c != lc[i] ==> i !in MatchIndices(lc, c)
  {
    forall c | 1 <= c <= 6 && c != lc[i]
      ensures i !in MatchIndices(lc, c)
    {
      InBucketIff(lc, c, i);
    }
  }

  /** A code outside 1..6 changes none of the six counts. */
  lemma OutOfRangeCodeIgnored(lc: seq<int>, x: int)
    requires !(1 <= x <= 6)
    ensures CountsOf(lc + [x], LUM_CLASSES) == CountsOf(lc, LUM_CLASSES)
  {
    CountsIgnore(lc, x, LUM_CLASSES);
  }

  /** An empty spectral type, or one whose first character is not one of
      O, B, A, F, G, K, M (lower case included), changes none of the seven
      counts. */
  lemma UnknownTypeIgnored(sp: seq<string>, s: string)
    requires s == "" || s[0] !in SPECTRAL_LETTERS
    ensures CountsOf(LeadingChars(sp + [s]), SPECTRAL_TYPES) == CountsOf(LeadingChars(sp), SPECTRAL_TYPES)
  {
    assert (sp + [s])[..|sp|] == sp;
    var h := FirstChar(s);
    assert h !in SPECTRAL_TYPES by {
      SpectralLabels();
      assert h == "" || h == [s[0]];
    }
    CountsIgnore(LeadingChars(sp), h, SPECTRAL_TYPES);
  }

  /** Codes 1, 1, 2, 5, 5, 5 and 99 count as two of class I, one of class II
      and three of class V; code 99 is counted nowhere. */
  lemma LumClassExample(lc: seq<int>)
    requires lc == [1, 1, 2, 5, 5, 5, 99]
    ensures CountsOf(lc, LUM_CLASSES) == [2, 1, 0, 0, 3, 0]
  {
    var m := multiset(lc);
    assert m == multiset{1, 1, 2, 5, 5, 5, 99};
    assert m[1] == 2 && m[2] == 1 && m[3] == 0 && m[4] == 0 && m[5] == 3 && m[6] == 0;
    LumClassCodes();
  }

  /** Types G2V, K0III, M5 and Q9 have the first characters G, K, M and Q. */
  lemma FirstCharsExample(sp: seq<string>)
    requires sp == ["G2V", "K0III", "M5", "Q9"]
    ensures LeadingChars(sp) == ["G", "K", "M", "Q"]
  {
    var spl := LeadingChars(sp);
    assert spl[0] == FirstChar("G2V") == "G";
    assert spl[1] == "K" && spl[2] == "M" && spl[3] == "Q";
  }

  /** Types G2V, K0III, M5 and Q9 count one each for G, K and M; Q9 is
      counted nowhere. */
  lemma SpectralTypeExample(sp: seq<string>)
    requires sp == ["G2V", "K0III", "M5", "Q9"]
    ensures CountsOf(LeadingChars(sp), SPECTRAL_TYPES) == [0, 0, 0, 0, 1, 1, 1]
  {
    FirstCharsExample(sp);
    SpectralCountsExample(LeadingChars(sp));
  }

  lemma SpectralCountsExample(spl: seq<string>)
    requires spl == ["G", "K", "M", "Q"]
    ensures CountsOf(spl, SPECTRAL_TYPES) == [0, 0, 0, 0, 1, 1, 1]
  {
    var m := multiset(spl);
    assert m == multiset{"G", "K", "M", "Q"};
    assert m["O"] == m["B"] == m["A"] == m["F"] == 0;
    assert m["G"] == m["K"] == m["M"] == 1;
  }

  /** A single star of class V puts its colour index and magnitude in bucket
      V and leaves the other five buckets empty. */
  lemma SingleStarExample<A, B>(bv: A, mv: B)
    ensures ClassBuckets([5], [(bv, mv)]) == [[], [], [], [], [(bv, mv)], []]
  {
    var lc, xs := [5], [(bv, mv)];
    assert lc[..0] == [] && xs[..0] == [];
    assert Bucket(lc, xs, 5) == xs;
    forall c | c != 5
      ensures Bucket(lc, xs, c) == []
    {
    }
  }
}
