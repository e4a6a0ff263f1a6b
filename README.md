# XHIP HR diagram: classification and bucketing

This project models the classification step of `xhip-hr-diagram.py`, a script that draws a
Hertzsprung-Russell diagram from the XHIP catalogue (VizieR V/137D). The script fetches four
index-aligned columns: the luminosity-class code `Lc`, the colour index `B-V`, the absolute
magnitude `VMag` and the spectral type `SpType`. It then

- counts the stars of each luminosity class I..VI, which the catalogue codes as 1..6
  (`count_lum_class`);
- counts the stars of each MK spectral type O, B, A, F, G, K, M, using only the first
  character of the spectral-type string (`count_sp_type`);
- splits the `B-V` and `VMag` columns into one bucket per luminosity class with the NumPy
  masks `bv[lc == i]` and `mv[lc == i]`, ready for plotting.

The model has three modules:

- `Counting` (`counting.dfy`) models Python's `list.count`. It also holds the generic facts
  about counting against a fixed ordered list of distinct categories: one count per
  category, in order; the counts add up to the number of elements that fall in some
  category; and an element outside every category changes no count.
- `Mask` (`mask.dfy`) models a NumPy boolean mask `xs[lc == c]` as a filter over sequences.
  It proves that the mask keeps exactly the positions holding `c`, in their original order,
  and that masks by distinct categories partition the elements.
- `HrDiagram` (`hr_diagram.dfy`) models the script's own functions. Both counters are
  methods with the script's loop over the class list, appending one count per class. Each is
  proved against `Counting.CountsOf`. The first-character comprehension and the per-class
  masks are functions.

Colour indices and magnitudes are never used in arithmetic, only carried through masks, so
their type is a type parameter. Columns are Dafny sequences, which are values. Masking
therefore cannot change the columns it reads, and running a classification twice on the
same input gives the same result.

## Model

| member | source | states |
|---|---|---|
| `Counting.Count` | xhip-hr-diagram.py:55 | `lum.count(i)` is the number of occurrences of `i` in the list (its multiplicity in the list's multiset), never more than the list's length |
| `Counting.CountSnoc` | xhip-hr-diagram.py:55 | appending an element adds one to the count of that element and changes the count of every other value by nothing |
| `Counting.CountsOf` | xhip-hr-diagram.py:53-55 | one count per category, as many as there are categories, position k holding the number of occurrences of category k |
| `Counting.CountsSum` | xhip-hr-diagram.py:52-55 | for distinct categories, the counts add up to the number of elements that belong to some category: nothing is lost and nothing is counted twice |
| `Counting.CountMemberSplit` | xhip-hr-diagram.py:52-55 | the elements in category list `[c] + cs` are those equal to `c` plus those in `cs`, when `c` is not in `cs` |
| `Counting.CountsIgnore` | xhip-hr-diagram.py:53-55 | appending an element that is in no category leaves every count unchanged |
| `Mask.Bucket` | xhip-hr-diagram.py:111 | `xs[lc == c]` for columns of equal length has as many elements as `c` occurs in `lc` |
| `Mask.MatchIndices` | xhip-hr-diagram.py:111 | the positions where `lc` holds `c`, strictly increasing, each in range and holding `c`, and every such position present |
| `Mask.InBucketIff` | xhip-hr-diagram.py:111 | a position is selected by the mask of `c` if and only if its code is `c` |
| `Mask.BucketSelects` | xhip-hr-diagram.py:111-112 | the mask is exactly the elements at the positions holding `c`, in their original relative order |
| `Mask.BucketZip` | xhip-hr-diagram.py:111-112 | one mask applied to two aligned columns gives buckets of equal length that pair up element by element |
| `Mask.FilterIn` | xhip-hr-diagram.py:111-112 | the elements whose code is one of the categories number exactly the codes that are in some category |
| `Mask.BucketsFor` | xhip-hr-diagram.py:111-112 | one mask per category, in category order |
| `Mask.FilterInSplit` | xhip-hr-diagram.py:111-112 | as a multiset, the elements with codes in `[c] + cs` are the bucket of `c` plus those with codes in `cs`, when `c` is not in `cs` |
| `Mask.BucketsPartition` | xhip-hr-diagram.py:111-112 | for distinct categories, the buckets together hold exactly, as a multiset, the elements whose code is a category: none lost, none duplicated, none with another code |
| `HrDiagram.LumClassCodes` | xhip-hr-diagram.py:52 | `np.arange(1, 7)` has six distinct codes, position k holding k + 1, and a code is among them exactly when it lies in 1..6 |
| `HrDiagram.CountLumClass` | xhip-hr-diagram.py:46-56 | `count_lum_class` returns six counts; position k is the number of occurrences of code k + 1; the counts add up to the number of codes in 1..6 |
| `HrDiagram.OutOfRangeCodeIgnored` | xhip-hr-diagram.py:52-55 | a code outside 1..6 changes none of the six counts |
| `HrDiagram.LumClassExample` | xhip-hr-diagram.py:46-56 | codes 1, 1, 2, 5, 5, 5, 99 give counts 2, 1, 0, 0, 3, 0 |
| `HrDiagram.SpectralLabels` | xhip-hr-diagram.py:63 | the seven labels are distinct one-letter strings, label k being the letter k of `OBAFGKM` |
| `HrDiagram.FirstChar` | xhip-hr-diagram.py:64 | `i[:1]` is a prefix of `i` of length at most one, and of length exactly one when `i` is not empty |
| `HrDiagram.LeadingChars` | xhip-hr-diagram.py:64 | the comprehension keeps the length of the list and takes `i[:1]` of each element at the same position |
| `HrDiagram.FirstCharIs` | xhip-hr-diagram.py:64-67 | `i[:1]` equals the one-letter label of `c` exactly when `i` is not empty and its first character is `c` |
| `HrDiagram.FirstCharCount` | xhip-hr-diagram.py:64-67 | counting the label `[c]` among the first characters counts the types that are non-empty and start with exactly the character `c` |
| `HrDiagram.KnownTypeCount` | xhip-hr-diagram.py:63-67 | a first character is one of the seven labels exactly when the type is non-empty and starts with one of O, B, A, F, G, K, M |
| `HrDiagram.SpectralLabelOf` | xhip-hr-diagram.py:63-67 | a string of at most one character is one of the seven labels exactly when it is one of the letters O, B, A, F, G, K, M |
| `HrDiagram.CountSpType` | xhip-hr-diagram.py:59-68 | `count_sp_type` returns the label list unchanged and one count per label; count k is the number of types starting with that label's letter; the counts add up to the number of types starting with one of the seven letters |
| `HrDiagram.UnknownTypeIgnored` | xhip-hr-diagram.py:63-67 | an empty type, or one whose first character is not an uppercase O, B, A, F, G, K or M, changes none of the seven counts |
| `HrDiagram.FirstCharsExample` | xhip-hr-diagram.py:64 | types G2V, K0III, M5 and Q9 have the first characters G, K, M and Q |
| `HrDiagram.SpectralCountsExample` | xhip-hr-diagram.py:66-67 | first characters G, K, M and Q count once each for G, K and M and nowhere for Q |
| `HrDiagram.SpectralTypeExample` | xhip-hr-diagram.py:59-68 | types G2V, K0III, M5 and Q9 give counts 0, 0, 0, 0, 1, 1, 1 for O, B, A, F, G, K, M |
| `HrDiagram.ClassBuckets` | xhip-hr-diagram.py:111-112 | the comprehension gives six buckets, bucket k as long as the number of occurrences of code k + 1 |
| `HrDiagram.ClassBucketIsMask` | xhip-hr-diagram.py:111-112 | bucket k of the comprehension is the mask `xs[lc == k + 1]` |
| `HrDiagram.ClassBucketSelects` | xhip-hr-diagram.py:111-112 | bucket k holds exactly the elements at the positions whose code is k + 1, in their original order |
| `HrDiagram.ClassBucketsAligned` | xhip-hr-diagram.py:111-112 | for aligned `lc`, `bv`, `mv`, bucket k of `bv` and of `mv` have the length `count_lum_class` reports for class k + 1, and they pair up star by star |
| `HrDiagram.ClassBucketsPartition` | xhip-hr-diagram.py:111-112 | the six buckets together hold exactly, as a multiset, the elements whose code is in 1..6 |
| `HrDiagram.ClassIndexPartition` | xhip-hr-diagram.py:111-112 | a position whose code is in 1..6 is in the mask of its own class and in no other class's mask; a position with another code is in none |
| `HrDiagram.SingleStarExample` | xhip-hr-diagram.py:111-112 | a single star of class V lands in bucket V, and the other five buckets are empty |

## Left out

- `get_vizier_data` (xhip-hr-diagram.py:26-43) is a network query to VizieR through
  astroquery. It is I/O and a foreign call. Its only relevant fact is that the columns it
  returns are index-aligned. The mask functions require equal lengths, because NumPy
  rejects a boolean mask whose length differs from the array it masks. If the query fails,
  the script stops before any classification, so no error path exists inside the core.
- `plot_hr_diagram` (xhip-hr-diagram.py:71-90) is matplotlib rendering with global figure
  state and an interactive window. Its only contribution here is pairing each `B-V` bucket
  with its `VMag` bucket, which `Mask.BucketZip` covers.
- The astropy `Table` construction and the `print` calls (xhip-hr-diagram.py:99-107) are
  output formatting.
- The label and colour lists (xhip-hr-diagram.py:99, 113-115) are styling constants and
  are not modelled.
- `HrDiagram.CountLumClass` and `HrDiagram.CountSpType` return counts as `nat`. The script
  builds them with `np.append` on an empty list, so they are floating-point values that
  equal these integers.
- The floating-point meaning of `B-V` and `VMag` is not modelled. The model carries them as
  an opaque element type.
- NumPy's masked-array `data` extraction (xhip-hr-diagram.py:39-42) is not modelled. The
  query filters out null values, so the columns are plain sequences here.
