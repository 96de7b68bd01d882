# Growable arrays and string algorithms, modelled in Dafny

The repository is a data-structures practice project. Its core is an array
container of `int` that keeps its elements in a heap buffer `A` with a
capacity `size` and a count of live elements `length`. The container exists
in three generations, and each one is modelled as its own Dafny class:

- `TemplateArray.Array` models `DSA-Project/ds/array.h`, the templated
  container. It grows on demand: the capacity doubles, or becomes 10 when it
  is 0. It reports errors through `std::optional` or exceptions.
- `IntArray.Array` models `ArrayCPP/ArrayCPP/array.cpp`, the `int` version of
  the same design. It has slightly different error checks and capacities.
- `LegacyArray.Array` models the fixed-capacity class in
  `ArrayCPP/ArrayCPP/main.cpp`. It never grows. Errors come back as `-1` or
  `0`, or as a no-op.
- `SimpleArray.Array` models the first sketch in
  `ArrayClass/ArrayClass/main.cpp`, which has only `Insert` and `Delete`.

The core also holds the string routines of `DSA-Project/algo/strings.cpp`:

- reversal and the palindrome test;
- two duplicate-letter finders, one with a hash map and one with a 64-bit mask;
- two anagram tests, one with a hash map and one with a table of 26 counters;
- two permutation generators, by swapping and by backtracking.

The template and `int` containers (`TemplateArray.Array`, `IntArray.Array`)
hold their buffer as an `array?<int>` field `A`, null after a move or a
zero-size copy. The legacy and simple classes (`LegacyArray.Array`,
`SimpleArray.Array`) keep a non-null `array<int>`, since nothing in them ever
releases or steals the buffer. In every class `size == A.Length` and
`length <= size` while the buffer is present, and `Elements()` is the live
prefix `A[..length]`. Every operation that works
step by step on the buffer is a method with loop invariants. The in-place
kernels are shared by the generations (`ArrayEdits`, `ArraySearch`,
`ArraySetOps`, `ArrayFinders`). Each kernel is proved against a
specification function on sequences (`SeqOrder`, `SeqSetOps`, `SeqPairs`,
`SeqMissing`, `SeqDuplicates`, `StringLetters`, `BitMasks`). The properties
the source promises are then proved about those functions as lemmas:

- sortedness and permutation;
- membership and multiplicity;
- the partition of a set into difference and intersection;
- round trips;
- counts such as `n!` permutations.

Finders that only print their findings return what they would print. An
unordered map is returned as a Dafny `map`. Exceptions and `std::nullopt`
become `Result`, `Outcome` and `Option` values (`Wrappers`). The error kinds
are `OutOfRange`, `EmptyArray` and `Full`.

## Model

| member | source | states |
|---|---|---|
| ArrayEdits.Grown | DSA-Project/ds/array.h:119-131 | the grown capacity is strictly larger than the old one (10 from 0, otherwise doubled) |
| ArrayEdits.Capacity | DSA-Project/ds/array.h:158-163 | a requested capacity of 0 becomes 10; any other request is kept; the result is never 0 |
| ArrayEdits.CopyPrefix | DSA-Project/ds/array.h:125-127 | after the copy loop the destination's first `n` cells equal the source's and the rest are untouched |
| ArrayEdits.ShiftInsert | DSA-Project/ds/array.h:251-255 | shifting the tail right and writing `x` at `index` turns the live prefix into `InsertAt(old, index, x)`; cells past it are untouched |
| ArrayEdits.ShiftDelete | DSA-Project/ds/array.h:263-267 | shifting the tail left turns the live prefix into `RemoveAt(old, index)`; the cells from the new end on are untouched |
| ArrayEdits.TransposeSearch | DSA-Project/ds/array.h:288-299 | a missing key gives `None` and leaves the buffer alone; a found key at its first index `i` is swapped one step towards the front, and the new index (`i-1`, or 0 when `i` is 0) is returned |
| ArrayEdits.LegacyTransposeSearch | ArrayCPP/ArrayCPP/main.cpp:192-207 | the legacy search ignores a match at index 0; a match at the first index `i > 0` is swapped with its predecessor and `i` itself is returned; otherwise -1 and nothing changes |
| ArrayEdits.ReverseWithScratch | DSA-Project/ds/array.h:356-366 | copying through a scratch buffer leaves the live prefix reversed |
| ArrayEdits.ReverseInPlace | DSA-Project/ds/array.h:369-374 | the two-index swap loop leaves the live prefix reversed |
| ArrayEdits.InsertSortedShift | DSA-Project/ds/array.h:379-385 | shifting larger elements right and writing `x` in the hole gives `InsertSorted(old, x)` |
| ArrayEdits.Rearrange | DSA-Project/ds/array.h:389-397 | the two-pointer pass permutes the live prefix so that all negatives precede all non-negatives |
| ArrayEdits.LegacyRearrange | ArrayCPP/ArrayCPP/main.cpp:345-358 | the legacy pass, whose inner scans are bounded by the array ends rather than by each other, also leaves a permutation with negatives first |
| ArrayEdits.SwapPrefix | DSA-Project/ds/array.h:112-116 | swapping two cells exchanges exactly those two values and keeps the multiset |
| ArrayEdits.InsertionPointUnique | DSA-Project/ds/array.h:380-384 | the hole where the shifting loop stops is the unique insertion point |
| ArraySearch.BinarySearch | DSA-Project/ds/array.h:302-311 | a returned index holds the key; on a sorted array `None` is returned exactly when the key is absent |
| ArraySearch.LegacyBinarySearch | ArrayCPP/ArrayCPP/main.cpp:209-226 | the closed-interval search returns -1 or an index holding the key; on a sorted array -1 exactly when the key is absent |
| ArraySearch.MaxOf | DSA-Project/ds/array.h:314-321 | the running maximum is the largest element of a non-empty array |
| ArraySearch.MinOf | DSA-Project/ds/array.h:324-331 | the running minimum is the smallest element of a non-empty array |
| ArraySearch.SumOf | ArrayCPP/ArrayCPP/array.cpp:243-247 | the accumulated total is the sum of the elements |
| ArraySearch.SumFromFirst | DSA-Project/ds/array.h:334-339 | starting from the first element (0 for an empty array) also yields the sum |
| ArraySearch.IsAscending | DSA-Project/ds/array.h:348-353 | the adjacent-pair check answers exactly whether the array is ascending |
| ArraySearch.MinMaxScan | DSA-Project/ds/array.h:540-566 | pairwise comparison returns the minimum and the maximum; `None` exactly for an empty array |
| ArraySearch.PairSortedScan | DSA-Project/ds/array.h:511-524 | the two-pointer loop returns what `SeqPairs.PairWithSumSorted` specifies |
| ArraySearch.PairHashScan | DSA-Project/ds/array.h:527-537 | the seen-set scan returns `None` exactly when no two positions sum to `k`; otherwise an earlier complement and the current element, which sum to `k` |
| ArraySearch.NoPairExtends | DSA-Project/ds/array.h:529-535 | if no complement of the next element was seen, no pair summing to `k` exists one element further |
| ArraySetOps.DifferenceLength | DSA-Project/ds/array.h:447-461 | a difference is never longer than the receiver, so a result buffer of the receiver's length suffices |
| ArraySetOps.ExhaustedOperand | DSA-Project/ds/array.h:406-407 | once one side is exhausted, merge and union copy the rest of the other side, and difference copies the rest of the receiver |
| ArraySetOps.MergeInto | DSA-Project/ds/array.h:400-410 | the merge loop and the two copy-rest loops write exactly `Merge(x, y)`, as many elements as both operands together |
| ArraySetOps.LegacyMergeInto | ArrayCPP/ArrayCPP/main.cpp:361-382 | the legacy merge writes exactly `LegacyMerge(x, y)` (ties taken from the argument) |
| ArraySetOps.UnionInto | DSA-Project/ds/array.h:413-428 | the union loop writes exactly `Union(x, y)` |
| ArraySetOps.IntersectionInto | DSA-Project/ds/array.h:431-444 | the intersection loop writes exactly `Intersection(x, y)`, which fits the smaller operand's capacity |
| ArraySetOps.DifferenceInto | DSA-Project/ds/array.h:447-461 | the difference loop and its copy-rest loop write exactly `Difference(x, y)` |
| ArrayFinders.FirstGapScan | DSA-Project/ds/array.h:600-610 | the index-difference scan returns `FirstGap` of the array |
| ArrayFinders.MissingSortedScan | DSA-Project/ds/array.h:613-638 | the nested gap-printing loops emit exactly `MissingSorted` of the array |
| ArrayFinders.MissingVisit | DSA-Project/ds/array.h:623-632 | one outer iteration moves the emitted gap from the specification's remainder to the output |
| ArrayFinders.PrintGap | DSA-Project/ds/array.h:626-631 | the inner loop prints `i+d .. A[i]-1` and raises the expected difference to `A[i]-i` |
| ArrayFinders.HashMissingScan | DSA-Project/ds/array.h:679-716 | the presence-table method emits exactly `HashMissing` of the array, bail-outs included |
| ArrayFinders.MarkPresent | DSA-Project/ds/array.h:706-712 | after the marking loop, slot `p` is set exactly when `min+p` occurs in the array |
| ArrayFinders.CollectAbsent | DSA-Project/ds/array.h:703-716 | reading the table in order emits the absent values of the range in ascending order |
| ArrayFinders.XorScan | DSA-Project/ds/array.h:642-675 | the XOR method returns `None` exactly for an empty array and otherwise `XorMissing` of it |
| ArrayFinders.SortedDuplicatesScan | DSA-Project/ds/array.h:569-596 | the run-skipping loop reports exactly `SortedDuplicates` of the array |
| ArrayFinders.RunEndAt | DSA-Project/ds/array.h:583-588 | the inner loop stops at the end of the current run |
| ArrayFinders.HashDuplicatesScan | DSA-Project/ds/array.h:464-479 | the frequency map holds exactly the values occurring more than once, each with its number of occurrences |
| ArrayFinders.BruteDuplicatesScan | DSA-Project/ds/array.h:482-508 | marking later copies with a sentinel reports exactly `BruteDuplicates(s, sentinel)` |
| ArrayFinders.MarkLater | DSA-Project/ds/array.h:494-500 | the inner loop counts the occurrences of `temp[i]` and overwrites the later ones with the sentinel |
| ArrayFinders.ScratchCopy | DSA-Project/ds/array.h:489-490 | the scratch buffer is a fresh copy of the elements |
| ArrayFinders.BruteDuplicatesShort | DSA-Project/ds/array.h:484 | fewer than two elements report nothing |
| SeqOrder.AdjacentSortedIsSorted | DSA-Project/ds/array.h:348-353 | checking adjacent pairs is equivalent to sortedness |
| SeqOrder.InsertAt | DSA-Project/ds/array.h:244-256 | insertion lengthens by one and puts `x` at `index` |
| SeqOrder.InsertAtElements | DSA-Project/ds/array.h:251-254 | elements before `index` stay and elements from `index` on move up by one |
| SeqOrder.InsertAtMultiset | DSA-Project/ds/array.h:244-256 | insertion adds exactly `x` to the multiset |
| SeqOrder.RemoveAt | DSA-Project/ds/array.h:259-269 | deletion shortens by one |
| SeqOrder.RemoveAtMultiset | DSA-Project/ds/array.h:259-269 | deletion removes exactly the returned element from the multiset |
| SeqOrder.ReversedAt | DSA-Project/ds/array.h:359-361 | position `k` of the reversal holds the element at `n-1-k` |
| SeqOrder.ReversedIff | DSA-Project/ds/array.h:356-366 | a sequence is the reversal exactly when it is pointwise mirrored |
| SeqOrder.ReverseTwice | DSA-Project/ds/array.h:369-374 | reversing twice gives the original |
| SeqOrder.ReversedMultiset | DSA-Project/ds/array.h:369-374 | reversal is a permutation |
| SeqOrder.InsertionPoint | DSA-Project/ds/array.h:379-383 | the insertion point is after every element not above `x` at its left and before the block of larger elements |
| SeqOrder.InsertSortedMultiset | DSA-Project/ds/array.h:377-386 | sorted insertion adds exactly `x` and lengthens by one |
| SeqOrder.InsertSortedKeepsOrder | DSA-Project/ds/array.h:377-386 | sorted insertion into an ascending array keeps it ascending |
| SeqOrder.SeqMin | DSA-Project/ds/array.h:324-331 | the minimum occurs in the array and is at most every element |
| SeqOrder.SeqMax | DSA-Project/ds/array.h:314-321 | the maximum occurs in the array and is at least every element |
| SeqOrder.SortedUnique | DSA-Project/ds/array.h:377-386 | two ascending sequences with the same multiset are equal, so sortedness and permutation determine a sorted result |
| SeqOrder.FirstIndex | DSA-Project/ds/array.h:288-299 | the first index of a present value holds it, with no earlier occurrence |
| SeqOrder.Swap | DSA-Project/ds/array.h:112-116 | a swap exchanges two positions and keeps every other one |
| SeqOrder.SwapMultiset | DSA-Project/ds/array.h:112-116 | a swap is a permutation |
| SeqSetOps.MergeMultiset | DSA-Project/ds/array.h:400-410 | the merge holds exactly the elements of both operands, with multiplicity |
| SeqSetOps.MergeSorted | DSA-Project/ds/array.h:400-410 | merging two ascending arrays gives an ascending array |
| SeqSetOps.LegacyMergeMultiset | ArrayCPP/ArrayCPP/main.cpp:361-382 | the legacy merge is also a permutation of both operands, and its length is the sum that the legacy code stores |
| SeqSetOps.LegacyMergeSorted | ArrayCPP/ArrayCPP/main.cpp:361-382 | the legacy merge of ascending arrays is ascending |
| SeqSetOps.MergeTieBreakInvisibleWhenSorted | ArrayCPP/ArrayCPP/main.cpp:369 | on ascending inputs the two tie-breaking rules give the same merge |
| SeqSetOps.MergeTieBreakVisibleWhenUnsorted | ArrayCPP/ArrayCPP/main.cpp:369 | on unsorted inputs the tie-breaking rules give different merges |
| SeqSetOps.UnionElements | DSA-Project/ds/array.h:413-428 | a value is in the union exactly when it is in either operand |
| SeqSetOps.UnionLength | DSA-Project/ds/array.h:414 | the union fits the `n+m` buffer and is at least as long as each operand |
| SeqSetOps.UnionStrictlySorted | DSA-Project/ds/array.h:413-428 | the union of two duplicate-free ascending arrays is duplicate-free and ascending |
| SeqSetOps.UnionSorted | DSA-Project/ds/array.h:413-428 | the union of two ascending arrays is ascending |
| SeqSetOps.IntersectionLength | DSA-Project/ds/array.h:432 | the intersection fits the `min(n, m)` buffer |
| SeqSetOps.IntersectionSound | DSA-Project/ds/array.h:431-444 | every value of the intersection is in both operands, and its multiset is within the receiver's |
| SeqSetOps.IntersectionComplete | DSA-Project/ds/array.h:431-444 | on ascending operands every common value is in the intersection |
| SeqSetOps.IntersectionSorted | DSA-Project/ds/array.h:431-444 | the intersection of an ascending receiver is ascending |
| SeqSetOps.DifferenceSound | DSA-Project/ds/array.h:447-461 | the difference is a sub-multiset of the receiver |
| SeqSetOps.DifferenceSorted | DSA-Project/ds/array.h:447-461 | the difference of an ascending receiver is ascending |
| SeqSetOps.DifferenceComplete | DSA-Project/ds/array.h:447-461 | on ascending operands every value of the receiver that is absent from the argument is in the difference |
| SeqSetOps.DifferenceExcludes | DSA-Project/ds/array.h:447-461 | for a duplicate-free ascending receiver, nothing in the difference occurs in the argument |
| SeqSetOps.DifferenceIntersectionPartition | DSA-Project/ds/array.h:431-461 | the difference and the intersection together are exactly the receiver, as multisets |
| SeqSetOps.StrictlySortedOnce | DSA-Project/ds/array.h:413-428 | a duplicate-free ascending array holds each value at most once |
| SeqSetOps.DifferenceAsWrittenAgrees | ArrayCPP/ArrayCPP/array.cpp:376-396 | whenever the as-written `int` difference terminates it agrees with the corrected one; when the argument is empty it terminates only for an empty receiver |
| SeqSetOps.DifferenceAsWrittenDiverges | ArrayCPP/ArrayCPP/array.cpp:390-392 | `[1,3,5]` minus `[3]` does not terminate as written, while the corrected difference is `[1,5]` |
| SeqSetOps.SetAlgebraExample | DSA-Project/ds/array.h:400-461 | the four operations on `[1,3,5]` and `[3,4,5]` give `[1,3,3,4,5,5]`, `[1,3,4,5]`, `[3,5]` and `[1]` |
| SeqPairs.TwoPointerSound | DSA-Project/ds/array.h:516-523 | a pair the two-pointer scan returns occupies two ordered positions of the window and sums to `k` |
| SeqPairs.TwoPointerComplete | DSA-Project/ds/array.h:516-523 | on an ascending array the scan finds a pair whenever one exists in the window |
| SeqPairs.PairWithSumSortedSpec | DSA-Project/ds/array.h:511-524 | a pair is returned exactly when the array is non-empty, ascending and holds two positions summing to `k`; the returned pair is such a pair |
| SeqPairs.PairWithSumSortedExample | DSA-Project/ds/array.h:511-524 | `[10,20,30,40]` with target 50 gives `(10,40)` |
| SeqPairs.PairWithSumSortedRefusesUnsorted | DSA-Project/ds/array.h:512-515 | an unsorted array is refused even when a pair exists |
| SeqMissing.Range | DSA-Project/ds/array.h:626-631 | `Range(lo, hi)` lists `lo, lo+1, ..., hi-1` |
| SeqMissing.RangeElements | DSA-Project/ds/array.h:626-631 | a value is in a range exactly when it lies between its bounds |
| SeqMissing.FirstGapIsLeastMissing | DSA-Project/ds/array.h:600-610 | on a duplicate-free ascending array, `None` means the array covers `[A[0], A[n-1]]`; `Some(v)` means `v` is absent, lies strictly inside, and every value below it from `A[0]` is present |
| SeqMissing.FirstGapExample | DSA-Project/ds/array.h:600-610 | `[1,2,4,5]` gives 3 |
| SeqMissing.MissingSortedIsAbsentRange | DSA-Project/ds/array.h:613-638 | on a duplicate-free ascending array the printed values are ascending and are exactly the values of `[A[0], A[n-1]]` absent from the array |
| SeqMissing.MissingSortedNeedsDistinct | DSA-Project/ds/array.h:613-638 | with a repeated element the method misses a gap (`[1,1,3]` prints nothing) |
| SeqMissing.AbsentSpec | DSA-Project/ds/array.h:703-716 | the table read-out lists exactly the absent values of `[lo, hi)`, ascending |
| SeqMissing.HashMissingSpec | DSA-Project/ds/array.h:679-716 | the hash method prints an ascending list; without the -1 bail-out it is exactly the values of `[min, max]` absent from the array |
| SeqMissing.HashMissingMinusOneQuirk | DSA-Project/ds/array.h:687-690 | a genuine minimum of -1 is mistaken for a failed lookup: `[-1,2]` prints nothing, though 0 and 1 are missing |
| SeqMissing.XorComm | DSA-Project/ds/array.h:657 | XOR is commutative |
| SeqMissing.XorSelf | DSA-Project/ds/array.h:672 | a value XOR itself is 0 |
| SeqMissing.XorAssoc | DSA-Project/ds/array.h:657 | XOR is associative |
| SeqMissing.XorCancel | DSA-Project/ds/array.h:672 | XOR with `x` undoes XOR with `x` |
| SeqMissing.SignedBits | DSA-Project/ds/array.h:652-672 | a 32-bit value survives conversion to its bit pattern and back |
| SeqMissing.XorAllAppend | DSA-Project/ds/array.h:656-658 | the XOR of a concatenation is the XOR of the parts |
| SeqMissing.XorAllPermutation | DSA-Project/ds/array.h:656-658 | the XOR of an array does not depend on the order of its elements |
| SeqMissing.XorMissingFindsGap | DSA-Project/ds/array.h:642-675 | if the array plus `v` is a permutation of `min .. min+n`, the XOR method returns `v` |
| SeqMissing.XorRecover | DSA-Project/ds/array.h:672 | XOR-ing an array with the full range recovers the one value the array lacks |
| SeqMissing.XorMissingUnchecked | DSA-Project/ds/array.h:642-675 | with no gap the method still answers, reporting one past the largest element (`[1,2,3]` gives 4) |
| SeqDuplicates.RunEnd | DSA-Project/ds/array.h:581-586 | the run starting at `i` is constant and ends at the first different element |
| SeqDuplicates.ConstantOccurrences | DSA-Project/ds/array.h:580-586 | a run of `x` contributes its length to the count of `x` and nothing to others |
| SeqDuplicates.RunCountsAll | DSA-Project/ds/array.h:580-586 | in an ascending array the run length is the total number of occurrences of that value |
| SeqDuplicates.RunsFromSpec | DSA-Project/ds/array.h:577-592 | from any index of an ascending array, the report lists exactly the repeated values with their counts, in ascending order |
| SeqDuplicates.SortedDuplicatesSpec | DSA-Project/ds/array.h:569-596 | on an ascending array the report lists exactly the values occurring more than once, each with its count, strictly ascending |
| SeqDuplicates.SortedDuplicatesExample | DSA-Project/ds/array.h:569-596 | `[1,2,2,3,3,3]` reports `(2,2)` and `(3,3)` |
| SeqDuplicates.Mark | DSA-Project/ds/array.h:496-499 | marking replaces every copy of `x` by the sentinel and keeps every other element |
| SeqDuplicates.MarkOccurrences | DSA-Project/ds/array.h:496-499 | after marking `x`, it no longer occurs; other non-sentinel values keep their counts |
| SeqDuplicates.BruteReportSkip | DSA-Project/ds/array.h:493 | a sentinel cell is skipped without changing the report |
| SeqDuplicates.BruteReportHead | DSA-Project/ds/array.h:492-505 | reporting the head's count, then the marked remainder, keeps the report correct |
| SeqDuplicates.BruteDuplicatesSpec | DSA-Project/ds/array.h:482-508 | the brute force reports exactly the non-sentinel values occurring more than once, each with its count, in order of first occurrence |
| SeqDuplicates.BruteDuplicatesSentinel | DSA-Project/ds/array.h:486 | values equal to the sentinel are never reported: 0 for the template, -1 for the `int` container |
| StringLetters.ToLower | DSA-Project/algo/strings.cpp:121 | `tolower` maps exactly the letters to `a`..`z` and leaves lower-case letters and non-letters alone |
| StringLetters.Lower | DSA-Project/algo/strings.cpp:181-182 | the lowered string applies `tolower` pointwise |
| StringLetters.Folded | DSA-Project/algo/strings.cpp:192-202 | keeping the letters only and lowering them yields only `a`..`z` |
| StringLetters.LetterIndex | DSA-Project/algo/strings.cpp:194 | `tolower(c) - 'a'` is a slot below 26 that names the lowered letter |
| StringLetters.LetterSlots | DSA-Project/algo/strings.cpp:164-167 | slot `c - 'a'` maps back to `c` |
| StringLetters.LowerReversed | DSA-Project/algo/strings.cpp:95-103 | lowering commutes with reversal |
| StringLetters.ReversalIsAnagram | DSA-Project/algo/strings.cpp:177-211 | a string and its reversal are anagrams for the counter-table test, and for the hash test unless they are equal |
| StringLetters.IdenticalStrings | DSA-Project/algo/strings.cpp:179 | the hash test rejects a string paired with itself; the counter-table test accepts it |
| StringLetters.LowerIdempotent | DSA-Project/algo/strings.cpp:121 | lowering twice is lowering once |
| StringLetters.HashAgreementImpliesBitwise | DSA-Project/algo/strings.cpp:177-211 | equal lengths and equal lowered multisets imply the counter-table test succeeds |
| StringLetters.AnagramsIgnoreCase | DSA-Project/algo/strings.cpp:181-182 | a string and its lowering are anagrams under both policies (hash: when they differ) |
| StringLetters.AnagramPoliciesDifferOnPunctuation | DSA-Project/algo/strings.cpp:183 | `a!` and `a?` differ for the hash test, which counts punctuation, but pass the counter-table test, which skips it |
| StringLetters.HashDuplicateLettersSpec | DSA-Project/algo/strings.cpp:118-135 | a character is reported exactly when it is a lower-case letter occurring more than once case-insensitively, with that count |
| StringLetters.LowerAgreesOnLetters | DSA-Project/algo/strings.cpp:121-130 | counting lowered characters agrees with counting letters for every lower-case letter |
| StringLetters.DuplicateLettersSpec | DSA-Project/algo/strings.cpp:164-170 | the report loop lists exactly the letters counted at least twice, in alphabetical order |
| BitMasks.SetBit | DSA-Project/algo/strings.cpp:156-159 | after setting bit `j`, bit `k` is set exactly when it was before or `k == j` |
| BitMasks.NarrowIndex | DSA-Project/algo/strings.cpp:150 | narrowing a shift amount below 64 is injective |
| BitMasks.TestBit | DSA-Project/algo/strings.cpp:153 | a nonzero masked test means membership, and membership means a nonzero test |
| BitMasks.MembersZero | DSA-Project/algo/strings.cpp:138-139 | an empty mask has no members |
| BitMasks.MembersSetBit | DSA-Project/algo/strings.cpp:156-159 | OR-ing in a bit adds exactly that member |
| Strings.ReverseString | DSA-Project/algo/strings.cpp:95-103 | the string is reversed in place |
| Strings.ReverseStringRoundTrip | DSA-Project/algo/strings.cpp:95-103 | reversing twice restores the string |
| Strings.IsPalindrome | DSA-Project/algo/strings.cpp:105-116 | the answer is true exactly when the string equals its reversal |
| Strings.PalindromeAnagrams | DSA-Project/algo/strings.cpp:177-211 | a palindrome is a counter-table anagram of its reversal but never a hash anagram of it |
| Strings.Tally | DSA-Project/algo/strings.cpp:181-182 | tallying adds, or subtracts, the lowered character counts to the map, and the map's keys grow by exactly the characters seen |
| Strings.FindDuplicatesHashing | DSA-Project/algo/strings.cpp:118-135 | the report holds exactly the letters occurring more than once, ignoring case, with their counts |
| Strings.SetBitOf | DSA-Project/algo/strings.cpp:156-159 | OR-ing in `1 << j` adds `j` to the mask's members |
| Strings.IsBitSet | DSA-Project/algo/strings.cpp:153 | the signed test `(flags & mask) > 0` is membership for bits below 63 |
| Strings.MarkBits | DSA-Project/algo/strings.cpp:141-160 | the two masks hold the letters seen at least once and at least twice |
| Strings.FindDuplicatesBitwise | DSA-Project/algo/strings.cpp:137-175 | bit `k` of the duplicate mask is set exactly when letter `k` occurs at least twice ignoring case; the printed letters are those, alphabetically |
| Strings.AllCountsZero | DSA-Project/algo/strings.cpp:183 | the final scan answers whether every tallied count is zero |
| Strings.AreAnagramsHash | DSA-Project/algo/strings.cpp:177-185 | true exactly when the lengths agree, the strings differ, and their lowered multisets are equal |
| Strings.TallyLetters | DSA-Project/algo/strings.cpp:192-202 | each counter changes by the number of occurrences of its letter, up or down |
| Strings.AreAnagramsBitwise | DSA-Project/algo/strings.cpp:187-211 | true exactly when the lengths agree and every letter occurs equally often ignoring case and non-letters |
| Strings.FirstNonZero | DSA-Project/algo/strings.cpp:204-208 | the scan stops at the first nonzero counter, or at 26 when all are zero |
| Strings.SameLetterCounts | DSA-Project/algo/strings.cpp:204-210 | 26 equal counters mean equal multisets of folded letters |
| Permutations.SwapPermsCount | DSA-Project/algo/strings.cpp:66-80 | swapping from `low` yields `(n-low)!` arrangements |
| Permutations.SwapPermsArePermutations | DSA-Project/algo/strings.cpp:66-80 | every arrangement is a permutation of the input that keeps the fixed prefix |
| Permutations.PermHelper | DSA-Project/algo/strings.cpp:66-80 | the recursion appends the swap arrangements and restores the buffer by backtracking |
| Permutations.GeneratePermutations | DSA-Project/algo/strings.cpp:83-93 | empty input gives no result; otherwise `n!` results, each a permutation of the input |
| Permutations.MarkUsed | DSA-Project/algo/strings.cpp:31-34 | marking slot `i` used adds its character to the picked multiset and leaves one fewer free |
| Permutations.AllPicked | DSA-Project/algo/strings.cpp:21-23 | when nothing is free the picked characters are the whole input |
| Permutations.CompletionsArePermutations | DSA-Project/algo/strings.cpp:16-45 | every completion of a consistent prefix is a permutation of the input extending the prefix |
| Permutations.CompletionsCount | DSA-Project/algo/strings.cpp:16-45 | a prefix of length `k` has `(n-k)!` completions |
| Permutations.PermBuildHelper | DSA-Project/algo/strings.cpp:16-45 | the backtracking recursion appends all completions and restores the used flags and the prefix |
| Permutations.GeneratePermutationsBacktracking | DSA-Project/algo/strings.cpp:47-62 | empty input gives one empty string; otherwise `n!` results, each a permutation of the input |
| TemplateArray.Array.Elements | DSA-Project/ds/array.h:228-231 | the live contents have exactly `length` elements |
| TemplateArray.Array.constructor | DSA-Project/ds/array.h:158-163 | a new container is empty with capacity `sz`, or 10 when `sz` is 0 |
| TemplateArray.Array.Copy | DSA-Project/ds/array.h:171-177 | the copy has the source's capacity and contents in a buffer of its own |
| TemplateArray.Array.Move | DSA-Project/ds/array.h:195-202 | the new container takes the source's buffer, and the source is left empty with a null buffer |
| TemplateArray.Array.CopyAssign | DSA-Project/ds/array.h:180-192 | self-assignment changes nothing; otherwise the target holds a fresh copy of the source, which is unchanged |
| TemplateArray.Array.MoveAssign | DSA-Project/ds/array.h:205-218 | self-assignment changes nothing; otherwise the target takes the source's buffer and the source is emptied |
| TemplateArray.Array.Resize | DSA-Project/ds/array.h:119-131 | growth keeps the contents and increases the capacity to `Grown(size)` |
| TemplateArray.Array.Append | DSA-Project/ds/array.h:236-241 | the contents gain `x` at the end, growing the buffer only when full |
| TemplateArray.Array.Insert | DSA-Project/ds/array.h:244-256 | an index up to `length` inserts `x` there; a larger one fails with OutOfRange (after the growth check) and changes no contents |
| TemplateArray.Array.Delete | DSA-Project/ds/array.h:259-269 | a live index returns the element there and removes it; otherwise the call fails with OutOfRange and nothing changes |
| TemplateArray.Array.Get | DSA-Project/ds/array.h:272-277 | a live index yields the element; any other yields `None` |
| TemplateArray.Array.Set | DSA-Project/ds/array.h:280-285 | a live index overwrites that element alone; any other fails with OutOfRange |
| TemplateArray.Array.LinearSearch | DSA-Project/ds/array.h:288-299 | the search keeps the multiset; a found key moves one step forward and its new index is returned |
| TemplateArray.Array.BinarySearchLoop | DSA-Project/ds/array.h:302-311 | a returned index holds the key; on sorted contents `None` exactly when the key is absent |
| TemplateArray.Array.Max | DSA-Project/ds/array.h:314-321 | empty contents fail with EmptyArray; otherwise the largest element |
| TemplateArray.Array.Min | DSA-Project/ds/array.h:324-331 | empty contents fail with EmptyArray; otherwise the smallest element |
| TemplateArray.Array.Sum | DSA-Project/ds/array.h:334-339 | the sum of the contents, 0 when empty |
| TemplateArray.Array.IsSorted | DSA-Project/ds/array.h:348-353 | true exactly when the contents ascend |
| TemplateArray.Array.Reverse | DSA-Project/ds/array.h:356-366 | the contents are reversed |
| TemplateArray.Array.ReverseInPlace | DSA-Project/ds/array.h:369-374 | the contents are reversed |
| TemplateArray.Array.InsertSort | DSA-Project/ds/array.h:377-386 | the contents become `InsertSorted(old, x)`, which is ascending when the old contents were |
| TemplateArray.Array.Rearrange | DSA-Project/ds/array.h:389-397 | the contents are permuted so that negatives come first |
| TemplateArray.Array.Merge | DSA-Project/ds/array.h:400-410 | a new container with capacity `n+m` holds `Merge` of the two contents |
| TemplateArray.Array.Union | DSA-Project/ds/array.h:413-428 | a new container with capacity `n+m` holds `Union` of the two contents |
| TemplateArray.Array.Intersection | DSA-Project/ds/array.h:431-444 | a new container with capacity `min(n, m)` holds `Intersection` of the two contents |
| TemplateArray.Array.Difference | DSA-Project/ds/array.h:447-461 | a new container with capacity `n` holds `Difference` of the two contents |
| TemplateArray.Array.FindSingleMissingElementSorted | DSA-Project/ds/array.h:600-610 | the answer is `FirstGap` of the contents |
| TemplateArray.Array.FindMultipleMissingElementsSorted | DSA-Project/ds/array.h:613-638 | the printed values are `MissingSorted` of the contents |
| TemplateArray.Array.FindSingleMissingElementUnsortedOptimal | DSA-Project/ds/array.h:642-675 | `None` exactly when empty; otherwise the XOR answer |
| TemplateArray.Array.FindMultipleMissingElementsHash | DSA-Project/ds/array.h:679-716 | the printed values are `HashMissing` of the contents |
| TemplateArray.Array.FindDuplicatesSorted | DSA-Project/ds/array.h:569-596 | the printed pairs are `SortedDuplicates` of the contents |
| TemplateArray.Array.FindDuplicatesHashing | DSA-Project/ds/array.h:464-479 | the printed map holds exactly the repeated values with their counts |
| TemplateArray.Array.FindDuplicatesUnsortedBruteForce | DSA-Project/ds/array.h:482-508 | the returned pairs are the brute-force report with sentinel 0 |
| TemplateArray.Array.PairWithSumSorted | DSA-Project/ds/array.h:511-524 | the answer is `PairWithSumSorted` of the contents |
| TemplateArray.Array.PairWithSumHashing | DSA-Project/ds/array.h:527-537 | `None` exactly when no two positions sum to `k`; otherwise a pair summing to `k`, complement first |
| TemplateArray.Array.FindMinMax | DSA-Project/ds/array.h:540-566 | `None` exactly when empty; otherwise the minimum and the maximum |
| IntArray.Array.constructor | ArrayCPP/ArrayCPP/array.cpp:59-68 | a new container is empty with capacity `sz`, or 10 when `sz` is 0 |
| IntArray.Array.Copy | ArrayCPP/ArrayCPP/array.cpp:78-85 | the copy has the source's capacity and contents; a zero-capacity source gives a null buffer |
| IntArray.Array.Move | ArrayCPP/ArrayCPP/array.cpp:113-117 | the buffer moves over and the source is left empty |
| IntArray.Array.CopyAssign | ArrayCPP/ArrayCPP/array.cpp:91-105 | self-assignment changes nothing; otherwise the target holds a fresh copy of the source |
| IntArray.Array.MoveAssign | ArrayCPP/ArrayCPP/array.cpp:124-133 | self-assignment changes nothing; otherwise the buffer moves over and the source is emptied |
| IntArray.Array.Resize | ArrayCPP/ArrayCPP/array.cpp:38-54 | growth keeps the contents and increases the capacity |
| IntArray.Array.Append | ArrayCPP/ArrayCPP/array.cpp:147-152 | the contents gain `x` at the end, growing only when full |
| IntArray.Array.Insert | ArrayCPP/ArrayCPP/array.cpp:154-164 | an index up to `length` inserts `x` there; a larger one fails with OutOfRange |
| IntArray.Array.Delete | ArrayCPP/ArrayCPP/array.cpp:166-177 | an empty container fails with EmptyArray, an index past the end with OutOfRange, and otherwise the element is returned and removed |
| IntArray.Array.Get | ArrayCPP/ArrayCPP/array.cpp:179-184 | a live index yields the element; any other yields `None` |
| IntArray.Array.Set | ArrayCPP/ArrayCPP/array.cpp:186-191 | a live index overwrites that element; any other fails with OutOfRange |
| IntArray.Array.LinearSearch | ArrayCPP/ArrayCPP/array.cpp:194-205 | the multiset is kept; a found key moves one step forward and its new index is returned |
| IntArray.Array.BinarySearchLoop | ArrayCPP/ArrayCPP/array.cpp:208-219 | a returned index holds the key; on sorted contents `None` exactly when absent |
| IntArray.Array.Max | ArrayCPP/ArrayCPP/array.cpp:221-230 | empty contents fail with EmptyArray; otherwise the largest element |
| IntArray.Array.Min | ArrayCPP/ArrayCPP/array.cpp:232-241 | empty contents fail with EmptyArray; otherwise the smallest element |
| IntArray.Array.Sum | ArrayCPP/ArrayCPP/array.cpp:243-247 | the sum of the contents |
| IntArray.Array.IsSorted | ArrayCPP/ArrayCPP/array.cpp:256-261 | true exactly when the contents ascend |
| IntArray.Array.Reverse | ArrayCPP/ArrayCPP/array.cpp:264-274 | the contents are reversed |
| IntArray.Array.ReverseInPlace | ArrayCPP/ArrayCPP/array.cpp:277-282 | the contents are reversed |
| IntArray.Array.InsertSort | ArrayCPP/ArrayCPP/array.cpp:285-296 | the contents become `InsertSorted(old, x)` |
| IntArray.Array.Rearrange | ArrayCPP/ArrayCPP/array.cpp:299-311 | the contents are permuted so that negatives come first |
| IntArray.Array.Merge | ArrayCPP/ArrayCPP/array.cpp:315-331 | a new container holds `Merge` of the two contents |
| IntArray.Array.Union | ArrayCPP/ArrayCPP/array.cpp:334-356 | a new container holds `Union` of the two contents |
| IntArray.Array.Intersection | ArrayCPP/ArrayCPP/array.cpp:359-374 | a new container with capacity `min(n, m)` holds `Intersection` of the two contents |
| IntArray.Array.Difference | ArrayCPP/ArrayCPP/array.cpp:376-396 | the corrected difference: a new container with capacity `n+m` holds `Difference` of the two contents |
| IntArray.Array.FindSingleMissingElementSorted | ArrayCPP/ArrayCPP/array.cpp:401-411 | the answer is `FirstGap` of the contents |
| IntArray.Array.FindMultipleMissingElementsSorted | ArrayCPP/ArrayCPP/array.cpp:449-474 | the printed values are `MissingSorted` of the contents |
| IntArray.Array.FindSingleMissingElementUnsortedOptimal | ArrayCPP/ArrayCPP/array.cpp:414-447 | `None` exactly when empty; otherwise the XOR answer |
| IntArray.Array.FindMultipleMissingElementsHash | ArrayCPP/ArrayCPP/array.cpp:477-528 | the printed values are `HashMissing` of the contents |
| IntArray.Array.FindDuplicatesSorted | ArrayCPP/ArrayCPP/array.cpp:530-557 | the printed pairs are `SortedDuplicates` of the contents |
| IntArray.Array.FindDuplicatesHashing | ArrayCPP/ArrayCPP/array.cpp:561-590 | the printed map holds exactly the repeated values with their counts |
| IntArray.Array.FindDuplicatesUnsortedBruteForce | ArrayCPP/ArrayCPP/array.cpp:594-628 | the returned pairs are the brute-force report with sentinel -1 |
| LegacyArray.OrMinusOne | ArrayCPP/ArrayCPP/main.cpp:469-485 | a found value is returned as is, and a missing one as -1 |
| LegacyArray.Array.constructor | ArrayCPP/ArrayCPP/main.cpp:38-47 | a new container is empty with capacity `sz`, or 10 when `sz` is 0 |
| LegacyArray.Array.Copy | ArrayCPP/ArrayCPP/main.cpp:56-66 | the copy has the source's capacity and contents in a buffer of its own |
| LegacyArray.Array.Append | ArrayCPP/ArrayCPP/main.cpp:139-145 | with room, `x` is appended; a full container fails with Full and is unchanged |
| LegacyArray.Array.Insert | ArrayCPP/ArrayCPP/main.cpp:147-162 | a full container fails with Full, an index outside `0..length` with OutOfRange, and otherwise `x` is inserted; the capacity never changes |
| LegacyArray.Array.Delete | ArrayCPP/ArrayCPP/main.cpp:164-182 | a live index returns the element and removes it; any other returns 0 and changes nothing |
| LegacyArray.Array.LinearSearch | ArrayCPP/ArrayCPP/main.cpp:192-207 | the multiset is kept; a match at index 0 is skipped, and a later first match moves one step forward and reports its old index; otherwise -1 |
| LegacyArray.Array.BinarySearchLoop | ArrayCPP/ArrayCPP/main.cpp:209-226 | -1 or an index holding the key; on sorted contents -1 exactly when absent |
| LegacyArray.Array.Get | ArrayCPP/ArrayCPP/main.cpp:228-233 | a live index yields the element; any other yields -1 |
| LegacyArray.Array.Set | ArrayCPP/ArrayCPP/main.cpp:235-241 | a live index overwrites that element; any other changes nothing |
| LegacyArray.Array.Max | ArrayCPP/ArrayCPP/main.cpp:243-257 | -1 when empty; otherwise the largest element |
| LegacyArray.Array.Min | ArrayCPP/ArrayCPP/main.cpp:259-273 | -1 when empty; otherwise the smallest element |
| LegacyArray.Array.Sum | ArrayCPP/ArrayCPP/main.cpp:275-282 | the sum of the contents |
| LegacyArray.Array.Reverse | ArrayCPP/ArrayCPP/main.cpp:294-304 | the contents are reversed |
| LegacyArray.Array.ReverseInPlace | ArrayCPP/ArrayCPP/main.cpp:307-313 | the contents are reversed |
| LegacyArray.Array.InsertSort | ArrayCPP/ArrayCPP/main.cpp:316-332 | with room the contents become `InsertSorted(old, x)`; a full container fails with Full and is unchanged |
| LegacyArray.Array.IsSorted | ArrayCPP/ArrayCPP/main.cpp:334-342 | 1 exactly when the contents ascend, otherwise 0 |
| LegacyArray.Array.Rearrange | ArrayCPP/ArrayCPP/main.cpp:345-358 | the contents are permuted so that negatives come first |
| LegacyArray.Array.Merge | ArrayCPP/ArrayCPP/main.cpp:361-382 | a new container holds `LegacyMerge` of the two contents, with length `n+m` |
| LegacyArray.Array.Union | ArrayCPP/ArrayCPP/main.cpp:385-412 | a new container holds `Union` of the two contents |
| LegacyArray.Array.Intersection | ArrayCPP/ArrayCPP/main.cpp:415-436 | a new container with capacity `n+m` holds `Intersection` of the two contents |
| LegacyArray.Array.Difference | ArrayCPP/ArrayCPP/main.cpp:439-464 | a new container holds `Difference` of the two contents |
| LegacyArray.Array.FindSingleMissingElementSorted | ArrayCPP/ArrayCPP/main.cpp:469-485 | the first gap, or -1 when there is none |
| LegacyArray.Array.FindSingleMissingElementUnsortedOptimal | ArrayCPP/ArrayCPP/main.cpp:488-529 | -1 when empty or when the minimum is -1 (read as a failed lookup); otherwise the XOR answer |
| LegacyArray.Array.FindMultipleMissingElementsSorted | ArrayCPP/ArrayCPP/main.cpp:532-558 | the printed values are `MissingSorted` of the contents |
| LegacyArray.Array.FindMultipleMissingElementsHash | ArrayCPP/ArrayCPP/main.cpp:561-613 | the printed values are `HashMissing` of the contents |
| SimpleArray.Array.constructor | ArrayClass/ArrayClass/main.cpp:18-23 | the default container is empty with capacity 10 |
| SimpleArray.Array.Sized | ArrayClass/ArrayClass/main.cpp:24-29 | a sized container is empty with exactly the requested capacity |
| SimpleArray.Array.Insert | ArrayClass/ArrayClass/main.cpp:46-55 | an index in `0..length` inserts `x`; any other changes nothing |
| SimpleArray.Array.Delete | ArrayClass/ArrayClass/main.cpp:57-69 | a live index returns and removes the element; any other returns 0 and changes nothing |

## Left out

- Printing: `Display` and the messages of the finders are not modelled. Each finder returns the values it prints, in print order.
- `FindDuplicatesHashing` (both containers and strings): the iteration order of `std::unordered_map` is unspecified, so the report is a `map` from value to count.
- Fixed-width arithmetic: `int`, `long long` and `size_t` overflow are not modelled; elements, sums and indices are unbounded integers. The XOR finder works on 32-bit patterns, and `SeqMissing.XorMissingFindsGap` requires the missing value to fit in 32 bits.
- The XOR finder's overflow guard (DSA-Project/ds/array.h:661-669 and ArrayCPP/ArrayCPP/array.cpp:433-441) only prints a warning or stops at `INT_MAX`, neither of which can happen with unbounded integers.
- `Avg` (all generations) is left out because it returns a floating-point quotient.
- Allocation failure is not modelled: `bad_alloc`, and the `nothrow` failed state in ArrayCPP/ArrayCPP/main.cpp:39-46 and 58-62.
- The destructors, `begin`/`end`, `GetLength`/`GetSize`, the `main` drivers, `create_and_fill_array` and the practice classes under `InitialPlayground` are not part of this model.
- The legacy class writes no copy assignment or move operations (ArrayCPP/ArrayCPP/main.cpp:67-73 holds only comments). The compiler's implicit shallow copy assignment, which aliases the buffer and leads to a double delete, and the moves that fall back to it are not modelled.
- `IsSorted` and `PairWithSumSorted` on an empty array: the source computes `length - 1` in `size_t`, which wraps around and reads out of bounds. The model answers as for any ascending array: sorted, and no pair.
- Characters are ASCII `char`s under the C locale. `tolower` and `isalpha` of other code points are not modelled.
- SimpleArray.Array.Insert: the source writes past the buffer when inserting into a full container. The model requires room for the insertion instead of modelling the overflow.
- Strings.IsBitSet: requires `j < 63`, because the source's test `(flags & mask) > 0` on a signed `long long` is false for bit 63. Letter masks only use bits 0-25.
- The template is modelled for `T = int` only, the one instantiation the repository uses.

## Findings

| source | as written | input that shows it | evidently intended | confidence | as-written member | corrected member |
|---|---|---|---|---|---|---|
| ArrayCPP/ArrayCPP/array.cpp:390-392 | the loop that copies the rest of the receiver never advances `i`, so it never ends once the argument runs out first | receiver `[1,3,5]`, argument `[3]` | copy `A[i++]`, as the template and the legacy class do, giving `[1,5]` | not executed | SeqSetOps.DifferenceAsWrittenDiverges | IntArray.Array.Difference |
