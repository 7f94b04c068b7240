# java-adv core, modelled in Dafny

This project models the computational core of five assignments of an advanced-Java course
and proves properties of the model:

- **IterativeParallelism** splits a list into one contiguous block per thread, after keeping
  every `step`-th value. Each block is reduced, and the per-block results are combined.
  `maximum`, `minimum`, `all`, `any` and `count` are built on top. The model covers the
  block layout and the sequential combination. Threads are only a parameter (`Mode`).
- **ArraySet** is an immutable sorted set over a list with no duplicates. `find` and
  `contains` use binary search, and `subSet`, `headSet` and `tailSet` return views.
  A missing comparator means the natural ordering, which the model passes in as a comparator.
- **Walk** computes the 32-bit one-at-a-time hash of a file's bytes and prints it as eight
  lowercase hexadecimal digits followed by the file name. Any failure gives `00000000`.
  The model uses `bv32` arithmetic, so Java's wrap-around and `>>>` are exact.
- **StudentDB** answers queries over student records with Java streams. They are modelled
  as pure functions: a stable sort, a filter, a case-insensitive `TreeSet`, the first maximum
  of a stream, and `groupingBy` with `minBy`.
- **Implementor** writes a Java class that implements an interface. Each method returns a
  default value, and every non-ASCII UTF-16 unit is escaped as `\uXXXX`. A `SourceBuilder`
  class stands for the `StringBuilder` the writer methods append to. Reflection is replaced
  by descriptor datatypes. The model also covers the jar entry name and `main`'s argument
  checks.

Shared modules:

- `Comparators`: the three clauses of Java's `Comparator` contract, plus `reversed`,
  `comparing`, `thenComparing`, `String.compareTo` and `Stream.max`.
- `JavaStrings`: a string as the UTF-16 code units Java stores. `String.compareTo` and `toUnicode` work on these units.
- `Sorting`: a stable sort.
- `TreeSets`: `TreeSet.addAll`.
- `Seqs`, `Wrappers`: sequences, `Option` and `Result`.

An exception becomes a `Failure` (or `Some(error)`). A precondition is stated only where the
code itself fails, for example a non-positive thread count or step.

A discrepancy between code and documentation: the doc comments of `all` and `any` promise
`true` and `false` when no values are given. But `getSubStreams` then divides by zero
(`threads = min(0, threads)` followed by `size / threads`). The first thing `count` does is the
same division. Here the model follows the code: with no values, `All`, `Any` and `Count`
return `Failure(DivisionByZero)`.

## Model

| member | source | states |
|---|---|---|
| IterativeParallelism.Strided | java-solutions/info/kgeorgiy/ja/riazanova/iterative/IterativeParallelism.java:142-144 | the selection is empty exactly when the list is, and no longer than it |
| IterativeParallelism.StridedAt | java-solutions/info/kgeorgiy/ja/riazanova/iterative/IterativeParallelism.java:142-144 | the i-th selected value is `values[i * step]`, and that index is in range |
| IterativeParallelism.StridedCovers | java-solutions/info/kgeorgiy/ja/riazanova/iterative/IterativeParallelism.java:142-144 | `step` times the selection length reaches past the end of the list, so no stride is skipped |
| IterativeParallelism.BoundClosedForm | java-solutions/info/kgeorgiy/ja/riazanova/iterative/IterativeParallelism.java:151-168 | the loop's i-th end index is `i * (size / k) + min(i, size % k)` |
| IterativeParallelism.BoundMonotonic | java-solutions/info/kgeorgiy/ja/riazanova/iterative/IterativeParallelism.java:151-168 | block bounds never decrease |
| IterativeParallelism.BoundLast | java-solutions/info/kgeorgiy/ja/riazanova/iterative/IterativeParallelism.java:151-168 | the last bound is the selection size, so nothing is dropped at the end |
| IterativeParallelism.BoundInRange | java-solutions/info/kgeorgiy/ja/riazanova/iterative/IterativeParallelism.java:151-168 | with k <= size every block is non-empty and inside the selection |
| IterativeParallelism.Part | java-solutions/info/kgeorgiy/ja/riazanova/iterative/IterativeParallelism.java:157-167 | a block has the planned size and is non-empty |
| IterativeParallelism.Partition | java-solutions/info/kgeorgiy/ja/riazanova/iterative/IterativeParallelism.java:141-171 | there are exactly k blocks, each non-empty |
| IterativeParallelism.PartitionSizes | java-solutions/info/kgeorgiy/ja/riazanova/iterative/IterativeParallelism.java:146-161 | the first `size % k` blocks have `size / k + 1` values, the rest `size / k`; any two sizes differ by at most one |
| IterativeParallelism.PartitionPrefix | java-solutions/info/kgeorgiy/ja/riazanova/iterative/IterativeParallelism.java:151-168 | the first j blocks, concatenated, are the selection's prefix up to the j-th bound |
| IterativeParallelism.PartitionCovers | java-solutions/info/kgeorgiy/ja/riazanova/iterative/IterativeParallelism.java:141-171 | the blocks, concatenated in order, are exactly the selection |
| IterativeParallelism.PartitionTenOnThree | java-solutions/info/kgeorgiy/ja/riazanova/iterative/IterativeParallelism.java:146-168 | ten values on three threads split as 4, 3 and 3 |
| IterativeParallelism.PartitionExtend | java-solutions/info/kgeorgiy/ja/riazanova/iterative/IterativeParallelism.java:163-167 | one more pass of the loop appends the next block of the partition |
| IterativeParallelism.GetSubStreams | java-solutions/info/kgeorgiy/ja/riazanova/iterative/IterativeParallelism.java:141-171 | the loop returns the partition of the strided selection into min(size, threads) blocks; an empty list divides by zero |
| IterativeParallelism.Filled | java-solutions/info/kgeorgiy/ja/riazanova/iterative/IterativeParallelism.java:189-199 | every result slot filled by a worker yields its value, in slot order |
| IterativeParallelism.Process | java-solutions/info/kgeorgiy/ja/riazanova/iterative/IterativeParallelism.java:173-211 | the result is the final reduction of the per-block results, in block order, whichever mode runs the blocks |
| IterativeParallelism.MaxOfPartitionMaxima | java-solutions/info/kgeorgiy/ja/riazanova/iterative/IterativeParallelism.java:47-53 | the maximum of the block maxima is the maximum of all values, the first one among equals |
| IterativeParallelism.Maximum | java-solutions/info/kgeorgiy/ja/riazanova/iterative/IterativeParallelism.java:39-54 | NoSuchElement for no values; otherwise the first maximal selected value under the comparator |
| IterativeParallelism.Minimum | java-solutions/info/kgeorgiy/ja/riazanova/iterative/IterativeParallelism.java:68-73 | NoSuchElement for no values; otherwise the maximum under the reversed comparator |
| IterativeParallelism.AllOfPartitions | java-solutions/info/kgeorgiy/ja/riazanova/iterative/IterativeParallelism.java:90-96 | all-match of the block results equals all-match over the whole selection |
| IterativeParallelism.AllMatch | java-solutions/info/kgeorgiy/ja/riazanova/iterative/IterativeParallelism.java:93-94 | `Stream.allMatch`: every value satisfies the predicate; AllOfPartitions relates the block results to the whole selection |
| IterativeParallelism.All | java-solutions/info/kgeorgiy/ja/riazanova/iterative/IterativeParallelism.java:86-98 | for a non-empty list, true iff every selected value satisfies the predicate; division by zero for no values |
| IterativeParallelism.Any | java-solutions/info/kgeorgiy/ja/riazanova/iterative/IterativeParallelism.java:111-116 | for a non-empty list, true iff some selected value satisfies the predicate; division by zero for no values |
| IterativeParallelism.CountAppend | java-solutions/info/kgeorgiy/ja/riazanova/iterative/IterativeParallelism.java:133-138 | counting is additive over concatenation |
| IterativeParallelism.CountMatching | java-solutions/info/kgeorgiy/ja/riazanova/iterative/IterativeParallelism.java:136 | `filter(predicate).count()`: never more than the number of values; CountAppend and CountAllAgree state the rest |
| IterativeParallelism.Sum | java-solutions/info/kgeorgiy/ja/riazanova/iterative/IterativeParallelism.java:137 | `reduce(0, Integer::sum)`: the sum of the block counts, left to right; SumOfPartitionCounts ties it to the whole count |
| IterativeParallelism.CountAllAgree | java-solutions/info/kgeorgiy/ja/riazanova/iterative/IterativeParallelism.java:129-139 | the count equals the length exactly when all values match |
| IterativeParallelism.SumOfPartitionCounts | java-solutions/info/kgeorgiy/ja/riazanova/iterative/IterativeParallelism.java:133-138 | the sum of the block counts is the count over the whole selection |
| IterativeParallelism.Count | java-solutions/info/kgeorgiy/ja/riazanova/iterative/IterativeParallelism.java:129-139 | for a non-empty list, the number of selected values satisfying the predicate; division by zero for no values |
| ArraySets.New | java-solutions/info/kgeorgiy/ja/riazanova/arrayset/ArraySet.java:28-33 | the elements are strictly sorted, come from the collection, include an equal of every collection value, and number the distinct values |
| ArraySets.Empty | java-solutions/info/kgeorgiy/ja/riazanova/arrayset/ArraySet.java:9-12 | an empty set with natural ordering |
| ArraySets.FromCollection | java-solutions/info/kgeorgiy/ja/riazanova/arrayset/ArraySet.java:14-16 | the collection's distinct values under natural ordering, strictly sorted |
| ArraySets.WithComparator | java-solutions/info/kgeorgiy/ja/riazanova/arrayset/ArraySet.java:18-20 | an empty set ordered by the given comparator |
| ArraySets.CopyAgrees | java-solutions/info/kgeorgiy/ja/riazanova/arrayset/ArraySet.java:22-26 | a copy of a valid set is valid and answers size, contains, find, first, last, headSet and tailSet exactly as the original |
| ArraySets.SizeOfNew | java-solutions/info/kgeorgiy/ja/riazanova/arrayset/ArraySet.java:28-33 | a new set's size is the number of distinct values of the collection under its ordering |
| ArraySets.Search | java-solutions/info/kgeorgiy/ja/riazanova/arrayset/ArraySet.java:102 | the binary search result lies in `-(n+1) .. n-1` |
| ArraySets.BinarySearch | java-solutions/info/kgeorgiy/ja/riazanova/arrayset/ArraySet.java:102 | the binary search result lies in `-(n+1) .. n-1` |
| ArraySets.SortedKeyMonotone | java-solutions/info/kgeorgiy/ja/riazanova/arrayset/ArraySet.java:102 | on a strictly sorted list, the comparison with a key changes sign at most once |
| ArraySets.SearchSpec | java-solutions/info/kgeorgiy/ja/riazanova/arrayset/ArraySet.java:102 | a non-negative result indexes an equal element; a negative one encodes the insertion point |
| ArraySets.BinarySearchSpec | java-solutions/info/kgeorgiy/ja/riazanova/arrayset/ArraySet.java:102 | the same for the whole sorted list |
| ArraySets.Find | java-solutions/info/kgeorgiy/ja/riazanova/arrayset/ArraySet.java:101-109 | find returns the insertion point: all elements before it are smaller, all after are not; an equal element exists iff it is at that index |
| ArraySets.FindMonotonic | java-solutions/info/kgeorgiy/ja/riazanova/arrayset/ArraySet.java:65-66 | find is monotone, so subSet's from index never exceeds its to index |
| ArraySets.Contains | java-solutions/info/kgeorgiy/ja/riazanova/arrayset/ArraySet.java:113-115 | contains holds iff some element compares equal |
| ArraySets.View | java-solutions/info/kgeorgiy/ja/riazanova/arrayset/ArraySet.java:68 | a slice keeps the comparator and stays a valid set |
| ArraySets.HeadSet | java-solutions/info/kgeorgiy/ja/riazanova/arrayset/ArraySet.java:72-75 | exactly the elements strictly below toElement |
| ArraySets.TailSet | java-solutions/info/kgeorgiy/ja/riazanova/arrayset/ArraySet.java:78-81 | exactly the elements at or above fromElement |
| ArraySets.NaturalPairMisordered | java-solutions/info/kgeorgiy/ja/riazanova/arrayset/ArraySet.java:52-58 | the null-comparator branch: sort [from, to] naturally and ask whether from has left the front; NaturalPairMisorderedAgrees shows this is from > to |
| ArraySets.NaturalPairMisorderedAgrees | java-solutions/info/kgeorgiy/ja/riazanova/arrayset/ArraySet.java:52-58 | stably sorting [from, to] naturally moves `to` to the front iff from compares above to |
| ArraySets.SubSet | java-solutions/info/kgeorgiy/ja/riazanova/arrayset/ArraySet.java:51-69 | IllegalArgument iff from > to; otherwise exactly the elements in [from, to) |
| ArraySets.Between | java-solutions/info/kgeorgiy/ja/riazanova/arrayset/ArraySet.java:65-68 | the slice between the two find results is exactly the elements in [from, to) |
| ArraySets.First | java-solutions/info/kgeorgiy/ja/riazanova/arrayset/ArraySet.java:84-87 | NoSuchElement for the empty set; otherwise a member not above any other |
| ArraySets.Last | java-solutions/info/kgeorgiy/ja/riazanova/arrayset/ArraySet.java:90-93 | NoSuchElement for the empty set; otherwise a member not below any other |
| Walk.Widen | java-solutions/info/kgeorgiy/ja/riazanova/walk/Walk.java:88 | Java's byte-to-int widening copies the sign bit |
| Walk.Unsigned | java-solutions/info/kgeorgiy/ja/riazanova/walk/Walk.java:88 | `& 0xff` gives the byte's unsigned value, below 256 |
| Walk.Step | java-solutions/info/kgeorgiy/ja/riazanova/walk/Walk.java:87-91 | one byte's mixing step of the one-at-a-time hash, in wrapping 32-bit arithmetic with `>>>`; AccumulateAppend and ZeroBytesKeepZero state its properties |
| Walk.Finish | java-solutions/info/kgeorgiy/ja/riazanova/walk/Walk.java:95-97 | the three final mixing steps; EmptyFileHashIsInvalidHash shows they keep zero at zero |
| Walk.Hash | java-solutions/info/kgeorgiy/ja/riazanova/walk/Walk.java:85-97 | every byte of the content mixed in order, then finished; ChunkingIrrelevant shows the buffer reads do not change it |
| Walk.AccumulateAppend | java-solutions/info/kgeorgiy/ja/riazanova/walk/Walk.java:85-94 | mixing a + b is mixing a, then b |
| Walk.AccumulateChunksNext | java-solutions/info/kgeorgiy/ja/riazanova/walk/Walk.java:85-94 | one more buffer read continues the hash over that chunk |
| Walk.ChunkingIrrelevant | java-solutions/info/kgeorgiy/ja/riazanova/walk/Walk.java:85-94 | the hash does not depend on how the reads split the file |
| Walk.ZeroBytesKeepZero | java-solutions/info/kgeorgiy/ja/riazanova/walk/Walk.java:87-91 | zero bytes leave a zero hash unchanged |
| Walk.EmptyFileHashIsInvalidHash | java-solutions/info/kgeorgiy/ja/riazanova/walk/Walk.java:9 | a file of zero bytes (empty included) hashes to INVALID_HASH, so the printed line cannot tell it from a failure |
| Walk.HexDigit | java-solutions/info/kgeorgiy/ja/riazanova/walk/Walk.java:99 | each nibble becomes a lowercase hexadecimal digit |
| Walk.DigitValue | java-solutions/info/kgeorgiy/ja/riazanova/walk/Walk.java:99 | a hexadecimal digit has a value below 16 |
| Walk.DigitRoundTrip | java-solutions/info/kgeorgiy/ja/riazanova/walk/Walk.java:99 | reading a digit back gives its nibble |
| Walk.Format | java-solutions/info/kgeorgiy/ja/riazanova/walk/Walk.java:99 | `%08x` gives exactly eight hexadecimal digits |
| Walk.NibblesRebuild | java-solutions/info/kgeorgiy/ja/riazanova/walk/Walk.java:99 | the eight nibbles rebuild the 32-bit value |
| Walk.FormatRoundTrip | java-solutions/info/kgeorgiy/ja/riazanova/walk/Walk.java:99 | parsing the eight digits gives back the hash |
| Walk.ZeroFormat | java-solutions/info/kgeorgiy/ja/riazanova/walk/Walk.java:9 | zero formats as INVALID_HASH |
| Walk.HashLine | java-solutions/info/kgeorgiy/ja/riazanova/walk/Walk.java:79-103 | INVALID_HASH for a file that cannot be opened or fails while read, else `%08x` of the hash; CountHash computes it with the buffered loop |
| Walk.CountHash | java-solutions/info/kgeorgiy/ja/riazanova/walk/Walk.java:79-103 | the buffered loop and the finaliser compute the hash of the file's content; failures give INVALID_HASH; the result is always eight hex digits |
| Walk.WriteHashes | java-solutions/info/kgeorgiy/ja/riazanova/walk/Walk.java:67-70 | one output line per input name, in order |
| Walk.OutputLine | java-solutions/info/kgeorgiy/ja/riazanova/walk/Walk.java:68 | the hash line, a space, the name and the line separator; OutputLineShape states its shape |
| Walk.OutputLineShape | java-solutions/info/kgeorgiy/ja/riazanova/walk/Walk.java:68 | a line is eight hex digits, a space, the name, then the line separator |
| JavaStrings.CodeUnits | java-solutions/info/kgeorgiy/ja/riazanova/implementor/Implementor.java:573 | a character is one or two UTF-16 units; it is ASCII iff it is one unit below 128 |
| JavaStrings.Utf16 | java-solutions/info/kgeorgiy/ja/riazanova/implementor/Implementor.java:573 | `toCharArray`: the characters' code units in order, at least one per character |
| JavaStrings.CodeUnitsShape | java-solutions/info/kgeorgiy/ja/riazanova/implementor/Implementor.java:573 | a character takes two units exactly when its last unit is a low surrogate |
| JavaStrings.CodeUnitsInjective | java-solutions/info/kgeorgiy/ja/riazanova/student/StudentDB.java:15-16 | different characters have different code units |
| JavaStrings.Utf16Append | java-solutions/info/kgeorgiy/ja/riazanova/implementor/Implementor.java:573 | the units of a concatenation are the units of the parts, concatenated |
| JavaStrings.Utf16Injective | java-solutions/info/kgeorgiy/ja/riazanova/student/StudentDB.java:15-16 | different strings have different units, so comparing the units of names loses nothing |
| Comparators.Reversed | java-solutions/info/kgeorgiy/ja/riazanova/iterative/IterativeParallelism.java:72 | `comparator.reversed()` compares with the arguments swapped |
| Comparators.ReversedIsComparator | java-solutions/info/kgeorgiy/ja/riazanova/iterative/IterativeParallelism.java:72 | `comparator.reversed()` satisfies the comparator contract |
| Comparators.ComparingIsComparator | java-solutions/info/kgeorgiy/ja/riazanova/student/StudentDB.java:14-21 | comparing by a key keeps the contract |
| Comparators.ThenComparingIsComparator | java-solutions/info/kgeorgiy/ja/riazanova/student/StudentDB.java:14-18 | thenComparing keeps the contract |
| Comparators.IntCompare | java-solutions/info/kgeorgiy/ja/riazanova/student/StudentDB.java:21 | `Integer.compare` gives the sign of the difference |
| Comparators.IntCompareIsComparator | java-solutions/info/kgeorgiy/ja/riazanova/student/StudentDB.java:21 | Integer.compare satisfies the contract |
| Comparators.LexCompareZero | java-solutions/info/kgeorgiy/ja/riazanova/student/StudentDB.java:15-16 | lexicographic comparison through an injective key is zero exactly for equal sequences |
| Comparators.LexCompareAntisymmetric | java-solutions/info/kgeorgiy/ja/riazanova/student/StudentDB.java:15-16 | lexicographic comparison flips sign when the arguments swap |
| Comparators.LexCompareTransitive | java-solutions/info/kgeorgiy/ja/riazanova/student/StudentDB.java:15-16 | lexicographic comparison is transitive |
| Comparators.StringCompare | java-solutions/info/kgeorgiy/ja/riazanova/student/StudentDB.java:15-16 | `String.compareTo`: the lexicographic comparison of the UTF-16 code units, the difference of the first differing units or else of the lengths; its contract is in the four lemmas below |
| Comparators.StringCompareZero | java-solutions/info/kgeorgiy/ja/riazanova/student/StudentDB.java:15-16 | `String.compareTo`, which compares UTF-16 code units, is zero exactly for equal strings |
| Comparators.StringCompareAntisymmetric | java-solutions/info/kgeorgiy/ja/riazanova/student/StudentDB.java:15-16 | String.compareTo over UTF-16 units flips sign when the arguments swap |
| Comparators.StringCompareTransitive | java-solutions/info/kgeorgiy/ja/riazanova/student/StudentDB.java:15-16 | String.compareTo over UTF-16 units is transitive |
| Comparators.StringCompareIsComparator | java-solutions/info/kgeorgiy/ja/riazanova/student/StudentDB.java:15-16 | String.compareTo over UTF-16 units satisfies the contract |
| Comparators.CodePointCompareZero | java-solutions/info/kgeorgiy/ja/riazanova/student/StudentDB.java:68 | comparing code point by code point is zero exactly for equal strings |
| Comparators.CodePointCompareAntisymmetric | java-solutions/info/kgeorgiy/ja/riazanova/student/StudentDB.java:68 | the code point comparison flips sign when the arguments swap |
| Comparators.CodePointCompareTransitive | java-solutions/info/kgeorgiy/ja/riazanova/student/StudentDB.java:68 | the code point comparison is transitive |
| Comparators.SupplementarySortsBySurrogate | java-solutions/info/kgeorgiy/ja/riazanova/student/StudentDB.java:15-16 | U+FFFF sorts after U+1F600 under String.compareTo, by its high surrogate, but before it by code point |
| Comparators.PickMax | java-solutions/info/kgeorgiy/ja/riazanova/iterative/IterativeParallelism.java:50-51 | the maxBy step returns one of its two operands, the left one unless the right is strictly greater |
| Comparators.MaxBy | java-solutions/info/kgeorgiy/ja/riazanova/iterative/IterativeParallelism.java:50-51 | `Stream.max` returns a member of the stream; MaxByIsFirstMaximum: the first maximal one |
| Comparators.MaxByIsFirstMaximum | java-solutions/info/kgeorgiy/ja/riazanova/student/StudentDB.java:72-78 | `Stream.max` returns a maximal member, and the first of several maximal ones |
| Comparators.FirstMaximumOfReversed | java-solutions/info/kgeorgiy/ja/riazanova/iterative/IterativeParallelism.java:68-73 | the first maximum under the reversed order is the first minimum |
| Comparators.MaxByReversedIsFirstMinimum | java-solutions/info/kgeorgiy/ja/riazanova/iterative/IterativeParallelism.java:68-73 | minimum is the first minimal value |
| Comparators.FirstMaximumUnique | java-solutions/info/kgeorgiy/ja/riazanova/iterative/IterativeParallelism.java:39-54 | the first maximum is unique |
| Comparators.MaxByAppend | java-solutions/info/kgeorgiy/ja/riazanova/iterative/IterativeParallelism.java:47-53 | the maximum of a + b is the pairwise max of the two maxima |
| TreeSets.Add | java-solutions/info/kgeorgiy/ja/riazanova/arrayset/ArraySet.java:29-30 | `TreeSet.add` grows the set by at most one element; AddSpec states which |
| TreeSets.AddAll | java-solutions/info/kgeorgiy/ja/riazanova/arrayset/ArraySet.java:29-31 | addAll adds at most one element per collection value; AddAllSpec states which |
| TreeSets.AddSpec | java-solutions/info/kgeorgiy/ja/riazanova/arrayset/ArraySet.java:29-30 | `TreeSet.add` keeps the set sorted, and leaves it alone when an equal element is present; otherwise it grows by exactly x |
| TreeSets.AddAllSpec | java-solutions/info/kgeorgiy/ja/riazanova/arrayset/ArraySet.java:29-31 | addAll keeps the set sorted, keeps its elements, adds only collection values, and holds an equal of each |
| TreeSets.AddGreatest | java-solutions/info/kgeorgiy/ja/riazanova/arrayset/ArraySet.java:29-30 | adding a value above every element appends it |
| TreeSets.AddAllSorted | java-solutions/info/kgeorgiy/ja/riazanova/arrayset/ArraySet.java:29-31 | adding an already strictly sorted list gives that list |
| TreeSets.StrictlySortedDistinct | java-solutions/info/kgeorgiy/ja/riazanova/arrayset/ArraySet.java:29-31 | a strictly sorted list holds no two equal elements |
| TreeSets.HasEqualCovered | java-solutions/info/kgeorgiy/ja/riazanova/arrayset/ArraySet.java:113-115 | membership by equality in the set agrees with membership in the source collection |
| TreeSets.AddAllSize | java-solutions/info/kgeorgiy/ja/riazanova/arrayset/ArraySet.java:29-33 | the set's size is the number of distinct collection values |
| Sorting.Insert | java-solutions/info/kgeorgiy/ja/riazanova/student/StudentDB.java:37-41 | one insertion step of the stable sort grows the list by one; InsertPermutation, InsertSorted and InsertRun state the rest |
| Sorting.Sort | java-solutions/info/kgeorgiy/ja/riazanova/student/StudentDB.java:37-41 | `sorted` keeps the length; SortPermutation, SortSorted and SortStable state the rest |
| Sorting.EqualRunFilter | java-solutions/info/kgeorgiy/ja/riazanova/student/StudentDB.java:23-28 | filtering commutes with taking the elements equal to e in order, which gives stability through a filter |
| Sorting.InsertPermutation | java-solutions/info/kgeorgiy/ja/riazanova/student/StudentDB.java:37-41 | inserting adds exactly one occurrence of x |
| Sorting.SortPermutation | java-solutions/info/kgeorgiy/ja/riazanova/student/StudentDB.java:37-41 | `sorted` returns a permutation of its input |
| Sorting.SortSorted | java-solutions/info/kgeorgiy/ja/riazanova/student/StudentDB.java:37-41 | `sorted` returns a list ordered by the comparator |
| Sorting.InsertSorted | java-solutions/info/kgeorgiy/ja/riazanova/student/StudentDB.java:37-41 | inserting into a sorted list keeps it sorted |
| Sorting.InsertRun | java-solutions/info/kgeorgiy/ja/riazanova/student/StudentDB.java:37-41 | inserting x appends it after all elements equal to it |
| Sorting.SortStable | java-solutions/info/kgeorgiy/ja/riazanova/student/StudentDB.java:37-41 | `sorted` is stable: elements that compare equal keep their order |
| Sorting.SortOfSorted | java-solutions/info/kgeorgiy/ja/riazanova/student/StudentDB.java:37-41 | sorting a sorted list changes nothing |
| StudentDB.ById | java-solutions/info/kgeorgiy/ja/riazanova/student/StudentDB.java:21 | `comparingInt(getId)`; ByIdIsComparator states its order |
| StudentDB.ByIdIsComparator | java-solutions/info/kgeorgiy/ja/riazanova/student/StudentDB.java:21 | the id order is a comparator, and it says a is not above b exactly when a.id <= b.id |
| StudentDB.ByName | java-solutions/info/kgeorgiy/ja/riazanova/student/StudentDB.java:14-18 | last name, then first name, then id reversed; ByNameOrder and ByNameIsComparator state its order |
| StudentDB.RunAllOrNothing | java-solutions/info/kgeorgiy/ja/riazanova/student/StudentDB.java:91-103 | a predicate that cannot tell name-equal students apart keeps all of them in order, or none |
| StudentDB.ByNameIsComparator | java-solutions/info/kgeorgiy/ja/riazanova/student/StudentDB.java:14-18 | the name order is a comparator |
| StudentDB.ByNameOrder | java-solutions/info/kgeorgiy/ja/riazanova/student/StudentDB.java:14-18 | the order is last name, then first name (each by String.compareTo over UTF-16 units), then descending id; equal exactly when all three agree |
| StudentDB.GetSmth | java-solutions/info/kgeorgiy/ja/riazanova/student/StudentDB.java:30-35 | mapping keeps length and order, value by value |
| StudentDB.SortStudentsBySmth | java-solutions/info/kgeorgiy/ja/riazanova/student/StudentDB.java:37-41 | a permutation, sorted by the comparator, and stable |
| StudentDB.FindStudentsBySmth | java-solutions/info/kgeorgiy/ja/riazanova/student/StudentDB.java:23-28 | exactly the matching students with their multiplicities, sorted by name; stable: for every student e, the students name-equal to e are the matching ones among the input's, in input order |
| StudentDB.GetFirstNames | java-solutions/info/kgeorgiy/ja/riazanova/student/StudentDB.java:44-46 | the first names, in order |
| StudentDB.GetLastNames | java-solutions/info/kgeorgiy/ja/riazanova/student/StudentDB.java:49-51 | the last names, in order |
| StudentDB.GetGroups | java-solutions/info/kgeorgiy/ja/riazanova/student/StudentDB.java:54-56 | the groups, in order |
| StudentDB.GetFullNames | java-solutions/info/kgeorgiy/ja/riazanova/student/StudentDB.java:59-61 | each entry is first name, a space, then last name |
| StudentDB.FoldCase | java-solutions/info/kgeorgiy/ja/riazanova/student/StudentDB.java:68 | case folding keeps the length |
| StudentDB.CompareIgnoreCase | java-solutions/info/kgeorgiy/ja/riazanova/student/StudentDB.java:68 | `CASE_INSENSITIVE_ORDER` over ASCII case mapping; CompareIgnoreCaseFolds ties it to the folded strings |
| StudentDB.CompareIgnoreCaseFolds | java-solutions/info/kgeorgiy/ja/riazanova/student/StudentDB.java:68 | `CASE_INSENSITIVE_ORDER` compares the case-folded strings code point by code point |
| StudentDB.CompareIgnoreCaseIsComparator | java-solutions/info/kgeorgiy/ja/riazanova/student/StudentDB.java:68 | CASE_INSENSITIVE_ORDER satisfies the comparator contract |
| StudentDB.CompareIgnoreCaseZero | java-solutions/info/kgeorgiy/ja/riazanova/student/StudentDB.java:68 | two names compare equal exactly when they fold to the same string |
| StudentDB.CaseInsensitiveSet | java-solutions/info/kgeorgiy/ja/riazanova/student/StudentDB.java:64-69 | the TreeSet is strictly sorted ignoring case, holds only given names and holds an equal of each |
| StudentDB.FoldsDistinct | java-solutions/info/kgeorgiy/ja/riazanova/student/StudentDB.java:64-69 | no two entries of the set differ only in case |
| StudentDB.NamesOfStudents | java-solutions/info/kgeorgiy/ja/riazanova/student/StudentDB.java:64-69 | every entry is some student's first name |
| StudentDB.StudentsCovered | java-solutions/info/kgeorgiy/ja/riazanova/student/StudentDB.java:64-69 | every student's first name is present, up to case |
| StudentDB.GetDistinctFirstNames | java-solutions/info/kgeorgiy/ja/riazanova/student/StudentDB.java:64-69 | sorted ignoring case, no two entries equal ignoring case, each entry some student's first name, every student's first name present up to case |
| StudentDB.GetMaxStudentFirstName | java-solutions/info/kgeorgiy/ja/riazanova/student/StudentDB.java:72-78 | "" with no students; otherwise the first name of the first student with the largest id |
| StudentDB.SortStudentsById | java-solutions/info/kgeorgiy/ja/riazanova/student/StudentDB.java:81-83 | a permutation with ascending ids, stable among equal ids |
| StudentDB.SortStudentsByName | java-solutions/info/kgeorgiy/ja/riazanova/student/StudentDB.java:86-88 | a permutation sorted by the name order; stable: students that are equal under it keep their input order |
| StudentDB.FindStudentsByLastName | java-solutions/info/kgeorgiy/ja/riazanova/student/StudentDB.java:91-93 | exactly the students with that last name, sorted by name; name-equal students keep their input order |
| StudentDB.InGroup | java-solutions/info/kgeorgiy/ja/riazanova/student/StudentDB.java:96-98 | the predicate that keeps the students of one group |
| StudentDB.FindStudentsByGroup | java-solutions/info/kgeorgiy/ja/riazanova/student/StudentDB.java:96-98 | exactly the students of that group, sorted by name; name-equal students of the group keep their input order |
| StudentDB.FindStudentsByFirstName | java-solutions/info/kgeorgiy/ja/riazanova/student/StudentDB.java:101-103 | exactly the students with that first name, sorted by name; name-equal students keep their input order |
| StudentDB.PickMinByFirstName | java-solutions/info/kgeorgiy/ja/riazanova/student/StudentDB.java:113 | the minBy step keeps the left student unless the right one's first name is strictly less; PutMinimal states its effect |
| StudentDB.Put | java-solutions/info/kgeorgiy/ja/riazanova/student/StudentDB.java:110-113 | one groupingBy accumulation step; PutKeys, PutValues and PutMinimal state its effect |
| StudentDB.GroupByLastName | java-solutions/info/kgeorgiy/ja/riazanova/student/StudentDB.java:109-117 | groupingBy(getLastName, minBy) over the stream in order; GroupByLastNameSpec states the result |
| StudentDB.PutKeys | java-solutions/info/kgeorgiy/ja/riazanova/student/StudentDB.java:110-111 | adding a student to a group map keeps the keys exactly the last names seen |
| StudentDB.PutValues | java-solutions/info/kgeorgiy/ja/riazanova/student/StudentDB.java:112-113 | adding a student keeps every value a student seen under its key |
| StudentDB.PutMinimal | java-solutions/info/kgeorgiy/ja/riazanova/student/StudentDB.java:113 | adding a student keeps each value the minimum by first name under String.compareTo (UTF-16 order) |
| StudentDB.GroupByLastNameSpec | java-solutions/info/kgeorgiy/ja/riazanova/student/StudentDB.java:109-117 | groupingBy with minBy: keys are exactly the last names, each value a student with that last name whose first name is least under String.compareTo |
| StudentDB.FirstNamesOf | java-solutions/info/kgeorgiy/ja/riazanova/student/StudentDB.java:114 | mapping each group's minimum to its first name keeps the keys |
| StudentDB.NamesByGroupSpec | java-solutions/info/kgeorgiy/ja/riazanova/student/StudentDB.java:106-118 | the same, in terms of the filtered students, with String.compareTo's UTF-16 order |
| StudentDB.FindStudentNamesByGroup | java-solutions/info/kgeorgiy/ja/riazanova/student/StudentDB.java:106-118 | keys are exactly the group's last names; each value is the least first name, under String.compareTo, among that group's students with that last name |
| Implementor.Check | java-solutions/info/kgeorgiy/ja/riazanova/implementor/Implementor.java:503-506 | a method needs an implementation when it is neither default nor static; ImplementedMethods applies it |
| Implementor.CheckIfTokenIsImplementable | java-solutions/info/kgeorgiy/ja/riazanova/implementor/Implementor.java:481-495 | no error exactly for a non-private interface; otherwise null token, not an interface, or private interface, checked in that order |
| Implementor.ImplementedMethods | java-solutions/info/kgeorgiy/ja/riazanova/implementor/Implementor.java:211-212 | exactly the methods that are neither default nor static, with multiplicity and in order |
| Implementor.NatToString | java-solutions/info/kgeorgiy/ja/riazanova/implementor/Implementor.java:445 | the parameter index is a non-empty decimal numeral |
| Implementor.NatToStringRoundTrip | java-solutions/info/kgeorgiy/ja/riazanova/implementor/Implementor.java:445 | the numeral parses back to the index |
| Implementor.HexDigitUpper | java-solutions/info/kgeorgiy/ja/riazanova/implementor/Implementor.java:575 | `%X` digits are upper-case hexadecimal, ASCII, with the given value |
| Implementor.Hex4 | java-solutions/info/kgeorgiy/ja/riazanova/implementor/Implementor.java:575 | `%04X` gives four digits |
| Implementor.Hex4Digits | java-solutions/info/kgeorgiy/ja/riazanova/implementor/Implementor.java:575 | all four are ASCII hexadecimal digits |
| Implementor.Hex4RoundTrip | java-solutions/info/kgeorgiy/ja/riazanova/implementor/Implementor.java:575 | the four digits read as a base-16 number give back the code unit |
| Implementor.EscapeUnit | java-solutions/info/kgeorgiy/ja/riazanova/implementor/Implementor.java:574-578 | the escape of one code unit; EscapeUnitSpec states it |
| Implementor.EscapeUnitSpec | java-solutions/info/kgeorgiy/ja/riazanova/implementor/Implementor.java:574-578 | a unit below 128 is copied, any other becomes a backslash, `u` and four hex digits of its value; the output is ASCII |
| Implementor.ToUnicode | java-solutions/info/kgeorgiy/ja/riazanova/implementor/Implementor.java:570-582 | the loop's output is the escape of the input's UTF-16 units, and it is pure ASCII |
| Implementor.EscapeIsAscii | java-solutions/info/kgeorgiy/ja/riazanova/implementor/Implementor.java:570-582 | escaping always gives ASCII |
| Implementor.EscapeAppend | java-solutions/info/kgeorgiy/ja/riazanova/implementor/Implementor.java:573-579 | escaping distributes over concatenation |
| Implementor.EscapeOne | java-solutions/info/kgeorgiy/ja/riazanova/implementor/Implementor.java:573-579 | escaping one unit is that unit's escape |
| Implementor.EscapeChar | java-solutions/info/kgeorgiy/ja/riazanova/implementor/Implementor.java:573-579 | an ASCII character escapes to itself, any other to at least six characters |
| Implementor.EscapeLength | java-solutions/info/kgeorgiy/ja/riazanova/implementor/Implementor.java:570-582 | escaping never shortens; ASCII input is unchanged; otherwise it grows by at least five |
| Implementor.ToUnicodeIdentity | java-solutions/info/kgeorgiy/ja/riazanova/implementor/Implementor.java:570-582 | toUnicode leaves a string unchanged exactly when it is ASCII |
| Implementor.UnjoinJoin | java-solutions/info/kgeorgiy/ja/riazanova/implementor/Implementor.java:445 | parts without commas are recovered from their ", " join |
| Implementor.Declarations | java-solutions/info/kgeorgiy/ja/riazanova/implementor/Implementor.java:440-446 | the i-th declaration is the type name, a space, and `a` followed by i |
| Implementor.PackageLine | java-solutions/info/kgeorgiy/ja/riazanova/implementor/Implementor.java:343-351 | the package line and a blank line; PackageLineSpec states it |
| Implementor.ClassHeader | java-solutions/info/kgeorgiy/ja/riazanova/implementor/Implementor.java:359-369 | the class header line; WriteClassName appends it |
| Implementor.PackageLineSpec | java-solutions/info/kgeorgiy/ja/riazanova/implementor/Implementor.java:343-351 | nothing for the default package; otherwise `package `, the name and `;` |
| Implementor.ParameterNamesDistinct | java-solutions/info/kgeorgiy/ja/riazanova/implementor/Implementor.java:445 | parameter names are equal exactly when their indices are |
| Implementor.ParameterListRoundTrip | java-solutions/info/kgeorgiy/ja/riazanova/implementor/Implementor.java:440-447 | the parameter declarations are recovered from the joined list |
| Implementor.ThrowsClause | java-solutions/info/kgeorgiy/ja/riazanova/implementor/Implementor.java:455-463 | the throws clause and the opening brace; ThrowsClauseSpec states it |
| Implementor.ReturnLine | java-solutions/info/kgeorgiy/ja/riazanova/implementor/Implementor.java:377-396 | nothing for void; else `return` with ` false` for boolean, ` 0` for other primitives, ` null` for references; WriteReturn appends it |
| Implementor.ThrowsClauseSpec | java-solutions/info/kgeorgiy/ja/riazanova/implementor/Implementor.java:455-463 | only `{` and a line separator without exceptions; otherwise `throws `, the joined names (which split back), then `{` |
| Implementor.ReplaceChar | java-solutions/info/kgeorgiy/ja/riazanova/implementor/Implementor.java:296 | `replace` changes every occurrence and nothing else |
| Implementor.JarEntryName | java-solutions/info/kgeorgiy/ja/riazanova/implementor/Implementor.java:296-299 | the package path, a slash unless the package is empty, and the class file name; JarEntryNameRoundTrip inverts it |
| Implementor.JarEntryNameRoundTrip | java-solutions/info/kgeorgiy/ja/riazanova/implementor/Implementor.java:296-299 | the package and the simple name are recovered from the jar entry name |
| Implementor.ParseArguments | java-solutions/info/kgeorgiy/ja/riazanova/implementor/Implementor.java:591-616 | success iff the arguments are present, two or three, none null, and with three the first is `-jar`; then class name and path are the last two; otherwise the first failing check gives its error: no array, a wrong count, a null entry, then a wrong `-jar` key |
| Implementor.SourceBuilder.constructor | java-solutions/info/kgeorgiy/ja/riazanova/implementor/Implementor.java:206 | an empty builder with the given line separator |
| Implementor.SourceBuilder.WritePackage | java-solutions/info/kgeorgiy/ja/riazanova/implementor/Implementor.java:343-351 | appends the package line |
| Implementor.SourceBuilder.WriteClassName | java-solutions/info/kgeorgiy/ja/riazanova/implementor/Implementor.java:359-369 | appends `public class <Simple>Impl implements <Canonical> {` and a line separator |
| Implementor.SourceBuilder.WriteOverride | java-solutions/info/kgeorgiy/ja/riazanova/implementor/Implementor.java:412-417 | appends the @Override line |
| Implementor.SourceBuilder.WriteBeginningOfMethod | java-solutions/info/kgeorgiy/ja/riazanova/implementor/Implementor.java:425-432 | appends the modifier, return type and name |
| Implementor.SourceBuilder.WriteMethodParameters | java-solutions/info/kgeorgiy/ja/riazanova/implementor/Implementor.java:440-447 | the loop appends the parenthesised, comma-joined parameter declarations |
| Implementor.SourceBuilder.WriteMethodThrows | java-solutions/info/kgeorgiy/ja/riazanova/implementor/Implementor.java:455-463 | appends the throws clause and the opening brace |
| Implementor.SourceBuilder.WriteReturn | java-solutions/info/kgeorgiy/ja/riazanova/implementor/Implementor.java:377-396 | appends the return line, or nothing for void |
| Implementor.SourceBuilder.WriteMethod | java-solutions/info/kgeorgiy/ja/riazanova/implementor/Implementor.java:213-220 | appends one method's whole text |
| Implementor.SourceBuilder.WriteMethods | java-solutions/info/kgeorgiy/ja/riazanova/implementor/Implementor.java:211-221 | appends the texts of the methods, in order |
| Implementor.SourceBuilder.EndMethod | java-solutions/info/kgeorgiy/ja/riazanova/implementor/Implementor.java:403-405 | appends the method's closing line |
| Implementor.SourceBuilder.EndClass | java-solutions/info/kgeorgiy/ja/riazanova/implementor/Implementor.java:470-472 | appends the closing brace |
| Implementor.ClassText | java-solutions/info/kgeorgiy/ja/riazanova/implementor/Implementor.java:207-222 | the package line, the header, the implemented methods' texts in order and the closing brace; GenerateSource escapes it |
| Implementor.GenerateSource | java-solutions/info/kgeorgiy/ja/riazanova/implementor/Implementor.java:192-231 | the check's error for an unimplementable token; otherwise the escaped class text |

## Left out

- Concurrency: the worker threads of `process`, `joinThreads`, interruption and `ParallelMapper`. `Mode` only records which one would run, since the combined result does not depend on it.
- IterativeParallelism: a thread count or a step below one is a precondition. The code then divides by zero, loops forever or indexes out of range, and none of that is a documented result.
- IterativeParallelism.Strided: the `i + step` of `IntStream.iterate` is Java `int` arithmetic. Near 2^31 it would wrap to a negative index and `values.get` would throw; the model's integers do not wrap, so that selection simply ends.
- IterativeParallelism.Maximum: `Stream.max` throws `NullPointerException` when the maximum it picks is `null`. Values are never `null` in the model, so that exception is not modelled; the same holds for Minimum.
- IterativeParallelism: Java's `int` overflow in `count`'s sum is not modelled. A list cannot have more than 2^31 - 1 elements.
- ArraySets: the natural ordering of a `null` comparator is passed in as a comparator. `Comparable` is not modelled.
- ArraySets: iteration and the `AbstractSet` methods inherited from the library are not part of this model. `contains` on a value of another type, which throws `ClassCastException`, is not modelled.
- Walk: `main`'s argument and path checks, the reader and writer, and their error messages are I/O. A file is a `FileSource`: unopenable, or a sequence of reads with an optional later failure.
- StudentDB.GetDistinctFirstNames: the model folds case for ASCII letters only. It does not state which of several names differing only in case is kept; Java's TreeSet keeps the first one met.
- StudentDB.CompareIgnoreCase: only ASCII case mapping. Java's `Character.toUpperCase` and `toLowerCase` over all of Unicode are not modelled. Characters are compared as code points, as the JDK does. When one string is a prefix of the other, the model returns the length difference in characters, where the JDK counts UTF-16 units. The sign is the same.
- StudentDB: `Collection` arguments are modelled as sequences in their encounter order. The `Map` returned by `findStudentNamesByGroup` is a Dafny `map`, with no iteration order.
- StudentDB.SortStudentsBySmth: `sorted` is modelled by a stable insertion sort. Its result is pinned down by the permutation, sortedness and stability ensures, not by the algorithm.
- Implementor: reflection is replaced by descriptors (`TokenDesc`, `MethodDesc`, `TypeDesc`). The order of `getMethods()` is the order of `TokenDesc.methods`.
- Implementor: `implement`'s directory creation and file write, `implementJar` apart from its entry name, compilation, the manifest, `clean`, `getClassPath` and the `Class.forName` and `Path.of` calls in `main` are I/O or reflection.
- Implementor: `System.lineSeparator()` is a parameter.
- Implementor.ToUnicode: a Dafny `string` holds Unicode scalar values. Java's UTF-16 `char`s are rebuilt by `JavaStrings.Utf16`, so a supplementary character becomes two surrogate escapes, as in Java.
- Implementor: the `String.format` behaviour modelled is `%04X` on a code unit; nothing else of `String.format` is.
