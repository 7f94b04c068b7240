/**
 * IterativeParallelism: maximum, minimum, all, any and count over a list, computed by taking
 * every step-th element, cutting the selection into at most `threads` contiguous partitions,
 * reducing each partition and then reducing the partial results. The threads (or the
 * ParallelMapper) that run the first stage are replaced by a sequential pass that fills the
 * partial results in partition order.
 */
module IterativeParallelism {
  import opened Wrappers
  import opened Seqs
  import opened Comparators

  /** The exceptions the operations raise. */
  datatype Error =
    | NoSuchElement   // NoSuchElementException: maximum or minimum of an empty list
    | DivisionByZero  // ArithmeticException: size / threads with nothing selected

  /** Built with a ParallelMapper (first stage through mapper.map) or without (thread per partition). */
  datatype Mode = ThreadPerPartition | SharedMapper

  function Min(a: int, b: int): int
  {
    if a <= b then a else b
  }

  /**
   * values[0], values[step], values[2 * step], ... for the indices below |values|, in order:
   * the selection that getSubStreams builds before partitioning.
   */
  function Strided<T>(values: seq<T>, step: int): (r: seq<T>)
    requires step >= 1
    ensures r == [] <==> values == []
    ensures |r| <= |values|
    decreases |values|
  {
    if values == [] then []
    else if |values| <= step then [values[0]]
    else [values[0]] + Strided(values[step..], step)
  }

  /** Selected element i is values[i * step]. */
  lemma {:induction false} StridedAt<T>(values: seq<T>, step: int, i: nat)
    requires step >= 1 && i < |Strided(values, step)|
    ensures i * step < |values| && Strided(values, step)[i] == values[i * step]
    decreases i
  {
    if i > 0 {
      var rest := values[step..];
      assert Strided(values, step) == [values[0]] + Strided(rest, step);
      StridedAt(rest, step, i - 1);
      MulStep(i, step);
      assert (i - 1) * step + step == i * step;
      assert rest[(i - 1) * step] == values[(i - 1) * step + step];
    }
  }

  /** No index below |values| that step divides is skipped: |selection| * step >= |values|. */
  lemma {:induction false} StridedCovers<T>(values: seq<T>, step: int)
    requires step >= 1
    ensures |Strided(values, step)| * step >= |values|
    decreases |values|
  {
    if |values| > step {
      var rest := values[step..];
      assert Strided(values, step) == [values[0]] + Strided(rest, step);
      StridedCovers(rest, step);
      MulStep(|Strided(values, step)|, step);
    }
  }

  /** (i - 1) * c + c == i * c, kept apart so that no larger proof reasons about products. */
  lemma MulStep(i: int, c: int)
    ensures (i - 1) * c + c == i * c
  {
  }

  /** Number of elements of partition i when `size` elements are cut into k partitions. */
  function PartSize(size: nat, k: nat, i: nat): nat
    requires k >= 1
  {
    size / k + (if i < size % k then 1 else 0)
  }

  /** Index where partition i starts: the sizes of the partitions before it, summed. */
  function Bound(size: nat, k: nat, i: nat): nat
    requires k >= 1
  {
    if i == 0 then 0 else Bound(size, k, i - 1) + PartSize(size, k, i - 1)
  }

  /** Partition i starts at i * (size / k) + min(i, size % k). */
  lemma {:induction false} BoundClosedForm(size: nat, k: nat, i: nat)
    requires k >= 1
    ensures Bound(size, k, i) == i * (size / k) + Min(i, size % k)
  {
    if i > 0 {
      BoundClosedForm(size, k, i - 1);
      MulStep(i, size / k);
    }
  }

  lemma {:induction false} BoundMonotonic(size: nat, k: nat, i: nat, j: nat)
    requires k >= 1 && i <= j
    ensures Bound(size, k, i) <= Bound(size, k, j)
    decreases j - i
  {
    if i < j {
      BoundMonotonic(size, k, i, j - 1);
    }
  }

  /** The k partitions end exactly at the end of the selection. */
  lemma BoundLast(size: nat, k: nat)
    requires k >= 1
    ensures Bound(size, k, k) == size
  {
    BoundClosedForm(size, k, k);
    assert size == k * (size / k) + size % k;
  }

  /** Partition i lies inside the selection and is non-empty when k <= size. */
  lemma BoundInRange(size: nat, k: nat, i: nat)
    requires 1 <= k <= size && i < k
    ensures Bound(size, k, i) < Bound(size, k, i + 1) <= size
  {
    assert size / k >= 1;
    BoundMonotonic(size, k, i + 1, k);
    BoundLast(size, k);
  }

  /** Partition i: sel[Bound(i)..Bound(i + 1)], never empty. */
  function Part<T>(sel: seq<T>, k: nat, i: nat): (p: seq<T>)
    requires 1 <= k <= |sel| && i < k
    ensures |p| == PartSize(|sel|, k, i) && |p| > 0
  {
    BoundInRange(|sel|, k, i);
    sel[Bound(|sel|, k, i)..Bound(|sel|, k, i + 1)]
  }

  /** The partition plan as a reference definition: the k parts, in order. */
  function Partition<T>(sel: seq<T>, k: nat): (parts: seq<seq<T>>)
    requires 1 <= k <= |sel|
    ensures |parts| == k
    ensures forall i :: 0 <= i < k ==> |parts[i]| > 0
  {
    seq(k, i requires 0 <= i < k => Part(sel, k, i))
  }

  /**
   * The partitions are exactly k, never empty, the first size % k of them hold size / k + 1
   * elements and the others size / k, so that two sizes differ by at most one.
   */
  lemma PartitionSizes<T>(sel: seq<T>, k: nat)
    requires 1 <= k <= |sel|
    ensures |Partition(sel, k)| == k
    ensures forall i :: 0 <= i < k ==> |Partition(sel, k)[i]| == PartSize(|sel|, k, i) >= 1
    ensures forall i :: 0 <= i < k ==> (i < |sel| % k <==> |Partition(sel, k)[i]| == |sel| / k + 1)
    ensures forall i, j :: 0 <= i < k && 0 <= j < k ==> |Partition(sel, k)[i]| <= |Partition(sel, k)[j]| + 1
  {
  }

  /** The first j partitions, concatenated, are the first Bound(j) selected elements. */
  lemma {:induction false} PartitionPrefix<T>(sel: seq<T>, k: nat, j: nat)
    requires 1 <= k <= |sel| && j <= k
    ensures Bound(|sel|, k, j) <= |sel|
    ensures Concat(Partition(sel, k)[..j]) == sel[..Bound(|sel|, k, j)]
  {
    var parts := Partition(sel, k);
    if j > 0 {
      PartitionPrefix(sel, k, j - 1);
      BoundInRange(|sel|, k, j - 1);
      TakeNext(parts, j - 1);
      ConcatSnoc(parts[..j - 1], parts[j - 1]);
      TakeSplit(sel, Bound(|sel|, k, j - 1), Bound(|sel|, k, j));
    }
  }

  /** The partitions cover the selection in order, without gaps or overlaps. */
  lemma PartitionCovers<T>(sel: seq<T>, k: nat)
    requires 1 <= k <= |sel|
    ensures Concat(Partition(sel, k)) == sel
  {
    PartitionPrefix(sel, k, k);
    BoundLast(|sel|, k);
    assert Partition(sel, k)[..k] == Partition(sel, k);
  }

  /** Ten elements on three threads are cut 4, 3, 3. */
  lemma PartitionTenOnThree<T>(sel: seq<T>)
    requires |sel| == 10
    ensures |Partition(sel, 3)| == 3
    ensures Partition(sel, 3) == [sel[0..4], sel[4..7], sel[7..10]]
  {
    assert Bound(10, 3, 1) == 4 && Bound(10, 3, 2) == 7 && Bound(10, 3, 3) == 10;
  }

  /** Cutting the next slice extends the partitions cut so far by the next partition. */
  lemma PartitionExtend<T>(sel: seq<T>, k: nat, j: nat, done: seq<seq<T>>)
    requires 1 <= k <= |sel| && j < k && done == Partition(sel, k)[..j]
    ensures Bound(|sel|, k, j) <= Bound(|sel|, k, j + 1) <= |sel|
    ensures done + [sel[Bound(|sel|, k, j)..Bound(|sel|, k, j + 1)]] == Partition(sel, k)[..j + 1]
  {
    BoundInRange(|sel|, k, j);
    assert Partition(sel, k)[j] == sel[Bound(|sel|, k, j)..Bound(|sel|, k, j + 1)];
  }

  /** The state of getSubStreams' loop before its first iteration. */
  lemma LoopEntry(size: nat, k: nat)
    requires 1 <= k <= size
    ensures 1 <= size / k <= size
  {
  }

  /** One iteration of getSubStreams' loop cuts partition j and moves to the start of j + 1. */
  lemma LoopStep(size: nat, k: nat, j: nat)
    requires 1 <= k <= size && j < k
    ensures var ost := size % k - Min(j, size % k);
      && Bound(size, k, j + 1) == Bound(size, k, j) + size / k + (if ost > 0 then 1 else 0)
      && Bound(size, k, j + 1) <= size
      && ost - (if ost > 0 then 1 else 0) == size % k - Min(j + 1, size % k)
      && (j + 1 < k ==> Bound(size, k, j + 1) + size / k <= size)
      && (j + 1 == k ==> Bound(size, k, j + 1) + size / k > size)
  {
    BoundInRange(size, k, j);
    BoundLast(size, k);
    assert size / k >= 1;
    if j + 1 < k {
      BoundInRange(size, k, j + 1);
    }
  }

  /**
   * getSubStreams: clamps threads to the selection size, then cuts the selection with the
   * source's loop over from, to and the remainder counter ost. An empty selection divides by zero.
   */
  method GetSubStreams<T>(threads: int, values: seq<T>, step: int) returns (r: Result<seq<seq<T>>, Error>)
    requires threads >= 1 && step >= 1
    ensures values == [] ==> r == Failure(DivisionByZero)
    ensures values != [] ==>
      var sel := Strided(values, step);
      r == Success(Partition(sel, Min(|sel|, threads)))
  {
    var nthValues := Strided(values, step);
    var size := |nthValues|;
    var k := Min(size, threads);
    if k == 0 {
      return Failure(DivisionByZero);
    }
    var c := size / k;
    var results: seq<seq<T>> := [];
    var from, to, ost := 0, c, size % k;
    LoopEntry(size, k);
    while to <= size
      invariant |results| <= k
      invariant from == Bound(size, k, |results|) && to == from + c
      invariant ost == size % k - Min(|results|, size % k)
      invariant |results| < k ==> to <= size
      invariant |results| == k ==> to > size
      invariant results == Partition(nthValues, k)[..|results|]
      decreases k - |results|
    {
      ghost var j := |results|;
      LoopStep(size, k, j);
      if ost > 0 {
        to := to + 1;
        ost := ost - 1;
      }
      PartitionExtend(nthValues, k, j, results);
      results := results + [nthValues[from..to]];
      from := to;
      to := to + c;
    }
    assert results == Partition(nthValues, k);
    return Success(results);
  }

  /** The partial results once every slot has been filled. */
  function Filled<R>(slots: seq<Option<R>>): (rs: seq<R>)
    requires forall i :: 0 <= i < |slots| ==> slots[i].Some?
    ensures |rs| == |slots| && forall i :: 0 <= i < |slots| ==> slots[i] == Some(rs[i])
  {
    seq(|slots|, i requires 0 <= i < |slots| => slots[i].value)
  }

  /**
   * process: the first-stage result of partition i is stored at results[i] (through the mapper,
   * an order-preserving map, or one slot per partition), then the final stage reduces them.
   */
  method Process<T, R>(mode: Mode, threads: int, values: seq<T>,
                       first: seq<T> --> R, final: seq<R> --> R, step: int)
    returns (r: Result<R, Error>)
    requires threads >= 1 && step >= 1
    requires forall s: seq<T> :: |s| > 0 ==> first.requires(s)
    requires forall rs: seq<R> :: |rs| > 0 ==> final.requires(rs)
    ensures values == [] ==> r == Failure(DivisionByZero)
    ensures values != [] ==>
      var parts := Partition(Strided(values, step), Min(|Strided(values, step)|, threads));
      r == Success(final(MapSeq(first, parts)))
  {
    var subStreams := GetSubStreams(threads, values, step);
    if subStreams.Failure? {
      return Failure(subStreams.error);
    }
    var parts := subStreams.value;
    var results: seq<R>;
    if mode == SharedMapper {
      results := MapSeq(first, parts);
    } else {
      var slots: seq<Option<R>> := [];
      for i := 0 to |parts|
        invariant |slots| == i
        invariant forall j :: 0 <= j < i ==> slots[j] == Some(first(parts[j]))
      {
        slots := slots + [None];
        slots := slots[i := Some(first(parts[i]))];
      }
      results := Filled(slots);
      assert results == MapSeq(first, parts);
    }
    return Success(final(results));
  }

  /** The maximum of the partition maxima is the maximum of the whole concatenation. */
  lemma {:induction false} MaxOfPartitionMaxima<T(!new)>(cmp: Comparator<T>, f: seq<T> --> T, parts: seq<seq<T>>)
    requires IsComparator(cmp) && |parts| > 0
    requires forall i :: 0 <= i < |parts| ==> |parts[i]| > 0
    requires forall s: seq<T> :: |s| > 0 ==> f.requires(s) && f(s) == MaxBy(cmp, s)
    ensures |Concat(parts)| > 0
    ensures MaxBy(cmp, MapSeq(f, parts)) == MaxBy(cmp, Concat(parts))
  {
    var init, last := parts[..|parts| - 1], parts[|parts| - 1];
    assert parts == init + [last];
    ConcatSnoc(init, last);
    if |parts| == 1 {
      assert Concat(parts) == last by {
        assert init == [];
      }
    } else {
      MaxOfPartitionMaxima(cmp, f, init);
      assert MapSeq(f, parts)[..|parts| - 1] == MapSeq(f, init);
      MaxByAppend(cmp, Concat(init), last);
    }
  }

  /**
   * maximum: NoSuchElementException on an empty list; otherwise the maximum of the selection,
   * whatever the number of threads.
   */
  method Maximum<T(!new)>(mode: Mode, threads: int, values: seq<T>, cmp: Comparator<T>, step: int)
    returns (r: Result<T, Error>)
    requires threads >= 1 && step >= 1 && IsComparator(cmp)
    ensures values == [] ==> r == Failure(NoSuchElement)
    ensures values != [] ==> r == Success(MaxBy(cmp, Strided(values, step)))
  {
    if values == [] {
      return Failure(NoSuchElement);
    }
    var streamMax := (s: seq<T>) requires |s| > 0 => MaxBy(cmp, s);
    r := Process(mode, threads, values, streamMax, streamMax, step);
    var sel := Strided(values, step);
    var parts := Partition(sel, Min(|sel|, threads));
    MaxOfPartitionMaxima(cmp, streamMax, parts);
    PartitionCovers(sel, Min(|sel|, threads));
  }

  /** minimum: maximum under the reversed comparator. */
  method Minimum<T(!new)>(mode: Mode, threads: int, values: seq<T>, cmp: Comparator<T>, step: int)
    returns (r: Result<T, Error>)
    requires threads >= 1 && step >= 1 && IsComparator(cmp)
    ensures values == [] ==> r == Failure(NoSuchElement)
    ensures values != [] ==> r == Success(MaxBy(Reversed(cmp), Strided(values, step)))
  {
    ReversedIsComparator(cmp);
    r := Maximum(mode, threads, values, Reversed(cmp), step);
  }

  /** Stream.allMatch. */
  function AllMatch<T>(p: T -> bool, s: seq<T>): bool
  {
    forall i :: 0 <= i < |s| ==> p(s[i])
  }

  /** Every partition satisfies the predicate exactly when the whole concatenation does. */
  lemma {:induction false} AllOfPartitions<T>(p: T -> bool, f: seq<T> --> bool, parts: seq<seq<T>>)
    requires forall s: seq<T> :: |s| > 0 ==> f.requires(s) && f(s) == AllMatch(p, s)
    requires forall i :: 0 <= i < |parts| ==> |parts[i]| > 0
    ensures AllMatch(b => b, MapSeq(f, parts)) == AllMatch(p, Concat(parts))
  {
    if parts != [] {
      var init, last := parts[..|parts| - 1], parts[|parts| - 1];
      assert parts == init + [last];
      ConcatSnoc(init, last);
      AllOfPartitions(p, f, init);
      var cat := Concat(init);
      assert MapSeq(f, parts) == MapSeq(f, init) + [f(last)];
      assert AllMatch(p, cat + last) == (AllMatch(p, cat) && AllMatch(p, last)) by {
        assert forall i :: 0 <= i < |cat| ==> (cat + last)[i] == cat[i];
        assert forall i :: 0 <= i < |last| ==> (cat + last)[|cat| + i] == last[i];
      }
    }
  }

  /**
   * all: whether every selected element satisfies the predicate, whatever the number of threads;
   * an empty list raises the division by zero of getSubStreams rather than answering true.
   */
  method All<T>(mode: Mode, threads: int, values: seq<T>, pred: T -> bool, step: int)
    returns (r: Result<bool, Error>)
    requires threads >= 1 && step >= 1
    ensures values == [] ==> r == Failure(DivisionByZero)
    ensures values != [] ==>
      r == Success(forall i :: 0 <= i < |Strided(values, step)| ==> pred(Strided(values, step)[i]))
  {
    var streamAll := (s: seq<T>) => AllMatch(pred, s);
    var finalAll := (rs: seq<bool>) => AllMatch(b => b, rs);
    r := Process(mode, threads, values, streamAll, finalAll, step);
    if values != [] {
      var sel := Strided(values, step);
      var parts := Partition(sel, Min(|sel|, threads));
      AllOfPartitions(pred, streamAll, parts);
      PartitionCovers(sel, Min(|sel|, threads));
    }
  }

  /** any: the negation of all over the negated predicate. */
  method Any<T>(mode: Mode, threads: int, values: seq<T>, pred: T -> bool, step: int)
    returns (r: Result<bool, Error>)
    requires threads >= 1 && step >= 1
    ensures values == [] ==> r == Failure(DivisionByZero)
    ensures values != [] ==>
      r == Success(exists i :: 0 <= i < |Strided(values, step)| && pred(Strided(values, step)[i]))
  {
    var all := All(mode, threads, values, x => !pred(x), step);
    if all.Failure? {
      return Failure(all.error);
    }
    return Success(!all.value);
  }

  /** The number of elements satisfying the predicate: filter(predicate).count(). */
  function CountMatching<T>(p: T -> bool, s: seq<T>): (n: nat)
    ensures n <= |s|
  {
    if s == [] then 0 else CountMatching(p, s[..|s| - 1]) + (if p(s[|s| - 1]) then 1 else 0)
  }

  /** reduce(0, Integer::sum). */
  function Sum(rs: seq<int>): int
  {
    if rs == [] then 0 else Sum(rs[..|rs| - 1]) + rs[|rs| - 1]
  }

  lemma {:induction false} CountAppend<T>(p: T -> bool, a: seq<T>, b: seq<T>)
    ensures CountMatching(p, a + b) == CountMatching(p, a) + CountMatching(p, b)
  {
    if b != [] {
      assert (a + b)[..|a + b| - 1] == a + b[..|b| - 1];
      CountAppend(p, a, b[..|b| - 1]);
    } else {
      assert a + b == a;
    }
  }

  /** Counting every element is the same as every element matching. */
  lemma {:induction false} CountAllAgree<T>(p: T -> bool, s: seq<T>)
    ensures CountMatching(p, s) == |s| <==> AllMatch(p, s)
  {
    if s != [] {
      CountAllAgree(p, s[..|s| - 1]);
      assert forall i :: 0 <= i < |s| - 1 ==> s[..|s| - 1][i] == s[i];
    }
  }

  /** The sum of the partition counts is the count over the whole concatenation. */
  lemma {:induction false} SumOfPartitionCounts<T>(p: T -> bool, f: seq<T> --> int, parts: seq<seq<T>>)
    requires forall s: seq<T> :: f.requires(s) && f(s) == CountMatching(p, s)
    ensures Sum(MapSeq(f, parts)) == CountMatching(p, Concat(parts))
  {
    if parts != [] {
      var init, last := parts[..|parts| - 1], parts[|parts| - 1];
      assert parts == init + [last];
      ConcatSnoc(init, last);
      SumOfPartitionCounts(p, f, init);
      assert MapSeq(f, parts)[..|parts| - 1] == MapSeq(f, init);
      CountAppend(p, Concat(init), last);
    }
  }

  /**
   * count: the number of selected elements satisfying the predicate, whatever the number of
   * threads; an empty list raises the division by zero of getSubStreams rather than answering 0.
   */
  method Count<T>(mode: Mode, threads: int, values: seq<T>, pred: T -> bool, step: int)
    returns (r: Result<int, Error>)
    requires threads >= 1 && step >= 1
    ensures values == [] ==> r == Failure(DivisionByZero)
    ensures values != [] ==> r == Success(CountMatching(pred, Strided(values, step)))
  {
    var streamCount := (s: seq<T>) => CountMatching(pred, s) as int;
    var finalSum := (rs: seq<int>) => Sum(rs);
    r := Process(mode, threads, values, streamCount, finalSum, step);
    if values != [] {
      var sel := Strided(values, step);
      var parts := Partition(sel, Min(|sel|, threads));
      SumOfPartitionCounts(pred, streamCount, parts);
      PartitionCovers(sel, Min(|sel|, threads));
    }
  }
}
