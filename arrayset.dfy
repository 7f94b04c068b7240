/**
 * ArraySet: an immutable sorted set backed by a duplicate-free list kept in ascending order of
 * its comparator. Every range view is built as a new ArraySet over a slice of that list.
 */
module ArraySets {
  import opened Wrappers
  import opened Comparators
  import opened Seqs
  import opened TreeSets

  datatype Error = IllegalArgument | NoSuchElement

  /**
   * An ArraySet's state: the list of elements, the comparator as stored (None for the null
   * comparator) and the ordering actually used, which is the natural ordering of E (compareTo)
   * when the stored comparator is None.
   */
  datatype ArraySet<!E> = ArraySet(elements: seq<E>, comparator: Option<Comparator<E>>, order: Comparator<E>)

  /** What every constructor establishes and no operation changes. */
  ghost predicate Valid<E(!new)>(s: ArraySet<E>)
  {
    && IsComparator(s.order)
    && (s.comparator.Some? ==> s.order == s.comparator.value)
    && StrictlySorted(s.order, s.elements)
  }

  /** The ordering a TreeSet built with this comparator uses. */
  function OrderOf<E>(comparator: Option<Comparator<E>>, natural: Comparator<E>): Comparator<E>
  {
    if comparator.Some? then comparator.value else natural
  }

  /**
   * ArraySet(collection, comparator): the elements of a TreeSet, with that comparator, to which the
   * whole collection was added. natural is the natural ordering of E, used for a null comparator.
   */
  function New<E(!new)>(coll: seq<E>, comparator: Option<Comparator<E>>, natural: Comparator<E>): (s: ArraySet<E>)
    requires IsComparator(OrderOf(comparator, natural))
    ensures Valid(s) && s.comparator == comparator && s.order == OrderOf(comparator, natural)
    ensures forall y :: y in s.elements ==> y in coll
    ensures forall i :: 0 <= i < |coll| ==> HasEqual(s.order, s.elements, coll[i])
    ensures forall i, j :: 0 <= i < |s.elements| && 0 <= j < |s.elements| && i != j ==>
      s.order(s.elements[i], s.elements[j]) != 0
    ensures |s.elements| == DistinctCount(s.order, coll)
  {
    var order := OrderOf(comparator, natural);
    var elements := AddAll(order, [], coll);
    AddAllSpec(order, [], coll);
    AddAllSize(order, coll);
    StrictlySortedDistinct(order, elements);
    ArraySet(elements, comparator, order)
  }

  /** ArraySet(): no elements and the null comparator. */
  function Empty<E(!new)>(natural: Comparator<E>): (s: ArraySet<E>)
    requires IsComparator(natural)
    ensures Valid(s) && s.elements == [] && s.comparator == None && s.order == natural
  {
    New([], None, natural)
  }

  /** ArraySet(collection): the collection's distinct elements under the natural ordering. */
  function FromCollection<E(!new)>(coll: seq<E>, natural: Comparator<E>): (s: ArraySet<E>)
    requires IsComparator(natural)
    ensures Valid(s) && s.comparator == None && s.order == natural
    ensures forall y :: y in s.elements ==> y in coll
    ensures forall i :: 0 <= i < |coll| ==> HasEqual(natural, s.elements, coll[i])
    ensures |s.elements| == DistinctCount(natural, coll)
  {
    New(coll, None, natural)
  }

  /** ArraySet(comparator): no elements and the given comparator. */
  function WithComparator<E(!new)>(comparator: Comparator<E>): (s: ArraySet<E>)
    requires IsComparator(comparator)
    ensures Valid(s) && s.elements == [] && s.comparator == Some(comparator) && s.order == comparator
  {
    New([], Some(comparator), comparator)
  }

  /** ArraySet(set): a copy with the same elements, in the same order, and the same comparator. */
  function Copy<E(!new)>(other: ArraySet<E>): (s: ArraySet<E>)
    ensures s.elements == other.elements && s.comparator == other.comparator && s.order == other.order
    ensures Valid(other) ==> Valid(s)
  {
    ArraySet(other.elements, other.comparator, other.order)
  }

  /** size(): the number of stored elements. */
  function Size<E>(s: ArraySet<E>): (n: nat)
    ensures n == |s.elements|
  {
    |s.elements|
  }

  /** A set built from a collection has as many elements as the collection has distinct ones. */
  lemma SizeOfNew<E(!new)>(coll: seq<E>, comparator: Option<Comparator<E>>, natural: Comparator<E>)
    requires IsComparator(OrderOf(comparator, natural))
    ensures Size(New(coll, comparator, natural)) == DistinctCount(OrderOf(comparator, natural), coll)
  {
  }

  /**
   * Collections.binarySearch on a random-access list, between low and high inclusive: compares
   * the middle element with the key and halves the range, or reports -(insertion point) - 1.
   */
  function Search<E>(cmp: Comparator<E>, elems: seq<E>, key: E, low: int, high: int): (r: int)
    requires 0 <= low <= high + 1 <= |elems|
    ensures -(|elems| + 1) <= r < |elems|
    decreases high - low + 1
  {
    if low > high then -(low + 1)
    else
      var mid := (low + high) / 2;
      var c := cmp(elems[mid], key);
      if c < 0 then Search(cmp, elems, key, mid + 1, high)
      else if c > 0 then Search(cmp, elems, key, low, mid - 1)
      else mid
  }

  /** Collections.binarySearch(list, key, comparator) over the whole list. */
  function BinarySearch<E>(cmp: Comparator<E>, elems: seq<E>, key: E): (r: int)
    ensures -(|elems| + 1) <= r < |elems|
  {
    Search(cmp, elems, key, 0, |elems| - 1)
  }

  /** Every element before p is below the key and every element from p on is above it. */
  ghost predicate IsInsertionPoint<E(!new)>(cmp: Comparator<E>, elems: seq<E>, key: E, p: int)
  {
    && 0 <= p <= |elems|
    && (forall j :: 0 <= j < p ==> cmp(elems[j], key) < 0)
    && (forall j :: p <= j < |elems| ==> cmp(elems[j], key) > 0)
  }

  /** Everything before an element at or below the key is strictly below the key. */
  ghost predicate KeyMonotone<E(!new)>(cmp: Comparator<E>, elems: seq<E>, key: E)
  {
    forall i, j :: 0 <= i < j < |elems| && cmp(elems[j], key) <= 0 ==> cmp(elems[i], key) < 0
  }

  /** A strictly sorted list is monotone with respect to every key. */
  lemma SortedKeyMonotone<E(!new)>(cmp: Comparator<E>, elems: seq<E>, key: E)
    requires IsComparator(cmp) && StrictlySorted(cmp, elems)
    ensures KeyMonotone(cmp, elems, key)
  {
    forall i, j | 0 <= i < j < |elems| && cmp(elems[j], key) <= 0 ensures cmp(elems[i], key) < 0 {
      LtLeTransitive(cmp, elems[i], elems[j], key);
    }
  }

  /** The binary search keeps "everything before low is below the key, after high above it". */
  lemma {:induction false} SearchSpec<E(!new)>(cmp: Comparator<E>, elems: seq<E>, key: E, low: int, high: int)
    requires KeyMonotone(cmp, elems, key)
    requires 0 <= low <= high + 1 <= |elems|
    requires forall j :: 0 <= j < low ==> cmp(elems[j], key) < 0
    requires forall j :: high < j < |elems| ==> cmp(elems[j], key) > 0
    ensures var r := Search(cmp, elems, key, low, high);
      && (r >= 0 ==> cmp(elems[r], key) == 0)
      && (r < 0 ==> IsInsertionPoint(cmp, elems, key, -(r + 1)))
    decreases high - low + 1
  {
    if low > high {
      assert IsInsertionPoint(cmp, elems, key, low);
    } else {
      var mid := (low + high) / 2;
      var c := cmp(elems[mid], key);
      if c < 0 {
        SearchSpec(cmp, elems, key, mid + 1, high);
      } else if c > 0 {
        assert forall j :: mid <= j < |elems| ==> cmp(elems[j], key) > 0;
        SearchSpec(cmp, elems, key, low, mid - 1);
      }
    }
  }

  /**
   * The contract of Collections.binarySearch on a strictly sorted list: a nonnegative answer is the
   * index of an element equal to the key; a negative answer is -(insertion point) - 1, with every
   * element before the insertion point below the key and every other element above it.
   */
  lemma {:induction false} BinarySearchSpec<E(!new)>(cmp: Comparator<E>, elems: seq<E>, key: E)
    requires IsComparator(cmp) && StrictlySorted(cmp, elems)
    ensures var r := BinarySearch(cmp, elems, key);
      && (r >= 0 ==> cmp(elems[r], key) == 0)
      && (r < 0 ==> IsInsertionPoint(cmp, elems, key, -(r + 1)))
  {
    SortedKeyMonotone(cmp, elems, key);
    SearchSpec(cmp, elems, key, 0, |elems| - 1);
  }

  /**
   * find(e): e's index when an equal element is stored, and otherwise the insertion point, the
   * index of the first element greater than e.
   */
  function Find<E(!new)>(s: ArraySet<E>, e: E): (i: int)
    requires Valid(s)
    ensures 0 <= i <= |s.elements|
    ensures forall j :: 0 <= j < i ==> s.order(s.elements[j], e) < 0
    ensures forall j :: i <= j < |s.elements| ==> s.order(s.elements[j], e) >= 0
    ensures HasEqual(s.order, s.elements, e) <==> i < |s.elements| && s.order(s.elements[i], e) == 0
  {
    var index := BinarySearch(s.order, s.elements, e);
    BinarySearchSpec(s.order, s.elements, e);
    if index >= 0 then
      StrictlySortedDistinct(s.order, s.elements);
      BelowEqual(s.order, s.elements, e, index);
      index
    else
      -1 - index
  }

  /** In a strictly sorted list the elements before one equal to e are below e. */
  lemma BelowEqual<E(!new)>(cmp: Comparator<E>, elems: seq<E>, e: E, i: int)
    requires IsComparator(cmp) && StrictlySorted(cmp, elems)
    requires 0 <= i < |elems| && cmp(elems[i], e) == 0
    ensures forall j :: 0 <= j < i ==> cmp(elems[j], e) < 0
    ensures forall j :: i <= j < |elems| ==> cmp(elems[j], e) >= 0
  {
    forall j | 0 <= j < i ensures cmp(elems[j], e) < 0 {
      LtLeTransitive(cmp, elems[j], elems[i], e);
    }
    forall j | i < j < |elems| ensures cmp(elems[j], e) >= 0 {
      EqualSymmetric(cmp, elems[i], e);
      LeLtTransitive(cmp, e, elems[i], elems[j]);
      assert cmp(e, elems[j]) < 0 <==> cmp(elems[j], e) > 0;
    }
  }

  /** find is monotonic: a smaller element never has a later position. */
  lemma FindMonotonic<E(!new)>(s: ArraySet<E>, a: E, b: E)
    requires Valid(s) && s.order(a, b) <= 0
    ensures Find(s, a) <= Find(s, b)
  {
    var i, j := Find(s, a), Find(s, b);
    if j < i {
      assert s.order(s.elements[j], a) < 0;
      LtLeTransitive(s.order, s.elements[j], a, b);
      assert false;
    }
  }

  /** contains(e): whether some stored element compares equal to e. */
  function Contains<E(!new)>(s: ArraySet<E>, e: E): (b: bool)
    requires Valid(s)
    ensures b <==> HasEqual(s.order, s.elements, e)
  {
    BinarySearchSpec(s.order, s.elements, e);
    BinarySearch(s.order, s.elements, e) >= 0
  }

  /** A slice of a strictly sorted list is strictly sorted. */
  lemma SliceSorted<E(!new)>(cmp: Comparator<E>, s: seq<E>, lo: int, hi: int)
    requires StrictlySorted(cmp, s) && 0 <= lo <= hi <= |s|
    ensures StrictlySorted(cmp, s[lo..hi])
  {
    var t := s[lo..hi];
    forall i, j | 0 <= i < j < |t| ensures cmp(t[i], t[j]) < 0 {
      assert t[i] == s[lo + i] && t[j] == s[lo + j];
    }
  }

  /** The ArraySet over a slice of s's list, with s's comparator: exactly that slice. */
  function View<E(!new)>(s: ArraySet<E>, lo: int, hi: int): (r: ArraySet<E>)
    requires Valid(s) && 0 <= lo <= hi <= |s.elements|
    ensures Valid(r) && r.comparator == s.comparator && r.order == s.order
    ensures r.elements == s.elements[lo..hi]
  {
    SliceSorted(s.order, s.elements, lo, hi);
    AddAllSorted(s.order, s.elements[lo..hi]);
    New(s.elements[lo..hi], s.comparator, s.order)
  }

  /** headSet(to): the stored elements strictly below to. */
  function HeadSet<E(!new)>(s: ArraySet<E>, toElement: E): (r: ArraySet<E>)
    requires Valid(s)
    ensures Valid(r) && r.comparator == s.comparator && r.order == s.order
    ensures forall y :: y in r.elements <==> y in s.elements && s.order(y, toElement) < 0
  {
    var to := Find(s, toElement);
    SliceMembers(s.elements, 0, to, y => s.order(y, toElement) < 0);
    View(s, 0, to)
  }

  /** tailSet(from): the stored elements at or above from. */
  function TailSet<E(!new)>(s: ArraySet<E>, fromElement: E): (r: ArraySet<E>)
    requires Valid(s)
    ensures Valid(r) && r.comparator == s.comparator && r.order == s.order
    ensures forall y :: y in r.elements <==> y in s.elements && s.order(y, fromElement) >= 0
  {
    var from := Find(s, fromElement);
    SliceMembers(s.elements, from, |s.elements|, y => s.order(y, fromElement) >= 0);
    View(s, from, |s.elements|)
  }

  /**
   * The check subSet makes for the null comparator: sort the pair [from, to] by natural ordering
   * (a two-element sort swaps exactly when to is below from) and see whether from stays first.
   */
  function NaturalPairMisordered<E(==)>(natural: Comparator<E>, fromElement: E, toElement: E): bool
  {
    var sorted := if natural(toElement, fromElement) < 0 then [toElement, fromElement] else [fromElement, toElement];
    sorted[0] != fromElement
  }

  /** Both branches of subSet's check reject the same pairs: those with from above to. */
  lemma NaturalPairMisorderedAgrees<E(!new)>(natural: Comparator<E>, fromElement: E, toElement: E)
    requires IsComparator(natural)
    ensures NaturalPairMisordered(natural, fromElement, toElement) <==> natural(fromElement, toElement) > 0
  {
    Reflexive(natural, fromElement);
    assert natural(fromElement, toElement) > 0 <==> natural(toElement, fromElement) < 0;
  }

  /**
   * subSet(from, to): IllegalArgumentException when from is above to, and otherwise the stored
   * elements at or above from and strictly below to.
   */
  function SubSet<E(==, !new)>(s: ArraySet<E>, fromElement: E, toElement: E): (r: Result<ArraySet<E>, Error>)
    requires Valid(s)
    ensures r.Failure? <==> s.order(fromElement, toElement) > 0
    ensures r.Failure? ==> r.error == IllegalArgument
    ensures r.Success? ==> Valid(r.value) && r.value.comparator == s.comparator && r.value.order == s.order
    ensures r.Success? ==> forall y :: y in r.value.elements <==>
      y in s.elements && s.order(y, fromElement) >= 0 && s.order(y, toElement) < 0
  {
    var misordered :=
      if s.comparator.None? then NaturalPairMisordered(s.order, fromElement, toElement)
      else s.order(fromElement, toElement) > 0;
    NaturalPairMisorderedAgrees(s.order, fromElement, toElement);
    if misordered then Failure(IllegalArgument) else Success(Between(s, fromElement, toElement))
  }

  /** The view subSet returns once from is not above to: the slice from find(from) to find(to). */
  function Between<E(!new)>(s: ArraySet<E>, fromElement: E, toElement: E): (r: ArraySet<E>)
    requires Valid(s) && s.order(fromElement, toElement) <= 0
    ensures Valid(r) && r.comparator == s.comparator && r.order == s.order
    ensures forall y :: y in r.elements <==>
      y in s.elements && s.order(y, fromElement) >= 0 && s.order(y, toElement) < 0
  {
    var from := Find(s, fromElement);
    var to := Find(s, toElement);
    FindMonotonic(s, fromElement, toElement);
    SliceMembers(s.elements, from, to,
      y => s.order(y, fromElement) >= 0 && s.order(y, toElement) < 0);
    View(s, from, to)
  }

  /** throwIfEmpty(): NoSuchElementException exactly for the empty set. */
  function ThrowIfEmpty<E>(s: ArraySet<E>): (r: Option<Error>)
    ensures r.Some? <==> |s.elements| == 0
    ensures r.Some? ==> r.value == NoSuchElement
  {
    if |s.elements| == 0 then Some(NoSuchElement) else None
  }

  /** first(): the smallest element, or NoSuchElementException for the empty set. */
  function First<E(!new)>(s: ArraySet<E>): (r: Result<E, Error>)
    requires Valid(s)
    ensures r.Failure? <==> |s.elements| == 0
    ensures r.Failure? ==> r.error == NoSuchElement
    ensures r.Success? ==>
      r.value in s.elements && forall y :: y in s.elements ==> s.order(r.value, y) <= 0
  {
    match ThrowIfEmpty(s)
    case Some(e) => Failure(e)
    case None =>
      assert forall y :: y in s.elements ==> s.order(s.elements[0], y) <= 0 by {
        forall y | y in s.elements ensures s.order(s.elements[0], y) <= 0 {
          Reflexive(s.order, y);
        }
      }
      Success(s.elements[0])
  }

  /** last(): the largest element, or NoSuchElementException for the empty set. */
  function Last<E(!new)>(s: ArraySet<E>): (r: Result<E, Error>)
    requires Valid(s)
    ensures r.Failure? <==> |s.elements| == 0
    ensures r.Failure? ==> r.error == NoSuchElement
    ensures r.Success? ==>
      r.value in s.elements && forall y :: y in s.elements ==> s.order(y, r.value) <= 0
  {
    match ThrowIfEmpty(s)
    case Some(e) => Failure(e)
    case None =>
      var n := |s.elements|;
      assert forall y :: y in s.elements ==> s.order(y, s.elements[n - 1]) <= 0 by {
        forall y | y in s.elements ensures s.order(y, s.elements[n - 1]) <= 0 {
          Reflexive(s.order, y);
        }
      }
      Success(s.elements[n - 1])
  }

  /** The copy constructor: a copy of a valid set answers every query as the original does. */
  lemma CopyAgrees<E(!new)>(s: ArraySet<E>, e: E)
    requires Valid(s)
    ensures Valid(Copy(s))
    ensures Size(Copy(s)) == Size(s)
    ensures Contains(Copy(s), e) == Contains(s, e)
    ensures Find(Copy(s), e) == Find(s, e)
    ensures First(Copy(s)) == First(s) && Last(Copy(s)) == Last(s)
    ensures HeadSet(Copy(s), e) == HeadSet(s, e) && TailSet(Copy(s), e) == TailSet(s, e)
  {
  }
}
