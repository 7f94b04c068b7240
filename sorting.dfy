/**
 * Stream.sorted(comparator): a stable sort. It is modelled as insertion sort, where each
 * element is inserted after every element that is not greater than it.
 */
module Sorting {
  import opened Comparators
  import opened Seqs

  /** Ascending order under cmp: no element is greater than a later one. */
  ghost predicate Sorted<T(!new)>(cmp: Comparator<T>, s: seq<T>)
  {
    forall i, j :: 0 <= i < j < |s| ==> cmp(s[i], s[j]) <= 0
  }

  /** Inserts x in front of the first element that is greater than x. */
  function Insert<T(!new)>(cmp: Comparator<T>, s: seq<T>, x: T): (r: seq<T>)
    ensures |r| == |s| + 1
  {
    if s == [] then [x]
    else if cmp(s[0], x) > 0 then [x] + s
    else [s[0]] + Insert(cmp, s[1..], x)
  }

  /** The sorted stream: the elements inserted one at a time in encounter order. */
  function Sort<T(!new)>(cmp: Comparator<T>, s: seq<T>): (r: seq<T>)
    ensures |r| == |s|
  {
    if s == [] then [] else Insert(cmp, Sort(cmp, s[..|s| - 1]), s[|s| - 1])
  }

  /** The elements that compare equal to e, in their order. */
  function EqualRun<T(!new)>(cmp: Comparator<T>, s: seq<T>, e: T): seq<T>
  {
    if s == [] then [] else (if cmp(s[0], e) == 0 then [s[0]] else []) + EqualRun(cmp, s[1..], e)
  }

  lemma EqualRunCons<T(!new)>(cmp: Comparator<T>, h: T, t: seq<T>, e: T)
    ensures EqualRun(cmp, [h] + t, e) == (if cmp(h, e) == 0 then [h] else []) + EqualRun(cmp, t, e)
  {
    assert ([h] + t)[1..] == t;
  }

  lemma {:induction false} EqualRunAppend<T(!new)>(cmp: Comparator<T>, a: seq<T>, b: seq<T>, e: T)
    ensures EqualRun(cmp, a + b, e) == EqualRun(cmp, a, e) + EqualRun(cmp, b, e)
  {
    if a == [] {
      assert a + b == b;
    } else {
      var h, t := a[0], a[1..];
      assert a == [h] + t;
      assert a + b == [h] + (t + b);
      EqualRunCons(cmp, h, t + b, e);
      EqualRunCons(cmp, h, t, e);
      EqualRunAppend(cmp, t, b, e);
    }
  }

  /** The run holds only elements equal to e. */
  lemma {:induction false} EqualRunMembers<T(!new)>(cmp: Comparator<T>, s: seq<T>, e: T)
    ensures forall y :: y in EqualRun(cmp, s, e) ==> cmp(y, e) == 0
  {
    if s != [] {
      EqualRunMembers(cmp, s[1..], e);
    }
  }

  /** Taking the run of a filtered sequence is filtering the run. */
  lemma {:induction false} EqualRunFilter<T(!new)>(cmp: Comparator<T>, p: T -> bool, s: seq<T>, e: T)
    ensures EqualRun(cmp, Filter(p, s), e) == Filter(p, EqualRun(cmp, s, e))
  {
    if s != [] {
      var h, t := s[0], s[1..];
      var ft, rt := Filter(p, t), EqualRun(cmp, t, e);
      EqualRunFilter(cmp, p, t, e);
      assert Filter(p, s) == if p(h) then [h] + ft else ft;
      if p(h) {
        EqualRunCons(cmp, h, ft, e);
      }
      if cmp(h, e) == 0 {
        var x := [h] + rt;
        assert x[0] == h && x[1..] == rt;
        assert Filter(p, x) == if p(h) then [h] + Filter(p, rt) else Filter(p, rt);
      } else {
        assert EqualRun(cmp, s, e) == rt;
      }
    }
  }

  lemma {:induction false} EqualRunNone<T(!new)>(cmp: Comparator<T>, s: seq<T>, e: T)
    requires forall k :: 0 <= k < |s| ==> cmp(s[k], e) != 0
    ensures EqualRun(cmp, s, e) == []
  {
    if s != [] {
      EqualRunNone(cmp, s[1..], e);
    }
  }

  lemma {:induction false} InsertPermutation<T(!new)>(cmp: Comparator<T>, s: seq<T>, x: T)
    ensures multiset(Insert(cmp, s, x)) == multiset(s) + multiset{x}
  {
    if s != [] && cmp(s[0], x) <= 0 {
      InsertPermutation(cmp, s[1..], x);
      assert s == [s[0]] + s[1..];
    }
  }

  /** Sorting rearranges the elements and neither adds nor drops any. */
  lemma {:induction false} SortPermutation<T(!new)>(cmp: Comparator<T>, s: seq<T>)
    ensures multiset(Sort(cmp, s)) == multiset(s)
  {
    if s != [] {
      SortPermutation(cmp, s[..|s| - 1]);
      InsertPermutation(cmp, Sort(cmp, s[..|s| - 1]), s[|s| - 1]);
      InitLast(s);
    }
  }

  lemma PrependSorted<T(!new)>(cmp: Comparator<T>, h: T, t: seq<T>)
    requires Sorted(cmp, t)
    requires forall k :: 0 <= k < |t| ==> cmp(h, t[k]) <= 0
    ensures Sorted(cmp, [h] + t)
  {
    var s := [h] + t;
    forall i, j | 0 <= i < j < |s| ensures cmp(s[i], s[j]) <= 0 {
      if i == 0 {
        assert s[j] == t[j - 1];
      } else {
        assert s[i] == t[i - 1] && s[j] == t[j - 1];
      }
    }
  }

  /** Every element of Insert(s, x) is x or an element of s. */
  lemma InsertMembers<T(!new)>(cmp: Comparator<T>, s: seq<T>, x: T, k: int)
    requires 0 <= k < |s| + 1
    ensures Insert(cmp, s, x)[k] == x || Insert(cmp, s, x)[k] in s
  {
    var r := Insert(cmp, s, x);
    InsertPermutation(cmp, s, x);
    assert r[k] in multiset(r);
  }

  lemma InsertBelowHead<T(!new)>(cmp: Comparator<T>, s: seq<T>, x: T)
    requires IsComparator(cmp) && Sorted(cmp, s)
    requires s != [] && cmp(s[0], x) > 0
    ensures Sorted(cmp, [x] + s)
  {
    forall k | 0 <= k < |s| ensures cmp(x, s[k]) <= 0 {
      assert cmp(x, s[0]) < 0;
      if k > 0 {
        LtLeTransitive(cmp, x, s[0], s[k]);
      }
    }
    PrependSorted(cmp, x, s);
  }

  lemma InsertAboveHead<T(!new)>(cmp: Comparator<T>, s: seq<T>, x: T)
    requires Sorted(cmp, s) && s != [] && cmp(s[0], x) <= 0
    requires Sorted(cmp, Insert(cmp, s[1..], x))
    ensures Sorted(cmp, Insert(cmp, s, x))
  {
    var rest := Insert(cmp, s[1..], x);
    forall k | 0 <= k < |rest| ensures cmp(s[0], rest[k]) <= 0 {
      InsertMembers(cmp, s[1..], x, k);
      if rest[k] != x {
        var j :| 0 <= j < |s[1..]| && s[1..][j] == rest[k];
        assert s[j + 1] == rest[k];
      }
    }
    PrependSorted(cmp, s[0], rest);
  }

  /** Inserting into a sorted sequence keeps it sorted. */
  lemma {:induction false} InsertSorted<T(!new)>(cmp: Comparator<T>, s: seq<T>, x: T)
    requires IsComparator(cmp) && Sorted(cmp, s)
    ensures Sorted(cmp, Insert(cmp, s, x))
  {
    if s == [] {
    } else if cmp(s[0], x) > 0 {
      InsertBelowHead(cmp, s, x);
    } else {
      assert Sorted(cmp, s[1..]) by {
        forall i, j | 0 <= i < j < |s[1..]| ensures cmp(s[1..][i], s[1..][j]) <= 0 {
          assert s[1..][i] == s[i + 1] && s[1..][j] == s[j + 1];
        }
      }
      InsertSorted(cmp, s[1..], x);
      InsertAboveHead(cmp, s, x);
    }
  }

  /** The result of sorting is in ascending order. */
  lemma {:induction false} SortSorted<T(!new)>(cmp: Comparator<T>, s: seq<T>)
    requires IsComparator(cmp)
    ensures Sorted(cmp, Sort(cmp, s))
  {
    if s != [] {
      SortSorted(cmp, s[..|s| - 1]);
      InsertSorted(cmp, Sort(cmp, s[..|s| - 1]), s[|s| - 1]);
    }
  }

  /** No element of a sorted s whose head is greater than x compares equal to x's equals. */
  lemma GreaterRunEmpty<T(!new)>(cmp: Comparator<T>, s: seq<T>, x: T, e: T)
    requires IsComparator(cmp) && Sorted(cmp, s)
    requires s != [] && cmp(s[0], x) > 0 && cmp(x, e) == 0
    ensures EqualRun(cmp, s, e) == []
  {
    forall k | 0 <= k < |s| ensures cmp(s[k], e) != 0 {
      assert cmp(x, s[0]) < 0;
      if k > 0 {
        LtLeTransitive(cmp, x, s[0], s[k]);
      }
      ReversedEqual(cmp, x, e, s[k]);
    }
    EqualRunNone(cmp, s, e);
  }

  /**
   * Insertion puts x behind every element equal to it, and before nothing that is equal
   * to it: the run of elements equal to e grows by x exactly when x is equal to e.
   */
  lemma {:induction false} InsertRun<T(!new)>(cmp: Comparator<T>, s: seq<T>, x: T, e: T)
    requires IsComparator(cmp) && Sorted(cmp, s)
    ensures EqualRun(cmp, Insert(cmp, s, x), e)
         == EqualRun(cmp, s, e) + (if cmp(x, e) == 0 then [x] else [])
  {
    if s == [] {
    } else if cmp(s[0], x) > 0 {
      EqualRunCons(cmp, x, s, e);
      if cmp(x, e) == 0 {
        GreaterRunEmpty(cmp, s, x, e);
      }
    } else {
      assert Sorted(cmp, s[1..]) by {
        forall i, j | 0 <= i < j < |s[1..]| ensures cmp(s[1..][i], s[1..][j]) <= 0 {
          assert s[1..][i] == s[i + 1] && s[1..][j] == s[j + 1];
        }
      }
      InsertRun(cmp, s[1..], x, e);
      EqualRunCons(cmp, s[0], Insert(cmp, s[1..], x), e);
    }
  }

  /** Stability: elements that compare equal keep their encounter order. */
  lemma {:induction false} SortStable<T(!new)>(cmp: Comparator<T>, s: seq<T>, e: T)
    requires IsComparator(cmp)
    ensures EqualRun(cmp, Sort(cmp, s), e) == EqualRun(cmp, s, e)
  {
    if s != [] {
      var init, x := s[..|s| - 1], s[|s| - 1];
      SortStable(cmp, init, e);
      SortSorted(cmp, init);
      InsertRun(cmp, Sort(cmp, init), x, e);
      EqualRunAppend(cmp, init, [x], e);
      InitLast(s);
    }
  }

  /** A sequence that is already sorted is left as it is. */
  lemma {:induction false} SortOfSorted<T(!new)>(cmp: Comparator<T>, s: seq<T>)
    requires Sorted(cmp, s)
    ensures Sort(cmp, s) == s
  {
    if s != [] {
      var init, x := s[..|s| - 1], s[|s| - 1];
      assert Sorted(cmp, init) by {
        forall i, j | 0 <= i < j < |init| ensures cmp(init[i], init[j]) <= 0 {
          assert init[i] == s[i] && init[j] == s[j];
        }
      }
      SortOfSorted(cmp, init);
      forall k | 0 <= k < |init| ensures cmp(init[k], x) <= 0 {
        assert init[k] == s[k];
      }
      InsertLast(cmp, init, x);
      InitLast(s);
    }
  }

  lemma {:induction false} InsertLast<T(!new)>(cmp: Comparator<T>, s: seq<T>, x: T)
    requires forall k :: 0 <= k < |s| ==> cmp(s[k], x) <= 0
    ensures Insert(cmp, s, x) == s + [x]
  {
    if s != [] {
      InsertLast(cmp, s[1..], x);
      assert s == [s[0]] + s[1..];
    }
  }
}
