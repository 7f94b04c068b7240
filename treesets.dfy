/**
 * The part of java.util.TreeSet the core relies on: a set ordered by a comparator, in which an
 * element is added only when no element comparing equal to it is present (TreeMap.put keeps the
 * key already stored). The set is represented by its ascending iteration order.
 */
module TreeSets {
  import opened Comparators
  import opened Seqs

  /** Ascending, with no two elements comparing equal. */
  ghost predicate StrictlySorted<T(!new)>(cmp: Comparator<T>, s: seq<T>)
  {
    forall i, j :: 0 <= i < j < |s| ==> cmp(s[i], s[j]) < 0
  }

  /** Some element of s compares equal to x. */
  ghost predicate HasEqual<T(!new)>(cmp: Comparator<T>, s: seq<T>, x: T)
  {
    exists i :: 0 <= i < |s| && cmp(s[i], x) == 0
  }

  /** TreeSet.add: walks the ascending order and inserts x before the first greater element. */
  function Add<T(!new)>(cmp: Comparator<T>, s: seq<T>, x: T): (r: seq<T>)
    ensures |s| <= |r| <= |s| + 1
  {
    if |s| == 0 then [x]
    else if cmp(x, s[0]) < 0 then [x] + s
    else if cmp(x, s[0]) == 0 then s
    else [s[0]] + Add(cmp, s[1..], x)
  }

  /** TreeSet.addAll: the elements of coll added one by one, in iteration order. */
  function AddAll<T(!new)>(cmp: Comparator<T>, s: seq<T>, coll: seq<T>): (r: seq<T>)
    ensures |r| <= |s| + |coll|
  {
    if |coll| == 0 then s
    else Add(cmp, AddAll(cmp, s, coll[..|coll| - 1]), coll[|coll| - 1])
  }

  /**
   * The number of elements of coll that compare equal to no earlier element: the number of
   * comparator-distinct elements.
   */
  ghost function DistinctCount<T(!new)>(cmp: Comparator<T>, coll: seq<T>): (n: nat)
    ensures n <= |coll|
  {
    if |coll| == 0 then 0
    else
      var init := coll[..|coll| - 1];
      DistinctCount(cmp, init) + (if HasEqual(cmp, init, coll[|coll| - 1]) then 0 else 1)
  }

  /** In a strictly sorted sequence distinct positions never compare equal. */
  lemma StrictlySortedDistinct<T(!new)>(cmp: Comparator<T>, s: seq<T>)
    requires IsComparator(cmp) && StrictlySorted(cmp, s)
    ensures forall i, j :: 0 <= i < |s| && 0 <= j < |s| && i != j ==> cmp(s[i], s[j]) != 0
  {
    forall i, j | 0 <= i < |s| && 0 <= j < |s| && i != j ensures cmp(s[i], s[j]) != 0 {
      if j < i {
        assert cmp(s[j], s[i]) < 0;
        EqualSymmetric(cmp, s[i], s[j]);
      }
    }
  }

  lemma PrependSorted<T(!new)>(cmp: Comparator<T>, h: T, t: seq<T>)
    requires StrictlySorted(cmp, t) && forall j :: 0 <= j < |t| ==> cmp(h, t[j]) < 0
    ensures StrictlySorted(cmp, [h] + t)
  {
    var s := [h] + t;
    forall i, j | 0 <= i < j < |s| ensures cmp(s[i], s[j]) < 0 {
      if i > 0 {
        assert s[i] == t[i - 1] && s[j] == t[j - 1];
      } else {
        assert s[j] == t[j - 1];
      }
    }
  }

  /** The tail of a strictly sorted sequence is strictly sorted. */
  lemma TailSorted<T(!new)>(cmp: Comparator<T>, s: seq<T>)
    requires |s| > 0 && StrictlySorted(cmp, s)
    ensures StrictlySorted(cmp, s[1..])
  {
    var t := s[1..];
    forall i, j | 0 <= i < j < |t| ensures cmp(t[i], t[j]) < 0 {
      assert t[i] == s[i + 1] && t[j] == s[j + 1];
    }
  }

  /** x below the first element: below every element, equal to none. */
  lemma BelowHead<T(!new)>(cmp: Comparator<T>, s: seq<T>, x: T)
    requires IsComparator(cmp) && StrictlySorted(cmp, s) && |s| > 0 && cmp(x, s[0]) < 0
    ensures forall j :: 0 <= j < |s| ==> cmp(x, s[j]) < 0
    ensures !HasEqual(cmp, s, x)
  {
    forall j | 0 <= j < |s| ensures cmp(x, s[j]) < 0 && cmp(s[j], x) != 0 {
      if j > 0 {
        LtLeTransitive(cmp, x, s[0], s[j]);
      }
      EqualSymmetric(cmp, x, s[j]);
    }
  }

  /** x above the first element: an equal element, if any, lies in the tail. */
  lemma AboveHead<T(!new)>(cmp: Comparator<T>, s: seq<T>, x: T)
    requires IsComparator(cmp) && |s| > 0 && cmp(x, s[0]) > 0
    ensures cmp(s[0], x) < 0
    ensures HasEqual(cmp, s, x) <==> HasEqual(cmp, s[1..], x)
  {
    var t := s[1..];
    assert cmp(s[0], x) < 0;
    if HasEqual(cmp, s, x) {
      var i :| 0 <= i < |s| && cmp(s[i], x) == 0;
      assert i > 0 && t[i - 1] == s[i];
    }
    if HasEqual(cmp, t, x) {
      var i :| 0 <= i < |t| && cmp(t[i], x) == 0;
      assert s[i + 1] == t[i];
    }
  }

  /** Every element of a sequence built from t and x lies above h when t and x do. */
  lemma AllAbove<T(!new)>(cmp: Comparator<T>, h: T, t: seq<T>, x: T, rt: seq<T>)
    requires forall j :: 0 <= j < |t| ==> cmp(h, t[j]) < 0
    requires cmp(h, x) < 0
    requires forall y :: y in rt ==> y in t || y == x
    ensures forall j :: 0 <= j < |rt| ==> cmp(h, rt[j]) < 0
  {
    forall j | 0 <= j < |rt| ensures cmp(h, rt[j]) < 0 {
      if rt[j] != x {
        assert rt[j] in t;
      }
    }
  }

  /** add when x is below the first element: x goes in front. */
  lemma AddBelowHead<T(!new)>(cmp: Comparator<T>, s: seq<T>, x: T)
    requires IsComparator(cmp) && StrictlySorted(cmp, s) && |s| > 0 && cmp(x, s[0]) < 0
    ensures StrictlySorted(cmp, Add(cmp, s, x))
    ensures !HasEqual(cmp, s, x)
    ensures |Add(cmp, s, x)| == |s| + 1 && forall y :: y in Add(cmp, s, x) <==> y in s || y == x
  {
    BelowHead(cmp, s, x);
    PrependSorted(cmp, x, s);
  }

  /** add when x is above the first element: the first element stays, x goes into the tail. */
  lemma AddAboveHead<T(!new)>(cmp: Comparator<T>, s: seq<T>, x: T)
    requires StrictlySorted(cmp, s) && |s| > 0 && cmp(x, s[0]) > 0 && cmp(s[0], x) < 0
    requires HasEqual(cmp, s, x) <==> HasEqual(cmp, s[1..], x)
    requires StrictlySorted(cmp, Add(cmp, s[1..], x))
    requires HasEqual(cmp, s[1..], x) ==> Add(cmp, s[1..], x) == s[1..]
    requires !HasEqual(cmp, s[1..], x) ==>
      forall y :: y in Add(cmp, s[1..], x) <==> y in s[1..] || y == x
    ensures StrictlySorted(cmp, Add(cmp, s, x))
    ensures HasEqual(cmp, s, x) ==> Add(cmp, s, x) == s
    ensures !HasEqual(cmp, s, x) ==> forall y :: y in Add(cmp, s, x) <==> y in s || y == x
  {
    var t := s[1..];
    assert s == [s[0]] + t;
    if !HasEqual(cmp, t, x) {
      var rt := Add(cmp, t, x);
      assert forall j :: 0 <= j < |t| ==> cmp(s[0], t[j]) < 0 by {
        forall j | 0 <= j < |t| ensures cmp(s[0], t[j]) < 0 {
          assert t[j] == s[j + 1];
        }
      }
      AllAbove(cmp, s[0], t, x, rt);
      PrependSorted(cmp, s[0], rt);
    }
  }

  /**
   * add on a strictly sorted sequence keeps it strictly sorted; it changes nothing when an equal
   * element is present, and otherwise inserts exactly x.
   */
  lemma {:induction false} AddSpec<T(!new)>(cmp: Comparator<T>, s: seq<T>, x: T)
    requires IsComparator(cmp) && StrictlySorted(cmp, s)
    ensures StrictlySorted(cmp, Add(cmp, s, x))
    ensures HasEqual(cmp, s, x) ==> Add(cmp, s, x) == s
    ensures !HasEqual(cmp, s, x) ==>
      |Add(cmp, s, x)| == |s| + 1 && forall y :: y in Add(cmp, s, x) <==> y in s || y == x
  {
    if |s| == 0 {
    } else if cmp(x, s[0]) < 0 {
      AddBelowHead(cmp, s, x);
    } else if cmp(x, s[0]) == 0 {
      EqualSymmetric(cmp, x, s[0]);
      assert cmp(s[0], x) == 0;
    } else {
      TailSorted(cmp, s);
      AddSpec(cmp, s[1..], x);
      AboveHead(cmp, s, x);
      AddAboveHead(cmp, s, x);
    }
  }

  /**
   * One more add keeps the three facts addAll establishes about membership: what was there stays,
   * only given elements arrive, and every given element has an equal.
   */
  lemma AddAllStep<T(!new)>(cmp: Comparator<T>, s: seq<T>, init: seq<T>, x: T)
    requires cmp(x, x) == 0
    requires forall y :: y in s ==> y in AddAll(cmp, s, init)
    requires forall y :: y in AddAll(cmp, s, init) ==> y in s || y in init
    requires forall i :: 0 <= i < |init| ==> HasEqual(cmp, AddAll(cmp, s, init), init[i])
    requires HasEqual(cmp, AddAll(cmp, s, init), x) ==> Add(cmp, AddAll(cmp, s, init), x) == AddAll(cmp, s, init)
    requires !HasEqual(cmp, AddAll(cmp, s, init), x) ==>
      forall y :: y in Add(cmp, AddAll(cmp, s, init), x) <==> y in AddAll(cmp, s, init) || y == x
    ensures forall y :: y in s ==> y in AddAll(cmp, s, init + [x])
    ensures forall y :: y in AddAll(cmp, s, init + [x]) ==> y in s || y in init + [x]
    ensures forall i :: 0 <= i < |init + [x]| ==> HasEqual(cmp, AddAll(cmp, s, init + [x]), (init + [x])[i])
  {
    var coll := init + [x];
    var r0 := AddAll(cmp, s, init);
    var r := Add(cmp, r0, x);
    assert coll[..|coll| - 1] == init;
    assert r == AddAll(cmp, s, coll);
    assert forall y :: y in r0 ==> y in r;
    forall i | 0 <= i < |coll| ensures HasEqual(cmp, r, coll[i]) {
      if i < |init| {
        assert init[i] == coll[i];
        var k :| 0 <= k < |r0| && cmp(r0[k], coll[i]) == 0;
        assert r0[k] in r;
        var m :| 0 <= m < |r| && r[m] == r0[k];
      } else if !HasEqual(cmp, r0, x) {
        assert x in r;
        var m :| 0 <= m < |r| && r[m] == x;
      }
    }
    forall y | y in r ensures y in s || y in coll {
      if y in init {
        var k :| 0 <= k < |init| && init[k] == y;
        assert coll[k] == y;
      }
    }
  }

  /**
   * addAll onto a strictly sorted sequence: the result is strictly sorted, keeps the elements it
   * started with, contains only elements it started with or was given, and holds an element equal
   * to every element it was given.
   */
  lemma {:induction false} AddAllSpec<T(!new)>(cmp: Comparator<T>, s: seq<T>, coll: seq<T>)
    requires IsComparator(cmp) && StrictlySorted(cmp, s)
    ensures StrictlySorted(cmp, AddAll(cmp, s, coll))
    ensures forall y :: y in s ==> y in AddAll(cmp, s, coll)
    ensures forall y :: y in AddAll(cmp, s, coll) ==> y in s || y in coll
    ensures forall i :: 0 <= i < |coll| ==> HasEqual(cmp, AddAll(cmp, s, coll), coll[i])
  {
    if |coll| > 0 {
      var init, x := coll[..|coll| - 1], coll[|coll| - 1];
      AddAllSpec(cmp, s, init);
      AddSpec(cmp, AddAll(cmp, s, init), x);
      Reflexive(cmp, x);
      AddAllStep(cmp, s, init, x);
      InitLast(coll);
    }
  }

  /** Elements all compare below x: add appends x. */
  lemma {:induction false} AddGreatest<T(!new)>(cmp: Comparator<T>, s: seq<T>, x: T)
    requires IsComparator(cmp) && forall j :: 0 <= j < |s| ==> cmp(s[j], x) < 0
    ensures Add(cmp, s, x) == s + [x]
  {
    if |s| > 0 {
      assert cmp(x, s[0]) > 0;
      AddGreatest(cmp, s[1..], x);
      assert s == [s[0]] + s[1..];
    }
  }

  /** A TreeSet built from a strictly sorted sequence iterates as that sequence. */
  lemma {:induction false} AddAllSorted<T(!new)>(cmp: Comparator<T>, coll: seq<T>)
    requires IsComparator(cmp) && StrictlySorted(cmp, coll)
    ensures AddAll(cmp, [], coll) == coll
  {
    if |coll| > 0 {
      var init, x := coll[..|coll| - 1], coll[|coll| - 1];
      assert StrictlySorted(cmp, init) by {
        forall i, j | 0 <= i < j < |init| ensures cmp(init[i], init[j]) < 0 {
          assert init[i] == coll[i] && init[j] == coll[j];
        }
      }
      AddAllSorted(cmp, init);
      assert forall j :: 0 <= j < |init| ==> cmp(init[j], x) < 0 by {
        forall j | 0 <= j < |init| ensures cmp(init[j], x) < 0 {
          assert init[j] == coll[j];
        }
      }
      AddGreatest(cmp, init, x);
      InitLast(coll);
    }
  }

  /** Two sequences covering each other up to equality have equal elements for the same x. */
  lemma HasEqualCovered<T(!new)>(cmp: Comparator<T>, r: seq<T>, coll: seq<T>, x: T)
    requires IsComparator(cmp)
    requires forall y :: y in r ==> y in coll
    requires forall i :: 0 <= i < |coll| ==> HasEqual(cmp, r, coll[i])
    ensures HasEqual(cmp, r, x) <==> HasEqual(cmp, coll, x)
  {
    if HasEqual(cmp, r, x) {
      var k :| 0 <= k < |r| && cmp(r[k], x) == 0;
      assert r[k] in coll;
      var m :| 0 <= m < |coll| && coll[m] == r[k];
    }
    if HasEqual(cmp, coll, x) {
      var m :| 0 <= m < |coll| && cmp(coll[m], x) == 0;
      var k :| 0 <= k < |r| && cmp(r[k], coll[m]) == 0;
      EqualTransitive(cmp, r[k], coll[m], x);
    }
  }

  /** A TreeSet built from a collection holds one element per comparator-equal class of it. */
  lemma {:induction false} AddAllSize<T(!new)>(cmp: Comparator<T>, coll: seq<T>)
    requires IsComparator(cmp)
    ensures |AddAll(cmp, [], coll)| == DistinctCount(cmp, coll)
  {
    if |coll| > 0 {
      var init, x := coll[..|coll| - 1], coll[|coll| - 1];
      AddAllSize(cmp, init);
      AddAllSpec(cmp, [], init);
      var r0 := AddAll(cmp, [], init);
      AddSpec(cmp, r0, x);
      HasEqualCovered(cmp, r0, init, x);
    }
  }
}
