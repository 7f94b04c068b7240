/** Small sequence helpers shared by several modules. */
module Seqs {

  /** Concatenation of a sequence of sequences, in order. */
  function Concat<T>(parts: seq<seq<T>>): (r: seq<T>)
  {
    if parts == [] then [] else Concat(parts[..|parts| - 1]) + parts[|parts| - 1]
  }

  /** Concatenation distributes over appending two lists of parts. */
  lemma {:induction false} ConcatAppend<T>(a: seq<seq<T>>, b: seq<seq<T>>)
    ensures Concat(a + b) == Concat(a) + Concat(b)
  {
    if b == [] {
      assert a + b == a;
    } else {
      var b', last := b[..|b| - 1], b[|b| - 1];
      assert b == b' + [last];
      assert a + b == (a + b') + [last];
      ConcatSnoc(a + b', last);
      ConcatSnoc(b', last);
      ConcatAppend(a, b');
    }
  }

  /** Concatenating one part more appends it. */
  lemma ConcatSnoc<T>(parts: seq<seq<T>>, p: seq<T>)
    ensures Concat(parts + [p]) == Concat(parts) + p
  {
    assert (parts + [p])[..|parts|] == parts;
  }

  /** Concatenating a part in front prepends it. */
  lemma ConcatCons<T>(p: seq<T>, parts: seq<seq<T>>)
    ensures Concat([p] + parts) == p + Concat(parts)
  {
    ConcatAppend([p], parts);
    assert [p][..0] == [];
  }

  /** A nonempty sequence is its prefix followed by its last element. */
  lemma InitLast<T>(s: seq<T>)
    requires |s| > 0
    ensures s[..|s| - 1] + [s[|s| - 1]] == s
  {
  }

  /** A prefix splits at any point inside it. */
  lemma TakeSplit<T>(s: seq<T>, a: int, b: int)
    requires 0 <= a <= b <= |s|
    ensures s[..b] == s[..a] + s[a..b]
  {
  }

  /** A prefix one longer adds the next element. */
  lemma TakeNext<T>(s: seq<T>, j: int)
    requires 0 <= j < |s|
    ensures s[..j + 1] == s[..j] + [s[j]]
  {
  }

  /** When exactly the positions in [lo, hi) satisfy inside, the slice holds exactly those elements. */
  lemma SliceMembers<T>(s: seq<T>, lo: int, hi: int, inside: T -> bool)
    requires 0 <= lo <= hi <= |s|
    requires forall j :: 0 <= j < |s| ==> (inside(s[j]) <==> lo <= j < hi)
    ensures forall y :: y in s[lo..hi] <==> y in s && inside(y)
  {
    forall y | y in s && inside(y) ensures y in s[lo..hi] {
      var k :| 0 <= k < |s| && s[k] == y;
      assert s[lo..hi][k - lo] == y;
    }
  }

  /** Applies a (partial) function to every element, keeping the order. */
  function MapSeq<A, B>(f: A --> B, s: seq<A>): (r: seq<B>)
    requires forall i :: 0 <= i < |s| ==> f.requires(s[i])
    ensures |r| == |s| && forall i :: 0 <= i < |s| ==> r[i] == f(s[i])
  {
    seq(|s|, i requires 0 <= i < |s| => f(s[i]))
  }

  /** The elements satisfying p, in their original order (Stream.filter). */
  function Filter<T(!new)>(p: T -> bool, s: seq<T>): (r: seq<T>)
    ensures |r| <= |s|
    ensures forall y :: multiset(r)[y] == if p(y) then multiset(s)[y] else 0
    ensures forall y :: y in r <==> y in s && p(y)
  {
    if s == [] then []
    else
      var rest := Filter(p, s[1..]);
      assert s == [s[0]] + s[1..];
      if p(s[0]) then [s[0]] + rest else rest
  }

  /** Filtering keeps everything when every element passes. */
  lemma {:induction false} FilterAll<T(!new)>(p: T -> bool, s: seq<T>)
    requires forall y :: y in s ==> p(y)
    ensures Filter(p, s) == s
  {
    if s != [] {
      assert s == [s[0]] + s[1..];
      FilterAll(p, s[1..]);
    }
  }

  /** Filtering keeps nothing when no element passes. */
  lemma FilterNone<T(!new)>(p: T -> bool, s: seq<T>)
    requires forall y :: y in s ==> !p(y)
    ensures Filter(p, s) == []
  {
    if Filter(p, s) != [] {
      assert Filter(p, s)[0] in Filter(p, s);
    }
  }

  /** The pieces f gives for the elements, concatenated in order. */
  function FlatMap<A, B>(f: A -> seq<B>, s: seq<A>): seq<B>
  {
    if s == [] then [] else FlatMap(f, s[..|s| - 1]) + f(s[|s| - 1])
  }

  lemma {:induction false} FlatMapAppend<A, B>(f: A -> seq<B>, a: seq<A>, b: seq<A>)
    ensures FlatMap(f, a + b) == FlatMap(f, a) + FlatMap(f, b)
  {
    if b == [] {
      assert a + b == a;
    } else {
      var init := b[..|b| - 1];
      assert (a + b)[..|a + b| - 1] == a + init;
      assert (a + b)[|a + b| - 1] == b[|b| - 1];
      FlatMapAppend(f, a, init);
    }
  }
}
