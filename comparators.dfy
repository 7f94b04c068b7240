/**
 * The java.util.Comparator contract, the comparators of the Java library the core relies on
 * (Integer.compare, String.compareTo, Comparator.reversed) and the maximum reduction that
 * Stream.max performs with a comparator.
 */
module Comparators {
  import opened JavaStrings

  /** A comparator answers negative, zero or positive, as java.util.Comparator.compare does. */
  type Comparator<!T> = (T, T) -> int

  /**
   * The three clauses of the Comparator contract: sgn(compare(a, b)) == -sgn(compare(b, a)),
   * transitivity of "greater", and "equal elements compare alike with every third element".
   */
  ghost predicate IsComparator<T(!new)>(cmp: Comparator<T>)
  {
    && (forall a, b :: cmp(a, b) > 0 <==> cmp(b, a) < 0)
    && (forall a, b, c {:trigger cmp(a, b), cmp(b, c), cmp(a, c)} ::
          cmp(a, b) > 0 && cmp(b, c) > 0 ==> cmp(a, c) > 0)
    && (forall a, b, c {:trigger cmp(a, b), cmp(a, c), cmp(b, c)} ::
          cmp(a, b) == 0 ==> (cmp(a, c) > 0 <==> cmp(b, c) > 0))
  }

  /** Every element compares equal to itself. */
  lemma Reflexive<T(!new)>(cmp: Comparator<T>, a: T)
    requires IsComparator(cmp)
    ensures cmp(a, a) == 0
  {
    assert cmp(a, a) > 0 <==> cmp(a, a) < 0;
  }

  /** "Equal" is symmetric. */
  lemma EqualSymmetric<T(!new)>(cmp: Comparator<T>, a: T, b: T)
    requires IsComparator(cmp)
    ensures cmp(a, b) == 0 <==> cmp(b, a) == 0
  {
    assert cmp(a, b) > 0 <==> cmp(b, a) < 0;
    assert cmp(b, a) > 0 <==> cmp(a, b) < 0;
  }

  /** "At most" is transitive. */
  lemma LeTransitive<T(!new)>(cmp: Comparator<T>, a: T, b: T, c: T)
    requires IsComparator(cmp)
    requires cmp(a, b) <= 0 && cmp(b, c) <= 0
    ensures cmp(a, c) <= 0
  {
    if cmp(a, b) == 0 {
      assert cmp(a, c) > 0 <==> cmp(b, c) > 0;
    } else if cmp(b, c) == 0 {
      assert cmp(b, a) > 0;
      assert cmp(b, a) > 0 <==> cmp(c, a) > 0;
      assert cmp(c, a) > 0 <==> cmp(a, c) < 0;
    } else {
      assert cmp(b, a) > 0 && cmp(c, b) > 0;
      assert cmp(c, a) > 0;
      assert cmp(c, a) > 0 <==> cmp(a, c) < 0;
    }
  }

  /** "Less" followed by "at most" is "less". */
  lemma LtLeTransitive<T(!new)>(cmp: Comparator<T>, a: T, b: T, c: T)
    requires IsComparator(cmp)
    requires cmp(a, b) < 0 && cmp(b, c) <= 0
    ensures cmp(a, c) < 0
  {
    assert cmp(b, a) > 0;
    if cmp(b, c) == 0 {
      EqualSymmetric(cmp, b, c);
      assert cmp(c, a) > 0 <==> cmp(b, a) > 0;
      assert cmp(c, a) > 0 <==> cmp(a, c) < 0;
    } else {
      assert cmp(c, b) > 0;
      assert cmp(c, a) > 0;
      assert cmp(c, a) > 0 <==> cmp(a, c) < 0;
    }
  }

  /** "At most" followed by "less" is "less". */
  lemma LeLtTransitive<T(!new)>(cmp: Comparator<T>, a: T, b: T, c: T)
    requires IsComparator(cmp)
    requires cmp(a, b) <= 0 && cmp(b, c) < 0
    ensures cmp(a, c) < 0
  {
    assert cmp(c, b) > 0;
    if cmp(a, b) == 0 {
      EqualSymmetric(cmp, a, b);
      assert cmp(b, a) == 0;
      assert cmp(b, c) < 0;
      // a and b are equal, so they compare alike with c
      assert cmp(c, b) > 0 <==> cmp(b, c) < 0;
      assert cmp(c, a) >= 0 || cmp(c, a) < 0;
      ReversedEqual(cmp, a, b, c);
    } else {
      assert cmp(b, a) > 0;
      assert cmp(c, a) > 0;
      assert cmp(c, a) > 0 <==> cmp(a, c) < 0;
    }
  }

  /** Elements that compare equal are on the same side of every third element. */
  lemma ReversedEqual<T(!new)>(cmp: Comparator<T>, a: T, b: T, c: T)
    requires IsComparator(cmp) && cmp(a, b) == 0
    ensures cmp(a, c) < 0 <==> cmp(b, c) < 0
  {
    EqualSymmetric(cmp, a, b);
    assert cmp(b, a) == 0;
    assert cmp(a, c) < 0 <==> cmp(c, a) > 0;
    assert cmp(b, c) < 0 <==> cmp(c, b) > 0;
    // c versus a and c versus b: use the third clause through the reversed order
    if cmp(c, a) > 0 {
      assert cmp(c, a) > 0 && cmp(a, b) >= 0;
      CGreater(cmp, c, a, b);
    }
    if cmp(c, b) > 0 {
      CGreater(cmp, c, b, a);
    }
  }

  /** Something greater than an element is greater than everything equal to it. */
  lemma CGreater<T(!new)>(cmp: Comparator<T>, c: T, a: T, b: T)
    requires IsComparator(cmp) && cmp(c, a) > 0 && cmp(a, b) == 0
    ensures cmp(c, b) > 0
  {
    EqualSymmetric(cmp, a, b);
    assert cmp(b, a) == 0;
    assert cmp(b, c) > 0 <==> cmp(a, c) > 0;
    assert cmp(a, c) < 0;
    assert cmp(b, c) <= 0;
    EqualSymmetric(cmp, b, c);
    assert cmp(c, b) == 0 ==> (cmp(c, a) > 0 <==> cmp(b, a) > 0);
    assert cmp(b, c) < 0;
  }

  /** "Equal" is transitive. */
  lemma EqualTransitive<T(!new)>(cmp: Comparator<T>, a: T, b: T, c: T)
    requires IsComparator(cmp) && cmp(a, b) == 0 && cmp(b, c) == 0
    ensures cmp(a, c) == 0
  {
    LeTransitive(cmp, a, b, c);
    EqualSymmetric(cmp, a, b);
    EqualSymmetric(cmp, b, c);
    LeTransitive(cmp, c, b, a);
    EqualSymmetric(cmp, a, c);
  }

  /** Comparator.reversed(): compares its arguments the other way round. */
  function Reversed<T(!new)>(cmp: Comparator<T>): (rev: Comparator<T>)
    ensures forall a, b :: rev(a, b) == cmp(b, a)
  {
    (a, b) => cmp(b, a)
  }

  /** Reversing a comparator keeps the contract. */
  lemma ReversedIsComparator<T(!new)>(cmp: Comparator<T>)
    requires IsComparator(cmp)
    ensures IsComparator(Reversed(cmp))
  {
    var rev := Reversed(cmp);
    forall a, b, c | rev(a, b) == 0
      ensures rev(a, c) > 0 <==> rev(b, c) > 0
    {
      EqualSymmetric(cmp, b, a);
      assert cmp(b, a) == 0;
      assert cmp(c, b) >= 0 ==> cmp(b, c) <= 0;
      // c versus a and c versus b agree because a and b are equal
      if cmp(c, a) < 0 {
        LtLeTransitive(cmp, c, a, b);
      }
      if cmp(c, b) < 0 {
        EqualSymmetric(cmp, a, b);
        LtLeTransitive(cmp, c, b, a);
      }
    }
  }

  /** Elements that compare equal are compared alike by every first element. */
  lemma RightEqual<T(!new)>(cmp: Comparator<T>, a: T, b: T, c: T)
    requires IsComparator(cmp) && cmp(b, c) == 0
    ensures cmp(a, b) > 0 <==> cmp(a, c) > 0
  {
    assert cmp(a, b) > 0 <==> cmp(b, a) < 0;
    assert cmp(a, c) > 0 <==> cmp(c, a) < 0;
    ReversedEqual(cmp, b, c, a);
  }

  /** Comparator.comparing(key, cmp): compares the keys. */
  function Comparing<T(!new), K>(key: T -> K, cmp: Comparator<K>): (r: Comparator<T>)
    ensures forall a, b :: r(a, b) == cmp(key(a), key(b))
  {
    (a, b) => cmp(key(a), key(b))
  }

  /** Comparing keys with a comparator is a comparator. */
  lemma ComparingIsComparator<T(!new), K(!new)>(key: T -> K, cmp: Comparator<K>)
    requires IsComparator(cmp)
    ensures IsComparator(Comparing(key, cmp))
  {
    var r := Comparing(key, cmp);
    forall a, b ensures r(a, b) > 0 <==> r(b, a) < 0 {
      assert cmp(key(a), key(b)) > 0 <==> cmp(key(b), key(a)) < 0;
    }
    forall a, b, c | r(a, b) > 0 && r(b, c) > 0 ensures r(a, c) > 0 {
      assert cmp(key(a), key(c)) > 0;
    }
    forall a, b, c | r(a, b) == 0 ensures r(a, c) > 0 <==> r(b, c) > 0 {
      assert cmp(key(a), key(c)) > 0 <==> cmp(key(b), key(c)) > 0;
    }
  }

  /** Comparator.thenComparing: the first comparator, and the second one to break ties. */
  function ThenComparing<T(!new)>(first: Comparator<T>, second: Comparator<T>): (r: Comparator<T>)
    ensures forall a, b :: r(a, b) == if first(a, b) != 0 then first(a, b) else second(a, b)
  {
    (a, b) => if first(a, b) != 0 then first(a, b) else second(a, b)
  }

  lemma ThenTransitive<T(!new)>(first: Comparator<T>, second: Comparator<T>, a: T, b: T, c: T)
    requires IsComparator(first) && IsComparator(second)
    requires ThenComparing(first, second)(a, b) > 0 && ThenComparing(first, second)(b, c) > 0
    ensures ThenComparing(first, second)(a, c) > 0
  {
    if first(a, b) == 0 && first(b, c) == 0 {
      EqualTransitive(first, a, b, c);
      assert second(a, c) > 0;
    } else if first(a, b) == 0 {
      assert first(a, c) > 0 <==> first(b, c) > 0;
    } else if first(b, c) == 0 {
      RightEqual(first, a, b, c);
    } else {
      assert first(a, c) > 0;
    }
  }

  lemma ThenSubstitutive<T(!new)>(first: Comparator<T>, second: Comparator<T>, a: T, b: T, c: T)
    requires IsComparator(first) && IsComparator(second)
    requires ThenComparing(first, second)(a, b) == 0
    ensures ThenComparing(first, second)(a, c) > 0 <==> ThenComparing(first, second)(b, c) > 0
  {
    assert first(a, b) == 0 && second(a, b) == 0;
    assert first(a, c) > 0 <==> first(b, c) > 0;
    ReversedEqual(first, a, b, c);
    assert second(a, c) > 0 <==> second(b, c) > 0;
    if first(a, c) == 0 {
      EqualSymmetric(first, a, b);
      EqualTransitive(first, b, a, c);
    }
    if first(b, c) == 0 {
      EqualTransitive(first, a, b, c);
    }
  }

  /** Breaking ties of a comparator with another comparator gives a comparator. */
  lemma ThenComparingIsComparator<T(!new)>(first: Comparator<T>, second: Comparator<T>)
    requires IsComparator(first) && IsComparator(second)
    ensures IsComparator(ThenComparing(first, second))
  {
    var r := ThenComparing(first, second);
    forall a, b ensures r(a, b) > 0 <==> r(b, a) < 0 {
      EqualSymmetric(first, a, b);
      assert first(a, b) > 0 <==> first(b, a) < 0;
      assert second(a, b) > 0 <==> second(b, a) < 0;
    }
    forall a, b, c | r(a, b) > 0 && r(b, c) > 0 ensures r(a, c) > 0 {
      ThenTransitive(first, second, a, b, c);
    }
    forall a, b, c | r(a, b) == 0 ensures r(a, c) > 0 <==> r(b, c) > 0 {
      ThenSubstitutive(first, second, a, b, c);
    }
  }

  /** Integer.compare. */
  function IntCompare(x: int, y: int): (r: int)
    ensures r < 0 <==> x < y
    ensures r == 0 <==> x == y
    ensures r > 0 <==> x > y
  {
    if x < y then -1 else if x == y then 0 else 1
  }

  /** Integer.compare obeys the Comparator contract. */
  lemma IntCompareIsComparator()
    ensures IsComparator(IntCompare)
  {
  }

  /**
   * Lexicographic comparison as the Java library writes it: the difference of the keys of the
   * first pair of differing elements, or the difference of the lengths when one sequence is a
   * prefix of the other.
   */
  function LexCompare<T(==)>(key: T -> int, a: seq<T>, b: seq<T>): int
  {
    if a == [] || b == [] then |a| - |b|
    else if a[0] != b[0] then key(a[0]) - key(b[0])
    else LexCompare(key, a[1..], b[1..])
  }

  /** Different elements have different keys. */
  ghost predicate Injective<T(!new)>(key: T -> int)
  {
    forall x, y :: key(x) == key(y) ==> x == y
  }

  /** With an injective key the comparison answers zero exactly on equal sequences. */
  lemma {:induction false} LexCompareZero<T(!new)>(key: T -> int, a: seq<T>, b: seq<T>)
    requires Injective(key)
    ensures LexCompare(key, a, b) == 0 <==> a == b
  {
    if a != [] && b != [] && a[0] == b[0] {
      LexCompareZero(key, a[1..], b[1..]);
      assert a == [a[0]] + a[1..] && b == [b[0]] + b[1..];
    }
  }

  lemma {:induction false} LexCompareAntisymmetric<T(!new)>(key: T -> int, a: seq<T>, b: seq<T>)
    ensures LexCompare(key, a, b) > 0 <==> LexCompare(key, b, a) < 0
  {
    if a != [] && b != [] && a[0] == b[0] {
      LexCompareAntisymmetric(key, a[1..], b[1..]);
    }
  }

  lemma {:induction false} LexCompareTransitive<T(!new)>(key: T -> int, a: seq<T>, b: seq<T>, c: seq<T>)
    requires LexCompare(key, a, b) > 0 && LexCompare(key, b, c) > 0
    ensures LexCompare(key, a, c) > 0
  {
    if a != [] && b != [] && c != [] && a[0] == b[0] && b[0] == c[0] {
      LexCompareTransitive(key, a[1..], b[1..], c[1..]);
    }
  }

  /** The numeric value of a Java char. */
  function UnitValue(u: CodeUnit): int
  {
    u
  }

  /** The code point of a character. */
  function CodePoint(c: char): int
  {
    c as int
  }

  /**
   * String.compareTo: the lexicographic order of the strings' UTF-16 code units (charAt),
   * so a character above U+FFFF sorts by its high surrogate.
   */
  function StringCompare(a: string, b: string): int
  {
    LexCompare(UnitValue, Utf16(a), Utf16(b))
  }

  /** String.compareTo answers zero exactly on equal strings. */
  lemma StringCompareZero(a: string, b: string)
    ensures StringCompare(a, b) == 0 <==> a == b
  {
    LexCompareZero(UnitValue, Utf16(a), Utf16(b));
    if Utf16(a) == Utf16(b) {
      Utf16Injective(a, b);
    }
  }

  lemma StringCompareAntisymmetric(a: string, b: string)
    ensures StringCompare(a, b) > 0 <==> StringCompare(b, a) < 0
  {
    LexCompareAntisymmetric(UnitValue, Utf16(a), Utf16(b));
  }

  lemma StringCompareTransitive(a: string, b: string, c: string)
    requires StringCompare(a, b) > 0 && StringCompare(b, c) > 0
    ensures StringCompare(a, c) > 0
  {
    LexCompareTransitive(UnitValue, Utf16(a), Utf16(b), Utf16(c));
  }

  /** String.compareTo obeys the Comparator contract. */
  lemma StringCompareIsComparator()
    ensures IsComparator(StringCompare)
  {
    forall a, b ensures StringCompare(a, b) > 0 <==> StringCompare(b, a) < 0 {
      StringCompareAntisymmetric(a, b);
    }
    forall a, b, c | StringCompare(a, b) > 0 && StringCompare(b, c) > 0
      ensures StringCompare(a, c) > 0
    {
      StringCompareTransitive(a, b, c);
    }
    forall a, b, c | StringCompare(a, b) == 0
      ensures StringCompare(a, c) > 0 <==> StringCompare(b, c) > 0
    {
      StringCompareZero(a, b);
    }
  }

  /**
   * The lexicographic order of the strings' code points: the order Java's case-insensitive
   * comparison applies to case-mapped characters.
   */
  function CodePointCompare(a: string, b: string): int
  {
    LexCompare(CodePoint, a, b)
  }

  lemma CodePointCompareZero(a: string, b: string)
    ensures CodePointCompare(a, b) == 0 <==> a == b
  {
    LexCompareZero(CodePoint, a, b);
  }

  lemma CodePointCompareAntisymmetric(a: string, b: string)
    ensures CodePointCompare(a, b) > 0 <==> CodePointCompare(b, a) < 0
  {
    LexCompareAntisymmetric(CodePoint, a, b);
  }

  lemma CodePointCompareTransitive(a: string, b: string, c: string)
    requires CodePointCompare(a, b) > 0 && CodePointCompare(b, c) > 0
    ensures CodePointCompare(a, c) > 0
  {
    LexCompareTransitive(CodePoint, a, b, c);
  }

  /**
   * The two orders part ways above U+FFFF: String.compareTo puts U+FFFF after U+1F600, whose
   * first unit is the surrogate 0xD83D, while the code points order them the other way.
   */
  lemma SupplementarySortsBySurrogate()
    ensures StringCompare("\U{FFFF}", "\U{1F600}") > 0
    ensures CodePointCompare("\U{FFFF}", "\U{1F600}") < 0
  {
    assert Utf16("\U{FFFF}") == [0xFFFF];
    assert Utf16("\U{1F600}") == [0xD83D, 0xDE00];
  }

  /** BinaryOperator.maxBy: keeps the left operand unless the right one is strictly greater. */
  function PickMax<T(!new)>(cmp: Comparator<T>, a: T, b: T): (r: T)
    ensures r == a || r == b
  {
    if cmp(a, b) >= 0 then a else b
  }

  /** Stream.max(cmp) on a sequential stream: a left-to-right reduction with PickMax. */
  function MaxBy<T(!new)>(cmp: Comparator<T>, s: seq<T>): (r: T)
    requires |s| > 0
    ensures r in s
  {
    if |s| == 1 then s[0] else PickMax(cmp, MaxBy(cmp, s[..|s| - 1]), s[|s| - 1])
  }

  /** The maximum is the first element that no element exceeds. */
  ghost predicate IsFirstMaximum<T(!new)>(cmp: Comparator<T>, s: seq<T>, i: int)
  {
    && 0 <= i < |s|
    && (forall j :: 0 <= j < |s| ==> cmp(s[j], s[i]) <= 0)
    && (forall j :: 0 <= j < i ==> cmp(s[j], s[i]) < 0)
  }

  /** Stream.max returns the first of the maximal elements. */
  lemma {:induction false} MaxByIsFirstMaximum<T(!new)>(cmp: Comparator<T>, s: seq<T>)
    requires IsComparator(cmp) && |s| > 0
    ensures exists i :: IsFirstMaximum(cmp, s, i) && s[i] == MaxBy(cmp, s)
  {
    if |s| == 1 {
      Reflexive(cmp, s[0]);
      assert IsFirstMaximum(cmp, s, 0);
    } else {
      var init := s[..|s| - 1];
      MaxByIsFirstMaximum(cmp, init);
      var i :| IsFirstMaximum(cmp, init, i) && init[i] == MaxBy(cmp, init);
      if cmp(init[i], s[|s| - 1]) >= 0 {
        FirstMaximumKept(cmp, s, i);
      } else {
        FirstMaximumReplaced(cmp, s, i);
      }
    }
  }

  /** A last element that does not exceed the maximum so far leaves it in place. */
  lemma FirstMaximumKept<T(!new)>(cmp: Comparator<T>, s: seq<T>, i: int)
    requires IsComparator(cmp) && |s| > 1
    requires IsFirstMaximum(cmp, s[..|s| - 1], i) && cmp(s[i], s[|s| - 1]) >= 0
    ensures IsFirstMaximum(cmp, s, i)
  {
    var last := s[|s| - 1];
    EqualSymmetric(cmp, s[i], last);
    assert cmp(s[i], last) > 0 ==> cmp(last, s[i]) < 0;
    assert cmp(last, s[i]) <= 0;
    forall j | 0 <= j < |s| - 1 ensures cmp(s[j], s[i]) <= 0 {
      assert s[j] == s[..|s| - 1][j];
    }
    forall j | 0 <= j < i ensures cmp(s[j], s[i]) < 0 {
      assert s[j] == s[..|s| - 1][j];
    }
  }

  /** A last element strictly greater than the maximum so far becomes the maximum. */
  lemma FirstMaximumReplaced<T(!new)>(cmp: Comparator<T>, s: seq<T>, i: int)
    requires IsComparator(cmp) && |s| > 1
    requires IsFirstMaximum(cmp, s[..|s| - 1], i) && cmp(s[i], s[|s| - 1]) < 0
    ensures IsFirstMaximum(cmp, s, |s| - 1)
  {
    var k := |s| - 1;
    forall j | 0 <= j < k ensures cmp(s[j], s[k]) < 0 {
      assert s[j] == s[..k][j];
      LeLtTransitive(cmp, s[j], s[i], s[k]);
    }
    Reflexive(cmp, s[k]);
  }

  /** The first element that no element is below. */
  ghost predicate IsFirstMinimum<T(!new)>(cmp: Comparator<T>, s: seq<T>, i: int)
  {
    && 0 <= i < |s|
    && (forall j :: 0 <= j < |s| ==> cmp(s[j], s[i]) >= 0)
    && (forall j :: 0 <= j < i ==> cmp(s[j], s[i]) > 0)
  }

  /** The first maximum under the reversed comparator is the first minimum. */
  lemma FirstMaximumOfReversed<T(!new)>(cmp: Comparator<T>, s: seq<T>, i: int)
    requires IsComparator(cmp) && IsFirstMaximum(Reversed(cmp), s, i)
    ensures IsFirstMinimum(cmp, s, i)
  {
    forall j | 0 <= j < |s| ensures cmp(s[j], s[i]) >= 0 {
      assert Reversed(cmp)(s[j], s[i]) == cmp(s[i], s[j]);
      assert cmp(s[i], s[j]) > 0 <==> cmp(s[j], s[i]) < 0;
    }
    forall j | 0 <= j < i ensures cmp(s[j], s[i]) > 0 {
      assert Reversed(cmp)(s[j], s[i]) == cmp(s[i], s[j]);
      assert cmp(s[j], s[i]) > 0 <==> cmp(s[i], s[j]) < 0;
    }
  }

  /** Stream.max under Comparator.reversed() returns the first of the minimal elements. */
  lemma MaxByReversedIsFirstMinimum<T(!new)>(cmp: Comparator<T>, s: seq<T>)
    requires IsComparator(cmp) && |s| > 0
    ensures exists i :: IsFirstMinimum(cmp, s, i) && s[i] == MaxBy(Reversed(cmp), s)
  {
    ReversedIsComparator(cmp);
    MaxByIsFirstMaximum(Reversed(cmp), s);
    var i :| IsFirstMaximum(Reversed(cmp), s, i) && s[i] == MaxBy(Reversed(cmp), s);
    FirstMaximumOfReversed(cmp, s, i);
  }

  /** Two first maxima of one sequence are the same position. */
  lemma FirstMaximumUnique<T(!new)>(cmp: Comparator<T>, s: seq<T>, i: int, j: int)
    requires IsComparator(cmp) && IsFirstMaximum(cmp, s, i) && IsFirstMaximum(cmp, s, j)
    ensures i == j
  {
    assert cmp(s[i], s[j]) <= 0 && cmp(s[j], s[i]) <= 0;
    assert cmp(s[i], s[j]) < 0 <==> cmp(s[j], s[i]) > 0;
    assert cmp(s[j], s[i]) < 0 <==> cmp(s[i], s[j]) > 0;
  }

  /** BinaryOperator.maxBy is associative, which the two-stage reduction relies on. */
  lemma PickMaxAssociative<T(!new)>(cmp: Comparator<T>, a: T, b: T, c: T)
    requires IsComparator(cmp)
    ensures PickMax(cmp, PickMax(cmp, a, b), c) == PickMax(cmp, a, PickMax(cmp, b, c))
  {
    if cmp(a, b) >= 0 && cmp(b, c) >= 0 {
      assert cmp(b, a) <= 0 && cmp(c, b) <= 0 by {
        EqualSymmetric(cmp, a, b);
        EqualSymmetric(cmp, b, c);
      }
      LeTransitive(cmp, c, b, a);
      assert cmp(a, c) >= 0 by {
        EqualSymmetric(cmp, a, c);
      }
    } else if cmp(a, b) < 0 && cmp(b, c) < 0 {
      assert cmp(a, c) < 0 by {
        LeLtTransitive(cmp, a, b, c);
      }
    }
  }

  /** The reduction of init + [last] is the step from the reduction of init. */
  lemma MaxBySnoc<T(!new)>(cmp: Comparator<T>, s: seq<T>, init: seq<T>, last: T)
    requires |init| > 0 && s == init + [last]
    ensures MaxBy(cmp, s) == PickMax(cmp, MaxBy(cmp, init), last)
  {
    assert s[..|s| - 1] == init;
  }

  /** The maximum of a concatenation is the maximum of the two maxima. */
  lemma {:induction false} MaxByAppend<T(!new)>(cmp: Comparator<T>, a: seq<T>, b: seq<T>)
    requires IsComparator(cmp) && |a| > 0 && |b| > 0
    ensures MaxBy(cmp, a + b) == PickMax(cmp, MaxBy(cmp, a), MaxBy(cmp, b))
  {
    if |b| == 1 {
      assert (a + b)[..|a + b| - 1] == a;
    } else {
      var b', last := b[..|b| - 1], b[|b| - 1];
      assert b == b' + [last];
      assert a + b == (a + b') + [last];
      MaxBySnoc(cmp, a + b, a + b', last);
      MaxBySnoc(cmp, b, b', last);
      MaxByAppend(cmp, a, b');
      PickMaxAssociative(cmp, MaxBy(cmp, a), MaxBy(cmp, b'), last);
    }
  }
}
