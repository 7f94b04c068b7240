/**
 * StudentDB: queries over a collection of students, each a stream pipeline of filter, map,
 * sorted, max and collect. A collection is modelled by its encounter order.
 */
module StudentDB {
  import opened Comparators
  import opened Seqs
  import opened Sorting
  import opened TreeSets

  /** The group a student belongs to; groups are only compared for equality. */
  datatype GroupName = GroupName(name: string)

  datatype Student = Student(id: int, firstName: string, lastName: string, group: GroupName)

  // ---------------------------------------------------------------------------------------
  // The two orders
  // ---------------------------------------------------------------------------------------

  /** Comparator.comparingInt(Student::getId). */
  function ById(): Comparator<Student>
  {
    Comparing((st: Student) => st.id, IntCompare)
  }

  /**
   * Comparator.comparing(Student::getLastName).thenComparing(Student::getFirstName)
   * .thenComparing(Student::getId, Comparator.reverseOrder()).
   */
  function ByName(): Comparator<Student>
  {
    ThenComparing(
      ThenComparing(
        Comparing((st: Student) => st.lastName, StringCompare),
        Comparing((st: Student) => st.firstName, StringCompare)),
      Comparing((st: Student) => st.id, Reversed(IntCompare)))
  }

  /** The order by id obeys the Comparator contract and is ascending id. */
  lemma ByIdIsComparator()
    ensures IsComparator(ById())
    ensures forall a, b :: ById()(a, b) <= 0 <==> a.id <= b.id
  {
    IntCompareIsComparator();
    ComparingIsComparator((st: Student) => st.id, IntCompare);
  }

  /** The order by name obeys the Comparator contract. */
  lemma ByNameIsComparator()
    ensures IsComparator(ByName())
  {
    StringCompareIsComparator();
    IntCompareIsComparator();
    ReversedIsComparator(IntCompare);
    ComparingIsComparator((st: Student) => st.lastName, StringCompare);
    ComparingIsComparator((st: Student) => st.firstName, StringCompare);
    ComparingIsComparator((st: Student) => st.id, Reversed(IntCompare));
    ThenComparingIsComparator(
      Comparing((st: Student) => st.lastName, StringCompare),
      Comparing((st: Student) => st.firstName, StringCompare));
    ThenComparingIsComparator(
      ThenComparing(
        Comparing((st: Student) => st.lastName, StringCompare),
        Comparing((st: Student) => st.firstName, StringCompare)),
      Comparing((st: Student) => st.id, Reversed(IntCompare)));
  }

  /**
   * The order by name: last names lexicographically, then first names, then the larger id
   * first; two students are equal under it exactly when all three agree.
   */
  lemma ByNameOrder(a: Student, b: Student)
    ensures ByName()(a, b) < 0 <==>
      || StringCompare(a.lastName, b.lastName) < 0
      || (a.lastName == b.lastName && StringCompare(a.firstName, b.firstName) < 0)
      || (a.lastName == b.lastName && a.firstName == b.firstName && a.id > b.id)
    ensures ByName()(a, b) == 0 <==>
      a.lastName == b.lastName && a.firstName == b.firstName && a.id == b.id
  {
    StringCompareZero(a.lastName, b.lastName);
    StringCompareZero(a.firstName, b.firstName);
  }

  // ---------------------------------------------------------------------------------------
  // The private helpers
  // ---------------------------------------------------------------------------------------

  /** getSmth: the mapper applied to every student, in order. */
  function GetSmth<T>(students: seq<Student>, mapper: Student -> T): (r: seq<T>)
    ensures |r| == |students|
    ensures forall i :: 0 <= i < |students| ==> r[i] == mapper(students[i])
  {
    MapSeq(mapper, students)
  }

  /**
   * sortStudentsBySmth: the students in ascending order of the comparator; a permutation of
   * the input in which equal students keep their encounter order (Stream.sorted is stable).
   */
  function SortStudentsBySmth(students: seq<Student>, cmp: Comparator<Student>): (r: seq<Student>)
    requires IsComparator(cmp)
    ensures multiset(r) == multiset(students)
    ensures Sorted(cmp, r)
    ensures forall e :: EqualRun(cmp, r, e) == EqualRun(cmp, students, e)
  {
    SortPermutation(cmp, students);
    SortSorted(cmp, students);
    assert forall e :: EqualRun(cmp, Sort(cmp, students), e) == EqualRun(cmp, students, e) by {
      forall e ensures EqualRun(cmp, Sort(cmp, students), e) == EqualRun(cmp, students, e) {
        SortStable(cmp, students, e);
      }
    }
    Sort(cmp, students)
  }

  /**
   * findStudentsBySmth: the students satisfying the predicate, each as often as it occurs,
   * in the order by name; students that tie by name keep their encounter order.
   */
  function FindStudentsBySmth(students: seq<Student>, accept: Student -> bool): (r: seq<Student>)
    ensures forall st :: multiset(r)[st] == if accept(st) then multiset(students)[st] else 0
    ensures Sorted(ByName(), r)
    ensures forall e :: EqualRun(ByName(), r, e) == Filter(accept, EqualRun(ByName(), students, e))
  {
    ByNameIsComparator();
    var r := SortStudentsBySmth(Filter(accept, students), ByName());
    assert forall e :: EqualRun(ByName(), r, e) == Filter(accept, EqualRun(ByName(), students, e)) by {
      forall e ensures EqualRun(ByName(), r, e) == Filter(accept, EqualRun(ByName(), students, e)) {
        EqualRunFilter(ByName(), accept, students, e);
      }
    }
    r
  }

  /**
   * A predicate that cannot tell apart students who tie by name keeps a whole run or none
   * of it.
   */
  lemma RunAllOrNothing(students: seq<Student>, accept: Student -> bool, e: Student)
    requires forall a, b :: ByName()(a, b) == 0 ==> accept(a) == accept(b)
    ensures Filter(accept, EqualRun(ByName(), students, e)) ==
      (if accept(e) then EqualRun(ByName(), students, e) else [])
  {
    EqualRunMembers(ByName(), students, e);
    if accept(e) {
      FilterAll(accept, EqualRun(ByName(), students, e));
    } else {
      FilterNone(accept, EqualRun(ByName(), students, e));
    }
  }

  // ---------------------------------------------------------------------------------------
  // The queries
  // ---------------------------------------------------------------------------------------

  function GetFirstNames(students: seq<Student>): (r: seq<string>)
    ensures |r| == |students| && forall i :: 0 <= i < |r| ==> r[i] == students[i].firstName
  {
    GetSmth(students, (st: Student) => st.firstName)
  }

  function GetLastNames(students: seq<Student>): (r: seq<string>)
    ensures |r| == |students| && forall i :: 0 <= i < |r| ==> r[i] == students[i].lastName
  {
    GetSmth(students, (st: Student) => st.lastName)
  }

  function GetGroups(students: seq<Student>): (r: seq<GroupName>)
    ensures |r| == |students| && forall i :: 0 <= i < |r| ==> r[i] == students[i].group
  {
    GetSmth(students, (st: Student) => st.group)
  }

  /** The full name is the first name, one space, and the last name. */
  function GetFullNames(students: seq<Student>): (r: seq<string>)
    ensures |r| == |students|
    ensures forall i :: 0 <= i < |r| ==>
      && |r[i]| == |students[i].firstName| + 1 + |students[i].lastName|
      && r[i][..|students[i].firstName|] == students[i].firstName
      && r[i][|students[i].firstName|] == ' '
      && r[i][|students[i].firstName| + 1..] == students[i].lastName
  {
    GetSmth(students, (st: Student) => st.firstName + " " + st.lastName)
  }

  /** Character.toUpperCase, restricted to the ASCII letters. */
  function ToUpper(c: char): char
  {
    if 'a' <= c <= 'z' then (c as int - 32) as char else c
  }

  /** Character.toLowerCase, restricted to the ASCII letters. */
  function ToLower(c: char): char
  {
    if 'A' <= c <= 'Z' then (c as int + 32) as char else c
  }

  /** Every character mapped through toUpperCase and then toLowerCase. */
  function FoldCase(s: string): (r: string)
    ensures |r| == |s|
  {
    if s == [] then [] else [ToLower(ToUpper(s[0]))] + FoldCase(s[1..])
  }

  /**
   * String.CASE_INSENSITIVE_ORDER: at the first position where the characters differ, and
   * still differ after toUpperCase and again after toLowerCase, the difference of the lowered
   * characters; the difference of the lengths when one string runs out first. A character is
   * a code point here, so a surrogate pair counts as one, as the JDK's comparison does.
   */
  function CompareIgnoreCase(a: string, b: string): int
  {
    if a == [] || b == [] then |a| - |b|
    else
      var c1, c2 := a[0], b[0];
      if c1 != c2 && ToUpper(c1) != ToUpper(c2)
         && ToLower(ToUpper(c1)) != ToLower(ToUpper(c2))
      then ToLower(ToUpper(c1)) as int - ToLower(ToUpper(c2)) as int
      else CompareIgnoreCase(a[1..], b[1..])
  }

  /** The case-insensitive order is the lexicographic order of the case-folded strings. */
  lemma {:induction false} CompareIgnoreCaseFolds(a: string, b: string)
    ensures CompareIgnoreCase(a, b) == CodePointCompare(FoldCase(a), FoldCase(b))
  {
    if a != [] && b != [] {
      CompareIgnoreCaseFolds(a[1..], b[1..]);
      assert FoldCase(a)[1..] == FoldCase(a[1..]);
      assert FoldCase(b)[1..] == FoldCase(b[1..]);
    }
  }

  /** The case-insensitive order obeys the Comparator contract. */
  lemma CompareIgnoreCaseIsComparator()
    ensures IsComparator(CompareIgnoreCase)
  {
    forall a, b ensures CompareIgnoreCase(a, b) > 0 <==> CompareIgnoreCase(b, a) < 0 {
      CompareIgnoreCaseFolds(a, b);
      CompareIgnoreCaseFolds(b, a);
      CodePointCompareAntisymmetric(FoldCase(a), FoldCase(b));
    }
    forall a, b, c | CompareIgnoreCase(a, b) > 0 && CompareIgnoreCase(b, c) > 0
      ensures CompareIgnoreCase(a, c) > 0
    {
      CompareIgnoreCaseFolds(a, b);
      CompareIgnoreCaseFolds(b, c);
      CompareIgnoreCaseFolds(a, c);
      CodePointCompareTransitive(FoldCase(a), FoldCase(b), FoldCase(c));
    }
    forall a, b, c | CompareIgnoreCase(a, b) == 0
      ensures CompareIgnoreCase(a, c) > 0 <==> CompareIgnoreCase(b, c) > 0
    {
      CompareIgnoreCaseFolds(a, b);
      CompareIgnoreCaseFolds(a, c);
      CompareIgnoreCaseFolds(b, c);
      CodePointCompareZero(FoldCase(a), FoldCase(b));
    }
  }

  /** Two strings are equal ignoring case exactly when they fold to the same string. */
  lemma CompareIgnoreCaseZero(a: string, b: string)
    ensures CompareIgnoreCase(a, b) == 0 <==> FoldCase(a) == FoldCase(b)
  {
    CompareIgnoreCaseFolds(a, b);
    CodePointCompareZero(FoldCase(a), FoldCase(b));
  }

  /** The TreeSet facts for the case-insensitive order, kept apart from the comparator proof. */
  lemma CaseInsensitiveSet(names: seq<string>)
    ensures StrictlySorted(CompareIgnoreCase, AddAll(CompareIgnoreCase, [], names))
    ensures forall y :: y in AddAll(CompareIgnoreCase, [], names) ==> y in names
    ensures forall i :: 0 <= i < |names| ==>
      HasEqual(CompareIgnoreCase, AddAll(CompareIgnoreCase, [], names), names[i])
  {
    CompareIgnoreCaseIsComparator();
    AddAllSpec(CompareIgnoreCase, [], names);
  }

  lemma FoldsDistinct(r: seq<string>)
    requires StrictlySorted(CompareIgnoreCase, r)
    ensures forall i, j :: 0 <= i < j < |r| ==> FoldCase(r[i]) != FoldCase(r[j])
  {
    forall i, j | 0 <= i < j < |r| ensures FoldCase(r[i]) != FoldCase(r[j]) {
      CompareIgnoreCaseZero(r[i], r[j]);
    }
  }

  lemma NamesOfStudents(students: seq<Student>, r: seq<string>)
    requires forall y :: y in r ==> y in GetFirstNames(students)
    ensures forall name :: name in r ==> exists st :: st in students && st.firstName == name
  {
    var names := GetFirstNames(students);
    forall name | name in r ensures exists st :: st in students && st.firstName == name {
      var k :| 0 <= k < |names| && names[k] == name;
      assert students[k] in students;
    }
  }

  lemma StudentsCovered(students: seq<Student>, r: seq<string>)
    requires forall i :: 0 <= i < |students| ==> HasEqual(CompareIgnoreCase, r, GetFirstNames(students)[i])
    ensures forall st :: st in students ==>
      exists j :: 0 <= j < |r| && FoldCase(r[j]) == FoldCase(st.firstName)
  {
    forall st | st in students
      ensures exists j :: 0 <= j < |r| && FoldCase(r[j]) == FoldCase(st.firstName)
    {
      var k :| 0 <= k < |students| && students[k] == st;
      assert HasEqual(CompareIgnoreCase, r, GetFirstNames(students)[k]);
      var j :| 0 <= j < |r| && CompareIgnoreCase(r[j], st.firstName) == 0;
      CompareIgnoreCaseZero(r[j], st.firstName);
    }
  }

  /**
   * getDistinctFirstNames: a TreeSet ordered case-insensitively, filled with the first names
   * in order. It is ascending ignoring case, holds no two names equal ignoring case, holds only
   * first names of the students, and holds a name equal ignoring case to every first name.
   */
  function GetDistinctFirstNames(students: seq<Student>): (r: seq<string>)
    ensures forall i, j :: 0 <= i < j < |r| ==> CompareIgnoreCase(r[i], r[j]) < 0
    ensures forall i, j :: 0 <= i < j < |r| ==> FoldCase(r[i]) != FoldCase(r[j])
    ensures forall name :: name in r ==> exists st :: st in students && st.firstName == name
    ensures forall st :: st in students ==>
      exists j :: 0 <= j < |r| && FoldCase(r[j]) == FoldCase(st.firstName)
  {
    var names := GetFirstNames(students);
    var r := AddAll(CompareIgnoreCase, [], names);
    CaseInsensitiveSet(names);
    FoldsDistinct(r);
    NamesOfStudents(students, r);
    StudentsCovered(students, r);
    r
  }

  /**
   * getMaxStudentFirstName: "" for no students; otherwise the first name of the first
   * student with the largest id.
   */
  function GetMaxStudentFirstName(students: seq<Student>): (r: string)
    ensures students == [] ==> r == ""
    ensures students != [] ==>
      exists i :: 0 <= i < |students| && r == students[i].firstName
        && (forall j :: 0 <= j < |students| ==> students[j].id <= students[i].id)
        && (forall j :: 0 <= j < i ==> students[j].id < students[i].id)
  {
    if students == [] then ""
    else
      ByIdIsComparator();
      MaxByIsFirstMaximum(ById(), students);
      MaxBy(ById(), students).firstName
  }

  /** sortStudentsById: a stable permutation in ascending order of id. */
  function SortStudentsById(students: seq<Student>): (r: seq<Student>)
    ensures multiset(r) == multiset(students)
    ensures forall i, j :: 0 <= i < j < |r| ==> r[i].id <= r[j].id
    ensures forall e :: EqualRun(ById(), r, e) == EqualRun(ById(), students, e)
  {
    ByIdIsComparator();
    SortStudentsBySmth(students, ById())
  }

  /** sortStudentsByName: a stable permutation in the order by name. */
  function SortStudentsByName(students: seq<Student>): (r: seq<Student>)
    ensures multiset(r) == multiset(students)
    ensures Sorted(ByName(), r)
    ensures forall e :: EqualRun(ByName(), r, e) == EqualRun(ByName(), students, e)
  {
    ByNameIsComparator();
    SortStudentsBySmth(students, ByName())
  }

  /**
   * findStudentsByLastName: the students with that last name, in the order by name; ties
   * keep their encounter order.
   */
  function FindStudentsByLastName(students: seq<Student>, name: string): (r: seq<Student>)
    ensures forall st :: multiset(r)[st] == if st.lastName == name then multiset(students)[st] else 0
    ensures Sorted(ByName(), r)
    ensures forall e :: EqualRun(ByName(), r, e) == (if e.lastName == name then EqualRun(ByName(), students, e) else [])
  {
    var accept := (st: Student) => st.lastName == name;
    var r := FindStudentsBySmth(students, accept);
    assert forall e :: EqualRun(ByName(), r, e) == (if e.lastName == name then EqualRun(ByName(), students, e) else []) by {
      forall a, b | ByName()(a, b) == 0 ensures accept(a) == accept(b) {
        ByNameOrder(a, b);
      }
      forall e ensures EqualRun(ByName(), r, e) ==
        (if e.lastName == name then EqualRun(ByName(), students, e) else []) {
        RunAllOrNothing(students, accept, e);
      }
    }
    r
  }

  /** Membership of a group, the predicate findStudentsByGroup filters by. */
  function InGroup(group: GroupName): Student -> bool
  {
    (st: Student) => st.group == group
  }

  /**
   * findStudentsByGroup: the students of that group, in the order by name; ties keep their
   * encounter order.
   */
  function FindStudentsByGroup(students: seq<Student>, group: GroupName): (r: seq<Student>)
    ensures forall st :: multiset(r)[st] == if st.group == group then multiset(students)[st] else 0
    ensures Sorted(ByName(), r)
    ensures forall e :: EqualRun(ByName(), r, e) == Filter(InGroup(group), EqualRun(ByName(), students, e))
  {
    FindStudentsBySmth(students, InGroup(group))
  }

  /**
   * findStudentsByFirstName: the students with that first name, in the order by name; ties
   * keep their encounter order.
   */
  function FindStudentsByFirstName(students: seq<Student>, name: string): (r: seq<Student>)
    ensures forall st :: multiset(r)[st] == if st.firstName == name then multiset(students)[st] else 0
    ensures Sorted(ByName(), r)
    ensures forall e :: EqualRun(ByName(), r, e) == (if e.firstName == name then EqualRun(ByName(), students, e) else [])
  {
    var accept := (st: Student) => st.firstName == name;
    var r := FindStudentsBySmth(students, accept);
    assert forall e :: EqualRun(ByName(), r, e) == (if e.firstName == name then EqualRun(ByName(), students, e) else []) by {
      forall a, b | ByName()(a, b) == 0 ensures accept(a) == accept(b) {
        ByNameOrder(a, b);
      }
      forall e ensures EqualRun(ByName(), r, e) ==
        (if e.firstName == name then EqualRun(ByName(), students, e) else []) {
        RunAllOrNothing(students, accept, e);
      }
    }
    r
  }

  /** BinaryOperator.minBy(comparing(Student::getFirstName)): the left one unless the right is smaller. */
  function PickMinByFirstName(a: Student, b: Student): Student
  {
    if StringCompare(a.firstName, b.firstName) <= 0 then a else b
  }

  /** One accumulation step of groupingBy: the student joins the entry of its last name. */
  function Put(m: map<string, Student>, st: Student): map<string, Student>
  {
    if st.lastName in m then m[st.lastName := PickMinByFirstName(m[st.lastName], st)]
    else m[st.lastName := st]
  }

  /** groupingBy(Student::getLastName, minBy(...)): one entry per last name, folded in order. */
  function GroupByLastName(students: seq<Student>): map<string, Student>
  {
    if students == [] then map[]
    else Put(GroupByLastName(students[..|students| - 1]), students[|students| - 1])
  }

  /** The keys are exactly the last names that occur. */
  ghost predicate KeysExact(m: map<string, Student>, students: seq<Student>)
  {
    forall k :: k in m <==> exists st :: st in students && st.lastName == k
  }

  /** Each key maps to a student with that last name. */
  ghost predicate ValuesFrom(m: map<string, Student>, students: seq<Student>)
  {
    forall k :: k in m ==> m[k] in students && m[k].lastName == k
  }

  /** Each key maps to a student whose first name is no greater than any other's with that last name. */
  ghost predicate ValuesMinimal(m: map<string, Student>, students: seq<Student>)
  {
    forall st :: st in students ==>
      st.lastName in m && StringCompare(m[st.lastName].firstName, st.firstName) <= 0
  }

  lemma StringCompareLeTransitive(a: string, b: string, c: string)
    requires StringCompare(a, b) <= 0 && StringCompare(b, c) <= 0
    ensures StringCompare(a, c) <= 0
  {
    StringCompareIsComparator();
    LeTransitive(StringCompare, a, b, c);
  }

  lemma StringCompareTotal(a: string, b: string)
    ensures StringCompare(a, b) <= 0 || StringCompare(b, a) <= 0
  {
    StringCompareAntisymmetric(a, b);
  }

  lemma StringCompareSelf(a: string)
    ensures StringCompare(a, a) == 0
  {
    StringCompareZero(a, a);
  }

  lemma PutKeys(m: map<string, Student>, init: seq<Student>, st: Student)
    requires KeysExact(m, init)
    ensures KeysExact(Put(m, st), init + [st])
  {
    var students := init + [st];
    forall k ensures k in Put(m, st) <==> exists s :: s in students && s.lastName == k {
      if k == st.lastName {
        assert st in students;
      } else if k in m {
        var s :| s in init && s.lastName == k;
        assert s in students;
      }
    }
  }

  lemma PutValues(m: map<string, Student>, init: seq<Student>, st: Student)
    requires ValuesFrom(m, init)
    ensures ValuesFrom(Put(m, st), init + [st])
  {
  }

  lemma PutMinimal(m: map<string, Student>, init: seq<Student>, st: Student)
    requires ValuesMinimal(m, init) && ValuesFrom(m, init) && KeysExact(m, init)
    ensures ValuesMinimal(Put(m, st), init + [st])
  {
    var m' := Put(m, st);
    forall s | s in init + [st]
      ensures s.lastName in m' && StringCompare(m'[s.lastName].firstName, s.firstName) <= 0
    {
      StringCompareSelf(s.firstName);
      if st.lastName in m {
        var prev := m[st.lastName];
        StringCompareTotal(prev.firstName, st.firstName);
        if s != st && s.lastName == st.lastName {
          StringCompareLeTransitive(m'[st.lastName].firstName, prev.firstName, s.firstName);
        }
      } else if s != st {
        assert s in init;
      }
    }
  }

  /**
   * The grouping has a key for exactly the last names that occur, maps each to a student with
   * that last name, and that student's first name is the smallest among them.
   */
  lemma {:induction false} GroupByLastNameSpec(students: seq<Student>)
    ensures KeysExact(GroupByLastName(students), students)
    ensures ValuesFrom(GroupByLastName(students), students)
    ensures ValuesMinimal(GroupByLastName(students), students)
  {
    if students != [] {
      var init, st := students[..|students| - 1], students[|students| - 1];
      GroupByLastNameSpec(init);
      var m := GroupByLastName(init);
      PutKeys(m, init, st);
      PutValues(m, init, st);
      PutMinimal(m, init, st);
      InitLast(students);
    }
  }

  /** collectingAndThen(..., Student::getFirstName): the first name of each entry's student. */
  function FirstNamesOf(g: map<string, Student>): (r: map<string, string>)
    ensures r.Keys == g.Keys && forall k :: k in r ==> r[k] == g[k].firstName
  {
    map k | k in g :: g[k].firstName
  }

  lemma NamesByGroupSpec(g: map<string, Student>, inGroup: seq<Student>, students: seq<Student>,
                         group: GroupName)
    requires KeysExact(g, inGroup) && ValuesFrom(g, inGroup) && ValuesMinimal(g, inGroup)
    requires forall st :: st in inGroup <==> st in students && st.group == group
    ensures forall k :: k in FirstNamesOf(g) <==>
      exists st :: st in students && st.group == group && st.lastName == k
    ensures forall k :: k in FirstNamesOf(g) ==>
      exists st :: st in students && st.group == group && st.lastName == k
        && st.firstName == FirstNamesOf(g)[k]
    ensures forall st :: st in students && st.group == group ==>
      st.lastName in FirstNamesOf(g) && StringCompare(FirstNamesOf(g)[st.lastName], st.firstName) <= 0
  {
    var r := FirstNamesOf(g);
    forall k ensures k in r <==> exists st :: st in students && st.group == group && st.lastName == k {
      if k in r {
        var st :| st in inGroup && st.lastName == k;
      }
      if exists st :: st in students && st.group == group && st.lastName == k {
        var st :| st in students && st.group == group && st.lastName == k;
        assert st in inGroup;
      }
    }
    forall k | k in r
      ensures exists st :: st in students && st.group == group && st.lastName == k && st.firstName == r[k]
    {
      assert g[k] in inGroup;
    }
  }

  /**
   * findStudentNamesByGroup: for the students of the group, a map from each last name that
   * occurs to the smallest first name among the students with that last name.
   */
  function FindStudentNamesByGroup(students: seq<Student>, group: GroupName): (r: map<string, string>)
    ensures forall k :: k in r <==> exists st :: st in students && st.group == group && st.lastName == k
    ensures forall k :: k in r ==>
      exists st :: st in students && st.group == group && st.lastName == k && st.firstName == r[k]
    ensures forall st :: st in students && st.group == group ==>
      st.lastName in r && StringCompare(r[st.lastName], st.firstName) <= 0
  {
    var inGroup := Filter((st: Student) => st.group == group, students);
    var g := GroupByLastName(inGroup);
    GroupByLastNameSpec(inGroup);
    NamesByGroupSpec(g, inGroup, students, group);
    FirstNamesOf(g)
  }
}
