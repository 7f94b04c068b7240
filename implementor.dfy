/**
 * Implementor: generates the source text of a class "<SimpleName>Impl" that implements an
 * interface with methods that return a default value. Reflection is replaced by descriptors
 * of the token and its methods; the generated text is accumulated in a SourceBuilder, the
 * StringBuilder the write methods append to.
 */
module Implementor {
  import opened Wrappers
  import opened Seqs
  import opened JavaStrings

  // ---------------------------------------------------------------------------------------
  // Descriptors
  // ---------------------------------------------------------------------------------------

  /** The kinds of type reflection distinguishes here: void, boolean, other primitives, classes. */
  datatype TypeDesc =
    | VoidType
    | BooleanType
    | OtherPrimitive(primitiveName: string)
    | ReferenceType(canonicalName: string)

  /** What Method exposes: name, return type, parameter and exception types, modifiers. */
  datatype MethodDesc = MethodDesc(
    name: string,
    returnType: TypeDesc,
    parameterTypes: seq<TypeDesc>,
    exceptionTypes: seq<string>,
    isDefault: bool,
    isStatic: bool)

  /** What Class exposes about the token. */
  datatype TokenDesc = TokenDesc(
    packageName: string,
    simpleName: string,
    canonicalName: string,
    isInterface: bool,
    isPrivate: bool,
    methods: seq<MethodDesc>)

  datatype ImplerError = NullToken | NotAnInterface | PrivateInterface

  /** Class.getCanonicalName of a type. */
  function TypeName(t: TypeDesc): string
  {
    match t
    case VoidType => "void"
    case BooleanType => "boolean"
    case OtherPrimitive(name) => name
    case ReferenceType(name) => name
  }

  // ---------------------------------------------------------------------------------------
  // The pure decisions
  // ---------------------------------------------------------------------------------------

  /**
   * checkIfTokenIsImplementable: a missing token, a class and a private interface are
   * rejected, checked in that order.
   */
  function CheckIfTokenIsImplementable(token: Option<TokenDesc>): (r: Option<ImplerError>)
    ensures r.None? <==> token.Some? && token.value.isInterface && !token.value.isPrivate
    ensures token.None? ==> r == Some(NullToken)
    ensures token.Some? && !token.value.isInterface ==> r == Some(NotAnInterface)
    ensures token.Some? && token.value.isInterface && token.value.isPrivate ==> r == Some(PrivateInterface)
  {
    if token.None? then Some(NullToken)
    else if !token.value.isInterface then Some(NotAnInterface)
    else if token.value.isPrivate then Some(PrivateInterface)
    else None
  }

  /** check: a method is implemented when it has no default body and is not static. */
  function Check(m: MethodDesc): bool
  {
    !m.isDefault && !m.isStatic
  }

  /** The methods implement writes, in the order reflection lists them. */
  function ImplementedMethods(token: TokenDesc): (r: seq<MethodDesc>)
    ensures forall m :: m in r <==> m in token.methods && !m.isDefault && !m.isStatic
    ensures forall m :: multiset(r)[m] == if Check(m) then multiset(token.methods)[m] else 0
  {
    Filter(Check, token.methods)
  }

  /**
   * writeReturn's choice of value: nothing for void, " false" for boolean, " 0" for the other
   * primitives and " null" for every reference type.
   */
  function ReturnValue(t: TypeDesc): (r: Option<string>)
    ensures r.None? <==> t.VoidType?
    ensures t.BooleanType? ==> r == Some(" false")
    ensures t.OtherPrimitive? ==> r == Some(" 0")
    ensures t.ReferenceType? ==> r == Some(" null")
  {
    match t
    case VoidType => None
    case BooleanType => Some(" false")
    case OtherPrimitive(_) => Some(" 0")
    case ReferenceType(_) => Some(" null")
  }

  // ---------------------------------------------------------------------------------------
  // Decimal numbers and hexadecimal code units
  // ---------------------------------------------------------------------------------------

  function DecimalDigit(d: int): (c: char)
    requires 0 <= d < 10
    ensures '0' <= c <= '9' && c as int - '0' as int == d
  {
    "0123456789"[d]
  }

  predicate IsDecimal(s: string)
  {
    forall i :: 0 <= i < |s| ==> '0' <= s[i] <= '9'
  }

  /** The decimal form of a non-negative int, as string concatenation renders it. */
  function NatToString(n: nat): (s: string)
    ensures |s| > 0 && IsDecimal(s)
  {
    if n < 10 then [DecimalDigit(n)] else NatToString(n / 10) + [DecimalDigit(n % 10)]
  }

  function ParseDecimal(s: string): nat
    requires IsDecimal(s)
  {
    if s == [] then 0
    else ParseDecimal(s[..|s| - 1]) * 10 + (s[|s| - 1] as int - '0' as int)
  }

  /** Reading the decimal form back gives the number. */
  lemma {:induction false} NatToStringRoundTrip(n: nat)
    ensures ParseDecimal(NatToString(n)) == n
  {
    if n >= 10 {
      NatToStringRoundTrip(n / 10);
      var s := NatToString(n);
      assert s[..|s| - 1] == NatToString(n / 10);
    }
  }

  function HexDigitUpper(d: int): (c: char)
    requires 0 <= d < 16
    ensures c in "0123456789ABCDEF" && c as int < 128 && HexValue(c) == d
  {
    "0123456789ABCDEF"[d]
  }

  function HexValue(c: char): int
  {
    if '0' <= c <= '9' then c as int - '0' as int
    else if 'A' <= c <= 'F' then c as int - 'A' as int + 10
    else 0
  }

  /** String.format("%04X", u): four upper-case hexadecimal digits, the most significant first. */
  function Hex4(u: CodeUnit): (s: string)
    ensures |s| == 4
  {
    var q1 := u / 16;
    var q2 := q1 / 16;
    [HexDigitUpper(q2 / 16), HexDigitUpper(q2 % 16), HexDigitUpper(q1 % 16), HexDigitUpper(u % 16)]
  }

  /** The digits are upper-case hexadecimal digits and so ASCII. */
  lemma Hex4Digits(u: CodeUnit)
    ensures forall i :: 0 <= i < 4 ==> Hex4(u)[i] in "0123456789ABCDEF" && Hex4(u)[i] as int < 128
  {
  }

  /** The four digits read back as hexadecimal give the code unit. */
  lemma Hex4RoundTrip(u: CodeUnit)
    ensures var s := Hex4(u);
      ((HexValue(s[0]) * 16 + HexValue(s[1])) * 16 + HexValue(s[2])) * 16 + HexValue(s[3]) == u
  {
    var q1 := u / 16;
    var q2 := q1 / 16;
    assert u == q1 * 16 + u % 16;
    assert q1 == q2 * 16 + q1 % 16;
    assert q2 == (q2 / 16) * 16 + q2 % 16;
  }

  // ---------------------------------------------------------------------------------------
  // toUnicode
  // ---------------------------------------------------------------------------------------

  /** One code unit escaped: unchanged below 128, otherwise a \u escape of four hex digits. */
  function EscapeUnit(u: CodeUnit): string
  {
    if u >= 128 then "\\u" + Hex4(u) else [u as char]
  }

  /**
   * A code unit below 128 is copied; any other becomes a backslash, 'u' and the four digits,
   * which read back as the unit; either way the result is ASCII.
   */
  lemma EscapeUnitSpec(u: CodeUnit)
    ensures u < 128 ==> EscapeUnit(u) == [u as char]
    ensures u >= 128 ==> |EscapeUnit(u)| == 6 && EscapeUnit(u)[..2] == "\\u" && EscapeUnit(u)[2..] == Hex4(u)
    ensures u >= 128 ==> var s := Hex4(u);
      ((HexValue(s[0]) * 16 + HexValue(s[1])) * 16 + HexValue(s[2])) * 16 + HexValue(s[3]) == u
    ensures IsAscii(EscapeUnit(u))
  {
    Hex4Digits(u);
    Hex4RoundTrip(u);
    if u >= 128 {
      var r := EscapeUnit(u);
      forall i | 0 <= i < |r| ensures r[i] as int < 128 {
        if i >= 2 {
          assert r[i] == Hex4(u)[i - 2];
        }
      }
    }
  }

  /** The escaped form of a sequence of code units. */
  function Escape(units: seq<CodeUnit>): string
  {
    FlatMap(EscapeUnit, units)
  }

  predicate IsAscii(s: string)
  {
    forall i :: 0 <= i < |s| ==> s[i] as int < 128
  }

  /** toUnicode: walks the code units and appends each one escaped. */
  method ToUnicode(input: string) returns (out: string)
    ensures out == Escape(Utf16(input))
    ensures IsAscii(out)
  {
    var chars := Utf16(input);
    out := "";
    for i := 0 to |chars|
      invariant out == Escape(chars[..i])
    {
      var c := chars[i];
      ghost var before := out;
      if c >= 128 {
        out := out + "\\u" + Hex4(c);
      } else {
        out := out + [c as char];
      }
      assert out == before + EscapeUnit(c);
      EscapeSnoc(chars[..i], c);
      assert chars[..i + 1] == chars[..i] + [c];
    }
    assert chars[..|chars|] == chars;
    EscapeIsAscii(chars);
  }

  /** The escaped text is pure ASCII. */
  lemma {:induction false} EscapeIsAscii(units: seq<CodeUnit>)
    ensures IsAscii(Escape(units))
  {
    if units != [] {
      var init, u := units[..|units| - 1], units[|units| - 1];
      EscapeIsAscii(init);
      EscapeUnitSpec(u);
      AsciiConcat(Escape(init), EscapeUnit(u));
    }
  }

  lemma AsciiConcat(a: string, b: string)
    requires IsAscii(a) && IsAscii(b)
    ensures IsAscii(a + b)
  {
    forall i | 0 <= i < |a + b| ensures (a + b)[i] as int < 128 {
      if i >= |a| {
        assert (a + b)[i] == b[i - |a|];
      }
    }
  }

  lemma EscapeAppend(a: seq<CodeUnit>, b: seq<CodeUnit>)
    ensures Escape(a + b) == Escape(a) + Escape(b)
  {
    FlatMapAppend(EscapeUnit, a, b);
  }

  /** One more unit appends its escape. */
  lemma EscapeSnoc(units: seq<CodeUnit>, u: CodeUnit)
    ensures Escape(units + [u]) == Escape(units) + EscapeUnit(u)
  {
    assert (units + [u])[..|units|] == units;
  }

  lemma EscapeOne(u: CodeUnit)
    ensures Escape([u]) == EscapeUnit(u)
  {
    assert [u][..0] == [];
    assert Escape([u]) == FlatMap(EscapeUnit, []) + EscapeUnit(u);
  }

  /** Escaping the code units of one character: unchanged when ASCII, longer by 5 or more otherwise. */
  lemma EscapeChar(c: char)
    ensures c as int < 128 ==> Escape(CodeUnits(c)) == [c]
    ensures c as int >= 128 ==> |Escape(CodeUnits(c))| >= 6
  {
    var r := CodeUnits(c);
    if |r| == 1 {
      EscapeOne(r[0]);
    } else {
      assert r == [r[0]] + [r[1]];
      EscapeAppend([r[0]], [r[1]]);
      EscapeOne(r[0]);
      EscapeOne(r[1]);
    }
  }

  /** Each ASCII character is kept and each other one grows to at least six characters. */
  lemma {:induction false} EscapeLength(s: string)
    ensures |Escape(Utf16(s))| >= |s|
    ensures IsAscii(s) ==> Escape(Utf16(s)) == s
    ensures !IsAscii(s) ==> |Escape(Utf16(s))| >= |s| + 5
  {
    if s != [] {
      var init, c := s[..|s| - 1], s[|s| - 1];
      EscapeLength(init);
      EscapeAppend(Utf16(init), CodeUnits(c));
      EscapeChar(c);
      AsciiSplit(s);
      InitLast(s);
    }
  }

  lemma AsciiSplit(s: string)
    requires s != []
    ensures IsAscii(s) <==> IsAscii(s[..|s| - 1]) && s[|s| - 1] as int < 128
  {
    var init := s[..|s| - 1];
    if IsAscii(init) && s[|s| - 1] as int < 128 {
      forall i | 0 <= i < |s| ensures s[i] as int < 128 {
        if i < |init| {
          assert s[i] == init[i];
        }
      }
    }
  }

  /** toUnicode leaves a text unchanged exactly when the text is pure ASCII. */
  lemma ToUnicodeIdentity(s: string)
    ensures Escape(Utf16(s)) == s <==> IsAscii(s)
  {
    EscapeLength(s);
  }

  // ---------------------------------------------------------------------------------------
  // Collectors.joining(", ") and reading a joined list back
  // ---------------------------------------------------------------------------------------

  /** The parts with the separator between neighbours. */
  function Join(sep: string, parts: seq<string>): string
  {
    if |parts| == 0 then ""
    else if |parts| == 1 then parts[0]
    else parts[0] + sep + Join(sep, parts[1..])
  }

  lemma {:induction false} JoinSnoc(sep: string, parts: seq<string>, x: string)
    requires |parts| > 0
    ensures Join(sep, parts + [x]) == Join(sep, parts) + sep + x
  {
    if |parts| > 1 {
      assert (parts + [x])[1..] == parts[1..] + [x];
      JoinSnoc(sep, parts[1..], x);
    }
  }

  /** The position of the first c in s. */
  function FirstIndex(s: string, c: char): (r: Option<nat>)
    ensures r.None? ==> c !in s
    ensures r.Some? ==> r.value < |s| && s[r.value] == c && c !in s[..r.value]
  {
    if s == [] then None
    else if s[0] == c then Some(0)
    else
      match FirstIndex(s[1..], c)
      case None => None
      case Some(i) => assert s[..i + 1] == [s[0]] + s[1..][..i]; Some(i + 1)
  }

  lemma FirstIndexAfter(a: string, c: char, rest: string)
    requires c !in a
    ensures FirstIndex(a + [c] + rest, c) == Some(|a|)
  {
    var s := a + [c] + rest;
    assert s[|a|] == c;
  }

  /** Splits a ", "-joined list at its commas. */
  function Unjoin(s: string): seq<string>
    decreases |s|
  {
    match FirstIndex(s, ',')
    case None => [s]
    case Some(i) => [s[..i]] + Unjoin(s[if i + 2 <= |s| then i + 2 else |s|..])
  }

  /** A non-empty list of parts without commas is read back from its joined form. */
  lemma {:induction false} UnjoinJoin(parts: seq<string>)
    requires |parts| > 0
    requires forall i :: 0 <= i < |parts| ==> ',' !in parts[i]
    ensures Unjoin(Join(", ", parts)) == parts
  {
    if |parts| > 1 {
      var rest := Join(", ", parts[1..]);
      var s := parts[0] + ", " + rest;
      assert s == parts[0] + [','] + (" " + rest);
      FirstIndexAfter(parts[0], ',', " " + rest);
      assert s[..|parts[0]|] == parts[0];
      assert s[|parts[0]| + 2..] == rest;
      UnjoinJoin(parts[1..]);
      assert parts == [parts[0]] + parts[1..];
    }
  }

  // ---------------------------------------------------------------------------------------
  // The pieces of the generated text
  // ---------------------------------------------------------------------------------------

  const IMPL_SUFFIX: string := "Impl"

  /** writePackage: a package declaration and an empty line, only for a named package. */
  function PackageLine(packageName: string, lineSeparator: string): string
  {
    if packageName == "" then "" else "package " + packageName + ";" + lineSeparator + lineSeparator
  }

  /** writeClassName: the class header. */
  function ClassHeader(token: TokenDesc, lineSeparator: string): string
  {
    "public class " + token.simpleName + IMPL_SUFFIX + " implements " + token.canonicalName + " {"
      + lineSeparator
  }

  /** writeOverride. */
  function OverrideLine(lineSeparator: string): string
  {
    lineSeparator + "\t@Override" + lineSeparator
  }

  /** writeBeginningOfMethod. */
  function MethodBeginning(m: MethodDesc): string
  {
    "\tpublic " + TypeName(m.returnType) + " " + m.name
  }

  /** The name of the i-th parameter. */
  function ParameterName(i: nat): string
  {
    "a" + NatToString(i)
  }

  /** The declaration of every parameter: its type and its name. */
  function Declarations(types: seq<TypeDesc>): (r: seq<string>)
    ensures |r| == |types|
    ensures forall i :: 0 <= i < |types| ==> r[i] == TypeName(types[i]) + " " + ParameterName(i)
  {
    var r := seq(|types|, i requires 0 <= i < |types| => TypeName(types[i]) + " a" + NatToString(i));
    assert forall i :: 0 <= i < |types| ==> r[i] == TypeName(types[i]) + " " + ParameterName(i) by {
      forall i | 0 <= i < |types| ensures r[i] == TypeName(types[i]) + " " + ParameterName(i) {
        assert TypeName(types[i]) + " a" + NatToString(i) == TypeName(types[i]) + " " + ("a" + NatToString(i));
      }
    }
    r
  }

  /** writeMethodParameters: the declarations joined by ", " in parentheses, then a space. */
  function ParameterList(types: seq<TypeDesc>): string
  {
    "(" + Join(", ", Declarations(types)) + ") "
  }

  lemma Associative(a: string, b: string, c: string)
    ensures a + b + c == a + (b + c)
  {
  }

  /** writeMethodThrows: the throws clause when there are exceptions, then the opening brace. */
  function ThrowsClause(exceptions: seq<string>, lineSeparator: string): string
  {
    (if |exceptions| != 0 then "throws " + Join(", ", exceptions) else "") + "{" + lineSeparator
  }

  /** writeReturn: a return statement with the default value, or nothing for void. */
  function ReturnLine(t: TypeDesc, lineSeparator: string): string
  {
    match ReturnValue(t)
    case None => ""
    case Some(v) => "\t\treturn" + v + ";" + lineSeparator
  }

  /** endMethod. */
  function MethodEnd(lineSeparator: string): string
  {
    "\t}" + lineSeparator
  }

  /** All that implement writes for one method. */
  function MethodText(m: MethodDesc, lineSeparator: string): string
  {
    OverrideLine(lineSeparator) + MethodBeginning(m) + ParameterList(m.parameterTypes)
      + ThrowsClause(m.exceptionTypes, lineSeparator)
      + ReturnLine(m.returnType, lineSeparator) + MethodEnd(lineSeparator)
  }

  function MethodsText(ms: seq<MethodDesc>, lineSeparator: string): string
  {
    if ms == [] then "" else MethodsText(ms[..|ms| - 1], lineSeparator) + MethodText(ms[|ms| - 1], lineSeparator)
  }

  /** The whole class, before toUnicode. */
  function ClassText(token: TokenDesc, lineSeparator: string): string
  {
    PackageLine(token.packageName, lineSeparator) + ClassHeader(token, lineSeparator)
      + MethodsText(ImplementedMethods(token), lineSeparator) + "}"
  }

  // ---------------------------------------------------------------------------------------
  // Properties of the pieces
  // ---------------------------------------------------------------------------------------

  /** A package line is written exactly for a named package, and it names that package. */
  lemma PackageLineSpec(packageName: string, lineSeparator: string)
    ensures PackageLine(packageName, lineSeparator) == "" <==> packageName == ""
    ensures packageName != "" ==>
      var line := PackageLine(packageName, lineSeparator);
      && line[..8] == "package "
      && line[8..8 + |packageName|] == packageName
      && line[8 + |packageName|] == ';'
  {
    if packageName != "" {
      var line := PackageLine(packageName, lineSeparator);
      assert line == "package " + (packageName + (";" + lineSeparator + lineSeparator));
    }
  }

  /** Parameter i is called "a" followed by i in decimal, so no two parameters share a name. */
  lemma ParameterNamesDistinct(i: nat, j: nat)
    ensures ParameterName(i) == ParameterName(j) <==> i == j
  {
    if ParameterName(i) == ParameterName(j) {
      assert NatToString(i) == ParameterName(i)[1..];
      assert NatToString(j) == ParameterName(j)[1..];
      NatToStringRoundTrip(i);
      NatToStringRoundTrip(j);
    }
  }

  /**
   * The parameter list reads back, split at its commas, as the declarations in declaration
   * order, when no type name holds a comma.
   */
  lemma ParameterListRoundTrip(types: seq<TypeDesc>)
    requires |types| > 0
    requires forall i :: 0 <= i < |types| ==> ',' !in TypeName(types[i])
    ensures Unjoin(Join(", ", Declarations(types))) == Declarations(types)
  {
    var ds := Declarations(types);
    forall i | 0 <= i < |ds| ensures ',' !in ds[i] {
      assert ds[i] == TypeName(types[i]) + (" " + ParameterName(i));
      assert ',' !in " " + ParameterName(i);
    }
    UnjoinJoin(ds);
  }

  /**
   * A throws clause is written exactly when the method declares exceptions, and it reads back
   * as the exceptions in order.
   */
  lemma ThrowsClauseSpec(exceptions: seq<string>, lineSeparator: string)
    requires forall i :: 0 <= i < |exceptions| ==> ',' !in exceptions[i]
    ensures |exceptions| == 0 <==> ThrowsClause(exceptions, lineSeparator) == "{" + lineSeparator
    ensures |exceptions| != 0 ==>
      var clause := ThrowsClause(exceptions, lineSeparator);
      var list := Join(", ", exceptions);
      && clause == "throws " + list + "{" + lineSeparator
      && Unjoin(list) == exceptions
  {
    if |exceptions| != 0 {
      UnjoinJoin(exceptions);
      var clause := ThrowsClause(exceptions, lineSeparator);
      assert clause[..7] == "throws ";
      assert ("{" + lineSeparator)[..1] == "{";
    }
  }

  // ---------------------------------------------------------------------------------------
  // The jar entry name
  // ---------------------------------------------------------------------------------------

  /** Every occurrence of one character replaced by another (String.replace(char, char)). */
  function ReplaceChar(s: string, from: char, to: char): (r: string)
    ensures |r| == |s|
    ensures forall i :: 0 <= i < |s| ==> r[i] == if s[i] == from then to else s[i]
  {
    if s == [] then [] else [if s[0] == from then to else s[0]] + ReplaceChar(s[1..], from, to)
  }

  /**
   * The name of the class file inside the jar: the package with dots turned into slashes,
   * a slash only for a named package, and SimpleName + "Impl.class".
   */
  function JarEntryName(token: TokenDesc): string
  {
    var packagePath := ReplaceChar(token.packageName, '.', '/');
    var separator := if token.packageName == "" then "" else "/";
    packagePath + separator + token.simpleName + IMPL_SUFFIX + ".class"
  }

  /** The position of the last c in s. */
  function LastIndex(s: string, c: char): (r: Option<nat>)
    ensures r.None? ==> c !in s
    ensures r.Some? ==> r.value < |s| && s[r.value] == c && c !in s[r.value + 1..]
  {
    if s == [] then None
    else if s[|s| - 1] == c then Some(|s| - 1)
    else
      match LastIndex(s[..|s| - 1], c)
      case None => None
      case Some(i) =>
        assert s[i + 1..] == s[..|s| - 1][i + 1..] + [s[|s| - 1]];
        Some(i)
  }

  /** Reads a jar entry name back into a package name and a simple name. */
  function ParseJarEntryName(entry: string): Option<(string, string)>
  {
    var suffix := IMPL_SUFFIX + ".class";
    if |entry| < |suffix| || entry[|entry| - |suffix|..] != suffix then None
    else
      var stem := entry[..|entry| - |suffix|];
      match LastIndex(stem, '/')
      case None => Some(("", stem))
      case Some(i) => Some((ReplaceChar(stem[..i], '/', '.'), stem[i + 1..]))
  }

  lemma LastIndexAt(a: string, c: char, b: string)
    requires c !in b
    ensures LastIndex(a + [c] + b, c) == Some(|a|)
  {
    var s := a + [c] + b;
    assert s[|a|] == c;
  }

  /**
   * The jar entry name determines the package and the simple name: reading it back gives
   * them, since Java names hold no slash.
   */
  lemma JarEntryNameRoundTrip(token: TokenDesc)
    requires '/' !in token.packageName && '/' !in token.simpleName
    ensures ParseJarEntryName(JarEntryName(token)) == Some((token.packageName, token.simpleName))
  {
    var suffix := IMPL_SUFFIX + ".class";
    var packagePath := ReplaceChar(token.packageName, '.', '/');
    var separator := if token.packageName == "" then "" else "/";
    var stem := packagePath + separator + token.simpleName;
    assert JarEntryName(token) == stem + suffix;
    SplitAt(stem, suffix);
    if token.packageName == "" {
      assert stem == token.simpleName;
    } else {
      LastIndexAt(packagePath, '/', token.simpleName);
      assert stem[..|packagePath|] == packagePath;
      assert stem[|packagePath| + 1..] == token.simpleName;
      ReplaceCharBack(token.packageName, '.', '/');
    }
  }

  /** The two parts of a concatenation are recovered from it. */
  lemma SplitAt(a: string, b: string)
    ensures (a + b)[..|a|] == a && (a + b)[|a|..] == b
  {
  }

  /** Replacing from by to is undone by replacing to by from when to did not occur. */
  lemma ReplaceCharBack(s: string, from: char, to: char)
    requires to !in s
    ensures ReplaceChar(ReplaceChar(s, from, to), to, from) == s
  {
    var r := ReplaceChar(ReplaceChar(s, from, to), to, from);
    assert forall i | 0 <= i < |s| :: r[i] == s[i];
  }

  // ---------------------------------------------------------------------------------------
  // main's argument validation
  // ---------------------------------------------------------------------------------------

  datatype UsageError = NullArguments | WrongArgumentCount | NullArgument | WrongJarKey

  /** What main goes on to do: implement, or implementJar with "-jar". */
  datatype Request = Request(jar: bool, className: string, path: string)

  /**
   * main's checks, in order: the array is present, has two or three entries, none of them
   * missing, and the first of three entries is "-jar". The class name and path are the last two.
   */
  function ParseArguments(args: Option<seq<Option<string>>>): (r: Result<Request, UsageError>)
    ensures r.Success? <==>
      && args.Some?
      && (|args.value| == 2 || |args.value| == 3)
      && (forall i :: 0 <= i < |args.value| ==> args.value[i].Some?)
      && (|args.value| == 3 ==> args.value[0] == Some("-jar"))
    ensures r.Success? ==>
      && r.value.jar == (|args.value| == 3)
      && Some(r.value.className) == args.value[|args.value| - 2]
      && Some(r.value.path) == args.value[|args.value| - 1]
    ensures args.None? ==> r == Failure(NullArguments)
    ensures args.Some? && |args.value| != 2 && |args.value| != 3 ==> r == Failure(WrongArgumentCount)
    ensures args.Some? && (|args.value| == 2 || |args.value| == 3) && None in args.value ==>
      r == Failure(NullArgument)
    ensures args.Some? && |args.value| == 3 && None !in args.value && args.value[0] != Some("-jar") ==>
      r == Failure(WrongJarKey)
  {
    if args.None? then Failure(NullArguments)
    else
      var a := args.value;
      if |a| != 2 && |a| != 3 then Failure(WrongArgumentCount)
      else if None in a then Failure(NullArgument)
      else if |a| == 3 && a[0] != Some("-jar") then Failure(WrongJarKey)
      else Success(Request(|a| == 3, a[|a| - 2].value, a[|a| - 1].value))
  }

  // ---------------------------------------------------------------------------------------
  // The StringBuilder and the write methods
  // ---------------------------------------------------------------------------------------

  /** The StringBuilder implement fills; the line separator is the system's. */
  class SourceBuilder {
    var text: string
    const lineSeparator: string

    constructor(lineSeparator: string)
      ensures text == "" && this.lineSeparator == lineSeparator
    {
      text := "";
      this.lineSeparator := lineSeparator;
    }

    method WritePackage(token: TokenDesc)
      modifies this
      ensures text == old(text) + PackageLine(token.packageName, lineSeparator)
    {
      if token.packageName != "" {
        text := text + "package " + token.packageName + ";" + lineSeparator + lineSeparator;
      }
    }

    method WriteClassName(token: TokenDesc)
      modifies this
      ensures text == old(text) + ClassHeader(token, lineSeparator)
    {
      var className := token.simpleName + IMPL_SUFFIX;
      text := text + "public class " + className + " implements " + token.canonicalName + " {"
        + lineSeparator;
    }

    method WriteOverride()
      modifies this
      ensures text == old(text) + OverrideLine(lineSeparator)
    {
      text := text + lineSeparator + "\t@Override" + lineSeparator;
    }

    method WriteBeginningOfMethod(m: MethodDesc)
      modifies this
      ensures text == old(text) + MethodBeginning(m)
    {
      text := text + "\tpublic " + TypeName(m.returnType) + " " + m.name;
    }

    /** Names the parameters a0, a1, ... with a counter, joining the declarations with ", ". */
    method WriteMethodParameters(m: MethodDesc)
      modifies this
      ensures text == old(text) + ParameterList(m.parameterTypes)
    {
      var types := m.parameterTypes;
      var joined := "";
      var counter := 0;
      while counter < |types|
        invariant text == old(text)
        invariant 0 <= counter <= |types|
        invariant joined == Join(", ", Declarations(types)[..counter])
      {
        var declaration := TypeName(types[counter]) + " a" + NatToString(counter);
        assert declaration == TypeName(types[counter]) + " " + ParameterName(counter);
        assert Declarations(types)[..counter + 1] == Declarations(types)[..counter] + [declaration];
        if counter == 0 {
          joined := declaration;
        } else {
          JoinSnoc(", ", Declarations(types)[..counter], declaration);
          joined := joined + ", " + declaration;
        }
        counter := counter + 1;
      }
      assert Declarations(types)[..|types|] == Declarations(types);
      text := text + ("(" + joined + ") ");
    }

    method WriteMethodThrows(m: MethodDesc)
      modifies this
      ensures text == old(text) + ThrowsClause(m.exceptionTypes, lineSeparator)
    {
      if |m.exceptionTypes| != 0 {
        text := text + "throws " + Join(", ", m.exceptionTypes);
      }
      text := text + "{" + lineSeparator;
    }

    method WriteReturn(m: MethodDesc)
      modifies this
      ensures text == old(text) + ReturnLine(m.returnType, lineSeparator)
    {
      var value := ReturnValue(m.returnType);
      if value.Some? {
        text := text + "\t\treturn" + value.value + ";" + lineSeparator;
      }
    }

    /** The forEach body of implement: everything written for one method. */
    method WriteMethod(m: MethodDesc)
      modifies this
      ensures text == old(text) + MethodText(m, lineSeparator)
    {
      ghost var start := text;
      WriteOverride();
      ghost var written := OverrideLine(lineSeparator);
      WriteBeginningOfMethod(m);
      Associative(start, written, MethodBeginning(m));
      written := written + MethodBeginning(m);
      WriteMethodParameters(m);
      Associative(start, written, ParameterList(m.parameterTypes));
      written := written + ParameterList(m.parameterTypes);
      WriteMethodThrows(m);
      Associative(start, written, ThrowsClause(m.exceptionTypes, lineSeparator));
      written := written + ThrowsClause(m.exceptionTypes, lineSeparator);
      WriteReturn(m);
      Associative(start, written, ReturnLine(m.returnType, lineSeparator));
      written := written + ReturnLine(m.returnType, lineSeparator);
      EndMethod();
      Associative(start, written, MethodEnd(lineSeparator));
    }

    /** implement's forEach over the methods to implement. */
    method WriteMethods(methods: seq<MethodDesc>)
      modifies this
      ensures text == old(text) + MethodsText(methods, lineSeparator)
    {
      ghost var prefix := text;
      for i := 0 to |methods|
        invariant text == prefix + MethodsText(methods[..i], lineSeparator)
      {
        WriteMethod(methods[i]);
        Associative(prefix, MethodsText(methods[..i], lineSeparator), MethodText(methods[i], lineSeparator));
        assert methods[..i + 1][..i] == methods[..i];
      }
      assert methods[..|methods|] == methods;
    }

    method EndMethod()
      modifies this
      ensures text == old(text) + MethodEnd(lineSeparator)
    {
      text := text + "\t}" + lineSeparator;
    }

    method EndClass()
      modifies this
      ensures text == old(text) + "}"
    {
      text := text + "}";
    }
  }

  /**
   * implement without the file system: the token is checked, the class text is generated
   * piece by piece into a SourceBuilder, and the result is passed through toUnicode.
   */
  method GenerateSource(token: Option<TokenDesc>, lineSeparator: string)
    returns (r: Result<string, ImplerError>)
    ensures CheckIfTokenIsImplementable(token).Some? ==>
      r == Failure(CheckIfTokenIsImplementable(token).value)
    ensures CheckIfTokenIsImplementable(token).None? ==>
      r == Success(Escape(Utf16(ClassText(token.value, lineSeparator))))
  {
    var problem := CheckIfTokenIsImplementable(token);
    if problem.Some? {
      return Failure(problem.value);
    }
    var t := token.value;
    var sb := new SourceBuilder(lineSeparator);
    sb.WritePackage(t);
    assert sb.text == PackageLine(t.packageName, lineSeparator);
    sb.WriteClassName(t);
    sb.WriteMethods(ImplementedMethods(t));
    sb.EndClass();
    var out := ToUnicode(sb.text);
    return Success(out);
  }
}
