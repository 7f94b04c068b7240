/**
 * Java strings seen as what Java stores: sequences of UTF-16 code units. A Dafny string holds
 * Unicode scalar values; a character above U+FFFF is two Java chars, a surrogate pair.
 */
module JavaStrings {

  /** A Java char: one UTF-16 code unit. */
  type CodeUnit = x: int | 0 <= x < 0x1_0000

  /** The second half of a surrogate pair. */
  predicate IsLowSurrogate(u: int)
  {
    0xDC00 <= u < 0xE000
  }

  /** The UTF-16 code units of one character: itself, or a surrogate pair above U+FFFF. */
  function CodeUnits(c: char): (r: seq<CodeUnit>)
    ensures |r| == 1 || |r| == 2
    ensures c as int < 128 <==> |r| == 1 && r[0] < 128
    ensures c as int < 128 ==> r == [c as int]
  {
    var v := c as int;
    if v < 0x1_0000 then [v]
    else [0xD800 + (v - 0x1_0000) / 0x400, 0xDC00 + (v - 0x1_0000) % 0x400]
  }

  /** String.toCharArray: the code units of every character, in order. */
  function Utf16(s: string): (r: seq<CodeUnit>)
    ensures |r| >= |s|
  {
    if s == [] then [] else Utf16(s[..|s| - 1]) + CodeUnits(s[|s| - 1])
  }

  /** A character is two units exactly when its last unit is a low surrogate. */
  lemma CodeUnitsShape(c: char)
    ensures var r := CodeUnits(c);
      |r| == 2 <==> IsLowSurrogate(r[|r| - 1])
  {
  }

  /** Different characters have different code units. */
  lemma CodeUnitsInjective(x: char, y: char)
    requires CodeUnits(x) == CodeUnits(y)
    ensures x == y
  {
    var v, w := x as int, y as int;
    if v >= 0x1_0000 {
      assert v - 0x1_0000 == (v - 0x1_0000) / 0x400 * 0x400 + (v - 0x1_0000) % 0x400;
      assert w - 0x1_0000 == (w - 0x1_0000) / 0x400 * 0x400 + (w - 0x1_0000) % 0x400;
    }
  }

  /** Encoding init + [c] appends the units of c. */
  lemma Utf16Snoc(s: string, init: string, c: char)
    requires s == init + [c]
    ensures Utf16(s) == Utf16(init) + CodeUnits(c)
  {
    assert s[..|s| - 1] == init;
  }

  /** Encoding a concatenation encodes each part. */
  lemma {:induction false} Utf16Append(a: string, b: string)
    ensures Utf16(a + b) == Utf16(a) + Utf16(b)
  {
    if b == [] {
      assert a + b == a;
    } else {
      var b', c := b[..|b| - 1], b[|b| - 1];
      assert b == b' + [c];
      assert a + b == (a + b') + [c];
      var u := CodeUnits(c);
      calc {
        Utf16(a + b);
        { Utf16Snoc(a + b, a + b', c); }
        Utf16(a + b') + u;
        { Utf16Append(a, b'); }
        Utf16(a) + Utf16(b') + u;
        Utf16(a) + (Utf16(b') + u);
        { Utf16Snoc(b, b', c); }
        Utf16(a) + Utf16(b);
      }
    }
  }

  /** Different strings have different code units: the encoding loses nothing. */
  lemma {:induction false} Utf16Injective(a: string, b: string)
    requires Utf16(a) == Utf16(b)
    ensures a == b
  {
    if a != [] && b != [] {
      var a', x := a[..|a| - 1], a[|a| - 1];
      var b', y := b[..|b| - 1], b[|b| - 1];
      assert a == a' + [x] && b == b' + [y];
      Utf16Snoc(a, a', x);
      Utf16Snoc(b, b', y);
      var u, cx, cy := Utf16(a), CodeUnits(x), CodeUnits(y);
      CodeUnitsShape(x);
      CodeUnitsShape(y);
      assert u[|u| - 1] == cx[|cx| - 1] == cy[|cy| - 1];
      var n := |cx|;
      assert cx == u[|u| - n..] == cy;
      CodeUnitsInjective(x, y);
      assert Utf16(a') == u[..|u| - n] == Utf16(b');
      Utf16Injective(a', b');
    }
  }
}
