/**
 * String helpers shared by the blog's utilities, with JavaScript's semantics:
 * `String.prototype.split` on one character, joining, prefix/suffix tests,
 * ASCII case mapping, the relational `<` on strings and decimal formatting.
 */
module Text {

  /** `s.split(sep)`: always at least one part; the parts never contain `sep`. */
  function Split(s: string, sep: char): (parts: seq<string>)
    ensures |parts| >= 1
    ensures forall k :: 0 <= k < |parts| ==> sep !in parts[k]
    decreases |s|
  {
    if |s| == 0 then [""]
    else
      var rest := Split(s[1..], sep);
      if s[0] == sep then [""] + rest
      else [[s[0]] + rest[0]] + rest[1..]
  }

  /** `parts.join(sep)`. */
  function Join(parts: seq<string>, sep: char): string
    requires |parts| >= 1
    decreases |parts|
  {
    if |parts| == 1 then parts[0]
    else parts[0] + [sep] + Join(parts[1..], sep)
  }

  /** Joining the parts of a split gives back the original string. */
  lemma {:induction false} JoinSplit(s: string, sep: char)
    ensures Join(Split(s, sep), sep) == s
    decreases |s|
  {
    if |s| > 0 {
      var rest := Split(s[1..], sep);
      JoinSplit(s[1..], sep);
      if s[0] == sep {
        assert Split(s, sep) == [""] + rest;
        assert ([""] + rest)[1..] == rest;
        assert s == [sep] + s[1..];
      } else {
        var parts := [[s[0]] + rest[0]] + rest[1..];
        assert Split(s, sep) == parts;
        if |rest| == 1 {
          assert s == [s[0]] + s[1..];
        } else {
          assert parts[1..] == rest[1..];
          assert Join(rest, sep) == rest[0] + [sep] + Join(rest[1..], sep);
          assert s == [s[0]] + s[1..];
        }
      }
    }
  }

  /** A string without `sep` splits into itself alone. */
  lemma {:induction false} SplitNoSep(x: string, sep: char)
    requires sep !in x
    ensures Split(x, sep) == [x]
    decreases |x|
  {
    if |x| > 0 {
      assert sep !in x[1..];
      SplitNoSep(x[1..], sep);
      assert [x[0]] + x[1..] == x;
    }
  }

  /** Splitting `x + sep + y` with `sep` not in `x` peels off `x` as the first part. */
  lemma {:induction false} SplitAtFirstSep(x: string, sep: char, y: string)
    requires sep !in x
    ensures Split(x + [sep] + y, sep) == [x] + Split(y, sep)
    decreases |x|
  {
    var s := x + [sep] + y;
    if |x| == 0 {
      assert s[1..] == y;
    } else {
      assert s[1..] == x[1..] + [sep] + y;
      assert sep !in x[1..];
      SplitAtFirstSep(x[1..], sep, y);
      assert [x[0]] + x[1..] == x;
    }
  }

  /** Splitting a join of separator-free parts gives back the parts. */
  lemma {:induction false} SplitJoin(parts: seq<string>, sep: char)
    requires |parts| >= 1
    requires forall k :: 0 <= k < |parts| ==> sep !in parts[k]
    ensures Split(Join(parts, sep), sep) == parts
    decreases |parts|
  {
    if |parts| == 1 {
      SplitNoSep(parts[0], sep);
    } else {
      SplitJoin(parts[1..], sep);
      SplitAtFirstSep(parts[0], sep, Join(parts[1..], sep));
      assert [parts[0]] + parts[1..] == parts;
    }
  }

  predicate StartsWith(s: string, prefix: string) {
    |prefix| <= |s| && s[..|prefix|] == prefix
  }

  predicate EndsWith(s: string, suffix: string) {
    |suffix| <= |s| && s[|s| - |suffix|..] == suffix
  }

  /** `s` with `suffix` removed from its end. */
  function DropSuffix(s: string, suffix: string): (r: string)
    requires EndsWith(s, suffix)
    ensures r + suffix == s
  {
    s[..|s| - |suffix|]
  }

  predicate IsAsciiUpper(c: char) { 'A' <= c <= 'Z' }

  predicate IsAsciiLower(c: char) { 'a' <= c <= 'z' }

  function LowerChar(c: char): (r: char)
    ensures IsAsciiUpper(c) ==> IsAsciiLower(r) && r as int == c as int + 32
    ensures !IsAsciiUpper(c) ==> r == c
  {
    if IsAsciiUpper(c) then (c as int + 32) as char else c
  }

  function UpperChar(c: char): (r: char)
    ensures IsAsciiLower(c) ==> IsAsciiUpper(r) && r as int == c as int - 32
    ensures !IsAsciiLower(c) ==> r == c
  {
    if IsAsciiLower(c) then (c as int - 32) as char else c
  }

  /** `s.toLowerCase()` restricted to ASCII letters. */
  function ToLower(s: string): (r: string)
    ensures |r| == |s|
    ensures forall k :: 0 <= k < |s| ==> r[k] == LowerChar(s[k])
  {
    seq(|s|, k requires 0 <= k < |s| => LowerChar(s[k]))
  }

  /** `s.toUpperCase()` restricted to ASCII letters. */
  function ToUpper(s: string): (r: string)
    ensures |r| == |s|
    ensures forall k :: 0 <= k < |s| ==> r[k] == UpperChar(s[k])
  {
    seq(|s|, k requires 0 <= k < |s| => UpperChar(s[k]))
  }

  /** Two characters with the same lower-case form have the same upper-case form. */
  lemma SameLowerSameUpper(a: char, b: char)
    requires LowerChar(a) == LowerChar(b)
    ensures UpperChar(a) == UpperChar(b)
  {
  }

  /** Strings equal up to ASCII case have equal upper-case forms. */
  lemma ToLowerEqToUpperEq(s: string, t: string)
    requires ToLower(s) == ToLower(t)
    ensures ToUpper(s) == ToUpper(t)
  {
    forall k | 0 <= k < |s|
      ensures UpperChar(s[k]) == UpperChar(t[k])
    {
      assert ToLower(s)[k] == ToLower(t)[k];
      SameLowerSameUpper(s[k], t[k]);
    }
  }

  // ---- string order ----

  const SurrogateBase: int := 0x10000

  /**
   * The UTF-16 encoding of one character: itself below U+10000, otherwise a
   * high surrogate (U+D800 to U+DBFF) followed by a low one (U+DC00 to U+DFFF).
   */
  function Utf16(c: char): (u: seq<int>)
    ensures 1 <= |u| <= 2
    ensures |u| == 1 <==> (c as int) < SurrogateBase
  {
    var n := c as int;
    if n < SurrogateBase then [n]
    else [0xD800 + (n - SurrogateBase) / 0x400, 0xDC00 + (n - SurrogateBase) % 0x400]
  }

  /** A string as JavaScript stores it: its UTF-16 code units. */
  function CodeUnits(s: string): seq<int>
    decreases |s|
  {
    if |s| == 0 then [] else Utf16(s[0]) + CodeUnits(s[1..])
  }

  /** Lexicographic order on code unit sequences, a proper prefix being smaller. */
  predicate UnitsLess(a: seq<int>, b: seq<int>)
    decreases |a|
  {
    if |b| == 0 then false
    else if |a| == 0 then true
    else if a[0] != b[0] then a[0] < b[0]
    else UnitsLess(a[1..], b[1..])
  }

  /**
   * JavaScript's `a < b` on strings (and the default order of `sort()`):
   * lexicographic order on UTF-16 code units. A character above U+FFFF
   * therefore sorts before one in U+E000 to U+FFFF, unlike code point order.
   */
  predicate LexLess(a: string, b: string) {
    UnitsLess(CodeUnits(a), CodeUnits(b))
  }

  /** The first code unit tells a character below U+10000 from one above. */
  lemma Utf16Lead(c: char)
    ensures (c as int) < SurrogateBase ==> !(0xD800 <= Utf16(c)[0] < 0xDC00)
    ensures (c as int) >= SurrogateBase ==> 0xD800 <= Utf16(c)[0] < 0xDC00
  {
  }

  /** Different characters never share an encoding, even as a prefix. */
  lemma Utf16Decodes(c: char, d: char, x: seq<int>, y: seq<int>)
    requires Utf16(c) + x == Utf16(d) + y
    ensures c == d && x == y
  {
    var u, v := Utf16(c) + x, Utf16(d) + y;
    Utf16Lead(c);
    Utf16Lead(d);
    assert u[0] == v[0];
    var n, m := c as int, d as int;
    if n >= SurrogateBase {
      assert m >= SurrogateBase;
      assert u[1] == v[1];
      assert (n - SurrogateBase) / 0x400 == (m - SurrogateBase) / 0x400;
      assert (n - SurrogateBase) % 0x400 == (m - SurrogateBase) % 0x400;
      assert n == m;
    }
    assert u[|Utf16(c)|..] == x;
    assert v[|Utf16(d)|..] == y;
  }

  /** Different strings have different encodings. */
  lemma {:induction false} CodeUnitsInjective(a: string, b: string)
    requires CodeUnits(a) == CodeUnits(b)
    ensures a == b
    decreases |a|
  {
    if |a| == 0 {
      assert |b| == 0;
    } else {
      assert |b| > 0;
      Utf16Decodes(a[0], b[0], CodeUnits(a[1..]), CodeUnits(b[1..]));
      CodeUnitsInjective(a[1..], b[1..]);
      assert a == [a[0]] + a[1..];
      assert b == [b[0]] + b[1..];
    }
  }

  lemma {:induction false} UnitsLessIrreflexive(a: seq<int>)
    ensures !UnitsLess(a, a)
    decreases |a|
  {
    if |a| > 0 {
      UnitsLessIrreflexive(a[1..]);
    }
  }

  lemma {:induction false} UnitsLessAsymmetric(a: seq<int>, b: seq<int>)
    ensures UnitsLess(a, b) ==> !UnitsLess(b, a)
    decreases |a|
  {
    if |a| > 0 && |b| > 0 && a[0] == b[0] {
      UnitsLessAsymmetric(a[1..], b[1..]);
    }
  }

  lemma {:induction false} UnitsLessTransitive(a: seq<int>, b: seq<int>, c: seq<int>)
    requires UnitsLess(a, b) && UnitsLess(b, c)
    ensures UnitsLess(a, c)
    decreases |a|
  {
    if |a| > 0 && a[0] == b[0] && b[0] == c[0] {
      UnitsLessTransitive(a[1..], b[1..], c[1..]);
    }
  }

  lemma {:induction false} UnitsLessTotal(a: seq<int>, b: seq<int>)
    requires a != b
    ensures UnitsLess(a, b) || UnitsLess(b, a)
    decreases |a|
  {
    if |a| > 0 && |b| > 0 && a[0] == b[0] {
      assert a == [a[0]] + a[1..];
      assert b == [b[0]] + b[1..];
      UnitsLessTotal(a[1..], b[1..]);
    }
  }

  lemma LexLessIrreflexive(a: string)
    ensures !LexLess(a, a)
  {
    UnitsLessIrreflexive(CodeUnits(a));
  }

  lemma LexLessAsymmetric(a: string, b: string)
    ensures LexLess(a, b) ==> !LexLess(b, a)
  {
    UnitsLessAsymmetric(CodeUnits(a), CodeUnits(b));
  }

  lemma LexLessTransitive(a: string, b: string, c: string)
    requires LexLess(a, b) && LexLess(b, c)
    ensures LexLess(a, c)
  {
    UnitsLessTransitive(CodeUnits(a), CodeUnits(b), CodeUnits(c));
  }

  /** Any two different strings are ordered one way or the other. */
  lemma LexLessTotal(a: string, b: string)
    requires a != b
    ensures LexLess(a, b) || LexLess(b, a)
  {
    if CodeUnits(a) == CodeUnits(b) {
      CodeUnitsInjective(a, b);
    }
    UnitsLessTotal(CodeUnits(a), CodeUnits(b));
  }

  /**
   * Code unit order differs from code point order: U+1F680 (a rocket) sorts
   * before U+FF46 (a fullwidth letter) since its high surrogate U+D83D is
   * smaller, and a proper prefix still sorts first.
   */
  lemma LexLessExamples()
    ensures LexLess("\U{1F680}", "\U{FF46}") && !LexLess("\U{FF46}", "\U{1F680}")
    ensures LexLess("ab", "abc") && LexLess("Z", "a")
  {
    assert CodeUnits("\U{1F680}") == [0xD83D, 0xDE80];
    assert CodeUnits("\U{FF46}") == [0xFF46];
    assert CodeUnits("ab") == [97, 98];
    assert CodeUnits("abc") == [97, 98, 99];
    assert CodeUnits("Z") == [90];
    assert CodeUnits("a") == [97];
  }

  /** `!(b < a)`, that is `a <= b` on strings. */
  predicate LexLessEq(a: string, b: string) {
    !LexLess(b, a)
  }

  lemma LexLessEqTransitive(a: string, b: string, c: string)
    requires LexLessEq(a, b) && LexLessEq(b, c)
    ensures LexLessEq(a, c)
  {
    if LexLess(c, a) {
      if a == b {
      } else if b == c {
      } else {
        LexLessTotal(a, b);
        LexLessTotal(b, c);
        LexLessTransitive(c, a, b);
      }
    }
  }

  function DigitChar(d: nat): char
    requires d < 10
  {
    ('0' as int + d) as char
  }

  /** `String(n)` for a non-negative integer: its decimal digits, no leading zero. */
  function NatToString(n: nat): (r: string)
    ensures |r| >= 1
    ensures forall k :: 0 <= k < |r| ==> '0' <= r[k] <= '9'
    ensures |r| > 1 ==> r[0] != '0'
    decreases n
  {
    if n < 10 then [DigitChar(n)]
    else NatToString(n / 10) + [DigitChar(n % 10)]
  }

  /** The value of a string of decimal digits. */
  function DecimalValue(s: string): nat
    requires forall k :: 0 <= k < |s| ==> '0' <= s[k] <= '9'
    decreases |s|
  {
    if |s| == 0 then 0
    else 10 * DecimalValue(s[..|s| - 1]) + (s[|s| - 1] as int - '0' as int)
  }

  /** Reading back the decimal rendering of `n` gives `n`. */
  lemma {:induction false} NatToStringRoundTrip(n: nat)
    ensures DecimalValue(NatToString(n)) == n
    decreases n
  {
    if n >= 10 {
      var s := NatToString(n);
      NatToStringRoundTrip(n / 10);
      assert s[..|s| - 1] == NatToString(n / 10);
    }
  }
}
