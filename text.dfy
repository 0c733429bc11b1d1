/**
 * The string operations both scrapers lean on: Java's `String.trim` and Python's `str.strip`,
 * `replace(pattern, "")`, splitting on one separator character (Python's `str.split(sep)` and
 * Java's `String.split`, which drops trailing empty fields), ASCII case folding for Jsoup's
 * case-insensitive selectors, and decimal integers with Java's `Integer.parseInt` and Python's
 * `int()` parsers.
 */
module Text {
  import opened Options

  // ---------------------------------------------------------------------------------------------
  // Blanks at both ends

  /** Java's `String.trim` treats every character at or below U+0020 as blank. */
  predicate IsJavaBlank(c: char) {
    c <= ' '
  }

  /** Python's `str.isspace` characters, which `str.strip()` and `int()` remove at both ends. */
  predicate IsPyWhitespace(c: char) {
    var n := c as int;
    (9 <= n <= 13) || (28 <= n <= 32) || n == 0x85 || n == 0xA0 || n == 0x1680
    || (0x2000 <= n <= 0x200A) || n == 0x2028 || n == 0x2029 || n == 0x202F
    || n == 0x205F || n == 0x3000
  }

  /** `s` without its longest suffix of blanks. */
  function DropTrailing(s: string, blank: char -> bool): (r: string)
    ensures |r| <= |s| && r == s[..|r|]
    ensures forall i :: |r| <= i < |s| ==> blank(s[i])
    ensures r == [] || !blank(r[|r| - 1])
  {
    if s != [] && blank(s[|s| - 1]) then DropTrailing(s[..|s| - 1], blank) else s
  }

  /** `r` is a run of `s` with nothing but blanks before and after it. */
  predicate IsInnerPart(s: string, r: string, blank: char -> bool) {
    exists i, j :: 0 <= i <= j <= |s| && r == s[i..j]
      && (forall k :: 0 <= k < i ==> blank(s[k])) && (forall k :: j <= k < |s| ==> blank(s[k]))
  }

  /** A blank in front does not change what the rest's inner part is an inner part of. */
  lemma InnerPartAfterBlank(s: string, r: string, blank: char -> bool)
    requires s != [] && blank(s[0]) && IsInnerPart(s[1..], r, blank)
    ensures IsInnerPart(s, r, blank)
  {
    var t := s[1..];
    var i, j :| 0 <= i <= j <= |t| && r == t[i..j]
      && (forall k :: 0 <= k < i ==> blank(t[k])) && (forall k :: j <= k < |t| ==> blank(t[k]));
    assert r == s[i + 1..j + 1];
    forall k | 0 <= k < i + 1 ensures blank(s[k]) {
      if k > 0 { assert s[k] == t[k - 1]; }
    }
    forall k | j + 1 <= k < |s| ensures blank(s[k]) {
      assert s[k] == t[k - 1];
    }
  }

  /** Dropping the trailing blanks leaves an inner part. */
  lemma InnerPartDropTrailing(s: string, blank: char -> bool)
    ensures IsInnerPart(s, DropTrailing(s, blank), blank)
  {
    var r := DropTrailing(s, blank);
    assert r == s[0..|r|];
  }

  /** Java's `String.trim()`: `s` with the blanks at both ends removed and nothing else
      (`TrimIsInnerPart`). */
  function Trim(s: string): (r: string)
    ensures |r| <= |s|
    ensures r == [] <==> forall i :: 0 <= i < |s| ==> IsJavaBlank(s[i])
    ensures r != [] ==> !IsJavaBlank(r[0]) && !IsJavaBlank(r[|r| - 1])
  {
    if s != [] && IsJavaBlank(s[0]) then Trim(s[1..]) else DropTrailing(s, IsJavaBlank)
  }

  /** Trimming removes blanks at both ends and nothing else. */
  lemma {:induction false} TrimIsInnerPart(s: string)
    ensures IsInnerPart(s, Trim(s), IsJavaBlank)
    decreases |s|
  {
    if s != [] && IsJavaBlank(s[0]) {
      TrimIsInnerPart(s[1..]);
      InnerPartAfterBlank(s, Trim(s[1..]), IsJavaBlank);
    } else {
      InnerPartDropTrailing(s, IsJavaBlank);
    }
  }

  /** `s` starts and ends with a non-blank. */
  predicate IsTrimmed(s: string) {
    s != [] && !IsJavaBlank(s[0]) && !IsJavaBlank(s[|s| - 1])
  }

  /** Text that starts and ends with a non-blank is its own trim. */
  lemma TrimUnchanged(s: string)
    requires IsTrimmed(s)
    ensures Trim(s) == s
  {
    assert DropTrailing(s, IsJavaBlank) == s;
  }

  /** Python's `str.strip()`: `s` with the whitespace at both ends removed and nothing else
      (`StripIsInnerPart`). */
  function Strip(s: string): (r: string)
    ensures |r| <= |s|
    ensures r == [] <==> forall i :: 0 <= i < |s| ==> IsPyWhitespace(s[i])
    ensures r != [] ==> !IsPyWhitespace(r[0]) && !IsPyWhitespace(r[|r| - 1])
  {
    if s != [] && IsPyWhitespace(s[0]) then Strip(s[1..]) else DropTrailing(s, IsPyWhitespace)
  }

  /** Stripping removes whitespace at both ends and nothing else. */
  lemma {:induction false} StripIsInnerPart(s: string)
    ensures IsInnerPart(s, Strip(s), IsPyWhitespace)
    decreases |s|
  {
    if s != [] && IsPyWhitespace(s[0]) {
      StripIsInnerPart(s[1..]);
      InnerPartAfterBlank(s, Strip(s[1..]), IsPyWhitespace);
    } else {
      InnerPartDropTrailing(s, IsPyWhitespace);
    }
  }

  // ---------------------------------------------------------------------------------------------
  // Substrings

  /** `t` occurs somewhere in `s`. */
  predicate Contains(s: string, t: string)
    decreases |s|
  {
    t <= s || (s != [] && Contains(s[1..], t))
  }

  /** A string contains every one of its suffixes. */
  lemma {:induction false} ContainsSuffix(a: string, t: string)
    ensures Contains(a + t, t)
  {
    if a != [] {
      assert (a + t)[1..] == a[1..] + t;
      ContainsSuffix(a[1..], t);
    }
  }

  /** Nothing longer than `s` occurs in it. */
  lemma {:induction false} ContainsShorter(s: string, t: string)
    requires |s| < |t|
    ensures !Contains(s, t)
    decreases |s|
  {
    if s != [] {
      ContainsShorter(s[1..], t);
    }
  }

  predicate EndsWith(s: string, t: string) {
    |t| <= |s| && s[|s| - |t|..] == t
  }

  /** Java's `s.replace(pat, "")` and Python's `s.replace(pat, "")`: every occurrence of `pat`
      found scanning left to right, each search resuming after the previous match, is deleted. */
  function RemoveAll(s: string, pat: string): (r: string)
    requires pat != []
    ensures |r| <= |s|
    decreases |s|
  {
    if |s| < |pat| then s
    else if s[..|pat|] == pat then RemoveAll(s[|pat|..], pat)
    else [s[0]] + RemoveAll(s[1..], pat)
  }

  /** Text without the pattern comes back unchanged. */
  lemma {:induction false} RemoveAllAbsent(s: string, pat: string)
    requires pat != [] && !Contains(s, pat)
    ensures RemoveAll(s, pat) == s
    decreases |s|
  {
    if |s| >= |pat| {
      assert s[..|pat|] != pat;
      RemoveAllAbsent(s[1..], pat);
      assert [s[0]] + s[1..] == s;
    }
  }

  /** No proper prefix of `pat` is also a suffix of it, so two occurrences can never overlap. */
  predicate BorderFree(pat: string) {
    forall k :: 0 < k < |pat| ==> pat[..k] != pat[|pat| - k..]
  }

  /** For a pattern that cannot overlap itself, one occurrence appended at the end is deleted
      and nothing else changes. */
  lemma {:induction false} RemoveAllAppended(a: string, pat: string)
    requires pat != [] && BorderFree(pat)
    ensures RemoveAll(a + pat, pat) == RemoveAll(a, pat)
    decreases |a|
  {
    var s := a + pat;
    if a == [] {
      assert s == pat && s[..|pat|] == pat && s[|pat|..] == [];
    } else if |a| < |pat| {
      var k := |pat| - |a|;
      assert pat[..k] != pat[|a|..];
      var j :| 0 <= j < k && pat[..k][j] != pat[|a|..][j];
      assert s[..|pat|][|a| + j] == pat[j] != pat[|a| + j];
      assert s[1..] == a[1..] + pat;
      RemoveAllAppended(a[1..], pat);
      assert [a[0]] + a[1..] == a;
    } else {
      assert s[..|pat|] == a[..|pat|];
      if a[..|pat|] == pat {
        assert s[|pat|..] == a[|pat|..] + pat;
        RemoveAllAppended(a[|pat|..], pat);
      } else {
        assert s[1..] == a[1..] + pat;
        RemoveAllAppended(a[1..], pat);
      }
    }
  }

  // ---------------------------------------------------------------------------------------------
  // ASCII case folding (Jsoup lower-cases both sides of `containsOwn`, `[href$=]`, `[href*=]`
  // and `[href^=]`; the model folds ASCII letters only)

  function LowerChar(c: char): char {
    if 'A' <= c <= 'Z' then (c as int + 32) as char else c
  }

  function Lower(s: string): (r: string)
    ensures |r| == |s|
  {
    if s == [] then [] else [LowerChar(s[0])] + Lower(s[1..])
  }

  /** Lower-casing works character by character, so it distributes over concatenation. */
  lemma {:induction false} LowerAppend(a: string, b: string)
    ensures Lower(a + b) == Lower(a) + Lower(b)
  {
    if a == [] {
      assert a + b == b;
    } else {
      assert (a + b)[0] == a[0] && (a + b)[1..] == a[1..] + b;
      LowerAppend(a[1..], b);
      assert [LowerChar(a[0])] + (Lower(a[1..]) + Lower(b)) == ([LowerChar(a[0])] + Lower(a[1..])) + Lower(b);
    }
  }

  /** Case-insensitive search for a lower-case `word`. */
  predicate ContainsIgnoreCase(s: string, word: string) {
    Contains(Lower(s), word)
  }

  // ---------------------------------------------------------------------------------------------
  // Splitting on one separator character

  /** Python's `s.split(sep)`: the fields between separators, empty ones included. */
  function Split(s: string, sep: char): (parts: seq<string>)
    ensures |parts| >= 1
    ensures forall i :: 0 <= i < |parts| ==> sep !in parts[i]
    ensures s != [] && s[0] != sep ==> parts[0] != [] && parts[0][0] == s[0]
    ensures sep !in s ==> parts == [s]
  {
    if s == [] then [[]]
    else
      var rest := Split(s[1..], sep);
      if s[0] == sep then [[]] + rest
      else
        assert [s[0]] + s[1..] == s;
        [[s[0]] + rest[0]] + rest[1..]
  }

  /** The fields put back together with the separator between them. */
  function Join(parts: seq<string>, sep: char): string
    requires |parts| >= 1
  {
    if |parts| == 1 then parts[0] else parts[0] + [sep] + Join(parts[1..], sep)
  }

  /** Splitting loses nothing: joining the fields again gives back the text. */
  lemma {:induction false} JoinSplit(s: string, sep: char)
    ensures Join(Split(s, sep), sep) == s
  {
    if s != [] {
      JoinSplit(s[1..], sep);
      var rest := Split(s[1..], sep);
      if s[0] != sep {
        JoinExtendFirst(s[0], rest, sep);
      } else {
        assert ([[]] + rest)[1..] == rest;
      }
      assert [s[0]] + s[1..] == s;
    }
  }

  /** A character put in front of the first field is put in front of the joined text. */
  lemma JoinExtendFirst(c: char, parts: seq<string>, sep: char)
    requires |parts| >= 1
    ensures Join([[c] + parts[0]] + parts[1..], sep) == [c] + Join(parts, sep)
  {
    var ext := [[c] + parts[0]] + parts[1..];
    if |parts| > 1 {
      assert ext[1..] == parts[1..];
    }
  }

  lemma {:induction false} SplitAfterField(x: string, y: string, sep: char)
    requires sep !in x
    ensures Split(x + [sep] + y, sep) == [x] + Split(y, sep)
  {
    if x == [] {
      assert [sep] + y == x + [sep] + y;
      assert ([sep] + y)[1..] == y;
    } else {
      assert (x + [sep] + y)[1..] == x[1..] + [sep] + y;
      SplitAfterField(x[1..], y, sep);
      assert [x[0]] + x[1..] == x;
    }
  }

  /** A last field appended after a separator becomes the last field of the split. */
  lemma {:induction false} SplitAppendField(a: string, d: string, sep: char)
    requires sep !in d
    ensures Split(a + [sep] + d, sep) == Split(a, sep) + [d]
  {
    var s := a + [sep] + d;
    if a == [] {
      assert s == [sep] + d && s[1..] == d;
    } else {
      assert s[0] == a[0] && s[1..] == a[1..] + [sep] + d;
      SplitAppendField(a[1..], d, sep);
      var rest := Split(a[1..], sep);
      assert Split(s[1..], sep) == rest + [d];
      if a[0] == sep {
        assert Split(s, sep) == [[]] + (rest + [d]);
        assert Split(a, sep) == [[]] + rest;
      } else {
        assert (rest + [d])[0] == rest[0];
        assert (rest + [d])[1..] == rest[1..] + [d];
        assert Split(s, sep) == [[a[0]] + rest[0]] + (rest[1..] + [d]);
        assert Split(a, sep) == [[a[0]] + rest[0]] + rest[1..];
      }
    }
  }

  /** Fields free of the separator are recovered by splitting their join. */
  lemma {:induction false} SplitJoin(parts: seq<string>, sep: char)
    requires |parts| >= 1
    requires forall i :: 0 <= i < |parts| ==> sep !in parts[i]
    ensures Split(Join(parts, sep), sep) == parts
  {
    if |parts| > 1 {
      SplitJoin(parts[1..], sep);
      SplitAfterField(parts[0], Join(parts[1..], sep), sep);
    }
  }

  /** `parts` without its trailing empty fields. */
  function DropTrailingEmpty(parts: seq<string>): (r: seq<string>)
    ensures |r| <= |parts| && r == parts[..|r|]
    ensures forall i :: |r| <= i < |parts| ==> parts[i] == []
    ensures r == [] || r[|r| - 1] != []
  {
    if parts != [] && parts[|parts| - 1] == [] then DropTrailingEmpty(parts[..|parts| - 1])
    else parts
  }

  /** Java's `s.split(sep)` (limit 0): the text itself when the separator does not occur,
      otherwise the fields without the trailing empty ones. */
  function JavaSplit(s: string, sep: char): (parts: seq<string>)
    ensures forall i :: 0 <= i < |parts| ==> sep !in parts[i]
    ensures sep !in s ==> parts == [s]
    ensures sep in s ==> parts == DropTrailingEmpty(Split(s, sep))
    ensures s != [] && s[0] != sep ==> parts != [] && parts[0] != []
  {
    if sep !in s then [s] else DropTrailingEmpty(Split(s, sep))
  }

  /** Java's split ends at a last non-empty field after a separator, and one trailing separator
      more changes nothing. */
  lemma JavaSplitLastField(stem: string, d: string, sep: char)
    requires d != [] && sep !in d
    ensures JavaSplit(stem + [sep] + d, sep) == Split(stem, sep) + [d]
    ensures JavaSplit(stem + [sep] + d + [sep], sep) == Split(stem, sep) + [d]
  {
    var s := stem + [sep] + d;
    assert s[|stem|] == sep;
    SplitAppendField(stem, d, sep);
    var split := Split(s, sep);
    assert DropTrailingEmpty(split) == split;
    assert s + [sep] == s + [sep] + [];
    assert (s + [sep])[|stem|] == sep;
    SplitAppendField(s, [], sep);
    var split2 := Split(s + [sep] + [], sep);
    assert split2[..|split2| - 1] == split;
  }

  // ---------------------------------------------------------------------------------------------
  // Decimal integers

  predicate IsDigit(c: char) {
    '0' <= c <= '9'
  }

  predicate AllDigits(s: string) {
    forall i :: 0 <= i < |s| ==> IsDigit(s[i])
  }

  /** The value of a string of decimal digits, most significant first. */
  function DigitsValue(s: string): nat
    requires AllDigits(s)
  {
    if s == [] then 0 else DigitsValue(s[..|s| - 1]) * 10 + (s[|s| - 1] as int - '0' as int)
  }

  function DigitChar(d: nat): (c: char)
    requires d < 10
    ensures IsDigit(c) && c as int - '0' as int == d
  {
    ('0' as int + d) as char
  }

  /** `n` written in decimal without leading zeros (Python's `str(n)`, Java's `"" + n` for n >= 0). */
  function Decimal(n: nat): (r: string)
    ensures r != [] && AllDigits(r)
    ensures DigitsValue(r) == n
    ensures r[0] == '0' ==> n == 0
  {
    if n < 10 then [DigitChar(n)]
    else
      var r := Decimal(n / 10) + [DigitChar(n % 10)];
      assert r[..|r| - 1] == Decimal(n / 10);
      r
  }

  /** Python's `str(i)` for any integer. */
  function IntToString(i: int): (r: string)
    ensures r != [] && IsDigit(r[|r| - 1])
    ensures forall k :: 0 <= k < |r| ==> IsDigit(r[k]) || (k == 0 && r[k] == '-')
  {
    if i < 0 then "-" + Decimal(-i) else Decimal(i)
  }

  /** Different integers print differently. */
  lemma IntToStringInjective(i: int, j: int)
    requires IntToString(i) == IntToString(j)
    ensures i == j
  {
    if i < 0 && j < 0 {
      assert Decimal(-i) == IntToString(i)[1..] == IntToString(j)[1..] == Decimal(-j);
    } else if i >= 0 && j >= 0 {
      assert DigitsValue(Decimal(i)) == DigitsValue(Decimal(j));
    } else {
      assert false;
    }
  }

  const INT_MIN: int := -0x8000_0000
  const INT_MAX: int := 0x7FFF_FFFF

  /** Java's `Integer.parseInt(s)` over ASCII digits: an optional sign, then at least one digit,
      and the value must fit in 32 bits; anything else is a NumberFormatException (None). */
  function ParseJavaInt(s: string): (r: Option<int>)
    ensures r.Some? ==> INT_MIN <= r.value <= INT_MAX
    ensures r.Some? ==> s != [] && (IsDigit(s[0]) || s[0] == '-' || s[0] == '+')
  {
    if s == [] then None
    else
      var digits := if s[0] == '-' || s[0] == '+' then s[1..] else s;
      if digits == [] || !AllDigits(digits) then None
      else
        var v: int := if s[0] == '-' then -(DigitsValue(digits) as int) else DigitsValue(digits);
        if INT_MIN <= v <= INT_MAX then Some(v) else None
  }

  /** Every non-negative 32-bit value survives printing and `Integer.parseInt`. */
  lemma ParseJavaIntDecimal(n: nat)
    requires n <= INT_MAX
    ensures ParseJavaInt(Decimal(n)) == Some(n)
  {
    var d := Decimal(n);
    assert d[0] != '-' && d[0] != '+';
  }

  /** The digits of a run that Python's `int()` accepts (a digit, then digits each optionally
      preceded by one underscore), with the underscores left out; `None` for anything else. */
  function RunDigits(s: string): (r: Option<string>)
    ensures r.Some? ==> r.value != [] && AllDigits(r.value)
    decreases |s|
  {
    if s == [] || !IsDigit(s[0]) then None
    else if |s| == 1 then Some(s)
    else
      match RunDigits(if s[1] == '_' then s[2..] else s[1..])
      case None => None
      case Some(rest) => Some([s[0]] + rest)
  }

  /** Plain digits are a run of themselves. */
  lemma {:induction false} RunDigitsOfDigits(d: string)
    requires d != [] && AllDigits(d)
    ensures RunDigits(d) == Some(d)
    decreases |d|
  {
    if |d| > 1 {
      RunDigitsOfDigits(d[1..]);
      assert [d[0]] + d[1..] == d;
    }
  }

  /** Python's `int(s)` over ASCII digits: whitespace is stripped, then an optional sign and a
      digit run with single underscores allowed between digits; anything else is a ValueError
      (None). Python integers are unbounded. */
  function ParsePyInt(s: string): (r: Option<int>) {
    SignedRun(Strip(s))
  }

  /** An optional sign and a digit run. */
  function SignedRun(t: string): (r: Option<int>) {
    if t == [] then None
    else
      var body := if t[0] == '-' || t[0] == '+' then t[1..] else t;
      match RunValue(body)
      case None => None
      case Some(v) => Some(if t[0] == '-' then -(v as int) else v)
  }

  /** The value of a digit run, its underscores ignored. */
  function RunValue(body: string): (r: Option<nat>) {
    match RunDigits(body)
    case None => None
    case Some(ds) => Some(DigitsValue(ds))
  }

  /** Plain digits are read as their decimal value. */
  lemma RunValueOfDigits(d: string)
    requires d != [] && AllDigits(d)
    ensures RunValue(d) == Some(DigitsValue(d))
  {
    RunDigitsOfDigits(d);
  }

  /** A string of digits has no whitespace to strip. */
  lemma StripDigits(d: string)
    requires d != [] && AllDigits(d)
    ensures Strip(d) == d
  {
    assert !IsPyWhitespace(d[0]) && !IsPyWhitespace(d[|d| - 1]);
    assert DropTrailing(d, IsPyWhitespace) == d;
  }

  /** A string of digits has nothing for `trim` to remove. */
  lemma TrimDigits(d: string)
    requires d != [] && AllDigits(d)
    ensures Trim(d) == d
  {
    TrimUnchanged(d);
  }

  /** Every natural number survives `str` and `int`. */
  lemma ParsePyIntDecimal(n: nat)
    ensures ParsePyInt(Decimal(n)) == Some(n)
  {
    var d := Decimal(n);
    StripDigits(d);
    assert d[0] != '-' && d[0] != '+';
    RunValueOfDigits(d);
  }

  /** Every integer survives `str` and `int`. */
  lemma ParsePyIntOfIntToString(i: int)
    ensures ParsePyInt(IntToString(i)) == Some(i)
  {
    if i >= 0 {
      ParsePyIntDecimal(i);
    } else {
      ParsePyIntOfNegative(i);
    }
  }

  lemma ParsePyIntOfNegative(i: int)
    requires i < 0
    ensures ParsePyInt(IntToString(i)) == Some(i)
  {
    var d := Decimal(-i);
    assert IntToString(i) == "-" + d;
    StripSigned(d);
    RunValueOfDigits(d);
    ParsePyIntNegative(d, -i);
  }

  /** A minus sign followed by digits reads as the negated digits. */
  lemma ParsePyIntNegative(body: string, v: nat)
    requires Strip("-" + body) == "-" + body && RunValue(body) == Some(v)
    ensures ParsePyInt("-" + body) == Some(-(v as int))
  {
    SignedRunNegative(body, v);
  }

  lemma SignedRunNegative(body: string, v: nat)
    requires RunValue(body) == Some(v)
    ensures SignedRun("-" + body) == Some(-(v as int))
  {
    var t := "-" + body;
    assert t[0] == '-' && t[1..] == body;
  }

  /** A minus sign followed by digits has no whitespace to strip. */
  lemma StripSigned(d: string)
    requires d != [] && AllDigits(d)
    ensures Strip("-" + d) == "-" + d
  {
    var t := "-" + d;
    assert !IsPyWhitespace(t[0]) && !IsPyWhitespace(t[|t| - 1]);
    assert DropTrailing(t, IsPyWhitespace) == t;
  }
}
