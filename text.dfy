/**
 * The .NET string and character primitives the source relies on: char.IsWhiteSpace
 * (also the set the regex class \s and string.Trim use), string.IsNullOrWhiteSpace,
 * string.Contains, string.Join, int.ToString and the regex character classes
 * [a-z], [A-Z] and \d.  A string is a sequence of Unicode scalar values; a null
 * string is modelled by the empty string wherever the source treats the two alike.
 */
module Text {

  /** char.IsWhiteSpace: U+0009..U+000D, U+0020, U+0085, U+00A0 and the Unicode
      space, line and paragraph separators. The .NET regex class \s is the same set. */
  predicate IsWhiteSpace(c: char) {
    || ('\U{0009}' <= c <= '\U{000D}')
    || c == ' ' || c == '\U{0085}' || c == '\U{00A0}' || c == '\U{1680}'
    || ('\U{2000}' <= c <= '\U{200A}')
    || c == '\U{2028}' || c == '\U{2029}' || c == '\U{202F}' || c == '\U{205F}' || c == '\U{3000}'
  }

  /** string.IsNullOrWhiteSpace (a null string is the empty string here). */
  predicate IsBlank(s: string) {
    forall i :: 0 <= i < |s| ==> IsWhiteSpace(s[i])
  }

  /** The regex class \d, restricted to the ASCII digits. */
  predicate IsDigit(c: char) { '0' <= c <= '9' }

  /** The regex class [a-z]. */
  predicate IsAsciiLower(c: char) { 'a' <= c <= 'z' }

  /** The regex class [A-Z]. */
  predicate IsAsciiUpper(c: char) { 'A' <= c <= 'Z' }

  predicate HasDigit(s: string) { exists i :: 0 <= i < |s| && IsDigit(s[i]) }
  predicate HasAsciiLower(s: string) { exists i :: 0 <= i < |s| && IsAsciiLower(s[i]) }
  predicate HasAsciiUpper(s: string) { exists i :: 0 <= i < |s| && IsAsciiUpper(s[i]) }

  predicate StartsWith(s: string, prefix: string) {
    |prefix| <= |s| && s[..|prefix|] == prefix
  }

  /** Ordinal string.Contains: `t` occurs in `s` at some position. */
  predicate Contains(s: string, t: string) {
    exists i :: 0 <= i <= |s| && StartsWith(s[i..], t)
  }

  /** string.IndexOf(char): the first position of `c` in `s`, or -1. */
  function IndexOf(s: string, c: char): (r: int)
    ensures -1 <= r < |s|
    ensures r >= 0 ==> s[r] == c && forall k :: 0 <= k < r ==> s[k] != c
    ensures r < 0 ==> c !in s
  {
    if s == [] then -1
    else if s[0] == c then 0
    else
      var i := IndexOf(s[1..], c);
      if i < 0 then -1 else i + 1
  }

  /** The characters of `s` that satisfy `keep`, in order (a regex Replace with "" of the complement class). */
  function Keep(s: string, keep: char -> bool): (r: string)
    ensures |r| <= |s|
    ensures forall i :: 0 <= i < |r| ==> keep(r[i])
    ensures forall c :: c in r <==> c in s && keep(c)
  {
    if s == [] then [] else (if keep(s[0]) then [s[0]] else []) + Keep(s[1..], keep)
  }

  lemma KeepAppend(a: string, b: string, keep: char -> bool)
    ensures Keep(a + b, keep) == Keep(a, keep) + Keep(b, keep)
  {
    if a != [] {
      assert (a + b)[1..] == a[1..] + b;
      KeepAppend(a[1..], b, keep);
    } else {
      assert a + b == b;
    }
  }

  lemma KeepAll(s: string, keep: char -> bool)
    requires forall i :: 0 <= i < |s| ==> keep(s[i])
    ensures Keep(s, keep) == s
  {
    if s != [] {
      KeepAll(s[1..], keep);
    }
  }

  /** string.TrimStart(): drops the leading white space. */
  function TrimStart(s: string): (r: string)
    ensures |r| <= |s| && r == s[|s| - |r|..]
    ensures forall i :: 0 <= i < |s| - |r| ==> IsWhiteSpace(s[i])
    ensures r != [] ==> !IsWhiteSpace(r[0])
  {
    if s != [] && IsWhiteSpace(s[0]) then TrimStart(s[1..]) else s
  }

  /** string.TrimEnd(): drops the trailing white space. */
  function TrimEnd(s: string): (r: string)
    ensures |r| <= |s| && r == s[..|r|]
    ensures forall i :: |r| <= i < |s| ==> IsWhiteSpace(s[i])
    ensures r != [] ==> !IsWhiteSpace(r[|r| - 1])
  {
    if s != [] && IsWhiteSpace(s[|s| - 1]) then TrimEnd(s[..|s| - 1]) else s
  }

  /** string.Trim(): drops the leading and the trailing white space. */
  function Trim(s: string): string {
    TrimEnd(TrimStart(s))
  }

  /** What Trim leaves: an infix of `s` that neither starts nor ends with white space,
      empty exactly when `s` is blank. */
  lemma TrimFacts(s: string)
    ensures |Trim(s)| <= |s| && forall c :: c in Trim(s) ==> c in s
    ensures Trim(s) != [] ==> !IsWhiteSpace(Trim(s)[0]) && !IsWhiteSpace(Trim(s)[|Trim(s)| - 1])
    ensures Trim(s) == [] <==> IsBlank(s)
  {
    var t := TrimStart(s);
    var r := TrimEnd(t);
    forall c | c in r ensures c in s {
      var i :| 0 <= i < |r| && r[i] == c;
      assert s[|s| - |t| + i] == c;
    }
    if r == [] {
      assert t == [];
    } else {
      assert r[0] == t[0];
    }
  }

  /** Trimming a string that neither starts nor ends with white space changes nothing. */
  lemma TrimIdentity(s: string)
    requires s != [] ==> !IsWhiteSpace(s[0]) && !IsWhiteSpace(s[|s| - 1])
    ensures Trim(s) == s
  {
  }

  /** Dropping a leading white-space character keeps a string blank or not blank. */
  lemma BlankTail(a: string)
    requires a != [] && IsWhiteSpace(a[0])
    ensures IsBlank(a) <==> IsBlank(a[1..])
  {
    if IsBlank(a[1..]) {
      forall i | 0 < i < |a| ensures IsWhiteSpace(a[i]) {
        assert a[i] == a[1..][i - 1];
      }
    }
  }

  /** Leading white space is stripped only from a prefix that is not all white space. */
  lemma {:induction false} TrimStartAppend(a: string, b: string)
    ensures !IsBlank(a) ==> TrimStart(a + b) == TrimStart(a) + b
    ensures IsBlank(a) ==> TrimStart(a + b) == TrimStart(b)
  {
    if a == [] {
      assert a + b == b;
    } else if IsWhiteSpace(a[0]) {
      assert (a + b)[0] == a[0] && (a + b)[1..] == a[1..] + b;
      assert TrimStart(a + b) == TrimStart(a[1..] + b) && TrimStart(a) == TrimStart(a[1..]);
      TrimStartAppend(a[1..], b);
      BlankTail(a);
    } else {
      assert (a + b)[0] == a[0];
      assert TrimStart(a + b) == a + b && TrimStart(a) == a;
      assert !IsBlank(a);
    }
  }

  /** Trailing white space is stripped only from a suffix that is not all white space. */
  lemma {:induction false} TrimEndAppend(a: string, b: string)
    ensures !IsBlank(b) ==> TrimEnd(a + b) == a + TrimEnd(b)
    ensures IsBlank(b) ==> TrimEnd(a + b) == TrimEnd(a)
  {
    if b == [] {
      assert a + b == a;
    } else {
      assert (a + b)[..|a + b| - 1] == a + b[..|b| - 1];
      TrimEndAppend(a, b[..|b| - 1]);
      if IsBlank(b) {
        assert IsWhiteSpace(b[|b| - 1]);
      } else if !IsWhiteSpace(b[|b| - 1]) {
        assert TrimEnd(b) == b;
      } else {
        assert !IsBlank(b[..|b| - 1]);
      }
    }
  }

  /** string.Join(sep, parts). */
  function Join(sep: string, parts: seq<string>): string {
    if |parts| == 0 then ""
    else if |parts| == 1 then parts[0]
    else parts[0] + sep + Join(sep, parts[1..])
  }

  function DigitChar(d: int): char
    requires 0 <= d < 10
  {
    "0123456789"[d]
  }

  /** Non-negative integers in decimal, as int.ToString() writes them. */
  function NatToString(n: nat): (r: string)
    ensures |r| > 0
    ensures forall i :: 0 <= i < |r| ==> IsDigit(r[i])
  {
    if n < 10 then [DigitChar(n)] else NatToString(n / 10) + [DigitChar(n % 10)]
  }

  /** int.ToString() under the invariant culture. */
  function IntToString(n: int): string {
    if n < 0 then "-" + NatToString(-n) else NatToString(n)
  }

  /** char.ToLowerInvariant, restricted to the ASCII letters (others are left unchanged). */
  function ToLowerAsciiChar(c: char): char {
    if IsAsciiUpper(c) then (c as int + 32) as char else c
  }

  /** char.ToUpperInvariant, restricted to the ASCII letters (others are left unchanged). */
  function ToUpperAsciiChar(c: char): char {
    if IsAsciiLower(c) then (c as int - 32) as char else c
  }

  function MapChars(s: string, f: char -> char): (r: string)
    ensures |r| == |s| && forall i :: 0 <= i < |s| ==> r[i] == f(s[i])
  {
    if s == [] then [] else [f(s[0])] + MapChars(s[1..], f)
  }

  /** string.ToLowerInvariant(), ASCII letters only. */
  function ToLowerAscii(s: string): string {
    MapChars(s, ToLowerAsciiChar)
  }

  /** string.ToUpperInvariant(), ASCII letters only. */
  function ToUpperAscii(s: string): string {
    MapChars(s, ToUpperAsciiChar)
  }

  // .NET strings are sequences of UTF-16 code units; a char here is a Unicode scalar value.

  /** The UTF-16 encoding of one character: itself below U+10000, otherwise a surrogate pair. */
  function Utf16Units(c: char): (r: seq<int>)
    ensures 1 <= |r| <= 2 && (|r| == 1 <==> c as int < 0x1_0000)
  {
    if c as int < 0x1_0000 then [c as int]
    else
      var v := c as int - 0x1_0000;
      [0xD800 + v / 0x400, 0xDC00 + v % 0x400]
  }

  /** The UTF-16 code units of `s`, which .NET indexes, counts and compares. */
  function Utf16(s: string): (r: seq<int>)
    ensures |s| <= |r| <= 2 * |s|
  {
    if s == [] then [] else Utf16Units(s[0]) + Utf16(s[1..])
  }

  /** string.Length. */
  function Utf16Length(s: string): nat {
    |Utf16(s)|
  }

  /** Below U+10000 every character is one code unit, so Length counts characters. */
  lemma {:induction false} Utf16LengthBmp(s: string)
    requires forall i :: 0 <= i < |s| ==> s[i] as int < 0x1_0000
    ensures Utf16Length(s) == |s|
  {
    if s != [] {
      Utf16LengthBmp(s[1..]);
    }
  }

  /** Length of a concatenation is the sum of the lengths. */
  lemma {:induction false} Utf16LengthAppend(a: string, b: string)
    ensures Utf16Length(a + b) == Utf16Length(a) + Utf16Length(b)
  {
    if a != [] {
      assert (a + b)[0] == a[0];
      assert (a + b)[1..] == a[1..] + b;
      assert Utf16(a + b) == Utf16Units(a[0]) + Utf16(a[1..] + b);
      Utf16LengthAppend(a[1..], b);
    } else {
      assert a + b == b;
    }
  }
}
