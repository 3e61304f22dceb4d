/** Character classes and string primitives of Python 3 `str` and `re`, as the parser uses them. */
module Chars {
  import opened Common

  /** `str.isspace()`, which is also the `\s` class of a `re` pattern on `str`. */
  predicate IsSpace(c: char)
  {
    var n := c as int;
    (9 <= n <= 13) || (28 <= n <= 32) || n == 0x85 || n == 0xA0 || n == 0x1680
    || (0x2000 <= n <= 0x200A) || n == 0x2028 || n == 0x2029 || n == 0x202F
    || n == 0x205F || n == 0x3000
  }

  /** The `\d` class (decimal digits). */
  predicate IsDigit(c: char)
  {
    '0' <= c <= '9'
  }

  /** The `\w` class: alphanumerics and underscore (ASCII and Latin-1). */
  predicate IsWordChar(c: char)
  {
    var n := c as int;
    ('a' <= c <= 'z') || ('A' <= c <= 'Z') || IsDigit(c) || c == '_'
    || n == 0xAA || n == 0xB2 || n == 0xB3 || n == 0xB5 || n == 0xB9 || n == 0xBA
    || (0xBC <= n <= 0xBE) || (0xC0 <= n <= 0xD6) || (0xD8 <= n <= 0xF6) || (0xF8 <= n <= 0xFF)
  }

  /** Upper-case letters (ASCII and Latin-1). */
  predicate IsUpperChar(c: char)
  {
    var n := c as int;
    ('A' <= c <= 'Z') || (0xC0 <= n <= 0xD6) || (0xD8 <= n <= 0xDE)
  }

  /** Lower-case letters (ASCII and Latin-1). */
  predicate IsLowerChar(c: char)
  {
    var n := c as int;
    ('a' <= c <= 'z') || n == 0xAA || n == 0xB5 || n == 0xBA
    || (0xDF <= n <= 0xF6) || (0xF8 <= n <= 0xFF)
  }

  /** `str.isupper()`: at least one upper-case letter and no lower-case one. */
  predicate IsUpperStr(s: string)
  {
    (exists i :: 0 <= i < |s| && IsUpperChar(s[i]))
    && (forall i :: 0 <= i < |s| ==> !IsLowerChar(s[i]))
  }

  /** `\b` at position `i`: exactly one of the characters around `i` is a word character. */
  predicate IsBoundary(s: string, i: nat)
    requires i <= |s|
  {
    (i > 0 && IsWordChar(s[i - 1])) != (i < |s| && IsWordChar(s[i]))
  }

  /** Whether character `c` matches the lower-case ASCII letter `l` under `re.IGNORECASE`;
      the letter i is also matched by the Turkish dotted and dotless forms. */
  predicate FoldsTo(c: char, l: char)
    requires 'a' <= l <= 'z'
  {
    c == l || c as int == l as int - 32
    || (l == 'i' && (c as int == 0x130 || c as int == 0x131))
  }

  /** `s[p..p + |w|]` equals the lower-case word `w`, ignoring case. */
  predicate CaseInsensitiveAt(s: string, p: nat, w: string)
    requires forall k :: 0 <= k < |w| ==> 'a' <= w[k] <= 'z'
  {
    p + |w| <= |s| && forall k :: 0 <= k < |w| ==> FoldsTo(s[p + k], w[k])
  }

  /** End of the run of whitespace that starts at `i`. */
  function SpaceRunEnd(s: string, i: nat): (j: nat)
    requires i <= |s|
    ensures i <= j <= |s|
    ensures forall k :: i <= k < j ==> IsSpace(s[k])
    ensures j == |s| || !IsSpace(s[j])
    decreases |s| - i
  {
    if i < |s| && IsSpace(s[i]) then SpaceRunEnd(s, i + 1) else i
  }

  /** `str.rstrip()`: the longest prefix of `s` that does not end in whitespace. */
  function RStrip(s: string): (r: string)
    ensures r <= s
    ensures forall i :: |r| <= i < |s| ==> IsSpace(s[i])
    ensures r == [] || !IsSpace(r[|r| - 1])
  {
    if s != [] && IsSpace(s[|s| - 1]) then RStrip(s[..|s| - 1]) else s
  }

  /** `str.lstrip()`: the longest suffix of `s` that does not start with whitespace. */
  function LStrip(s: string): (r: string)
    ensures |r| <= |s| && r == s[|s| - |r|..]
    ensures forall i :: 0 <= i < |s| - |r| ==> IsSpace(s[i])
    ensures r == [] || !IsSpace(r[0])
  {
    if s != [] && IsSpace(s[0]) then LStrip(s[1..]) else s
  }

  /** `str.strip()`. */
  function Strip(s: string): string
  {
    LStrip(RStrip(s))
  }

  /** The trimming argument on its own: `t` is `s` without trailing whitespace and `r` is `t`
      without leading whitespace. */
  lemma TrimBounds(s: string, t: string, r: string)
    requires t <= s && (forall i :: |t| <= i < |s| ==> IsSpace(s[i]))
    requires t == [] || !IsSpace(t[|t| - 1])
    requires |r| <= |t| && r == t[|t| - |r|..]
    requires forall i :: 0 <= i < |t| - |r| ==> IsSpace(t[i])
    requires r == [] || !IsSpace(r[0])
    ensures var a := |t| - |r|;
      && 0 <= a <= |s| - |r| && r == s[a..a + |r|]
      && (forall i :: 0 <= i < a ==> IsSpace(s[i]))
      && (forall i :: a + |r| <= i < |s| ==> IsSpace(s[i]))
      && (r != [] ==> !IsSpace(r[0]) && !IsSpace(r[|r| - 1]))
  {
    var a := |t| - |r|;
    assert t == s[..|t|];
    assert r == s[a..a + |r|];
    forall i | 0 <= i < a ensures IsSpace(s[i]) {
      assert s[i] == t[i];
    }
    if r != [] {
      assert r[|r| - 1] == t[|t| - 1];
    }
  }

  /** `s.strip()` is the substring of `s` left once the whitespace at both ends is cut off:
      it starts at offset `a`, everything outside it is whitespace, and it neither starts
      nor ends with whitespace. */
  lemma StripBounds(s: string)
    ensures var r := Strip(s); var a := |RStrip(s)| - |r|;
      && 0 <= a <= |s| - |r| && r == s[a..a + |r|]
      && (forall i :: 0 <= i < a ==> IsSpace(s[i]))
      && (forall i :: a + |r| <= i < |s| ==> IsSpace(s[i]))
      && (r != [] ==> !IsSpace(r[0]) && !IsSpace(r[|r| - 1]))
  {
    var t := RStrip(s);
    var r := LStrip(t);
    assert Strip(s) == r;
    TrimBounds(s, t, r);
  }

  /** `s.strip()` is empty exactly when `s` is all whitespace. */
  lemma StripEmptyIff(s: string)
    ensures Strip(s) == [] <==> forall i :: 0 <= i < |s| ==> IsSpace(s[i])
  {
    StripBounds(s);
  }

  /** Python's `s.split(sep)` for a one-character separator: the pieces between
      occurrences of `sep`; joining them back with `sep` gives `s`. */
  function SplitOn(s: string, sep: char): (r: seq<string>)
    ensures |r| >= 1
    ensures forall k :: 0 <= k < |r| ==> sep !in r[k]
    ensures JoinWith(r, sep) == s
    decreases |s|
  {
    if sep !in s then [s]
    else
      var i := IndexOf(s, sep);
      var rest := SplitOn(s[i + 1..], sep);
      assert s == s[..i] + [sep] + s[i + 1..];
      [s[..i]] + rest
  }

  /** Python's `sep.join(parts)`. */
  function JoinWith(parts: seq<string>, sep: char): string
  {
    if parts == [] then []
    else if |parts| == 1 then parts[0]
    else parts[0] + [sep] + JoinWith(parts[1..], sep)
  }

  /** The first position of `c` in `s`. */
  function IndexOf(s: string, c: char): (i: nat)
    requires c in s
    ensures i < |s| && s[i] == c && c !in s[..i]
  {
    if s[0] == c then 0
    else
      var j := IndexOf(s[1..], c);
      assert s[..j + 1] == [s[0]] + s[1..][..j];
      j + 1
  }
}
