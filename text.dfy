/** The Python string operations the two scripts rely on, over `seq<char>`:
    the `startswith('http')` filter, `str.lower`, `str.strip` and
    `split("\n")[0]`. */
module Text {

  /** `s.startswith('http')`: the text test both scripts use to keep a link. */
  predicate IsHttp(s: string) {
    "http" <= s
  }

  predicate IsAsciiUpper(c: char) {
    'A' <= c <= 'Z'
  }

  predicate IsAsciiAlpha(c: char) {
    'A' <= c <= 'Z' || 'a' <= c <= 'z'
  }

  /** No character of `s` is an upper-case ASCII letter. */
  predicate NoAsciiUpper(s: string) {
    forall k :: 0 <= k < |s| ==> !IsAsciiUpper(s[k])
  }

  function LowerChar(c: char): char {
    if IsAsciiUpper(c) then (c as int + 32) as char else c
  }

  /** `str.lower()` restricted to ASCII letters. */
  function Lower(s: string): string {
    seq(|s|, k requires 0 <= k < |s| => LowerChar(s[k]))
  }

  /** Lower-casing maps each upper-case ASCII letter to its lower-case partner
      (32 code points further on) and leaves every other character alone. */
  lemma LowerProperties(s: string)
    ensures |Lower(s)| == |s|
    ensures forall k :: 0 <= k < |s| && IsAsciiUpper(s[k]) ==> Lower(s)[k] as int == s[k] as int + 32
    ensures forall k :: 0 <= k < |s| && !IsAsciiUpper(s[k]) ==> Lower(s)[k] == s[k]
    ensures NoAsciiUpper(Lower(s))
    ensures Lower(Lower(s)) == Lower(s)
  {
  }

  /** Two characters that are equal, or the same ASCII letter in both cases. */
  predicate SameLetterUpToCase(c: char, d: char) {
    || c == d
    || (IsAsciiUpper(c) && d as int == c as int + 32)
    || (IsAsciiUpper(d) && c as int == d as int + 32)
  }

  /** Two strings that differ at most in the case of ASCII letters. */
  predicate SameUpToCase(s: string, t: string) {
    |s| == |t| && forall k :: 0 <= k < |s| ==> SameLetterUpToCase(s[k], t[k])
  }

  /** Lower-casing identifies two strings exactly when they differ at most in
      the case of ASCII letters. */
  lemma LowerCaseInsensitive(s: string, t: string)
    ensures Lower(s) == Lower(t) <==> SameUpToCase(s, t)
  {
    if Lower(s) == Lower(t) {
      forall k | 0 <= k < |s|
        ensures SameLetterUpToCase(s[k], t[k])
      {
        assert Lower(s)[k] == Lower(t)[k];
      }
    }
    if SameUpToCase(s, t) {
      forall k | 0 <= k < |s|
        ensures Lower(s)[k] == Lower(t)[k]
      {
        assert SameLetterUpToCase(s[k], t[k]);
      }
    }
  }

  /** Lower-casing leaves a string without upper-case letters unchanged. */
  lemma LowerOfLower(s: string)
    requires NoAsciiUpper(s)
    ensures Lower(s) == s
  {
  }

  /** The characters Python's `str.isspace` accepts, which `str.strip()`
      removes: the ASCII controls 9 to 13 and 28 to 31, the space, and the
      Unicode separators. */
  predicate IsSpace(c: char) {
    || c == ' '
    || '\t' <= c <= '\r'
    || '\U{1c}' <= c <= '\U{1f}'
    || c == '\U{85}' || c == '\U{a0}' || c == '\U{1680}'
    || '\U{2000}' <= c <= '\U{200a}'
    || c == '\U{2028}' || c == '\U{2029}' || c == '\U{202f}'
    || c == '\U{205f}' || c == '\U{3000}'
  }

  /** `s.lstrip()`: drops the leading white space; what remains is a suffix of
      `s` that does not start with white space. */
  function TrimStart(s: string): (r: string)
    ensures |r| <= |s| && r == s[|s| - |r|..]
    ensures forall k :: 0 <= k < |s| - |r| ==> IsSpace(s[k])
    ensures r != [] ==> !IsSpace(r[0])
  {
    if s != [] && IsSpace(s[0]) then
      var r := TrimStart(s[1..]);
      assert s[1..][|s| - 1 - |r|..] == s[|s| - |r|..];
      r
    else s
  }

  /** `s.rstrip()`: drops the trailing white space; what remains is a prefix of
      `s` that does not end with white space. */
  function TrimEnd(s: string): (r: string)
    ensures r <= s
    ensures forall k :: |r| <= k < |s| ==> IsSpace(s[k])
    ensures r != [] ==> !IsSpace(r[|r| - 1])
  {
    if s != [] && IsSpace(s[|s| - 1]) then TrimEnd(s[..|s| - 1]) else s
  }

  /** `s.strip()`. */
  function Strip(s: string): string {
    TrimEnd(TrimStart(s))
  }

  /** What `Strip` keeps is one contiguous piece `s[i..i + |Strip(s)|]` of its
      input, everything it drops is white space, and the piece neither starts
      nor ends with white space. */
  lemma StripSlice(s: string) returns (i: int)
    ensures 0 <= i <= i + |Strip(s)| <= |s|
    ensures Strip(s) == s[i..i + |Strip(s)|]
    ensures forall k :: 0 <= k < i ==> IsSpace(s[k])
    ensures forall k :: i + |Strip(s)| <= k < |s| ==> IsSpace(s[k])
    ensures Strip(s) != [] ==> !IsSpace(Strip(s)[0]) && !IsSpace(Strip(s)[|Strip(s)| - 1])
  {
    i := |s| - |TrimStart(s)|;
    StripPiece(s, i);
    StripDropped(s, i);
    StripEnds(s);
  }

  /** The kept piece starts where `TrimStart` stopped. */
  lemma StripPiece(s: string, i: int)
    requires i == |s| - |TrimStart(s)|
    ensures 0 <= i <= i + |Strip(s)| <= |s|
    ensures Strip(s) == s[i..i + |Strip(s)|]
  {
    PrefixOfSuffix(s, TrimStart(s), Strip(s), i);
  }

  /** Everything before and after the kept piece is white space. */
  lemma StripDropped(s: string, i: int)
    requires i == |s| - |TrimStart(s)|
    ensures forall k :: 0 <= k < i ==> IsSpace(s[k])
    ensures forall k :: i + |Strip(s)| <= k < |s| ==> IsSpace(s[k])
  {
    var t := TrimStart(s);
    ShiftAll(s, t, i, |TrimEnd(t)|, IsSpace);
  }

  /** The kept piece neither starts nor ends with white space. */
  lemma StripEnds(s: string)
    ensures Strip(s) != [] ==> !IsSpace(Strip(s)[0]) && !IsSpace(Strip(s)[|Strip(s)| - 1])
  {
    var t := TrimStart(s);
    var r := TrimEnd(t);
    if r != [] {
      assert r[0] == t[0] && !IsSpace(t[0]);
      assert !IsSpace(r[|r| - 1]);
    }
  }

  /** A prefix `r` of the suffix `t == s[i..]` is the slice `s[i..i + |r|]`. */
  lemma PrefixOfSuffix<T>(s: seq<T>, t: seq<T>, r: seq<T>, i: int)
    requires 0 <= i <= |s| && t == s[i..] && r <= t
    ensures r == s[i..i + |r|]
  {
  }

  /** What holds of the tail of the suffix `t == s[i..]` holds of the tail of
      `s`. */
  lemma ShiftAll<T>(s: seq<T>, t: seq<T>, i: int, n: int, p: T -> bool)
    requires 0 <= i <= |s| && t == s[i..] && 0 <= n
    requires forall k :: n <= k < |t| ==> p(t[k])
    ensures forall k :: i + n <= k < |s| ==> p(s[k])
  {
    forall k | i + n <= k < |s|
      ensures p(s[k])
    {
      assert s[k] == t[k - i];
    }
  }

  /** `s.split("\n")[0]`: everything before the first line feed, or all of
      `s` when it has none. */
  function FirstLine(s: string): (r: string)
    ensures r <= s
    ensures '\n' !in r
    ensures |r| < |s| ==> s[|r|] == '\n'
  {
    if s == [] || s[0] == '\n' then [] else [s[0]] + FirstLine(s[1..])
  }
}
