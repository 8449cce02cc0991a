/** The few `java.lang.String` and `Character` operations the controllers rely
    on, with Java's meaning rather than Dafny's: `length()` counts UTF-16 code
    units, `trim()` strips every character at or below U+0020, `isBlank()`
    uses `Character.isWhitespace`. */
module JavaString {

  /** Number of UTF-16 code units Java needs for one character. */
  function Utf16Units(c: char): nat {
    if c as int >= 0x1_0000 then 2 else 1
  }

  /** `String.length()`: characters outside the Basic Multilingual Plane are
      stored as surrogate pairs and count twice. */
  function Utf16Length(s: string): (n: nat)
    ensures |s| <= n <= 2 * |s|
    ensures (forall k | 0 <= k < |s| :: s[k] as int < 0x1_0000) ==> n == |s|
  {
    if |s| == 0 then 0 else Utf16Units(s[0]) + Utf16Length(s[1..])
  }

  /** Line terminators of `java.util.regex`: `.` matches none of them unless
      the pattern is compiled with DOTALL. */
  predicate IsLineTerminator(c: char) {
    c == '\n' || c == '\r' || c == '\U{0085}' || c == '\U{2028}' || c == '\U{2029}'
  }

  /** `Character.isWhitespace`: the Unicode space, line and paragraph
      separators other than the three non-breaking spaces, plus the ASCII
      controls TAB, LF, VT, FF, CR and FS..US. */
  predicate IsJavaWhitespace(c: char) {
    || c == ' ' || ('\t' <= c <= '\r') || ('\U{001C}' <= c <= '\U{001F}')
    || c == '\U{1680}' || ('\U{2000}' <= c <= '\U{2006}') || ('\U{2008}' <= c <= '\U{200A}')
    || c == '\U{2028}' || c == '\U{2029}' || c == '\U{205F}' || c == '\U{3000}'
  }

  /** `String.isBlank()`, scanning from the front for a character that is
      not whitespace: true for the empty string and for whitespace only. */
  function IsBlank(s: string): (b: bool)
    ensures b <==> forall k | 0 <= k < |s| :: IsJavaWhitespace(s[k])
  {
    |s| == 0 || (IsJavaWhitespace(s[0]) && IsBlank(s[1..]))
  }

  /** `String.startsWith(prefix)`, comparing character by character: the
      prefix fits and `s` is the prefix followed by the rest of `s`. */
  function StartsWith(s: string, prefix: string): (b: bool)
    ensures b <==> |prefix| <= |s| && forall k | 0 <= k < |prefix| :: s[k] == prefix[k]
    ensures b ==> s == prefix + s[|prefix|..]
  {
    if |prefix| == 0 then true
    else |s| > 0 && s[0] == prefix[0] && StartsWith(s[1..], prefix[1..])
  }

  /** Every character is one that `trim()` removes. */
  predicate AllTrimmable(s: string) {
    forall k | 0 <= k < |s| :: s[k] <= ' '
  }

  function LeadingTrimmable(s: string): (n: nat)
    ensures n <= |s|
    ensures AllTrimmable(s[..n])
    ensures n < |s| ==> s[n] > ' '
  {
    if |s| == 0 || s[0] > ' ' then 0 else 1 + LeadingTrimmable(s[1..])
  }

  function TrailingTrimmable(s: string): (n: nat)
    ensures n <= |s|
    ensures AllTrimmable(s[|s| - n..])
    ensures n < |s| ==> s[|s| - 1 - n] > ' '
  {
    if |s| == 0 || s[|s| - 1] > ' ' then 0 else 1 + TrailingTrimmable(s[..|s| - 1])
  }

  /** `r` is what is left of `s` once the characters before position `i` and
      after position `i + |r|` are removed, and all of those are trimmable. */
  predicate TrimSplit(s: string, r: string, i: int) {
    && 0 <= i && i + |r| <= |s|
    && s[i..i + |r|] == r
    && AllTrimmable(s[..i])
    && AllTrimmable(s[i + |r|..])
  }

  /** `String.trim()`. */
  function Trim(s: string): (r: string)
    ensures |r| <= |s|
    ensures |r| > 0 ==> r[0] > ' ' && r[|r| - 1] > ' '
    ensures exists i :: TrimSplit(s, r, i)
  {
    var i := LeadingTrimmable(s);
    var j := TrailingTrimmable(s[i..]);
    TrimSplitAt(s, i, j);
    s[i..|s| - j]
  }

  lemma TrimSplitAt(s: string, i: nat, j: nat)
    requires i <= |s| && AllTrimmable(s[..i]) && (i < |s| ==> s[i] > ' ')
    requires j <= |s| - i
    requires AllTrimmable(s[i..][|s| - i - j..])
    requires j < |s| - i ==> s[i..][|s| - i - 1 - j] > ' '
    ensures TrimSplit(s, s[i..|s| - j], i)
    ensures i < |s| - j ==> s[i] > ' ' && s[|s| - j - 1] > ' '
  {
    SuffixOfSuffix(s, i, j);
  }

  /** The last `j` characters of `s[i..]` are the last `j` of `s`. */
  lemma SuffixOfSuffix(s: string, i: nat, j: nat)
    requires i <= |s| && j <= |s| - i
    requires AllTrimmable(s[i..][|s| - i - j..])
    requires j < |s| - i ==> s[i..][|s| - i - 1 - j] > ' '
    ensures AllTrimmable(s[|s| - j..])
    ensures j < |s| - i ==> s[|s| - j - 1] > ' '
  {
    assert s[i..][|s| - i - j..] == s[|s| - j..];
  }

  /** A string that already starts and ends with a visible character is its
      own trim. */
  lemma TrimOfTrimmed(s: string)
    requires |s| > 0 ==> s[0] > ' ' && s[|s| - 1] > ' '
    ensures Trim(s) == s
  {
    if |s| > 0 {
      assert LeadingTrimmable(s) == 0;
      assert s[0..] == s;
      assert TrailingTrimmable(s) == 0;
    }
  }

  /** Upper-case mapping of one character, as far as it can produce an ASCII
      letter: the ASCII lower-case letters, U+0131 (dotless i) and U+017F
      (long s). Every other character is kept, which is exact for the
      question "is the upper-cased string a given ASCII word". */
  function UpperChar(c: char): char {
    if 'a' <= c <= 'z' then (c as int - 32) as char
    else if c == '\U{0131}' then 'I'
    else if c == '\U{017F}' then 'S'
    else c
  }

  /** `String.toUpperCase()` in a locale other than Turkish or Azeri,
      character by character. */
  function UpperCase(s: string): (r: string)
    ensures |r| == |s|
    ensures forall k | 0 <= k < |s| :: r[k] == UpperChar(s[k])
  {
    if |s| == 0 then [] else [UpperChar(s[0])] + UpperCase(s[1..])
  }

  /** The ASCII-only case folding `java.util.regex` applies under `(?i)`
      without UNICODE_CASE. */
  function AsciiLower(c: char): char {
    if 'A' <= c <= 'Z' then (c as int + 32) as char else c
  }
}
