/**
 * The one regular expression the redaction filter uses, written as a
 * declarative grammar over absolute positions of the input string.
 *
 * SensitiveDataFilter.java line 10 builds, for each sensitive key KEY,
 *
 *     (?i)("?KEY"?\s*[:=]\s*)(".*?"|[^,}\]]+)      replaced by   $1***
 *
 * The Java literal as it stands in the source has garbled escapes (`\\"`
 * ends the literal early and `\]` is not a Java string escape), so it
 * would not compile; this module models the evident intended expression
 * above.  Group 1 is the key with its optional quotes, separator and the
 * white space around it; group 2 is the value.
 *
 * Character classes follow java.util.regex without UNICODE_CASE and
 * without DOTALL: `\s` is [ \t\n\x0B\f\r], `.` is anything but a line
 * terminator, and `(?i)` folds ASCII letters only.
 */
module Pattern {

  /** `\s` */
  predicate IsSpace(c: char)
  {
    c == ' ' || c == '\t' || c == '\n' || c == '\U{000B}' || c == '\U{000C}' || c == '\r'
  }

  /** The characters `.` refuses when DOTALL is off. */
  predicate IsLineTerminator(c: char)
  {
    c == '\n' || c == '\r' || c == '\U{0085}' || c == '\U{2028}' || c == '\U{2029}'
  }

  /** The characters the negated class `[^,}\]]` refuses. */
  predicate IsDelimiter(c: char)
  {
    c == ',' || c == '}' || c == ']'
  }

  /** `[:=]` */
  predicate IsSeparator(c: char)
  {
    c == ':' || c == '='
  }

  predicate IsAsciiLetter(c: char)
  {
    ('A' <= c <= 'Z') || ('a' <= c <= 'z')
  }

  /** ASCII lower-casing, the folding `(?i)` applies without UNICODE_CASE. */
  function ToLowerAscii(c: char): (l: char)
    ensures IsAsciiLetter(c) <==> ('a' <= l <= 'z')
    ensures !IsAsciiLetter(c) ==> l == c
    ensures 'a' <= c <= 'z' ==> l == c
    ensures 'A' <= c <= 'Z' ==> l as int == c as int + 32
  {
    if 'A' <= c <= 'Z' then (c as int + 32) as char else c
  }

  /** A sensitive key as the source spells it: non-empty lower-case ASCII letters. */
  predicate ValidKey(key: string)
  {
    |key| > 0 && forall t :: 0 <= t < |key| ==> 'a' <= key[t] <= 'z'
  }

  /** `KEY` under `(?i)` matches `s[i .. i + |key|]`. */
  predicate KeyAt(s: string, i: int, key: string)
  {
    0 <= i && i + |key| <= |s| && forall t :: 0 <= t < |key| ==> ToLowerAscii(s[i + t]) == key[t]
  }

  /** `"?` matches `s[i..j]`. */
  predicate OptQuoteAt(s: string, i: int, j: int)
  {
    0 <= i <= j <= |s| && (j == i || (j == i + 1 && s[i] == '"'))
  }

  /** `\s*` matches `s[i..j]`. */
  predicate SpacesAt(s: string, i: int, j: int)
  {
    0 <= i <= j <= |s| && forall t :: i <= t < j ==> IsSpace(s[t])
  }

  /** Group 1, `"?KEY"?\s*[:=]\s*`, matches `s[p..g]`. */
  ghost predicate Group1At(s: string, key: string, p: int, g: int)
  {
    exists i, k, m ::
      OptQuoteAt(s, p, i) && KeyAt(s, i, key) && OptQuoteAt(s, i + |key|, k) &&
      SpacesAt(s, k, m) && m < |s| && IsSeparator(s[m]) && SpacesAt(s, m + 1, g)
  }

  /** The first alternative of group 2, `".*?"`, matches `s[g..e]`. */
  predicate QuotedAt(s: string, g: int, e: int)
  {
    0 <= g && g + 2 <= e <= |s| && s[g] == '"' && s[e - 1] == '"' &&
    forall t :: g < t < e - 1 ==> !IsLineTerminator(s[t])
  }

  /** The second alternative of group 2, `[^,}\]]+`, matches `s[g..e]`. */
  predicate PlainAt(s: string, g: int, e: int)
  {
    0 <= g < e <= |s| && forall t :: g <= t < e ==> !IsDelimiter(s[t])
  }

  /** Group 2 matches `s[g..e]`. */
  predicate ValueAt(s: string, g: int, e: int)
  {
    QuotedAt(s, g, e) || PlainAt(s, g, e)
  }

  /** The whole expression matches `s[p..e]` with group 1 being `s[p..g]`. */
  ghost predicate IsMatch(s: string, key: string, p: int, g: int, e: int)
  {
    0 <= p <= g <= e <= |s| && Group1At(s, key, p, g) && ValueAt(s, g, e)
  }

  /**
   * The match a backtracking matcher reports at `p`: among all ways the
   * expression matches there, the first in backtracking order.  The
   * greedy `\s*` before the value prefers the longest group 1; at that
   * split the lazy quoted alternative is tried first and prefers the
   * shortest quoted run, and only when no quoted run exists does the
   * greedy `[^,}\]]+` take the longest plain run.
   */
  ghost predicate Preferred(s: string, key: string, p: int, g: int, e: int)
  {
    IsMatch(s, key, p, g, e) &&
    forall g', e' :: IsMatch(s, key, p, g', e') ==>
      g' <= g &&
      (g' == g ==>
        if QuotedAt(s, g, e) then (QuotedAt(s, g, e') ==> e <= e')
        else !QuotedAt(s, g, e') && e' <= e)
  }

}
