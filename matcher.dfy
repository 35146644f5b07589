/**
 * A deterministic matcher for the redaction expression at one position,
 * proved to report exactly the match java.util.regex reports there
 * (Pattern.Preferred), and to report nothing exactly when the expression
 * does not match there at all.
 *
 * Of the backtracking points of `("?KEY"?\s*[:=]\s*)(".*?"|[^,}\]]+)`
 * only the `\s*` after the separator ever changes the outcome: the
 * optional quotes and the first `\s*` are followed by a character they
 * cannot share with what follows (a key letter, a separator).  When no
 * value starts after the longest run of white space, the matcher gives
 * back one white-space character, which then forms a one-character plain
 * value.
 */
module Matcher {
  import opened Wrappers
  import opened Pattern

  /** End of the longest run of `\s` starting at `i` (SkipSpacesSpec). */
  function SkipSpaces(s: string, i: nat): (j: nat)
    requires i <= |s|
    ensures i <= j <= |s|
    decreases |s| - i
  {
    if i < |s| && IsSpace(s[i]) then SkipSpaces(s, i + 1) else i
  }

  /** SkipSpaces stops at the first character at or after `i` that is not `\s`. */
  lemma {:induction false} SkipSpacesSpec(s: string, i: nat)
    requires i <= |s|
    ensures SpacesAt(s, i, SkipSpaces(s, i))
    ensures SkipSpaces(s, i) < |s| ==> !IsSpace(s[SkipSpaces(s, i)])
    decreases |s| - i
  {
    if i < |s| && IsSpace(s[i]) {
      SkipSpacesSpec(s, i + 1);
    }
  }

  /** End of the longest run of `[^,}\]]` starting at `i` (PlainEndSpec). */
  function PlainEnd(s: string, i: nat): (j: nat)
    requires i <= |s|
    ensures i <= j <= |s|
    decreases |s| - i
  {
    if i < |s| && !IsDelimiter(s[i]) then PlainEnd(s, i + 1) else i
  }

  /** PlainEnd stops at the first delimiter at or after `i`, or at the end. */
  lemma {:induction false} PlainEndSpec(s: string, i: nat)
    requires i <= |s|
    ensures forall t :: i <= t < PlainEnd(s, i) ==> !IsDelimiter(s[t])
    ensures PlainEnd(s, i) < |s| ==> IsDelimiter(s[PlainEnd(s, i)])
    decreases |s| - i
  {
    if i < |s| && !IsDelimiter(s[i]) {
      PlainEndSpec(s, i + 1);
    }
  }

  /** No line terminator in `s[i..j]`. */
  predicate NoLineTerminator(s: string, i: int, j: int)
    requires 0 <= i <= j <= |s|
  {
    forall t :: i <= t < j ==> !IsLineTerminator(s[t])
  }

  /**
   * The closing quote `.*?"` finds after an opening quote: the first `"`
   * at or after `i`, provided no line terminator comes before it
   * (ClosingQuoteSpec).
   */
  function ClosingQuote(s: string, i: nat): (r: Option<nat>)
    requires i <= |s|
    ensures r.Some? ==> i <= r.value < |s| && s[r.value] == '"'
    decreases |s| - i
  {
    if i == |s| then None
    else if s[i] == '"' then Some(i)
    else if IsLineTerminator(s[i]) then None
    else ClosingQuote(s, i + 1)
  }

  lemma {:induction false} ClosingQuoteSpec(s: string, i: nat)
    requires i <= |s|
    ensures ClosingQuote(s, i).Some? ==>
      NoLineTerminator(s, i, ClosingQuote(s, i).value) &&
      forall t :: i <= t < ClosingQuote(s, i).value ==> s[t] != '"'
    ensures ClosingQuote(s, i).None? ==>
      forall j :: i <= j < |s| && s[j] == '"' ==> !NoLineTerminator(s, i, j)
    decreases |s| - i
  {
    if i < |s| && s[i] != '"' && !IsLineTerminator(s[i]) {
      ClosingQuoteSpec(s, i + 1);
    }
  }

  /**
   * End of the value group 2 matches at `d`, trying the lazy quoted
   * alternative first and the greedy plain one second (ValueEndSpec).
   */
  function ValueEnd(s: string, d: nat): (r: Option<nat>)
    requires d <= |s|
    ensures r.Some? ==> d < r.value <= |s|
    ensures r.None? <==> d == |s| || IsDelimiter(s[d])
  {
    if d < |s| && s[d] == '"' && ClosingQuote(s, d + 1).Some? then Some(ClosingQuote(s, d + 1).value + 1)
    else if d < |s| && !IsDelimiter(s[d]) then Some(PlainEnd(s, d))
    else None
  }

  /**
   * ValueEnd finds a value exactly when group 2 matches at `d`, and it is
   * the one the alternation prefers: the shortest quoted run if there is
   * one, otherwise the longest plain run.
   */
  lemma ValueEndSpec(s: string, d: nat)
    requires d <= |s|
    ensures ValueEnd(s, d).Some? ==> ValueAt(s, d, ValueEnd(s, d).value)
    ensures ValueEnd(s, d).None? <==> forall e :: !ValueAt(s, d, e)
    ensures ValueEnd(s, d).Some? && QuotedAt(s, d, ValueEnd(s, d).value) ==>
      forall e :: QuotedAt(s, d, e) ==> ValueEnd(s, d).value <= e
    ensures ValueEnd(s, d).Some? && !QuotedAt(s, d, ValueEnd(s, d).value) ==>
      forall e :: ValueAt(s, d, e) ==> !QuotedAt(s, d, e) && e <= ValueEnd(s, d).value
  {
    if d < |s| && s[d] == '"' && ClosingQuote(s, d + 1).Some? {
      ClosingQuoteSpec(s, d + 1);
      var q := ClosingQuote(s, d + 1).value;
      assert QuotedAt(s, d, q + 1);
      assert ValueAt(s, d, q + 1);
      assert forall e :: QuotedAt(s, d, e) ==> q + 1 <= e;
    } else if d < |s| && !IsDelimiter(s[d]) {
      ClosingQuoteSpec(s, d + 1);
      PlainEndSpec(s, d);
      var e0 := PlainEnd(s, d);
      assert forall e :: ValueAt(s, d, e) ==> !QuotedAt(s, d, e) && e <= e0;
    }
  }

  /**
   * Position of the separator when group 1 can start at `p`: an optional
   * quote, the key, an optional quote and white space, then `:` or `=`.
   */
  function SeparatorAt(s: string, p: nat, key: string): (r: Option<nat>)
    requires p <= |s|
    ensures r.Some? ==> p <= r.value < |s| && IsSeparator(s[r.value])
  {
    var k := if p < |s| && s[p] == '"' then p + 1 else p;
    if !KeyAt(s, k, key) then None else SeparatorAfterKey(s, k + |key|)
  }

  /** Position of the separator after a key ending at `a`: an optional quote and white space first. */
  function SeparatorAfterKey(s: string, a: nat): (r: Option<nat>)
    requires a <= |s|
    ensures r.Some? ==> a <= r.value < |s| && IsSeparator(s[r.value])
  {
    var b := if a < |s| && s[a] == '"' then a + 1 else a;
    var c := SkipSpaces(s, b);
    if c < |s| && IsSeparator(s[c]) then Some(c) else None
  }

  /** The groups of one match: group 1 is `s[p..prefixEnd]`, group 2 `s[prefixEnd..valueEnd]`. */
  datatype Span = Span(prefixEnd: nat, valueEnd: nat)

  /**
   * The groups of a match whose separator is at `c`: the white space after
   * it, given back one character when no value follows the longest run.
   */
  function SpanAfterSeparator(s: string, c: nat): (r: Option<Span>)
    requires c < |s|
    ensures r.Some? ==> c < r.value.prefixEnd < r.value.valueEnd <= |s|
  {
    var d := SkipSpaces(s, c + 1);
    match ValueEnd(s, d)
    case Some(e) => Some(Span(d, e))
    case None => if c + 1 < d then Some(Span(d - 1, d)) else None
  }

  /** The match the expression reports at `p`, if any. */
  function MatchAt(s: string, p: nat, key: string): (r: Option<Span>)
    requires p <= |s|
    ensures r.Some? ==> p < r.value.prefixEnd < r.value.valueEnd <= |s|
  {
    match SeparatorAt(s, p, key)
    case None => None
    case Some(c) => SpanAfterSeparator(s, c)
  }

  lemma SkipSpacesIsFirstNonSpace(s: string, i: nat, j: nat)
    requires SpacesAt(s, i, j) && j < |s| && !IsSpace(s[j])
    ensures SkipSpaces(s, i) == j
  {
    SkipSpacesSpec(s, i);
  }

  lemma SpacesBelowSkip(s: string, i: nat, j: nat)
    requires SpacesAt(s, i, j)
    ensures j <= SkipSpaces(s, i)
  {
    SkipSpacesSpec(s, i);
  }

  /** The closing quote is the first `"` at or after `i` when no line terminator precedes it. */
  lemma {:induction false} ClosingQuoteIs(s: string, i: nat, j: nat)
    requires i <= j < |s| && s[j] == '"'
    requires forall t :: i <= t < j ==> s[t] != '"' && !IsLineTerminator(s[t])
    ensures ClosingQuote(s, i) == Some(j)
    decreases j - i
  {
    if i < j {
      ClosingQuoteIs(s, i + 1, j);
    }
  }

  /** The plain run from `i` ends at the first delimiter, or at the end of the input. */
  lemma {:induction false} PlainEndIs(s: string, i: nat, j: nat)
    requires i <= j <= |s|
    requires forall t :: i <= t < j ==> !IsDelimiter(s[t])
    requires j == |s| || IsDelimiter(s[j])
    ensures PlainEnd(s, i) == j
    decreases j - i
  {
    if i < j {
      PlainEndIs(s, i + 1, j);
    }
  }

  /**
   * The match of an unquoted key written directly against its separator
   * and followed by an unquoted value that runs up to `e`.
   */
  lemma PlainMatchIs(s: string, p: nat, key: string, e: nat)
    requires p < |s| && s[p] != '"' && KeyAt(s, p, key)
    requires p + |key| + 1 < e <= |s|
    requires IsSeparator(s[p + |key|]) && !IsSpace(s[p + |key| + 1]) && s[p + |key| + 1] != '"'
    requires forall t :: p + |key| + 1 <= t < e ==> !IsDelimiter(s[t])
    requires e == |s| || IsDelimiter(s[e])
    ensures MatchAt(s, p, key) == Some(Span(p + |key| + 1, e))
  {
    var c := p + |key|;
    assert SeparatorAt(s, p, key) == Some(c);
    PlainEndIs(s, c + 1, e);
  }

  /** The upper-case partner of an ASCII lower-case letter. */
  function ToUpperAscii(c: char): (u: char)
    requires 'a' <= c <= 'z'
    ensures 'A' <= u <= 'Z' && ToLowerAscii(u) == c
  {
    (c as int - 32) as char
  }

  /**
   * Nothing matches at or after `from` when the key's first letter occurs
   * there in neither case.
   */
  lemma NoMatchWithoutFirstLetter(s: string, key: string, from: nat)
    requires ValidKey(key) && from <= |s|
    requires key[0] !in s[from..] && ToUpperAscii(key[0]) !in s[from..]
    ensures forall q: nat :: from <= q <= |s| ==> MatchAt(s, q, key).None?
  {
    forall q: nat | from <= q <= |s| ensures MatchAt(s, q, key).None? {
      var k := if q < |s| && s[q] == '"' then q + 1 else q;
      assert !KeyAt(s, k, key);
    }
  }

  /**
   * Nothing matches at a `q` in `[from, to)` when the key's first letter
   * occurs in `s[from..to + 1]` in neither case (the key starts at `q`, or
   * at `q + 1` after a quote).
   */
  lemma NoMatchBetween(s: string, key: string, from: nat, to: nat)
    requires ValidKey(key) && from <= to < |s|
    requires key[0] !in s[from..to + 1] && ToUpperAscii(key[0]) !in s[from..to + 1]
    ensures forall q: nat :: from <= q < to ==> MatchAt(s, q, key).None?
  {
    forall q: nat | from <= q < to ensures MatchAt(s, q, key).None? {
      var k := if s[q] == '"' then q + 1 else q;
      assert s[k] == s[from..to + 1][k - from];
      assert !KeyAt(s, k, key);
    }
  }

  /** Nothing matches at an unquoted `q` where the key is misspelt at offset `t`. */
  lemma NoMatchWhereKeyDiffers(s: string, key: string, q: nat, t: nat)
    requires q < |s| && s[q] != '"'
    requires t < |key| && q + t < |s| && ToLowerAscii(s[q + t]) != key[t]
    ensures MatchAt(s, q, key).None?
  {
  }

  /** A group 1 match pins down where the key starts and where the separator is. */
  lemma Group1Determined(s: string, key: string, p: nat, g: int, i: int, k: int, m: int)
    requires ValidKey(key) && p <= |s|
    requires OptQuoteAt(s, p, i) && KeyAt(s, i, key) && OptQuoteAt(s, i + |key|, k)
    requires SpacesAt(s, k, m) && m < |s| && IsSeparator(s[m])
    ensures SeparatorAt(s, p, key) == Some(m)
  {
    var k0 := if p < |s| && s[p] == '"' then p + 1 else p;
    if i != k0 {
      assert ToLowerAscii(s[p + 0]) == key[0];
    }
    var a := i + |key|;
    var b := if a < |s| && s[a] == '"' then a + 1 else a;
    SkipSpacesIsFirstNonSpace(s, b, m);
  }

  lemma Group1Sound(s: string, key: string, p: nat, g: int)
    requires ValidKey(key) && p <= |s| && Group1At(s, key, p, g)
    ensures SeparatorAt(s, p, key).Some?
    ensures SeparatorAt(s, p, key).value < g <= SkipSpaces(s, SeparatorAt(s, p, key).value + 1)
  {
    var i, k, m :| OptQuoteAt(s, p, i) && KeyAt(s, i, key) && OptQuoteAt(s, i + |key|, k) &&
      SpacesAt(s, k, m) && m < |s| && IsSeparator(s[m]) && SpacesAt(s, m + 1, g);
    Group1Determined(s, key, p, g, i, k, m);
    SpacesBelowSkip(s, m + 1, g);
  }

  lemma Group1Complete(s: string, key: string, p: nat, g: int)
    requires ValidKey(key) && p <= |s| && SeparatorAt(s, p, key).Some?
    requires SeparatorAt(s, p, key).value < g <= SkipSpaces(s, SeparatorAt(s, p, key).value + 1)
    ensures Group1At(s, key, p, g)
  {
    var c := SeparatorAt(s, p, key).value;
    var k0 := if p < |s| && s[p] == '"' then p + 1 else p;
    var a := k0 + |key|;
    var b := if a < |s| && s[a] == '"' then a + 1 else a;
    SkipSpacesSpec(s, b);
    SkipSpacesSpec(s, c + 1);
    assert OptQuoteAt(s, p, k0) && KeyAt(s, k0, key) && OptQuoteAt(s, a, b) && SpacesAt(s, b, c);
    assert SpacesAt(s, c + 1, g);
  }

  /**
   * Group 1 matches `s[p..g]` exactly when SeparatorAt finds a separator
   * at some `c` and `s[c + 1..g]` is white space.
   */
  lemma Group1Exactly(s: string, key: string, p: nat, g: int)
    requires ValidKey(key) && p <= |s|
    ensures Group1At(s, key, p, g) <==>
      SeparatorAt(s, p, key).Some? && SeparatorAt(s, p, key).value < g <= SkipSpaces(s, SeparatorAt(s, p, key).value + 1)
  {
    if Group1At(s, key, p, g) {
      Group1Sound(s, key, p, g);
    } else if SeparatorAt(s, p, key).Some? && SeparatorAt(s, p, key).value < g <= SkipSpaces(s, SeparatorAt(s, p, key).value + 1) {
      Group1Complete(s, key, p, g);
    }
  }

  /** What matches at `p`, in terms of the separator and the value ends. */
  lemma MatchesAtSeparator(s: string, key: string, p: nat, g: int, e: int)
    requires ValidKey(key) && p <= |s|
    ensures IsMatch(s, key, p, g, e) <==>
      SeparatorAt(s, p, key).Some? && SeparatorAt(s, p, key).value < g <= SkipSpaces(s, SeparatorAt(s, p, key).value + 1) &&
      g <= e && ValueAt(s, g, e)
  {
    Group1Exactly(s, key, p, g);
  }

  /**
   * When no value starts after the longest white-space run ending at `d`,
   * the only value at `d - 1` is the one white-space character there.
   */
  lemma GivenBackSpaceOnly(s: string, d: nat, e: int)
    requires 0 < d <= |s| && IsSpace(s[d - 1]) && ValueEnd(s, d).None?
    requires ValueAt(s, d - 1, e)
    ensures !QuotedAt(s, d - 1, e) && e == d
  {
  }

  /** A value found right after the longest white-space run is the preferred match. */
  lemma PreferredFoundValue(s: string, key: string, p: nat, c: nat, d: nat, e: nat)
    requires ValidKey(key) && p <= |s| && SeparatorAt(s, p, key) == Some(c)
    requires d == SkipSpaces(s, c + 1) && ValueEnd(s, d) == Some(e)
    ensures Preferred(s, key, p, d, e)
  {
    ValueEndSpec(s, d);
    MatchesAtSeparator(s, key, p, d, e);
    forall g', e' | IsMatch(s, key, p, g', e')
      ensures g' <= d &&
        (g' == d ==>
          if QuotedAt(s, d, e) then (QuotedAt(s, d, e') ==> e <= e')
          else !QuotedAt(s, d, e') && e' <= e)
    {
      MatchesAtSeparator(s, key, p, g', e');
    }
  }

  /** No value starts at the end `d` of a white-space run when ValueEnd finds none there. */
  lemma NoValueAtUnvaluedEnd(s: string, d: nat, g: int, e: int)
    requires d <= |s| && ValueEnd(s, d).None? && g <= d && ValueAt(s, g, e)
    ensures g < d
  {
    ValueEndSpec(s, d);
  }

  /** Without a value after the white space, every match gives back the last white-space character. */
  lemma GivenBackIsOnlyMatch(s: string, key: string, p: nat, c: nat, d: nat, g: int, e: int)
    requires ValidKey(key) && p <= |s| && SeparatorAt(s, p, key) == Some(c)
    requires d == SkipSpaces(s, c + 1) && ValueEnd(s, d).None? && c + 1 < d
    requires IsSpace(s[d - 1]) && IsMatch(s, key, p, g, e)
    ensures g <= d - 1 && (g == d - 1 ==> !QuotedAt(s, d - 1, e) && e <= d)
  {
    MatchesAtSeparator(s, key, p, g, e);
    NoValueAtUnvaluedEnd(s, d, g, e);
    if g == d - 1 {
      GivenBackSpaceOnly(s, d, e);
    }
  }

  /** Without a value after the white space, the last white-space character is the preferred value. */
  lemma PreferredGivenBack(s: string, key: string, p: nat, c: nat, d: nat)
    requires ValidKey(key) && p <= |s| && SeparatorAt(s, p, key) == Some(c)
    requires d == SkipSpaces(s, c + 1) && ValueEnd(s, d).None? && c + 1 < d
    ensures Preferred(s, key, p, d - 1, d)
  {
    assert IsSpace(s[d - 1]) by { SkipSpacesSpec(s, c + 1); }
    assert PlainAt(s, d - 1, d);
    MatchesAtSeparator(s, key, p, d - 1, d);
    forall g', e' | IsMatch(s, key, p, g', e')
      ensures g' <= d - 1 && (g' == d - 1 ==> !QuotedAt(s, d - 1, e') && e' <= d)
    {
      GivenBackIsOnlyMatch(s, key, p, c, d, g', e');
    }
  }

  /** Whatever MatchAt reports is the match a backtracking matcher reports. */
  lemma MatchAtPreferred(s: string, key: string, p: nat)
    requires ValidKey(key) && p <= |s|
    requires MatchAt(s, p, key).Some?
    ensures Preferred(s, key, p, MatchAt(s, p, key).value.prefixEnd, MatchAt(s, p, key).value.valueEnd)
  {
    var c := SeparatorAt(s, p, key).value;
    var d := SkipSpaces(s, c + 1);
    if ValueEnd(s, d).Some? {
      PreferredFoundValue(s, key, p, c, d, ValueEnd(s, d).value);
    } else {
      PreferredGivenBack(s, key, p, c, d);
    }
  }

  /** Without a separator there is no match. */
  lemma NoMatchWithoutSeparator(s: string, key: string, p: nat)
    requires ValidKey(key) && p <= |s| && SeparatorAt(s, p, key).None?
    ensures forall g, e :: !IsMatch(s, key, p, g, e)
  {
    forall g, e ensures !IsMatch(s, key, p, g, e) {
      MatchesAtSeparator(s, key, p, g, e);
    }
  }

  /** Without white space or a value after the separator there is no match. */
  lemma NoMatchWithoutValue(s: string, key: string, p: nat, c: nat)
    requires ValidKey(key) && p <= |s| && SeparatorAt(s, p, key) == Some(c)
    requires SkipSpaces(s, c + 1) == c + 1 && ValueEnd(s, c + 1).None?
    ensures forall g, e :: !IsMatch(s, key, p, g, e)
  {
    forall g, e ensures !IsMatch(s, key, p, g, e) {
      MatchesAtSeparator(s, key, p, g, e);
      if IsMatch(s, key, p, g, e) {
        NoValueAtUnvaluedEnd(s, c + 1, g, e);
      }
    }
  }

  /** MatchAt reports nothing exactly when the expression does not match at `p`. */
  lemma MatchAtNoneExactly(s: string, key: string, p: nat)
    requires ValidKey(key) && p <= |s|
    ensures MatchAt(s, p, key).None? <==> forall g, e :: !IsMatch(s, key, p, g, e)
  {
    if MatchAt(s, p, key).Some? {
      MatchAtPreferred(s, key, p);
    } else if SeparatorAt(s, p, key).None? {
      NoMatchWithoutSeparator(s, key, p);
    } else {
      NoMatchWithoutValue(s, key, p, SeparatorAt(s, p, key).value);
    }
  }

  /**
   * MatchAt is exactly the matcher's semantics at one position: it reports
   * `Span(g, e)` iff that is the preferred match at `p`, and nothing iff
   * the expression does not match at `p`.
   */
  lemma MatchAtSpec(s: string, key: string, p: nat)
    requires ValidKey(key) && p <= |s|
    ensures MatchAt(s, p, key).None? <==> forall g, e :: !IsMatch(s, key, p, g, e)
    ensures forall g: nat, e: nat :: MatchAt(s, p, key) == Some(Span(g, e)) <==> Preferred(s, key, p, g, e)
  {
    MatchAtNoneExactly(s, key, p);
    forall g: nat, e: nat ensures MatchAt(s, p, key) == Some(Span(g, e)) <==> Preferred(s, key, p, g, e) {
      if Preferred(s, key, p, g, e) {
        assert MatchAt(s, p, key).Some?;
        MatchAtPreferred(s, key, p);
        var g2, e2 := MatchAt(s, p, key).value.prefixEnd, MatchAt(s, p, key).value.valueEnd;
        assert IsMatch(s, key, p, g2, e2);
        assert g2 <= g && g <= g2;
        if QuotedAt(s, g, e) {
          assert QuotedAt(s, g2, e2);
        }
      } else if MatchAt(s, p, key) == Some(Span(g, e)) {
        MatchAtPreferred(s, key, p);
      }
    }
  }

}
