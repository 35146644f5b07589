/**
 * SensitiveDataFilter.filterSensitiveData: for each sensitive key in turn,
 * a `replaceAll` of the redaction expression by `$1***`, each pass working
 * on the previous pass's output.
 */
module SensitiveDataFilter {
  import opened Wrappers
  import opened Pattern
  import opened Matcher

  /** The replacement of group 2. */
  const Mask: string := "***"

  /** SENSITIVE_KEYS, in the order the passes run. */
  const SensitiveKeys: seq<string> := ["password", "secret", "token"]

  /** A match found by the scan: it starts at `start` and has groups `span`. */
  datatype Found = Found(start: nat, span: Span)

  /**
   * Matcher.find from `from`: the leftmost position at or after `from`
   * where the expression matches, with the match reported there.
   */
  function NextMatch(s: string, key: string, from: nat): (r: Option<Found>)
    requires from <= |s|
    ensures r.Some? ==> from <= r.value.start <= |s| && MatchAt(s, r.value.start, key) == Some(r.value.span)
    ensures r.Some? ==> forall q: nat :: from <= q < r.value.start ==> MatchAt(s, q, key).None?
    ensures r.None? ==> forall q: nat :: from <= q <= |s| ==> MatchAt(s, q, key).None?
    decreases |s| - from
  {
    match MatchAt(s, from, key)
    case Some(m) => Some(Found(from, m))
    case None => if from == |s| then None else NextMatch(s, key, from + 1)
  }

  /**
   * `replaceAll` on `s[from..]`, as Matcher's find / appendReplacement /
   * appendTail loop: the text before the leftmost match is copied, the
   * match keeps its group 1 and has its value replaced by the mask, and
   * the scan resumes right after the value; after the last match the rest
   * is copied.
   */
  function Redact(s: string, key: string, from: nat): (r: string)
    requires from <= |s|
    ensures NextMatch(s, key, from).None? ==> r == s[from..]
    ensures NextMatch(s, key, from).Some? ==>
      s[from..NextMatch(s, key, from).value.span.prefixEnd] + Mask <= r
    decreases |s| - from
  {
    match NextMatch(s, key, from)
    case None => s[from..]
    case Some(f) => s[from..f.span.prefixEnd] + Mask + Redact(s, key, f.span.valueEnd)
  }

  /** `s.replaceAll(<expression for key>, "$1***")` */
  function RedactAll(s: string, key: string): string
  {
    Redact(s, key, 0)
  }

  /** The passes for `keys`, in order, each on the previous one's output. */
  function ApplyKeys(s: string, keys: seq<string>): string
    decreases |keys|
  {
    if keys == [] then s
    else RedactAll(ApplyKeys(s, keys[..|keys| - 1]), keys[|keys| - 1])
  }

  /** filterSensitiveData as a value, for callers that are functions. */
  function Filter(s: string): string
  {
    ApplyKeys(s, SensitiveKeys)
  }

  /** filterSensitiveData: one pass per sensitive key, in the fixed order. */
  method FilterSensitiveData(input: string) returns (filtered: string)
    ensures filtered == RedactAll(RedactAll(RedactAll(input, "password"), "secret"), "token")
    ensures filtered == Filter(input)
  {
    filtered := input;
    for i := 0 to |SensitiveKeys|
      invariant filtered == ApplyKeys(input, SensitiveKeys[..i])
    {
      assert SensitiveKeys[..i + 1][..i] == SensitiveKeys[..i];
      filtered := RedactAll(filtered, SensitiveKeys[i]);
    }
    assert SensitiveKeys[..3] == SensitiveKeys;
    FilterIsThreePasses(input);
  }

  /** The three passes run in the order password, secret, token. */
  lemma FilterIsThreePasses(s: string)
    ensures Filter(s) == RedactAll(RedactAll(RedactAll(s, "password"), "secret"), "token")
  {
    var k := SensitiveKeys;
    assert k[..2][..1] == k[..1] && k[..1][..0] == [];
    assert k[..3][..2] == k[..2] && k[..3] == k;
    assert ApplyKeys(s, k[..1]) == RedactAll(s, "password");
    assert ApplyKeys(s, k[..2]) == RedactAll(RedactAll(s, "password"), "secret");
  }

  // ---------------------------------------------------------------------
  // replaceAll in terms of the matcher

  /** Without a match from `from` on, the rest of the input is copied unchanged. */
  lemma RedactWithoutMatch(s: string, key: string, from: nat)
    requires from <= |s|
    requires forall q: nat :: from <= q <= |s| ==> MatchAt(s, q, key).None?
    ensures Redact(s, key, from) == s[from..]
  {
  }

  /**
   * The scan stops at the leftmost match: text before it is copied, its
   * group 1 is kept, its value becomes the mask and the scan resumes after
   * the value.
   */
  lemma RedactAtLeftmostMatch(s: string, key: string, from: nat, p: nat, g: nat, e: nat)
    requires from <= p <= |s|
    requires forall q: nat :: from <= q < p ==> MatchAt(s, q, key).None?
    requires MatchAt(s, p, key) == Some(Span(g, e))
    ensures Redact(s, key, from) == s[from..g] + Mask + Redact(s, key, e)
  {
    NextMatchIsLeftmost(s, key, from, p);
  }

  /** find from `from` reports the leftmost position where a match starts. */
  lemma NextMatchIsLeftmost(s: string, key: string, from: nat, p: nat)
    requires from <= p <= |s|
    requires forall q: nat :: from <= q < p ==> MatchAt(s, q, key).None?
    requires MatchAt(s, p, key).Some?
    ensures NextMatch(s, key, from) == Some(Found(p, MatchAt(s, p, key).value))
  {
  }

  /** The scan from `from` when its only match has groups `s[p..g]` and `s[g..e]`. */
  lemma RedactOneMatch(s: string, key: string, from: nat, p: nat, g: nat, e: nat)
    requires from <= p <= |s|
    requires forall q: nat :: from <= q < p ==> MatchAt(s, q, key).None?
    requires MatchAt(s, p, key) == Some(Span(g, e))
    requires forall q: nat :: e <= q <= |s| ==> MatchAt(s, q, key).None?
    ensures Redact(s, key, from) == s[from..g] + Mask + s[e..]
  {
    RedactAtLeftmostMatch(s, key, from, p, g, e);
    RedactWithoutMatch(s, key, e);
  }

  /**
   * A pass copies `s[from..]` when nothing matches before `p` and the
   * key's first letter, in either case, does not occur from `p` on.
   */
  lemma RedactWithoutFirstLetter(s: string, key: string, from: nat, p: nat)
    requires ValidKey(key) && from <= p <= |s|
    requires forall q: nat :: from <= q < p ==> MatchAt(s, q, key).None?
    requires key[0] !in s[p..] && ToUpperAscii(key[0]) !in s[p..]
    ensures Redact(s, key, from) == s[from..]
  {
    NoMatchWithoutFirstLetter(s, key, p);
    RedactWithoutMatch(s, key, from);
  }

  /**
   * A pass whose match at `p` is the only one, because nothing matches
   * before it and the key's first letter does not occur after its value.
   */
  lemma RedactOnlyMatch(s: string, key: string, from: nat, p: nat, g: nat, e: nat)
    requires ValidKey(key) && from <= p <= |s|
    requires forall q: nat :: from <= q < p ==> MatchAt(s, q, key).None?
    requires MatchAt(s, p, key) == Some(Span(g, e))
    requires key[0] !in s[e..] && ToUpperAscii(key[0]) !in s[e..]
    ensures Redact(s, key, from) == s[from..g] + Mask + s[e..]
  {
    NoMatchWithoutFirstLetter(s, key, e);
    RedactOneMatch(s, key, from, p, g, e);
  }

  // ---------------------------------------------------------------------
  // replaceAll in terms of the expression itself

  /** Where the expression matches nowhere in `s[from..]`, nothing is rewritten. */
  lemma ReplaceAllWithoutMatch(s: string, key: string, from: nat)
    requires ValidKey(key) && from <= |s|
    requires forall q, g, e :: from <= q ==> !IsMatch(s, key, q, g, e)
    ensures Redact(s, key, from) == s[from..]
  {
    forall q: nat | from <= q <= |s| ensures MatchAt(s, q, key).None? {
      MatchAtSpec(s, key, q);
    }
    RedactWithoutMatch(s, key, from);
  }

  /**
   * Java's find/appendReplacement loop: when the leftmost position at or
   * after `from` where the expression matches is `p`, and the match a
   * backtracking matcher reports there has group 1 `s[p..g]` and group 2
   * `s[g..e]`, the output is `s[from..g]`, the mask, and the rewrite of
   * `s[e..]`.
   */
  lemma ReplaceAllLeftmost(s: string, key: string, from: nat, p: nat, g: nat, e: nat)
    requires ValidKey(key) && from <= p
    requires forall q, g', e' :: from <= q < p ==> !IsMatch(s, key, q, g', e')
    requires Preferred(s, key, p, g, e)
    ensures p < g < e <= |s|
    ensures Redact(s, key, from) == s[from..g] + Mask + Redact(s, key, e)
  {
    forall q: nat | from <= q < p ensures MatchAt(s, q, key).None? {
      MatchAtSpec(s, key, q);
    }
    MatchAtSpec(s, key, p);
    RedactAtLeftmostMatch(s, key, from, p, g, e);
  }

  // ---------------------------------------------------------------------
  // Input without a key is returned unchanged

  /**
   * `key` occurs (under ASCII case folding) at `k`, followed by an
   * optional quote, white space and `:` or `=`.
   */
  ghost predicate KeyThenSeparator(s: string, k: int, key: string)
  {
    KeyAt(s, k, key) &&
    exists b, m :: OptQuoteAt(s, k + |key|, b) && SpacesAt(s, b, m) && m < |s| && IsSeparator(s[m])
  }

  lemma MatchNeedsKeyThenSeparator(s: string, key: string, p: nat)
    requires p <= |s| && MatchAt(s, p, key).Some?
    ensures exists k :: KeyThenSeparator(s, k, key)
  {
    var k := if p < |s| && s[p] == '"' then p + 1 else p;
    var a := k + |key|;
    var b := if a < |s| && s[a] == '"' then a + 1 else a;
    var c := SkipSpaces(s, b);
    SkipSpacesSpec(s, b);
    assert OptQuoteAt(s, a, b) && SpacesAt(s, b, c);
    assert KeyThenSeparator(s, k, key);
  }

  /** A pass for a key that is never followed by a separator changes nothing. */
  lemma RedactAllWithoutKey(s: string, key: string)
    requires forall k :: !KeyThenSeparator(s, k, key)
    ensures RedactAll(s, key) == s
  {
    forall q: nat | q <= |s| ensures MatchAt(s, q, key).None? {
      if MatchAt(s, q, key).Some? {
        MatchNeedsKeyThenSeparator(s, key, q);
      }
    }
    RedactWithoutMatch(s, key, 0);
  }

  /**
   * An input in which no sensitive key is followed by an optional quote,
   * white space and `:` or `=` comes back unchanged.
   */
  lemma FilterWithoutKeys(s: string)
    requires forall key, k :: key in SensitiveKeys ==> !KeyThenSeparator(s, k, key)
    ensures Filter(s) == s
  {
    RedactAllWithoutKey(s, "password");
    RedactAllWithoutKey(s, "secret");
    RedactAllWithoutKey(s, "token");
    FilterIsThreePasses(s);
  }

  /** An input in which no key's first letter occurs, in either case, comes back unchanged. */
  lemma FilterWithoutFirstLetters(s: string)
    requires 'p' !in s && 'P' !in s && 's' !in s && 'S' !in s && 't' !in s && 'T' !in s
    ensures Filter(s) == s
  {
    assert s[0..] == s;
    RedactWithoutFirstLetter(s, "password", 0, 0);
    RedactWithoutFirstLetter(s, "secret", 0, 0);
    RedactWithoutFirstLetter(s, "token", 0, 0);
    FilterIsThreePasses(s);
  }

  // ---------------------------------------------------------------------
  // Key matching ignores ASCII case

  /** `s` and `t` differ at most in the case of ASCII letters. */
  predicate SameUpToCase(s: string, t: string)
  {
    |s| == |t| && forall i :: 0 <= i < |s| ==> ToLowerAscii(s[i]) == ToLowerAscii(t[i])
  }

  /** Characters that fold alike and are not letters are the same character. */
  lemma FoldsAlikeNonLetter(c: char, d: char)
    requires ToLowerAscii(c) == ToLowerAscii(d)
    ensures !IsAsciiLetter(c) ==> c == d
    ensures !IsAsciiLetter(d) ==> c == d
  {
  }

  lemma {:induction false} SkipSpacesUpToCase(s: string, t: string, i: nat)
    requires SameUpToCase(s, t) && i <= |s|
    ensures SkipSpaces(s, i) == SkipSpaces(t, i)
    decreases |s| - i
  {
    if i < |s| {
      FoldsAlikeNonLetter(s[i], t[i]);
      SkipSpacesUpToCase(s, t, i + 1);
    }
  }

  lemma {:induction false} PlainEndUpToCase(s: string, t: string, i: nat)
    requires SameUpToCase(s, t) && i <= |s|
    ensures PlainEnd(s, i) == PlainEnd(t, i)
    decreases |s| - i
  {
    if i < |s| {
      FoldsAlikeNonLetter(s[i], t[i]);
      PlainEndUpToCase(s, t, i + 1);
    }
  }

  lemma {:induction false} ClosingQuoteUpToCase(s: string, t: string, i: nat)
    requires SameUpToCase(s, t) && i <= |s|
    ensures ClosingQuote(s, i) == ClosingQuote(t, i)
    decreases |s| - i
  {
    if i < |s| {
      FoldsAlikeNonLetter(s[i], t[i]);
      ClosingQuoteUpToCase(s, t, i + 1);
    }
  }

  lemma KeyAtUpToCase(s: string, t: string, k: nat, key: string)
    requires SameUpToCase(s, t)
    ensures KeyAt(s, k, key) == KeyAt(t, k, key)
  {
  }

  /** A quote at `i` in one input is a quote at `i` in the other. */
  lemma QuoteUpToCase(s: string, t: string, i: nat)
    requires SameUpToCase(s, t)
    ensures (i < |s| && s[i] == '"') == (i < |t| && t[i] == '"')
  {
    if i < |s| {
      FoldsAlikeNonLetter(s[i], t[i]);
    }
  }

  lemma SeparatorAfterKeyUpToCase(s: string, t: string, a: nat)
    requires SameUpToCase(s, t) && a <= |s|
    ensures SeparatorAfterKey(s, a) == SeparatorAfterKey(t, a)
  {
    QuoteUpToCase(s, t, a);
    var b := if a < |s| && s[a] == '"' then a + 1 else a;
    SkipSpacesUpToCase(s, t, b);
    var c := SkipSpaces(s, b);
    if c < |s| {
      FoldsAlikeNonLetter(s[c], t[c]);
    }
  }

  lemma SeparatorAtUpToCase(s: string, t: string, p: nat, key: string)
    requires SameUpToCase(s, t) && p <= |s|
    ensures SeparatorAt(s, p, key) == SeparatorAt(t, p, key)
  {
    QuoteUpToCase(s, t, p);
    var k := if p < |s| && s[p] == '"' then p + 1 else p;
    KeyAtUpToCase(s, t, k, key);
    if KeyAt(s, k, key) {
      SeparatorAfterKeyUpToCase(s, t, k + |key|);
    }
  }

  lemma ValueEndUpToCase(s: string, t: string, d: nat)
    requires SameUpToCase(s, t) && d <= |s|
    ensures ValueEnd(s, d) == ValueEnd(t, d)
  {
    if d < |s| {
      FoldsAlikeNonLetter(s[d], t[d]);
      ClosingQuoteUpToCase(s, t, d + 1);
      PlainEndUpToCase(s, t, d);
    }
  }

  lemma SpanAfterSeparatorUpToCase(s: string, t: string, c: nat)
    requires SameUpToCase(s, t) && c < |s|
    ensures SpanAfterSeparator(s, c) == SpanAfterSeparator(t, c)
  {
    SkipSpacesUpToCase(s, t, c + 1);
    ValueEndUpToCase(s, t, SkipSpaces(s, c + 1));
  }

  lemma MatchAtUpToCase(s: string, t: string, p: nat, key: string)
    requires SameUpToCase(s, t) && p <= |s|
    ensures MatchAt(s, p, key) == MatchAt(t, p, key)
  {
    SeparatorAtUpToCase(s, t, p, key);
    if SeparatorAt(s, p, key).Some? {
      SpanAfterSeparatorUpToCase(s, t, SeparatorAt(s, p, key).value);
    }
  }

  lemma SameUpToCaseConcat(a: string, b: string, c: string, d: string)
    requires SameUpToCase(a, c) && SameUpToCase(b, d)
    ensures SameUpToCase(a + b, c + d)
  {
    forall i | 0 <= i < |a + b| ensures ToLowerAscii((a + b)[i]) == ToLowerAscii((c + d)[i]) {
      if i >= |a| {
        assert (a + b)[i] == b[i - |a|] && (c + d)[i] == d[i - |c|];
      }
    }
  }

  /**
   * find depends on the input only through what the expression matches at
   * each position; the proof uses only the contract of NextMatch.
   */
  lemma NextMatchFromMatches(s: string, t: string, key: string, from: nat)
    requires |s| == |t| && from <= |s|
    requires forall q: nat :: from <= q <= |s| ==> MatchAt(s, q, key) == MatchAt(t, q, key)
    ensures NextMatch(s, key, from) == NextMatch(t, key, from)
  {
    var a, b := NextMatch(s, key, from), NextMatch(t, key, from);
    if a.Some? {
      NextMatchIsLeftmost(t, key, from, a.value.start);
    }
  }

  lemma NextMatchUpToCase(s: string, t: string, key: string, from: nat)
    requires SameUpToCase(s, t) && from <= |s|
    ensures NextMatch(s, key, from) == NextMatch(t, key, from)
  {
    forall q: nat | from <= q <= |s| ensures MatchAt(s, q, key) == MatchAt(t, q, key) {
      MatchAtUpToCase(s, t, q, key);
    }
    NextMatchFromMatches(s, t, key, from);
  }

  lemma SameUpToCaseSlice(s: string, t: string, i: nat, j: nat)
    requires SameUpToCase(s, t) && i <= j <= |s|
    ensures SameUpToCase(s[i..j], t[i..j])
  {
  }

  lemma {:induction false} RedactUpToCase(s: string, t: string, key: string, from: nat)
    requires SameUpToCase(s, t) && from <= |s|
    ensures SameUpToCase(Redact(s, key, from), Redact(t, key, from))
    decreases |s| - from
  {
    NextMatchUpToCase(s, t, key, from);
    match NextMatch(s, key, from)
    case None =>
      SameUpToCaseSlice(s, t, from, |s|);
    case Some(f) =>
      var g, e := f.span.prefixEnd, f.span.valueEnd;
      RedactUpToCase(s, t, key, e);
      SameUpToCaseSlice(s, t, from, g);
      SameUpToCaseConcat(s[from..g], Mask, t[from..g], Mask);
      SameUpToCaseConcat(s[from..g] + Mask, Redact(s, key, e), t[from..g] + Mask, Redact(t, key, e));
  }

  lemma {:induction false} ApplyKeysUpToCase(s: string, t: string, keys: seq<string>)
    requires SameUpToCase(s, t)
    ensures SameUpToCase(ApplyKeys(s, keys), ApplyKeys(t, keys))
    decreases |keys|
  {
    if keys != [] {
      ApplyKeysUpToCase(s, t, keys[..|keys| - 1]);
      RedactUpToCase(ApplyKeys(s, keys[..|keys| - 1]), ApplyKeys(t, keys[..|keys| - 1]), keys[|keys| - 1], 0);
    }
  }

  /**
   * Redaction ignores ASCII case: inputs that differ only in the case of
   * letters are redacted at the same places, so their outputs again differ
   * only in the case of letters (the kept text keeps its own spelling).
   */
  lemma FilterIgnoresCase(s: string, t: string)
    requires SameUpToCase(s, t)
    ensures SameUpToCase(Filter(s), Filter(t))
  {
    ApplyKeysUpToCase(s, t, SensitiveKeys);
  }

}
