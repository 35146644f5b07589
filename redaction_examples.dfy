/**
 * Worked inputs for filterSensitiveData: the redaction of a quoted value,
 * case-insensitive keys, several keys in one argument list, a key that
 * occurs twice, the white space given back when no value follows, and an
 * input on which a second application changes the output again.
 *
 * Each pass is its own lemma, so that each proof only evaluates the
 * matcher on one input.
 */
module RedactionExamples {
  import opened Wrappers
  import opened Pattern
  import opened Matcher
  import opened SensitiveDataFilter

  // "Token=xyz" and "TOKEN=xyz"

  lemma MixedCaseTokenMatch()
    ensures MatchAt("Token=xyz", 0, "token") == Some(Span(6, 9))
  {
    assert KeyAt("Token=xyz", 0, "token");
    PlainMatchIs("Token=xyz", 0, "token", 9);
  }

  lemma MixedCaseTokenPass()
    ensures RedactAll("Token=xyz", "token") == "Token=***"
  {
    MixedCaseTokenMatch();
    RedactOneMatch("Token=xyz", "token", 0, 0, 6, 9);
  }

  lemma UpperCaseTokenMatch()
    ensures MatchAt("TOKEN=xyz", 0, "token") == Some(Span(6, 9))
  {
    assert KeyAt("TOKEN=xyz", 0, "token");
    PlainMatchIs("TOKEN=xyz", 0, "token", 9);
  }

  lemma UpperCaseTokenPass()
    ensures RedactAll("TOKEN=xyz", "token") == "TOKEN=***"
  {
    UpperCaseTokenMatch();
    RedactOneMatch("TOKEN=xyz", "token", 0, 0, 6, 9);
  }

  lemma MixedCaseTokenOtherPasses()
    ensures RedactAll("Token=xyz", "password") == "Token=xyz"
    ensures RedactAll("Token=xyz", "secret") == "Token=xyz"
  {
    RedactAllWithoutKey("Token=xyz", "password");
    RedactAllWithoutKey("Token=xyz", "secret");
  }

  lemma UpperCaseTokenOtherPasses()
    ensures RedactAll("TOKEN=xyz", "password") == "TOKEN=xyz"
    ensures RedactAll("TOKEN=xyz", "secret") == "TOKEN=xyz"
  {
    RedactAllWithoutKey("TOKEN=xyz", "password");
    RedactAllWithoutKey("TOKEN=xyz", "secret");
  }

  /** A key spelt in any case has its value masked. */
  lemma TokenInAnyCase()
    ensures Filter("Token=xyz") == "Token=***"
    ensures Filter("TOKEN=xyz") == "TOKEN=***"
  {
    MixedCaseTokenOtherPasses();
    MixedCaseTokenPass();
    FilterIsThreePasses("Token=xyz");
    UpperCaseTokenOtherPasses();
    UpperCaseTokenPass();
    FilterIsThreePasses("TOKEN=xyz");
  }

  // Passes that find nothing

  /** `secret` cannot match at the `s` characters inside a leading `password`. */
  lemma NoSecretInsidePassword(s: string)
    requires |s| >= 5 && s[..5] == "passw"
    ensures forall q: nat :: q < 4 ==> MatchAt(s, q, "secret").None?
  {
    assert s[0] == s[..5][0] && s[1] == s[..5][1] && s[2] == s[..5][2];
    assert s[3] == s[..5][3] && s[4] == s[..5][4];
    forall q: nat | q < 4 ensures MatchAt(s, q, "secret").None? {
      NoMatchWhereKeyDiffers(s, "secret", q, if q < 2 then 0 else 1);
    }
  }

  /** The secret pass keeps an input that begins with `password` and has no other `s`. */
  lemma SecretPassKeeps(s: string, rest: string)
    requires |s| >= 5 && s[..5] == "passw" && s[4..] == rest
    requires 's' !in rest && 'S' !in rest
    ensures RedactAll(s, "secret") == s
  {
    NoSecretInsidePassword(s);
    RedactWithoutFirstLetter(s, "secret", 0, 4);
  }

  /** A pass keeps an input in which the key's first letter does not occur. */
  lemma PassKeeps(s: string, key: string)
    requires ValidKey(key)
    requires key[0] !in s && ToUpperAscii(key[0]) !in s
    ensures RedactAll(s, key) == s
  {
    assert s[0..] == s;
    RedactWithoutFirstLetter(s, key, 0, 0);
  }

  // password: "abc123", name: "bob"
  //
  // Each pass takes its input as a parameter together with the facts about
  // it that the pass needs, so that the solver reasons about that pass
  // through the lemmas it is given rather than by evaluating the matcher
  // on the literal.

  const QuotedInput: string := "password: \"abc123\", name: \"bob\""
  const QuotedOutput: string := "password: ***, name: \"bob\""

  lemma QuotedPasswordSeparator()
    ensures SeparatorAt(QuotedInput, 0, "password") == Some(8)
  {
    assert KeyAt(QuotedInput, 0, "password");
  }

  lemma QuotedPasswordMatch()
    ensures MatchAt(QuotedInput, 0, "password") == Some(Span(10, 18))
  {
    QuotedPasswordSeparator();
    SkipSpacesIsFirstNonSpace(QuotedInput, 9, 10);
    ClosingQuoteIs(QuotedInput, 11, 17);
  }

  lemma QuotedTail()
    ensures QuotedInput[18..] == ", name: \"bob\""
  {
  }

  lemma QuotedTailLetters()
    ensures 'p' !in ", name: \"bob\"" && 'P' !in ", name: \"bob\""
  {
  }

  lemma QuotedSplice()
    ensures QuotedInput[0..10] + Mask + QuotedInput[18..] == QuotedOutput
  {
    QuotedTail();
    assert QuotedInput[0..10] == "password: ";
  }

  lemma QuotedOutputShape()
    ensures QuotedOutput[..5] == "passw" && QuotedOutput[4..] == "word: ***, name: \"bob\""
  {
  }

  lemma QuotedOutputNoS()
    ensures 's' !in "word: ***, name: \"bob\"" && 'S' !in "word: ***, name: \"bob\""
  {
  }

  lemma QuotedOutputNoT()
    ensures 't' !in QuotedOutput && 'T' !in QuotedOutput
  {
  }

  lemma QuotedPasswordPass(s: string)
    requires |s| >= 18 && s[18..] == ", name: \"bob\""
    requires MatchAt(s, 0, "password") == Some(Span(10, 18))
    ensures RedactAll(s, "password") == s[0..10] + Mask + s[18..]
  {
    QuotedTailLetters();
    RedactOnlyMatch(s, "password", 0, 0, 10, 18);
  }

  lemma QuotedSecretPass(s: string)
    requires s == QuotedOutput
    ensures RedactAll(s, "secret") == s
  {
    QuotedOutputShape();
    QuotedOutputNoS();
    SecretPassKeeps(s, "word: ***, name: \"bob\"");
  }

  lemma QuotedTokenPass(s: string)
    requires s == QuotedOutput
    ensures RedactAll(s, "token") == s
  {
    QuotedOutputNoT();
    PassKeeps(s, "token");
  }

  /** The quoted value is the shortest quoted run; the next field is left alone. */
  lemma QuotedPassword()
    ensures Filter(QuotedInput) == QuotedOutput
  {
    QuotedPasswordMatch();
    QuotedTail();
    QuotedPasswordPass(QuotedInput);
    QuotedSplice();
    QuotedSecretPass(QuotedOutput);
    QuotedTokenPass(QuotedOutput);
    FilterIsThreePasses(QuotedInput);
  }

  // password:  ,   (no value after the white space)

  const BlankValue: string := "password:  ,"
  const BlankValueOutput: string := "password: ***,"

  lemma BlankValueMatch()
    ensures MatchAt(BlankValue, 0, "password") == Some(Span(10, 11))
  {
    assert KeyAt(BlankValue, 0, "password");
    SkipSpacesIsFirstNonSpace(BlankValue, 9, 11);
  }

  lemma BlankValueTail()
    ensures BlankValue[11..] == ","
    ensures BlankValue[0..10] + Mask + BlankValue[11..] == BlankValueOutput
  {
  }

  lemma BlankValuePass(s: string)
    requires |s| >= 11 && s[11..] == ","
    requires MatchAt(s, 0, "password") == Some(Span(10, 11))
    ensures RedactAll(s, "password") == s[0..10] + Mask + s[11..]
  {
    RedactOnlyMatch(s, "password", 0, 0, 10, 11);
  }

  lemma BlankValueOutputShape()
    ensures BlankValueOutput[..5] == "passw" && BlankValueOutput[4..] == "word: ***,"
    ensures 't' !in BlankValueOutput && 'T' !in BlankValueOutput
  {
  }

  lemma BlankValueSecretPass(s: string)
    requires s == BlankValueOutput
    ensures RedactAll(s, "secret") == s
  {
    BlankValueOutputShape();
    SecretPassKeeps(s, "word: ***,");
  }

  lemma BlankValueTokenPass(s: string)
    requires s == BlankValueOutput
    ensures RedactAll(s, "token") == s
  {
    BlankValueOutputShape();
    PassKeeps(s, "token");
  }

  /**
   * With no value after the separator, the greedy `\s*` gives back its
   * last white-space character, which becomes a one-character value.
   */
  lemma BlankValueGivesBackSpace()
    ensures Filter(BlankValue) == BlankValueOutput
  {
    BlankValueMatch();
    BlankValueTail();
    BlankValuePass(BlankValue);
    BlankValueSecretPass(BlankValueOutput);
    BlankValueTokenPass(BlankValueOutput);
    FilterIsThreePasses(BlankValue);
  }

  // [secret=a, token=b]

  const TwoKeys: string := "[secret=a, token=b]"
  const TwoKeysSecretMasked: string := "[secret=***, token=b]"
  const TwoKeysOutput: string := "[secret=***, token=***]"

  lemma TwoKeysLetters()
    ensures 'p' !in TwoKeys && 'P' !in TwoKeys
  {
  }

  lemma TwoKeysPasswordPass(s: string)
    requires s == TwoKeys
    ensures RedactAll(s, "password") == s
  {
    TwoKeysLetters();
    PassKeeps(s, "password");
  }

  lemma TwoKeysSecretMatch()
    ensures MatchAt(TwoKeys, 1, "secret") == Some(Span(8, 9))
  {
    assert KeyAt(TwoKeys, 1, "secret");
    PlainMatchIs(TwoKeys, 1, "secret", 9);
  }

  lemma TwoKeysSecretTail()
    ensures TwoKeys[0] == '[' && TwoKeys[9..] == ", token=b]"
    ensures TwoKeys[0..8] + Mask + TwoKeys[9..] == TwoKeysSecretMasked
  {
  }

  lemma TwoKeysSecretTailLetters()
    ensures 's' !in ", token=b]" && 'S' !in ", token=b]"
  {
  }

  lemma TwoKeysNoSecretAtBracket(s: string)
    requires |s| > 0 && s[0] == '['
    ensures MatchAt(s, 0, "secret").None?
  {
    NoMatchWhereKeyDiffers(s, "secret", 0, 0);
  }

  lemma TwoKeysSecretPass(s: string)
    requires |s| > 9 && 's' !in s[9..] && 'S' !in s[9..]
    requires MatchAt(s, 0, "secret").None?
    requires MatchAt(s, 1, "secret") == Some(Span(8, 9))
    ensures RedactAll(s, "secret") == s[0..8] + Mask + s[9..]
  {
    RedactOnlyMatch(s, "secret", 0, 1, 8, 9);
  }

  lemma TwoKeysMaskedPieces()
    ensures TwoKeysSecretMasked[0..6] == "[secre" && TwoKeysSecretMasked[7..13] == "=***, "
    ensures TwoKeysSecretMasked[5] == 'e' && TwoKeysSecretMasked[6] == 't'
    ensures TwoKeysSecretMasked[7] == '=' && TwoKeysSecretMasked[12] == ' '
  {
  }

  lemma TwoKeysMaskedPiecesLetters()
    ensures 't' !in "[secre" && 'T' !in "[secre" && 't' !in "=***, " && 'T' !in "=***, "
  {
  }

  /** Before the `token` key only the `t` ending `secret` could start one. */
  lemma TwoKeysNoTokenBefore13(s: string)
    requires |s| > 13 && s[0..6] == "[secre" && s[7..13] == "=***, "
    requires s[5] == 'e' && s[6] == 't' && s[7] == '=' && s[12] == ' '
    ensures forall q: nat :: q < 13 ==> MatchAt(s, q, "token").None?
  {
    TwoKeysMaskedPiecesLetters();
    NoMatchBetween(s, "token", 0, 5);
    NoMatchBetween(s, "token", 7, 12);
    TwoKeysNoTokenAtKeyEnd(s);
  }

  lemma TwoKeysNoTokenAtKeyEnd(s: string)
    requires |s| > 13 && s[5] == 'e' && s[6] == 't' && s[7] == '=' && s[12] == ' '
    ensures MatchAt(s, 5, "token").None? && MatchAt(s, 6, "token").None? && MatchAt(s, 12, "token").None?
  {
    NoMatchWhereKeyDiffers(s, "token", 5, 0);
    NoMatchWhereKeyDiffers(s, "token", 6, 1);
    NoMatchWhereKeyDiffers(s, "token", 12, 0);
  }

  lemma TwoKeysTokenMatch()
    ensures MatchAt(TwoKeysSecretMasked, 13, "token") == Some(Span(19, 20))
  {
    assert KeyAt(TwoKeysSecretMasked, 13, "token");
    PlainMatchIs(TwoKeysSecretMasked, 13, "token", 20);
  }

  lemma TwoKeysTokenTail()
    ensures TwoKeysSecretMasked[20..] == "]"
    ensures TwoKeysSecretMasked[0..19] + Mask + TwoKeysSecretMasked[20..] == TwoKeysOutput
  {
  }

  lemma TwoKeysTokenPass(s: string)
    requires |s| > 20 && s[20..] == "]"
    requires forall q: nat :: q < 13 ==> MatchAt(s, q, "token").None?
    requires MatchAt(s, 13, "token") == Some(Span(19, 20))
    ensures RedactAll(s, "token") == s[0..19] + Mask + s[20..]
  {
    assert 't' !in s[20..] && 'T' !in s[20..];
    RedactOnlyMatch(s, "token", 0, 13, 19, 20);
  }

  /** Every key of an argument list is masked, each by its own pass. */
  lemma TwoKeysBothMasked()
    ensures Filter(TwoKeys) == TwoKeysOutput
  {
    TwoKeysPasswordPass(TwoKeys);
    TwoKeysSecretTail();
    TwoKeysSecretTailLetters();
    TwoKeysNoSecretAtBracket(TwoKeys);
    TwoKeysSecretMatch();
    TwoKeysSecretPass(TwoKeys);
    TwoKeysMaskedPieces();
    TwoKeysNoTokenBefore13(TwoKeysSecretMasked);
    TwoKeysTokenMatch();
    TwoKeysTokenTail();
    TwoKeysTokenPass(TwoKeysSecretMasked);
    FilterIsThreePasses(TwoKeys);
  }

  // token=a, token=b

  const RepeatedKey: string := "token=a, token=b"
  const RepeatedKeyOutput: string := "token=***, token=***"

  lemma RepeatedKeyLetters()
    ensures 'p' !in RepeatedKey && 'P' !in RepeatedKey
    ensures 's' !in RepeatedKey && 'S' !in RepeatedKey
  {
  }

  lemma RepeatedKeyPasswordPass(s: string)
    requires s == RepeatedKey
    ensures RedactAll(s, "password") == s
  {
    RepeatedKeyLetters();
    PassKeeps(s, "password");
  }

  lemma RepeatedKeySecretPass(s: string)
    requires s == RepeatedKey
    ensures RedactAll(s, "secret") == s
  {
    RepeatedKeyLetters();
    PassKeeps(s, "secret");
  }

  lemma RepeatedKeyFirstMatch()
    ensures MatchAt(RepeatedKey, 0, "token") == Some(Span(6, 7))
  {
    assert KeyAt(RepeatedKey, 0, "token");
    PlainMatchIs(RepeatedKey, 0, "token", 7);
  }

  lemma RepeatedKeySecondMatch()
    ensures MatchAt(RepeatedKey, 9, "token") == Some(Span(15, 16))
  {
    assert KeyAt(RepeatedKey, 9, "token");
    PlainMatchIs(RepeatedKey, 9, "token", 16);
  }

  lemma RepeatedKeyPieces()
    ensures RepeatedKey[7] == ',' && RepeatedKey[8] == ' ' && RepeatedKey[16..] == []
    ensures RepeatedKey[0..6] + Mask + (RepeatedKey[7..15] + Mask + RepeatedKey[16..]) == RepeatedKeyOutput
  {
  }

  /** The scan resumes after the first value and masks the second one. */
  lemma RepeatedKeyTokenRest(s: string)
    requires |s| == 16 && s[7] == ',' && s[8] == ' '
    requires MatchAt(s, 9, "token") == Some(Span(15, 16))
    ensures Redact(s, "token", 7) == s[7..15] + Mask + s[16..]
  {
    NoMatchWhereKeyDiffers(s, "token", 7, 0);
    NoMatchWhereKeyDiffers(s, "token", 8, 0);
    RedactOnlyMatch(s, "token", 7, 9, 15, 16);
  }

  lemma RepeatedKeyTokenPass(s: string)
    requires |s| == 16 && s[7] == ',' && s[8] == ' '
    requires MatchAt(s, 0, "token") == Some(Span(6, 7))
    requires MatchAt(s, 9, "token") == Some(Span(15, 16))
    ensures RedactAll(s, "token") == s[0..6] + Mask + (s[7..15] + Mask + s[16..])
  {
    RedactAtLeftmostMatch(s, "token", 0, 0, 6, 7);
    RepeatedKeyTokenRest(s);
  }

  /** The scan resumes after each value: every occurrence of a key is masked. */
  lemma RepeatedKeyMaskedTwice()
    ensures Filter(RepeatedKey) == RepeatedKeyOutput
  {
    RepeatedKeyPasswordPass(RepeatedKey);
    RepeatedKeySecretPass(RepeatedKey);
    RepeatedKeyPieces();
    RepeatedKeyFirstMatch();
    RepeatedKeySecondMatch();
    RepeatedKeyTokenPass(RepeatedKey);
    FilterIsThreePasses(RepeatedKey);
  }

  // password="a"b

  const QuoteThenText: string := "password=\"a\"b"
  const QuoteThenTextOnce: string := "password=***b"
  const QuoteThenTextTwice: string := "password=***"

  lemma QuoteThenTextMatch()
    ensures MatchAt(QuoteThenText, 0, "password") == Some(Span(9, 12))
  {
    assert KeyAt(QuoteThenText, 0, "password");
    ClosingQuoteIs(QuoteThenText, 10, 11);
  }

  lemma QuoteThenTextTail()
    ensures QuoteThenText[12..] == "b"
    ensures QuoteThenText[0..9] + Mask + QuoteThenText[12..] == QuoteThenTextOnce
  {
  }

  lemma QuoteThenTextPass(s: string)
    requires |s| >= 12 && s[12..] == "b"
    requires MatchAt(s, 0, "password") == Some(Span(9, 12))
    ensures RedactAll(s, "password") == s[0..9] + Mask + s[12..]
  {
    RedactOnlyMatch(s, "password", 0, 0, 9, 12);
  }

  lemma QuoteThenTextOnceMatch()
    ensures MatchAt(QuoteThenTextOnce, 0, "password") == Some(Span(9, 13))
  {
    assert KeyAt(QuoteThenTextOnce, 0, "password");
    PlainEndIs(QuoteThenTextOnce, 9, 13);
  }

  lemma QuoteThenTextOnceTail()
    ensures QuoteThenTextOnce[13..] == []
    ensures QuoteThenTextOnce[0..9] + Mask + QuoteThenTextOnce[13..] == QuoteThenTextTwice
  {
  }

  lemma QuoteThenTextOncePass(s: string)
    requires |s| == 13
    requires MatchAt(s, 0, "password") == Some(Span(9, 13))
    ensures RedactAll(s, "password") == s[0..9] + Mask + s[13..]
  {
    RedactOnlyMatch(s, "password", 0, 0, 9, 13);
  }

  lemma QuoteThenTextShapes()
    ensures QuoteThenTextOnce[..5] == "passw" && QuoteThenTextOnce[4..] == "word=***b"
    ensures QuoteThenTextTwice[..5] == "passw" && QuoteThenTextTwice[4..] == "word=***"
    ensures 't' !in QuoteThenTextOnce && 'T' !in QuoteThenTextOnce
    ensures 't' !in QuoteThenTextTwice && 'T' !in QuoteThenTextTwice
  {
  }

  lemma QuoteThenTextSecretPass(s: string)
    requires s == QuoteThenTextOnce || s == QuoteThenTextTwice
    ensures RedactAll(s, "secret") == s
  {
    QuoteThenTextShapes();
    SecretPassKeeps(s, s[4..]);
  }

  lemma QuoteThenTextTokenPass(s: string)
    requires s == QuoteThenTextOnce || s == QuoteThenTextTwice
    ensures RedactAll(s, "token") == s
  {
    QuoteThenTextShapes();
    PassKeeps(s, "token");
  }

  lemma QuoteThenTextDiffer()
    ensures QuoteThenTextOnce != QuoteThenTextTwice
  {
    assert |QuoteThenTextOnce| != |QuoteThenTextTwice|;
  }

  lemma QuoteThenTextFilteredOnce()
    ensures Filter(QuoteThenText) == QuoteThenTextOnce
  {
    QuoteThenTextTail();
    QuoteThenTextMatch();
    QuoteThenTextPass(QuoteThenText);
    QuoteThenTextSecretPass(QuoteThenTextOnce);
    QuoteThenTextTokenPass(QuoteThenTextOnce);
    FilterIsThreePasses(QuoteThenText);
  }

  lemma QuoteThenTextFilteredTwice()
    ensures Filter(QuoteThenTextOnce) == QuoteThenTextTwice
  {
    QuoteThenTextOnceTail();
    QuoteThenTextOnceMatch();
    QuoteThenTextOncePass(QuoteThenTextOnce);
    QuoteThenTextSecretPass(QuoteThenTextTwice);
    QuoteThenTextTokenPass(QuoteThenTextTwice);
    FilterIsThreePasses(QuoteThenTextOnce);
  }

  /**
   * Filtering is not idempotent: the quoted value is matched by the
   * shortest quoted run, and on the second application the mask and the
   * text after it form one plain value.
   */
  lemma FilterNotIdempotent()
    ensures Filter(Filter(QuoteThenText)) != Filter(QuoteThenText)
  {
    QuoteThenTextFilteredOnce();
    QuoteThenTextFilteredTwice();
    QuoteThenTextDiffer();
  }
}
