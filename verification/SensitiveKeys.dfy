/** Variable keys that must not carry secrets (contract/catalog_validation.go 159-173). */
module SensitiveKeys {
  import opened Text
  import opened WordMatching

  const FORBIDDEN: seq<string> := [
    "secret", "password", "authorization", "cookie", "token", "payload", "stack", "stacktrace", "exception", "dsn",
    "request_body", "response_body", "raw_request", "raw_response", "error_message", "error_detail"
  ]

  const FORBIDDEN_WORDS: seq<seq<string>> := [
    ["secret"], ["password"], ["authorization"], ["cookie"], ["token"], ["payload"], ["stack"], ["stacktrace"],
    ["exception"], ["dsn"], ["request", "body"], ["response", "body"], ["raw", "request"], ["raw", "response"],
    ["error", "message"], ["error", "detail"]
  ]

  predicate SensitiveAmong(key: string, forbidden: seq<string>) {
    exists i | 0 <= i < |forbidden| :: FourTests(Joined(KeyWords(key)), forbidden[i])
  }

  predicate CatalogSensitiveVariableKey(key: string) {
    SensitiveAmong(key, FORBIDDEN)
  }

  /** For any list of forbidden terms given by their words. */
  lemma SensitiveIffSublist(key: string, forbidden: seq<string>, terms: seq<seq<string>>)
    requires |forbidden| == |terms|
    requires forall i | 0 <= i < |terms| :: terms[i] != [] && AreWords(terms[i]) && forbidden[i] == Joined(terms[i])
    ensures SensitiveAmong(key, forbidden) <==> exists i | 0 <= i < |terms| :: Sublist(KeyWords(key), terms[i])
  {
    WordsAreWords(Lower(TrimSpace(key)));
    forall i | 0 <= i < |terms|
      ensures FourTests(Joined(KeyWords(key)), forbidden[i]) <==> Sublist(KeyWords(key), terms[i])
    {
      SubstringTestsAreSublistTest(KeyWords(key), terms[i]);
    }
  }

  predicate Letters(s: string) {
    s != "" && forall i | 0 <= i < |s| :: 'a' <= s[i] <= 'z'
  }

  lemma TwoWords(a: string, b: string)
    requires Letters(a) && Letters(b)
    ensures AreWords([a]) && Joined([a]) == a
    ensures AreWords([a, b]) && Joined([a, b]) == a + [SEP] + b
  {
    assert [a, b][1..] == [b];
  }

  lemma OneWord(w: string)
    requires Letters(w)
    ensures KeyWords(w) == [w]
  {
    KeyWordsUntrimmed(w);
    assert Lower(w) == w && w + "" == w;
    AllMeansEach(w, InWord);
    LeadExact(w, "", InWord);
  }

  lemma Pair(a: string, b: string)
    requires Letters(a) && Letters(b)
    ensures KeyWords(a + [SEP] + b) == [a, b]
  {
    OneWord(a);
    OneWord(b);
    KeyWordsAroundSeparator(a, SEP, b);
  }

  /** Forbidden term i is its words joined, and these are the words it splits into. */
  ghost predicate TermOk(i: nat)
    requires i < 16
  {
    FORBIDDEN_WORDS[i] != [] && AreWords(FORBIDDEN_WORDS[i]) && FORBIDDEN[i] == Joined(FORBIDDEN_WORDS[i])
      && KeyWords(FORBIDDEN[i]) == FORBIDDEN_WORDS[i]
  }

  lemma OneWordTerm(i: nat)
    requires i < 10
    ensures TermOk(i)
  {
    var words := FORBIDDEN_WORDS[i];
    assert Letters(words[0]);
    TwoWords(words[0], words[0]);
    OneWord(words[0]);
  }

  lemma TwoWordTerm(i: nat, a: string, b: string)
    requires i < 16 && FORBIDDEN_WORDS[i] == [a, b] && FORBIDDEN[i] == a + [SEP] + b && Letters(a) && Letters(b)
    ensures TermOk(i)
  {
    TwoWords(a, b);
    Pair(a, b);
  }

  lemma BodyTerms()
    ensures TermOk(10) && TermOk(11)
  {
    hide TermOk, KeyWords, Joined, AreWords;
    TwoWordTerm(10, "request", "body");
    TwoWordTerm(11, "response", "body");
  }

  lemma RawTerms()
    ensures TermOk(12) && TermOk(13)
  {
    hide TermOk, KeyWords, Joined, AreWords;
    TwoWordTerm(12, "raw", "request");
    TwoWordTerm(13, "raw", "response");
  }

  lemma ErrorTerms()
    ensures TermOk(14) && TermOk(15)
  {
    hide TermOk, KeyWords, Joined, AreWords;
    TwoWordTerm(14, "error", "message");
    TwoWordTerm(15, "error", "detail");
  }

  lemma EveryTerm(i: nat)
    requires i < 16
    ensures TermOk(i)
  {
    hide TermOk;
    if i < 10 {
      OneWordTerm(i);
    } else {
      BodyTerms();
      RawTerms();
      ErrorTerms();
      assert 10 <= i <= 15;
    }
  }

  /** A key is sensitive iff the words of some forbidden term occur, in order and next to each other,
      among the words of the key. */
  lemma SensitiveKeysExactly(key: string)
    ensures CatalogSensitiveVariableKey(key) <==>
      exists i | 0 <= i < |FORBIDDEN_WORDS| :: Sublist(KeyWords(key), FORBIDDEN_WORDS[i])
  {
    forall i: nat | i < 16
      ensures FORBIDDEN_WORDS[i] != [] && AreWords(FORBIDDEN_WORDS[i]) && FORBIDDEN[i] == Joined(FORBIDDEN_WORDS[i])
    {
      EveryTerm(i);
    }
    hide AreWords, Joined;
    SensitiveIffSublist(key, FORBIDDEN, FORBIDDEN_WORDS);
  }

  /** The verdict does not change when a separator is exchanged, doubled, or put at an end. */
  lemma SeparatorsDoNotMatter(x: string, y: string, c: char, d: char)
    requires Separator(c) && Separator(d)
    ensures CatalogSensitiveVariableKey(x + [c] + y) == CatalogSensitiveVariableKey(x + [d] + y)
    ensures CatalogSensitiveVariableKey(x + [c] + [d] + y) == CatalogSensitiveVariableKey(x + [c] + y)
    ensures CatalogSensitiveVariableKey([c] + x) == CatalogSensitiveVariableKey(x)
    ensures CatalogSensitiveVariableKey(x + [c]) == CatalogSensitiveVariableKey(x)
  {
    KeyWordsAroundSeparator(x, c, y);
    KeyWordsAroundSeparator(x, d, y);
    KeyWordsAroundSeparator(x + [c], d, y);
    KeyWordsAroundSeparator(x, c, x);
  }

  /** Each of the sixteen terms is sensitive. */
  lemma TermsAreSensitive(i: nat)
    requires i < 16
    ensures CatalogSensitiveVariableKey(FORBIDDEN[i])
  {
    EveryTerm(i);
    SensitiveKeysExactly(FORBIDDEN[i]);
    hide KeyWords, CatalogSensitiveVariableKey;
    assert SublistAt(FORBIDDEN_WORDS[i], FORBIDDEN_WORDS[i], 0);
  }

  lemma SublistWithin(before: seq<string>, words: seq<string>, after: seq<string>, term: seq<string>)
    requires Sublist(words, term)
    ensures Sublist(before + words + after, term)
  {
    var k :| 0 <= k <= |words| && SublistAt(words, term, k);
    var all := before + words + after;
    assert all[|before| + k..|before| + k + |term|] == words[k..k + |term|];
    assert SublistAt(all, term, |before| + k);
  }

  /** A sensitive key stays sensitive whatever stands before and after it across a dot, an underscore, a
      hyphen or a space, and in capitals. */
  lemma StaysSensitive(before: string, c: char, key: string, d: char, after: string, spelled: string)
    requires CatalogSensitiveVariableKey(key) && c in {'.', '_', '-', ' '} && d in {'.', '_', '-', ' '}
    requires Lower(spelled) == Lower(before + [c] + key + [d] + after)
    ensures CatalogSensitiveVariableKey(spelled)
  {
    var longer := before + [c] + key + [d] + after;
    KeyWordsFold(spelled, longer);
    KeyWordsAroundSeparator(before, c, key);
    KeyWordsAroundSeparator(before + [c] + key, d, after);
    SensitiveKeysExactly(key);
    SensitiveKeysExactly(spelled);
    hide KeyWords, CatalogSensitiveVariableKey;
    var i :| 0 <= i < |FORBIDDEN_WORDS| && Sublist(KeyWords(key), FORBIDDEN_WORDS[i]);
    SublistWithin(KeyWords(before), KeyWords(key), KeyWords(after), FORBIDDEN_WORDS[i]);
  }
}
