/** Matching whole words by substring tests: what the separators around a word are for. */
module WordMatching {
  import opened Text

  const SEP := '_'

  predicate Separator(c: char) {
    c == '.' || c == '_' || c == '-' || IsSpace(c)
  }

  /** Hyphen, dot, underscore and white space. */
  lemma SeparatorsExactly(c: char)
    ensures Separator(c) <==> c as int in {0x2D, 0x2E, 0x5F} || IsSpace(c)
  {
  }

  predicate InWord(c: char) {
    !Separator(c)
  }

  /** strings.FieldsFunc */
  function Words(s: string): seq<string>
    decreases |s|
  {
    if s == "" then []
    else if Separator(s[0]) then Words(s[1..])
    else
      var n := Lead(s, InWord);
      [s[..n]] + Words(s[n..])
  }

  /** strings.Join with an underscore. */
  function Joined(words: seq<string>): string {
    if words == [] then ""
    else if |words| == 1 then words[0]
    else words[0] + [SEP] + Joined(words[1..])
  }

  predicate IsWord(w: string) {
    w != "" && forall i | 0 <= i < |w| :: InWord(w[i])
  }

  predicate AreWords(words: seq<string>) {
    forall i | 0 <= i < |words| :: IsWord(words[i])
  }

  lemma {:induction false} WordsAreWords(s: string)
    ensures AreWords(Words(s))
    decreases |s|
  {
    if s == "" {
    } else {
      if Separator(s[0]) {
        WordsAreWords(s[1..]);
      } else {
        var n := Lead(s, InWord);
        WordsAreWords(s[n..]);
        LeadIsLongest(s, InWord);
        AllMeansEach(s[..n], InWord);
      }
    }
  }

  /** Separators only separate: how many there are, which ones, and whether they stand at an end does
      not show in the words. */
  lemma {:induction false} WordsAroundSeparator(x: string, c: char, y: string)
    requires Separator(c)
    ensures Words(x + [c] + y) == Words(x) + Words(y)
    decreases |x|
  {
    var s := x + [c] + y;
    if x == "" {
      assert s == [c] + y && s[1..] == y;
    } else if Separator(x[0]) {
      assert s[1..] == x[1..] + [c] + y;
      WordsAroundSeparator(x[1..], c, y);
    } else {
      var n := Lead(x, InWord);
      LeadIsLongest(x, InWord);
      var tail := x[n..] + [c] + y;
      assert s == x[..n] + tail;
      assert tail[0] == if n < |x| then x[n] else c;
      LeadExact(x[..n], tail, InWord);
      WordsAroundSeparator(x[n..], c, y);
      assert [x[..n]] + (Words(x[n..]) + Words(y)) == [x[..n]] + Words(x[n..]) + Words(y);
    }
  }

  /** The words of a variable key. */
  function KeyWords(key: string): seq<string> {
    Words(Lower(TrimSpace(key)))
  }

  lemma {:induction false} LeadingSeparators(left: string, s: string)
    requires AllSpace(left)
    ensures Words(left + s) == Words(s)
  {
    if left == "" {
      assert left + s == s;
    } else {
      assert (left + s)[1..] == left[1..] + s;
      LeadingSeparators(left[1..], s);
    }
  }

  lemma {:induction false} TrailingSeparators(s: string, right: string)
    requires AllSpace(right)
    ensures Words(s + right) == Words(s)
  {
    if right == "" {
      assert s + right == s;
    } else {
      var n := |right| - 1;
      assert s + right == s + right[..n] + [right[n]] + "";
      WordsAroundSeparator(s + right[..n], right[n], "");
      TrailingSeparators(s, right[..n]);
      assert Words(s) + [] == Words(s);
    }
  }

  lemma LowerConcat(x: string, y: string)
    ensures Lower(x + y) == Lower(x) + Lower(y)
  {
  }

  lemma LowerSpace(s: string)
    requires AllSpace(s)
    ensures Lower(s) == s
  {
  }

  /** Trimming takes no word away. */
  lemma KeyWordsUntrimmed(key: string)
    ensures KeyWords(key) == Words(Lower(key))
  {
    var left, right := TrimSplit(key);
    var t := TrimSpace(key);
    LowerConcat(left + t, right);
    LowerConcat(left, t);
    LowerSpace(left);
    LowerSpace(right);
    TrailingSeparators(left + Lower(t), right);
    LeadingSeparators(left, Lower(t));
  }

  /** The words of a key do not depend on how many separators there are, which ones they are, or whether
      they stand at an end. */
  lemma KeyWordsAroundSeparator(x: string, c: char, y: string)
    requires Separator(c)
    ensures KeyWords(x + [c] + y) == KeyWords(x) + KeyWords(y)
    ensures KeyWords(x + [c]) == KeyWords(x) && KeyWords([c] + y) == KeyWords(y)
  {
    KeyWordsUntrimmed(x);
    KeyWordsUntrimmed(y);
    KeyWordsUntrimmed(x + [c] + y);
    KeyWordsUntrimmed(x + [c]);
    KeyWordsUntrimmed([c] + y);
    LowerConcat(x + [c], y);
    LowerConcat(x, [c]);
    LowerConcat([c], y);
    assert Lower([c]) == [c];
    WordsAroundSeparator(Lower(x), c, Lower(y));
    WordsAroundSeparator(Lower(x), c, "");
    WordsAroundSeparator("", c, Lower(y));
    assert Lower(x) + [c] + "" == Lower(x) + [c] && "" + [c] + Lower(y) == [c] + Lower(y);
    assert Words(Lower(x)) + [] == Words(Lower(x));
  }

  /** Capitals do not matter. */
  lemma KeyWordsFold(a: string, b: string)
    requires Lower(a) == Lower(b)
    ensures KeyWords(a) == KeyWords(b)
  {
    KeyWordsUntrimmed(a);
    KeyWordsUntrimmed(b);
  }

  // ---- the list test ----

  /** term occurs in words as a contiguous sublist. */
  predicate Sublist(words: seq<string>, term: seq<string>) {
    exists k | 0 <= k <= |words| :: SublistAt(words, term, k)
  }

  predicate SublistAt(words: seq<string>, term: seq<string>, k: nat) {
    k + |term| <= |words| && words[k..k + |term|] == term
  }

  // ---- the string test ----

  /** The four tests of the source. */
  predicate FourTests(joined: string, term: string) {
    || joined == term
    || Contains(joined, [SEP] + term + [SEP])
    || HasPrefix(joined, term + [SEP])
    || HasSuffix(joined, [SEP] + term)
  }

  function Wrapped(s: string): string {
    [SEP] + s + [SEP]
  }

  lemma OccurrenceAll(joined: string, term: string)
    ensures OccursAt(Wrapped(joined), Wrapped(term), 0) && |joined| == |term| <==> joined == term
  {
    var s, t := Wrapped(joined), Wrapped(term);
    assert s[1..|joined| + 1] == joined && t[1..|term| + 1] == term;
    assert |joined| == |term| ==> s[0..|t|] == s;
  }

  lemma OccurrenceAtStart(joined: string, term: string)
    requires |term| < |joined|
    ensures OccursAt(Wrapped(joined), Wrapped(term), 0) <==> HasPrefix(joined, term + [SEP])
  {
    var s, t := Wrapped(joined), Wrapped(term);
    assert s[0..|t|] == [SEP] + joined[..|term| + 1];
    assert t == [SEP] + (term + [SEP]);
    assert ([SEP] + joined[..|term| + 1])[1..] == joined[..|term| + 1] && t[1..] == term + [SEP];
  }

  lemma OccurrenceAtEnd(joined: string, term: string)
    requires |term| < |joined|
    ensures OccursAt(Wrapped(joined), Wrapped(term), |joined| - |term|) <==> HasSuffix(joined, [SEP] + term)
  {
    var s, t, i := Wrapped(joined), Wrapped(term), |joined| - |term|;
    assert s[i..i + |t|] == joined[i - 1..] + [SEP];
    assert (joined[i - 1..] + [SEP])[..|term| + 1] == joined[i - 1..] && t[..|term| + 1] == [SEP] + term;
  }

  lemma OccurrenceInside(joined: string, term: string, i: nat)
    requires i + |term| + 2 <= |joined|
    ensures OccursAt(Wrapped(joined), Wrapped(term), i + 1) <==> OccursAt(joined, Wrapped(term), i)
  {
    var s, n := Wrapped(joined), |term| + 2;
    assert s[i + 1..i + 1 + n] == joined[i..i + n];
  }

  /** The four tests together look for the wrapped term in the wrapped text. */
  lemma FourTestsAreOne(joined: string, term: string)
    ensures FourTests(joined, term) <==> Contains(Wrapped(joined), Wrapped(term))
  {
    OccurrenceAll(joined, term);
    if |term| < |joined| {
      OccurrenceAtStart(joined, term);
      OccurrenceAtEnd(joined, term);
    }
    if i :| 0 <= i <= |joined| && OccursAt(joined, Wrapped(term), i) {
      OccurrenceInside(joined, term, i);
    }
    if i :| 0 <= i <= |Wrapped(joined)| && OccursAt(Wrapped(joined), Wrapped(term), i) {
      if 0 < i < |joined| - |term| {
        OccurrenceInside(joined, term, i - 1);
      }
    }
  }

  // ---- they agree ----

  /** Each word between two underscores. */
  function Fenced(words: seq<string>): string {
    if words == [] then [SEP] else [SEP] + (words[0] + Fenced(words[1..]))
  }

  lemma {:induction false} FencedIsWrappedJoin(words: seq<string>)
    requires words != []
    ensures Fenced(words) == Wrapped(Joined(words))
  {
    if |words| > 1 {
      FencedIsWrappedJoin(words[1..]);
      assert words[0] + ([SEP] + Joined(words[1..]) + [SEP]) == words[0] + [SEP] + Joined(words[1..]) + [SEP];
    } else {
      assert Fenced(words[1..]) == [SEP];
    }
  }

  lemma FirstWord(word: string, rest: string, word': string, rest': string)
    requires IsWord(word) && IsWord(word') && rest != "" && rest' != "" && rest[0] == SEP == rest'[0]
    requires word' + rest' <= word + rest
    ensures word == word' && rest' <= rest
  {
    var s := word + rest;
    assert forall i | 0 <= i < |word| :: s[i] == word[i];
    assert forall i | 0 <= i < |word'| :: s[i] == word'[i];
    assert s[|word|] == SEP;
    assert s[|word'|] == SEP by {
      assert (word' + rest')[|word'|] == SEP;
    }
    assert InWord(word[0]) && (|word'| < |word| ==> InWord(word[|word'|]))
      && (|word| < |word'| ==> InWord(word'[|word|]));
    assert word == s[..|word|] && word' == s[..|word'|];
    assert rest == s[|word|..];
    assert rest' == s[|word|..|word| + |rest'|];
  }

  lemma FencedStart(words: seq<string>)
    ensures Fenced(words) != "" && Fenced(words)[0] == SEP
    ensures words != [] ==> Fenced(words)[1..] == words[0] + Fenced(words[1..])
  {
  }

  lemma {:induction false} FencedPrefix(words: seq<string>, term: seq<string>)
    requires AreWords(words) && AreWords(term) && Fenced(term) <= Fenced(words)
    ensures SublistAt(words, term, 0)
  {
    if term == [] {
    } else {
      FencedStart(term);
      FencedStart(words);
      FencedStart(term[1..]);
      assert |Fenced(term)| >= 3;
      assert words != [];
      FencedStart(words[1..]);
      assert Fenced(term)[1..] <= Fenced(words)[1..];
      FirstWord(words[0], Fenced(words[1..]), term[0], Fenced(term[1..]));
      FencedPrefix(words[1..], term[1..]);
      assert words[0..|term|] == [words[0]] + words[1..][..|term| - 1];
      assert term == [term[0]] + term[1..];
    }
  }

  lemma LettersFirst(words: seq<string>)
    requires AreWords(words) && words != []
    ensures |Fenced(words)| > |words[0]| && forall j | 1 <= j <= |words[0]| :: Fenced(words)[j] != SEP
  {
    FencedStart(words);
    forall j | 1 <= j <= |words[0]| ensures Fenced(words)[j] != SEP {
      assert Fenced(words)[1..][j - 1] == words[0][j - 1];
      assert InWord(words[0][j - 1]);
    }
  }

  lemma OccursAfter(s: string, n: nat, t: string, i: nat)
    requires n <= i && OccursAt(s, t, i)
    ensures OccursAt(s[n..], t, i - n)
  {
    assert s[n..][i - n..i - n + |t|] == s[i..i + |t|];
  }

  lemma FencedRest(words: seq<string>)
    requires words != []
    ensures |Fenced(words)| > |words[0]| && Fenced(words)[1 + |words[0]|..] == Fenced(words[1..])
  {
  }

  lemma OccursLater(words: seq<string>, t: string, i: nat)
    requires AreWords(words) && words != [] && i > 0
    requires t != "" && t[0] == SEP && OccursAt(Fenced(words), t, i)
    ensures i > |words[0]| && OccursAt(Fenced(words[1..]), t, i - 1 - |words[0]|)
  {
    hide Fenced, AreWords;
    assert Fenced(words)[i] == Fenced(words)[i..i + |t|][0] == SEP;
    LettersFirst(words);
    FencedRest(words);
    OccursAfter(Fenced(words), 1 + |words[0]|, t, i);
  }

  lemma SublistLater(words: seq<string>, term: seq<string>)
    requires words != [] && Sublist(words[1..], term)
    ensures Sublist(words, term)
  {
    var k :| 0 <= k <= |words[1..]| && SublistAt(words[1..], term, k);
    assert SublistAt(words, term, k + 1);
  }

  lemma EmptyFence(t: string, i: nat)
    requires |t| >= 3
    ensures !OccursAt(Fenced([]), t, i)
  {
  }

  lemma FenceLength(term: seq<string>)
    requires AreWords(term) && term != []
    ensures |Fenced(term)| >= 3 && Fenced(term)[0] == SEP
  {
    FencedStart(term);
    FencedStart(term[1..]);
  }

  lemma {:induction false} FencedOccurrence(words: seq<string>, term: seq<string>, t: string, i: nat)
    requires AreWords(words) && AreWords(term) && term != [] && t == Fenced(term)
    requires OccursAt(Fenced(words), t, i)
    ensures Sublist(words, term)
    decreases words
  {
    FenceLength(term);
    if i == 0 {
      FencedPrefix(words, term);
    } else if words == [] {
      EmptyFence(t, i);
    } else {
      OccursLater(words, t, i);
      FencedOccurrence(words[1..], term, t, i - 1 - |words[0]|);
      SublistLater(words, term);
    }
  }

  lemma {:induction false} FencedContains(words: seq<string>, term: seq<string>, k: nat) returns (i: nat)
    requires SublistAt(words, term, k)
    ensures OccursAt(Fenced(words), Fenced(term), i)
  {
    FencedStart(words);
    if k == 0 {
      i := 0;
      FencedTake(words, term);
    } else {
      var j := FencedContains(words[1..], term, k - 1);
      i := 1 + |words[0]| + j;
      assert Fenced(words)[1 + |words[0]|..] == Fenced(words[1..]);
      assert Fenced(words)[i..i + |Fenced(term)|] == Fenced(words[1..])[j..j + |Fenced(term)|];
    }
  }

  lemma {:induction false} FencedTake(words: seq<string>, term: seq<string>)
    requires term <= words
    ensures Fenced(term) <= Fenced(words)
  {
    FencedStart(words);
    if term == [] {
    } else {
      assert words[0] == term[0] && term[1..] <= words[1..];
      FencedTake(words[1..], term[1..]);
    }
  }

  /** On texts made of words, the four substring tests are exactly the sublist test. */
  lemma SubstringTestsAreSublistTest(words: seq<string>, term: seq<string>)
    requires AreWords(words) && AreWords(term) && term != []
    ensures FourTests(Joined(words), Joined(term)) <==> Sublist(words, term)
  {
    FourTestsAreOne(Joined(words), Joined(term));
    FencedIsWrappedJoin(term);
    if words == [] {
      assert |Wrapped(Joined(words))| == 2;
      FencedStart(term);
      assert |Fenced(term)| >= 3;
    } else {
      FencedIsWrappedJoin(words);
      if i :| 0 <= i <= |Fenced(words)| && OccursAt(Fenced(words), Fenced(term), i) {
        FencedOccurrence(words, term, Fenced(term), i);
      }
      if k :| 0 <= k <= |words| && SublistAt(words, term, k) {
        var i := FencedContains(words, term, k);
      }
    }
  }
}
