/** Tokens in template sources: the pattern \{\{\s*([a-z][a-z0-9_.-]*)\s*\}\}, the leftmost scan that
    FindAllStringSubmatch and ReplaceAllString perform with it, and the check built on that scan
    (contract/template_validation.go 15 and 292-305). */
module TemplateTokens {
  import opened Text

  /** \s in Go's regular expressions, which does not contain the vertical tab. */
  predicate PatternSpace(c: char) {
    c == '\t' || c == '\n' || c == '\U{000C}' || c == '\r' || c == ' '
  }

  // ---- one token ----

  predicate Name(s: string) {
    s != "" && 'a' <= s[0] <= 'z' && All(s, KeyChar)
  }

  /** The captured names are exactly the stable keys. */
  lemma NameIsStableKey(s: string)
    ensures Name(s) <==> StableKey(s)
  {
    AllMeansEach(s, KeyChar);
  }

  datatype Match = Match(length: nat, name: string)

  /** White space and closing braces: their length. */
  function Close(s: string): Option<nat> {
    var space := Lead(s, PatternSpace);
    if HasPrefix(s[space..], "}}") then Some(space + 2) else None
  }

  /** The part of a token after its opening braces. */
  function NameAndClose(s: string): Option<Match> {
    var space := Lead(s, PatternSpace);
    var atName := s[space..];
    if atName == "" || !('a' <= atName[0] <= 'z') then None
    else
      var n := Lead(atName, KeyChar);
      match Close(atName[n..])
      case None => None
      case Some(close) => Some(Match(space + n + close, atName[..n]))
  }

  /** The match of the pattern at the start of s. */
  function TokenPrefix(s: string): Option<Match> {
    if !HasPrefix(s, "{{") then None
    else match NameAndClose(s[2..])
      case None => None
      case Some(m) => Some(Match(m.length + 2, m.name))
  }

  /** A token from its name part on, and what follows it. */
  function Tail(left: string, name: string, right: string, rest: string): string {
    left + (name + (right + ("}}" + rest)))
  }

  function TokenText(left: string, name: string, right: string): string {
    "{{" + Tail(left, name, right, "")
  }

  /** raw matches the whole pattern with this capture. */
  ghost predicate IsToken(raw: string, name: string) {
    exists left, right ::
      All(left, PatternSpace) && All(right, PatternSpace) && Name(name) && raw == TokenText(left, name, right)
  }

  predicate PatternSpaces(s: string) {
    forall c | c in s :: c as int in {0x09, 0x0A, 0x0C, 0x0D, 0x20}
  }

  lemma PatternSpacesExactly(s: string)
    ensures All(s, PatternSpace) <==> PatternSpaces(s)
  {
    AllMeansEach(s, PatternSpace);
    assert forall i | 0 <= i < |s| :: s[i] in s;
  }

  /** A token is two opening braces, a stable key with any white space around it, and two closing braces. */
  lemma TokensExactly(raw: string, name: string)
    ensures IsToken(raw, name) <==>
      StableKey(name) &&
      exists left, right :: PatternSpaces(left) && PatternSpaces(right) && raw == "{{" + left + name + right + "}}"
  {
    NameIsStableKey(name);
    forall left, right
      ensures All(left, PatternSpace) && All(right, PatternSpace) <==> PatternSpaces(left) && PatternSpaces(right)
      ensures TokenText(left, name, right) == "{{" + left + name + right + "}}"
    {
      PatternSpacesExactly(left);
      PatternSpacesExactly(right);
      assert "}}" + "" == "}}";
    }
    hide TokenText, PatternSpaces, All;
    if left, right :| PatternSpaces(left) && PatternSpaces(right) && raw == "{{" + left + name + right + "}}" {
      assert raw == TokenText(left, name, right);
    }
  }

  lemma TailSplits(left: string, name: string, right: string, rest: string)
    ensures Tail(left, name, right, rest) == Tail(left, name, right, "") + rest
    ensures |Tail(left, name, right, "")| == |left| + |name| + |right| + 2
  {
    assert "}}" + "" + rest == "}}" + rest;
  }

  lemma NameAndCloseSound(s: string) returns (left: string, right: string, rest: string)
    requires NameAndClose(s).Some?
    ensures var m := NameAndClose(s).value;
      && s == Tail(left, m.name, right, rest) && m.length == |left| + |m.name| + |right| + 2
      && All(left, PatternSpace) && All(right, PatternSpace) && Name(m.name)
  {
    var space := Lead(s, PatternSpace);
    var atName := s[space..];
    var n := Lead(atName, KeyChar);
    var atSpace := atName[n..];
    LeadIsLongest(s, PatternSpace);
    LeadIsLongest(atName, KeyChar);
    assert KeyChar(atName[0]);
    left := s[..space];
    right, rest := CloseSound(atSpace);
  }

  lemma CloseSound(s: string) returns (right: string, rest: string)
    requires Close(s).Some?
    ensures s == right + ("}}" + rest) && Close(s).value == |right| + 2 && All(right, PatternSpace)
  {
    var space := Lead(s, PatternSpace);
    LeadIsLongest(s, PatternSpace);
    right := s[..space];
    rest := PrefixSplit(s[space..], "}}");
  }

  lemma PrefixSplit(s: string, prefix: string) returns (rest: string)
    requires HasPrefix(s, prefix)
    ensures s == prefix + rest
  {
    rest := s[|prefix|..];
  }

  lemma CloseComplete(right: string, rest: string)
    requires All(right, PatternSpace)
    ensures Close(right + ("}}" + rest)) == Some(|right| + 2)
  {
    LeadExact(right, "}}" + rest, PatternSpace);
  }

  lemma NotKeyChar(right: string, rest: string)
    requires All(right, PatternSpace)
    ensures !KeyChar((right + ("}}" + rest))[0])
  {
  }

  lemma NameAndCloseComplete(left: string, name: string, right: string, rest: string)
    requires All(left, PatternSpace) && All(right, PatternSpace) && Name(name)
    ensures NameAndClose(Tail(left, name, right, rest)) == Some(Match(|left| + |name| + |right| + 2, name))
  {
    var atSpace := right + ("}}" + rest);
    CloseComplete(right, rest);
    NotKeyChar(right, rest);
    LeadExact(name, atSpace, KeyChar);
    assert (name + atSpace)[0] == name[0];
    LeadExact(left, name + atSpace, PatternSpace);
  }

  lemma TokenPrefixSound(s: string)
    requires TokenPrefix(s).Some?
    ensures var m := TokenPrefix(s).value;
      5 <= m.length <= |s| && IsToken(s[..m.length], m.name)
  {
    var m := TokenPrefix(s).value;
    var left, right, rest := NameAndCloseSound(s[2..]);
    TailSplits(left, m.name, right, rest);
    assert s == "{{" + s[2..];
    assert s[..m.length] == TokenText(left, m.name, right);
  }

  lemma AfterOpening(t: string)
    ensures TokenPrefix("{{" + t) ==
      match NameAndClose(t) case None => None case Some(m) => Some(Match(m.length + 2, m.name))
  {
    assert ("{{" + t)[2..] == t;
  }

  lemma TokenTextSplits(left: string, name: string, right: string, rest: string)
    ensures TokenText(left, name, right) + rest == "{{" + Tail(left, name, right, rest)
    ensures |TokenText(left, name, right)| == |left| + |name| + |right| + 4
  {
    TailSplits(left, name, right, rest);
    assert "{{" + Tail(left, name, right, "") + rest == "{{" + (Tail(left, name, right, "") + rest);
  }

  lemma TokenTextMatches(left: string, name: string, right: string, rest: string)
    requires All(left, PatternSpace) && All(right, PatternSpace) && Name(name)
    ensures TokenPrefix(TokenText(left, name, right) + rest) == Some(Match(|TokenText(left, name, right)|, name))
  {
    TokenTextSplits(left, name, right, rest);
    NameAndCloseComplete(left, name, right, rest);
    AfterOpening(Tail(left, name, right, rest));
  }

  lemma TokenPrefixComplete(raw: string, name: string, rest: string)
    requires IsToken(raw, name)
    ensures TokenPrefix(raw + rest) == Some(Match(|raw|, name))
  {
    var left, right :| All(left, PatternSpace) && All(right, PatternSpace) && Name(name)
      && raw == TokenText(left, name, right);
    TokenTextMatches(left, name, right, rest);
  }

  /** At each position there is at most one match, with one capture, and TokenPrefix finds it. */
  lemma MatchIsUnique(s: string, length: nat, name: string)
    requires length <= |s|
    ensures IsToken(s[..length], name) <==> TokenPrefix(s) == Some(Match(length, name))
  {
    assert s == s[..length] + s[length..];
    if IsToken(s[..length], name) {
      TokenPrefixComplete(s[..length], name, s[length..]);
    }
    if TokenPrefix(s) == Some(Match(length, name)) {
      TokenPrefixSound(s);
    }
  }

  // ---- the scan ----

  datatype Segment = Literal(text: string) | Token(text: string, name: string)

  function Prepend(c: char, segments: seq<Segment>): seq<Segment> {
    if segments != [] && segments[0].Literal? then [Literal([c] + segments[0].text)] + segments[1..]
    else [Literal([c])] + segments
  }

  /** The leftmost scan. */
  function Scan(s: string): seq<Segment>
    decreases |s|
  {
    if s == "" then []
    else match TokenPrefix(s)
      case Some(m) =>
        TokenPrefixSound(s);
        [Token(s[..m.length], m.name)] + Scan(s[m.length..])
      case None => Prepend(s[0], Scan(s[1..]))
  }

  function Source(segments: seq<Segment>): string {
    if segments == [] then "" else segments[0].text + Source(segments[1..])
  }

  /** What is left when the tokens are cut out. */
  function Consumed(segments: seq<Segment>): string {
    if segments == [] then ""
    else (if segments[0].Literal? then segments[0].text else "") + Consumed(segments[1..])
  }

  function Names(segments: seq<Segment>): seq<string> {
    if segments == [] then []
    else (if segments[0].Token? then [segments[0].name] else []) + Names(segments[1..])
  }

  /** Tokens are tokens, literals are not empty and not adjacent, and no token starts inside a literal. */
  ghost predicate Leftmost(segments: seq<Segment>) {
    segments == [] || (
      && Leftmost(segments[1..])
      && match segments[0]
         case Token(text, name) => IsToken(text, name)
         case Literal(text) => Prefixable(text, segments[1..]))
  }

  lemma SourceStep(segments: seq<Segment>)
    requires segments != []
    ensures Source(segments) == segments[0].text + Source(segments[1..])
    ensures Consumed(segments) == (if segments[0].Literal? then segments[0].text else "") + Consumed(segments[1..])
    ensures segments == [segments[0]] + segments[1..]
  {
  }

  /** A literal in front of segments that do not begin with one. */
  predicate Prefixable(text: string, rest: seq<Segment>) {
    && text != "" && (rest == [] || rest[0].Token?)
    && forall i | 0 <= i < |text| :: TokenPrefix(text[i..] + Source(rest)).None?
  }

  lemma LeftmostToken(text: string, name: string, rest: seq<Segment>)
    requires IsToken(text, name) && Leftmost(rest)
    ensures Leftmost([Token(text, name)] + rest) && Source([Token(text, name)] + rest) == text + Source(rest)
  {
    assert ([Token(text, name)] + rest)[1..] == rest;
  }

  lemma LeftmostLiteral(text: string, rest: seq<Segment>)
    requires Prefixable(text, rest) && Leftmost(rest)
    ensures Leftmost([Literal(text)] + rest) && Source([Literal(text)] + rest) == text + Source(rest)
  {
    assert ([Literal(text)] + rest)[1..] == rest;
  }

  lemma ScanPrepend(c: char, segments: seq<Segment>)
    requires Leftmost(segments) && TokenPrefix([c] + Source(segments)).None?
    ensures Source(Prepend(c, segments)) == [c] + Source(segments) && Leftmost(Prepend(c, segments))
  {
    if segments != [] && segments[0].Literal? {
      SourceStep(segments);
      PrefixableLonger(c, segments[0].text, segments[1..]);
      LeftmostLiteral([c] + segments[0].text, segments[1..]);
      Associates([c], segments[0].text, Source(segments[1..]));
    } else {
      assert [c][0..] == [c];
      LeftmostLiteral([c], segments);
    }
  }

  lemma PrefixableLonger(c: char, text: string, rest: seq<Segment>)
    requires Prefixable(text, rest) && TokenPrefix([c] + (text + Source(rest))).None?
    ensures Prefixable([c] + text, rest)
  {
    var longer := [c] + text;
    Associates([c], text, Source(rest));
    assert longer[0..] == longer;
    assert forall i | 1 <= i < |longer| :: longer[i..] == text[i - 1..];
  }

  lemma PrefixableShorter(text: string, rest: seq<Segment>)
    requires Prefixable(text, rest) && |text| > 1
    ensures Prefixable(text[1..], rest)
  {
    assert forall i | 0 <= i < |text[1..]| :: text[1..][i..] == text[i + 1..];
  }

  lemma ScanAtToken(s: string, m: Match)
    requires TokenPrefix(s) == Some(m)
    ensures 5 <= m.length <= |s| && IsToken(s[..m.length], m.name)
    ensures Scan(s) == [Token(s[..m.length], m.name)] + Scan(s[m.length..])
  {
    TokenPrefixSound(s);
  }

  lemma ScanElsewhere(s: string)
    requires s != "" && TokenPrefix(s).None?
    ensures Scan(s) == Prepend(s[0], Scan(s[1..]))
  {
  }

  ghost predicate Splits(s: string) {
    Source(Scan(s)) == s && Leftmost(Scan(s))
  }

  lemma SplitsAtToken(s: string, m: Match)
    requires TokenPrefix(s) == Some(m) && m.length <= |s| && Splits(s[m.length..])
    ensures Splits(s)
  {
    ScanAtToken(s, m);
    LeftmostToken(s[..m.length], m.name, Scan(s[m.length..]));
    hide Scan, TokenPrefix, IsToken, Source, Leftmost;
    assert s == s[..m.length] + s[m.length..];
  }

  lemma SplitsElsewhere(s: string)
    requires s != "" && TokenPrefix(s).None? && Splits(s[1..])
    ensures Splits(s)
  {
    ScanElsewhere(s);
    assert s == [s[0]] + s[1..];
    ScanPrepend(s[0], Scan(s[1..]));
  }

  /** The scan splits any source into literals and tokens that concatenate to it. */
  lemma {:induction false} ScanSplits(s: string)
    ensures Source(Scan(s)) == s && Leftmost(Scan(s))
    decreases |s|
  {
    if s == "" {
    } else {
      hide Scan, TokenPrefix, Source, Leftmost;
      match TokenPrefix(s)
      case Some(m) =>
        TokenPrefixSound(s);
        ScanSplits(s[m.length..]);
        SplitsAtToken(s, m);
      case None =>
        ScanSplits(s[1..]);
        SplitsElsewhere(s);
    }
  }

  /** It is the only leftmost split. */
  lemma {:induction false} ScanIsUnique(segments: seq<Segment>)
    requires Leftmost(segments)
    ensures Scan(Source(segments)) == segments
  {
    if segments == [] {
    } else {
      ScanIsUnique(segments[1..]);
      SourceStep(segments);
      if segments[0].Token? {
        ScanToken(segments[0].text, segments[0].name, Source(segments[1..]));
      } else {
        ScanLiteral(segments[0].text, segments[1..]);
      }
    }
  }

  lemma {:induction false} ScanLiteral(text: string, rest: seq<Segment>)
    requires Prefixable(text, rest) && Scan(Source(rest)) == rest
    ensures Scan(text + Source(rest)) == [Literal(text)] + rest
  {
    hide Scan, Source, TokenPrefix;
    var c, others := text[0], text[1..];
    var scanned := if |text| > 1 then [Literal(others)] + rest else rest;
    if |text| > 1 {
      PrefixableShorter(text, rest);
      ScanLiteral(others, rest);
      PrependToLiteral(c, others, rest);
    } else {
      assert others + Source(rest) == Source(rest);
      assert text == [c] && Prepend(c, rest) == [Literal([c])] + rest;
    }
    assert text == [c] + others;
    ScanCharacter(text, rest, scanned);
  }

  lemma PrependToLiteral(c: char, text: string, rest: seq<Segment>)
    ensures Prepend(c, [Literal(text)] + rest) == [Literal([c] + text)] + rest
  {
    assert ([Literal(text)] + rest)[1..] == rest;
  }

  lemma ScanToken(text: string, name: string, rest: string)
    requires IsToken(text, name)
    ensures text != "" && Scan(text + rest) == [Token(text, name)] + Scan(rest)
  {
    TokenPrefixComplete(text, name, rest);
    TokenPrefixSound(text + rest);
    assert (text + rest)[..|text|] == text && (text + rest)[|text|..] == rest;
  }

  lemma ScanCharacter(text: string, rest: seq<Segment>, scanned: seq<Segment>)
    requires Prefixable(text, rest) && Scan(text[1..] + Source(rest)) == scanned
    ensures Scan(text + Source(rest)) == Prepend(text[0], scanned)
  {
    hide Scan, TokenPrefix, Source, Prepend;
    assert text[0..] == text;
    assert (text + Source(rest))[1..] == text[1..] + Source(rest);
    ScanElsewhere(text + Source(rest));
  }

  // ---- positions outside tokens ----

  /** Position p of the source lies inside a token. */
  predicate Covered(segments: seq<Segment>, p: nat)
    requires p < |Source(segments)|
  {
    if p < |segments[0].text| then segments[0].Token? else Covered(segments[1..], p - |segments[0].text|)
  }

  /** Where the character at an uncovered position ends up once the tokens are cut out. */
  function Kept(segments: seq<Segment>, p: nat): nat
    requires p < |Source(segments)|
  {
    if p < |segments[0].text| then p
    else Kept(segments[1..], p - |segments[0].text|) + if segments[0].Literal? then |segments[0].text| else 0
  }

  lemma {:induction false} KeptCharacter(segments: seq<Segment>, p: nat)
    requires p < |Source(segments)| && !Covered(segments, p)
    ensures Kept(segments, p) < |Consumed(segments)| && Consumed(segments)[Kept(segments, p)] == Source(segments)[p]
  {
    if p < |segments[0].text| {
    } else {
      KeptCharacter(segments[1..], p - |segments[0].text|);
    }
  }

  ghost predicate AllCovered(segments: seq<Segment>, from: nat, upto: nat)
    requires upto <= |Source(segments)|
  {
    forall k: nat | from <= k < upto :: Covered(segments, k)
  }

  lemma CoveredShift(segments: seq<Segment>, from: nat, upto: nat)
    requires segments != [] && |segments[0].text| <= from <= upto <= |Source(segments)|
    ensures var n := |segments[0].text|;
      AllCovered(segments, from, upto) <==> AllCovered(segments[1..], from - n, upto - n)
  {
    var n, rest := |segments[0].text|, segments[1..];
    if AllCovered(segments, from, upto) {
      forall k: nat | from - n <= k < upto - n ensures Covered(rest, k) {
        assert Covered(segments, k + n);
      }
    }
    if AllCovered(rest, from - n, upto - n) {
      forall k: nat | from <= k < upto ensures Covered(segments, k) {
        assert Covered(rest, k - n);
      }
    }
  }

  /** Between an uncovered position and the next one only tokens are cut out. */
  lemma {:induction false} KeptAdjacent(segments: seq<Segment>, p: nat, q: nat)
    requires p < q < |Source(segments)| && !Covered(segments, p) && !Covered(segments, q)
    requires AllCovered(segments, p + 1, q)
    ensures Kept(segments, q) == Kept(segments, p) + 1
  {
    var n := |segments[0].text|;
    if p >= n {
      CoveredShift(segments, p + 1, q);
      KeptAdjacent(segments[1..], p - n, q - n);
    } else if q >= n {
      assert Covered(segments, p + 1) || p + 1 == q;
      CoveredShift(segments, n, q);
      KeptFirst(segments[1..], q - n);
    } else {
      assert Covered(segments, p + 1) || p + 1 == q;
    }
  }

  lemma {:induction false} KeptFirst(segments: seq<Segment>, q: nat)
    requires q < |Source(segments)| && !Covered(segments, q)
    requires AllCovered(segments, 0, q)
    ensures Kept(segments, q) == 0
  {
    var n := |segments[0].text|;
    if q >= n {
      assert n > 0 ==> Covered(segments, 0);
      CoveredShift(segments, n, q);
      KeptFirst(segments[1..], q - n);
    } else {
      assert Covered(segments, 0) || q == 0;
    }
  }

  /** The uncovered position a kept character comes from. */
  function Origin(segments: seq<Segment>, c: nat): (p: nat)
    requires c < |Consumed(segments)|
    ensures p < |Source(segments)| && !Covered(segments, p)
  {
    var text := segments[0].text;
    if segments[0].Token? then |text| + Origin(segments[1..], c)
    else if c < |text| then c
    else |text| + Origin(segments[1..], c - |text|)
  }

  lemma {:induction false} OriginCharacter(segments: seq<Segment>, c: nat)
    requires c < |Consumed(segments)|
    ensures Source(segments)[Origin(segments, c)] == Consumed(segments)[c]
  {
    var text := segments[0].text;
    if segments[0].Token? {
      OriginCharacter(segments[1..], c);
    } else if c < |text| {
    } else {
      OriginCharacter(segments[1..], c - |text|);
    }
  }

  lemma {:induction false} OriginAdjacent(segments: seq<Segment>, c: nat)
    requires c + 1 < |Consumed(segments)|
    ensures Origin(segments, c) < Origin(segments, c + 1)
    ensures AllCovered(segments, Origin(segments, c) + 1, Origin(segments, c + 1))
  {
    var text, rest := segments[0].text, segments[1..];
    if segments[0].Token? {
      OriginAdjacent(rest, c);
      CoveredShift(segments, Origin(segments, c) + 1, Origin(segments, c + 1));
    } else if c + 1 < |text| {
    } else if c + 1 == |text| {
      OriginFirst(rest);
      CoveredShift(segments, |text|, Origin(segments, c + 1));
    } else {
      OriginAdjacent(rest, c - |text|);
      CoveredShift(segments, Origin(segments, c) + 1, Origin(segments, c + 1));
    }
  }

  lemma {:induction false} OriginFirst(segments: seq<Segment>)
    requires 0 < |Consumed(segments)|
    ensures AllCovered(segments, 0, Origin(segments, 0))
  {
    var text, rest := segments[0].text, segments[1..];
    if segments[0].Literal? && text != "" {
    } else {
      OriginFirst(rest);
      CoveredShift(segments, |text|, Origin(segments, 0));
    }
  }

  // ---- the check ----

  predicate Brace(c: char) {
    c == '{' || c == '}'
  }

  /** Two equal braces at p and q outside tokens, with nothing but tokens, or nothing, between them. */
  ghost predicate StrayPair(segments: seq<Segment>, p: nat, q: nat)
    requires p < |Source(segments)| && q < |Source(segments)|
  {
    && p < q && !Covered(segments, p) && !Covered(segments, q)
    && AllCovered(segments, p + 1, q)
    && Source(segments)[p] == Source(segments)[q] && Brace(Source(segments)[p])
  }

  /** strings.Contains(consumed, "{{") || strings.Contains(consumed, "}}") */
  predicate HasDoubleBrace(s: string) {
    Contains(s, "{{") || Contains(s, "}}")
  }

  lemma DoubleBraceAt(s: string)
    ensures HasDoubleBrace(s) <==> exists c: nat :: c + 1 < |s| && s[c] == s[c + 1] && Brace(s[c])
  {
    if c: nat :| c + 1 < |s| && s[c] == s[c + 1] && Brace(s[c]) {
      assert OccursAt(s, [s[c], s[c]], c);
      assert [s[c], s[c]] == "{{" || [s[c], s[c]] == "}}";
    }
    if i :| 0 <= i <= |s| && (OccursAt(s, "{{", i) || OccursAt(s, "}}", i)) {
      assert s[i..i + 2][0] == s[i] && s[i..i + 2][1] == s[i + 1];
    }
  }

  lemma StrayPairFromDouble(segments: seq<Segment>, c: nat)
    requires c + 1 < |Consumed(segments)| && Consumed(segments)[c] == Consumed(segments)[c + 1]
      && Brace(Consumed(segments)[c])
    ensures StrayPair(segments, Origin(segments, c), Origin(segments, c + 1))
  {
    OriginAdjacent(segments, c);
    OriginCharacter(segments, c);
    OriginCharacter(segments, c + 1);
  }

  lemma DoubleFromStrayPair(segments: seq<Segment>, p: nat, q: nat)
    requires p < |Source(segments)| && q < |Source(segments)| && StrayPair(segments, p, q)
    ensures var s, c := Consumed(segments), Kept(segments, p);
      c + 1 < |s| && s[c] == s[c + 1] && Brace(s[c])
  {
    KeptAdjacent(segments, p, q);
    KeptCharacter(segments, p);
    KeptCharacter(segments, q);
  }

  /** The syntax check finds a double brace in what is left over exactly when the source holds a stray
      pair of braces. */
  lemma DoubleBraceIsStrayPair(segments: seq<Segment>)
    ensures HasDoubleBrace(Consumed(segments)) <==>
      exists p: nat, q: nat :: p < |Source(segments)| && q < |Source(segments)| && StrayPair(segments, p, q)
  {
    var s := Consumed(segments);
    DoubleBraceAt(s);
    if c: nat :| c + 1 < |s| && s[c] == s[c + 1] && Brace(s[c]) {
      StrayPairFromDouble(segments, c);
    }
    if p: nat, q: nat :| p < |Source(segments)| && q < |Source(segments)| && StrayPair(segments, p, q) {
      DoubleFromStrayPair(segments, p, q);
    }
  }

  /** The text before the first dot. */
  function Root(name: string): string {
    name[..Lead(name, c => c != '.')]
  }

  /** The root has no dot, and the name is the root, or the root with a dot and more after it. */
  lemma RootExactly(name: string)
    ensures '.' !in Root(name)
    ensures name == Root(name) || exists rest :: name == Root(name) + "." + rest
  {
    var noDot := c => c != '.';
    LeadIsLongest(name, noDot);
    AllMeansEach(Root(name), noDot);
    var n := Lead(name, noDot);
    if n < |name| {
      assert name == Root(name) + "." + name[n + 1..];
    }
  }

  datatype Verdict = Valid | SyntaxInvalid | VariableUnknown(root: string)

  /** The first token, in source order, whose root is not declared. */
  function FirstUnknown(names: seq<string>, declared: set<string>): Verdict {
    if names == [] then Valid
    else if Root(names[0]) !in declared then VariableUnknown(Root(names[0]))
    else FirstUnknown(names[1..], declared)
  }

  function Check(source: string, declared: set<string>): Verdict {
    if HasDoubleBrace(Consumed(Scan(source))) then SyntaxInvalid
    else FirstUnknown(Names(Scan(source)), declared)
  }

  method ValidateTokens(source: string, declared: set<string>) returns (verdict: Verdict)
    ensures verdict == Check(source, declared)
  {
    var matches := Names(Scan(source));
    var consumed := Consumed(Scan(source));
    if Contains(consumed, "{{") || Contains(consumed, "}}") {
      return SyntaxInvalid;
    }
    var i := 0;
    while i < |matches|
      invariant 0 <= i <= |matches|
      invariant FirstUnknown(matches, declared) == FirstUnknown(matches[i..], declared)
    {
      var root := Root(matches[i]);
      if root !in declared {
        return VariableUnknown(root);
      }
      i := i + 1;
    }
    return Valid;
  }

  ghost predicate AllDeclared(segments: seq<Segment>, declared: set<string>) {
    forall i | 0 <= i < |segments| && segments[i].Token? :: Root(segments[i].name) in declared
  }

  lemma {:induction false} FirstUnknownNone(segments: seq<Segment>, declared: set<string>)
    ensures FirstUnknown(Names(segments), declared) == Valid <==> AllDeclared(segments, declared)
  {
    if segments == [] {
    } else {
      FirstUnknownNone(segments[1..], declared);
      assert AllDeclared(segments, declared) <==>
        AllDeclared(segments[1..], declared) && (segments[0].Token? ==> Root(segments[0].name) in declared) by {
        assert forall i | 1 <= i < |segments| :: segments[i] == segments[1..][i - 1];
      }
      if segments[0].Token? {
        assert Names(segments)[1..] == Names(segments[1..]);
      } else {
        assert Names(segments) == Names(segments[1..]);
      }
    }
  }

  /** A source is accepted iff it splits, in the one way it does, into literals and declared tokens
      without a stray pair of braces. */
  lemma AcceptedSources(source: string, declared: set<string>)
    ensures var segments := Scan(source);
      Check(source, declared) == Valid <==>
        && AllDeclared(segments, declared)
        && !exists p: nat, q: nat ::
             p < |source| && q < |source| && Source(segments) == source && StrayPair(segments, p, q)
  {
    ScanSplits(source);
    DoubleBraceIsStrayPair(Scan(source));
    FirstUnknownNone(Scan(source), declared);
  }

  /** The name at i is the first whose root is not declared. */
  predicate FirstUndeclared(names: seq<string>, declared: set<string>, i: nat) {
    i < |names| && Root(names[i]) !in declared && forall j | 0 <= j < i :: Root(names[j]) in declared
  }

  lemma {:induction false} FirstUnknownAt(names: seq<string>, declared: set<string>)
    ensures var v := FirstUnknown(names, declared);
      && (v == Valid || v.VariableUnknown?)
      && (v == Valid <==> forall i | 0 <= i < |names| :: Root(names[i]) in declared)
      && (v.VariableUnknown? ==> exists i: nat :: FirstUndeclared(names, declared, i) && v.root == Root(names[i]))
  {
    hide Root;
    if names == [] {
    } else {
      FirstUnknownAt(names[1..], declared);
      assert forall i | 1 <= i < |names| :: names[i] == names[1..][i - 1];
      if Root(names[0]) !in declared {
        assert FirstUndeclared(names, declared, 0);
      } else if i: nat :| FirstUndeclared(names[1..], declared, i) {
        assert FirstUndeclared(names, declared, i + 1);
      }
    }
  }

  /** A source is rejected for its syntax exactly when it has a stray pair of braces, and otherwise for the
      first of its tokens, in source order, whose root is not declared. */
  lemma RejectedSources(source: string, declared: set<string>)
    ensures var segments, v := Scan(source), Check(source, declared);
      && (v == SyntaxInvalid <==> exists p: nat, q: nat ::
            p < |source| && q < |source| && Source(segments) == source && StrayPair(segments, p, q))
      && (v.VariableUnknown? ==> exists i: nat ::
            FirstUndeclared(Names(segments), declared, i) && v.root == Root(Names(segments)[i]))
  {
    ScanSplits(source);
    hide Scan, Names, HasDoubleBrace, StrayPair, FirstUnknown, FirstUndeclared;
    DoubleBraceIsStrayPair(Scan(source));
    FirstUnknownAt(Names(Scan(source)), declared);
  }

  /** In an accepted source every double brace overlaps a token. */
  lemma DoubleBracesOverlapTokens(source: string, declared: set<string>, p: nat)
    requires Check(source, declared) == Valid
    requires p + 1 < |source| && source[p] == source[p + 1] && Brace(source[p])
    ensures Source(Scan(source)) == source && (Covered(Scan(source), p) || Covered(Scan(source), p + 1))
  {
    AcceptedSources(source, declared);
    ScanSplits(source);
    assert !StrayPair(Scan(source), p, p + 1);
  }

  predicate OneBrace(text: string) {
    text == "{" || text == "}"
  }

  lemma ThirdBrace(tail: string)
    ensures TokenPrefix("{{" + ("{" + tail)).None?
  {
    AfterOpening("{" + tail);
    assert ("{" + tail)[0] == '{';
  }

  lemma BraceBeforeToken(brace: string, token: string, name: string, rest: string)
    requires OneBrace(brace) && IsToken(token, name)
    ensures TokenPrefix(brace + (token + rest)).None? && |token| >= 5
  {
    hide NameAndClose, Tail;
    var left, right :| All(left, PatternSpace) && All(right, PatternSpace) && Name(name)
      && token == TokenText(left, name, right);
    TokenTextSplits(left, name, right, rest);
    if brace == "{" {
      var tail := Tail(left, name, right, rest);
      ThirdBrace(tail);
      assert brace + (token + rest) == "{{" + ("{" + tail);
    } else {
      assert (brace + (token + rest))[0] == '}';
    }
  }

  lemma BracesAroundToken(before: string, token: string, name: string, after: string)
    requires IsToken(token, name) && OneBrace(before) && OneBrace(after)
    ensures Scan(before + (token + after)) == [Literal(before)] + ([Token(token, name)] + [Literal(after)])
  {
    BraceBeforeToken(before, token, name, after);
    assert before[0..] == before && after[0..] == after && after + "" == after;
    LeftmostLiteral(after, []);
    assert [Literal(after)] + [] == [Literal(after)];
    LeftmostToken(token, name, [Literal(after)]);
    LeftmostLiteral(before, [Token(token, name)] + [Literal(after)]);
    ScanIsUnique([Literal(before)] + ([Token(token, name)] + [Literal(after)]));
  }

  lemma AroundToken(text: string, token: string, name: string, text': string)
    requires text != "" && text' != ""
    ensures var segments := [Literal(text)] + ([Token(token, name)] + [Literal(text')]);
      && Source(segments) == text + (token + text') && Consumed(segments) == text + text'
      && forall p: nat | |text| <= p < |text| + |token| :: Covered(segments, p)
  {
    var segments := [Literal(text)] + ([Token(token, name)] + [Literal(text')]);
    SourceStep(segments);
    SourceStep(segments[1..]);
    SourceStep(segments[2..]);
    assert segments[1..][1..] == segments[2..] && segments[2..][1..] == [];
  }

  lemma NamesAround(text: string, token: string, name: string, text': string)
    ensures Names([Literal(text)] + ([Token(token, name)] + [Literal(text')])) == [name]
  {
    var segments := [Literal(text)] + ([Token(token, name)] + [Literal(text')]);
    assert Names(segments[2..]) == [] && Names(segments[1..]) == [name];
  }

  /** Every two neighbouring positions of the source touch a token. */
  ghost predicate TokensThroughout(source: string) {
    var segments := Scan(source);
    && Source(segments) == source
    && forall p: nat | p + 1 < |source| :: Covered(segments, p) || Covered(segments, p + 1)
  }

  lemma OneTokenThroughout(before: string, token: string, name: string, after: string)
    requires IsToken(token, name) && OneBrace(before) && OneBrace(after)
    ensures TokensThroughout(before + (token + after))
  {
    var source := before + (token + after);
    var segments := Scan(source);
    BracesAroundToken(before, token, name, after);
    BraceBeforeToken(before, token, name, after);
    AroundToken(before, token, name, after);
    forall p: nat | p + 1 < |source| ensures Covered(segments, p) || Covered(segments, p + 1) {
      assert Covered(segments, if p == 0 then 1 else p);
    }
  }

  /** The converse fails: cutting out a token can bring two single braces together. */
  lemma JoinedBracesRejected(brace: string, token: string, name: string, declared: set<string>)
    requires IsToken(token, name) && OneBrace(brace)
    ensures var source := brace + (token + brace);
      Check(source, declared) == SyntaxInvalid && TokensThroughout(source)
  {
    BracesAroundToken(brace, token, name, brace);
    AroundToken(brace, token, name, brace);
    OneTokenThroughout(brace, token, name, brace);
    DoubleBraceOfTwo(brace, brace);
  }

  lemma DoubleBraceOfTwo(before: string, after: string)
    requires OneBrace(before) && OneBrace(after)
    ensures HasDoubleBrace(before + after) <==> before == after
  {
    DoubleBraceAt(before + after);
    assert (before + after)[0] == before[0] && (before + after)[1] == after[0];
    assert before == [before[0]] && after == [after[0]];
  }

  lemma OneName(name: string, declared: set<string>)
    ensures FirstUnknown([name], declared) == if Root(name) in declared then Valid else VariableUnknown(Root(name))
  {
    assert FirstUnknown([name][1..], declared) == Valid;
  }

  /** Two different braces around a token are no double brace: only the token is checked. */
  lemma MixedBracesAccepted(before: string, token: string, name: string, after: string, declared: set<string>)
    requires IsToken(token, name) && OneBrace(before) && OneBrace(after) && before != after
    ensures Check(before + (token + after), declared) ==
      if Root(name) in declared then Valid else VariableUnknown(Root(name))
  {
    hide Scan, Source, Consumed, Names, HasDoubleBrace, FirstUnknown, Root, IsToken, Covered;
    BracesAroundToken(before, token, name, after);
    AroundToken(before, token, name, after);
    NamesAround(before, token, name, after);
    DoubleBraceOfTwo(before, after);
    OneName(name, declared);
  }

  // ---- printing ----

  /** What a template author writes: text without braces, and tokens. */
  ghost predicate Printable(segments: seq<Segment>) {
    segments == [] || (
      && Printable(segments[1..])
      && match segments[0]
         case Token(text, name) => IsToken(text, name)
         case Literal(text) => NoBrace(text))
  }

  /** Empty literals dropped and neighbouring literals joined. */
  function Merged(segments: seq<Segment>): seq<Segment> {
    if segments == [] then []
    else
      var rest := Merged(segments[1..]);
      match segments[0]
      case Token(_, _) => [segments[0]] + rest
      case Literal(text) =>
        if text == "" then rest
        else if rest != [] && rest[0].Literal? then [Literal(text + rest[0].text)] + rest[1..]
        else [segments[0]] + rest
  }

  predicate NoBrace(text: string) {
    forall i | 0 <= i < |text| :: !Brace(text[i])
  }

  /** Merging keeps the text and the tokens, and what is left has no brace outside its tokens. */
  lemma {:induction false} MergedIsLeftmost(segments: seq<Segment>)
    requires Printable(segments)
    ensures Leftmost(Merged(segments)) && Source(Merged(segments)) == Source(segments)
    ensures Names(Merged(segments)) == Names(segments)
    ensures Merged(segments) != [] && Merged(segments)[0].Literal? ==> NoBrace(Merged(segments)[0].text)
    ensures NoBrace(Consumed(Merged(segments)))
  {
    if segments == [] {
    } else {
      var text, rest := segments[0].text, Merged(segments[1..]);
      MergedIsLeftmost(segments[1..]);
      SourceStep(segments);
      if segments[0].Token? {
        LeftmostToken(text, segments[0].name, rest);
        SourceStep([segments[0]] + rest);
        assert ([segments[0]] + rest)[1..] == rest;
      } else if text == "" {
      } else if rest != [] && rest[0].Literal? {
        MergeLiterals(text, rest);
      } else {
        NoBraceNoToken(text, Source(rest));
        LeftmostLiteral(text, rest);
        SourceStep([segments[0]] + rest);
        assert ([segments[0]] + rest)[1..] == rest;
      }
    }
  }

  lemma MergeLiterals(text: string, rest: seq<Segment>)
    requires Leftmost(rest) && rest != [] && rest[0].Literal?
    requires text != "" && NoBrace(text) && NoBrace(rest[0].text) && NoBrace(Consumed(rest))
    ensures var merged := [Literal(text + rest[0].text)] + rest[1..];
      && Leftmost(merged) && Source(merged) == text + Source(rest)
      && Names(merged) == Names(rest) && NoBrace(Consumed(merged)) && NoBrace(merged[0].text)
  {
    var merged := [Literal(text + rest[0].text)] + rest[1..];
    SourceStep(rest);
    SourceStep(merged);
    assert merged[1..] == rest[1..];
    NoBraceNoToken(text + rest[0].text, Source(rest[1..]));
    LeftmostLiteral(text + rest[0].text, rest[1..]);
    Associates(text, rest[0].text, Source(rest[1..]));
    Associates(text, rest[0].text, Consumed(rest[1..]));
  }

  lemma NoBraceNoToken(text: string, rest: string)
    requires NoBrace(text)
    ensures forall i | 0 <= i < |text| :: TokenPrefix(text[i..] + rest).None?
  {
    forall i | 0 <= i < |text| ensures TokenPrefix(text[i..] + rest).None? {
      assert (text[i..] + rest)[0] == text[i];
    }
  }

  /** What is printed scans to itself, and is accepted iff the roots of its tokens are declared. */
  lemma PrintThenScan(segments: seq<Segment>, declared: set<string>)
    requires Printable(segments)
    ensures Scan(Source(segments)) == Merged(segments)
    ensures Check(Source(segments), declared) == FirstUnknown(Names(segments), declared)
  {
    MergedIsLeftmost(segments);
    ScanIsUnique(Merged(segments));
    DoubleBraceAt(Consumed(Merged(segments)));
  }
}
