/** Strings as the validators see them: trimming, ordering, substring tests and
    the stable-key pattern shared by every contract validator. */
module Text {

  datatype Option<+T> = None | Some(value: T)

  /** The White_Space code points, which Go's unicode.IsSpace accepts. */
  predicate IsSpace(c: char) {
    || '\t' <= c <= '\r' || c == ' '
    || c == '\U{0085}' || c == '\U{00A0}' || c == '\U{1680}'
    || '\U{2000}' <= c <= '\U{200A}'
    || c == '\U{2028}' || c == '\U{2029}' || c == '\U{202F}' || c == '\U{205F}' || c == '\U{3000}'
  }

  /** They are these 25. */
  lemma SpacesExactly(c: char)
    ensures IsSpace(c) <==> c as int in {
      0x09, 0x0A, 0x0B, 0x0C, 0x0D, 0x20, 0x85, 0xA0, 0x1680,
      0x2000, 0x2001, 0x2002, 0x2003, 0x2004, 0x2005, 0x2006, 0x2007, 0x2008, 0x2009, 0x200A,
      0x2028, 0x2029, 0x202F, 0x205F, 0x3000}
  {
  }

  predicate AllSpace(s: string) {
    forall i | 0 <= i < |s| :: IsSpace(s[i])
  }

  function TrimLeft(s: string): string {
    if s != "" && IsSpace(s[0]) then TrimLeft(s[1..]) else s
  }

  function TrimRight(s: string): string {
    if s != "" && IsSpace(s[|s| - 1]) then TrimRight(s[..|s| - 1]) else s
  }

  /** strings.TrimSpace */
  function TrimSpace(s: string): string {
    TrimRight(TrimLeft(s))
  }

  predicate Blank(s: string) {
    TrimSpace(s) == ""
  }

  /** Neither end is white space. */
  predicate Trimmed(s: string) {
    s == "" || (!IsSpace(s[0]) && !IsSpace(s[|s| - 1]))
  }

  lemma {:induction false} TrimLeftPadding(left: string, s: string)
    requires AllSpace(left)
    ensures TrimLeft(left + s) == TrimLeft(s)
  {
    if left == "" {
      assert left + s == s;
    } else {
      assert (left + s)[1..] == left[1..] + s;
      TrimLeftPadding(left[1..], s);
    }
  }

  lemma {:induction false} TrimRightPadding(s: string, right: string)
    requires AllSpace(right)
    ensures TrimRight(s + right) == TrimRight(s)
  {
    if right == "" {
      assert s + right == s;
    } else {
      var n := |right| - 1;
      assert (s + right)[..|s + right| - 1] == s + right[..n];
      TrimRightPadding(s, right[..n]);
    }
  }

  lemma {:induction false} TrimLeftSplit(s: string) returns (left: string)
    ensures AllSpace(left) && s == left + TrimLeft(s)
    ensures TrimLeft(s) == "" || !IsSpace(TrimLeft(s)[0])
  {
    if s != "" && IsSpace(s[0]) {
      var rest := TrimLeftSplit(s[1..]);
      left := [s[0]] + rest;
    } else {
      left := "";
    }
  }

  lemma {:induction false} TrimRightSplit(s: string) returns (right: string)
    ensures AllSpace(right) && s == TrimRight(s) + right
    ensures TrimRight(s) == "" || !IsSpace(TrimRight(s)[|TrimRight(s)| - 1])
  {
    if s != "" && IsSpace(s[|s| - 1]) {
      var rest := TrimRightSplit(s[..|s| - 1]);
      right := rest + [s[|s| - 1]];
    } else {
      right := "";
    }
  }

  /** Trimming removes white space from both ends and nothing else. */
  lemma TrimSplit(s: string) returns (left: string, right: string)
    ensures AllSpace(left) && AllSpace(right) && Trimmed(TrimSpace(s))
    ensures s == left + TrimSpace(s) + right
  {
    left := TrimLeftSplit(s);
    right := TrimRightSplit(TrimLeft(s));
    var t := TrimSpace(s);
    if t != "" {
      assert TrimLeft(s)[0] == t[0];
    }
  }

  /** t is what is left of s when the white space at both ends is removed. */
  ghost predicate IsTrimOf(t: string, s: string) {
    exists left, right :: AllSpace(left) && AllSpace(right) && Trimmed(t) && s == left + t + right
  }

  /** There is exactly one such text. */
  lemma TrimIsUnique(t: string, s: string)
    ensures IsTrimOf(t, s) <==> t == TrimSpace(s)
  {
    if left, right :| AllSpace(left) && AllSpace(right) && Trimmed(t) && s == left + t + right {
      TrimPadding(left, t, right);
      TrimOfTrimmed(t);
    }
    var _, _ := TrimSplit(s);
  }

  /** A text is blank when it is nothing but white space. */
  lemma BlankExactly(s: string)
    ensures Blank(s) <==> AllSpace(s)
  {
    var left, right := TrimSplit(s);
    if AllSpace(s) {
      assert s + "" + "" == s;
      TrimPadding(s, "", "");
    }
  }

  lemma TrimOfTrimmed(s: string)
    requires Trimmed(s)
    ensures TrimSpace(s) == s
  {
  }

  /** A string with white space around it trims to the same text. */
  lemma TrimPadding(left: string, s: string, right: string)
    requires AllSpace(left) && AllSpace(right)
    ensures TrimSpace(left + s + right) == TrimSpace(s)
  {
    var l, r := TrimSplit(s);
    var t := TrimSpace(s);
    assert left + s + right == (left + l) + (t + (r + right));
    TrimLeftPadding(left + l, t + (r + right));
    if t == "" {
      assert t + (r + right) == (r + right) + "";
      TrimLeftPadding(r + right, "");
    } else {
      assert TrimLeft(t + (r + right)) == t + (r + right);
      TrimRightPadding(t, r + right);
    }
  }

  lemma TrimIdempotent(s: string)
    ensures TrimSpace(TrimSpace(s)) == TrimSpace(s)
    ensures Trimmed(TrimSpace(s))
  {
    var _, _ := TrimSplit(s);
    TrimOfTrimmed(TrimSpace(s));
  }

  predicate OccursAt(s: string, sub: string, i: nat) {
    i + |sub| <= |s| && s[i..i + |sub|] == sub
  }

  /** strings.Contains */
  predicate Contains(s: string, sub: string) {
    exists i | 0 <= i <= |s| :: OccursAt(s, sub, i)
  }

  predicate HasPrefix(s: string, prefix: string) {
    prefix <= s
  }

  predicate HasSuffix(s: string, suffix: string) {
    |suffix| <= |s| && s[|s| - |suffix|..] == suffix
  }

  /** Byte order of UTF-8 strings, which is code point order. */
  predicate Less(a: string, b: string) {
    b != "" && (a == "" || a[0] < b[0] || (a[0] == b[0] && Less(a[1..], b[1..])))
  }

  lemma {:induction false} LessTotal(a: string, b: string)
    ensures Less(a, b) || a == b || Less(b, a)
    ensures !(Less(a, b) && Less(b, a)) && !Less(a, a)
  {
    if a != "" && b != "" && a[0] == b[0] {
      LessTotal(a[1..], b[1..]);
      assert a == [a[0]] + a[1..] && b == [b[0]] + b[1..];
    }
    if a == "" {
    } else {
      LessIrreflexive(a);
    }
  }

  lemma {:induction false} LessIrreflexive(a: string)
    ensures !Less(a, a)
  {
    if a == "" {
    } else {
      LessIrreflexive(a[1..]);
    }
  }

  lemma {:induction false} LessTransitive(a: string, b: string, c: string)
    requires Less(a, b) && Less(b, c)
    ensures Less(a, c)
  {
    if a == "" || a[0] != b[0] || b[0] != c[0] {
    } else {
      LessTransitive(a[1..], b[1..], c[1..]);
    }
  }

  /** a and b agree on n characters, and then a ends or has the smaller character. */
  predicate Splits(a: string, b: string, n: nat) {
    n <= |a| && n < |b| && a[..n] == b[..n] && (n == |a| || a[n] < b[n])
  }

  lemma SplitsShift(a: string, b: string, n: nat)
    requires a != "" && b != "" && a[0] == b[0]
    ensures Splits(a, b, n + 1) <==> Splits(a[1..], b[1..], n)
  {
    if n + 1 <= |a| && n + 1 <= |b| {
      assert a[..n + 1] == [a[0]] + a[1..][..n] && b[..n + 1] == [b[0]] + b[1..][..n];
      assert a[..n + 1][1..] == a[1..][..n] && b[..n + 1][1..] == b[1..][..n];
    }
  }

  /** The order of a dictionary: after a common beginning the shorter text, or the smaller character, is
      first. */
  lemma {:induction false} LessExactly(a: string, b: string)
    ensures Less(a, b) <==> exists n: nat :: Splits(a, b, n)
  {
    if a == "" || b == "" || a[0] != b[0] {
      assert Less(a, b) ==> Splits(a, b, 0);
      assert forall n: nat | Splits(a, b, n) :: n == 0;
    } else {
      LessExactly(a[1..], b[1..]);
      if n: nat :| Splits(a[1..], b[1..], n) {
        SplitsShift(a, b, n);
      }
      if n: nat :| Splits(a, b, n) {
        SplitsShift(a, b, n - 1);
      }
    }
  }

  predicate KeyChar(c: char) {
    'a' <= c <= 'z' || '0' <= c <= '9' || c == '_' || c == '.' || c == '-'
  }

  /** The pattern ^[a-z][a-z0-9_.-]*$ */
  predicate StableKey(s: string) {
    s != "" && 'a' <= s[0] <= 'z' && forall i | 0 <= i < |s| :: KeyChar(s[i])
  }

  /** A stable key is a small ASCII letter followed by small ASCII letters, digits, and the characters
      hyphen, dot and underscore. */
  lemma StableKeysExactly(s: string)
    ensures StableKey(s) <==>
      && s != "" && 0x61 <= s[0] as int <= 0x7A
      && forall c | c in s ::
           0x61 <= c as int <= 0x7A || 0x30 <= c as int <= 0x39 || c as int in {0x2D, 0x2E, 0x5F}
  {
    assert forall i | 0 <= i < |s| :: s[i] in s;
  }

  const NUL := '\0'

  function Join(a: string, sep: char, b: string): string {
    a + [sep] + b
  }

  /** No first part continues another one across the separator. */
  ghost predicate Separated(firsts: set<string>, sep: char) {
    forall a, c | a in firsts && c in firsts :: !(a + [sep] <= c)
  }

  ghost predicate JoinsApart(firsts: set<string>, sep: char) {
    forall a, b, c, d | a in firsts && c in firsts && Join(a, sep, b) == Join(c, sep, d) :: a == c && b == d
  }

  lemma ShorterFirst(a: string, b: string, c: string, d: string, sep: char)
    requires Join(a, sep, b) == Join(c, sep, d) && |a| < |c|
    ensures a + [sep] <= c
  {
    var s := Join(a, sep, b);
    assert s[..|c|] == c && s[..|a| + 1] == a + [sep];
  }

  lemma JoinInjective(a: string, b: string, c: string, d: string, sep: char)
    requires !(a + [sep] <= c) && !(c + [sep] <= a)
    requires Join(a, sep, b) == Join(c, sep, d)
    ensures a == c && b == d
  {
    if |a| < |c| {
      ShorterFirst(a, b, c, d, sep);
    } else if |c| < |a| {
      ShorterFirst(c, d, a, b, sep);
    } else {
      var s := Join(a, sep, b);
      assert s[..|a|] == a && s[..|c|] == c;
      assert s[|a| + 1..] == b && s[|c| + 1..] == d;
    }
  }

  lemma JoinCollision(a: string, c: string, sep: char) returns (b: string, d: string)
    requires a + [sep] <= c
    ensures Join(a, sep, b) == Join(c, sep, d) && a != c
  {
    var x := c[|a| + 1..];
    b, d := x + [sep], "";
    assert c == a + [sep] + x;
    assert Join(a, sep, b) == c + [sep] == Join(c, sep, d);
    assert |c| > |a|;
  }

  /** Joining with a separator tells all pairs apart exactly when no first part is another one followed by
      the separator and more. */
  lemma JoinsApartExactly(firsts: set<string>, sep: char)
    ensures JoinsApart(firsts, sep) <==> Separated(firsts, sep)
  {
    if JoinsApart(firsts, sep) {
      forall a, c | a in firsts && c in firsts ensures !(a + [sep] <= c) {
        if a + [sep] <= c {
          var b, d := JoinCollision(a, c, sep);
        }
      }
    }
    if Separated(firsts, sep) {
      forall a, b, c, d | a in firsts && c in firsts && Join(a, sep, b) == Join(c, sep, d) ensures a == c && b == d {
        JoinInjective(a, b, c, d, sep);
      }
    }
  }

  lemma HoldsSeparator(a: string, c: string, sep: char)
    requires a + [sep] <= c
    ensures sep in c
  {
    assert c[|a|] == sep;
  }

  /** In particular when the separator occurs in no first part. */
  lemma NoSeparator(a: string, c: string, sep: char)
    requires sep !in c
    ensures !(a + [sep] <= c)
  {
    if a + [sep] <= c {
      HoldsSeparator(a, c, sep);
    }
  }

  /** From the other end: a second part without the separator. */
  lemma JoinInjectiveRight(a: string, b: string, c: string, d: string, sep: char)
    requires sep !in b && sep !in d
    requires Join(a, sep, b) == Join(c, sep, d)
    ensures a == c && b == d
  {
    var s := Join(a, sep, b);
    assert s[|a|] == sep && s[|c|] == sep;
    assert forall i | |a| < i < |s| :: s[i] == b[i - |a| - 1];
    assert forall i | |c| < i < |s| :: s[i] == d[i - |c| - 1];
    assert a == s[..|a|] && c == s[..|c|];
    assert b == s[|a| + 1..] && d == s[|c| + 1..];
  }

  /** Length of the longest prefix whose characters all satisfy p. */
  function Lead(s: string, p: char -> bool): (n: nat)
    ensures n <= |s|
  {
    if s == "" || !p(s[0]) then 0 else 1 + Lead(s[1..], p)
  }

  predicate All(s: string, p: char -> bool) {
    Lead(s, p) == |s|
  }

  lemma {:induction false} LeadExact(x: string, y: string, p: char -> bool)
    requires All(x, p) && (y == "" || !p(y[0]))
    ensures Lead(x + y, p) == |x|
    ensures (x + y)[..|x|] == x && (x + y)[|x|..] == y
  {
    if x == "" {
      assert x + y == y;
    } else {
      assert (x + y)[1..] == x[1..] + y;
      LeadExact(x[1..], y, p);
    }
  }

  lemma {:induction false} LeadIsLongest(s: string, p: char -> bool)
    ensures All(s[..Lead(s, p)], p)
    ensures Lead(s, p) < |s| ==> !p(s[Lead(s, p)])
    ensures s == s[..Lead(s, p)] + s[Lead(s, p)..]
  {
    if s == "" || !p(s[0]) {
    } else {
      LeadIsLongest(s[1..], p);
      assert s[..Lead(s, p)][1..] == s[1..][..Lead(s[1..], p)];
    }
  }

  lemma {:induction false} AllMeansEach(s: string, p: char -> bool)
    ensures All(s, p) <==> forall i | 0 <= i < |s| :: p(s[i])
  {
    if s == "" {
    } else {
      AllMeansEach(s[1..], p);
      assert forall i | 1 <= i < |s| :: s[i] == s[1..][i - 1];
    }
  }

  lemma Associates<T>(a: seq<T>, b: seq<T>, c: seq<T>)
    ensures a + b + c == a + (b + c)
  {
  }

  function LowerChar(c: char): char {
    if 'A' <= c <= 'Z' then (c as int + 32) as char else c
  }

  /** Only the 26 ASCII capitals change. */
  lemma LowerExactly(c: char)
    ensures LowerChar(c) as int == c as int + if 0x41 <= c as int <= 0x5A then 0x20 else 0
  {
  }

  function Lower(s: string): string {
    seq(|s|, i requires 0 <= i < |s| => LowerChar(s[i]))
  }
}
