/** The fallbacks of a template (contract/template_validation.go 214-232). */
module TemplateFallbacks {
  import opened Text
  import opened Tables
  import opened Models
  import opened TemplateErrors

  const FALLBACK_LIMIT := 5

  /** A fallback with its texts trimmed. */
  function Tuple(f: Fallback): Fallback {
    Fallback(TrimSpace(f.templateKey), TrimSpace(f.connectorKey), TrimSpace(f.connectionKey), TrimSpace(f.operation))
  }

  /** The comparison with the template's key is made on the key as it is written. */
  predicate FallbackOk(key: string, f: Fallback) {
    var t := Tuple(f);
    && t.templateKey != key && StableKey(t.templateKey) && StableKey(t.connectorKey)
    && t.connectionKey != "" && t.operation != ""
  }

  /** The string by which duplicates are recognised. */
  function Identity(f: Fallback): string {
    var t := Tuple(f);
    Join(t.connectorKey, NUL, Join(Join(t.connectionKey, NUL, t.operation), NUL, t.templateKey))
  }

  /** Same connector and target, and connection and operation joined give the same text. */
  predicate SameIdentity(f: Fallback, g: Fallback) {
    var t, u := Tuple(f), Tuple(g);
    && t.connectorKey == u.connectorKey && t.templateKey == u.templateKey
    && Join(t.connectionKey, NUL, t.operation) == Join(u.connectionKey, NUL, u.operation)
  }

  lemma StableKeyHasNoNul(s: string)
    requires StableKey(s)
    ensures NUL !in s
  {
    forall c | c in s ensures KeyChar(c) {
      var i :| 0 <= i < |s| && s[i] == c;
    }
  }

  /** On valid fallbacks the encoding keeps connector and target apart from the rest. */
  lemma IdentityIs(key: string, f: Fallback, g: Fallback)
    requires FallbackOk(key, f) && FallbackOk(key, g)
    ensures Identity(f) == Identity(g) <==> SameIdentity(f, g)
  {
    var t, u := Tuple(f), Tuple(g);
    StableKeyHasNoNul(t.connectorKey);
    StableKeyHasNoNul(u.connectorKey);
    StableKeyHasNoNul(t.templateKey);
    StableKeyHasNoNul(u.templateKey);
    if Identity(f) == Identity(g) {
      var x, y := Join(t.connectionKey, NUL, t.operation), Join(u.connectionKey, NUL, u.operation);
      NoSeparator(t.connectorKey, u.connectorKey, NUL);
      NoSeparator(u.connectorKey, t.connectorKey, NUL);
      JoinInjective(t.connectorKey, Join(x, NUL, t.templateKey), u.connectorKey, Join(y, NUL, u.templateKey), NUL);
      JoinInjectiveRight(x, t.templateKey, y, u.templateKey, NUL);
    }
  }

  /** c is a followed by a NUL and a text that is empty or starts with no white space. */
  predicate NulExtends(a: string, c: string) {
    a + [NUL] <= c && (|c| == |a| + 1 || !IsSpace(c[|a| + 1]))
  }

  lemma LongerConnection(a: string, o: string, c: string, p: string)
    requires Join(a, NUL, o) == Join(c, NUL, p) && |a| < |c| && Trimmed(o) && o != ""
    ensures NulExtends(a, c)
  {
    ShorterFirst(a, o, c, p, NUL);
    var s := Join(a, NUL, o);
    if |c| > |a| + 1 {
      assert s[|a| + 1] == o[0] && s[|a| + 1] == c[|a| + 1];
    }
  }

  lemma PartsApart(a: string, o: string, c: string, p: string)
    requires Join(a, NUL, o) == Join(c, NUL, p) && Trimmed(o) && o != "" && Trimmed(p) && p != ""
    requires !NulExtends(a, c) && !NulExtends(c, a)
    ensures a == c && o == p
  {
    if |a| < |c| {
      LongerConnection(a, o, c, p);
    } else if |c| < |a| {
      LongerConnection(c, p, a, o);
    } else {
      var s := Join(a, NUL, o);
      assert s[..|a|] == a && s[..|c|] == c && s[|a| + 1..] == o && s[|c| + 1..] == p;
    }
  }

  lemma TupleParts(f: Fallback)
    ensures Trimmed(Tuple(f).connectionKey) && Trimmed(Tuple(f).operation)
  {
    TrimIdempotent(f.connectionKey);
    TrimIdempotent(f.operation);
  }

  /** Valid fallbacks of a template with this key and with these connections. */
  predicate Over(key: string, connections: set<string>, f: Fallback) {
    FallbackOk(key, f) && Tuple(f).connectionKey in connections
  }

  ghost predicate IdentifiesTuples(key: string, connections: set<string>) {
    forall f, g | Over(key, connections, f) && Over(key, connections, g) && Identity(f) == Identity(g) ::
      Tuple(f) == Tuple(g)
  }

  lemma Collision(key: string, connections: set<string>, a: string, c: string) returns (f: Fallback, g: Fallback)
    requires a in connections && c in connections && NulExtends(a, c)
    requires a != "" && Trimmed(a) && Trimmed(c)
    ensures Over(key, connections, f) && Over(key, connections, g) && Identity(f) == Identity(g) && Tuple(f) != Tuple(g)
  {
    var x := c[|a| + 1..];
    var target := if key == "t" then "u" else "t";
    var o := x + [NUL] + "o";
    f, g := Fallback(target, "k", a, o), Fallback(target, "k", c, "o");
    TrimOfTrimmed(target);
    TrimOfTrimmed("k");
    TrimOfTrimmed(a);
    TrimOfTrimmed(c);
    TrimOfTrimmed("o");
    assert o[0] == if x == "" then NUL else x[0];
    TrimOfTrimmed(o);
    assert c == a + [NUL] + x;
    assert Join(a, NUL, o) == Join(c, NUL, "o");
    assert |a| < |c|;
  }

  /** The identity stands for all four trimmed parts exactly when none of the connections in use extends
      another one across a NUL; without NULs in connections it always does. */
  lemma IdentityIsTupleExactly(key: string, connections: set<string>)
    requires forall c | c in connections :: c != "" && Trimmed(c)
    ensures IdentifiesTuples(key, connections) <==>
      forall a, c | a in connections && c in connections :: !NulExtends(a, c)
    ensures (forall c | c in connections :: NUL !in c) ==> IdentifiesTuples(key, connections)
  {
    if IdentifiesTuples(key, connections) {
      forall a, c | a in connections && c in connections ensures !NulExtends(a, c) {
        if NulExtends(a, c) {
          var f, g := Collision(key, connections, a, c);
        }
      }
    }
    if forall a, c | a in connections && c in connections :: !NulExtends(a, c) {
      forall f, g | Over(key, connections, f) && Over(key, connections, g) && Identity(f) == Identity(g)
        ensures Tuple(f) == Tuple(g)
      {
        SameTuple(key, f, g);
      }
    }
    forall a, c | a in connections && c in connections && NUL !in c ensures !NulExtends(a, c) {
      NoSeparator(a, c, NUL);
    }
  }

  lemma SameTuple(key: string, f: Fallback, g: Fallback)
    requires FallbackOk(key, f) && FallbackOk(key, g) && Identity(f) == Identity(g)
    requires !NulExtends(Tuple(f).connectionKey, Tuple(g).connectionKey)
      && !NulExtends(Tuple(g).connectionKey, Tuple(f).connectionKey)
    ensures Tuple(f) == Tuple(g)
  {
    IdentityIs(key, f, g);
    TupleParts(f);
    TupleParts(g);
    PartsApart(Tuple(f).connectionKey, Tuple(f).operation, Tuple(g).connectionKey, Tuple(g).operation);
  }

  // ---- the check ----

  /** An earlier fallback has the same identity. */
  ghost predicate Repeats(fallbacks: seq<Fallback>, i: nat)
    requires i < |fallbacks|
  {
    exists j | 0 <= j < i :: SameIdentity(fallbacks[j], fallbacks[i])
  }

  ghost predicate FallbackGood(t: Template, i: nat)
    requires i < |t.fallbacks|
  {
    FallbackOk(t.key, t.fallbacks[i]) && !Repeats(t.fallbacks, i)
  }

  ghost predicate PrefixGood(t: Template, n: nat)
    requires n <= |t.fallbacks|
  {
    forall i | 0 <= i < n :: FallbackGood(t, i)
  }

  ghost predicate FallbacksOk(t: Template) {
    |t.fallbacks| <= FALLBACK_LIMIT && PrefixGood(t, |t.fallbacks|)
  }

  /** e reports the first bad fallback, or that there are too many. */
  ghost predicate FallbackError(t: Template, e: TemplateError) {
    if |t.fallbacks| > FALLBACK_LIMIT then e == FallbackLimitExceeded(t.key)
    else exists i | 0 <= i < |t.fallbacks| ::
      && PrefixGood(t, i) && !FallbackGood(t, i)
      && e == if FallbackOk(t.key, t.fallbacks[i]) then FallbackDuplicate(t.key) else FallbackInvalid(t.key)
  }

  function Identities(fallbacks: seq<Fallback>): set<string> {
    set f | f in fallbacks :: Identity(f)
  }

  lemma IdentitiesNext(t: Template, i: nat)
    requires i < |t.fallbacks| && FallbackOk(t.key, t.fallbacks[i])
    requires PrefixGood(t, i)
    ensures Identity(t.fallbacks[i]) in Identities(t.fallbacks[..i]) <==> Repeats(t.fallbacks, i)
    ensures Identities(t.fallbacks[..i + 1]) == Identities(t.fallbacks[..i]) + {Identity(t.fallbacks[i])}
  {
    hide FallbackOk, SameIdentity, Identity;
    assert t.fallbacks[..i + 1] == t.fallbacks[..i] + [t.fallbacks[i]];
    forall j | 0 <= j < i
      ensures Identity(t.fallbacks[j]) == Identity(t.fallbacks[i]) <==> SameIdentity(t.fallbacks[j], t.fallbacks[i])
      ensures Identity(t.fallbacks[j]) in Identities(t.fallbacks[..i])
    {
      assert FallbackGood(t, j);
      IdentityIs(t.key, t.fallbacks[j], t.fallbacks[i]);
      assert t.fallbacks[..i][j] in t.fallbacks[..i];
    }
  }

  lemma BadAt(t: Template, i: nat)
    requires i < |t.fallbacks| <= FALLBACK_LIMIT && PrefixGood(t, i) && !FallbackGood(t, i)
    ensures !FallbacksOk(t)
    ensures FallbackError(t,
      if FallbackOk(t.key, t.fallbacks[i]) then FallbackDuplicate(t.key) else FallbackInvalid(t.key))
  {
  }

  lemma GoodAt(t: Template, i: nat)
    requires i < |t.fallbacks| && PrefixGood(t, i) && FallbackGood(t, i)
    ensures PrefixGood(t, i + 1)
  {
  }

  method ValidateTemplateFallbacks(value: Template) returns (err: Option<TemplateError>)
    ensures err.None? <==> FallbacksOk(value)
    ensures err.Some? ==> FallbackError(value, err.value)
  {
    if |value.fallbacks| > FALLBACK_LIMIT {
      return Some(FallbackLimitExceeded(value.key));
    }
    var seen: set<string> := {};
    assert Identities(value.fallbacks[..0]) == {} && PrefixGood(value, 0);
    var i := 0;
    while i < |value.fallbacks|
      invariant 0 <= i <= |value.fallbacks|
      invariant PrefixGood(value, i)
      invariant seen == Identities(value.fallbacks[..i])
    {
      hide Identity, SameIdentity, Repeats, Identities, StableKey, TrimSpace, PrefixGood, FallbacksOk, FallbackError;
      var fallback := value.fallbacks[i];
      var target, connector := TrimSpace(fallback.templateKey), TrimSpace(fallback.connectorKey);
      var connection, operation := TrimSpace(fallback.connectionKey), TrimSpace(fallback.operation);
      if target == value.key || !StableKey(target) || !StableKey(connector) || connection == "" || operation == "" {
        assert !FallbackOk(value.key, fallback);
        BadAt(value, i);
        return Some(FallbackInvalid(value.key));
      }
      assert FallbackOk(value.key, fallback);
      var identity := connector + [NUL] + connection + [NUL] + operation + [NUL] + target;
      IdentityText(fallback);
      IdentitiesNext(value, i);
      if identity in seen {
        BadAt(value, i);
        return Some(FallbackDuplicate(value.key));
      }
      GoodAt(value, i);
      seen := seen + {identity};
      i := i + 1;
    }
    return None;
  }

  lemma IdentityText(f: Fallback)
    ensures var t := Tuple(f);
      Identity(f) == t.connectorKey + [NUL] + t.connectionKey + [NUL] + t.operation + [NUL] + t.templateKey
  {
    var t := Tuple(f);
    Associates(t.connectorKey + [NUL], t.connectionKey + [NUL] + t.operation, [NUL] + t.templateKey);
  }

  // ---- the same answer as a table of checks on the fallbacks as they are written ----

  /** The text by which a fallback is recognised. */
  function Label(f: Fallback): string {
    TrimSpace(f.connectorKey) + "\0" + TrimSpace(f.connectionKey) + "\0" + TrimSpace(f.operation) + "\0"
      + TrimSpace(f.templateKey)
  }

  /** What fallback i must meet. */
  ghost function EntryChecks(t: Template, i: nat): seq<Line<TemplateError>>
    requires i < |t.fallbacks|
  {
    var f := t.fallbacks[i];
    [ Line(
        && TrimSpace(f.templateKey) != t.key && StableKey(TrimSpace(f.templateKey))
        && StableKey(TrimSpace(f.connectorKey)) && !Blank(f.connectionKey) && !Blank(f.operation),
        FallbackInvalid(t.key)),
      Line(forall j | 0 <= j < i :: Label(t.fallbacks[j]) != Label(f), FallbackDuplicate(t.key)) ]
  }

  ghost function FallbackChecks(t: Template): seq<Line<TemplateError>> {
    [ Line(|t.fallbacks| <= 5, FallbackLimitExceeded(t.key)) ]
    + Chain(seq(|t.fallbacks|, i requires 0 <= i < |t.fallbacks| => EntryChecks(t, i)))
  }

  lemma LabelIsIdentity(f: Fallback)
    ensures Label(f) == Identity(f)
  {
    hide TrimSpace;
    IdentityText(f);
    assert [NUL] == "\0";
  }

  lemma LabelRepeats(t: Template, i: nat)
    requires i < |t.fallbacks| && PrefixGood(t, i) && FallbackOk(t.key, t.fallbacks[i])
    ensures Repeats(t.fallbacks, i) <==> exists j | 0 <= j < i :: Label(t.fallbacks[j]) == Label(t.fallbacks[i])
  {
    hide FallbackOk, SameIdentity, Identity, Label;
    LabelIsIdentity(t.fallbacks[i]);
    forall j | 0 <= j < i
      ensures Label(t.fallbacks[j]) == Label(t.fallbacks[i]) <==> SameIdentity(t.fallbacks[j], t.fallbacks[i])
    {
      LabelIsIdentity(t.fallbacks[j]);
      assert FallbackGood(t, j);
      IdentityIs(t.key, t.fallbacks[j], t.fallbacks[i]);
    }
  }

  /** Once those before it pass, a fallback is refused for the first line of its table that it does not
      meet. */
  lemma EntryTable(t: Template, i: nat)
    requires i < |t.fallbacks| && PrefixGood(t, i)
    ensures Decides(EntryChecks(t, i),
      if FallbackGood(t, i) then None
      else Some(if FallbackOk(t.key, t.fallbacks[i]) then FallbackDuplicate(t.key) else FallbackInvalid(t.key)))
  {
    var checks := EntryChecks(t, i);
    assert checks[0].passes <==> FallbackOk(t.key, t.fallbacks[i]);
    if !FallbackOk(t.key, t.fallbacks[i]) {
      assert FailsFirst(checks, 0);
    } else {
      LabelRepeats(t, i);
      hide FallbackOk, Label, PrefixGood, StableKey, TrimSpace;
      if !FallbackGood(t, i) {
        assert FailsFirst(checks, 1);
      }
    }
  }

  lemma LimitPasses(head: seq<Line<TemplateError>>, t: Template)
    requires head == [ Line(|t.fallbacks| <= 5, FallbackLimitExceeded(t.key)) ] && |t.fallbacks| <= 5
    ensures Decides(head, None)
  {
  }

  /** Fallbacks are refused for the first line of their tables that is not met: too many first. */
  lemma FallbackTable(t: Template, err: Option<TemplateError>)
    requires if err.None? then FallbacksOk(t) else FallbackError(t, err.value)
    ensures Decides(FallbackChecks(t), err)
  {
    hide EntryChecks, FallbackGood, FallbackOk;
    var head: seq<Line<TemplateError>> := [ Line(|t.fallbacks| <= 5, FallbackLimitExceeded(t.key)) ];
    var tables := seq(|t.fallbacks|, i requires 0 <= i < |t.fallbacks| => EntryChecks(t, i));
    if |t.fallbacks| > 5 {
      assert FailsFirst(head, 0);
      DecidedEarly(head, Chain(tables), err);
    } else {
      var n := |t.fallbacks|;
      if err.Some? {
        n :| 0 <= n < |t.fallbacks| && PrefixGood(t, n) && !FallbackGood(t, n)
          && err.value ==
            if FallbackOk(t.key, t.fallbacks[n]) then FallbackDuplicate(t.key) else FallbackInvalid(t.key);
      }
      hide Decides, Chain;
      forall i | 0 <= i < n ensures Decides(tables[i], None) {
        assert PrefixGood(t, i) && FallbackGood(t, i);
        EntryTable(t, i);
      }
      if n < |t.fallbacks| {
        EntryTable(t, n);
      }
      ChainDecides(tables, n, err);
      LimitPasses(head, t);
      DecidesConcat(head, Chain(tables), None, err);
    }
  }

  /** The trimmed four-part fallbacks of an accepted template are pairwise distinct. */
  lemma AcceptedFallbacksDistinct(t: Template, i: nat, j: nat)
    requires FallbacksOk(t) && i < j < |t.fallbacks|
    ensures Tuple(t.fallbacks[i]) != Tuple(t.fallbacks[j])
  {
    assert FallbackGood(t, j) && !SameIdentity(t.fallbacks[i], t.fallbacks[j]);
  }

  /** A duplicate is reported only when two fallbacks are equal in all four trimmed parts, unless a
      connection extends another one across a NUL. */
  lemma DuplicatesAreEqual(t: Template)
    ensures FallbackError(t, FallbackDuplicate(t.key)) && ConnectionsApart(t.fallbacks) ==>
      exists i, j | 0 <= i < j < |t.fallbacks| :: Tuple(t.fallbacks[i]) == Tuple(t.fallbacks[j])
  {
    hide NulExtends, FallbackOk, SameIdentity, Identity, Tuple;
    if FallbackError(t, FallbackDuplicate(t.key)) && ConnectionsApart(t.fallbacks) {
      var j :| 0 <= j < |t.fallbacks| && PrefixGood(t, j) && !FallbackGood(t, j) && FallbackOk(t.key, t.fallbacks[j]);
      var i :| 0 <= i < j && SameIdentity(t.fallbacks[i], t.fallbacks[j]);
      assert FallbackGood(t, i);
      IdentityIs(t.key, t.fallbacks[i], t.fallbacks[j]);
      SameTuple(t.key, t.fallbacks[i], t.fallbacks[j]);
    }
  }

  /** No connection in use extends another one across a NUL. */
  ghost predicate ConnectionsApart(fallbacks: seq<Fallback>) {
    forall i, j | 0 <= i < |fallbacks| && 0 <= j < |fallbacks| ::
      !NulExtends(Tuple(fallbacks[i]).connectionKey, Tuple(fallbacks[j]).connectionKey)
  }
}
