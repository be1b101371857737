/** Validation of one template and of a batch (contract/template_validation.go 114-191). */
module Templates {
  import opened Text
  import opened Tables
  import opened Models
  import opened TemplateErrors
  import opened Enumerations
  import C = TemplateContents
  import F = TemplateFallbacks
  import R = TemplateCapabilities
  import TemplateTokens

  // ---- sorted locales ----

  ghost predicate Sorted(s: seq<string>) {
    forall i, j | 0 <= i < j < |s| :: !Less(s[j], s[i])
  }

  function Insert(s: seq<string>, x: string): seq<string> {
    if s == [] || !Less(s[0], x) then [x] + s else [s[0]] + Insert(s[1..], x)
  }

  lemma {:induction false} InsertIsPermutation(s: seq<string>, x: string)
    ensures multiset(Insert(s, x)) == multiset(s) + multiset{x}
  {
    if s == [] {
    } else {
      InsertIsPermutation(s[1..], x);
      assert s == [s[0]] + s[1..];
    }
  }

  lemma SortedCons(x: string, s: seq<string>)
    requires Sorted(s) && forall y | y in s :: !Less(y, x)
    ensures Sorted([x] + s)
  {
  }

  lemma {:induction false} InsertSorted(s: seq<string>, x: string)
    requires Sorted(s)
    ensures Sorted(Insert(s, x))
  {
    if s == [] {
    } else if Less(s[0], x) {
      InsertSorted(s[1..], x);
      InsertIsPermutation(s[1..], x);
      forall y | y in Insert(s[1..], x) ensures !Less(y, s[0]) {
        assert y in multiset(Insert(s[1..], x));
        LessTotal(s[0], x);
      }
      SortedCons(s[0], Insert(s[1..], x));
    } else {
      forall y | y in s ensures !Less(y, x) {
        NotLessTrans(x, s, y);
      }
      SortedCons(x, s);
    }
  }

  lemma NotLessTrans(x: string, s: seq<string>, y: string)
    requires Sorted(s) && s != [] && !Less(s[0], x) && y in s
    ensures !Less(y, x)
  {
    if Less(y, x) {
      LessTotal(s[0], y);
      LessTotal(s[0], x);
      if Less(s[0], y) {
        LessTransitive(s[0], y, x);
      }
    }
  }

  /** sort.Strings */
  method SortStrings(s: seq<string>) returns (sorted: seq<string>)
    ensures Sorted(sorted) && multiset(sorted) == multiset(s)
  {
    sorted := [];
    var i := 0;
    while i < |s|
      invariant 0 <= i <= |s|
      invariant Sorted(sorted) && multiset(sorted) == multiset(s[..i])
    {
      InsertSorted(sorted, s[i]);
      InsertIsPermutation(sorted, s[i]);
      assert s[..i + 1] == s[..i] + [s[i]];
      sorted := Insert(sorted, s[i]);
      i := i + 1;
    }
    assert s[..i] == s;
  }

  /** The keys of the locale map in the order in which Go happens to visit it. */
  method LocalesOf(locales: map<string, TemplateContent>) returns (order: seq<string>)
    ensures Enumerates(order, locales.Keys)
  {
    order := [];
    var left := locales.Keys;
    while left != {}
      invariant left <= locales.Keys && Enumerates(order, locales.Keys - left)
    {
      var locale :| locale in left;
      order, left := order + [locale], left - {locale};
    }
  }

  // ---- the verdict on one template ----

  type Capabilities = Option<R.Registry>

  function EntryOf(caps: Capabilities, t: Template): Option<C.Entry> {
    if caps.None? then None else R.Resolve(caps.value, t.channel, t.provider)
  }

  function HeadError(caps: Capabilities, t: Template): Option<TemplateError> {
    if caps.None? then Some(Unconfigured)
    else if !StableKey(TrimSpace(t.key)) then Some(KeyInvalid(t.key))
    else if Blank(t.name) then Some(NameRequired(t.key))
    else if EntryOf(caps, t).None? then Some(ProviderUnsupported(TrimSpace(t.channel), TrimSpace(t.provider)))
    else if TrimSpace(t.status) != "published" then Some(StatusInvalid(t.status))
    else if t.version < 1 then Some(VersionInvalid(t.key))
    else if Blank(t.defaultLocale) then Some(DefaultLocaleRequired(t.key))
    else if t.locales == map[] then Some(LocalesRequired(t.key))
    else if TrimSpace(t.defaultLocale) !in t.locales then Some(DefaultLocaleMissing(t.key, TrimSpace(t.defaultLocale)))
    else None
  }

  predicate HeadOk(caps: Capabilities, t: Template) {
    && StableKey(TrimSpace(t.key)) && !Blank(t.name) && EntryOf(caps, t).Some?
    && TrimSpace(t.status) == "published" && t.version >= 1
    && !Blank(t.defaultLocale) && TrimSpace(t.defaultLocale) in t.locales
  }

  /** The failure of one locale, once the checks before it have passed. */
  function LocaleError(caps: Capabilities, t: Template, locale: string): Option<TemplateError>
    requires EntryOf(caps, t).Some? && locale in t.locales
  {
    C.ContentError(t, locale, t.locales[locale], C.VariableKeys(t.variables), EntryOf(caps, t).value)
  }

  /** err is the failure of the lexicographically least failing locale. */
  ghost predicate LeastFailing(caps: Capabilities, t: Template, err: Option<TemplateError>)
    requires EntryOf(caps, t).Some?
  {
    if err.None? then forall locale | locale in t.locales :: LocaleError(caps, t, locale).None?
    else exists locale | locale in t.locales ::
      && LocaleError(caps, t, locale) == err
      && forall other | other in t.locales && Less(other, locale) :: LocaleError(caps, t, other).None?
  }

  /** What validation answers. */
  ghost predicate Verdict(caps: Capabilities, t: Template, err: Option<TemplateError>) {
    if HeadError(caps, t).Some? then err == HeadError(caps, t)
    else if !C.VariablesOk(t.variables) then err.Some? && exists i :: C.FirstVariableError(t, i, err.value)
    else if !F.FallbacksOk(t) then err.Some? && F.FallbackError(t, err.value)
    else LeastFailing(caps, t, err)
  }

  /** What an accepted template is. */
  ghost predicate Acceptable(caps: Capabilities, t: Template) {
    && HeadOk(caps, t) && C.VariablesOk(t.variables) && F.FallbacksOk(t)
    && forall locale | locale in t.locales ::
         C.ContentOk(locale, t.locales[locale], C.VariableKeys(t.variables), EntryOf(caps, t).value)
  }

  lemma HeadErrorNone(caps: Capabilities, t: Template)
    ensures HeadError(caps, t).None? <==> HeadOk(caps, t)
  {
  }

  /** A template is accepted exactly when it is acceptable. */
  lemma AcceptedIffAcceptable(caps: Capabilities, t: Template)
    ensures Verdict(caps, t, None) <==> Acceptable(caps, t)
  {
    HeadErrorNone(caps, t);
    if HeadOk(caps, t) {
      forall locale | locale in t.locales
        ensures LocaleError(caps, t, locale).None? <==>
          C.ContentOk(locale, t.locales[locale], C.VariableKeys(t.variables), EntryOf(caps, t).value)
      {
        C.ContentFailsIffNotOk(t, locale, t.locales[locale], C.VariableKeys(t.variables), EntryOf(caps, t).value);
      }
    }
  }

  lemma LeastFailingUnique(caps: Capabilities, t: Template, a: Option<TemplateError>, b: Option<TemplateError>)
    requires EntryOf(caps, t).Some?
    ensures LeastFailing(caps, t, a) && LeastFailing(caps, t, b) ==> a == b
  {
    hide LocaleError;
    if LeastFailing(caps, t, a) && LeastFailing(caps, t, b) && a.Some? && b.Some? {
      var l :| l in t.locales && LocaleError(caps, t, l) == a
        && forall other | other in t.locales && Less(other, l) :: LocaleError(caps, t, other).None?;
      var m :| m in t.locales && LocaleError(caps, t, m) == b
        && forall other | other in t.locales && Less(other, m) :: LocaleError(caps, t, other).None?;
      LessTotal(l, m);
    }
  }

  lemma FirstVariableErrorUnique(t: Template, i: nat, j: nat, a: TemplateError, b: TemplateError)
    requires C.FirstVariableError(t, i, a) && C.FirstVariableError(t, j, b)
    ensures a == b
  {
    assert i == j;
  }

  lemma FallbackErrorUnique(t: Template, a: TemplateError, b: TemplateError)
    requires F.FallbackError(t, a) && F.FallbackError(t, b)
    ensures a == b
  {
    hide F.FallbackOk, F.FallbackGood;
    if |t.fallbacks| <= F.FALLBACK_LIMIT {
      var i :| 0 <= i < |t.fallbacks| && F.PrefixGood(t, i) && !F.FallbackGood(t, i)
        && a == if F.FallbackOk(t.key, t.fallbacks[i]) then FallbackDuplicate(t.key) else FallbackInvalid(t.key);
      var j :| 0 <= j < |t.fallbacks| && F.PrefixGood(t, j) && !F.FallbackGood(t, j)
        && b == if F.FallbackOk(t.key, t.fallbacks[j]) then FallbackDuplicate(t.key) else FallbackInvalid(t.key);
      assert i == j;
    }
  }

  /** Validation is a function of the template and the capabilities: whatever order the locale map is
      visited in, there is only one answer. */
  lemma VerdictUnique(caps: Capabilities, t: Template, a: Option<TemplateError>, b: Option<TemplateError>)
    ensures Verdict(caps, t, a) && Verdict(caps, t, b) ==> a == b
  {
    HeadErrorNone(caps, t);
    if HeadOk(caps, t) && Verdict(caps, t, a) && Verdict(caps, t, b) {
      if !C.VariablesOk(t.variables) {
        var i :| C.FirstVariableError(t, i, a.value);
        var j :| C.FirstVariableError(t, j, b.value);
        FirstVariableErrorUnique(t, i, j, a.value, b.value);
      } else if !F.FallbacksOk(t) {
        FallbackErrorUnique(t, a.value, b.value);
      } else {
        LeastFailingUnique(caps, t, a, b);
      }
    }
  }

  // ---- locales in ascending order ----

  /** sorted lists the locales of t in ascending order. */
  ghost predicate Lists(sorted: seq<string>, t: Template) {
    Sorted(sorted) && forall l :: l in sorted <==> l in t.locales
  }

  lemma SortedLocales(t: Template, order: seq<string>, sorted: seq<string>)
    requires Enumerates(order, t.locales.Keys) && multiset(sorted) == multiset(order) && Sorted(sorted)
    ensures Lists(sorted, t)
  {
    forall l ensures l in sorted <==> l in t.locales {
      assert l in sorted <==> l in multiset(sorted);
      assert l in order <==> l in multiset(order);
    }
  }

  ghost predicate PassBefore(caps: Capabilities, t: Template, sorted: seq<string>, n: nat)
    requires EntryOf(caps, t).Some? && n <= |sorted|
  {
    forall j | 0 <= j < n :: sorted[j] in t.locales && LocaleError(caps, t, sorted[j]).None?
  }

  lemma LocaleFailsFirst(caps: Capabilities, t: Template, sorted: seq<string>, i: nat)
    requires EntryOf(caps, t).Some? && Lists(sorted, t) && i < |sorted| && PassBefore(caps, t, sorted, i)
    requires sorted[i] in t.locales && LocaleError(caps, t, sorted[i]).Some?
    ensures LeastFailing(caps, t, LocaleError(caps, t, sorted[i]))
  {
    hide LocaleError;
    forall other | other in t.locales && Less(other, sorted[i]) ensures LocaleError(caps, t, other).None? {
      var j :| 0 <= j < |sorted| && sorted[j] == other;
      if j == i {
        LessIrreflexive(other);
      }
    }
  }

  lemma NoneFails(caps: Capabilities, t: Template, sorted: seq<string>)
    requires EntryOf(caps, t).Some? && Lists(sorted, t) && PassBefore(caps, t, sorted, |sorted|)
    ensures LeastFailing(caps, t, None)
  {
    hide LocaleError;
    forall locale | locale in t.locales ensures LocaleError(caps, t, locale).None? {
      var j :| 0 <= j < |sorted| && sorted[j] == locale;
    }
  }

  lemma NextLocale(t: Template, sorted: seq<string>, i: nat)
    requires Lists(sorted, t) && i < |sorted|
    ensures sorted[i] in t.locales
  {
    assert sorted[i] in sorted;
  }

  lemma PassNext(caps: Capabilities, t: Template, sorted: seq<string>, i: nat)
    requires EntryOf(caps, t).Some? && i < |sorted| && PassBefore(caps, t, sorted, i)
    requires sorted[i] in t.locales && LocaleError(caps, t, sorted[i]).None?
    ensures PassBefore(caps, t, sorted, i + 1)
  {
    hide LocaleError;
  }

  // ---- the same answer as a table of checks on the template as it is written ----

  /** What the head of a template must meet. */
  ghost function HeadChecks(caps: Capabilities, t: Template): seq<Line<TemplateError>> {
    var channel, provider, locale := TrimSpace(t.channel), TrimSpace(t.provider), TrimSpace(t.defaultLocale);
    [ Line(caps.Some?, Unconfigured),
      Line(StableKey(TrimSpace(t.key)), KeyInvalid(t.key)),
      Line(!Blank(t.name), NameRequired(t.key)),
      Line(caps.Some? ==> channel + "/" + provider in caps.value, ProviderUnsupported(channel, provider)),
      Line(TrimSpace(t.status) == "published", StatusInvalid(t.status)),
      Line(t.version > 0, VersionInvalid(t.key)),
      Line(locale != "", DefaultLocaleRequired(t.key)),
      Line(t.locales != map[], LocalesRequired(t.key)),
      Line(locale in t.locales, DefaultLocaleMissing(t.key, locale)) ]
  }

  /** The registered entry of the template's channel and provider. */
  function Registration(caps: Capabilities, t: Template): C.Entry
    requires EntryOf(caps, t).Some?
  {
    caps.value[TrimSpace(t.channel) + "/" + TrimSpace(t.provider)]
  }

  ghost function VariableTables(t: Template): seq<Line<TemplateError>> {
    Chain(seq(|t.variables|, i requires 0 <= i < |t.variables| => C.VariableChecks(t.key, t.variables, i)))
  }

  /** The contents, locale by locale. */
  ghost function LocaleTables(t: Template, entry: C.Entry, sorted: seq<string>): seq<Line<TemplateError>>
    requires forall l | l in sorted :: l in t.locales
  {
    var declared := set v | v in t.variables :: TrimSpace(v.key);
    Chain(seq(|sorted|, i requires 0 <= i < |sorted| =>
      (Member(sorted, i); C.ContentChecks(t, sorted[i], t.locales[sorted[i]], declared, entry))))
  }

  lemma Member(s: seq<string>, i: nat)
    requires i < |s|
    ensures s[i] in s
  {
  }

  /** Everything, with the locales in ascending order: the head, the variables, the fallbacks, the contents. */
  ghost function TemplateChecks(caps: Capabilities, t: Template, sorted: seq<string>): seq<Line<TemplateError>>
    requires forall l | l in sorted :: l in t.locales
  {
    HeadChecks(caps, t)
    + (VariableTables(t)
       + (F.FallbackChecks(t)
          + if EntryOf(caps, t).Some? then LocaleTables(t, Registration(caps, t), sorted) else []))
  }

  lemma EntryExactly(caps: Capabilities, t: Template)
    requires caps.Some?
    ensures EntryOf(caps, t).Some? <==> TrimSpace(t.channel) + "/" + TrimSpace(t.provider) in caps.value
    ensures EntryOf(caps, t).Some? ==> EntryOf(caps, t).value == Registration(caps, t)
  {
    hide TrimSpace;
  }

  lemma HeadTable(caps: Capabilities, t: Template)
    ensures Decides(HeadChecks(caps, t), HeadError(caps, t))
  {
    var checks := HeadChecks(caps, t);
    if caps.None? {
      assert FailsFirst(checks, 0);
    } else {
      EntryExactly(caps, t);
      hide StableKey, TrimSpace, R.Resolve, R.CapabilityKey;
      if !StableKey(TrimSpace(t.key)) {
        assert FailsFirst(checks, 1);
      } else if Blank(t.name) {
        assert FailsFirst(checks, 2);
      } else if EntryOf(caps, t).None? {
        assert FailsFirst(checks, 3);
      } else if TrimSpace(t.status) != "published" {
        assert FailsFirst(checks, 4);
      } else if t.version < 1 {
        assert FailsFirst(checks, 5);
      } else if Blank(t.defaultLocale) {
        assert FailsFirst(checks, 6);
      } else if t.locales == map[] {
        assert FailsFirst(checks, 7);
      } else if TrimSpace(t.defaultLocale) !in t.locales {
        assert FailsFirst(checks, 8);
      }
    }
  }

  lemma VariablesTable(t: Template, n: nat, err: Option<TemplateError>)
    requires n <= |t.variables| && (err.None? <==> n == |t.variables|)
    requires forall i | 0 <= i < n :: C.VariableOk(t.variables, i)
    requires n < |t.variables| ==> C.FirstVariableError(t, n, err.value)
    ensures Decides(VariableTables(t), err)
  {
    hide C.VariableOk, C.VariableChecks, C.VariableError, Decides, Chain;
    var tables := seq(|t.variables|, i requires 0 <= i < |t.variables| => C.VariableChecks(t.key, t.variables, i));
    forall i | 0 <= i < n ensures Decides(tables[i], None) {
      C.VariableTable(t.key, t.variables, i);
    }
    if n < |t.variables| {
      C.VariableTable(t.key, t.variables, n);
    }
    ChainDecides(tables, n, err);
  }

  /** The first of the sorted locales that fails. */
  lemma {:induction false} FirstFailing(caps: Capabilities, t: Template, sorted: seq<string>, from: nat)
    returns (n: nat)
    requires EntryOf(caps, t).Some? && from <= |sorted| && forall l | l in sorted :: l in t.locales
    ensures from <= n <= |sorted|
    ensures forall i | from <= i < n :: sorted[i] in t.locales && LocaleError(caps, t, sorted[i]).None?
    ensures n < |sorted| ==> sorted[n] in t.locales && LocaleError(caps, t, sorted[n]).Some?
    decreases |sorted| - from
  {
    hide LocaleError, EntryOf;
    if from == |sorted| {
      n := from;
    } else {
      Member(sorted, from);
      if LocaleError(caps, t, sorted[from]).Some? {
        n := from;
      } else {
        n := FirstFailing(caps, t, sorted, from + 1);
      }
    }
  }

  lemma DeclaredKeys(t: Template)
    ensures C.VariableKeys(t.variables) == set v | v in t.variables :: TrimSpace(v.key)
  {
  }

  lemma LocaleTable(caps: Capabilities, t: Template, locale: string)
    requires EntryOf(caps, t).Some? && locale in t.locales
    ensures var declared := set v | v in t.variables :: TrimSpace(v.key);
      Decides(C.ContentChecks(t, locale, t.locales[locale], declared, Registration(caps, t)),
        LocaleError(caps, t, locale))
  {
    EntryExactly(caps, t);
    DeclaredKeys(t);
    C.ContentTable(t, locale, t.locales[locale], C.VariableKeys(t.variables), EntryOf(caps, t).value);
  }

  lemma FirstOfSorted(caps: Capabilities, t: Template, sorted: seq<string>, err: Option<TemplateError>)
    returns (n: nat)
    requires EntryOf(caps, t).Some? && Lists(sorted, t) && LeastFailing(caps, t, err)
    ensures n <= |sorted| && (err.None? <==> n == |sorted|) && forall i | 0 <= i < |sorted| :: sorted[i] in t.locales
    ensures forall i | 0 <= i < n :: LocaleError(caps, t, sorted[i]).None?
    ensures n < |sorted| ==> err == LocaleError(caps, t, sorted[n])
  {
    hide LocaleError, EntryOf;
    n := FirstFailing(caps, t, sorted, 0);
    if n < |sorted| {
      LocaleFailsFirst(caps, t, sorted, n);
      LeastFailingUnique(caps, t, err, LocaleError(caps, t, sorted[n]));
    } else {
      NoneFails(caps, t, sorted);
      LeastFailingUnique(caps, t, err, None);
    }
    forall i | 0 <= i < |sorted| ensures sorted[i] in t.locales {
      Member(sorted, i);
    }
  }

  lemma LocalesTable(caps: Capabilities, t: Template, sorted: seq<string>, err: Option<TemplateError>)
    requires EntryOf(caps, t).Some? && Lists(sorted, t) && LeastFailing(caps, t, err)
    ensures Decides(LocaleTables(t, Registration(caps, t), sorted), err)
  {
    hide C.ContentChecks, LocaleError, Decides, Chain, LeastFailing, EntryOf, Registration, TrimSpace;
    var n := FirstOfSorted(caps, t, sorted, err);
    var declared := set v | v in t.variables :: TrimSpace(v.key);
    var entry := Registration(caps, t);
    var tables := seq(|sorted|, i requires 0 <= i < |sorted| =>
      (Member(sorted, i); C.ContentChecks(t, sorted[i], t.locales[sorted[i]], declared, entry)));
    forall i | 0 <= i < |sorted| ensures Decides(tables[i], LocaleError(caps, t, sorted[i])) {
      LocaleTable(caps, t, sorted[i]);
    }
    ChainDecides(tables, n, err);
  }

  /** A template is answered with the first check that fails, and accepted when none does. */
  lemma TemplateTable(caps: Capabilities, t: Template, sorted: seq<string>, err: Option<TemplateError>)
    requires Verdict(caps, t, err) && Lists(sorted, t)
    ensures Decides(TemplateChecks(caps, t, sorted), err)
  {
    HeadTable(caps, t);
    HeadErrorNone(caps, t);
    var head, variables, fallbacks := HeadChecks(caps, t), VariableTables(t), F.FallbackChecks(t);
    var contents := if EntryOf(caps, t).Some? then LocaleTables(t, Registration(caps, t), sorted) else [];
    hide HeadChecks, VariableTables, F.FallbackChecks, LocaleTables, Decides, HeadOk, Lists, LeastFailing, EntryOf;
    if HeadError(caps, t).Some? {
      DecidedEarly(head, variables + (fallbacks + contents), err);
    } else if !C.VariablesOk(t.variables) {
      var n :| C.FirstVariableError(t, n, err.value);
      VariablesTable(t, n, err);
      DecidedEarly(variables, fallbacks + contents, err);
      DecidesConcat(head, variables + (fallbacks + contents), None, err);
    } else {
      VariablesTable(t, |t.variables|, None);
      if !F.FallbacksOk(t) {
        F.FallbackTable(t, err);
        DecidedEarly(fallbacks, contents, err);
        DecidesConcat(variables, fallbacks + contents, None, err);
      } else {
        F.FallbackTable(t, None);
        LocalesTable(caps, t, sorted, err);
        DecidesConcat(fallbacks, contents, None, err);
        DecidesConcat(variables, fallbacks + contents, None, err);
      }
      DecidesConcat(head, variables + (fallbacks + contents), None, err);
    }
  }

  ghost predicate AnswersByTable(caps: Capabilities, t: Template, err: Option<TemplateError>) {
    forall sorted | Lists(sorted, t) :: Decides(TemplateChecks(caps, t, sorted), err)
  }

  lemma VerdictByTable(caps: Capabilities, t: Template, err: Option<TemplateError>)
    requires Verdict(caps, t, err)
    ensures AnswersByTable(caps, t, err)
  {
    hide Verdict, TemplateChecks, Decides;
    forall sorted | Lists(sorted, t) ensures Decides(TemplateChecks(caps, t, sorted), err) {
      TemplateTable(caps, t, sorted, err);
    }
  }

  // ---- the operation ----

  method ValidateLocales(caps: Capabilities, value: Template, entry: C.Entry, variables: map<string, Variable>)
    returns (err: Option<TemplateError>)
    requires EntryOf(caps, value) == Some(entry) && variables.Keys == C.VariableKeys(value.variables)
    ensures LeastFailing(caps, value, err)
  {
    var order := LocalesOf(value.locales);
    var locales := SortStrings(order);
    SortedLocales(value, order, locales);
    assert PassBefore(caps, value, locales, 0);
    hide C.ContentError, Lists, LeastFailing, PassBefore;
    var i := 0;
    while i < |locales|
      invariant 0 <= i <= |locales|
      invariant PassBefore(caps, value, locales, i)
    {
      NextLocale(value, locales, i);
      err := C.ValidateTemplateContent(value, locales[i], value.locales[locales[i]], variables, entry);
      if err.Some? {
        LocaleFailsFirst(caps, value, locales, i);
        return;
      }
      PassNext(caps, value, locales, i);
      i := i + 1;
    }
    NoneFails(caps, value, locales);
    return None;
  }

  method ValidateHead(caps: Capabilities, value: Template) returns (err: Option<TemplateError>)
    ensures err == HeadError(caps, value)
  {
    hide StableKey, TrimSpace, Blank, R.Resolve;
    if caps.None? {
      return Some(Unconfigured);
    }
    if !StableKey(TrimSpace(value.key)) {
      return Some(KeyInvalid(value.key));
    }
    if Blank(value.name) {
      return Some(NameRequired(value.key));
    }
    var entry := R.Resolve(caps.value, value.channel, value.provider);
    if entry.None? {
      return Some(ProviderUnsupported(TrimSpace(value.channel), TrimSpace(value.provider)));
    }
    if TrimSpace(value.status) != "published" {
      return Some(StatusInvalid(value.status));
    }
    if value.version < 1 {
      return Some(VersionInvalid(value.key));
    }
    if Blank(value.defaultLocale) {
      return Some(DefaultLocaleRequired(value.key));
    }
    if |value.locales| == 0 {
      return Some(LocalesRequired(value.key));
    }
    if TrimSpace(value.defaultLocale) !in value.locales {
      return Some(DefaultLocaleMissing(value.key, TrimSpace(value.defaultLocale)));
    }
    return None;
  }

  method Validate(caps: Capabilities, value: Template) returns (err: Option<TemplateError>)
    ensures Verdict(caps, value, err) && AnswersByTable(caps, value, err)
    ensures err.None? <==> Acceptable(caps, value)
  {
    hide AnswersByTable;
    err := Examine(caps, value);
    VerdictByTable(caps, value, err);
    AcceptedIffAcceptable(caps, value);
    if err.Some? {
      VerdictNotNone(caps, value, err);
    }
  }

  /** The checks, one after the other. */
  method Examine(caps: Capabilities, value: Template) returns (err: Option<TemplateError>)
    ensures Verdict(caps, value, err)
  {
    hide Acceptable, LeastFailing;
    err := ValidateHead(caps, value);
    HeadErrorNone(caps, value);
    if err.Some? {
      return;
    }
    var variables;
    variables, err := C.ValidateTemplateVariables(value);
    if err.Some? {
      VariableErrorVerdict(caps, value, err.value);
      return;
    }
    err := F.ValidateTemplateFallbacks(value);
    if err.Some? {
      return;
    }
    err := ValidateLocales(caps, value, EntryOf(caps, value).value, variables);
  }

  lemma VariableErrorVerdict(caps: Capabilities, t: Template, e: TemplateError)
    requires HeadOk(caps, t) && exists i :: C.FirstVariableError(t, i, e)
    ensures Verdict(caps, t, Some(e)) && !Acceptable(caps, t)
  {
    HeadErrorNone(caps, t);
    var i :| C.FirstVariableError(t, i, e);
    assert !C.VariablesOk(t.variables);
  }

  lemma VerdictNotNone(caps: Capabilities, t: Template, err: Option<TemplateError>)
    requires Verdict(caps, t, err) && err.Some?
    ensures !Acceptable(caps, t)
  {
    AcceptedIffAcceptable(caps, t);
    if Verdict(caps, t, None) {
      VerdictUnique(caps, t, err, None);
    }
  }

  // ---- batches ----

  datatype BatchError =
    | Repeated(templateKey: string)
    | Failed(index: nat, cause: TemplateError)
    | Dangling(templateKey: string, fallbackTemplateKey: string)

  function Keys(templates: seq<Template>): set<string> {
    set t | t in templates :: t.key
  }

  ghost predicate KeysDistinct(templates: seq<Template>) {
    forall i, j | 0 <= i < j < |templates| :: templates[i].key != templates[j].key
  }

  predicate Resolved(t: Template, keys: set<string>) {
    forall f | f in t.fallbacks :: f.templateKey in keys
  }

  /** What an accepted batch is. */
  ghost predicate BatchOk(caps: Capabilities, templates: seq<Template>) {
    && KeysDistinct(templates)
    && forall i | 0 <= i < |templates| :: Acceptable(caps, templates[i]) && Resolved(templates[i], Keys(templates))
  }

  lemma KeysNext(templates: seq<Template>, i: nat)
    requires i < |templates|
    ensures Keys(templates[..i + 1]) == Keys(templates[..i]) + {templates[i].key}
    ensures templates[i].key in Keys(templates[..i]) <==> exists j | 0 <= j < i :: templates[j].key == templates[i].key
  {
    assert templates[..i + 1] == templates[..i] + [templates[i]];
    assert forall j | 0 <= j < i :: templates[j] in templates[..i];
  }

  /** Template i is the first whose key has been seen. */
  ghost predicate RepeatsAt(templates: seq<Template>, i: nat) {
    i < |templates| && KeysDistinct(templates[..i]) && exists j | 0 <= j < i :: templates[j].key == templates[i].key
  }

  method CollectKeys(templates: seq<Template>) returns (seen: set<string>, err: Option<BatchError>)
    ensures err.None? <==> KeysDistinct(templates)
    ensures err.None? ==> seen == Keys(templates)
    ensures err.Some? ==> exists i: nat :: RepeatsAt(templates, i) && err.value == Repeated(templates[i].key)
  {
    seen := {};
    var i := 0;
    while i < |templates|
      invariant 0 <= i <= |templates|
      invariant KeysDistinct(templates[..i]) && seen == Keys(templates[..i])
    {
      var key := templates[i].key;
      KeysNext(templates, i);
      if key in seen {
        assert RepeatsAt(templates, i);
        return seen, Some(Repeated(key));
      }
      assert forall j | 0 <= j < i :: templates[..i + 1][j] == templates[..i][j];
      seen := seen + {key};
      i := i + 1;
    }
    assert templates[..i] == templates;
    return seen, None;
  }

  /** e names the first fallback of t whose target is not among the keys. */
  ghost predicate Dangles(t: Template, keys: set<string>, e: BatchError) {
    exists i | 0 <= i < |t.fallbacks| ::
      && e == Dangling(t.key, t.fallbacks[i].templateKey) && t.fallbacks[i].templateKey !in keys
      && forall j | 0 <= j < i :: t.fallbacks[j].templateKey in keys
  }

  method CheckResolved(t: Template, keys: set<string>) returns (err: Option<BatchError>)
    ensures err.None? <==> Resolved(t, keys)
    ensures err.Some? ==> err.value.Dangling? && Dangles(t, keys, err.value)
  {
    var i := 0;
    while i < |t.fallbacks|
      invariant 0 <= i <= |t.fallbacks|
      invariant forall j | 0 <= j < i :: t.fallbacks[j].templateKey in keys
    {
      if t.fallbacks[i].templateKey !in keys {
        return Some(Dangling(t.key, t.fallbacks[i].templateKey));
      }
      i := i + 1;
    }
    return None;
  }

  ghost predicate PrefixOk(caps: Capabilities, templates: seq<Template>, n: nat)
    requires n <= |templates|
  {
    forall j | 0 <= j < n :: Acceptable(caps, templates[j]) && Resolved(templates[j], Keys(templates))
  }

  /** Template i is the first that fails or has a fallback outside the batch. */
  ghost predicate TemplateFails(caps: Capabilities, templates: seq<Template>, i: nat, e: BatchError) {
    && i < |templates| && PrefixOk(caps, templates, i)
    && match e
       case Failed(index, cause) => index == i && Verdict(caps, templates[i], Some(cause))
       case Dangling(_, _) => Acceptable(caps, templates[i]) && Dangles(templates[i], Keys(templates), e)
       case Repeated(_) => false
  }

  predicate Targets(t: Template, key: string) {
    exists f | f in t.fallbacks :: f.templateKey == key
  }

  lemma FailsAt(caps: Capabilities, templates: seq<Template>, i: nat, cause: TemplateError)
    requires i < |templates| && PrefixOk(caps, templates, i) && Verdict(caps, templates[i], Some(cause))
    ensures TemplateFails(caps, templates, i, Failed(i, cause)) && !BatchOk(caps, templates)
  {
    VerdictNotNone(caps, templates[i], Some(cause));
  }

  lemma DanglesAt(caps: Capabilities, templates: seq<Template>, i: nat, e: BatchError)
    requires i < |templates| && PrefixOk(caps, templates, i) && Acceptable(caps, templates[i])
    requires e.Dangling? && Dangles(templates[i], Keys(templates), e)
    ensures TemplateFails(caps, templates, i, e) && !BatchOk(caps, templates)
  {
    hide Acceptable;
    var j :| 0 <= j < |templates[i].fallbacks| && templates[i].fallbacks[j].templateKey !in Keys(templates);
    assert templates[i].fallbacks[j] in templates[i].fallbacks;
    assert !Resolved(templates[i], Keys(templates));
  }

  lemma PassesAt(caps: Capabilities, templates: seq<Template>, i: nat)
    requires i < |templates| && PrefixOk(caps, templates, i)
    requires Acceptable(caps, templates[i]) && Resolved(templates[i], Keys(templates))
    ensures PrefixOk(caps, templates, i + 1)
  {
    hide Acceptable;
  }

  method ValidateAll(caps: Capabilities, templates: seq<Template>) returns (err: Option<BatchError>)
    ensures err.None? <==> BatchOk(caps, templates)
    ensures err.Some? ==>
      || (exists i: nat :: RepeatsAt(templates, i) && err.value == Repeated(templates[i].key))
      || (KeysDistinct(templates) && exists i :: TemplateFails(caps, templates, i, err.value))
  {
    var seen;
    seen, err := CollectKeys(templates);
    if err.Some? {
      return;
    }
    assert PrefixOk(caps, templates, 0);
    hide Acceptable, Verdict, Keys, TemplateFails, Resolved;
    var index := 0;
    while index < |templates|
      invariant 0 <= index <= |templates|
      invariant PrefixOk(caps, templates, index)
    {
      hide PrefixOk, BatchOk, KeysDistinct, Dangles;
      var failed := Validate(caps, templates[index]);
      if failed.Some? {
        FailsAt(caps, templates, index, failed.value);
        return Some(Failed(index, failed.value));
      }
      err := CheckResolved(templates[index], seen);
      if err.Some? {
        DanglesAt(caps, templates, index, err.value);
        return;
      }
      PassesAt(caps, templates, index);
      index := index + 1;
    }
    return None;
  }

  // ---- what acceptance means for a batch ----

  /** Consecutive keys are those of a template of the batch and of one of its fallbacks, as written. */
  ghost predicate Walk(templates: seq<Template>, keys: seq<string>) {
    forall k | 0 <= k < |keys| - 1 :: exists t | t in templates :: t.key == keys[k] && Targets(t, keys[k + 1])
  }

  /** Fallback chains of any length stay inside an accepted batch. */
  lemma {:induction false} WalksStayInside(caps: Capabilities, templates: seq<Template>, keys: seq<string>, n: nat)
    requires BatchOk(caps, templates) && Walk(templates, keys) && n < |keys| && keys[0] in Keys(templates)
    ensures keys[n] in Keys(templates)
  {
    hide Acceptable;
    if n == 0 {
    } else {
      assert 0 <= n - 1 < |keys| - 1;
      var t :| t in templates && t.key == keys[n - 1] && Targets(t, keys[n]);
      var i :| 0 <= i < |templates| && templates[i] == t;
      assert Resolved(t, Keys(templates));
    }
  }

  /** Each template has at most five fallbacks, each leads to exactly one template of the batch, and a
      template whose key has no white space around it never falls back to itself. */
  lemma FallbackTarget(caps: Capabilities, templates: seq<Template>, i: nat, j: nat) returns (m: nat)
    requires BatchOk(caps, templates) && i < |templates| && j < |templates[i].fallbacks|
    ensures |templates[i].fallbacks| <= 5
    ensures m < |templates| && templates[m].key == templates[i].fallbacks[j].templateKey
    ensures forall k | 0 <= k < |templates| && templates[k].key == templates[i].fallbacks[j].templateKey :: k == m
    ensures TrimSpace(templates[i].key) == templates[i].key ==> m != i
  {
    var f := templates[i].fallbacks[j];
    assert Resolved(templates[i], Keys(templates)) && f in templates[i].fallbacks;
    var t :| t in templates && t.key == f.templateKey;
    m :| 0 <= m < |templates| && templates[m] == t;
    assert F.FallbackGood(templates[i], j);
  }

  lemma PlainTextAccepted(text: string, declared: set<string>)
    requires TemplateTokens.NoBrace(text)
    ensures TemplateTokens.Check(text, declared).Valid?
  {
    var segments := [TemplateTokens.Literal(text)];
    assert segments[1..] == [] && TemplateTokens.Source([]) == "" && text + "" == text;
    TemplateTokens.PrintThenScan(segments, declared);
  }

  /** An entry that allows nothing but text. */
  function PlainEntry(): C.Entry {
    C.Entry(Capability("c", "", false, false, false, false, false, 0, 0), None)
  }

  function PlainContent(): TemplateContent {
    TemplateContent("", "", "t", "", "", [], [], None)
  }

  /** A template that falls back to its own key. */
  function SelfReferring(key: string): Template {
    Template(key, "n", "c", "", "published", 1, "l", [], [Fallback(key, "k", "c", "o")], map["l" := PlainContent()])
  }

  lemma Singles()
    ensures TrimSpace("n") == "n" && TrimSpace("c") == "c" && TrimSpace("l") == "l" && TrimSpace("k") == "k"
      && TrimSpace("o") == "o" && TrimSpace("t") == "t"
    ensures TrimSpace("published") == "published" && TrimSpace("") == ""
  {
    TrimOfTrimmed("n");
    TrimOfTrimmed("c");
    TrimOfTrimmed("l");
    TrimOfTrimmed("k");
    TrimOfTrimmed("o");
    TrimOfTrimmed("t");
    TrimOfTrimmed("published");
  }

  lemma PlainLayoutOk()
    ensures C.LayoutOk("l", PlainContent(), PlainEntry())
  {
    Singles();
    assert "" + "" == "";
  }

  lemma PlainSources()
    ensures C.Sources(PlainContent()) == ["", "", "t", "", ""]
  {
    hide TemplateTokens.Check;
  }

  lemma PlainTokensOk(declared: set<string>)
    ensures C.TokensOk(C.Sources(PlainContent()), declared)
  {
    PlainSources();
    hide TemplateTokens.Check, C.Sources, PlainContent;
    PlainTextAccepted("", declared);
    PlainTextAccepted("t", declared);
  }

  lemma PlainContentOk(declared: set<string>)
    ensures C.ContentOk("l", PlainContent(), declared, PlainEntry())
  {
    PlainLayoutOk();
    PlainTokensOk(declared);
  }

  lemma SelfReferringHead(key: string, caps: Capabilities)
    requires StableKey(TrimSpace(key)) && key != TrimSpace(key)
    requires EntryOf(caps, SelfReferring(key)) == Some(PlainEntry())
    ensures HeadOk(caps, SelfReferring(key)) && F.FallbacksOk(SelfReferring(key))
  {
    var t := SelfReferring(key);
    Singles();
    assert F.Tuple(t.fallbacks[0]) == Fallback(TrimSpace(key), "k", "c", "o");
    assert F.FallbackOk(t.key, t.fallbacks[0]);
  }

  lemma SelfReferringAcceptable(key: string, caps: Capabilities)
    requires StableKey(TrimSpace(key)) && key != TrimSpace(key)
    requires EntryOf(caps, SelfReferring(key)) == Some(PlainEntry())
    ensures Acceptable(caps, SelfReferring(key))
  {
    var t := SelfReferring(key);
    SelfReferringHead(key, caps);
    PlainContentOk(C.VariableKeys(t.variables));
    hide PlainContent, PlainEntry, C.ContentOk, C.VariableKeys, HeadOk, EntryOf, F.FallbacksOk, StableKey, TrimSpace;
    assert C.VariablesOk(t.variables);
  }

  lemma SingleBatch(caps: Capabilities, t: Template)
    requires Acceptable(caps, t) && forall f | f in t.fallbacks :: f.templateKey == t.key
    ensures BatchOk(caps, [t])
  {
    hide Acceptable;
    assert t in [t] && t.key in Keys([t]);
    assert Resolved(t, Keys([t]));
  }

  lemma PlainResolves(key: string) returns (caps: Capabilities)
    ensures EntryOf(caps, SelfReferring(key)) == Some(PlainEntry())
  {
    hide PlainContent, PlainEntry, TrimSpace;
    caps := Some(map[R.CapabilityKey("c", "") := PlainEntry()]);
  }

  /** With white space around its key, a template that falls back to itself is accepted. */
  lemma UntrimmedSelfFallback(key: string) returns (caps: Capabilities)
    requires StableKey(TrimSpace(key)) && key != TrimSpace(key)
    ensures BatchOk(caps, [SelfReferring(key)]) && Targets(SelfReferring(key), key)
  {
    caps := PlainResolves(key);
    SelfReferringAcceptable(key, caps);
    hide Acceptable, PlainContent, PlainEntry, StableKey, TrimSpace, EntryOf;
    var t := SelfReferring(key);
    assert t.fallbacks[0].templateKey == key;
    SingleBatch(caps, t);
  }
}
