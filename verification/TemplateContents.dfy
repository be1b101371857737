/** The variables and the localised contents of a template (contract/template_validation.go 193-212 and
    234-290). */
module TemplateContents {
  import opened Text
  import opened Tables
  import opened Models
  import opened TemplateErrors
  import TemplateTokens

  /** A registered capability and its provider's own check, when there is one. The provider's check is
      assumed to be a function of the provider template. */
  datatype Entry = Entry(capability: Capability, validate: Option<ProviderTemplate -> bool>)

  // ---- variables ----

  predicate SupportedKind(kind: string) {
    || kind == "boolean" || kind == "date" || kind == "datetime" || kind == "email"
    || kind == "number" || kind == "text" || kind == "url"
  }

  function VariableKey(v: Variable): string {
    TrimSpace(v.key)
  }

  function VariableKeys(variables: seq<Variable>): set<string> {
    set v | v in variables :: VariableKey(v)
  }

  predicate Repeats(variables: seq<Variable>, i: nat)
    requires i < |variables|
  {
    exists j | 0 <= j < i :: VariableKey(variables[j]) == VariableKey(variables[i])
  }

  predicate VariableOk(variables: seq<Variable>, i: nat)
    requires i < |variables|
  {
    StableKey(VariableKey(variables[i])) && !Repeats(variables, i) && SupportedKind(TrimSpace(variables[i].kind))
  }

  ghost predicate VariablesOk(variables: seq<Variable>) {
    forall i | 0 <= i < |variables| :: VariableOk(variables, i)
  }

  function VariableError(key: string, variables: seq<Variable>, i: nat): TemplateError
    requires i < |variables| && !VariableOk(variables, i)
  {
    var v := variables[i];
    if !StableKey(VariableKey(v)) then VariableKeyInvalid(key, VariableKey(v))
    else if Repeats(variables, i) then VariableDuplicate(key, VariableKey(v))
    else VariableTypeUnsupported(key, VariableKey(v), TrimSpace(v.kind))
  }

  /** e is what the first bad variable, at i, is reported as. */
  ghost predicate FirstVariableError(t: Template, i: nat, e: TemplateError) {
    && i < |t.variables| && !VariableOk(t.variables, i) && e == VariableError(t.key, t.variables, i)
    && forall j | 0 <= j < i :: VariableOk(t.variables, j)
  }

  /** What a variable must meet, in the order in which it is checked. */
  ghost function VariableChecks(key: string, variables: seq<Variable>, i: nat): seq<Line<TemplateError>>
    requires i < |variables|
  {
    var name, kind := TrimSpace(variables[i].key), TrimSpace(variables[i].kind);
    [ Line(StableKey(name), VariableKeyInvalid(key, name)),
      Line(forall j | 0 <= j < i :: TrimSpace(variables[j].key) != name, VariableDuplicate(key, name)),
      Line(kind in {"boolean", "date", "datetime", "email", "number", "text", "url"},
        VariableTypeUnsupported(key, name, kind)) ]
  }

  /** A variable is refused for the first line of the table that it does not meet. */
  lemma VariableTable(key: string, variables: seq<Variable>, i: nat)
    requires i < |variables|
    ensures Decides(VariableChecks(key, variables, i),
      if VariableOk(variables, i) then None else Some(VariableError(key, variables, i)))
  {
    hide StableKey, TrimSpace;
    var checks := VariableChecks(key, variables, i);
    if !StableKey(VariableKey(variables[i])) {
      assert FailsFirst(checks, 0);
    } else if Repeats(variables, i) {
      assert FailsFirst(checks, 1);
    } else if !SupportedKind(TrimSpace(variables[i].kind)) {
      assert FailsFirst(checks, 2);
    }
  }

  lemma VariableKeysNext(variables: seq<Variable>, i: nat)
    requires i < |variables|
    ensures VariableKey(variables[i]) in VariableKeys(variables[..i]) <==> Repeats(variables, i)
    ensures VariableKeys(variables[..i + 1]) == VariableKeys(variables[..i]) + {VariableKey(variables[i])}
  {
    assert variables[..i + 1] == variables[..i] + [variables[i]];
    assert forall j | 0 <= j < i :: variables[j] in variables[..i];
  }

  /** The map holds the variable under its trimmed key, trimmed. */
  predicate Declares(variables: map<string, Variable>, v: Variable) {
    VariableKey(v) in variables && variables[VariableKey(v)] == v.(key := TrimSpace(v.key), kind := TrimSpace(v.kind))
  }

  /** The first n variables are in order and declared, and nothing else is. */
  ghost predicate PrefixDeclared(t: Template, n: nat, variables: map<string, Variable>)
    requires n <= |t.variables|
  {
    && (forall j | 0 <= j < n :: VariableOk(t.variables, j) && Declares(variables, t.variables[j]))
    && variables.Keys == VariableKeys(t.variables[..n])
  }

  lemma DeclaredKey(t: Template, i: nat, variables: map<string, Variable>)
    requires i < |t.variables| && PrefixDeclared(t, i, variables)
    ensures VariableKey(t.variables[i]) in variables <==> Repeats(t.variables, i)
  {
    VariableKeysNext(t.variables, i);
    hide VariableKeys, VariableOk, Declares, Repeats, VariableKey;
  }

  lemma FreshAmongEarlier(variables: seq<Variable>, i: nat, j: nat)
    requires j < i < |variables| && VariableOk(variables, i)
    ensures VariableKey(variables[j]) != VariableKey(variables[i])
  {
  }

  lemma DeclaredNext(t: Template, i: nat, variables: map<string, Variable>)
    requires i < |t.variables| && PrefixDeclared(t, i, variables) && VariableOk(t.variables, i)
    ensures var v := t.variables[i];
      PrefixDeclared(t, i + 1, variables[VariableKey(v) := v.(key := TrimSpace(v.key), kind := TrimSpace(v.kind))])
  {
    hide VariableKeys, VariableOk, TrimSpace;
    VariableKeysNext(t.variables, i);
    var v := t.variables[i];
    var longer := variables[VariableKey(v) := v.(key := TrimSpace(v.key), kind := TrimSpace(v.kind))];
    forall j | 0 <= j < i ensures Declares(longer, t.variables[j]) {
      FreshAmongEarlier(t.variables, i, j);
    }
  }

  lemma DeclaredAll(t: Template, variables: map<string, Variable>)
    requires PrefixDeclared(t, |t.variables|, variables)
    ensures VariablesOk(t.variables) && variables.Keys == VariableKeys(t.variables)
    ensures forall v | v in t.variables ::
      TrimSpace(v.key) in variables
      && variables[TrimSpace(v.key)] == Variable(TrimSpace(v.key), TrimSpace(v.kind), v.required)
  {
    hide TrimSpace, VariableOk, VariableKeys;
    assert t.variables[..|t.variables|] == t.variables;
  }

  lemma VariableFails(t: Template, i: nat, variables: map<string, Variable>, e: TemplateError)
    requires i < |t.variables| && PrefixDeclared(t, i, variables) && !VariableOk(t.variables, i)
    requires e == VariableError(t.key, t.variables, i)
    ensures FirstVariableError(t, i, e)
  {
  }

  lemma NothingDeclared(t: Template)
    ensures PrefixDeclared(t, 0, map[])
  {
  }

  method ValidateTemplateVariables(value: Template)
    returns (variables: map<string, Variable>, err: Option<TemplateError>)
    ensures err.None? ==> VariablesOk(value.variables) && variables.Keys == VariableKeys(value.variables)
    ensures err.None? ==> forall v | v in value.variables ::
      TrimSpace(v.key) in variables
      && variables[TrimSpace(v.key)] == Variable(TrimSpace(v.key), TrimSpace(v.kind), v.required)
    ensures err.Some? ==> exists i :: FirstVariableError(value, i, err.value)
  {
    hide TrimSpace, StableKey, SupportedKind, PrefixDeclared, VariableKeys, VariablesOk, FirstVariableError, Repeats;
    variables := map[];
    assert PrefixDeclared(value, 0, variables) by {
      NothingDeclared(value);
    }
    var i := 0;
    while i < |value.variables|
      invariant 0 <= i <= |value.variables|
      invariant PrefixDeclared(value, i, variables)
    {
      var variable := value.variables[i];
      var key := TrimSpace(variable.key);
      DeclaredKey(value, i, variables);
      if !StableKey(key) {
        VariableFails(value, i, variables, VariableKeyInvalid(value.key, key));
        return variables, Some(VariableKeyInvalid(value.key, key));
      }
      if key in variables {
        VariableFails(value, i, variables, VariableDuplicate(value.key, key));
        return variables, Some(VariableDuplicate(value.key, key));
      }
      variable := variable.(key := key, kind := TrimSpace(variable.kind));
      if !SupportedKind(variable.kind) {
        VariableFails(value, i, variables, VariableTypeUnsupported(value.key, key, variable.kind));
        return variables, Some(VariableTypeUnsupported(value.key, key, variable.kind));
      }
      DeclaredNext(value, i, variables);
      variables := variables[key := variable];
      i := i + 1;
    }
    DeclaredAll(value, variables);
    return variables, None;
  }

  // ---- one localised content ----

  predicate LineBreak(c: char) {
    c == '\r' || c == '\n'
  }

  predicate HasLineBreak(s: string) {
    exists i | 0 <= i < |s| :: LineBreak(s[i])
  }

  predicate FactOk(f: Fact, c: Capability) {
    !Blank(f.key) && !Blank(f.value) && c.supportsFacts
  }

  predicate Style(s: string) {
    s == "" || s == "primary" || s == "secondary" || s == "danger"
  }

  predicate ActionOk(a: Action, c: Capability) {
    !Blank(a.caption) && !Blank(a.url) && c.supportsURLActions && Style(TrimSpace(a.style))
  }

  function ActionTexts(actions: seq<Action>): seq<string> {
    if actions == [] then []
    else ActionTexts(actions[..|actions| - 1]) + [actions[|actions| - 1].caption, actions[|actions| - 1].url]
  }

  function Parameters(components: seq<Component>): seq<string> {
    if components == [] then []
    else Parameters(components[..|components| - 1]) + components[|components| - 1].parameters
  }

  function ProviderTexts(content: TemplateContent): seq<string> {
    if content.providerTemplate.None? then [] else Parameters(content.providerTemplate.value.components)
  }

  /** Every text of a content that may hold tokens, in the order in which it is checked. */
  function Sources(content: TemplateContent): seq<string> {
    [content.subject, content.title, content.text, content.html, content.markdown]
    + FactTexts(content.facts) + ActionTexts(content.actions) + ProviderTexts(content)
  }

  predicate SubjectOk(content: TemplateContent, c: Capability) {
    c.channel == "email" ==> !Blank(content.subject)
  }

  predicate BodyOk(content: TemplateContent, c: Capability) {
    !Blank(content.text) || if c.channel == "email" then !Blank(content.html) else !Blank(content.markdown)
  }

  predicate FormatsOk(content: TemplateContent, c: Capability) {
    (Blank(content.html) || c.supportsHTML) && (Blank(content.markdown) || c.supportsMarkdown)
  }

  predicate CountsOk(content: TemplateContent, c: Capability) {
    |content.facts| <= c.maxFacts && |content.actions| <= c.maxActions
  }

  predicate FactsOk(content: TemplateContent, c: Capability) {
    forall i | 0 <= i < |content.facts| :: FactOk(content.facts[i], c)
  }

  predicate ActionsOk(content: TemplateContent, c: Capability) {
    forall i | 0 <= i < |content.actions| :: ActionOk(content.actions[i], c)
  }

  predicate ProviderOk(content: TemplateContent, entry: Entry) {
    content.providerTemplate.Some? ==>
      && entry.capability.supportsProviderTemplate
      && content.facts == [] && content.actions == []
      && (entry.validate.Some? ==> entry.validate.value(content.providerTemplate.value))
  }

  predicate TokensOk(sources: seq<string>, declared: set<string>) {
    forall i | 0 <= i < |sources| :: TemplateTokens.Check(sources[i], declared).Valid?
  }

  predicate LayoutOk(locale: string, content: TemplateContent, entry: Entry) {
    var c := entry.capability;
    && !Blank(locale)
    && SubjectOk(content, c) && !HasLineBreak(content.subject + content.title) && BodyOk(content, c)
    && FormatsOk(content, c) && CountsOk(content, c) && FactsOk(content, c) && ActionsOk(content, c)
    && ProviderOk(content, entry)
  }

  /** What an accepted content is. */
  predicate ContentOk(locale: string, content: TemplateContent, declared: set<string>, entry: Entry) {
    LayoutOk(locale, content, entry) && TokensOk(Sources(content), declared)
  }

  // ---- the failure of a content ----

  function TokensError(key: string, locale: string, sources: seq<string>,
        declared: set<string>): Option<TemplateError> {
    if sources == [] then None
    else match TemplateTokens.Check(sources[0], declared)
      case Valid => TokensError(key, locale, sources[1..], declared)
      case SyntaxInvalid => Some(SyntaxInvalid(key, locale))
      case VariableUnknown(root) => Some(VariableUnknown(key, locale, root))
  }

  function LayoutError(t: Template, locale: string, content: TemplateContent, entry: Entry): Option<TemplateError> {
    var c := entry.capability;
    if Blank(locale) then Some(LocaleInvalid(t.key))
    else if !SubjectOk(content, c) then Some(SubjectRequired(t.key, locale))
    else if HasLineBreak(content.subject + content.title) then Some(SubjectInvalid(t.key, locale))
    else if !BodyOk(content, c) then Some(BodyRequired(t.key, locale))
    else if !FormatsOk(content, c) then Some(ChannelMismatch(t.key, locale))
    else if !CountsOk(content, c) then Some(ComponentsLimit(t.key, locale))
    else if !FactsOk(content, c) then Some(FactInvalid(t.key, locale))
    else if !ActionsOk(content, c) then Some(ActionInvalid(t.key, locale))
    else if ProviderOk(content, entry) then None
    else if !c.supportsProviderTemplate then Some(ProviderTemplateUnsupported(t.key, locale, t.provider))
    else if content.facts != [] || content.actions != [] then Some(ProviderTemplateComponentsConflict(t.key, locale))
    else Some(ProviderTemplateInvalid(t.key, locale, t.provider))
  }

  /** A function of the template, the locale and the entry alone. */
  function ContentError(t: Template, locale: string, content: TemplateContent, declared: set<string>,
        entry: Entry): Option<TemplateError> {
    if LayoutError(t, locale, content, entry).Some? then LayoutError(t, locale, content, entry)
    else TokensError(t.key, locale, Sources(content), declared)
  }

  lemma {:induction false} TokensErrorNone(key: string, locale: string, sources: seq<string>, declared: set<string>)
    ensures TokensError(key, locale, sources, declared).None? <==> TokensOk(sources, declared)
  {
    if sources == [] {
    } else {
      TokensErrorNone(key, locale, sources[1..], declared);
      assert forall i | 1 <= i < |sources| :: sources[i] == sources[1..][i - 1];
    }
  }

  /** A content fails exactly when it is not what an accepted content is. */
  lemma ContentFailsIffNotOk(t: Template, locale: string, content: TemplateContent, declared: set<string>, entry: Entry)
    ensures ContentError(t, locale, content, declared, entry).None? <==> ContentOk(locale, content, declared, entry)
  {
    TokensErrorNone(t.key, locale, Sources(content), declared);
  }

  // ---- which texts are checked, and what the error says ----

  /** The texts a reader or a provider may get to see. */
  predicate IsText(content: TemplateContent, s: string) {
    || s == content.subject || s == content.title || s == content.text || s == content.html || s == content.markdown
    || (exists f | f in content.facts :: s == f.key || s == f.value)
    || (exists a | a in content.actions :: s == a.caption || s == a.url)
    || (content.providerTemplate.Some? &&
        exists c | c in content.providerTemplate.value.components :: s in c.parameters)
  }

  lemma {:induction false} ActionTextsAre(actions: seq<Action>, s: string)
    ensures |ActionTexts(actions)| == 2 * |actions|
    ensures s in ActionTexts(actions) <==> exists a | a in actions :: s == a.caption || s == a.url
  {
    if actions == [] {
    } else {
      var n := |actions| - 1;
      ActionTextsAre(actions[..n], s);
      assert actions == actions[..n] + [actions[n]];
    }
  }

  lemma {:induction false} ParametersAre(components: seq<Component>, s: string)
    ensures s in Parameters(components) <==> exists c | c in components :: s in c.parameters
  {
    if components == [] {
    } else {
      var n := |components| - 1;
      ParametersAre(components[..n], s);
      assert components == components[..n] + [components[n]];
    }
  }

  /** Exactly the texts of the content are checked for tokens. */
  lemma SourcesAreTexts(content: TemplateContent, s: string)
    ensures s in Sources(content) <==> IsText(content, s)
  {
    hide FactTexts, ActionTexts, Parameters;
    FactTextsAre(content.facts, s);
    ActionTextsAre(content.actions, s);
    if content.providerTemplate.Some? {
      ParametersAre(content.providerTemplate.value.components, s);
    }
  }

  lemma {:induction false} ActionTextsAt(actions: seq<Action>, i: nat)
    requires i < |actions|
    ensures |ActionTexts(actions)| == 2 * |actions|
    ensures ActionTexts(actions)[2 * i] == actions[i].caption && ActionTexts(actions)[2 * i + 1] == actions[i].url
  {
    var n := |actions| - 1;
    ActionTextsAre(actions[..n], "");
    if i == n {
    } else {
      ActionTextsAt(actions[..n], i);
    }
  }

  /** They are checked in this order: subject, title, text, HTML, markdown, then the facts and the actions
      one after the other, then the parameters. */
  lemma SourceOrder(content: TemplateContent, i: nat)
    ensures var s, f, a := Sources(content), |content.facts|, |content.actions|;
      && |s| >= 5 + 2 * f + 2 * a
      && s[0] == content.subject && s[1] == content.title && s[2] == content.text && s[3] == content.html
      && s[4] == content.markdown
      && (i < f ==> s[5 + 2 * i] == content.facts[i].key && s[6 + 2 * i] == content.facts[i].value)
      && (i < a ==>
            s[5 + 2 * f + 2 * i] == content.actions[i].caption && s[6 + 2 * f + 2 * i] == content.actions[i].url)
      && s[5 + 2 * f + 2 * a..] == ProviderTexts(content)
  {
    hide FactTexts, ActionTexts, ProviderTexts;
    FactTextsLength(content.facts);
    ActionTextsAre(content.actions, "");
    if i < |content.facts| {
      FactTextsAt(content.facts, i);
    }
    if i < |content.actions| {
      ActionTextsAt(content.actions, i);
    }
  }

  /** Tokens are in order exactly when every text of the content splits into literals and tokens of declared
      variables, without a double brace when the tokens are cut out. */
  lemma AcceptedTextTokens(content: TemplateContent, declared: set<string>)
    ensures TokensOk(Sources(content), declared) <==>
      forall text | IsText(content, text) ::
        var segments := TemplateTokens.Scan(text);
        && TemplateTokens.Source(segments) == text
        && TemplateTokens.AllDeclared(segments, declared)
        && !TemplateTokens.HasDoubleBrace(TemplateTokens.Consumed(segments))
  {
    hide IsText, Sources, TemplateTokens.Scan, TemplateTokens.Source, TemplateTokens.AllDeclared;
    hide TemplateTokens.HasDoubleBrace, TemplateTokens.Consumed, TemplateTokens.Check, TemplateTokens.StrayPair;
    var sources := Sources(content);
    forall text
      ensures text in sources <==> IsText(content, text)
      ensures var segments := TemplateTokens.Scan(text);
        TemplateTokens.Check(text, declared).Valid? <==>
          && TemplateTokens.Source(segments) == text && TemplateTokens.AllDeclared(segments, declared)
          && !TemplateTokens.HasDoubleBrace(TemplateTokens.Consumed(segments))
    {
      SourcesAreTexts(content, text);
      TextAccepted(text, declared);
    }
    assert forall i | 0 <= i < |sources| :: sources[i] in sources;
  }

  lemma TextAccepted(text: string, declared: set<string>)
    ensures var segments := TemplateTokens.Scan(text);
      TemplateTokens.Check(text, declared).Valid? <==>
        && TemplateTokens.Source(segments) == text && TemplateTokens.AllDeclared(segments, declared)
        && !TemplateTokens.HasDoubleBrace(TemplateTokens.Consumed(segments))
  {
    TemplateTokens.ScanSplits(text);
    TemplateTokens.FirstUnknownNone(TemplateTokens.Scan(text), declared);
  }

  lemma HasLineBreakExactly(s: string)
    ensures HasLineBreak(s) <==> '\r' in s || '\n' in s
  {
    assert forall i | 0 <= i < |s| :: s[i] in s;
  }

  /** What a content must meet before its tokens are looked at, in the order in which it is checked. */
  ghost function LayoutChecks(t: Template, locale: string, content: TemplateContent, entry: Entry)
    : seq<Line<TemplateError>>
  {
    var c, provider := entry.capability, content.providerTemplate;
    [ Line(!Blank(locale), LocaleInvalid(t.key)),
      Line(c.channel == "email" ==> !Blank(content.subject), SubjectRequired(t.key, locale)),
      Line('\r' !in content.subject + content.title && '\n' !in content.subject + content.title,
        SubjectInvalid(t.key, locale)),
      Line(!Blank(content.text) || !Blank(if c.channel == "email" then content.html else content.markdown),
        BodyRequired(t.key, locale)),
      Line((!Blank(content.html) ==> c.supportsHTML) && (!Blank(content.markdown) ==> c.supportsMarkdown),
        ChannelMismatch(t.key, locale)),
      Line(|content.facts| <= c.maxFacts && |content.actions| <= c.maxActions, ComponentsLimit(t.key, locale)),
      Line(forall f | f in content.facts :: !Blank(f.key) && !Blank(f.value) && c.supportsFacts,
        FactInvalid(t.key, locale)),
      Line(forall a | a in content.actions ::
          && !Blank(a.caption) && !Blank(a.url) && c.supportsURLActions
          && TrimSpace(a.style) in {"", "primary", "secondary", "danger"}, ActionInvalid(t.key, locale)),
      Line(provider.Some? ==> c.supportsProviderTemplate, ProviderTemplateUnsupported(t.key, locale, t.provider)),
      Line(provider.Some? ==> |content.facts| == 0 == |content.actions|,
        ProviderTemplateComponentsConflict(t.key, locale)),
      Line(provider.Some? && entry.validate.Some? ==> entry.validate.value(provider.value),
        ProviderTemplateInvalid(t.key, locale, t.provider)) ]
  }

  lemma FactsAndActions(content: TemplateContent, c: Capability)
    ensures FactsOk(content, c) <==>
      forall f | f in content.facts :: !Blank(f.key) && !Blank(f.value) && c.supportsFacts
    ensures ActionsOk(content, c) <==>
      forall a | a in content.actions ::
        && !Blank(a.caption) && !Blank(a.url) && c.supportsURLActions
        && TrimSpace(a.style) in {"", "primary", "secondary", "danger"}
  {
    hide Blank, TrimSpace;
    assert forall i | 0 <= i < |content.facts| :: content.facts[i] in content.facts;
    assert forall i | 0 <= i < |content.actions| :: content.actions[i] in content.actions;
  }

  /** A content is refused for the first line of the table that it does not meet. */
  lemma LayoutTable(t: Template, locale: string, content: TemplateContent, entry: Entry)
    ensures Decides(LayoutChecks(t, locale, content, entry), LayoutError(t, locale, content, entry))
    ensures LayoutOk(locale, content, entry) <==> LayoutError(t, locale, content, entry).None?
  {
    hide Blank, TrimSpace, FactsOk, ActionsOk, HasLineBreak;
    var c, checks := entry.capability, LayoutChecks(t, locale, content, entry);
    HasLineBreakExactly(content.subject + content.title);
    FactsAndActions(content, c);
    if Blank(locale) {
      assert FailsFirst(checks, 0);
    } else if !SubjectOk(content, c) {
      assert FailsFirst(checks, 1);
    } else if HasLineBreak(content.subject + content.title) {
      assert FailsFirst(checks, 2);
    } else if !BodyOk(content, c) {
      assert FailsFirst(checks, 3);
    } else if !FormatsOk(content, c) {
      assert FailsFirst(checks, 4);
    } else if !CountsOk(content, c) {
      assert FailsFirst(checks, 5);
    } else if !FactsOk(content, c) {
      assert FailsFirst(checks, 6);
    } else if !ActionsOk(content, c) {
      assert FailsFirst(checks, 7);
    } else if ProviderOk(content, entry) {
    } else if !c.supportsProviderTemplate {
      assert FailsFirst(checks, 8);
    } else if content.facts != [] || content.actions != [] {
      assert FailsFirst(checks, 9);
    } else {
      assert FailsFirst(checks, 10);
    }
  }

  /** What the tokens of one text must meet. */
  ghost function TextChecks(key: string, locale: string, text: string, declared: set<string>)
    : seq<Line<TemplateError>>
  {
    var segments := TemplateTokens.Scan(text);
    var names := TemplateTokens.Names(segments);
    [ Line(!TemplateTokens.HasDoubleBrace(TemplateTokens.Consumed(segments)), SyntaxInvalid(key, locale)) ]
    + seq(|names|, i requires 0 <= i < |names| =>
        Line(TemplateTokens.Root(names[i]) in declared,
          VariableUnknown(key, locale, TemplateTokens.Root(names[i]))))
  }

  /** What a content must meet: its layout, and the tokens of its texts in order. */
  ghost function ContentChecks(t: Template, locale: string, content: TemplateContent, declared: set<string>,
      entry: Entry): seq<Line<TemplateError>>
  {
    LayoutChecks(t, locale, content, entry) + TextTables(t.key, locale, Sources(content), declared)
  }

  ghost function TextTables(key: string, locale: string, texts: seq<string>, declared: set<string>)
    : seq<Line<TemplateError>>
  {
    Chain(seq(|texts|, i requires 0 <= i < |texts| => TextChecks(key, locale, texts[i], declared)))
  }

  function TextError(key: string, locale: string, verdict: TemplateTokens.Verdict): Option<TemplateError> {
    match verdict
    case Valid => None
    case SyntaxInvalid => Some(SyntaxInvalid(key, locale))
    case VariableUnknown(root) => Some(VariableUnknown(key, locale, root))
  }

  lemma NamesTable(key: string, locale: string, names: seq<string>, declared: set<string>)
    ensures Decides(
      seq(|names|, i requires 0 <= i < |names| =>
        Line(TemplateTokens.Root(names[i]) in declared, VariableUnknown(key, locale, TemplateTokens.Root(names[i])))),
      TextError(key, locale, TemplateTokens.FirstUnknown(names, declared)))
  {
    hide TemplateTokens.Root;
    TemplateTokens.FirstUnknownAt(names, declared);
    var v := TemplateTokens.FirstUnknown(names, declared);
    var checks: seq<Line<TemplateError>> := seq(|names|, i requires 0 <= i < |names| =>
      Line(TemplateTokens.Root(names[i]) in declared, VariableUnknown(key, locale, TemplateTokens.Root(names[i]))));
    if v.VariableUnknown? {
      var i: nat :| TemplateTokens.FirstUndeclared(names, declared, i) && v.root == TemplateTokens.Root(names[i]);
      assert FailsFirst(checks, i);
    }
  }

  lemma TextTable(key: string, locale: string, text: string, declared: set<string>)
    ensures Decides(TextChecks(key, locale, text, declared),
      TextError(key, locale, TemplateTokens.Check(text, declared)))
  {
    var segments := TemplateTokens.Scan(text);
    var names := TemplateTokens.Names(segments);
    NamesTable(key, locale, names, declared);
    TemplateTokens.FirstUnknownAt(names, declared);
    hide TemplateTokens.Scan, TemplateTokens.Names, TemplateTokens.HasDoubleBrace, TemplateTokens.Consumed;
    hide TemplateTokens.FirstUnknown, TemplateTokens.Root;
    var syntax := !TemplateTokens.HasDoubleBrace(TemplateTokens.Consumed(segments));
    var head: seq<Line<TemplateError>> := [Line(syntax, SyntaxInvalid(key, locale))];
    assert syntax || FailsFirst(head, 0);
    DecidesConcat(head,
      seq(|names|, i requires 0 <= i < |names| =>
        Line(TemplateTokens.Root(names[i]) in declared, VariableUnknown(key, locale, TemplateTokens.Root(names[i])))),
      if syntax then None else Some(SyntaxInvalid(key, locale)),
      TextError(key, locale, TemplateTokens.FirstUnknown(names, declared)));
  }

  lemma {:induction false} FirstBadText(key: string, locale: string, texts: seq<string>, declared: set<string>)
    returns (n: nat)
    ensures n <= |texts| && (TokensError(key, locale, texts, declared).None? <==> n == |texts|)
    ensures forall i | 0 <= i < n :: TemplateTokens.Check(texts[i], declared).Valid?
    ensures n < |texts| ==>
      TokensError(key, locale, texts, declared) == TextError(key, locale, TemplateTokens.Check(texts[n], declared))
  {
    hide TemplateTokens.Check;
    if texts == [] || !TemplateTokens.Check(texts[0], declared).Valid? {
      n := 0;
    } else {
      var k := FirstBadText(key, locale, texts[1..], declared);
      n := k + 1;
      assert forall i | 1 <= i < |texts| :: texts[i] == texts[1..][i - 1];
    }
  }

  lemma TextsTable(key: string, locale: string, texts: seq<string>, declared: set<string>)
    ensures Decides(TextTables(key, locale, texts, declared), TokensError(key, locale, texts, declared))
  {
    var n := FirstBadText(key, locale, texts, declared);
    hide TextChecks, TemplateTokens.Check, Decides, Chain, TokensError;
    var tables := seq(|texts|, i requires 0 <= i < |texts| => TextChecks(key, locale, texts[i], declared));
    forall i | 0 <= i < |texts|
      ensures Decides(tables[i], TextError(key, locale, TemplateTokens.Check(texts[i], declared)))
    {
      TextTable(key, locale, texts[i], declared);
    }
    ChainDecides(tables, n, TokensError(key, locale, texts, declared));
  }

  /** A content is refused for the first check that fails, layout first, then the texts in their order. */
  lemma ContentTable(t: Template, locale: string, content: TemplateContent, declared: set<string>, entry: Entry)
    ensures Decides(ContentChecks(t, locale, content, declared, entry),
      ContentError(t, locale, content, declared, entry))
  {
    LayoutTable(t, locale, content, entry);
    TextsTable(t.key, locale, Sources(content), declared);
    hide LayoutChecks, TextTables, LayoutError, TokensError, Sources, Decides;
    DecidesConcat(LayoutChecks(t, locale, content, entry), TextTables(t.key, locale, Sources(content), declared),
      LayoutError(t, locale, content, entry), TokensError(t.key, locale, Sources(content), declared));
  }

  // ---- the check as the source performs it ----

  method ContainsLineBreak(s: string) returns (found: bool)
    ensures found == HasLineBreak(s)
  {
    var i := 0;
    while i < |s|
      invariant 0 <= i <= |s|
      invariant forall j | 0 <= j < i :: !LineBreak(s[j])
    {
      if s[i] == '\r' || s[i] == '\n' {
        return true;
      }
      i := i + 1;
    }
    return false;
  }

  /** The sources after the first i facts. */
  function WithFacts(start: seq<string>, facts: seq<Fact>, i: nat): seq<string>
    requires i <= |facts|
  {
    start + FactTexts(facts[..i])
  }

  lemma WithFactsEnds(start: seq<string>, facts: seq<Fact>)
    ensures WithFacts(start, facts, 0) == start && WithFacts(start, facts, |facts|) == start + FactTexts(facts)
  {
    assert facts[..|facts|] == facts && facts[..0] == [];
    assert start + FactTexts([]) == start;
  }

  lemma WithFactsNext(start: seq<string>, facts: seq<Fact>, i: nat)
    requires i < |facts|
    ensures WithFacts(start, facts, i) + [facts[i].key, facts[i].value] == WithFacts(start, facts, i + 1)
  {
    FactTextsNext(facts, i);
    hide FactTexts;
    Associates(start, FactTexts(facts[..i]), [facts[i].key, facts[i].value]);
  }

  /** The sources after the first i actions. */
  function WithActions(start: seq<string>, actions: seq<Action>, i: nat): seq<string>
    requires i <= |actions|
  {
    start + ActionTexts(actions[..i])
  }

  lemma WithActionsEnds(start: seq<string>, actions: seq<Action>)
    ensures WithActions(start, actions, 0) == start
      && WithActions(start, actions, |actions|) == start + ActionTexts(actions)
  {
    assert actions[..|actions|] == actions && actions[..0] == [];
    assert start + ActionTexts([]) == start;
  }

  lemma WithActionsNext(start: seq<string>, actions: seq<Action>, i: nat)
    requires i < |actions|
    ensures WithActions(start, actions, i) + [actions[i].caption, actions[i].url] == WithActions(start, actions, i + 1)
  {
    assert actions[..i + 1][..i] == actions[..i];
    assert ActionTexts(actions[..i + 1]) == ActionTexts(actions[..i]) + [actions[i].caption, actions[i].url];
    hide ActionTexts;
    Associates(start, ActionTexts(actions[..i]), [actions[i].caption, actions[i].url]);
  }

  method CheckFacts(content: TemplateContent, c: Capability, start: seq<string>)
    returns (ok: bool, sources: seq<string>)
    ensures ok == FactsOk(content, c)
    ensures ok ==> sources == start + FactTexts(content.facts)
  {
    hide Blank, WithFacts, FactTexts;
    sources := start;
    WithFactsEnds(start, content.facts);
    var i := 0;
    while i < |content.facts|
      invariant 0 <= i <= |content.facts|
      invariant forall j | 0 <= j < i :: FactOk(content.facts[j], c)
      invariant sources == WithFacts(start, content.facts, i)
    {
      var fact := content.facts[i];
      if Blank(fact.key) || Blank(fact.value) || !c.supportsFacts {
        assert !FactOk(content.facts[i], c);
        return false, sources;
      }
      WithFactsNext(start, content.facts, i);
      sources := sources + [fact.key, fact.value];
      i := i + 1;
    }
    return true, sources;
  }

  method CheckActions(content: TemplateContent, c: Capability, start: seq<string>)
    returns (ok: bool, sources: seq<string>)
    ensures ok == ActionsOk(content, c)
    ensures ok ==> sources == start + ActionTexts(content.actions)
  {
    hide Blank, Style, TrimSpace, WithActions, ActionTexts;
    sources := start;
    WithActionsEnds(start, content.actions);
    var i := 0;
    while i < |content.actions|
      invariant 0 <= i <= |content.actions|
      invariant forall j | 0 <= j < i :: ActionOk(content.actions[j], c)
      invariant sources == WithActions(start, content.actions, i)
    {
      var action := content.actions[i];
      var style := TrimSpace(action.style);
      if Blank(action.caption) || Blank(action.url) || !c.supportsURLActions || !Style(style) {
        assert !ActionOk(content.actions[i], c);
        return false, sources;
      }
      WithActionsNext(start, content.actions, i);
      sources := sources + [action.caption, action.url];
      i := i + 1;
    }
    return true, sources;
  }

  method CollectParameters(components: seq<Component>, start: seq<string>) returns (sources: seq<string>)
    ensures sources == start + Parameters(components)
  {
    sources := start;
    var i := 0;
    while i < |components|
      invariant 0 <= i <= |components|
      invariant sources == start + Parameters(components[..i])
    {
      assert components[..i + 1][..i] == components[..i];
      sources := sources + components[i].parameters;
      i := i + 1;
    }
    assert components[..i] == components;
  }

  method CheckTokens(key: string, locale: string, sources: seq<string>, variables: map<string, Variable>)
    returns (err: Option<TemplateError>)
    ensures err == TokensError(key, locale, sources, variables.Keys)
  {
    var i := 0;
    while i < |sources|
      invariant 0 <= i <= |sources|
      invariant TokensError(key, locale, sources, variables.Keys) ==
        TokensError(key, locale, sources[i..], variables.Keys)
    {
      var verdict := TemplateTokens.ValidateTokens(sources[i], variables.Keys);
      if verdict.SyntaxInvalid? {
        return Some(SyntaxInvalid(key, locale));
      }
      if verdict.VariableUnknown? {
        return Some(VariableUnknown(key, locale, verdict.root));
      }
      i := i + 1;
    }
    return None;
  }

  method ValidateTemplateContent(value: Template, locale: string, content: TemplateContent,
        variables: map<string, Variable>, entry: Entry)
    returns (err: Option<TemplateError>)
    ensures err == ContentError(value, locale, content, variables.Keys, entry)
  {
    hide Blank, HasLineBreak, FactsOk, ActionsOk, TokensError, ContentOk, FactTexts, ActionTexts, Parameters;
    var c := entry.capability;
    if Blank(locale) {
      return Some(LocaleInvalid(value.key));
    }
    if c.channel == "email" && Blank(content.subject) {
      return Some(SubjectRequired(value.key, locale));
    }
    var broken := ContainsLineBreak(content.subject + content.title);
    if broken {
      return Some(SubjectInvalid(value.key, locale));
    }
    if (c.channel == "email" && Blank(content.text) && Blank(content.html))
      || (c.channel != "email" && Blank(content.text) && Blank(content.markdown)) {
      return Some(BodyRequired(value.key, locale));
    }
    if (!Blank(content.html) && !c.supportsHTML) || (!Blank(content.markdown) && !c.supportsMarkdown) {
      return Some(ChannelMismatch(value.key, locale));
    }
    if |content.facts| > c.maxFacts || |content.actions| > c.maxActions {
      return Some(ComponentsLimit(value.key, locale));
    }
    var ok, sources := CheckFacts(content, c,
      [content.subject, content.title, content.text, content.html, content.markdown]);
    if !ok {
      return Some(FactInvalid(value.key, locale));
    }
    ok, sources := CheckActions(content, c, sources);
    if !ok {
      return Some(ActionInvalid(value.key, locale));
    }
    if content.providerTemplate.Some? {
      if !c.supportsProviderTemplate {
        return Some(ProviderTemplateUnsupported(value.key, locale, value.provider));
      }
      if |content.facts| > 0 || |content.actions| > 0 {
        return Some(ProviderTemplateComponentsConflict(value.key, locale));
      }
      if entry.validate.Some? && !entry.validate.value(content.providerTemplate.value) {
        return Some(ProviderTemplateInvalid(value.key, locale, value.provider));
      }
      sources := CollectParameters(content.providerTemplate.value.components, sources);
    }
    assert sources == Sources(content);
    err := CheckTokens(value.key, locale, sources, variables);
  }
}
