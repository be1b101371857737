/** Event types of the governance catalog (contract/catalog_validation.go 90-157). The slices of variables
    and actions are the caller's, and validation writes trimmed entries into them. Maps are visited in
    an order that validation does not choose. */
module EventCatalog {
  import opened Text
  import opened Tables
  import opened Enumerations
  import opened TemplateTokens
  import opened Models
  import SensitiveKeys
  import WordMatching

  datatype Descriptor = Descriptor(key: string, kind: string, resourceType: string, routeKey: string)

  datatype Content = Content(title: string, body: string, facts: seq<Fact>, actionLabels: map<string, string>)

  datatype EventType = EventType(
    key: string,
    source: string,
    category: string,
    severity: string,
    mandatoryInApp: bool,
    templateKey: string,
    defaultLocale: string,
    locales: map<string, Content>,
    variables: array<Variable>,
    actions: array<Descriptor>,
    audienceResolvers: seq<string>,
    version: int,
    status: string)

  /** The failures, one constructor for each code backend.notification.event_type_*, with its parameters. */
  datatype Error =
    | Invalid(eventType: string)
    | LocaleInvalid(eventType: string)
    | SeverityInvalid(eventType: string)
    | VariableInvalid(eventType: string, variable: string)
    | VariableUnsafe(eventType: string, variable: string)
    | ActionInvalid(eventType: string)
    | ActionLabelMissing(eventType: string, locale: string, actionKey: string)
    | ContentInvalid(eventType: string)
    | VariableUnknown(eventType: string, locale: string)

  // ---- trimming ----

  function TidyVariable(v: Variable): Variable {
    v.(key := TrimSpace(v.key), kind := TrimSpace(v.kind))
  }

  function TidyDescriptor(d: Descriptor): Descriptor {
    Descriptor(TrimSpace(d.key), TrimSpace(d.kind), TrimSpace(d.resourceType), TrimSpace(d.routeKey))
  }

  function TidyVariables(s: seq<Variable>): seq<Variable> {
    seq(|s|, i requires 0 <= i < |s| => TidyVariable(s[i]))
  }

  function TidyDescriptors(s: seq<Descriptor>): seq<Descriptor> {
    seq(|s|, i requires 0 <= i < |s| => TidyDescriptor(s[i]))
  }

  /** Only the strings of the value itself; the slices stay the caller's. */
  function Tidy(value: EventType): EventType {
    value.(
      key := TrimSpace(value.key), source := TrimSpace(value.source), category := TrimSpace(value.category),
      severity := TrimSpace(value.severity), templateKey := TrimSpace(value.templateKey),
      status := TrimSpace(value.status), defaultLocale := TrimSpace(value.defaultLocale))
  }

  // ---- what is accepted, on trimmed entries ----

  predicate HeaderOk(v: EventType) {
    && StableKey(v.key) && StableKey(v.source) && StableKey(v.category) && StableKey(v.templateKey)
    && v.version >= 1 && v.status == "published"
    && v.defaultLocale != "" && v.defaultLocale in v.locales
    && (v.severity == "info" || v.severity == "warning" || v.severity == "critical")
  }

  predicate VariableKind(kind: string) {
    || kind == "boolean" || kind == "date" || kind == "datetime" || kind == "email"
    || kind == "number" || kind == "string" || kind == "text"
  }

  predicate Safe(v: Variable) {
    VariableKind(v.kind) && !SensitiveKeys.CatalogSensitiveVariableKey(v.key)
  }

  predicate FreshKey(s: seq<Variable>, i: nat)
    requires i < |s|
  {
    StableKey(s[i].key) && forall j | 0 <= j < i :: s[j].key != s[i].key
  }

  predicate VariableOk(s: seq<Variable>, i: nat)
    requires i < |s|
  {
    FreshKey(s, i) && Safe(s[i])
  }

  predicate WellFormed(d: Descriptor) {
    StableKey(d.key) && (d.kind == "route" || d.kind == "business_action") && StableKey(d.resourceType)
      && StableKey(d.routeKey)
  }

  /** Reading an absent key of a Go map gives the empty string. */
  function Label(content: Content, key: string): string {
    if key in content.actionLabels then content.actionLabels[key] else ""
  }

  predicate Labelled(d: Descriptor, locales: map<string, Content>) {
    forall locale | locale in locales :: !Blank(Label(locales[locale], d.key))
  }

  predicate DescriptorOk(d: Descriptor, locales: map<string, Content>) {
    WellFormed(d) && Labelled(d, locales)
  }

  function Keys(s: seq<Variable>): set<string> {
    set v | v in s :: v.key
  }

  predicate AllIn(names: seq<string>, keys: set<string>) {
    forall name | name in names :: name in keys
  }

  /** Every token of the source is the whole key of a variable. */
  predicate Known(source: string, keys: set<string>) {
    AllIn(Names(Scan(source)), keys)
  }

  predicate IsFragment(content: Content, source: string) {
    || source == content.title || source == content.body
    || (exists f | f in content.facts :: source == f.key || source == f.value)
    || source in content.actionLabels.Values
  }

  predicate Written(locale: string, content: Content) {
    !Blank(locale) && !Blank(content.title) && !Blank(content.body)
  }

  ghost predicate ContentOk(locale: string, content: Content, keys: set<string>) {
    Written(locale, content) && forall source :: IsFragment(content, source) ==> Known(source, keys)
  }

  ghost predicate VariablesOk(s: seq<Variable>) {
    forall i | 0 <= i < |s| :: VariableOk(s, i)
  }

  ghost predicate DescriptorsOk(s: seq<Descriptor>, locales: map<string, Content>) {
    forall i | 0 <= i < |s| :: DescriptorOk(s[i], locales)
  }

  ghost predicate ContentsOk(locales: map<string, Content>, keys: set<string>) {
    forall locale | locale in locales :: ContentOk(locale, locales[locale], keys)
  }

  /** The event type is acceptable with these entries in its slices. No order of anything matters. */
  ghost predicate Acceptable(value: EventType, variables: seq<Variable>, actions: seq<Descriptor>) {
    && HeaderOk(Tidy(value))
    && VariablesOk(TidyVariables(variables))
    && DescriptorsOk(TidyDescriptors(actions), value.locales)
    && ContentsOk(value.locales, Keys(TidyVariables(variables)))
  }

  // ---- how far validation gets ----

  /** The first position from which on an entry fails, or the length. */
  function GoodVariables(s: seq<Variable>, from: nat): (n: nat)
    requires from <= |s|
    ensures from <= n <= |s| && (n < |s| ==> !VariableOk(s, n))
    ensures forall k | from <= k < n :: VariableOk(s, k)
    decreases |s| - from
  {
    if from == |s| || !VariableOk(s, from) then from else GoodVariables(s, from + 1)
  }

  function GoodDescriptors(s: seq<Descriptor>, locales: map<string, Content>, from: nat): (n: nat)
    requires from <= |s|
    ensures from <= n <= |s| && (n < |s| ==> !DescriptorOk(s[n], locales))
    ensures forall k | from <= k < n :: DescriptorOk(s[k], locales)
    decreases |s| - from
  {
    if from == |s| || !DescriptorOk(s[from], locales) then from else GoodDescriptors(s, locales, from + 1)
  }

  /** How many actions are overwritten: one that is well formed is, before its labels are looked up. */
  function DescriptorsWritten(s: seq<Descriptor>, locales: map<string, Content>): (n: nat)
    ensures n <= |s|
  {
    var n := GoodDescriptors(s, locales, 0);
    if n < |s| && WellFormed(s[n]) then n + 1 else n
  }

  /** was with its first n entries replaced. */
  function Overwritten<T>(was: seq<T>, s: seq<T>, n: nat): seq<T>
    requires |s| == |was| && n <= |was|
  {
    s[..n] + was[n..]
  }

  /** The caller's variables when validation ends: trimmed up to the first bad one, and as they were
      beyond it. */
  function VariablesAfter(value: EventType, variables: seq<Variable>): seq<Variable> {
    if HeaderOk(Tidy(value)) then
      Overwritten(variables, TidyVariables(variables), GoodVariables(TidyVariables(variables), 0))
    else variables
  }

  predicate ReachesActions(value: EventType, variables: seq<Variable>) {
    HeaderOk(Tidy(value)) && GoodVariables(TidyVariables(variables), 0) == |variables|
  }

  function ActionsAfter(value: EventType, variables: seq<Variable>, actions: seq<Descriptor>): seq<Descriptor> {
    if ReachesActions(value, variables) then
      Overwritten(actions, TidyDescriptors(actions), DescriptorsWritten(TidyDescriptors(actions), value.locales))
    else actions
  }

  /** The errors validation may end with. Only the locale that is named, and which of two complaints
      about contents is made, is left to the order in which maps are visited. */
  ghost predicate MayReport(value: EventType, variables: seq<Variable>, actions: seq<Descriptor>, e: Error) {
    var v := Tidy(value);
    var vs := TidyVariables(variables);
    var ds := TidyDescriptors(actions);
    && e.eventType == v.key
    && if !HeaderOk(v) then e == HeaderError(v)
       else if !VariablesOk(vs) then e == VariableError(v.key, vs, GoodVariables(vs, 0))
       else if !DescriptorsOk(ds, v.locales) then DescriptorError(v.locales, ds[GoodDescriptors(ds, v.locales, 0)], e)
       else ContentError(v.locales, Keys(vs), e)
  }

  function HeaderError(v: EventType): Error
    requires !HeaderOk(v)
  {
    if !(StableKey(v.key) && StableKey(v.source) && StableKey(v.category) && StableKey(v.templateKey)
         && v.defaultLocale != "" && v.locales != map[] && v.version >= 1 && v.status == "published") then
           Invalid(v.key)
    else if v.defaultLocale !in v.locales then LocaleInvalid(v.key)
    else SeverityInvalid(v.key)
  }

  function VariableError(eventType: string, s: seq<Variable>, i: nat): Error
    requires i < |s|
  {
    if FreshKey(s, i) then VariableUnsafe(eventType, s[i].key) else VariableInvalid(eventType, s[i].key)
  }

  predicate DescriptorError(locales: map<string, Content>, d: Descriptor, e: Error) {
    if WellFormed(d) then
      e.ActionLabelMissing? && e.actionKey == d.key && e.locale in locales && Blank(Label(locales[e.locale], d.key))
    else e.ActionInvalid?
  }

  ghost predicate ContentError(locales: map<string, Content>, keys: set<string>, e: Error) {
    || (e.ContentInvalid? && exists locale | locale in locales :: !Written(locale, locales[locale]))
    || (e.VariableUnknown? && e.locale in locales && Written(e.locale, locales[e.locale])
        && exists source :: IsFragment(locales[e.locale], source) && !Known(source, keys))
  }

  lemma OverwriteAt<T>(was: seq<T>, s: seq<T>, n: nat, i: nat)
    requires |s| == |was| && n <= |was| && i < |was|
    ensures |Overwritten(was, s, n)| == |was| && Overwritten(was, s, n)[i] == if i < n then s[i] else was[i]
  {
  }

  lemma OverwriteNext<T>(was: seq<T>, s: seq<T>, n: nat)
    requires |s| == |was| && n < |was|
    ensures Overwritten(was, s, n)[n] == was[n]
    ensures Overwritten(was, s, n)[n := s[n]] == Overwritten(was, s, n + 1)
  {
  }

  // ---- one answer for each order ----

  /** The first of the order that is bad. */
  function First(order: seq<string>, bad: set<string>): Option<string> {
    if order == [] then None
    else if order[0] in bad then Some(order[0])
    else First(order[1..], bad)
  }

  lemma {:induction false} FirstIsBad(order: seq<string>, bad: set<string>)
    ensures First(order, bad).None? <==> forall x | x in order :: x !in bad
    ensures First(order, bad).Some? ==> First(order, bad).value in bad
  {
    if order == [] {
    } else {
      FirstIsBad(order[1..], bad);
      assert order == [order[0]] + order[1..];
    }
  }

  lemma {:induction false} SomeOrder(keys: set<string>) returns (order: seq<string>)
    ensures Enumerates(order, keys)
    decreases |keys|
  {
    if keys == {} {
      order := [];
    } else {
      var x :| x in keys;
      var rest := SomeOrder(keys - {x});
      order := [x] + rest;
    }
  }

  lemma {:induction false} FirstAfter(good: seq<string>, x: string, rest: seq<string>, bad: set<string>)
    requires x in bad && forall y | y in good :: y !in bad
    ensures First(good + [x] + rest, bad) == Some(x)
  {
    if good == [] {
      assert (good + [x] + rest)[0] == x;
    } else {
      FirstAfter(good[1..], x, rest, bad);
      assert (good + [x] + rest)[1..] == good[1..] + [x] + rest;
    }
  }

  lemma JoinOrders(visited: seq<string>, x: string, rest: seq<string>, keys: set<string>, left: set<string>)
    requires left <= keys && x in left && Enumerates(visited, keys - left) && Enumerates(rest, left - {x})
    ensures Enumerates(visited + [x] + rest, keys)
  {
    var whole := visited + [x] + rest;
    assert forall i | 0 <= i < |visited| :: visited[i] in visited;
    assert forall i | 0 <= i < |rest| :: rest[i] in rest;
    forall y ensures y in whole <==> y in keys {
      assert y in whole <==> y in visited || y == x || y in rest;
    }
  }

  /** A loop that stops at the first bad key has visited the beginning of an order of all keys. */
  lemma CompletedOrder(visited: seq<string>, x: string, keys: set<string>, left: set<string>, bad: set<string>)
    returns (order: seq<string>)
    requires left <= keys && x in left && Enumerates(visited, keys - left)
    requires x in bad && forall y | y in visited :: y !in bad
    ensures Enumerates(order, keys) && First(order, bad) == Some(x)
  {
    var rest := SomeOrder(left - {x});
    order := visited + [x] + rest;
    JoinOrders(visited, x, rest, keys, left);
    FirstAfter(visited, x, rest, bad);
  }

  lemma VisitNext(visited: seq<string>, x: string, keys: set<string>, left: set<string>)
    requires left <= keys && x in left && Enumerates(visited, keys - left)
    ensures Enumerates(visited + [x], keys - (left - {x}))
  {
    assert forall i | 0 <= i < |visited| :: visited[i] in visited;
    forall y ensures y in visited + [x] <==> y in keys - (left - {x}) {
      assert y in visited + [x] <==> y in visited || y == x;
    }
  }

  function Unlabelled(locales: map<string, Content>, key: string): set<string> {
    set locale | locale in locales && Blank(Label(locales[locale], key))
  }

  ghost function BadContents(locales: map<string, Content>, keys: set<string>): set<string> {
    set locale | locale in locales && !ContentOk(locale, locales[locale], keys)
  }

  function ErrorAt(eventType: string, locale: string, content: Content): Error {
    if Written(locale, content) then Error.VariableUnknown(eventType, locale) else ContentInvalid(eventType)
  }

  function DescriptorReported(eventType: string, locales: map<string, Content>, d: Descriptor, order: seq<string>)
    : Error
  {
    if !WellFormed(d) then ActionInvalid(eventType)
    else match First(order, Unlabelled(locales, d.key))
      case Some(locale) => ActionLabelMissing(eventType, locale, d.key)
      case None => ActionInvalid(eventType)
  }

  lemma DescriptorFails(eventType: string, locales: map<string, Content>, d: Descriptor, order: seq<string>)
    requires Enumerates(order, locales.Keys)
    ensures var missing := First(order, Unlabelled(locales, d.key));
      var e := DescriptorReported(eventType, locales, d, order);
      && (DescriptorOk(d, locales) <==> WellFormed(d) && missing.None?)
      && (!DescriptorOk(d, locales) ==> e.eventType == eventType && DescriptorError(locales, d, e))
      && (!WellFormed(d) ==> e == ActionInvalid(eventType))
      && (WellFormed(d) && missing.Some? ==> e == ActionLabelMissing(eventType, missing.value, d.key))
  {
    FirstIsBad(order, Unlabelled(locales, d.key));
  }

  ghost function ContentsReported(eventType: string, locales: map<string, Content>, keys: set<string>,
      order: seq<string>): Option<Error>
  {
    match First(order, BadContents(locales, keys))
    case None => None
    case Some(locale) =>
      FirstIsBad(order, BadContents(locales, keys));
      Some(ErrorAt(eventType, locale, locales[locale]))
  }

  /** What validation answers when the map loop that can fail visits the locales in this order. At most one
      of them fails in a run: the labels of the first bad action, or else the contents. */
  ghost function Reported(value: EventType, variables: seq<Variable>, actions: seq<Descriptor>, order: seq<string>)
    : Option<Error>
  {
    var v, vs, ds := Tidy(value), TidyVariables(variables), TidyDescriptors(actions);
    var n := GoodDescriptors(ds, value.locales, 0);
    if !HeaderOk(v) then Some(HeaderError(v))
    else if !VariablesOk(vs) then Some(VariableError(v.key, vs, GoodVariables(vs, 0)))
    else if n < |ds| then Some(DescriptorReported(v.key, value.locales, ds[n], order))
    else ContentsReported(v.key, value.locales, Keys(vs), order)
  }

  // ---- the same answer as a table of checks on what the caller passed in ----

  /** The header. */
  ghost function HeaderChecks(value: EventType): seq<Line<Error>> {
    var key := TrimSpace(value.key);
    [ Line(
        && StableKey(key) && StableKey(TrimSpace(value.source)) && StableKey(TrimSpace(value.category))
        && StableKey(TrimSpace(value.templateKey)) && TrimSpace(value.defaultLocale) != "" && value.locales != map[]
        && value.version >= 1 && TrimSpace(value.status) == "published", Invalid(key)),
      Line(TrimSpace(value.defaultLocale) in value.locales, LocaleInvalid(key)),
      Line(TrimSpace(value.severity) in {"info", "warning", "critical"}, SeverityInvalid(key)) ]
  }

  /** Variable i. */
  ghost function VariableChecks(eventType: string, variables: seq<Variable>, i: nat): seq<Line<Error>>
    requires i < |variables|
  {
    var key, kind := TrimSpace(variables[i].key), TrimSpace(variables[i].kind);
    [ Line(StableKey(key) && forall j | 0 <= j < i :: TrimSpace(variables[j].key) != key,
        VariableInvalid(eventType, key)),
      Line(kind in {"boolean", "date", "datetime", "email", "number", "string", "text"}
          && !SensitiveKeys.CatalogSensitiveVariableKey(key), VariableUnsafe(eventType, key)) ]
  }

  /** The label of an action in one locale. */
  ghost function LabelCheck(eventType: string, locales: map<string, Content>, key: string, locale: string)
    : Line<Error>
  {
    Line(locale in locales ==>
        var labels := locales[locale].actionLabels;
        key in labels && !Blank(labels[key]), ActionLabelMissing(eventType, locale, key))
  }

  /** An action, and its labels in the order in which the locales are visited. */
  ghost function ActionChecks(eventType: string, locales: map<string, Content>, d: Descriptor, order: seq<string>)
    : seq<Line<Error>>
  {
    [ Line(
        && StableKey(TrimSpace(d.key)) && TrimSpace(d.kind) in {"route", "business_action"}
        && StableKey(TrimSpace(d.resourceType)) && StableKey(TrimSpace(d.routeKey)), ActionInvalid(eventType)) ]
    + seq(|order|, i requires 0 <= i < |order| => LabelCheck(eventType, locales, TrimSpace(d.key), order[i]))
  }

  /** The contents of one locale. */
  ghost function ContentChecks(eventType: string, locales: map<string, Content>, declared: set<string>, locale: string)
    : seq<Line<Error>>
  {
    [ Line(locale in locales ==>
          !Blank(locale) && !Blank(locales[locale].title) && !Blank(locales[locale].body), ContentInvalid(eventType)),
      Line(locale in locales ==>
          forall text, name | IsFragment(locales[locale], text) && name in Names(Scan(text)) :: name in declared,
        Error.VariableUnknown(eventType, locale)) ]
  }

  /** Everything, when the locales are visited in this order: the header, the variables, the actions and the
      contents. */
  ghost function EventTypeChecks(value: EventType, variables: seq<Variable>, actions: seq<Descriptor>,
      order: seq<string>): seq<Line<Error>>
  {
    var key, declared := TrimSpace(value.key), set v | v in variables :: TrimSpace(v.key);
    HeaderChecks(value)
    + (VariableTables(key, variables) + (ActionTables(key, value.locales, actions, order)
       + ContentTables(key, value.locales, declared, order)))
  }

  ghost function VariableTables(eventType: string, variables: seq<Variable>): seq<Line<Error>> {
    Chain(seq(|variables|, i requires 0 <= i < |variables| => VariableChecks(eventType, variables, i)))
  }

  ghost function ActionTables(eventType: string, locales: map<string, Content>, actions: seq<Descriptor>,
      order: seq<string>): seq<Line<Error>>
  {
    Chain(seq(|actions|, i requires 0 <= i < |actions| => ActionChecks(eventType, locales, actions[i], order)))
  }

  ghost function ContentTables(eventType: string, locales: map<string, Content>, declared: set<string>,
      order: seq<string>): seq<Line<Error>>
  {
    Chain(seq(|order|, i requires 0 <= i < |order| => ContentChecks(eventType, locales, declared, order[i])))
  }

  lemma HeaderTable(value: EventType)
    ensures Decides(HeaderChecks(value), if HeaderOk(Tidy(value)) then None else Some(HeaderError(Tidy(value))))
  {
    hide StableKey, TrimSpace;
    var checks := HeaderChecks(value);
    if HeaderOk(Tidy(value)) {
    } else if HeaderError(Tidy(value)).Invalid? {
      assert FailsFirst(checks, 0);
    } else if HeaderError(Tidy(value)).LocaleInvalid? {
      assert FailsFirst(checks, 1);
    } else {
      assert FailsFirst(checks, 2);
    }
  }

  lemma VariableTable(eventType: string, variables: seq<Variable>, i: nat)
    requires i < |variables|
    ensures var s := TidyVariables(variables);
      Decides(VariableChecks(eventType, variables, i),
        if VariableOk(s, i) then None else Some(VariableError(eventType, s, i)))
  {
    hide StableKey, TrimSpace, SensitiveKeys.CatalogSensitiveVariableKey;
    var checks, s := VariableChecks(eventType, variables, i), TidyVariables(variables);
    assert s[i].key == TrimSpace(variables[i].key) && s[i].kind == TrimSpace(variables[i].kind);
    assert forall j | 0 <= j < i :: s[j].key == TrimSpace(variables[j].key);
    assert checks[0].passes <==> FreshKey(s, i);
    if !FreshKey(s, i) {
      assert FailsFirst(checks, 0);
    } else if !Safe(s[i]) {
      assert FailsFirst(checks, 1);
    }
  }

  lemma VariablesTable(eventType: string, variables: seq<Variable>)
    ensures var s := TidyVariables(variables);
      Decides(VariableTables(eventType, variables),
        if VariablesOk(s) then None else Some(VariableError(eventType, s, GoodVariables(s, 0))))
  {
    hide VariableChecks, VariableOk, VariableError, Decides, Chain, TidyVariable;
    var s := TidyVariables(variables);
    var n := GoodVariables(s, 0);
    var tables := seq(|variables|, i requires 0 <= i < |variables| => VariableChecks(eventType, variables, i));
    forall i | 0 <= i < |tables|
      ensures Decides(tables[i], if VariableOk(s, i) then None else Some(VariableError(eventType, s, i)))
    {
      VariableTable(eventType, variables, i);
    }
    ChainDecides(tables, n, if n == |s| then None else Some(VariableError(eventType, s, n)));
  }

  lemma {:induction false} FirstAt(order: seq<string>, bad: set<string>) returns (i: nat)
    ensures i <= |order| && forall j | 0 <= j < i :: order[j] !in bad
    ensures First(order, bad) == if i < |order| then Some(order[i]) else None
    ensures i < |order| ==> order[i] in bad
  {
    if order == [] || order[0] in bad {
      i := 0;
    } else {
      var k := FirstAt(order[1..], bad);
      i := k + 1;
    }
  }

  lemma LabelTable(eventType: string, locales: map<string, Content>, key: string, locale: string)
    ensures LabelCheck(eventType, locales, key, locale).passes <==> locale !in Unlabelled(locales, key)
  {
    assert Blank("");
  }

  lemma LabelsTable(eventType: string, locales: map<string, Content>, key: string, order: seq<string>)
    ensures var checks := seq(|order|, i requires 0 <= i < |order| => LabelCheck(eventType, locales, key, order[i]));
      Decides(checks, match First(order, Unlabelled(locales, key))
                      case None => None
                      case Some(locale) => Some(ActionLabelMissing(eventType, locale, key)))
  {
    hide Unlabelled, Blank, First;
    var checks := seq(|order|, i requires 0 <= i < |order| => LabelCheck(eventType, locales, key, order[i]));
    forall i | 0 <= i < |order| ensures checks[i].passes <==> order[i] !in Unlabelled(locales, key) {
      LabelTable(eventType, locales, key, order[i]);
    }
    var n := FirstAt(order, Unlabelled(locales, key));
    if n < |order| {
      assert FailsFirst(checks, n);
    }
  }

  lemma ActionTable(eventType: string, locales: map<string, Content>, d: Descriptor, order: seq<string>)
    requires Enumerates(order, locales.Keys)
    ensures Decides(ActionChecks(eventType, locales, d, order),
      if DescriptorOk(TidyDescriptor(d), locales) then None
      else Some(DescriptorReported(eventType, locales, TidyDescriptor(d), order)))
  {
    var t := TidyDescriptor(d);
    DescriptorFails(eventType, locales, t, order);
    LabelsTable(eventType, locales, t.key, order);
    hide StableKey, TrimSpace, Enumerates, DescriptorOk, DescriptorError, DescriptorReported, First, Unlabelled;
    var head: seq<Line<Error>> := [Line(WellFormed(t), ActionInvalid(eventType))];
    var labels := seq(|order|, i requires 0 <= i < |order| => LabelCheck(eventType, locales, t.key, order[i]));
    var missing := First(order, Unlabelled(locales, t.key));
    var answer: Option<Error> := match missing
      case None => None
      case Some(locale) => Some(ActionLabelMissing(eventType, locale, t.key));
    assert WellFormed(t) || FailsFirst(head, 0);
    DecidesConcat(head, labels, if WellFormed(t) then None else Some(ActionInvalid(eventType)), answer);
    assert ActionChecks(eventType, locales, d, order) == head + labels;
  }

  lemma ActionsTable(eventType: string, locales: map<string, Content>, actions: seq<Descriptor>, order: seq<string>)
    requires Enumerates(order, locales.Keys)
    ensures var s := TidyDescriptors(actions);
      var n := GoodDescriptors(s, locales, 0);
      Decides(ActionTables(eventType, locales, actions, order),
        if n < |s| then Some(DescriptorReported(eventType, locales, s[n], order)) else None)
  {
    hide ActionChecks, DescriptorOk, DescriptorReported, Decides, Chain, TidyDescriptor, Enumerates;
    var s := TidyDescriptors(actions);
    var n := GoodDescriptors(s, locales, 0);
    var tables := seq(|actions|, i requires 0 <= i < |actions| => ActionChecks(eventType, locales, actions[i], order));
    forall i | 0 <= i < |tables|
      ensures Decides(tables[i],
        if DescriptorOk(s[i], locales) then None else Some(DescriptorReported(eventType, locales, s[i], order)))
    {
      ActionTable(eventType, locales, actions[i], order);
    }
    ChainDecides(tables, n, if n < |s| then Some(DescriptorReported(eventType, locales, s[n], order)) else None);
  }

  /** The texts of a content: title, body, keys and values of the facts, labels of the actions. */
  lemma FragmentsExactly(c: Content, text: string)
    ensures IsFragment(c, text) <==>
      text in {c.title, c.body} + (set f | f in c.facts :: f.key) + (set f | f in c.facts :: f.value)
        + (set k | k in c.actionLabels :: c.actionLabels[k])
  {
  }

  lemma ContentTable(eventType: string, locales: map<string, Content>, keys: set<string>, locale: string)
    requires locale in locales
    ensures Decides(ContentChecks(eventType, locales, keys, locale),
      if ContentOk(locale, locales[locale], keys) then None else Some(ErrorAt(eventType, locale, locales[locale])))
  {
    var checks, c := ContentChecks(eventType, locales, keys, locale), locales[locale];
    hide Blank, Scan, Names, IsFragment;
    assert checks[1].passes <==> forall text :: IsFragment(c, text) ==> Known(text, keys);
    if !Written(locale, c) {
      assert FailsFirst(checks, 0);
    } else if !ContentOk(locale, c, keys) {
      assert FailsFirst(checks, 1);
    }
  }

  lemma ContentsTable(eventType: string, locales: map<string, Content>, keys: set<string>, order: seq<string>)
    requires Enumerates(order, locales.Keys)
    ensures Decides(ContentTables(eventType, locales, keys, order), ContentsReported(eventType, locales, keys, order))
  {
    hide ContentChecks, ContentOk, ErrorAt, Decides, Chain;
    var n := FirstAt(order, BadContents(locales, keys));
    assert forall i | 0 <= i < |order| :: order[i] in order && order[i] in locales;
    var tables := seq(|order|, i requires 0 <= i < |order| => ContentChecks(eventType, locales, keys, order[i]));
    forall i | 0 <= i < |tables|
      ensures Decides(tables[i],
        if ContentOk(order[i], locales[order[i]], keys) then None
        else Some(ErrorAt(eventType, order[i], locales[order[i]])))
    {
      ContentTable(eventType, locales, keys, order[i]);
    }
    ChainDecides(tables, n, ContentsReported(eventType, locales, keys, order));
  }

  lemma DeclaredKeys(variables: seq<Variable>)
    ensures Keys(TidyVariables(variables)) == set v | v in variables :: TrimSpace(v.key)
  {
    hide TrimSpace;
    var s := TidyVariables(variables);
    forall v | v in variables ensures TrimSpace(v.key) in Keys(s) {
      var i :| 0 <= i < |variables| && variables[i] == v;
      assert s[i] in s;
    }
    forall t | t in s ensures exists v | v in variables :: TrimSpace(v.key) == t.key {
      var i :| 0 <= i < |s| && s[i] == t;
      assert variables[i] in variables;
    }
  }

  /** Validation answers with the first check that fails, header first, and accepts when none does. */
  lemma ValidationTable(value: EventType, variables: seq<Variable>, actions: seq<Descriptor>, order: seq<string>)
    requires Enumerates(order, value.locales.Keys)
    ensures Decides(EventTypeChecks(value, variables, actions, order), Reported(value, variables, actions, order))
  {
    var v, key, locales := Tidy(value), TrimSpace(value.key), value.locales;
    var vs, ds := TidyVariables(variables), TidyDescriptors(actions);
    var n := GoodDescriptors(ds, locales, 0);
    DeclaredKeys(variables);
    HeaderTable(value);
    VariablesTable(key, variables);
    ActionsTable(key, locales, actions, order);
    ContentsTable(key, locales, Keys(vs), order);
    hide HeaderChecks, VariableTables, ActionTables, ContentTables, Decides, HeaderOk, VariablesOk, TidyVariables;
    hide TidyDescriptors, Enumerates, DescriptorReported, ContentsReported, HeaderError, VariableError, TrimSpace;
    var contents := ContentTables(key, locales, Keys(vs), order);
    var x: Option<Error> := if HeaderOk(v) then None else Some(HeaderError(v));
    var y: Option<Error> := if VariablesOk(vs) then None else Some(VariableError(key, vs, GoodVariables(vs, 0)));
    var z: Option<Error> := if n < |ds| then Some(DescriptorReported(key, locales, ds[n], order)) else None;
    var w := ContentsReported(key, locales, Keys(vs), order);
    DecidesConcat(ActionTables(key, locales, actions, order), contents, z, w);
    DecidesConcat(VariableTables(key, variables), ActionTables(key, locales, actions, order) + contents, y,
      if z.Some? then z else w);
    DecidesConcat(HeaderChecks(value),
      VariableTables(key, variables) + (ActionTables(key, locales, actions, order) + contents), x,
      if y.Some? then y else if z.Some? then z else w);
  }

  lemma ReportedNone(value: EventType, variables: seq<Variable>, actions: seq<Descriptor>, order: seq<string>)
    requires Enumerates(order, value.locales.Keys)
    ensures Reported(value, variables, actions, order).None? <==> Acceptable(value, variables, actions)
  {
    var locales, keys := value.locales, Keys(TidyVariables(variables));
    FirstIsBad(order, BadContents(locales, keys));
    hide HeaderOk, VariablesOk, ContentOk, DescriptorOk, TidyVariables, First, HeaderError, VariableError, ErrorAt;
    var ds := TidyDescriptors(actions);
    assert GoodDescriptors(ds, locales, 0) == |ds| <==> DescriptorsOk(ds, locales);
  }

  /** An event type is acceptable exactly when all checks of the table pass, in whatever order the locales
      are listed. */
  lemma AcceptedEventTypes(value: EventType, variables: seq<Variable>, actions: seq<Descriptor>, order: seq<string>)
    requires Enumerates(order, value.locales.Keys)
    ensures Acceptable(value, variables, actions) <==> Passes(EventTypeChecks(value, variables, actions, order))
  {
    ReportedNone(value, variables, actions, order);
    ValidationTable(value, variables, actions, order);
    hide EventTypeChecks, Reported, Acceptable, Decides, Passes, Enumerates;
    PassesExactly(EventTypeChecks(value, variables, actions, order), Reported(value, variables, actions, order));
  }

  // ---- what is written, field by field ----

  ghost predicate VariableTrimmed(was: Variable, now: Variable) {
    IsTrimOf(now.key, was.key) && IsTrimOf(now.kind, was.kind) && now.required == was.required
  }

  ghost predicate ActionTrimmed(was: Descriptor, now: Descriptor) {
    && IsTrimOf(now.key, was.key) && IsTrimOf(now.kind, was.kind)
    && IsTrimOf(now.resourceType, was.resourceType) && IsTrimOf(now.routeKey, was.routeKey)
  }

  /** Seven texts are trimmed, each from its own field, and nothing else changes. */
  ghost predicate HeaderTrimmed(was: EventType, now: EventType) {
    && IsTrimOf(now.key, was.key) && IsTrimOf(now.source, was.source) && IsTrimOf(now.category, was.category)
    && IsTrimOf(now.severity, was.severity) && IsTrimOf(now.templateKey, was.templateKey)
    && IsTrimOf(now.status, was.status) && IsTrimOf(now.defaultLocale, was.defaultLocale)
    && now.mandatoryInApp == was.mandatoryInApp && now.version == was.version && now.locales == was.locales
    && now.variables == was.variables && now.actions == was.actions && now.audienceResolvers == was.audienceResolvers
  }

  lemma TidyTrimsHeader(value: EventType)
    ensures HeaderTrimmed(value, Tidy(value))
  {
    hide TrimSpace, IsTrimOf;
    var v := Tidy(value);
    TrimIsUnique(v.key, value.key);
    TrimIsUnique(v.source, value.source);
    TrimIsUnique(v.category, value.category);
    TrimIsUnique(v.severity, value.severity);
    TrimIsUnique(v.templateKey, value.templateKey);
    TrimIsUnique(v.status, value.status);
    TrimIsUnique(v.defaultLocale, value.defaultLocale);
  }

  lemma TidyTrimsVariable(v: Variable)
    ensures VariableTrimmed(v, TidyVariable(v))
  {
    hide TrimSpace, IsTrimOf;
    TrimIsUnique(TrimSpace(v.key), v.key);
    TrimIsUnique(TrimSpace(v.kind), v.kind);
  }

  lemma TidyTrimsAction(d: Descriptor)
    ensures ActionTrimmed(d, TidyDescriptor(d))
  {
    hide TrimSpace, IsTrimOf;
    TrimIsUnique(TrimSpace(d.key), d.key);
    TrimIsUnique(TrimSpace(d.kind), d.kind);
    TrimIsUnique(TrimSpace(d.resourceType), d.resourceType);
    TrimIsUnique(TrimSpace(d.routeKey), d.routeKey);
  }

  lemma HeaderPasses(value: EventType)
    ensures Passes(HeaderChecks(value)) <==> HeaderOk(Tidy(value))
  {
    HeaderTable(value);
    hide HeaderChecks, Decides, Passes, HeaderOk;
    PassesExactly(HeaderChecks(value), if HeaderOk(Tidy(value)) then None else Some(HeaderError(Tidy(value))));
  }

  lemma VariablePasses(eventType: string, variables: seq<Variable>, i: nat)
    requires i < |variables|
    ensures Passes(VariableChecks(eventType, variables, i)) <==> VariableOk(TidyVariables(variables), i)
  {
    VariableTable(eventType, variables, i);
    var s := TidyVariables(variables);
    hide VariableChecks, Decides, Passes, VariableOk;
    PassesExactly(VariableChecks(eventType, variables, i),
      if VariableOk(s, i) then None else Some(VariableError(eventType, s, i)));
  }

  lemma ActionPasses(eventType: string, locales: map<string, Content>, d: Descriptor, order: seq<string>)
    requires Enumerates(order, locales.Keys)
    ensures var checks := ActionChecks(eventType, locales, d, order);
      && (Passes(checks) <==> DescriptorOk(TidyDescriptor(d), locales))
      && (checks[0].passes <==> WellFormed(TidyDescriptor(d)))
  {
    ActionTable(eventType, locales, d, order);
    var t := TidyDescriptor(d);
    hide Decides, Passes, DescriptorOk, TrimSpace, StableKey;
    PassesExactly(ActionChecks(eventType, locales, d, order),
      if DescriptorOk(t, locales) then None else Some(DescriptorReported(eventType, locales, t, order)));
  }

  lemma VariablesPass(eventType: string, variables: seq<Variable>, n: nat)
    requires n <= |variables|
    ensures (forall j: nat | j < n :: Passes(VariableChecks(eventType, variables, j))) <==>
      GoodVariables(TidyVariables(variables), 0) >= n
  {
    var s := TidyVariables(variables);
    var m := GoodVariables(s, 0);
    forall j: nat | j < n ensures Passes(VariableChecks(eventType, variables, j)) <==> VariableOk(s, j) {
      VariablePasses(eventType, variables, j);
    }
    hide VariableOk, VariableChecks, Passes, TidyVariables, GoodVariables;
    assert m < n ==> !VariableOk(s, m);
  }

  lemma ActionsPass(eventType: string, locales: map<string, Content>, actions: seq<Descriptor>, order: seq<string>,
        n: nat)
    requires n <= |actions| && Enumerates(order, locales.Keys)
    ensures (forall j: nat | j < n :: Passes(ActionChecks(eventType, locales, actions[j], order))) <==>
      GoodDescriptors(TidyDescriptors(actions), locales, 0) >= n
  {
    var s := TidyDescriptors(actions);
    var m := GoodDescriptors(s, locales, 0);
    forall j: nat | j < n
      ensures Passes(ActionChecks(eventType, locales, actions[j], order)) <==> DescriptorOk(s[j], locales)
    {
      ActionPasses(eventType, locales, actions[j], order);
    }
    hide DescriptorOk, ActionChecks, Passes, GoodDescriptors, Enumerates;
    assert m < n ==> !DescriptorOk(s[m], locales);
  }

  /** A variable is trimmed where it lies exactly when the header, it, and all variables before it pass. */
  lemma WrittenVariables(value: EventType, variables: seq<Variable>, i: nat)
    requires i < |variables|
    ensures var after := VariablesAfter(value, variables);
      && |after| == |variables|
      && if Passes(HeaderChecks(value))
           && forall j: nat | j < i + 1 :: Passes(VariableChecks(TrimSpace(value.key), variables, j)) then
           VariableTrimmed(variables[i], after[i])
         else after[i] == variables[i]
  {
    HeaderPasses(value);
    VariablesPass(TrimSpace(value.key), variables, i + 1);
    TidyTrimsVariable(variables[i]);
    OverwriteAt(variables, TidyVariables(variables), GoodVariables(TidyVariables(variables), 0), i);
    hide HeaderOk, HeaderChecks, VariableChecks, Passes, VariableTrimmed, TrimSpace, GoodVariables, TidyVariable;
    hide Overwritten;
  }

  lemma OverwrittenAt(actions: seq<Descriptor>, ds: seq<Descriptor>, locales: map<string, Content>, i: nat)
    requires i < |actions| == |ds|
    ensures Overwritten(actions, ds, DescriptorsWritten(ds, locales))[i] ==
      if GoodDescriptors(ds, locales, 0) >= i && WellFormed(ds[i]) then ds[i] else actions[i]
  {
    var n := GoodDescriptors(ds, locales, 0);
    hide WellFormed, GoodDescriptors;
    if n > i {
      assert DescriptorOk(ds[i], locales);
    }
  }

  /** An action is trimmed where it lies exactly when the header, all variables and all actions before it
      pass, and it is well formed itself, whether or not it has its labels. */
  lemma WrittenActions(value: EventType, variables: seq<Variable>, actions: seq<Descriptor>, order: seq<string>, i: nat)
    requires i < |actions| && Enumerates(order, value.locales.Keys)
    ensures var after, key := ActionsAfter(value, variables, actions), TrimSpace(value.key);
      && |after| == |actions|
      && if Passes(HeaderChecks(value))
           && (forall j: nat | j < |variables| :: Passes(VariableChecks(key, variables, j)))
           && (forall j: nat | j < i :: Passes(ActionChecks(key, value.locales, actions[j], order)))
           && ActionChecks(key, value.locales, actions[i], order)[0].passes then
           ActionTrimmed(actions[i], after[i])
         else after[i] == actions[i]
  {
    var key := TrimSpace(value.key);
    HeaderPasses(value);
    VariablesPass(key, variables, |variables|);
    ActionsPass(key, value.locales, actions, order, i);
    ActionPasses(key, value.locales, actions[i], order);
    var ds := TidyDescriptors(actions);
    OverwriteAt(actions, ds, DescriptorsWritten(ds, value.locales), i);
    OverwrittenAt(actions, ds, value.locales, i);
    TidyTrimsAction(actions[i]);
    hide HeaderOk, DescriptorOk, HeaderChecks, VariableChecks, ActionChecks, Passes, ActionTrimmed, TrimSpace;
    hide WellFormed, Enumerates, DescriptorsWritten, GoodVariables, GoodDescriptors, TidyDescriptor, Overwritten;
  }

  // ---- the operations ----

  method ValidateVariables(eventType: string, variables: array<Variable>)
    returns (keys: set<string>, err: Option<Error>)
    modifies variables
    ensures var s := TidyVariables(old(variables[..]));
      var n := GoodVariables(s, 0);
      && variables[..] == Overwritten(old(variables[..]), s, n)
      && err == (if n < |s| then Some(VariableError(eventType, s, n)) else None)
      && (err.None? ==> keys == Keys(s))
  {
    ghost var was := variables[..];
    ghost var s := TidyVariables(was);
    keys, err := {}, None;
    var index := 0;
    while index < variables.Length
      invariant 0 <= index <= variables.Length
      invariant variables[..] == Overwritten(was, s, index)
      invariant GoodVariables(s, 0) == GoodVariables(s, index)
      invariant keys == Keys(s[..index])
    {
      OverwriteNext(was, s, index);
      var variable := TidyVariable(variables[index]);
      KeysOfPrefix(s, index);
      if !StableKey(variable.key) || variable.key in keys {
        assert !FreshKey(s, index) && GoodVariables(s, index) == index;
        return keys, Some(VariableInvalid(eventType, variable.key));
      }
      assert FreshKey(s, index);
      if !Safe(variable) {
        assert GoodVariables(s, index) == index;
        return keys, Some(VariableUnsafe(eventType, variable.key));
      }
      keys := keys + {variable.key};
      variables[index] := variable;
      index := index + 1;
    }
    assert s[..index] == s;
  }

  lemma KeysOfPrefix(s: seq<Variable>, i: nat)
    requires i < |s|
    ensures s[i].key in Keys(s[..i]) <==> exists j | 0 <= j < i :: s[j].key == s[i].key
    ensures Keys(s[..i + 1]) == Keys(s[..i]) + {s[i].key}
  {
    assert s[..i + 1] == s[..i] + [s[i]];
    assert forall j | 0 <= j < i :: s[j] in s[..i];
  }

  /** order reports in which order the map was visited. */
  method MissingLabel(locales: map<string, Content>, key: string)
    returns (missing: Option<string>, ghost order: seq<string>)
    ensures missing.None? <==> forall locale | locale in locales :: !Blank(Label(locales[locale], key))
    ensures missing.Some? ==> missing.value in locales && Blank(Label(locales[missing.value], key))
    ensures Enumerates(order, locales.Keys) && missing == First(order, Unlabelled(locales, key))
  {
    order := [];
    ghost var bad := Unlabelled(locales, key);
    var left := locales.Keys;
    while left != {}
      invariant left <= locales.Keys && Enumerates(order, locales.Keys - left)
      invariant forall locale | locale in locales && locale !in left :: !Blank(Label(locales[locale], key))
    {
      var locale :| locale in left;
      if Blank(Label(locales[locale], key)) {
        order := CompletedOrder(order, locale, locales.Keys, left, bad);
        return Some(locale), order;
      }
      VisitNext(order, locale, locales.Keys, left);
      order, left := order + [locale], left - {locale};
    }
    FirstIsBad(order, bad);
    return None, order;
  }

  lemma TidyAt(was: seq<Descriptor>, i: nat)
    requires i < |was|
    ensures TidyDescriptors(was)[i] == TidyDescriptor(was[i])
  {
  }

  /** All is well before i; the entry there decides whether validation goes on. */
  lemma DescriptorNext(s: seq<Descriptor>, locales: map<string, Content>, i: nat)
    requires i <= |s| && GoodDescriptors(s, locales, 0) == GoodDescriptors(s, locales, i)
    ensures var n, written := GoodDescriptors(s, locales, 0), DescriptorsWritten(s, locales);
      if i == |s| then
        n == written == |s|
      else if DescriptorOk(s[i], locales) then
        n == GoodDescriptors(s, locales, i + 1)
      else
        n == i && written == if WellFormed(s[i]) then i + 1 else i
  {
  }

  method ValidateDescriptors(eventType: string, locales: map<string, Content>, actions: array<Descriptor>)
    returns (err: Option<Error>, ghost order: seq<string>)
    modifies actions
    ensures Enumerates(order, locales.Keys)
    ensures var s := TidyDescriptors(old(actions[..]));
      var n := GoodDescriptors(s, locales, 0);
      && actions[..] == Overwritten(old(actions[..]), s, DescriptorsWritten(s, locales))
      && err == (if n < |s| then Some(DescriptorReported(eventType, locales, s[n], order)) else None)
      && (err.Some? ==> err.value.eventType == eventType && DescriptorError(locales, s[n], err.value))
  {
    order := SomeOrder(locales.Keys);
    ghost var was := actions[..];
    ghost var s := TidyDescriptors(was);
    assert |s| == |was|;
    hide Enumerates, First, Unlabelled, DescriptorOk, DescriptorError, DescriptorReported, WellFormed, Label, Blank;
    hide GoodDescriptors, DescriptorsWritten, TidyDescriptors, TidyDescriptor;
    var index := 0;
    while index < actions.Length
      invariant 0 <= index <= actions.Length
      invariant actions[..] == Overwritten(was, s, index)
      invariant GoodDescriptors(s, locales, 0) == GoodDescriptors(s, locales, index)
      invariant Enumerates(order, locales.Keys)
    {
      hide Overwritten;
      OverwriteNext(was, s, index);
      TidyAt(was, index);
      DescriptorNext(s, locales, index);
      var descriptor := TidyDescriptor(actions[index]);
      if !WellFormed(descriptor) {
        DescriptorFails(eventType, locales, descriptor, order);
        return Some(ActionInvalid(eventType)), order;
      }
      actions[index] := descriptor;
      var missing;
      missing, order := MissingLabel(locales, descriptor.key);
      DescriptorFails(eventType, locales, descriptor, order);
      if missing.Some? {
        return Some(ActionLabelMissing(eventType, missing.value, descriptor.key)), order;
      }
      index := index + 1;
    }
    DescriptorNext(s, locales, index);
    return None, order;
  }

  function LabelTexts(labels: map<string, string>, order: seq<string>): seq<string>
    requires forall k | k in order :: k in labels
  {
    seq(|order|, i requires 0 <= i < |order| => labels[order[i]])
  }

  /** The fragments of a content when its labels are visited in this order. */
  ghost predicate FragmentsIn(content: Content, fragments: seq<string>, order: seq<string>) {
    Enumerates(order, content.actionLabels.Keys)
      && fragments == FactTexts(content.facts) + LabelTexts(content.actionLabels, order)
  }

  method CatalogContentFragments(content: Content) returns (result: seq<string>)
    ensures exists order :: FragmentsIn(content, result, order)
  {
    result := [];
    ghost var order := [];
    var i := 0;
    while i < |content.facts|
      invariant 0 <= i <= |content.facts|
      invariant result == FactTexts(content.facts[..i])
    {
      FactTextsNext(content.facts, i);
      result := result + [content.facts[i].key, content.facts[i].value];
      i := i + 1;
    }
    assert content.facts[..i] == content.facts;
    var left := content.actionLabels.Keys;
    while left != {}
      invariant left <= content.actionLabels.Keys
      invariant Enumerates(order, content.actionLabels.Keys - left)
      invariant result == FactTexts(content.facts) + LabelTexts(content.actionLabels, order)
    {
      var key :| key in left;
      result, order, left := result + [content.actionLabels[key]], order + [key], left - {key};
    }
    assert FragmentsIn(content, result, order);
  }

  lemma LabelTextsAre(labels: map<string, string>, order: seq<string>, source: string)
    requires Enumerates(order, labels.Keys)
    ensures source in LabelTexts(labels, order) <==> source in labels.Values
  {
    if source in labels.Values {
      var k :| k in labels && labels[k] == source;
      assert k in order;
      var i :| 0 <= i < |order| && order[i] == k;
      assert LabelTexts(labels, order)[i] == source;
    }
    if source in LabelTexts(labels, order) {
      var i :| 0 <= i < |order| && LabelTexts(labels, order)[i] == source;
      assert order[i] in order;
    }
  }

  /** Whatever order the labels come in, the fragments, with title and body, are the texts of the content. */
  lemma FragmentsAre(content: Content, fragments: seq<string>, order: seq<string>, source: string)
    requires FragmentsIn(content, fragments, order)
    ensures source in [content.title, content.body] + fragments <==> IsFragment(content, source)
  {
    FactTextsAre(content.facts, source);
    LabelTextsAre(content.actionLabels, order, source);
  }

  method Lookup(names: seq<string>, keys: set<string>) returns (ok: bool)
    ensures ok == AllIn(names, keys)
  {
    var i := 0;
    while i < |names|
      invariant 0 <= i <= |names|
      invariant forall j | 0 <= j < i :: names[j] in keys
    {
      if names[i] !in keys {
        return false;
      }
      i := i + 1;
    }
    return true;
  }

  method KnownTokens(sources: seq<string>, keys: set<string>) returns (ok: bool)
    ensures ok <==> forall source | source in sources :: Known(source, keys)
  {
    var i := 0;
    while i < |sources|
      invariant 0 <= i <= |sources|
      invariant forall j | 0 <= j < i :: Known(sources[j], keys)
    {
      ok := Lookup(Names(Scan(sources[i])), keys);
      if !ok {
        assert sources[i] in sources && !Known(sources[i], keys);
        return;
      }
      i := i + 1;
    }
    return true;
  }

  method UnknownToken(content: Content, keys: set<string>) returns (found: bool)
    ensures found <==> exists source :: IsFragment(content, source) && !Known(source, keys)
  {
    var fragments := CatalogContentFragments(content);
    ghost var order :| FragmentsIn(content, fragments, order);
    var sources := [content.title, content.body] + fragments;
    forall source ensures source in sources <==> IsFragment(content, source) {
      FragmentsAre(content, fragments, order, source);
    }
    var ok := KnownTokens(sources, keys);
    return !ok;
  }

  /** order reports in which order the map was visited. */
  method ValidateContents(eventType: string, locales: map<string, Content>, keys: set<string>)
    returns (err: Option<Error>, ghost order: seq<string>)
    ensures err.None? <==> ContentsOk(locales, keys)
    ensures err.Some? ==> err.value.eventType == eventType && ContentError(locales, keys, err.value)
    ensures Enumerates(order, locales.Keys) && err == ContentsReported(eventType, locales, keys, order)
  {
    order := [];
    ghost var bad := BadContents(locales, keys);
    var left := locales.Keys;
    while left != {}
      invariant left <= locales.Keys && Enumerates(order, locales.Keys - left)
      invariant forall locale | locale in locales && locale !in left :: ContentOk(locale, locales[locale], keys)
    {
      var locale :| locale in left;
      var content := locales[locale];
      if !Written(locale, content) {
        order := CompletedOrder(order, locale, locales.Keys, left, bad);
        return Some(ContentInvalid(eventType)), order;
      }
      var unknown := UnknownToken(content, keys);
      if unknown {
        order := CompletedOrder(order, locale, locales.Keys, left, bad);
        return Some(Error.VariableUnknown(eventType, locale)), order;
      }
      VisitNext(order, locale, locales.Keys, left);
      order, left := order + [locale], left - {locale};
    }
    FirstIsBad(order, bad);
    return None, order;
  }

  method ValidateHeader(v: EventType) returns (err: Option<Error>)
    ensures err == if HeaderOk(v) then None else Some(HeaderError(v))
  {
    if !StableKey(v.key) || !StableKey(v.source) || !StableKey(v.category) || !StableKey(v.templateKey)
       || v.defaultLocale == "" || |v.locales| == 0 || v.version < 1 || v.status != "published" {
      return Some(Invalid(v.key));
    }
    if v.defaultLocale !in v.locales {
      return Some(LocaleInvalid(v.key));
    }
    if !(v.severity == "info" || v.severity == "warning" || v.severity == "critical") {
      return Some(SeverityInvalid(v.key));
    }
    return None;
  }

  lemma AfterHeader(value: EventType, variables: seq<Variable>, actions: seq<Descriptor>)
    ensures !HeaderOk(Tidy(value)) ==>
      && VariablesAfter(value, variables) == variables && ActionsAfter(value, variables, actions) == actions
      && !Acceptable(value, variables, actions) && MayReport(value, variables, actions, HeaderError(Tidy(value)))
  {
  }

  lemma AfterVariables(value: EventType, variables: seq<Variable>, actions: seq<Descriptor>)
    requires HeaderOk(Tidy(value))
    ensures var s := TidyVariables(variables);
      var n := GoodVariables(s, 0);
      && VariablesAfter(value, variables) == Overwritten(variables, s, n)
      && (n == |s| <==> VariablesOk(s))
      && (n < |s| ==>
            && ActionsAfter(value, variables, actions) == actions
            && !Acceptable(value, variables, actions)
            && MayReport(value, variables, actions, VariableError(Tidy(value).key, s, n)))
  {
  }

  lemma AfterActions(value: EventType, variables: seq<Variable>, actions: seq<Descriptor>)
    requires HeaderOk(Tidy(value)) && VariablesOk(TidyVariables(variables))
    ensures var s := TidyDescriptors(actions);
      var n := GoodDescriptors(s, value.locales, 0);
      && ActionsAfter(value, variables, actions) == Overwritten(actions, s, DescriptorsWritten(s, value.locales))
      && (n == |s| <==> DescriptorsOk(s, value.locales))
      && (n < |s| ==>
            && !Acceptable(value, variables, actions)
            && forall e: Error :: e.eventType == Tidy(value).key && DescriptorError(value.locales, s[n], e) ==>
                 MayReport(value, variables, actions, e))
  {
    AfterVariables(value, variables, actions);
  }

  /** Accepts exactly the acceptable event types. Whatever it ends with, the caller's slices hold
      trimmed entries up to the point reached and are untouched beyond it. order reports in which order the
      map loop that failed, or else the last one, visited the locales. */
  method ValidateEventType(value: EventType)
    returns (validated: EventType, err: Option<Error>, ghost order: seq<string>)
    modifies value.variables, value.actions
    ensures validated == Tidy(value) && HeaderTrimmed(value, validated)
    ensures Decides(EventTypeChecks(value, old(value.variables[..]), old(value.actions[..]), order), err)
    ensures err.None? <==> Acceptable(value, old(value.variables[..]), old(value.actions[..]))
    ensures err.Some? ==> MayReport(value, old(value.variables[..]), old(value.actions[..]), err.value)
    ensures Enumerates(order, value.locales.Keys)
      && err == Reported(value, old(value.variables[..]), old(value.actions[..]), order)
    ensures value.variables[..] == VariablesAfter(value, old(value.variables[..]))
    ensures value.actions[..] == ActionsAfter(value, old(value.variables[..]), old(value.actions[..]))
  {
    hide HeaderTrimmed, Decides, EventTypeChecks;
    ghost var variables, actions := value.variables[..], value.actions[..];
    TidyTrimsHeader(value);
    order := SomeOrder(value.locales.Keys);
    var v := Tidy(value);
    err := ValidateHeader(v);
    AfterHeader(value, variables, actions);
    if err.Some? {
      ValidationTable(value, variables, actions, order);
      return v, err, order;
    }
    var keys;
    keys, err := ValidateVariables(v.key, v.variables);
    AfterVariables(value, variables, actions);
    if err.Some? {
      ValidationTable(value, variables, actions, order);
      return v, err, order;
    }
    err, order := ValidateDescriptors(v.key, v.locales, v.actions);
    AfterActions(value, variables, actions);
    if err.Some? {
      ValidationTable(value, variables, actions, order);
      return v, err, order;
    }
    err, order := ValidateContents(v.key, v.locales, keys);
    ValidationTable(value, variables, actions, order);
    return v, err, order;
  }

  // ---- what validation does not depend on, and what acceptance means ----

  lemma TidyTwice(value: EventType, variables: seq<Variable>, actions: seq<Descriptor>)
    ensures Tidy(Tidy(value)) == Tidy(value)
    ensures TidyVariables(TidyVariables(variables)) == TidyVariables(variables)
    ensures TidyDescriptors(TidyDescriptors(actions)) == TidyDescriptors(actions)
  {
    TidyHeaderTwice(value);
    forall v: Variable ensures TidyVariable(TidyVariable(v)) == TidyVariable(v) {
      TidyVariableTwice(v);
    }
    forall d: Descriptor ensures TidyDescriptor(TidyDescriptor(d)) == TidyDescriptor(d) {
      TidyDescriptorTwice(d);
    }
  }

  lemma TidyVariableTwice(v: Variable)
    ensures TidyVariable(TidyVariable(v)) == TidyVariable(v)
  {
    TrimIdempotent(v.key);
    TrimIdempotent(v.kind);
  }

  lemma TidyDescriptorTwice(d: Descriptor)
    ensures TidyDescriptor(TidyDescriptor(d)) == TidyDescriptor(d)
  {
    TrimIdempotent(d.key);
    TrimIdempotent(d.kind);
    TrimIdempotent(d.resourceType);
    TrimIdempotent(d.routeKey);
  }

  lemma TidyHeaderTwice(value: EventType)
    ensures Tidy(Tidy(value)) == Tidy(value)
  {
    TrimIdempotent(value.key);
    TrimIdempotent(value.source);
    TrimIdempotent(value.category);
    TrimIdempotent(value.severity);
    TrimIdempotent(value.templateKey);
    TrimIdempotent(value.status);
    TrimIdempotent(value.defaultLocale);
  }

  lemma TidyPartly(variables: seq<Variable>, n: nat)
    requires n <= |variables|
    ensures TidyVariables(Overwritten(variables, TidyVariables(variables), n)) == TidyVariables(variables)
  {
    var s := TidyVariables(variables);
    var w := Overwritten(variables, s, n);
    forall i | 0 <= i < |s| ensures TidyVariable(w[i]) == s[i] {
      TidyVariableTwice(variables[i]);
    }
  }

  lemma TidyPartlyActions(actions: seq<Descriptor>, n: nat)
    requires n <= |actions|
    ensures TidyDescriptors(Overwritten(actions, TidyDescriptors(actions), n)) == TidyDescriptors(actions)
  {
    var s := TidyDescriptors(actions);
    var w := Overwritten(actions, s, n);
    forall i | 0 <= i < |s| ensures TidyDescriptor(w[i]) == s[i] {
      TidyDescriptorTwice(actions[i]);
    }
  }

  /** What a run leaves in the slices trims to the same entries as what it found there. */
  lemma TidyAfterRun(value: EventType, variables: seq<Variable>, actions: seq<Descriptor>)
    ensures TidyVariables(VariablesAfter(value, variables)) == TidyVariables(variables)
    ensures TidyDescriptors(ActionsAfter(value, variables, actions)) == TidyDescriptors(actions)
  {
    TidyPartly(variables, GoodVariables(TidyVariables(variables), 0));
    TidyPartlyActions(actions, DescriptorsWritten(TidyDescriptors(actions), value.locales));
  }

  /** A run, also one that is cut short by an error, changes the verdict on no event type: neither on its
      own nor on another one that uses the same slices. */
  lemma RunKeepsVerdicts(value: EventType, other: EventType, variables: seq<Variable>, actions: seq<Descriptor>)
    ensures Acceptable(other, VariablesAfter(value, variables), ActionsAfter(value, variables, actions))
      <==> Acceptable(other, variables, actions)
  {
    TidyAfterRun(value, variables, actions);
  }

  /** An accepted event type is fully trimmed; validating the result accepts it and changes nothing. */
  lemma AcceptedIsStable(value: EventType, variables: seq<Variable>, actions: seq<Descriptor>)
    requires Acceptable(value, variables, actions)
    ensures var v, vs, ds := Tidy(value), TidyVariables(variables), TidyDescriptors(actions);
      && VariablesAfter(value, variables) == vs && ActionsAfter(value, variables, actions) == ds
      && Acceptable(v, vs, ds)
      && Tidy(v) == v && VariablesAfter(v, vs) == vs && ActionsAfter(v, vs, ds) == ds
  {
    TidyTwice(value, variables, actions);
    AcceptedRun(value, variables, actions);
    AcceptedRun(Tidy(value), TidyVariables(variables), TidyDescriptors(actions));
  }

  lemma AcceptedRun(value: EventType, variables: seq<Variable>, actions: seq<Descriptor>)
    requires Acceptable(value, variables, actions)
    ensures VariablesAfter(value, variables) == TidyVariables(variables)
    ensures ActionsAfter(value, variables, actions) == TidyDescriptors(actions)
  {
    AfterVariables(value, variables, actions);
    AfterActions(value, variables, actions);
    FullyOverwritten(variables, TidyVariables(variables));
    FullyOverwritten(actions, TidyDescriptors(actions));
  }

  lemma FullyOverwritten<T>(was: seq<T>, s: seq<T>)
    requires |s| == |was|
    ensures Overwritten(was, s, |s|) == s
  {
  }

  lemma AfterContents(value: EventType, variables: seq<Variable>, actions: seq<Descriptor>) returns (e: Error)
    requires HeaderOk(Tidy(value)) && VariablesOk(TidyVariables(variables))
      && DescriptorsOk(TidyDescriptors(actions), value.locales)
    requires !Acceptable(value, variables, actions)
    ensures MayReport(value, variables, actions, e)
  {
    var key, keys := Tidy(value).key, Keys(TidyVariables(variables));
    var locale :| locale in value.locales && !ContentOk(locale, value.locales[locale], keys);
    e := if Written(locale, value.locales[locale]) then Error.VariableUnknown(key, locale) else ContentInvalid(key);
  }

  lemma SomeReport(value: EventType, variables: seq<Variable>, actions: seq<Descriptor>) returns (e: Error)
    requires !Acceptable(value, variables, actions)
    ensures MayReport(value, variables, actions, e)
  {
    AfterHeader(value, variables, actions);
    e := if HeaderOk(Tidy(value)) then ContentInvalid("") else HeaderError(Tidy(value));
    if HeaderOk(Tidy(value)) {
      var s := TidyVariables(variables);
      AfterVariables(value, variables, actions);
      if !VariablesOk(s) {
        e := VariableError(Tidy(value).key, s, GoodVariables(s, 0));
      } else if !DescriptorsOk(TidyDescriptors(actions), value.locales) {
        AfterActions(value, variables, actions);
        e := DescriptorReport(Tidy(value).key, value.locales, TidyDescriptors(actions));
      } else {
        e := AfterContents(value, variables, actions);
      }
    }
  }

  predicate AboutContents(e: Error) {
    e.ContentInvalid? || e.VariableUnknown?
  }

  /** Two orders of visiting the maps can only differ in the locale named and in the kind of complaint
      about contents. */
  lemma ReportsAgree(value: EventType, variables: seq<Variable>, actions: seq<Descriptor>, e: Error, e': Error)
    requires MayReport(value, variables, actions, e) && MayReport(value, variables, actions, e')
    ensures e.eventType == e'.eventType
    ensures e == e' || (e.ActionLabelMissing? && e'.ActionLabelMissing? && e.actionKey == e'.actionKey)
      || (AboutContents(e) && AboutContents(e'))
  {
    hide HeaderOk, VariablesOk, DescriptorsOk, TidyVariables, TidyDescriptors, HeaderError, VariableError, WellFormed,
      Label;
  }

  /** There is something to report exactly when the event type is not acceptable. */
  lemma ReportsIffRejected(value: EventType, variables: seq<Variable>, actions: seq<Descriptor>)
    ensures (exists e :: MayReport(value, variables, actions, e)) <==> !Acceptable(value, variables, actions)
  {
    if !Acceptable(value, variables, actions) {
      var e := SomeReport(value, variables, actions);
    } else {
      AfterVariables(value, variables, actions);
    }
  }

  lemma ReportRejects(value: EventType, variables: seq<Variable>, actions: seq<Descriptor>, e: Error)
    requires MayReport(value, variables, actions, e)
    ensures !Acceptable(value, variables, actions)
  {
    ReportsIffRejected(value, variables, actions);
  }

  lemma DescriptorReport(eventType: string, locales: map<string, Content>, s: seq<Descriptor>) returns (e: Error)
    requires !DescriptorsOk(s, locales)
    ensures GoodDescriptors(s, locales, 0) < |s|
    ensures e.eventType == eventType && DescriptorError(locales, s[GoodDescriptors(s, locales, 0)], e)
  {
    var d := s[GoodDescriptors(s, locales, 0)];
    if WellFormed(d) {
      var locale :| locale in locales && Blank(Label(locales[locale], d.key));
      e := ActionLabelMissing(eventType, locale, d.key);
    } else {
      e := ActionInvalid(eventType);
    }
  }

  /** Nothing secret can be substituted into an accepted event type: every token in any of its texts names
      a declared variable, and the words of no forbidden term occur in that name. */
  lemma AcceptedTextsAreSafe(value: EventType, variables: seq<Variable>, actions: seq<Descriptor>,
      locale: string, source: string, name: string, term: nat)
    requires Acceptable(value, variables, actions)
    requires locale in value.locales && IsFragment(value.locales[locale], source) && name in Names(Scan(source))
    requires term < |SensitiveKeys.FORBIDDEN_WORDS|
    ensures StableKey(name) && exists v | v in variables :: TrimSpace(v.key) == name
    ensures !WordMatching.Sublist(WordMatching.KeyWords(name), SensitiveKeys.FORBIDDEN_WORDS[term])
  {
    var s := TidyVariables(variables);
    assert ContentOk(locale, value.locales[locale], Keys(s));
    var v :| v in s && v.key == name;
    var i :| 0 <= i < |s| && s[i] == v;
    assert variables[i] in variables && VariableOk(s, i);
    SensitiveKeys.SensitiveKeysExactly(name);
  }

  // ---- the errors of all orders ----

  /** Any bad key comes first in some order. */
  lemma AnyIsFirst(keys: set<string>, bad: set<string>, x: string) returns (order: seq<string>)
    requires x in keys && x in bad
    ensures Enumerates(order, keys) && First(order, bad) == Some(x)
  {
    order := CompletedOrder([], x, keys, keys, bad);
  }

  lemma DescriptorReports(eventType: string, locales: map<string, Content>, d: Descriptor, e: Error)
    requires !DescriptorOk(d, locales)
    ensures e.eventType == eventType && DescriptorError(locales, d, e) <==>
      exists order :: Enumerates(order, locales.Keys) && DescriptorReported(eventType, locales, d, order) == e
  {
    var bad := Unlabelled(locales, d.key);
    if e.eventType == eventType && DescriptorError(locales, d, e) {
      if WellFormed(d) {
        var order := AnyIsFirst(locales.Keys, bad, e.locale);
      } else {
        var order := SomeOrder(locales.Keys);
      }
    }
    if order :| Enumerates(order, locales.Keys) && DescriptorReported(eventType, locales, d, order) == e {
      FirstIsBad(order, bad);
    }
  }

  lemma ContentReports(eventType: string, locales: map<string, Content>, keys: set<string>, e: Error)
    ensures e.eventType == eventType && ContentError(locales, keys, e) <==>
      exists locale | locale in BadContents(locales, keys) :: e == ErrorAt(eventType, locale, locales[locale])
  {
    if e.eventType == eventType && ContentError(locales, keys, e) {
      var locale :| locale in locales && !ContentOk(locale, locales[locale], keys)
        && e == ErrorAt(eventType, locale, locales[locale]);
    }
  }

  ghost predicate ReportedInSomeOrder(value: EventType, variables: seq<Variable>, actions: seq<Descriptor>, e: Error) {
    exists order :: Enumerates(order, value.locales.Keys) && Reported(value, variables, actions, order) == Some(e)
  }

  lemma EarlyReports(value: EventType, variables: seq<Variable>, actions: seq<Descriptor>, e: Error)
    requires !HeaderOk(Tidy(value)) || !VariablesOk(TidyVariables(variables))
    ensures MayReport(value, variables, actions, e) <==> ReportedInSomeOrder(value, variables, actions, e)
  {
    hide HeaderOk, VariablesOk, DescriptorsOk, TidyVariables, TidyDescriptors, Enumerates;
    var order := SomeOrder(value.locales.Keys);
  }

  lemma ActionReports(value: EventType, variables: seq<Variable>, actions: seq<Descriptor>, e: Error)
    requires HeaderOk(Tidy(value)) && VariablesOk(TidyVariables(variables))
    requires !DescriptorsOk(TidyDescriptors(actions), value.locales)
    ensures MayReport(value, variables, actions, e) <==> ReportedInSomeOrder(value, variables, actions, e)
  {
    var ds := TidyDescriptors(actions);
    AfterActions(value, variables, actions);
    DescriptorReports(Tidy(value).key, value.locales, ds[GoodDescriptors(ds, value.locales, 0)], e);
    hide HeaderOk, VariablesOk, DescriptorsOk, TidyVariables, TidyDescriptors, Enumerates;
    hide DescriptorError, DescriptorReported;
  }

  lemma ContentsReports(value: EventType, variables: seq<Variable>, actions: seq<Descriptor>, e: Error)
    requires HeaderOk(Tidy(value)) && VariablesOk(TidyVariables(variables))
    requires DescriptorsOk(TidyDescriptors(actions), value.locales)
    ensures MayReport(value, variables, actions, e) <==> ReportedInSomeOrder(value, variables, actions, e)
  {
    AfterActions(value, variables, actions);
    var key, keys, locales := Tidy(value).key, Keys(TidyVariables(variables)), value.locales;
    var bad := BadContents(locales, keys);
    ContentReports(key, locales, keys, e);
    hide HeaderOk, VariablesOk, DescriptorsOk, TidyVariables, TidyDescriptors, ContentError, ContentOk, ErrorAt;
    if locale :| locale in bad && e == ErrorAt(key, locale, locales[locale]) {
      var order := AnyIsFirst(locales.Keys, bad, locale);
      assert Reported(value, variables, actions, order) == Some(e);
    }
    if order :| Enumerates(order, locales.Keys) && Reported(value, variables, actions, order) == Some(e) {
      FirstIsBad(order, bad);
    }
  }

  /** The errors allowed are exactly those that some order of the maps produces: none is missing, and none
      is allowed in vain. */
  lemma ReportsExactly(value: EventType, variables: seq<Variable>, actions: seq<Descriptor>, e: Error)
    ensures MayReport(value, variables, actions, e) <==> ReportedInSomeOrder(value, variables, actions, e)
  {
    if !HeaderOk(Tidy(value)) || !VariablesOk(TidyVariables(variables)) {
      EarlyReports(value, variables, actions, e);
    } else if !DescriptorsOk(TidyDescriptors(actions), value.locales) {
      ActionReports(value, variables, actions, e);
    } else {
      ContentsReports(value, variables, actions, e);
    }
  }
}
