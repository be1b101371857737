/** The contract's value types shared by event types and templates (contract/notification_model.go). */
module Models {
  import opened Text

  datatype Variable = Variable(key: string, kind: string, required: bool)

  datatype Fact = Fact(key: string, value: string)

  /** The keys and values of facts, in order. */
  function FactTexts(facts: seq<Fact>): seq<string> {
    if facts == [] then [] else FactTexts(facts[..|facts| - 1]) + [facts[|facts| - 1].key, facts[|facts| - 1].value]
  }

  lemma FactTextsNext(facts: seq<Fact>, i: nat)
    requires i < |facts|
    ensures FactTexts(facts[..i + 1]) == FactTexts(facts[..i]) + [facts[i].key, facts[i].value]
  {
    assert facts[..i + 1][..i] == facts[..i];
  }

  lemma {:induction false} FactTextsAre(facts: seq<Fact>, source: string)
    ensures source in FactTexts(facts) <==> exists f | f in facts :: source == f.key || source == f.value
  {
    if facts == [] {
    } else {
      var n := |facts| - 1;
      FactTextsAre(facts[..n], source);
      assert facts == facts[..n] + [facts[n]];
    }
  }

  lemma {:induction false} FactTextsAt(facts: seq<Fact>, i: nat)
    requires i < |facts|
    ensures var texts := FactTexts(facts);
      |texts| == 2 * |facts| && texts[2 * i] == facts[i].key && texts[2 * i + 1] == facts[i].value
  {
    var n := |facts| - 1;
    FactTextsLength(facts[..n]);
    if i == n {
    } else {
      FactTextsAt(facts[..n], i);
    }
  }

  lemma {:induction false} FactTextsLength(facts: seq<Fact>)
    ensures |FactTexts(facts)| == 2 * |facts|
  {
    if facts == [] {
    } else {
      FactTextsLength(facts[..|facts| - 1]);
    }
  }

  datatype Action = Action(caption: string, url: string, style: string)

  datatype Component = Component(kind: string, subType: string, index: string, parameters: seq<string>)

  datatype ProviderTemplate = ProviderTemplate(name: string, language: string, components: seq<Component>)

  datatype TemplateContent = TemplateContent(
    subject: string,
    title: string,
    text: string,
    html: string,
    markdown: string,
    facts: seq<Fact>,
    actions: seq<Action>,
    providerTemplate: Option<ProviderTemplate>)

  datatype Fallback = Fallback(templateKey: string, connectorKey: string, connectionKey: string, operation: string)

  datatype Template = Template(
    key: string,
    name: string,
    channel: string,
    provider: string,
    status: string,
    version: int,
    defaultLocale: string,
    variables: seq<Variable>,
    fallbacks: seq<Fallback>,
    locales: map<string, TemplateContent>)

  datatype Capability = Capability(
    channel: string,
    provider: string,
    supportsHTML: bool,
    supportsMarkdown: bool,
    supportsFacts: bool,
    supportsURLActions: bool,
    supportsProviderTemplate: bool,
    maxFacts: int,
    maxActions: int)
}

module TemplateErrors {
  /** The failures, one constructor for each code backend.notification.template_*, fallback_* and
      provider_template_*, with its parameters. */
  datatype TemplateError =
    | Unconfigured
    | KeyDuplicate(templateKey: string)
    | KeyInvalid(templateKey: string)
    | NameRequired(templateKey: string)
    | ProviderUnsupported(channel: string, provider: string)
    | StatusInvalid(status: string)
    | VersionInvalid(templateKey: string)
    | DefaultLocaleRequired(templateKey: string)
    | LocalesRequired(templateKey: string)
    | DefaultLocaleMissing(templateKey: string, locale: string)
    | VariableKeyInvalid(templateKey: string, variable: string)
    | VariableDuplicate(templateKey: string, variable: string)
    | VariableTypeUnsupported(templateKey: string, variable: string, kind: string)
    | FallbackLimitExceeded(templateKey: string)
    | FallbackInvalid(templateKey: string)
    | FallbackDuplicate(templateKey: string)
    | FallbackTemplateNotFound(templateKey: string, fallbackTemplateKey: string)
    | LocaleInvalid(templateKey: string)
    | SubjectRequired(templateKey: string, locale: string)
    | SubjectInvalid(templateKey: string, locale: string)
    | BodyRequired(templateKey: string, locale: string)
    | ChannelMismatch(templateKey: string, locale: string)
    | ComponentsLimit(templateKey: string, locale: string)
    | FactInvalid(templateKey: string, locale: string)
    | ActionInvalid(templateKey: string, locale: string)
    | ProviderTemplateUnsupported(templateKey: string, locale: string, provider: string)
    | ProviderTemplateComponentsConflict(templateKey: string, locale: string)
    | ProviderTemplateInvalid(templateKey: string, locale: string, provider: string)
    | SyntaxInvalid(templateKey: string, locale: string)
    | VariableUnknown(templateKey: string, locale: string, variable: string)
}
