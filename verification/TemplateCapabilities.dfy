/** The registry of channels and providers (contract/template_validation.go 55-100). */
module TemplateCapabilities {
  import opened Text
  import opened Tables
  import opened Models
  import opened TemplateContents

  datatype Provider = Provider(capability: Capability, validate: Option<ProviderTemplate -> bool>)

  datatype Refusal = CapabilityInvalid | ValidatorRequired(key: string) | CapabilityDuplicated(key: string)

  type Registry = map<string, Entry>

  const SLASH := '/'

  function CapabilityKey(channel: string, provider: string): string {
    Join(TrimSpace(channel), SLASH, TrimSpace(provider))
  }

  function Registered(p: Provider): Entry {
    Entry(p.capability.(channel := TrimSpace(p.capability.channel), provider := TrimSpace(p.capability.provider)),
      p.validate)
  }

  function KeyOf(p: Provider): string {
    CapabilityKey(p.capability.channel, p.capability.provider)
  }

  predicate ProviderValid(p: Provider) {
    && !Blank(p.capability.channel) && p.capability.maxFacts >= 0 && p.capability.maxActions >= 0
    && (p.capability.supportsProviderTemplate ==> p.validate.Some?)
  }

  /** The registry holds exactly these providers, each under its key. */
  ghost predicate Holds(entries: Registry, providers: seq<Provider>) {
    && (forall i | 0 <= i < |providers| ::
          KeyOf(providers[i]) in entries && entries[KeyOf(providers[i])] == Registered(providers[i]))
    && (forall key | key in entries :: exists i :: 0 <= i < |providers| && KeyOf(providers[i]) == key)
  }

  ghost predicate KeysDistinct(providers: seq<Provider>) {
    forall i, j | 0 <= i < j < |providers| :: KeyOf(providers[i]) != KeyOf(providers[j])
  }

  ghost predicate ProvidersOk(providers: seq<Provider>) {
    (forall i | 0 <= i < |providers| :: ProviderValid(providers[i])) && KeysDistinct(providers)
  }

  /** Provider i is the first that is refused. */
  ghost predicate RefusedAt(providers: seq<Provider>, i: nat, refusal: Refusal) {
    && i < |providers| && ProvidersOk(providers[..i]) && !ProvidersOk(providers[..i + 1])
    && var p := providers[i];
    if Blank(p.capability.channel) || p.capability.maxFacts < 0 || p.capability.maxActions < 0 then
      refusal == CapabilityInvalid
    else if !ProviderValid(p) then refusal == ValidatorRequired(KeyOf(p))
    else refusal == CapabilityDuplicated(KeyOf(p))
  }

  lemma KeyRepeats(entries: Registry, providers: seq<Provider>, i: nat)
    requires i < |providers| && Holds(entries, providers[..i]) && KeyOf(providers[i]) in entries
    ensures !KeysDistinct(providers[..i + 1])
  {
    hide KeyOf, Registered;
    var before, after := providers[..i], providers[..i + 1];
    var j :| 0 <= j < |before| && KeyOf(before[j]) == KeyOf(providers[i]);
    assert after[j] == before[j] && after[i] == providers[i];
  }

  lemma KeyIsNew(entries: Registry, providers: seq<Provider>, i: nat)
    requires i < |providers| && Holds(entries, providers[..i]) && KeyOf(providers[i]) !in entries
    ensures Holds(entries[KeyOf(providers[i]) := Registered(providers[i])], providers[..i + 1])
    ensures KeysDistinct(providers[..i]) ==> KeysDistinct(providers[..i + 1])
  {
    hide KeyOf, Registered;
    var before, after, key := providers[..i], providers[..i + 1], KeyOf(providers[i]);
    var entries' := entries[key := Registered(providers[i])];
    assert forall j | 0 <= j < i :: after[j] == before[j] && KeyOf(before[j]) in entries;
    assert after[i] == providers[i];
    forall k | k in entries' ensures exists j :: 0 <= j < |after| && KeyOf(after[j]) == k {
      if k == key {
        assert KeyOf(after[i]) == k;
      } else {
        var j :| 0 <= j < |before| && KeyOf(before[j]) == k;
        assert KeyOf(after[j]) == k;
      }
    }
  }

  lemma RefusedPrefix(providers: seq<Provider>, i: nat)
    requires i < |providers| && !ProvidersOk(providers[..i + 1])
    ensures !ProvidersOk(providers)
  {
    assert forall j | 0 <= j < i + 1 :: providers[..i + 1][j] == providers[j];
  }

  lemma InvalidProvider(providers: seq<Provider>, i: nat)
    requires i < |providers| && !ProviderValid(providers[i])
    ensures !ProvidersOk(providers[..i + 1])
  {
    assert providers[..i + 1][i] == providers[i];
  }

  lemma RefusedInvalid(providers: seq<Provider>, i: nat, refusal: Refusal)
    requires i < |providers| && ProvidersOk(providers[..i]) && !ProviderValid(providers[i])
    requires var c := providers[i].capability;
      refusal ==
        if Blank(c.channel) || c.maxFacts < 0 || c.maxActions < 0 then CapabilityInvalid
        else ValidatorRequired(KeyOf(providers[i]))
    ensures RefusedAt(providers, i, refusal) && !ProvidersOk(providers)
  {
    InvalidProvider(providers, i);
    RefusedPrefix(providers, i);
  }

  lemma RefusedRepeat(entries: Registry, providers: seq<Provider>, i: nat)
    requires i < |providers| && ProvidersOk(providers[..i]) && Holds(entries, providers[..i])
    requires ProviderValid(providers[i]) && KeyOf(providers[i]) in entries
    ensures RefusedAt(providers, i, CapabilityDuplicated(KeyOf(providers[i]))) && !ProvidersOk(providers)
  {
    KeyRepeats(entries, providers, i);
    RefusedPrefix(providers, i);
  }

  lemma AcceptedNext(entries: Registry, providers: seq<Provider>, i: nat)
    requires i < |providers| && ProvidersOk(providers[..i]) && Holds(entries, providers[..i])
    requires ProviderValid(providers[i]) && KeyOf(providers[i]) !in entries
    ensures ProvidersOk(providers[..i + 1])
    ensures Holds(entries[KeyOf(providers[i]) := Registered(providers[i])], providers[..i + 1])
  {
    KeyIsNew(entries, providers, i);
    hide KeyOf, Registered, Holds, KeysDistinct, ProviderValid;
    var before, after := providers[..i], providers[..i + 1];
    forall j | 0 <= j < |after| ensures ProviderValid(after[j]) {
      assert j < i ==> after[j] == before[j];
    }
  }

  // ---- the same answer as a table of checks on the providers as they are written ----

  function Name(p: Provider): string {
    TrimSpace(p.capability.channel) + "/" + TrimSpace(p.capability.provider)
  }

  /** What provider i must meet. */
  ghost function ProviderChecks(providers: seq<Provider>, i: nat): seq<Line<Refusal>>
    requires i < |providers|
  {
    var c, key := providers[i].capability, Name(providers[i]);
    [ Line(!Blank(c.channel) && c.maxFacts >= 0 && c.maxActions >= 0, CapabilityInvalid),
      Line(c.supportsProviderTemplate ==> providers[i].validate != None, ValidatorRequired(key)),
      Line(forall j | 0 <= j < i :: Name(providers[j]) != key, CapabilityDuplicated(key)) ]
  }

  ghost function RegistryChecks(providers: seq<Provider>): seq<Line<Refusal>> {
    Chain(seq(|providers|, i requires 0 <= i < |providers| => ProviderChecks(providers, i)))
  }

  lemma NameIsKey(p: Provider)
    ensures Name(p) == KeyOf(p)
  {
    hide TrimSpace;
  }

  lemma NamesNew(providers: seq<Provider>, i: nat)
    requires i < |providers| && KeysDistinct(providers[..i])
    ensures KeysDistinct(providers[..i + 1]) <==> forall j | 0 <= j < i :: Name(providers[j]) != Name(providers[i])
  {
    hide KeyOf, Name;
    var before, after := providers[..i], providers[..i + 1];
    NameIsKey(providers[i]);
    forall j | 0 <= j < i
      ensures after[j] == before[j] && Name(providers[j]) == KeyOf(providers[j]) == KeyOf(after[j])
    {
      NameIsKey(providers[j]);
    }
    assert after[i] == providers[i];
  }

  lemma ValidNext(providers: seq<Provider>, i: nat)
    requires i < |providers| && ProvidersOk(providers[..i])
    ensures ProviderValid(providers[i]) && KeysDistinct(providers[..i + 1]) ==> ProvidersOk(providers[..i + 1])
  {
    hide ProviderValid, KeysDistinct;
    var before, after := providers[..i], providers[..i + 1];
    assert forall j | 0 <= j < i :: after[j] == before[j];
    assert after[i] == providers[i];
  }

  lemma ProviderTable(providers: seq<Provider>, i: nat, refusal: Option<Refusal>)
    requires i < |providers| && ProvidersOk(providers[..i])
    requires if refusal.None? then ProvidersOk(providers[..i + 1]) else RefusedAt(providers, i, refusal.value)
    ensures Decides(ProviderChecks(providers, i), refusal)
  {
    NameIsKey(providers[i]);
    NamesNew(providers, i);
    var p, checks := providers[i], ProviderChecks(providers, i);
    assert providers[..i + 1][i] == p;
    assert ProviderValid(p) && KeysDistinct(providers[..i + 1]) ==> ProvidersOk(providers[..i + 1]) by {
      ValidNext(providers, i);
    }
    hide KeyOf, Name, Blank, KeysDistinct;
    if refusal.Some? {
      if !checks[0].passes {
        assert FailsFirst(checks, 0);
      } else if !checks[1].passes {
        assert FailsFirst(checks, 1);
      } else {
        assert FailsFirst(checks, 2);
      }
    }
  }

  lemma PrefixAccepted(providers: seq<Provider>, i: nat, n: nat)
    requires i <= n <= |providers| && ProvidersOk(providers[..n])
    ensures ProvidersOk(providers[..i])
  {
    assert forall j | 0 <= j < i :: providers[..i][j] == providers[..n][j];
  }

  /** The registry is refused for the first line of all tables, provider by provider. */
  lemma RegistryTable(providers: seq<Provider>, n: nat, refusal: Option<Refusal>)
    requires n <= |providers| && (refusal.None? <==> n == |providers|) && ProvidersOk(providers[..n])
    requires n < |providers| ==> RefusedAt(providers, n, refusal.value)
    ensures Decides(RegistryChecks(providers), refusal)
  {
    hide ProviderChecks, ProvidersOk, RefusedAt, Decides, Chain;
    var tables := seq(|providers|, i requires 0 <= i < |providers| => ProviderChecks(providers, i));
    forall i | 0 <= i < n ensures Decides(tables[i], None) {
      PrefixAccepted(providers, i, n);
      PrefixAccepted(providers, i + 1, n);
      ProviderTable(providers, i, None);
    }
    if n < |providers| {
      ProviderTable(providers, n, refusal);
    }
    ChainDecides(tables, n, refusal);
  }

  method NewCapabilities(providers: seq<Provider>) returns (entries: Registry, refusal: Option<Refusal>)
    ensures refusal.None? <==> ProvidersOk(providers)
    ensures refusal.None? ==> Holds(entries, providers)
    ensures refusal.Some? ==> exists i :: RefusedAt(providers, i, refusal.value)
    ensures Decides(RegistryChecks(providers), refusal)
  {
    hide Decides, RegistryChecks;
    entries := map[];
    var i := 0;
    while i < |providers|
      invariant 0 <= i <= |providers|
      invariant ProvidersOk(providers[..i]) && Holds(entries, providers[..i])
    {
      hide ProvidersOk, Holds, RefusedAt, CapabilityKey, Blank;
      var p := providers[i];
      if Blank(p.capability.channel) || p.capability.maxFacts < 0 || p.capability.maxActions < 0 {
        RefusedInvalid(providers, i, CapabilityInvalid);
        RegistryTable(providers, i, Some(CapabilityInvalid));
        return entries, Some(CapabilityInvalid);
      }
      var key := CapabilityKey(p.capability.channel, p.capability.provider);
      if p.capability.supportsProviderTemplate && p.validate.None? {
        RefusedInvalid(providers, i, ValidatorRequired(key));
        RegistryTable(providers, i, Some(ValidatorRequired(key)));
        return entries, Some(ValidatorRequired(key));
      }
      if key in entries {
        RefusedRepeat(entries, providers, i);
        RegistryTable(providers, i, Some(CapabilityDuplicated(key)));
        return entries, Some(CapabilityDuplicated(key));
      }
      AcceptedNext(entries, providers, i);
      entries := entries[key := Registered(p)];
      i := i + 1;
    }
    RegistryTable(providers, i, None);
    assert providers[..i] == providers;
    return entries, None;
  }

  function Resolve(entries: Registry, channel: string, provider: string): Option<Entry> {
    if CapabilityKey(channel, provider) in entries then Some(entries[CapabilityKey(channel, provider)]) else None
  }

  /** A provider is found under its channel and name in any white space, with everything else about it as
      it was registered. */
  lemma ResolveGives(entries: Registry, providers: seq<Provider>, i: nat, channel: string, provider: string)
    requires Holds(entries, providers) && i < |providers|
    requires TrimSpace(channel) == TrimSpace(providers[i].capability.channel)
    requires TrimSpace(provider) == TrimSpace(providers[i].capability.provider)
    ensures var c := providers[i].capability;
      Resolve(entries, channel, provider) ==
        Some(Entry(
          Capability(TrimSpace(channel), TrimSpace(provider), c.supportsHTML, c.supportsMarkdown, c.supportsFacts,
            c.supportsURLActions, c.supportsProviderTemplate, c.maxFacts, c.maxActions),
          providers[i].validate))
  {
    hide TrimSpace;
  }

  // ---- when the key stands for the pair ----

  /** What is found was registered for exactly the requested channel and provider. */
  ghost predicate Exact(entries: Registry) {
    forall channel, provider | Resolve(entries, channel, provider).Some? ::
      var c := Resolve(entries, channel, provider).value.capability;
      c.channel == TrimSpace(channel) && c.provider == TrimSpace(provider)
  }

  /** The only slash of the text that stands between two trimmed parts is the one after the channel. */
  ghost predicate OneSplit(key: string, channel: string) {
    forall i | 0 <= i < |key| && key[i] == SLASH && Trimmed(key[..i]) && Trimmed(key[i + 1..]) :: i == |channel|
  }

  lemma SplitOfKey(channel: string, provider: string)
    ensures var key, c := CapabilityKey(channel, provider), TrimSpace(channel);
      && |c| < |key| && key[|c|] == SLASH && key[..|c|] == c && key[|c| + 1..] == TrimSpace(provider)
      && Trimmed(c) && Trimmed(TrimSpace(provider))
  {
    TrimIdempotent(channel);
    TrimIdempotent(provider);
  }

  lemma KeyOfSplit(key: string, i: nat)
    requires i < |key| && key[i] == SLASH && Trimmed(key[..i]) && Trimmed(key[i + 1..])
    ensures CapabilityKey(key[..i], key[i + 1..]) == key
  {
    TrimOfTrimmed(key[..i]);
    TrimOfTrimmed(key[i + 1..]);
  }

  lemma SlashAt(c: string, p: string, i: nat)
    requires i < |Join(c, SLASH, p)| && i != |c|
    ensures Join(c, SLASH, p)[i] in c || Join(c, SLASH, p)[i] in p
  {
    if i < |c| {
      assert Join(c, SLASH, p)[i] == c[i];
    } else {
      assert Join(c, SLASH, p)[i] == p[i - |c| - 1];
    }
  }

  /** Without a slash in channel and provider there is one split. */
  lemma NoSlash(channel: string, provider: string)
    requires SLASH !in TrimSpace(channel) && SLASH !in TrimSpace(provider)
    ensures OneSplit(CapabilityKey(channel, provider), TrimSpace(channel))
  {
    var c, p := TrimSpace(channel), TrimSpace(provider);
    forall i | 0 <= i < |Join(c, SLASH, p)| && Join(c, SLASH, p)[i] == SLASH ensures i == |c| {
      if i != |c| {
        SlashAt(c, p, i);
      }
    }
  }

  /** Lookups are exact iff no registered key can be split in another way. */
  lemma ResolveExactly(entries: Registry, providers: seq<Provider>)
    requires Holds(entries, providers)
    ensures Exact(entries) <==> forall key | key in entries :: OneSplit(key, entries[key].capability.channel)
  {
    if Exact(entries) {
      forall key, i | key in entries && 0 <= i < |key| && key[i] == SLASH && Trimmed(key[..i]) && Trimmed(key[i + 1..])
        ensures i == |entries[key].capability.channel|
      {
        KeyOfSplit(key, i);
        assert Resolve(entries, key[..i], key[i + 1..]).Some?;
        TrimOfTrimmed(key[..i]);
      }
    }
    if forall key | key in entries :: OneSplit(key, entries[key].capability.channel) {
      forall channel, provider | Resolve(entries, channel, provider).Some?
        ensures var c := Resolve(entries, channel, provider).value.capability;
          c.channel == TrimSpace(channel) && c.provider == TrimSpace(provider)
      {
        ResolvedPair(entries, providers, channel, provider);
      }
    }
  }

  lemma ResolvedPair(entries: Registry, providers: seq<Provider>, channel: string, provider: string)
    requires Holds(entries, providers) && Resolve(entries, channel, provider).Some?
    requires var key := CapabilityKey(channel, provider); OneSplit(key, entries[key].capability.channel)
    ensures var c := Resolve(entries, channel, provider).value.capability;
      c.channel == TrimSpace(channel) && c.provider == TrimSpace(provider)
  {
    var key := CapabilityKey(channel, provider);
    var i :| 0 <= i < |providers| && KeyOf(providers[i]) == key;
    SplitOfKey(channel, provider);
    SplitOfKey(providers[i].capability.channel, providers[i].capability.provider);
  }

  /** A provider registered for channel a and provider b/c answers the lookup of channel a/b and provider c. */
  lemma SlashConfuses(p: Provider)
    requires p.capability.channel == "a" && p.capability.provider == "b/c"
    ensures var entries := map[KeyOf(p) := Registered(p)];
      && Holds(entries, [p]) && Resolve(entries, "a/b", "c") == Some(Registered(p)) && !Exact(entries)
  {
    TrimOfTrimmed("a");
    TrimOfTrimmed("b/c");
    TrimOfTrimmed("a/b");
    TrimOfTrimmed("c");
    var entries := map[KeyOf(p) := Registered(p)];
    assert CapabilityKey("a/b", "c") == "a/b/c" == KeyOf(p);
    assert KeyOf([p][0]) == KeyOf(p);
    assert Registered(p).capability.channel == "a";
  }
}
