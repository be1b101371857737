/** The governance catalog: event types together with the rules that refer to them
    (contract/catalog_validation.go 35-88). */
module Rules {
  import opened Text
  import opened Tables
  import opened Decimals
  import opened Models
  import opened EventCatalog
  import Enumerations

  datatype RuleChannel = RuleChannel(
    channel: string,
    templateKey: string,
    connectorKey: string,
    operation: string,
    delaySeconds: int,
    escalationStep: int,
    deliveryMode: string,
    digestWindowSeconds: int,
    digestMaximumItems: int)

  datatype Rule = Rule(
    eventTypeKey: string,
    dedupeWindowSeconds: int,
    aggregationWindowSeconds: int,
    reminderIntervalSeconds: int,
    maximumReminders: int,
    recoveryEventTypeKey: string,
    channels: seq<RuleChannel>)

  /** The failures, one constructor for each code backend.notification.*, with its parameters. The first one
      wraps the failure of an event type with its index. */
  datatype CatalogError =
    | EventTypeFailed(index: nat, cause: EventCatalog.Error)
    | EventTypeDuplicate(eventType: string)
    | RuleInvalid(index: nat)
    | RuleRecoveryEventInvalid(eventType: string)
    | RuleChannelDuplicate(eventType: string, channel: string)
    | RuleChannelDeliveryModeInvalid(eventType: string, channel: string)
    | RuleChannelDigestInvalid(eventType: string, channel: string)
    | RuleInAppChannelInvalid(eventType: string)
    | RuleExternalChannelInvalid(eventType: string, channel: string)
    | RuleChannelUnsupported(eventType: string, channel: string)

  // ---- what is accepted ----

  function Name(c: RuleChannel): string {
    TrimSpace(c.channel)
  }

  function Mode(c: RuleChannel): string {
    if Blank(c.deliveryMode) then "immediate" else TrimSpace(c.deliveryMode)
  }

  predicate SameSlot(c: RuleChannel, d: RuleChannel) {
    Name(c) == Name(d) && c.escalationStep == d.escalationStep
  }

  predicate NonNegative(c: RuleChannel) {
    c.delaySeconds >= 0 && c.escalationStep >= 0 && c.digestWindowSeconds >= 0 && c.digestMaximumItems >= 0
  }

  predicate KnownMode(c: RuleChannel) {
    Mode(c) == "immediate" || Mode(c) == "digest"
  }

  predicate DigestOk(c: RuleChannel) {
    Mode(c) == "digest" ==> c.digestWindowSeconds > 0 && c.delaySeconds == 0 && c.escalationStep == 0
  }

  predicate InApp(c: RuleChannel) {
    Name(c) == "in_app"
  }

  predicate External(c: RuleChannel) {
    Name(c) == "email" || Name(c) == "collaboration" || Name(c) == "whatsapp"
  }

  predicate InAppOk(c: RuleChannel) {
    && Blank(c.templateKey) && Blank(c.connectorKey) && Blank(c.operation)
    && c.delaySeconds == 0 && c.escalationStep == 0 && Mode(c) == "immediate" && c.digestWindowSeconds == 0
  }

  predicate ExternalOk(c: RuleChannel) {
    StableKey(TrimSpace(c.templateKey)) && !Blank(c.connectorKey) && !Blank(c.operation)
  }

  predicate ChannelOk(c: RuleChannel) {
    NonNegative(c) && KnownMode(c) && DigestOk(c) && ((InApp(c) && InAppOk(c)) || (External(c) && ExternalOk(c)))
  }

  predicate HeadOk(rule: Rule, keys: set<string>) {
    && TrimSpace(rule.eventTypeKey) != "" && TrimSpace(rule.eventTypeKey) in keys
    && rule.dedupeWindowSeconds >= 0 && rule.aggregationWindowSeconds >= 0
    && rule.reminderIntervalSeconds >= 0 && rule.maximumReminders >= 0
  }

  predicate RecoveryOk(rule: Rule, keys: set<string>) {
    rule.recoveryEventTypeKey == "" || TrimSpace(rule.recoveryEventTypeKey) in keys
  }

  ghost predicate SlotsDistinct(channels: seq<RuleChannel>) {
    forall i, j | 0 <= i < j < |channels| :: !SameSlot(channels[i], channels[j])
  }

  ghost predicate ChannelsOk(channels: seq<RuleChannel>) {
    (forall i | 0 <= i < |channels| :: ChannelOk(channels[i])) && SlotsDistinct(channels)
  }

  ghost predicate RuleOk(rule: Rule, keys: set<string>) {
    HeadOk(rule, keys) && RecoveryOk(rule, keys) && ChannelsOk(rule.channels)
  }

  // ---- the string that stands for a slot ----

  /** fmt.Sprintf("%s:%d", channel, step) */
  function Identity(c: RuleChannel): string {
    Join(Name(c), ':', Decimal(c.escalationStep))
  }

  /** Two entries have the same identity exactly when they name the same channel at the same step,
      whatever characters the channel holds. */
  lemma IdentityIsSlot(c: RuleChannel, d: RuleChannel)
    ensures Identity(c) == Identity(d) <==> SameSlot(c, d)
  {
    DecimalInjective(c.escalationStep, d.escalationStep);
    DecimalInjective(d.escalationStep, c.escalationStep);
    if Identity(c) == Identity(d) {
      JoinInjectiveRight(Name(c), Decimal(c.escalationStep), Name(d), Decimal(d.escalationStep), ':');
    }
  }

  function Identities(channels: seq<RuleChannel>): set<string> {
    set c | c in channels :: Identity(c)
  }

  /** An earlier entry has the same channel and step. */
  ghost predicate Taken(channels: seq<RuleChannel>, i: nat)
    requires i < |channels|
  {
    exists j | 0 <= j < i :: SameSlot(channels[j], channels[i])
  }

  lemma IdentitiesNext(channels: seq<RuleChannel>, i: nat)
    requires i < |channels|
    ensures Identity(channels[i]) in Identities(channels[..i]) <==> Taken(channels, i)
    ensures Identities(channels[..i + 1]) == Identities(channels[..i]) + {Identity(channels[i])}
  {
    assert channels[..i + 1] == channels[..i] + [channels[i]];
    forall j | 0 <= j < i
      ensures Identity(channels[j]) == Identity(channels[i]) <==> SameSlot(channels[j], channels[i])
    {
      IdentityIsSlot(channels[j], channels[i]);
    }
    forall j | 0 <= j < i ensures Identity(channels[j]) in Identities(channels[..i]) {
      assert channels[..i][j] in channels[..i];
    }
  }

  // ---- the first failure ----

  /** The failure of one entry, given whether its slot is taken. */
  function ChannelError(eventType: string, c: RuleChannel, taken: bool): Option<CatalogError> {
    if taken || !NonNegative(c) then Some(RuleChannelDuplicate(eventType, Name(c)))
    else if !KnownMode(c) then Some(RuleChannelDeliveryModeInvalid(eventType, Name(c)))
    else if !DigestOk(c) then Some(RuleChannelDigestInvalid(eventType, Name(c)))
    else if InApp(c) then if InAppOk(c) then None else Some(RuleInAppChannelInvalid(eventType))
    else if External(c) then if ExternalOk(c) then None else Some(RuleExternalChannelInvalid(eventType, Name(c)))
    else Some(RuleChannelUnsupported(eventType, Name(c)))
  }

  /** An entry passes iff its slot is free and it is in order, and each failure is given for exactly the
      entries that pass everything before it: the digest failure, say, only for a known mode. */
  lemma ChannelRefusals(eventType: string, c: RuleChannel, taken: bool)
    ensures var e := ChannelError(eventType, c, taken);
      && (e.None? <==> !taken && ChannelOk(c))
      && (e == Some(RuleChannelDuplicate(eventType, Name(c))) <==> taken || !NonNegative(c))
      && (e == Some(RuleChannelDeliveryModeInvalid(eventType, Name(c))) <==> !taken && NonNegative(c) && !KnownMode(c))
      && (e == Some(RuleChannelDigestInvalid(eventType, Name(c))) <==>
            !taken && NonNegative(c) && Mode(c) == "digest" && !DigestOk(c))
      && (e == Some(RuleInAppChannelInvalid(eventType)) <==>
            !taken && NonNegative(c) && KnownMode(c) && DigestOk(c) && InApp(c) && !InAppOk(c))
      && (e == Some(RuleExternalChannelInvalid(eventType, Name(c))) <==>
            !taken && NonNegative(c) && KnownMode(c) && DigestOk(c) && External(c) && !ExternalOk(c))
      && (e == Some(RuleChannelUnsupported(eventType, Name(c))) <==>
            !taken && NonNegative(c) && KnownMode(c) && DigestOk(c) && !InApp(c) && !External(c))
  {
    assert !(InApp(c) && External(c)) && (!KnownMode(c) ==> Mode(c) != "digest");
    hide NonNegative, InAppOk, ExternalOk, Name;
  }

  /** err is the failure of the first entry that has one. */
  ghost predicate FirstChannelError(eventType: string, channels: seq<RuleChannel>, err: Option<CatalogError>) {
    if err.None? then forall i | 0 <= i < |channels| :: ChannelError(eventType, channels[i], Taken(channels, i)) == None
    else exists i | 0 <= i < |channels| ::
      && ChannelError(eventType, channels[i], Taken(channels, i)) == err
      && forall j | 0 <= j < i :: ChannelError(eventType, channels[j], Taken(channels, j)) == None
  }

  ghost predicate PassBefore(eventType: string, channels: seq<RuleChannel>, n: nat)
    requires n <= |channels|
  {
    forall j | 0 <= j < n :: ChannelError(eventType, channels[j], Taken(channels, j)) == None
  }

  lemma FailsAt(eventType: string, channels: seq<RuleChannel>, i: nat, err: Option<CatalogError>)
    requires i < |channels| && PassBefore(eventType, channels, i)
    requires err.Some? && err == ChannelError(eventType, channels[i], Taken(channels, i))
    ensures FirstChannelError(eventType, channels, err) && !ChannelsOk(channels)
  {
    if Taken(channels, i) {
      var j :| 0 <= j < i && SameSlot(channels[j], channels[i]);
    }
  }

  lemma NoneFails(eventType: string, channels: seq<RuleChannel>)
    requires PassBefore(eventType, channels, |channels|)
    ensures FirstChannelError(eventType, channels, None) && ChannelsOk(channels)
  {
    forall i, j | 0 <= i < j < |channels| ensures !SameSlot(channels[i], channels[j]) {
      assert !Taken(channels, j);
    }
  }

  method ValidateChannels(eventType: string, channels: seq<RuleChannel>) returns (err: Option<CatalogError>)
    ensures FirstChannelError(eventType, channels, err)
    ensures err.None? <==> ChannelsOk(channels)
  {
    var seenChannels: set<string> := {};
    var i := 0;
    while i < |channels|
      invariant 0 <= i <= |channels|
      invariant seenChannels == Identities(channels[..i])
      invariant PassBefore(eventType, channels, i)
    {
      var channel := channels[i];
      var identity := Name(channel) + [':'] + Decimal(channel.escalationStep);
      IdentitiesNext(channels, i);
      assert identity == Identity(channel);
      err := ValidateChannel(eventType, channel, identity in seenChannels);
      if err.Some? {
        FailsAt(eventType, channels, i, err);
        return;
      }
      seenChannels := seenChannels + {identity};
      i := i + 1;
    }
    NoneFails(eventType, channels);
    return None;
  }

  method ValidateChannel(eventType: string, channel: RuleChannel, taken: bool) returns (err: Option<CatalogError>)
    ensures err == ChannelError(eventType, channel, taken)
    ensures err.None? <==> !taken && ChannelOk(channel)
  {
    ChannelRefusals(eventType, channel, taken);
    var name := TrimSpace(channel.channel);
    if taken || channel.delaySeconds < 0 || channel.escalationStep < 0 || channel.digestWindowSeconds < 0
      || channel.digestMaximumItems < 0 {
      return Some(RuleChannelDuplicate(eventType, name));
    }
    var deliveryMode := TrimSpace(channel.deliveryMode);
    if deliveryMode == "" {
      deliveryMode := "immediate";
    }
    if deliveryMode != "immediate" && deliveryMode != "digest" {
      return Some(RuleChannelDeliveryModeInvalid(eventType, name));
    }
    if deliveryMode == "digest"
      && (channel.digestWindowSeconds <= 0 || channel.delaySeconds != 0 || channel.escalationStep != 0) {
      return Some(RuleChannelDigestInvalid(eventType, name));
    }
    if name == "in_app" {
      if !Blank(channel.templateKey) || !Blank(channel.connectorKey) || !Blank(channel.operation)
        || channel.delaySeconds != 0
         || channel.escalationStep != 0 || deliveryMode != "immediate" || channel.digestWindowSeconds != 0 {
        return Some(RuleInAppChannelInvalid(eventType));
      }
    } else if name == "email" || name == "collaboration" || name == "whatsapp" {
      if !StableKey(TrimSpace(channel.templateKey)) || Blank(channel.connectorKey) || Blank(channel.operation) {
        return Some(RuleExternalChannelInvalid(eventType, name));
      }
    } else {
      return Some(RuleChannelUnsupported(eventType, name));
    }
    return None;
  }

  /** Rule index fails with e. */
  ghost predicate RuleError(rule: Rule, index: nat, keys: set<string>, e: CatalogError) {
    if !HeadOk(rule, keys) then e == RuleInvalid(index)
    else if !RecoveryOk(rule, keys) then e == RuleRecoveryEventInvalid(TrimSpace(rule.eventTypeKey))
    else FirstChannelError(TrimSpace(rule.eventTypeKey), rule.channels, Some(e))
  }

  // ---- the same answer as a table of checks on the rule as it is written ----

  /** One entry, when its slot is taken or free. */
  ghost function ChannelChecks(eventType: string, c: RuleChannel, taken: bool): seq<Line<CatalogError>> {
    var name, mode := TrimSpace(c.channel), TrimSpace(c.deliveryMode);
    [ Line(
        && !taken && c.delaySeconds >= 0 && c.escalationStep >= 0 && c.digestWindowSeconds >= 0
        && c.digestMaximumItems >= 0, RuleChannelDuplicate(eventType, name)),
      Line(mode in {"", "immediate", "digest"}, RuleChannelDeliveryModeInvalid(eventType, name)),
      Line(mode == "digest" ==> c.digestWindowSeconds > 0 && c.delaySeconds == 0 && c.escalationStep == 0,
        RuleChannelDigestInvalid(eventType, name)),
      Line(name in {"in_app", "email", "collaboration", "whatsapp"}, RuleChannelUnsupported(eventType, name)),
      Line(name == "in_app" ==>
          && Blank(c.templateKey) && Blank(c.connectorKey) && Blank(c.operation) && mode != "digest"
          && c.delaySeconds == 0 && c.escalationStep == 0 && c.digestWindowSeconds == 0,
        RuleInAppChannelInvalid(eventType)),
      Line(name != "in_app" ==>
          StableKey(TrimSpace(c.templateKey)) && !Blank(c.connectorKey) && !Blank(c.operation),
        RuleExternalChannelInvalid(eventType, name)) ]
  }

  /** An entry is refused for the first line of the table that it does not meet. */
  lemma ChannelTable(eventType: string, c: RuleChannel, taken: bool)
    ensures Decides(ChannelChecks(eventType, c, taken), ChannelError(eventType, c, taken))
  {
    hide StableKey, TrimSpace;
    var checks := ChannelChecks(eventType, c, taken);
    if taken || !NonNegative(c) {
      assert FailsFirst(checks, 0);
    } else if !KnownMode(c) {
      assert FailsFirst(checks, 1);
    } else if !DigestOk(c) {
      assert FailsFirst(checks, 2);
    } else if !InApp(c) && !External(c) {
      assert FailsFirst(checks, 3);
    } else if InApp(c) && !InAppOk(c) {
      assert FailsFirst(checks, 4);
    } else if External(c) && !ExternalOk(c) {
      assert FailsFirst(checks, 5);
    }
  }

  /** An earlier entry names the same channel at the same step. */
  predicate TakenBefore(channels: seq<RuleChannel>, i: nat)
    requires i < |channels|
  {
    exists j | 0 <= j < i ::
      && TrimSpace(channels[j].channel) == TrimSpace(channels[i].channel)
      && channels[j].escalationStep == channels[i].escalationStep
  }

  ghost function ChannelTables(eventType: string, channels: seq<RuleChannel>): seq<Line<CatalogError>> {
    Chain(seq(|channels|, i requires 0 <= i < |channels| =>
      ChannelChecks(eventType, channels[i], TakenBefore(channels, i))))
  }

  /** One rule, for these keys of event types. */
  ghost function RuleChecks(rule: Rule, index: nat, keys: set<string>): seq<Line<CatalogError>> {
    var key := TrimSpace(rule.eventTypeKey);
    [ Line(
        && key != "" && key in keys && rule.dedupeWindowSeconds >= 0 && rule.aggregationWindowSeconds >= 0
        && rule.reminderIntervalSeconds >= 0 && rule.maximumReminders >= 0, RuleInvalid(index)),
      Line(rule.recoveryEventTypeKey != "" ==> TrimSpace(rule.recoveryEventTypeKey) in keys,
        RuleRecoveryEventInvalid(key)) ]
    + ChannelTables(key, rule.channels)
  }

  /** All rules, one after the other. */
  ghost function RulesChecks(rules: seq<Rule>, keys: set<string>): seq<Line<CatalogError>> {
    Chain(seq(|rules|, i requires 0 <= i < |rules| => RuleChecks(rules[i], i, keys)))
  }

  lemma TakenExactly(channels: seq<RuleChannel>, i: nat)
    requires i < |channels|
    ensures TakenBefore(channels, i) <==> Taken(channels, i)
  {
    hide TrimSpace;
    assert forall j | 0 <= j < i :: SameSlot(channels[j], channels[i]) <==>
      TrimSpace(channels[j].channel) == TrimSpace(channels[i].channel)
      && channels[j].escalationStep == channels[i].escalationStep;
  }

  lemma FirstRefused(eventType: string, channels: seq<RuleChannel>, err: Option<CatalogError>) returns (n: nat)
    requires FirstChannelError(eventType, channels, err)
    ensures n <= |channels|
      && forall j | 0 <= j < n :: ChannelError(eventType, channels[j], Taken(channels, j)) == None
    ensures err.None? <==> n == |channels|
    ensures n < |channels| ==> err == ChannelError(eventType, channels[n], Taken(channels, n))
  {
    hide ChannelError, Taken;
    if err.None? {
      n := |channels|;
    } else {
      n :| 0 <= n < |channels| && ChannelError(eventType, channels[n], Taken(channels, n)) == err
        && forall j | 0 <= j < n :: ChannelError(eventType, channels[j], Taken(channels, j)) == None;
    }
  }

  lemma ChannelsTable(eventType: string, channels: seq<RuleChannel>, err: Option<CatalogError>)
    requires FirstChannelError(eventType, channels, err)
    ensures Decides(ChannelTables(eventType, channels), err)
  {
    hide ChannelChecks, ChannelError, Decides, Chain, Taken, TakenBefore, FirstChannelError;
    var tables := seq(|channels|, i requires 0 <= i < |channels| =>
      ChannelChecks(eventType, channels[i], TakenBefore(channels, i)));
    var n := FirstRefused(eventType, channels, err);
    forall i | 0 <= i < |tables| ensures Decides(tables[i], ChannelError(eventType, channels[i], Taken(channels, i))) {
      TakenExactly(channels, i);
      ChannelTable(eventType, channels[i], Taken(channels, i));
    }
    ChainDecides(tables, n, err);
  }

  /** What is said about a rule: nothing, or the failure that RuleError describes. */
  ghost predicate RuleAnswer(rule: Rule, index: nat, keys: set<string>, err: Option<CatalogError>) {
    if err.None? then RuleOk(rule, keys) && FirstChannelError(TrimSpace(rule.eventTypeKey), rule.channels, None)
    else RuleError(rule, index, keys, err.value)
  }

  /** A rule is refused for the first line of its table that it does not meet. */
  lemma RuleTable(rule: Rule, index: nat, keys: set<string>, err: Option<CatalogError>)
    requires RuleAnswer(rule, index, keys, err)
    ensures Decides(RuleChecks(rule, index, keys), err)
  {
    var key := TrimSpace(rule.eventTypeKey);
    var head: seq<Line<CatalogError>> :=
      [ Line(HeadOk(rule, keys), RuleInvalid(index)), Line(RecoveryOk(rule, keys), RuleRecoveryEventInvalid(key)) ];
    assert RuleChecks(rule, index, keys) == head + ChannelTables(key, rule.channels);
    hide ChannelTables, FirstChannelError, TrimSpace, ChannelsOk;
    if !HeadOk(rule, keys) {
      assert FailsFirst(head, 0);
      DecidedEarly(head, ChannelTables(key, rule.channels), err);
    } else if !RecoveryOk(rule, keys) {
      assert FailsFirst(head, 1);
      DecidedEarly(head, ChannelTables(key, rule.channels), err);
    } else {
      ChannelsTable(key, rule.channels, err);
      DecidesConcat(head, ChannelTables(key, rule.channels), None, err);
    }
  }

  lemma ChannelsPass(eventType: string, channels: seq<RuleChannel>)
    requires ChannelsOk(channels)
    ensures FirstChannelError(eventType, channels, None)
  {
    forall i | 0 <= i < |channels| ensures ChannelError(eventType, channels[i], Taken(channels, i)) == None {
      assert !Taken(channels, i);
      assert ChannelOk(channels[i]);
    }
  }

  lemma RulePasses(rule: Rule, index: nat, keys: set<string>)
    requires RuleOk(rule, keys)
    ensures Decides(RuleChecks(rule, index, keys), None)
  {
    hide RuleChecks, Decides, ChannelOk;
    assert FirstChannelError(TrimSpace(rule.eventTypeKey), rule.channels, None) by {
      ChannelsPass(TrimSpace(rule.eventTypeKey), rule.channels);
    }
    RuleTable(rule, index, keys, None);
  }

  lemma RuleFails(rule: Rule, index: nat, keys: set<string>, e: CatalogError)
    requires RuleError(rule, index, keys, e)
    ensures RuleAnswer(rule, index, keys, Some(e))
  {
  }

  /** The rules are refused for the first line of all their tables, one after the other. */
  lemma RulesTable(rules: seq<Rule>, keys: set<string>, n: nat, err: Option<CatalogError>)
    requires n <= |rules| && (err.None? <==> n == |rules|)
    requires forall i | 0 <= i < n :: RuleOk(rules[i], keys)
    requires n < |rules| ==> !RuleOk(rules[n], keys) && RuleError(rules[n], n, keys, err.value)
    ensures Decides(RulesChecks(rules, keys), err)
  {
    hide RuleChecks, RuleOk, RuleError, Decides, Chain;
    var tables := seq(|rules|, i requires 0 <= i < |rules| => RuleChecks(rules[i], i, keys));
    forall i | 0 <= i < n ensures Decides(tables[i], None) {
      RulePasses(rules[i], i, keys);
    }
    if n < |rules| {
      RuleTable(rules[n], n, keys, err) by {
        RuleFails(rules[n], n, keys, err.value);
      }
    }
    ChainDecides(tables, n, err);
  }

  method ValidateRules(rules: seq<Rule>, seen: set<string>) returns (err: Option<CatalogError>)
    ensures err.None? <==> forall i | 0 <= i < |rules| :: RuleOk(rules[i], seen)
    ensures err.Some? ==> exists i | 0 <= i < |rules| ::
      (forall j | 0 <= j < i :: RuleOk(rules[j], seen)) && !RuleOk(rules[i], seen)
        && RuleError(rules[i], i, seen, err.value)
    ensures Decides(RulesChecks(rules, seen), err)
  {
    hide RulesChecks, Decides;
    var index := 0;
    while index < |rules|
      invariant 0 <= index <= |rules|
      invariant forall j | 0 <= j < index :: RuleOk(rules[j], seen)
    {
      var rule := rules[index];
      var key := TrimSpace(rule.eventTypeKey);
      if key == "" || key !in seen || rule.dedupeWindowSeconds < 0 || rule.aggregationWindowSeconds < 0
         || rule.reminderIntervalSeconds < 0 || rule.maximumReminders < 0 {
        err := Some(RuleInvalid(index));
        RulesTable(rules, seen, index, err);
        return;
      }
      if rule.recoveryEventTypeKey != "" && TrimSpace(rule.recoveryEventTypeKey) !in seen {
        err := Some(RuleRecoveryEventInvalid(key));
        RulesTable(rules, seen, index, err);
        return;
      }
      err := ValidateChannels(key, rule.channels);
      if err.Some? {
        RulesTable(rules, seen, index, err);
        return;
      }
      index := index + 1;
    }
    RulesTable(rules, seen, index, None);
    return None;
  }

  // ---- the event types ----

  ghost predicate Similar(was: seq<Variable>, now: seq<Variable>) {
    |now| == |was| && forall i | 0 <= i < |was| :: now[i] == was[i] || now[i] == TidyVariable(was[i])
  }

  ghost predicate SimilarActions(was: seq<Descriptor>, now: seq<Descriptor>) {
    |now| == |was| && forall i | 0 <= i < |was| :: now[i] == was[i] || now[i] == TidyDescriptor(was[i])
  }

  lemma SimilarTidies(was: seq<Variable>, now: seq<Variable>)
    requires Similar(was, now)
    ensures TidyVariables(now) == TidyVariables(was)
  {
    forall i | 0 <= i < |was| ensures TidyVariable(now[i]) == TidyVariable(was[i]) {
      TidyVariableTwice(was[i]);
    }
  }

  lemma SimilarActionsTidy(was: seq<Descriptor>, now: seq<Descriptor>)
    requires SimilarActions(was, now)
    ensures TidyDescriptors(now) == TidyDescriptors(was)
  {
    forall i | 0 <= i < |was| ensures TidyDescriptor(now[i]) == TidyDescriptor(was[i]) {
      TidyDescriptorTwice(was[i]);
    }
  }

  lemma OverwrittenSimilar(was: seq<Variable>, now: seq<Variable>, n: nat)
    requires Similar(was, now) && n <= |now|
    ensures Similar(was, Overwritten(now, TidyVariables(was), n))
    ensures now == TidyVariables(was) ==> Overwritten(now, TidyVariables(was), n) == now
  {
  }

  lemma OverwrittenSimilarActions(was: seq<Descriptor>, now: seq<Descriptor>, n: nat)
    requires SimilarActions(was, now) && n <= |now|
    ensures SimilarActions(was, Overwritten(now, TidyDescriptors(was), n))
    ensures now == TidyDescriptors(was) ==> Overwritten(now, TidyDescriptors(was), n) == now
  {
  }

  lemma RunIsSimilar(value: EventType, was: seq<Variable>, now: seq<Variable>)
    requires Similar(was, now)
    ensures Similar(was, VariablesAfter(value, now))
    ensures now == TidyVariables(was) ==> VariablesAfter(value, now) == now
  {
    SimilarTidies(was, now);
    OverwrittenSimilar(was, now, GoodVariables(TidyVariables(now), 0));
  }

  lemma RunIsSimilarActions(value: EventType, variables: seq<Variable>, was: seq<Descriptor>, now: seq<Descriptor>)
    requires SimilarActions(was, now)
    ensures SimilarActions(was, ActionsAfter(value, variables, now))
    ensures now == TidyDescriptors(was) ==> ActionsAfter(value, variables, now) == now
  {
    SimilarActionsTidy(was, now);
    OverwrittenSimilarActions(was, now, DescriptorsWritten(TidyDescriptors(now), value.locales));
  }

  /** The slices of the event types before validation. */
  datatype Snapshot = Snapshot(variables: seq<Variable>, actions: seq<Descriptor>)

  ghost function Snap(value: EventType): Snapshot
    reads value.variables, value.actions
  {
    Snapshot(value.variables[..], value.actions[..])
  }

  ghost predicate AcceptableIn(value: EventType, s: Snapshot) {
    Acceptable(value, s.variables, s.actions)
  }

  ghost predicate Evolved(was: Snapshot, now: Snapshot) {
    Similar(was.variables, now.variables) && SimilarActions(was.actions, now.actions)
  }

  /** Entries that have been trimmed in part, also through another event type with the same slices, are
      judged as before. */
  lemma VerdictEvolved(value: EventType, was: Snapshot, now: Snapshot, e: EventCatalog.Error)
    requires Evolved(was, now)
    ensures AcceptableIn(value, now) <==> AcceptableIn(value, was)
    ensures MayReport(value, now.variables, now.actions, e) <==> MayReport(value, was.variables, was.actions, e)
  {
    SimilarTidies(was.variables, now.variables);
    SimilarActionsTidy(was.actions, now.actions);
  }

  lemma RunFromEvolved(value: EventType, was: Snapshot, now: Snapshot)
    requires Evolved(was, now) && AcceptableIn(value, now)
    ensures VariablesAfter(value, now.variables) == TidyVariables(was.variables)
    ensures ActionsAfter(value, now.variables, now.actions) == TidyDescriptors(was.actions)
  {
    AcceptedRun(value, now.variables, now.actions);
    SimilarTidies(was.variables, now.variables);
    SimilarActionsTidy(was.actions, now.actions);
  }

  /** Every entry of both slices is trimmed. */
  ghost predicate Tidied(value: EventType, was: Snapshot)
    reads value.variables, value.actions
  {
    value.variables[..] == TidyVariables(was.variables) && value.actions[..] == TidyDescriptors(was.actions)
  }

  function TypeKey(value: EventType): string {
    TrimSpace(value.key)
  }

  function TypeKeys(values: seq<EventType>): set<string> {
    set v | v in values :: TypeKey(v)
  }

  ghost predicate KeysDistinct(values: seq<EventType>) {
    forall i, j | 0 <= i < j < |values| :: TypeKey(values[i]) != TypeKey(values[j])
  }

  lemma TypeKeysNext(values: seq<EventType>, i: nat)
    requires i < |values|
    ensures TypeKeys(values[..i + 1]) == TypeKeys(values[..i]) + {TypeKey(values[i])}
  {
    assert values[..i + 1] == values[..i] + [values[i]];
  }

  lemma KeysDistinctNext(values: seq<EventType>, i: nat)
    requires i < |values| && KeysDistinct(values[..i]) && TypeKey(values[i]) !in TypeKeys(values[..i])
    ensures KeysDistinct(values[..i + 1])
  {
    assert forall j | 0 <= j < i :: values[j] in values[..i];
  }

  /** The slices that belong to the event types of the catalog. Two of them may share one. */
  ghost function Slices(values: seq<EventType>): set<object> {
    (set v | v in values :: v.variables as object) + (set v | v in values :: v.actions as object)
  }

  /** In every event type each slice entry is what it was or that entry trimmed, and in the first n event
      types all entries are trimmed. */
  ghost predicate InProgress(values: seq<EventType>, was: seq<Snapshot>, n: nat)
    requires n <= |values| == |was|
    reads Slices(values)
  {
    && (forall k | 0 <= k < |values| :: Evolved(was[k], Snap(values[k])))
    && (forall k | 0 <= k < n :: Tidied(values[k], was[k]))
  }

  /** One step of the loop below, seen from every event type in the catalog. */
  method ValidateNext(values: seq<EventType>, index: nat, ghost was: seq<Snapshot>)
    returns (validated: EventType, err: Option<EventCatalog.Error>)
    requires index < |values| == |was| && InProgress(values, was, index)
    modifies values[index].variables, values[index].actions
    ensures validated == Tidy(values[index]) && validated.key == TypeKey(values[index])
    ensures err.None? ==> InProgress(values, was, index + 1)
    ensures err.Some? ==> InProgress(values, was, index)
    ensures err.None? <==> AcceptableIn(values[index], was[index])
    ensures err.Some? ==> MayReport(values[index], was[index].variables, was[index].actions, err.value)
  {
    hide Acceptable, MayReport, Reported, Enumerations.Enumerates, HeaderTrimmed, Decides, EventTypeChecks;
    hide VariablesAfter, ActionsAfter, TidyVariables, TidyDescriptors, Similar, SimilarActions;
    ghost var value := values[index];
    ghost var now := Snap(value);
    ghost var order;
    validated, err, order := ValidateEventType(values[index]);
    VerdictEvolved(value, was[index], now, if err.Some? then err.value else EventCatalog.ActionInvalid(""));
    if err.None? {
      RunFromEvolved(value, was[index], now);
    }
    hide AcceptableIn, Tidy, TypeKey;
    forall k | 0 <= k < |values|
      ensures Evolved(was[k], Snap(values[k]))
      ensures old(Tidied(values[k], was[k])) ==> Tidied(values[k], was[k])
    {
      if values[k].variables == value.variables {
        RunIsSimilar(value, was[k].variables, now.variables);
      }
      if values[k].actions == value.actions {
        RunIsSimilarActions(value, now.variables, was[k].actions, now.actions);
      }
    }
  }

  /** The first n event types are valid and have distinct keys. */
  ghost predicate PrefixOk(values: seq<EventType>, was: seq<Snapshot>, n: nat)
    requires n <= |values| == |was|
  {
    (forall i | 0 <= i < n :: AcceptableIn(values[i], was[i])) && KeysDistinct(values[..n])
  }

  ghost predicate TypesOk(values: seq<EventType>, was: seq<Snapshot>)
    requires |values| == |was|
  {
    PrefixOk(values, was, |values|)
  }

  /** Event type i is the first that fails, or repeats the key of an earlier one, and e says so. */
  ghost predicate TypeError(values: seq<EventType>, was: seq<Snapshot>, i: nat, e: CatalogError)
    requires i < |values| == |was|
  {
    && PrefixOk(values, was, i)
    && if e.EventTypeFailed? then
         e.index == i && MayReport(values[i], was[i].variables, was[i].actions, e.cause)
       else
         e == EventTypeDuplicate(TypeKey(values[i])) && AcceptableIn(values[i], was[i])
           && TypeKey(values[i]) in TypeKeys(values[..i])
  }

  lemma PrefixNext(values: seq<EventType>, was: seq<Snapshot>, i: nat)
    requires i < |values| == |was| && PrefixOk(values, was, i) && AcceptableIn(values[i], was[i])
    requires TypeKey(values[i]) !in TypeKeys(values[..i])
    ensures PrefixOk(values, was, i + 1)
  {
    KeysDistinctNext(values, i);
    forall j | 0 <= j < i + 1 ensures AcceptableIn(values[j], was[j]) {
      assert j < i || j == i;
    }
  }

  lemma KeyRepeats(values: seq<EventType>, i: nat)
    requires i < |values| && TypeKey(values[i]) in TypeKeys(values[..i])
    ensures !KeysDistinct(values[..|values|])
  {
    var v :| v in values[..i] && TypeKey(v) == TypeKey(values[i]);
    var j :| 0 <= j < i && values[j] == v;
    assert values[..|values|] == values;
  }

  lemma PrefixRepeats(values: seq<EventType>, was: seq<Snapshot>, i: nat)
    requires i < |values| == |was| && PrefixOk(values, was, i) && AcceptableIn(values[i], was[i])
    requires TypeKey(values[i]) in TypeKeys(values[..i])
    ensures !TypesOk(values, was) && TypeError(values, was, i, EventTypeDuplicate(TypeKey(values[i])))
  {
    KeyRepeats(values, i);
  }

  lemma PrefixFails(values: seq<EventType>, was: seq<Snapshot>, i: nat, e: EventCatalog.Error)
    requires i < |values| == |was| && PrefixOk(values, was, i)
      && MayReport(values[i], was[i].variables, was[i].actions, e)
    ensures !TypesOk(values, was) && TypeError(values, was, i, EventTypeFailed(i, e))
  {
    ReportRejects(values[i], was[i].variables, was[i].actions, e);
    assert !AcceptableIn(values[i], was[i]);
  }

  lemma InProgressFromStart(values: seq<EventType>, was: seq<Snapshot>, n: nat)
    requires n <= |values| == |was| && InProgress(values, was, n)
    ensures InProgress(values, was, 0)
  {
  }

  /** The body of the first loop: validates the next event type and compares its key with those seen. */
  method AcceptNext(values: seq<EventType>, index: nat, seen: set<string>, ghost was: seq<Snapshot>)
    returns (key: string, err: Option<CatalogError>)
    requires index < |values| == |was| && InProgress(values, was, index)
    requires PrefixOk(values, was, index) && seen == TypeKeys(values[..index])
    modifies values[index].variables, values[index].actions
    ensures key == TypeKey(values[index])
    ensures err.None? ==> InProgress(values, was, index + 1) && PrefixOk(values, was, index + 1)
    ensures err.Some? ==>
      InProgress(values, was, 0) && !TypesOk(values, was) && TypeError(values, was, index, err.value)
  {
    hide AcceptableIn, MayReport, InProgress, PrefixOk, TypeError, KeysDistinct, TypeKeys;
    var validated, failed := ValidateNext(values, index, was);
    key := validated.key;
    if failed.Some? {
      InProgressFromStart(values, was, index);
      PrefixFails(values, was, index, failed.value);
      return key, Some(EventTypeFailed(index, failed.value));
    }
    if key in seen {
      InProgressFromStart(values, was, index + 1);
      PrefixRepeats(values, was, index);
      return key, Some(EventTypeDuplicate(key));
    }
    PrefixNext(values, was, index);
    return key, None;
  }

  lemma AllOfThem<T>(s: seq<T>)
    ensures s[..|s|] == s
  {
  }

  method ValidateTypes(values: seq<EventType>, ghost was: seq<Snapshot>)
    returns (seen: set<string>, err: Option<CatalogError>)
    requires |was| == |values| && InProgress(values, was, 0)
    modifies Slices(values)
    ensures err.None? ==> InProgress(values, was, |values|) && TypesOk(values, was) && seen == TypeKeys(values)
    ensures err.Some? ==> InProgress(values, was, 0) && !TypesOk(values, was)
    ensures err.Some? ==> exists i | 0 <= i < |values| :: TypeError(values, was, i, err.value)
  {
    assert PrefixOk(values, was, 0) && TypeKeys(values[..0]) == {};
    hide AcceptableIn, MayReport, InProgress, PrefixOk, TypeError, KeysDistinct, TypeKeys, TypeKey, Slices;
    seen := {};
    var index := 0;
    while index < |values|
      invariant 0 <= index <= |values|
      invariant InProgress(values, was, index)
      invariant PrefixOk(values, was, index)
      invariant seen == TypeKeys(values[..index])
    {
      var key;
      key, err := AcceptNext(values, index, seen, was);
      if err.Some? {
        return;
      }
      TypeKeysNext(values, index);
      seen := seen + {key};
      index := index + 1;
    }
    AllOfThem(values);
    return seen, None;
  }

  ghost function Snaps(values: seq<EventType>): (s: seq<Snapshot>)
    reads Slices(values)
    ensures |s| == |values| && forall k | 0 <= k < |values| :: s[k] == Snap(values[k])
  {
    if values == [] then [] else Snaps(values[..|values| - 1]) + [Snap(values[|values| - 1])]
  }

  /** The catalog is accepted iff every event type is valid, their trimmed keys are distinct, and every
      rule is in order and refers to event types of the catalog. */
  method ValidateEventTypes(values: seq<EventType>, rules: seq<Rule>) returns (err: Option<CatalogError>)
    modifies Slices(values)
    ensures err.None? <==>
      TypesOk(values, old(Snaps(values))) && forall i | 0 <= i < |rules| :: RuleOk(rules[i], TypeKeys(values))
    ensures err.Some? ==>
      || (exists i | 0 <= i < |values| :: TypeError(values, old(Snaps(values)), i, err.value))
      || (exists i | 0 <= i < |rules| ::
            && TypesOk(values, old(Snaps(values))) && (forall j | 0 <= j < i :: RuleOk(rules[j], TypeKeys(values)))
            && !RuleOk(rules[i], TypeKeys(values)) && RuleError(rules[i], i, TypeKeys(values), err.value))
    ensures TypesOk(values, old(Snaps(values))) ==> Decides(RulesChecks(rules, TypeKeys(values)), err)
    ensures err.None? ==> InProgress(values, old(Snaps(values)), |values|)
    ensures err.Some? ==> InProgress(values, old(Snaps(values)), 0)
  {
    hide AcceptableIn, MayReport, RuleOk, RuleError, PrefixOk, Decides, RulesChecks;
    ghost var was := Snaps(values);
    assert InProgress(values, was, 0);
    var seen;
    seen, err := ValidateTypes(values, was);
    if err.Some? {
      return;
    }
    err := ValidateRules(rules, seen);
  }

  // ---- what acceptance means for a rule ----

  /** An accepted rule reaches the inbox at most once, and a digest on a channel is the only immediate
      step of that channel. */
  lemma AcceptedSlots(rule: Rule, keys: set<string>, i: nat, j: nat)
    requires RuleOk(rule, keys) && i < |rule.channels| && j < |rule.channels| && i != j
    ensures TrimSpace(rule.channels[i].channel) != "in_app" || TrimSpace(rule.channels[j].channel) != "in_app"
    ensures var c, d := rule.channels[i], rule.channels[j];
      TrimSpace(c.deliveryMode) == "digest" && TrimSpace(c.channel) == TrimSpace(d.channel) ==>
        d.escalationStep > 0 && TrimSpace(d.deliveryMode) in {"", "immediate"}
  {
    var c, d := rule.channels[i], rule.channels[j];
    assert ChannelOk(c) && ChannelOk(d);
    assert !SameSlot(c, d);
  }
}
