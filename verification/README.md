# Verification of the Domainry Notification SDK

A Dafny model of the algorithms in the Domainry Notification SDK, with proofs of what they promise:

- **The resilient remote call** (`remote/`). Any number of calls share one circuit breaker, retry with
  exponential backoff and fetch service tokens through a cache. The breaker, the call loop, the token cache
  and the header copy are classes and loops proved against functions of their event histories; the
  interleavings of concurrent calls are a transition system with an invariant over every run.
- **The catalog and template validators** (`contract/`). Long early-return loops over slices that are
  overwritten in place and maps that are visited in an arbitrary order, proved to accept exactly what a
  declarative predicate says, together with the facts about strings they rest on: the token scanner, the
  word matcher, string keys for pairs and tuples, trimming.
- **Fixed-width timestamps** (`contract/notification_time.go`): string order is time order.
- **The Delivery Gateway dispatch loop** (`deliverygateway/`): linear backoff and receipts that echo the
  request.

Time is a number of nanoseconds passed to each step; what the network and the issuer answer is an
arbitrary argument of each step. Where a promise needs the clock to be ordered, the lemma says so, and
where a promise fails, a lemma gives the input and another one the exact condition. Error codes are
constructors that carry the code's parameters. What each validator answers is stated twice: by the predicates
its loops are proved against, and by a table of checks on the values as the caller wrote them, of which the
first that fails decides. `dafny verify dfyconfig.toml` checks everything.

| file | what it models |
|---|---|
| `Text.dfy`, `Tables.dfy`, `Decimals.dfy`, `Enumerations.dfy`, `Spacing.dfy` | trimming, string order, separators; validation as a table of checks; decimal numbers; visiting a map in any order; events a minimum distance apart |
| `Policies.dfy`, `CircuitBreaking.dfy`, `RemoteCall.dfy`, `Interleavings.dfy`, `UninterruptedCalls.dfy`, `LateReports.dfy` | settings and backoff; the breaker; one call; all calls together; the two views agree; a run with a late report |
| `TokenCache.dfy`, `Headers.dfy` | service tokens; propagated headers |
| `Timestamps.dfy` | calendar, padding, order |
| `TemplateTokens.dfy`, `WordMatching.dfy`, `SensitiveKeys.dfy` | token scanner; words of a key; forbidden terms |
| `Models.dfy`, `EventCatalog.dfy`, `Rules.dfy` | event types; the catalog with its rules |
| `TemplateCapabilities.dfy`, `TemplateContents.dfy`, `TemplateFallbacks.dfy`, `Templates.dfy` | channel registry; contents; fallbacks; templates and batches |
| `Intents.dfy`, `DeliveryGateway.dfy` | notification intents; delivery |

Where the code does less than its comments or its shape suggest, the model follows the code:

- timestamps have a fixed width for the years 0 to 9999 and sort by time for the years -1 to 9999, but not
  beyond either end;
- clock readings are taken before the lock, so a report can be applied after one that is stamped later; an
  open breaker then admits early, even with a clock that never steps back;
- joined string keys (channel and provider, fallbacks) stand for their parts only under the conditions given
  below; for the service grants this system asks for they always do;
- the same brace on both sides of a token is rejected as a double brace, two different ones are not;
- a template whose key has white space around it may fall back to itself.

## Model

| member | source | states |
|---|---|---|
| `Text.TrimIsUnique` | contract/catalog_validation.go:91-93 | a trimmed text is the text without the white space at both ends, and nothing else is |
| `Text.StableKeysExactly` | contract/template_validation.go:14-14 | the strings that match the key pattern, by code points |
| `Text.LessExactly` | contract/template_validation.go:178-178 | the order of strings is that of a dictionary: after a common beginning the shorter one, or the smaller character, is first |
| `Policies.NormalizedConfig` | remote/config.go:67-93 | every setting that is not positive gets its default, the maximum backoff is raised to the initial one, everything else is kept |
| `Policies.NormalizedIsValidAndStable` | remote/config.go:67-93 | a normalised configuration has at least one attempt, 0 < initial backoff <= maximum backoff, threshold and open duration positive; normalising again changes nothing; valid settings are never altered |
| `Policies.Defaults` | remote/config.go:67-93 | a configuration without settings gets 10 s, two attempts, backoff from 50 to 500 ms, and a breaker that five failures open for 5 s |
| `Policies.RetryDelay` | remote/resilience.go:55-64 | the doubling loop, in 64-bit arithmetic, for every policy and attempt number |
| `Policies.BackoffExactness` | remote/resilience.go:55-64 | the 64-bit loop equals min(initial * 2^(attempt-1), max) on every attempt iff max is not above the first doubling of initial that reaches 2^62; max <= 2^62 ns is enough |
| `Policies.BackoffCanWrap` | remote/resilience.go:57-58 | an input on which the doubling wraps and the delay becomes negative |
| `Policies.BackoffMonotone` | remote/resilience.go:55-64 | the delays the code computes are positive, never shrink from one attempt to a later one and never exceed the maximum iff max is not above the first doubling of initial that reaches 2^62 |
| `Policies.TotalBackoffBound` | remote/factory.go:123-139 | under every valid policy, also one whose doubling wraps, a call with k attempts waits at most initial * (2^(k-1) - 1) and at most (k-1) * max; a negative delay is no wait |
| `Policies.TotalBackoffExactly` | remote/factory.go:123-139 | as long as no delay is cut to the maximum, k attempts wait exactly initial * 2^(k-1) - initial |
| `CircuitBreaking.AllowRefines` | remote/resilience.go:19-30 | on fields that represent a history, allow admits iff the failure run is below the threshold, or the last observation is OpenDuration old and nobody was admitted since; the new fields represent the longer history |
| `CircuitBreaking.ObserveRefines` | remote/resilience.go:31-47 | observe keeps failures = min(run, threshold), openedUntil = zero or last observation + OpenDuration, probeActive = open and admitted since |
| `CircuitBreaking.BreakerRefinesHistory` | remote/resilience.go:11-47 | for any sequence of operations with any stamps, the three fields are that function of the history and every answer is the declared one |
| `CircuitBreaking.CircuitBreaker.Allow` | remote/resilience.go:19-30 | the method answers as the history demands, records the admission, and keeps the representation |
| `CircuitBreaking.CircuitBreaker.Observe` | remote/resilience.go:31-47 | the method records the observation and keeps the representation |
| `CircuitBreaking.OpenPersists` | remote/resilience.go:34-44 | an open breaker stays open as long as no observation succeeds |
| `CircuitBreaking.NextAdmissionSpacedExactly` | remote/resilience.go:25-44 | when an open breaker can admit again, whatever stamp the next call brings its admission comes OpenDuration after an earlier one iff the last observation is not stamped before that earlier one, a comparison known before the call |
| `CircuitBreaking.OpenAdmissionsSpaced` | remote/resilience.go:25-44 | between two admissions of an open breaker lies an observation; they are OpenDuration apart as soon as the last one is not stamped before the first admission, whatever the other stamps are |
| `CircuitBreaking.OrderedStampsReportLater` | remote/resilience.go:25-44 | stamps ordered as the lock is taken meet that comparison throughout |
| `CircuitBreaking.AdmissionRate` | remote/resilience.go:25-44 | if that comparison holds between consecutive admissions, at most L / OpenDuration + 1 admissions of an open breaker fall into a window of length L; nothing is asked of refused calls and other reports |
| `CircuitBreaking.AllAdmissionsOpen` | remote/resilience.go:25-44 | in a stretch that begins open and sees no success every admission is one of those counted |
| `RemoteCall.FailureClassification` | remote/factory.go:143-193 | an attempt counts as failed iff there was no response or its status is 429, 502, 503, 504 (or 0); it succeeds iff the status is from 200 to 299 and the body, where one is wanted, decodes |
| `RemoteCall.ErrorsPassedOn` | remote/factory.go:143-193 | a server's error envelope keeps its code and its retryable flag, causes met before sending are passed on unchanged, every other failure has its own status, code and flag |
| `RemoteCall.AttemptsExactly` | remote/resilience.go:49-51 | GET, HEAD, OPTIONS and a POST to /notification/v1/events:publish are allowed MaxAttempts attempts, every other request one |
| `RemoteCall.RetrySafety` | remote/factory.go:118-140 | only reads and publications are sent more than once, at most MaxAttempts times; each resend follows a failed attempt; success and the returned error are those of the last attempt unless the wait was cancelled |
| `RemoteCall.VerdictExactly` | remote/factory.go:124-138 | the breaker is told of a failure iff the call ended with an error whose status is 429, 502, 503, 504 or 0, and not when its wait was cancelled |
| `RemoteCall.CompletionIsUnique` | remote/factory.go:123-140 | against given answers and cancellations a call can end in only one way |
| `RemoteCall.SettleCompletes` | remote/factory.go:123-140 | from any point of the retry loop the call ends as the declarative description of a finished call says |
| `RemoteCall.SettleIsTheCompletion` | remote/factory.go:123-140 | the retry loop ends in a way iff that way meets the declarative description |
| `RemoteCall.Binding.Call` | remote/factory.go:106-141 | unencodable and refused calls send nothing and have their own errors; an admitted call adds exactly its admission and its one report to the history, sends the same body each time, more than once only for reads and publications, and ends as the loop must |
| `RemoteCall.EveryRequestAttempted` | remote/factory.go:118-123 | every request is attempted iff MaxAttempts is positive |
| `RemoteCall.EveryAdmissionReported` | remote/factory.go:115-140 | for every request and network, an admitted call adds its admission and then its own report to the history, iff MaxAttempts is positive |
| `RemoteCall.Binding.Send` | remote/factory.go:118-140 | the retry loop of an admitted call: same body each time, ends as the declared recursion does, waits exactly the backoff of its attempts, reports once |
| `Interleavings.Safety` | remote/factory.go:106-141 | over every interleaving of any number of calls: breaker fields and answers follow the history, each call obeys its retry rules, log entries match call stages, a taken probe has a call in flight, the receiver holds one event per identity |
| `Interleavings.EveryAdmissionReportedOnce` | remote/factory.go:115-140 | every admitted call that has returned has observed exactly once, with the verdict of its own answers; a call that has not returned has not observed |
| `Interleavings.ProbeHasAnOwner` | remote/resilience.go:25-29 | while probeActive is set, the call admitted last was admitted by an open breaker, so it took the slot, is still in flight, and nobody has been admitted or has observed since |
| `Interleavings.NoProbeLeak` | remote/resilience.go:19-47 | with no call in flight the probe slot is free and the breaker admits exactly the calls stamped at or after openedUntil |
| `Interleavings.CallsFinish` | remote/factory.go:115-140 | a call that has not returned can always take its next step, each step of its own brings down a measure between 0 and 2 * MaxAttempts + 5, and the steps of others do not touch it |
| `Interleavings.CallStepsBounded` | remote/factory.go:106-141 | after every run of any number of calls, the steps a call has taken, its arrival included, and those it may still take are together at most 2 * MaxAttempts + 6 |
| `Interleavings.ReturnedCalls` | remote/factory.go:106-141 | in every run a returned call ended as its own request and answers require; a call that was not admitted sent nothing |
| `Interleavings.AtMostOnce` | remote/resilience.go:49-51 | only reads and publications arrive more than once, and at most MaxAttempts times; with a receiver that keeps one event per source identity, publications create exactly one event per identity however many copies arrive |
| `Interleavings.NextAdmissionExactly` | remote/resilience.go:25-44 | in every reachable open state with a free slot, the next admission is sure to be OpenDuration after an earlier one iff openedUntil is, that is, iff the last report is not stamped before it |
| `Interleavings.RequestRate` | remote/factory.go:118-139 | in every run, if reports are so stamped, a window of length L sees at most L / OpenDuration + 1 admissions while open and at most MaxAttempts times as many requests from them, late observers included |
| `LateReports.LateReportAdmitsEarly` | remote/factory.go:115-132 | for every normalised configuration, whatever its threshold, open duration and retry policy, a legal run with no success and with a clock that never steps back, in which a report stamped before the probe but applied after it lets an open breaker admit too early |
| `UninterruptedCalls.UninterruptedCallIsTheLoop` | remote/factory.go:106-141 | from every reachable state a new call can run through without interruption, and then adds to the log and ends exactly as `RemoteCall.Binding.Call` promises, so the transition system and the verified loop describe the same code |
| `UninterruptedCalls.RunExtends` | remote/factory.go:106-141 | steps that can be taken from the last state of a run extend the run |
| `UninterruptedCalls.ArrivalsExactly` | remote/resilience.go:49-51 | over all legal runs a request arrives n times in one of them iff n is at most MaxAttempts, for reads and publications, or at most 1, for everything else |
| `TokenCache.Credentials.ServiceToken` | remote/factory.go:195-215 | the cache answers as a function of the uses before it: the issuer is asked exactly when no token with more than 30 s left is held; failed and invalid exchanges leave the cache unchanged |
| `TokenCache.TokenAgreesWithIssuer` | remote/factory.go:201-214 | every token handed out is non-blank, was issued for exactly the requested grant, is the newest accepted one, has not expired when new and has more than 30 s left when cached, provided no requested resource is another one followed by a NUL |
| `TokenCache.AskedExactly` | remote/factory.go:201-206 | the issuer is asked iff it has granted no token under the key before or the last one it granted has 30 s or less to live |
| `TokenCache.RepliesExactly` | remote/factory.go:207-214 | a granted token that is not blank and has not expired is handed out, one that is not is refused with its own code, and a refusal of the issuer keeps its code |
| `TokenCache.KeysApartExactly` | remote/factory.go:201-201 | the joined keys of all grants on a set of resources are distinct iff no resource is another one followed by a NUL and more; NUL-free resources are enough |
| `TokenCache.AgreementExactly` | remote/factory.go:195-215 | in every history over a set of resources each token handed out was issued for the grant that asked, iff no resource is another one followed by a NUL and more; NUL-free resources are enough |
| `TokenCache.SharedKey` | remote/factory.go:201-204 | for any two distinct grants with one key, a history in which the second is answered with the token of the first |
| `ServiceGrants.SystemGrantsAgree` | service_authority.go:14-76 | over the resources this system asks for, every token handed out was issued for the grant that asked |
| `TokenCache.NextExchange` | remote/factory.go:203-213 | consecutive exchanges for one key are at least l - 30 s apart when the first yields a token of lifetime l, whatever the clock does around them |
| `TokenCache.ExchangesSpaced` | remote/factory.go:203-213 | any two exchanges for one key are at least l - 30 s apart when those between succeed with lifetime l > 30 s; the clock may step back |
| `TokenCache.ExchangeRate` | remote/factory.go:203-213 | of the exchanges for one key, all successful with lifetime l > 30 s, at most W / (l - 30 s) + 1 fall into any window W; the clock may step back |
| `Headers.CanonicalNormalForm` | remote/resilience.go:80-81 | canonicalisation is idempotent and, on tokens (section 5.6.2 of RFC 9110), equal exactly for names that differ in letter case only |
| `Headers.CasedExactly` | remote/resilience.go:80-81 | character by character: a letter that is first or follows a hyphen becomes a capital, every other letter a small one, nothing else changes |
| `Headers.Header.Add` | remote/resilience.go:86-86 | looking up the name in any letter case finds the new value after the old ones; looking up any other name finds what it found before |
| `Headers.CopyValues` | remote/resilience.go:84-88 | appends exactly the non-blank values, trimmed, in order |
| `Headers.CleanedExactly` | remote/resilience.go:84-88 | values are cleaned one by one: trimmed, or dropped when they are white space only |
| `Headers.CopiedValues` | remote/resilience.go:78-90 | after copying in any order, each name has its old values followed by those of the source entries with that canonical name |
| `Headers.ReservedUntouched` | remote/resilience.go:80-83 | for any source and any spelling, no reserved name gains a value |
| `Headers.OrderIrrelevant` | remote/resilience.go:79-89 | the multiset of values a name gains does not depend on the order in which the map is visited |
| `Headers.CopyHeadersExcept` | remote/resilience.go:78-90 | the loop, for any set of names to leave out, visits every source name once and leaves the target as specified |
| `ProtectedHeaders.ProtectedUntouched` | remote/resilience.go:76-90 | under each of the nine protected names, in any capitalisation, the values stay as they were |
| `ProtectedHeaders.OthersCopied` | remote/resilience.go:76-90 | under every other name arrives what would arrive if no name were protected |
| `ProtectedHeaders.CopyContextHeaders` | remote/resilience.go:76-90 | the copy with the nine protected names: those keep their values, all others gain exactly the cleaned values of the source |
| `Decimals.DecimalInjective` | contract/catalog_validation.go:56-56 | distinct integers print differently and only with digits and a minus sign |
| `Timestamps.CivilUnique` | contract/notification_time.go:10-12 | an instant has exactly one valid proleptic Gregorian date and clock time |
| `Timestamps.MonthsExactly` | contract/notification_time.go:10-12 | months start and last as a formula without a table says |
| `Timestamps.CalendarExactly` | contract/notification_time.go:10-12 | the instant of any date and time in closed form, with the Unix epoch on day 719528 |
| `Timestamps.TextShowsParts` | contract/notification_time.go:8-12 | a timestamp reads YYYY-MM-DDTHH:MM:SS.NNNNNNNNNZ with exactly the parts of the date and time |
| `Timestamps.StringOrderIsTimeOrder` | contract/notification_time.go:5-12 | for all instants of the years -1 to 9999, byte order of the timestamps is chronological order (the ordering goal of section 5.1 of RFC 3339) |
| `Timestamps.SortedYearsExactly` | contract/notification_time.go:5-12 | all instants of an interval of years that reaches into -1 to 9999 sort by time iff the interval stays inside it |
| `Timestamps.WidthThirty` | contract/notification_time.go:8-12 | a timestamp has 30 characters iff the year is 0 to 9999, and never fewer |
| `Timestamps.ReadsBack` | contract/notification_time.go:8-12 | reading a timestamp gives the instant back, so formatting is injective |
| `Timestamps.WritesBack` | contract/notification_time.go:8-12 | any text that reads as an instant is the timestamp of that instant |
| `Timestamps.YearTenThousandSortsEarly` | contract/notification_time.go:8-12 | the failing pair above: the first instant of the year 10000 sorts before the one before it |
| `Timestamps.YearMinusTwoSortsLate` | contract/notification_time.go:8-12 | the failing pair below: the start of the year -2 sorts after the start of the year -1 |
| `TemplateTokens.MatchIsUnique` | contract/template_validation.go:15-15 | at each position the token pattern has at most one match and one capture, and the scanner finds it |
| `TemplateTokens.NameIsStableKey` | contract/template_validation.go:14-15 | the names a token can capture are exactly the stable keys |
| `TemplateTokens.TokensExactly` | contract/template_validation.go:15-15 | a token is two opening braces, a stable key with any of the five white space characters of the pattern around it, and two closing braces |
| `TemplateTokens.ScanSplits` | contract/template_validation.go:293-294 | the leftmost scan splits any source into literals and tokens that concatenate to it, with no token starting inside a literal |
| `TemplateTokens.ScanIsUnique` | contract/template_validation.go:293-294 | that split is the only one |
| `TemplateTokens.DoubleBraceIsStrayPair` | contract/template_validation.go:294-297 | what is left after cutting out the tokens holds a double brace iff the source holds two equal braces outside tokens with nothing but tokens between them |
| `TemplateTokens.ValidateTokens` | contract/template_validation.go:292-305 | the loop returns the first failure in source order, syntax before unknown variables |
| `TemplateTokens.AcceptedSources` | contract/template_validation.go:292-305 | a source is accepted iff the root of every token is declared and there is no stray pair of braces |
| `TemplateTokens.RejectedSources` | contract/template_validation.go:292-305 | the syntax is refused iff there is a stray pair of braces; otherwise the root named is that of the first token, in source order, that is not declared |
| `TemplateTokens.RootExactly` | contract/template_validation.go:299-299 | the root of a name has no dot and is followed by a dot or by nothing |
| `TemplateTokens.DoubleBracesOverlapTokens` | contract/template_validation.go:294-297 | in an accepted source every double brace overlaps a token |
| `TemplateTokens.JoinedBracesRejected` | contract/template_validation.go:294-297 | the converse fails: for every token, the same single brace on both sides of it is rejected although every double brace overlaps the token |
| `TemplateTokens.MixedBracesAccepted` | contract/template_validation.go:294-304 | two different braces around a token are no double brace: the source is accepted iff the root of the token is declared |
| `TemplateTokens.PrintThenScan` | contract/template_validation.go:292-305 | printing brace-free literals and tokens and scanning gives the same segments with neighbouring literals merged, and the check accepts iff the roots are declared |
| `WordMatching.KeyWordsAroundSeparator` | contract/catalog_validation.go:160-162 | the words of a key do not depend on which separator stands between them, how many there are, or whether one stands at an end |
| `WordMatching.FourTestsAreOne` | contract/catalog_validation.go:168-168 | the four substring tests together look for the term between underscores in the text between underscores |
| `WordMatching.SubstringTestsAreSublistTest` | contract/catalog_validation.go:163-170 | on joined words the four tests hold iff the term's words are a contiguous sublist |
| `SensitiveKeys.SensitiveKeysExactly` | contract/catalog_validation.go:159-173 | a key is sensitive iff the words of some forbidden term occur as a contiguous sublist of its words |
| `SensitiveKeys.SeparatorsDoNotMatter` | contract/catalog_validation.go:159-173 | the verdict does not change when a separator is exchanged, repeated, or added at an end |
| `SensitiveKeys.TermsAreSensitive` | contract/catalog_validation.go:164-167 | each of the sixteen forbidden terms is itself sensitive |
| `SensitiveKeys.StaysSensitive` | contract/catalog_validation.go:159-173 | a sensitive key stays sensitive whatever stands before and after it across a dot, underscore, hyphen or space, and in any capitalisation |
| `EventCatalog.ValidateVariables` | contract/catalog_validation.go:103-114 | entries are trimmed in place up to the first bad one and untouched beyond it; the error is that entry's; on success the keys collected are exactly those declared |
| `EventCatalog.MissingLabel` | contract/catalog_validation.go:122-126 | a locale without a label is found iff there is one, and it is the first such one in the order visited |
| `EventCatalog.ValidateDescriptors` | contract/catalog_validation.go:115-127 | actions are trimmed in place up to the first bad one, including it when only a label is missing; the error is that action's, with the first unlabelled locale in the order visited |
| `EventCatalog.CatalogContentFragments` | contract/catalog_validation.go:148-157 | the texts of facts in order, then the labels in the order the map was visited |
| `EventCatalog.FragmentsAre` | contract/catalog_validation.go:132-132 | whatever that order, with title and body these are exactly the texts of the content |
| `EventCatalog.FragmentsExactly` | contract/catalog_validation.go:132-132 | the texts of a content are its title, its body, the keys and values of its facts and the labels of its actions |
| `EventCatalog.ValidateContents` | contract/catalog_validation.go:128-139 | accepts iff every locale has key, title and body and every token in every text is the whole key of a declared variable; otherwise the error is that of the first bad locale in the order visited |
| `EventCatalog.ValidateHeader` | contract/catalog_validation.go:94-102 | the first failing header check, in the order of the source |
| `EventCatalog.ValidateEventType` | contract/catalog_validation.go:90-141 | accepts iff the declarative predicate holds, whatever the order of both maps; each of the seven returned texts is its own field without the white space around it and nothing else changes; states the exact contents of the caller's variables and actions on every path; the error is that of the first failing check of a table on the raw input, for the order in which the locales were visited |
| `EventCatalog.ValidationTable` | contract/catalog_validation.go:90-141 | validation as one table of checks on the raw input, header, variables, actions, contents: the answer is the first that fails |
| `EventCatalog.AcceptedEventTypes` | contract/catalog_validation.go:90-141 | an event type is acceptable iff every check of that table passes |
| `EventCatalog.WrittenVariables` | contract/catalog_validation.go:103-114 | a variable is trimmed in place, key and type each from its own field, iff the header and all variables up to it pass; otherwise it is untouched |
| `EventCatalog.WrittenActions` | contract/catalog_validation.go:115-127 | an action is trimmed in place, field by field, iff header, variables and all actions before it pass and it is well formed itself, labels or not |
| `EventCatalog.ReportsIffRejected` | contract/catalog_validation.go:90-141 | an allowed error exists iff the event type is not acceptable |
| `EventCatalog.ReportsExactly` | contract/catalog_validation.go:90-141 | the errors the input allows are exactly those that validation gives for some order of the locale map |
| `EventCatalog.ReportsAgree` | contract/catalog_validation.go:120-139 | two orders of the maps can only differ in the locale named and in which complaint about contents is made |
| `EventCatalog.RunKeepsVerdicts` | contract/catalog_validation.go:112-121 | a run, even one cut short, changes the verdict on no event type that uses the same slices |
| `EventCatalog.AcceptedIsStable` | contract/catalog_validation.go:90-141 | an accepted event type is fully trimmed, is accepted again, and a second run changes nothing |
| `EventCatalog.AcceptedTextsAreSafe` | contract/catalog_validation.go:103-139 | every token in any text of an accepted event type names a declared variable whose words contain no forbidden term |
| `Rules.IdentityIsSlot` | contract/catalog_validation.go:55-57 | two rule channels have the same %s:%d string iff channel and escalation step are equal, whatever characters the channel holds |
| `Rules.ChannelRefusals` | contract/catalog_validation.go:57-84 | an entry passes iff its slot is free and it is in order; each failure is given for exactly the entries that pass everything before it and fail there |
| `Rules.ChannelTable` | contract/catalog_validation.go:57-84 | an entry as a table of checks on its raw fields: the answer is the first that fails |
| `Rules.ValidateChannels` | contract/catalog_validation.go:53-85 | accepts iff every entry is in order and the pairs of channel and step are distinct; otherwise the failure is that of the first bad entry |
| `Rules.ValidateRules` | contract/catalog_validation.go:47-86 | accepts iff every rule is in order and refers to known event types; otherwise the failure is that of the first bad rule; in each case the answer of the table of checks on the raw rules |
| `Rules.RulesTable` | contract/catalog_validation.go:47-86 | the rules as one table of checks, rule by rule and entry by entry: the answer is the first that fails |
| `Rules.ValidateEventTypes` | contract/catalog_validation.go:35-88 | accepts iff every event type is valid, trimmed keys are distinct and every rule is in order, also when event types share slices; each slice entry is afterwards what it was or trimmed, and trimmed throughout on acceptance |
| `Rules.VerdictEvolved` | contract/catalog_validation.go:37-46 | slices trimmed in part through another event type lead to the same verdict and the same possible errors |
| `Rules.AcceptedSlots` | contract/catalog_validation.go:57-78 | an accepted rule has at most one in_app entry, and a digest entry has no other entry on its channel at step 0 |
| `TemplateCapabilities.NewCapabilities` | contract/template_validation.go:70-89 | builds the registry iff every provider is valid and their keys are distinct; it then holds exactly these providers; otherwise the refusal is that of the first failing check of a table on the raw providers |
| `TemplateCapabilities.ResolveGives` | contract/template_validation.go:72-97 | a provider is found under its channel and name in any white space, with all its limits, features and its check as registered |
| `TemplateCapabilities.ResolveExactly` | contract/template_validation.go:91-101 | lookups return only entries registered for exactly the requested channel and provider iff no registered key splits at another slash into two trimmed parts |
| `TemplateCapabilities.NoSlash` | contract/template_validation.go:99-101 | a channel and a provider without slashes give a key that splits in one way |
| `TemplateCapabilities.SlashConfuses` | contract/template_validation.go:91-101 | a provider registered for channel a and provider b/c answers the lookup of channel a/b and provider c |
| `TemplateContents.ValidateTemplateVariables` | contract/template_validation.go:195-212 | accepts iff all trimmed keys are stable and distinct and all types supported, with exactly these variables declared, trimmed, under these keys; otherwise the error is that of the first bad variable |
| `TemplateContents.VariableTable` | contract/template_validation.go:197-209 | a variable as a table of checks on its raw fields: the answer is the first that fails |
| `TemplateContents.ValidateTemplateContent` | contract/template_validation.go:234-290 | the error is a function of template, locale, declared keys and capability alone |
| `TemplateContents.ContentFailsIffNotOk` | contract/template_validation.go:234-290 | that function reports nothing iff layout, formats, limits, facts, actions, provider template and tokens are all in order |
| `TemplateContents.LayoutTable` | contract/template_validation.go:236-283 | the layout of a content as a table of eleven checks on its raw fields: the answer is the first that fails |
| `TemplateContents.ContentTable` | contract/template_validation.go:234-290 | the same for the whole content, with the tokens of its texts after the layout |
| `TemplateContents.SourcesAreTexts` | contract/template_validation.go:253-283 | the texts checked for tokens are exactly subject, title, text, HTML, markdown, the keys and values of facts, the labels and URLs of actions and the parameters of components |
| `TemplateContents.SourceOrder` | contract/template_validation.go:253-288 | and they are checked in that order |
| `TemplateContents.AcceptedTextTokens` | contract/template_validation.go:284-288 | tokens are in order iff every such text splits into literals and declared tokens and leaves no double brace when the tokens are cut out |
| `TemplateFallbacks.IdentityIs` | contract/template_validation.go:225-225 | two valid fallbacks have the same identity string iff connector and target are equal and connection and operation join to the same text |
| `TemplateFallbacks.IdentityIsTupleExactly` | contract/template_validation.go:225-225 | the identity determines all four trimmed parts iff no connection is another one followed by a NUL and a text not starting with white space; NUL-free connections are enough |
| `TemplateFallbacks.ValidateTemplateFallbacks` | contract/template_validation.go:214-232 | accepts iff there are at most five fallbacks, all valid, with distinct identities; otherwise the error is that of the first bad one |
| `TemplateFallbacks.FallbackTable` | contract/template_validation.go:214-232 | the fallbacks as a table of checks on their raw fields: the answer is the first that fails |
| `TemplateFallbacks.AcceptedFallbacksDistinct` | contract/template_validation.go:218-230 | the trimmed fallbacks of an accepted template are pairwise distinct |
| `TemplateFallbacks.DuplicatesAreEqual` | contract/template_validation.go:226-228 | a duplicate is reported only when two fallbacks agree in all four trimmed parts, under the condition above |
| `Templates.SortStrings` | contract/template_validation.go:178-178 | an ascending permutation |
| `Templates.Validate` | contract/template_validation.go:135-184 | for any order in which the locale map is visited, the answer is the declared verdict and that of the table below; accepts iff the template is acceptable |
| `Templates.TemplateTable` | contract/template_validation.go:135-184 | validation as one table of checks on the raw template, head, variables, fallbacks, and the contents in ascending order of locales: the answer is the first that fails |
| `Templates.VerdictUnique` | contract/template_validation.go:135-184 | there is only one verdict for a template, so validation is a function of it; once the earlier checks pass it is the error of the lexicographically least failing locale |
| `Templates.AcceptedIffAcceptable` | contract/template_validation.go:135-184 | the verdict is acceptance iff head, variables, fallbacks and every locale meet their declarative conditions |
| `Templates.ValidateAll` | contract/template_validation.go:114-133 | accepts iff raw keys are distinct, every template is acceptable and every fallback key is in the batch; otherwise the failure is the first one |
| `Templates.WalksStayInside` | contract/template_validation.go:122-131 | fallback chains of any length stay inside an accepted batch |
| `Templates.FallbackTarget` | contract/template_validation.go:122-131 | each template has at most five fallbacks, each leads to exactly one template of the batch, and not to itself when its key is trimmed |
| `Templates.UntrimmedSelfFallback` | contract/template_validation.go:222-222 | for every key with white space around it there is an accepted batch whose template falls back to itself |
| `Intents.Validate` | contract/validation.go:21-49 | the loop gives the declared answer, including which error |
| `Intents.AcceptedIntents` | contract/validation.go:21-49 | accepts iff workspace, id, event and time are given, the subject is given with its type and version or not at all, and there are at most 500 recipients, none blank, no two equal once trimmed, or none but a resolver |
| `Intents.IntentTable` | contract/validation.go:21-49 | validation as a table of eight checks on the raw intent: the answer is the first that fails |
| `Intents.OrderAndPaddingDoNotMatter` | contract/validation.go:37-47 | exactly the same answer for recipients in any other order and with any white space around them |
| `Intents.ExchangeOrPad` | contract/validation.go:37-47 | in particular when two recipients are exchanged or one is padded |
| `DeliveryGateway.NewRemote` | deliverygateway/remote.go:26-42 | accepts iff the trimmed URL has scheme and host and the credential is not blank; 10 s and 3 attempts replace settings that are not positive, so MaxAttempts >= 1 |
| `DeliveryGateway.TrimSlashesExactly` | deliverygateway/remote.go:27-27 | the base URL loses the slashes at its end and nothing else |
| `DeliveryGateway.RetryableExactly` | deliverygateway/remote.go:74-99 | retried are exactly lost exchanges, 429, statuses from 500 on, and successes that do not decode |
| `DeliveryGateway.CompletionIsUnique` | deliverygateway/remote.go:53-72 | against a given network a dispatch can end in only one way |
| `DeliveryGateway.ReceiptsAreEchoed` | deliverygateway/remote.go:53-72 | a receipt is returned iff the last answer is a 2xx that decodes, echoes the request id and names a message, and it is the receipt received; every earlier attempt failed retryably; at most MaxAttempts in all; the trailing return is never reached |
| `DeliveryGateway.FailuresExactly` | deliverygateway/remote.go:53-99 | each failure is returned for exactly one kind of last exchange: cancelled wait, lost exchange, unbuildable request, status outside 2xx, undecodable answer, receipt that does not match |
| `DeliveryGateway.BackoffIsQuadratic` | deliverygateway/remote.go:65-69 | k attempts have waited 50 * k * (k - 1) ms |
| `DeliveryGateway.Dispatch` | deliverygateway/remote.go:44-72 | nothing is sent for an invalid request; otherwise the identical body each time, an end as described above, the waits of its attempts; the trailing return would need MaxAttempts < 1 |
| `DeliveryGateway.RequestTable` | deliverygateway/gateway.go:40-48 | what is checked before sending, as a table on the raw request: the answer is the first that fails |
| `DeliveryGateway.AcceptedScope` | deliverygateway/gateway.go:40-48 | requests are only sent for workspaces whose id has no white space around it |

## Left out

- HTTP, JSON, TLS, OpenTelemetry, environment variables and real timers: answers and clock readings are arguments.
- The clock is an unbounded natural number: adding a duration to it does not overflow.
- Timer and cancellation ready at the same moment: either outcome of the wait is covered, as an argument.
- RemoteCall.Binding.Call: states the loop for a call with no other call between its two uses of the breaker; calls in between are what Interleavings.Safety covers, and UninterruptedCalls.UninterruptedCallIsTheLoop ties the two together.
- In the interleavings, fetching a service token is part of an attempt, whose answer is arbitrary; the token cache is modelled on its own.
- `remote/services.go`, `sdk.go`, `modulehost/`: forwarding and interface declarations.
- `remote/identity_service_tokens.go`: the issuer is an arbitrary source of tokens.
- `remote/capability.go`: its substance is in a package that is not part of this model.
- `ServiceGrantForRequest` beyond its resources, `DefaultProviderCapabilities`, the WhatsApp provider check: finite tables; the provider check of a template is an arbitrary function, assumed deterministic.
- `ValidateEditable` and the checks of inbox queries, retention and migration values: single branches.
- Content hashes: library calls.
- Server-side lifecycles behind the contract (leases, migration, digests, inbox): only their field names appear in this repository.
- Strings are sequences of Unicode scalar values, so byte order is code point order; strings that are not valid UTF-8 are not modelled.
- Lower-casing covers ASCII letters; the keys the validators pass to the sensitive-word test are ASCII already.
- Slices that overlap without being the same slice: event types share a slice entirely or not at all.
- Fields that no modelled branch reads (for example correlation ids, audience resolvers of rules) are omitted from the data types.
- sort.Strings and the regular expression engine are modelled by a sort and a scanner written here and proved to do what those are documented to do.
