/** Any number of concurrent calls sharing one circuit breaker. Each call follows remote/factory.go
    106-141; taking the lock in allow and observe is one step, reading the clock before it is another,
    and stamps are arbitrary: no clock order is assumed unless a lemma says so. */
module Interleavings {
  import opened Text
  import opened Policies
  import opened Spacing
  import opened Enumerations
  import opened CircuitBreaking
  import opened RemoteCall

  type CallId = nat

  /** Where a call is. The clock is read before the lock is taken, on the way in and on the way out. */
  datatype Stage =
    | Entering
    | Asking(now: Time)
    | Sending
    | Waiting
    | Leaving(result: Result)
    | Reporting(now: Time, result: Result)
    | Returned(result: Result)

  datatype Call = Call(request: Request, stage: Stage, admitted: bool, answers: seq<Answer>, cancelled: bool,
    arrivals: nat)

  datatype Entry = Entry(id: CallId, event: Event)

  /** created lists the events the receiver has created, by source identity. */
  datatype System = System(breaker: Fields, log: seq<Entry>, calls: map<CallId, Call>, created: seq<string>)

  datatype Settings = Settings(retry: RetryPolicy, breaker: BreakerPolicy, identity: string -> string)

  datatype Action =
    | Arrive(id: CallId, request: Request)
    | ReadEntryClock(id: CallId, now: Time)
    | Ask(id: CallId)
    | Attempt(id: CallId, arrived: bool, answer: Answer)
    | Wait(id: CallId, cancelled: bool)
    | ReadExitClock(id: CallId, now: Time)
    | Report(id: CallId)

  predicate Normalized(cfg: Settings) {
    cfg.retry.Valid() && cfg.breaker.Valid()
  }

  const INITIAL := System(CLOSED, [], map[], [])

  predicate Enabled(s: System, a: Action) {
    if a.Arrive? then a.id !in s.calls
    else
      a.id in s.calls &&
      var stage := s.calls[a.id].stage;
      match a
      case ReadEntryClock(_, _) => stage.Entering?
      case Ask(_) => stage.Asking?
      case Attempt(_, _, _) => stage.Sending?
      case Wait(_, _) => stage.Waiting?
      case ReadExitClock(_, _) => stage.Leaving?
      case Report(_) => stage.Reporting?
  }

  /** A receiver that keeps one event per source identity. */
  function Receive(created: seq<string>, identity: string): seq<string> {
    if identity in created then created else created + [identity]
  }

  predicate Publication(request: Request) {
    request.verb == "POST" && request.path == PUBLISH_PATH
  }

  function AfterAnswer(cfg: Settings, c: Call, arrived: bool, answer: Answer): Call {
    var received := c.answers + [answer];
    var stage :=
      if answer.error.None? then Leaving(Ok)
      else if !Failed(answer) || |received| >= Attempts(cfg.retry, c.request) then Leaving(Err(answer.error.value))
      else Waiting;
    c.(stage := stage, answers := received, arrivals := c.arrivals + if arrived then 1 else 0)
  }

  /** How an action changes the call that takes it. */
  function NextCall(cfg: Settings, s: System, c: Call, a: Action): Call
    requires !a.Arrive? && a.id in s.calls && s.calls[a.id] == c && Enabled(s, a)
  {
    match a
    case ReadEntryClock(_, now) => c.(stage := Asking(now))
    case Ask(_) =>
      if AllowStep(s.breaker, c.stage.now).0 then c.(stage := Sending, admitted := true)
      else c.(stage := Returned(Err(CIRCUIT_OPEN)))
    case Attempt(_, arrived, answer) => AfterAnswer(cfg, c, arrived, answer)
    case Wait(_, cancelled) =>
      if cancelled then c.(stage := Leaving(Err(RETRY_CANCELLED)), cancelled := true) else c.(stage := Sending)
    case ReadExitClock(_, now) => c.(stage := Reporting(now, c.stage.result))
    case Report(_) => c.(stage := Returned(c.stage.result))
  }

  predicate Failing(c: Call) {
    c.answers != [] && Verdict(c.answers, c.cancelled)
  }

  function Apply(cfg: Settings, s: System, a: Action): System
    requires Normalized(cfg) && Enabled(s, a)
  {
    if a.Arrive? then s.(calls := s.calls[a.id := Call(a.request, Entering, false, [], false, 0)])
    else
      var c := s.calls[a.id];
      var s' := s.(calls := s.calls[a.id := NextCall(cfg, s, c, a)]);
      match a
      case Ask(id) =>
        var (ok, b) := AllowStep(s.breaker, c.stage.now);
        s'.(breaker := b, log := s.log + [Entry(id, Admission(c.stage.now, ok))])
      case Report(id) =>
        s'.(breaker := ObserveStep(cfg.breaker, s.breaker, c.stage.now, Failing(c)),
            log := s.log + [Entry(id, Observation(c.stage.now, Failing(c)))])
      case Attempt(_, arrived, _) =>
        if arrived && Publication(c.request) then s'.(created := Receive(s.created, cfg.identity(c.request.body)))
        else s'
      case _ => s'
  }

  /** A run is a sequence of actions, each enabled when its turn comes. */
  ghost predicate Legal(cfg: Settings, actions: seq<Action>)
    requires Normalized(cfg)
  {
    || actions == []
    || (Legal(cfg, actions[..|actions| - 1])
        && Enabled(Run(cfg, actions[..|actions| - 1]), actions[|actions| - 1]))
  }

  ghost function Run(cfg: Settings, actions: seq<Action>): System
    requires Normalized(cfg)
  {
    if actions == [] then INITIAL
    else
      var s := Run(cfg, actions[..|actions| - 1]);
      if Enabled(s, actions[|actions| - 1]) then Apply(cfg, s, actions[|actions| - 1]) else s
  }

  // ---- the invariant ----

  function Events(log: seq<Entry>): seq<Event> {
    seq(|log|, i requires 0 <= i < |log| => log[i].event)
  }

  predicate Granted(e: Event) {
    e.Admission? && e.granted
  }

  predicate Reported(e: Event) {
    e.Observation?
  }

  /** How many of the call's entries satisfy p. */
  function Count(log: seq<Entry>, id: CallId, p: Event -> bool): nat {
    if log == [] then 0
    else
      var e := log[|log| - 1];
      Count(log[..|log| - 1], id, p) + if e.id == id && p(e.event) then 1 else 0
  }

  function Admissions(log: seq<Entry>, id: CallId): nat {
    Count(log, id, Granted)
  }

  function Observations(log: seq<Entry>, id: CallId): nat {
    Count(log, id, Reported)
  }

  /** Admitted and not yet reported. */
  predicate InFlight(c: Call) {
    c.admitted && !c.stage.Returned?
  }

  ghost predicate CallInv(cfg: Settings, c: Call) {
    && c.arrivals <= |c.answers|
    && match c.stage
    case Entering => !c.admitted && c.answers == [] && !c.cancelled
    case Asking(_) => !c.admitted && c.answers == [] && !c.cancelled
    case Sending => c.admitted && !c.cancelled && AllFailed(c.answers) && |c.answers| < Attempts(cfg.retry, c.request)
    case Waiting => c.admitted && !c.cancelled && AllFailed(c.answers)
      && 1 <= |c.answers| < Attempts(cfg.retry, c.request)
    case Leaving(r) => c.admitted && Completed(cfg.retry, c.request, c.answers, c.cancelled, r)
    case Reporting(_, r) => c.admitted && Completed(cfg.retry, c.request, c.answers, c.cancelled, r)
    case Returned(r) =>
      if c.admitted then Completed(cfg.retry, c.request, c.answers, c.cancelled, r)
      else c.answers == [] && r == Err(CIRCUIT_OPEN)
  }

  /** Each call's entries in the log are exactly the ones its stage calls for. */
  ghost predicate Accounted(log: seq<Entry>, calls: map<CallId, Call>) {
    && (forall id | id !in calls :: Admissions(log, id) == 0 && Observations(log, id) == 0)
    && (forall id | id in calls ::
          && Admissions(log, id) == (if calls[id].admitted then 1 else 0)
          && Observations(log, id) == (if calls[id].admitted && calls[id].stage.Returned? then 1 else 0))
    && (forall i | 0 <= i < |log| && log[i].event.Observation? ::
          log[i].id in calls && calls[log[i].id].stage.Returned? && log[i].event.failed == Failing(calls[log[i].id]))
  }

  /** The call that was admitted last. */
  function LastAdmitted(log: seq<Entry>): CallId
    requires AdmittedSinceObservation(Events(log))
  {
    assert Events(log[..|log| - 1]) == Events(log)[..|log| - 1];
    if Granted(log[|log| - 1].event) then log[|log| - 1].id else LastAdmitted(log[..|log| - 1])
  }

  ghost predicate ProbeOwned(log: seq<Entry>, calls: map<CallId, Call>) {
    AdmittedSinceObservation(Events(log)) ==>
      LastAdmitted(log) in calls && InFlight(calls[LastAdmitted(log)])
  }

  /** The receiver holds one event for each identity some publication brought to it, and no other. */
  ghost predicate Receipts(cfg: Settings, calls: map<CallId, Call>, created: seq<string>) {
    && Distinct(created)
    && (forall id | id in calls && Delivered(calls[id]) :: cfg.identity(calls[id].request.body) in created)
    && (forall x | x in created ::
          exists id :: id in calls && Delivered(calls[id]) && cfg.identity(calls[id].request.body) == x)
  }

  predicate Delivered(c: Call) {
    Publication(c.request) && c.arrivals > 0
  }

  ghost predicate Inv(cfg: Settings, s: System) {
    && Represents(cfg.breaker, s.breaker, Events(s.log))
    && Faithful(cfg.breaker, Events(s.log))
    && (forall id | id in s.calls :: CallInv(cfg, s.calls[id]))
    && Accounted(s.log, s.calls)
    && ProbeOwned(s.log, s.calls)
    && Receipts(cfg, s.calls, s.created)
  }

  // ---- each part is kept by each step ----

  lemma EventsExtend(log: seq<Entry>, e: Entry)
    ensures Events(log + [e]) == Events(log) + [e.event]
    ensures (log + [e])[..|log|] == log
  {
  }

  lemma CallStep(cfg: Settings, s: System, a: Action)
    requires Normalized(cfg) && Enabled(s, a) && !a.Arrive? && CallInv(cfg, s.calls[a.id])
    ensures CallInv(cfg, NextCall(cfg, s, s.calls[a.id], a))
  {
    var c := s.calls[a.id];
    if a.Attempt? {
      var received := c.answers + [a.answer];
      assert received[..|received| - 1] == c.answers;
    } else if a.Wait? {
      assert AllFailed(c.answers[..|c.answers| - 1]);
    }
  }

  lemma BreakerStep(cfg: Settings, s: System, a: Action)
    requires Normalized(cfg) && Enabled(s, a) && Inv(cfg, s)
    ensures var s' := Apply(cfg, s, a);
      Represents(cfg.breaker, s'.breaker, Events(s'.log)) && Faithful(cfg.breaker, Events(s'.log))
  {
    var h := Events(s.log);
    if a.Ask? {
      var now := s.calls[a.id].stage.now;
      var e := Admission(now, AllowStep(s.breaker, now).0);
      AllowRefines(cfg.breaker, s.breaker, h, now);
      FaithfulExtends(cfg.breaker, h, e);
      EventsExtend(s.log, Entry(a.id, e));
    } else if a.Report? {
      var c := s.calls[a.id];
      ObserveRefines(cfg.breaker, s.breaker, h, c.stage.now, Failing(c));
      FaithfulExtends(cfg.breaker, h, Observation(c.stage.now, Failing(c)));
      EventsExtend(s.log, Entry(a.id, Observation(c.stage.now, Failing(c))));
    }
  }

  lemma CountExtends(log: seq<Entry>, e: Entry, id: CallId, p: Event -> bool)
    ensures Count(log + [e], id, p) == Count(log, id, p) + if e.id == id && p(e.event) then 1 else 0
  {
    assert (log + [e])[..|log|] == log;
  }

  predicate Closed(c: Call) {
    c.admitted && c.stage.Returned?
  }

  function Bit(b: bool): nat {
    if b then 1 else 0
  }

  lemma AccountedAfterEntry(log: seq<Entry>, calls: map<CallId, Call>, e: Entry, c: Call)
    requires Accounted(log, calls) && e.id in calls && !calls[e.id].stage.Returned?
    requires Bit(c.admitted) == Bit(calls[e.id].admitted) + Bit(Granted(e.event))
    requires Bit(Closed(c)) == Bit(Reported(e.event))
    requires Reported(e.event) ==> e.event.failed == Failing(c)
    ensures Accounted(log + [e], calls[e.id := c])
  {
    var log' := log + [e];
    forall id ensures
      && Admissions(log', id) == Admissions(log, id) + Bit(e.id == id && Granted(e.event))
      && Observations(log', id) == Observations(log, id) + Bit(e.id == id && Reported(e.event))
    {
      CountExtends(log, e, id, Granted);
      CountExtends(log, e, id, Reported);
    }
  }

  lemma AccountedWithoutEntry(log: seq<Entry>, calls: map<CallId, Call>, id: CallId, c: Call)
    requires Accounted(log, calls)
    requires if id in calls then !calls[id].stage.Returned? && c.admitted == calls[id].admitted else !c.admitted
    requires !c.stage.Returned?
    ensures Accounted(log, calls[id := c])
  {
  }

  lemma AccountsStep(cfg: Settings, s: System, a: Action)
    requires Normalized(cfg) && Enabled(s, a) && Accounted(s.log, s.calls)
    requires forall id | id in s.calls :: CallInv(cfg, s.calls[id])
    ensures Accounted(Apply(cfg, s, a).log, Apply(cfg, s, a).calls)
  {
    var s' := Apply(cfg, s, a);
    if a.Ask? || a.Report? {
      var e := s'.log[|s.log|];
      assert s'.log == s.log + [e];
      AccountedAfterEntry(s.log, s.calls, e, s'.calls[a.id]);
    } else {
      AccountedWithoutEntry(s.log, s.calls, a.id, s'.calls[a.id]);
    }
  }

  lemma ProbeAfterEntry(log: seq<Entry>, calls: map<CallId, Call>, e: Entry, c: Call)
    requires ProbeOwned(log, calls) && e.id in calls
    requires Granted(e.event) ==> InFlight(c)
    requires !Granted(e.event) && !Reported(e.event) ==> !calls[e.id].admitted
    ensures ProbeOwned(log + [e], calls[e.id := c])
  {
    EventsExtend(log, e);
    assert Events(log + [e])[..|log|] == Events(log);
  }

  lemma ProbeWithoutEntry(log: seq<Entry>, calls: map<CallId, Call>, id: CallId, c: Call)
    requires ProbeOwned(log, calls)
    requires id in calls && InFlight(calls[id]) ==> InFlight(c)
    ensures ProbeOwned(log, calls[id := c])
  {
  }

  lemma ProbeStep(cfg: Settings, s: System, a: Action)
    requires Normalized(cfg) && Enabled(s, a) && ProbeOwned(s.log, s.calls)
    requires forall id | id in s.calls :: CallInv(cfg, s.calls[id])
    ensures ProbeOwned(Apply(cfg, s, a).log, Apply(cfg, s, a).calls)
  {
    var s' := Apply(cfg, s, a);
    if a.Ask? || a.Report? {
      var e := s'.log[|s.log|];
      assert s'.log == s.log + [e];
      ProbeAfterEntry(s.log, s.calls, e, s'.calls[a.id]);
    } else {
      ProbeWithoutEntry(s.log, s.calls, a.id, s'.calls[a.id]);
    }
  }

  lemma ReceiptsKept(cfg: Settings, calls: map<CallId, Call>, created: seq<string>, id: CallId, c: Call)
    requires Receipts(cfg, calls, created)
    requires id in calls ==> c.request == calls[id].request && (Delivered(calls[id]) ==> Delivered(c))
    ensures Receipts(cfg, calls[id := c],
      if Delivered(c) then Receive(created, cfg.identity(c.request.body)) else created)
  {
    var calls' := calls[id := c];
    var created' := if Delivered(c) then Receive(created, cfg.identity(c.request.body)) else created;
    forall x | x in created'
      ensures exists k :: k in calls' && Delivered(calls'[k]) && cfg.identity(calls'[k].request.body) == x
    {
      if x in created {
        var k :| k in calls && Delivered(calls[k]) && cfg.identity(calls[k].request.body) == x;
        assert k in calls' && Delivered(calls'[k]);
      } else {
        assert Delivered(calls'[id]);
      }
    }
  }

  lemma ReceiptsStep(cfg: Settings, s: System, a: Action)
    requires Normalized(cfg) && Enabled(s, a) && Receipts(cfg, s.calls, s.created)
    ensures Receipts(cfg, Apply(cfg, s, a).calls, Apply(cfg, s, a).created)
  {
    ReceiptsKept(cfg, s.calls, s.created, a.id, Apply(cfg, s, a).calls[a.id]);
  }

  lemma CallsStep(cfg: Settings, s: System, a: Action)
    requires Normalized(cfg) && Enabled(s, a)
    requires forall id | id in s.calls :: CallInv(cfg, s.calls[id])
    ensures forall id | id in Apply(cfg, s, a).calls :: CallInv(cfg, Apply(cfg, s, a).calls[id])
  {
    var calls := Apply(cfg, s, a).calls;
    if a.Arrive? {
      assert CallInv(cfg, calls[a.id]);
    } else {
      CallStep(cfg, s, a);
    }
    assert calls == s.calls[a.id := calls[a.id]];
    forall id | id in calls ensures CallInv(cfg, calls[id]) {
      assert id != a.id ==> calls[id] == s.calls[id];
    }
  }

  lemma StepKeepsInv(cfg: Settings, s: System, a: Action)
    requires Normalized(cfg) && Enabled(s, a) && Inv(cfg, s)
    ensures Inv(cfg, Apply(cfg, s, a))
  {
    CallsStep(cfg, s, a);
    BreakerStep(cfg, s, a);
    AccountsStep(cfg, s, a);
    ProbeStep(cfg, s, a);
    ReceiptsStep(cfg, s, a);
  }

  /** The invariant holds after any number of steps of any calls, in any order. */
  lemma {:induction false} Safety(cfg: Settings, actions: seq<Action>)
    requires Normalized(cfg) && Legal(cfg, actions)
    ensures Inv(cfg, Run(cfg, actions))
  {
    if actions == [] {
      assert Events(INITIAL.log) == [];
    } else {
      var init := actions[..|actions| - 1];
      Safety(cfg, init);
      StepKeepsInv(cfg, Run(cfg, init), actions[|actions| - 1]);
    }
  }

  // ---- what the invariant gives ----

  /** Every call is admitted at most once and, once it has returned, has reported exactly as often as it
      was admitted, with the verdict of its own answers. */
  lemma EveryAdmissionReportedOnce(cfg: Settings, actions: seq<Action>, id: CallId)
    requires Normalized(cfg) && Legal(cfg, actions)
    requires id in Run(cfg, actions).calls
    ensures var s := Run(cfg, actions);
      && Admissions(s.log, id) <= 1
      && (s.calls[id].stage.Returned? ==> Observations(s.log, id) == Admissions(s.log, id))
      && (!s.calls[id].stage.Returned? ==> Observations(s.log, id) == 0)
      && (forall i | 0 <= i < |s.log| && s.log[i].id == id && Reported(s.log[i].event) ::
            s.log[i].event.failed == Failing(s.calls[id]))
  {
    Safety(cfg, actions);
  }

  lemma {:induction false} LastAdmittedAt(log: seq<Entry>) returns (i: nat)
    requires AdmittedSinceObservation(Events(log))
    ensures i < |log| && log[i].id == LastAdmitted(log) && Granted(log[i].event)
    ensures forall j | i < j < |log| :: !Granted(log[j].event) && !Reported(log[j].event)
  {
    assert Events(log[..|log| - 1]) == Events(log)[..|log| - 1];
    if Granted(log[|log| - 1].event) {
      i := |log| - 1;
    } else {
      i := LastAdmittedAt(log[..|log| - 1]);
    }
  }

  /** Admissions do not change the failure run. */
  lemma {:induction false} RunSinceAdmission(h: seq<Event>, i: nat)
    requires i < |h| && forall j | i <= j < |h| :: h[j].Admission?
    ensures FailureRun(h) == FailureRun(h[..i])
  {
    if i == |h| - 1 {
      assert h[..|h| - 1] == h[..i];
    } else {
      RunSinceAdmission(h[..|h| - 1], i);
      assert h[..|h| - 1][..i] == h[..i];
    }
  }

  ghost predicate OwnsProbe(cfg: Settings, s: System, i: nat) {
    && i < |s.log| && OpenAdmission(cfg.breaker, Events(s.log), i)
    && s.log[i].id in s.calls && InFlight(s.calls[s.log[i].id])
    && forall j | i < j < |s.log| :: !Granted(s.log[j].event) && !Reported(s.log[j].event)
  }

  lemma StateHasAnOwner(cfg: Settings, s: System) returns (i: nat)
    requires Represents(cfg.breaker, s.breaker, Events(s.log)) && ProbeOwned(s.log, s.calls) && s.breaker.probeActive
    ensures OwnsProbe(cfg, s, i)
  {
    i := LastAdmittedAt(s.log);
    assert forall j | i <= j < |s.log| :: Events(s.log)[j] == s.log[j].event;
    RunSinceAdmission(Events(s.log), i);
  }

  /** A taken probe slot belongs to the call that was admitted last: it was admitted while the breaker was
      open, so it took the slot; nobody has reported since, and that call is still in flight. */
  lemma ProbeHasAnOwner(cfg: Settings, actions: seq<Action>) returns (i: nat)
    requires Normalized(cfg) && Legal(cfg, actions)
    requires Run(cfg, actions).breaker.probeActive
    ensures OwnsProbe(cfg, Run(cfg, actions), i)
  {
    Safety(cfg, actions);
    i := StateHasAnOwner(cfg, Run(cfg, actions));
  }

  /** The probe slot is never leaked: with no call in flight it is free, and the breaker admits any call
      stamped at or after openedUntil. */
  lemma NoProbeLeak(cfg: Settings, actions: seq<Action>, now: Time)
    requires Normalized(cfg) && Legal(cfg, actions)
    requires forall id | id in Run(cfg, actions).calls :: !InFlight(Run(cfg, actions).calls[id])
    ensures var b := Run(cfg, actions).breaker;
      !b.probeActive && AllowStep(b, now).0 == (now >= b.openedUntil)
  {
    if Run(cfg, actions).breaker.probeActive {
      var _ := ProbeHasAnOwner(cfg, actions);
    }
  }

  /** The number of its own steps a call still has before it, at most 2 * MaxAttempts + 5. */
  function Remaining(cfg: Settings, c: Call): int {
    var left := 2 * (Attempts(cfg.retry, c.request) - |c.answers|);
    match c.stage
    case Entering => left + 5
    case Asking(_) => left + 4
    case Sending => left + 3
    case Waiting => left + 4
    case Leaving(_) => 2
    case Reporting(_, _) => 1
    case Returned(_) => 0
  }

  lemma StepsShorten(cfg: Settings, s: System, a: Action)
    requires Normalized(cfg) && Enabled(s, a) && !a.Arrive? && CallInv(cfg, s.calls[a.id])
    ensures Remaining(cfg, NextCall(cfg, s, s.calls[a.id], a)) < Remaining(cfg, s.calls[a.id])
  {
  }

  function NextAction(id: CallId, c: Call): Action {
    match c.stage
    case Entering => ReadEntryClock(id, 0)
    case Asking(_) => Ask(id)
    case Sending => Attempt(id, false, Answer(0, None))
    case Waiting => Wait(id, false)
    case Leaving(_) => ReadExitClock(id, 0)
    case _ => Report(id)
  }

  lemma RemainingBounds(cfg: Settings, id: CallId, c: Call)
    requires Normalized(cfg) && CallInv(cfg, c)
    ensures 0 <= Remaining(cfg, c) <= 2 * cfg.retry.maxAttempts + 5
  {
  }

  lemma StepEffect(cfg: Settings, s: System, id: CallId, a: Action)
    requires Normalized(cfg) && id in s.calls && Enabled(s, a) && CallInv(cfg, s.calls[id])
    ensures a.id != id ==> Apply(cfg, s, a).calls[id] == s.calls[id]
    ensures a.id == id ==> Remaining(cfg, Apply(cfg, s, a).calls[id]) < Remaining(cfg, s.calls[id])
  {
    if a.id == id {
      StepsShorten(cfg, s, a);
    }
  }

  ghost predicate Progresses(cfg: Settings, s: System, id: CallId, a: Action)
    requires Normalized(cfg) && id in s.calls
  {
    var c := s.calls[id];
    && 0 <= Remaining(cfg, c) <= 2 * cfg.retry.maxAttempts + 5
    && (!c.stage.Returned? <==> Enabled(s, NextAction(id, c)))
    && (Enabled(s, a) && a.id == id ==> Remaining(cfg, Apply(cfg, s, a).calls[id]) < Remaining(cfg, c))
    && (Enabled(s, a) && a.id != id ==> Apply(cfg, s, a).calls[id] == c)
  }

  lemma StateProgresses(cfg: Settings, s: System, id: CallId, a: Action)
    requires Normalized(cfg) && id in s.calls && CallInv(cfg, s.calls[id])
    ensures Progresses(cfg, s, id, a)
  {
    RemainingBounds(cfg, id, s.calls[id]);
    if Enabled(s, a) {
      StepEffect(cfg, s, id, a);
    }
  }

  /** No call can be stuck and none can go on for ever: a call that has not returned can take a step
      whatever the others do, each step it takes brings it closer to returning, and the steps of
      others do not touch it. */
  lemma CallsFinish(cfg: Settings, actions: seq<Action>, id: CallId, a: Action)
    requires Normalized(cfg) && Legal(cfg, actions)
    requires id in Run(cfg, actions).calls
    ensures Progresses(cfg, Run(cfg, actions), id, a)
  {
    Safety(cfg, actions);
    StateProgresses(cfg, Run(cfg, actions), id, a);
  }

  /** How many of the actions are steps of this call, its arrival included. */
  function Steps(actions: seq<Action>, id: CallId): nat {
    if actions == [] then 0
    else
      var n := |actions| - 1;
      Steps(actions[..n], id) + if actions[n].id == id then 1 else 0
  }

  /** After any run, the steps a call has taken and those it may still have to take are at most
      2 * MaxAttempts + 6 in all; a call that has not arrived has taken none. */
  lemma {:induction false} CallStepsBounded(cfg: Settings, actions: seq<Action>, id: CallId)
    requires Normalized(cfg) && Legal(cfg, actions)
    ensures var s := Run(cfg, actions);
      if id in s.calls then
        && 0 <= Remaining(cfg, s.calls[id])
        && Steps(actions, id) + Remaining(cfg, s.calls[id]) <= 2 * cfg.retry.maxAttempts + 6
      else Steps(actions, id) == 0
    decreases |actions|
  {
    if actions == [] {
    } else {
      var n := |actions| - 1;
      var before, a := Run(cfg, actions[..n]), actions[n];
      CallStepsBounded(cfg, actions[..n], id);
      Safety(cfg, actions[..n]);
      if id in before.calls {
        StepEffect(cfg, before, id, a);
      }
      Safety(cfg, actions);
      if id in Run(cfg, actions).calls {
        RemainingBounds(cfg, id, Run(cfg, actions).calls[id]);
      }
    }
  }

  /** A returned call that was admitted ended as its request and its answers require; one that was not
      admitted sent nothing. */
  lemma ReturnedCalls(cfg: Settings, actions: seq<Action>, id: CallId)
    requires Normalized(cfg) && Legal(cfg, actions)
    requires id in Run(cfg, actions).calls && Run(cfg, actions).calls[id].stage.Returned?
    ensures var c := Run(cfg, actions).calls[id];
      if c.admitted then Completed(cfg.retry, c.request, c.answers, c.cancelled, c.stage.result)
      else c.answers == [] && c.arrivals == 0 && c.stage.result == Err(CIRCUIT_OPEN)
  {
    Safety(cfg, actions);
  }

  lemma AnswersBounded(cfg: Settings, c: Call)
    requires Normalized(cfg) && CallInv(cfg, c)
    ensures |c.answers| <= Attempts(cfg.retry, c.request) <= cfg.retry.maxAttempts
  {
  }

  /** At most once: a request that may not be replayed reaches the server at most once, and whatever is
      lost, repeated or sent by several calls, one source identity never creates two events. */
  lemma AtMostOnce(cfg: Settings, actions: seq<Action>, id: CallId)
    requires Normalized(cfg) && Legal(cfg, actions)
    requires id in Run(cfg, actions).calls
    ensures var s := Run(cfg, actions);
      var c := s.calls[id];
      && c.arrivals <= cfg.retry.maxAttempts
      && (c.arrivals > 1 ==>
            || c.request.verb in {"GET", "HEAD", "OPTIONS"}
            || (c.request.verb == "POST" && c.request.path == "/notification/v1/events:publish"))
      && (c.request.verb == "POST" && c.request.path == "/notification/v1/events:publish" ==>
            && multiset(s.created)[cfg.identity(c.request.body)] <= 1
            && (c.arrivals > 0 ==> multiset(s.created)[cfg.identity(c.request.body)] == 1))
  {
    Safety(cfg, actions);
    var s := Run(cfg, actions);
    AnswersBounded(cfg, s.calls[id]);
    AttemptsExactly(cfg.retry, s.calls[id].request);
    DistinctOnce(s.created, cfg.identity(s.calls[id].request.body));
  }

  ghost predicate Known(s: System, positions: seq<nat>) {
    forall i | 0 <= i < |positions| :: positions[i] < |s.log| && s.log[positions[i]].id in s.calls
  }

  /** Requests sent so far by the calls admitted at these log positions. */
  ghost function RequestsFrom(s: System, positions: seq<nat>): nat
    requires Known(s, positions)
  {
    if positions == [] then 0
    else RequestsFrom(s, positions[1..]) + |s.calls[s.log[positions[0]].id].answers|
  }

  lemma {:induction false} RequestsBounded(s: System, positions: seq<nat>, m: nat)
    requires Known(s, positions)
    requires forall id | id in s.calls :: |s.calls[id].answers| <= m
    ensures RequestsFrom(s, positions) <= m * |positions|
  {
    if positions == [] {
    } else {
      RequestsBounded(s, positions[1..], m);
      assert m * |positions| == m * |positions[1..]| + m;
    }
  }

  /** Every admission in the log belongs to a known call. */
  lemma {:induction false} AdmittedCallsKnown(log: seq<Entry>, calls: map<CallId, Call>, p: nat)
    requires Accounted(log, calls) && p < |log| && Granted(log[p].event)
    ensures log[p].id in calls
  {
    CountPositive(log, p);
  }

  lemma {:induction false} CountPositive(log: seq<Entry>, p: nat)
    requires p < |log| && Granted(log[p].event)
    ensures Admissions(log, log[p].id) > 0
  {
    if p == |log| - 1 {
    } else {
      CountPositive(log[..|log| - 1], p);
    }
  }

  lemma OpenRequests(cfg: Settings, s: System, from: nat, upto: nat)
    requires Normalized(cfg) && Inv(cfg, s) && from <= upto <= |s.log|
    ensures var open := OpenAdmissions(cfg.breaker, Events(s.log), from, upto);
      Known(s, open) && RequestsFrom(s, open) <= cfg.retry.maxAttempts * |open|
  {
    var open := OpenAdmissions(cfg.breaker, Events(s.log), from, upto);
    forall i | 0 <= i < |open| ensures open[i] < |s.log| && s.log[open[i]].id in s.calls {
      AdmittedCallsKnown(s.log, s.calls, open[i]);
    }
    forall id | id in s.calls ensures |s.calls[id].answers| <= cfg.retry.maxAttempts {
      AnswersBounded(cfg, s.calls[id]);
    }
    RequestsBounded(s, open, cfg.retry.maxAttempts);
  }

  lemma RequestsWithin(cfg: Settings, s: System, from: nat, upto: nat, most: nat)
    requires Normalized(cfg) && Inv(cfg, s) && from <= upto <= |s.log|
    requires |OpenAdmissions(cfg.breaker, Events(s.log), from, upto)| <= most
    ensures var open := OpenAdmissions(cfg.breaker, Events(s.log), from, upto);
      Known(s, open) && RequestsFrom(s, open) <= cfg.retry.maxAttempts * most
  {
    OpenRequests(cfg, s, from, upto);
    MultiplyOrdered(cfg.retry.maxAttempts, |OpenAdmissions(cfg.breaker, Events(s.log), from, upto)|, most);
  }

  /** length / OpenDuration + 1 */
  function MostAdmissions(cfg: Settings, length: nat): nat
    requires Normalized(cfg)
  {
    QuotientNonNegative(length, cfg.breaker.openDuration);
    length / cfg.breaker.openDuration + 1
  }

  lemma QuotientNonNegative(a: nat, b: int)
    requires b > 0
    ensures a / b >= 0
  {
  }

  /** The admissions of an open breaker between these log positions fall into this window of time, and
      before each of them the last report is not stamped before the one that precedes it. */
  ghost predicate WithinWindow(cfg: Settings, s: System, from: nat, upto: nat, start: int, length: nat)
    requires from <= upto <= |s.log|
  {
    var h := Events(s.log);
    && ReportsFollow(cfg.breaker, h, from, upto)
    && forall k | from <= k < upto && OpenAdmission(cfg.breaker, h, k) :: start <= h[k].now <= start + length
  }

  /** While the breaker is open, a window of the given length sees at most length / OpenDuration + 1
      admissions and at most MaxAttempts times as many requests from them, late observers included. */
  lemma RequestRate(cfg: Settings, actions: seq<Action>, from: nat, upto: nat, start: int, length: nat)
    requires Normalized(cfg) && Legal(cfg, actions)
    requires from <= upto <= |Run(cfg, actions).log|
    requires WithinWindow(cfg, Run(cfg, actions), from, upto, start, length)
    ensures var s := Run(cfg, actions);
      var open := OpenAdmissions(cfg.breaker, Events(s.log), from, upto);
      var most := MostAdmissions(cfg, length);
      |open| <= most && Known(s, open) && RequestsFrom(s, open) <= cfg.retry.maxAttempts * most
  {
    Safety(cfg, actions);
    AdmissionRate(cfg.breaker, Events(Run(cfg, actions).log), from, upto, start, length);
    RequestsWithin(cfg, Run(cfg, actions), from, upto, MostAdmissions(cfg, length));
  }

  /** In any reachable state in which the breaker is open and the probe slot free, the next admission is
      sure to come OpenDuration after an earlier one exactly when openedUntil says so, that is, when the
      last report is not stamped before that admission. */
  lemma NextAdmissionExactly(cfg: Settings, actions: seq<Action>, i: nat)
    requires Normalized(cfg) && Legal(cfg, actions)
    requires OpenAdmission(cfg.breaker, Events(Run(cfg, actions).log), i)
    requires Run(cfg, actions).breaker.openedUntil != ZERO_TIME && !Run(cfg, actions).breaker.probeActive
    ensures var s := Run(cfg, actions);
      var earliest := Events(s.log)[i].now + cfg.breaker.openDuration;
      && ((forall now: Time | AllowStep(s.breaker, now).0 :: earliest <= now) <==> earliest <= s.breaker.openedUntil)
      && (earliest <= s.breaker.openedUntil <==> Events(s.log)[i].now <= LastObservation(Events(s.log)))
  {
    Safety(cfg, actions);
    assert AllowStep(Run(cfg, actions).breaker, Run(cfg, actions).breaker.openedUntil).0;
  }

  lemma MultiplyOrdered(m: nat, a: nat, b: nat)
    requires a <= b
    ensures m * a <= m * b
  {
    assert m * b == m * a + m * (b - a);
  }
}
