/** Why the distance between admissions needs a condition: stamps are taken before the lock
    (remote/factory.go 115 and 132), so a report can be applied after one that is stamped later. */
module LateReports {
  import opened Text
  import opened Policies
  import opened Spacing
  import opened CircuitBreaking
  import opened RemoteCall
  import opened Interleavings

  /** The clock reading an action makes. */
  function Reading(a: Action): Option<Time> {
    match a
    case ReadEntryClock(_, now) => Some(now)
    case ReadExitClock(_, now) => Some(now)
    case _ => None
  }

  /** The clock itself never steps back. */
  predicate ClockRuns(actions: seq<Action>) {
    forall i, j | 0 <= i < j < |actions| && Reading(actions[i]).Some? && Reading(actions[j]).Some? ::
      Reading(actions[i]).value <= Reading(actions[j]).value
  }

  /** A run of a clock that never steps back and has not passed this time. */
  ghost predicate ClockedUpTo(actions: seq<Action>, clock: Time) {
    && ClockRuns(actions)
    && forall i | 0 <= i < |actions| && Reading(actions[i]).Some? :: Reading(actions[i]).value <= clock
  }

  /** After this run, with the clock at most there, the system is in this state, and nothing succeeded. */
  ghost predicate Reaches(cfg: Settings, run: seq<Action>, s: System, clock: Time)
    requires Normalized(cfg)
  {
    Legal(cfg, run) && Run(cfg, run) == s && ClockedUpTo(run, clock) && NoSuccess(Events(s.log), 0, |s.log|)
  }

  lemma ClockNext(run: seq<Action>, clock: Time, a: Action, clock': Time)
    requires ClockedUpTo(run, clock) && clock <= clock'
    requires Reading(a).Some? ==> clock <= Reading(a).value <= clock'
    ensures ClockedUpTo(run + [a], clock')
  {
  }

  lemma NoSuccessNext(log: seq<Entry>, e: Entry)
    requires NoSuccess(Events(log), 0, |log|) && (e.event.Observation? ==> e.event.failed)
    ensures NoSuccess(Events(log + [e]), 0, |log| + 1)
  {
    assert Events(log + [e]) == Events(log) + [e.event];
  }

  lemma Step(cfg: Settings, run: seq<Action>, s: System, clock: Time, a: Action, clock': Time)
    requires Normalized(cfg) && Reaches(cfg, run, s, clock) && Enabled(s, a) && clock <= clock'
    requires Reading(a).Some? ==> clock <= Reading(a).value <= clock'
    requires a.Report? ==> Failing(s.calls[a.id])
    ensures Reaches(cfg, run + [a], Apply(cfg, s, a), clock')
  {
    var longer := run + [a];
    assert longer[..|longer| - 1] == run;
    ClockNext(run, clock, a, clock');
    var log' := Apply(cfg, s, a).log;
    if a.Ask? || a.Report? {
      NoSuccessNext(s.log, log'[|s.log|]);
    }
  }

  // ---- a call that loses its only attempt ----

  const REQUEST := Request("POST", "/x", "")
  const LOST := Answer(0, Some(CIRCUIT_OPEN))

  function Asks(now: Time): Call {
    Call(REQUEST, Asking(now), false, [], false, 0)
  }

  function Sends(): Call {
    Call(REQUEST, Sending, true, [], false, 0)
  }

  function Leaves(): Call {
    Call(REQUEST, Leaving(Err(CIRCUIT_OPEN)), true, [LOST], false, 1)
  }

  function Reports(now: Time): Call {
    Call(REQUEST, Reporting(now, Err(CIRCUIT_OPEN)), true, [LOST], false, 1)
  }

  function Done(): Call {
    Call(REQUEST, Returned(Err(CIRCUIT_OPEN)), true, [LOST], false, 1)
  }

  lemma NotReplayed(cfg: Settings)
    ensures Attempts(cfg.retry, REQUEST) == 1 && !Publication(REQUEST) && Failed(LOST)
  {
  }

  lemma Enters(cfg: Settings, run: seq<Action>, s: System, id: CallId, now: Time) returns (run': seq<Action>)
    requires Normalized(cfg) && Reaches(cfg, run, s, now) && id !in s.calls
    ensures Reaches(cfg, run', s.(calls := s.calls[id := Asks(now)]), now)
  {
    Step(cfg, run, s, now, Arrive(id, REQUEST), now);
    var t := Apply(cfg, s, Arrive(id, REQUEST));
    Step(cfg, run + [Arrive(id, REQUEST)], t, now, ReadEntryClock(id, now), now);
    assert t.calls[id := Asks(now)] == s.calls[id := Asks(now)];
    run' := run + [Arrive(id, REQUEST)] + [ReadEntryClock(id, now)];
  }

  /** The state once a call with this stamp has been admitted. */
  function AfterAdmission(s: System, id: CallId, now: Time): System {
    s.(breaker := AllowStep(s.breaker, now).1, log := s.log + [Entry(id, Admission(now, true))],
       calls := s.calls[id := Sends()])
  }

  lemma Admitted(cfg: Settings, run: seq<Action>, s: System, clock: Time, id: CallId, now: Time)
    returns (run': seq<Action>)
    requires Normalized(cfg) && Reaches(cfg, run, s, clock) && id in s.calls && s.calls[id] == Asks(now)
    requires AllowStep(s.breaker, now).0
    ensures Reaches(cfg, run', AfterAdmission(s, id, now), clock)
  {
    Step(cfg, run, s, clock, Ask(id), clock);
    run' := run + [Ask(id)];
  }

  lemma Loses(cfg: Settings, run: seq<Action>, s: System, clock: Time, id: CallId) returns (run': seq<Action>)
    requires Normalized(cfg) && Reaches(cfg, run, s, clock) && id in s.calls && s.calls[id] == Sends()
    ensures Reaches(cfg, run', s.(calls := s.calls[id := Leaves()]), clock)
  {
    NotReplayed(cfg);
    assert [] + [LOST] == [LOST];
    Step(cfg, run, s, clock, Attempt(id, true, LOST), clock);
    run' := run + [Attempt(id, true, LOST)];
  }

  lemma Reads(cfg: Settings, run: seq<Action>, s: System, id: CallId, now: Time) returns (run': seq<Action>)
    requires Normalized(cfg) && Reaches(cfg, run, s, now) && id in s.calls && s.calls[id] == Leaves()
    ensures Reaches(cfg, run', s.(calls := s.calls[id := Reports(now)]), now)
  {
    Step(cfg, run, s, now, ReadExitClock(id, now), now);
    run' := run + [ReadExitClock(id, now)];
  }

  /** The state once a call has reported its failure with this stamp. */
  function AfterReport(cfg: Settings, s: System, id: CallId, now: Time): System
    requires Normalized(cfg)
  {
    s.(breaker := ObserveStep(cfg.breaker, s.breaker, now, true), log := s.log + [Entry(id, Observation(now, true))],
       calls := s.calls[id := Done()])
  }

  lemma Observed(cfg: Settings, run: seq<Action>, s: System, clock: Time, id: CallId, now: Time)
    returns (run': seq<Action>)
    requires Normalized(cfg) && Reaches(cfg, run, s, clock) && id in s.calls && s.calls[id] == Reports(now)
    ensures Reaches(cfg, run', AfterReport(cfg, s, id, now), clock)
  {
    NotReplayed(cfg);
    Step(cfg, run, s, clock, Report(id), clock);
    run' := run + [Report(id)];
  }

  lemma Later(cfg: Settings, run: seq<Action>, s: System, clock: Time, clock': Time)
    requires Normalized(cfg) && Reaches(cfg, run, s, clock) && clock <= clock'
    ensures Reaches(cfg, run, s, clock')
  {
  }

  // ---- the run ----

  /** A closed breaker with this many failures counted. */
  predicate Counts(s: System, failures: nat) {
    s.breaker == Fields(failures, ZERO_TIME, false) && |s.log| == 2 * failures
  }

  /** A new call is admitted by a closed breaker and loses its only attempt. */
  lemma LosesOne(cfg: Settings, run: seq<Action>, s: System, id: CallId, now: Time)
    returns (run': seq<Action>, s': System)
    requires Normalized(cfg) && Reaches(cfg, run, s, now) && id !in s.calls && s.breaker.openedUntil == ZERO_TIME
    ensures Reaches(cfg, run', s', now) && s'.breaker == s.breaker && |s'.log| == |s.log| + 1
    ensures s'.calls == s.calls[id := Leaves()]
  {
    hide Reaches;
    run' := Enters(cfg, run, s, id, now);
    s' := s.(calls := s.calls[id := Asks(now)]);
    run' := Admitted(cfg, run', s', now, id, now);
    s' := AfterAdmission(s', id, now);
    run' := Loses(cfg, run', s', now, id);
    s' := s'.(calls := s'.calls[id := Leaves()]);
    assert s'.calls == s.calls[id := Leaves()];
  }

  /** So many calls lose their attempt and report it, one after the other. */
  lemma {:induction false} Warms(cfg: Settings, failures: nat) returns (run: seq<Action>, s: System)
    requires Normalized(cfg) && failures < cfg.breaker.failureThreshold
    ensures Reaches(cfg, run, s, 0) && Counts(s, failures) && forall id | id in s.calls :: 5 <= id < 5 + failures
  {
    if failures == 0 {
      run, s := [], INITIAL;
    } else {
      var id := 4 + failures;
      run, s := Warms(cfg, failures - 1);
      hide Reaches;
      run, s := LosesOne(cfg, run, s, id, 0);
      run := Reads(cfg, run, s, id, 0);
      s := s.(calls := s.calls[id := Reports(0)]);
      run := Observed(cfg, run, s, 0, id, 0);
      s := AfterReport(cfg, s, id, 0);
    }
  }

  /** Two more calls are admitted and lose their attempt; the second reads the clock for its report. */
  lemma TwoLost(cfg: Settings) returns (run: seq<Action>, s: System)
    requires Normalized(cfg)
    ensures Reaches(cfg, run, s, 2) && s.breaker == Fields(cfg.breaker.failureThreshold - 1, ZERO_TIME, false)
    ensures |s.log| == 2 * cfg.breaker.failureThreshold
    ensures 1 in s.calls && s.calls[1] == Leaves() && 2 in s.calls && s.calls[2] == Reports(2)
    ensures 3 !in s.calls && 4 !in s.calls
  {
    run, s := Warms(cfg, cfg.breaker.failureThreshold - 1);
    Later(cfg, run, s, 0, 1);
    run, s := LosesOne(cfg, run, s, 1, 1);
    Later(cfg, run, s, 1, 2);
    hide Reaches;
    run, s := LosesOne(cfg, run, s, 2, 2);
    run := Reads(cfg, run, s, 2, 2);
    s := s.(calls := s.calls[2 := Reports(2)]);
  }

  /** A fourth call reads the clock; then the first call's report opens the breaker, and once that has
      lasted a third call arrives to probe. d is the open duration. */
  lemma Opens(cfg: Settings, d: Time) returns (run: seq<Action>, s: System)
    requires Normalized(cfg) && cfg.breaker.openDuration == d
    ensures Reaches(cfg, run, s, 2 + 2 * d)
    ensures s.breaker == Fields(cfg.breaker.failureThreshold, 2 + 2 * d, false)
    ensures |s.log| == 2 * cfg.breaker.failureThreshold + 1
    ensures 2 in s.calls && s.calls[2] == Reports(2) && 3 in s.calls && s.calls[3] == Asks(2 + 2 * d)
    ensures 4 in s.calls && s.calls[4] == Asks(2 + d)
  {
    run, s := TwoLost(cfg);
    Later(cfg, run, s, 2, 2 + d);
    run := Enters(cfg, run, s, 4, 2 + d);
    s := s.(calls := s.calls[4 := Asks(2 + d)]);
    run := Reads(cfg, run, s, 1, 2 + d);
    s := s.(calls := s.calls[1 := Reports(2 + d)]);
    run := Observed(cfg, run, s, 2 + d, 1, 2 + d);
    s := AfterReport(cfg, s, 1, 2 + d);
    Later(cfg, run, s, 2 + d, 2 + 2 * d);
    hide Reaches;
    run := Enters(cfg, run, s, 3, 2 + 2 * d);
    s := s.(calls := s.calls[3 := Asks(2 + 2 * d)]);
  }

  /** In a reachable state the fields say whether the breaker is open and what was observed last. */
  lemma OpenedAt(cfg: Settings, run: seq<Action>, s: System, clock: Time)
    requires Normalized(cfg) && Reaches(cfg, run, s, clock) && s.breaker.openedUntil > 0
    ensures Open(cfg.breaker, Events(s.log))
    ensures LastObservation(Events(s.log)) + cfg.breaker.openDuration == s.breaker.openedUntil
  {
    Safety(cfg, run);
  }

  /** The second call's report, stamped long before, is applied after the third call's admission and ends
      the interval that it probes; the fourth call is admitted although its stamp precedes the third's. */
  lemma Reopens(cfg: Settings, d: Time) returns (run: seq<Action>, s: System, t: System, u: System)
    requires Normalized(cfg) && cfg.breaker.openDuration == d
    ensures Reaches(cfg, run, u, 2 + 2 * d)
    ensures |s.log| == 2 * cfg.breaker.failureThreshold + 1 && Open(cfg.breaker, Events(s.log))
    ensures t.log == s.log + [Entry(3, Admission(2 + 2 * d, true))] + [Entry(2, Observation(2, true))]
    ensures Open(cfg.breaker, Events(t.log)) && LastObservation(Events(t.log)) == 2
    ensures u.log == t.log + [Entry(4, Admission(2 + d, true))]
  {
    var clock := 2 + 2 * d;
    run, s := Opens(cfg, d);
    OpenedAt(cfg, run, s, clock);
    hide Reaches, Events, Open, LastObservation;
    run := Admitted(cfg, run, s, clock, 3, clock);
    t := AfterAdmission(s, 3, clock);
    run := Observed(cfg, run, t, clock, 2, 2);
    t := AfterReport(cfg, t, 2, 2);
    OpenedAt(cfg, run, t, clock);
    run := Admitted(cfg, run, t, clock, 4, 2 + d);
    u := AfterAdmission(t, 4, 2 + d);
  }

  lemma LastEvents(log: seq<Entry>, a: Entry, b: Entry, c: Entry)
    ensures var n, h := |log|, Events(log + [a] + [b] + [c]);
      && |h| == n + 3 && h[n] == a.event && h[n + 2] == c.event
      && h[..n] == Events(log) && h[..n + 2] == Events(log + [a] + [b])
  {
  }

  /** For every normalised configuration there is a run in which the clock never steps back, no call
      succeeds, and an open breaker grants two admissions whose stamps are not OpenDuration apart: the
      report before the second is stamped before the first. */
  lemma LateReportAdmitsEarly(cfg: Settings) returns (run: seq<Action>)
    requires Normalized(cfg)
    ensures Legal(cfg, run) && ClockRuns(run)
    ensures var h, n := Events(Run(cfg, run).log), 2 * cfg.breaker.failureThreshold + 1;
      && |h| == n + 3 && NoSuccess(h, 0, |h|)
      && OpenAdmission(cfg.breaker, h, n) && OpenAdmission(cfg.breaker, h, n + 2)
      && !(h[n].now + cfg.breaker.openDuration <= h[n + 2].now)
      && LastObservation(h[..n + 2]) < h[n].now
  {
    hide Events, Open, LastObservation, Legal, Run, NoSuccess, ClockRuns;
    var d: Time := cfg.breaker.openDuration;
    var s, t, u;
    run, s, t, u := Reopens(cfg, d);
    LastEvents(s.log, Entry(3, Admission(2 + 2 * d, true)), Entry(2, Observation(2, true)),
      Entry(4, Admission(2 + d, true)));
  }
}
