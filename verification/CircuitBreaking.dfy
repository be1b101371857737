/** The circuit breaker of remote/resilience.go, as a class and as a function of its event history.
    Time 0 is time.Time{}. */
module CircuitBreaking {
  import opened Policies
  import opened Spacing

  const ZERO_TIME: Time := 0

  datatype Event =
    | Admission(now: Time, granted: bool)
    | Observation(now: Time, failed: bool)

  // ---- what the history says ----

  /** The number of failed observations since the last one that did not fail. */
  function FailureRun(h: seq<Event>): nat {
    if h == [] then 0
    else match h[|h| - 1]
      case Admission(_, _) => FailureRun(h[..|h| - 1])
      case Observation(_, failed) => if failed then FailureRun(h[..|h| - 1]) + 1 else 0
  }

  function LastObservation(h: seq<Event>): Time {
    if h == [] then ZERO_TIME
    else match h[|h| - 1]
      case Admission(_, _) => LastObservation(h[..|h| - 1])
      case Observation(now, _) => now
  }

  /** Some call was admitted since the last observation. */
  predicate AdmittedSinceObservation(h: seq<Event>) {
    h != [] && h[|h| - 1].Admission? && (h[|h| - 1].granted || AdmittedSinceObservation(h[..|h| - 1]))
  }

  predicate Open(policy: BreakerPolicy, h: seq<Event>) {
    FailureRun(h) >= policy.failureThreshold
  }

  /** The declared behaviour: closed below the threshold; otherwise one call per open interval, and
      only when the last observation is OpenDuration old. */
  predicate Admits(policy: BreakerPolicy, h: seq<Event>, now: Time) {
    || !Open(policy, h)
    || (now >= LastObservation(h) + policy.openDuration && !AdmittedSinceObservation(h))
  }

  /** Every answer in the history is the declared one. */
  ghost predicate Faithful(policy: BreakerPolicy, h: seq<Event>) {
    forall i | 0 <= i < |h| && h[i].Admission? :: h[i].granted == Admits(policy, h[..i], h[i].now)
  }

  lemma FaithfulExtends(policy: BreakerPolicy, h: seq<Event>, e: Event)
    requires Faithful(policy, h)
    requires e.Admission? ==> e.granted == Admits(policy, h, e.now)
    ensures Faithful(policy, h + [e])
  {
    var g := h + [e];
    forall i | 0 <= i < |g| && g[i].Admission?
      ensures g[i].granted == Admits(policy, g[..i], g[i].now)
    {
      assert g[..i] == h[..i];
      assert h[..|h|] == h;
    }
  }

  // ---- the three fields and the code's transitions on them ----

  datatype Fields = Fields(failures: int, openedUntil: Time, probeActive: bool)

  const CLOSED := Fields(0, ZERO_TIME, false)

  function AllowStep(b: Fields, now: Time): (r: (bool, Fields)) {
    if b.openedUntil == ZERO_TIME then (true, b)
    else if now < b.openedUntil || b.probeActive then (false, b)
    else (true, b.(probeActive := true))
  }

  function ObserveStep(policy: BreakerPolicy, b: Fields, now: Time, failed: bool): Fields
    requires policy.Valid()
  {
    if !failed then CLOSED
    else if b.probeActive || b.failures + 1 >= policy.failureThreshold then
      Fields(policy.failureThreshold, now + policy.openDuration, false)
    else b.(failures := b.failures + 1)
  }

  /** The fields are this function of the history, and nothing else. */
  ghost predicate Represents(policy: BreakerPolicy, b: Fields, h: seq<Event>) {
    && b.failures == Min(FailureRun(h), policy.failureThreshold)
    && b.openedUntil == (if Open(policy, h) then LastObservation(h) + policy.openDuration else ZERO_TIME)
    && b.probeActive == (Open(policy, h) && AdmittedSinceObservation(h))
  }

  lemma AllowRefines(policy: BreakerPolicy, b: Fields, h: seq<Event>, now: Time)
    requires policy.Valid() && Represents(policy, b, h)
    ensures AllowStep(b, now).0 == Admits(policy, h, now)
    ensures Represents(policy, AllowStep(b, now).1, h + [Admission(now, AllowStep(b, now).0)])
  {
    var h' := h + [Admission(now, AllowStep(b, now).0)];
    assert h'[..|h'| - 1] == h;
  }

  lemma ObserveRefines(policy: BreakerPolicy, b: Fields, h: seq<Event>, now: Time, failed: bool)
    requires policy.Valid() && Represents(policy, b, h)
    ensures Represents(policy, ObserveStep(policy, b, now, failed), h + [Observation(now, failed)])
  {
    var h' := h + [Observation(now, failed)];
    assert h'[..|h'| - 1] == h;
  }

  /** Operations as callers issue them, before any answer is known. */
  datatype Operation = Allow(now: Time) | Observe(now: Time, failed: bool)

  function Execute(policy: BreakerPolicy, ops: seq<Operation>): (r: (Fields, seq<Event>))
    requires policy.Valid()
  {
    if ops == [] then (CLOSED, [])
    else
      var (b, h) := Execute(policy, ops[..|ops| - 1]);
      match ops[|ops| - 1]
      case Allow(now) => (AllowStep(b, now).1, h + [Admission(now, AllowStep(b, now).0)])
      case Observe(now, failed) => (ObserveStep(policy, b, now, failed), h + [Observation(now, failed)])
  }

  /** Whatever is asked of a breaker, in whatever order and with whatever stamps, its fields are the
      declared function of the history and every answer is the declared one. */
  lemma {:induction false} BreakerRefinesHistory(policy: BreakerPolicy, ops: seq<Operation>)
    requires policy.Valid()
    ensures var (b, h) := Execute(policy, ops);
      |h| == |ops| && Represents(policy, b, h) && Faithful(policy, h)
  {
    if ops == [] {
    } else {
      BreakerRefinesHistory(policy, ops[..|ops| - 1]);
      var (b, h) := Execute(policy, ops[..|ops| - 1]);
      match ops[|ops| - 1]
      case Allow(now) =>
        AllowRefines(policy, b, h, now);
        FaithfulExtends(policy, h, Admission(now, AllowStep(b, now).0));
      case Observe(now, failed) =>
        ObserveRefines(policy, b, h, now, failed);
        FaithfulExtends(policy, h, Observation(now, failed));
    }
  }

  /** The breaker as the source declares it. The mutex makes each method one step. */
  class CircuitBreaker {
    const policy: BreakerPolicy
    var failures: int
    var openedUntil: Time
    var probeActive: bool
    ghost var history: seq<Event>

    function View(): Fields
      reads this
    {
      Fields(failures, openedUntil, probeActive)
    }

    ghost predicate Valid()
      reads this
    {
      policy.Valid() && Represents(policy, View(), history) && Faithful(policy, history)
    }

    constructor (policy: BreakerPolicy)
      requires policy.Valid()
      ensures Valid() && this.policy == policy && history == [] && View() == CLOSED
    {
      this.policy := policy;
      failures, openedUntil, probeActive := 0, ZERO_TIME, false;
      history := [];
    }

    method Allow(now: Time) returns (ok: bool)
      requires Valid()
      modifies this
      ensures Valid()
      ensures ok == Admits(policy, old(history), now)
      ensures history == old(history) + [Admission(now, ok)]
    {
      AllowRefines(policy, View(), history, now);
      FaithfulExtends(policy, history, Admission(now, AllowStep(View(), now).0));
      ghost var before := View();
      if openedUntil == ZERO_TIME {
        ok := true;
      } else if now < openedUntil || probeActive {
        ok := false;
      } else {
        probeActive := true;
        ok := true;
      }
      history := history + [Admission(now, ok)];
      assert View() == AllowStep(before, now).1;
    }

    method Observe(now: Time, failed: bool)
      requires Valid()
      modifies this
      ensures Valid()
      ensures history == old(history) + [Observation(now, failed)]
    {
      ghost var before := View();
      if !failed {
        failures := 0;
        openedUntil := ZERO_TIME;
        probeActive := false;
        assert View() == ObserveStep(policy, before, now, failed);
      } else if probeActive || failures + 1 >= policy.failureThreshold {
        failures := policy.failureThreshold;
        openedUntil := now + policy.openDuration;
        probeActive := false;
        assert View() == ObserveStep(policy, before, now, failed);
      } else {
        failures := failures + 1;
        assert View() == ObserveStep(policy, before, now, failed);
      }
      ObserveRefines(policy, before, history, now, failed);
      FaithfulExtends(policy, history, Observation(now, failed));
      history := history + [Observation(now, failed)];
    }
  }

  // ---- how often an open breaker admits ----

  /** Entry i admits a call while the breaker is open. */
  predicate OpenAdmission(policy: BreakerPolicy, h: seq<Event>, i: nat) {
    i < |h| && h[i].Admission? && h[i].granted && Open(policy, h[..i])
  }

  ghost predicate NoSuccess(h: seq<Event>, from: nat, upto: nat) {
    forall k | from <= k < upto && k < |h| && h[k].Observation? :: h[k].failed
  }

  /** Stamps do not decrease in the order in which the lock was taken. */
  ghost predicate StampsOrdered(h: seq<Event>, from: nat, upto: nat) {
    forall k, l | from <= k <= l < upto && l < |h| :: h[k].now <= h[l].now
  }

  lemma {:induction false} OpenPersists(policy: BreakerPolicy, h: seq<Event>, i: nat, j: nat)
    requires i <= j <= |h| && Open(policy, h[..i]) && NoSuccess(h, i, j)
    ensures Open(policy, h[..j])
    decreases j
  {
    if i == j {
    } else {
      OpenPersists(policy, h, i, j - 1);
      assert h[..j][..j - 1] == h[..j - 1];
    }
  }

  /** After an admission at i, either nobody has observed since or the last observation lies after i. */
  lemma {:induction false} ObservedAfter(h: seq<Event>, i: nat, j: nat) returns (k: nat)
    requires i < j <= |h| && h[i].Admission? && h[i].granted
    requires !AdmittedSinceObservation(h[..j])
    ensures i < k < j && h[k].Observation? && LastObservation(h[..j]) == h[k].now
    decreases j
  {
    assert h[..j][..j - 1] == h[..j - 1];
    if h[j - 1].Observation? {
      k := j - 1;
    } else {
      k := ObservedAfter(h, i, j - 1);
    }
  }

  /** When an open breaker is ready to admit again, the next admission is sure to come OpenDuration after an
      earlier one, whatever stamp it brings, exactly when the last observation is not stamped before that
      admission. This comparison is known before the next call asks. */
  lemma NextAdmissionSpacedExactly(policy: BreakerPolicy, h: seq<Event>, i: nat)
    requires policy.Valid() && OpenAdmission(policy, h, i)
    requires Open(policy, h) && !AdmittedSinceObservation(h)
    ensures (forall now: Time | Admits(policy, h, now) :: h[i].now + policy.openDuration <= now)
      <==> h[i].now <= LastObservation(h)
  {
    assert Admits(policy, h, LastObservation(h) + policy.openDuration);
  }

  /** One admission per open interval, and OpenDuration between two of them unless the last observation
      before the second is stamped before the first. */
  lemma OpenAdmissionsSpaced(policy: BreakerPolicy, h: seq<Event>, i: nat, j: nat)
    requires policy.Valid() && Faithful(policy, h)
    requires i < j && OpenAdmission(policy, h, i) && OpenAdmission(policy, h, j)
    ensures exists k | i < k < j :: h[k].Observation? && h[k].now == LastObservation(h[..j])
    ensures h[i].now <= LastObservation(h[..j]) ==> h[i].now + policy.openDuration <= h[j].now
  {
    var k := ObservedAfter(h, i, j);
  }

  /** The open admissions among h[from..], by position. */
  function OpenAdmissions(policy: BreakerPolicy, h: seq<Event>, from: nat, upto: nat): (r: seq<nat>)
    requires from <= upto <= |h|
    ensures forall n | 0 <= n < |r| :: from <= r[n] < upto && OpenAdmission(policy, h, r[n])
    ensures forall m, n | 0 <= m < n < |r| :: r[m] < r[n]
    ensures forall i: nat | from <= i < upto && OpenAdmission(policy, h, i) :: i in r
    decreases upto
  {
    if from == upto then []
    else
      var r := OpenAdmissions(policy, h, from, upto - 1);
      if OpenAdmission(policy, h, upto - 1) then r + [upto - 1] else r
  }

  function Stamp(event: Event): Time {
    event.now
  }

  /** Before each open admission, the last observation is not stamped before the open admission that
      precedes it. Nothing is asked of the stamps of calls that are turned away, nor of other reports. */
  ghost predicate ReportsFollow(policy: BreakerPolicy, h: seq<Event>, from: nat, upto: nat)
    requires from <= upto <= |h|
  {
    var r := OpenAdmissions(policy, h, from, upto);
    forall n | 0 < n < |r| :: h[r[n - 1]].now <= LastObservation(h[..r[n]])
  }

  /** A clock that is ordered as the lock is taken is more than enough. */
  lemma OrderedStampsReportLater(policy: BreakerPolicy, h: seq<Event>, from: nat, upto: nat)
    requires policy.Valid() && Faithful(policy, h) && from <= upto <= |h|
    requires StampsOrdered(h, from, upto)
    ensures ReportsFollow(policy, h, from, upto)
  {
    var r := OpenAdmissions(policy, h, from, upto);
    forall n | 0 < n < |r| ensures h[r[n - 1]].now <= LastObservation(h[..r[n]]) {
      OpenAdmissionsSpaced(policy, h, r[n - 1], r[n]);
    }
  }

  lemma AdmissionStamps(policy: BreakerPolicy, h: seq<Event>, from: nat, upto: nat)
    requires policy.Valid() && Faithful(policy, h) && from <= upto <= |h|
    requires ReportsFollow(policy, h, from, upto)
    ensures Spaced(StampsAt(h, Stamp, OpenAdmissions(policy, h, from, upto)), policy.openDuration)
  {
    var r := OpenAdmissions(policy, h, from, upto);
    var stamps := StampsAt(h, Stamp, r);
    forall n | 0 < n < |stamps| ensures stamps[n - 1] + policy.openDuration <= stamps[n] {
      assert h[r[n - 1]].now <= LastObservation(h[..r[n]]);
      OpenAdmissionsSpaced(policy, h, r[n - 1], r[n]);
    }
  }

  /** Admission rate: among admissions that fall into a window of time, an open breaker grants at most
      length / OpenDuration + 1, provided reports follow the admissions before them. */
  lemma AdmissionRate(policy: BreakerPolicy, h: seq<Event>, from: nat, upto: nat, start: int, length: nat)
    requires policy.Valid() && Faithful(policy, h) && from <= upto <= |h|
    requires ReportsFollow(policy, h, from, upto)
    requires forall k | from <= k < upto && OpenAdmission(policy, h, k) :: start <= h[k].now <= start + length
    ensures |OpenAdmissions(policy, h, from, upto)| <= length / policy.openDuration + 1
  {
    AdmissionStamps(policy, h, from, upto);
    SpacedCount(StampsAt(h, Stamp, OpenAdmissions(policy, h, from, upto)), policy.openDuration, start, length);
  }

  /** In a stretch that begins open and sees no success, every admission is an open one. */
  lemma AllAdmissionsOpen(policy: BreakerPolicy, h: seq<Event>, from: nat, upto: nat, i: nat)
    requires from <= i < upto <= |h| && Open(policy, h[..from]) && NoSuccess(h, from, upto)
    requires h[i].Admission? && h[i].granted
    ensures i in OpenAdmissions(policy, h, from, upto)
  {
    OpenPersists(policy, h, from, i);
  }
}
