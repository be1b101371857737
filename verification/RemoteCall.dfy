/** One remote call (remote/factory.go): the outcome of an attempt, the retry loop around the circuit
    breaker, and what a finished call is allowed to have done. */
module RemoteCall {
  import opened Text
  import opened Policies
  import opened Spacing
  import opened CircuitBreaking

  datatype Error = Error(status: int, code: string, retryable: bool)
  datatype Result = Ok | Err(error: Error)

  /** What one attempt returns: an HTTP status (0 when there was no response) and an error or none. */
  datatype Answer = Answer(status: int, error: Option<Error>)

  const NO_CONTENT := 204
  const TOO_MANY_REQUESTS := 429
  const INTERNAL_SERVER_ERROR := 500
  const BAD_GATEWAY := 502
  const SERVICE_UNAVAILABLE := 503
  const GATEWAY_TIMEOUT := 504

  const ENCODE_FAILED := Error(INTERNAL_SERVER_ERROR, "notification.request_encode_failed", false)
  const CIRCUIT_OPEN := Error(SERVICE_UNAVAILABLE, "notification.remote_circuit_open", true)
  const RETRY_CANCELLED := Error(GATEWAY_TIMEOUT, "notification.remote_retry_cancelled", false)

  const PUBLISH_PATH := "/notification/v1/events:publish"

  predicate RetryableRequest(verb: string, path: string) {
    verb == "GET" || verb == "HEAD" || verb == "OPTIONS" || (verb == "POST" && path == PUBLISH_PATH)
  }

  predicate RetryableStatus(status: int) {
    status in {TOO_MANY_REQUESTS, BAD_GATEWAY, SERVICE_UNAVAILABLE, GATEWAY_TIMEOUT}
  }

  /** A failure for the breaker, and the only kind that is retried. */
  predicate Failed(a: Answer) {
    a.error.Some? && (a.status == 0 || RetryableStatus(a.status))
  }

  // ---- one attempt ----

  datatype Body = Readable(code: string, retryable: bool) | Unreadable

  /** What can happen to one attempt on its way out and back. */
  datatype Exchange =
    | Unbuildable
    | NoGrant(cause: Error)
    | NoToken(cause: Error)
    | Unreachable
    | Response(status: int, body: Body)

  predicate Accepted(status: int) {
    200 <= status < 300
  }

  function Perform(x: Exchange, wantsOutput: bool): Answer {
    match x
    case Unbuildable => Answer(0, Some(Error(INTERNAL_SERVER_ERROR, "notification.request_build_failed", false)))
    case NoGrant(cause) => Answer(0, Some(cause))
    case NoToken(cause) => Answer(0, Some(cause))
    case Unreachable => Answer(0, Some(Error(SERVICE_UNAVAILABLE, "notification.remote_unavailable", true)))
    case Response(status, body) =>
      if !Accepted(status) then
        if body.Unreadable? || body.code == "" then
          Answer(status, Some(Error(status, "notification.remote_rejected", RetryableStatus(status))))
        else Answer(status, Some(Error(status, body.code, body.retryable)))
      else if !wantsOutput || status == NO_CONTENT || body.Readable? then Answer(status, None)
      else Answer(status, Some(Error(BAD_GATEWAY, "notification.response_decode_failed", false)))
  }

  /** An attempt counts against the breaker iff no response arrived or the response is one of 429, 502,
      503 and 504 (or the status line said 0). An unreadable success and a plain 500 do not count. */
  lemma FailureClassification(x: Exchange, wantsOutput: bool)
    ensures Failed(Perform(x, wantsOutput)) <==>
      !x.Response? || x.status in {0, 429, 502, 503, 504}
    ensures Perform(x, wantsOutput).error.None? <==>
      x.Response? && 200 <= x.status < 300 && (!wantsOutput || x.status == 204 || x.body.Readable?)
  {
  }

  /** The error of a server that sends an envelope with a code keeps that code and flag; a cause met before
      sending is passed on as it is; every other failure has a code of its own. */
  lemma ErrorsPassedOn(x: Exchange, wantsOutput: bool)
    ensures var a := Perform(x, wantsOutput);
      && a.status == (if x.Response? then x.status else 0)
      && (x.NoGrant? || x.NoToken? ==> a.error == Some(x.cause))
      && (x.Unbuildable? ==> a.error == Some(Error(500, "notification.request_build_failed", false)))
      && (x.Unreachable? ==> a.error == Some(Error(503, "notification.remote_unavailable", true)))
      && (x.Response? && a.error.Some? ==>
            a.error.value ==
              if 200 <= x.status < 300 then Error(502, "notification.response_decode_failed", false)
              else if x.body == Unreadable || x.body.code == "" then
                Error(x.status, "notification.remote_rejected", x.status in {429, 502, 503, 504})
              else Error(x.status, x.body.code, x.body.retryable))
  {
  }

  // ---- a finished call ----

  datatype Request = Request(verb: string, path: string, body: string)

  function Attempts(retry: RetryPolicy, request: Request): int {
    if RetryableRequest(request.verb, request.path) then retry.maxAttempts else 1
  }

  /** Reads, and the publication of events, are allowed MaxAttempts attempts; everything else one. */
  lemma AttemptsExactly(retry: RetryPolicy, request: Request)
    ensures Attempts(retry, request) ==
      if request.verb in {"GET", "HEAD", "OPTIONS"}
        || (request.verb == "POST" && request.path == "/notification/v1/events:publish") then retry.maxAttempts
      else 1
  {
  }

  predicate AllFailed(answers: seq<Answer>) {
    forall i | 0 <= i < |answers| :: Failed(answers[i])
  }

  /** What the call reports to the breaker. */
  predicate Verdict(answers: seq<Answer>, cancelled: bool)
    requires answers != []
  {
    !cancelled && Failed(answers[|answers| - 1])
  }

  /** An admitted call that received these answers, and whose last wait was or was not cut short by its
      context, ends with this result. */
  ghost predicate Completed(retry: RetryPolicy, request: Request, answers: seq<Answer>, cancelled: bool,
        result: Result) {
    && 1 <= |answers| <= Attempts(retry, request)
    && AllFailed(answers[..|answers| - 1])
    && var last := answers[|answers| - 1];
    if cancelled then
      Failed(last) && |answers| < Attempts(retry, request) && result == Err(RETRY_CANCELLED)
    else if last.error.None? then
      result == Ok
    else
      result == Err(last.error.value) && (Failed(last) ==> |answers| == Attempts(retry, request))
  }

  /** Retry safety: a request that may not be replayed is sent once, any other at most MaxAttempts
      times; a request is sent again only after a failure; success means the last answer was one. */
  lemma RetrySafety(retry: RetryPolicy, request: Request, answers: seq<Answer>, cancelled: bool, result: Result)
    requires Completed(retry, request, answers, cancelled, result)
    ensures |answers| > 1 || cancelled ==>
      || request.verb in {"GET", "HEAD", "OPTIONS"}
      || (request.verb == "POST" && request.path == "/notification/v1/events:publish")
    ensures |answers| <= Max(retry.maxAttempts, 1)
    ensures forall i | 0 <= i < |answers| - 1 :: answers[i].error.Some? && answers[i].status in {0, 429, 502, 503, 504}
    ensures cancelled ==> result == Err(Error(504, "notification.remote_retry_cancelled", false))
    ensures result.Ok? <==> !cancelled && answers[|answers| - 1].error.None?
    ensures !cancelled && result.Err? ==> answers[|answers| - 1].error == Some(result.error)
  {
    forall i | 0 <= i < |answers| - 1
      ensures answers[i].error.Some? && answers[i].status in {0, 429, 502, 503, 504}
    {
      assert Failed(answers[..|answers| - 1][i]);
    }
  }

  /** What the breaker is told: a failure exactly when the last attempt failed and no wait after it was cut
      short. A success, an answer that is not retried and a cancelled wait all count as working. */
  lemma VerdictExactly(retry: RetryPolicy, request: Request, answers: seq<Answer>, cancelled: bool, result: Result)
    requires Completed(retry, request, answers, cancelled, result)
    ensures Verdict(answers, cancelled) <==>
      !cancelled && result.Err? && answers[|answers| - 1].status in {0, 429, 502, 503, 504}
  {
  }

  /** The network and the caller's context, seen from one call: the answer to each attempt, whether the
      wait after it is cancelled (both numbered from 0), and the two clock readings. */
  datatype Environment = Environment(answer: nat -> Answer, cancels: nat -> bool, entry: Time, exit: Time)

  ghost predicate Witnesses(env: Environment, answers: seq<Answer>, cancelled: bool) {
    && answers != []
    && (forall i | 0 <= i < |answers| :: answers[i] == env.answer(i))
    && (forall i | 0 <= i < |answers| - 1 :: !env.cancels(i))
    && (cancelled ==> env.cancels(|answers| - 1))
  }

  /** The loop ends after attempt i (numbered from 0). */
  predicate Stops(retry: RetryPolicy, request: Request, env: Environment, i: nat) {
    !Failed(env.answer(i)) || i + 1 == Attempts(retry, request) || env.cancels(i)
  }

  /** A call ends at the first attempt that is not failed, is the last one allowed, or is followed by
      a cancelled wait. */
  lemma EndsAtFirstStop(retry: RetryPolicy, request: Request, env: Environment,
      answers: seq<Answer>, cancelled: bool, result: Result)
    requires Completed(retry, request, answers, cancelled, result) && Witnesses(env, answers, cancelled)
    ensures Stops(retry, request, env, |answers| - 1)
    ensures forall i: nat | i < |answers| - 1 :: !Stops(retry, request, env, i)
  {
    forall i: nat | i < |answers| - 1 ensures !Stops(retry, request, env, i) {
      assert answers[..|answers| - 1][i] == env.answer(i);
    }
  }

  /** Against a given environment there is only one way for a call to end. */
  lemma CompletionIsUnique(retry: RetryPolicy, request: Request, env: Environment,
      answers: seq<Answer>, cancelled: bool, result: Result, answers': seq<Answer>, cancelled': bool, result': Result)
    requires Completed(retry, request, answers, cancelled, result) && Witnesses(env, answers, cancelled)
    requires Completed(retry, request, answers', cancelled', result') && Witnesses(env, answers', cancelled')
    ensures answers == answers' && cancelled == cancelled' && result == result'
  {
    EndsAtFirstStop(retry, request, env, answers, cancelled, result);
    EndsAtFirstStop(retry, request, env, answers', cancelled', result');
    assert |answers| == |answers'|;
    assert answers == answers';
  }

  datatype Outcome = Outcome(answers: seq<Answer>, cancelled: bool, result: Result)

  /** The rest of an admitted call that has already received these answers. */
  function Settle(retry: RetryPolicy, request: Request, env: Environment, answers: seq<Answer>): (o: Outcome)
    requires |answers| < Attempts(retry, request)
    ensures |answers| < |o.answers| <= Attempts(retry, request)
    decreases Attempts(retry, request) - |answers|
  {
    var answer := env.answer(|answers|);
    var received := answers + [answer];
    if answer.error.None? then Outcome(received, false, Ok)
    else if !Failed(answer) || |received| == Attempts(retry, request) then
      Outcome(received, false, Err(answer.error.value))
    else if env.cancels(|answers|) then Outcome(received, true, Err(RETRY_CANCELLED))
    else Settle(retry, request, env, received)
  }

  /** The attempts so far have all failed and none of the waits after them was cancelled. */
  ghost predicate Underway(env: Environment, answers: seq<Answer>) {
    AllFailed(answers) && forall i | 0 <= i < |answers| :: answers[i] == env.answer(i) && !env.cancels(i)
  }

  lemma EndsNow(retry: RetryPolicy, request: Request, env: Environment, answers: seq<Answer>, cancelled: bool,
        result: Result)
    requires |answers| < Attempts(retry, request) && Underway(env, answers)
    requires var last := env.answer(|answers|);
      if cancelled then
        Failed(last) && |answers| + 1 < Attempts(retry, request) && env.cancels(|answers|)
          && result == Err(RETRY_CANCELLED)
      else if last.error.None? then result == Ok
      else result == Err(last.error.value) && (Failed(last) ==> |answers| + 1 == Attempts(retry, request))
    ensures var received := answers + [env.answer(|answers|)];
      Completed(retry, request, received, cancelled, result) && Witnesses(env, received, cancelled)
  {
    hide Failed;
    var received := answers + [env.answer(|answers|)];
    assert received[..|received| - 1] == answers;
  }

  lemma {:induction false} SettleCompletes(retry: RetryPolicy, request: Request, env: Environment, answers: seq<Answer>)
    requires |answers| < Attempts(retry, request) && Underway(env, answers)
    ensures var o := Settle(retry, request, env, answers);
      Completed(retry, request, o.answers, o.cancelled, o.result) && Witnesses(env, o.answers, o.cancelled)
    decreases Attempts(retry, request) - |answers|
  {
    hide Completed, Witnesses, Failed, Attempts;
    var answer := env.answer(|answers|);
    var received := answers + [answer];
    if answer.error.None? {
      EndsNow(retry, request, env, answers, false, Ok);
    } else if !Failed(answer) || |received| == Attempts(retry, request) {
      EndsNow(retry, request, env, answers, false, Err(answer.error.value));
    } else if env.cancels(|answers|) {
      EndsNow(retry, request, env, answers, true, Err(RETRY_CANCELLED));
    } else {
      assert Underway(env, received);
      SettleCompletes(retry, request, env, received);
    }
  }

  /** The retry loop ends as Completed says, and that is the only such end. */
  lemma SettleIsTheCompletion(retry: RetryPolicy, request: Request, env: Environment,
      answers: seq<Answer>, cancelled: bool, result: Result)
    requires Attempts(retry, request) >= 1
    ensures Completed(retry, request, answers, cancelled, result) && Witnesses(env, answers, cancelled)
      <==> Settle(retry, request, env, []) == Outcome(answers, cancelled, result)
  {
    SettleCompletes(retry, request, env, []);
    var o := Settle(retry, request, env, []);
    if Completed(retry, request, answers, cancelled, result) && Witnesses(env, answers, cancelled) {
      CompletionIsUnique(retry, request, env, answers, cancelled, result, o.answers, o.cancelled, o.result);
    }
  }

  /** One round of the loop: it ends, or it goes on with one answer more. */
  lemma SettleStep(retry: RetryPolicy, request: Request, env: Environment, answers: seq<Answer>)
    requires |answers| < Attempts(retry, request)
    ensures var answer := env.answer(|answers|);
      var received := answers + [answer];
      var o := Settle(retry, request, env, answers);
      && (answer.error.None? ==> o == Outcome(received, false, Ok) && !Failed(answer))
      && (answer.error.Some? && (!Failed(answer) || |received| == Attempts(retry, request)) ==>
            o == Outcome(received, false, Err(answer.error.value)))
      && (Failed(answer) && |received| < Attempts(retry, request) ==>
            o == if env.cancels(|answers|) then Outcome(received, true, Err(RETRY_CANCELLED))
                 else Settle(retry, request, env, received))
  {
  }

  lemma BackoffNext(retry: RetryPolicy, attempt: nat)
    requires attempt >= 1
    ensures TotalBackoff(retry, attempt + 1) == TotalBackoff(retry, attempt) + Max(DelayAfter(retry, attempt - 1), 0)
  {
  }

  /** What an admitted call adds to the breaker's history. */
  function CallEvents(retry: RetryPolicy, request: Request, env: Environment): seq<Event> {
    if Attempts(retry, request) < 1 then [Admission(env.entry, true)]
    else
      var o := Settle(retry, request, env, []);
      [Admission(env.entry, true), Observation(env.exit, Verdict(o.answers, o.cancelled))]
  }

  datatype Encoded = Encoded(body: string) | Unencodable

  class Binding {
    const retry: RetryPolicy
    const breaker: CircuitBreaker

    constructor (retry: RetryPolicy, breaker: CircuitBreaker)
      ensures this.retry == retry && this.breaker == breaker
    {
      this.retry := retry;
      this.breaker := breaker;
    }

    /** The call loop. The breaker sees one admission and, when it was granted and at least one attempt
        is allowed, exactly one observation on every path out. */
    method Call(verb: string, path: string, input: Encoded, env: Environment)
      returns (outcome: Outcome, sent: seq<string>, waited: int)
      requires breaker.Valid()
      modifies breaker
      ensures breaker.Valid()
      ensures |sent| == |outcome.answers| && forall s | s in sent :: input == Encoded(s)
      ensures |sent| > 1 ==>
        verb in {"GET", "HEAD", "OPTIONS"} || (verb == "POST" && path == "/notification/v1/events:publish")
      ensures input.Unencodable? ==>
        && outcome == Outcome([], false, Err(Error(500, "notification.request_encode_failed", false)))
        && waited == 0 && breaker.history == old(breaker.history)
      ensures input.Encoded? && !Admits(breaker.policy, old(breaker.history), env.entry) ==>
        && outcome == Outcome([], false, Err(Error(503, "notification.remote_circuit_open", true))) && waited == 0
        && breaker.history == old(breaker.history) + [Admission(env.entry, false)]
      ensures input.Encoded? && Admits(breaker.policy, old(breaker.history), env.entry) ==>
        var request := Request(verb, path, input.body);
        && breaker.history == old(breaker.history) + CallEvents(retry, request, env)
        && if Attempts(retry, request) >= 1 then
             && outcome == Settle(retry, request, env, [])
             && waited == TotalBackoff(retry, |outcome.answers| + if outcome.cancelled then 1 else 0)
           else
             outcome == Outcome([], false, Ok) && waited == 0
    {
      sent, waited := [], 0;
      if input.Unencodable? {
        return Outcome([], false, Err(ENCODE_FAILED)), sent, waited;
      }
      var allowed := breaker.Allow(env.entry);
      if !allowed {
        return Outcome([], false, Err(CIRCUIT_OPEN)), sent, waited;
      }
      var attempts := 1;
      if RetryableRequest(verb, path) {
        attempts := retry.maxAttempts;
      }
      AttemptsExactly(retry, Request(verb, path, input.body));
      outcome, sent, waited := Send(Request(verb, path, input.body), attempts, env);
    }

    /** The retry loop of an admitted call. */
    method Send(request: Request, attempts: int, env: Environment)
      returns (outcome: Outcome, sent: seq<string>, waited: int)
      requires breaker.Valid() && attempts == Attempts(retry, request)
      modifies breaker
      ensures breaker.Valid()
      ensures |sent| == |outcome.answers| && forall s | s in sent :: s == request.body
      ensures breaker.history == old(breaker.history) + CallEvents(retry, request, env)[1..]
      ensures if attempts >= 1 then
          && outcome == Settle(retry, request, env, [])
          && waited == TotalBackoff(retry, |outcome.answers| + if outcome.cancelled then 1 else 0)
        else
          outcome == Outcome([], false, Ok) && waited == 0
    {
      ghost var before := breaker.history;
      hide Attempts, Settle, Failed, RetryableRequest, Represents, Faithful;
      sent, waited := [], 0;
      var answers: seq<Answer> := [];
      var last := Ok;
      var attempt := 1;
      while attempt <= attempts
        invariant attempt == |answers| + 1 == |sent| + 1
        invariant attempts >= 1 ==>
          attempt <= attempts && Settle(retry, request, env, answers) == Settle(retry, request, env, [])
        invariant attempts < 1 ==> answers == [] && last == Ok
        invariant breaker.Valid() && breaker.history == before
        invariant forall s | s in sent :: s == request.body
        invariant waited == TotalBackoff(retry, attempt)
      {
        hide TotalBackoff;
        SettleStep(retry, request, env, answers);
        BackoffNext(retry, attempt);
        var answer := env.answer(attempt - 1);
        sent, answers := sent + [request.body], answers + [answer];
        var failed := Failed(answer);
        if answer.error.None? {
          breaker.Observe(env.exit, false);
          return Outcome(answers, false, Ok), sent, waited;
        }
        last := Err(answer.error.value);
        if !failed || attempt == attempts {
          breaker.Observe(env.exit, failed);
          return Outcome(answers, false, last), sent, waited;
        }
        var delay := RetryDelay(retry, attempt);
        waited := waited + Max(delay, 0);
        if env.cancels(attempt - 1) {
          breaker.Observe(env.exit, false);
          return Outcome(answers, true, Err(RETRY_CANCELLED)), sent, waited;
        }
        attempt := attempt + 1;
      }
      return Outcome(answers, false, last), sent, waited;
    }
  }

  /** The call reports after its admission. */
  predicate ReportsAfter(retry: RetryPolicy, request: Request, env: Environment) {
    var h := CallEvents(retry, request, env);
    |h| == 2 && h[0] == Admission(env.entry, true) && h[1].Observation? && h[1].now == env.exit
  }

  /** Every admission is followed by the call's own report, for every request and whatever the network
      does, iff MaxAttempts is positive; with the zero value a retryable call would keep the probe slot
      and claim success. */
  lemma EveryAdmissionReported(retry: RetryPolicy)
    ensures (forall r: Request, env: Environment :: ReportsAfter(retry, r, env)) <==> retry.maxAttempts >= 1
  {
    EveryRequestAttempted(retry);
    if retry.maxAttempts < 1 {
      var env := Environment(_ => Answer(0, None), _ => false, 0, 0);
      assert !ReportsAfter(retry, Request("GET", "", ""), env);
    } else {
      forall r: Request, env: Environment ensures ReportsAfter(retry, r, env) {
        assert Attempts(retry, r) >= 1;
      }
    }
  }

  /** Every request is attempted iff MaxAttempts is positive. */
  lemma EveryRequestAttempted(retry: RetryPolicy)
    ensures (forall r: Request :: Attempts(retry, r) >= 1) <==> retry.maxAttempts >= 1
  {
    assert Attempts(retry, Request("GET", "", "")) == retry.maxAttempts;
  }
}
