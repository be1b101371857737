/** The call loop of RemoteCall and the transition system of Interleavings describe the same code: a call
    that runs without interruption takes steps that are open to it in any state, and ends as the loop does. */
module UninterruptedCalls {
  import opened Text
  import opened Policies
  import opened CircuitBreaking
  import opened RemoteCall
  import opened Interleavings

  /** Each action is enabled when its turn comes. */
  predicate Can(cfg: Settings, s: System, actions: seq<Action>)
    requires Normalized(cfg)
    decreases |actions|
  {
    actions == [] || (Enabled(s, actions[0]) && Can(cfg, Apply(cfg, s, actions[0]), actions[1..]))
  }

  function After(cfg: Settings, s: System, actions: seq<Action>): System
    requires Normalized(cfg) && Can(cfg, s, actions)
    decreases |actions|
  {
    if actions == [] then s else After(cfg, Apply(cfg, s, actions[0]), actions[1..])
  }

  /** Runs extend by steps from their last state. */
  lemma {:induction false} RunExtends(cfg: Settings, run: seq<Action>, actions: seq<Action>)
    requires Normalized(cfg) && Legal(cfg, run) && Can(cfg, Run(cfg, run), actions)
    ensures Legal(cfg, run + actions) && Run(cfg, run + actions) == After(cfg, Run(cfg, run), actions)
    decreases |actions|
  {
    if actions == [] {
      assert run + actions == run;
    } else {
      var longer := run + [actions[0]];
      assert longer[..|longer| - 1] == run;
      assert run + actions == longer + actions[1..];
      RunExtends(cfg, longer, actions[1..]);
    }
  }

  lemma {:induction false} InSequence(cfg: Settings, s: System, a: seq<Action>, b: seq<Action>)
    requires Normalized(cfg) && Can(cfg, s, a) && Can(cfg, After(cfg, s, a), b)
    ensures Can(cfg, s, a + b) && After(cfg, s, a + b) == After(cfg, After(cfg, s, a), b)
    decreases |a|
  {
    if a == [] {
      assert a + b == b;
    } else {
      InSequence(cfg, Apply(cfg, s, a[0]), a[1..], b);
      assert (a + b)[1..] == a[1..] + b;
    }
  }

  lemma OneStep(cfg: Settings, s: System, a: Action)
    requires Normalized(cfg) && Enabled(s, a)
    ensures Can(cfg, s, [a]) && After(cfg, s, [a]) == Apply(cfg, s, a)
  {
    assert [a][1..] == [];
  }

  /** The steps of the retry loop from the point where these answers have been received. */
  function LoopActions(cfg: Settings, id: CallId, request: Request, env: Environment, answers: seq<Answer>): seq<Action>
    requires |answers| < Attempts(cfg.retry, request)
    decreases Attempts(cfg.retry, request) - |answers|
  {
    var answer := env.answer(|answers|);
    var received := answers + [answer];
    var attempt := Attempt(id, true, answer);
    if !Failed(answer) || |received| == Attempts(cfg.retry, request) then [attempt]
    else if env.cancels(|answers|) then [attempt] + [Wait(id, true)]
    else ([attempt] + [Wait(id, false)]) + LoopActions(cfg, id, request, env, received)
  }

  /** In s, the call is about to make its next attempt. */
  predicate AboutToSend(s: System, id: CallId, request: Request, answers: seq<Answer>) {
    id in s.calls && s.calls[id] == Call(request, Sending, true, answers, false, s.calls[id].arrivals)
  }

  /** In s, the call has left the loop with this outcome. */
  predicate LeftLoop(s: System, id: CallId, request: Request, o: Outcome) {
    id in s.calls && s.calls[id] == Call(request, Leaving(o.result), true, o.answers, o.cancelled, s.calls[id].arrivals)
  }

  predicate SameBreaker(s: System, t: System) {
    s.breaker == t.breaker && s.log == t.log
  }

  lemma {:induction false} LoopRuns(cfg: Settings, s: System, id: CallId, request: Request, env: Environment,
        answers: seq<Answer>)
    requires Normalized(cfg) && |answers| < Attempts(cfg.retry, request) && AboutToSend(s, id, request, answers)
    ensures var actions := LoopActions(cfg, id, request, env, answers);
      && Can(cfg, s, actions) && SameBreaker(s, After(cfg, s, actions))
      && LeftLoop(After(cfg, s, actions), id, request, Settle(cfg.retry, request, env, answers))
      && After(cfg, s, actions).calls[id].arrivals ==
           s.calls[id].arrivals + |Settle(cfg.retry, request, env, answers).answers| - |answers|
    decreases Attempts(cfg.retry, request) - |answers|
  {
    var answer := env.answer(|answers|);
    var received := answers + [answer];
    var attempt := Attempt(id, true, answer);
    OneStep(cfg, s, attempt);
    var t := Apply(cfg, s, attempt);
    if !Failed(answer) || |received| >= Attempts(cfg.retry, request) {
    } else {
      var wait := Wait(id, env.cancels(|answers|));
      OneStep(cfg, t, wait);
      InSequence(cfg, s, [attempt], [wait]);
      if !env.cancels(|answers|) {
        var u := Apply(cfg, t, wait);
        LoopRuns(cfg, u, id, request, env, received);
        InSequence(cfg, s, [attempt] + [wait], LoopActions(cfg, id, request, env, received));
      }
    }
  }

  /** The steps of a whole call. */
  function CallActions(cfg: Settings, id: CallId, request: Request, env: Environment, admitted: bool): seq<Action>
    requires Normalized(cfg)
  {
    EveryRequestAttempted(cfg.retry);
    var entry := [Arrive(id, request)] + [ReadEntryClock(id, env.entry)] + [Ask(id)];
    if admitted then entry + LoopActions(cfg, id, request, env, []) + ([ReadExitClock(id, env.exit)] + [Report(id)])
      else entry
  }

  lemma EntryRuns(cfg: Settings, s: System, id: CallId, request: Request, env: Environment)
    requires Normalized(cfg) && id !in s.calls
    ensures var entry := [Arrive(id, request)] + [ReadEntryClock(id, env.entry)] + [Ask(id)];
      && Can(cfg, s, entry)
      && var ok := AllowStep(s.breaker, env.entry).0;
      var t := After(cfg, s, entry);
      && t.log == s.log + [Entry(id, Admission(env.entry, ok))] && t.breaker == AllowStep(s.breaker, env.entry).1
      && (ok ==> AboutToSend(t, id, request, []) && t.calls[id].arrivals == 0)
      && (!ok ==> id in t.calls && t.calls[id] == Call(request, Returned(Err(CIRCUIT_OPEN)), false, [], false, 0))
  {
    OneStep(cfg, s, Arrive(id, request));
    var s1 := Apply(cfg, s, Arrive(id, request));
    OneStep(cfg, s1, ReadEntryClock(id, env.entry));
    InSequence(cfg, s, [Arrive(id, request)], [ReadEntryClock(id, env.entry)]);
    var s2 := Apply(cfg, s1, ReadEntryClock(id, env.entry));
    OneStep(cfg, s2, Ask(id));
    InSequence(cfg, s, [Arrive(id, request)] + [ReadEntryClock(id, env.entry)], [Ask(id)]);
  }

  lemma ExitRuns(cfg: Settings, s: System, id: CallId, request: Request, env: Environment, o: Outcome)
    requires Normalized(cfg) && LeftLoop(s, id, request, o) && o.answers != []
    ensures var exit := [ReadExitClock(id, env.exit)] + [Report(id)];
      && Can(cfg, s, exit)
      && var t := After(cfg, s, exit);
      && t.log == s.log + [Entry(id, Observation(env.exit, Verdict(o.answers, o.cancelled)))]
      && id in t.calls && t.calls[id] == Call(request, Returned(o.result), true, o.answers, o.cancelled,
        s.calls[id].arrivals)
  {
    OneStep(cfg, s, ReadExitClock(id, env.exit));
    var s1 := Apply(cfg, s, ReadExitClock(id, env.exit));
    OneStep(cfg, s1, Report(id));
    InSequence(cfg, s, [ReadExitClock(id, env.exit)], [Report(id)]);
  }

  /** What a call that was not interrupted has added to the log and how it ended: word for word what
      RemoteCall.Binding.Call promises. */
  ghost predicate EndsAsTheLoop(cfg: Settings, s: System, t: System, id: CallId, request: Request, env: Environment) {
    var h := Events(s.log);
    && id in t.calls
    && if Admits(cfg.breaker, h, env.entry) then
         && Attempts(cfg.retry, request) >= 1
         && var o := Settle(cfg.retry, request, env, []);
         && o.answers != []
         && Events(t.log) == h + [Admission(env.entry, true)] + [Observation(env.exit, Verdict(o.answers, o.cancelled))]
         && t.calls[id].stage == Returned(o.result) && t.calls[id].answers == o.answers
         && t.calls[id].arrivals == |o.answers| && t.calls[id].request == request
       else
         && Events(t.log) == h + [Admission(env.entry, false)]
         && t.calls[id].stage == Returned(Err(CIRCUIT_OPEN)) && t.calls[id].answers == []
  }

  lemma AdmittedCallRuns(cfg: Settings, s: System, id: CallId, request: Request, env: Environment)
    requires Normalized(cfg) && id !in s.calls && Represents(cfg.breaker, s.breaker, Events(s.log))
    requires AllowStep(s.breaker, env.entry).0
    ensures var actions := CallActions(cfg, id, request, env, true);
      Can(cfg, s, actions) && EndsAsTheLoop(cfg, s, After(cfg, s, actions), id, request, env)
  {
    hide Can, After, Settle, LoopActions, Attempts, Verdict, Events, Admits, AllowStep, Represents;
    hide Completed, Witnesses;
    EveryRequestAttempted(cfg.retry);
    AllowRefines(cfg.breaker, s.breaker, Events(s.log), env.entry);
    EntryRuns(cfg, s, id, request, env);
    var entry := [Arrive(id, request)] + [ReadEntryClock(id, env.entry)] + [Ask(id)];
    var t := After(cfg, s, entry);
    var loop := LoopActions(cfg, id, request, env, []);
    LoopRuns(cfg, t, id, request, env, []);
    InSequence(cfg, s, entry, loop);
    var u := After(cfg, t, loop);
    var o := Settle(cfg.retry, request, env, []);
    SettleCompletes(cfg.retry, request, env, []);
    ExitRuns(cfg, u, id, request, env, o);
    InSequence(cfg, s, entry + loop, [ReadExitClock(id, env.exit)] + [Report(id)]);
    EventsExtend(s.log, Entry(id, Admission(env.entry, true)));
    EventsExtend(t.log, Entry(id, Observation(env.exit, Verdict(o.answers, o.cancelled))));
  }

  /** In every reachable state a new call can run through without interruption, and then it does exactly
      what the verified call loop does, its effect on the breaker's history included. */
  lemma UninterruptedCallIsTheLoop(cfg: Settings, run: seq<Action>, id: CallId, request: Request, env: Environment)
    returns (actions: seq<Action>)
    requires Normalized(cfg) && Legal(cfg, run) && id !in Run(cfg, run).calls
    ensures Legal(cfg, run + actions)
    ensures EndsAsTheLoop(cfg, Run(cfg, run), Run(cfg, run + actions), id, request, env)
  {
    Safety(cfg, run);
    var s := Run(cfg, run);
    var admitted := AllowStep(s.breaker, env.entry).0;
    actions := CallActions(cfg, id, request, env, admitted);
    if admitted {
      AdmittedCallRuns(cfg, s, id, request, env);
    } else {
      AllowRefines(cfg.breaker, s.breaker, Events(s.log), env.entry);
      EntryRuns(cfg, s, id, request, env);
      EventsExtend(s.log, Entry(id, Admission(env.entry, false)));
    }
    RunExtends(cfg, run, actions);
  }

  // ---- how often a request may arrive ----

  /** In this run the call arrives at the server so many times. */
  ghost predicate Arrives(cfg: Settings, run: seq<Action>, id: CallId, request: Request, n: nat)
    requires Normalized(cfg)
  {
    && Legal(cfg, run) && id in Run(cfg, run).calls
    && Run(cfg, run).calls[id].request == request && Run(cfg, run).calls[id].arrivals == n
  }

  /** A network that loses every answer before the n-th, and then succeeds. */
  function LosesUntil(n: nat): Environment {
    Environment((i: nat) => if i + 1 == n then Answer(200, None) else Answer(0, Some(CIRCUIT_OPEN)), i => false, 0, 0)
  }

  lemma SettlesAt(retry: RetryPolicy, request: Request, n: nat)
    requires 1 <= n <= Attempts(retry, request)
    ensures |Settle(retry, request, LosesUntil(n), []).answers| == n
  {
    var env := LosesUntil(n);
    SettleCompletes(retry, request, env, []);
    var o := Settle(retry, request, env, []);
    EndsAtFirstStop(retry, request, env, o.answers, o.cancelled, o.result);
    assert Stops(retry, request, env, n - 1);
    assert Failed(env.answer(|o.answers| - 1)) <==> |o.answers| != n;
  }

  lemma ArrivesSoOften(cfg: Settings, request: Request, n: nat) returns (run: seq<Action>)
    requires Normalized(cfg) && n <= Attempts(cfg.retry, request)
    ensures Arrives(cfg, run, 0, request, n)
  {
    assert Legal(cfg, []) && Run(cfg, []) == INITIAL;
    if n == 0 {
      OneStep(cfg, INITIAL, Arrive(0, request));
      RunExtends(cfg, [], [Arrive(0, request)]);
      run := [] + [Arrive(0, request)];
    } else {
      SettlesAt(cfg.retry, request, n);
      run := UninterruptedCallIsTheLoop(cfg, [], 0, request, LosesUntil(n));
      assert [] + run == run;
      assert Admits(cfg.breaker, Events(INITIAL.log), 0);
    }
  }

  /** Replay safety, exactly: over all legal runs of any number of calls, reads and publications arrive up
      to MaxAttempts times and every other request at most once; and each such number does occur. */
  lemma ArrivalsExactly(cfg: Settings, request: Request, n: nat)
    requires Normalized(cfg)
    ensures (exists run, id :: Arrives(cfg, run, id, request, n)) <==>
      n <= if request.verb in {"GET", "HEAD", "OPTIONS"}
             || (request.verb == "POST" && request.path == "/notification/v1/events:publish") then cfg.retry.maxAttempts
           else 1
  {
    AttemptsExactly(cfg.retry, request);
    if n <= Attempts(cfg.retry, request) {
      var run := ArrivesSoOften(cfg, request, n);
    }
    if run, id :| Arrives(cfg, run, id, request, n) {
      Safety(cfg, run);
      AnswersBounded(cfg, Run(cfg, run).calls[id]);
    }
  }
}
