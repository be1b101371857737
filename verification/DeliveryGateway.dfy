/** The remote Delivery Gateway (deliverygateway/remote.go and gateway.go): a second retry loop, with linear backoff,
    retry on undecodable answers, and a receipt that must echo the request. */
module DeliveryGateway {
  import opened Text
  import opened Tables
  import P = Policies

  datatype Application = Application(workspaceID: string, applicationKey: string)

  datatype Request = Request(
    requestID: string,
    workspaceID: string,
    planID: string,
    eventID: string,
    channel: string,
    connectorKey: string,
    operation: string,
    dedupeKey: string,
    createdAt: string)

  datatype Receipt = Receipt(requestID: string, messageID: string)

  datatype Config = Config(baseURL: string, serviceCredential: string, requestTimeout: int, maxAttempts: int)

  datatype Address = Address(scheme: string, host: string)

  // ---- configuration ----

  function TrimSlashes(s: string): string {
    if s != "" && s[|s| - 1] == '/' then TrimSlashes(s[..|s| - 1]) else s
  }

  /** strings.TrimRight with a slash: s without the slashes at its end. */
  lemma {:induction false} TrimSlashesExactly(s: string) returns (slashes: string)
    ensures s == TrimSlashes(s) + slashes && forall c | c in slashes :: c == '/'
    ensures TrimSlashes(s) == "" || TrimSlashes(s)[|TrimSlashes(s)| - 1] != '/'
  {
    if s == "" || s[|s| - 1] != '/' {
      slashes := "";
    } else {
      var fewer := TrimSlashesExactly(s[..|s| - 1]);
      slashes := fewer + "/";
    }
  }

  /** The remote that a configuration gives, for any parser of URLs. */
  ghost predicate Configures(parse: string -> Option<Address>, c: Config, remote: Option<Config>) {
    var base := TrimSlashes(TrimSpace(c.baseURL));
    if parse(base).Some? && parse(base).value.scheme != "" && parse(base).value.host != ""
      && !Blank(c.serviceCredential) then
      && remote.Some? && remote.value.baseURL == base && remote.value.serviceCredential == c.serviceCredential
      && remote.value.requestTimeout > 0 && (c.requestTimeout > 0 ==> remote.value.requestTimeout == c.requestTimeout)
      && (c.requestTimeout <= 0 ==> remote.value.requestTimeout == 10_000_000_000)
      && remote.value.maxAttempts >= 1 && (c.maxAttempts > 0 ==> remote.value.maxAttempts == c.maxAttempts)
      && (c.maxAttempts <= 0 ==> remote.value.maxAttempts == 3)
    else remote.None?
  }

  method NewRemote(parse: string -> Option<Address>, config: Config) returns (remote: Option<Config>)
    ensures Configures(parse, config, remote)
  {
    var c := config.(baseURL := TrimSlashes(TrimSpace(config.baseURL)));
    var parsed := parse(c.baseURL);
    if parsed.None? || parsed.value.scheme == "" || parsed.value.host == "" || Blank(c.serviceCredential) {
      return None;
    }
    if c.requestTimeout <= 0 {
      c := c.(requestTimeout := 10 * P.SECOND);
    }
    if c.maxAttempts <= 0 {
      c := c.(maxAttempts := 3);
    }
    return Some(c);
  }

  // ---- one attempt ----

  datatype Fault = BuildFailed | TransportFailed | StatusRejected(status: int) | DecodeFailed

  /** What can happen to one attempt. The body of a success is a receipt, or is not one. */
  datatype Exchange =
    | Unbuildable
    | Unreachable
    | Response(status: int, body: Option<Receipt>)

  datatype Reply = Received(receipt: Receipt) | Fails(fault: Fault, retry: bool)

  function Perform(x: Exchange): Reply {
    match x
    case Unbuildable => Fails(BuildFailed, false)
    case Unreachable => Fails(TransportFailed, true)
    case Response(status, body) =>
      if status < 200 || status >= 300 then Fails(StatusRejected(status), status == 429 || status >= 500)
      else if body.None? then Fails(DecodeFailed, true)
      else Received(body.value)
  }

  predicate Retryable(x: Exchange) {
    Perform(x).Fails? && Perform(x).retry
  }

  /** Retried are exactly lost exchanges, 429, server errors, and successes that cannot be decoded. */
  lemma RetryableExactly(x: Exchange)
    ensures Retryable(x) <==>
      || x.Unreachable?
      || (x.Response? && (x.status == 429 || x.status >= 500))
      || (x.Response? && 200 <= x.status < 300 && x.body.None?)
  {
  }

  // ---- a finished dispatch ----

  datatype Error = ScopeInvalid | IdentityRequired | EncodeFailed | ReceiptMismatch | Rejected(fault: Fault) | Cancelled

  /** Nothing is the zero receipt without an error. */
  datatype Result = Delivered(receipt: Receipt) | Failed(error: Error) | Nothing

  /** The network and the caller's context: the exchange of each attempt and whether the wait after it is
      cancelled, both numbered from 0. */
  datatype Environment = Environment(exchange: nat -> Exchange, cancels: nat -> bool)

  predicate Matches(requestID: string, receipt: Receipt) {
    receipt.requestID == requestID && !Blank(receipt.messageID)
  }

  function Ended(requestID: string, reply: Reply): Result {
    match reply
    case Received(receipt) => if Matches(requestID, receipt) then Delivered(receipt) else Failed(ReceiptMismatch)
    case Fails(fault, _) => Failed(Rejected(fault))
  }

  /** A dispatch of a valid request that made n attempts, and whose last wait was or was not cut short,
      ends with this result. */
  ghost predicate Completed(maxAttempts: int, requestID: string, env: Environment, n: nat, cancelled: bool,
        result: Result) {
    && 1 <= n <= maxAttempts
    && (forall i | 0 <= i < n - 1 :: Retryable(env.exchange(i)) && !env.cancels(i))
    && var last := env.exchange(n - 1);
    if cancelled then
      Retryable(last) && n < maxAttempts && env.cancels(n - 1) && result == Failed(Cancelled)
    else
      (Retryable(last) ==> n == maxAttempts) && result == Ended(requestID, Perform(last))
  }

  predicate Stops(maxAttempts: int, env: Environment, i: nat) {
    !Retryable(env.exchange(i)) || i + 1 == maxAttempts || env.cancels(i)
  }

  /** There is only one way for a dispatch to end against a given network. */
  lemma CompletionIsUnique(maxAttempts: int, requestID: string, env: Environment,
      n: nat, cancelled: bool, result: Result, n': nat, cancelled': bool, result': Result)
    requires Completed(maxAttempts, requestID, env, n, cancelled, result)
    requires Completed(maxAttempts, requestID, env, n', cancelled', result')
    ensures n == n' && cancelled == cancelled' && result == result'
  {
    assert Stops(maxAttempts, env, n - 1) && Stops(maxAttempts, env, n' - 1);
    assert forall i: nat | i < n - 1 :: !Stops(maxAttempts, env, i);
    assert forall i: nat | i < n' - 1 :: !Stops(maxAttempts, env, i);
  }

  /** A receipt is returned only for an answer that decodes, echoes the request and names a message; every
      earlier attempt was a retryable failure, and there are at most MaxAttempts of them in all. */
  lemma ReceiptsAreEchoed(maxAttempts: int, requestID: string, env: Environment, n: nat, cancelled: bool,
        result: Result)
    requires Completed(maxAttempts, requestID, env, n, cancelled, result)
    ensures n <= maxAttempts && forall i | 0 <= i < n - 1 :: Retryable(env.exchange(i))
    ensures result.Delivered? <==>
      && !cancelled && env.exchange(n - 1).Response? && 200 <= env.exchange(n - 1).status < 300
      && env.exchange(n - 1).body.Some? && env.exchange(n - 1).body.value.requestID == requestID
      && !Blank(env.exchange(n - 1).body.value.messageID)
    ensures result.Delivered? ==> env.exchange(n - 1).body == Some(result.receipt)
    ensures !result.Nothing?
  {
  }

  /** Which failure is reported, from the last exchange. */
  lemma FailuresExactly(maxAttempts: int, requestID: string, env: Environment, n: nat, cancelled: bool, result: Result)
    requires Completed(maxAttempts, requestID, env, n, cancelled, result)
    ensures result == Failed(Cancelled) <==> cancelled
    ensures result == Failed(Rejected(TransportFailed)) <==> !cancelled && env.exchange(n - 1).Unreachable?
    ensures result == Failed(Rejected(BuildFailed)) <==> !cancelled && env.exchange(n - 1).Unbuildable?
    ensures forall status :: result == Failed(Rejected(StatusRejected(status))) <==>
      !cancelled && env.exchange(n - 1).Response? && env.exchange(n - 1).status == status && !(200 <= status < 300)
    ensures result == Failed(Rejected(DecodeFailed)) <==>
      && !cancelled && env.exchange(n - 1).Response? && 200 <= env.exchange(n - 1).status < 300
      && env.exchange(n - 1).body.None?
    ensures result == Failed(ReceiptMismatch) <==>
      && !cancelled && env.exchange(n - 1).Response? && 200 <= env.exchange(n - 1).status < 300
      && env.exchange(n - 1).body.Some?
      && (env.exchange(n - 1).body.value.requestID != requestID || Blank(env.exchange(n - 1).body.value.messageID))
  {
    hide Blank;
    var last := env.exchange(n - 1);
    assert cancelled ==> Retryable(last);
  }

  /** Time waited before attempt k: each wait is 100 ms longer than the one before. */
  function Backoff(k: nat): int {
    if k <= 1 then 0 else Backoff(k - 1) + (k - 1) * (100 * P.MILLISECOND)
  }

  lemma BackoffNext(k: nat)
    requires k >= 1
    ensures Backoff(k + 1) == Backoff(k) + k * (100 * P.MILLISECOND)
  {
  }

  /** k attempts have waited 50 * k * (k - 1) ms. */
  lemma {:induction false} BackoffIsQuadratic(k: nat)
    ensures Backoff(k) == 50 * k * (k - 1) * 1_000_000
  {
    if k <= 1 {
    } else {
      BackoffIsQuadratic(k - 1);
      Sum(k);
    }
  }

  lemma Sum(k: nat)
    requires k > 1
    ensures 50 * (k - 1) * (k - 2) * P.MILLISECOND + (k - 1) * (100 * P.MILLISECOND) == 50 * k * (k - 1) * P.MILLISECOND
  {
    assert 50 * (k - 1) * (k - 2) + 100 * (k - 1) == 50 * k * (k - 1);
  }

  // ---- the dispatch ----

  predicate ApplicationValid(a: Application) {
    !Blank(a.workspaceID) && !Blank(a.applicationKey)
  }

  predicate RequestValid(r: Request, a: Application) {
    && !Blank(r.requestID) && !Blank(r.planID) && !Blank(r.eventID) && TrimSpace(r.workspaceID) == a.workspaceID
    && !Blank(r.channel) && !Blank(r.connectorKey) && !Blank(r.operation) && !Blank(r.dedupeKey) && !Blank(r.createdAt)
  }

  /** What is wrong with a request before anything is sent. encoded is the JSON body, when there is one. */
  function Refusal(r: Request, a: Application, encoded: Option<string>): Option<Error> {
    if !ApplicationValid(a) then Some(ScopeInvalid)
    else if !RequestValid(r, a) then Some(IdentityRequired)
    else if encoded.None? then Some(EncodeFailed)
    else None
  }

  /** What is checked before anything is sent, in order. Identities may have white space around them; the
      workspace must be the application's once trimmed. */
  ghost function RequestChecks(r: Request, a: Application, encoded: Option<string>): seq<Line<Error>> {
    [ Line(!Blank(a.workspaceID) && !Blank(a.applicationKey), ScopeInvalid),
      Line("" !in [TrimSpace(r.requestID), TrimSpace(r.planID), TrimSpace(r.eventID), TrimSpace(r.channel),
          TrimSpace(r.connectorKey), TrimSpace(r.operation), TrimSpace(r.dedupeKey), TrimSpace(r.createdAt)]
        && TrimSpace(r.workspaceID) == a.workspaceID, IdentityRequired),
      Line(encoded.Some?, EncodeFailed) ]
  }

  /** A request is refused for the first line of the table that it does not meet. */
  lemma RequestTable(r: Request, a: Application, encoded: Option<string>)
    ensures Decides(RequestChecks(r, a, encoded), Refusal(r, a, encoded))
  {
    hide TrimSpace;
    var checks := RequestChecks(r, a, encoded);
    if !ApplicationValid(a) {
      assert FailsFirst(checks, 0);
    } else if !RequestValid(r, a) {
      assert FailsFirst(checks, 1);
    } else if encoded.None? {
      assert FailsFirst(checks, 2);
    }
  }

  method ValidateRequest(r: Request, a: Application) returns (err: Option<Error>)
    ensures err == Refusal(r, a, Some(""))
  {
    if Blank(a.workspaceID) || Blank(a.applicationKey) {
      return Some(ScopeInvalid);
    }
    if Blank(r.requestID) || Blank(r.planID) || Blank(r.eventID) || TrimSpace(r.workspaceID) != a.workspaceID
       || Blank(r.channel) || Blank(r.connectorKey) || Blank(r.operation) || Blank(r.dedupeKey) || Blank(r.createdAt) {
      return Some(IdentityRequired);
    }
    return None;
  }

  /** The first n attempts have failed, retryably, and none of the waits after them was cancelled. */
  ghost predicate Underway(env: Environment, n: nat) {
    forall i | 0 <= i < n :: Retryable(env.exchange(i)) && !env.cancels(i)
  }

  lemma EndsAfter(maxAttempts: int, requestID: string, env: Environment, n: nat)
    requires Underway(env, n) && n < maxAttempts
    ensures !Retryable(env.exchange(n)) || n + 1 == maxAttempts ==>
      Completed(maxAttempts, requestID, env, n + 1, false, Ended(requestID, Perform(env.exchange(n))))
    ensures Retryable(env.exchange(n)) && n + 1 < maxAttempts && env.cancels(n) ==>
      Completed(maxAttempts, requestID, env, n + 1, true, Failed(Cancelled))
    ensures Retryable(env.exchange(n)) && !env.cancels(n) ==> Underway(env, n + 1)
  {
  }

  /** With the attempts NewRemote allows, the loop always returns from inside; its trailing return would be
      reached, with nothing sent, only for MaxAttempts < 1. */
  method Dispatch(config: Config, a: Application, request: Request, encoded: Option<string>, env: Environment)
    returns (result: Result, sent: seq<string>, waited: int, cancelled: bool)
    ensures Refusal(request, a, encoded).Some? ==> result == Failed(Refusal(request, a, encoded).value) && sent == []
    ensures Refusal(request, a, encoded).None? ==>
      && (forall s | s in sent :: encoded == Some(s))
      && (config.maxAttempts >= 1 ==> Completed(config.maxAttempts, request.requestID, env, |sent|, cancelled, result))
      && (config.maxAttempts < 1 ==> result == Nothing && sent == [])
    ensures waited == Backoff(|sent| + if cancelled then 1 else 0)
  {
    var invalid := ValidateRequest(request, a);
    if invalid.Some? {
      return Failed(invalid.value), [], 0, false;
    }
    if encoded.None? {
      return Failed(EncodeFailed), [], 0, false;
    }
    hide Completed, Perform;
    result, sent, waited, cancelled := Send(config.maxAttempts, request.requestID, encoded.value, env);
  }

  /** The dispatch loop. */
  method Send(maxAttempts: int, requestID: string, body: string, env: Environment)
    returns (result: Result, sent: seq<string>, waited: int, cancelled: bool)
    ensures forall s | s in sent :: s == body
    ensures if maxAttempts >= 1 then Completed(maxAttempts, requestID, env, |sent|, cancelled, result)
      else result == Nothing && sent == []
    ensures waited == Backoff(|sent| + if cancelled then 1 else 0)
  {
    sent, waited, cancelled := [], 0, false;
    assert Underway(env, 0);
    hide Completed, Underway, Blank, Perform;
    var last := Nothing;
    var attempt := 1;
    while attempt <= maxAttempts
      invariant attempt == |sent| + 1 && !cancelled
      invariant maxAttempts >= 1 ==> attempt <= maxAttempts
      invariant maxAttempts < 1 ==> last == Nothing && sent == []
      invariant Underway(env, |sent|)
      invariant forall s | s in sent :: s == body
      invariant waited == Backoff(attempt)
    {
      hide Backoff;
      EndsAfter(maxAttempts, requestID, env, attempt - 1);
      BackoffNext(attempt);
      var reply := Perform(env.exchange(attempt - 1));
      sent := sent + [body];
      if reply.Received? {
        if reply.receipt.requestID != requestID || Blank(reply.receipt.messageID) {
          return Failed(ReceiptMismatch), sent, waited, cancelled;
        }
        return Delivered(reply.receipt), sent, waited, cancelled;
      }
      last := Failed(Rejected(reply.fault));
      if !reply.retry || attempt == maxAttempts {
        return Failed(Rejected(reply.fault)), sent, waited, cancelled;
      }
      waited := waited + attempt * (100 * P.MILLISECOND);
      if env.cancels(attempt - 1) {
        return Failed(Cancelled), sent, waited, true;
      }
      attempt := attempt + 1;
    }
    return last, sent, waited, cancelled;
  }

  /** A request is only ever sent for a workspace whose id has no white space around it. */
  lemma AcceptedScope(r: Request, a: Application, encoded: Option<string>)
    requires Refusal(r, a, encoded).None?
    ensures Trimmed(a.workspaceID) && a.workspaceID != ""
  {
    TrimIdempotent(r.workspaceID);
  }
}
