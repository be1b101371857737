/** The service-token cache of remote/factory.go 195-215. The lock is held for the whole call, so a call
    is one step; its two clock readings are arguments, and the issuer's answer is whatever it is. */
module TokenCache {
  import opened Text
  import opened Policies
  import opened Spacing

  datatype Grant = Grant(resource: string, action: string)

  datatype Token = Token(accessToken: string, expiresAt: int)

  datatype Exchange = Issued(token: Token) | Refused(code: string)

  datatype Result = Success(accessToken: string) | Failure(code: string)

  const TOKEN_INVALID := "notification.identity_service_token_invalid"
  const MARGIN := 30 * SECOND

  function Key(grant: Grant): string {
    Join(grant.resource, NUL, grant.action)
  }

  /** One use of the cache: asked tells whether the issuer was consulted. */
  datatype Use = Use(grant: Grant, now: Time, later: Time, answer: Exchange, asked: bool)

  predicate Acceptable(answer: Exchange, later: Time) {
    answer.Issued? && !Blank(answer.token.accessToken) && answer.token.expiresAt > later
  }

  /** The token of the last accepted exchange made under this key. */
  function Current(h: seq<Use>, key: string): Option<Token> {
    if h == [] then None
    else
      var u := h[|h| - 1];
      if u.asked && Key(u.grant) == key && Acceptable(u.answer, u.later) then Some(u.answer.token)
      else Current(h[..|h| - 1], key)
  }

  predicate Fresh(token: Option<Token>, now: Time) {
    token.Some? && token.value.expiresAt > now + MARGIN
  }

  /** What a use returns, given the uses before it. */
  function Reply(h: seq<Use>, u: Use): Result
    requires u.asked == !Fresh(Current(h, Key(u.grant)), u.now)
  {
    if !u.asked then Success(Current(h, Key(u.grant)).value.accessToken)
    else match u.answer
      case Refused(code) => Failure(code)
      case Issued(token) => if Acceptable(u.answer, u.later) then Success(token.accessToken) else Failure(TOKEN_INVALID)
  }

  /** The issuer was consulted exactly when no fresh token was held. */
  ghost predicate Faithful(h: seq<Use>) {
    forall i | 0 <= i < |h| :: h[i].asked == !Fresh(Current(h[..i], Key(h[i].grant)), h[i].now)
  }

  lemma {:induction false} CurrentIsUsable(h: seq<Use>, key: string)
    ensures Current(h, key).Some? ==> !Blank(Current(h, key).value.accessToken)
  {
    if h == [] {
    } else {
      CurrentIsUsable(h[..|h| - 1], key);
    }
  }

  lemma FaithfulNext(h: seq<Use>, u: Use)
    requires Faithful(h) && u.asked == !Fresh(Current(h, Key(u.grant)), u.now)
    ensures Faithful(h + [u])
  {
    hide Fresh, Current, Key;
    var longer := h + [u];
    assert longer[..|h|] == h;
    assert forall i | 0 <= i < |h| :: longer[..i] == h[..i];
  }

  lemma CurrentNext(h: seq<Use>, u: Use)
    ensures forall key ::
      Current(h + [u], key) ==
        if u.asked && Key(u.grant) == key && Acceptable(u.answer, u.later) then Some(u.answer.token)
        else Current(h, key)
  {
    assert (h + [u])[..|h|] == h;
  }

  class Credentials {
    const hasIssuer: bool
    const serviceCredential: string
    var cachedTokens: map<string, Token>
    ghost var history: seq<Use>

    ghost predicate Valid()
      reads this
    {
      && Faithful(history)
      && forall key :: Current(history, key) == if key in cachedTokens then Some(cachedTokens[key]) else None
    }

    constructor (hasIssuer: bool, serviceCredential: string)
      ensures Valid() && history == [] && this.hasIssuer == hasIssuer && this.serviceCredential == serviceCredential
    {
      this.hasIssuer, this.serviceCredential := hasIssuer, serviceCredential;
      cachedTokens, history := map[], [];
    }

    method ServiceToken(grant: Grant, now: Time, later: Time, answer: Exchange) returns (result: Result)
      requires Valid()
      modifies this
      ensures Valid()
      ensures !hasIssuer ==>
        && result == Success(TrimSpace(serviceCredential))
        && history == old(history) && cachedTokens == old(cachedTokens)
      ensures hasIssuer ==>
        var u := Use(grant, now, later, answer, !Fresh(Current(old(history), Key(grant)), now));
        history == old(history) + [u] && result == Reply(old(history), u)
      ensures result.Failure? ==> cachedTokens == old(cachedTokens)
    {
      if !hasIssuer {
        return Success(TrimSpace(serviceCredential));
      }
      var key := grant.resource + [NUL] + grant.action;
      ghost var before := history;
      ghost var asked := !Fresh(Current(history, key), now);
      ghost var use := Use(grant, now, later, answer, asked);
      FaithfulNext(before, use);
      CurrentNext(before, use);
      CurrentIsUsable(before, key);
      hide Faithful, Current, TrimSpace;
      history := history + [use];
      if key in cachedTokens && !Blank(cachedTokens[key].accessToken) && cachedTokens[key].expiresAt > now + MARGIN {
        return Success(cachedTokens[key].accessToken);
      }
      match answer
      case Refused(code) =>
        return Failure(code);
      case Issued(token) =>
        if Blank(token.accessToken) || !(token.expiresAt > later) {
          return Failure(TOKEN_INVALID);
        }
        cachedTokens := cachedTokens[key := token];
        return Success(token.accessToken);
    }
  }

  // ---- agreement with the issuer ----

  /** Neither resource is the other one followed by a NUL and more. */
  predicate Apart(r: string, r': string) {
    !(r + [NUL] <= r') && !(r' + [NUL] <= r)
  }

  ghost predicate ResourcesApart(h: seq<Use>) {
    forall i, j | 0 <= i < |h| && 0 <= j < |h| :: Apart(h[i].grant.resource, h[j].grant.resource)
  }

  lemma KeyDetermines(g: Grant, g': Grant)
    requires Apart(g.resource, g'.resource) && Key(g) == Key(g')
    ensures g == g'
  {
    JoinInjective(g.resource, g.action, g'.resource, g'.action, NUL);
  }

  /** A current token comes from the last accepted exchange under its key. */
  lemma {:induction false} CurrentHasSource(h: seq<Use>, key: string) returns (j: nat)
    requires Current(h, key).Some?
    ensures j < |h| && h[j].asked && Key(h[j].grant) == key && Acceptable(h[j].answer, h[j].later)
    ensures h[j].answer.token == Current(h, key).value
    ensures forall k | j < k < |h| && h[k].asked && Key(h[k].grant) == key :: !Acceptable(h[k].answer, h[k].later)
  {
    var n := |h| - 1;
    if h[n].asked && Key(h[n].grant) == key && Acceptable(h[n].answer, h[n].later) {
      j := n;
    } else {
      j := CurrentHasSource(h[..n], key);
    }
  }

  /** Every token handed out is one the issuer issued for exactly the requested grant, is not blank, and
      is the newest accepted one; a token served from the cache has more than 30 s left, a new one has
      not expired. */
  lemma TokenAgreesWithIssuer(h: seq<Use>, i: nat) returns (j: nat)
    requires Faithful(h) && ResourcesApart(h) && i < |h|
    requires Reply(h[..i], h[i]).Success?
    ensures j <= i && h[j].asked && h[j].grant == h[i].grant && h[j].answer.Issued?
    ensures var token := h[j].answer.token;
      && Reply(h[..i], h[i]) == Success(token.accessToken) && !Blank(token.accessToken)
      && (h[i].asked <==> j == i)
      && (h[i].asked ==> token.expiresAt > h[i].later)
      && (!h[i].asked ==> token.expiresAt > h[i].now + MARGIN)
      && (forall k | j < k < i && h[k].asked && h[k].grant == h[i].grant :: !Acceptable(h[k].answer, h[k].later))
  {
    if h[i].asked {
      j := i;
    } else {
      var past, grant := h[..i], h[i].grant;
      j := CurrentHasSource(past, Key(grant));
      KeyDetermines(h[j].grant, grant);
      forall k | j < k < i && h[k].asked && h[k].grant == grant ensures !Acceptable(h[k].answer, h[k].later) {
        assert past[k] == h[k] && Key(past[k].grant) == Key(grant);
      }
    }
  }

  /** Use j asked the issuer under this key and was given a token that is not blank and had not expired. */
  predicate Granted(h: seq<Use>, key: string, j: nat) {
    && j < |h| && h[j].asked && h[j].grant.resource + "\0" + h[j].grant.action == key && h[j].answer.Issued?
    && TrimSpace(h[j].answer.token.accessToken) != "" && h[j].later < h[j].answer.token.expiresAt
  }

  lemma GrantedExactly(h: seq<Use>, key: string, j: nat)
    ensures Granted(h, key, j) <==>
      j < |h| && h[j].asked && Key(h[j].grant) == key && Acceptable(h[j].answer, h[j].later)
  {
  }

  lemma {:induction false} CurrentIsGranted(h: seq<Use>, key: string, j: nat)
    requires Granted(h, key, j) && forall k: nat | j < k < |h| :: !Granted(h, key, k)
    ensures Current(h, key) == Some(h[j].answer.token)
  {
    GrantedExactly(h, key, |h| - 1);
    if j == |h| - 1 {
    } else {
      var rest := h[..|h| - 1];
      assert rest[j] == h[j];
      forall k: nat | j < k < |rest| ensures !Granted(rest, key, k) {
        assert rest[k] == h[k] && !Granted(h, key, k);
      }
      CurrentIsGranted(rest, key, j);
    }
  }

  lemma LastGrantedOnce(h: seq<Use>, key: string, i: nat, j: nat, k: nat)
    requires j < i && Granted(h, key, j) && forall l: nat | j < l < i :: !Granted(h, key, l)
    requires k < i && Granted(h, key, k) && forall l: nat | k < l < i :: !Granted(h, key, l)
    ensures j == k
  {
  }

  /** The issuer is asked exactly when it has granted no token under the key before, or the last one it
      granted has 30 s or less to live. */
  lemma AskedExactly(h: seq<Use>, i: nat)
    requires Faithful(h) && i < |h|
    ensures var key := h[i].grant.resource + "\0" + h[i].grant.action;
      h[i].asked <==> forall j: nat |
        j < i && Granted(h, key, j) && (forall k: nat | j < k < i :: !Granted(h, key, k)) ::
          h[j].answer.token.expiresAt <= h[i].now + 30_000_000_000
  {
    var past, key := h[..i], Key(h[i].grant);
    assert key == h[i].grant.resource + "\0" + h[i].grant.action;
    assert forall j: nat | j < i :: Granted(past, key, j) <==> Granted(h, key, j);
    if Current(past, key).Some? {
      var j := CurrentHasSource(past, key);
      forall k: nat | j <= k < i ensures Granted(h, key, k) <==> k == j {
        GrantedExactly(past, key, k);
      }
      forall k: nat | k < i && Granted(h, key, k) && (forall l: nat | k < l < i :: !Granted(h, key, l)) ensures k == j {
        LastGrantedOnce(h, key, i, j, k);
      }
    } else {
      forall j: nat | j < i ensures !(Granted(h, key, j) && forall k: nat | j < k < i :: !Granted(h, key, k)) {
        if Granted(h, key, j) && forall k: nat | j < k < i :: !Granted(h, key, k) {
          CurrentIsGranted(past, key, j);
        }
      }
    }
  }

  /** What a use that asks the issuer returns: the token, the issuer's own refusal, or that the token is
      blank or has expired. */
  lemma RepliesExactly(h: seq<Use>, u: Use)
    requires u.asked == !Fresh(Current(h, Key(u.grant)), u.now) && u.asked
    ensures u.answer.Refused? ==> Reply(h, u) == Failure(u.answer.code)
    ensures u.answer.Issued? ==>
      var token := u.answer.token;
      Reply(h, u) ==
        if AllSpace(token.accessToken) || token.expiresAt <= u.later then
          Failure("notification.identity_service_token_invalid")
        else Success(token.accessToken)
  {
    if u.answer.Issued? {
      BlankExactly(u.answer.token.accessToken);
    }
  }

  ghost predicate KeysApart(resources: set<string>) {
    forall g: Grant, g': Grant | g.resource in resources && g'.resource in resources && Key(g) == Key(g') :: g == g'
  }

  lemma NulFreeSeparated(resources: set<string>)
    requires forall r | r in resources :: NUL !in r
    ensures Separated(resources, NUL)
  {
    forall a, c | a in resources && c in resources ensures !(a + [NUL] <= c) {
      NoSeparator(a, c, NUL);
    }
  }

  /** The keys of all grants on these resources are distinct exactly when no resource is another one
      followed by a NUL and more. */
  lemma KeysApartExactly(resources: set<string>)
    ensures KeysApart(resources) <==> Separated(resources, NUL)
    ensures (forall r | r in resources :: NUL !in r) ==> Separated(resources, NUL)
  {
    JoinsApartExactly(resources, NUL);
    if forall r | r in resources :: NUL !in r {
      NulFreeSeparated(resources);
    }
    if KeysApart(resources) {
      forall a, b, c, d | a in resources && c in resources && Join(a, NUL, b) == Join(c, NUL, d)
        ensures a == c && b == d
      {
        assert Key(Grant(a, b)) == Key(Grant(c, d));
      }
    }
  }

  predicate Over(h: seq<Use>, resources: set<string>) {
    forall i | 0 <= i < |h| :: h[i].grant.resource in resources
  }

  /** What use i hands out was issued, in it or in an earlier use, for the grant it asked for. */
  ghost predicate IssuedForGrant(h: seq<Use>, i: nat)
    requires i < |h| && Faithful(h)
  {
    Reply(h[..i], h[i]).Success? ==>
      exists j | 0 <= j <= i ::
        && h[j].asked && h[j].grant == h[i].grant && h[j].answer.Issued?
        && Reply(h[..i], h[i]) == Success(h[j].answer.token.accessToken)
  }

  /** Every token handed out over these resources was issued for the grant that asked. */
  ghost predicate AgreesOver(resources: set<string>) {
    forall h: seq<Use>, i: nat | i < |h| && Faithful(h) && Over(h, resources) :: IssuedForGrant(h, i)
  }

  lemma SeparatedAgrees(resources: set<string>, h: seq<Use>, i: nat)
    requires Separated(resources, NUL) && Faithful(h) && Over(h, resources) && i < |h|
    ensures IssuedForGrant(h, i)
  {
    forall k, l | 0 <= k < |h| && 0 <= l < |h| ensures Apart(h[k].grant.resource, h[l].grant.resource) {
      assert h[k].grant.resource in resources && h[l].grant.resource in resources;
    }
    if Reply(h[..i], h[i]).Success? {
      var j := TokenAgreesWithIssuer(h, i);
    }
  }

  /** Two grants with one key: a token issued for the first is served for the second. */
  lemma SharedKey(a: Grant, b: Grant)
    requires a != b && Key(a) == Key(b)
    ensures var h := [Use(a, 0, 0, Issued(Token("t", MARGIN + 1)), true), Use(b, 0, 0, Refused(""), false)];
      Faithful(h) && Reply(h[..1], h[1]) == Success("t") && !IssuedForGrant(h, 1)
  {
    var h := [Use(a, 0, 0, Issued(Token("t", MARGIN + 1)), true), Use(b, 0, 0, Refused(""), false)];
    TrimOfTrimmed("t");
    assert h[..0] == [] && h[..1] == [h[0]] && h[..1][..0] == [];
    assert Current(h[..1], Key(b)) == Some(Token("t", MARGIN + 1));
  }

  /** The cache agrees with the issuer, in every history over these resources, exactly when no resource is
      another one followed by a NUL and more. Without NULs it always does. */
  lemma AgreementExactly(resources: set<string>)
    ensures AgreesOver(resources) <==> Separated(resources, NUL)
    ensures (forall r | r in resources :: NUL !in r) ==> AgreesOver(resources)
  {
    if forall r | r in resources :: NUL !in r {
      NulFreeSeparated(resources);
    }
    if Separated(resources, NUL) {
      forall h: seq<Use>, i: nat | i < |h| && Faithful(h) && Over(h, resources) ensures IssuedForGrant(h, i) {
        SeparatedAgrees(resources, h, i);
      }
    } else {
      var r, r' :| r in resources && r' in resources && r + [NUL] <= r';
      var x, y := JoinCollision(r, r', NUL);
      var a, b := Grant(r, x), Grant(r', y);
      SharedKey(a, b);
      var h := [Use(a, 0, 0, Issued(Token("t", MARGIN + 1)), true), Use(b, 0, 0, Refused(""), false)];
      assert Over(h, resources) && !IssuedForGrant(h, 1);
    }
  }

  // ---- how often the issuer is asked ----

  predicate Asks(h: seq<Use>, key: string, i: nat) {
    i < |h| && h[i].asked && Key(h[i].grant) == key
  }

  /** Between these positions every exchange for this key is accepted and its token lives at least this
      long after the call began. */
  ghost predicate Lifetimes(h: seq<Use>, key: string, from: nat, upto: nat, lifetime: int)
    requires from <= upto <= |h|
  {
    forall i | from <= i < upto && Asks(h, key, i) ::
      Acceptable(h[i].answer, h[i].later) && h[i].answer.token.expiresAt >= h[i].now + lifetime
  }

  /** Two consecutive exchanges for a key, whatever the clock does between or around them. */
  lemma NextExchange(h: seq<Use>, key: string, i: nat, j: nat, lifetime: int)
    requires Faithful(h) && i < j && Asks(h, key, i) && Asks(h, key, j)
    requires forall k | i < k < j :: !Asks(h, key, k)
    requires Acceptable(h[i].answer, h[i].later) && h[i].answer.token.expiresAt >= h[i].now + lifetime
    ensures h[i].now + (lifetime - MARGIN) <= h[j].now
  {
    var past := h[..j];
    CurrentAfter(past, key, i);
    var k := CurrentHasSource(past, key);
    assert past[i] == h[i] && Asks(h, key, k);
  }

  /** Any two exchanges for a key are lifetime - 30 s apart, when tokens outlive the margin. */
  lemma {:induction false} ExchangesSpaced(h: seq<Use>, key: string, i: nat, j: nat, lifetime: int)
    requires Faithful(h) && i < j && Asks(h, key, i) && Asks(h, key, j)
    requires Lifetimes(h, key, i, j, lifetime) && lifetime > MARGIN
    ensures h[i].now + (lifetime - MARGIN) <= h[j].now
    decreases j - i
  {
    if k :| i < k < j && Asks(h, key, k) {
      ExchangesSpaced(h, key, i, k, lifetime);
      ExchangesSpaced(h, key, k, j, lifetime);
    } else {
      NextExchange(h, key, i, j, lifetime);
    }
  }

  lemma {:induction false} CurrentAfter(h: seq<Use>, key: string, i: nat)
    requires Asks(h, key, i) && Acceptable(h[i].answer, h[i].later)
    ensures Current(h, key).Some?
  {
    if i == |h| - 1 {
    } else {
      CurrentAfter(h[..|h| - 1], key, i);
    }
  }

  function Exchanges(h: seq<Use>, key: string, from: nat, upto: nat): (r: seq<nat>)
    requires from <= upto <= |h|
    ensures forall n | 0 <= n < |r| :: from <= r[n] < upto && Asks(h, key, r[n])
    ensures forall m, n | 0 <= m < n < |r| :: r[m] < r[n]
    ensures forall i: nat | from <= i < upto && Asks(h, key, i) :: i in r
    decreases upto
  {
    if from == upto then []
    else
      var r := Exchanges(h, key, from, upto - 1);
      if Asks(h, key, upto - 1) then r + [upto - 1] else r
  }

  function Stamp(use: Use): Time {
    use.now
  }

  lemma ExchangeStamps(h: seq<Use>, key: string, from: nat, upto: nat, lifetime: int, gap: int)
    requires Faithful(h) && from <= upto <= |h| && Lifetimes(h, key, from, upto, lifetime)
    requires gap == lifetime - MARGIN > 0
    ensures Spaced(StampsAt(h, Stamp, Exchanges(h, key, from, upto)), gap)
  {
    var r := Exchanges(h, key, from, upto);
    var stamps := StampsAt(h, Stamp, r);
    forall n | 0 < n < |stamps| ensures stamps[n - 1] + gap <= stamps[n] {
      ExchangesSpaced(h, key, r[n - 1], r[n], lifetime);
    }
  }

  /** If every exchange for a key yields a token that lives longer than the margin, at most
      window / (lifetime - 30 s) + 1 of them fall into any window of time. The clock may step back. */
  lemma ExchangeRate(h: seq<Use>, key: string, from: nat, upto: nat, start: int, window: nat, lifetime: int)
    requires Faithful(h) && from <= upto <= |h|
    requires Lifetimes(h, key, from, upto, lifetime) && lifetime > MARGIN
    requires forall i | from <= i < upto && Asks(h, key, i) :: start <= h[i].now <= start + window
    ensures |Exchanges(h, key, from, upto)| <= window / (lifetime - MARGIN) + 1
  {
    var gap := lifetime - MARGIN;
    ExchangeStamps(h, key, from, upto, lifetime, gap);
    SpacedCount(StampsAt(h, Stamp, Exchanges(h, key, from, upto)), gap, start, window);
  }
}

/** The grants a call can ask for (service_authority.go 14-76). */
module ServiceGrants {
  import opened Text
  import opened TokenCache

  const RESOURCES: set<string> := {
    "notification_service", "notification_event", "notification_inbox", "notification_template",
    "notification_publication", "notification_delivery_policy", "notification_preference", "notification_governance"
  }

  predicate NulFree(s: string) {
    NUL !in s
  }

  lemma ServiceEventInbox()
    ensures NulFree("notification_service") && NulFree("notification_event") && NulFree("notification_inbox")
  {
  }

  lemma TemplatePublication()
    ensures NulFree("notification_template") && NulFree("notification_publication")
  {
  }

  lemma PolicyPreferenceGovernance()
    ensures NulFree("notification_delivery_policy") && NulFree("notification_preference")
    ensures NulFree("notification_governance")
  {
  }

  lemma ResourcesNulFree(r: string)
    requires r in RESOURCES
    ensures NulFree(r)
  {
    ServiceEventInbox();
    TemplatePublication();
    PolicyPreferenceGovernance();
    hide NulFree;
  }

  /** Over the resources of this system every token handed out was issued for the grant that asked. */
  lemma SystemGrantsAgree()
    ensures AgreesOver(RESOURCES)
  {
    hide AgreesOver;
    forall r | r in RESOURCES ensures NUL !in r {
      ResourcesNulFree(r);
    }
    AgreementExactly(RESOURCES);
  }
}
