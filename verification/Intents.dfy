/** What a producer may ask for (contract/validation.go 19-49). */
module Intents {
  import opened Text
  import opened Tables
  import opened Enumerations

  datatype Intent = Intent(
    id: string,
    workspaceID: string,
    sourceEventID: string,
    eventType: string,
    occurredAt: string,
    subjectType: string,
    subjectID: string,
    subjectVersion: string,
    recipientUserIDs: seq<string>,
    audienceResolverKeys: seq<string>)

  datatype Error = ScopeRequired | IdentityRequired | SubjectRequired | AudienceRequired | AudienceTooLarge

  const MAXIMUM_EXPLICIT_RECIPIENTS := 500

  predicate ScopeOk(v: Intent) {
    !Blank(v.workspaceID)
  }

  predicate IdentityOk(v: Intent) {
    !Blank(v.id) && !Blank(v.sourceEventID) && !Blank(v.eventType) && !Blank(v.occurredAt)
  }

  /** No subject at all, or its type, id and version together. */
  predicate SubjectOk(v: Intent) {
    (Blank(v.subjectType) && Blank(v.subjectID))
      || (!Blank(v.subjectType) && !Blank(v.subjectID) && !Blank(v.subjectVersion))
  }

  /** The trimmed recipients. */
  function Recipients(v: Intent): seq<string> {
    Trims(v.recipientUserIDs)
  }

  function Trims(s: seq<string>): seq<string> {
    seq(|s|, i requires 0 <= i < |s| => TrimSpace(s[i]))
  }

  predicate Addressed(v: Intent) {
    v.recipientUserIDs != [] || v.audienceResolverKeys != []
  }

  ghost predicate RecipientsOk(v: Intent) {
    "" !in Recipients(v) && Distinct(Recipients(v))
  }

  /** The answer. Nothing in it looks at the order of the recipients or at the space around them. */
  ghost function Verdict(v: Intent): Option<Error> {
    if !ScopeOk(v) then Some(ScopeRequired)
    else if !IdentityOk(v) then Some(IdentityRequired)
    else if !SubjectOk(v) then Some(SubjectRequired)
    else if !Addressed(v) then Some(AudienceRequired)
    else if |v.recipientUserIDs| > MAXIMUM_EXPLICIT_RECIPIENTS then Some(AudienceTooLarge)
    else if RecipientsOk(v) then None
    else Some(AudienceRequired)
  }

  /** seen holds the first n trimmed recipients, and they are in order. */
  ghost predicate Accepted(v: Intent, n: nat, seen: set<string>)
    requires n <= |v.recipientUserIDs|
  {
    && (forall x :: x in seen <==> x in Recipients(v)[..n])
    && "" !in seen && Distinct(Recipients(v)[..n])
  }

  lemma AcceptedNext(v: Intent, n: nat, seen: set<string>)
    requires n < |v.recipientUserIDs| && Accepted(v, n, seen)
    ensures Recipients(v)[n] == "" || Recipients(v)[n] in seen ==> !RecipientsOk(v)
    ensures Recipients(v)[n] != "" && Recipients(v)[n] !in seen ==> Accepted(v, n + 1, seen + {Recipients(v)[n]})
  {
    hide Recipients;
    var s := Recipients(v);
    LengthOf(v);
    assert s[..n + 1] == s[..n] + [s[n]];
    if s[n] in seen {
      var j :| 0 <= j < n && s[..n][j] == s[n];
      assert s[j] == s[n];
    }
  }

  lemma LengthOf(v: Intent)
    ensures |Recipients(v)| == |v.recipientUserIDs|
  {
  }

  lemma AcceptedAll(v: Intent, seen: set<string>)
    requires Accepted(v, |v.recipientUserIDs|, seen)
    ensures RecipientsOk(v)
  {
    assert Recipients(v)[..|v.recipientUserIDs|] == Recipients(v);
  }

  method ValidateAudience(v: Intent) returns (err: Option<Error>)
    ensures err == if RecipientsOk(v) then None else Some(AudienceRequired)
  {
    var seen: set<string> := {};
    var i := 0;
    while i < |v.recipientUserIDs|
      invariant 0 <= i <= |v.recipientUserIDs|
      invariant Accepted(v, i, seen)
    {
      var recipient := TrimSpace(v.recipientUserIDs[i]);
      AcceptedNext(v, i, seen);
      if recipient == "" {
        return Some(AudienceRequired);
      }
      if recipient in seen {
        return Some(AudienceRequired);
      }
      seen := seen + {recipient};
      i := i + 1;
    }
    AcceptedAll(v, seen);
    return None;
  }

  method Validate(v: Intent) returns (err: Option<Error>)
    ensures err == Verdict(v)
  {
    hide RecipientsOk;
    if Blank(v.workspaceID) {
      return Some(ScopeRequired);
    }
    if Blank(v.id) || Blank(v.sourceEventID) || Blank(v.eventType) || Blank(v.occurredAt) {
      return Some(IdentityRequired);
    }
    if Blank(v.subjectType) != Blank(v.subjectID) || (!Blank(v.subjectID) && Blank(v.subjectVersion)) {
      return Some(SubjectRequired);
    }
    if |v.recipientUserIDs| == 0 && |v.audienceResolverKeys| == 0 {
      return Some(AudienceRequired);
    }
    if |v.recipientUserIDs| > MAXIMUM_EXPLICIT_RECIPIENTS {
      return Some(AudienceTooLarge);
    }
    err := ValidateAudience(v);
  }

  lemma RecipientsExactly(v: Intent)
    ensures var s := v.recipientUserIDs;
      RecipientsOk(v) <==>
        && (forall i | 0 <= i < |s| :: TrimSpace(s[i]) != "")
        && (forall i, j | 0 <= i < j < |s| :: TrimSpace(s[i]) != TrimSpace(s[j]))
  {
    hide TrimSpace;
    var s := Recipients(v);
    assert forall i | 0 <= i < |s| :: s[i] in s && s[i] == TrimSpace(v.recipientUserIDs[i]);
  }

  /** An intent is accepted iff its scope, identity and subject are complete and it names at most 500
      recipients, none blank and no two equal once trimmed, or none at all but a resolver. */
  lemma AcceptedIntents(v: Intent)
    ensures Verdict(v).None? <==>
      && !Blank(v.workspaceID) && !Blank(v.id) && !Blank(v.sourceEventID) && !Blank(v.eventType) && !Blank(v.occurredAt)
      && (!Blank(v.subjectType) || !Blank(v.subjectID) ==>
            !Blank(v.subjectType) && !Blank(v.subjectID) && !Blank(v.subjectVersion))
      && |v.recipientUserIDs| <= 500
      && (v.recipientUserIDs == [] ==> v.audienceResolverKeys != [])
      && (forall i | 0 <= i < |v.recipientUserIDs| :: !Blank(v.recipientUserIDs[i]))
      && (forall i, j | 0 <= i < j < |v.recipientUserIDs| ::
            TrimSpace(v.recipientUserIDs[i]) != TrimSpace(v.recipientUserIDs[j]))
  {
    RecipientsExactly(v);
    hide RecipientsOk;
  }

  /** What is checked, in order. Too many recipients are told apart from none, from a blank one and from
      one that is named twice. */
  ghost function IntentChecks(v: Intent): seq<Line<Error>> {
    var s := v.recipientUserIDs;
    [ Line(TrimSpace(v.workspaceID) != "", ScopeRequired),
      Line("" !in [TrimSpace(v.id), TrimSpace(v.sourceEventID), TrimSpace(v.eventType), TrimSpace(v.occurredAt)],
        IdentityRequired),
      Line(TrimSpace(v.subjectType) == "" <==> TrimSpace(v.subjectID) == "", SubjectRequired),
      Line(TrimSpace(v.subjectID) != "" ==> TrimSpace(v.subjectVersion) != "", SubjectRequired),
      Line(|v.recipientUserIDs| + |v.audienceResolverKeys| > 0, AudienceRequired),
      Line(|v.recipientUserIDs| <= 500, AudienceTooLarge),
      Line(forall i | 0 <= i < |s| :: TrimSpace(s[i]) != "", AudienceRequired),
      Line(forall i, j | 0 <= i < j < |s| :: TrimSpace(s[i]) != TrimSpace(s[j]), AudienceRequired) ]
  }

  /** An intent is refused for the first line of the table that it does not meet. */
  lemma IntentTable(v: Intent)
    ensures Decides(IntentChecks(v), Verdict(v))
  {
    hide TrimSpace;
    var checks := IntentChecks(v);
    RecipientsExactly(v);
    hide RecipientsOk;
    if !ScopeOk(v) {
      assert FailsFirst(checks, 0);
    } else if !IdentityOk(v) {
      assert FailsFirst(checks, 1);
    } else if !SubjectOk(v) {
      assert FailsFirst(checks, if checks[2].passes then 3 else 2);
    } else if !Addressed(v) {
      assert FailsFirst(checks, 4);
    } else if |v.recipientUserIDs| > MAXIMUM_EXPLICIT_RECIPIENTS {
      assert FailsFirst(checks, 5);
    } else if !RecipientsOk(v) {
      assert FailsFirst(checks, if checks[6].passes then 7 else 6);
    }
  }

  // ---- what the answer does not depend on ----

  lemma DistinctCounts(s: seq<string>)
    ensures Distinct(s) <==> forall x :: multiset(s)[x] <= 1
  {
    if Distinct(s) {
      forall x ensures multiset(s)[x] <= 1 {
        DistinctOnce(s, x);
      }
    } else {
      var i, j :| 0 <= i < j < |s| && s[i] == s[j];
      assert s == s[..j] + [s[j]] + s[j + 1..];
      assert multiset(s) == multiset(s[..j]) + multiset{s[j]} + multiset(s[j + 1..]);
      assert s[..j][i] == s[j] && s[j] in multiset(s[..j]);
      assert multiset(s)[s[j]] >= 2;
    }
  }

  lemma AudienceByCounts(v: Intent)
    ensures var m := multiset(Recipients(v));
      && |m| == |v.recipientUserIDs|
      && (RecipientsOk(v) <==> "" !in m && forall x :: m[x] <= 1)
  {
    DistinctCounts(Recipients(v));
    assert "" in Recipients(v) <==> "" in multiset(Recipients(v));
  }

  /** Exactly the same answer, whichever error it is, when the recipients are listed in another order or
      have other white space around them. */
  lemma OrderAndPaddingDoNotMatter(v: Intent, recipients: seq<string>)
    requires multiset(Trims(recipients)) == multiset(Trims(v.recipientUserIDs))
    ensures Verdict(v.(recipientUserIDs := recipients)) == Verdict(v)
  {
    hide RecipientsOk, Blank, Trims;
    var w := v.(recipientUserIDs := recipients);
    AudienceByCounts(v);
    AudienceByCounts(w);
    assert multiset(Recipients(v)) == multiset(Recipients(w));
  }

  /** In particular for two recipients exchanged, or one padded. */
  lemma ExchangeOrPad(v: Intent, i: nat, j: nat, left: string, right: string)
    requires i < |v.recipientUserIDs| && j < |v.recipientUserIDs| && AllSpace(left) && AllSpace(right)
    ensures var s := v.recipientUserIDs;
      && Verdict(v.(recipientUserIDs := s[i := s[j]][j := s[i]])) == Verdict(v)
      && Verdict(v.(recipientUserIDs := s[i := left + s[i] + right])) == Verdict(v)
  {
    var s := v.recipientUserIDs;
    TrimPadding(left, s[i], right);
    assert Trims(s[i := left + s[i] + right]) == Trims(s);
    OrderAndPaddingDoNotMatter(v, s[i := left + s[i] + right]);
    var t := Trims(s);
    assert Trims(s[i := s[j]][j := s[i]]) == t[i := t[j]][j := t[i]];
    ExchangeKeepsCounts(t, i, j);
    OrderAndPaddingDoNotMatter(v, s[i := s[j]][j := s[i]]);
  }

  lemma ExchangeKeepsCounts(t: seq<string>, i: nat, j: nat)
    requires i < |t| && j < |t|
    ensures multiset(t[i := t[j]][j := t[i]]) == multiset(t)
  {
  }
}
