/** Propagated context headers (remote/resilience.go 76-90) over net/http's case-insensitive names. */
module Headers {
  import opened Text
  import opened Enumerations

  type Fields = map<string, seq<string>>

  /** A token character, section 5.6.2 of RFC 9110. */
  predicate TokenChar(c: char) {
    || 'a' <= c <= 'z' || 'A' <= c <= 'Z' || '0' <= c <= '9'
    || c in {'!', '#', '$', '%', '&', '\'', '*', '+', '-', '.', '^', '_', '`', '|', '~'}
  }

  lemma TokenCharsExactly(c: char)
    ensures TokenChar(c) <==>
      || 0x30 <= c as int <= 0x39 || 0x41 <= c as int <= 0x5A || 0x61 <= c as int <= 0x7A
      || c as int in {0x21, 0x23, 0x24, 0x25, 0x26, 0x27, 0x2A, 0x2B, 0x2D, 0x2E, 0x5E, 0x5F, 0x60, 0x7C, 0x7E}
  {
  }

  predicate IsToken(s: string) {
    forall i | 0 <= i < |s| :: TokenChar(s[i])
  }

  function UpperChar(c: char): char {
    if 'a' <= c <= 'z' then (c as int - 32) as char else c
  }

  predicate EqualFold(a: string, b: string) {
    Lower(a) == Lower(b)
  }

  /** First letter and letters after a hyphen in upper case, the others in lower case. */
  function Cased(s: string, upper: bool): string {
    if s == "" then ""
    else [if upper then UpperChar(s[0]) else LowerChar(s[0])] + Cased(s[1..], s[0] == '-')
  }

  /** Character by character: a letter that is first or follows a hyphen becomes a capital, any other
      letter a small one, and nothing else changes. */
  lemma {:induction false} CasedExactly(s: string, upper: bool, i: nat)
    requires i < |s|
    ensures |Cased(s, upper)| == |s|
    ensures var c := s[i] as int;
      Cased(s, upper)[i] as int ==
        if (if i == 0 then upper else s[i - 1] == '-') then if 0x61 <= c <= 0x7A then c - 0x20 else c
        else if 0x41 <= c <= 0x5A then c + 0x20 else c
  {
    if i == 0 {
      CasedFolds(s, upper);
    } else {
      CasedExactly(s[1..], s[0] == '-', i - 1);
    }
  }

  /** http.CanonicalHeaderKey: a name that is not a token is left as it is. */
  function Canonical(s: string): string {
    if IsToken(s) then Cased(s, true) else s
  }

  lemma {:induction false} CasedFolds(s: string, upper: bool)
    ensures |Cased(s, upper)| == |s| && Lower(Cased(s, upper)) == Lower(s)
    ensures Cased(Lower(s), upper) == Cased(s, upper)
  {
    if s == "" {
    } else {
      CasedFolds(s[1..], s[0] == '-');
      assert Lower(s) == [LowerChar(s[0])] + Lower(s[1..]);
      var t := Cased(s, upper);
      assert Lower(t) == [LowerChar(t[0])] + Lower(t[1..]);
    }
  }

  lemma FoldKeepsToken(a: string, b: string)
    requires EqualFold(a, b) && IsToken(a)
    ensures IsToken(b)
  {
    assert |Lower(a)| == |a| && |Lower(b)| == |b|;
    forall i | 0 <= i < |b| ensures TokenChar(b[i]) {
      assert Lower(a)[i] == LowerChar(a[i]) && Lower(b)[i] == LowerChar(b[i]);
      assert TokenChar(a[i]);
    }
  }

  /** On tokens the canonical form is a case-insensitive normal form. */
  lemma CanonicalNormalForm(a: string, b: string)
    ensures Canonical(Canonical(a)) == Canonical(a)
    ensures EqualFold(a, Canonical(a))
    ensures IsToken(a) ==> (EqualFold(a, b) <==> Canonical(a) == Canonical(b))
  {
    CasedFolds(a, true);
    CasedFolds(b, true);
    CasedFolds(Canonical(a), true);
    if IsToken(a) && EqualFold(a, b) {
      FoldKeepsToken(a, b);
    }
    if IsToken(a) && Canonical(a) == Canonical(b) {
      FoldKeepsToken(a, Canonical(a));
    }
  }

  function Values(fields: Fields, name: string): seq<string> {
    if name in fields then fields[name] else []
  }

  /** http.Header.Values */
  function Lookup(fields: Fields, spelled: string): seq<string> {
    Values(fields, Canonical(spelled))
  }

  /** The non-blank values, trimmed. */
  function Cleaned(values: seq<string>): seq<string> {
    if values == [] then []
    else
      var value := TrimSpace(values[|values| - 1]);
      Cleaned(values[..|values| - 1]) + if value != "" then [value] else []
  }

  /** Each value is trimmed, and dropped when it is nothing but white space; the order is kept. */
  lemma {:induction false} CleanedExactly(a: seq<string>, b: seq<string>)
    ensures Cleaned(a + b) == Cleaned(a) + Cleaned(b)
    ensures |a| == 1 ==> Cleaned(a) == if AllSpace(a[0]) then [] else [TrimSpace(a[0])]
  {
    if |a| == 1 {
      BlankExactly(a[0]);
      assert a[..0] == [];
    }
    if b == [] {
      assert a + b == a && Cleaned(a) + [] == Cleaned(a);
    } else {
      CleanedExactly(a, b[..|b| - 1]);
      assert (a + b)[..|a + b| - 1] == a + b[..|b| - 1];
    }
  }

  /** What one source entry adds under a name. */
  function Contributed(reserved: set<string>, source: Fields, name: string, key: string): seq<string> {
    if name == Canonical(TrimSpace(key)) && name != "" && name !in reserved then Cleaned(Values(source, key)) else []
  }

  function Contribution(reserved: set<string>, source: Fields, name: string): string -> seq<string> {
    key => Contributed(reserved, source, name, key)
  }

  /** What is added under a name when the source map is visited in this order. */
  function Additions(reserved: set<string>, source: Fields, order: seq<string>, name: string): seq<string> {
    Collect(order, Contribution(reserved, source, name))
  }

  /** The header with these values appended under a name. */
  function Extended(fields: Fields, name: string, values: seq<string>): Fields {
    if values == [] then fields else fields[name := Values(fields, name) + values]
  }

  lemma ExtendTwice(fields: Fields, name: string, values: seq<string>, value: string)
    ensures Extended(Extended(fields, name, values), name, [value]) == Extended(fields, name, values + [value])
  {
    assert Values(fields, name) + (values + [value]) == Values(fields, name) + values + [value];
    assert values == [] ==> values + [value] == [value];
  }

  function CopiedEntry(reserved: set<string>, fields: Fields, source: Fields, key: string): Fields {
    var canonical := Canonical(TrimSpace(key));
    if canonical == "" || canonical in reserved then fields
    else Extended(fields, canonical, Cleaned(Values(source, key)))
  }

  /** The target after the source has been visited in this order. */
  function Copied(reserved: set<string>, fields: Fields, source: Fields, order: seq<string>): Fields {
    if order == [] then fields
    else CopiedEntry(reserved, Copied(reserved, fields, source, order[..|order| - 1]), source, order[|order| - 1])
  }

  lemma ExtendedValues(fields: Fields, key: string, values: seq<string>, name: string)
    ensures Values(Extended(fields, key, values), name) == Values(fields, name) + if name == key then values else []
  {
    assert Values(fields, name) + [] == Values(fields, name);
  }

  lemma CopiedEntryValues(reserved: set<string>, fields: Fields, source: Fields, key: string, name: string)
    ensures Values(CopiedEntry(reserved, fields, source, key), name) ==
      Values(fields, name) + Contributed(reserved, source, name, key)
  {
    assert Values(fields, name) + [] == Values(fields, name);
    var canonical := Canonical(TrimSpace(key));
    if canonical != "" && canonical !in reserved {
      ExtendedValues(fields, canonical, Cleaned(Values(source, key)), name);
    }
  }

  /** Under each name, the target keeps its values and gains those of the source entries that have that
      canonical name. */
  lemma {:induction false} CopiedValues(reserved: set<string>, fields: Fields, source: Fields, order: seq<string>,
        name: string)
    ensures Values(Copied(reserved, fields, source, order), name) ==
      Values(fields, name) + Additions(reserved, source, order, name)
  {
    hide Values, CopiedEntry, Contributed;
    var own := Values(fields, name);
    if order == [] {
      assert own + [] == own;
    } else {
      var rest, key := order[..|order| - 1], order[|order| - 1];
      CopiedValues(reserved, fields, source, rest, name);
      var middle := Copied(reserved, fields, source, rest);
      CopiedEntryValues(reserved, middle, source, key, name);
      CollectLast(order, Contribution(reserved, source, name));
      var before, added := Additions(reserved, source, rest, name), Contributed(reserved, source, name, key);
      assert own + before + added == own + (before + added);
    }
  }

  class Header {
    var fields: Fields

    constructor (fields: Fields)
      ensures this.fields == fields
    {
      this.fields := fields;
    }

    /** http.Header.Add: whoever looks the name up, in whatever letter case, finds the new value after the
        old ones; no other name is affected. */
    method Add(name: string, value: string)
      modifies this
      ensures fields == Extended(old(fields), Canonical(name), [value])
      ensures forall spelled ::
        Lookup(fields, spelled) ==
          Lookup(old(fields), spelled) + if Canonical(spelled) == Canonical(name) then [value] else []
      ensures IsToken(name) ==> forall spelled | EqualFold(name, spelled) ::
        Lookup(fields, spelled) == Lookup(old(fields), spelled) + [value]
    {
      forall spelled ensures IsToken(name) && EqualFold(name, spelled) ==> Canonical(spelled) == Canonical(name) {
        CanonicalNormalForm(name, spelled);
      }
      forall spelled {
        ExtendedValues(fields, Canonical(name), [value], Canonical(spelled));
      }
      var key := Canonical(name);
      fields := fields[key := (if key in fields then fields[key] else []) + [value]];
    }
  }

  /** The copying loop, for any set of names to leave out. Go visits a map in an order of its own
      choosing; order reports which one it was. */
  method CopyHeadersExcept(target: Header, source: Fields, reserved: set<string>) returns (ghost order: seq<string>)
    modifies target
    ensures Enumerates(order, source.Keys)
    ensures target.fields == Copied(reserved, old(target.fields), source, order)
  {
    order := [];
    var rest := source.Keys;
    while rest != {}
      invariant rest <= source.Keys && Enumerates(order, source.Keys - rest)
      invariant target.fields == Copied(reserved, old(target.fields), source, order)
    {
      var key :| key in rest;
      var canonical := Canonical(TrimSpace(key));
      if canonical != "" && canonical !in reserved {
        CanonicalNormalForm(TrimSpace(key), "");
        CopyValues(target, canonical, source[key]);
      }
      assert (order + [key])[..|order|] == order;
      order := order + [key];
      rest := rest - {key};
    }
  }

  method CopyValues(target: Header, canonical: string, values: seq<string>)
    requires Canonical(canonical) == canonical
    modifies target
    ensures target.fields == Extended(old(target.fields), canonical, Cleaned(values))
  {
    var i := 0;
    while i < |values|
      invariant 0 <= i <= |values|
      invariant target.fields == Extended(old(target.fields), canonical, Cleaned(values[..i]))
    {
      assert values[..i + 1][..i] == values[..i];
      ghost var done := Cleaned(values[..i]);
      var value := TrimSpace(values[i]);
      if value != "" {
        target.Add(canonical, value);
        ExtendTwice(old(target.fields), canonical, done, value);
        assert Cleaned(values[..i + 1]) == done + [value];
      } else {
        assert Cleaned(values[..i + 1]) == done + [] == done;
      }
      i := i + 1;
    }
    assert values[..i] == values;
  }

  ghost predicate CanonicalNames(names: set<string>) {
    forall name | name in names :: IsToken(name) && Canonical(name) == name
  }

  lemma ReservedEntry(reserved: set<string>, source: Fields, key: string, name: string, spelled: string)
    requires CanonicalNames(reserved)
    requires name in reserved && EqualFold(name, spelled)
    ensures Contributed(reserved, source, spelled, key) == []
  {
    var canonical := Canonical(TrimSpace(key));
    CanonicalNormalForm(TrimSpace(key), "");
    CanonicalNormalForm(name, spelled);
    assert Canonical(name) == name;
    assert spelled == canonical ==> Canonical(spelled) == spelled == name;
  }

  /** Whatever the context supplies, in whatever spelling, no reserved name gains a value: not under its
      canonical form and not under any other capitalisation. */
  lemma {:induction false} ReservedUntouched(reserved: set<string>, source: Fields, order: seq<string>, name: string,
        spelled: string)
    requires CanonicalNames(reserved)
    requires name in reserved && EqualFold(name, spelled)
    ensures Additions(reserved, source, order, spelled) == []
  {
    if order == [] {
    } else {
      ReservedUntouched(reserved, source, order[..|order| - 1], name, spelled);
      ReservedEntry(reserved, source, order[|order| - 1], name, spelled);
      CollectLast(order, Contribution(reserved, source, spelled));
    }
  }

  lemma {:induction false} UnreservedCopied(reserved: set<string>, source: Fields, order: seq<string>, name: string)
    requires name !in reserved
    ensures Additions(reserved, source, order, name) == Additions({}, source, order, name)
  {
    if order == [] {
    } else {
      UnreservedCopied(reserved, source, order[..|order| - 1], name);
      CollectLast(order, Contribution(reserved, source, name));
      CollectLast(order, Contribution({}, source, name));
    }
  }

  lemma ReservedKept(reserved: set<string>, fields: Fields, source: Fields, order: seq<string>, name: string,
        spelled: string)
    requires CanonicalNames(reserved)
    requires name in reserved && EqualFold(name, spelled)
    ensures Values(Copied(reserved, fields, source, order), spelled) == Values(fields, spelled)
  {
    CopiedValues(reserved, fields, source, order, spelled);
    ReservedUntouched(reserved, source, order, name, spelled);
  }

  predicate Plain(s: string, i: nat, upper: bool)
    requires i < |s|
  {
    if (if i == 0 then upper else s[i - 1] == '-') then 'A' <= s[i] <= 'Z' else 'a' <= s[i] <= 'z' || s[i] == '-'
  }

  /** Capitalised words joined by hyphens. */
  predicate Capitalized(s: string, upper: bool) {
    forall i | 0 <= i < |s| :: Plain(s, i, upper)
  }

  lemma {:induction false} CapitalizedIsCanonical(s: string, upper: bool)
    requires Capitalized(s, upper)
    ensures IsToken(s) && Cased(s, upper) == s
  {
    if s == "" {
    } else {
      var rest := s[1..];
      var next := s[0] == '-';
      forall i | 0 <= i < |rest| ensures Plain(rest, i, next) {
        assert Plain(s, i + 1, upper);
      }
      CapitalizedIsCanonical(rest, s[0] == '-');
      assert Plain(s, 0, upper);
    }
  }

  /** The values a name gains do not depend on the order in which the source map is visited. */
  lemma OrderIrrelevant(reserved: set<string>, source: Fields, a: seq<string>, b: seq<string>, name: string)
    requires Enumerates(a, source.Keys) && Enumerates(b, source.Keys)
    ensures multiset(Additions(reserved, source, a, name)) == multiset(Additions(reserved, source, b, name))
  {
    CollectAnyOrder(a, b, source.Keys, Contribution(reserved, source, name));
  }
}

/** The names through which a request carries its authority. */
module ProtectedHeaders {
  import opened Text
  import opened Enumerations
  import opened Headers

  const PROTECTED: set<string> := {
    "Authorization", "Content-Length", "Content-Type", "Cookie", "Host",
    "X-Domainry-Service-Credential", "X-Domainry-Tenant-Id", "X-Domainry-Workspace-Id", "X-Domainry-Application-Key"
  }

  lemma ShortNamesCapitalized()
    ensures Capitalized("Authorization", true) && Capitalized("Content-Length", true)
      && Capitalized("Content-Type", true)
    ensures Capitalized("Cookie", true) && Capitalized("Host", true)
  {
  }

  lemma TenantNameCapitalized()
    ensures Capitalized("X-Domainry-Tenant-Id", true)
  {
  }

  lemma CredentialNameCapitalized()
    ensures Capitalized("X-Domainry-Service-Credential", true)
  {
  }

  lemma WorkspaceNameCapitalized()
    ensures Capitalized("X-Domainry-Workspace-Id", true)
  {
  }

  lemma ApplicationNameCapitalized()
    ensures Capitalized("X-Domainry-Application-Key", true)
  {
  }

  lemma ProtectedIsCanonical(name: string)
    requires name in PROTECTED
    ensures IsToken(name) && Canonical(name) == name
  {
    ShortNamesCapitalized();
    CredentialNameCapitalized();
    TenantNameCapitalized();
    WorkspaceNameCapitalized();
    ApplicationNameCapitalized();
    CapitalizedIsCanonical(name, true);
  }

  lemma ProtectedNamesCanonical()
    ensures CanonicalNames(PROTECTED)
  {
    forall n | n in PROTECTED ensures IsToken(n) && Canonical(n) == n {
      ProtectedIsCanonical(n);
    }
  }

  predicate Folds(name: string, small: string) {
    Lower(name) == small
  }

  lemma ShortNamesFold()
    ensures Folds("Authorization", "authorization") && Folds("Content-Length", "content-length")
    ensures Folds("Content-Type", "content-type") && Folds("Cookie", "cookie") && Folds("Host", "host")
  {
  }

  lemma CredentialNameFolds()
    ensures Folds("X-Domainry-Service-Credential", "x-domainry-service-credential")
  {
  }

  lemma ScopeNamesFold()
    ensures Folds("X-Domainry-Tenant-Id", "x-domainry-tenant-id")
    ensures Folds("X-Domainry-Workspace-Id", "x-domainry-workspace-id")
  {
  }

  lemma ApplicationNameFolds()
    ensures Folds("X-Domainry-Application-Key", "x-domainry-application-key")
  {
  }

  /** One of the nine names, in any capitalisation. */
  predicate CarriesAuthority(spelled: string) {
    Lower(spelled) in {
      "authorization", "content-length", "content-type", "cookie", "host", "x-domainry-service-credential",
      "x-domainry-tenant-id", "x-domainry-workspace-id", "x-domainry-application-key"}
  }

  lemma NineNames(spelled: string)
    ensures CarriesAuthority(spelled) <==> exists name | name in PROTECTED :: EqualFold(name, spelled)
  {
    ShortNamesFold();
    CredentialNameFolds();
    ScopeNamesFold();
    ApplicationNameFolds();
    hide Lower;
  }

  /** Copying leaves every header that carries the request's authority exactly as it was. */
  lemma ProtectedUntouched(fields: Fields, source: Fields, order: seq<string>, spelled: string)
    requires CarriesAuthority(spelled)
    ensures Values(Copied(PROTECTED, fields, source, order), spelled) == Values(fields, spelled)
  {
    hide CarriesAuthority, Values, Copied, CanonicalNames;
    ProtectedNamesCanonical();
    NineNames(spelled);
    var name :| name in PROTECTED && EqualFold(name, spelled);
    ReservedKept(PROTECTED, fields, source, order, name, spelled);
  }

  lemma NotProtected(name: string)
    requires !CarriesAuthority(name)
    ensures name !in PROTECTED
  {
    NineNames(name);
    hide CarriesAuthority, PROTECTED;
    assert EqualFold(name, name);
  }

  /** Nothing else is left out: under any other name arrives what would arrive if no name were protected. */
  lemma OthersCopied(source: Fields, order: seq<string>, name: string)
    requires !CarriesAuthority(name)
    ensures Additions(PROTECTED, source, order, name) == Additions({}, source, order, name)
  {
    NotProtected(name);
    hide PROTECTED;
    UnreservedCopied(PROTECTED, source, order, name);
  }

  method CopyContextHeaders(target: Header, source: Fields) returns (ghost order: seq<string>)
    modifies target
    ensures Enumerates(order, source.Keys)
    ensures target.fields == Copied(PROTECTED, old(target.fields), source, order)
    ensures forall spelled | CarriesAuthority(spelled) ::
      Values(target.fields, spelled) == Values(old(target.fields), spelled)
    ensures forall name | !CarriesAuthority(name) ::
      Values(target.fields, name) == Values(old(target.fields), name) + Additions({}, source, order, name)
  {
    hide CarriesAuthority;
    order := CopyHeadersExcept(target, source, PROTECTED);
    forall spelled | CarriesAuthority(spelled)
      ensures Values(target.fields, spelled) == Values(old(target.fields), spelled)
    {
      ProtectedUntouched(old(target.fields), source, order, spelled);
    }
    forall name | !CarriesAuthority(name)
      ensures Values(target.fields, name) == Values(old(target.fields), name) + Additions({}, source, order, name)
    {
      CopiedValues(PROTECTED, old(target.fields), source, order, name);
      OthersCopied(source, order, name);
    }
  }
}
