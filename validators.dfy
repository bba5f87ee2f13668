/**
 * Request validators: the e-mail pattern, the password length rule and the
 * required-fields check used by the registration and login handlers.
 */
module Validators {
  import opened Roster

  // ---------------------------------------------------------------------
  // validate_email
  // ---------------------------------------------------------------------

  /** `[a-zA-Z]` */
  predicate Letter(c: char) {
    'a' <= c <= 'z' || 'A' <= c <= 'Z'
  }

  /** `[0-9]` */
  predicate Digit(c: char) {
    '0' <= c <= '9'
  }

  /** `[a-zA-Z0-9._%+-]`: the characters allowed before the `@`. */
  predicate LocalChar(c: char) {
    Letter(c) || Digit(c) || c == '.' || c == '_' || c == '%' || c == '+' || c == '-'
  }

  /** `[a-zA-Z0-9.-]`: the characters allowed between the `@` and the last dot. */
  predicate DomainChar(c: char) {
    Letter(c) || Digit(c) || c == '.' || c == '-'
  }

  /** `[a-zA-Z0-9._%+-]+` */
  predicate LocalPart(s: string) {
    |s| >= 1 && forall k :: 0 <= k < |s| ==> LocalChar(s[k])
  }

  /** `[a-zA-Z0-9.-]+` */
  predicate DomainPart(s: string) {
    |s| >= 1 && forall k :: 0 <= k < |s| ==> DomainChar(s[k])
  }

  /** `[a-zA-Z]{2,}` */
  predicate TopLevel(s: string) {
    |s| >= 2 && forall k :: 0 <= k < |s| ==> Letter(s[k])
  }

  /** The whole of `b` is `local@domain.tld` for some split into the three parts. */
  ghost predicate PatternBody(b: string) {
    exists local, domain, tld ::
      LocalPart(local) && DomainPart(domain) && TopLevel(tld) && b == local + "@" + domain + "." + tld
  }

  /**
   * What `re.match(pattern, email)` accepts: the match is anchored at the
   * start by `re.match` and `^`, and Python's `$` matches at the very end or
   * just before one final newline.
   */
  ghost predicate MatchesEmailPattern(s: string) {
    PatternBody(s) || (|s| > 0 && s[|s| - 1] == '\n' && PatternBody(s[..|s| - 1]))
  }

  /** Index of the first occurrence of `c` in `s`. */
  function FirstIndex(s: string, c: char): (r: Option<nat>)
    ensures r.None? ==> forall k :: 0 <= k < |s| ==> s[k] != c
    ensures r.Some? ==> r.value < |s| && s[r.value] == c && forall k :: 0 <= k < r.value ==> s[k] != c
    decreases |s|
  {
    if s == [] then None
    else if s[0] == c then Some(0)
    else match FirstIndex(s[1..], c)
      case None => None
      case Some(i) => Some(i + 1)
  }

  /** Index of the last occurrence of `c` in `s`. */
  function LastIndex(s: string, c: char): (r: Option<nat>)
    ensures r.None? ==> forall k :: 0 <= k < |s| ==> s[k] != c
    ensures r.Some? ==> r.value < |s| && s[r.value] == c && forall k :: r.value < k < |s| ==> s[k] != c
    decreases |s|
  {
    if s == [] then None
    else if s[|s| - 1] == c then Some(|s| - 1)
    else LastIndex(s[..|s| - 1], c)
  }

  /**
   * The pattern without the trailing-newline allowance, decided by locating
   * the `@` (the first one: no part may contain another) and the last dot
   * (the top-level part has no dots).
   */
  function BodyOk(b: string): bool {
    match FirstIndex(b, '@')
    case None => false
    case Some(at) =>
      match LastIndex(b, '.')
      case None => false
      case Some(dot) =>
        at < dot && LocalPart(b[..at]) && DomainPart(b[at + 1..dot]) && TopLevel(b[dot + 1..])
  }

  /** `validate_email`: the scan, on the whole string or on it without one final newline. */
  function ValidateEmail(email: string): (ok: bool)
    ensures ok ==> |email| >= 6
  {
    if BodyOk(email) then BodyLength(email); true
    else if |email| > 0 && email[|email| - 1] == '\n' then
      if BodyOk(email[..|email| - 1]) then BodyLength(email[..|email| - 1]); true else false
    else false
  }

  /** A string of the accepted form has at least one local character, `@`, one domain character, `.` and two letters. */
  lemma BodyLength(b: string)
    requires BodyOk(b)
    ensures |b| >= 6
  {
    var at := FirstIndex(b, '@').value;
    var dot := LastIndex(b, '.').value;
    assert |b[..at]| >= 1 && |b[at + 1..dot]| >= 1 && |b[dot + 1..]| >= 2;
  }

  /** `validate_email` accepts exactly what `re.match` with the pattern accepts. */
  lemma ValidateEmailMatchesPattern(email: string)
    ensures ValidateEmail(email) <==> MatchesEmailPattern(email)
  {
    BodyOkMatchesPattern(email);
    if |email| > 0 && email[|email| - 1] == '\n' {
      BodyOkMatchesPattern(email[..|email| - 1]);
    }
  }

  /** The scanning decision agrees with the pattern, in both directions. */
  lemma BodyOkMatchesPattern(b: string)
    ensures BodyOk(b) <==> PatternBody(b)
  {
    if BodyOk(b) {
      var at := FirstIndex(b, '@').value;
      var dot := LastIndex(b, '.').value;
      assert b == b[..at] + "@" + b[at + 1..dot] + "." + b[dot + 1..];
    }
    if PatternBody(b) {
      var local, domain, tld :|
        LocalPart(local) && DomainPart(domain) && TopLevel(tld) && b == local + "@" + domain + "." + tld;
      PatternSplitIsUnique(b, local, domain, tld);
    }
  }

  /** The only way to split a matching string is at its first `@` and its last dot. */
  lemma PatternSplitIsUnique(b: string, local: string, domain: string, tld: string)
    requires LocalPart(local) && DomainPart(domain) && TopLevel(tld)
    requires b == local + "@" + domain + "." + tld
    ensures FirstIndex(b, '@') == Some(|local|)
    ensures LastIndex(b, '.') == Some(|local| + 1 + |domain|)
    ensures BodyOk(b)
  {
    var at := |local|;
    var dot := |local| + 1 + |domain|;
    assert b[at] == '@';
    assert forall k :: 0 <= k < at ==> b[k] == local[k];
    assert b[dot] == '.';
    assert forall k :: dot < k < |b| ==> b[k] == tld[k - dot - 1];
    assert b[..at] == local;
    assert b[at + 1..dot] == domain;
    assert b[dot + 1..] == tld;
  }

  /** In a string of the accepted form, the first `@` is the only one, and it is not at the start. */
  lemma BodyHasOneAt(b: string)
    requires BodyOk(b)
    ensures FirstIndex(b, '@').Some? && FirstIndex(b, '@').value > 0
    ensures forall k :: FirstIndex(b, '@').value < k < |b| ==> b[k] != '@'
  {
    var at := FirstIndex(b, '@').value;
    var dot := LastIndex(b, '.').value;
    NoAtAfter(b, at, dot);
  }

  /** Past the `@`, the domain part, the dot and the top-level part hold no `@`. */
  lemma NoAtAfter(b: string, at: nat, dot: nat)
    requires at < dot < |b| && b[dot] == '.'
    requires DomainPart(b[at + 1..dot]) && TopLevel(b[dot + 1..])
    ensures forall k :: at < k < |b| ==> b[k] != '@'
  {
    forall k | at < k < |b|
      ensures b[k] != '@'
    {
      if k < dot {
        assert b[k] == b[at + 1..dot][k - at - 1];
        assert DomainChar(b[at + 1..dot][k - at - 1]);
      } else if dot < k {
        assert b[k] == b[dot + 1..][k - dot - 1];
        assert Letter(b[dot + 1..][k - dot - 1]);
      }
    }
  }

  /** An accepted address has exactly one `@`, and something before it. */
  lemma {:induction false} AcceptedHasOneAt(email: string)
    requires ValidateEmail(email)
    ensures exists at :: (0 < at < |email| && email[at] == '@' &&
      forall k :: 0 <= k < |email| && email[k] == '@' ==> k == at)
  {
    var b := if BodyOk(email) then email else email[..|email| - 1];
    assert BodyOk(b);
    BodyHasOneAt(b);
    var at := FirstIndex(b, '@').value;
    assert email[at] == '@';
    forall k | 0 <= k < |email| && email[k] == '@'
      ensures k == at
    {
      if k < |b| {
        assert b[k] == email[k];
      }
    }
  }

  /** The accepted form ends in a dot and at least two letters, possibly followed by one newline. */
  lemma {:induction false} AcceptedEndsWithLetters(email: string)
    requires ValidateEmail(email)
    ensures var b := if email[|email| - 1] == '\n' then email[..|email| - 1] else email;
      && |b| >= 3 && Letter(b[|b| - 1]) && Letter(b[|b| - 2]) && '.' in b
      && exists dot :: 0 <= dot < |b| && b[dot] == '.' && TopLevel(b[dot + 1..])
  {
    var b := if BodyOk(email) then email else email[..|email| - 1];
    var dot := LastIndex(b, '.').value;
    assert 0 <= dot < |b| && b[dot] == '.' && TopLevel(b[dot + 1..]);
    assert b[|b| - 1] == b[dot + 1..][|b| - dot - 2];
    assert b[|b| - 2] == b[dot + 1..][|b| - dot - 3];
    if BodyOk(email) {
      assert email[|email| - 1] != '\n';
    }
  }

  /** An address with a tag and a sub-domain is accepted. */
  lemma EmailAccepted()
    ensures ValidateEmail("a.b+c@d.ef.gh")
  {
    PatternSplitIsUnique("a.b+c@d.ef.gh", "a.b+c", "d.ef", "gh");
  }

  /** Python's `$` lets one trailing newline through, but not two. */
  lemma {:induction false} EmailTrailingNewline()
    ensures ValidateEmail("a@b.cd\n")
    ensures !ValidateEmail("a@b.cd\n\n")
  {
    assert "a@b.cd\n"[..6] == "a@b.cd";
    PatternSplitIsUnique("a@b.cd", "a", "b", "cd");
    var s := "a@b.cd\n\n";
    assert s[|s| - 1] == '\n' && !Letter(s[..|s| - 1][|s| - 2]);
    if ValidateEmail(s) {
      AcceptedEndsWithLetters(s);
      assert false;
    }
  }

  /** A one-letter top-level part is rejected. */
  lemma EmailShortTopLevel()
    ensures !ValidateEmail("a@b.c")
  {
    var s := "a@b.c";
    assert s[|s| - 1] != '\n' && !Letter(s[|s| - 2]);
    if ValidateEmail(s) {
      AcceptedEndsWithLetters(s);
      assert false;
    }
  }

  /** A doubled `@` is rejected. */
  lemma EmailDoubleAt()
    ensures !ValidateEmail("a@@b.cd")
  {
    var s := "a@@b.cd";
    assert s[1] == '@' && s[2] == '@';
    if ValidateEmail(s) {
      AcceptedHasOneAt(s);
      assert false;
    }
  }

  /** An empty local part is rejected. */
  lemma EmailEmptyLocal()
    ensures !ValidateEmail("@b.cd")
  {
    var s := "@b.cd";
    assert s[0] == '@';
    if ValidateEmail(s) {
      AcceptedHasOneAt(s);
      assert false;
    }
  }

  // ---------------------------------------------------------------------
  // validate_password
  // ---------------------------------------------------------------------

  const MinPasswordLength: nat := 6
  const ShortPasswordError := "Password must be at least 6 characters"

  /** `(is_valid, error_message)` */
  datatype PasswordCheck = PasswordCheck(isValid: bool, errorMessage: string)

  /** `validate_password`: only the length is checked. */
  function ValidatePassword(password: string): (r: PasswordCheck)
    ensures r.isValid <==> |password| >= MinPasswordLength
    ensures r.isValid <==> r.errorMessage == ""
    ensures !r.isValid ==> r.errorMessage == ShortPasswordError
  {
    if |password| < MinPasswordLength then PasswordCheck(false, ShortPasswordError)
    else PasswordCheck(true, "")
  }

  /** Only the length matters: passwords of equal length get the same verdict. */
  lemma PasswordLengthOnly(p: string, q: string)
    requires |p| == |q|
    ensures ValidatePassword(p) == ValidatePassword(q)
  {
  }

  // ---------------------------------------------------------------------
  // validate_required_fields
  // ---------------------------------------------------------------------

  /** A parsed JSON request value. */
  datatype JsonValue =
    | JNull
    | JBool(b: bool)
    | JNumber(n: real)
    | JString(s: string)
    | JArray(items: seq<JsonValue>)
    | JObject(members: map<string, JsonValue>)

  /** Python truthiness of the value after `request.get_json()`. */
  predicate Truthy(v: JsonValue) {
    match v
    case JNull => false
    case JBool(b) => b
    case JNumber(n) => n != 0.0
    case JString(s) => s != ""
    case JArray(items) => items != []
    case JObject(members) => members != map[]
  }

  /** A required field counts as missing when absent or falsy (`""`, `0`, `false`, `null`, `[]`, `{}`). */
  predicate FieldMissing(data: map<string, JsonValue>, field: string) {
    field !in data || !Truthy(data[field])
  }

  /** `(is_valid, missing_fields)` */
  datatype FieldsCheck = FieldsCheck(isValid: bool, missingFields: seq<string>)

  /** The missing fields, in the order of `requiredFields` (repeats kept). */
  function Missing(data: map<string, JsonValue>, requiredFields: seq<string>): (r: seq<string>)
    ensures |r| <= |requiredFields|
    decreases |requiredFields|
  {
    if requiredFields == [] then []
    else
      var n := |requiredFields| - 1;
      var rest := Missing(data, requiredFields[..n]);
      if FieldMissing(data, requiredFields[n]) then rest + [requiredFields[n]] else rest
  }

  /** `validate_required_fields`. */
  function ValidateRequiredFields(data: map<string, JsonValue>, requiredFields: seq<string>): (r: FieldsCheck)
    ensures r.missingFields == Missing(data, requiredFields)
    ensures r.isValid <==> r.missingFields == []
  {
    var missing := Missing(data, requiredFields);
    FieldsCheck(|missing| == 0, missing)
  }

  /**
   * The missing list holds exactly the required fields that are absent or
   * falsy, as often as each is required.
   */
  lemma {:induction false} MissingSpec(data: map<string, JsonValue>, requiredFields: seq<string>)
    ensures forall f :: f in Missing(data, requiredFields) <==> f in requiredFields && FieldMissing(data, f)
    ensures |Missing(data, requiredFields)| <= |requiredFields|
    ensures forall f :: (multiset(Missing(data, requiredFields))[f] ==
      if FieldMissing(data, f) then multiset(requiredFields)[f] else 0)
    decreases |requiredFields|
  {
    if requiredFields != [] {
      var n := |requiredFields| - 1;
      MissingSpec(data, requiredFields[..n]);
      assert requiredFields == requiredFields[..n] + [requiredFields[n]];
    }
  }

  /** The missing list keeps the order of the required list. */
  lemma {:induction false} MissingInOrder(data: map<string, JsonValue>, requiredFields: seq<string>)
    ensures IsSubsequence(Missing(data, requiredFields), requiredFields)
    decreases |requiredFields|
  {
    if requiredFields != [] {
      var n := |requiredFields| - 1;
      MissingInOrder(data, requiredFields[..n]);
      SubsequenceAppend(Missing(data, requiredFields[..n]), requiredFields[..n], requiredFields[n]);
      assert requiredFields[..n] + [requiredFields[n]] == requiredFields;
    }
  }

  /** The request is valid exactly when every required field is present and truthy. */
  lemma ValidIffAllPresent(data: map<string, JsonValue>, requiredFields: seq<string>)
    ensures ValidateRequiredFields(data, requiredFields).isValid <==>
      forall f :: f in requiredFields ==> f in data && Truthy(data[f])
  {
    MissingSpec(data, requiredFields);
    var m := Missing(data, requiredFields);
    if m != [] {
      assert m[0] in m;
    }
  }
}
