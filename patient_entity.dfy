/** The Patient entity: an immutable record that validates its name, email
    and birthdate when it is constructed, and its JSON rendering. */
module PatientEntity {
  import opened Wrappers
  import opened JsText

  /** A JavaScript `Date`: a millisecond timestamp, or the Invalid Date that
      `new Date(s)` yields for a string it cannot parse (its time value is
      NaN, so every ordering comparison with it is false). */
  datatype Date = At(millis: int) | InvalidDate

  /** `createdAt` comes from the clock or from the store, so it is always a
      valid timestamp. */
  datatype Patient = Patient(id: string, name: string, email: string, birthdate: Date, createdAt: int)

  /** The shape `toJSON` returns: the two dates rendered as ISO-8601 text. */
  datatype PatientJson = PatientJson(id: string, name: string, email: string, birthdate: string, createdAt: string)

  const MaxNameLength: nat := 255

  const NameEmptyMessage := "Patient name cannot be empty"
  const NameTooLongMessage := "Patient name cannot exceed 255 characters"
  const InvalidEmailMessage := "Invalid email format"
  const BirthdateRequiredMessage := "Birthdate is required"
  const BirthdateInFutureMessage := "Birthdate cannot be in the future"
  /** The message of the RangeError `toISOString` throws on an Invalid Date. */
  const InvalidTimeValueMessage := "Invalid time value"

  // ---------------------------------------------------------------- name

  /** A name is accepted when it has a non-whitespace character and at most
      255 characters, counted before trimming. */
  predicate NameAcceptable(name: string) {
    !AllWhitespace(name) && |name| <= MaxNameLength
  }

  function ValidateName(name: string): (o: Outcome<string>)
    ensures o == Fail(NameEmptyMessage) <==> AllWhitespace(name)
    ensures o == Fail(NameTooLongMessage) <==> !AllWhitespace(name) && |name| > MaxNameLength
    ensures o.Pass? <==> NameAcceptable(name)
  {
    TrimEmptyIffAllWhitespace(name);
    if |Trim(name)| == 0 then Fail(NameEmptyMessage)
    else if |name| > MaxNameLength then Fail(NameTooLongMessage)
    else Pass
  }

  // ---------------------------------------------------------------- email

  /** The regular-expression class `[^\s@]`. */
  predicate IsAddressChar(c: char) {
    !IsWhitespace(c) && c != '@'
  }

  predicate AllAddressChars(s: string) {
    forall i :: 0 <= i < |s| ==> IsAddressChar(s[i])
  }

  /** `^[^\s@]+@[^\s@]+\.[^\s@]+$` read as a concatenation: a non-empty run,
      `@`, a non-empty run, `.`, a non-empty run, each run free of whitespace
      and `@`, covering the whole string. */
  ghost predicate MatchesEmailPattern(email: string) {
    exists at, dot :: 0 < at && at + 1 < dot && dot + 1 < |email|
      && email[at] == '@' && email[dot] == '.'
      && AllAddressChars(email[..at])
      && AllAddressChars(email[at + 1..dot])
      && AllAddressChars(email[dot + 1..])
  }

  /** The domain has a `.` that is neither its first nor its last character. */
  predicate HasInteriorDot(domain: string) {
    exists i :: 1 <= i <= |domain| - 2 && domain[i] == '.'
  }

  /** The email split at its `@`: a non-empty local part and a domain, both
      free of whitespace and `@`, the domain with an interior dot. */
  predicate EmailShaped(email: string) {
    exists at :: 0 < at < |email| && email[at] == '@'
      && AllAddressChars(email[..at])
      && AllAddressChars(email[at + 1..])
      && HasInteriorDot(email[at + 1..])
  }

  lemma EmailShapedImpliesPattern(email: string)
    requires EmailShaped(email)
    ensures MatchesEmailPattern(email)
  {
    var at :| 0 < at < |email| && email[at] == '@'
      && AllAddressChars(email[..at])
      && AllAddressChars(email[at + 1..])
      && HasInteriorDot(email[at + 1..]);
    var domain := email[at + 1..];
    var i :| 1 <= i <= |domain| - 2 && domain[i] == '.';
    var dot := at + 1 + i;
    assert email[dot] == '.';
    assert email[at + 1..dot] == domain[..i];
    assert email[dot + 1..] == domain[i + 1..];
    assert AllAddressChars(domain[..i]);
    assert AllAddressChars(domain[i + 1..]);
  }

  lemma PatternImpliesEmailShaped(email: string)
    requires MatchesEmailPattern(email)
    ensures EmailShaped(email)
  {
  }

  /** The explicit split-at-`@` reading and the regular expression accept
      the same strings. */
  lemma EmailShapedIffPattern(email: string)
    ensures EmailShaped(email) <==> MatchesEmailPattern(email)
  {
    if EmailShaped(email) { EmailShapedImpliesPattern(email); }
    if MatchesEmailPattern(email) { PatternImpliesEmailShaped(email); }
  }

  function ValidateEmail(email: string): (o: Outcome<string>)
    ensures o.Pass? <==> MatchesEmailPattern(email)
    ensures o.Fail? ==> o.error == InvalidEmailMessage
  {
    EmailShapedIffPattern(email);
    if email != [] && EmailShaped(email) then Pass else Fail(InvalidEmailMessage)
  }

  /** An email without `@` is rejected. */
  lemma EmailWithoutAtRejected(email: string)
    requires forall i :: 0 <= i < |email| ==> email[i] != '@'
    ensures ValidateEmail(email) == Fail(InvalidEmailMessage)
  {
  }

  /** An email with two `@` is rejected. */
  lemma EmailWithTwoAtsRejected(email: string, i: nat, j: nat)
    requires i < j < |email| && email[i] == '@' && email[j] == '@'
    ensures ValidateEmail(email) == Fail(InvalidEmailMessage)
  {
  }

  /** An email containing whitespace anywhere is rejected. */
  lemma EmailWithWhitespaceRejected(email: string, i: nat)
    requires i < |email| && IsWhitespace(email[i])
    ensures ValidateEmail(email) == Fail(InvalidEmailMessage)
  {
  }

  /** An email whose part after its `@` has no interior dot is rejected. */
  lemma EmailWithoutInteriorDotRejected(local: string, domain: string)
    requires !HasInteriorDot(domain)
    ensures ValidateEmail(local + "@" + domain) == Fail(InvalidEmailMessage)
  {
    var email := local + "@" + domain;
    assert email[|local|] == '@';
    forall at | 0 < at < |email| && email[at] == '@'
      && AllAddressChars(email[..at]) && AllAddressChars(email[at + 1..])
      ensures !HasInteriorDot(email[at + 1..])
    {
      OnlyAt(email, at, |local|);
      assert email[at + 1..] == domain;
    }
  }

  /** A string split at an `@` with no `@` on either side has no other `@`. */
  lemma OnlyAt(email: string, at: nat, other: nat)
    requires at < |email| && other < |email| && email[other] == '@'
    requires AllAddressChars(email[..at]) && AllAddressChars(email[at + 1..])
    ensures other == at
  {
  }

  // ---------------------------------------------------------------- birthdate

  /** A birthdate is accepted when it is present and not after `now`; an
      Invalid Date is never after anything, so it is accepted too. */
  predicate BirthdateAcceptable(birthdate: Option<Date>, now: int) {
    birthdate.Some? && (birthdate.value.At? ==> birthdate.value.millis <= now)
  }

  function ValidateBirthdate(birthdate: Option<Date>, now: int): (o: Outcome<string>)
    ensures o == Fail(BirthdateRequiredMessage) <==> birthdate.None?
    ensures o == Fail(BirthdateInFutureMessage) <==> birthdate.Some? && birthdate.value.At? && birthdate.value.millis > now
    ensures o.Pass? <==> BirthdateAcceptable(birthdate, now)
  {
    match birthdate
    case None => Fail(BirthdateRequiredMessage)
    case Some(At(millis)) => if millis > now then Fail(BirthdateInFutureMessage) else Pass
    case Some(InvalidDate) => Pass
  }

  // ---------------------------------------------------------------- construction

  /** The `Patient` constructor. The checks run name, email, birthdate, and
      the first one that fails decides the error; the identifier is never
      checked; `createdAt` defaults to `now`. */
  function NewPatient(id: string, name: string, email: string, birthdate: Option<Date>,
                      createdAt: Option<int>, now: int): (r: Result<Patient, string>)
    ensures r.Success? <==> NameAcceptable(name) && MatchesEmailPattern(email) && BirthdateAcceptable(birthdate, now)
    ensures r.Success? ==> r.value == Patient(id, name, email, birthdate.value,
                                              if createdAt.Some? then createdAt.value else now)
    ensures AllWhitespace(name) ==> r == Failure(NameEmptyMessage)
    ensures !AllWhitespace(name) && |name| > MaxNameLength ==> r == Failure(NameTooLongMessage)
    ensures NameAcceptable(name) && !MatchesEmailPattern(email) ==> r == Failure(InvalidEmailMessage)
    ensures NameAcceptable(name) && MatchesEmailPattern(email) && ValidateBirthdate(birthdate, now).Fail?
            ==> r == Failure(ValidateBirthdate(birthdate, now).error)
  {
    match ValidateName(name)
    case Fail(message) => Failure(message)
    case Pass =>
      match ValidateEmail(email)
      case Fail(message) => Failure(message)
      case Pass =>
        match ValidateBirthdate(birthdate, now)
        case Fail(message) => Failure(message)
        case Pass => Success(Patient(id, name, email, birthdate.value,
                                     if createdAt.Some? then createdAt.value else now))
  }

  /** A birthdate equal to `now` is accepted; one millisecond later is not. */
  lemma BirthdateBoundary(now: int)
    ensures ValidateBirthdate(Some(At(now)), now) == Pass
    ensures ValidateBirthdate(Some(At(now + 1)), now) == Fail(BirthdateInFutureMessage)
  {
  }

  /** The 255-character limit applies to the untrimmed name. */
  lemma NameLengthBoundary(name: string)
    requires |name| > 0 && !IsWhitespace(name[0])
    ensures |name| == MaxNameLength ==> ValidateName(name) == Pass
    ensures |name| == MaxNameLength + 1 ==> ValidateName(name) == Fail(NameTooLongMessage)
  {
  }

  /** `new Date` of an unparseable string passes the birthdate check, since
      an Invalid Date is never later than anything; rendering that patient
      as JSON then fails. */
  lemma InvalidBirthdateAccepted(id: string, name: string, email: string, now: int, toIsoString: int -> string)
    requires NameAcceptable(name) && MatchesEmailPattern(email)
    ensures NewPatient(id, name, email, Some(InvalidDate), None, now).Success?
    ensures ToJson(NewPatient(id, name, email, Some(InvalidDate), None, now).value, toIsoString)
            == Failure(InvalidTimeValueMessage)
  {
  }

  // ---------------------------------------------------------------- JSON

  /** `toJSON`: identifier, name and email are copied; the two dates are
      rendered by `toISOString`, which throws on an Invalid Date. */
  function ToJson(p: Patient, toIsoString: int -> string): (r: Result<PatientJson, string>)
    ensures r.Success? <==> p.birthdate.At?
    ensures r.Failure? ==> r.error == InvalidTimeValueMessage
    ensures r.Success? ==> r.value.id == p.id && r.value.name == p.name && r.value.email == p.email
    ensures r.Success? ==> r.value.birthdate == toIsoString(p.birthdate.millis)
    ensures r.Success? ==> r.value.createdAt == toIsoString(p.createdAt)
  {
    match p.birthdate
    case InvalidDate => Failure(InvalidTimeValueMessage)
    case At(millis) => Success(PatientJson(p.id, p.name, p.email, toIsoString(millis), toIsoString(p.createdAt)))
  }

  /** A patient built from valid arguments renders the exact identifier,
      name and email it was given. */
  lemma ToJsonOfNewPatient(id: string, name: string, email: string, birthdate: int, now: int,
                           toIsoString: int -> string)
    requires NewPatient(id, name, email, Some(At(birthdate)), None, now).Success?
    ensures ToJson(NewPatient(id, name, email, Some(At(birthdate)), None, now).value, toIsoString)
            == Success(PatientJson(id, name, email, toIsoString(birthdate), toIsoString(now)))
  {
  }

  // ---------------------------------------------------------------- examples

  /** The example request "John Smith" / "john.smith@example.com" passes
      every check for any birthdate that is not in the future. */
  lemma ExampleRequestAccepted(id: string, birthdate: int, now: int)
    requires birthdate <= now
    ensures NewPatient(id, "John Smith", "john.smith@example.com", Some(At(birthdate)), None, now)
            == Success(Patient(id, "John Smith", "john.smith@example.com", At(birthdate), now))
  {
    assert !IsWhitespace("John Smith"[0]);
    ExampleEmailMatches();
  }

  lemma ExampleEmailMatches()
    ensures MatchesEmailPattern("john.smith@example.com")
  {
    assert "john.smith@example.com" == "john.smith" + "@" + "example" + "." + "com";
    AddressOfPartsMatches("john.smith", "example", "com");
  }

  /** Every `local@name.tld` whose three parts are non-empty and free of
      whitespace and `@` matches the pattern. */
  lemma AddressOfPartsMatches(local: string, name: string, tld: string)
    requires |local| > 0 && |name| > 0 && |tld| > 0
    requires AllAddressChars(local) && AllAddressChars(name) && AllAddressChars(tld)
    ensures MatchesEmailPattern(local + "@" + name + "." + tld)
  {
    var email := local + "@" + name + "." + tld;
    var at, dot := |local|, |local| + 1 + |name|;
    assert email[..at] == local;
    assert email[at + 1..dot] == name;
    assert email[dot + 1..] == tld;
    assert email[at] == '@' && email[dot] == '.';
  }

  /** "not-an-email" has no `@` and is rejected. */
  lemma NotAnEmailRejected()
    ensures ValidateEmail("not-an-email") == Fail(InvalidEmailMessage)
  {
    EmailWithoutAtRejected("not-an-email");
  }
}
