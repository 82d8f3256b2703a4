/** The create-patient workflow: uniqueness lookup, entity construction,
    save, event publication, in that order, each failure ending the run
    with its own error. */
module CreatePatient {
  import opened Wrappers
  import opened PatientEntity
  import opened PatientRepository
  import opened EventPublishing

  datatype CreatePatientRequest = CreatePatientRequest(name: string, email: string, birthdate: string)

  /** What the workflow takes from its surroundings: the identifier
      `uuidv4()` yields, the current time, and the two Date-library
      operations it uses, `new Date(string)` and `toISOString`. */
  datatype Runtime = Runtime(newId: string, now: int, parseDate: string -> Date, toIsoString: int -> string)

  function DuplicateEmailMessage(email: string): (r: string) {
    "Patient with email " + email + " already exists"
  }

  /** The entity the workflow constructs for a request, or the validation
      error that construction throws. */
  function LocalPatient(request: CreatePatientRequest, runtime: Runtime): (r: Result<Patient, string>) {
    NewPatient(runtime.newId, request.name, request.email, Some(runtime.parseDate(request.birthdate)), None, runtime.now)
  }

  /** What holds of a store and an event log whose every record was
      created by this workflow: one record per email, every record passed
      the name and email checks, and every delivered event describes a
      stored record. */
  ghost predicate ConsistentState(patients: seq<Patient>, published: seq<PatientCreatedEvent>) {
    && UniqueEmails(patients)
    && (forall p :: p in patients ==> NameAcceptable(p.name) && MatchesEmailPattern(p.email))
    && (forall e :: e in published ==> Describes(patients, e))
  }

  ghost predicate Describes(patients: seq<Patient>, e: PatientCreatedEvent) {
    exists p :: p in patients && p.id == e.patientId && p.name == e.name && p.email == e.email
  }

  /** Storing a valid record under an email no stored record has keeps the
      state consistent. */
  lemma StoreKeepsConsistent(patients: seq<Patient>, published: seq<PatientCreatedEvent>, record: Patient)
    requires ConsistentState(patients, published)
    requires FindByEmailIn(patients, record.email).None?
    requires NameAcceptable(record.name) && MatchesEmailPattern(record.email)
    ensures ConsistentState(patients + [record], published)
  {
  }

  /** Publishing the event of a stored record keeps the state consistent. */
  lemma PublishKeepsConsistent(patients: seq<Patient>, published: seq<PatientCreatedEvent>,
                               record: Patient, event: PatientCreatedEvent)
    requires ConsistentState(patients, published)
    requires record in patients
    requires event.patientId == record.id && event.name == record.name && event.email == record.email
    ensures ConsistentState(patients, published + [event])
  {
  }

  class CreatePatientUseCase {
    const repository: Repository
    const publisher: EventPublisher

    constructor (repository: Repository, publisher: EventPublisher)
      ensures this.repository == repository && this.publisher == publisher
    {
      this.repository := repository;
      this.publisher := publisher;
    }

    ghost predicate Consistent()
      reads repository, publisher
    {
      ConsistentState(repository.patients, publisher.published)
    }

    /** `execute`. `lookupFault`, `saveResponse` and `publishFault` say how
        the two collaborators answer this call. */
    method Execute(request: CreatePatientRequest, runtime: Runtime, lookupFault: Option<string>,
                   saveResponse: SaveResponse, publishFault: Option<string>) returns (r: Result<Patient, string>)
      modifies repository, publisher
      ensures old(Consistent()) ==> Consistent()
      ensures
        if lookupFault.Some? then
          // a failing lookup propagates its error; nothing validated, saved or published
          r == Failure(lookupFault.value) && unchanged(repository, publisher)
        else if FindByEmailIn(old(repository.patients), request.email).Some? then
          // an email already stored: the duplicate error, before any validation; nothing saved or published
          r == Failure(DuplicateEmailMessage(request.email)) && unchanged(repository, publisher)
        else if LocalPatient(request, runtime).Failure? then
          // a validation error propagates unchanged; nothing saved or published
          r == Failure(LocalPatient(request, runtime).error) && unchanged(repository, publisher)
        else
          // save is called exactly once, with the constructed entity
          && repository.saveCalls == old(repository.saveCalls) + [LocalPatient(request, runtime).value]
          && match saveResponse
             case SaveFailed(message) =>
               // a failed save propagates its error; nothing is published
               r == Failure(message) && repository.patients == old(repository.patients) && unchanged(publisher)
             case Persisted(_, _) =>
               // the saved record is stored and its event published exactly once; a failed
               // publication propagates its error and the record stays stored
               var saved := StoredRecord(LocalPatient(request, runtime).value, saveResponse);
               var event := PatientCreatedEvent(saved.id, saved.name, saved.email, request.birthdate,
                                                runtime.toIsoString(saved.createdAt));
               && repository.patients == old(repository.patients) + [saved]
               && publisher.publishCalls == old(publisher.publishCalls) + [event]
               && (publishFault.None? ==> r == Success(saved) && publisher.published == old(publisher.published) + [event])
               && (publishFault.Some? ==> r == Failure(publishFault.value) && publisher.published == old(publisher.published))
      // the returned patient is the record the store kept, with the requested fields
      ensures r.Success? ==> |repository.patients| > 0 && r.value == repository.patients[|repository.patients| - 1]
      ensures r.Success? ==> r.value.name == request.name && r.value.email == request.email
                             && r.value.birthdate == runtime.parseDate(request.birthdate)
    {
      var lookup := repository.FindByEmail(request.email, lookupFault);
      if lookup.Failure? {
        return Failure(lookup.error);
      }
      if lookup.value.Some? {
        return Failure(DuplicateEmailMessage(request.email));
      }
      var patient :- LocalPatient(request, runtime);
      ghost var before := repository.patients;
      var savedPatient :- repository.Save(patient, saveResponse);
      assert repository.patients == before + [savedPatient];
      if old(Consistent()) {
        StoreKeepsConsistent(before, publisher.published, savedPatient);
      }
      var event := PatientCreatedEvent(savedPatient.id, savedPatient.name, savedPatient.email,
                                       request.birthdate, runtime.toIsoString(savedPatient.createdAt));
      assert savedPatient in repository.patients;
      :- publisher.PublishPatientCreated(event, publishFault);
      if old(Consistent()) {
        PublishKeepsConsistent(repository.patients, old(publisher.published), savedPatient, event);
      }
      return Success(savedPatient);
    }
  }

  /** 1990-01-01T00:00:00Z in milliseconds. */
  const ExampleBirthdate := 631152000000

  /** Registering "John Smith" <john.smith@example.com> in an empty store
      succeeds and returns that email; repeating the same request fails
      with the duplicate-email error. */
  method DuplicateRegistrationScenario(now: int) returns (first: Result<Patient, string>, second: Result<Patient, string>)
    requires now >= ExampleBirthdate
    ensures first.Success? && first.value.email == "john.smith@example.com"
    ensures second == Failure(DuplicateEmailMessage("john.smith@example.com"))
  {
    var repository := new Repository();
    var publisher := new EventPublisher();
    var useCase := new CreatePatientUseCase(repository, publisher);
    var request := CreatePatientRequest("John Smith", "john.smith@example.com", "1990-01-01");
    var runtime := Runtime("first-id", now, (s: string) => At(ExampleBirthdate), (millis: int) => "");
    assert runtime.parseDate(request.birthdate) == At(ExampleBirthdate);
    ExampleRequestAccepted("first-id", ExampleBirthdate, now);
    assert LocalPatient(request, runtime).Success?;
    assert FindByEmailIn(repository.patients, request.email).None?;
    first := useCase.Execute(request, runtime, None, Persisted("first-id", now), None);
    assert first.Success?;
    assert first.value.email == "john.smith@example.com";
    assert first.value in repository.patients;
    assert FindByEmailIn(repository.patients, request.email).Some?;
    second := useCase.Execute(request, runtime.(newId := "second-id"), None, Persisted("second-id", now), None);
    assert second == Failure(DuplicateEmailMessage("john.smith@example.com"));
  }
}
