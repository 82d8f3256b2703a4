# Patient creation and listing, modelled in Dafny

This project models the core of `patient-service`, a small service that registers patients.

- **The `Patient` entity.** It is immutable. Its constructor validates the name, the email and the birthdate, in that order. The first check that fails throws its message.
- **The create-patient workflow.** It runs strictly in this order:
  1. look up the email in the repository;
  2. construct the entity;
  3. `save` it;
  4. publish a "patient created" event;
  5. return the saved patient.
- **The display-patients workflow.** It returns whatever the repository's `findAll` returns. Any failure is replaced by one fixed message.

Modules, one per source component:

- `Wrappers` (`wrappers.dfy`): `Option`, `Result` and `Outcome`. A thrown `Error` becomes a `Failure`/`Fail` that carries its message. `Result` and `Outcome` support `:-`, so errors propagate unchanged, as they do in the source.
- `JsText` (`js_text.dfy`): JavaScript's whitespace set and `String.prototype.trim`.
- `PatientEntity` (`patient_entity.dfy`): the entity, its three checks, its constructor and `toJSON`. The email regular expression `^[^\s@]+@[^\s@]+\.[^\s@]+$` appears twice: once as a concatenation (`MatchesEmailPattern`) and once as an explicit split at the `@` (`EmailShaped`). A lemma proves the two accept the same strings.
- `PatientRepository` (`patient_repository.dfy`): the repository contract. It works over an abstract store, a `seq<Patient>` in save order:
  - `findByEmail` is a lookup over the store, or the error the store fails with;
  - `save` appends a record;
  - `findAll` returns the store most-recent-first, as the Prisma repository's `orderBy: { createdAt: 'desc' }` asks for; records with equal `createdAt` keep their save order (see "## Left out").
- `EventPublishing` (`event_publisher.dfy`): the `PatientCreatedEvent` snapshot and the publisher. The publisher's state is the log of delivered events.
- `CreatePatient` (`create_patient.dfy`): the create workflow, written as a class that holds the two collaborators.
- `DisplayPatients` (`display_patients.dfy`): the display workflow.

Values the source takes from its runtime are parameters here:

- `uuidv4()` and the clock are the `newId` and `now` fields of `Runtime`.
- `new Date(string)` and `toISOString` are also `Runtime` fields: the functions `parseDate` and `toIsoString`.
- How the two collaborators answer a call is an argument of that call:
  - `SaveResponse` says whether `save` persists the record or fails. The shipped mock Prisma client keeps the submitted identifier and replaces `createdAt` with its own clock reading. The model lets a persisted record carry a new identifier as well, a generalisation that covers a store assigning its own keys.
  - `lookupFault`, `publishFault` and `findAllFault` are the errors, if any, that `findByEmail`, `publishPatientCreated` and `findAll` throw.

The two collaborators also keep ghost call logs, `saveCalls` and `publishCalls`. With them a contract can say that a collaborator was called, or was not.

Dates are `Date = At(millis) | InvalidDate`. `InvalidDate` is the JavaScript Invalid Date that `new Date` returns for a string it cannot parse. Its time value is NaN, so `birthdate > new Date()` is false for it and the birthdate check passes. `toISOString` then throws "Invalid time value". The model keeps this behaviour (`InvalidBirthdateAccepted`). The request DTO marks the birthdate with class-validator's `@IsDateString`. Whether that check rejects every string `new Date` cannot parse is a property of the library, not of this source, so the model does not rely on it.

The source's error handling, as the model keeps it:

- The entity and the two workflows throw plain `Error`s with fixed messages, and the source defines no error classes of its own. The model carries each failure as its message alone.
- `toJSON` fails when `toISOString` throws the engine's `RangeError` "Invalid time value"; the model carries that message too.
- A failure of `findByEmail`, `save` or `publishPatientCreated` is whatever the collaborator threw, and the create workflow passes it on unchanged (`lookupFault`, `SaveFailed`, `publishFault`).
- The display workflow replaces whatever `findAll` throws with the fixed text "Failed to retrieve patients".
- A failed publication after a successful save leaves the patient stored and reports the failure. The model keeps this and does not add a rollback.

## Model

| member | source | states |
|---|---|---|
| `JsText.Trim` | patient-service/src/domain/entities/patient.entity.ts:15 | `trim()` returns a slice `s[a..b]` of its input whose removed prefix and suffix are all whitespace and which neither starts nor ends with whitespace |
| `JsText.TrimEmptyIffAllWhitespace` | patient-service/src/domain/entities/patient.entity.ts:15-17 | a name trims to the empty string exactly when every character is whitespace, the empty name included |
| `PatientEntity.ValidateName` | patient-service/src/domain/entities/patient.entity.ts:14-21 | fails with "Patient name cannot be empty" iff the name is all whitespace or empty; otherwise fails with "Patient name cannot exceed 255 characters" iff the untrimmed length is over 255; otherwise passes |
| `PatientEntity.NameLengthBoundary` | patient-service/src/domain/entities/patient.entity.ts:18-20 | the limit is measured on the untrimmed name: a 255-character name passes and a 256-character one fails with the too-long message |
| `PatientEntity.EmailShapedIffPattern` | patient-service/src/domain/entities/patient.entity.ts:24 | the explicit reading accepts exactly the strings the regular expression accepts, in both directions. The explicit reading: a non-empty local part, one `@`, no whitespace, and a domain with a dot neither first nor last |
| `PatientEntity.ValidateEmail` | patient-service/src/domain/entities/patient.entity.ts:23-28 | passes iff the email matches `^[^\s@]+@[^\s@]+\.[^\s@]+$`; otherwise fails with "Invalid email format" |
| `PatientEntity.EmailWithoutAtRejected` | patient-service/src/domain/entities/patient.entity.ts:24-27 | an email with no `@` is rejected with "Invalid email format" |
| `PatientEntity.EmailWithTwoAtsRejected` | patient-service/src/domain/entities/patient.entity.ts:24-27 | an email with two `@` is rejected with "Invalid email format" |
| `PatientEntity.EmailWithWhitespaceRejected` | patient-service/src/domain/entities/patient.entity.ts:24-27 | an email with a whitespace character anywhere is rejected with "Invalid email format" |
| `PatientEntity.EmailWithoutInteriorDotRejected` | patient-service/src/domain/entities/patient.entity.ts:24-27 | `local@domain` is rejected whenever the domain has no dot strictly inside it, whatever the local part |
| `PatientEntity.AddressOfPartsMatches` | patient-service/src/domain/entities/patient.entity.ts:24 | every `local@name.tld` whose three parts are non-empty and free of whitespace and `@` matches the pattern |
| `PatientEntity.NotAnEmailRejected` | patient-service/src/domain/entities/patient.entity.ts:24-27 | "not-an-email" is rejected with "Invalid email format" |
| `PatientEntity.ValidateBirthdate` | patient-service/src/domain/entities/patient.entity.ts:30-37 | a missing birthdate fails with "Birthdate is required"; a timestamp after now fails with "Birthdate cannot be in the future"; anything else passes, the Invalid Date included |
| `PatientEntity.BirthdateBoundary` | patient-service/src/domain/entities/patient.entity.ts:34-36 | a birthdate equal to now is accepted; one millisecond later is rejected as in the future |
| `PatientEntity.NewPatient` | patient-service/src/domain/entities/patient.entity.ts:2-12 | construction succeeds iff all three checks hold. On success the patient holds exactly the given arguments, and `createdAt` defaults to now. Checks run name, email, birthdate, and the first failing check's message is the error, e.g. a bad name wins over a bad email. The identifier is never checked |
| `PatientEntity.InvalidBirthdateAccepted` | patient-service/src/domain/entities/patient.entity.ts:30-45 | an Invalid Date birthdate passes construction whenever name and email pass, and `toJSON` of that patient fails with "Invalid time value" |
| `PatientEntity.ToJson` | patient-service/src/domain/entities/patient.entity.ts:39-47 | copies id, name and email unchanged and renders both dates with `toISOString`; fails with "Invalid time value" exactly when the birthdate is an Invalid Date |
| `PatientEntity.ToJsonOfNewPatient` | patient-service/src/domain/entities/patient.entity.ts:2-47 | the JSON of a freshly constructed patient carries exactly the given id, name and email, the rendered birthdate, and now as its creation time |
| `PatientEntity.ExampleRequestAccepted` | patient-service/src/application/use-cases/create-patient.use-case.spec.ts:28-42 | the example "John Smith" / "john.smith@example.com" is accepted for any birthdate not in the future, and yields a patient holding those values |
| `PatientRepository.FindByEmailIn` | patient-service/src/infrastructure/database/patient.repository.ts:48-64 | a found patient is in the store and has the email; nothing is found iff no stored patient has the email |
| `PatientRepository.SortByCreatedDesc` | patient-service/src/infrastructure/database/patient.repository.ts:66-69 | the listing is ordered by `createdAt` descending and is a permutation of the store: no record lost or duplicated |
| `PatientRepository.InsertPermutes` | patient-service/src/infrastructure/database/patient.repository.ts:66-69 | placing one record into the listing adds exactly that record and loses none |
| `PatientRepository.InsertKeepsDescending` | patient-service/src/infrastructure/database/patient.repository.ts:66-69 | placing one record into a most-recent-first listing keeps it most-recent-first |
| `PatientRepository.Repository.FindByEmail` | patient-service/src/infrastructure/database/patient.repository.ts:48-64 | fails with the store's error when the query rejects; otherwise is the lookup `FindByEmailIn` over the current store: a stored patient with that email, or none exactly when the store has no such patient |
| `PatientRepository.Repository.Save` | patient-service/src/infrastructure/database/patient.repository.ts:10-28 | records the call. On success the store gains exactly the persisted record, which is returned. On failure the store is unchanged and the error is returned |
| `PatientRepository.Repository.FindAll` | patient-service/src/infrastructure/database/patient.repository.ts:66-81 | returns every stored record, most recent first and each exactly as often as stored, or the store's error |
| `EventPublishing.EventPublisher.PublishPatientCreated` | patient-service/src/domain/interfaces/event-publisher.interface.ts:9-11 | records the call. On success the event is appended to the log. On failure the log is unchanged and the error is returned |
| `CreatePatient.StoreKeepsConsistent` | patient-service/src/application/use-cases/create-patient.use-case.ts:25-39 | saving a validated record whose email the lookup did not find keeps the store at one record per email, with every record passing the name and email checks |
| `CreatePatient.PublishKeepsConsistent` | patient-service/src/application/use-cases/create-patient.use-case.ts:42-50 | publishing an event built from a stored record keeps every delivered event matched by a stored record |
| `CreatePatient.CreatePatientUseCase.Execute` | patient-service/src/application/use-cases/create-patient.use-case.ts:23-53 | see the list below the table |
| `CreatePatient.DuplicateRegistrationScenario` | patient-service/src/application/use-cases/create-patient.use-case.spec.ts:34-83 | creating John Smith in an empty store succeeds with that email; repeating the same request fails with "Patient with email john.smith@example.com already exists" |
| `DisplayPatients.DisplayPatientsUseCase.Execute` | patient-service/src/application/use-cases/display-patients.use-case.ts:13-20 | only reads. On success it returns exactly `findAll`'s sequence, most recent first and a permutation of the store. On any failure it returns "Failed to retrieve patients" |

What the contract of `CreatePatient.CreatePatientUseCase.Execute` states:

- **Lookup failure.** If `findByEmail` fails, its error is returned before any validation, and the store, the log and both call logs are unchanged.
- **Duplicate email.** Otherwise, if the lookup finds the email, the result is "Patient with email <email> already exists". This holds whatever validation would say. The store, the log and both call logs are unchanged.
- **Invalid entity.** Otherwise, if construction fails, its error is returned unchanged and nothing changes.
- **Save.** Otherwise `save` is called exactly once, with the constructed entity.
  - If `save` fails, its error is returned and nothing is published.
  - If it succeeds, the store gains exactly the saved record, and `publishPatientCreated` is called exactly once. The event carries the saved record's id, name, email and rendered `createdAt`, plus the raw request birthdate.
- **Publish.** A failed publication returns its error, and the record stays stored.
- **Result.** On success the result is the record the store returned, not the locally built one. It carries the requested name and email and the parsed birthdate.
- **Invariant.** The method preserves the invariant `Consistent`: one record per email, every record passing the name and email checks, every delivered event matched by a stored record.

## Left out

- HTTP boundary: the controller, the DTO validators, Swagger, CORS and module wiring are not modelled. The controller maps every thrown `Error` to status 400, including save and publish failures (patient-service/src/infrastructure/controllers/patient.controller.ts:53-62).
- Date library: `new Date(string)` and `toISOString` are the uninterpreted parameters `Runtime.parseDate` and `Runtime.toIsoString`. Their parsing and formatting are not modelled.
- Clock: the source reads the clock twice, once for the `createdAt` default and once for the birthdate comparison. Both reads are the single parameter `now` here.
- Identifier generation: `uuidv4()` is the caller-supplied `Runtime.newId`. Its uniqueness is not modelled, and no invariant relies on it.
- String length: `|name|` counts Unicode scalar values. JavaScript's `length` counts UTF-16 code units, so a name with characters outside the Basic Multilingual Plane is counted shorter here.
- Null and undefined arguments: name and email are always strings here. Only the birthdate can be absent (`None`), which models the `!birthdate` branch.
- `findById`: part of the repository interface, but the core never calls it.
- Concrete persistence and messaging: the Prisma client, its mock and the RabbitMQ and notification stubs are replaced by the abstract store and event log. The shipped mock's `findUnique` always returns null and its `findMany` always returns `[]` (patient-service/src/infrastructure/database/prisma.service.ts:13-14), so with it the duplicate check never fires and the listing is always empty. The model's store remembers what was saved, on purpose, so that both operations have meaning. The Prisma repository rebuilds every record it returns with `new Patient(...)`, which validates again; that second validation is not modelled.
- `PatientRepository.Repository.FindAll`: patients with equal `createdAt` are listed in the order they were saved. This tie order is the model's choice; `orderBy: { createdAt: 'desc' }` leaves it to the database, and `createdAt` has only millisecond resolution, so ties can occur. What the source does promise, most recent first and every stored record exactly once, is stated separately (`CreatedDescending` and the multiset equality). The same applies to `DisplayPatients.DisplayPatientsUseCase.Execute`, which returns `findAll`'s sequence.
- `PatientRepository.Repository.Save`: the rest of a persisted record (name, email, birthdate) is always the submitted one. Only the identifier and creation time may differ; the shipped mock changes only the creation time.
- `EventPublishing.EventPublisher.PublishPatientCreated`: a failed publication is treated as not delivered. A broker that delivers and then reports an error is not modelled.
- Concurrency: the model is sequential. A race between two requests with the same email, between the lookup and the save, is not modelled. Neither is any interleaving of the `await`ed calls.
- Frontend: the React form, the page and the axios client are not modelled.
