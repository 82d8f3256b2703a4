/** The display-patients workflow: one read of the store, returned as it
    comes, with any failure replaced by a fixed message. */
module DisplayPatients {
  import opened Wrappers
  import opened PatientEntity
  import opened PatientRepository

  const RetrievalFailedMessage := "Failed to retrieve patients"

  class DisplayPatientsUseCase {
    const repository: Repository

    constructor (repository: Repository)
      ensures this.repository == repository
    {
      this.repository := repository;
    }

    /** `execute`. `findAllFault` is the error, if any, that `findAll`
        throws. The method only reads. */
    method Execute(findAllFault: Option<string>) returns (r: Result<seq<Patient>, string>)
      ensures findAllFault.None? ==> r.Success? && r.value == SortByCreatedDesc(repository.patients)
      ensures r.Success? ==> CreatedDescending(r.value) && multiset(r.value) == multiset(repository.patients)
      ensures findAllFault.Some? ==> r == Failure(RetrievalFailedMessage)
    {
      var listing := repository.FindAll(findAllFault);
      match listing
      case Success(patients) =>
        r := Success(patients);
      case Failure(_) =>
        r := Failure(RetrievalFailedMessage);
    }
  }
}
