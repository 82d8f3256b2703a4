/** The repository contract the workflows consume, modelled over an
    abstract store: the stored records in the order they were saved. */
module PatientRepository {
  import opened Wrappers
  import opened PatientEntity

  /** What the persistence layer does with one `save`: keep the patient
      under the identifier and creation time it reports back, or fail with
      an error. */
  datatype SaveResponse = Persisted(id: string, createdAt: int) | SaveFailed(message: string)

  /** The record a successful save keeps and returns: the submitted name,
      email and birthdate under the identifier and creation time the store
      reports. */
  function StoredRecord(p: Patient, response: SaveResponse): (r: Patient)
    requires response.Persisted?
  {
    p.(id := response.id, createdAt := response.createdAt)
  }

  /** `findByEmail`: a stored patient with that email, or none when no
      stored patient has it. */
  function FindByEmailIn(patients: seq<Patient>, email: string): (r: Option<Patient>)
    ensures r.Some? ==> r.value in patients && r.value.email == email
    ensures r.None? <==> forall p :: p in patients ==> p.email != email
  {
    if patients == [] then None
    else if patients[0].email == email then Some(patients[0])
    else FindByEmailIn(patients[1..], email)
  }

  /** At most one record per email. */
  ghost predicate UniqueEmails(patients: seq<Patient>) {
    forall i, j :: 0 <= i < j < |patients| ==> patients[i].email != patients[j].email
  }

  /** Most recently created first. */
  ghost predicate CreatedDescending(patients: seq<Patient>) {
    forall i, j :: 0 <= i < j < |patients| ==> patients[i].createdAt >= patients[j].createdAt
  }

  /** Puts `p` before the first record that is not more recent than it. */
  function InsertByCreatedDesc(p: Patient, sorted: seq<Patient>): (r: seq<Patient>) {
    if sorted == [] || p.createdAt >= sorted[0].createdAt then [p] + sorted
    else [sorted[0]] + InsertByCreatedDesc(p, sorted[1..])
  }

  /** Inserting adds exactly `p` and loses nothing. */
  lemma {:induction false} InsertPermutes(p: Patient, sorted: seq<Patient>)
    ensures multiset(InsertByCreatedDesc(p, sorted)) == multiset(sorted) + multiset{p}
  {
    if sorted != [] && p.createdAt < sorted[0].createdAt {
      InsertPermutes(p, sorted[1..]);
      assert sorted == [sorted[0]] + sorted[1..];
    }
  }

  /** Inserting into a most-recent-first list keeps it most-recent-first;
      the head is `p` or the old head. */
  lemma {:induction false} InsertKeepsDescending(p: Patient, sorted: seq<Patient>)
    requires CreatedDescending(sorted)
    ensures CreatedDescending(InsertByCreatedDesc(p, sorted))
    ensures InsertByCreatedDesc(p, sorted)[0] == p || (sorted != [] && InsertByCreatedDesc(p, sorted)[0] == sorted[0])
  {
    if sorted != [] && p.createdAt < sorted[0].createdAt {
      var rest := InsertByCreatedDesc(p, sorted[1..]);
      InsertKeepsDescending(p, sorted[1..]);
      var r := [sorted[0]] + rest;
      forall i, j | 0 <= i < j < |r| ensures r[i].createdAt >= r[j].createdAt {
        assert r[j] == rest[j - 1];
        if i == 0 {
          assert sorted[0].createdAt >= rest[0].createdAt;
        } else {
          assert r[i] == rest[i - 1];
        }
      }
    }
  }

  /** The order `findAll` returns the store in (`orderBy createdAt desc`):
      the same records, each as often as stored, most recent first. */
  function SortByCreatedDesc(patients: seq<Patient>): (r: seq<Patient>)
    ensures CreatedDescending(r)
    ensures multiset(r) == multiset(patients)
  {
    if patients == [] then []
    else
      var rest := SortByCreatedDesc(patients[1..]);
      InsertKeepsDescending(patients[0], rest);
      InsertPermutes(patients[0], rest);
      assert patients == [patients[0]] + patients[1..];
      InsertByCreatedDesc(patients[0], rest)
  }

  class Repository {
    /** The store. */
    var patients: seq<Patient>
    /** Every patient passed to `save`, in call order. */
    ghost var saveCalls: seq<Patient>

    constructor ()
      ensures patients == [] && saveCalls == []
    {
      patients := [];
      saveCalls := [];
    }

    /** `findByEmail`: the stored patient with that email, if any, or the
        error the store fails with. */
    method FindByEmail(email: string, fault: Option<string>) returns (r: Result<Option<Patient>, string>)
      ensures fault.Some? ==> r == Failure(fault.value)
      ensures fault.None? ==> r == Success(FindByEmailIn(patients, email))
      ensures fault.None? && r.value.Some? ==> r.value.value in patients && r.value.value.email == email
      ensures fault.None? ==> (r.value.None? <==> forall p :: p in patients ==> p.email != email)
    {
      if fault.Some? {
        return Failure(fault.value);
      }
      r := Success(FindByEmailIn(patients, email));
    }

    /** `save`: on success the store gains exactly the persisted record and
        returns it; on failure the store is unchanged and the error is
        returned. Either way the call is recorded. */
    method Save(p: Patient, response: SaveResponse) returns (r: Result<Patient, string>)
      modifies this
      ensures saveCalls == old(saveCalls) + [p]
      ensures response.Persisted? ==>
        r == Success(StoredRecord(p, response)) && patients == old(patients) + [StoredRecord(p, response)]
      ensures response.SaveFailed? ==> r == Failure(response.message) && patients == old(patients)
    {
      saveCalls := saveCalls + [p];
      match response
      case Persisted(_, _) =>
        var stored := StoredRecord(p, response);
        patients := patients + [stored];
        r := Success(stored);
      case SaveFailed(message) =>
        r := Failure(message);
    }

    /** `findAll`: every stored record, most recent first, or the error the
        store fails with. */
    method FindAll(fault: Option<string>) returns (r: Result<seq<Patient>, string>)
      ensures fault.None? ==> r == Success(SortByCreatedDesc(patients))
      ensures fault.None? ==> CreatedDescending(r.value) && multiset(r.value) == multiset(patients)
      ensures fault.Some? ==> r == Failure(fault.value)
    {
      if fault.Some? {
        r := Failure(fault.value);
      } else {
        r := Success(SortByCreatedDesc(patients));
      }
    }
  }
}
