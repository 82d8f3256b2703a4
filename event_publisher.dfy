/** The event-publisher contract: one operation, `publishPatientCreated`. */
module EventPublishing {
  import opened Wrappers

  /** The snapshot published once per created patient. */
  datatype PatientCreatedEvent = PatientCreatedEvent(
    patientId: string, name: string, email: string, birthdate: string, createdAt: string)

  class EventPublisher {
    /** Events delivered, in order. */
    var published: seq<PatientCreatedEvent>
    /** Every event passed to `publishPatientCreated`, in call order. */
    ghost var publishCalls: seq<PatientCreatedEvent>

    constructor ()
      ensures published == [] && publishCalls == []
    {
      published := [];
      publishCalls := [];
    }

    /** Records the call; delivers the event unless the transport fails. */
    method PublishPatientCreated(event: PatientCreatedEvent, fault: Option<string>) returns (r: Outcome<string>)
      modifies this
      ensures publishCalls == old(publishCalls) + [event]
      ensures fault.None? ==> r == Pass && published == old(published) + [event]
      ensures fault.Some? ==> r == Fail(fault.value) && published == old(published)
    {
      publishCalls := publishCalls + [event];
      if fault.Some? {
        r := Fail(fault.value);
      } else {
        published := published + [event];
        r := Pass;
      }
    }
  }
}
