/**
 * The `Registration` record of src/models/Registration.ts. The static id
 * counter is passed in as `id` and advanced by RegistrationLedger, the only
 * place registrations are built.
 */
module RegistrationModel {

  datatype Status = Active | Cancelled

  datatype Registration = Registration(
    id: nat,
    eventId: nat,
    userId: nat,
    registeredAt: int,
    status: Status)
  {
    /** `isActive`: the only other status is cancelled. */
    predicate IsActive()
      ensures IsActive() <==> status != Cancelled
    {
      status == Active
    }
  }

  /** `new Registration(eventId, userId)` at time `now`: an active record
      that refers to the event and the user by the ids given. */
  function Construct(id: nat, eventId: nat, userId: nat, now: int): (r: Registration)
    ensures r.IsActive()
    ensures r.id == id && r.eventId == eventId && r.userId == userId && r.registeredAt == now
  {
    Registration(id, eventId, userId, now, Active)
  }
}
