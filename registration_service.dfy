/**
 * `RegistrationService` of src/services/RegistrationService.ts. Its state is
 * the value Ledger: the registrations, the users, and the two id counters
 * (`User.nextId` and `Registration.nextId`), which only this service
 * advances. Register on a Ledger is the transaction; the class
 * RegistrationService does the same steps in place and is proved to end in
 * the Ledger that function computes.
 */
module RegistrationLedger {
  import opened Wrappers
  import opened Strings
  import opened Seqs
  import opened EventModel
  import opened UserModel
  import opened RegistrationModel

  /** The errors `registerUser` throws, one per check. */
  datatype RegistrationError =
    | EventPast
    | EventFull
    | InvalidUser(reason: UserError)
    | AlreadyRegistered

  datatype Ledger = Ledger(
    registrations: seq<Registration>,
    users: seq<User>,
    nextUserId: nat,
    nextRegistrationId: nat)
  {
    /** What the service keeps true: ids come from the counters in the
        order handed out, a user is found by at most one email, and an event
        has at most one active registration per user. */
    predicate Valid() {
      && (forall i :: 0 <= i < |users| ==> users[i].id < nextUserId)
      && (forall i, j :: 0 <= i < j < |users| ==> users[i].id < users[j].id)
      && (forall i, j :: 0 <= i < j < |users| ==> users[i].email != users[j].email)
      && (forall i :: 0 <= i < |registrations| ==>
            registrations[i].id < nextRegistrationId && registrations[i].userId < nextUserId)
      && (forall i, j :: 0 <= i < j < |registrations| ==> registrations[i].id < registrations[j].id)
      && (forall i, j :: 0 <= i < j < |registrations| ==>
            registrations[i].IsActive() && registrations[j].IsActive()
            && registrations[i].eventId == registrations[j].eventId
            ==> registrations[i].userId != registrations[j].userId)
    }
  }

  /** The state of a new service. */
  const Empty := Ledger([], [], 1, 1)

  /** `reg => reg.eventId === eventId && reg.isActive()`. */
  function ActiveFor(eventId: nat): Registration -> bool {
    (reg: Registration) => reg.eventId == eventId && reg.IsActive()
  }

  /** `user => user.email === email`. */
  function HasEmail(email: string): User -> bool {
    (u: User) => u.email == email
  }

  /** `user => user.id === id`. */
  function HasUserId(id: nat): User -> bool {
    (u: User) => u.id == id
  }

  /** `getEventRegistrations`: the active registrations of the event, in
      stored order. */
  function EventRegistrations(l: Ledger, eventId: nat): (r: seq<Registration>)
    ensures forall i :: 0 <= i < |r| ==>
      r[i] in l.registrations && r[i].eventId == eventId && r[i].IsActive()
    ensures forall i :: 0 <= i < |l.registrations| ==>
      l.registrations[i].eventId == eventId && l.registrations[i].IsActive() ==> l.registrations[i] in r
  {
    Filter(l.registrations, ActiveFor(eventId))
  }

  /** `findUserByEmail`: the first user whose stored email is the
      lower-cased argument. */
  function FindUserByEmail(l: Ledger, email: string): (r: Option<User>)
    ensures r.None? <==> forall i :: 0 <= i < |l.users| ==> l.users[i].email != Lower(email)
    ensures r.Some? ==> r.value in l.users && r.value.email == Lower(email)
  {
    Find(l.users, HasEmail(Lower(email)))
  }

  /** `getUserById`: the first user with that id. */
  function GetUserById(l: Ledger, id: nat): (r: Option<User>)
    ensures r.None? <==> forall i :: 0 <= i < |l.users| ==> l.users[i].id != id
    ensures r.Some? ==> r.value in l.users && r.value.id == id
  {
    Find(l.users, HasUserId(id))
  }

  /** The `some` test: an active registration of this user to this event. */
  predicate HasActive(l: Ledger, eventId: nat, userId: nat) {
    exists i :: 0 <= i < |l.registrations| && l.registrations[i].eventId == eventId
      && l.registrations[i].userId == userId && l.registrations[i].IsActive()
  }

  /** The find-or-create step: the user already stored under the
      lower-cased email, unchanged; otherwise a new user from the counter,
      appended; otherwise the constructor's error. It fails only for an
      unknown email, and never touches the registrations. */
  function ResolveUser(l: Ledger, userName: string, userEmail: string, now: int)
    : (r: Result<(User, Ledger), UserError>)
    ensures r.Success? ==>
      && r.value.0.email == Lower(userEmail) && r.value.0 in r.value.1.users
      && r.value.1.registrations == l.registrations
      && r.value.1.nextRegistrationId == l.nextRegistrationId
    ensures FindUserByEmail(l, userEmail).Some? ==>
      r.Success? && r.value.1 == l && r.value.0 == FindUserByEmail(l, userEmail).value
    ensures FindUserByEmail(l, userEmail).None? && r.Success? ==>
      && r.value.0 == User(l.nextUserId, Trim(userName), Lower(userEmail), now)
      && r.value.1.users == l.users + [r.value.0]
      && r.value.1.nextUserId == l.nextUserId + 1
    ensures r.Failure? <==>
      FindUserByEmail(l, userEmail).None? && (|Trim(userName)| < 2 || !IsInstitutionalEmail(userEmail))
    ensures r.Failure? ==> (r.error == NameTooShort <==> |Trim(userName)| < 2)
  {
    var found := FindUserByEmail(l, userEmail);
    if found.Some? then Success((found.value, l))
    else
      match UserModel.Construct(l.nextUserId, userName, userEmail, now)
      case Failure(e) => Failure(e)
      case Success(u) => Success((u, l.(users := l.users + [u], nextUserId := l.nextUserId + 1)))
  }

  /** `registerUser` at time `now`: the outcome and the ledger after it. The
      checks run in the order past, full, user, duplicate. A user created by
      the third step is stored even if the fourth then fails (which
      NewUserNeverDuplicate shows cannot happen on a valid ledger). */
  function Register(l: Ledger, event: Event, userName: string, userEmail: string, now: int)
    : (out: (Result<Registration, RegistrationError>, Ledger))
    ensures event.IsPast(now) ==> out == (Failure(EventPast), l)
    ensures !event.IsPast(now) && |EventRegistrations(l, event.id)| >= event.maxCapacity ==>
      out == (Failure(EventFull), l)
    ensures out.0.Failure? && out.0.error.InvalidUser? ==>
      out.1 == l && ResolveUser(l, userName, userEmail, now) == Failure(out.0.error.reason)
    ensures out.0.Success? ==>
      && !event.IsPast(now)
      && |EventRegistrations(l, event.id)| < event.maxCapacity
      && out.0.value == Registration(l.nextRegistrationId, event.id, out.0.value.userId, now, Active)
      && out.1.registrations == l.registrations + [out.0.value]
      && out.1.nextRegistrationId == l.nextRegistrationId + 1
      && !HasActive(l, event.id, out.0.value.userId)
  {
    if event.IsPast(now) then (Failure(EventPast), l)
    else if |EventRegistrations(l, event.id)| >= event.maxCapacity then (Failure(EventFull), l)
    else
      match ResolveUser(l, userName, userEmail, now)
      case Failure(e) => (Failure(InvalidUser(e)), l)
      case Success((user, l2)) =>
        if HasActive(l2, event.id, user.id) then (Failure(AlreadyRegistered), l2)
        else
          var reg := RegistrationModel.Construct(l2.nextRegistrationId, event.id, user.id, now);
          (Success(reg), l2.(registrations := l2.registrations + [reg],
                             nextRegistrationId := l2.nextRegistrationId + 1))
  }

  /** When each check fails: the past check first, then the capacity check;
      an open event then registers the resolved user unless that user already
      holds an active registration to it, which gives the duplicate error. */
  lemma RegisterOutcome(l: Ledger, event: Event, userName: string, userEmail: string, now: int)
    ensures var out := Register(l, event, userName, userEmail, now);
      var res := ResolveUser(l, userName, userEmail, now);
      var open := !event.IsPast(now) && |EventRegistrations(l, event.id)| < event.maxCapacity;
      && (out.0 == Failure(EventPast) <==> event.IsPast(now))
      && (out.0 == Failure(EventFull) <==>
            !event.IsPast(now) && |EventRegistrations(l, event.id)| >= event.maxCapacity)
      && (out.0 == Failure(AlreadyRegistered) <==>
            open && res.Success? && HasActive(res.value.1, event.id, res.value.0.id))
      && (out.0.Success? <==>
            open && res.Success? && !HasActive(res.value.1, event.id, res.value.0.id))
  {
  }

  /** A user already stored under the lower-cased email is reused as it is:
      no user is added and the stored name is not updated. */
  lemma ExistingUserReused(l: Ledger, event: Event, userName: string, userEmail: string, now: int)
    requires FindUserByEmail(l, userEmail).Some?
    ensures var out := Register(l, event, userName, userEmail, now);
      && out.1.users == l.users && out.1.nextUserId == l.nextUserId
      && (out.0.Success? ==> out.0.value.userId == FindUserByEmail(l, userEmail).value.id)
  {
  }

  /** Otherwise a registration, or the duplicate error, comes with exactly one
      new user, built by the User constructor from the counter. */
  lemma NewUserAppended(l: Ledger, event: Event, userName: string, userEmail: string, now: int)
    requires FindUserByEmail(l, userEmail).None?
    requires Register(l, event, userName, userEmail, now).0.Success?
          || Register(l, event, userName, userEmail, now).0 == Failure(AlreadyRegistered)
    ensures var out := Register(l, event, userName, userEmail, now);
      && out.1.users == l.users + [User(l.nextUserId, Trim(userName), Lower(userEmail), now)]
      && out.1.nextUserId == l.nextUserId + 1
      && (out.0.Success? ==> out.0.value.userId == l.nextUserId)
  {
    var c := UserModel.Construct(l.nextUserId, userName, userEmail, now);
    assert c.Success?;
    var u := c.value;
    assert ResolveUser(l, userName, userEmail, now)
      == Success((u, l.(users := l.users + [u], nextUserId := l.nextUserId + 1)));
  }

  /** The user error is reported exactly when the first two checks pass, no
      user has the email and the User constructor refuses the input. */
  lemma UserErrorWhen(l: Ledger, event: Event, userName: string, userEmail: string, now: int)
    ensures var out := Register(l, event, userName, userEmail, now);
      && ((out.0.Failure? && out.0.error.InvalidUser?) <==>
            && !event.IsPast(now) && |EventRegistrations(l, event.id)| < event.maxCapacity
            && FindUserByEmail(l, userEmail).None?
            && UserModel.Construct(l.nextUserId, userName, userEmail, now).Failure?)
      && (out.0.Failure? && out.0.error.InvalidUser? ==>
            out.0.error.reason == if |Trim(userName)| < 2 then NameTooShort else NotInstitutional)
  {
  }

  /** On a valid ledger a user created by the third step has an id that no
      registration uses yet, so the duplicate check cannot fail for it. */
  lemma NewUserNeverDuplicate(l: Ledger, event: Event, userName: string, userEmail: string, now: int)
    requires l.Valid()
    requires FindUserByEmail(l, userEmail).None?
    ensures Register(l, event, userName, userEmail, now).0 != Failure(AlreadyRegistered)
  {
    if UserModel.Construct(l.nextUserId, userName, userEmail, now).Success? {
      assert !HasActive(l, event.id, l.nextUserId);
    }
  }

  /** Hence every refusal leaves a valid ledger exactly as it was. */
  lemma FailureLeavesLedger(l: Ledger, event: Event, userName: string, userEmail: string, now: int)
    requires l.Valid()
    ensures Register(l, event, userName, userEmail, now).0.Failure? ==>
      Register(l, event, userName, userEmail, now).1 == l
  {
    if FindUserByEmail(l, userEmail).None? {
      NewUserNeverDuplicate(l, event, userName, userEmail, now);
    }
  }

  /** Storing a user with the next id and an email nobody has keeps the
      ledger valid. */
  lemma AddUserKeepsValid(l: Ledger, u: User)
    requires l.Valid() && u.id == l.nextUserId
    requires forall i :: 0 <= i < |l.users| ==> l.users[i].email != u.email
    ensures l.(users := l.users + [u], nextUserId := l.nextUserId + 1).Valid()
  {
  }

  /** Storing a registration with the next id, a known user, and no active
      registration of that user to that event keeps the ledger valid. */
  lemma AddRegistrationKeepsValid(l: Ledger, reg: Registration)
    requires l.Valid() && reg.id == l.nextRegistrationId && reg.userId < l.nextUserId
    requires !HasActive(l, reg.eventId, reg.userId)
    ensures l.(registrations := l.registrations + [reg],
               nextRegistrationId := l.nextRegistrationId + 1).Valid()
  {
    var regs := l.registrations + [reg];
    assert forall i :: 0 <= i < |l.registrations| ==> regs[i] == l.registrations[i];
  }

  /** The transaction keeps the ledger valid: the counters stay ahead of
      every id, emails stay unique, and an event never gets a second active
      registration of the same user. */
  lemma RegisterKeepsValid(l: Ledger, event: Event, userName: string, userEmail: string, now: int)
    requires l.Valid()
    ensures Register(l, event, userName, userEmail, now).1.Valid()
  {
    var out := Register(l, event, userName, userEmail, now);
    FailureLeavesLedger(l, event, userName, userEmail, now);
    if out.0.Success? {
      var l2 := l;
      if FindUserByEmail(l, userEmail).None? {
        NewUserAppended(l, event, userName, userEmail, now);
        var u := User(l.nextUserId, Trim(userName), Lower(userEmail), now);
        AddUserKeepsValid(l, u);
        l2 := l.(users := l.users + [u], nextUserId := l.nextUserId + 1);
      } else {
        ExistingUserReused(l, event, userName, userEmail, now);
      }
      assert out.1 == l2.(registrations := l2.registrations + [out.0.value],
                          nextRegistrationId := l2.nextRegistrationId + 1);
      AddRegistrationKeepsValid(l2, out.0.value);
    }
  }

  /** No other registration changes: the active registrations of every event
      are as before, except that a successful registration joins the end of
      its own event's list. */
  lemma RegistrationsAfter(l: Ledger, event: Event, userName: string, userEmail: string, now: int,
                           eventId: nat)
    ensures var out := Register(l, event, userName, userEmail, now);
      EventRegistrations(out.1, eventId) ==
        EventRegistrations(l, eventId)
        + (if out.0.Success? && eventId == event.id then [out.0.value] else [])
  {
    var out := Register(l, event, userName, userEmail, now);
    if out.0.Success? {
      FilterAppend(l.registrations, [out.0.value], ActiveFor(eventId));
    }
  }

  /** The capacity ceiling: a registration is only added below capacity, so
      an event within its capacity stays within it. */
  lemma CapacityCeiling(l: Ledger, event: Event, userName: string, userEmail: string, now: int)
    requires |EventRegistrations(l, event.id)| <= event.maxCapacity
    ensures |EventRegistrations(Register(l, event, userName, userEmail, now).1, event.id)|
      <= event.maxCapacity
  {
    RegistrationsAfter(l, event, userName, userEmail, now, event.id);
  }

  /** The service object: the two arrays and the two counters, changed in
      place by `registerUser`. */
  class RegistrationService {
    var registrations: seq<Registration>
    var users: seq<User>
    var nextUserId: nat
    var nextRegistrationId: nat

    /** The state as a Ledger value; the queries are EventRegistrations,
        FindUserByEmail and GetUserById on it. */
    function Snapshot(): Ledger
      reads this
    {
      Ledger(registrations, users, nextUserId, nextRegistrationId)
    }

    ghost predicate Valid()
      reads this
    {
      Snapshot().Valid()
    }

    constructor()
      ensures Snapshot() == Empty && Valid()
    {
      registrations := [];
      users := [];
      nextUserId := 1;
      nextRegistrationId := 1;
    }

    /** The find-or-create step of `registerUser`: the user stored under the
        lower-cased email, or a new one from the counter, appended. */
    method FindOrCreateUser(userName: string, userEmail: string, now: int)
      returns (r: Result<User, UserError>)
      modifies this
      ensures r.Failure? ==>
        ResolveUser(old(Snapshot()), userName, userEmail, now) == Failure(r.error)
        && Snapshot() == old(Snapshot())
      ensures r.Success? ==>
        ResolveUser(old(Snapshot()), userName, userEmail, now) == Success((r.value, Snapshot()))
    {
      var found := Find(users, HasEmail(Lower(userEmail)));
      if found.Some? {
        return Success(found.value);
      }
      var created := UserModel.Construct(nextUserId, userName, userEmail, now);
      if created.Failure? {
        return Failure(created.error);
      }
      r := created;
      nextUserId := nextUserId + 1;
      users := users + [created.value];
    }

    /** `registerUser`: returns the outcome and leaves the state of the
        transaction Register on the old state; a refusal changes
        nothing. */
    method RegisterUser(event: Event, userName: string, userEmail: string, now: int)
      returns (r: Result<Registration, RegistrationError>)
      requires Valid()
      modifies this
      ensures Valid()
      ensures (r, Snapshot()) == Register(old(Snapshot()), event, userName, userEmail, now)
      ensures r.Failure? ==> Snapshot() == old(Snapshot())
    {
      ghost var l := Snapshot();
      if event.IsPast(now) {
        r := Failure(EventPast);
      } else if |Filter(registrations, ActiveFor(event.id))| >= event.maxCapacity {
        r := Failure(EventFull);
      } else {
        var resolved := FindOrCreateUser(userName, userEmail, now);
        if resolved.Failure? {
          r := Failure(InvalidUser(resolved.error));
        } else if HasActive(Snapshot(), event.id, resolved.value.id) {
          r := Failure(AlreadyRegistered);
          assert (r, Snapshot()) == Register(l, event, userName, userEmail, now);
        } else {
          ghost var l2 := Snapshot();
          var reg := RegistrationModel.Construct(nextRegistrationId, event.id, resolved.value.id, now);
          nextRegistrationId := nextRegistrationId + 1;
          registrations := registrations + [reg];
          r := Success(reg);
          assert Snapshot() == l2.(registrations := l2.registrations + [reg],
                                   nextRegistrationId := l2.nextRegistrationId + 1);
          assert (r, Snapshot()) == Register(l, event, userName, userEmail, now);
        }
      }
      assert (r, Snapshot()) == Register(l, event, userName, userEmail, now);
      RegisterKeepsValid(l, event, userName, userEmail, now);
      FailureLeavesLedger(l, event, userName, userEmail, now);
    }
  }
}
