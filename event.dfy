/**
 * The `Event` entity of src/models/Event.ts. An event is a value: once built it
 * is never changed. Its constructor's five checks and the trimming are the
 * function Construct; the static id counter it reads is passed in as `id` and
 * advanced by EventCatalog.EventService, the only place events are built.
 * Dates are milliseconds since the epoch; `now` is the clock.
 */
module EventModel {
  import opened Wrappers
  import opened Strings

  /** `EventCategory`. */
  datatype Category = Conference | Sport | Workshop | Other {
    /** The string value the enum member carries. */
    function Value(): (v: string)
      ensures v != []
    {
      match this
      case Conference => "conf\U{00E9}rence"
      case Sport => "sport"
      case Workshop => "atelier"
      case Other => "autre"
    }
  }

  lemma CategoryValueInjective(a: Category, b: Category)
    ensures a.Value() == b.Value() <==> a == b
  {
    if a != b {
      assert a.Value()[0] != b.Value()[0] || a.Value()[1] != b.Value()[1];
    }
  }

  datatype Event = Event(
    id: nat,
    title: string,
    description: string,
    date: int,
    location: string,
    category: Category,
    maxCapacity: int,
    createdAt: int)
  {
    /** `isPast`: the event's date is strictly before the clock. A past
        event fails the constructor's date rule; one that is not past passes
        it, unless it is dated exactly `now`. */
    predicate IsPast(now: int)
      ensures IsPast(now) ==> !DateOk(date, now)
      ensures !IsPast(now) && date != now ==> DateOk(date, now)
    {
      date < now
    }
  }

  /** The constructor's error messages, one per check. */
  datatype EventError =
    | TitleTooShort
    | DescriptionTooShort
    | DateNotInFuture
    | LocationMissing
    | CapacityTooSmall

  /** The five rules of the constructor, each on its own. */
  predicate TitleOk(title: string) { |Trim(title)| >= 3 }
  predicate DescriptionOk(description: string) { |Trim(description)| >= 10 }
  predicate DateOk(date: int, now: int) { date > now }
  predicate LocationOk(location: string) { |Trim(location)| >= 3 }
  predicate CapacityOk(maxCapacity: int) { maxCapacity >= 1 }

  /** `new Event(...)` at time `now`, with `id` the counter's current value.
      It fails with the first rule broken, in the order title, description,
      date, location, capacity; otherwise it stores the three texts trimmed,
      the other inputs as given, and the event is not past at `now`. */
  function Construct(id: nat, title: string, description: string, date: int,
                     location: string, category: Category, maxCapacity: int,
                     now: int): (r: Result<Event, EventError>)
    ensures r == Failure(TitleTooShort) <==> !TitleOk(title)
    ensures r == Failure(DescriptionTooShort) <==> TitleOk(title) && !DescriptionOk(description)
    ensures r == Failure(DateNotInFuture) <==>
      TitleOk(title) && DescriptionOk(description) && !DateOk(date, now)
    ensures r == Failure(LocationMissing) <==>
      TitleOk(title) && DescriptionOk(description) && DateOk(date, now) && !LocationOk(location)
    ensures r == Failure(CapacityTooSmall) <==>
      TitleOk(title) && DescriptionOk(description) && DateOk(date, now) && LocationOk(location)
      && !CapacityOk(maxCapacity)
    ensures r.Success? ==> Valid(r.value) && !r.value.IsPast(now)
    ensures r.Success? ==>
      && r.value.id == id
      && r.value.title == Trim(title)
      && r.value.description == Trim(description)
      && r.value.location == Trim(location)
      && r.value.date == date && r.value.category == category
      && r.value.maxCapacity == maxCapacity && r.value.createdAt == now
  {
    // `!title` only adds the empty string, which trims to length 0 anyway.
    if |Trim(title)| < 3 then Failure(TitleTooShort)
    else if |Trim(description)| < 10 then Failure(DescriptionTooShort)
    else if date <= now then Failure(DateNotInFuture)
    else if |Trim(location)| < 3 then Failure(LocationMissing)
    else if maxCapacity < 1 then Failure(CapacityTooSmall)
    else Success(Event(id, Trim(title), Trim(description), date, Trim(location),
                       category, maxCapacity, now))
  }

  /** The invariant every constructed event keeps for its lifetime: the texts
      are already trimmed and long enough, and the capacity is at least 1. */
  predicate Valid(e: Event) {
    && Trimmed(e.title) && |e.title| >= 3
    && Trimmed(e.description) && |e.description| >= 10
    && Trimmed(e.location) && |e.location| >= 3
    && e.maxCapacity >= 1
  }
}
