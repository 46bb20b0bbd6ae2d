/**
 * `EventService` of src/services/EventService.ts: the list of events in
 * creation order, together with the `Event` id counter it is the only user of.
 */
module EventCatalog {
  import opened Wrappers
  import opened Seqs
  import opened EventModel
  import opened Strings

  /** Ascending by date. */
  predicate SortedByDate(s: seq<Event>) {
    forall i, j :: 0 <= i < j < |s| ==> s[i].date <= s[j].date
  }

  /** Inserts `e` before the first event that is not earlier than it. */
  function InsertByDate(e: Event, s: seq<Event>): (r: seq<Event>)
    requires SortedByDate(s)
    ensures SortedByDate(r)
    ensures forall i :: 0 <= i < |r| ==> r[i] == e || r[i] in s
    ensures multiset(r) == multiset(s) + multiset{e}
    decreases |s|
  {
    if s == [] then [e]
    else if e.date <= s[0].date then [e] + s
    else
      var rest := InsertByDate(e, s[1..]);
      InsertAfterHead(e, s, rest);
      [s[0]] + rest
  }

  /** The step of InsertByDate that keeps the head in front. */
  lemma InsertAfterHead(e: Event, s: seq<Event>, rest: seq<Event>)
    requires SortedByDate(s) && s != [] && s[0].date < e.date
    requires SortedByDate(rest)
    requires forall i :: 0 <= i < |rest| ==> rest[i] == e || rest[i] in s[1..]
    requires multiset(rest) == multiset(s[1..]) + multiset{e}
    ensures SortedByDate([s[0]] + rest)
    ensures forall i :: 0 <= i < |rest| + 1 ==> ([s[0]] + rest)[i] == e || ([s[0]] + rest)[i] in s
    ensures multiset([s[0]] + rest) == multiset(s) + multiset{e}
  {
    assert s == [s[0]] + s[1..];
    assert forall i :: 0 <= i < |rest| ==> s[0].date <= rest[i].date;
  }

  /** The copy `[...events].sort(by date)`: the same events, ascending by date. */
  function SortByDate(s: seq<Event>): (r: seq<Event>)
    ensures SortedByDate(r)
    ensures multiset(r) == multiset(s)
    decreases |s|
  {
    if s == [] then []
    else
      assert s == [s[0]] + s[1..];
      InsertByDate(s[0], SortByDate(s[1..]))
  }

  /** `event => event.id === id`. */
  function HasId(id: nat): Event -> bool {
    (e: Event) => e.id == id
  }

  /** `event => event.category === category`. */
  function InCategory(c: Category): Event -> bool {
    (e: Event) => e.category == c
  }

  /** The events' ids rise strictly along the list, so no two share one. */
  predicate IdsIncreasing(s: seq<Event>) {
    forall i, j :: 0 <= i < j < |s| ==> s[i].id < s[j].id
  }

  /** Every stored event was built by the constructor, with an id the
      counter has already handed out, and in the order handed out. */
  predicate CatalogValid(events: seq<Event>, nextEventId: nat) {
    && (forall i :: 0 <= i < |events| ==> events[i].id < nextEventId && EventModel.Valid(events[i]))
    && IdsIncreasing(events)
  }

  class EventService {
    var events: seq<Event>
    /** `Event.nextId`: the id the next constructed event receives. */
    var nextEventId: nat

    ghost predicate Valid()
      reads this
    {
      CatalogValid(events, nextEventId)
    }

    constructor()
      ensures Valid()
      ensures events == [] && nextEventId == 1
    {
      events := [];
      nextEventId := 1;
    }

    /** `createEvent`: the constructor's outcome with the counter's value as
        id; on success the event is appended and the counter advances, on
        failure nothing changes. */
    method CreateEvent(title: string, description: string, date: int, location: string,
                       category: Category, maxCapacity: int, now: int)
      returns (r: Result<Event, EventError>)
      requires Valid()
      modifies this
      ensures Valid()
      ensures r == Construct(old(nextEventId), title, description, date, location, category, maxCapacity, now)
      ensures r.Success? ==> events == old(events) + [r.value] && nextEventId == old(nextEventId) + 1
      ensures r.Failure? ==> events == old(events) && nextEventId == old(nextEventId)
      ensures r.Success? ==> GetEventById(r.value.id) == Some(r.value)
    {
      r := Construct(nextEventId, title, description, date, location, category, maxCapacity, now);
      if r.Success? {
        var e := r.value;
        CreateKeepsValid(events, nextEventId, e);
        events := events + [e];
        nextEventId := nextEventId + 1;
      }
    }

    /** `getAllEvents` (after its reload): a sorted copy; the stored list is
        not reordered. */
    function GetAllEvents(): (r: seq<Event>)
      reads this
      ensures SortedByDate(r)
      ensures multiset(r) == multiset(events)
    {
      SortByDate(events)
    }

    /** `getEventById`: the first event with that id, or nothing. */
    function GetEventById(id: nat): (r: Option<Event>)
      reads this
      ensures r.None? <==> forall i :: 0 <= i < |events| ==> events[i].id != id
      ensures r.Some? ==> r.value.id == id && r.value == events[FindIndex(events, HasId(id))]
    {
      Find(events, HasId(id))
    }

    /** `filterEvents`: with no category, the sorted copy; with one, the
        stored events of that category in stored order. */
    function FilterEvents(category: Option<Category>): (r: seq<Event>)
      reads this
      ensures category.None? ==> SortedByDate(r) && multiset(r) == multiset(events)
      ensures category.Some? ==>
        && (forall i :: 0 <= i < |r| ==> r[i] in events && r[i].category == category.value)
        && (forall i :: 0 <= i < |events| && events[i].category == category.value ==> events[i] in r)
    {
      if category.None? then GetAllEvents()
      else Filter(events, InCategory(category.value))
    }

    /** `deleteEvent`: removes the first event with that id and reports
        whether there was one; with unique ids the id is then gone. */
    method DeleteEvent(id: nat) returns (deleted: bool)
      requires Valid()
      modifies this
      ensures Valid()
      ensures deleted <==> exists i :: 0 <= i < |old(events)| && old(events)[i].id == id
      ensures deleted ==> events == RemoveAt(old(events), FindIndex(old(events), HasId(id)))
      ensures !deleted ==> events == old(events)
      ensures nextEventId == old(nextEventId)
      ensures GetEventById(id) == None
    {
      var k := FindIndex(events, HasId(id));
      if k != -1 {
        ghost var before := events;
        events := RemoveAt(events, k);
        assert forall i :: 0 <= i < |events| ==> events[i].id != id by {
          forall i | 0 <= i < |events| ensures events[i].id != id {
            if i < k {
              assert events[i].id == before[i].id < before[k].id;
            } else {
              assert events[i].id == before[i + 1].id > before[k].id;
            }
          }
        }
        deleted := true;
      } else {
        deleted := false;
      }
    }

    /** `initializeDemoData`, with the two computed dates passed in: only an
        empty list is seeded, with the conference and then the tournament;
        a constructor error stops the seeding and is returned. */
    method InitializeDemoData(conferenceDate: int, tournamentDate: int, now: int)
      returns (error: Option<EventError>)
      requires Valid()
      modifies this
      ensures Valid()
      ensures old(events) != [] ==> events == old(events) && nextEventId == old(nextEventId) && error == None
      ensures old(events) == [] ==>
        (error == None <==> conferenceDate > now && tournamentDate > now)
      ensures old(events) == [] && conferenceDate <= now ==>
        error == Some(DateNotInFuture) && events == [] && nextEventId == old(nextEventId)
      ensures old(events) == [] && conferenceDate > now && tournamentDate <= now ==>
        && error == Some(DateNotInFuture) && |events| == 1 && nextEventId == old(nextEventId) + 1
        && events[0].id == old(nextEventId) && events[0].title == ConferenceTitle
        && events[0].date == conferenceDate
      ensures old(events) == [] && error == None ==>
        && |events| == 2 && nextEventId == old(nextEventId) + 2
        && events[0].id == old(nextEventId) && events[0].title == ConferenceTitle
        && events[0].date == conferenceDate
        && events[0].category == Conference && events[0].maxCapacity == 100
        && events[1].id == old(nextEventId) + 1 && events[1].title == TournamentTitle
        && events[1].date == tournamentDate
        && events[1].category == Sport && events[1].maxCapacity == 40
    {
      error := None;
      if |events| == 0 {
        var conference := CreateDemoEvent(DemoConference, conferenceDate, now);
        if conference.Failure? {
          error := Some(conference.error);
        } else {
          ghost var afterFirst := events;
          var tournament := CreateDemoEvent(DemoTournament, tournamentDate, now);
          if tournament.Failure? {
            error := Some(tournament.error);
          } else {
            assert |afterFirst| == 1 && events == afterFirst + [tournament.value];
          }
        }
      }
    }

    /** One `createEvent` call of `initializeDemoData`: the demonstration
        event is refused only for its date, and otherwise appended with the
        counter's id. */
    method CreateDemoEvent(d: DemoEvent, date: int, now: int) returns (r: Result<Event, EventError>)
      requires Valid() && (d == DemoConference || d == DemoTournament)
      modifies this
      ensures Valid()
      ensures r.Success? <==> date > now
      ensures r.Failure? ==>
        r.error == DateNotInFuture && events == old(events) && nextEventId == old(nextEventId)
      ensures r.Success? ==>
        && events == old(events) + [r.value] && nextEventId == old(nextEventId) + 1
        && r.value.id == old(nextEventId) && r.value.title == d.title && r.value.date == date
        && r.value.category == d.category && r.value.maxCapacity == d.maxCapacity
    {
      if d == DemoConference {
        ConferenceAcceptable();
      } else {
        TournamentAcceptable();
      }
      DemoOutcome(d, nextEventId, date, now);
      r := CreateEvent(d.title, d.description, date, d.location, d.category, d.maxCapacity, now);
    }
  }

  /** Appending a valid event that carries the counter's id keeps the list
      valid once the counter advances, and the new id finds that event. */
  lemma CreateKeepsValid(s: seq<Event>, nextEventId: nat, e: Event)
    requires CatalogValid(s, nextEventId)
    requires e.id == nextEventId && EventModel.Valid(e)
    ensures CatalogValid(s + [e], nextEventId + 1)
    ensures Find(s + [e], HasId(e.id)) == Some(e)
  {
    assert forall i :: 0 <= i < |s| ==> (s + [e])[i] == s[i];
    assert forall i :: 0 <= i < |s| ==> !HasId(e.id)((s + [e])[i]);
    assert HasId(e.id)((s + [e])[|s|]);
  }

  /** The texts of the two demonstration events. */
  const ConferenceTitle: string := "Conf\U{00E9}rence IA"
  const ConferenceDescription: string :=
    "D\U{00E9}couvrez les derni\U{00E8}res avanc\U{00E9}es en intelligence artificielle"
  const ConferenceLocation: string := "Amphith\U{00E9}\U{00E2}tre A"
  const TournamentTitle: string := "Tournoi Football"
  const TournamentDescription: string := "Tournoi inter-classes de football"
  const TournamentLocation: string := "Stade universitaire"

  /** The fixed inputs of one demonstration event. */
  datatype DemoEvent = DemoEvent(title: string, description: string, location: string,
                                 category: Category, maxCapacity: int)

  /** Every rule of the constructor except the date holds, and the title is
      stored as written. */
  predicate Acceptable(d: DemoEvent) {
    && TitleOk(d.title) && DescriptionOk(d.description) && LocationOk(d.location)
    && CapacityOk(d.maxCapacity) && Trim(d.title) == d.title
  }

  const DemoConference: DemoEvent :=
    DemoEvent(ConferenceTitle, ConferenceDescription, ConferenceLocation, Conference, 100)
  const DemoTournament: DemoEvent :=
    DemoEvent(TournamentTitle, TournamentDescription, TournamentLocation, Sport, 40)

  /** An acceptable event is refused only for its date. */
  lemma DemoOutcome(d: DemoEvent, id: nat, date: int, now: int)
    requires Acceptable(d)
    ensures var r := Construct(id, d.title, d.description, date, d.location, d.category,
                               d.maxCapacity, now);
      && (r.Success? <==> date > now)
      && (r.Failure? ==> r.error == DateNotInFuture)
      && (r.Success? ==> r.value.title == d.title)
  {
  }

  /** The demonstration conference passes every rule but the date. */
  lemma ConferenceAcceptable()
    ensures Acceptable(DemoConference)
  {
    ConferenceTitlePasses();
    ConferenceDescriptionPasses();
    ConferenceLocationPasses();
  }

  /** So does the demonstration tournament. */
  lemma TournamentAcceptable()
    ensures Acceptable(DemoTournament)
  {
    TournamentTitlePasses();
    TournamentDescriptionPasses();
    TournamentLocationPasses();
  }

  lemma ConferenceTitlePasses()
    ensures Trim(ConferenceTitle) == ConferenceTitle && TitleOk(ConferenceTitle)
  {
    assert Trimmed(ConferenceTitle);
    TrimTrimmed(ConferenceTitle);
  }

  lemma ConferenceDescriptionPasses()
    ensures DescriptionOk(ConferenceDescription)
  {
    TrimKeepsBetween(ConferenceDescription, 50, 60);
  }

  lemma ConferenceLocationPasses()
    ensures LocationOk(ConferenceLocation)
  {
    TrimKeepsBetween(ConferenceLocation, 11, 13);
  }

  lemma TournamentTitlePasses()
    ensures Trim(TournamentTitle) == TournamentTitle && TitleOk(TournamentTitle)
  {
    assert Trimmed(TournamentTitle);
    TrimTrimmed(TournamentTitle);
  }

  lemma TournamentDescriptionPasses()
    ensures DescriptionOk(TournamentDescription)
  {
    TrimKeepsBetween(TournamentDescription, 23, 32);
  }

  lemma TournamentLocationPasses()
    ensures LocationOk(TournamentLocation)
  {
    TrimKeepsBetween(TournamentLocation, 16, 18);
  }

  /** `getAllEvents` leaves every event in place when the list is already in
      date order, and sorting twice is sorting once. */
  lemma {:induction false} SortKeepsSorted(s: seq<Event>)
    requires SortedByDate(s)
    ensures SortByDate(s) == s
    decreases |s|
  {
    if s != [] {
      SortKeepsSorted(s[1..]);
      assert SortByDate(s[1..]) == s[1..];
      if |s| > 1 {
        assert s[0].date <= s[1..][0].date;
      }
      assert [s[0]] + s[1..] == s;
    }
  }

  lemma SortIdempotent(s: seq<Event>)
    ensures SortByDate(SortByDate(s)) == SortByDate(s)
  {
    SortKeepsSorted(SortByDate(s));
  }

  /** Filtering by category after a creation: the new event joins the end of
      the filtered list exactly when it has that category. */
  lemma FilterAfterCreate(s: seq<Event>, e: Event, c: Category)
    ensures Filter(s + [e], InCategory(c)) ==
      Filter(s, InCategory(c)) + (if e.category == c then [e] else [])
  {
    FilterAppend(s, [e], InCategory(c));
  }
}
