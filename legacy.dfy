/**
 * The single-file variant of the application in src/main.ts: `EventItem`
 * (a mutable record whose registration list is a list of emails), its
 * `EventService`, the filter, search and form checks that `EventApp` runs on
 * values read from the page, and `UIHelper.formatCategory`. The page reads
 * become parameters, `Date.now()` ids are passed in, and `now` is the clock.
 */
module LegacyApp {
  import opened Wrappers
  import opened Strings
  import opened Seqs
  import EventModel
  import UserModel

  /** No email occurs twice. */
  predicate NoDuplicates(s: seq<string>) {
    forall a, b :: 0 <= a < b < |s| ==> s[a] != s[b]
  }

  class EventItem {
    const id: int
    const title: string
    const description: string
    const date: int
    const location: string
    const category: string
    const maxCapacity: int
    var registrations: seq<string>

    /** The constructor takes what it is given, without any check. */
    constructor(id: int, title: string, description: string, date: int, location: string,
                category: string, maxCapacity: int)
      ensures this.id == id && this.title == title && this.description == description
      ensures this.date == date && this.location == location && this.category == category
      ensures this.maxCapacity == maxCapacity && registrations == []
    {
      this.id := id;
      this.title := title;
      this.description := description;
      this.date := date;
      this.location := location;
      this.category := category;
      this.maxCapacity := maxCapacity;
      registrations := [];
    }

    /** `isPast`: the date is strictly before the clock. An item is past
        exactly when the Event model would refuse its date for a reason
        other than being dated exactly `now`. */
    predicate IsPast(now: int)
      ensures IsPast(now) <==> !EventModel.DateOk(date, now) && date != now
    {
      date < now
    }

    /** `getAvailableSpaces`: positive exactly while the list is below
        capacity, and one less for every email added. */
    function AvailableSpaces(): (n: int)
      reads this
      ensures n > 0 <==> |registrations| < maxCapacity
      ensures n + |registrations| == maxCapacity
    {
      maxCapacity - |registrations|
    }

    /** `canRegister`: there is a free place and the event is not past. */
    function CanRegister(now: int): (b: bool)
      reads this
      ensures b <==> AvailableSpaces() > 0 && !IsPast(now)
    {
      |registrations| < maxCapacity && !IsPast(now)
    }

    /** What `registerToEvent` keeps true of every event: each email at most
        once, and no more emails than places (an event created with no
        place never gets any). */
    ghost predicate Valid()
      reads this
    {
      NoDuplicates(registrations) && (registrations == [] || |registrations| <= maxCapacity)
    }
  }

  /** `e => e.id === id`; ids are constant, so the test reads nothing. */
  function HasId(id: int): EventItem -> bool {
    (e: EventItem) => e.id == id
  }

  class LegacyEventService {
    var events: seq<EventItem>

    /** The list holds distinct objects, each of them valid. */
    ghost predicate Valid()
      reads this, events
    {
      && (forall i, j :: 0 <= i < j < |events| ==> events[i] != events[j])
      && (forall i :: 0 <= i < |events| ==> events[i].Valid())
    }

    constructor()
      ensures Valid() && events == []
    {
      events := [];
    }

    /** `createEvent`: a new item with no registration, appended. */
    method CreateEvent(id: int, title: string, description: string, date: int, location: string,
                       category: string, maxCapacity: int)
      returns (e: EventItem)
      requires Valid()
      modifies this
      ensures Valid()
      ensures fresh(e) && events == old(events) + [e]
      ensures e.id == id && e.title == title && e.description == description && e.date == date
      ensures e.location == location && e.category == category
      ensures e.maxCapacity == maxCapacity && e.registrations == []
    {
      e := new EventItem(id, title, description, date, location, category, maxCapacity);
      events := events + [e];
    }

    /** `getEventById`: the first item with that id, or nothing. */
    function GetEventById(id: int): (r: Option<EventItem>)
      reads this
      ensures r.None? <==> forall i :: 0 <= i < |events| ==> events[i].id != id
      ensures r.Some? ==> r.value.id == id && r.value == events[FindIndex(events, HasId(id))]
    {
      Find(events, HasId(id))
    }

    /** `deleteEvent`: removes the first item with that id and reports
        whether there was one. Ids come from the clock and may repeat, so
        another item with the same id can remain. */
    method DeleteEvent(id: int) returns (deleted: bool)
      requires Valid()
      modifies this
      ensures Valid()
      ensures deleted <==> exists i :: 0 <= i < |old(events)| && old(events)[i].id == id
      ensures deleted ==> events == RemoveAt(old(events), FindIndex(old(events), HasId(id)))
      ensures !deleted ==> events == old(events)
    {
      var k := FindIndex(events, HasId(id));
      if k != -1 {
        events := RemoveAt(events, k);
        deleted := true;
      } else {
        deleted := false;
      }
    }

    /** `registerToEvent`: appends the email, exactly as typed, to the first
        item with that id when it can take a registration and does not list
        the email yet; no other item changes. */
    method RegisterToEvent(eventId: int, userEmail: string, now: int) returns (ok: bool)
      requires Valid()
      modifies events
      ensures Valid()
      ensures var k := FindIndex(events, HasId(eventId));
        ok <==> k != -1 && old(events[k].CanRegister(now)) && userEmail !in old(events[k].registrations)
      ensures var k := FindIndex(events, HasId(eventId));
        ok ==> events[k].registrations == old(events[k].registrations) + [userEmail]
      ensures forall i :: 0 <= i < |events| ==>
        (!ok || i != FindIndex(events, HasId(eventId))) ==>
        events[i].registrations == old(events[i].registrations)
    {
      var k := FindIndex(events, HasId(eventId));
      ok := false;
      if k != -1 {
        var event := events[k];
        var canRegister := event.CanRegister(now);
        var alreadyRegistered := userEmail in event.registrations;
        if canRegister && !alreadyRegistered {
          event.registrations := event.registrations + [userEmail];
          ok := true;
        }
      }
    }

    /** `createEvent` with an id no stored item holds: the clock's value
        when it is unused, a value past every stored id otherwise. The new
        item is then the one its id finds. */
    method CreateEventUniqueId(clock: int, title: string, description: string, date: int,
                               location: string, category: string, maxCapacity: int)
      returns (e: EventItem)
      requires Valid()
      modifies this
      ensures Valid()
      ensures fresh(e) && events == old(events) + [e] && e.registrations == []
      ensures e.title == title && e.description == description && e.date == date
      ensures e.location == location && e.category == category && e.maxCapacity == maxCapacity
      ensures forall i :: 0 <= i < |old(events)| ==> old(events)[i].id != e.id
      ensures (forall i :: 0 <= i < |old(events)| ==> old(events)[i].id != clock) ==> e.id == clock
      ensures FindIndex(events, HasId(e.id)) == |old(events)|
    {
      var id := FreshId(events, clock);
      e := CreateEvent(id, title, description, date, location, category, maxCapacity);
      assert forall i :: 0 <= i < |old(events)| ==> events[i] == old(events)[i];
      assert forall i :: 0 <= i < |old(events)| ==> !HasId(id)(events[i]);
      assert HasId(id)(events[|old(events)|]);
    }
  }

  /** The largest id of a non-empty list. */
  function MaxId(events: seq<EventItem>): (m: int)
    requires events != []
    ensures forall i :: 0 <= i < |events| ==> events[i].id <= m
    decreases |events|
  {
    if |events| == 1 then events[0].id
    else
      var rest := MaxId(events[1..]);
      assert forall i :: 1 <= i < |events| ==> events[i] == events[1..][i - 1];
      if events[0].id > rest then events[0].id else rest
  }

  /** An id that no item of the list holds: the clock's value when it is
      free. */
  function FreshId(events: seq<EventItem>, clock: int): (id: int)
    ensures forall i :: 0 <= i < |events| ==> events[i].id != id
    ensures (forall i :: 0 <= i < |events| ==> events[i].id != clock) ==> id == clock
  {
    if forall i :: 0 <= i < |events| ==> events[i].id != clock then clock
    else MaxId(events) + 1
  }

  /** An item that shares its id with an earlier one is never the one that
      id finds: `getEventById`, `deleteEvent` and `registerToEvent` all act
      on the earlier item. */
  lemma ShadowedItem(events: seq<EventItem>, j: nat, k: nat)
    requires j < k < |events| && events[j].id == events[k].id
    ensures 0 <= FindIndex(events, HasId(events[k].id)) <= j
  {
    assert HasId(events[k].id)(events[j]);
  }

  /** The fixed inputs of one demonstration item. */
  datatype DemoItem = DemoItem(title: string, description: string, location: string,
                               category: string, maxCapacity: int)

  /** The four items `initializeDemoData` creates, in order. */
  const DemoItems: seq<DemoItem> := [
    DemoItem("Conf\U{00E9}rence sur l'Intelligence Artificielle",
             "Explorez les derni\U{00E8}res avanc\U{00E9}es en IA avec des experts du domaine. "
             + "Discussion sur l'\U{00E9}thique et l'avenir de la technologie.",
             "Amphith\U{00E9}\U{00E2}tre A - B\U{00E2}timent Principal", "conf\U{00E9}rence", 150),
    DemoItem("Tournoi Inter-Universit\U{00E9}s de Basketball",
             "Comp\U{00E9}tition sportive entre les meilleures \U{00E9}quipes universitaires. "
             + "Finale sous les projecteurs !",
             "Complexe Sportif Universitaire", "sport", 60),
    DemoItem("Atelier D\U{00E9}veloppement Web FullStack",
             "Apprenez \U{00E0} cr\U{00E9}er des applications web modernes avec les derni\U{00E8}res "
             + "technologies. Session pratique.",
             "Salle Informatique 301", "atelier", 25),
    DemoItem("Gala Annuel des Dipl\U{00F4}m\U{00E9}s",
             "C\U{00E9}l\U{00E9}bration de la r\U{00E9}ussite acad\U{00E9}mique avec cocktails, "
             + "d\U{00EE}ner et networking professionnel.",
             "Grand Palais des \U{00C9}v\U{00E9}nements", "autre", 200)]

  /** `EventApp.initializeDemoData` on the list in memory: an empty list
      gets the four demonstration items, in order, with the `Date.now()`
      readings `clock` as ids and the computed `dates`; a non-empty list is
      left alone. Equal readings give equal ids, and then only the first of
      those items is reachable by its id (ShadowedItem). */
  method InitializeDemoData(service: LegacyEventService, clock: seq<int>, dates: seq<int>)
    requires service.Valid() && |clock| == 4 && |dates| == 4
    modifies service
    ensures service.Valid()
    ensures old(service.events) != [] ==> service.events == old(service.events)
    ensures old(service.events) == [] ==> Seeded(service.events, DemoItems, clock, dates)
    ensures old(service.events) == [] && clock[0] == clock[1] ==>
      FindIndex(service.events, HasId(clock[1])) == 0
  {
    if |service.events| == 0 {
      SeedDemoItems(service, DemoItems, clock, dates);
      assert HasId(clock[0])(service.events[0]);
    }
  }

  /** The list holds, in order, one new item per demonstration input, with
      the matching clock reading as id and the matching date. */
  ghost predicate Seeded(events: seq<EventItem>, items: seq<DemoItem>, clock: seq<int>,
                         dates: seq<int>)
    reads events
  {
    && |events| == |items| == |clock| == |dates|
    && forall i :: 0 <= i < |events| ==>
         && events[i].id == clock[i] && events[i].date == dates[i]
         && events[i].title == items[i].title
         && events[i].description == items[i].description
         && events[i].location == items[i].location
         && events[i].category == items[i].category
         && events[i].maxCapacity == items[i].maxCapacity
         && events[i].registrations == []
  }

  /** The four `createEvent` calls of `initializeDemoData`, on an empty
      list. */
  method SeedDemoItems(service: LegacyEventService, items: seq<DemoItem>, clock: seq<int>,
                       dates: seq<int>)
    requires service.Valid() && service.events == []
    requires |items| == 4 && |clock| == 4 && |dates| == 4
    modifies service
    ensures service.Valid()
    ensures Seeded(service.events, items, clock, dates)
  {
    CreateDemoItem(service, items, clock, dates, 0);
    CreateDemoItem(service, items, clock, dates, 1);
    CreateDemoItem(service, items, clock, dates, 2);
    CreateDemoItem(service, items, clock, dates, 3);
    assert items[..4] == items && clock[..4] == clock && dates[..4] == dates;
  }

  /** One `createEvent` call of `initializeDemoData`: the `k`-th item joins
      the `k` already seeded. */
  method CreateDemoItem(service: LegacyEventService, items: seq<DemoItem>, clock: seq<int>,
                        dates: seq<int>, k: nat)
    requires service.Valid() && k < |items| == |clock| == |dates|
    requires Seeded(service.events, items[..k], clock[..k], dates[..k])
    modifies service
    ensures service.Valid()
    ensures Seeded(service.events, items[..k + 1], clock[..k + 1], dates[..k + 1])
  {
    var d := items[k];
    var e := service.CreateEvent(clock[k], d.title, d.description, dates[k], d.location,
                                 d.category, d.maxCapacity);
  }

  /** What `applyFilters` keeps: a non-empty category selection must match,
      then `upcoming` keeps the events not past, `past` the past ones, and
      any other value keeps all. */
  function ByCategory(categoryFilter: string): EventItem -> bool {
    (e: EventItem) => categoryFilter == [] || e.category == categoryFilter
  }

  function ByDate(dateFilter: string, now: int): EventItem -> bool {
    (e: EventItem) =>
      if dateFilter == "upcoming" then !e.IsPast(now)
      else if dateFilter == "past" then e.IsPast(now)
      else true
  }

  /** `applyFilters` on the list `getAllEvents` returns (the stored order). */
  function ApplyFilters(all: seq<EventItem>, categoryFilter: string, dateFilter: string, now: int)
    : (r: seq<EventItem>)
    ensures forall i :: 0 <= i < |r| ==>
      && r[i] in all
      && (categoryFilter != [] ==> r[i].category == categoryFilter)
      && (dateFilter == "upcoming" ==> !r[i].IsPast(now))
      && (dateFilter == "past" ==> r[i].IsPast(now))
    ensures forall i :: 0 <= i < |all| ==>
      (categoryFilter == [] || all[i].category == categoryFilter)
      && (dateFilter != "upcoming" || !all[i].IsPast(now))
      && (dateFilter != "past" || all[i].IsPast(now))
      ==> all[i] in r
  {
    var byCategory := if categoryFilter != [] then Filter(all, ByCategory(categoryFilter)) else all;
    if dateFilter == "upcoming" || dateFilter == "past" then Filter(byCategory, ByDate(dateFilter, now))
    else byCategory
  }

  /** Both tests of `applyFilters` at once. */
  function Selected(categoryFilter: string, dateFilter: string, now: int): EventItem -> bool {
    (e: EventItem) => ByCategory(categoryFilter)(e) && ByDate(dateFilter, now)(e)
  }

  /** The two filters in a row are one filter with both tests, so the
      stored order is kept. */
  lemma ApplyFiltersIsOneFilter(all: seq<EventItem>, categoryFilter: string, dateFilter: string, now: int)
    ensures ApplyFilters(all, categoryFilter, dateFilter, now) == Filter(all, Selected(categoryFilter, dateFilter, now))
  {
    var p := ByCategory(categoryFilter);
    var q := ByDate(dateFilter, now);
    FilterFilter(all, p, q, Selected(categoryFilter, dateFilter, now));
    if categoryFilter == [] {
      FilterAll(all, p);
    }
    if dateFilter != "upcoming" && dateFilter != "past" {
      FilterAll(Filter(all, p), q);
    }
  }

  /** The `handleSearch` test: the lower-cased query occurs in the
      lower-cased title, description or location. */
  function Matches(query: string): EventItem -> bool {
    (e: EventItem) =>
      Contains(Lower(e.title), Lower(query))
      || Contains(Lower(e.description), Lower(query))
      || Contains(Lower(e.location), Lower(query))
  }

  /** `handleSearch` on the list `getAllEvents` returns. */
  function Search(all: seq<EventItem>, query: string): (r: seq<EventItem>)
    ensures forall i :: 0 <= i < |r| ==> r[i] in all && Matches(query)(r[i])
    ensures forall i :: 0 <= i < |all| && Matches(query)(all[i]) ==> all[i] in r
  {
    Filter(all, Matches(query))
  }

  /** The empty query occurs in every text, so it keeps every event. */
  lemma SearchEmptyQuery(all: seq<EventItem>)
    ensures Search(all, "") == all
  {
    forall i | 0 <= i < |all| ensures Matches("")(all[i]) {
      assert OccursAt(Lower(all[i].title), Lower(""), 0);
    }
    FilterAll(all, Matches(""));
  }

  /** The markers `handleRegistration` accepts; `.univ` where the User model
      has `.univ-`. */
  const LegacyMarkers: seq<string> :=
    [".edu", ".ac.", ".univ", ".universite", ".school", ".college"]

  /** The institutional test of `handleRegistration`; no syntax check. */
  predicate IsInstitutionalLegacy(email: string) {
    exists i :: 0 <= i < |LegacyMarkers| && Contains(Lower(email), LegacyMarkers[i])
  }

  /** Every address with one of the User model's markers passes the legacy
      test: each model marker starts with a legacy marker. */
  lemma LegacyAcceptsModelMarkers(email: string)
    requires UserModel.HasInstitutionalMarker(email)
    ensures IsInstitutionalLegacy(email)
  {
    var m :| m in UserModel.InstitutionalMarkers && Contains(Lower(email), m);
    var k :| 0 <= k < |UserModel.InstitutionalMarkers| && UserModel.InstitutionalMarkers[k] == m;
    assert LegacyMarkers[k] == m[..|LegacyMarkers[k]|];
    ContainsPrefix(Lower(email), m, LegacyMarkers[k]);
  }

  /** Why `handleRegistration` refuses to call the service. */
  datatype RegistrationFormError = MissingField | NotInstitutional

  /** The checks of `handleRegistration` before `registerToEvent`: both
      fields filled, then an institutional address. */
  function RegistrationFormCheck(name: string, email: string): (r: Option<RegistrationFormError>)
    ensures r == Some(MissingField) <==> name == [] || email == []
    ensures r == Some(NotInstitutional) <==> name != [] && email != [] && !IsInstitutionalLegacy(email)
    ensures r == None <==> name != [] && email != [] && IsInstitutionalLegacy(email)
  {
    if name == [] || email == [] then Some(MissingField)
    else if !IsInstitutionalLegacy(email) then Some(NotInstitutional)
    else None
  }

  /** Why `handleCreateEvent` refuses to call the service. */
  datatype CreateFormError = EmptyField | DateInPast | CapacityBelowOne

  /** The checks of `handleCreateEvent`: every field filled (a capacity that
      does not parse, `None` here, or parses to 0 counts as empty), then a
      date not before the clock, then a capacity of at least 1. Nothing is
      trimmed. */
  function CreateFormCheck(title: string, description: string, location: string, category: string,
                           capacity: Option<int>, date: int, now: int): (r: Option<CreateFormError>)
    ensures r == Some(EmptyField) <==>
      title == [] || description == [] || location == [] || category == []
      || capacity.None? || capacity.value == 0
    ensures r == Some(DateInPast) <==>
      r != Some(EmptyField) && title != [] && description != [] && location != [] && category != []
      && capacity.Some? && capacity.value != 0 && date < now
    ensures r == None ==> capacity.Some? && capacity.value >= 1 && date >= now
    ensures r == Some(CapacityBelowOne) ==> capacity.Some? && capacity.value < 0
  {
    if title == [] || description == [] || location == [] || category == []
       || capacity.None? || capacity.value == 0 then Some(EmptyField)
    else if date < now then Some(DateInPast)
    else if capacity.value < 1 then Some(CapacityBelowOne)
    else None
  }

  /** The form lets an event dated exactly now through, while the Event
      model's constructor refuses that date. */
  lemma FormAcceptsNowModelRefuses(title: string, description: string, location: string,
                                   category: string, capacity: int, now: int)
    requires title != [] && description != [] && location != [] && category != [] && capacity >= 1
    ensures CreateFormCheck(title, description, location, category, Some(capacity), now, now) == None
    ensures !EventModel.DateOk(now, now)
  {
  }

  /** `UIHelper.formatCategory`'s table. */
  const CategoryLabels: map<string, string> := map[
    "conf\U{00E9}rence" := "Conf\U{00E9}rence",
    "sport" := "Sport",
    "atelier" := "Atelier",
    "autre" := "Autre"]

  /** `formatCategory`: a category of the table is shown with its first
      letter upper-cased; anything else is shown as given. */
  function FormatCategory(category: string): (r: string)
    ensures category in CategoryLabels ==> r != [] && r == [UpperChar(category[0])] + category[1..]
    ensures category !in CategoryLabels ==> r == category
  {
    if category in CategoryLabels then CategoryLabels[category] else category
  }

  /** Every value of the Event model's category enumeration is in the table. */
  lemma FormatCategoryKnown(c: EventModel.Category)
    ensures c.Value() in CategoryLabels
  {
  }
}
