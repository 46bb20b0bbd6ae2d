# Event management app — a Dafny model

This project models the core of a small university event-management web
application, written in TypeScript. It has three kinds of entity:

- **Event**: an event with a title, a description, a date, a location, a
  category and a maximum capacity.
- **User**: a participant, who must have an institutional email address.
- **Registration**: a user's place at an event. It is active or cancelled.

Two services hold the state:

- `EventService` keeps the list of events. It creates, lists, sorts, filters
  and deletes them, and it can seed two demonstration events.
- `RegistrationService` keeps the users and the registrations. Its one
  transaction, `registerUser`, refuses past events and full events, reuses a
  user who is already known by email (or creates one), and refuses a second
  active registration of the same user to the same event.

The entry file `src/main.ts` holds a second, simpler version of the
application. In it:

- an `EventItem` object keeps its registrations as a list of emails;
- its own `EventService` adds to that list in place;
- the page handlers check the forms, filter the list and search it.

Modules:

| module | file | models |
|---|---|---|
| `Wrappers` | wrappers.dfy | `Option` and `Result` |
| `Strings` | strings.dfy | JavaScript `trim` with its whitespace set, ASCII `toLowerCase` and `toUpperCase`, `includes`, and `split`/`join` on one character |
| `Seqs` | seqs.dfy | `filter`, `findIndex`, `find` and `splice(k, 1)` |
| `Validators` | validators.dfy | the email regular expression of src/utils/validators.ts |
| `EventModel` | event.dfy | src/models/Event.ts |
| `UserModel` | user.dfy | src/models/User.ts |
| `RegistrationModel` | registration.dfy | src/models/Registration.ts |
| `EventCatalog` | event_service.dfy | src/services/EventService.ts, as the class `EventService` |
| `RegistrationLedger` | registration_service.dfy | src/services/RegistrationService.ts: the pure transaction `Register` on a `Ledger` value, and the class `RegistrationService`, whose method is proved to end in the state `Register` computes |
| `LegacyApp` | legacy.dfy | the models, services and checks of src/main.ts |

**How the model represents the source:**

- **Time.** The clock is a parameter `now`, in milliseconds since the epoch.
  Every date is an `int` on that same scale.
- **Id counters.** Each model class has a static id counter in the source.
  Here it is a field of the one service that calls that constructor:
  - `EventService.nextEventId` for events;
  - `RegistrationService.nextUserId` for users;
  - `RegistrationService.nextRegistrationId` for registrations.

  Each counter starts at 1. In the model it advances only when
  `createEvent` or `registerUser` builds something, because the source takes
  the next id after all the checks. The source's reload from storage also
  builds events and so takes event ids as well; "## Left out" says what that
  changes.
- **Thrown errors.** An exception becomes the failure case of a `Result`,
  with one constructor per distinct error message.

## Model

| member | source | states |
|---|---|---|
| `EventModel.CategoryValueInjective` | src/models/Event.ts:1-6 | The four category values are pairwise distinct strings. |
| `EventModel.Construct` | src/models/Event.ts:28-55 | The constructor fails with the first broken rule, in this order: title trimmed shorter than 3, description trimmed shorter than 10, date not after now, location trimmed shorter than 3, capacity below 1. Each error is stated as an if-and-only-if. On success: the three texts are stored trimmed and the other inputs as given; the event satisfies `Valid` (texts with no surrounding whitespace, each long enough, capacity at least 1); it is not past. |
| `UserModel.Construct` | src/models/User.ts:10-21 | A name shorter than 2 once trimmed gives NameTooShort. Otherwise a non-institutional email gives NotInstitutional. Both are if-and-only-ifs. On success the user holds the counter's id, the trimmed name, the lower-cased email and the creation time. |
| `UserModel.StoredEmailIsLower` | src/models/User.ts:20 | For any address the regular expression accepts, trimming the lower-cased address changes nothing. So the stored value is exactly the lower-cased input. |
| `UserModel.ConstructValid` | src/models/User.ts:10-32 | Every user that is built satisfies `Valid`: a trimmed name of at least 2 characters, and an email that is lower-case and is itself an institutional address. |
| `UserModel.LowerStaysInstitutional` | src/models/User.ts:24-32 | Lower-casing an institutional address keeps it institutional. |
| `UserModel.InitialsAsWritten` | src/models/User.ts:34-39 | `getInitials` as written. When the name has no space, or its second space-separated part is not empty, the result is two characters and starts with the name's first character upper-cased. |
| `UserModel.InitialsAfterDoubleSpace` | src/models/User.ts:34-39 | As written, a first word followed by two spaces yields the first letter followed by "undefined", upper-cased. |
| `UserModel.InitialsDoubleSpace` | src/models/User.ts:34-39 | As written, the initials of "Jean  Dupont" are "JUNDEFINED". |
| `UserModel.Initials` | src/models/User.ts:34-39 | Corrected initials of a stored name: always two characters. The first is the name's first character upper-cased. The second is the first letter of the second non-empty word, upper-cased, or the name's second character when there is only one word. |
| `UserModel.InitialsTwoWords` | src/models/User.ts:34-39 | Two words separated by two spaces give the upper-cased first letters of the two words. |
| `UserModel.InitialsJeanDupont` | src/models/User.ts:34-39 | The corrected initials of "Jean  Dupont" are "JD". |
| `UserModel.InitialsAgree` | src/models/User.ts:34-39 | When the second space-separated part is not empty, the corrected initials equal the ones the source computes. |
| `Validators.IsValidEmail` | src/utils/validators.ts:3 | The regular expression, read as `local@host.tail` with three non-empty runs of characters that are neither whitespace nor `@`. Any accepted address has at least five characters and neither starts nor ends with `@`. |
| `UserModel.IsInstitutionalEmail` | src/models/User.ts:24-32 | The regular expression on the address as given, then a marker in the lower-cased address. The marker test ignores letter case: the result is the same when the marker is looked for in the lower-cased address lower-cased again. |
| `EventModel.Event.IsPast` | src/models/Event.ts:58-60 | A past event fails the constructor's date rule. An event that is not past passes that rule, unless it is dated exactly now. |
| `RegistrationModel.Registration.IsActive` | src/models/Registration.ts:18-20 | A registration is active exactly when its status is not cancelled. |
| `Seqs.FilterMultiset` | src/services/RegistrationService.ts:47 | A filter keeps each element that passes the test as many times as it occurs, and drops every other element. So the count of an event's active registrations is fixed by the stored list. |
| `Validators.ValidEmailIffShape` | src/utils/validators.ts:3 | The email regular expression accepts a string exactly when it has no whitespace, exactly one `@`, something before the `@`, and after it a `.` that is neither the first nor the last character of the domain. |
| `Validators.ValidEmailLower` | src/utils/validators.ts:3 | Lower-casing an address neither makes the regular expression accept it nor makes it refuse it. |
| `RegistrationModel.Construct` | src/models/Registration.ts:10-16 | A new registration is active and holds the given id, event id, user id and time. |
| `EventCatalog.SortByDate` | src/services/EventService.ts:32 | The sorted copy is in ascending date order and is a permutation of the stored events. |
| `EventCatalog.SortKeepsSorted` | src/services/EventService.ts:32 | Sorting a list that is already in date order returns it unchanged. |
| `EventCatalog.SortIdempotent` | src/services/EventService.ts:32 | Sorting twice gives the same result as sorting once. |
| `EventCatalog.EventService.CreateEvent` | src/services/EventService.ts:16-28 | The outcome is the Event constructor's, with the counter as id. On success the event is appended, the counter advances, and `GetEventById` of the new id finds exactly that event. On failure nothing changes. The invariant is kept: ids strictly increase, all are below the counter, and every event is valid. |
| `EventCatalog.EventService.GetAllEvents` | src/services/EventService.ts:30-33 | The result is in ascending date order and is a permutation of the stored events. |
| `EventCatalog.EventService.GetEventById` | src/services/EventService.ts:35-37 | Returns nothing exactly when no event has the id. Otherwise it returns the first event with that id. |
| `EventCatalog.EventService.FilterEvents` | src/services/EventService.ts:39-42 | With no category, the sorted permutation. With a category, exactly the stored events of that category. |
| `EventCatalog.FilterAfterCreate` | src/services/EventService.ts:41 | After a creation, the category filter returns the old filtered list, plus the new event at the end exactly when it has that category. |
| `EventCatalog.EventService.DeleteEvent` | src/services/EventService.ts:44-52 | Reports true exactly when some event has the id. Then the first such event is removed and nothing else changes. The counter is untouched, and afterwards no event has the id. The invariant is kept. |
| `EventCatalog.EventService.InitializeDemoData` | src/services/EventService.ts:77-98 | A non-empty list is left alone. An empty list is seeded without error exactly when both dates are in the future. A conference date not in the future gives the date error and leaves the list empty. A future conference with a tournament date not in the future gives the date error and leaves the conference stored, with its id taken from the counter. A refused conference also leaves the counter as it was. On success the counter has advanced by 2, and the list holds the conference (capacity 100) and then the tournament (capacity 40), with consecutive ids, their titles, their dates and their categories. |
| `EventCatalog.EventService.CreateDemoEvent` | src/services/EventService.ts:80-96 | One demonstration `createEvent` call is refused exactly when its date is not in the future, and then only with the date error and no change. Otherwise the event is appended with the counter's id, its title as written, and its date, category and capacity. |
| `EventCatalog.DemoOutcome` | src/models/Event.ts:28-55 | An event that meets every rule but the date is refused only for its date, and then with the date error. |
| `EventCatalog.ConferenceAcceptable` | src/services/EventService.ts:80-87 | The demonstration conference's title, description, location and capacity pass the constructor's rules, and its title is already trimmed. |
| `EventCatalog.TournamentAcceptable` | src/services/EventService.ts:89-96 | The same for the demonstration tournament. |
| `EventCatalog.CreateKeepsValid` | src/services/EventService.ts:24-25 | Appending a valid event that holds the counter's id keeps the list valid once the counter advances, and looking up that id finds the new event. |
| `RegistrationLedger.EventRegistrations` | src/services/RegistrationService.ts:46-48 | Exactly the active registrations of the event. |
| `RegistrationLedger.FindUserByEmail` | src/services/RegistrationService.ts:50-52 | Finds a user exactly when one holds the lower-cased email, and returns such a user. |
| `RegistrationLedger.GetUserById` | src/services/RegistrationService.ts:54-56 | Finds a user exactly when one has the id, and returns such a user. |
| `RegistrationLedger.ResolveUser` | src/services/RegistrationService.ts:29-33 | The step fails exactly when the email is unknown and the name or the address breaks the User constructor's rules, with the name error first. A known email gives the stored user and leaves the state as it was. An unknown email that succeeds appends exactly one user, with the counter's id, the trimmed name and the lower-cased email, and advances the user counter. In every success the user holds the lower-cased email and is stored, and the registrations and their counter are untouched. |
| `RegistrationLedger.Register` | src/services/RegistrationService.ts:19-44 | The checks run in order. A past event gives EventPast with the state unchanged. A full event gives EventFull with the state unchanged. A user error leaves the state unchanged and carries the find-or-create step's own error, that is the User constructor's. A success: a registration of this event and user, at now, with the counter's id; appended; the counter advanced; and the user had no active registration to the event. |
| `RegistrationLedger.RegisterOutcome` | src/services/RegistrationService.ts:19-44 | Each outcome as an if-and-only-if. EventPast exactly when the event is past. EventFull exactly when it is not past and its active registrations reach the capacity. On an open event, whose find-or-create step succeeds: the duplicate error exactly when the resolved user already holds an active registration to it, and a success exactly when the user holds none. |
| `RegistrationLedger.ExistingUserReused` | src/services/RegistrationService.ts:29-33 | A user already known by email is reused. No user is added, the stored name is not updated, and the registration refers to that user. |
| `RegistrationLedger.NewUserAppended` | src/services/RegistrationService.ts:29-33 | For an unknown email, a success or the duplicate error comes with exactly one new user, built from the counter, with the trimmed name and the lower-cased email. |
| `RegistrationLedger.UserErrorWhen` | src/services/RegistrationService.ts:29-33 | The user error happens exactly when the first two checks pass, the email is unknown, and the User constructor refuses the input. Its reason is the name error when the trimmed name is shorter than 2, and the institutional-email error otherwise. |
| `RegistrationLedger.NewUserNeverDuplicate` | src/services/RegistrationService.ts:29-37 | On a valid state, a freshly created user is never reported as already registered. |
| `RegistrationLedger.FailureLeavesLedger` | src/services/RegistrationService.ts:19-44 | On a valid state, every refusal leaves the state exactly as it was. |
| `RegistrationLedger.AddUserKeepsValid` | src/services/RegistrationService.ts:31-32 | Storing a user with the next id and an unused email keeps the state valid. |
| `RegistrationLedger.AddRegistrationKeepsValid` | src/services/RegistrationService.ts:39-40 | Storing a registration with the next id, a known user, and no existing active registration of that user to that event keeps the state valid. |
| `RegistrationLedger.RegisterKeepsValid` | src/services/RegistrationService.ts:19-44 | The transaction keeps the state valid: ids strictly increase and stay below their counters, emails are unique, and no event holds two active registrations of the same user. |
| `RegistrationLedger.RegistrationsAfter` | src/services/RegistrationService.ts:39-47 | Every event's active registrations are unchanged, except that a success appends its registration to its own event's list. |
| `RegistrationLedger.CapacityCeiling` | src/services/RegistrationService.ts:24-27 | An event within its capacity stays within it after any `registerUser`. |
| `RegistrationLedger.RegistrationService.RegisterUser` | src/services/RegistrationService.ts:19-44 | The in-place method returns `Register`'s outcome on the old state and leaves `Register`'s new state. A refusal changes nothing, and validity is kept. |
| `RegistrationLedger.RegistrationService.FindOrCreateUser` | src/services/RegistrationService.ts:29-33 | The in-place find-or-create step ends in `ResolveUser`'s result and state. |
| `LegacyApp.EventItem.AvailableSpaces` | src/main.ts:41-43 | Places left plus emails registered equals the capacity. The result is positive exactly while the list is below capacity. |
| `LegacyApp.EventItem.IsPast` | src/main.ts:22-24 | An item is past exactly when the Event model's constructor would refuse its date and the date is not exactly now. |
| `LegacyApp.EventItem.CanRegister` | src/main.ts:37-39 | True exactly when there is a free place and the event is not past. |
| `LegacyApp.LegacyEventService.CreateEvent` | src/main.ts:50-55 | Appends a fresh item with the given fields and no registrations. |
| `LegacyApp.LegacyEventService.CreateEventUniqueId` | src/main.ts:13 | Corrected id choice for `createEvent`: a fresh item with the given title, description, date, location, category and capacity and no registrations is appended. Its id is held by no stored item, and is the clock's value whenever that value is free. The new id then finds the new item. |
| `LegacyApp.FreshId` | src/main.ts:13 | An id that is not held by any item of the list, and that is the clock's value when no item holds it. |
| `LegacyApp.ShadowedItem` | src/main.ts:62-86 | When an item shares its id with an earlier item, looking that id up finds the earlier item, or one before it. So `getEventById`, `deleteEvent` and `registerToEvent` never reach the later item. |
| `LegacyApp.InitializeDemoData` | src/main.ts:191-231 | A non-empty list is left alone. An empty list receives the four demonstration items in order: conference, basketball tournament, workshop and gala. Each has its clock reading as id, its date, its texts, category and capacity, and no registrations. When the first two clock readings are equal, the second item's id finds the first item. |
| `LegacyApp.LegacyEventService.GetEventById` | src/main.ts:62-64 | Returns nothing exactly when no item has the id. Otherwise it returns the first item with that id. |
| `LegacyApp.LegacyEventService.DeleteEvent` | src/main.ts:66-74 | Reports true exactly when some item has the id, and then removes the first such item. Otherwise the list is unchanged. |
| `LegacyApp.LegacyEventService.RegisterToEvent` | src/main.ts:76-89 | Succeeds exactly when an item has the id, can take a registration, and does not list the email (compared exactly as typed). Then only that item's list changes, by appending the email. Each item keeps each email at most once and keeps no more emails than places. |
| `LegacyApp.ApplyFilters` | src/main.ts:821-839 | Keeps exactly the events of the selected category (when one is selected) that are upcoming or past as selected. |
| `LegacyApp.ApplyFiltersIsOneFilter` | src/main.ts:827-835 | The two filters in a row equal one filter with both tests, so the stored order is kept. |
| `LegacyApp.Search` | src/main.ts:841-849 | Keeps exactly the events whose lower-cased title, description or location contains the lower-cased query. |
| `LegacyApp.SearchEmptyQuery` | src/main.ts:843-847 | The empty query keeps every event. |
| `LegacyApp.LegacyAcceptsModelMarkers` | src/main.ts:695-696 | Every address holding one of the User model's institutional markers passes the page's marker test. |
| `LegacyApp.RegistrationFormCheck` | src/main.ts:689-699 | An empty name or email is refused as missing. Otherwise an address without a marker is refused as not institutional. Otherwise the form passes. Each case is an if-and-only-if. |
| `LegacyApp.CreateFormCheck` | src/main.ts:597-610 | Any empty field, or a capacity that is unparsed or 0, gives the empty-field error. Otherwise a date before now gives the date error. Otherwise a capacity below 1 gives the capacity error. A form that passes has a capacity of at least 1 and a date not before now. |
| `LegacyApp.FormAcceptsNowModelRefuses` | src/main.ts:602-605 | The page accepts an event dated exactly now, which the Event model's constructor refuses. |
| `LegacyApp.FormatCategory` | src/main.ts:136-144 | A category from the table is shown with its first letter upper-cased. Anything else is shown as given. |
| `LegacyApp.FormatCategoryKnown` | src/main.ts:136-144 | Every value of the category enumeration is in the table. |

## Left out

- Persistence: `saveToLocalStorage` and `loadFromLocalStorage` are left out, because they are browser storage I/O. The model likewise leaves out the reload that `getAllEvents` and `filterEvents()` perform first. That reload (src/services/EventService.ts:58-75) rebuilds every stored event through the constructor, which has three effects the model does not have:
  - a stored event whose date has passed makes the constructor throw;
  - each rebuilt event takes a value of `Event.nextId` before its stored id overwrites it, so events created after a listing do not get consecutive ids;
  - each rebuilt event gets a new `createdAt`.
- `EventCatalog.EventService.CreateEvent`: its promise `nextEventId == old(nextEventId) + 1`, and consecutive ids in general, hold only because the reload is left out.
- `EventCatalog.EventService.GetAllEvents`, `LegacyApp.ApplyFilters` and `LegacyApp.Search` read the list held in memory, not storage after a reload.
- The singleton accessors `getInstance` and the private constructors are left out. The services are ordinary objects here.
- `getFormattedDate` is left out: it depends on locale-dependent date formatting.
- `Date` values are left out. `new Date()`, `Date.now()` and `parseInt` are replaced by parameters. An invalid `Date` (NaN), which compares false with everything, is not modelled.
- `EventCatalog.EventService.InitializeDemoData` takes the two demonstration dates as parameters. The source computes them with calendar arithmetic (7 days ahead at 14:00 and 3 days ahead at 10:00), which is not modelled.
- `LegacyApp.InitializeDemoData` takes its four dates and its four `Date.now()` readings as parameters, for the same reason. It reads the list in memory instead of calling `getAllEvents`, whose reload is left out.
- `RegistrationLedger.CapacityCeiling`: capacities are integers in the model. The source's capacity is a JavaScript `number`, and its check `maxCapacity < 1` lets a fractional capacity or NaN through. With a capacity of 1.5, the full check `1 >= 1.5` is false, so a second active registration is admitted, which breaks the ceiling. With NaN the event is never reported full. The source's own callers pass integers (src/services/EventService.ts:86, 95), so the model keeps integer capacities.
- `EventCatalog.SortByDate` is one particular ascending sort, an insertion sort. It does not model the engine's sort algorithm. The model proves sortedness and permutation, not stability.
- `Strings.Lower` and `Strings.Upper` map only ASCII letters. JavaScript's full Unicode case mapping is not modelled, and neither are UTF-16 code units (a `char` is one code point).
- The page code of src/main.ts is left out: rendering, the DOM, notifications, confirmation dialogs, event listeners and the registration percentage shown on the page. Its `initializeDemoData` is modelled as `LegacyApp.InitializeDemoData`: it seeds four items through `createEvent` when the list is empty.
- `UIHelper.getCategoryColor` and src/utils/uiHelpers.ts are left out, because they are presentation only.
- `LegacyApp.FormatCategory` looks keys up in a plain record, where the source would also find inherited object keys such as `constructor`. The model does not capture that.
- No operation cancels a registration: the source has none. The `cancelled` status exists only as a value.
- `RegistrationLedger.RegistrationService` answers queries as Ledger functions on `Snapshot()`: `EventRegistrations`, `FindUserByEmail` and `GetUserById`. They are not separate class members.
- `UserModel.Construct` stores the lower-cased email without a further `trim()`. `UserModel.StoredEmailIsLower` proves that the source's trim of an accepted address changes nothing.
- `EventModel.Construct` does not model JavaScript's `!title` test separately. An empty string already fails the length check.
- `LegacyApp.LegacyEventService.CreateEvent` takes the item's id as a parameter. The source takes it from `Date.now()`, so two items created within one millisecond share an id. The model does not assume ids are unique, so `DeleteEvent` and `GetEventById` act on the first item with that id.
- The differences between the two versions of the application are kept as they are in the source:
  - the Event model refuses a date equal to now, while the page form accepts it;
  - the User model's marker is `.univ-`, while the page's is `.univ`;
  - `filterEvents` with no category returns the sorted copy, but with a category it returns the stored order;
  - the legacy service compares registered emails exactly as typed, so the same address in another letter case counts as new.

## Findings

| source | as written | input that shows it | evidently intended | confidence | as-written member | corrected member |
|---|---|---|---|---|---|---|
| src/models/User.ts:34-39 | `getInitials` splits the name on single spaces and concatenates the first character of the first two parts. An empty second part contributes `undefined`. | the name "Jean  Dupont", with two spaces, yields "JUNDEFINED" | the initials of the first two words, "JD" | not executed | `UserModel.InitialsDoubleSpace` | `UserModel.Initials` |
| src/main.ts:13 | Each `EventItem` takes `Date.now()` as its id, and `initializeDemoData` creates four items one after another (src/main.ts:196-230). Items created within the same millisecond share an id, and every lookup by id acts on the first of them. | four demonstration items created in one millisecond, `clock` = [t, t, t, t]: registering to any of them adds to the conference's list, and deleting any of them removes the conference first | every item has its own id, so each one can be found, registered to and deleted | not executed | `LegacyApp.ShadowedItem` | `LegacyApp.LegacyEventService.CreateEventUniqueId` |
