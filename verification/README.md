# Flight booking services, modelled in Dafny

This project models the service layer of a Spring flight booking system. That
layer is made of the flight, booking and user services, the repositories they
query, the bean-validation rules on the two request bodies, and the three
persisted entities.

Each service operation is a pure function from a state to a reply. The state
`System.Sys` is the relational store (`Store.Db`: the flights, bookings and
users tables with their identity counters) together with the five Redis caches
(`Caches.Caches`: `flights`, `flightSearches`, `bookings`, `userBookings` and
`users`, each a map from text keys to cached values). The reply carries the
operation's result and the state after it. `Outcomes.Result` stands for an
operation that throws:

- `NotFound` for `ResourceNotFoundException`;
- `Business` for `BusinessException`;
- `Integrity` for a database constraint refusing the save.

A failing transactional operation rolls back, so its reply carries the rows it
was given. The one thing a rollback does not undo is an identity value already
drawn: the three primary keys are IDENTITY columns, the database draws the key
as soon as it receives an insert, and it does not give the value back when a
constraint then refuses the row. A refused insert therefore leaves every table
as it was and moves its table's identity counter on (`Store.RefuseFlightInsert`,
`Store.RefuseBookingInsert`, `Store.RefuseUserInsert`).

The caching annotations are modelled as declared:

- `@Cacheable` is a read-through (`Caches.ReadThrough`) on the key the
  annotation builds. Keys are serialised as text, so a numeric id becomes its
  decimal rendering.
- The `unless` condition decides whether a value is stored.
- `@CacheEvict` removes exactly the keys or the whole caches the annotation
  names, and only on a normal return. The cache manager is transaction-aware,
  so the evictions of a rolled-back transaction are discarded.

The modules follow the program's structure:

| module | what it holds |
|---|---|
| `Outcomes` | `Option` and `Result` |
| `Text` | decimal rendering of numbers |
| `Rows` | tables as sequences and the two query shapes over them |
| `Entities` | the entities and their column widths |
| `Validation` | the request forms and their constraints |
| `Store` | the repositories and the table constraints |
| `Caches` | keys, read-through and eviction |
| `System` | the state |
| `Effects` | what a booking and a cancellation leave behind |
| `FlightService`, `BookingService`, `UserService` | the operations |
| `Accounting` | the seat-balance invariant |
| `Coherence` | how the caches relate to the store |

The clock and the random number behind a booking reference are parameters
(`millis`, and `draw` below 1000). So is the "now" of the `@Future` check. The
signed token a user signs in with is reduced to its claims
(`UserService.Claims`).

The store enforces the constraints the table mapping declares:

- unique flight number;
- unique booking reference;
- unique email;
- unique identity-provider subject;
- the booking's foreign keys to its flight and its user, with an insert
  needing both rows and a flight delete refused while bookings reference it.

`Store.WellFormed` states these constraints. Every write is proved to keep it.

Some behaviours of the code shape the properties below:

- `createFlight` copies the available seats from the request as given, so
  nothing ties them to the capacity (`Accounting.CreateFlightBalance`).
- `updateFlight` overwrites both seat counts with the request's values
  (`Accounting.UpdateFlightBalance`).
- `createBooking` generates one reference and saves it. A reference already in
  use is refused by the unique index and the booking fails; no new reference is
  drawn (`BookingService.CreateBooking`).
- `createBooking` looks up the flight, then the user, and only then checks the
  seats left (`BookingService.CreateBooking`).
- `cancelBooking` declares no eviction, and `createBooking` evicts only through
  the seat decrease it calls, so booking and flight entries can outlive the
  rows they show (`Coherence.CancelLeavesStaleEntry`,
  `Coherence.CancelLeavesBookingEntry`,
  `Coherence.CreateBookingLeavesUserBookingsEntry`).

`@Size` counts `String.length()`, which is UTF-16 code units, so the model
measures a validated field with `Text.Utf16Length`: a character outside the
basic multilingual plane counts twice. Column widths are compared with the
number of characters.

## Model

| member | source | states |
|---|---|---|
| Text.NatToString | src/main/java/com/example/flightbookingsystem/service/BookingService.java:109 | the decimal text of a number is non-empty, all digits, without a leading zero |
| Text.ParseNatToString | src/main/java/com/example/flightbookingsystem/service/BookingService.java:109 | reading the decimal text of a natural number back gives the number |
| Text.IntToStringRoundTrip | src/main/java/com/example/flightbookingsystem/service/FlightService.java:26 | the text a long id is keyed under reads back as that id, negative ids included |
| Text.IntToStringInjective | src/main/java/com/example/flightbookingsystem/service/FlightService.java:26 | two ids share a key text exactly when they are equal |
| Text.NatToStringLongAbove | src/main/java/com/example/flightbookingsystem/service/BookingService.java:109 | a number of at least 10^k renders with more than k digits |
| Text.NatToStringShortBelow | src/main/java/com/example/flightbookingsystem/service/BookingService.java:109 | a number below 10^k renders with at most k digits |
| Rows.Find | src/main/java/com/example/flightbookingsystem/repository/BookingRepository.java:12 | a single-row finder returns a row of the table meeting the condition, and returns nothing exactly when no row meets it |
| Rows.Filter | src/main/java/com/example/flightbookingsystem/repository/BookingRepository.java:14 | a list finder returns each row meeting the condition as often as the table holds it, and no other row |
| Rows.FilterKeepsOrder | src/main/java/com/example/flightbookingsystem/repository/BookingRepository.java:14 | the answer keeps table order: the matches among the first rows come before the matches among the rest |
| Rows.FilterNarrows | src/main/java/com/example/flightbookingsystem/repository/FlightRepository.java:23-25 | narrowing a query's condition narrows its answer, in the same order |
| Rows.FindOnly | src/main/java/com/example/flightbookingsystem/model/Booking.java:14 | when at most one row can meet the condition, the finder returns that row |
| Rows.FindAfterRemove | src/main/java/com/example/flightbookingsystem/service/FlightService.java:92 | deleting a row that does not match leaves every lookup's answer unchanged |
| Rows.FindAfterAppend | src/main/java/com/example/flightbookingsystem/service/BookingService.java:69 | inserting a row keeps an existing match, and otherwise the new row is the match exactly when it matches |
| Validation.CheckNotBlank | src/main/java/com/example/flightbookingsystem/dto/BookingDTO.java:28 | a field passes `@NotBlank` exactly when it is present and holds a character that `trim()` keeps |
| Validation.CheckPhonePattern | src/main/java/com/example/flightbookingsystem/dto/BookingDTO.java:40-42 | the phone passes exactly when it is absent or is one or more digits, '+', '-', whitespace or parentheses |
| Validation.CheckBookingRule | src/main/java/com/example/flightbookingsystem/dto/BookingDTO.java:20-47 | each booking constraint is accepted exactly when the form satisfies it |
| Validation.CheckFlightRule | src/main/java/com/example/flightbookingsystem/dto/FlightDTO.java:19-52 | each flight constraint is accepted exactly when the form satisfies it at the given instant |
| Validation.ValidateBooking | src/main/java/com/example/flightbookingsystem/dto/BookingDTO.java:20-47 | the reported violations are exactly the constraints the form breaks; none are reported exactly for a valid form |
| Validation.ValidateFlight | src/main/java/com/example/flightbookingsystem/dto/FlightDTO.java:19-52 | the reported violations are exactly the constraints the form breaks at that instant |
| Text.Utf16Length | src/main/java/com/example/flightbookingsystem/dto/BookingDTO.java:29 | the length `@Size` measures lies between the number of characters and twice it, and equals it exactly when every character is in the basic multilingual plane |
| Validation.BookingRuleHolds | src/main/java/com/example/flightbookingsystem/dto/BookingDTO.java:20-47 | the seven booking constraints, one per annotated field, each with the validator's treatment of a missing value |
| Validation.FlightRuleHolds | src/main/java/com/example/flightbookingsystem/dto/FlightDTO.java:19-52 | the nine flight constraints, one per annotated field, judged at a given instant |
| Validation.AdmitBooking | src/main/java/com/example/flightbookingsystem/dto/BookingDTO.java:20-47 | a form reaches the service exactly when it is valid, and then carries the form's own values: ids, email and names present, names at most 100 UTF-16 units, phone non-blank and of the allowed characters, 1 to 9 seats |
| Validation.AdmitFlight | src/main/java/com/example/flightbookingsystem/dto/FlightDTO.java:19-52 | a flight form reaches the service exactly when valid, and then carries the form's own nine values: number 1..10 UTF-16 units, airline up to 100, airport codes of exactly three units, future departure, capacity at least 1, seats left at least 0, price at least 0.01 |
| Validation.AdmitFlightAllowsOverfullAndBackwards | src/main/java/com/example/flightbookingsystem/dto/FlightDTO.java:39-48 | a valid form may have more seats left than capacity and may arrive before it departs |
| Store.FindFlight | src/main/java/com/example/flightbookingsystem/service/FlightService.java:29-30 | a lookup by id returns a stored flight with that id, and nothing exactly when no flight has it |
| Store.FindFlightByNumber | src/main/java/com/example/flightbookingsystem/repository/FlightRepository.java:14 | a lookup by number returns a stored flight with that number, and nothing exactly when none has it |
| Store.SearchAvailable | src/main/java/com/example/flightbookingsystem/repository/FlightRepository.java:23-31 | the search returns the SCHEDULED flights on the route leaving at or after the time with at least the seats asked for, each as often as the table holds it, and no other |
| Store.FlightsInWindow | src/main/java/com/example/flightbookingsystem/repository/FlightRepository.java:16-21 | the derived query returns the flights on the route leaving within the inclusive window, each as often as the table holds it, and no other |
| Store.FindBookingByReference | src/main/java/com/example/flightbookingsystem/repository/BookingRepository.java:12 | a lookup by reference returns a stored booking with it, and nothing exactly when none has it |
| Store.BookingsOfUser | src/main/java/com/example/flightbookingsystem/repository/BookingRepository.java:14 | every booking of the user whatever its status, each as often as the table holds it, and no other |
| Store.BookingsOfFlight | src/main/java/com/example/flightbookingsystem/repository/BookingRepository.java:16 | every booking on the flight, each as often as the table holds it, and no other |
| Store.FindUser | src/main/java/com/example/flightbookingsystem/service/UserService.java:34-35 | a lookup by id returns a stored user with that id, and nothing exactly when none has it |
| Store.FindUserByEmail | src/main/java/com/example/flightbookingsystem/service/UserService.java:26-27 | a lookup by email returns a stored user with that email, and nothing exactly when none has it |
| Store.FlightNumberIdentifies | src/main/java/com/example/flightbookingsystem/model/Flight.java:28-29 | the flight number is unique, so the lookup by number finds the one flight that has it |
| Store.FlightIdIdentifies | src/main/java/com/example/flightbookingsystem/model/Flight.java:24-26 | the primary key identifies its row |
| Store.ReferenceIdentifies | src/main/java/com/example/flightbookingsystem/model/Booking.java:14 | the unique reference index makes the lookup by reference find the one booking that has it |
| Store.EmailIdentifies | src/main/java/com/example/flightbookingsystem/model/User.java:13 | the unique email index makes the lookup by email find the one user that has it |
| Store.SearchNarrows | src/main/java/com/example/flightbookingsystem/repository/FlightRepository.java:24 | asking for more seats or a later departure returns a subset of the earlier answer, in the same order |
| Store.PutFlight | src/main/java/com/example/flightbookingsystem/service/FlightService.java:113 | saving a stored flight makes its id read back the new row, leaves every other id's row alone, and keeps the constraints when the number is kept |
| Store.SaveFlight | src/main/java/com/example/flightbookingsystem/service/FlightService.java:77 | saving a flight that exists changes only its own row and keeps the table's size |
| Store.AddFlight | src/main/java/com/example/flightbookingsystem/service/FlightService.java:61 | inserting a flight under the next id makes it readable by that id and keeps the constraints when its number is new |
| Store.RemoveFlight | src/main/java/com/example/flightbookingsystem/service/FlightService.java:92 | deleting a flight makes its id unreadable, leaves the other flights, and keeps the constraints when no booking references it |
| Store.RemoveFlightKeepsWellFormed | src/main/java/com/example/flightbookingsystem/model/Booking.java:35-37 | with no booking on the deleted flight every booking's flight still exists |
| Store.SaveBooking | src/main/java/com/example/flightbookingsystem/service/BookingService.java:101 | saving a booking with a new status changes that booking only and keeps the constraints |
| Store.AddBooking | src/main/java/com/example/flightbookingsystem/service/BookingService.java:69 | inserting a booking with a fresh reference makes it readable by that reference; other references read as before |
| Store.AddBookingKeepsWellFormed | src/main/java/com/example/flightbookingsystem/model/Booking.java:28-37 | a booking with a new reference whose flight and user exist keeps the constraints |
| Store.PutUser | src/main/java/com/example/flightbookingsystem/service/UserService.java:57 | saving a stored user makes its email read back the new row, leaves other emails alone, and keeps the constraints when the subject is not held by another user |
| Store.AddUser | src/main/java/com/example/flightbookingsystem/service/UserService.java:57 | inserting a user under a new email makes it readable by that email, leaves other emails alone, and keeps the constraints when email and subject are new |
| Store.RefuseFlightInsert | src/main/java/com/example/flightbookingsystem/model/Flight.java:24-26 | a refused flight insert changes no table and moves only the flight identity counter on, keeping the constraints |
| Store.RefuseBookingInsert | src/main/java/com/example/flightbookingsystem/model/Booking.java:24-26 | a refused booking insert changes no table and moves only the booking identity counter on, keeping the constraints |
| Store.RefuseUserInsert | src/main/java/com/example/flightbookingsystem/model/User.java:22-24 | a refused user insert changes no table and moves only the user identity counter on, keeping the constraints |
| Caches.ReadThrough | src/main/java/com/example/flightbookingsystem/service/FlightService.java:42-44 | `@Cacheable` with an `unless` condition: a hit skips the method; a miss runs it and stores a successful result that `unless` does not reject, under the annotation's key only |
| Caches.ReadThroughThenHits | src/main/java/com/example/flightbookingsystem/service/FlightService.java:26 | once a read has stored a value, the next read of that key answers the stored value whatever the method would now return, and changes nothing |
| Caches.ReadThroughRepeats | src/main/java/com/example/flightbookingsystem/service/FlightService.java:42-44 | repeating a read with the same method outcome answers the same and leaves the cache as the first read left it; no other key is touched |
| Caches.IdKey | src/main/java/com/example/flightbookingsystem/service/FlightService.java:26 | an id is keyed under text of a sign or digit followed by digits, which reads back as the id |
| Caches.NumberKey | src/main/java/com/example/flightbookingsystem/service/FlightService.java:34 | a number key is "number:" followed by the flight number unchanged |
| Caches.SearchKey | src/main/java/com/example/flightbookingsystem/service/FlightService.java:43 | a search key opens with the origin code followed by ':' |
| Caches.ReferenceKey | src/main/java/com/example/flightbookingsystem/service/BookingService.java:75 | a booking key is "ref:" followed by the reference unchanged |
| Caches.PrefixedKeysDiffer | src/main/java/com/example/flightbookingsystem/service/FlightService.java:34 | two flight numbers, or two references, share a key exactly when they are equal |
| Caches.SearchKeyIdentifies | src/main/java/com/example/flightbookingsystem/service/FlightService.java:43 | when no route code contains ':', two searches share a key exactly when origin, destination, time and seats all agree |
| Caches.CreateFlightEvictions | src/main/java/com/example/flightbookingsystem/service/FlightService.java:53-56 | a flight creation evicts every key of the flights and flightSearches caches and nothing in the other three |
| Caches.FlightChangeEvictions | src/main/java/com/example/flightbookingsystem/service/FlightService.java:67-70 | a flight change evicts the flight's id key in the flights cache, every flightSearches key, and nothing else |
| Caches.UserSyncEvictions | src/main/java/com/example/flightbookingsystem/service/UserService.java:40 | a user synchronisation evicts every key of the users cache and nothing else |
| Caches.Evict | src/main/java/com/example/flightbookingsystem/service/FlightService.java:67-70 | an entry survives exactly when no eviction names its key or its whole cache, and keeps its value |
| Caches.IdAndNumberKeysDiffer | src/main/java/com/example/flightbookingsystem/service/FlightService.java:34 | an id key never equals a 'number:' key in the shared flights cache |
| Caches.IdKeysDiffer | src/main/java/com/example/flightbookingsystem/service/FlightService.java:26 | two flights share an id key exactly when their ids are equal |
| Caches.SearchKeysCollide | src/main/java/com/example/flightbookingsystem/service/FlightService.java:43 | two different searches can build the same key, because the parts are joined with ':' unescaped |
| Caches.FlightChangeKeepsNumberEntry | src/main/java/com/example/flightbookingsystem/service/FlightService.java:97-100 | the evictions of a flight change never remove a 'number:' entry |
| Caches.CreateFlightClears | src/main/java/com/example/flightbookingsystem/service/FlightService.java:53-56 | creating a flight empties the flights and flightSearches caches and keeps the other three |
| Caches.UserSyncClears | src/main/java/com/example/flightbookingsystem/service/UserService.java:40 | a user synchronisation empties the users cache and keeps the other four |
| Caches.FlightChangeSparesOtherCaches | src/main/java/com/example/flightbookingsystem/service/FlightService.java:83-86 | a flight change evicts nothing from the bookings, userBookings or users caches |
| FlightService.GetFlightById | src/main/java/com/example/flightbookingsystem/service/FlightService.java:26-32 | a cached id answers from the cache; otherwise the answer is the stored flight, cached under the id, or not-found exactly when no flight has the id, with nothing changed |
| FlightService.GetFlightByNumber | src/main/java/com/example/flightbookingsystem/service/FlightService.java:34-40 | a cached number answers from the cache; otherwise the stored flight with that number, cached, or not-found exactly when none has it |
| FlightService.SearchFlights | src/main/java/com/example/flightbookingsystem/service/FlightService.java:42-50 | never fails; a miss answers the repository's search list itself (`Store.SearchAvailable`) and caches it only when it is non-empty |
| FlightService.NewFlight | src/main/java/com/example/flightbookingsystem/service/FlightService.java:59-60 | the inserted row, converted back as `convertToDTO` does, gives the request's fields unchanged; it takes the given id and the SCHEDULED status |
| FlightService.CreateFlight | src/main/java/com/example/flightbookingsystem/service/FlightService.java:52-64 | refused exactly when the number is in use, with no row and no cache changed but one flight id used up; otherwise a SCHEDULED flight under the next id with every other field copied from the request, appended, both flight caches cleared |
| FlightService.UpdateFlight | src/main/java/com/example/flightbookingsystem/service/FlightService.java:66-80 | not-found exactly for an unknown id; otherwise only that flight changes, with id, number and status kept and the other eight fields taken from the request, and its id entry and all searches evicted |
| FlightService.DeleteFlight | src/main/java/com/example/flightbookingsystem/service/FlightService.java:82-94 | not-found for an unknown id; refused exactly when a booking references the flight; otherwise exactly that flight disappears and the constraints hold |
| FlightService.DecreaseAvailableSeats | src/main/java/com/example/flightbookingsystem/service/FlightService.java:96-116 | not-found exactly for an unknown flight; true exactly when enough seats are left, then only the seat count drops and stays at least 0; false leaves the store; both evict |
| FlightService.DecreaseChangesOnlyFlight | src/main/java/com/example/flightbookingsystem/service/FlightService.java:112-113 | a granted decrease changes the flight's available seats and no other row of any table |
| FlightService.RefusedCreateSkipsId | src/main/java/com/example/flightbookingsystem/service/FlightService.java:61 | after a refused create, the next flight created is keyed one past the id the refused one drew, above every id stored before |
| FlightService.CreatedFlightFitsColumns | src/main/java/com/example/flightbookingsystem/model/Flight.java:28-38 | a flight created from a valid form fits the number, airline and airport columns |
| BookingService.GenerateReference | src/main/java/com/example/flightbookingsystem/service/BookingService.java:108-110 | the reference starts with "BK" and, for a clock at or after the epoch, is digits after it |
| BookingService.GenerateReferenceReadsBack | src/main/java/com/example/flightbookingsystem/service/BookingService.java:108-110 | the reference is "BK", the clock's decimal digits without padding, then the draw's, and reads back: the digits up to the draw's last one to three are the clock reading, those last digits are the draw |
| BookingService.ReferenceExceedsColumn | src/main/java/com/example/flightbookingsystem/model/Booking.java:28-29 | once the clock passes 10^7 ms every reference is longer than the 10-character column |
| BookingService.ReferenceLengthToday | src/main/java/com/example/flightbookingsystem/service/BookingService.java:109 | with a thirteen-digit clock the reference has 16 to 18 characters |
| BookingService.ReferenceAmbiguous | src/main/java/com/example/flightbookingsystem/service/BookingService.java:109 | different clock readings and draws can yield the same reference |
| BookingService.CreateBooking | src/main/java/com/example/flightbookingsystem/service/BookingService.java:38-73 | unknown flight, then unknown user, then too few seats fail in that order with nothing changed; "Failed to book seats" never occurs; otherwise the seats are taken once and a CONFIRMED booking with the request's passenger fields and price times seats is stored, unless its reference is in use, which leaves every row and cache as they were but uses up one booking id |
| BookingService.Book | src/main/java/com/example/flightbookingsystem/service/BookingService.java:52-69 | after the checks, the booking succeeds exactly when the generated reference is free, and then holds exactly the request's fields under the next id; a refusal rolls the seats back and uses up one booking id |
| BookingService.GetBookingByReference | src/main/java/com/example/flightbookingsystem/service/BookingService.java:75-81 | a cached reference answers from the cache; otherwise the stored booking, cached, or not-found exactly when none has the reference |
| BookingService.GetUserBookings | src/main/java/com/example/flightbookingsystem/service/BookingService.java:83-88 | never fails; a miss answers the repository's list of the user's bookings itself (`Store.BookingsOfUser`) and caches only a non-empty list |
| BookingService.CancelBooking | src/main/java/com/example/flightbookingsystem/service/BookingService.java:90-106 | not-found for an unknown reference; refused for a cancelled booking; otherwise, in a well-formed store, it succeeds, the booking reads CANCELLED, its flight regains its seats, and no cache changes |
| BookingService.ReleaseSeats | src/main/java/com/example/flightbookingsystem/service/BookingService.java:100-105 | the booking's status becomes CANCELLED and its seats are added back to its flight, fails only when the store breaks the foreign key |
| BookingService.RefusedBookingSkipsId | src/main/java/com/example/flightbookingsystem/service/BookingService.java:69 | after a booking refused for its reference, the next booking recorded is keyed one past the id the refused one drew |
| BookingService.CancelTwiceRefused | src/main/java/com/example/flightbookingsystem/service/BookingService.java:96-98 | cancelling the same reference a second time is refused and changes nothing, so seats come back once |
| BookingService.AdmittedRequestMayOverflowColumns | src/main/java/com/example/flightbookingsystem/dto/BookingDTO.java:36-42 | a valid request can carry a phone longer than 20 and an email longer than 50, the widths of their columns |
| Accounting.ActiveSeatsUpdate | src/main/java/com/example/flightbookingsystem/service/BookingService.java:100-101 | replacing one booking changes the held seats by the difference between what the two bookings hold |
| Accounting.SeatBounds | src/main/java/com/example/flightbookingsystem/model/Flight.java:46-50 | under the seat invariant a flight's available seats lie between 0 and its capacity |
| Accounting.TakeKeepsSeats | src/main/java/com/example/flightbookingsystem/service/BookingService.java:52-69 | taking the seats of a new booking keeps every flight balanced and non-negative |
| Accounting.ReleaseKeepsSeats | src/main/java/com/example/flightbookingsystem/service/BookingService.java:100-105 | giving back a cancelled booking's seats keeps every flight balanced and non-negative |
| Accounting.CreateBookingKeepsSeats | src/main/java/com/example/flightbookingsystem/service/BookingService.java:38-73 | booking, successful or not, keeps available plus held seats equal to capacity for every flight |
| Accounting.CancelBookingKeepsSeats | src/main/java/com/example/flightbookingsystem/service/BookingService.java:90-106 | cancelling, successful or not, keeps the same balance |
| Accounting.RunKeepsSeats | src/main/java/com/example/flightbookingsystem/service/BookingService.java:38-106 | any sequence of validated bookings and cancellations keeps the seat invariant |
| Accounting.RunStaysWithinCapacity | src/main/java/com/example/flightbookingsystem/service/BookingService.java:48-54 | after any such sequence no flight is overbooked or below zero seats |
| Accounting.CreateFlightBalance | src/main/java/com/example/flightbookingsystem/service/FlightService.java:134-146 | a created flight keeps the store balanced exactly when the request's available seats equal its capacity |
| Accounting.UpdateFlightBalance | src/main/java/com/example/flightbookingsystem/service/FlightService.java:148-157 | an update keeps the store balanced exactly when the request's seat counts account for the seats the flight's bookings hold |
| Accounting.DecreaseAloneUnbalances | src/main/java/com/example/flightbookingsystem/service/FlightService.java:101-116 | a granted seat decrease outside a booking unbalances a balanced store |
| Accounting.TakeThenReleaseRestores | src/main/java/com/example/flightbookingsystem/service/BookingService.java:104 | taking a booking's seats and giving them back restores its flight exactly |
| Accounting.BookThenCancelRestoresSeats | src/main/java/com/example/flightbookingsystem/service/BookingService.java:52-54 | cancelling a booking just made succeeds and restores its flight's row |
| UserService.DetermineRole | src/main/java/com/example/flightbookingsystem/service/UserService.java:63-69 | ADMIN exactly when the permissions claim is present and lists "admin", USER otherwise |
| UserService.GetUserByEmail | src/main/java/com/example/flightbookingsystem/service/UserService.java:23-29 | a cached email answers from the cache; otherwise the stored user's view, cached under the email, or not-found exactly when none has it |
| UserService.GetUserById | src/main/java/com/example/flightbookingsystem/service/UserService.java:31-37 | a cached id answers from the cache; otherwise the stored user's view, cached under the id's text, or not-found exactly when none has it |
| UserService.NewUser | src/main/java/com/example/flightbookingsystem/service/UserService.java:47-54 | a first sign-in's row is active, holds the claims' email, subject and names, no phone, and is ADMIN exactly when the permissions list "admin" |
| UserService.SyncUser | src/main/java/com/example/flightbookingsystem/service/UserService.java:39-61 | refused exactly when another user holds the subject, with no row changed; a refused new user uses up one user id and a refused relink none; otherwise the email's user holds the subject, other emails read as before, and the users cache is emptied |
| UserService.Relink | src/main/java/com/example/flightbookingsystem/service/UserService.java:56-57 | a known email keeps its row, names, role and active flag, and only the subject is overwritten |
| UserService.Register | src/main/java/com/example/flightbookingsystem/service/UserService.java:46-57 | a new email gets an active user under the next id with the claims' names, no phone, and the role the permissions give; refused exactly when another user holds the subject, and then only the user id counter moves on |
| UserService.SubjectHeldOnce | src/main/java/com/example/flightbookingsystem/model/User.java:14 | by the unique subject index, the subject a user holds is held by no other user |
| UserService.SyncUserIdempotent | src/main/java/com/example/flightbookingsystem/service/UserService.java:41-61 | signing in again with the same claims succeeds, gives the same user and leaves the users table as it was |
| UserService.RefusedRegisterSkipsId | src/main/java/com/example/flightbookingsystem/service/UserService.java:56-57 | after a refused registration, the next user registered is keyed one past the id the refused one drew |
| UserService.EmailAndIdKeysCollide | src/main/java/com/example/flightbookingsystem/service/UserService.java:23-37 | the two user reads share one cache, so a lookup by the email "7" answers a later lookup of user 7 with another user |
| Coherence.GetFlightByIdCoherent | src/main/java/com/example/flightbookingsystem/service/FlightService.java:26-32 | when every cached id entry shows the stored row, a read by id answers what the store holds and keeps that so |
| Coherence.GetFlightByNumberKeepsFresh | src/main/java/com/example/flightbookingsystem/service/FlightService.java:34-40 | a read by number keeps the id entries faithful |
| Coherence.SearchFlightsKeepsFresh | src/main/java/com/example/flightbookingsystem/service/FlightService.java:42-50 | a search keeps the id entries faithful |
| Coherence.CreateFlightKeepsFresh | src/main/java/com/example/flightbookingsystem/service/FlightService.java:53-56 | creating a flight keeps the id entries faithful |
| Coherence.UpdateFlightKeepsFresh | src/main/java/com/example/flightbookingsystem/service/FlightService.java:67-70 | updating a flight keeps the id entries faithful |
| Coherence.DeleteFlightKeepsFresh | src/main/java/com/example/flightbookingsystem/service/FlightService.java:83-86 | deleting a flight keeps the id entries faithful |
| Coherence.DecreaseKeepsFresh | src/main/java/com/example/flightbookingsystem/service/FlightService.java:97-100 | a seat decrease, granted or not, keeps the id entries faithful |
| Coherence.CreateBookingKeepsFresh | src/main/java/com/example/flightbookingsystem/service/BookingService.java:52 | booking keeps the id entries faithful through the nested decrease's evictions |
| Coherence.BookingAndUserReadsKeepFresh | src/main/java/com/example/flightbookingsystem/service/BookingService.java:75-88 | the booking and user reads keep the id entries faithful |
| Coherence.SyncUserKeepsFresh | src/main/java/com/example/flightbookingsystem/service/UserService.java:40 | a user synchronisation keeps the id entries faithful |
| Coherence.CancelLeavesStaleEntry | src/main/java/com/example/flightbookingsystem/service/BookingService.java:90-106 | cancelling declares no eviction, so a cached id entry of the flight stays and a read by id then shows the seats as still taken |
| Coherence.DecreaseLeavesNumberEntry | src/main/java/com/example/flightbookingsystem/service/FlightService.java:97-100 | after a granted decrease a read by number still answers the flight as it was before |
| Coherence.UpdateLeavesNumberEntry | src/main/java/com/example/flightbookingsystem/service/FlightService.java:67-70 | after an update a read by number still answers the flight as it was before |
| Coherence.CancelLeavesBookingEntry | src/main/java/com/example/flightbookingsystem/service/BookingService.java:75 | after a cancellation a cached booking is still read with its earlier status while the store says CANCELLED |
| Coherence.CreateBookingLeavesUserBookingsEntry | src/main/java/com/example/flightbookingsystem/service/BookingService.java:83 | after a booking the user's cached booking list is still answered and lacks the new booking |

## Left out

- Column widths are not enforced on save. Whether an over-long value is rejected or truncated depends on the database. The mismatches are stated as lemmas instead (`BookingService.ReferenceExceedsColumn`, `BookingService.AdmittedRequestMayOverflowColumns`).
- Cache entries have no time-to-live: an entry lives until it is evicted. Expiry depends on the wall clock.
- Concurrency is not modelled. The model is sequential, so the race between the seat check and the save in `decreaseAvailableSeats` is not modelled.
- `@Email` format checking is a library rule. The passenger email is checked only as non-blank.
- The null checks in `unless` are not modelled. A service method either returns a value or fails, so a returned null cannot arise.
- Absent JWT claims are not modelled. Every claim but the permissions list is a present string.
- `LocalDateTime` is an integer instant. The search key renders it as decimal text rather than in ISO format.
- The queries declare no ORDER BY. The model returns lists in table (insertion) order (`Rows.FilterKeepsOrder`), which is one order the database may use, not one it promises.
- `Integer` and `Long` overflow is not modelled; counts and ids are unbounded integers.
- Prices are integer minor units. `BigDecimal` scale and rounding are not modelled.
- Not modelled, because these are framework glue:
  - the controllers and their authorisation annotations;
  - the auditing timestamps (`createdAt`, `updatedAt`);
  - logging;
  - the conversion to DTOs beyond the fields the results carry.
- The DTO's `status` string is not modelled. Its textual status is ignored on input, and `Flight` results carry the status enumeration.
- The number of repository calls per operation is not modelled. The store is a value, not a mock.
- Lazy loading is replaced by lookups. A booking names its flight and its user by id.
- `Accounting.RunKeepsSeats` covers runs of bookings and cancellations only. The administrative flight writes are treated one at a time in `Accounting.CreateFlightBalance`, `Accounting.UpdateFlightBalance` and `Accounting.DecreaseAloneUnbalances`, because they do not keep the balance.
- `Coherence` states freshness of the flights cache's id entries per operation, not over a run of operations.
- Cached values are the results themselves. Their JSON serialisation is not modelled.
