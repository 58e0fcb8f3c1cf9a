/** The flight operations: three cached reads and four writes, each write in
    its own transaction with the cache evictions it declares.

    A failing write rolls back, so its reply carries the state it was given:
    the cache manager is transaction-aware, so a rolled-back write's evictions
    are discarded with it. */
module FlightService {
  import opened Outcomes
  import opened Entities
  import opened Text
  import opened Validation
  import opened System
  import Store
  import Caches
  import Rows

  /** A write that changed flight `id` to `f` and no other row of any table. */
  ghost predicate OnlyFlightChanged(db: Store.Db, db': Store.Db, id: int, f: Flight) {
    match db'
    case Db(_, bookings', users', _, _, _) =>
      && Store.FindFlight(db', id) == Some(f)
      && (forall other :: other != id ==> Store.FindFlight(db', other) == Store.FindFlight(db, other))
      && bookings' == db.bookings && users' == db.users
      && (Store.WellFormed(db) ==> Store.WellFormed(db'))
  }

  /** `getFlightById`: read-through on the id entry of the flights cache. */
  function GetFlightById(s: Sys, id: int): (r: Reply<Flight>)
    ensures r.after.db == s.db
    ensures r.after.caches.(flights := s.caches.flights) == s.caches
    ensures Caches.IdKey(id) in s.caches.flights ==>
      r.result == Ok(s.caches.flights[Caches.IdKey(id)]) && r.after == s
    ensures Caches.IdKey(id) !in s.caches.flights ==>
      && (r.result.Ok? <==> Store.HasFlight(s.db.flights, id))
      && (r.result.Ok? ==> Store.FindFlight(s.db, id) == Some(r.result.value)
                           && r.after.caches.flights == s.caches.flights[Caches.IdKey(id) := r.result.value])
      && (r.result.Err? ==> r.result.error.NotFound? && r.after == s)
  {
    var load := match Store.FindFlight(s.db, id)
      case None => Err(NotFound("Flight not found with id: " + IntToString(id)))
      case Some(f) => Ok(f);
    var (result, entries) := Caches.ReadThrough(s.caches.flights, Caches.IdKey(id), load, Caches.KeepAll());
    Reply(result, s.(caches := s.caches.(flights := entries)))
  }

  /** `getFlightByNumber`: read-through on the 'number:' entry of the flights cache. */
  function GetFlightByNumber(s: Sys, flightNumber: string): (r: Reply<Flight>)
    ensures r.after.db == s.db
    ensures r.after.caches.(flights := s.caches.flights) == s.caches
    ensures Caches.NumberKey(flightNumber) in s.caches.flights ==>
      r.result == Ok(s.caches.flights[Caches.NumberKey(flightNumber)]) && r.after == s
    ensures Caches.NumberKey(flightNumber) !in s.caches.flights ==>
      && (r.result.Ok? <==> exists f :: f in s.db.flights && f.flightNumber == flightNumber)
      && (r.result.Ok? ==> r.result.value in s.db.flights && r.result.value.flightNumber == flightNumber
                           && r.after.caches.flights == s.caches.flights[Caches.NumberKey(flightNumber) := r.result.value])
      && (r.result.Err? ==> r.result.error.NotFound? && r.after == s)
  {
    var load := match Store.FindFlightByNumber(s.db, flightNumber)
      case None => Err(NotFound("Flight not found with number: " + flightNumber))
      case Some(f) => Ok(f);
    var (result, entries) := Caches.ReadThrough(s.caches.flights, Caches.NumberKey(flightNumber), load, Caches.KeepAll());
    Reply(result, s.(caches := s.caches.(flights := entries)))
  }

  /** `searchFlights`: read-through on the search cache; an empty answer is
      returned but not stored. The search itself never fails. */
  function SearchFlights(s: Sys, origin: string, destination: string, departureTime: int, seats: int): (r: Reply<seq<Flight>>)
    ensures r.after.db == s.db && r.result.Ok?
    ensures r.after.caches.(flightSearches := s.caches.flightSearches) == s.caches
    ensures var key := Caches.SearchKey(origin, destination, departureTime, seats);
      && (key in s.caches.flightSearches ==> r.result.value == s.caches.flightSearches[key] && r.after == s)
      && (key !in s.caches.flightSearches ==>
            && r.result.value == Store.SearchAvailable(s.db, origin, destination, departureTime, seats)
            && (forall f :: f in r.result.value <==>
                  && f in s.db.flights
                  && f.origin == origin && f.destination == destination
                  && f.departureTime >= departureTime && f.availableSeats >= seats
                  && f.status == Scheduled)
            && (|r.result.value| > 0 ==> r.after.caches.flightSearches == s.caches.flightSearches[key := r.result.value])
            && (|r.result.value| == 0 ==> r.after == s))
  {
    var key := Caches.SearchKey(origin, destination, departureTime, seats);
    var load: Result<seq<Flight>> := Ok(Store.SearchAvailable(s.db, origin, destination, departureTime, seats));
    var (result, entries) := Caches.ReadThrough(s.caches.flightSearches, key, load, Caches.KeepNonEmpty());
    Reply(result, s.(caches := s.caches.(flightSearches := entries)))
  }

  /** `convertToDTO` without the id and the status: the fields a client sent. */
  function DataOfFlight(f: Flight): FlightData {
    FlightData(f.flightNumber, f.airline, f.origin, f.destination,
               f.departureTime, f.arrivalTime, f.totalSeats, f.availableSeats, f.price)
  }

  /** The row a create inserts (`convertToEntity`, then the status): converted
      back it gives the request's fields unchanged, under the next id, SCHEDULED. */
  function NewFlight(id: int, data: FlightData): (f: Flight)
    ensures f.id == id && f.status == Scheduled
    ensures DataOfFlight(f) == data
  {
    Flight(id, data.flightNumber, data.airline, data.origin, data.destination,
           data.departureTime, data.arrivalTime, data.totalSeats, data.availableSeats,
           data.price, Scheduled)
  }

  /** `createFlight`. The flight number is a unique column, so a second flight
      with a number already in use is refused by the store and the transaction
      rolls back; the identity value the refused insert drew stays used. */
  function CreateFlight(s: Sys, data: FlightData): (r: Reply<Flight>)
    ensures r.result.Err? <==> exists g :: g in s.db.flights && g.flightNumber == data.flightNumber
    ensures r.result.Err? ==>
      && r.result.error.Integrity?
      && r.after == s.(db := s.db.(nextFlightId := s.db.nextFlightId + 1))
    ensures r.result.Ok? ==>
      var f := r.result.value;
      && f.id == s.db.nextFlightId && f.status == Scheduled
      && f.flightNumber == data.flightNumber && f.airline == data.airline
      && f.origin == data.origin && f.destination == data.destination
      && f.departureTime == data.departureTime && f.arrivalTime == data.arrivalTime
      && f.totalSeats == data.totalSeats && f.availableSeats == data.availableSeats
      && f.price == data.price
      && r.after.db.flights == s.db.flights + [f]
      && r.after.caches == s.caches.(flights := map[], flightSearches := map[])
      && (Store.WellFormed(s.db) ==> OnlyFlightChanged(s.db, r.after.db, f.id, f))
  {
    if Store.FindFlightByNumber(s.db, data.flightNumber).Some? then
      Reply(Err(Integrity("duplicate flight number " + data.flightNumber)),
            s.(db := Store.RefuseFlightInsert(s.db)))
    else
      var f := NewFlight(s.db.nextFlightId, data);
      var c := Caches.Evict(s.caches, Caches.CreateFlightEvictions());
      Caches.CreateFlightClears(s.caches);
      Reply(Ok(f), Sys(Store.AddFlight(s.db, f), c))
  }

  /** `updateFlight`: overwrites the schedule, capacity and price; the flight
      number and the status are not touched. */
  function UpdateFlight(s: Sys, id: int, data: FlightData): (r: Reply<Flight>)
    ensures r.result.Err? <==> !Store.HasFlight(s.db.flights, id)
    ensures r.result.Err? ==> r.result.error.NotFound? && r.after == s
    ensures r.result.Ok? ==>
      var before := Store.FindFlight(s.db, id).value;
      var f := r.result.value;
      && f.id == id && f.flightNumber == before.flightNumber && f.status == before.status
      && f.airline == data.airline && f.origin == data.origin && f.destination == data.destination
      && f.departureTime == data.departureTime && f.arrivalTime == data.arrivalTime
      && f.totalSeats == data.totalSeats && f.availableSeats == data.availableSeats
      && f.price == data.price
      && OnlyFlightChanged(s.db, r.after.db, id, f)
      && |r.after.db.flights| == |s.db.flights|
      && r.after.caches == Caches.Evict(s.caches, Caches.FlightChangeEvictions(id))
  {
    match Store.FindFlight(s.db, id)
    case None => Reply(Err(NotFound("Flight not found with id: " + IntToString(id))), s)
    case Some(before) =>
      var f := before.(
        airline := data.airline, origin := data.origin, destination := data.destination,
        departureTime := data.departureTime, arrivalTime := data.arrivalTime,
        totalSeats := data.totalSeats, availableSeats := data.availableSeats, price := data.price);
      Reply(Ok(f), Sys(Store.SaveFlight(s.db, f), Caches.Evict(s.caches, Caches.FlightChangeEvictions(id))))
  }

  /** `deleteFlight`. A booking row references its flight through a foreign
      key, so deleting a flight that still has bookings (cancelled ones
      included) is refused by the store and the transaction rolls back. */
  function DeleteFlight(s: Sys, id: int): (r: Reply<()>)
    ensures r.result.Err? ==> r.after == s
    ensures !Store.HasFlight(s.db.flights, id) ==> r.result.Err? && r.result.error.NotFound?
    ensures Store.HasFlight(s.db.flights, id) ==>
      (r.result.Err? <==> exists b :: b in s.db.bookings && b.flightId == id)
    ensures r.result.Err? && Store.HasFlight(s.db.flights, id) ==> r.result.error.Integrity?
    ensures r.result.Ok? ==>
      && (forall other :: other != id ==> Store.FindFlight(r.after.db, other) == Store.FindFlight(s.db, other))
      && |r.after.db.flights| == |s.db.flights| - 1
      && r.after.db.bookings == s.db.bookings && r.after.db.users == s.db.users
      && r.after.caches == Caches.Evict(s.caches, Caches.FlightChangeEvictions(id))
      && (Store.WellFormed(s.db) ==> Store.WellFormed(r.after.db) && Store.FindFlight(r.after.db, id).None?)
  {
    match Rows.IndexWhere(s.db.flights, Store.FlightWithId(id))
    case None => Reply(Err(NotFound("Flight not found with id: " + IntToString(id))), s)
    case Some(i) =>
      var bookings := Store.BookingsOfFlight(s.db, id);
      if bookings != [] then
        assert bookings[0] in bookings;
        Reply(Err(Integrity("flight " + IntToString(id) + " is referenced by bookings")), s)
      else
        Reply(Ok(()), Sys(Store.RemoveFlight(s.db, i), Caches.Evict(s.caches, Caches.FlightChangeEvictions(id))))
  }

  /** `decreaseAvailableSeats`: takes `seats` off the flight when it has that
      many left. Refusing is a normal return (`false`), so the declared
      evictions still happen; only a missing flight is an error. */
  function DecreaseAvailableSeats(s: Sys, flightId: int, seats: int): (r: Reply<bool>)
    ensures r.result.Err? <==> !Store.HasFlight(s.db.flights, flightId)
    ensures r.result.Err? ==> r.result.error.NotFound? && r.after == s
    ensures r.result.Ok? ==>
      var before := Store.FindFlight(s.db, flightId).value;
      && (r.result.value <==> before.availableSeats >= seats)
      && r.after.caches == Caches.Evict(s.caches, Caches.FlightChangeEvictions(flightId))
      && (!r.result.value ==> r.after.db == s.db)
      && (r.result.value ==>
            && OnlyFlightChanged(s.db, r.after.db, flightId, before.(availableSeats := before.availableSeats - seats))
            && before.availableSeats - seats >= 0)
  {
    match Store.FindFlight(s.db, flightId)
    case None => Reply(Err(NotFound("Flight not found")), s)
    case Some(f) =>
      var c := Caches.Evict(s.caches, Caches.FlightChangeEvictions(flightId));
      if f.availableSeats < seats then
        Reply(Ok(false), Sys(s.db, c))
      else
        Reply(Ok(true), Sys(Store.SaveFlight(s.db, f.(availableSeats := f.availableSeats - seats)), c))
  }

  /** A seat decrease that succeeds changes the flight's row, and nothing else. */
  lemma DecreaseChangesOnlyFlight(s: Sys, flightId: int, seats: int)
    requires DecreaseAvailableSeats(s, flightId, seats).result == Ok(true)
    ensures Store.FindFlight(s.db, flightId).Some?
    ensures var before := Store.FindFlight(s.db, flightId).value;
      OnlyFlightChanged(s.db, DecreaseAvailableSeats(s, flightId, seats).after.db, flightId,
        before.(availableSeats := before.availableSeats - seats))
  {
  }

  /** A refused create still uses up an identity value: the next flight
      created is keyed one past the id the refused one drew, and so above every
      id stored before. */
  lemma RefusedCreateSkipsId(s: Sys, refused: FlightData, next: FlightData)
    requires Store.WellFormed(s.db)
    requires CreateFlight(s, refused).result.Err?
    requires CreateFlight(CreateFlight(s, refused).after, next).result.Ok?
    ensures var f := CreateFlight(CreateFlight(s, refused).after, next).result.value;
      && f.id == s.db.nextFlightId + 1
      && forall g :: g in s.db.flights ==> g.id + 1 < f.id
  {
  }

  /** A flight created from a request that passed the request checks fits the
      flight number, airline and airport columns. */
  lemma CreatedFlightFitsColumns(s: Sys, form: FlightForm, now: int)
    requires AdmitFlight(form, now).Some?
    ensures var r := CreateFlight(s, AdmitFlight(form, now).value);
      r.result.Ok? ==> FlightFitsColumns(r.result.value)
  {
  }
}
