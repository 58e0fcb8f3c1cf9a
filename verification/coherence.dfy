/** How the caches relate to the store across operations.

    The id entries of the flights cache stay faithful to the store under every
    operation but one: cancelling a booking gives seats back to a flight
    without evicting anything. The number entries of the flights cache, the
    bookings cache and the userBookings cache are never evicted by the writes
    that change what they show, so they go stale. */
module Coherence {
  import opened Outcomes
  import opened Entities
  import opened System
  import opened Validation
  import Store
  import Caches
  import Effects
  import FlightService
  import BookingService
  import UserService

  /** Every id entry of the flights cache shows the row the store holds under that id. */
  ghost predicate IdEntriesFresh(s: Sys) {
    forall id :: Caches.IdKey(id) in s.caches.flights ==>
      Store.FindFlight(s.db, id) == Some(s.caches.flights[Caches.IdKey(id)])
  }

  /** With nothing cached yet there is nothing stale. */
  lemma InitialFresh()
    ensures IdEntriesFresh(Initial())
  {
  }

  // ---- the shapes of change the operations make ----

  lemma SameFlightsKeepFresh(s: Sys, after: Sys)
    requires IdEntriesFresh(s)
    requires after.caches.flights == s.caches.flights && after.db.flights == s.db.flights
    ensures IdEntriesFresh(after)
  {
    forall id | Caches.IdKey(id) in after.caches.flights
      ensures Store.FindFlight(after.db, id) == Some(after.caches.flights[Caches.IdKey(id)])
    {
      assert Store.FindFlight(after.db, id) == Store.FindFlight(s.db, id);
    }
  }

  /** A write that changes flight `id` at most, evicting its id entry. */
  lemma EvictedChangeKeepsFresh(s: Sys, after: Sys, id: int)
    requires IdEntriesFresh(s)
    requires after.caches == Caches.Evict(s.caches, Caches.FlightChangeEvictions(id))
    requires forall other :: other != id ==> Store.FindFlight(after.db, other) == Store.FindFlight(s.db, other)
    ensures IdEntriesFresh(after)
  {
    forall other | Caches.IdKey(other) in after.caches.flights
      ensures Store.FindFlight(after.db, other) == Some(after.caches.flights[Caches.IdKey(other)])
    {
      assert Caches.EvictKey(Caches.FlightsCache, Caches.IdKey(id)) in Caches.FlightChangeEvictions(id);
      Caches.IdKeysDiffer(id, other);
    }
  }

  // ---- one lemma per operation ----

  /** A read by id keeps the id entries faithful, and when they were faithful
      it answers what the store holds: the cache is invisible. */
  lemma GetFlightByIdCoherent(s: Sys, id: int)
    requires IdEntriesFresh(s)
    ensures var r := FlightService.GetFlightById(s, id);
      && IdEntriesFresh(r.after)
      && (r.result.Ok? <==> Store.HasFlight(s.db.flights, id))
      && (r.result.Ok? ==> Store.FindFlight(s.db, id) == Some(r.result.value))
  {
    var r := FlightService.GetFlightById(s, id);
    if Caches.IdKey(id) !in s.caches.flights && r.result.Ok? {
      forall other | Caches.IdKey(other) in r.after.caches.flights
        ensures Store.FindFlight(r.after.db, other) == Some(r.after.caches.flights[Caches.IdKey(other)])
      {
        Caches.IdKeysDiffer(id, other);
      }
    }
  }

  /** A read by number adds a number entry, never an id entry. */
  lemma GetFlightByNumberKeepsFresh(s: Sys, flightNumber: string)
    requires IdEntriesFresh(s)
    ensures IdEntriesFresh(FlightService.GetFlightByNumber(s, flightNumber).after)
  {
    var r := FlightService.GetFlightByNumber(s, flightNumber);
    forall id | Caches.IdKey(id) in r.after.caches.flights
      ensures Store.FindFlight(r.after.db, id) == Some(r.after.caches.flights[Caches.IdKey(id)])
    {
      Caches.IdAndNumberKeysDiffer(id, flightNumber);
    }
  }

  lemma SearchFlightsKeepsFresh(s: Sys, origin: string, destination: string, departureTime: int, seats: int)
    requires IdEntriesFresh(s)
    ensures IdEntriesFresh(FlightService.SearchFlights(s, origin, destination, departureTime, seats).after)
  {
    var r := FlightService.SearchFlights(s, origin, destination, departureTime, seats);
    assert r.after.caches.flights == s.caches.flights;
    SameFlightsKeepFresh(s, r.after);
  }

  lemma CreateFlightKeepsFresh(s: Sys, data: FlightData)
    requires IdEntriesFresh(s)
    ensures IdEntriesFresh(FlightService.CreateFlight(s, data).after)
  {
    var r := FlightService.CreateFlight(s, data);
    if r.result.Ok? {
      assert r.after.caches.flights == map[];
    }
  }

  lemma UpdateFlightKeepsFresh(s: Sys, id: int, data: FlightData)
    requires IdEntriesFresh(s)
    ensures IdEntriesFresh(FlightService.UpdateFlight(s, id, data).after)
  {
    var r := FlightService.UpdateFlight(s, id, data);
    if r.result.Ok? {
      EvictedChangeKeepsFresh(s, r.after, id);
    }
  }

  lemma DeleteFlightKeepsFresh(s: Sys, id: int)
    requires IdEntriesFresh(s)
    ensures IdEntriesFresh(FlightService.DeleteFlight(s, id).after)
  {
    var r := FlightService.DeleteFlight(s, id);
    if r.result.Ok? {
      EvictedChangeKeepsFresh(s, r.after, id);
    }
  }

  /** A refused decrease evicts as well, and a granted one changes only its flight. */
  lemma DecreaseKeepsFresh(s: Sys, flightId: int, seats: int)
    requires IdEntriesFresh(s)
    ensures IdEntriesFresh(FlightService.DecreaseAvailableSeats(s, flightId, seats).after)
  {
    var r := FlightService.DecreaseAvailableSeats(s, flightId, seats);
    if r.result.Ok? {
      EvictedChangeKeepsFresh(s, r.after, flightId);
    }
  }

  lemma CreateBookingKeepsFresh(s: Sys, req: BookingRequest, millis: int, draw: int)
    requires 0 <= draw < 1000
    requires IdEntriesFresh(s)
    ensures IdEntriesFresh(BookingService.CreateBooking(s, req, millis, draw).after)
  {
    var r := BookingService.CreateBooking(s, req, millis, draw);
    if r.result.Ok? {
      Effects.TakenFacts(s, r.after, r.result.value);
      EvictedChangeKeepsFresh(s, r.after, r.result.value.flightId);
    }
  }

  /** The booking and user operations leave the flight rows and the flights cache alone. */
  lemma BookingAndUserReadsKeepFresh(s: Sys, reference: string, userId: int, email: string)
    requires IdEntriesFresh(s)
    ensures IdEntriesFresh(BookingService.GetBookingByReference(s, reference).after)
    ensures IdEntriesFresh(BookingService.GetUserBookings(s, userId).after)
    ensures IdEntriesFresh(UserService.GetUserByEmail(s, email).after)
    ensures IdEntriesFresh(UserService.GetUserById(s, userId).after)
  {
    SameFlightsKeepFresh(s, BookingService.GetBookingByReference(s, reference).after);
    SameFlightsKeepFresh(s, BookingService.GetUserBookings(s, userId).after);
    SameFlightsKeepFresh(s, UserService.GetUserByEmail(s, email).after);
    SameFlightsKeepFresh(s, UserService.GetUserById(s, userId).after);
  }

  lemma SyncUserKeepsFresh(s: Sys, c: UserService.Claims)
    requires IdEntriesFresh(s)
    ensures IdEntriesFresh(UserService.SyncUser(s, c).after)
  {
    var r := UserService.SyncUser(s, c);
    if r.result.Ok? {
      SameFlightsKeepFresh(s, r.after);
    }
  }

  /** Cancelling a booking gives its seats back to the flight row but leaves the
      flight's id entry in place, so a later read by id shows the seats as
      still taken. */
  lemma CancelLeavesStaleEntry(s: Sys, reference: string)
    requires IdEntriesFresh(s)
    requires BookingService.CancelBooking(s, reference).result.Ok?
    requires var b := Store.FindBookingByReference(s.db, reference).value;
      Caches.IdKey(b.flightId) in s.caches.flights && b.numberOfSeats != 0
    ensures var b := Store.FindBookingByReference(s.db, reference).value;
      var after := BookingService.CancelBooking(s, reference).after;
      && !IdEntriesFresh(after)
      && FlightService.GetFlightById(after, b.flightId).result == Ok(s.caches.flights[Caches.IdKey(b.flightId)])
      && Store.FindFlight(after.db, b.flightId) != Some(s.caches.flights[Caches.IdKey(b.flightId)])
  {
    var b := Store.FindBookingByReference(s.db, reference).value;
    var after := BookingService.CancelBooking(s, reference).after;
    Effects.ReleasedFacts(s, after, b);
    var cached := s.caches.flights[Caches.IdKey(b.flightId)];
    assert Store.FindFlight(s.db, b.flightId) == Some(cached);
    assert Store.FindFlight(after.db, b.flightId) == Some(Effects.Seats(cached, b.numberOfSeats));
    assert Effects.Seats(cached, b.numberOfSeats) != cached;
  }

  // ---- entries no write evicts ----

  /** A flight change leaves the flight's number entry in place: after a granted
      seat decrease, a read by number still answers with the flight as it was
      before, while the store holds the decreased row. */
  lemma DecreaseLeavesNumberEntry(s: Sys, flightId: int, seats: int)
    requires FlightService.DecreaseAvailableSeats(s, flightId, seats).result == Ok(true)
    requires seats != 0
    requires var f := Store.FindFlight(s.db, flightId).value;
      Caches.NumberKey(f.flightNumber) in s.caches.flights && s.caches.flights[Caches.NumberKey(f.flightNumber)] == f
    ensures var f := Store.FindFlight(s.db, flightId).value;
      var after := FlightService.DecreaseAvailableSeats(s, flightId, seats).after;
      && FlightService.GetFlightByNumber(after, f.flightNumber).result == Ok(f)
      && Store.FindFlight(after.db, flightId) == Some(f.(availableSeats := f.availableSeats - seats))
  {
    var f := Store.FindFlight(s.db, flightId).value;
    FlightService.DecreaseChangesOnlyFlight(s, flightId, seats);
    Caches.FlightChangeKeepsNumberEntry(flightId, f.flightNumber);
  }

  /** Likewise for an update that changes the row. */
  lemma UpdateLeavesNumberEntry(s: Sys, id: int, data: FlightData)
    requires FlightService.UpdateFlight(s, id, data).result.Ok?
    requires var f := Store.FindFlight(s.db, id).value;
      Caches.NumberKey(f.flightNumber) in s.caches.flights && s.caches.flights[Caches.NumberKey(f.flightNumber)] == f
    ensures var f := Store.FindFlight(s.db, id).value;
      var r := FlightService.UpdateFlight(s, id, data);
      && FlightService.GetFlightByNumber(r.after, f.flightNumber).result == Ok(f)
      && Store.FindFlight(r.after.db, id) == Some(r.result.value)
  {
    var f := Store.FindFlight(s.db, id).value;
    Caches.FlightChangeKeepsNumberEntry(id, f.flightNumber);
  }

  /** After a cancellation, a booking entry cached before it still answers
      reads by reference, with the status it had, while the store says CANCELLED. */
  lemma CancelLeavesBookingEntry(s: Sys, reference: string)
    requires BookingService.CancelBooking(s, reference).result.Ok?
    requires Caches.ReferenceKey(reference) in s.caches.bookings
    requires s.caches.bookings[Caches.ReferenceKey(reference)] == Store.FindBookingByReference(s.db, reference).value
    ensures var after := BookingService.CancelBooking(s, reference).after;
      && BookingService.GetBookingByReference(after, reference).result.Ok?
      && BookingService.GetBookingByReference(after, reference).result.value.status != CancelledBooking
      && Store.FindBookingByReference(after.db, reference).value.status == CancelledBooking
  {
    var b := Store.FindBookingByReference(s.db, reference).value;
    var after := BookingService.CancelBooking(s, reference).after;
    Effects.ReleasedFacts(s, after, b);
  }

  /** A booking leaves its user's cached booking list in place: when the list
      was cached from the store, a read after the booking still answers with
      it, and the new booking is not in it. */
  lemma CreateBookingLeavesUserBookingsEntry(s: Sys, req: BookingRequest, millis: int, draw: int)
    requires 0 <= draw < 1000
    requires BookingService.CreateBooking(s, req, millis, draw).result.Ok?
    requires Caches.IdKey(req.userId) in s.caches.userBookings
    requires forall x :: x in s.caches.userBookings[Caches.IdKey(req.userId)] ==> x in s.db.bookings
    ensures var r := BookingService.CreateBooking(s, req, millis, draw);
      && BookingService.GetUserBookings(r.after, req.userId).result == Ok(s.caches.userBookings[Caches.IdKey(req.userId)])
      && r.result.value !in s.caches.userBookings[Caches.IdKey(req.userId)]
      && r.result.value in r.after.db.bookings && r.result.value.userId == req.userId
  {
    var r := BookingService.CreateBooking(s, req, millis, draw);
    var b := r.result.value;
    var key := Caches.IdKey(req.userId);
    Effects.TakenFacts(s, r.after, b);
    Caches.FlightChangeSparesOtherCaches(b.flightId, Caches.UserBookingsCache, key);
    assert key in r.after.caches.userBookings && r.after.caches.userBookings[key] == s.caches.userBookings[key];
    assert Store.FindBookingByReference(s.db, b.bookingReference).None?;
    assert r.after.db.bookings == s.db.bookings + [b];
  }
}
