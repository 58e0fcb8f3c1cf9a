/** What a booking and a cancellation leave behind in the state, stated once
    so that the operations and the seat accounting speak of the same facts. */
module Effects {
  import opened Entities
  import opened System
  import opened Outcomes
  import Store
  import Caches

  /** Flight `f` with `delta` seats added to those left. */
  function Seats(f: Flight, delta: int): Flight {
    f.(availableSeats := f.availableSeats + delta)
  }

  /** What booking `b` leaves behind: `b` appended to the bookings, its seats
      taken off its flight, which had that many left, no other flight or user
      changed, and the flight's id entry and every search evicted. */
  ghost predicate Taken(s: Sys, after: Sys, b: Booking) {
    match after
    case Sys(db', caches') =>
      && Store.FindFlight(s.db, b.flightId).Some?
      && Store.FindFlight(s.db, b.flightId).value.availableSeats >= b.numberOfSeats
      && db'.bookings == s.db.bookings + [b]
      && Store.FindFlight(db', b.flightId) == Some(Seats(Store.FindFlight(s.db, b.flightId).value, -b.numberOfSeats))
      && (forall other :: other != b.flightId ==> Store.FindFlight(db', other) == Store.FindFlight(s.db, other))
      && db'.users == s.db.users
      && caches' == Caches.Evict(s.caches, Caches.FlightChangeEvictions(b.flightId))
      && (Store.WellFormed(s.db) ==> Store.WellFormed(db'))
  }

  /** `Taken` from its parts, as the booking operation establishes them. */
  lemma TakenIntro(s: Sys, db': Store.Db, caches': Caches.Caches, b: Booking)
    requires Store.FindFlight(s.db, b.flightId).Some?
    requires Store.FindFlight(s.db, b.flightId).value.availableSeats >= b.numberOfSeats
    requires db'.bookings == s.db.bookings + [b]
    requires Store.FindFlight(db', b.flightId) == Some(Seats(Store.FindFlight(s.db, b.flightId).value, -b.numberOfSeats))
    requires forall other :: other != b.flightId ==> Store.FindFlight(db', other) == Store.FindFlight(s.db, other)
    requires db'.users == s.db.users
    requires caches' == Caches.Evict(s.caches, Caches.FlightChangeEvictions(b.flightId))
    requires Store.WellFormed(s.db) ==> Store.WellFormed(db')
    ensures Taken(s, Sys(db', caches'), b)
  {
  }

  /** The parts of `Taken`, one fact each. */
  lemma TakenFacts(s: Sys, after: Sys, b: Booking)
    requires Taken(s, after, b)
    ensures Store.FindFlight(s.db, b.flightId).Some?
    ensures Store.FindFlight(s.db, b.flightId).value.availableSeats >= b.numberOfSeats
    ensures after.db.bookings == s.db.bookings + [b]
    ensures Store.FindFlight(after.db, b.flightId) == Some(Seats(Store.FindFlight(s.db, b.flightId).value, -b.numberOfSeats))
    ensures forall other :: other != b.flightId ==> Store.FindFlight(after.db, other) == Store.FindFlight(s.db, other)
    ensures after.db.users == s.db.users
    ensures after.caches == Caches.Evict(s.caches, Caches.FlightChangeEvictions(b.flightId))
    ensures Store.WellFormed(s.db) ==> Store.WellFormed(after.db)
  {
  }

  /** Seats given back after being taken restore the flight. */
  lemma SeatsRestore(f: Flight, n: int)
    ensures Seats(Seats(f, -n), n) == f
  {
  }

  /** What cancelling the active booking `b` leaves behind: `b` reads back
      CANCELLED, its flight has its seats back, and nothing else changed. */
  ghost predicate Released(s: Sys, after: Sys, b: Booking) {
    match after
    case Sys(db', caches') =>
      && Store.FindFlight(s.db, b.flightId).Some?
      && Store.FindBookingByReference(db', b.bookingReference) == Some(b.(status := CancelledBooking))
      && (forall ref :: ref != b.bookingReference ==>
            Store.FindBookingByReference(db', ref) == Store.FindBookingByReference(s.db, ref))
      && Store.FindFlight(db', b.flightId) == Some(Seats(Store.FindFlight(s.db, b.flightId).value, b.numberOfSeats))
      && (forall other :: other != b.flightId ==> Store.FindFlight(db', other) == Store.FindFlight(s.db, other))
      && (exists k :: 0 <= k < |s.db.bookings| && s.db.bookings[k] == b
                      && db'.bookings == s.db.bookings[k := b.(status := CancelledBooking)])
      && db'.users == s.db.users
      && caches' == s.caches
      && (Store.WellFormed(s.db) ==> Store.WellFormed(db'))
  }

  /** The parts of `Released`, one fact each. */
  lemma ReleasedFacts(s: Sys, after: Sys, b: Booking)
    requires Released(s, after, b)
    ensures Store.FindFlight(s.db, b.flightId).Some?
    ensures Store.FindBookingByReference(after.db, b.bookingReference) == Some(b.(status := CancelledBooking))
    ensures forall ref :: ref != b.bookingReference ==>
      Store.FindBookingByReference(after.db, ref) == Store.FindBookingByReference(s.db, ref)
    ensures Store.FindFlight(after.db, b.flightId) == Some(Seats(Store.FindFlight(s.db, b.flightId).value, b.numberOfSeats))
    ensures forall other :: other != b.flightId ==> Store.FindFlight(after.db, other) == Store.FindFlight(s.db, other)
    ensures exists k :: 0 <= k < |s.db.bookings| && s.db.bookings[k] == b
                        && after.db.bookings == s.db.bookings[k := b.(status := CancelledBooking)]
    ensures after.db.users == s.db.users
    ensures after.caches == s.caches
    ensures Store.WellFormed(s.db) ==> Store.WellFormed(after.db)
  {
  }
}
