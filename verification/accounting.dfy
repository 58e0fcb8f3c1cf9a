/** Seat accounting. The bookings that hold seats on a flight (every status but
    CANCELLED) together with the seats still available add up to the flight's
    capacity. Booking and cancelling keep this balance; the administrator's
    writes and a seat decrease on its own do not. */
module Accounting {
  import opened Outcomes
  import opened Entities
  import opened Validation
  import opened System
  import Store
  import FlightService
  import BookingService
  import Effects

  /** Seats booking `b` holds on flight `flightId`. */
  function Held(b: Booking, flightId: int): int {
    if HoldsSeats(b) && b.flightId == flightId then b.numberOfSeats else 0
  }

  /** Seats held on flight `flightId` by the bookings `bs`. */
  function ActiveSeats(bs: seq<Booking>, flightId: int): int
    decreases |bs|
  {
    if |bs| == 0 then 0
    else ActiveSeats(bs[..|bs| - 1], flightId) + Held(bs[|bs| - 1], flightId)
  }

  /** Bookings never hold a negative number of seats between them when none is negative. */
  lemma {:induction false} ActiveSeatsNonNegative(bs: seq<Booking>, flightId: int)
    requires forall b :: b in bs ==> b.numberOfSeats >= 0
    ensures ActiveSeats(bs, flightId) >= 0
    decreases |bs|
  {
    if |bs| > 0 {
      assert bs[|bs| - 1] in bs;
      assert forall b :: b in bs[..|bs| - 1] ==> b in bs;
      ActiveSeatsNonNegative(bs[..|bs| - 1], flightId);
    }
  }

  lemma ActiveSeatsAppend(bs: seq<Booking>, b: Booking, flightId: int)
    ensures ActiveSeats(bs + [b], flightId) == ActiveSeats(bs, flightId) + Held(b, flightId)
  {
    assert (bs + [b])[..|bs|] == bs;
  }

  /** Replacing one booking changes the count by the difference of what the two hold. */
  lemma {:induction false} ActiveSeatsUpdate(bs: seq<Booking>, k: nat, x: Booking, flightId: int)
    requires k < |bs|
    ensures ActiveSeats(bs[k := x], flightId) == ActiveSeats(bs, flightId) - Held(bs[k], flightId) + Held(x, flightId)
    decreases |bs|
  {
    var n := |bs|;
    var t := bs[k := x];
    assert ActiveSeats(t, flightId) == ActiveSeats(t[..n - 1], flightId) + Held(t[n - 1], flightId);
    assert ActiveSeats(bs, flightId) == ActiveSeats(bs[..n - 1], flightId) + Held(bs[n - 1], flightId);
    if k == n - 1 {
      assert t[..n - 1] == bs[..n - 1];
    } else {
      ActiveSeatsUpdate(bs[..n - 1], k, x, flightId);
      assert t[..n - 1] == bs[..n - 1][k := x];
      assert t[n - 1] == bs[n - 1];
    }
  }

  /** No booking names the flight: none of its seats are held. */
  lemma {:induction false} ActiveSeatsNone(bs: seq<Booking>, flightId: int)
    requires forall b :: b in bs ==> b.flightId != flightId
    ensures ActiveSeats(bs, flightId) == 0
    decreases |bs|
  {
    if |bs| > 0 {
      assert bs[|bs| - 1] in bs;
      assert forall b :: b in bs[..|bs| - 1] ==> b in bs;
      ActiveSeatsNone(bs[..|bs| - 1], flightId);
    }
  }

  /** Every flight's available seats and its held seats add up to its capacity. */
  ghost predicate Balanced(db: Store.Db) {
    forall f :: f in db.flights ==> f.availableSeats + ActiveSeats(db.bookings, f.id) == f.totalSeats
  }

  /** The invariant booking and cancelling keep: a well-formed store, balanced,
      no flight below zero available seats, and every booking for at least one
      seat. */
  ghost predicate SeatInvariant(db: Store.Db) {
    && Store.WellFormed(db)
    && Balanced(db)
    && (forall f :: f in db.flights ==> f.availableSeats >= 0)
    && (forall b :: b in db.bookings ==> b.numberOfSeats >= MinSeatsPerBooking)
  }

  /** Under the invariant a flight's available seats lie between zero and its capacity. */
  lemma SeatBounds(db: Store.Db, f: Flight)
    requires SeatInvariant(db)
    requires f in db.flights
    ensures 0 <= f.availableSeats <= f.totalSeats
  {
    ActiveSeatsNonNegative(db.bookings, f.id);
  }

  /** A flight row of the store after a write that changed at most flight `id`
      is either the new row for `id` or a row of the store before. */
  lemma RowAfterChange(db: Store.Db, db': Store.Db, id: int, g: Flight)
    requires Store.WellFormed(db')
    requires forall other :: other != id ==> Store.FindFlight(db', other) == Store.FindFlight(db, other)
    requires g in db'.flights
    ensures g.id == id ==> Store.FindFlight(db', id) == Some(g)
    ensures g.id != id ==> g in db.flights
  {
    Store.FlightIdIdentifies(db', g);
  }

  /** Taking the seats of a new active booking keeps the invariant. */
  lemma TakeKeepsSeats(s: Sys, after: Sys, b: Booking)
    requires SeatInvariant(s.db)
    requires Effects.Taken(s, after, b)
    requires HoldsSeats(b) && b.numberOfSeats >= MinSeatsPerBooking
    ensures SeatInvariant(after.db)
  {
    forall g | g in after.db.flights
      ensures g.availableSeats + ActiveSeats(after.db.bookings, g.id) == g.totalSeats
      ensures g.availableSeats >= 0
    {
      RowAfterChange(s.db, after.db, b.flightId, g);
      ActiveSeatsAppend(s.db.bookings, b, g.id);
    }
  }

  /** One flight row after a cancellation: balanced and not below zero. */
  lemma ReleasedRowBalanced(s: Sys, after: Sys, b: Booking, k: nat, g: Flight)
    requires SeatInvariant(s.db)
    requires Effects.Released(s, after, b)
    requires k < |s.db.bookings| && s.db.bookings[k] == b && HoldsSeats(b)
    requires after.db.bookings == s.db.bookings[k := b.(status := CancelledBooking)]
    requires g in after.db.flights
    ensures g.availableSeats + ActiveSeats(after.db.bookings, g.id) == g.totalSeats
    ensures g.availableSeats >= 0
  {
    assert b in s.db.bookings;
    Effects.ReleasedFacts(s, after, b);
    RowAfterChange(s.db, after.db, b.flightId, g);
    ActiveSeatsUpdate(s.db.bookings, k, b.(status := CancelledBooking), g.id);
    assert Held(b.(status := CancelledBooking), g.id) == 0;
    if g.id == b.flightId {
      var flight := Store.FindFlight(s.db, b.flightId).value;
      assert g == Effects.Seats(flight, b.numberOfSeats);
      assert flight in s.db.flights && flight.id == g.id;
      assert flight.availableSeats + ActiveSeats(s.db.bookings, g.id) == flight.totalSeats;
    } else {
      assert g in s.db.flights;
      assert g.availableSeats + ActiveSeats(s.db.bookings, g.id) == g.totalSeats;
    }
  }

  /** A status change leaves every booking's seat count as it was. */
  lemma StatusChangeKeepsCounts(bs: seq<Booking>, k: nat, x: Booking)
    requires k < |bs| && x.numberOfSeats == bs[k].numberOfSeats
    requires forall c :: c in bs ==> c.numberOfSeats >= MinSeatsPerBooking
    ensures forall c :: c in bs[k := x] ==> c.numberOfSeats >= MinSeatsPerBooking
  {
    forall c | c in bs[k := x]
      ensures c.numberOfSeats >= MinSeatsPerBooking
    {
      var j :| 0 <= j < |bs[k := x]| && bs[k := x][j] == c;
      assert bs[j] in bs;
    }
  }

  /** Giving back the seats of a cancelled booking keeps the invariant. */
  lemma ReleaseKeepsSeats(s: Sys, after: Sys, b: Booking)
    requires SeatInvariant(s.db)
    requires Effects.Released(s, after, b)
    requires HoldsSeats(b)
    ensures SeatInvariant(after.db)
  {
    var k :| 0 <= k < |s.db.bookings| && s.db.bookings[k] == b
             && after.db.bookings == s.db.bookings[k := b.(status := CancelledBooking)];
    forall g | g in after.db.flights
      ensures g.availableSeats + ActiveSeats(after.db.bookings, g.id) == g.totalSeats
      ensures g.availableSeats >= 0
    {
      ReleasedRowBalanced(s, after, b, k, g);
    }
    StatusChangeKeepsCounts(s.db.bookings, k, b.(status := CancelledBooking));
  }

  /** A refused booking insert leaves every row alone, so it keeps the invariant. */
  lemma RefusedBookingKeepsSeats(db: Store.Db)
    requires SeatInvariant(db)
    ensures SeatInvariant(Store.RefuseBookingInsert(db))
  {
  }

  /** `createBooking` keeps the seat invariant for a request of 1 to 9 seats. */
  lemma CreateBookingKeepsSeats(s: Sys, req: BookingRequest, millis: int, draw: int)
    requires 0 <= draw < 1000
    requires MinSeatsPerBooking <= req.numberOfSeats <= MaxSeatsPerBooking
    requires SeatInvariant(s.db)
    ensures SeatInvariant(BookingService.CreateBooking(s, req, millis, draw).after.db)
  {
    var r := BookingService.CreateBooking(s, req, millis, draw);
    if r.result.Err? && r.result.error.Integrity? {
      RefusedBookingKeepsSeats(s.db);
      assert r.after.db == Store.RefuseBookingInsert(s.db);
    } else if r.result.Err? {
      assert r.after == s;
    } else {
      TakeKeepsSeats(s, r.after, r.result.value);
    }
  }

  /** `cancelBooking` keeps the seat invariant. */
  lemma CancelBookingKeepsSeats(s: Sys, reference: string)
    requires SeatInvariant(s.db)
    ensures SeatInvariant(BookingService.CancelBooking(s, reference).after.db)
  {
    var r := BookingService.CancelBooking(s, reference);
    if r.result.Err? {
      assert r.after == s;
    } else {
      ReleaseKeepsSeats(s, r.after, Store.FindBookingByReference(s.db, reference).value);
    }
  }

  // ---- runs of bookings and cancellations ----

  datatype Step =
    | Book(req: BookingRequest, millis: int, draw: int)
    | Cancel(reference: string)

  /** A step as the endpoints let it through: a validated seat count and a draw below 1000. */
  predicate Admissible(step: Step) {
    step.Book? ==> 0 <= step.draw < 1000 && MinSeatsPerBooking <= step.req.numberOfSeats <= MaxSeatsPerBooking
  }

  function Apply(s: Sys, step: Step): Sys
    requires Admissible(step)
  {
    match step
    case Book(req, millis, draw) => BookingService.CreateBooking(s, req, millis, draw).after
    case Cancel(reference) => BookingService.CancelBooking(s, reference).after
  }

  function Run(s: Sys, steps: seq<Step>): Sys
    requires forall i :: 0 <= i < |steps| ==> Admissible(steps[i])
    decreases |steps|
  {
    if |steps| == 0 then s else Run(Apply(s, steps[0]), steps[1..])
  }

  lemma ApplyKeepsSeats(s: Sys, step: Step)
    requires Admissible(step)
    requires SeatInvariant(s.db)
    ensures SeatInvariant(Apply(s, step).db)
  {
    match step
    case Book(req, millis, draw) => CreateBookingKeepsSeats(s, req, millis, draw);
    case Cancel(reference) => CancelBookingKeepsSeats(s, reference);
  }

  /** Any run of bookings and cancellations, each succeeding or failing, keeps
      the seat invariant. */
  lemma {:induction false} RunKeepsSeats(s: Sys, steps: seq<Step>)
    requires forall i :: 0 <= i < |steps| ==> Admissible(steps[i])
    requires SeatInvariant(s.db)
    ensures SeatInvariant(Run(s, steps).db)
    decreases |steps|
  {
    if |steps| > 0 {
      ApplyKeepsSeats(s, steps[0]);
      RunKeepsSeats(Apply(s, steps[0]), steps[1..]);
    }
  }

  /** After any such run no flight is overbooked or below zero. */
  lemma RunStaysWithinCapacity(s: Sys, steps: seq<Step>)
    requires forall i :: 0 <= i < |steps| ==> Admissible(steps[i])
    requires SeatInvariant(s.db)
    ensures forall f :: f in Run(s, steps).db.flights ==> 0 <= f.availableSeats <= f.totalSeats
  {
    RunKeepsSeats(s, steps);
    forall f | f in Run(s, steps).db.flights
      ensures 0 <= f.availableSeats <= f.totalSeats
    {
      SeatBounds(Run(s, steps).db, f);
    }
  }

  // ---- the writes that do not keep the balance ----

  /** A write that changed only flight `id`, to `g'`, and no booking leaves the
      store balanced exactly when `g'` is balanced. */
  lemma OneFlightChanged(db: Store.Db, db': Store.Db, id: int, g': Flight)
    requires Balanced(db) && Store.WellFormed(db)
    requires FlightService.OnlyFlightChanged(db, db', id, g')
    ensures Balanced(db') <==> g'.availableSeats + ActiveSeats(db.bookings, id) == g'.totalSeats
  {
    if g'.availableSeats + ActiveSeats(db.bookings, id) == g'.totalSeats {
      forall g | g in db'.flights
        ensures g.availableSeats + ActiveSeats(db'.bookings, g.id) == g.totalSeats
      {
        RowAfterChange(db, db', id, g);
      }
    }
  }

  /** In a well-formed store no booking names the next flight id. */
  lemma NoBookingsForNextFlight(db: Store.Db)
    requires Store.WellFormed(db)
    ensures ActiveSeats(db.bookings, db.nextFlightId) == 0
  {
    forall b | b in db.bookings
      ensures b.flightId != db.nextFlightId
    {
      var k :| 0 <= k < |db.bookings| && db.bookings[k] == b;
      var g :| g in db.flights && g.id == b.flightId;
      var j :| 0 <= j < |db.flights| && db.flights[j] == g;
    }
    ActiveSeatsNone(db.bookings, db.nextFlightId);
  }

  /** A created flight has no bookings yet, so the store stays balanced exactly
      when the flight is created with all of its seats available. */
  lemma CreateFlightBalance(s: Sys, data: FlightData)
    requires Store.WellFormed(s.db) && Balanced(s.db)
    requires FlightService.CreateFlight(s, data).result.Ok?
    ensures Balanced(FlightService.CreateFlight(s, data).after.db) <==> data.availableSeats == data.totalSeats
  {
    var r := FlightService.CreateFlight(s, data);
    NoBookingsForNextFlight(s.db);
    OneFlightChanged(s.db, r.after.db, r.result.value.id, r.result.value);
  }

  /** Updating a flight overwrites both seat counts with the request's; the
      store stays balanced exactly when the request accounts for the seats the
      flight's bookings hold. */
  lemma UpdateFlightBalance(s: Sys, id: int, data: FlightData)
    requires Store.WellFormed(s.db) && Balanced(s.db)
    requires FlightService.UpdateFlight(s, id, data).result.Ok?
    ensures Balanced(FlightService.UpdateFlight(s, id, data).after.db)
        <==> data.availableSeats + ActiveSeats(s.db.bookings, id) == data.totalSeats
  {
    var r := FlightService.UpdateFlight(s, id, data);
    OneFlightChanged(s.db, r.after.db, id, r.result.value);
  }

  /** The seat decrease on its own, outside a booking, unbalances the store. */
  lemma DecreaseAloneUnbalances(s: Sys, flightId: int, seats: int)
    requires Store.WellFormed(s.db) && Balanced(s.db)
    requires FlightService.DecreaseAvailableSeats(s, flightId, seats).result == Ok(true)
    requires seats != 0
    ensures !Balanced(FlightService.DecreaseAvailableSeats(s, flightId, seats).after.db)
  {
    FlightService.DecreaseChangesOnlyFlight(s, flightId, seats);
    SeatChangeUnbalances(s.db, FlightService.DecreaseAvailableSeats(s, flightId, seats).after.db, flightId, seats);
  }

  /** Changing the available seats of one balanced flight row, and nothing
      else, unbalances it. */
  lemma SeatChangeUnbalances(db: Store.Db, db': Store.Db, id: int, seats: int)
    requires Store.WellFormed(db) && Balanced(db)
    requires Store.FindFlight(db, id).Some? && seats != 0
    requires var before := Store.FindFlight(db, id).value;
      FlightService.OnlyFlightChanged(db, db', id, before.(availableSeats := before.availableSeats - seats))
    ensures !Balanced(db')
  {
    var before := Store.FindFlight(db, id).value;
    assert before in db.flights && before.id == id;
    assert before.availableSeats + ActiveSeats(db.bookings, id) == before.totalSeats;
    OneFlightChanged(db, db', id, before.(availableSeats := before.availableSeats - seats));
  }

  /** Taking a booking's seats and then giving them back leaves its flight as it was. */
  lemma TakeThenReleaseRestores(s: Sys, mid: Sys, end: Sys, b: Booking)
    requires Effects.Taken(s, mid, b)
    requires Effects.Released(mid, end, b)
    ensures Store.FindFlight(end.db, b.flightId) == Store.FindFlight(s.db, b.flightId)
  {
    Effects.TakenFacts(s, mid, b);
    Effects.ReleasedFacts(mid, end, b);
    var flight := Store.FindFlight(s.db, b.flightId).value;
    var taken := Effects.Seats(flight, -b.numberOfSeats);
    assert Store.FindFlight(mid.db, b.flightId) == Some(taken);
    assert Store.FindFlight(end.db, b.flightId) == Some(Effects.Seats(taken, b.numberOfSeats));
    Effects.SeatsRestore(flight, b.numberOfSeats);
    assert Effects.Seats(taken, b.numberOfSeats) == flight;
  }

  /** Cancelling a booking just made gives its flight back exactly the seats
      the booking took. */
  lemma BookThenCancelRestoresSeats(s: Sys, req: BookingRequest, millis: int, draw: int)
    requires 0 <= draw < 1000
    requires Store.WellFormed(s.db)
    requires BookingService.CreateBooking(s, req, millis, draw).result.Ok?
    ensures var booked := BookingService.CreateBooking(s, req, millis, draw);
      var cancelled := BookingService.CancelBooking(booked.after, booked.result.value.bookingReference);
      && cancelled.result.Ok?
      && Store.FindFlight(cancelled.after.db, req.flightId) == Store.FindFlight(s.db, req.flightId)
  {
    var booked := BookingService.CreateBooking(s, req, millis, draw);
    var b := booked.result.value;
    var mid := booked.after;
    assert Effects.Taken(s, mid, b);
    assert Store.WellFormed(mid.db);
    assert Store.FindBookingByReference(mid.db, b.bookingReference) == Some(b) && b.status == Confirmed;
    var cancelled := BookingService.CancelBooking(mid, b.bookingReference);
    assert cancelled.result.Ok?;
    TakeThenReleaseRestores(s, mid, cancelled.after, b);
  }
}
