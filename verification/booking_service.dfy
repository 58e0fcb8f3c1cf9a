/** The booking operations: creating a booking (which takes its seats off the
    flight through the flight operations), two cached reads, and cancelling.

    The clock and the random source behind the booking reference are
    parameters: `millis` stands for the current time in milliseconds and
    `draw` for the random number below 1000. */
module BookingService {
  import opened Outcomes
  import opened Entities
  import opened Text
  import opened Validation
  import opened System
  import Store
  import Caches
  import FlightService
  import Effects

  /** "BK", the time in milliseconds, then the random draw, all in decimal
      without separators or padding. */
  function GenerateReference(millis: int, draw: int): (r: string)
    requires 0 <= draw < 1000
    ensures |r| >= 4 && r[..2] == "BK"
    ensures millis >= 0 ==> forall i :: 2 <= i < |r| ==> IsDigit(r[i])
  {
    "BK" + IntToString(millis) + IntToString(draw)
  }

  /** How many decimal digits a draw below 1000 has. */
  function DrawWidth(draw: nat): nat
    requires draw < 1000
  {
    if draw < 10 then 1 else if draw < 100 then 2 else 3
  }

  lemma DrawWidthDigits(draw: nat)
    requires draw < 1000
    ensures |NatToString(draw)| == DrawWidth(draw)
  {
    var w := DrawWidth(draw);
    assert Pow10(1) == 10 && Pow10(2) == 100 && Pow10(3) == 1000;
    NatToStringShortBelow(draw, w);
    if w > 1 {
      NatToStringLongAbove(draw, w - 1);
    }
  }

  /** A reference reads back: after "BK" come the unpadded decimal digits of the
      clock and then, in its last one to three characters, those of the draw. */
  lemma GenerateReferenceReadsBack(millis: int, draw: int)
    requires millis >= 0 && 0 <= draw < 1000
    ensures var r := GenerateReference(millis, draw);
      var split := |r| - DrawWidth(draw);
      && 3 <= split
      && r[..2] == "BK"
      && r[2..split] == NatToString(millis) && r[split..] == NatToString(draw)
      && ParseNat(r[2..split]) == millis
      && ParseNat(r[split..]) == draw
  {
    var r := GenerateReference(millis, draw);
    var clock, drawn := NatToString(millis), NatToString(draw);
    assert r == "BK" + clock + drawn;
    DrawWidthDigits(draw);
    var split := |r| - DrawWidth(draw);
    assert r[2..split] == clock;
    assert r[split..] == drawn;
    ParseNatToString(millis);
    ParseNatToString(draw);
  }

  /** Once the clock is past 10^7 ms (a few hours into 1970) the reference has
      at least 11 characters, more than the 10 the reference column declares. */
  lemma ReferenceExceedsColumn(millis: int, draw: int)
    requires millis >= Pow10(7) && 0 <= draw < 1000
    ensures |GenerateReference(millis, draw)| > ReferenceWidth
  {
    NatToStringLongAbove(millis, 7);
  }

  /** With a thirteen-digit clock, as from 2001 to 2286, the reference has
      between 16 and 18 characters. */
  lemma ReferenceLengthToday(millis: int, draw: int)
    requires Pow10(12) <= millis < Pow10(13) && 0 <= draw < 1000
    ensures 16 <= |GenerateReference(millis, draw)| <= 18
  {
    NatToStringLongAbove(millis, 12);
    NatToStringShortBelow(millis, 13);
    NatToStringShortBelow(draw, 3);
  }

  /** The text does not determine its parts: the clock reading and the draw are
      concatenated without a separator, so two different pairs can give one
      reference. */
  lemma ReferenceAmbiguous()
    ensures GenerateReference(12, 3) == GenerateReference(1, 23)
  {
    assert IntToString(12) == "12" && IntToString(3) == "3";
    assert IntToString(1) == "1" && IntToString(23) == "23";
  }

  /** `createBooking`. Checks in this order: the flight, the user, the seats
      left; then takes the seats through the flight operation (whose evictions
      join this transaction), generates the reference and inserts a CONFIRMED
      booking priced at the flight's price times the seats. The reference
      column is unique, so a reference already in use is refused by the store.
      Every failure rolls the whole transaction back; a refused insert still
      uses up the booking identity value it drew. */
  function CreateBooking(s: Sys, req: BookingRequest, millis: int, draw: int): (r: Reply<Booking>)
    requires 0 <= draw < 1000
    ensures r.result.Err? && !r.result.error.Integrity? ==> r.after == s
    ensures r.result.Err? && r.result.error.Integrity? ==>
      r.after == s.(db := s.db.(nextBookingId := s.db.nextBookingId + 1))
    ensures !Store.HasFlight(s.db.flights, req.flightId) ==> r.result == Err(NotFound("Flight not found"))
    ensures Store.HasFlight(s.db.flights, req.flightId) && !Store.HasUser(s.db.users, req.userId) ==>
      r.result == Err(NotFound("User not found"))
    ensures Store.HasFlight(s.db.flights, req.flightId) && Store.HasUser(s.db.users, req.userId) ==>
      var flight := Store.FindFlight(s.db, req.flightId).value;
      && (flight.availableSeats < req.numberOfSeats ==> r.result == Err(Business("Not enough seats available")))
      && (flight.availableSeats >= req.numberOfSeats ==>
            (r.result.Ok? <==> Store.FindBookingByReference(s.db, GenerateReference(millis, draw)).None?))
    ensures r.result != Err(Business("Failed to book seats"))
    ensures r.result.Err? && r.result.error.Integrity? ==>
      Store.FindBookingByReference(s.db, GenerateReference(millis, draw)).Some?
    ensures r.result.Ok? ==>
      var b := r.result.value;
      && Effects.Taken(s, r.after, b)
      && b.id == s.db.nextBookingId
      && b.bookingReference == GenerateReference(millis, draw)
      && b.userId == req.userId && b.flightId == req.flightId
      && b.passengerFirstName == req.passengerFirstName && b.passengerLastName == req.passengerLastName
      && b.passengerEmail == req.passengerEmail && b.passengerPhone == req.passengerPhone
      && b.numberOfSeats == req.numberOfSeats
      && b.totalPrice == Store.FindFlight(s.db, req.flightId).value.price * req.numberOfSeats
      && b.status == Confirmed
      && Store.FindBookingByReference(r.after.db, b.bookingReference) == Some(b)
  {
    match Store.FindFlight(s.db, req.flightId)
    case None => Reply(Err(NotFound("Flight not found")), s)
    case Some(flight) =>
      match Store.FindUser(s.db, req.userId)
      case None => Reply(Err(NotFound("User not found")), s)
      case Some(user) =>
        if flight.availableSeats < req.numberOfSeats then
          Reply(Err(Business("Not enough seats available")), s)
        else
          Book(s, req, flight, user, millis, draw)
  }

  /** The part of `createBooking` after its checks passed: take the seats,
      then record the booking under a fresh reference. */
  function Book(s: Sys, req: BookingRequest, flight: Flight, user: User, millis: int, draw: int): (r: Reply<Booking>)
    requires 0 <= draw < 1000
    requires Store.FindFlight(s.db, req.flightId) == Some(flight)
    requires Store.FindUser(s.db, req.userId) == Some(user)
    requires flight.availableSeats >= req.numberOfSeats
    ensures r.result.Err? ==>
      && r.result.error.Integrity?
      && r.after == s.(db := s.db.(nextBookingId := s.db.nextBookingId + 1))
    ensures r.result.Ok? <==> Store.FindBookingByReference(s.db, GenerateReference(millis, draw)).None?
    ensures r.result.Ok? ==>
      var b := r.result.value;
      && Effects.Taken(s, r.after, b)
      && b == Booking(s.db.nextBookingId, GenerateReference(millis, draw), req.userId, req.flightId,
                      req.passengerFirstName, req.passengerLastName, req.passengerEmail, req.passengerPhone,
                      req.numberOfSeats, flight.price * req.numberOfSeats, Confirmed)
      && Store.FindBookingByReference(r.after.db, b.bookingReference) == Some(b)
  {
    var taken := FlightService.DecreaseAvailableSeats(s, flight.id, req.numberOfSeats);
    match taken.result
    case Err(e) => Reply(Err(e), s)
    case Ok(done) =>
      if !done then
        Reply(Err(Business("Failed to book seats")), s)
      else
        var reference := GenerateReference(millis, draw);
        if Store.FindBookingByReference(taken.after.db, reference).Some? then
          Reply(Err(Integrity("duplicate booking reference " + reference)),
                s.(db := Store.RefuseBookingInsert(s.db)))
        else
          var b := Booking(
            taken.after.db.nextBookingId, reference, user.id, flight.id,
            req.passengerFirstName, req.passengerLastName,
            req.passengerEmail, req.passengerPhone,
            req.numberOfSeats, flight.price * req.numberOfSeats, Confirmed);
          var after := Sys(Store.AddBooking(taken.after.db, b), taken.after.caches);
          RecordKeepsTaken(s, b);
          Reply(Ok(b), after)
  }

  /** Appending booking `b` after its seats were taken completes `Taken`. */
  lemma RecordKeepsTaken(s: Sys, b: Booking)
    requires Store.HasUser(s.db.users, b.userId)
    requires var taken := FlightService.DecreaseAvailableSeats(s, b.flightId, b.numberOfSeats);
      && taken.result == Ok(true)
      && b.id == taken.after.db.nextBookingId
      && Store.FindBookingByReference(taken.after.db, b.bookingReference).None?
    ensures var taken := FlightService.DecreaseAvailableSeats(s, b.flightId, b.numberOfSeats);
      Effects.Taken(s, Sys(Store.AddBooking(taken.after.db, b), taken.after.caches), b)
  {
    var mid := FlightService.DecreaseAvailableSeats(s, b.flightId, b.numberOfSeats).after;
    RecordAfterTaking(s, mid, b);
  }

  lemma RecordAfterTaking(s: Sys, mid: Sys, b: Booking)
    requires Store.HasUser(s.db.users, b.userId)
    requires Store.FindFlight(s.db, b.flightId).Some?
    requires Store.FindFlight(s.db, b.flightId).value.availableSeats - b.numberOfSeats >= 0
    requires var flight := Store.FindFlight(s.db, b.flightId).value;
      FlightService.OnlyFlightChanged(s.db, mid.db, b.flightId,
        flight.(availableSeats := flight.availableSeats - b.numberOfSeats))
    requires mid.caches == Caches.Evict(s.caches, Caches.FlightChangeEvictions(b.flightId))
    requires b.id == mid.db.nextBookingId
    requires Store.FindBookingByReference(mid.db, b.bookingReference).None?
    ensures Effects.Taken(s, Sys(Store.AddBooking(mid.db, b), mid.caches), b)
  {
    var flight := Store.FindFlight(s.db, b.flightId).value;
    RecordKeepsFlights(s.db, mid.db, b.flightId, Effects.Seats(flight, -b.numberOfSeats), b);
    if Store.WellFormed(s.db) {
      RecordKeepsWellFormed(s.db, mid.db, b);
    }
    Effects.TakenIntro(s, Store.AddBooking(mid.db, b), mid.caches, b);
  }

  lemma RecordKeepsFlights(db: Store.Db, mid: Store.Db, id: int, f: Flight, b: Booking)
    requires b.id == mid.nextBookingId
    requires FlightService.OnlyFlightChanged(db, mid, id, f)
    ensures var after := Store.AddBooking(mid, b);
      && Store.FindFlight(after, id) == Some(f)
      && (forall other :: other != id ==> Store.FindFlight(after, other) == Store.FindFlight(db, other))
      && after.bookings == db.bookings + [b]
      && after.users == db.users
  {
    var after := Store.AddBooking(mid, b);
    assert after.flights == mid.flights;
  }

  lemma RecordKeepsWellFormed(db: Store.Db, mid: Store.Db, b: Booking)
    requires Store.WellFormed(db)
    requires Store.HasUser(db.users, b.userId)
    requires b.id == mid.nextBookingId
    requires Store.FindBookingByReference(mid, b.bookingReference).None?
    requires Store.FindFlight(mid, b.flightId).Some?
    requires FlightService.OnlyFlightChanged(db, mid, b.flightId, Store.FindFlight(mid, b.flightId).value)
    ensures Store.WellFormed(Store.AddBooking(mid, b))
  {
  }

  /** `getBookingByReference`: read-through on the 'ref:' entry of the bookings cache. */
  function GetBookingByReference(s: Sys, reference: string): (r: Reply<Booking>)
    ensures r.after.db == s.db
    ensures r.after.caches.(bookings := s.caches.bookings) == s.caches
    ensures Caches.ReferenceKey(reference) in s.caches.bookings ==>
      r.result == Ok(s.caches.bookings[Caches.ReferenceKey(reference)]) && r.after == s
    ensures Caches.ReferenceKey(reference) !in s.caches.bookings ==>
      && (r.result.Ok? <==> exists b :: b in s.db.bookings && b.bookingReference == reference)
      && (r.result.Ok? ==> r.result.value in s.db.bookings && r.result.value.bookingReference == reference
                           && r.after.caches.bookings == s.caches.bookings[Caches.ReferenceKey(reference) := r.result.value])
      && (r.result.Err? ==> r.result == Err(NotFound("Booking not found")) && r.after == s)
  {
    var load := match Store.FindBookingByReference(s.db, reference)
      case None => Err(NotFound("Booking not found"))
      case Some(b) => Ok(b);
    var (result, entries) := Caches.ReadThrough(s.caches.bookings, Caches.ReferenceKey(reference), load, Caches.KeepAll());
    Reply(result, s.(caches := s.caches.(bookings := entries)))
  }

  /** `getUserBookings`: read-through on the user's entry of the userBookings
      cache; an empty list is returned but not stored. Never fails, even for an
      unknown user. */
  function GetUserBookings(s: Sys, userId: int): (r: Reply<seq<Booking>>)
    ensures r.after.db == s.db && r.result.Ok?
    ensures r.after.caches.(userBookings := s.caches.userBookings) == s.caches
    ensures Caches.IdKey(userId) in s.caches.userBookings ==>
      r.result.value == s.caches.userBookings[Caches.IdKey(userId)] && r.after == s
    ensures Caches.IdKey(userId) !in s.caches.userBookings ==>
      && r.result.value == Store.BookingsOfUser(s.db, userId)
      && (forall b :: b in r.result.value <==> b in s.db.bookings && b.userId == userId)
      && (|r.result.value| > 0 ==>
            r.after.caches.userBookings == s.caches.userBookings[Caches.IdKey(userId) := r.result.value])
      && (|r.result.value| == 0 ==> r.after == s)
  {
    var load: Result<seq<Booking>> := Ok(Store.BookingsOfUser(s.db, userId));
    var (result, entries) := Caches.ReadThrough(s.caches.userBookings, Caches.IdKey(userId), load, Caches.KeepNonEmpty());
    Reply(result, s.(caches := s.caches.(userBookings := entries)))
  }

  /** `cancelBooking`: marks the booking CANCELLED and gives its seats back to
      its flight. It declares no cache eviction, so every cache is left as it
      was. A booking whose flight row is missing cannot occur in a well-formed
      store (the foreign key); it is reported as an integrity error. */
  function CancelBooking(s: Sys, reference: string): (r: Reply<()>)
    ensures r.result.Err? ==> r.after == s
    ensures r.after.caches == s.caches
    ensures (forall b :: b in s.db.bookings ==> b.bookingReference != reference) ==>
      r.result == Err(NotFound("Booking not found"))
    ensures Store.FindBookingByReference(s.db, reference).Some? ==>
      var b := Store.FindBookingByReference(s.db, reference).value;
      && (b.status == CancelledBooking ==> r.result == Err(Business("Booking already cancelled")))
      && (b.status != CancelledBooking && Store.WellFormed(s.db) ==> r.result.Ok?)
    ensures r.result.Ok? ==>
      && Store.FindBookingByReference(s.db, reference).Some?
      && Store.FindBookingByReference(s.db, reference).value.status != CancelledBooking
      && Effects.Released(s, r.after, Store.FindBookingByReference(s.db, reference).value)
  {
    match Store.FindBookingByReference(s.db, reference)
    case None => Reply(Err(NotFound("Booking not found")), s)
    case Some(b) =>
      if b.status == CancelledBooking then
        Reply(Err(Business("Booking already cancelled")), s)
      else
        ReleaseSeats(s, b)
  }

  /** The write half of `cancelBooking`, for the stored active booking `b`. */
  function ReleaseSeats(s: Sys, b: Booking): (r: Reply<()>)
    requires Store.FindBookingByReference(s.db, b.bookingReference) == Some(b)
    ensures r.result.Err? ==> r.after == s && !Store.WellFormed(s.db)
    ensures r.after.caches == s.caches
    ensures r.result.Ok? ==> Effects.Released(s, r.after, b)
  {
    match Store.FindFlight(s.db, b.flightId)
    case None =>
      Reply(Err(Integrity("booking " + b.bookingReference + " references a missing flight")), s)
    case Some(flight) =>
      var marked := Store.SaveBooking(s.db, b.(status := CancelledBooking));
      Reply(Ok(()), s.(db := Store.SaveFlight(marked, Effects.Seats(flight, b.numberOfSeats))))
  }

  /** A cancelled booking stays cancelled: cancelling the same reference again
      is refused and changes nothing, so its seats are given back only once. */
  lemma CancelTwiceRefused(s: Sys, reference: string)
    requires CancelBooking(s, reference).result.Ok?
    ensures var after := CancelBooking(s, reference).after;
      CancelBooking(after, reference) == Reply(Err(Business("Booking already cancelled")), after)
  {
  }

  /** A booking refused for its reference still uses up an identity value:
      the next booking recorded is keyed one past the id the refused one drew. */
  lemma RefusedBookingSkipsId(s: Sys, refused: BookingRequest, m1: int, d1: int,
                              next: BookingRequest, m2: int, d2: int)
    requires 0 <= d1 < 1000 && 0 <= d2 < 1000
    requires CreateBooking(s, refused, m1, d1).result.Err?
    requires CreateBooking(s, refused, m1, d1).result.error.Integrity?
    requires CreateBooking(CreateBooking(s, refused, m1, d1).after, next, m2, d2).result.Ok?
    ensures CreateBooking(CreateBooking(s, refused, m1, d1).after, next, m2, d2).result.value.id
            == s.db.nextBookingId + 1
  {
  }

  /** A request that passed validation may still be longer than its columns:
      the phone pattern and the email check set no length, while the columns
      hold 20 and 50 characters. */
  lemma AdmittedRequestMayOverflowColumns()
    ensures exists f: BookingForm, req: BookingRequest ::
      && AdmitBooking(f) == Some(req)
      && |req.passengerPhone| > PassengerPhoneWidth
      && |req.passengerEmail| > PassengerEmailWidth
  {
    var phone := "0000000000000000000000";
    var email := "passenger.with.a.rather.long" + ".address@example.travel";
    var f := BookingForm(Some(1), Some(1), Some("An"), Some("Le"), Some(email), Some(phone), Some(2));
    assert "An"[0] == 'A' && "Le"[0] == 'L' && email[0] == 'p' && phone[0] == '0';
    assert PhonePattern(phone);
    forall rule: BookingRule ensures BookingRuleHolds(f, rule) {
    }
    assert AdmitBooking(f).Some?;
  }
}
