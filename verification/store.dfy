/** The relational store: the flights, bookings and users tables, the
    constraints the schema declares on them, and the repository finders. */
module Store {
  import opened Outcomes
  import opened Entities
  import Rows

  /** The three tables, each in primary-key order, and the identity counters
      that hand out the next primary key of each table. */
  datatype Db = Db(
    flights: seq<Flight>,
    bookings: seq<Booking>,
    users: seq<User>,
    nextFlightId: int,
    nextBookingId: int,
    nextUserId: int)

  function EmptyDb(): Db {
    Db([], [], [], 1, 1, 1)
  }

  // ---- the schema's constraints ----

  /** Primary keys are distinct and below the identity counter; the flight
      number is a unique column. */
  predicate FlightsOk(fs: seq<Flight>, nextId: int) {
    && (forall i, j :: 0 <= i < j < |fs| ==> fs[i].id != fs[j].id)
    && (forall i, j :: 0 <= i < j < |fs| ==> fs[i].flightNumber != fs[j].flightNumber)
    && (forall i :: 0 <= i < |fs| ==> fs[i].id < nextId)
  }

  /** Email is a unique column; the identity-provider subject is unique but
      nullable, so only present subjects are compared. */
  predicate UsersOk(us: seq<User>, nextId: int) {
    && (forall i, j :: 0 <= i < j < |us| ==> us[i].id != us[j].id)
    && (forall i, j :: 0 <= i < j < |us| ==> us[i].email != us[j].email)
    && (forall i, j :: 0 <= i < j < |us| && us[i].auth0Id.Some? ==> us[i].auth0Id != us[j].auth0Id)
    && (forall i :: 0 <= i < |us| ==> us[i].id < nextId)
  }

  predicate HasFlight(fs: seq<Flight>, id: int) {
    exists f :: f in fs && f.id == id
  }

  predicate HasUser(us: seq<User>, id: int) {
    exists u :: u in us && u.id == id
  }

  /** The booking reference is unique, and the two non-null foreign keys point
      at existing rows. */
  predicate BookingsOk(bs: seq<Booking>, nextId: int, fs: seq<Flight>, us: seq<User>) {
    && (forall i, j :: 0 <= i < j < |bs| ==> bs[i].id != bs[j].id)
    && (forall i, j :: 0 <= i < j < |bs| ==> bs[i].bookingReference != bs[j].bookingReference)
    && (forall i :: 0 <= i < |bs| ==> bs[i].id < nextId)
    && (forall i :: 0 <= i < |bs| ==> HasFlight(fs, bs[i].flightId) && HasUser(us, bs[i].userId))
  }

  predicate WellFormed(db: Db) {
    match db
    case Db(flights, bookings, users, nextFlightId, nextBookingId, nextUserId) =>
      && FlightsOk(flights, nextFlightId)
      && UsersOk(users, nextUserId)
      && BookingsOk(bookings, nextBookingId, flights, users)
  }

  // ---- row conditions ----

  function FlightWithId(id: int): Flight -> bool {
    (f: Flight) => f.id == id
  }

  function FlightWithNumber(number: string): Flight -> bool {
    (f: Flight) => f.flightNumber == number
  }

  function BookingWithReference(reference: string): Booking -> bool {
    (b: Booking) => b.bookingReference == reference
  }

  function UserWithId(id: int): User -> bool {
    (u: User) => u.id == id
  }

  function UserWithEmail(email: string): User -> bool {
    (u: User) => u.email == email
  }

  /** The condition of the seat-search query. */
  function SearchMatch(origin: string, destination: string, departureTime: int, seats: int): Flight -> bool {
    (f: Flight) =>
      && f.origin == origin
      && f.destination == destination
      && f.departureTime >= departureTime
      && f.availableSeats >= seats
      && f.status == Scheduled
  }

  /** The condition of the derived route-and-window query (`Between` is inclusive). */
  function RouteWindowMatch(origin: string, destination: string, start: int, end: int): Flight -> bool {
    (f: Flight) => f.origin == origin && f.destination == destination && start <= f.departureTime <= end
  }

  // ---- FlightRepository ----

  function FindFlight(db: Db, id: int): (r: Option<Flight>)
    ensures r.Some? ==> r.value in db.flights && r.value.id == id
    ensures r.None? <==> !HasFlight(db.flights, id)
  {
    Rows.Find(db.flights, FlightWithId(id))
  }

  function FindFlightByNumber(db: Db, number: string): (r: Option<Flight>)
    ensures r.Some? ==> r.value in db.flights && r.value.flightNumber == number
    ensures r.None? <==> forall f :: f in db.flights ==> f.flightNumber != number
  {
    Rows.Find(db.flights, FlightWithNumber(number))
  }

  /** The seat search: every flight on the route, leaving at or after the given
      time, with enough seats left, and still SCHEDULED, each as often as the
      table holds it. */
  function SearchAvailable(db: Db, origin: string, destination: string, departureTime: int, seats: int): (r: seq<Flight>)
    ensures forall f :: f in r <==>
      && f in db.flights
      && f.origin == origin && f.destination == destination
      && f.departureTime >= departureTime && f.availableSeats >= seats
      && f.status == Scheduled
    ensures forall f | f in db.flights ::
              multiset(r)[f] == if && f.origin == origin && f.destination == destination
                                   && f.departureTime >= departureTime && f.availableSeats >= seats
                                   && f.status == Scheduled
                                then multiset(db.flights)[f] else 0
  {
    Rows.Filter(db.flights, SearchMatch(origin, destination, departureTime, seats))
  }

  function FlightsInWindow(db: Db, origin: string, destination: string, start: int, end: int): (r: seq<Flight>)
    ensures forall f :: f in r <==>
      f in db.flights && f.origin == origin && f.destination == destination
      && start <= f.departureTime <= end
    ensures forall f | f in db.flights ::
              multiset(r)[f] == if f.origin == origin && f.destination == destination && start <= f.departureTime <= end
                                then multiset(db.flights)[f] else 0
  {
    Rows.Filter(db.flights, RouteWindowMatch(origin, destination, start, end))
  }

  // ---- BookingRepository ----

  function FindBookingByReference(db: Db, reference: string): (r: Option<Booking>)
    ensures r.Some? ==> r.value in db.bookings && r.value.bookingReference == reference
    ensures r.None? <==> forall b :: b in db.bookings ==> b.bookingReference != reference
  {
    Rows.Find(db.bookings, BookingWithReference(reference))
  }

  /** Every booking of the user, whatever its status. */
  function BookingsOfUser(db: Db, userId: int): (r: seq<Booking>)
    ensures forall b :: b in r <==> b in db.bookings && b.userId == userId
    ensures forall b | b in db.bookings :: multiset(r)[b] == if b.userId == userId then multiset(db.bookings)[b] else 0
  {
    Rows.Filter(db.bookings, (b: Booking) => b.userId == userId)
  }

  function BookingsOfFlight(db: Db, flightId: int): (r: seq<Booking>)
    ensures forall b :: b in r <==> b in db.bookings && b.flightId == flightId
    ensures forall b | b in db.bookings :: multiset(r)[b] == if b.flightId == flightId then multiset(db.bookings)[b] else 0
  {
    Rows.Filter(db.bookings, (b: Booking) => b.flightId == flightId)
  }

  // ---- UserRepository ----

  function FindUser(db: Db, id: int): (r: Option<User>)
    ensures r.Some? ==> r.value in db.users && r.value.id == id
    ensures r.None? <==> !HasUser(db.users, id)
  {
    Rows.Find(db.users, UserWithId(id))
  }

  function FindUserByEmail(db: Db, email: string): (r: Option<User>)
    ensures r.Some? ==> r.value in db.users && r.value.email == email
    ensures r.None? <==> forall u :: u in db.users ==> u.email != email
  {
    Rows.Find(db.users, UserWithEmail(email))
  }

  // ---- consequences of the unique constraints ----

  /** The flight number is unique, so a lookup by number returns the one flight
      carrying it. */
  lemma FlightNumberIdentifies(db: Db, f: Flight)
    requires WellFormed(db)
    requires f in db.flights
    ensures FindFlightByNumber(db, f.flightNumber) == Some(f)
  {
    Rows.FindOnly(db.flights, FlightWithNumber(f.flightNumber), f);
  }

  lemma FlightIdIdentifies(db: Db, f: Flight)
    requires WellFormed(db)
    requires f in db.flights
    ensures FindFlight(db, f.id) == Some(f)
  {
    Rows.FindOnly(db.flights, FlightWithId(f.id), f);
  }

  /** The booking reference is unique, so a lookup by reference returns the one
      booking carrying it. */
  lemma ReferenceIdentifies(db: Db, b: Booking)
    requires WellFormed(db)
    requires b in db.bookings
    ensures FindBookingByReference(db, b.bookingReference) == Some(b)
  {
    Rows.FindOnly(db.bookings, BookingWithReference(b.bookingReference), b);
  }

  lemma EmailIdentifies(db: Db, u: User)
    requires WellFormed(db)
    requires u in db.users
    ensures FindUserByEmail(db, u.email) == Some(u)
  {
    Rows.FindOnly(db.users, UserWithEmail(u.email), u);
  }

  /** Asking for more seats, or for a later earliest departure, returns the
      broader search's rows narrowed further, in the same order; in particular
      never a flight the broader search left out. */
  lemma SearchNarrows(db: Db, origin: string, destination: string, t1: int, n1: int, t2: int, n2: int)
    requires t1 <= t2 && n1 <= n2
    ensures SearchAvailable(db, origin, destination, t2, n2)
         == Rows.Filter(SearchAvailable(db, origin, destination, t1, n1), SearchMatch(origin, destination, t2, n2))
    ensures forall f :: f in SearchAvailable(db, origin, destination, t2, n2)
                    ==> f in SearchAvailable(db, origin, destination, t1, n1)
  {
    Rows.FilterNarrows(db.flights, SearchMatch(origin, destination, t1, n1), SearchMatch(origin, destination, t2, n2));
  }

  // ---- row writes (the repositories' save and delete) ----

  /** Saves a changed flight over the row at position `i`, the row the lookup
      by its id found. */
  function PutFlight(db: Db, i: nat, f: Flight): (r: Db)
    requires Rows.IndexWhere(db.flights, FlightWithId(f.id)) == Some(i)
    ensures r == db.(flights := db.flights[i := f])
    ensures FindFlight(r, f.id) == Some(f)
    ensures forall other :: other != f.id ==> FindFlight(r, other) == FindFlight(db, other)
    ensures WellFormed(db) && f.flightNumber == db.flights[i].flightNumber ==> WellFormed(r)
  {
    PutFlightFinds(db, i, f);
    if WellFormed(db) && f.flightNumber == db.flights[i].flightNumber then
      PutFlightKeepsWellFormed(db, i, f);
      db.(flights := db.flights[i := f])
    else
      db.(flights := db.flights[i := f])
  }

  lemma PutFlightFinds(db: Db, i: nat, f: Flight)
    requires Rows.IndexWhere(db.flights, FlightWithId(f.id)) == Some(i)
    ensures FindFlight(db.(flights := db.flights[i := f]), f.id) == Some(f)
    ensures forall other :: other != f.id ==>
      FindFlight(db.(flights := db.flights[i := f]), other) == FindFlight(db, other)
  {
    var t := db.flights[i := f];
    assert forall j :: 0 <= j < i ==> t[j] == db.flights[j];
    Rows.FirstMatch(t, FlightWithId(f.id), i);
    forall other | other != f.id
      ensures FindFlight(db.(flights := t), other) == FindFlight(db, other)
    {
      Rows.FindAfterReplace(db.flights, i, f, FlightWithId(other));
    }
  }

  /** Overwriting a row with one of the same id leaves the set of ids alone. */
  lemma SameFlightIds(fs: seq<Flight>, i: nat, f: Flight)
    requires i < |fs| && fs[i].id == f.id
    ensures forall id :: HasFlight(fs[i := f], id) <==> HasFlight(fs, id)
  {
    var t := fs[i := f];
    forall id
      ensures HasFlight(t, id) <==> HasFlight(fs, id)
    {
      if HasFlight(fs, id) {
        var g :| g in fs && g.id == id;
        var j :| 0 <= j < |fs| && fs[j] == g;
        assert t[j] in t;
      }
      if HasFlight(t, id) {
        var g :| g in t && g.id == id;
        var j :| 0 <= j < |t| && t[j] == g;
        assert fs[j] in fs;
      }
    }
  }

  lemma PutFlightKeepsWellFormed(db: Db, i: nat, f: Flight)
    requires WellFormed(db)
    requires i < |db.flights| && db.flights[i].id == f.id
    requires db.flights[i].flightNumber == f.flightNumber
    ensures WellFormed(db.(flights := db.flights[i := f]))
  {
    var t := db.flights[i := f];
    assert forall a :: 0 <= a < |t| ==> t[a].id == db.flights[a].id && t[a].flightNumber == db.flights[a].flightNumber;
    SameFlightIds(db.flights, i, f);
  }

  /** `save` of a flight that is already stored: the row holding its id is
      overwritten and nothing else changes. */
  function SaveFlight(db: Db, f: Flight): (r: Db)
    requires HasFlight(db.flights, f.id)
    ensures r == db.(flights := r.flights) && |r.flights| == |db.flights|
    ensures FindFlight(r, f.id) == Some(f)
    ensures forall other :: other != f.id ==> FindFlight(r, other) == FindFlight(db, other)
    ensures WellFormed(db) && f.flightNumber == FindFlight(db, f.id).value.flightNumber ==> WellFormed(r)
  {
    var i := Rows.IndexWhere(db.flights, FlightWithId(f.id)).value;
    PutFlight(db, i, f)
  }

  /** Inserts a new flight row under the next identity value. */
  function AddFlight(db: Db, f: Flight): (r: Db)
    requires f.id == db.nextFlightId
    ensures r == db.(flights := db.flights + [f], nextFlightId := db.nextFlightId + 1)
    ensures WellFormed(db) ==> FindFlight(r, f.id) == Some(f)
    ensures forall other :: other != f.id ==> FindFlight(r, other) == FindFlight(db, other)
    ensures WellFormed(db) && FindFlightByNumber(db, f.flightNumber).None? ==> WellFormed(r)
  {
    AddFlightFinds(db, f);
    if WellFormed(db) && FindFlightByNumber(db, f.flightNumber).None? then
      AddFlightKeepsWellFormed(db, f);
      db.(flights := db.flights + [f], nextFlightId := db.nextFlightId + 1)
    else
      db.(flights := db.flights + [f], nextFlightId := db.nextFlightId + 1)
  }

  lemma AddFlightFinds(db: Db, f: Flight)
    requires f.id == db.nextFlightId
    ensures WellFormed(db) ==> FindFlight(db.(flights := db.flights + [f]), f.id) == Some(f)
    ensures forall other :: other != f.id ==>
      FindFlight(db.(flights := db.flights + [f]), other) == FindFlight(db, other)
  {
    Rows.FindAfterAppend(db.flights, f, FlightWithId(f.id));
    forall other | other != f.id
      ensures FindFlight(db.(flights := db.flights + [f]), other) == FindFlight(db, other)
    {
      Rows.FindAfterAppend(db.flights, f, FlightWithId(other));
    }
  }

  lemma AddFlightKeepsWellFormed(db: Db, f: Flight)
    requires WellFormed(db) && f.id == db.nextFlightId
    requires forall g :: g in db.flights ==> g.flightNumber != f.flightNumber
    ensures WellFormed(db.(flights := db.flights + [f], nextFlightId := db.nextFlightId + 1))
  {
    var t := db.flights + [f];
    forall a, c | 0 <= a < c < |t|
      ensures t[a].id != t[c].id && t[a].flightNumber != t[c].flightNumber
    {
      if c == |db.flights| {
        assert t[a] in db.flights;
      }
    }
    forall id | HasFlight(db.flights, id)
      ensures HasFlight(t, id)
    {
      var g :| g in db.flights && g.id == id;
      assert g in t;
    }
  }

  /** Deletes the flight row at position `i`. */
  function RemoveFlight(db: Db, i: nat): (r: Db)
    requires i < |db.flights|
    ensures r == db.(flights := Rows.RemoveAt(db.flights, i))
    ensures forall other :: other != db.flights[i].id ==> FindFlight(r, other) == FindFlight(db, other)
    ensures WellFormed(db) ==> FindFlight(r, db.flights[i].id).None?
    ensures WellFormed(db) && BookingsOfFlight(db, db.flights[i].id) == [] ==> WellFormed(r)
  {
    RemoveFlightFinds(db, i);
    if WellFormed(db) && BookingsOfFlight(db, db.flights[i].id) == [] then
      RemoveFlightKeepsWellFormed(db, i);
      db.(flights := Rows.RemoveAt(db.flights, i))
    else
      db.(flights := Rows.RemoveAt(db.flights, i))
  }

  lemma RemoveFlightFinds(db: Db, i: nat)
    requires i < |db.flights|
    ensures forall other :: other != db.flights[i].id ==>
      FindFlight(db.(flights := Rows.RemoveAt(db.flights, i)), other) == FindFlight(db, other)
    ensures WellFormed(db) ==> !HasFlight(Rows.RemoveAt(db.flights, i), db.flights[i].id)
  {
    var t := Rows.RemoveAt(db.flights, i);
    forall other | other != db.flights[i].id
      ensures FindFlight(db.(flights := t), other) == FindFlight(db, other)
    {
      Rows.FindAfterRemove(db.flights, i, FlightWithId(other));
    }
    if WellFormed(db) {
      forall g | g in t
        ensures g.id != db.flights[i].id
      {
        var j :| 0 <= j < |t| && t[j] == g;
        var j' := if j < i then j else j + 1;
        assert t[j] == db.flights[j'] && j' != i;
      }
    }
  }

  lemma RemoveFlightKeepsWellFormed(db: Db, i: nat)
    requires WellFormed(db) && i < |db.flights|
    requires BookingsOfFlight(db, db.flights[i].id) == []
    ensures WellFormed(db.(flights := Rows.RemoveAt(db.flights, i)))
  {
    RemoveKeepsFlightsOk(db.flights, i, db.nextFlightId);
    RemoveKeepsReferences(db, i);
  }

  lemma RemoveKeepsFlightsOk(fs: seq<Flight>, i: nat, nextId: int)
    requires FlightsOk(fs, nextId) && i < |fs|
    ensures FlightsOk(Rows.RemoveAt(fs, i), nextId)
  {
    var t := Rows.RemoveAt(fs, i);
    forall a, c | 0 <= a < c < |t|
      ensures t[a].id != t[c].id && t[a].flightNumber != t[c].flightNumber
    {
      var a' := if a < i then a else a + 1;
      var c' := if c < i then c else c + 1;
      assert t[a] == fs[a'] && t[c] == fs[c'];
    }
    forall a | 0 <= a < |t|
      ensures t[a].id < nextId
    {
      var a' := if a < i then a else a + 1;
      assert t[a] == fs[a'];
    }
  }

  /** With no booking on the removed flight, every booking's flight stays. */
  lemma RemoveKeepsReferences(db: Db, i: nat)
    requires WellFormed(db) && i < |db.flights|
    requires BookingsOfFlight(db, db.flights[i].id) == []
    ensures forall k :: 0 <= k < |db.bookings| ==> HasFlight(Rows.RemoveAt(db.flights, i), db.bookings[k].flightId)
  {
    var fs := db.flights;
    var t := Rows.RemoveAt(fs, i);
    forall k | 0 <= k < |db.bookings|
      ensures HasFlight(t, db.bookings[k].flightId)
    {
      var b := db.bookings[k];
      assert b !in BookingsOfFlight(db, fs[i].id);
      var g :| g in fs && g.id == b.flightId;
      var j :| 0 <= j < |fs| && fs[j] == g;
      if j < i {
        assert t[j] == g;
      } else {
        assert t[j - 1] == g;
      }
    }
  }

  /** Saves a booking over the row at position `k`, the row the lookup by its
      reference found; only its status may differ. */
  function PutBooking(db: Db, k: nat, b: Booking): (r: Db)
    requires Rows.IndexWhere(db.bookings, BookingWithReference(b.bookingReference)) == Some(k)
    requires b == db.bookings[k].(status := b.status)
    ensures r == db.(bookings := db.bookings[k := b])
    ensures FindBookingByReference(r, b.bookingReference) == Some(b)
    ensures forall ref :: ref != b.bookingReference ==>
      FindBookingByReference(r, ref) == FindBookingByReference(db, ref)
    ensures WellFormed(db) ==> WellFormed(r)
  {
    PutBookingFinds(db, k, b);
    if WellFormed(db) then
      PutBookingKeepsWellFormed(db, k, b);
      db.(bookings := db.bookings[k := b])
    else
      db.(bookings := db.bookings[k := b])
  }

  lemma PutBookingFinds(db: Db, k: nat, b: Booking)
    requires Rows.IndexWhere(db.bookings, BookingWithReference(b.bookingReference)) == Some(k)
    ensures FindBookingByReference(db.(bookings := db.bookings[k := b]), b.bookingReference) == Some(b)
    ensures forall ref :: ref != b.bookingReference ==>
      FindBookingByReference(db.(bookings := db.bookings[k := b]), ref) == FindBookingByReference(db, ref)
  {
    var t := db.bookings[k := b];
    assert forall j :: 0 <= j < k ==> t[j] == db.bookings[j];
    Rows.FirstMatch(t, BookingWithReference(b.bookingReference), k);
    forall ref | ref != b.bookingReference
      ensures FindBookingByReference(db.(bookings := t), ref) == FindBookingByReference(db, ref)
    {
      Rows.FindAfterReplace(db.bookings, k, b, BookingWithReference(ref));
    }
  }

  lemma PutBookingKeepsWellFormed(db: Db, k: nat, b: Booking)
    requires WellFormed(db)
    requires k < |db.bookings| && b == db.bookings[k].(status := b.status)
    ensures WellFormed(db.(bookings := db.bookings[k := b]))
  {
    var t := db.bookings[k := b];
    assert forall a :: 0 <= a < |t| ==>
      t[a].id == db.bookings[a].id && t[a].bookingReference == db.bookings[a].bookingReference
      && t[a].flightId == db.bookings[a].flightId && t[a].userId == db.bookings[a].userId;
  }

  /** `save` of a booking that is already stored, with only its status
      changed: the row holding its reference is overwritten. */
  function SaveBooking(db: Db, b: Booking): (r: Db)
    requires FindBookingByReference(db, b.bookingReference).Some?
    requires b == FindBookingByReference(db, b.bookingReference).value.(status := b.status)
    ensures exists k :: && 0 <= k < |db.bookings|
                        && db.bookings[k] == FindBookingByReference(db, b.bookingReference).value
                        && r == db.(bookings := db.bookings[k := b])
    ensures FindBookingByReference(r, b.bookingReference) == Some(b)
    ensures forall ref :: ref != b.bookingReference ==>
      FindBookingByReference(r, ref) == FindBookingByReference(db, ref)
    ensures WellFormed(db) ==> WellFormed(r)
  {
    var k := Rows.IndexWhere(db.bookings, BookingWithReference(b.bookingReference)).value;
    PutBooking(db, k, b)
  }

  /** Inserts a new booking row under the next identity value. */
  function AddBooking(db: Db, b: Booking): (r: Db)
    requires b.id == db.nextBookingId
    ensures r == db.(bookings := db.bookings + [b], nextBookingId := db.nextBookingId + 1)
    ensures FindBookingByReference(db, b.bookingReference).None? ==>
      FindBookingByReference(r, b.bookingReference) == Some(b)
    ensures forall ref :: ref != b.bookingReference ==>
      FindBookingByReference(r, ref) == FindBookingByReference(db, ref)
    ensures && WellFormed(db)
            && FindBookingByReference(db, b.bookingReference).None?
            && HasFlight(db.flights, b.flightId) && HasUser(db.users, b.userId)
            ==> WellFormed(r)
  {
    AddBookingFinds(db, b);
    if && WellFormed(db)
       && FindBookingByReference(db, b.bookingReference).None?
       && HasFlight(db.flights, b.flightId) && HasUser(db.users, b.userId)
    then
      AddBookingKeepsWellFormed(db, b);
      db.(bookings := db.bookings + [b], nextBookingId := db.nextBookingId + 1)
    else
      db.(bookings := db.bookings + [b], nextBookingId := db.nextBookingId + 1)
  }

  lemma AddBookingFinds(db: Db, b: Booking)
    ensures FindBookingByReference(db, b.bookingReference).None? ==>
      FindBookingByReference(db.(bookings := db.bookings + [b]), b.bookingReference) == Some(b)
    ensures forall ref :: ref != b.bookingReference ==>
      FindBookingByReference(db.(bookings := db.bookings + [b]), ref) == FindBookingByReference(db, ref)
  {
    Rows.FindAfterAppend(db.bookings, b, BookingWithReference(b.bookingReference));
    forall ref | ref != b.bookingReference
      ensures FindBookingByReference(db.(bookings := db.bookings + [b]), ref) == FindBookingByReference(db, ref)
    {
      Rows.FindAfterAppend(db.bookings, b, BookingWithReference(ref));
    }
  }

  lemma AddBookingKeepsWellFormed(db: Db, b: Booking)
    requires WellFormed(db) && b.id == db.nextBookingId
    requires forall c :: c in db.bookings ==> c.bookingReference != b.bookingReference
    requires HasFlight(db.flights, b.flightId) && HasUser(db.users, b.userId)
    ensures WellFormed(db.(bookings := db.bookings + [b], nextBookingId := db.nextBookingId + 1))
  {
    var t := db.bookings + [b];
    forall a, c | 0 <= a < c < |t|
      ensures t[a].id != t[c].id && t[a].bookingReference != t[c].bookingReference
    {
      if c == |db.bookings| {
        assert t[a] in db.bookings;
      }
    }
  }

  /** Saves a user over the row at position `i`, the row the lookup by its
      email found; the id and email stay. */
  function PutUser(db: Db, i: nat, u: User): (r: Db)
    requires Rows.IndexWhere(db.users, UserWithEmail(u.email)) == Some(i)
    requires db.users[i].id == u.id
    ensures r == db.(users := db.users[i := u])
    ensures FindUserByEmail(r, u.email) == Some(u)
    ensures forall e :: e != u.email ==> FindUserByEmail(r, e) == FindUserByEmail(db, e)
    ensures && WellFormed(db)
            && (forall v :: v in db.users && v.id != u.id ==> v.auth0Id.None? || v.auth0Id != u.auth0Id)
            ==> WellFormed(r)
  {
    PutUserFinds(db, i, u);
    if && WellFormed(db)
       && (forall v :: v in db.users && v.id != u.id ==> v.auth0Id.None? || v.auth0Id != u.auth0Id)
    then
      PutUserKeepsWellFormed(db, i, u);
      db.(users := db.users[i := u])
    else
      db.(users := db.users[i := u])
  }

  lemma PutUserFinds(db: Db, i: nat, u: User)
    requires Rows.IndexWhere(db.users, UserWithEmail(u.email)) == Some(i)
    ensures FindUserByEmail(db.(users := db.users[i := u]), u.email) == Some(u)
    ensures forall e :: e != u.email ==>
      FindUserByEmail(db.(users := db.users[i := u]), e) == FindUserByEmail(db, e)
  {
    var t := db.users[i := u];
    assert forall j :: 0 <= j < i ==> t[j] == db.users[j];
    Rows.FirstMatch(t, UserWithEmail(u.email), i);
    forall e | e != u.email
      ensures FindUserByEmail(db.(users := t), e) == FindUserByEmail(db, e)
    {
      Rows.FindAfterReplace(db.users, i, u, UserWithEmail(e));
    }
  }

  lemma SameUserIds(us: seq<User>, i: nat, u: User)
    requires i < |us| && us[i].id == u.id
    ensures forall id :: HasUser(us[i := u], id) <==> HasUser(us, id)
  {
    var t := us[i := u];
    forall id
      ensures HasUser(t, id) <==> HasUser(us, id)
    {
      if HasUser(us, id) {
        var g :| g in us && g.id == id;
        var j :| 0 <= j < |us| && us[j] == g;
        assert t[j] in t;
      }
      if HasUser(t, id) {
        var g :| g in t && g.id == id;
        var j :| 0 <= j < |t| && t[j] == g;
        assert us[j] in us;
      }
    }
  }

  lemma PutUserKeepsWellFormed(db: Db, i: nat, u: User)
    requires WellFormed(db)
    requires i < |db.users| && db.users[i].id == u.id && db.users[i].email == u.email
    requires forall v :: v in db.users && v.id != u.id ==> v.auth0Id.None? || v.auth0Id != u.auth0Id
    ensures WellFormed(db.(users := db.users[i := u]))
  {
    var us := db.users;
    var t := us[i := u];
    forall a, c | 0 <= a < c < |t|
      ensures t[a].id != t[c].id && t[a].email != t[c].email
      ensures t[a].auth0Id.Some? ==> t[a].auth0Id != t[c].auth0Id
    {
      if a == i {
        assert us[c] in us && us[c].id != u.id;
      } else if c == i {
        assert us[a] in us && us[a].id != u.id;
      }
    }
    SameUserIds(us, i, u);
  }

  /** Inserts a new user row under the next identity value. */
  function AddUser(db: Db, u: User): (r: Db)
    requires u.id == db.nextUserId
    ensures r == db.(users := db.users + [u], nextUserId := db.nextUserId + 1)
    ensures FindUserByEmail(db, u.email).None? ==> FindUserByEmail(r, u.email) == Some(u)
    ensures forall e :: e != u.email ==> FindUserByEmail(r, e) == FindUserByEmail(db, e)
    ensures && WellFormed(db)
            && FindUserByEmail(db, u.email).None?
            && (forall v :: v in db.users ==> v.auth0Id.None? || v.auth0Id != u.auth0Id)
            ==> WellFormed(r)
  {
    AddUserFinds(db, u);
    if && WellFormed(db)
       && FindUserByEmail(db, u.email).None?
       && (forall v :: v in db.users ==> v.auth0Id.None? || v.auth0Id != u.auth0Id)
    then
      AddUserKeepsWellFormed(db, u);
      db.(users := db.users + [u], nextUserId := db.nextUserId + 1)
    else
      db.(users := db.users + [u], nextUserId := db.nextUserId + 1)
  }

  lemma AddUserFinds(db: Db, u: User)
    ensures FindUserByEmail(db, u.email).None? ==>
      FindUserByEmail(db.(users := db.users + [u]), u.email) == Some(u)
    ensures forall e :: e != u.email ==>
      FindUserByEmail(db.(users := db.users + [u]), e) == FindUserByEmail(db, e)
  {
    Rows.FindAfterAppend(db.users, u, UserWithEmail(u.email));
    forall e | e != u.email
      ensures FindUserByEmail(db.(users := db.users + [u]), e) == FindUserByEmail(db, e)
    {
      Rows.FindAfterAppend(db.users, u, UserWithEmail(e));
    }
  }

  lemma AddUserKeepsWellFormed(db: Db, u: User)
    requires WellFormed(db) && u.id == db.nextUserId
    requires forall v :: v in db.users ==> v.email != u.email
    requires forall v :: v in db.users ==> v.auth0Id.None? || v.auth0Id != u.auth0Id
    ensures WellFormed(db.(users := db.users + [u], nextUserId := db.nextUserId + 1))
  {
    var t := db.users + [u];
    forall a, c | 0 <= a < c < |t|
      ensures t[a].id != t[c].id && t[a].email != t[c].email
      ensures t[a].auth0Id.Some? ==> t[a].auth0Id != t[c].auth0Id
    {
      if c == |db.users| {
        assert t[a] in db.users;
      }
    }
    forall id | HasUser(db.users, id)
      ensures HasUser(t, id)
    {
      var g :| g in db.users && g.id == id;
      assert g in t;
    }
  }

  // ---- refused inserts ----

  /* The three primary keys are IDENTITY columns: the database draws the key
     when it receives the insert, before any constraint is checked, and the
     drawn value is not given back when the transaction rolls back. A refused
     insert therefore leaves every table as it was and still moves its
     table's counter on. */

  /** A flight insert the store refused. */
  function RefuseFlightInsert(db: Db): (r: Db)
    ensures r.flights == db.flights && r.bookings == db.bookings && r.users == db.users
    ensures r.nextFlightId == db.nextFlightId + 1
    ensures r.nextBookingId == db.nextBookingId && r.nextUserId == db.nextUserId
    ensures WellFormed(db) ==> WellFormed(r)
  {
    db.(nextFlightId := db.nextFlightId + 1)
  }

  /** A booking insert the store refused. */
  function RefuseBookingInsert(db: Db): (r: Db)
    ensures r.flights == db.flights && r.bookings == db.bookings && r.users == db.users
    ensures r.nextBookingId == db.nextBookingId + 1
    ensures r.nextFlightId == db.nextFlightId && r.nextUserId == db.nextUserId
    ensures WellFormed(db) ==> WellFormed(r)
  {
    db.(nextBookingId := db.nextBookingId + 1)
  }

  /** A user insert the store refused. */
  function RefuseUserInsert(db: Db): (r: Db)
    ensures r.flights == db.flights && r.bookings == db.bookings && r.users == db.users
    ensures r.nextUserId == db.nextUserId + 1
    ensures r.nextFlightId == db.nextFlightId && r.nextBookingId == db.nextBookingId
    ensures WellFormed(db) ==> WellFormed(r)
  {
    db.(nextUserId := db.nextUserId + 1)
  }
}
