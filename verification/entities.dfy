/** The three persistent entities of the booking system (flights, bookings,
    users) as immutable records, with the status enumerations and the column
    widths the table mapping declares.

    Money is kept in integer minor units (a price of 0.01 is 1); timestamps are
    abstract integers ordered like the instants they stand for. Associations are
    foreign-key ids: a booking names its flight and its user by id. */
module Entities {
  import opened Outcomes

  datatype FlightStatus = Scheduled | Delayed | Cancelled | Completed

  datatype Flight = Flight(
    id: int,
    flightNumber: string,
    airline: string,
    origin: string,
    destination: string,
    departureTime: int,
    arrivalTime: int,
    totalSeats: int,
    availableSeats: int,
    price: int,
    status: FlightStatus)

  datatype BookingStatus = Pending | Confirmed | CancelledBooking

  datatype Booking = Booking(
    id: int,
    bookingReference: string,
    userId: int,
    flightId: int,
    passengerFirstName: string,
    passengerLastName: string,
    passengerEmail: string,
    passengerPhone: string,
    numberOfSeats: int,
    totalPrice: int,
    status: BookingStatus)

  datatype Role = UserRole | AdminRole

  datatype User = User(
    id: int,
    email: string,
    auth0Id: Option<string>,
    firstName: string,
    lastName: string,
    phoneNumber: Option<string>,
    role: Role,
    active: bool)

  /** What the user endpoints hand out: every field but the identity-provider subject. */
  datatype UserView = UserView(
    id: int,
    email: string,
    firstName: string,
    lastName: string,
    phoneNumber: Option<string>,
    role: Role,
    active: bool)

  function ViewOfUser(u: User): (v: UserView)
    ensures v.id == u.id && v.email == u.email && v.role == u.role && v.active == u.active
    ensures v.firstName == u.firstName && v.lastName == u.lastName && v.phoneNumber == u.phoneNumber
  {
    UserView(u.id, u.email, u.firstName, u.lastName, u.phoneNumber, u.role, u.active)
  }

  // Column widths declared by the table mapping.
  const FlightNumberWidth := 10
  const AirlineWidth := 100
  const AirportWidth := 3
  const ReferenceWidth := 10
  const PassengerNameWidth := 100
  const PassengerEmailWidth := 50
  const PassengerPhoneWidth := 20
  const UserEmailWidth := 100

  predicate FlightFitsColumns(f: Flight) {
    && |f.flightNumber| <= FlightNumberWidth
    && |f.airline| <= AirlineWidth
    && |f.origin| <= AirportWidth
    && |f.destination| <= AirportWidth
  }

  predicate BookingFitsColumns(b: Booking) {
    && |b.bookingReference| <= ReferenceWidth
    && |b.passengerFirstName| <= PassengerNameWidth
    && |b.passengerLastName| <= PassengerNameWidth
    && |b.passengerEmail| <= PassengerEmailWidth
    && |b.passengerPhone| <= PassengerPhoneWidth
  }

  /** A booking holds seats until it is cancelled; PENDING bookings hold seats too. */
  predicate HoldsSeats(b: Booking) {
    b.status != CancelledBooking
  }
}
