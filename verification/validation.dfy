/** The bean-validation rules on the two request bodies (the booking form and
    the flight form), and the shapes a request has once it has passed them.

    A form field is `None` when the client sent no value (Java `null`). Each
    constraint follows the validator's own null convention: `@NotNull` and
    `@NotBlank` reject `None`; `@Size`, `@Min`, `@Max`, `@Pattern`, `@Future`
    and `@DecimalMin` accept it. `@Email` format checking is not modelled: the
    passenger email is only required to be non-blank. */
module Validation {
  import opened Outcomes
  import opened Text

  datatype BookingForm = BookingForm(
    userId: Option<int>,
    flightId: Option<int>,
    passengerFirstName: Option<string>,
    passengerLastName: Option<string>,
    passengerEmail: Option<string>,
    passengerPhone: Option<string>,
    numberOfSeats: Option<int>)

  datatype FlightForm = FlightForm(
    flightNumber: Option<string>,
    airline: Option<string>,
    origin: Option<string>,
    destination: Option<string>,
    departureTime: Option<int>,
    arrivalTime: Option<int>,
    totalSeats: Option<int>,
    availableSeats: Option<int>,
    price: Option<int>)

  /** A booking request that passed validation: every field is present. */
  datatype BookingRequest = BookingRequest(
    userId: int,
    flightId: int,
    passengerFirstName: string,
    passengerLastName: string,
    passengerEmail: string,
    passengerPhone: string,
    numberOfSeats: int)

  /** The flight fields the services copy into an entity. */
  datatype FlightData = FlightData(
    flightNumber: string,
    airline: string,
    origin: string,
    destination: string,
    departureTime: int,
    arrivalTime: int,
    totalSeats: int,
    availableSeats: int,
    price: int)

  const MinSeatsPerBooking := 1
  const MaxSeatsPerBooking := 9

  // ---- single constraints, with the validator's null convention ----

  predicate Present<T>(o: Option<T>) { o.Some? }

  predicate NotBlankField(o: Option<string>) {
    o.Some? && NotBlank(o.value)
  }

  /** `@Size` measures `String.length()`, in UTF-16 code units. */
  predicate SizeAtMost(o: Option<string>, max: nat) {
    o.None? || Utf16Length(o.value) <= max
  }

  predicate SizeExactly(o: Option<string>, n: nat) {
    o.None? || Utf16Length(o.value) == n
  }

  predicate AtLeast(o: Option<int>, min: int) {
    o.None? || o.value >= min
  }

  predicate AtMost(o: Option<int>, max: int) {
    o.None? || o.value <= max
  }

  predicate InFuture(o: Option<int>, now: int) {
    o.None? || o.value > now
  }

  /** `\s` in a Java regular expression: space, tab, newline, vertical tab,
      form feed, carriage return. */
  predicate IsRegexSpace(c: char) {
    c == ' ' || c == '\t' || c == '\n' || c == '\r' || c as int == 11 || c as int == 12
  }

  /** The character class `[0-9+\-\s()]`. */
  predicate PhoneChar(c: char) {
    IsDigit(c) || c == '+' || c == '-' || c == '(' || c == ')' || IsRegexSpace(c)
  }

  /** `^[0-9+\-\s()]+$`: one or more characters, all from the class. */
  predicate PhonePattern(s: string) {
    |s| >= 1 && forall i :: 0 <= i < |s| ==> PhoneChar(s[i])
  }

  predicate PhoneField(o: Option<string>) {
    o.None? || PhonePattern(o.value)
  }

  // ---- the rules of each form ----

  datatype BookingRule =
    | UserIdRule | FlightIdRule | FirstNameRule | LastNameRule
    | EmailRule | PhoneRule | SeatsRule

  predicate BookingRuleHolds(f: BookingForm, rule: BookingRule) {
    match rule
    case UserIdRule => Present(f.userId)
    case FlightIdRule => Present(f.flightId)
    case FirstNameRule => NotBlankField(f.passengerFirstName) && SizeAtMost(f.passengerFirstName, 100)
    case LastNameRule => NotBlankField(f.passengerLastName) && SizeAtMost(f.passengerLastName, 100)
    case EmailRule => NotBlankField(f.passengerEmail)
    case PhoneRule => NotBlankField(f.passengerPhone) && PhoneField(f.passengerPhone)
    case SeatsRule =>
      Present(f.numberOfSeats) && AtLeast(f.numberOfSeats, MinSeatsPerBooking)
      && AtMost(f.numberOfSeats, MaxSeatsPerBooking)
  }

  predicate ValidBookingForm(f: BookingForm) {
    forall rule: BookingRule :: BookingRuleHolds(f, rule)
  }

  datatype FlightRule =
    | FlightNumberRule | AirlineRule | OriginRule | DestinationRule
    | DepartureRule | ArrivalRule | TotalSeatsRule | AvailableSeatsRule | PriceRule

  predicate FlightRuleHolds(f: FlightForm, now: int, rule: FlightRule) {
    match rule
    case FlightNumberRule => NotBlankField(f.flightNumber) && SizeAtMost(f.flightNumber, 10)
    case AirlineRule => NotBlankField(f.airline) && SizeAtMost(f.airline, 100)
    case OriginRule => NotBlankField(f.origin) && SizeExactly(f.origin, 3)
    case DestinationRule => NotBlankField(f.destination) && SizeExactly(f.destination, 3)
    case DepartureRule => Present(f.departureTime) && InFuture(f.departureTime, now)
    case ArrivalRule => Present(f.arrivalTime)
    case TotalSeatsRule => Present(f.totalSeats) && AtLeast(f.totalSeats, 1)
    case AvailableSeatsRule => Present(f.availableSeats) && AtLeast(f.availableSeats, 0)
    // @DecimalMin("0.01") is inclusive: one minor unit is the least accepted price.
    case PriceRule => Present(f.price) && AtLeast(f.price, 1)
  }

  predicate ValidFlightForm(f: FlightForm, now: int) {
    forall rule: FlightRule :: FlightRuleHolds(f, now, rule)
  }

  // ---- checking, character by character ----

  /** Scans for a character that `trim()` would keep. */
  method CheckNotBlank(o: Option<string>) returns (ok: bool)
    ensures ok <==> NotBlankField(o)
  {
    if o.None? {
      return false;
    }
    var s := o.value;
    ok := false;
    var i := 0;
    while i < |s|
      invariant 0 <= i <= |s|
      invariant ok <==> exists j :: 0 <= j < i && s[j] > ' '
    {
      if s[i] > ' ' {
        ok := true;
      }
      i := i + 1;
    }
  }

  /** Matches `^[0-9+\-\s()]+$`; an absent value passes, as it does for `@Pattern`. */
  method CheckPhonePattern(o: Option<string>) returns (ok: bool)
    ensures ok <==> PhoneField(o)
  {
    if o.None? {
      return true;
    }
    var s := o.value;
    ok := |s| >= 1;
    var i := 0;
    while i < |s|
      invariant 0 <= i <= |s|
      invariant ok <==> |s| >= 1 && forall j :: 0 <= j < i ==> PhoneChar(s[j])
    {
      if !PhoneChar(s[i]) {
        ok := false;
      }
      i := i + 1;
    }
  }

  const BookingRules: seq<BookingRule> :=
    [UserIdRule, FlightIdRule, FirstNameRule, LastNameRule, EmailRule, PhoneRule, SeatsRule]

  const FlightRules: seq<FlightRule> :=
    [FlightNumberRule, AirlineRule, OriginRule, DestinationRule,
     DepartureRule, ArrivalRule, TotalSeatsRule, AvailableSeatsRule, PriceRule]

  /** Checks one constraint of the booking form. */
  method CheckBookingRule(f: BookingForm, rule: BookingRule) returns (ok: bool)
    ensures ok <==> BookingRuleHolds(f, rule)
  {
    match rule
    case UserIdRule => ok := f.userId.Some?;
    case FlightIdRule => ok := f.flightId.Some?;
    case FirstNameRule =>
      ok := CheckNotBlank(f.passengerFirstName);
      ok := ok && SizeAtMost(f.passengerFirstName, 100);
    case LastNameRule =>
      ok := CheckNotBlank(f.passengerLastName);
      ok := ok && SizeAtMost(f.passengerLastName, 100);
    case EmailRule => ok := CheckNotBlank(f.passengerEmail);
    case PhoneRule =>
      ok := CheckNotBlank(f.passengerPhone);
      var pattern := CheckPhonePattern(f.passengerPhone);
      ok := ok && pattern;
    case SeatsRule =>
      ok := f.numberOfSeats.Some?
        && MinSeatsPerBooking <= f.numberOfSeats.value <= MaxSeatsPerBooking;
  }

  /** Checks one constraint of the flight form at instant `now`. */
  method CheckFlightRule(f: FlightForm, now: int, rule: FlightRule) returns (ok: bool)
    ensures ok <==> FlightRuleHolds(f, now, rule)
  {
    match rule
    case FlightNumberRule =>
      ok := CheckNotBlank(f.flightNumber);
      ok := ok && SizeAtMost(f.flightNumber, 10);
    case AirlineRule =>
      ok := CheckNotBlank(f.airline);
      ok := ok && SizeAtMost(f.airline, 100);
    case OriginRule =>
      ok := CheckNotBlank(f.origin);
      ok := ok && SizeExactly(f.origin, 3);
    case DestinationRule =>
      ok := CheckNotBlank(f.destination);
      ok := ok && SizeExactly(f.destination, 3);
    case DepartureRule => ok := f.departureTime.Some? && f.departureTime.value > now;
    case ArrivalRule => ok := f.arrivalTime.Some?;
    case TotalSeatsRule => ok := f.totalSeats.Some? && f.totalSeats.value >= 1;
    case AvailableSeatsRule => ok := f.availableSeats.Some? && f.availableSeats.value >= 0;
    case PriceRule => ok := f.price.Some? && f.price.value >= 1;
  }

  /** The set of rules a booking form breaks; empty exactly for a valid form. */
  method ValidateBooking(f: BookingForm) returns (broken: set<BookingRule>)
    ensures forall rule :: rule in broken <==> !BookingRuleHolds(f, rule)
    ensures broken == {} <==> ValidBookingForm(f)
  {
    broken := {};
    var i := 0;
    while i < |BookingRules|
      invariant 0 <= i <= |BookingRules|
      invariant forall rule :: rule in broken <==> rule in BookingRules[..i] && !BookingRuleHolds(f, rule)
    {
      var ok := CheckBookingRule(f, BookingRules[i]);
      if !ok {
        broken := broken + {BookingRules[i]};
      }
      assert BookingRules[..i + 1] == BookingRules[..i] + [BookingRules[i]];
      i := i + 1;
    }
    assert BookingRules[..i] == BookingRules;
    forall rule: BookingRule ensures rule in BookingRules {
      match rule
      case UserIdRule => assert BookingRules[0] == rule;
      case FlightIdRule => assert BookingRules[1] == rule;
      case FirstNameRule => assert BookingRules[2] == rule;
      case LastNameRule => assert BookingRules[3] == rule;
      case EmailRule => assert BookingRules[4] == rule;
      case PhoneRule => assert BookingRules[5] == rule;
      case SeatsRule => assert BookingRules[6] == rule;
    }
    if broken == {} {
      forall rule: BookingRule ensures BookingRuleHolds(f, rule) {
        assert rule !in broken;
      }
    }
  }

  /** The set of rules a flight form breaks, judged at instant `now`. */
  method ValidateFlight(f: FlightForm, now: int) returns (broken: set<FlightRule>)
    ensures forall rule :: rule in broken <==> !FlightRuleHolds(f, now, rule)
    ensures broken == {} <==> ValidFlightForm(f, now)
  {
    broken := {};
    var i := 0;
    while i < |FlightRules|
      invariant 0 <= i <= |FlightRules|
      invariant forall rule :: rule in broken <==> rule in FlightRules[..i] && !FlightRuleHolds(f, now, rule)
    {
      var ok := CheckFlightRule(f, now, FlightRules[i]);
      if !ok {
        broken := broken + {FlightRules[i]};
      }
      assert FlightRules[..i + 1] == FlightRules[..i] + [FlightRules[i]];
      i := i + 1;
    }
    assert FlightRules[..i] == FlightRules;
    forall rule: FlightRule ensures rule in FlightRules {
      match rule
      case FlightNumberRule => assert FlightRules[0] == rule;
      case AirlineRule => assert FlightRules[1] == rule;
      case OriginRule => assert FlightRules[2] == rule;
      case DestinationRule => assert FlightRules[3] == rule;
      case DepartureRule => assert FlightRules[4] == rule;
      case ArrivalRule => assert FlightRules[5] == rule;
      case TotalSeatsRule => assert FlightRules[6] == rule;
      case AvailableSeatsRule => assert FlightRules[7] == rule;
      case PriceRule => assert FlightRules[8] == rule;
    }
    if broken == {} {
      forall rule: FlightRule ensures FlightRuleHolds(f, now, rule) {
        assert rule !in broken;
      }
    }
  }

  // ---- the gate in front of the services ----

  /** `@Valid` on the booking endpoint: a valid form reaches the service with
      every field present and 1..9 seats; any other form is turned away. */
  function AdmitBooking(f: BookingForm): (r: Option<BookingRequest>)
    ensures r.Some? <==> ValidBookingForm(f)
    ensures r.Some? ==> MinSeatsPerBooking <= r.value.numberOfSeats <= MaxSeatsPerBooking
    ensures r.Some? ==> NotBlank(r.value.passengerPhone) && PhonePattern(r.value.passengerPhone)
    ensures r.Some? ==> Utf16Length(r.value.passengerFirstName) <= 100
    ensures r.Some? ==> Utf16Length(r.value.passengerLastName) <= 100
    ensures r.Some? ==> Some(r.value.userId) == f.userId && Some(r.value.flightId) == f.flightId
    ensures r.Some? ==> Some(r.value.passengerFirstName) == f.passengerFirstName
    ensures r.Some? ==> Some(r.value.passengerLastName) == f.passengerLastName
    ensures r.Some? ==> Some(r.value.passengerEmail) == f.passengerEmail
    ensures r.Some? ==> Some(r.value.passengerPhone) == f.passengerPhone
    ensures r.Some? ==> Some(r.value.numberOfSeats) == f.numberOfSeats
  {
    if ValidBookingForm(f) then
      assert BookingRuleHolds(f, UserIdRule) && BookingRuleHolds(f, FlightIdRule);
      assert BookingRuleHolds(f, FirstNameRule) && BookingRuleHolds(f, LastNameRule);
      assert BookingRuleHolds(f, EmailRule) && BookingRuleHolds(f, PhoneRule);
      assert BookingRuleHolds(f, SeatsRule);
      Some(BookingRequest(
        f.userId.value, f.flightId.value,
        f.passengerFirstName.value, f.passengerLastName.value,
        f.passengerEmail.value, f.passengerPhone.value,
        f.numberOfSeats.value))
    else None
  }

  /** `@Valid` on the flight endpoints, judged at instant `now`. */
  function AdmitFlight(f: FlightForm, now: int): (r: Option<FlightData>)
    ensures r.Some? <==> ValidFlightForm(f, now)
    ensures r.Some? ==> 1 <= Utf16Length(r.value.flightNumber) <= 10
    ensures r.Some? ==> 1 <= Utf16Length(r.value.airline) <= 100
    ensures r.Some? ==> Utf16Length(r.value.origin) == 3 && Utf16Length(r.value.destination) == 3
    ensures r.Some? ==> r.value.departureTime > now
    ensures r.Some? ==> r.value.totalSeats >= 1 && r.value.availableSeats >= 0 && r.value.price >= 1
    ensures r.Some? ==> && Some(r.value.flightNumber) == f.flightNumber
                        && Some(r.value.airline) == f.airline
                        && Some(r.value.origin) == f.origin
                        && Some(r.value.destination) == f.destination
    ensures r.Some? ==> && Some(r.value.departureTime) == f.departureTime
                        && Some(r.value.arrivalTime) == f.arrivalTime
                        && Some(r.value.totalSeats) == f.totalSeats
                        && Some(r.value.availableSeats) == f.availableSeats
                        && Some(r.value.price) == f.price
  {
    if ValidFlightForm(f, now) then
      assert FlightRuleHolds(f, now, FlightNumberRule) && FlightRuleHolds(f, now, AirlineRule);
      assert FlightRuleHolds(f, now, OriginRule) && FlightRuleHolds(f, now, DestinationRule);
      assert FlightRuleHolds(f, now, DepartureRule) && FlightRuleHolds(f, now, ArrivalRule);
      assert FlightRuleHolds(f, now, TotalSeatsRule) && FlightRuleHolds(f, now, AvailableSeatsRule);
      assert FlightRuleHolds(f, now, PriceRule);
      Some(FlightData(
        f.flightNumber.value, f.airline.value, f.origin.value, f.destination.value,
        f.departureTime.value, f.arrivalTime.value,
        f.totalSeats.value, f.availableSeats.value, f.price.value))
    else None
  }

  predicate OverfullAndBackwards(r: Option<FlightData>) {
    r.Some? && r.value.availableSeats > r.value.totalSeats && r.value.arrivalTime < r.value.departureTime
  }

  /** Twenty seats left of ten, arriving at 50 after departing at 100. */
  function OverfullForm(): FlightForm {
    FlightForm(Some("VN1"), Some("VNA"), Some("SGN"), Some("HAN"),
               Some(100), Some(50), Some(10), Some(20), Some(1))
  }

  lemma OverfullNamesValid()
    ensures FlightRuleHolds(OverfullForm(), 0, FlightNumberRule)
    ensures FlightRuleHolds(OverfullForm(), 0, AirlineRule)
  {
    var f := OverfullForm();
    assert f.flightNumber.value[0] > ' ' && f.airline.value[0] > ' ';
    assert Utf16Length(f.flightNumber.value) <= 10 && Utf16Length(f.airline.value) <= 100;
  }

  lemma OverfullRouteValid()
    ensures FlightRuleHolds(OverfullForm(), 0, OriginRule)
    ensures FlightRuleHolds(OverfullForm(), 0, DestinationRule)
  {
    var origin, destination := OverfullForm().origin.value, OverfullForm().destination.value;
    assert origin[0] > ' ' && destination[0] > ' ';
    assert InBmp(origin[0]) && InBmp(origin[1]) && InBmp(origin[2]);
    assert InBmp(destination[0]) && InBmp(destination[1]) && InBmp(destination[2]);
  }

  lemma OverfullFormValid()
    ensures ValidFlightForm(OverfullForm(), 0)
  {
    OverfullNamesValid();
    OverfullRouteValid();
    forall rule: FlightRule ensures FlightRuleHolds(OverfullForm(), 0, rule) {
    }
  }

  /** The flight form does not relate the two seat counts nor the two times:
      a form with more available seats than seats in total, arriving before it
      departs, is admitted. */
  lemma AdmitFlightAllowsOverfullAndBackwards()
    ensures exists f: FlightForm, now: int :: OverfullAndBackwards(AdmitFlight(f, now))
  {
    OverfullFormValid();
    assert OverfullAndBackwards(AdmitFlight(OverfullForm(), 0));
  }
}
