/** The reservation service: booking, check-in and the per-flight
    listing, as a state machine over the two documents and the
    process-wide reservation counter. */
module ReservationService {
  import opened Results
  import opened Text
  import opened Domain
  import opened Storage
  import opened KeyedList
  import opened Repository
  import opened FlightRepository
  import opened ReservationRepository

  /** Both documents and the reservation-id counter of the running process. */
  datatype State = State(flights: Stored<Flight>, reservations: Stored<Reservation>, idCounter: nat)

  /** What a service call returns, and the state afterwards. */
  datatype Outcome<X> = Outcome(result: Result<X>, state: State)

  ghost predicate ValidOrders(s: State, flightOrder: seq<string>, reservationOrder: seq<string>) {
    ValidOrder(s.flights, flightOrder) && ValidOrder(s.reservations, reservationOrder)
  }

  /** The flight after one seat is sold. */
  function SellSeat(f: Flight): (g: Flight)
    ensures g.availableSeat == f.availableSeat - 1
    ensures g.(availableSeat := f.availableSeat) == f
  {
    f.(availableSeat := f.availableSeat - 1)
  }

  /** Book a seat on a flight: the flight must exist and have a seat
      left. The reservation is stored (upserted by id) and then the
      flight's free-seat count goes down by one. The counter advances as
      soon as the reservation is created, so it also advances when
      storing the reservation fails. */
  function BookFlight(s: State, flightOrder: seq<string>, reservationOrder: seq<string>,
                      name: string, address: string, phoneNumber: int, identityCardNumber: int,
                      flightNumber: string): (r: Outcome<Reservation>)
    requires ValidOrders(s, flightOrder, reservationOrder)
    ensures s.flights.Corrupt? ==> r == Outcome(Err(Decode), s)
    ensures !s.flights.Corrupt? ==>
      var fs := LoadList(s.flights, flightOrder).result.value;
      var flights' := LoadList(s.flights, flightOrder).store;
      var made := NewReservation(s.idCounter, name, address, phoneNumber, identityCardNumber, flightNumber);
      && (NoMatch(fs, FlightKey, flightNumber) ==>
            r == Outcome(Err(NotFound), s.(flights := flights')))
      && (forall i :: IsFirstMatch(fs, FlightKey, flightNumber, i) ==>
            if fs[i].availableSeat <= 0 then
              r == Outcome(Err(NoAvailability), s.(flights := flights'))
            else if s.reservations.Corrupt? then
              r == Outcome(Err(Decode), State(flights', s.reservations, made.0))
            else
              && r.result == Ok(made.1)
              && r.state.idCounter == made.0
              && r.state.flights == ListForm(fs[i := SellSeat(fs[i])])
              && r.state.reservations.ListForm?
              && IsUpsert(LoadList(s.reservations, reservationOrder).result.value,
                          r.state.reservations.items, ReservationKey, made.1))
  {
    var found := FindById(s.flights, flightOrder, FlightKey, flightNumber);
    match found.result
    case Err(e) => Outcome(Err(e), s.(flights := found.store))
    case Ok(f) =>
      if f.availableSeat <= 0 then Outcome(Err(NoAvailability), s.(flights := found.store))
      else
        var made := NewReservation(s.idCounter, name, address, phoneNumber, identityCardNumber, flightNumber);
        var saved := Save(s.reservations, reservationOrder, ReservationKey, made.1);
        match saved.result
        case Err(e) => Outcome(Err(e), State(found.store, saved.store, made.0))
        case Ok(_) =>
          var fs := LoadList(s.flights, flightOrder).result.value;
          var i := FindFirst(fs, FlightKey, flightNumber).value;
          assert IsFirstMatch(fs, FlightKey, flightNumber, i);
          var updated := Update(found.store, [], FlightKey, SellSeat(f));
          match updated.result
          case Err(e) =>
            assert false;
            Outcome(Err(e), State(updated.store, saved.store, made.0))
          case Ok(_) =>
            assert ReplacedAt(fs, updated.store.items, i, SellSeat(f));
            Outcome(Ok(made.1), State(updated.store, saved.store, made.0))
  }

  /** The outcome of a check-in once reservation `i` of `rs` has been
      found (`reservations'` is the reservation document after that
      lookup): refused when already checked in, when the flight cannot
      be read or is missing, or when the seat is missing or taken;
      otherwise exactly that seat becomes occupied and exactly that
      reservation gets the seat and the checked-in flag. */
  ghost predicate CheckInAfterLookup(s: State, flightOrder: seq<string>, rs: seq<Reservation>,
                                     reservations': Stored<Reservation>, i: int, seat: string,
                                     r: Outcome<()>)
    requires ValidOrder(s.flights, flightOrder)
    requires 0 <= i < |rs|
  {
    var res := rs[i];
    if res.checkedIn then r == Outcome(Err(AlreadyCheckedIn), s.(reservations := reservations'))
    else if s.flights.Corrupt? then r == Outcome(Err(Decode), s.(reservations := reservations'))
    else
      var fs := LoadList(s.flights, flightOrder).result.value;
      var flights' := LoadList(s.flights, flightOrder).store;
      && (NoMatch(fs, FlightKey, res.reservationFlightNumber) ==>
            r == Outcome(Err(NotFound), State(flights', reservations', s.idCounter)))
      && (forall j :: IsFirstMatch(fs, FlightKey, res.reservationFlightNumber, j) ==>
            if !(seat in fs[j].seatList && fs[j].seatList[seat]) then
              r == Outcome(Err(SeatUnavailable), State(flights', reservations', s.idCounter))
            else
              r == Outcome(Ok(()), State(
                     ListForm(fs[j := fs[j].(seatList := fs[j].seatList[seat := false])]),
                     ListForm(rs[i := rs[i].(seatLocation := seat, checkedIn := true)]),
                     s.idCounter)))
  }

  /** Check a reservation in on a seat. The flight is written before the
      reservation. */
  function CheckInSeat(s: State, flightOrder: seq<string>, reservationOrder: seq<string>,
                       reservationId: string, seat: string): (r: Outcome<()>)
    requires ValidOrders(s, flightOrder, reservationOrder)
    ensures s.reservations.Corrupt? ==> r == Outcome(Err(Decode), s)
    ensures r.result.Ok? ==> r.state.flights.ListForm? && r.state.reservations.ListForm?
    ensures !s.reservations.Corrupt? ==>
      var rs := LoadList(s.reservations, reservationOrder).result.value;
      var reservations' := LoadList(s.reservations, reservationOrder).store;
      && (NoMatch(rs, ReservationKey, reservationId) ==>
            r == Outcome(Err(NotFound), s.(reservations := reservations')))
      && (forall i :: IsFirstMatch(rs, ReservationKey, reservationId, i) ==>
            CheckInAfterLookup(s, flightOrder, rs, reservations', i, seat, r))
  {
    var rf := FindById(s.reservations, reservationOrder, ReservationKey, reservationId);
    match rf.result
    case Err(e) => Outcome(Err(e), s.(reservations := rf.store))
    case Ok(res) =>
      var rs := LoadList(s.reservations, reservationOrder).result.value;
      var i := FindFirst(rs, ReservationKey, reservationId).value;
      assert IsFirstMatch(rs, ReservationKey, reservationId, i);
      if res.checkedIn then Outcome(Err(AlreadyCheckedIn), s.(reservations := rf.store))
      else
        var ff := FindById(s.flights, flightOrder, FlightKey, res.reservationFlightNumber);
        match ff.result
        case Err(e) => Outcome(Err(e), State(ff.store, rf.store, s.idCounter))
        case Ok(f) =>
          if !(seat in f.seatList && f.seatList[seat]) then
            Outcome(Err(SeatUnavailable), State(ff.store, rf.store, s.idCounter))
          else
            var fs := LoadList(s.flights, flightOrder).result.value;
            var j := FindFirst(fs, FlightKey, res.reservationFlightNumber).value;
            assert IsFirstMatch(fs, FlightKey, res.reservationFlightNumber, j);
            var fu := Update(ff.store, [], FlightKey, f.(seatList := f.seatList[seat := false]));
            var ru := Update(rf.store, [], ReservationKey, CheckIn(res.(seatLocation := seat)));
            assert ReplacedAt(fs, fu.store.items, j, f.(seatList := f.seatList[seat := false]));
            assert ReplacedAt(rs, ru.store.items, i, CheckIn(res.(seatLocation := seat)));
            Outcome(Ok(()), State(fu.store, ru.store, s.idCounter))
  }

  /** A reservation is checked in at most once: after a successful
      check-in, checking the same reservation in again, on any seat, is
      refused and changes nothing. */
  lemma SecondCheckInFails(s: State, flightOrder: seq<string>, reservationOrder: seq<string>,
                           reservationId: string, seat: string, seat': string)
    requires ValidOrders(s, flightOrder, reservationOrder)
    requires CheckInSeat(s, flightOrder, reservationOrder, reservationId, seat).result.Ok?
    ensures var s' := CheckInSeat(s, flightOrder, reservationOrder, reservationId, seat).state;
      CheckInSeat(s', [], [], reservationId, seat') == Outcome(Err(AlreadyCheckedIn), s')
  {
    var rs := LoadList(s.reservations, reservationOrder).result.value;
    var i := FindFirst(rs, ReservationKey, reservationId).value;
    var s' := CheckInSeat(s, flightOrder, reservationOrder, reservationId, seat).state;
    var rs' := rs[i := rs[i].(seatLocation := seat, checkedIn := true)];
    assert IsFirstMatch(rs, ReservationKey, reservationId, i);
    assert s'.reservations == ListForm(rs');
    assert IsFirstMatch(rs', ReservationKey, reservationId, i);
  }

  /** A check-in changes no reservation id and the number of stored
      reservations: only the checked-in reservation's seat and flag move. */
  lemma CheckInKeepsReservationIds(s: State, flightOrder: seq<string>, reservationOrder: seq<string>,
                                   reservationId: string, seat: string)
    requires ValidOrders(s, flightOrder, reservationOrder)
    requires !s.reservations.Corrupt?
    ensures var s' := CheckInSeat(s, flightOrder, reservationOrder, reservationId, seat).state;
      var rs := LoadList(s.reservations, reservationOrder).result.value;
      && ValidOrder(s'.reservations, reservationOrder)
      && !s'.reservations.Corrupt?
      && |LoadList(s'.reservations, reservationOrder).result.value| == |rs|
      && forall k :: 0 <= k < |rs| ==>
           LoadList(s'.reservations, reservationOrder).result.value[k].reservationId == rs[k].reservationId
  {
    var r := CheckInSeat(s, flightOrder, reservationOrder, reservationId, seat);
    var rs := LoadList(s.reservations, reservationOrder).result.value;
    if r.result.Ok? {
      var i := FindFirst(rs, ReservationKey, reservationId).value;
      assert IsFirstMatch(rs, ReservationKey, reservationId, i);
      assert r.state.reservations == ListForm(rs[i := rs[i].(seatLocation := seat, checkedIn := true)]);
    } else {
      assert r.state.reservations == LoadList(s.reservations, reservationOrder).store;
    }
  }

  /** No seat is given twice: after a check-in on `seat`, a check-in of
      any reservation of the same flight on the same seat is refused. */
  lemma SeatGivenOnce(s: State, flightOrder: seq<string>, reservationOrder: seq<string>,
                      reservationId: string, otherId: string, seat: string)
    requires ValidOrders(s, flightOrder, reservationOrder)
    requires CheckInSeat(s, flightOrder, reservationOrder, reservationId, seat).result.Ok?
    ensures var s' := CheckInSeat(s, flightOrder, reservationOrder, reservationId, seat).state;
      var other := FindById(s'.reservations, [], ReservationKey, otherId).result;
      var first := FindById(s.reservations, reservationOrder, ReservationKey, reservationId).result;
      other.Ok? && other.value.reservationFlightNumber == first.value.reservationFlightNumber ==>
        CheckInSeat(s', [], [], otherId, seat).result.Err?
  {
    var rs := LoadList(s.reservations, reservationOrder).result.value;
    var i := FindFirst(rs, ReservationKey, reservationId).value;
    var n := rs[i].reservationFlightNumber;
    var fs := LoadList(s.flights, flightOrder).result.value;
    var j := FindFirst(fs, FlightKey, n).value;
    var fs' := fs[j := fs[j].(seatList := fs[j].seatList[seat := false])];
    assert IsFirstMatch(fs', FlightKey, n, j);
    var s' := CheckInSeat(s, flightOrder, reservationOrder, reservationId, seat).state;
    var rs' := rs[i := rs[i].(seatLocation := seat, checkedIn := true)];
    var other := FindById(s'.reservations, [], ReservationKey, otherId).result;
    if other.Ok? && other.value.reservationFlightNumber == n {
      var k := FindFirst(rs', ReservationKey, otherId).value;
      assert IsFirstMatch(rs', ReservationKey, otherId, k);
    }
  }

  /** The reservations of a flight that exists: exactly the per-flight
      query's result, in stored order. */
  function GetReservationsForFlight(s: State, flightOrder: seq<string>, reservationOrder: seq<string>,
                                    flightNumber: string): (r: Outcome<seq<Reservation>>)
    requires ValidOrders(s, flightOrder, reservationOrder)
    ensures s.flights.Corrupt? ==> r == Outcome(Err(Decode), s)
    ensures !s.flights.Corrupt? ==>
      var fs := LoadList(s.flights, flightOrder).result.value;
      var flights' := LoadList(s.flights, flightOrder).store;
      && (NoMatch(fs, FlightKey, flightNumber) ==>
            r == Outcome(Err(NotFound), s.(flights := flights')))
      && (!NoMatch(fs, FlightKey, flightNumber) ==>
            && r.state == State(flights', LoadList(s.reservations, reservationOrder).store, s.idCounter)
            && (s.reservations.Corrupt? ==> r.result == Err(Decode))
            && r.result == FindByFlightNumber(s.reservations, reservationOrder, flightNumber).result
            && (!s.reservations.Corrupt? ==>
                  && r.result.Ok?
                  && IsSubsequence(r.result.value, LoadList(s.reservations, reservationOrder).result.value)
                  && forall x :: x in r.result.value <==>
                       x in LoadList(s.reservations, reservationOrder).result.value
                       && x.reservationFlightNumber == flightNumber))
  {
    var found := FindById(s.flights, flightOrder, FlightKey, flightNumber);
    match found.result
    case Err(e) => Outcome(Err(e), s.(flights := found.store))
    case Ok(_) =>
      var q := FindByFlightNumber(s.reservations, reservationOrder, flightNumber);
      assert !s.reservations.Corrupt? ==> forall x ::
        x in q.result.value <==> x in LoadList(s.reservations, reservationOrder).result.value
                                 && x.reservationFlightNumber == flightNumber by {
        if !s.reservations.Corrupt? {
          forall x {
            FlightQueryMembership(s.reservations, reservationOrder, flightNumber, x);
          }
        }
      }
      Outcome(q.result, State(found.store, q.store, s.idCounter))
  }
}
