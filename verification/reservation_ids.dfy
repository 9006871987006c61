/** Where the reservation-id counter starts. The counter lives in the
    process and starts at zero, while reservations persist across runs;
    this module shows the resulting id collision and states the start
    value that avoids it. */
module ReservationIds {
  import opened Results
  import opened Text
  import opened Domain
  import opened Storage
  import opened KeyedList
  import opened ReservationRepository
  import opened ReservationService

  /** The number an id of the form "R" and digits stands for. */
  function IdNumber(id: string): Option<nat> {
    if |id| >= 2 && id[0] == 'R' && AllDigits(id[1..]) then Some(ParseDigits(id[1..])) else None
  }

  /** No stored id stands for a number above `counter`. */
  ghost predicate CounterAhead(rs: seq<Reservation>, counter: nat) {
    forall i :: 0 <= i < |rs| && IdNumber(rs[i].reservationId).Some? ==>
      IdNumber(rs[i].reservationId).value <= counter
  }

  /** The counter of `s` is ahead of every readable stored id. */
  ghost predicate IdsAhead(s: State, reservationOrder: seq<string>) {
    && ValidOrder(s.reservations, reservationOrder)
    && (!s.reservations.Corrupt? ==>
          CounterAhead(LoadList(s.reservations, reservationOrder).result.value, s.idCounter))
  }

  /** An id generated from a counter that is ahead is not yet taken. */
  lemma FreshIdWhenAhead(rs: seq<Reservation>, counter: nat)
    requires CounterAhead(rs, counter)
    ensures NoMatch(rs, ReservationKey, NextReservationId(counter).1)
  {
    var id := NextReservationId(counter).1;
    assert IdNumber(id) == Some(counter + 1);
  }

  /** The largest number among the stored ids, or 0. */
  function ResumeCounter(rs: seq<Reservation>): (c: nat)
    ensures CounterAhead(rs, c)
    ensures c == 0 || exists i :: 0 <= i < |rs| && IdNumber(rs[i].reservationId) == Some(c)
    decreases |rs|
  {
    if |rs| == 0 then 0
    else
      var rest := ResumeCounter(rs[1..]);
      assert forall i :: 1 <= i < |rs| ==> rs[1..][i - 1] == rs[i];
      match IdNumber(rs[0].reservationId)
      case Some(n) => if n > rest then n else rest
      case None => rest
  }

  /** The state a run starts from, as written: the counter at zero
      whatever the documents hold. */
  function StartStateAsWritten(flights: Stored<Flight>, reservations: Stored<Reservation>): (s: State)
    ensures s.idCounter == 0 && s.flights == flights && s.reservations == reservations
  {
    State(flights, reservations, 0)
  }

  /** The state a run should start from: the counter resumes from the
      largest stored id. */
  function StartState(flights: Stored<Flight>, reservations: Stored<Reservation>,
                      reservationOrder: seq<string>): (s: State)
    requires ValidOrder(reservations, reservationOrder)
    ensures s.flights == flights && s.reservations == reservations
    ensures IdsAhead(s, reservationOrder)
  {
    State(flights, reservations,
          if reservations.Corrupt? then 0
          else ResumeCounter(LoadList(reservations, reservationOrder).result.value))
  }

  /** With the counter ahead, a booking adds a reservation after the
      stored ones, and the counter stays ahead whatever the outcome. */
  lemma BookingAppendsWhenAhead(s: State, flightOrder: seq<string>, reservationOrder: seq<string>,
                                name: string, address: string, phoneNumber: int, identityCardNumber: int,
                                flightNumber: string)
    requires ValidOrders(s, flightOrder, reservationOrder)
    requires IdsAhead(s, reservationOrder)
    ensures var r := BookFlight(s, flightOrder, reservationOrder, name, address, phoneNumber,
                                identityCardNumber, flightNumber);
      && IdsAhead(r.state, reservationOrder)
      && (r.result.Ok? ==>
            r.state.reservations == ListForm(LoadList(s.reservations, reservationOrder).result.value + [r.result.value]))
  {
    var r := BookFlight(s, flightOrder, reservationOrder, name, address, phoneNumber,
                        identityCardNumber, flightNumber);
    if !s.reservations.Corrupt? {
      var rs := LoadList(s.reservations, reservationOrder).result.value;
      FreshIdWhenAhead(rs, s.idCounter);
      if r.result.Ok? {
        var made := NewReservation(s.idCounter, name, address, phoneNumber, identityCardNumber, flightNumber);
        assert r.state.reservations.items == rs + [made.1];
        assert IdNumber(made.1.reservationId) == Some(s.idCounter + 1);
      }
    }
  }

  /** A check-in keeps every id, so the counter stays ahead. */
  lemma CheckInKeepsIdsAhead(s: State, flightOrder: seq<string>, reservationOrder: seq<string>,
                             reservationId: string, seat: string)
    requires ValidOrders(s, flightOrder, reservationOrder)
    requires IdsAhead(s, reservationOrder)
    ensures IdsAhead(CheckInSeat(s, flightOrder, reservationOrder, reservationId, seat).state, reservationOrder)
  {
    if !s.reservations.Corrupt? {
      CheckInKeepsReservationIds(s, flightOrder, reservationOrder, reservationId, seat);
    }
  }

  /** The collision as written: a reservation stored by an earlier run
      holds the first id; a fresh run starts its counter at zero, and
      its first booking overwrites that reservation instead of adding
      one. */
  lemma RestartOverwritesReservation(earlier: Reservation, f: Flight)
    requires earlier.reservationId == NextReservationId(0).1
    requires f.availableSeat > 0
    ensures var s := StartStateAsWritten(ListForm([f]), ListForm([earlier]));
      var r := BookFlight(s, [], [], "name", "address", 0, 0, f.flightNumber);
      && r.result.Ok?
      && r.state.reservations == ListForm([r.result.value])
      && |r.state.reservations.items| == 1
  {
    var s := StartStateAsWritten(ListForm([f]), ListForm([earlier]));
    assert IsFirstMatch([f], FlightRepository.FlightKey, f.flightNumber, 0);
    var made := NewReservation(0, "name", "address", 0, 0, f.flightNumber);
    assert IsFirstMatch([earlier], ReservationKey, made.1.reservationId, 0);
  }

  /** The same booking from the corrected start adds the reservation and
      keeps the earlier one. */
  lemma ResumeKeepsEarlierReservation(earlier: Reservation, f: Flight)
    requires earlier.reservationId == NextReservationId(0).1
    requires f.availableSeat > 0
    ensures var s := StartState(ListForm([f]), ListForm([earlier]), []);
      var r := BookFlight(s, [], [], "name", "address", 0, 0, f.flightNumber);
      && r.result.Ok?
      && r.state.reservations == ListForm([earlier, r.result.value])
  {
    var s := StartState(ListForm([f]), ListForm([earlier]), []);
    assert IsFirstMatch([f], FlightRepository.FlightKey, f.flightNumber, 0);
    BookingAppendsWhenAhead(s, [], [], "name", "address", 0, 0, f.flightNumber);
  }
}
