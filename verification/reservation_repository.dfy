/** The reservation document: reservations keyed by reservation id, and
    the query for one flight's reservations. */
module ReservationRepository {
  import opened Results
  import opened Domain
  import opened Storage
  import opened KeyedList

  function ReservationKey(r: Reservation): string {
    r.reservationId
  }

  predicate OnFlight(r: Reservation, flightNumber: string) {
    r.reservationFlightNumber == flightNumber
  }

  /** The reservations booked on `flightNumber`, in stored order. */
  function FindByFlightNumber(st: Stored<Reservation>, order: seq<string>, flightNumber: string)
    : (r: Reply<Reservation, seq<Reservation>>)
    requires ValidOrder(st, order)
    ensures r.store == LoadList(st, order).store
    ensures st.Corrupt? ==> r.result == Err(Decode)
    ensures !st.Corrupt? ==>
      var all := LoadList(st, order).result.value;
      && r.result.Ok?
      && IsSubsequence(r.result.value, all)
      && (forall x :: multiset(r.result.value)[x]
                      == if OnFlight(x, flightNumber) then multiset(all)[x] else 0)
  {
    var loaded := LoadList(st, order);
    match loaded.result
    case Err(e) => Reply(Err(e), loaded.store)
    case Ok(all) =>
      var p := x => OnFlight(x, flightNumber);
      FilterKeepsOrder(all, p);
      Reply(Ok(Filter(all, p)), loaded.store)
  }

  /** A reservation is in the query's result exactly when it is stored
      and booked on that flight. */
  lemma FlightQueryMembership(st: Stored<Reservation>, order: seq<string>, flightNumber: string, x: Reservation)
    requires ValidOrder(st, order) && !st.Corrupt?
    ensures x in FindByFlightNumber(st, order, flightNumber).result.value <==>
      x in LoadList(st, order).result.value && x.reservationFlightNumber == flightNumber
  {
    var found := FindByFlightNumber(st, order, flightNumber).result.value;
    var all := LoadList(st, order).result.value;
    assert x in found <==> multiset(found)[x] > 0;
    assert x in all <==> multiset(all)[x] > 0;
  }

  /** Reservations of different flights never share a result, and every
      stored reservation turns up in the query for its own flight. */
  lemma FlightQueriesPartition(st: Stored<Reservation>, order: seq<string>, x: Reservation, a: string, b: string)
    requires ValidOrder(st, order) && !st.Corrupt?
    requires a != b
    ensures !(x in FindByFlightNumber(st, order, a).result.value
              && x in FindByFlightNumber(st, order, b).result.value)
    ensures x in LoadList(st, order).result.value ==>
      x in FindByFlightNumber(st, order, x.reservationFlightNumber).result.value
  {
    var all := LoadList(st, order).result.value;
    var own := FindByFlightNumber(st, order, x.reservationFlightNumber).result.value;
    var ra := FindByFlightNumber(st, order, a).result.value;
    var rb := FindByFlightNumber(st, order, b).result.value;
    assert x in ra <==> multiset(ra)[x] > 0;
    assert x in rb <==> multiset(rb)[x] > 0;
    assert x in own <==> multiset(own)[x] > 0;
    assert x in all <==> multiset(all)[x] > 0;
  }
}
