/** The flight service: adding flights, searching, crew assignment and
    the latest-first listing, over the flight document. */
module FlightService {
  import opened Results
  import opened Calendar
  import opened Domain
  import opened Storage
  import opened KeyedList
  import opened Repository
  import opened FlightRepository

  /** Create and store a flight unless its number is already taken. A
      lookup that fails for any reason, an unreadable document included,
      lets the save go ahead (and the save then reports the failure). */
  function AddFlight(st: Stored<Flight>, order: seq<string>, flightNumber: string,
                     departureCity: string, destinationCity: string,
                     departureTime: int, arrivalTime: int, seats: int): (r: Reply<Flight, Flight>)
    requires ValidOrder(st, order)
    ensures st.Corrupt? ==> r == Reply(Err(Decode), st)
    ensures !st.Corrupt? ==>
      var all := LoadList(st, order).result.value;
      var f := NewFlight(flightNumber, departureCity, destinationCity, departureTime, arrivalTime, seats);
      && (!NoMatch(all, FlightKey, flightNumber) ==>
            r == Reply(Err(Duplicate), LoadList(st, order).store))
      && (NoMatch(all, FlightKey, flightNumber) ==>
            r == Reply(Ok(f), ListForm(all + [f])))
  {
    var found := FindById(st, order, FlightKey, flightNumber);
    if found.result.Ok? then Reply(Err(Duplicate), found.store)
    else
      var f := NewFlight(flightNumber, departureCity, destinationCity, departureTime, arrivalTime, seats);
      var saved := Save(found.store, [], FlightKey, f);
      match saved.result
      case Err(e) => Reply(Err(e), saved.store)
      case Ok(_) => Reply(Ok(f), saved.store)
  }

  /** A flight just added is what a lookup of its number returns, and
      adding the same number again is refused without changing anything. */
  lemma AddThenGet(st: Stored<Flight>, order: seq<string>, order': seq<string>, flightNumber: string,
                   departureCity: string, destinationCity: string,
                   departureTime: int, arrivalTime: int, seats: int)
    requires ValidOrder(st, order)
    requires AddFlight(st, order, flightNumber, departureCity, destinationCity, departureTime, arrivalTime, seats).result.Ok?
    ensures var r := AddFlight(st, order, flightNumber, departureCity, destinationCity, departureTime, arrivalTime, seats);
      && FindById(r.store, order', FlightKey, flightNumber).result == r.result
      && AddFlight(r.store, order', flightNumber, departureCity, destinationCity, departureTime, arrivalTime, seats)
         == Reply(Err(Duplicate), r.store)
  {
    var r := AddFlight(st, order, flightNumber, departureCity, destinationCity, departureTime, arrivalTime, seats);
    var all := LoadList(st, order).result.value;
    var f := r.result.value;
    assert IsFirstMatch(all + [f], FlightKey, flightNumber, |all|);
  }

  /** The search by an instant: its calendar date is written as text and
      handed to the repository search. */
  function SearchFlightsOn(st: Stored<Flight>, order: seq<string>, civil: int -> CivilDate,
                           location: string, date: int): (r: Reply<Flight, seq<Flight>>)
    requires ValidOrder(st, order)
    requires ValidCivil(civil(date))
    ensures r.result == Err(InvalidDate) <==> !(0 <= civil(date).year < 10000)
    ensures r.result == Err(InvalidDate) ==> r.store == st
  {
    FormattedYearInRange(civil(date));
    assert 0 <= civil(date).year < 10000 ==> ValidDateString(FormatDate(civil(date))) by {
      if 0 <= civil(date).year < 10000 {
        FormatThenParse(civil(date));
      }
    }
    FlightRepository.SearchFlights(st, order, civil, location, FormatDate(civil(date)))
  }

  /** Searching by an instant finds the stored flights whose city
      contains the location, ignoring case, and that depart on the same
      calendar day. */
  lemma SearchOnSameDay(st: Stored<Flight>, order: seq<string>, civil: int -> CivilDate,
                        location: string, date: int, f: Flight)
    requires ValidOrder(st, order)
    requires forall t :: ValidCivil(civil(t))
    requires 0 <= civil(date).year < 10000 && !st.Corrupt?
    ensures f in SearchFlightsOn(st, order, civil, location, date).result.value <==>
      && f in LoadList(st, order).result.value
      && (Text.Contains(Text.ToLower(f.departureCity), Text.ToLower(location))
          || Text.Contains(Text.ToLower(f.destinationCity), Text.ToLower(location)))
      && civil(f.departureTime) == civil(date)
  {
    FormatThenParse(civil(date));
    var found := SearchFlightsOn(st, order, civil, location, date).result.value;
    var all := LoadList(st, order).result.value;
    assert f in found <==> multiset(found)[f] > 0;
    assert f in all <==> multiset(all)[f] > 0;
    SameDateIffSameText(civil(f.departureTime), FormatDate(civil(date)));
  }

  /** Give a flight its crew, once: a flight that already has crew is
      refused. An empty crew list is accepted and leaves the flight
      without crew. */
  function AssignCrewTo(st: Stored<Flight>, order: seq<string>, flightNumber: string, crew: seq<Crew>)
    : (r: Reply<Flight, ()>)
    requires ValidOrder(st, order)
    ensures st.Corrupt? ==> r == Reply(Err(Decode), st)
    ensures !st.Corrupt? ==>
      var all := LoadList(st, order).result.value;
      && (NoMatch(all, FlightKey, flightNumber) ==>
            r == Reply(Err(NotFound), LoadList(st, order).store))
      && (forall i :: IsFirstMatch(all, FlightKey, flightNumber, i) ==>
            if |all[i].crewMembers| > 0 then r == Reply(Err(AlreadyAssigned), LoadList(st, order).store)
            else r == Reply(Ok(()), ListForm(all[i := all[i].(crewMembers := crew)])))
  {
    var found := FindById(st, order, FlightKey, flightNumber);
    match found.result
    case Err(e) => Reply(Err(e), found.store)
    case Ok(f) =>
      if |f.crewMembers| > 0 then Reply(Err(AlreadyAssigned), found.store)
      else
        var all := LoadList(st, order).result.value;
        var i := FindFirst(all, FlightKey, flightNumber).value;
        var updated := Update(found.store, [], FlightKey, AssignCrew(f, crew));
        assert IsFirstMatch(all, FlightKey, flightNumber, i);
        assert ReplacedAt(all, updated.store.items, i, AssignCrew(f, crew));
        updated
  }

  /** A crew is assigned at most once: after a non-empty assignment every
      later assignment to that flight is refused. */
  lemma CrewAssignedOnce(st: Stored<Flight>, order: seq<string>, order': seq<string>,
                         flightNumber: string, crew: seq<Crew>, crew': seq<Crew>)
    requires ValidOrder(st, order)
    requires |crew| > 0
    requires AssignCrewTo(st, order, flightNumber, crew).result.Ok?
    ensures var after := AssignCrewTo(st, order, flightNumber, crew).store;
      AssignCrewTo(after, order', flightNumber, crew') == Reply(Err(AlreadyAssigned), after)
  {
    var all := LoadList(st, order).result.value;
    var i := FindFirst(all, FlightKey, flightNumber).value;
    var after := all[i := all[i].(crewMembers := crew)];
    assert IsFirstMatch(after, FlightKey, flightNumber, i);
  }

  /** All flights, latest departure first. */
  function ListAllFlights(st: Stored<Flight>, order: seq<string>): (r: Reply<Flight, seq<Flight>>)
    requires ValidOrder(st, order)
    ensures r.store == LoadList(st, order).store
    ensures st.Corrupt? ==> r.result == Err(Decode)
    ensures !st.Corrupt? ==>
      && r.result.Ok?
      && LatestFirst(r.result.value)
      && multiset(r.result.value) == multiset(LoadList(st, order).result.value)
  {
    var loaded := LoadList(st, order);
    match loaded.result
    case Err(e) => Reply(Err(e), loaded.store)
    case Ok(all) => Reply(Ok(SortByDepartureDesc(all)), loaded.store)
  }
}
