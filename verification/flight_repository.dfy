/** The flight document: flights keyed by flight number, the search by
    place and date, and the ordering by departure time. */
module FlightRepository {
  import opened Results
  import opened Text
  import opened Calendar
  import opened Domain
  import opened Storage
  import opened KeyedList

  function FlightKey(f: Flight): string {
    f.flightNumber
  }

  /** The search criterion: `location` occurs, ignoring case, in either
      city, and the departure's `dd/mm/yyyy` text is `dateStr`. `civil`
      is the calendar date of an instant in the departure time's zone. */
  predicate Matches(f: Flight, location: string, dateStr: string, civil: int -> CivilDate) {
    && (Contains(ToLower(f.departureCity), ToLower(location))
        || Contains(ToLower(f.destinationCity), ToLower(location)))
    && FormatDate(civil(f.departureTime)) == dateStr
  }

  /** Flights matching `location` and `dateStr`, in stored order. The date
      text is checked before the document is read, so a bad date leaves
      the document untouched. */
  function SearchFlights(st: Stored<Flight>, order: seq<string>, civil: int -> CivilDate,
                         location: string, dateStr: string): (r: Reply<Flight, seq<Flight>>)
    requires ValidOrder(st, order)
    ensures !ValidDateString(dateStr) ==> r == Reply(Err(InvalidDate), st)
    ensures ValidDateString(dateStr) ==> r.store == LoadList(st, order).store
    ensures ValidDateString(dateStr) && st.Corrupt? ==> r.result == Err(Decode)
    ensures ValidDateString(dateStr) && !st.Corrupt? ==>
      var all := LoadList(st, order).result.value;
      && r.result.Ok?
      && IsSubsequence(r.result.value, all)
      && (forall f :: multiset(r.result.value)[f]
                      == if Matches(f, location, dateStr, civil) then multiset(all)[f] else 0)
  {
    if !ValidDateString(dateStr) then Reply(Err(InvalidDate), st)
    else
      var loaded := LoadList(st, order);
      match loaded.result
      case Err(e) => Reply(Err(e), loaded.store)
      case Ok(all) =>
        var p := f => Matches(f, location, dateStr, civil);
        FilterKeepsOrder(all, p);
        Reply(Ok(Filter(all, p)), loaded.store)
  }

  /** What the search means, stated without the text forms: when the
      calendar only produces real dates, a stored flight is found exactly
      when the lower-cased location occurs at some position of a
      lower-cased city and the departure falls on the parsed date. */
  lemma SearchMeaning(st: Stored<Flight>, order: seq<string>, civil: int -> CivilDate,
                      location: string, dateStr: string, f: Flight)
    requires ValidOrder(st, order)
    requires forall t :: ValidCivil(civil(t))
    requires ValidDateString(dateStr) && !st.Corrupt?
    ensures f in SearchFlights(st, order, civil, location, dateStr).result.value <==>
      && f in LoadList(st, order).result.value
      && ((exists i :: OccursAt(ToLower(location), ToLower(f.departureCity), i))
          || (exists i :: OccursAt(ToLower(location), ToLower(f.destinationCity), i)))
      && civil(f.departureTime) == ParseDate(dateStr).value
  {
    var found := SearchFlights(st, order, civil, location, dateStr).result.value;
    var all := LoadList(st, order).result.value;
    assert f in found <==> multiset(found)[f] > 0;
    assert f in all <==> multiset(all)[f] > 0;
    ContainsIff(ToLower(f.departureCity), ToLower(location));
    ContainsIff(ToLower(f.destinationCity), ToLower(location));
    SameDateIffSameText(civil(f.departureTime), dateStr);
  }

  /** Departure times never increase along the sequence. */
  predicate LatestFirst(fs: seq<Flight>) {
    forall i, j :: 0 <= i < j < |fs| ==> fs[i].departureTime >= fs[j].departureTime
  }

  /** Put `x` before the first flight that departs no later than it. */
  function InsertByDeparture(x: Flight, fs: seq<Flight>): (r: seq<Flight>)
    requires LatestFirst(fs)
    ensures LatestFirst(r)
    ensures multiset(r) == multiset(fs) + multiset{x}
    ensures |r| > 0 && (r[0] == x || (|fs| > 0 && r[0] == fs[0]))
    decreases |fs|
  {
    if |fs| == 0 || x.departureTime >= fs[0].departureTime then
      ConsLatestFirst(x, fs);
      [x] + fs
    else
      var rest := InsertByDeparture(x, fs[1..]);
      assert fs == [fs[0]] + fs[1..];
      ConsLatestFirst(fs[0], rest);
      [fs[0]] + rest
  }

  /** A flight departing no earlier than the head of a latest-first
      sequence can go in front of it. */
  lemma ConsLatestFirst(a: Flight, s: seq<Flight>)
    requires LatestFirst(s)
    requires |s| > 0 ==> a.departureTime >= s[0].departureTime
    ensures LatestFirst([a] + s)
  {
    var r := [a] + s;
    forall i, j | 0 <= i < j < |r|
      ensures r[i].departureTime >= r[j].departureTime
    {
      assert r[j] == s[j - 1];
      if i > 0 {
        assert r[i] == s[i - 1];
      }
    }
  }

  /** Flights ordered latest departure first (Go's `sort.Slice` with
      `After`): a permutation of the input, non-increasing in departure
      time. Flights departing at the same instant may come in any order. */
  function SortByDepartureDesc(fs: seq<Flight>): (r: seq<Flight>)
    ensures LatestFirst(r)
    ensures multiset(r) == multiset(fs)
    decreases |fs|
  {
    if |fs| == 0 then []
    else
      assert fs == [fs[0]] + fs[1..];
      InsertByDeparture(fs[0], SortByDepartureDesc(fs[1..]))
  }
}
