/** The domain records (airplane, crew, flight, reservation) and their
    small operations: seat-map generation, duration rendering,
    reservation identifiers, crew assignment and the check-in flag. */
module Domain {
  import opened Text
  import opened Results

  datatype Airplane = Airplane(id: string, model: string, capacity: int)

  datatype Crew = Crew(name: string, position: string)

  /** A flight. Times are whole seconds on one clock; the seat map sends
      a seat label to true (available) or false (occupied). */
  datatype Flight = Flight(
    flightNumber: string,
    departureCity: string,
    destinationCity: string,
    departureTime: int,
    arrivalTime: int,
    flightCapacity: int,
    availableSeat: int,
    crewMembers: seq<Crew>,
    seatList: map<string, bool>)

  /** A booking. An empty `seatLocation` means no seat assigned yet. */
  datatype Reservation = Reservation(
    reservationId: string,
    name: string,
    address: string,
    phoneNumber: int,
    identityCardNumber: int,
    reservationFlightNumber: string,
    seatLocation: string,
    checkedIn: bool)

  // ---------------------------------------------------------------------
  // Seat labels
  // ---------------------------------------------------------------------

  const SeatLetters: string := "ABCD"

  /** The label of the seat with 0-based index `i`: row `i/4 + 1` in
      decimal followed by the letter A, B, C or D. */
  function SeatLabel(i: nat): string {
    Digits(i / 4 + 1) + [SeatLetters[i % 4]]
  }

  function LetterIndex(c: char): Option<nat> {
    if c == 'A' then Some(0)
    else if c == 'B' then Some(1)
    else if c == 'C' then Some(2)
    else if c == 'D' then Some(3)
    else None
  }

  /** Reads a seat label back into the seat index it names. */
  function SeatIndex(seat: string): Option<nat> {
    if |seat| >= 2 && AllDigits(seat[..|seat| - 1]) && LetterIndex(seat[|seat| - 1]).Some? then
      var row := ParseDigits(seat[..|seat| - 1]);
      if row >= 1 then Some((row - 1) * 4 + LetterIndex(seat[|seat| - 1]).value) else None
    else None
  }

  /** `seat` is the canonical label of one of the first `n` seats. */
  predicate IsSeatLabel(seat: string, n: int) {
    var idx := SeatIndex(seat);
    idx.Some? && idx.value < n && SeatLabel(idx.value) == seat
  }

  /** Every seat label reads back as its own index. */
  lemma SeatIndexOfLabel(i: nat)
    ensures SeatIndex(SeatLabel(i)) == Some(i)
  {
    var seat := SeatLabel(i);
    assert seat[..|seat| - 1] == Digits(i / 4 + 1);
    ParseDigitsOfDigits(i / 4 + 1);
  }

  /** Distinct seat indices get distinct labels. */
  lemma SeatLabelInjective(i: nat, j: nat)
    requires i != j
    ensures SeatLabel(i) != SeatLabel(j)
  {
    SeatIndexOfLabel(i);
    SeatIndexOfLabel(j);
  }

  /** The seat map of a flight with `n` seats: the labels of seats
      0..n-1, each available. A non-positive `n` gives no seats. */
  function SeatList(n: int): map<string, bool>
    decreases n
  {
    if n <= 0 then map[] else SeatList(n - 1)[SeatLabel(n - 1) := true]
  }

  /** The seat map has one entry per seat, every seat of index below `n`
      and none above, all available: no label overwrites another. */
  lemma {:induction false} SeatListShape(n: int)
    ensures |SeatList(n)| == if n < 0 then 0 else n
    ensures forall i :: 0 <= i < n ==> SeatLabel(i) in SeatList(n)
    ensures forall j: nat :: n <= j ==> SeatLabel(j) !in SeatList(n)
    ensures forall k :: k in SeatList(n) ==> SeatList(n)[k]
    decreases n
  {
    if n > 0 {
      SeatListShape(n - 1);
      forall j: nat | n <= j
        ensures SeatLabel(j) != SeatLabel(n - 1)
      {
        SeatLabelInjective(j, n - 1);
      }
    }
  }

  /** The seat map holds exactly the canonical labels of seats 0..n-1. */
  lemma {:induction false} SeatListKeys(n: int, k: string)
    ensures k in SeatList(n) <==> IsSeatLabel(k, n)
    decreases n
  {
    if n > 0 {
      SeatListKeys(n - 1, k);
      IsSeatLabelStep(n, k);
    }
  }

  /** The labels of the first `n` seats are those of the first `n - 1`
      and the label of seat `n - 1`. */
  lemma IsSeatLabelStep(n: int, k: string)
    requires n > 0
    ensures IsSeatLabel(k, n) <==> IsSeatLabel(k, n - 1) || k == SeatLabel(n - 1)
  {
    var idx := SeatIndex(k);
    if k == SeatLabel(n - 1) {
      SeatIndexOfLabel(n - 1);
    } else if idx.Some? && idx.value == n - 1 {
      assert !IsSeatLabel(k, n);
    }
  }

  /** The seat-map loop as written: a row counter and a letter counter
      that wraps after D. It builds exactly `SeatList(capacity)`. */
  method GenerateSeatList(capacity: int) returns (seats: map<string, bool>)
    ensures seats == SeatList(capacity)
    ensures |seats| == if capacity < 0 then 0 else capacity
    ensures forall k :: k in seats ==> seats[k]
  {
    seats := map[];
    var row := 1;
    var seatIndex := 0;
    var i := 0;
    while i < capacity
      invariant 0 <= i && (i <= capacity || i == 0)
      invariant 1 <= row && 0 <= seatIndex < 4
      invariant i == (row - 1) * 4 + seatIndex
      invariant seats == SeatList(i)
    {
      var seatNumber := Digits(row) + [SeatLetters[seatIndex]];
      SeatListStep(seats, row, seatIndex, i);
      seats := seats[seatNumber := true];
      seatIndex := seatIndex + 1;
      if seatIndex >= |SeatLetters| {
        seatIndex := 0;
        row := row + 1;
      }
      i := i + 1;
    }
    SeatListShape(capacity);
  }

  lemma SplitSeatIndex(q: nat, r: nat)
    requires r < 4
    ensures (q * 4 + r) / 4 == q && (q * 4 + r) % 4 == r
  {
  }

  /** The loop's row and letter counters name the seat they stand at. */
  lemma CountersNameSeat(row: nat, seatIndex: nat, i: nat)
    requires 1 <= row && seatIndex < 4
    requires i == (row - 1) * 4 + seatIndex
    ensures Digits(row) + [SeatLetters[seatIndex]] == SeatLabel(i)
  {
    SplitSeatIndex(row - 1, seatIndex);
  }

  /** One iteration of the loop turns the map for `i` seats into the
      map for `i + 1` seats. */
  lemma SeatListStep(seats: map<string, bool>, row: nat, seatIndex: nat, i: nat)
    requires 1 <= row && seatIndex < 4
    requires i == (row - 1) * 4 + seatIndex
    requires seats == SeatList(i)
    ensures seats[Digits(row) + [SeatLetters[seatIndex]] := true] == SeatList(i + 1)
  {
    CountersNameSeat(row, seatIndex, i);
  }

  // ---------------------------------------------------------------------
  // Flights
  // ---------------------------------------------------------------------

  /** A new flight: capacity and available seats both `seats`, no crew,
      a fresh seat map, the remaining fields as given. */
  function NewFlight(
    flightNumber: string, departureCity: string, destinationCity: string,
    departureTime: int, arrivalTime: int, seats: int): (f: Flight)
    ensures f.flightCapacity == seats && f.availableSeat == seats
    ensures f.crewMembers == []
    ensures f.flightNumber == flightNumber
    ensures f.departureCity == departureCity && f.destinationCity == destinationCity
    ensures f.departureTime == departureTime && f.arrivalTime == arrivalTime
    ensures |f.seatList| == if seats < 0 then 0 else seats
    ensures forall i :: 0 <= i < seats ==> SeatLabel(i) in f.seatList
    ensures forall k :: k in f.seatList ==> f.seatList[k]
  {
    SeatListShape(seats);
    Flight(flightNumber, departureCity, destinationCity, departureTime, arrivalTime,
           seats, seats, [], SeatList(seats))
  }

  /** Appends one crew member; nothing else about the flight changes. */
  function AddCrewMember(f: Flight, c: Crew): (r: Flight)
    ensures |r.crewMembers| == |f.crewMembers| + 1
    ensures r.crewMembers[..|f.crewMembers|] == f.crewMembers
    ensures r.crewMembers[|f.crewMembers|] == c
    ensures r.(crewMembers := f.crewMembers) == f
  {
    f.(crewMembers := f.crewMembers + [c])
  }

  /** Replaces the crew list wholesale; nothing else changes. */
  function AssignCrew(f: Flight, crew: seq<Crew>): (r: Flight)
    ensures r.crewMembers == crew
    ensures r.(crewMembers := f.crewMembers) == f
  {
    f.(crewMembers := crew)
  }

  /** Go's integer conversion of a quotient: truncation toward zero. */
  function TruncQuot(a: int, b: int): int
    requires b > 0
  {
    if a >= 0 then a / b else -((-a) / b)
  }

  /** Go's `%`: the remainder takes the sign of the dividend. */
  function TruncRem(a: int, b: int): int
    requires b > 0
  {
    a - b * TruncQuot(a, b)
  }

  /** The flight duration as "%02d:%02d" of whole hours and the minutes
      past the hour. */
  function GetDuration(f: Flight): string {
    FormatDuration(f.arrivalTime - f.departureTime)
  }

  /** `s` is the duration text of `d` seconds: the hours field, exactly
      two digits below 100 hours and the plain numeral above, reading back
      as the whole hours; a colon; and exactly two digits reading back as
      the minutes past the hour. */
  predicate IsDurationText(d: nat, s: string) {
    && |s| >= 5
    && s[|s| - 3] == ':'
    && |s[..|s| - 3]| == (if d / 3600 < 100 then 2 else |Digits(d / 3600)|)
    && AllDigits(s[..|s| - 3]) && ParseDigits(s[..|s| - 3]) == d / 3600
    && AllDigits(s[|s| - 2..]) && ParseDigits(s[|s| - 2..]) == (d / 60) % 60
  }

  /** A duration of `d` seconds in the "%02d:%02d" form of whole hours and
      minutes past the hour, each truncated toward zero. For a
      non-negative duration the text reads back field by field. */
  function FormatDuration(d: int): (s: string)
    ensures d >= 0 ==> IsDurationText(d, s)
  {
    DurationText(d);
    FmtZeroPad(TruncQuot(d, 3600), 2) + ":" + FmtZeroPad(TruncRem(TruncQuot(d, 60), 60), 2)
  }

  /** The fields of the duration text for `d >= 0`. */
  lemma DurationText(d: int)
    ensures d >= 0 ==>
      IsDurationText(d, FmtZeroPad(TruncQuot(d, 3600), 2) + ":" + FmtZeroPad(TruncRem(TruncQuot(d, 60), 60), 2))
  {
    if d >= 0 {
      var h, m := d / 3600, (d / 60) % 60;
      var hh, mm := ZeroPad(Digits(h), 2), ZeroPad(Digits(m), 2);
      DurationFields(d);
      assert FmtZeroPad(TruncQuot(d, 3600), 2) + ":" + FmtZeroPad(TruncRem(TruncQuot(d, 60), 60), 2) == hh + ":" + mm;
      assert Pow10(2) == 100;
      PaddedReadsBack(h, 2);
      PaddedReadsBack(m, 2);
      PaddedWidth(m, 2);
      if h < 100 {
        PaddedWidth(h, 2);
      } else {
        DigitsLengthAtLeast(h, 2);
      }
      SplitAtColon(hh, mm);
    }
  }

  /** For a non-negative duration Go's truncating division agrees with
      Dafny's, and the minutes past the hour are below 60. */
  lemma DurationFields(d: int)
    requires d >= 0
    ensures TruncQuot(d, 3600) == d / 3600
    ensures TruncRem(TruncQuot(d, 60), 60) == (d / 60) % 60 < 60
  {
  }

  /** The two sides of "a:b" with a two-character `b` are found again
      from the end of the text. */
  lemma SplitAtColon(a: string, b: string)
    requires |b| == 2
    ensures var s := a + ":" + b;
      s[|s| - 3] == ':' && s[..|s| - 3] == a && s[|s| - 2..] == b
  {
  }

  // ---------------------------------------------------------------------
  // Reservations
  // ---------------------------------------------------------------------

  /** One step of the process-wide identifier counter: the counter goes
      up by one and the identifier is "R" and the new value, zero-padded
      to four digits and otherwise the plain numeral. */
  function NextReservationId(counter: nat): (r: (nat, string))
    ensures r.0 == counter + 1
    ensures |r.1| >= 5 && r.1[0] == 'R'
    ensures AllDigits(r.1[1..]) && ParseDigits(r.1[1..]) == r.0
    ensures r.0 < 10000 ==> |r.1| == 5
    ensures r.0 >= 10000 ==> |r.1| == 1 + |Digits(r.0)|
  {
    var c := counter + 1;
    PaddedReadsBack(c, 4);
    assert Pow10(4) == 10000;
    assert |ZeroPad(Digits(c), 4)| == if c < 10000 then 4 else |Digits(c)| by {
      if c < 10000 {
        PaddedWidth(c, 4);
      } else {
        DigitsLengthAtLeast(c, 4);
      }
    }
    (c, "R" + FmtZeroPad(c, 4))
  }

  /** Two different counter values never yield the same identifier. */
  lemma ReservationIdsDistinct(a: nat, b: nat)
    requires a != b
    ensures NextReservationId(a).1 != NextReservationId(b).1
  {
  }

  /** The identifiers handed out by `k` successive generations starting
      from counter value `counter`. */
  function IssuedIds(counter: nat, k: nat): seq<string> {
    seq(k, i requires 0 <= i < k => NextReservationId(counter + i).1)
  }

  /** Identifiers issued within one process run are pairwise distinct. */
  lemma IssuedIdsDistinct(counter: nat, k: nat)
    ensures forall i, j :: 0 <= i < j < k ==> IssuedIds(counter, k)[i] != IssuedIds(counter, k)[j]
  {
    forall i, j | 0 <= i < j < k
      ensures IssuedIds(counter, k)[i] != IssuedIds(counter, k)[j]
    {
      ReservationIdsDistinct(counter + i, counter + j);
    }
  }

  /** A new reservation: a fresh identifier from the counter, not checked
      in, no seat, the passenger data and flight number as given. */
  function NewReservation(
    counter: nat, name: string, address: string,
    phoneNumber: int, identityCardNumber: int, flightNumber: string): (r: (nat, Reservation))
    ensures r.0 == counter + 1
    ensures r.1.reservationId == NextReservationId(counter).1
    ensures !r.1.checkedIn && r.1.seatLocation == ""
    ensures r.1.name == name && r.1.address == address
    ensures r.1.phoneNumber == phoneNumber && r.1.identityCardNumber == identityCardNumber
    ensures r.1.reservationFlightNumber == flightNumber
  {
    var (next, id) := NextReservationId(counter);
    (next, Reservation(id, name, address, phoneNumber, identityCardNumber, flightNumber, "", false))
  }

  /** Marks a reservation checked in; no other field changes. */
  function CheckIn(r: Reservation): (r': Reservation)
    ensures r'.checkedIn
    ensures r'.(checkedIn := r.checkedIn) == r
  {
    r.(checkedIn := true)
  }
}
