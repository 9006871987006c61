# Flight management core, modelled in Dafny

This project models the core of `golang-airplane`, a console application that manages flights, reservations, crews and airplanes, and proves properties of that model. The core covered here is:

- **Domain entities.**
  - The seat map: `capacity` seats labelled row number plus `A`..`D`, four per row.
  - The `hh:mm` rendering of a flight's duration.
  - The `R%04d` reservation ids, drawn from a counter that lives in the process.
  - The small mutators `AddCrewMember`, `AssignCrew` and `CheckIn`.
- **The two JSON repositories**, for flights and for reservations. Each is modelled as a keyed list:
  - `FindByID` returns the first match.
  - `Save` is an upsert.
  - `Update` replaces a record in place, or fails.
  - The flight repository adds the search by place and date and the latest-first sort.
  - The reservation repository adds the per-flight query.
  - Both normalise a legacy map-shaped document into list form.
- **The two services.**
  - Flight service: adding a flight, search by instant, crew assignment once, latest-first listing.
  - Reservation service: booking, check-in, per-flight listing.
- **Input validation:** the `^F\d{4}$` flight-number check and the departure/arrival window check.
- **The airplane registry:** a map-shaped document with upsert, lookup and listing, and the service that validates new airplanes.

## How the model is built

- **Functional style.** Every repository operation returns `Reply(result, store')`: the Go error or value, plus the document afterwards. The services return `Outcome(result, state')` over a `State` that holds both documents and the reservation-id counter.
- **Documents.** A persisted document is `Stored<T>`, one of four cases:
  - `Missing`: no file, which reads as empty.
  - `ListForm`: the current JSON array.
  - `MapForm`: the legacy JSON object keyed by id.
  - `Corrupt`: decodes in neither form, and every read reports `Decode`.
- **Map iteration order.** Go's order over a legacy map is unspecified, so it is a parameter `order`. The precondition `ValidOrder` requires it to list each key exactly once.
- **Time and calendar.**
  - Times are integer seconds, and `now` is a parameter.
  - The calendar date of an instant is a parameter `civil: int -> CivilDate`. It stands for Go's time zone and calendar arithmetic.
  - Layout `02/01/2006` is modelled exactly, by `Calendar.FormatDate` and `Calendar.ParseDate`.
- **Go integer semantics.** `int(d.Hours())` and `int(d.Minutes()) % 60` are modelled with truncating division and remainder (`Domain.TruncQuot`, `Domain.TruncRem`). `%0wd` is `Text.FmtZeroPad`.
- **Shared repository code.** Both JSON repositories share `Repository`, which is generic over the record type and its key function (flight number, reservation id).
- **Delegating services.** `GetFlight`, `GetReservation`, `GetAirplanes` and `GetAirplaneByID` only call into a repository. Their behaviour is that of `Repository.FindById`, `Airplanes.FindAll` and `Airplanes.FindById`.

Where the code and its on-screen or documented intent differ, the model follows the code:

- The departure must be at least 3 hours ahead, not 24 as the menu text says.
- The search compares the departure date only.
- The latest-first sort has no tie-break.
- The flight service's search turns an instant into `dd/mm/yyyy` text before calling the repository. The repository's "invalid date" error is therefore not unreachable on this path: it is raised exactly when the instant's year lies outside 0..9999, whose text does not have four year digits (`FlightService.SearchFlightsOn`).
- `AddFlight` treats any failed lookup as "no such flight", so an unreadable document is reported by the save that follows.
- A failure reading the airplane registry is returned without writing. A list-shaped registry counts as unreadable, because the registry is always decoded as a map.

## Model

| member | source | states |
|---|---|---|
| Domain.GenerateSeatList | golang-airplane/internal/core/domain/entities.go:62-77 | The loop over rows and letters builds exactly the reference seat map `SeatList(capacity)`. The map has `capacity` entries (none when `capacity <= 0`), and every seat is available. |
| Domain.SeatListShape | golang-airplane/internal/core/domain/entities.go:63-75 | Seat `i` is in the map for every `i < n`, and no label of a higher index is. The size is exactly `n`, so no label overwrites another. Every entry is `true`. |
| Domain.SeatListKeys | golang-airplane/internal/core/domain/entities.go:63-75 | A string is a key of the seat map of `n` seats iff it is the canonical label of a seat index below `n`. |
| Domain.SeatIndexOfLabel | golang-airplane/internal/core/domain/entities.go:68 | The label `decimal(i/4+1)` followed by `"ABCD"[i%4]` reads back as index `i`. |
| Domain.SeatLabelInjective | golang-airplane/internal/core/domain/entities.go:68-75 | Distinct seat indices get distinct labels. |
| Domain.NewFlight | golang-airplane/internal/core/domain/entities.go:45-59 | Capacity and available seats both equal the given count. The crew is empty and the other fields are copied. The seat map has one available entry per seat and covers every seat index. |
| Domain.AddCrewMember | golang-airplane/internal/core/domain/entities.go:80-82 | Appends exactly one crew member at the end, keeps the earlier ones, and changes no other field. |
| Domain.AssignCrew | golang-airplane/internal/core/domain/entities.go:85-87 | Replaces the crew list wholesale and changes no other field. |
| Domain.FormatDuration | golang-airplane/internal/core/domain/entities.go:90-95 | `GetDuration` renders `arrival - departure` this way. For a non-negative duration of `d` seconds the text is the hours field, a colon and a two-digit minutes field. The hours field is exactly two digits below 100 hours and the plain numeral above, and it reads back as `d/3600`. The minutes field reads back as `(d/60)%60`. |
| Domain.NextReservationId | golang-airplane/internal/core/domain/entities.go:159-165 | The counter goes up by exactly one. The id is `R` followed by digits that read back as the new counter value. It has exactly five characters while the counter is below 10000, and from 10000 on the digits are exactly as many as the plain numeral has, with no padding. |
| Domain.ReservationIdsDistinct | golang-airplane/internal/core/domain/entities.go:162-165 | Different counter values give different ids. |
| Domain.IssuedIdsDistinct | golang-airplane/internal/core/domain/entities.go:159-165 | Ids issued by successive generations in one run are pairwise distinct. |
| Domain.NewReservation | golang-airplane/internal/core/domain/entities.go:145-156 | A fresh id from the counter, not checked in, no seat, and the passenger data and flight number as given. |
| Domain.CheckIn | golang-airplane/internal/core/domain/entities.go:168-170 | Sets the checked-in flag and changes no other field. |
| Storage.LoadList | golang-airplane/internal/storage/json/flight_repository.go:71-97 | A list document is returned unchanged. A missing one reads as empty. A legacy map yields its values in iteration order and is rewritten as that list. An unreadable one is a decode error and is left as is. |
| Storage.LoadKeepsLegacyValues | golang-airplane/internal/storage/json/reservation_repository.go:68-94 | Converting a legacy map keeps every value and adds none. |
| Storage.Migrate | golang-airplane/internal/storage/json/flight_repository.go:31-68 | Fails exactly on an unreadable document. It leaves a missing, list or unreadable document alone, and rewrites a legacy map as `LoadList` does. |
| Storage.MigrateIdempotent | golang-airplane/internal/storage/json/reservation_repository.go:28-65 | After one migration the document is never map-shaped, and a second migration, in any order, changes nothing. |
| Storage.MigrateKeepsContents | golang-airplane/internal/storage/json/flight_repository.go:31-68 | Migrating does not change what a later read returns. |
| KeyedList.FindFirst | golang-airplane/internal/storage/json/flight_repository.go:107-113 | The front-to-back scan returns the position of the first element with the key, or reports that no element has it. |
| KeyedList.Upsert | golang-airplane/internal/storage/json/flight_repository.go:155-169 | Replaces the first element with the same key in place, or appends when there is none. |
| KeyedList.Replace | golang-airplane/internal/storage/json/flight_repository.go:182-194 | Fails exactly when no element has the key. Otherwise only the first match's position changes. |
| KeyedList.UpsertKeepsKeysUnique | golang-airplane/internal/storage/json/flight_repository.go:149-173 | If keys were pairwise distinct before a save, they still are after it. |
| KeyedList.FilterKeepsOrder | golang-airplane/internal/storage/json/flight_repository.go:134-143 | The filter result is a subsequence of the input, in stored order. |
| KeyedList.Filter | golang-airplane/internal/storage/json/flight_repository.go:131-145 | Every element of the result satisfies the predicate, and each element occurs as often as in the input if it satisfies the predicate, and not at all otherwise. The reservation query (reservation_repository.go:114-130) is the same loop. |
| KeyedList.FilterMembership | golang-airplane/internal/storage/json/reservation_repository.go:114-130 | An element is in the filter result iff it is in the input and satisfies the predicate. |
| Repository.FindById | golang-airplane/internal/storage/json/flight_repository.go:100-114 | Returns the first record with the key, or not-found when none matches, or a decode error for an unreadable document. The document is left as `LoadList` leaves it. |
| Repository.Save | golang-airplane/internal/storage/json/reservation_repository.go:133-157 | An unreadable document gives an error and no write. Otherwise the result is in list form and is the upsert of the record into the stored list. |
| Repository.Update | golang-airplane/internal/storage/json/reservation_repository.go:160-182 | Succeeds iff the key is stored. On success it replaces exactly the first match and keeps the length. On failure it returns not-found and writes nothing beyond the normalisation. |
| Repository.SaveThenFind | golang-airplane/internal/storage/json/flight_repository.go:149-173 | After a save, a lookup of the record's key returns that record. |
| Repository.SaveKeepsOthers | golang-airplane/internal/storage/json/flight_repository.go:149-173 | A save leaves the lookup of every other key unchanged. |
| Repository.UpdateIsSaveOfPresentKey | golang-airplane/internal/storage/json/flight_repository.go:176-198 | A successful update writes what a save would write. Where an update fails, a save would have appended. |
| Repository.UpdateThenFind | golang-airplane/internal/storage/json/reservation_repository.go:160-182 | After a successful update, the key finds the new record and every other key finds what it found before. |
| FlightRepository.SearchFlights | golang-airplane/internal/storage/json/flight_repository.go:117-146 | A bad date text is rejected before the document is read, and nothing is written. Otherwise the result is an in-order subsequence of the stored flights. Each flight occurs as often as stored if it matches the criterion, and not at all otherwise. |
| FlightRepository.SearchMeaning | golang-airplane/internal/storage/json/flight_repository.go:132-142 | A stored flight is found iff the lower-cased location occurs in a lower-cased city and the departure's calendar date is the parsed date. |
| FlightRepository.SortByDepartureDesc | golang-airplane/internal/storage/json/flight_repository.go:201-205 | A permutation of the input whose departure times never increase. |
| ReservationRepository.FindByFlightNumber | golang-airplane/internal/storage/json/reservation_repository.go:114-130 | An in-order subsequence of the stored reservations. Each reservation occurs as often as stored if it is booked on the flight, and not at all otherwise. |
| ReservationRepository.FlightQueryMembership | golang-airplane/internal/storage/json/reservation_repository.go:114-130 | A reservation is in the result iff it is stored and booked on that flight. |
| ReservationRepository.FlightQueriesPartition | golang-airplane/internal/storage/json/reservation_repository.go:114-130 | Queries for different flights share no reservation, and every stored reservation is found by the query for its own flight. |
| FlightService.AddFlight | golang-airplane/internal/components/flight/service.go:26-46 | A taken number is refused and nothing is written beyond the normalisation. Otherwise exactly `NewFlight(...)` is appended after the untouched existing flights. |
| FlightService.AddThenGet | golang-airplane/internal/components/flight/service.go:26-51 | A flight just added is what a lookup of its number returns, and adding it again is refused with nothing changed. |
| FlightService.SearchFlightsOn | golang-airplane/internal/components/flight/service.go:54-57 | The invalid-date error arises exactly when the instant's year lies outside 0..9999, and then nothing is written. |
| FlightService.SearchOnSameDay | golang-airplane/internal/components/flight/service.go:54-57 | A stored flight is found iff a city contains the location, ignoring ASCII case, and it departs on the same calendar day as the given instant. |
| FlightService.AssignCrewTo | golang-airplane/internal/components/flight/service.go:60-77 | Unknown flight: not-found. Flight with crew: refused, nothing written. Otherwise only that flight's crew list is replaced; its seats, counts and times and all other flights stay as they were. |
| FlightService.CrewAssignedOnce | golang-airplane/internal/components/flight/service.go:67-70 | After a non-empty crew is assigned, every later assignment to that flight is refused and writes nothing. |
| FlightService.ListAllFlights | golang-airplane/internal/components/flight/service.go:80-91 | A permutation of the stored flights with non-increasing departure times. |
| ReservationService.SellSeat | golang-airplane/internal/components/flight/reservation_service.go:46 | The free-seat count goes down by exactly one, and no other field changes. |
| ReservationService.BookFlight | golang-airplane/internal/components/flight/reservation_service.go:24-53 | Unknown flight: not-found. No seats left: refused. In both cases the reservations and the counter are untouched. An unreadable reservation document is reported after the counter has advanced. Otherwise the new reservation is upserted under a fresh id from the counter. That flight alone loses exactly one free seat; its seat map and all other flights are unchanged. |
| ReservationService.CheckInSeat | golang-airplane/internal/components/flight/reservation_service.go:61-104 | Refused with nothing written for an unknown reservation, one already checked in, a missing flight, or a seat that is absent or taken. Otherwise exactly the chosen seat becomes occupied, the free-seat count is unchanged, and exactly that reservation gets the seat and the flag. |
| ReservationService.SecondCheckInFails | golang-airplane/internal/components/flight/reservation_service.go:68-71 | After a successful check-in, checking the same reservation in again, on any seat, is refused and changes nothing. |
| ReservationService.SeatGivenOnce | golang-airplane/internal/components/flight/reservation_service.go:79-85 | After a check-in on a seat, no reservation of the same flight can be checked in on that seat. |
| ReservationService.CheckInKeepsReservationIds | golang-airplane/internal/components/flight/reservation_service.go:93-98 | A check-in keeps the number of reservations and the id at every position. |
| ReservationService.GetReservationsForFlight | golang-airplane/internal/components/flight/reservation_service.go:107-116 | Unknown flight: not-found. Otherwise the result is exactly that of `FindByFlightNumber`: the stored reservations booked on that flight, in stored order. |
| ReservationIds.ResumeCounter | golang-airplane/internal/core/domain/entities.go:158-165 | The largest number among the stored `R` ids, or 0. It is at least every stored id's number and is itself one of them. |
| ReservationIds.StartState | golang-airplane/internal/core/domain/entities.go:158-165 | Starting the counter from the stored ids puts it ahead of every stored id. |
| ReservationIds.BookingAppendsWhenAhead | golang-airplane/internal/components/flight/reservation_service.go:36-43 | With the counter ahead, a booking appends its reservation after the stored ones, and the counter stays ahead whatever the outcome. |
| ReservationIds.CheckInKeepsIdsAhead | golang-airplane/internal/components/flight/reservation_service.go:93-98 | A check-in keeps the counter ahead of the stored ids. |
| ReservationIds.RestartOverwritesReservation | golang-airplane/internal/core/domain/entities.go:159-165 | As written, a fresh run's first booking replaces a stored reservation with id `R0001` instead of adding one. |
| ReservationIds.ResumeKeepsEarlierReservation | golang-airplane/internal/storage/json/reservation_repository.go:133-157 | From the corrected start, the same booking keeps the earlier reservation and adds the new one after it. |
| Validation.MatchesAnchoredIff | golang-airplane/internal/utils/validation.go:26-27 | An anchored, repetition-free pattern matches iff the lengths agree and every character matches its atom. |
| Validation.ValidateFlightNumber | golang-airplane/internal/utils/validation.go:25-28 | The anchored match of `^F\d{4}$` holds iff the text has five characters, starts with `F`, and the other four are ASCII digits. |
| Validation.FlightNumberRoundTrip | golang-airplane/internal/utils/validation.go:25-28 | Every number below 10000, padded to four digits after `F`, is a valid flight number and reads back. |
| Validation.ValidateDates | golang-airplane/internal/utils/validation.go:31-58 | The three checks in order accept iff the departure is at least three hours after `now` and the arrival is between 30 minutes and 24 hours after the departure, both ends included. |
| Validation.ValidateDatesBoundaries | golang-airplane/internal/utils/validation.go:35-56 | Exactly three hours' lead, exactly 30 minutes and exactly 24 hours are accepted. One second less lead, one second shorter or one second longer is refused. |
| Validation.ValidatedDurationShape | golang-airplane/internal/utils/validation.go:47-56 | A flight that passes the check shows its duration as exactly `hh:mm`, with at most 24 hours. |
| Airplanes.LoadMap | golang-airplane/internal/components/airplane/repository.go:29-35 | A missing registry reads as empty and a map-shaped one as its map. A list-shaped or unreadable one is a decode error. |
| Airplanes.Save | golang-airplane/internal/components/airplane/repository.go:28-42 | An unreadable registry gives an error and no write. Otherwise the id maps to the airplane, every other id keeps its entry, and the size grows by one only for a new id. |
| Airplanes.FindById | golang-airplane/internal/components/airplane/repository.go:45-58 | The stored airplane when the id is present, not-found otherwise. |
| Airplanes.FindAll | golang-airplane/internal/components/airplane/repository.go:61-75 | A missing registry gives no airplanes. Otherwise position `i` holds the airplane of the `i`-th id in the map's iteration order, so there is one airplane per id and exactly the registry's values appear. |
| Airplanes.SaveThenFind | golang-airplane/internal/components/airplane/repository.go:28-58 | After a save the airplane is found under its id, and every other id finds what it found before. |
| Airplanes.AddAirplane | golang-airplane/internal/components/airplane/service.go:20-32 | An empty model or a capacity of zero or less is refused with nothing stored. Otherwise, when the registry reads, an airplane with exactly the given id, model and capacity is found under the id. Every other id finds what it found before, and the registry grows by one exactly when the id was new. An unreadable registry is reported with nothing written. |
| Calendar.FormatThenParse | golang-airplane/internal/storage/json/flight_repository.go:119-122 | A real date of years 0..9999, written as `dd/mm/yyyy`, parses back to itself. |
| Calendar.ParseDate | golang-airplane/internal/storage/json/flight_repository.go:119-122 | Whatever parses with layout `02/01/2006` is a real date of years 0..9999, and formatting it gives the text back. |
| Calendar.FormatDate | golang-airplane/internal/storage/json/flight_repository.go:137 | When day, month and year fit their widths, the text is exactly `dd/mm/yyyy` and each field reads back as the date's day, month and year. |
| Calendar.SameDateIffSameText | golang-airplane/internal/storage/json/flight_repository.go:137-140 | Comparing `dd/mm/yyyy` texts compares calendar dates. |
| Text.ContainsIff | golang-airplane/internal/storage/json/flight_repository.go:139 | The scan succeeds iff the substring occurs at some position. |
| Text.PaddedReadsBack | golang-airplane/internal/core/domain/entities.go:94 | A zero-padded decimal numeral reads back as its number. |

## Left out

- File I/O, JSON encoding and decoding as bytes, directory creation and the storage mutex. A document is the abstract `Stored` value, and every write is assumed to succeed.
- Write failures partway through `BookFlight` and `CheckIn`. The write order is modelled (the reservation before the flight when booking, the flight before the reservation when checking in), but a failing second write is not.
- JSON `null` entries inside a stored list or map. Records are never null in the model.
- `ReservationTime`: the wall-clock stamp is not part of the reservation record.
- Unicode case folding: `strings.ToLower` is modelled for ASCII letters only.
- Time zones, calendar arithmetic and sub-second precision. The calendar date of an instant is the parameter `civil`, and times are whole seconds.
- Go's `time.Duration` limits and its conversion through floating point in `Hours()` and `Minutes()`. These agree with integer division for whole-second durations well inside int64, and integers are unbounded in the model.
- The order of equal departure times after sorting. `sort.Slice` is not stable, and the model only states that the result is a permutation in non-increasing order.
- `cmd/app/main.go` (menus, prompts, tables, the seat display and the crew-composition rule of the crew prompt), the `String` and boarding-pass renderings, the prompt helpers of `validation.go`, and `utils/loadsavedata.go`. These are terminal or file I/O.
- `components/flight/repository.go` and `core/ports`: stubs and interface declarations with no behaviour.
- Service behaviours stated up to normalisation. Where the services promise that a store does not change, the model states that it is unchanged except that a legacy map-shaped document has been rewritten in list form. The Go code performs that rewrite on every read.
- FlightService.SearchFlightsOn: requires the calendar date of the instant to be a real date, which every calendar produces. Its contract states only when the date error arises; the results otherwise are those of `FlightRepository.SearchFlights`, related by `FlightService.SearchOnSameDay`.
- `time.Now()` in `ValidateDates` is the parameter `now`, and the messages it prints are left out.

## Findings

| source | as written | input that shows it | evidently intended | confidence | as-written member | corrected member |
|---|---|---|---|---|---|---|
| golang-airplane/internal/core/domain/entities.go:159-165 | The reservation-id counter starts at 0 in every run, while reservations persist in the document. The first booking of a new run gets `R0001` again, and the repository's upsert replaces the stored reservation with that id. | A document holding one reservation with id `R0001` from an earlier run, a stored flight with a free seat, and a fresh run that books that flight. | Ids stay unique across runs: the counter resumes after the largest stored id, so the booking is added and the earlier reservation kept. | not executed | ReservationIds.RestartOverwritesReservation | ReservationIds.ResumeKeepsEarlierReservation |
