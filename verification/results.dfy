/** Failure kinds reported by the flight-management core and the value
    wrappers every operation returns. */
module Results {

  /** The error taxonomy of the core. A wrapped Go error keeps the kind
      of the error it wraps. */
  datatype Error =
    | NotFound          // no flight, reservation or airplane with that key
    | Duplicate         // a flight with that number already exists
    | NoAvailability    // booking against a flight with no seats left
    | AlreadyCheckedIn  // the reservation is already checked in
    | SeatUnavailable   // seat label missing from the seat map, or occupied
    | AlreadyAssigned   // the flight already has crew
    | InvalidDate       // search date is not a valid dd/mm/yyyy date
    | InvalidAirplane   // empty model or non-positive capacity
    | Decode            // stored document readable in neither encoding

  datatype Result<+T> = Ok(value: T) | Err(error: Error)

  datatype Option<+T> = None | Some(value: T)
}
