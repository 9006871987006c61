/** Input checks applied before a flight is created: the flight number
    format and the departure/arrival window. */
module Validation {
  import opened Text
  import opened Domain

  /** One position of an anchored regular expression without repetition. */
  datatype Atom = Lit(c: char) | AnyDigit

  predicate AtomMatches(a: Atom, c: char) {
    match a
    case Lit(x) => c == x
    case AnyDigit => IsDigit(c)   // RE2's `\d` is ASCII only
  }

  /** Anchored match (`^...$`, no multi-line mode): the whole text, one
      character per atom. */
  predicate MatchesAnchored(p: seq<Atom>, s: string)
    decreases |p|
  {
    |p| == |s| && (|p| == 0 || (AtomMatches(p[0], s[0]) && MatchesAnchored(p[1..], s[1..])))
  }

  /** The pattern `^F\d{4}$`. */
  const FlightNumberPattern: seq<Atom> := [Lit('F'), AnyDigit, AnyDigit, AnyDigit, AnyDigit]

  /** The `^F\d{4}$` check: valid exactly when the text is "F" and four
      decimal digits, nothing more. */
  function ValidateFlightNumber(flightNumber: string): (ok: bool)
    ensures ok <==> |flightNumber| == 5 && flightNumber[0] == 'F' && AllDigits(flightNumber[1..])
  {
    MatchesAnchoredIff(FlightNumberPattern, flightNumber);
    assert |flightNumber| == 5 ==> forall i :: 1 <= i < 5 ==> flightNumber[1..][i - 1] == flightNumber[i];
    MatchesAnchored(FlightNumberPattern, flightNumber)
  }

  /** An anchored match holds exactly when the lengths agree and every
      character matches the atom at its position. */
  lemma {:induction false} MatchesAnchoredIff(p: seq<Atom>, s: string)
    ensures MatchesAnchored(p, s) <==>
      |p| == |s| && forall i :: 0 <= i < |p| ==> AtomMatches(p[i], s[i])
    decreases |p|
  {
    if |p| > 0 && |p| == |s| {
      MatchesAnchoredIff(p[1..], s[1..]);
      assert forall i :: 1 <= i < |p| ==> p[1..][i - 1] == p[i] && s[1..][i - 1] == s[i];
    }
  }

  /** Every number 0..9999, padded to four digits after "F", is a valid
      flight number whose digits read back as the number. */
  lemma FlightNumberRoundTrip(n: nat)
    requires n < 10000
    ensures ValidateFlightNumber("F" + ZeroPad(Digits(n), 4))
    ensures ParseDigits(("F" + ZeroPad(Digits(n), 4))[1..]) == n
  {
    var s := "F" + ZeroPad(Digits(n), 4);
    assert Pow10(4) == 10000;
    PaddedWidth(n, 4);
    PaddedReadsBack(n, 4);
    assert s[1..] == ZeroPad(Digits(n), 4);
  }

  const MinLeadSeconds: int := 3 * 3600
  const MinDurationSeconds: int := 30 * 60
  const MaxDurationSeconds: int := 24 * 3600

  /** Departure at least three hours after `now`, arrival strictly after
      departure, and a duration between 30 minutes and 24 hours, both
      ends included: one accepted range for each time. */
  function ValidateDates(now: int, departureTime: int, arrivalTime: int): (ok: bool)
    ensures ok <==>
      && now + 10800 <= departureTime
      && departureTime + 1800 <= arrivalTime <= departureTime + 86400
  {
    if departureTime < now + MinLeadSeconds then false
    else if arrivalTime <= departureTime then false
    else
      var duration := arrivalTime - departureTime;
      !(duration < MinDurationSeconds || duration > MaxDurationSeconds)
  }

  /** The boundaries: exactly three hours ahead, exactly 30 minutes and
      exactly 24 hours are accepted; one second less lead, one second
      shorter or one second longer is rejected. */
  lemma ValidateDatesBoundaries(now: int)
    ensures ValidateDates(now, now + 10800, now + 10800 + 1800)
    ensures ValidateDates(now, now + 10800, now + 10800 + 86400)
    ensures !ValidateDates(now, now + 10799, now + 10799 + 3600)
    ensures !ValidateDates(now, now + 10800, now + 10800 + 1799)
    ensures !ValidateDates(now, now + 10800, now + 10800 + 86401)
  {
  }

  /** A flight whose times pass the check shows its duration as exactly
      "hh:mm" with at most 24 hours. */
  lemma ValidatedDurationShape(now: int, f: Flight)
    requires ValidateDates(now, f.departureTime, f.arrivalTime)
    ensures |GetDuration(f)| == 5
    ensures GetDuration(f)[2] == ':'
    ensures AllDigits(GetDuration(f)[..2]) && ParseDigits(GetDuration(f)[..2]) <= 24
  {
    var d := f.arrivalTime - f.departureTime;
    var s := FormatDuration(d);
    assert |s[..|s| - 3]| == 2;
    assert s[..2] == s[..|s| - 3];
  }
}
