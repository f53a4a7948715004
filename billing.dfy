/** Time-based billing of a released reservation.
    Durations are whole seconds and prices are integer amounts (for example
    cents), so the rounding up to full hours is exact integer arithmetic. */
module Billing {

  const SecondsPerHour: int := 3600

  /** Billed hours for a parking duration of `secs` seconds: the duration
      rounded up to the next whole hour. Dafny's `/` floors for a positive
      divisor, so this is the ceiling for every integer, negative durations
      included (a clock that went backwards), exactly as a ceiling on the
      real quotient behaves. */
  function BilledHours(secs: int): (h: int)
    ensures (h - 1) * SecondsPerHour < secs <= h * SecondsPerHour
  {
    (secs + SecondsPerHour - 1) / SecondsPerHour
  }

  /** What a stay of `secs` seconds costs at `pricePerHour` per started hour. */
  function ParkingCost(secs: int, pricePerHour: int): (c: int)
    ensures secs == 0 ==> c == 0
    ensures 0 < secs <= SecondsPerHour ==> c == pricePerHour
  {
    BilledHours(secs) * pricePerHour
  }

  /** The ceiling is the only integer bracketing the duration: any `h` with
      (h - 1) hours < secs <= h hours is the billed number of hours. */
  lemma BilledHoursUnique(secs: int, h: int)
    requires (h - 1) * SecondsPerHour < secs <= h * SecondsPerHour
    ensures BilledHours(secs) == h
  {
  }

  /** The cost is the price times the whole number of hours that brackets the
      stay. */
  lemma {:induction false} ParkingCostOfBracket(secs: int, h: int, pricePerHour: int)
    requires (h - 1) * SecondsPerHour < secs <= h * SecondsPerHour
    ensures ParkingCost(secs, pricePerHour) == h * pricePerHour
  {
    BilledHoursUnique(secs, h);
  }

  /** Billing in whole minutes, as the handler first converts the duration to
      minutes and then takes the ceiling of minutes / 60. */
  lemma MinutesRoundUpToHours(minutes: int)
    ensures BilledHours(minutes * 60) == (minutes + 59) / 60
  {
    var h := (minutes + 59) / 60;
    BilledHoursUnique(minutes * 60, h);
  }

  /** A longer stay is never billed fewer hours. */
  lemma BilledHoursMonotone(s1: int, s2: int)
    requires s1 <= s2
    ensures BilledHours(s1) <= BilledHours(s2)
  {
  }

  /** The worked examples: 61 minutes at 10 costs 2 hours = 20; 30 minutes at
      5 costs one hour = 5; a zero-length stay costs nothing. */
  lemma WorkedExamples()
    ensures BilledHours(61 * 60) == 2 && ParkingCost(61 * 60, 10) == 20
    ensures BilledHours(30 * 60) == 1 && ParkingCost(30 * 60, 5) == 5
    ensures BilledHours(0) == 0 && ParkingCost(0, 10) == 0
  {
  }
}
