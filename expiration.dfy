/**
 * `doomsday`: the expiry used for signed read URLs, twenty years from now
 * but never later than 2038-01-18. The storage service's own limit, set by
 * the 32-bit time problem, is 2038-01-20; the code keeps two days short of
 * it.
 *
 * Instants are whole seconds since the Unix epoch. Calendar arithmetic is
 * not modelled: adding twenty years is a function supplied by the caller.
 */
module Expiration {

  /** 2038-01-18T00:00:00, read as UTC. */
  const AwsMaxDate: int := 2147385600

  /** True when `addTwentyYears` never moves a later instant before an earlier one. */
  ghost predicate Monotone(addTwentyYears: int -> int)
  {
    forall a, b :: a <= b ==> addTwentyYears(a) <= addTwentyYears(b)
  }

  /** The earlier of now + 20 years and the ceiling. */
  function Doomsday(now: int, addTwentyYears: int -> int): (expiration: int)
    ensures expiration <= AwsMaxDate
    ensures expiration <= addTwentyYears(now)
    ensures expiration == addTwentyYears(now) || expiration == AwsMaxDate
  {
    var candidate := addTwentyYears(now);
    if candidate > AwsMaxDate then AwsMaxDate else candidate
  }

  /** Up to the ceiling, the expiry is exactly twenty years from now. */
  lemma DoomsdayUnclamped(now: int, addTwentyYears: int -> int)
    requires addTwentyYears(now) <= AwsMaxDate
    ensures Doomsday(now, addTwentyYears) == addTwentyYears(now)
  {
  }

  /** Past the ceiling, the expiry is the ceiling, however far past it is. */
  lemma DoomsdayClamped(now: int, addTwentyYears: int -> int)
    requires addTwentyYears(now) > AwsMaxDate
    ensures Doomsday(now, addTwentyYears) == AwsMaxDate
  {
  }

  /** A later call never yields an earlier expiry. */
  lemma DoomsdayMonotone(now1: int, now2: int, addTwentyYears: int -> int)
    requires Monotone(addTwentyYears)
    requires now1 <= now2
    ensures Doomsday(now1, addTwentyYears) <= Doomsday(now2, addTwentyYears)
  {
    assert addTwentyYears(now1) <= addTwentyYears(now2);
  }
}
