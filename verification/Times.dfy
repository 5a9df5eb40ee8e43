/** Units of time, in microseconds. */
module Times {
  const SECOND := 1_000_000
  const HOUR := 3_600_000_000
  const DAY := 86_400_000_000

  /** A day has 24 hours of 3600 seconds, and times are microseconds. */
  lemma UnitsAre()
    ensures SECOND == 1_000_000 && HOUR == 3600 * SECOND && DAY == 24 * HOUR == 86400 * SECOND
  {
  }
}
