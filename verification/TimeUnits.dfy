/** Units of time. */
module TimeUnits {
  const NS_PER_SECOND := 1_000_000_000
  const SECONDS_PER_DAY := 86_400
}
