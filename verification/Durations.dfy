module Durations {
  const NANOS_PER_SECOND: int := 1_000_000_000
  const NANOS_PER_DAY: int := 86_400_000_000_000
  const SECONDS_PER_DAY: int := 86_400
}
