/** What both sides of the timer manager share. */
module TimerUnits {

  /** Timer counters are unsigned shorts. */
  const USHORT := 65536

  /** Milliseconds between two ticks. */
  const PRECISION := 5
}
