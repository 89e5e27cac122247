/** The fatal conditions of the clock. The Rust code panics on each of them
    (a failed assertion, an `expect`, an explicit `panic!`, an overflow check in
    `Duration::new`, or an integer division by zero); the model returns them as
    values so that callers can see exactly which inputs abort. */
module Panics {

  datatype Reason =
    | ClockGettimeFailed(status: int)   // `clock_gettime` returned a non-zero status
    | SecondsDoNotFitU64                // `tv_sec.try_into::<u64>()` failed
    | NanosDoNotFitU32                  // `tv_nsec.try_into::<u32>()` failed
    | DurationOverflow                  // the carry in `Duration::new` overflowed the seconds;
                                        // possible for `Duration::new` in general, never reached
                                        // by either clock (`Unix.ToDuration`, `Windows.TicksToDuration`)
    | QueryFrequencyFailed              // `QueryPerformanceFrequency` returned FALSE
    | QueryCounterFailed                // `QueryPerformanceCounter` returned FALSE
    | DivideByZero                      // `counter / freq` with a zero frequency

  /** The outcome of an operation that may abort the process. */
  datatype Result<+T> = Ok(value: T) | Panic(reason: Reason)
}
