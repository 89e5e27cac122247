/** The POSIX backend: reads `clock_gettime(CLOCK_MONOTONIC)`, converts the
    `timespec` with checked conversions and `Duration::new`, and clamps. The
    system call is an oracle: its status and the `timespec` it filled in are
    inputs of `Elapsed`. */
module Unix {
  import opened Ints
  import opened Options
  import opened Panics
  import opened Durations
  import Clamp

  /** A `timespec`: `tv_sec` is a `time_t` and `tv_nsec` a `c_long`, both
      64-bit signed integers on the 64-bit targets. */
  datatype Timespec = Timespec(tvSec: i64, tvNsec: i64)

  /** What one call of `clock_gettime` produced: its status and the
      `timespec` it left behind. */
  datatype Reading = Reading(status: int, t: Timespec)

  datatype Clock = Clock(lastElapsed: Duration)

  /** The result of one read: the clock's new state and the value returned. */
  datatype Step = Step(clock: Clock, value: Duration)

  /** `Clock::new`: nothing is queried, the clamp starts at zero. */
  function New(): (c: Clock)
    ensures c.lastElapsed == Zero
    ensures forall d: Duration :: LessEq(c.lastElapsed, d)
  {
    Clock(Zero)
  }

  /** Converts a `timespec` to a `Duration`. A negative `tv_sec` is fatal; so
      is a `tv_nsec` outside the `u32` range (checked only once the seconds
      converted). Fields that pass both checks always convert: a `tv_nsec` of
      a second or more is carried by `Duration::new`, and that carry cannot
      overflow, because `tv_sec < 2^63` and the carry is at most 4. */
  function ToDuration(t: Timespec): (r: Result<Duration>)
    ensures r == Panic(SecondsDoNotFitU64) <==> t.tvSec < 0
    ensures r == Panic(NanosDoNotFitU32) <==> 0 <= t.tvSec && !(0 <= t.tvNsec < U32_LIMIT)
    ensures r.Ok? <==> 0 <= t.tvSec && 0 <= t.tvNsec < U32_LIMIT
    ensures r != Panic(DurationOverflow)
    ensures r.Ok? ==> TotalNanos(r.value) == t.tvSec * NANOS_PER_SEC + t.tvNsec
    ensures 0 <= t.tvSec && 0 <= t.tvNsec < NANOS_PER_SEC ==>
      r.Ok? && r.value.secs == t.tvSec && r.value.nanos == t.tvNsec
  {
    match TryIntoU64(t.tvSec)
    case None => Panic(SecondsDoNotFitU64)
    case Some(secs) =>
      match TryIntoU32(t.tvNsec)
      case None => Panic(NanosDoNotFitU32)
      case Some(nanos) => Durations.New(secs, nanos)
  }

  /** The conversion yields the canonical duration: the only `Duration` with
      the `timespec`'s nanosecond total, whatever carry that needed. */
  lemma ToDurationCanonical(t: Timespec)
    requires ToDuration(t).Ok?
    ensures forall d: Duration :: TotalNanos(d) == t.tvSec * NANOS_PER_SEC + t.tvNsec ==>
      d == ToDuration(t).value
  {
  }

  /** The fresh duration one read produces before clamping: a non-zero
      status is fatal at once, with no retry and no value; status zero with
      fields in range always yields the exact duration of the `timespec`. */
  function Sample(reading: Reading): (r: Result<Duration>)
    ensures reading.status != 0 ==> r == Panic(ClockGettimeFailed(reading.status))
    ensures r.Ok? <==> reading.status == 0 && 0 <= reading.t.tvSec && 0 <= reading.t.tvNsec < U32_LIMIT
    ensures r.Ok? ==> TotalNanos(r.value) == reading.t.tvSec * NANOS_PER_SEC + reading.t.tvNsec
  {
    if reading.status != 0 then Panic(ClockGettimeFailed(reading.status))
    else ToDuration(reading.t)
  }

  /** `Clock::elapsed`: a failed sample is fatal and leaves no value;
      otherwise the sample goes through the clamp, whose result is both
      returned and stored. */
  function Elapsed(c: Clock, reading: Reading): (r: Result<Step>)
    ensures reading.status != 0 ==> r == Panic(ClockGettimeFailed(reading.status))
    ensures r.Ok? <==> reading.status == 0 && ToDuration(reading.t).Ok?
    ensures r.Panic? <==> Sample(reading).Panic?
    ensures r.Panic? ==> r.reason == Sample(reading).reason
    ensures r.Ok? ==>
      var d := Sample(reading).value;
      && r.value.clock.lastElapsed == r.value.value
      && LessEq(c.lastElapsed, r.value.value)
      && LessEq(d, r.value.value)
      && (r.value.value == c.lastElapsed || r.value.value == d)
      && (LessEq(d, c.lastElapsed) ==> r.value.clock == c)
  {
    match Sample(reading)
    case Panic(reason) => Panic(reason)
    case Ok(d) =>
      var last := Clamp.Update(c.lastElapsed, d);
      Ok(Step(Clock(last), last))
  }
}
