/** The Windows backend: the performance-counter frequency is queried once at
    construction, and each read converts a counter value to seconds and
    nanoseconds with exact integer arithmetic before clamping. The two system
    calls are oracles: their status and `LARGE_INTEGER` output are inputs. */
module Windows {
  import opened Ints
  import opened Panics
  import opened Durations
  import Clamp
  import Arith

  /** What `QueryPerformanceFrequency` produced: its `BOOL` status and the
      frequency it wrote, as the signed `LARGE_INTEGER`. */
  datatype FrequencyQuery = FrequencyQuery(status: int, freq: i64)

  /** What `QueryPerformanceCounter` produced: its `BOOL` status and the
      counter it wrote, as the signed `LARGE_INTEGER`. */
  datatype CounterQuery = CounterQuery(status: int, counter: i64)

  datatype Clock = Clock(freq: u64, lastElapsed: Duration)

  /** The result of one read: the clock's new state and the value returned. */
  datatype Step = Step(clock: Clock, value: Duration)

  /** `Clock::new`: a zero status (FALSE) is fatal; otherwise the frequency is
      reinterpreted as `u64` and the clamp starts at zero. */
  function New(q: FrequencyQuery): (r: Result<Clock>)
    ensures r.Panic? <==> q.status == 0
    ensures r.Panic? ==> r.reason == QueryFrequencyFailed
    ensures r.Ok? ==> r.value.lastElapsed == Zero
    ensures r.Ok? ==> (r.value.freq - q.freq) % U64_LIMIT == 0
    ensures r.Ok? && 0 <= q.freq ==> r.value.freq == q.freq
  {
    if q.status == 0 then Panic(QueryFrequencyFailed)
    else Ok(Clock(AsU64(q.freq), Zero))
  }

  /** `(counter % freq) as u128 * 1_000_000_000`, with the `u128` wrap-around
      written out; the product is below `freq * 10^9 <= 2^64 * 10^9 < 2^128`,
      so it never wraps. */
  function ScaledRemainder(counter: u64, freq: u64): (p: u128)
    requires 0 < freq
    ensures p == (counter % freq) * NANOS_PER_SEC
    ensures p < freq * NANOS_PER_SEC
  {
    ((counter % freq) * NANOS_PER_SEC) % U128_LIMIT
  }

  /** The sub-second part, `ScaledRemainder / freq` cast `as u32`: it is below
      one second, so the cast keeps every bit. */
  function SubsecondNanos(counter: u64, freq: u64): (n: u32)
    requires 0 < freq
    ensures n < NANOS_PER_SEC
    ensures n == ScaledRemainder(counter, freq) / freq
  {
    var p := ScaledRemainder(counter, freq);
    Arith.DivBelow(p, freq, NANOS_PER_SEC);
    var wide: u128 := p / freq;
    AsU32(wide)
  }

  /** The tick-to-`Duration` conversion of `Clock::elapsed`. `Duration::new`
      never panics and performs no carry here, the seconds are the whole
      seconds of the counter, and the pair is exactly the counter's length in
      nanoseconds rounded down. */
  function TicksToDuration(counter: u64, freq: u64): (r: Result<Duration>)
    requires 0 < freq
    ensures r.Ok?
    ensures r.value.secs == counter / freq
    ensures r.value.nanos == (counter % freq) * NANOS_PER_SEC / freq
    ensures TotalNanos(r.value) == counter * NANOS_PER_SEC / freq
  {
    var r := Durations.New(counter / freq, SubsecondNanos(counter, freq));
    TicksToDurationExact(counter, freq);
    r
  }

  /** The exactness identity behind `TicksToDuration`: whole seconds and the
      scaled remainder add up to the scaled counter divided by the frequency. */
  lemma TicksToDurationExact(counter: u64, freq: u64)
    requires 0 < freq
    ensures (counter / freq) * NANOS_PER_SEC + (counter % freq) * NANOS_PER_SEC / freq
         == counter * NANOS_PER_SEC / freq
  {
    var q := counter / freq;
    var m := counter % freq;
    var n := m * NANOS_PER_SEC;
    assert counter == q * freq + m;
    assert n == (n / freq) * freq + n % freq;
    assert counter * NANOS_PER_SEC == (q * NANOS_PER_SEC + n / freq) * freq + n % freq;
    Arith.DivModUnique(counter * NANOS_PER_SEC, freq, q * NANOS_PER_SEC + n / freq, n % freq);
  }

  /** For a fixed frequency, a larger counter never gives a smaller duration. */
  lemma TicksToDurationMonotone(c1: u64, c2: u64, freq: u64)
    requires 0 < freq && c1 <= c2
    ensures LessEq(TicksToDuration(c1, freq).value, TicksToDuration(c2, freq).value)
  {
    Arith.DivMonotone(c1 * NANOS_PER_SEC, c2 * NANOS_PER_SEC, freq);
    LessEqIsNanosOrder(TicksToDuration(c1, freq).value, TicksToDuration(c2, freq).value);
  }

  /** Boundary cases: a one-tick-per-second counter has no sub-second part,
      and the largest counter at a typical 10 MHz frequency converts without
      overflow or loss. */
  lemma TicksToDurationExamples()
    ensures TicksToDuration(U64_LIMIT - 1, 1) == Ok(Duration(U64_LIMIT - 1, 0))
    ensures TicksToDuration(U64_LIMIT - 1, 10_000_000) == Ok(Duration(1_844_674_407_370, 955_161_500))
    ensures TicksToDuration(3, 4) == Ok(Duration(0, 750_000_000))
  {
  }

  /** The fresh duration one read produces before clamping: a zero status
      (FALSE) is fatal, a zero frequency makes the division panic, and
      otherwise the counter, reinterpreted as `u64`, is converted. */
  function Sample(freq: u64, q: CounterQuery): (r: Result<Duration>)
    ensures q.status == 0 ==> r == Panic(QueryCounterFailed)
    ensures q.status != 0 && freq == 0 ==> r == Panic(DivideByZero)
    ensures r.Ok? <==> q.status != 0 && 0 < freq
    ensures r.Ok? ==> TotalNanos(r.value) == AsU64(q.counter) * NANOS_PER_SEC / freq
  {
    if q.status == 0 then Panic(QueryCounterFailed)
    else if freq == 0 then Panic(DivideByZero)
    else TicksToDuration(AsU64(q.counter), freq)
  }

  /** `Clock::elapsed`: a failed sample is fatal and leaves no value;
      otherwise the sample goes through the clamp, whose result is both
      returned and stored; the frequency is kept. */
  function Elapsed(c: Clock, q: CounterQuery): (r: Result<Step>)
    ensures q.status == 0 ==> r == Panic(QueryCounterFailed)
    ensures q.status != 0 && c.freq == 0 ==> r == Panic(DivideByZero)
    ensures r.Ok? <==> q.status != 0 && 0 < c.freq
    ensures r.Panic? <==> Sample(c.freq, q).Panic?
    ensures r.Panic? ==> r.reason == Sample(c.freq, q).reason
    ensures r.Ok? ==>
      var d := Sample(c.freq, q).value;
      && r.value.clock.freq == c.freq
      && r.value.clock.lastElapsed == r.value.value
      && LessEq(c.lastElapsed, r.value.value)
      && LessEq(d, r.value.value)
      && (r.value.value == c.lastElapsed || r.value.value == d)
      && (LessEq(d, c.lastElapsed) ==> r.value.clock == c)
  {
    match Sample(c.freq, q)
    case Panic(reason) => Panic(reason)
    case Ok(d) =>
      var last := Clamp.Update(c.lastElapsed, d);
      Ok(Step(Clock(c.freq, last), last))
  }
}
