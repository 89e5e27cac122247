/** The host's `Duration`: whole seconds in a `u64` and a sub-second part below
    one billion nanoseconds, compared lexicographically (seconds first). */
module Durations {
  import opened Ints
  import opened Panics

  const NANOS_PER_SEC: int := 1_000_000_000

  type Nanos = n: int | 0 <= n < NANOS_PER_SEC

  datatype Duration = Duration(secs: u64, nanos: Nanos)

  /** `Duration::default()`, the value every clock starts from. */
  const Zero: Duration := Duration(0, 0)

  /** The independent measure of a duration: its length in nanoseconds. */
  function TotalNanos(d: Duration): nat {
    d.secs * NANOS_PER_SEC + d.nanos
  }

  /** The derived ordering of `Duration`: seconds, then nanoseconds. */
  predicate Less(a: Duration, b: Duration) {
    a.secs < b.secs || (a.secs == b.secs && a.nanos < b.nanos)
  }

  predicate LessEq(a: Duration, b: Duration) {
    Less(a, b) || a == b
  }

  /** `Duration::new(secs, nanos)`: nanoseconds of a second or more are
      carried into the seconds, and the call panics when that carry overflows
      the `u64` seconds. The result always measures exactly `secs` seconds plus
      `nanos` nanoseconds. */
  function New(secs: u64, nanos: u32): (r: Result<Duration>)
    ensures r.Ok? <==> secs + nanos / NANOS_PER_SEC < U64_LIMIT
    ensures r.Panic? ==> r.reason == DurationOverflow
    ensures r.Ok? ==> TotalNanos(r.value) == secs * NANOS_PER_SEC + nanos
    ensures nanos < NANOS_PER_SEC ==> r == Ok(Duration(secs, nanos))
  {
    if nanos < NANOS_PER_SEC then
      Ok(Duration(secs, nanos))
    else if secs + nanos / NANOS_PER_SEC < U64_LIMIT then
      Ok(Duration(secs + nanos / NANOS_PER_SEC, nanos % NANOS_PER_SEC))
    else
      Panic(DurationOverflow)
  }

  /** The lexicographic order is the order of the nanosecond totals. */
  lemma LessIsNanosOrder(a: Duration, b: Duration)
    ensures Less(a, b) <==> TotalNanos(a) < TotalNanos(b)
  {
  }

  lemma LessEqIsNanosOrder(a: Duration, b: Duration)
    ensures LessEq(a, b) <==> TotalNanos(a) <= TotalNanos(b)
  {
  }

  /** `LessEq` is a total order: reflexive, antisymmetric, transitive and total. */
  lemma LessEqIsTotalOrder(a: Duration, b: Duration, c: Duration)
    ensures LessEq(a, a)
    ensures LessEq(a, b) && LessEq(b, a) ==> a == b
    ensures LessEq(a, b) && LessEq(b, c) ==> LessEq(a, c)
    ensures LessEq(a, b) || LessEq(b, a)
  {
  }

  /** The default duration is below every duration. */
  lemma ZeroIsLeast(d: Duration)
    ensures LessEq(Zero, d)
    ensures TotalNanos(Zero) == 0
  {
  }
}
