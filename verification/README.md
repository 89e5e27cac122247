# moniclock in Dafny

A model of `moniclock`, a small Rust library whose `Clock` returns the time
elapsed since an arbitrary epoch as a `Duration`, and guarantees that the
values one `Clock` instance returns never decrease.

The library has two backends, chosen at build time:

- **POSIX** (`src/unix.rs`): reads `clock_gettime(CLOCK_MONOTONIC)`, converts
  the `timespec` with checked `try_into` conversions and `Duration::new`.
- **Windows** (`src/windows.rs`): queries the performance-counter frequency
  once at construction; each read converts the counter to whole seconds
  (`counter / freq`) and nanoseconds
  (`(counter % freq) as u128 * 1_000_000_000 / freq`, cast `as u32`).

Both then clamp: the clock keeps `last_elapsed`, replaces it by the fresh
value only when that value is larger, and returns it. The facade in
`src/lib.rs` wraps the platform clock and forwards `new` and `elapsed`.

## Layout

| file | module | what it holds |
|---|---|---|
| `options.dfy` | `Options` | `Option`, the result of a conversion that may not fit |
| `ints.dfy` | `Ints` | `u32`/`u64`/`u128`/`i64` as bounded integers; `try_into` and `as` conversions |
| `panics.dfy` | `Panics` | the fatal conditions, and `Result` (a panic is a value here) |
| `durations.dfy` | `Durations` | `Duration`, its lexicographic order, `Duration::new` with carry and overflow |
| `arith.dfy` | `Arith` | division facts for a variable divisor |
| `clamp.dfy` | `Clamp` | the clamp shared by both backends, and the running maximum over a sequence |
| `unix.dfy` | `Unix` | the POSIX backend |
| `windows.dfy` | `Windows` | the Windows backend |
| `moniclock.dfy` | `Moniclock` | the facade, runs of one clock, interleaved runs of several clocks |

The operating-system calls are oracles. Their status and output are inputs:
`Unix.Reading`, `Windows.FrequencyQuery` and `Windows.CounterQuery`.
A panic of the Rust code becomes a `Panic(reason)` result. This covers the
failed `assert_eq!`, the `expect` calls, the explicit `panic!`s, the overflow
check of `Duration::new` and division by zero. `Duration::new` can overflow in
general, but neither clock ever reaches that panic.

The model follows these details of the code:

- A `tv_nsec` of one second or more passes `try_into::<u32>()` when it is
  below 2^32. `Duration::new` then carries it into the seconds. That carry
  never overflows here: `tv_sec` is below 2^63 and the carry is at most 4.
- A Windows frequency of zero is not excluded by a precondition. It reaches
  `counter / self.freq`, which panics.
- The `LARGE_INTEGER` values are `i64`. The `as u64` casts reinterpret a
  negative value modulo 2^64, and the model does the same.

## Model

| member | source | states |
|---|---|---|
| `Ints.TryIntoU64` | src/unix.rs:32 | converting `tv_sec` succeeds exactly when it is non-negative, and then keeps the value |
| `Ints.TryIntoU32` | src/unix.rs:33 | converting `tv_nsec` succeeds exactly when it is in `[0, 2^32)`, and then keeps the value |
| `Ints.AsU64` | src/windows.rs:45 | the `as u64` cast of the counter gives the `u64` congruent to it modulo 2^64, unchanged when non-negative |
| `Ints.AsU32` | src/windows.rs:48 | the `as u32` cast gives the `u32` congruent to its argument modulo 2^32, unchanged below 2^32 |
| `Ints.AsU64RoundTrip` | src/windows.rs:30 | the `i64 -> u64` reinterpretation of the frequency is a bijection: nothing is lost |
| `Durations.New` | src/unix.rs:31-34 | `Duration::new` succeeds exactly when the carried seconds fit in `u64`; the result measures exactly `secs` s plus `nanos` ns; no carry below one second |
| `Durations.LessIsNanosOrder` | src/unix.rs:35 | the `<` used by the clamp, seconds first and then nanoseconds, is the order of nanosecond totals |
| `Durations.LessEqIsTotalOrder` | src/lib.rs:54-55 | the order the monotonicity promise uses is reflexive, antisymmetric, transitive and total |
| `Durations.ZeroIsLeast` | src/unix.rs:18 | the default `Duration` that starts every clock is below every duration |
| `Clamp.Update` | src/unix.rs:35-38 | the new state and returned value is the maximum of the old state and the fresh value: at least both, one of them, and the old state when the fresh value is not larger |
| `Clamp.UpdateMonotone` | src/windows.rs:50-53 | the state never decreases, and it changes exactly when the fresh value is strictly larger |
| `Clamp.Final` | src/windows.rs:50-53 | after any sequence of fresh values, the state is at least the initial state and every fresh value |
| `Clamp.OutputsAreRunningMax` | src/unix.rs:35-38 | the i-th returned value is the maximum of the initial state and the first i+1 fresh values |
| `Clamp.OutputsNonDecreasing` | src/unix.rs:35-38 | returned values never decrease and are never below the initial state |
| `Clamp.FinalIsLastOutput` | src/windows.rs:50-53 | the state left after a sequence of reads is the last value returned |
| `Clamp.OutOfOrderScenario` | src/unix.rs:35-38 | fresh values 100ms, 90ms, 95ms, 200ms on a new clock return 100ms, 100ms, 100ms, 200ms |
| `Unix.New` | src/unix.rs:16-20 | a new POSIX clock's state is the zero duration, below every duration |
| `Unix.ToDuration` | src/unix.rs:31-34 | a negative `tv_sec` panics; otherwise a `tv_nsec` outside `u32` panics; fields that pass both checks always convert, never with a `Duration::new` overflow; the result is exact; for `tv_nsec < 10^9` the fields are copied |
| `Unix.ToDurationCanonical` | src/unix.rs:31-34 | a converted `timespec` is the only `Duration` with its nanosecond total, so the carry of `Duration::new` yields the canonical form |
| `Unix.Sample` | src/unix.rs:27-34 | a non-zero `clock_gettime` status panics with no value; status zero with fields in range always yields a sample, which measures exactly the `timespec` |
| `Unix.Elapsed` | src/unix.rs:22-39 | a non-zero `clock_gettime` status is fatal at once, with no retry and no value; it succeeds exactly when the status is zero and the `timespec` converts; it then returns the stored state, which is the maximum of the old state and the sample, and is unchanged when the sample is not larger |
| `Windows.New` | src/windows.rs:19-33 | a zero status panics; otherwise the state is zero and the frequency is the `u64` reinterpretation of the queried value |
| `Windows.ScaledRemainder` | src/windows.rs:47 | the `u128` product `(counter % freq) * 10^9` never wraps and is below `freq * 10^9` |
| `Windows.SubsecondNanos` | src/windows.rs:47-48 | the sub-second part is below `10^9`, so the `as u32` cast is lossless |
| `Windows.TicksToDuration` | src/windows.rs:46-49 | `Duration::new` never panics here; seconds are `counter / freq`; nanoseconds are `floor((counter % freq) * 10^9 / freq)`; the total is `floor(counter * 10^9 / freq)` |
| `Windows.TicksToDurationExact` | src/windows.rs:46-47 | whole seconds plus the scaled remainder equal the scaled counter divided by the frequency |
| `Windows.TicksToDurationMonotone` | src/windows.rs:46-49 | for a fixed frequency, a larger counter never converts to a smaller duration |
| `Windows.TicksToDurationExamples` | src/windows.rs:46-49 | a frequency of 1 and the largest counter at 10 MHz convert exactly |
| `Windows.Sample` | src/windows.rs:36-49 | a zero counter status panics; a zero frequency panics on the division; otherwise the value is the reinterpreted counter's exact floor in nanoseconds |
| `Windows.Elapsed` | src/windows.rs:35-54 | a zero counter status panics; a zero frequency panics on the division; otherwise it never panics, and it keeps the frequency and returns the stored state, which is the maximum of the old state and the sample |
| `Moniclock.New` | src/lib.rs:45-49 | construction builds a fresh inner clock at zero; only a failed Windows frequency query panics |
| `Moniclock.Sample` | src/lib.rs:56-58 | the fresh value behind `elapsed` on either platform: POSIX succeeds exactly for status zero and in-range fields and measures the `timespec`; Windows succeeds exactly for a non-zero status and a non-zero frequency and measures the counter's floor in nanoseconds |
| `Moniclock.Elapsed` | src/lib.rs:56-58 | returns exactly the inner clock's result and changes only the inner state; the value is at least the previous state and is the clamp of the fresh sample |
| `Moniclock.RunIsRunningMax` | src/lib.rs:51-58 | a run of `elapsed` calls returns the running maximum of the start state and the fresh samples, and ends at the last value |
| `Moniclock.RunMonotone` | src/lib.rs:54-55 | each value one clock returns is at least every earlier value it returned and its starting state |
| `Moniclock.RunAllIndependent` | src/lib.rs:37-39 | in any interleaving of calls on several clocks, one clock's outputs and final state equal those of a run on its own calls alone |
| `Moniclock.RunAllBounds` | src/lib.rs:44 | in an interleaved run, each clock's state never decreases, and each output lies between its clock's start and end states |
| `Moniclock.RunAllMonotone` | src/lib.rs:75-81 | in any interleaving, a clock's later output is at least each of its earlier outputs |

## Left out

- The calls `clock_gettime`, `QueryPerformanceFrequency` and `QueryPerformanceCounter` are oracles. Their status and output are inputs; what the OS does is not modelled.
- The `#[cfg]` selection of one backend is not modelled. Both backends are modelled, and the facade's `Inner` is the sum of the two. `Moniclock.Fits` requires a reading from the clock's own platform, which the build guarantees in the source.
- Panic messages and `io::Error::last_os_error` are not modelled; a panic is its `Reason` only.
- The real-time accuracy claim (`t1 - t0 >= sleep_duration`, src/lib.rs:17 and src/lib.rs:84-91) is left out. It depends on wall-clock time and `thread::sleep`.
- The shared-epoch claim across instances (src/lib.rs:51-52) is left out. It is a property of the operating system's clock.
- Concurrency is left out. `elapsed` takes `&mut self`, so calls on one instance are sequential.
- `Debug` derivations are left out.
