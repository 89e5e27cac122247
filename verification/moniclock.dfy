/** The public `Clock`: a wrapper around the platform's inner clock that
    forwards `new` and `elapsed`. Both backends are modelled side by side;
    a build selects exactly one, so a clock is always read with the oracle of
    its own platform. */
module Moniclock {
  import opened Ints
  import opened Panics
  import opened Durations
  import Clamp
  import Unix
  import Windows

  datatype Inner = UnixInner(unix: Unix.Clock) | WindowsInner(windows: Windows.Clock)

  datatype Clock = Clock(inner: Inner)

  /** What the operating system supplies to `Clock::new`: nothing on POSIX,
      the frequency query on Windows. */
  datatype Setup = UnixSetup | WindowsSetup(query: Windows.FrequencyQuery)

  /** What the operating system supplies to one `elapsed` call. */
  datatype Reading = UnixReading(reading: Unix.Reading) | WindowsReading(query: Windows.CounterQuery)

  /** The part of a clock that never changes after construction: its
      platform and, on Windows, its frequency. */
  datatype Calibration = Posix | Qpc(freq: u64)

  datatype Step = Step(clock: Clock, value: Duration)

  /** The clock after a sequence of reads, and the values they returned. */
  datatype Trace = Trace(clock: Clock, values: seq<Duration>)

  function CalibrationOf(c: Clock): Calibration {
    match c.inner
    case UnixInner(_) => Posix
    case WindowsInner(w) => Qpc(w.freq)
  }

  function LastElapsed(c: Clock): Duration {
    match c.inner
    case UnixInner(u) => u.lastElapsed
    case WindowsInner(w) => w.lastElapsed
  }

  /** A reading comes from the platform the clock was built for. */
  predicate Fits(cal: Calibration, reading: Reading) {
    cal.Posix? <==> reading.UnixReading?
  }

  /** `Clock::new`: builds a fresh inner clock, which starts at zero. Only the
      Windows frequency query can make it fail. */
  function New(setup: Setup): (r: Result<Clock>)
    ensures setup.UnixSetup? ==> r.Ok? && CalibrationOf(r.value) == Posix
    ensures setup.WindowsSetup? ==> (r.Ok? <==> setup.query.status != 0)
    ensures setup.WindowsSetup? && r.Panic? ==> r.reason == QueryFrequencyFailed
    ensures setup.WindowsSetup? && r.Ok? ==> CalibrationOf(r.value) == Qpc(AsU64(setup.query.freq))
    ensures r.Ok? ==> LastElapsed(r.value) == Zero
  {
    match setup
    case UnixSetup => Ok(Clock(UnixInner(Unix.New())))
    case WindowsSetup(q) =>
      match Windows.New(q)
      case Panic(reason) => Panic(reason)
      case Ok(w) => Ok(Clock(WindowsInner(w)))
  }

  /** The fresh duration a reading produces before clamping, on either
      platform: which readings succeed, and the exact length they measure. */
  function Sample(cal: Calibration, reading: Reading): (r: Result<Duration>)
    requires Fits(cal, reading)
    ensures cal.Posix? ==>
      var u := reading.reading;
      && (r.Ok? <==> u.status == 0 && 0 <= u.t.tvSec && 0 <= u.t.tvNsec < U32_LIMIT)
      && (r.Ok? ==> TotalNanos(r.value) == u.t.tvSec * NANOS_PER_SEC + u.t.tvNsec)
    ensures cal.Qpc? ==>
      var q := reading.query;
      && (r.Ok? <==> q.status != 0 && 0 < cal.freq)
      && (r.Ok? ==> TotalNanos(r.value) == AsU64(q.counter) * NANOS_PER_SEC / cal.freq)
  {
    match reading
    case UnixReading(u) => Unix.Sample(u)
    case WindowsReading(q) => Windows.Sample(cal.freq, q)
  }

  /** `Clock::elapsed`: forwards to the inner clock and returns exactly its
      result; only the inner state changes, and the calibration is kept. The
      value returned is the stored state, at least the previous one, and the
      clamp of the fresh sample. */
  function Elapsed(c: Clock, reading: Reading): (r: Result<Step>)
    requires Fits(CalibrationOf(c), reading)
    ensures c.inner.UnixInner? ==>
      var inner := Unix.Elapsed(c.inner.unix, reading.reading);
      && (r.Ok? <==> inner.Ok?)
      && (r.Panic? ==> r.reason == inner.reason)
      && (r.Ok? ==> r.value.value == inner.value.value && r.value.clock.inner == UnixInner(inner.value.clock))
    ensures c.inner.WindowsInner? ==>
      var inner := Windows.Elapsed(c.inner.windows, reading.query);
      && (r.Ok? <==> inner.Ok?)
      && (r.Panic? ==> r.reason == inner.reason)
      && (r.Ok? ==> r.value.value == inner.value.value && r.value.clock.inner == WindowsInner(inner.value.clock))
    ensures r.Ok? <==> Sample(CalibrationOf(c), reading).Ok?
    ensures r.Ok? ==>
      && CalibrationOf(r.value.clock) == CalibrationOf(c)
      && LastElapsed(r.value.clock) == r.value.value
      && LessEq(LastElapsed(c), r.value.value)
      && r.value.value == Clamp.Update(LastElapsed(c), Sample(CalibrationOf(c), reading).value)
  {
    match c.inner
    case UnixInner(u) =>
      (match Unix.Elapsed(u, reading.reading)
       case Panic(reason) => Panic(reason)
       case Ok(s) => Ok(Step(Clock(UnixInner(s.clock)), s.value)))
    case WindowsInner(w) =>
      (match Windows.Elapsed(w, reading.query)
       case Panic(reason) => Panic(reason)
       case Ok(s) => Ok(Step(Clock(WindowsInner(s.clock)), s.value)))
  }

  predicate AllFit(cal: Calibration, readings: seq<Reading>) {
    forall k :: 0 <= k < |readings| ==> Fits(cal, readings[k])
  }

  /** Successive `elapsed` calls on one clock; the first panic ends the run. */
  function Run(c: Clock, readings: seq<Reading>): (r: Result<Trace>)
    requires AllFit(CalibrationOf(c), readings)
    ensures r.Ok? ==> |r.value.values| == |readings|
    ensures r.Ok? ==> CalibrationOf(r.value.clock) == CalibrationOf(c)
    decreases |readings|
  {
    if readings == [] then Ok(Trace(c, []))
    else
      match Elapsed(c, readings[0])
      case Panic(reason) => Panic(reason)
      case Ok(s) =>
        match Run(s.clock, readings[1..])
        case Panic(reason) => Panic(reason)
        case Ok(t) => Ok(Trace(t.clock, [s.value] + t.values))
  }

  /** The fresh samples of a run, before clamping. */
  function Samples(cal: Calibration, readings: seq<Reading>): (r: Result<seq<Duration>>)
    requires AllFit(cal, readings)
    ensures r.Ok? ==> |r.value| == |readings|
    ensures r.Ok? <==> forall k :: 0 <= k < |readings| ==> Sample(cal, readings[k]).Ok?
    ensures r.Ok? ==> forall k :: 0 <= k < |readings| ==> r.value[k] == Sample(cal, readings[k]).value
    decreases |readings|
  {
    if readings == [] then Ok([])
    else
      match Sample(cal, readings[0])
      case Panic(reason) => Panic(reason)
      case Ok(d) =>
        match Samples(cal, readings[1..])
        case Panic(reason) => Panic(reason)
        case Ok(ds) => Ok([d] + ds)
  }

  /** A successful run returns the running maximum of the clock's state and
      the fresh samples, and leaves the clock at the last value returned. */
  lemma {:induction false} RunIsRunningMax(c: Clock, readings: seq<Reading>)
    requires AllFit(CalibrationOf(c), readings)
    requires Run(c, readings).Ok?
    ensures Samples(CalibrationOf(c), readings).Ok?
    ensures Run(c, readings).value.values
         == Clamp.Outputs(LastElapsed(c), Samples(CalibrationOf(c), readings).value)
    ensures LastElapsed(Run(c, readings).value.clock)
         == Clamp.Final(LastElapsed(c), Samples(CalibrationOf(c), readings).value)
    decreases |readings|
  {
    if readings != [] {
      var s := Elapsed(c, readings[0]).value;
      RunIsRunningMax(s.clock, readings[1..]);
    }
  }

  /** Monotonicity of one instance: over any run, each returned value is at
      least every value returned before it and at least the state the clock
      started in. */
  lemma RunMonotone(c: Clock, readings: seq<Reading>)
    requires AllFit(CalibrationOf(c), readings)
    requires Run(c, readings).Ok?
    ensures forall i, j :: 0 <= i <= j < |readings| ==>
      LessEq(Run(c, readings).value.values[i], Run(c, readings).value.values[j])
    ensures forall i :: 0 <= i < |readings| ==>
      LessEq(LastElapsed(c), Run(c, readings).value.values[i])
    ensures forall i :: 0 <= i < |readings| ==>
      LessEq(Run(c, readings).value.values[i], LastElapsed(Run(c, readings).value.clock))
  {
    RunIsRunningMax(c, readings);
    var ds := Samples(CalibrationOf(c), readings).value;
    Clamp.OutputsNonDecreasing(LastElapsed(c), ds);
    if readings != [] {
      Clamp.FinalIsLastOutput(LastElapsed(c), ds);
    }
  }

  // ---------------------------------------------------------------------
  // Several instances in one process

  /** One `elapsed` call on the instance numbered `id`. */
  datatype Call = Call(id: nat, reading: Reading)

  /** A value returned by the instance numbered `id`. */
  datatype Tagged = Tagged(id: nat, value: Duration)

  datatype WorldTrace = WorldTrace(clocks: seq<Clock>, outputs: seq<Tagged>)

  predicate CallsFit(clocks: seq<Clock>, calls: seq<Call>) {
    forall k :: 0 <= k < |calls| ==>
      calls[k].id < |clocks| && Fits(CalibrationOf(clocks[calls[k].id]), calls[k].reading)
  }

  /** Interleaved `elapsed` calls on several instances; the first panic ends
      the run. */
  function RunAll(clocks: seq<Clock>, calls: seq<Call>): (r: Result<WorldTrace>)
    requires CallsFit(clocks, calls)
    ensures r.Ok? ==> |r.value.clocks| == |clocks|
    ensures r.Ok? ==> forall j :: 0 <= j < |clocks| ==>
      CalibrationOf(r.value.clocks[j]) == CalibrationOf(clocks[j])
    ensures r.Ok? ==> |r.value.outputs| == |calls|
    ensures r.Ok? ==> forall k :: 0 <= k < |calls| ==> r.value.outputs[k].id == calls[k].id
    decreases |calls|
  {
    if calls == [] then Ok(WorldTrace(clocks, []))
    else
      var id := calls[0].id;
      match Elapsed(clocks[id], calls[0].reading)
      case Panic(reason) => Panic(reason)
      case Ok(s) =>
        var next := clocks[id := s.clock];
        assert CallsFit(next, calls[1..]) by {
          forall k | 0 <= k < |calls[1..]|
            ensures Fits(CalibrationOf(next[calls[1..][k].id]), calls[1..][k].reading)
          {
            assert calls[1..][k] == calls[k + 1];
          }
        }
        match RunAll(next, calls[1..])
        case Panic(reason) => Panic(reason)
        case Ok(t) => Ok(WorldTrace(t.clocks, [Tagged(id, s.value)] + t.outputs))
  }

  /** The readings of the calls made on instance `j`, in call order. */
  function ReadingsOf(calls: seq<Call>, j: nat): (rs: seq<Reading>)
    ensures |rs| <= |calls|
  {
    if calls == [] then []
    else if calls[0].id == j then [calls[0].reading] + ReadingsOf(calls[1..], j)
    else ReadingsOf(calls[1..], j)
  }

  /** The values returned by instance `j`, in call order. */
  function ValuesOf(outputs: seq<Tagged>, j: nat): (vs: seq<Duration>)
    ensures |vs| <= |outputs|
  {
    if outputs == [] then []
    else if outputs[0].id == j then [outputs[0].value] + ValuesOf(outputs[1..], j)
    else ValuesOf(outputs[1..], j)
  }

  lemma {:induction false} ReadingsOfFit(clocks: seq<Clock>, calls: seq<Call>, j: nat)
    requires CallsFit(clocks, calls) && j < |clocks|
    ensures AllFit(CalibrationOf(clocks[j]), ReadingsOf(calls, j))
    decreases |calls|
  {
    if calls != [] {
      assert CallsFit(clocks, calls[1..]) by {
        forall k | 0 <= k < |calls[1..]|
          ensures calls[1..][k].id < |clocks|
          ensures Fits(CalibrationOf(clocks[calls[1..][k].id]), calls[1..][k].reading)
        {
          assert calls[1..][k] == calls[k + 1];
        }
      }
      ReadingsOfFit(clocks, calls[1..], j);
    }
  }

  /** Instances are independent: in any interleaving, what instance `j`
      returns and the state it ends in are exactly what it would return and
      end in if it alone received its own calls. Calls on other instances
      change neither its state nor its outputs. */
  lemma {:induction false} RunAllIndependent(clocks: seq<Clock>, calls: seq<Call>, j: nat)
    requires CallsFit(clocks, calls) && j < |clocks|
    requires RunAll(clocks, calls).Ok?
    ensures AllFit(CalibrationOf(clocks[j]), ReadingsOf(calls, j))
    ensures Run(clocks[j], ReadingsOf(calls, j))
         == Ok(Trace(RunAll(clocks, calls).value.clocks[j], ValuesOf(RunAll(clocks, calls).value.outputs, j)))
    decreases |calls|
  {
    ReadingsOfFit(clocks, calls, j);
    if calls != [] {
      var id := calls[0].id;
      var s := Elapsed(clocks[id], calls[0].reading).value;
      var next := clocks[id := s.clock];
      RunAllIndependent(next, calls[1..], j);
      var t := RunAll(next, calls[1..]).value;
      assert RunAll(clocks, calls).value == WorldTrace(t.clocks, [Tagged(id, s.value)] + t.outputs);
      assert ([Tagged(id, s.value)] + t.outputs)[1..] == t.outputs;
    }
  }

  /** Every value an instance returns during an interleaved run is at least
      the state that instance started in and at most the state it ends in. */
  lemma {:induction false} RunAllBounds(clocks: seq<Clock>, calls: seq<Call>)
    requires CallsFit(clocks, calls)
    requires RunAll(clocks, calls).Ok?
    ensures forall j :: 0 <= j < |clocks| ==>
      LessEq(LastElapsed(clocks[j]), LastElapsed(RunAll(clocks, calls).value.clocks[j]))
    ensures forall k :: 0 <= k < |calls| ==>
      var o := RunAll(clocks, calls).value.outputs[k];
      && LessEq(LastElapsed(clocks[o.id]), o.value)
      && LessEq(o.value, LastElapsed(RunAll(clocks, calls).value.clocks[o.id]))
    decreases |calls|
  {
    if calls != [] {
      var id := calls[0].id;
      var s := Elapsed(clocks[id], calls[0].reading).value;
      var next := clocks[id := s.clock];
      RunAllBounds(next, calls[1..]);
      var t := RunAll(next, calls[1..]).value;
      var outs := RunAll(clocks, calls).value.outputs;
      assert outs == [Tagged(id, s.value)] + t.outputs;
      forall j | 0 <= j < |clocks|
        ensures LessEq(LastElapsed(clocks[j]), LastElapsed(t.clocks[j]))
      {
        LessEqIsTotalOrder(LastElapsed(clocks[j]), LastElapsed(next[j]), LastElapsed(t.clocks[j]));
      }
      forall k | 0 <= k < |calls|
        ensures LessEq(LastElapsed(clocks[outs[k].id]), outs[k].value)
        ensures LessEq(outs[k].value, LastElapsed(t.clocks[outs[k].id]))
      {
        var o := outs[k];
        if k == 0 {
          assert o.value == LastElapsed(next[id]);
        } else {
          assert o == t.outputs[k - 1];
          LessEqIsTotalOrder(LastElapsed(clocks[o.id]), LastElapsed(next[o.id]), o.value);
        }
      }
    }
  }

  /** Per-instance monotonicity in any interleaving: each value an instance
      returns is at least every value it returned before. */
  lemma {:induction false} RunAllMonotone(clocks: seq<Clock>, calls: seq<Call>)
    requires CallsFit(clocks, calls)
    requires RunAll(clocks, calls).Ok?
    ensures forall i, k :: 0 <= i <= k < |calls| && calls[i].id == calls[k].id ==>
      LessEq(RunAll(clocks, calls).value.outputs[i].value, RunAll(clocks, calls).value.outputs[k].value)
    decreases |calls|
  {
    if calls != [] {
      var id := calls[0].id;
      var s := Elapsed(clocks[id], calls[0].reading).value;
      var next := clocks[id := s.clock];
      RunAllMonotone(next, calls[1..]);
      RunAllBounds(next, calls[1..]);
      var t := RunAll(next, calls[1..]).value;
      var outs := RunAll(clocks, calls).value.outputs;
      assert outs == [Tagged(id, s.value)] + t.outputs;
      forall i, k | 0 <= i <= k < |calls| && calls[i].id == calls[k].id
        ensures LessEq(outs[i].value, outs[k].value)
      {
        if i == 0 && k > 0 {
          assert outs[k] == t.outputs[k - 1];
          assert calls[k] == calls[1..][k - 1];
          assert LessEq(LastElapsed(next[id]), outs[k].value);
        } else if i > 0 {
          assert outs[i] == t.outputs[i - 1] && outs[k] == t.outputs[k - 1];
          assert calls[i] == calls[1..][i - 1] && calls[k] == calls[1..][k - 1];
        }
      }
    }
  }
}
