/** The clamp both backends apply after converting a reading: the clock keeps
    the largest duration it has produced (`last_elapsed`) and answers with it. */
module Clamp {
  import opened Durations

  /** Replaces `last` by `d` only when `d` is strictly larger; the result is
      both the new state and the value returned to the caller. */
  function Update(last: Duration, d: Duration): (r: Duration)
    ensures LessEq(last, r) && LessEq(d, r)
    ensures r == last || r == d
    ensures LessEq(d, last) ==> r == last
  {
    if Less(last, d) then d else last
  }

  /** `m` is the maximum of `last` and the readings `s`: an upper bound of all
      of them that is one of them. */
  ghost predicate IsMaxOf(m: Duration, last: Duration, s: seq<Duration>) {
    && LessEq(last, m)
    && (forall k :: 0 <= k < |s| ==> LessEq(s[k], m))
    && (m == last || m in s)
  }

  /** The values returned by successive reads that convert to `readings`,
      starting from the clamp state `last`. */
  function Outputs(last: Duration, readings: seq<Duration>): (out: seq<Duration>)
    ensures |out| == |readings|
    decreases |readings|
  {
    if readings == [] then []
    else
      var next := Update(last, readings[0]);
      [next] + Outputs(next, readings[1..])
  }

  /** The clamp state after the reads that convert to `readings`. */
  function Final(last: Duration, readings: seq<Duration>): (r: Duration)
    ensures LessEq(last, r)
    ensures forall k :: 0 <= k < |readings| ==> LessEq(readings[k], r)
    decreases |readings|
  {
    if readings == [] then last
    else
      var next := Update(last, readings[0]);
      LessEqIsTotalOrder(last, next, Final(next, readings[1..]));
      LessEqIsTotalOrder(readings[0], next, Final(next, readings[1..]));
      Final(next, readings[1..])
  }

  /** The state never falls below an earlier state. */
  lemma UpdateMonotone(last: Duration, d: Duration)
    ensures LessEq(last, Update(last, d))
    ensures Less(last, d) <==> Update(last, d) != last
  {
  }

  /** Every output is the running maximum of the initial state and the
      readings so far. */
  lemma {:induction false} OutputsAreRunningMax(last: Duration, readings: seq<Duration>)
    ensures forall i :: 0 <= i < |readings| ==>
      IsMaxOf(Outputs(last, readings)[i], last, readings[..i + 1])
    decreases |readings|
  {
    if readings != [] {
      var next := Update(last, readings[0]);
      var out := Outputs(last, readings);
      var rest := readings[1..];
      OutputsAreRunningMax(next, rest);
      forall i | 0 <= i < |readings|
        ensures IsMaxOf(out[i], last, readings[..i + 1])
      {
        if i == 0 {
          assert readings[..1] == [readings[0]];
        } else {
          var m := out[i];
          assert m == Outputs(next, rest)[i - 1];
          assert IsMaxOf(m, next, rest[..i]);
          assert readings[..i + 1] == [readings[0]] + rest[..i];
          LessEqIsTotalOrder(last, next, m);
          LessEqIsTotalOrder(readings[0], next, m);
          var prefix := readings[..i + 1];
          forall k | 0 <= k < |prefix|
            ensures LessEq(prefix[k], m)
          {
            if k > 0 {
              assert prefix[k] == rest[..i][k - 1];
            }
          }
          if m == next && next != last {
            assert next == readings[0];
          }
        }
      }
    }
  }

  /** The outputs never decrease, and none is below the initial state. */
  lemma {:induction false} OutputsNonDecreasing(last: Duration, readings: seq<Duration>)
    ensures forall i :: 0 <= i < |readings| ==> LessEq(last, Outputs(last, readings)[i])
    ensures forall i, j :: 0 <= i <= j < |readings| ==>
      LessEq(Outputs(last, readings)[i], Outputs(last, readings)[j])
    decreases |readings|
  {
    if readings != [] {
      var next := Update(last, readings[0]);
      var out := Outputs(last, readings);
      var tail := Outputs(next, readings[1..]);
      OutputsNonDecreasing(next, readings[1..]);
      assert out[0] == next;
      assert forall i :: 1 <= i < |readings| ==> out[i] == tail[i - 1];
      forall i | 0 <= i < |readings|
        ensures LessEq(next, out[i])
      {
        if i > 0 {
          assert LessEq(next, tail[i - 1]);
        }
      }
      forall i | 0 <= i < |readings|
        ensures LessEq(last, out[i])
      {
        LessEqIsTotalOrder(last, next, out[i]);
      }
      forall i, j | 0 <= i <= j < |readings|
        ensures LessEq(out[i], out[j])
      {
        if i > 0 {
          assert LessEq(tail[i - 1], tail[j - 1]);
        }
      }
    }
  }

  /** The state left behind is the last value returned. */
  lemma {:induction false} FinalIsLastOutput(last: Duration, readings: seq<Duration>)
    requires readings != []
    ensures Final(last, readings) == Outputs(last, readings)[|readings| - 1]
    decreases |readings|
  {
    if |readings| > 1 {
      FinalIsLastOutput(Update(last, readings[0]), readings[1..]);
    }
  }

  /** An out-of-order sequence of 100ms, 90ms, 95ms and 200ms read by a fresh
      clock yields 100ms, 100ms, 100ms and 200ms. */
  lemma OutOfOrderScenario()
    ensures Outputs(Zero, [Duration(0, 100_000_000), Duration(0, 90_000_000),
                           Duration(0, 95_000_000), Duration(0, 200_000_000)])
         == [Duration(0, 100_000_000), Duration(0, 100_000_000),
             Duration(0, 100_000_000), Duration(0, 200_000_000)]
  {
  }
}
