/**
 * Runs of the control loop: the Arduino runtime calls `loop()` again and
 * again; a run is a finite sequence of sensor outcomes, one per call.
 */
module Runs {
  import opened TempControl

  /** The state after feeding `inputs` to the loop from `s`, and every line written, oldest first. */
  function Run(s: State, inputs: seq<SensorRead>): (r: StepResult)
    ensures |r.emitted| <= |inputs|
    decreases |inputs|
  {
    if inputs == [] then StepResult(s, [])
    else
      var before := Run(s, inputs[..|inputs| - 1]);
      var last := Step(before.next, inputs[|inputs| - 1]);
      StepResult(last.next, before.emitted + last.emitted)
  }

  /** The indices carried by the data lines of `log`, in order. */
  function DataIndices(log: seq<Event>): (ix: seq<int>)
    ensures |ix| <= |log|
  {
    if log == [] then []
    else
      DataIndices(log[..|log| - 1]) +
      match log[|log| - 1]
      case DataLine(i, _, _) => [i]
      case FailLine => []
  }

  /** Number of failure lines in `log`. */
  function FailLines(log: seq<Event>): nat
  {
    if log == [] then 0
    else FailLines(log[..|log| - 1]) + (if log[|log| - 1].FailLine? then 1 else 0)
  }

  /** Number of failed reads in `inputs`. */
  function Failures(inputs: seq<SensorRead>): nat
  {
    if inputs == [] then 0
    else Failures(inputs[..|inputs| - 1]) + (if inputs[|inputs| - 1].ReadFailed? then 1 else 0)
  }

  /** A successful read that moves the relay: its temperature is off target. */
  predicate Decisive(x: SensorRead)
  {
    x.Sample? && x.temp != TargetTemp
  }

  lemma {:induction false} DataIndicesAppend(a: seq<Event>, b: seq<Event>)
    ensures DataIndices(a + b) == DataIndices(a) + DataIndices(b)
    decreases |b|
  {
    if b == [] {
      assert a + b == a;
    } else {
      var b' := b[..|b| - 1];
      assert (a + b)[..|a + b| - 1] == a + b';
      DataIndicesAppend(a, b');
    }
  }

  lemma {:induction false} FailLinesAppend(a: seq<Event>, b: seq<Event>)
    ensures FailLines(a + b) == FailLines(a) + FailLines(b)
    decreases |b|
  {
    if b == [] {
      assert a + b == a;
    } else {
      var b' := b[..|b| - 1];
      assert (a + b)[..|a + b| - 1] == a + b';
      FailLinesAppend(a, b');
    }
  }

  /** The lines of a one-step log, as indices of data lines. */
  lemma StepDataIndices(s: State, input: SensorRead)
    ensures DataIndices(Step(s, input).emitted) ==
      if input.Sample? && s.counter == EmitThreshold then [s.subcount] else []
  {
  }

  /** Running `a` then `b` is running `a + b`: states chain and logs concatenate. */
  lemma {:induction false} RunAppend(s: State, a: seq<SensorRead>, b: seq<SensorRead>)
    ensures Run(s, a + b) == StepResult(Run(Run(s, a).next, b).next, Run(s, a).emitted + Run(Run(s, a).next, b).emitted)
    decreases |b|
  {
    if b == [] {
      assert a + b == a;
    } else {
      var b' := b[..|b| - 1];
      assert (a + b)[..|a + b| - 1] == a + b';
      assert (a + b)[|a + b| - 1] == b[|b| - 1];
      RunAppend(s, a, b');
    }
  }

  /**
   * SUBCOUNT counts the data lines: it ends a run advanced by their number,
   * and the data lines carry the indices s.subcount, s.subcount + 1, ... in order.
   */
  lemma {:induction false} SubcountNumbersDataLines(s: State, inputs: seq<SensorRead>)
    ensures var r := Run(s, inputs);
      && r.next.subcount == s.subcount + |DataIndices(r.emitted)|
      && forall i :: 0 <= i < |DataIndices(r.emitted)| ==> DataIndices(r.emitted)[i] == s.subcount + i
    decreases |inputs|
  {
    if inputs != [] {
      var prefix := inputs[..|inputs| - 1];
      var before := Run(s, prefix);
      var last := Step(before.next, inputs[|inputs| - 1]);
      SubcountNumbersDataLines(s, prefix);
      DataIndicesAppend(before.emitted, last.emitted);
      StepDataIndices(before.next, inputs[|inputs| - 1]);
    }
  }

  /** From power-on the data lines are numbered 0, 1, 2, ... and SUBCOUNT is their count. */
  lemma {:induction false} DataLinesNumberedFromZero(relay0: bool, inputs: seq<SensorRead>)
    ensures var r := Run(Init(relay0), inputs);
      && r.next.subcount == |DataIndices(r.emitted)|
      && forall i :: 0 <= i < |DataIndices(r.emitted)| ==> DataIndices(r.emitted)[i] == i
  {
    SubcountNumbersDataLines(Init(relay0), inputs);
  }

  /** Exactly one failure line is written per failed read, and no other. */
  lemma {:induction false} OneFailLinePerFailure(s: State, inputs: seq<SensorRead>)
    ensures FailLines(Run(s, inputs).emitted) == Failures(inputs)
    decreases |inputs|
  {
    if inputs != [] {
      var prefix := inputs[..|inputs| - 1];
      var before := Run(s, prefix);
      var last := Step(before.next, inputs[|inputs| - 1]);
      OneFailLinePerFailure(s, prefix);
      FailLinesAppend(before.emitted, last.emitted);
      if last.emitted != [] {
        assert last.emitted[..|last.emitted| - 1] == [];
      }
    }
  }

  /** A non-negative multiple of the poll interval stays one, whatever the reads. */
  lemma {:induction false} CounterStaysMultiple(s: State, inputs: seq<SensorRead>)
    requires s.counter >= 0 && s.counter % PollInterval == 0
    ensures Run(s, inputs).next.counter >= 0
    ensures Run(s, inputs).next.counter % PollInterval == 0
    decreases |inputs|
  {
    if inputs != [] {
      CounterStaysMultiple(s, inputs[..|inputs| - 1]);
    }
  }

  /** From power-on, COUNTER is always a non-negative multiple of 50. */
  lemma {:induction false} CounterMultipleFromInit(relay0: bool, inputs: seq<SensorRead>)
    ensures Run(Init(relay0), inputs).next.counter >= 0
    ensures Run(Init(relay0), inputs).next.counter % PollInterval == 0
  {
    CounterStaysMultiple(Init(relay0), inputs);
  }

  /**
   * In a run of successful reads from power-on, after n >= 1 calls the
   * counter is 50 * ((n - 1) % 10 + 1), so between 50 and 500, and n - 1
   * div 10 data lines have been written.
   */
  lemma {:induction false} AllSuccessCounter(relay0: bool, inputs: seq<SensorRead>)
    requires forall i :: 0 <= i < |inputs| ==> inputs[i].Sample?
    ensures var r := Run(Init(relay0), inputs);
      if inputs == [] then r.next.counter == 0 && r.next.subcount == 0
      else
        && r.next.counter == PollInterval * ((|inputs| - 1) % 10 + 1)
        && r.next.subcount == (|inputs| - 1) / 10
    decreases |inputs|
  {
    if inputs != [] {
      var n := |inputs|;
      var prefix := inputs[..n - 1];
      AllSuccessCounter(relay0, prefix);
      if n >= 2 {
        var k := (n - 2) % 10;
        if k == 9 {
          assert (n - 1) % 10 == 0;
          assert (n - 1) / 10 == (n - 2) / 10 + 1;
        } else {
          assert (n - 1) % 10 == k + 1;
          assert (n - 1) / 10 == (n - 2) / 10;
        }
      }
    }
  }

  /** In an all-success run from power-on, COUNTER lies in 50..500 after every call. */
  lemma AllSuccessCounterBounded(relay0: bool, inputs: seq<SensorRead>)
    requires inputs != []
    requires forall i :: 0 <= i < |inputs| ==> inputs[i].Sample?
    ensures PollInterval <= Run(Init(relay0), inputs).next.counter <= EmitThreshold
  {
    AllSuccessCounter(relay0, inputs);
  }

  /**
   * In an all-success run from power-on, call number n (counting from 1)
   * writes a data line exactly when n is 11, 21, 31, ...
   */
  lemma AllSuccessEmissionCadence(relay0: bool, inputs: seq<SensorRead>, n: nat)
    requires forall i :: 0 <= i < |inputs| ==> inputs[i].Sample?
    requires 1 <= n <= |inputs|
    ensures HasDataLine(Step(Run(Init(relay0), inputs[..n - 1]).next, inputs[n - 1]).emitted)
        <==> n >= 11 && n % 10 == 1
  {
    var prefix := inputs[..n - 1];
    AllSuccessCounter(relay0, prefix);
    if n >= 2 {
      var k := (n - 2) % 10;
      assert k == 9 <==> n % 10 == 1;
    }
  }

  /** Once the counter is past the threshold it never comes back: no data line is written again. */
  lemma {:induction false} PastThresholdLocksOut(s: State, inputs: seq<SensorRead>)
    requires s.counter > EmitThreshold
    ensures var r := Run(s, inputs);
      && DataIndices(r.emitted) == []
      && r.next.counter == s.counter + PollInterval * |inputs|
      && r.next.subcount == s.subcount
    decreases |inputs|
  {
    if inputs != [] {
      var prefix := inputs[..|inputs| - 1];
      var before := Run(s, prefix);
      var last := Step(before.next, inputs[|inputs| - 1]);
      PastThresholdLocksOut(s, prefix);
      DataIndicesAppend(before.emitted, last.emitted);
      StepDataIndices(before.next, inputs[|inputs| - 1]);
    }
  }

  /**
   * A failed read while the counter sits at the threshold takes it to 550;
   * the reset is skipped for good and no data line follows, whatever comes next.
   */
  lemma FailureAtThresholdLocksOut(s: State, rest: seq<SensorRead>)
    requires s.counter == EmitThreshold
    ensures Step(s, ReadFailed).next.counter == EmitThreshold + PollInterval
    ensures var r := Run(s, [ReadFailed] + rest);
      DataIndices(r.emitted) == [] && r.next.subcount == s.subcount
  {
    var one := Run(s, [ReadFailed]);
    assert [ReadFailed][..0] == [];
    RunAppend(s, [ReadFailed], rest);
    PastThresholdLocksOut(one.next, rest);
    StepDataIndices(s, ReadFailed);
    DataIndicesAppend(one.emitted, Run(one.next, rest).emitted);
  }

  /**
   * The relay follows the latest read that is off target: if read k is the
   * last decisive one, the relay ends on exactly when that read was below target.
   */
  lemma {:induction false} RelayFollowsLastDecisive(s: State, inputs: seq<SensorRead>, k: nat)
    requires k < |inputs| && Decisive(inputs[k])
    requires forall j :: k < j < |inputs| ==> !Decisive(inputs[j])
    ensures Run(s, inputs).next.relayOn == (inputs[k].temp < TargetTemp)
    decreases |inputs|
  {
    var n := |inputs|;
    var prefix := inputs[..n - 1];
    if k < n - 1 {
      RelayFollowsLastDecisive(s, prefix, k);
    }
  }

  /** Without any decisive read (failures and on-target readings only) the relay keeps its level. */
  lemma {:induction false} RelayHeldWithoutDecisive(s: State, inputs: seq<SensorRead>)
    requires forall j :: 0 <= j < |inputs| ==> !Decisive(inputs[j])
    ensures Run(s, inputs).next.relayOn == s.relayOn
    decreases |inputs|
  {
    if inputs != [] {
      RelayHeldWithoutDecisive(s, inputs[..|inputs| - 1]);
    }
  }

  /**
   * The Arduino runtime calling `loop()` once per input: the controller
   * ends in the state of the run and its output grows by the run's lines.
   */
  method Drive(c: Controller, inputs: seq<SensorRead>)
    modifies c
    ensures c.Snapshot() == Run(old(c.Snapshot()), inputs).next
    ensures c.output == old(c.output) + Run(old(c.Snapshot()), inputs).emitted
  {
    ghost var s0 := c.Snapshot();
    ghost var out0 := c.output;
    for i := 0 to |inputs|
      invariant c.Snapshot() == Run(s0, inputs[..i]).next
      invariant c.output == out0 + Run(s0, inputs[..i]).emitted
    {
      assert inputs[..i + 1][..i] == inputs[..i];
      c.Loop(inputs[i]);
    }
    assert inputs[..|inputs|] == inputs;
  }
}
