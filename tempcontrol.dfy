/**
 * The control loop of the bread-proofing box: one call of the Arduino
 * `loop()` is one step of a small state machine over the tick counter
 * (COUNTER), the index of the next data line (SUBCOUNT) and the level of
 * the relay that drives the heating element.
 */
module TempControl {

  /** Set point of the box, in degrees (TARGET_TEMP). */
  const TargetTemp: real := 24.0

  /** Ticks added to the counter at the end of every call (the 50 ms delay). */
  const PollInterval: int := 50

  /** Counter value at which a successful read emits a data line (500 ms). */
  const EmitThreshold: int := 500

  /**
   * Outcome of one sensor read. On success the sensor fills
   * `temp_hum_val[0]` with the humidity and `temp_hum_val[1]` with the
   * temperature.
   */
  datatype SensorRead = ReadFailed | Sample(hum: real, temp: real)

  /** One line written to the serial port. */
  datatype Event =
    | DataLine(index: int, temp: real, hum: real)  // "<SUBCOUNT> <temperature> <humidity>"
    | FailLine                                     // the fixed failure message

  /** The state that survives from one call of the loop to the next. */
  datatype State = State(counter: int, subcount: int, relayOn: bool)

  /** The state after a step (or a run) and the lines it wrote, oldest first. */
  datatype StepResult = StepResult(next: State, emitted: seq<Event>)

  /** State right after `setup()`: both counters zero, the relay at whatever level the pin starts at. */
  function Init(relayOn: bool): State
  {
    State(0, 0, relayOn)
  }

  /**
   * The two independent threshold comparisons of a successful read, in
   * source order: below target switches the relay on, above target
   * switches it off, exactly on target leaves it as it was.
   */
  function Threshold(relayOn: bool, temp: real): (on: bool)
    ensures temp < TargetTemp ==> on
    ensures temp > TargetTemp ==> !on
    ensures temp == TargetTemp ==> on == relayOn
  {
    var afterLow := if temp < TargetTemp then true else relayOn;
    if temp > TargetTemp then false else afterLow
  }

  /** True of a step's lines when one of them is a data line. */
  predicate HasDataLine(lines: seq<Event>)
  {
    exists i :: 0 <= i < |lines| && lines[i].DataLine?
  }

  /** One call of `loop()`, as a function of the state before it and the sensor outcome. */
  function Step(s: State, input: SensorRead): (r: StepResult)
    // at most one line per call
    ensures |r.emitted| <= 1
    // a failed read writes the failure line only and leaves relay and index alone
    ensures input.ReadFailed? ==>
      r.emitted == [FailLine] && r.next.relayOn == s.relayOn && r.next.subcount == s.subcount
    // a successful read sets the relay by the threshold decision
    ensures input.Sample? ==> r.next.relayOn == Threshold(s.relayOn, input.temp)
    // a data line is written exactly when the read succeeded and the counter is at the threshold
    ensures HasDataLine(r.emitted) <==> input.Sample? && s.counter == EmitThreshold
    // ... and then it carries the current index, the temperature and the humidity,
    // the counter ends at one poll interval and the index moves on by one
    ensures input.Sample? && s.counter == EmitThreshold ==>
      && r.emitted == [DataLine(s.subcount, input.temp, input.hum)]
      && r.next.counter == PollInterval
      && r.next.subcount == s.subcount + 1
    // a successful read off the threshold writes nothing
    ensures input.Sample? && s.counter != EmitThreshold ==> r.emitted == []
    // every step without a data line advances the counter by one poll interval and keeps the index
    ensures !HasDataLine(r.emitted) ==>
      r.next.counter == s.counter + PollInterval && r.next.subcount == s.subcount
  {
    match input
    case ReadFailed =>
      StepResult(State(s.counter + PollInterval, s.subcount, s.relayOn), [FailLine])
    case Sample(hum, temp) =>
      var relay := Threshold(s.relayOn, temp);
      if s.counter == EmitThreshold then
        var line := DataLine(s.subcount, temp, hum);
        assert [line][0].DataLine?;
        StepResult(State(0 + PollInterval, s.subcount + 1, relay), [line])
      else
        StepResult(State(s.counter + PollInterval, s.subcount, relay), [])
  }

  /**
   * The controller as the sketch holds it: the two global counters, the
   * level of relay pin 4 and everything written to the serial port so far.
   */
  class Controller {
    var counter: int
    var subcount: int
    var relayOn: bool
    var output: seq<Event>

    /** The part of the controller that the next call of the loop depends on. */
    function Snapshot(): State
      reads this
    {
      State(counter, subcount, relayOn)
    }

    /** `setup()`: counters at zero, nothing written yet, relay at its power-on level. */
    constructor (initialRelay: bool)
      ensures Snapshot() == Init(initialRelay)
      ensures output == []
    {
      counter := 0;
      subcount := 0;
      relayOn := initialRelay;
      output := [];
    }

    /** One call of `loop()` with the given sensor outcome. */
    method Loop(input: SensorRead)
      modifies this
      ensures Snapshot() == Step(old(Snapshot()), input).next
      ensures output == old(output) + Step(old(Snapshot()), input).emitted
    {
      if input.Sample? {
        if input.temp < TargetTemp {
          relayOn := true;
        }
        if input.temp > TargetTemp {
          relayOn := false;
        }
        if counter == EmitThreshold {
          counter := 0;
          output := output + [DataLine(subcount, input.temp, input.hum)];
          subcount := subcount + 1;
        }
      } else {
        output := output + [FailLine];
      }
      counter := counter + PollInterval;
    }
  }
}
