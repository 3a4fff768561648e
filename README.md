# Bread-proofing box temperature controller — Dafny model

The controller reads a DHT22 temperature/humidity sensor once per call of the
Arduino `loop()`. It drives the heating-element relay on pin 4 with two
threshold comparisons against a fixed target of 24 degrees. Every tenth call it
prints a data line `<SUBCOUNT> <temperature> <humidity>` on the serial port.
Every failed read prints a fixed failure message.

Each call of `loop()` is one step of a state machine over three values:
`COUNTER`, the tick accumulator; `SUBCOUNT`, the index of the next data line;
and the relay level. The step reads one sensor outcome (a failure, or a
humidity/temperature sample) and writes at most one line.

- `tempcontrol.dfy`, module `TempControl`: the constants, the sensor outcome
  and output line datatypes, the threshold decision (`Threshold`), the step as a
  pure function (`Step`), and the class `Controller`. `Controller` holds the two
  counters, the relay and the serial output as fields. Its `Loop` method updates
  them in place, in the order the sketch does, and is proved to refine `Step`.
- `runs.dfy`, module `Runs`: runs as finite input sequences (`Run`); `Drive`,
  which calls `Loop` once per input as the Arduino runtime does; and lemmas over
  runs.

Temperatures and humidities are `real`. They are only compared with `<` and `>`
and copied into output lines. Counters are unbounded `int`.

Where the prose description of this system and the code disagree, the model
follows the code:

- The first data line appears on the 11th call, not the 10th. `COUNTER` starts
  at 0, and the `== 500` test comes before the `+= 50`, so the test sees 500
  only on call 11. It then sees 500 again on calls 21, 31, and so on
  (`AllSuccessEmissionCadence`).
- Emission is not independent of failed reads. A failed read on a call where
  `COUNTER == 500` skips the only reset and leaves `COUNTER` at 550. After that
  no data line is ever written again (`FailureAtThresholdLocksOut`).

## Model

| member | source | states |
|---|---|---|
| `TempControl.Threshold` | tempcontrol.c:60-66 | temperature strictly below target switches the relay on, strictly above switches it off, exactly on target leaves it as it was |
| `TempControl.Step` | tempcontrol.c:55-87 | one call writes at most one line; a failed read writes only the failure line and keeps relay and SUBCOUNT; a successful read sets the relay by the threshold decision; a data line is written if and only if the read succeeded and COUNTER is 500, and it then carries SUBCOUNT, temperature, humidity in that order, COUNTER ends at 50 and SUBCOUNT grows by 1; every step without a data line adds 50 to COUNTER and keeps SUBCOUNT |
| `TempControl.Controller.constructor` | tempcontrol.c:44-53 | after setup both counters are 0, nothing has been written, and the relay is at its power-on level |
| `TempControl.Controller.Loop` | tempcontrol.c:55-87 | the in-place update of the counters and relay and the appended serial output are exactly those of `Step` on the old state |
| `Runs.Run` | tempcontrol.c:55-87 | a run of n calls writes at most n lines |
| `Runs.Drive` | tempcontrol.c:55-87 | calling `Loop` once per input leaves the controller in the run's final state, with the run's lines appended to its output |
| `Runs.SubcountNumbersDataLines` | tempcontrol.c:72-78 | over any run, SUBCOUNT grows by the number of data lines written, and those lines carry consecutive indices starting at the old SUBCOUNT |
| `Runs.DataLinesNumberedFromZero` | tempcontrol.c:45-78 | from power-on the data lines carry indices 0, 1, 2, ... in order, and SUBCOUNT equals their number |
| `Runs.OneFailLinePerFailure` | tempcontrol.c:81-83 | the number of failure lines written equals the number of failed reads |
| `Runs.CounterStaysMultiple` | tempcontrol.c:69-85 | a COUNTER that is a non-negative multiple of 50 stays one over any run |
| `Runs.CounterMultipleFromInit` | tempcontrol.c:44-85 | from power-on, COUNTER is always a non-negative multiple of 50 |
| `Runs.AllSuccessCounter` | tempcontrol.c:69-85 | in an all-success run from power-on, after n >= 1 calls COUNTER is 50 * ((n - 1) mod 10 + 1) and SUBCOUNT is (n - 1) div 10 |
| `Runs.AllSuccessCounterBounded` | tempcontrol.c:69-85 | in an all-success run from power-on, COUNTER lies in 50..500 after every call |
| `Runs.AllSuccessEmissionCadence` | tempcontrol.c:69-85 | in an all-success run from power-on, call n writes a data line if and only if n is 11, 21, 31, ... |
| `Runs.PastThresholdLocksOut` | tempcontrol.c:69-85 | once COUNTER exceeds 500, no data line is written again, COUNTER grows by 50 per call and SUBCOUNT stays put |
| `Runs.FailureAtThresholdLocksOut` | tempcontrol.c:69-85 | a failed read while COUNTER is 500 takes COUNTER to 550, and no data line follows whatever the later reads are |
| `Runs.RelayFollowsLastDecisive` | tempcontrol.c:58-66 | after a run the relay is on exactly when the last read with a temperature off target was below target |
| `Runs.RelayHeldWithoutDecisive` | tempcontrol.c:58-66 | a run of failed reads and on-target readings leaves the relay as it was |

## Left out

- The DHT22 wire protocol and the `DHT` library (tempcontrol.c:36-38, 47, 58). The sensor is an input: a failure or a (humidity, temperature) sample. A zero return from `readTempAndHumidity` is the sample case.
- Serial I/O details: the baud rate, byte framing, the `\r\n` that `println` writes against the `'\n'` of the data line, and the float-to-text formatting of `Serial.print`. Output lines are the abstract events `DataLine(index, temp, hum)` and `FailLine`.
- Pin setup and pin writes (`pinMode`, `digitalWrite`). The relay is a boolean field. `setup()` never writes the pin, so its power-on level is a constructor parameter.
- The 50 ms `delay` and the fact that the runtime calls `loop()` forever. One call is one step, and runs are finite input sequences.
- IEEE float behaviour of temperature and humidity (rounding, NaN). They are modelled as `real`, so a NaN reading, which fails both comparisons, is not represented.
- Runs.CounterStaysMultiple: does not model 16-bit `int` overflow of `COUNTER` and `SUBCOUNT`, which is undefined behaviour in C. Counters are unbounded integers. In an all-success run `COUNTER` stays within 50..500 (`AllSuccessCounterBounded`). After a lock-out `COUNTER` and, over a long enough run, `SUBCOUNT` would exceed the 16-bit range.
