/**
 * The AHT30 sensor object of aht30.py: the bounded busy-retry loop of
 * `_make_measurement` and the failure reset of `_sample_aht30`.
 *
 * The I2C bus is an oracle: a script of write outcomes (ACK or NACK) and a
 * script of read responses (nothing, or some bytes), consumed in order.
 * The measure command and the busy-cycle bound come from the AHT10 driver
 * module and are constructor parameters here.
 */
module Sensor {
  import opened Types
  import opened Decode
  import Crc8

  /** Why a measurement gave up. */
  datatype Failure =
    | DeviceBusy     // the cycle bound was exceeded with the busy bit still set
    | WriteNacked    // the trigger command was not acknowledged
    | NoResponse     // the read returned nothing
    | BadLength      // the read did not return exactly seven bytes
    | BadChecksum    // byte 6 is not the CRC-8 of bytes 0..5

  datatype Outcome = Measured(frame: seq<Byte>) | GaveUp(reason: Failure)

  /**
   * The result of one `_make_measurement` against a bus script: how it
   * ended, the final value of the `cycles` counter (the number of trigger
   * writes issued) and what is left of the two scripts.
   */
  datatype Run = Run(outcome: Outcome, cycles: nat, acks: seq<bool>, responses: seq<Option<seq<Byte>>>)

  /** A script with its first entry consumed; an exhausted script stays exhausted. */
  function Next<T>(s: seq<T>): seq<T> {
    if s == [] then [] else s[1..]
  }

  /** `n` copies of `x`. */
  function Repeat<T>(x: T, n: nat): (r: seq<T>)
    ensures |r| == n
    ensures forall i :: 0 <= i < n ==> r[i] == x
    decreases n
  {
    if n == 0 then [] else Repeat(x, n - 1) + [x]
  }

  /** How one pass of the loop body ends: with the busy bit still set, or with an outcome. */
  datatype Step = StillBusy | Finished(outcome: Outcome)

  /** One pass of the loop body against a bus script, and what is left of the scripts after it. */
  datatype Cycle = Cycle(step: Step, acks: seq<bool>, responses: seq<Option<seq<Byte>>>)

  /**
   * The body of the loop of `_make_measurement` after the bound check:
   * trigger, read, check length and checksum, then look at the busy bit.
   * An exhausted write script NACKs; an exhausted read script returns nothing.
   */
  function Attempt(acks: seq<bool>, responses: seq<Option<seq<Byte>>>): Cycle {
    if acks == [] || !acks[0] then Cycle(Finished(GaveUp(WriteNacked)), Next(acks), responses)
    else if responses == [] || responses[0].None? then Cycle(Finished(GaveUp(NoResponse)), acks[1..], Next(responses))
    else
      var data := responses[0].value;
      match CheckFrame(data)
      case WrongLength => Cycle(Finished(GaveUp(BadLength)), acks[1..], responses[1..])
      case CrcMismatch => Cycle(Finished(GaveUp(BadChecksum)), acks[1..], responses[1..])
      case Busy => Cycle(StillBusy, acks[1..], responses[1..])
      case Ready => Cycle(Finished(Measured(data)), acks[1..], responses[1..])
  }

  /**
   * The loop of `_make_measurement` from the point where `cycles` trigger
   * writes have been made: give up once the bound is exceeded, otherwise
   * make one attempt and go round again while the busy bit is set.
   */
  function MeasureFrom(maxBusyCycles: nat, acks: seq<bool>, responses: seq<Option<seq<Byte>>>, cycles: nat): Run
    decreases maxBusyCycles + 1 - cycles
  {
    if cycles > maxBusyCycles then Run(GaveUp(DeviceBusy), cycles, acks, responses)
    else
      var c := Attempt(acks, responses);
      if c.step.StillBusy? then MeasureFrom(maxBusyCycles, c.acks, c.responses, cycles + 1)
      else Run(c.step.outcome, cycles + 1, c.acks, c.responses)
  }

  /** A whole `_make_measurement`, starting with `cycles == 0`. */
  function Measure(maxBusyCycles: nat, acks: seq<bool>, responses: seq<Option<seq<Byte>>>): Run {
    MeasureFrom(maxBusyCycles, acks, responses, 0)
  }

  // ---------------------------------------------------------------------
  // Properties of the retry loop

  /** An attempt ends with a frame only if that frame passed every check. */
  lemma AttemptFrameReady(acks: seq<bool>, responses: seq<Option<seq<Byte>>>)
    ensures var c := Attempt(acks, responses);
      c.step.Finished? && c.step.outcome.Measured? ==> CheckFrame(c.step.outcome.frame) == Ready
  {
  }

  /** Whenever the loop ends with a frame, that frame passed every check. */
  lemma {:induction false} MeasuredFrameReady(maxBusyCycles: nat, acks: seq<bool>, responses: seq<Option<seq<Byte>>>, cycles: nat)
    ensures var run := MeasureFrom(maxBusyCycles, acks, responses, cycles);
      run.outcome.Measured? ==> CheckFrame(run.outcome.frame) == Ready
    decreases maxBusyCycles + 1 - cycles
  {
    if cycles <= maxBusyCycles {
      var c := Attempt(acks, responses);
      AttemptFrameReady(acks, responses);
      if c.step.StillBusy? {
        MeasuredFrameReady(maxBusyCycles, c.acks, c.responses, cycles + 1);
      }
    } else {
      assert MeasureFrom(maxBusyCycles, acks, responses, cycles).outcome == GaveUp(DeviceBusy);
    }
  }

  /**
   * A measurement succeeds only with a frame of exactly seven bytes whose
   * byte 6 is the CRC-8 of bytes 0..5 and whose status byte has bit 7 clear.
   */
  lemma MeasuredFrameValid(maxBusyCycles: nat, acks: seq<bool>, responses: seq<Option<seq<Byte>>>)
    ensures var run := Measure(maxBusyCycles, acks, responses);
      run.outcome.Measured? ==>
        && |run.outcome.frame| == FrameLength
        && Crc8.Crc8(run.outcome.frame[..6]) == run.outcome.frame[6]
        && run.outcome.frame[0] as int < 128
  {
    var run := Measure(maxBusyCycles, acks, responses);
    MeasuredFrameReady(maxBusyCycles, acks, responses, 0);
    if run.outcome.Measured? {
      CheckFrameMeaning(run.outcome.frame);
    }
  }

  /** Starting below the bound, the loop issues at least one and at most `maxBusyCycles + 1` trigger writes in all. */
  lemma {:induction false} CyclesBounded(maxBusyCycles: nat, acks: seq<bool>, responses: seq<Option<seq<Byte>>>, cycles: nat)
    requires cycles <= maxBusyCycles
    ensures cycles < MeasureFrom(maxBusyCycles, acks, responses, cycles).cycles <= maxBusyCycles + 1
    decreases maxBusyCycles + 1 - cycles
  {
    var c := Attempt(acks, responses);
    if c.step.StillBusy? && cycles < maxBusyCycles {
      CyclesBounded(maxBusyCycles, c.acks, c.responses, cycles + 1);
    }
  }

  /** The `k`-th attempt of a script is acknowledged and reads back a valid frame whose busy bit is set. */
  predicate BusyAt(acks: seq<bool>, responses: seq<Option<seq<Byte>>>, k: nat) {
    k < |acks| && acks[k] && k < |responses| && responses[k].Some?
    && CheckFrame(responses[k].value) == Busy
  }

  /** An attempt finds the device busy exactly when the first entries of both scripts say so, and then consumes one of each. */
  lemma AttemptBusy(acks: seq<bool>, responses: seq<Option<seq<Byte>>>)
    ensures Attempt(acks, responses).step.StillBusy? <==> BusyAt(acks, responses, 0)
    ensures BusyAt(acks, responses, 0) ==>
      Attempt(acks, responses).acks == acks[1..] && Attempt(acks, responses).responses == responses[1..]
  {
  }

  /**
   * The loop gives up for a busy device exactly when every attempt it may
   * still make is acknowledged and answered by a valid frame with the busy
   * bit set.
   */
  lemma {:induction false} BusyTimeoutExactly(maxBusyCycles: nat, acks: seq<bool>, responses: seq<Option<seq<Byte>>>, cycles: nat)
    requires cycles <= maxBusyCycles + 1
    ensures MeasureFrom(maxBusyCycles, acks, responses, cycles).outcome == GaveUp(DeviceBusy)
        <==> forall k :: 0 <= k < maxBusyCycles + 1 - cycles ==> BusyAt(acks, responses, k)
    decreases maxBusyCycles + 1 - cycles
  {
    var n := maxBusyCycles + 1 - cycles;
    if cycles <= maxBusyCycles {
      AttemptBusy(acks, responses);
      if BusyAt(acks, responses, 0) {
        BusyTimeoutExactly(maxBusyCycles, acks[1..], responses[1..], cycles + 1);
        forall k | 0 <= k < n - 1
          ensures BusyAt(acks[1..], responses[1..], k) == BusyAt(acks, responses, k + 1)
        {
        }
        if forall k :: 0 <= k < n - 1 ==> BusyAt(acks[1..], responses[1..], k) {
          forall k | 0 <= k < n ensures BusyAt(acks, responses, k) {
            if k > 0 {
              assert BusyAt(acks[1..], responses[1..], k - 1);
            }
          }
        }
      } else {
        assert !BusyAt(acks, responses, 0);
      }
    } else {
      assert MeasureFrom(maxBusyCycles, acks, responses, cycles).outcome == GaveUp(DeviceBusy);
    }
  }

  /** A bus that acknowledges the first trigger and answers with a ready frame yields that frame after one cycle. */
  lemma FirstReadyFrameMeasured(maxBusyCycles: nat, frame: seq<Byte>, acks: seq<bool>, responses: seq<Option<seq<Byte>>>)
    requires CheckFrame(frame) == Ready
    ensures Measure(maxBusyCycles, [true] + acks, [Some(frame)] + responses) == Run(Measured(frame), 1, acks, responses)
  {
    assert ([true] + acks)[1..] == acks;
    assert ([Some(frame)] + responses)[1..] == responses;
  }

  // ---------------------------------------------------------------------
  // The bus and the sensor object

  /**
   * The I2C device at address 0x38 as the driver sees it. `Write` is
   * `_safe_i2c_write`: it reports whether the payload was acknowledged.
   * `Read` is `i2c_read`, whose response may have any length.
   */
  class Bus {
    /** Outcomes of the writes still to come: true for ACK. */
    var acks: seq<bool>
    /** Responses of the reads still to come. */
    var responses: seq<Option<seq<Byte>>>
    /** Every payload written so far, in order. */
    var sent: seq<seq<Byte>>

    constructor (acks: seq<bool>, responses: seq<Option<seq<Byte>>>)
      ensures this.acks == acks && this.responses == responses && sent == []
    {
      this.acks := acks;
      this.responses := responses;
      sent := [];
    }

    method Write(payload: seq<Byte>) returns (ack: bool)
      modifies this
      ensures ack == (old(acks) != [] && old(acks)[0])
      ensures acks == Next(old(acks)) && responses == old(responses)
      ensures sent == old(sent) + [payload]
    {
      ack := acks != [] && acks[0];
      acks := Next(acks);
      sent := sent + [payload];
    }

    method Read(count: nat) returns (response: Option<seq<Byte>>)
      modifies this
      ensures response == (if old(responses) == [] then None else old(responses)[0])
      ensures responses == Next(old(responses)) && acks == old(acks) && sent == old(sent)
    {
      response := if responses == [] then None else responses[0];
      responses := Next(responses);
    }
  }

  /** The `AHT30` sensor object: the last reading and the bus it talks over. */
  class Aht30 {
    var temp: real
    var humidity: int
    const i2c: Bus
    /** `AHT30_COMMANDS['MEASURE']` */
    const measureCommand: seq<Byte>
    /** `AHT10_MAX_BUSY_CYCLES` */
    const maxBusyCycles: nat

    constructor (i2c: Bus, measureCommand: seq<Byte>, maxBusyCycles: nat)
      ensures temp == 0.0 && humidity == 0
      ensures this.i2c == i2c && this.measureCommand == measureCommand && this.maxBusyCycles == maxBusyCycles
    {
      temp := 0.0;
      humidity := 0;
      this.i2c := i2c;
      this.measureCommand := measureCommand;
      this.maxBusyCycles := maxBusyCycles;
    }

    /**
     * One pass of the loop body of `_make_measurement` after the bound
     * check: trigger a measurement, read seven bytes, reject a read of the
     * wrong length or with a bad checksum, and report the busy bit.
     */
    method TriggerAndRead() returns (step: Step)
      modifies i2c
      ensures var c := Attempt(old(i2c.acks), old(i2c.responses));
        step == c.step && i2c.acks == c.acks && i2c.responses == c.responses
      ensures i2c.sent == old(i2c.sent) + [measureCommand]
    {
      var acked := i2c.Write(measureCommand);
      if !acked {
        return Finished(GaveUp(WriteNacked));
      }

      var read := i2c.Read(FrameLength);
      if read.None? {
        return Finished(GaveUp(NoResponse));
      }
      var data := read.value;
      if |data| != FrameLength {
        return Finished(GaveUp(BadLength));
      }

      var crc := Crc8.CalcCrc8(data[..6]);
      if crc != data[6] {
        return Finished(GaveUp(BadChecksum));
      }

      if IsBusy(data[0]) {
        return StillBusy;
      }
      return Finished(Measured(data));
    }

    /**
     * `_make_measurement`: trigger, read and check until the busy bit
     * clears or the cycle bound is exceeded. On success the reading is
     * replaced by the converted frame; on every failure it is untouched.
     */
    method MakeMeasurement() returns (ok: bool)
      modifies this, i2c
      ensures var run := Measure(maxBusyCycles, old(i2c.acks), old(i2c.responses));
        && ok == run.outcome.Measured?
        && i2c.acks == run.acks && i2c.responses == run.responses
        && i2c.sent == old(i2c.sent) + Repeat(measureCommand, run.cycles)
        && (ok ==> CheckFrame(run.outcome.frame) == Ready
                   && Reading(temp, humidity) == DecodeFrame(run.outcome.frame))
        && (!ok ==> temp == old(temp) && humidity == old(humidity))
    {
      ghost var run := Measure(maxBusyCycles, i2c.acks, i2c.responses);
      var data: seq<Byte> := [];
      var isBusy := true;
      var cycles: nat := 0;
      while isBusy
        invariant cycles <= maxBusyCycles + 1
        invariant i2c.sent == old(i2c.sent) + Repeat(measureCommand, cycles)
        invariant temp == old(temp) && humidity == old(humidity)
        invariant isBusy ==> MeasureFrom(maxBusyCycles, i2c.acks, i2c.responses, cycles) == run
        invariant !isBusy ==> run == Run(Measured(data), cycles, i2c.acks, i2c.responses)
        decreases maxBusyCycles + 1 - cycles
      {
        if cycles > maxBusyCycles {
          return false;
        }
        ghost var c := Attempt(i2c.acks, i2c.responses);
        assert run == if c.step.StillBusy? then MeasureFrom(maxBusyCycles, c.acks, c.responses, cycles + 1)
                      else Run(c.step.outcome, cycles + 1, c.acks, c.responses);
        cycles := cycles + 1;
        var step := TriggerAndRead();
        if step.Finished? {
          if step.outcome.GaveUp? {
            return false;
          }
          data := step.outcome.frame;
          isBusy := false;
        }
      }

      MeasuredFrameReady(maxBusyCycles, old(i2c.acks), old(i2c.responses), 0);
      var tempRaw := TempRaw(data);
      temp := Temperature(tempRaw);
      var humRaw := HumRaw(data);
      humidity := Humidity(humRaw);
      ok := true;
    }

    /**
     * `_sample_aht30` up to its failure branch: a failed measurement zeroes
     * both readings, and the timer is then not rescheduled (`ok` is false).
     */
    method Sample() returns (ok: bool)
      modifies this, i2c
      ensures var run := Measure(maxBusyCycles, old(i2c.acks), old(i2c.responses));
        && ok == run.outcome.Measured?
        && i2c.acks == run.acks && i2c.responses == run.responses
        && i2c.sent == old(i2c.sent) + Repeat(measureCommand, run.cycles)
        && (ok ==> CheckFrame(run.outcome.frame) == Ready
                   && Reading(temp, humidity) == DecodeFrame(run.outcome.frame))
        && (!ok ==> temp == 0.0 && humidity == 0)
    {
      ok := MakeMeasurement();
      if !ok {
        temp := 0.0;
        humidity := 0;
      }
    }
  }
}
