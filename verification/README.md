# AHT30 frame handling in Dafny

A model of the AHT30 temperature and humidity driver in `aht30.py`, covering:

- the CRC-8 used to protect each measurement frame (`calc_crc8`);
- the checks and unit conversion applied to one 7-byte frame;
- the bounded busy-retry loop of `AHT30._make_measurement`;
- the reset of the readings when a sample fails (`AHT30._sample_aht30`).

The model has four modules:

- `Crc8` (`crc8.dfy`): the checksum. `Crc8` is a recursive left fold over the bytes. `CalcCrc8` is the nested-loop computation of the source, proved equal to the fold. The register is an eight-bit vector, so masking with `0xFF` after every shift is the vector's own truncation.
- `PyInt` (`pyint.dfy`): Python's `<<`, `>>`, `|` and `&` on non-negative integers. The raw-code expressions are built from these operators, and the module proves what they compute in the shapes the driver uses.
- `Decode` (`decode.dfy`): frame classification (`CheckFrame`), the two 20-bit raw codes, and the scaling to degrees Celsius and percent relative humidity.
- `Sensor` (`sensor.dfy`) holds three things:
  - the I2C device as an oracle class `Bus`, which takes a script of write acknowledgements and a script of read responses;
  - the loop as a specification function `Measure`;
  - the driver object as the class `Aht30`, whose methods run the loop against the bus and update `temp` and `humidity` in place.
- `Types` (`types.dfy`): the byte type and `Option`.

The measure command and the busy-cycle bound come from the AHT10 driver module, which is not part of this model. They are constructor parameters of `Aht30`.

Python floats are modelled as exact reals. Every value the driver computes is exact in double precision:

- humidity: `hum_raw * 100` is below 2^27, and the divisor is a power of two;
- temperature: `temp_raw * 200` is below 2^28; scaling by 2^-20 and subtracting 50 stays within 53 bits.

So the reals agree with the floats the driver computes. `int(...)` on the humidity is truncation toward zero (`Decode.Trunc`).

For the frame `00 19 99 9A 2C CC 48`, the formulas give hum_raw 0x19999 and temp_raw 0xA2CCC, that is 9 %RH and 77.187347412109375 °C (`Decode.WorkedFrameReading`); 0x48 is the CRC-8 of the first six bytes (`Decode.WorkedFrameReady`).

## Model

| member | source | states |
|---|---|---|
| Crc8.Crc8 | aht30.py:17-27 | The CRC-8 (polynomial 0x31, preset 0xFF, MSB first, no final XOR) as a fold. Its result is a byte by type, and the empty input gives 0xFF. |
| Crc8.ShiftBit | aht30.py:23-26 | One pass of the inner loop: shift the register left by one, XOR-ing in 0x31 when its top bit was set, truncated to eight bits. |
| Crc8.Update | aht30.py:21-26 | One pass of the outer loop: XOR the byte into the register, then eight inner passes. |
| Crc8.CrcFrom | aht30.py:20-26 | The register after feeding a byte sequence from a given register value, one outer pass per byte in order. |
| Crc8.CalcCrc8 | aht30.py:17-27 | The nested-loop computation (XOR the byte in, eight conditional shift-and-XOR steps, mask to 8 bits) returns exactly `Crc8(data)`. |
| Crc8.Crc8Append | aht30.py:20-26 | The CRC is a left fold: the CRC of `a + b` continues from register value `Crc8(a)` over `b`. |
| Crc8.CrcFromAppend | aht30.py:20-26 | Feeding `a + b` from any register value is feeding `a`, then `b`. |
| Crc8.UpdateZero | aht30.py:21-26 | One byte step clears the register exactly when the byte equals the register. |
| Crc8.ShiftInjective | aht30.py:22-26 | The eight inner shift steps never map two different registers to the same value. |
| Crc8.CrcFromInjective | aht30.py:20-26 | Feeding the same bytes into two different registers leaves two different registers. |
| Crc8.CrcResidueZero | aht30.py:21-26 | Appending a sequence's own checksum and feeding it through leaves the register at zero. |
| Crc8.FrameCheckIsResidue | aht30.py:98 | For a 7-byte frame, byte 6 equals the CRC of bytes 0..5 exactly when the CRC register over all seven bytes ends at zero. |
| Crc8.SingleByteChangeDetected | aht30.py:98 | Changing one byte anywhere in the input always changes the CRC register. |
| Crc8.CheckValue | aht30.py:17-27 | The published test vector of this CRC-8 variant: bytes 0xBE 0xEF give 0x92. |
| PyInt.OrDisjoint | aht30.py:109-111 | OR-ing a value below `2^k` into a value shifted left by `k` is addition. |
| PyInt.AndLowMask | aht30.py:109 | Masking with `2^k - 1` is the remainder modulo `2^k`. |
| PyInt.Shl | aht30.py:109-111 | Python `a << k` on a non-negative integer: `a * 2^k`, unbounded. |
| PyInt.Shr | aht30.py:111 | Python `a >> k` on a non-negative integer: `a div 2^k`. |
| PyInt.Or | aht30.py:109-111 | Python `a \| b` on non-negative integers, bit by bit from the least significant end. |
| PyInt.And | aht30.py:109 | Python `a & b` on non-negative integers, bit by bit from the least significant end. |
| Decode.IsBusy | aht30.py:102 | `data[0] & 0x80` is non-zero, computed on the eight-bit status byte. |
| Decode.CheckFrame | aht30.py:95-102 | Classifies one read in the source's order: wrong length, then checksum of bytes 0..5 against byte 6, then the busy bit, else ready. |
| Decode.BusyIsTopBit | aht30.py:102 | `status & 0x80` is non-zero exactly when the status byte is at least 128. |
| Decode.CheckFrameMeaning | aht30.py:95-102 | Both directions for each class. A frame is WrongLength iff it is not 7 bytes long. It is CrcMismatch iff it is 7 bytes and the CRC register over it does not clear. It is Busy iff the register clears and the status byte is at least 128. It is Ready iff the register clears and the status byte is below 128. |
| Decode.CorruptedFrameRejected | aht30.py:95-100 | A frame that passed every check and then had any one byte changed is rejected with CrcMismatch. |
| Decode.PackThreeBytes | aht30.py:109-111 | `(hi << 16) \| (mid << 8) \| lo` is the big-endian value `hi*65536 + mid*256 + lo` when `mid` and `lo` are bytes. |
| Decode.ShiftOutNibble | aht30.py:111 | Shifting three packed bytes right by 4 drops the low nibble of the last byte. |
| Decode.MaskAndPack | aht30.py:109 | `((b3 & 0x0F) << 16) \| (b4 << 8) \| b5` keeps the low nibble of `b3` above the two further bytes. |
| Decode.HumRaw | aht30.py:111 | The humidity code is bytes 1 and 2 followed by the high nibble of byte 3 (`f1*4096 + f2*16 + f3 div 16`), and it is below 2^20. |
| Decode.TempRaw | aht30.py:109 | The temperature code is the low nibble of byte 3 followed by bytes 4 and 5 (`(f3 mod 16)*65536 + f4*256 + f5`), and it is below 2^20. |
| Decode.RawCodesSplitPayload | aht30.py:109-111 | The two codes together are exactly the 40-bit big-endian value of bytes 1..5: humidity the upper 20 bits, temperature the lower 20, with nothing lost or shared. |
| Decode.Trunc | aht30.py:112 | Python `int(x)` on a float: truncation toward zero. |
| Decode.Humidity | aht30.py:112-116 | After the clamp, the humidity always lies in 0..100. |
| Decode.HumidityExact | aht30.py:111-116 | For every 20-bit code, the truncated float division equals the integer quotient `hum_raw*100 div 2^20`. That is at most 99, so neither clamp branch ever changes the value. |
| Decode.HumidityMonotone | aht30.py:112-116 | A larger raw humidity code never gives a smaller humidity. |
| Decode.Temperature | aht30.py:110 | For every 20-bit code, the temperature lies in [-50, 150). |
| Decode.TemperatureInvertible | aht30.py:110 | The conversion loses nothing: the raw code is recovered from the temperature by the inverse linear map. |
| Decode.DecodeFrame | aht30.py:108-116 | The reading of a 7-byte frame has temperature `Temperature(TempRaw)`, which lies in [-50, 150), and humidity equal to `HumRaw*100 div 2^20`, which lies in 0..99. |
| Decode.WorkedFrameReady | aht30.py:95-102 | The frame `00 19 99 9A 2C CC 48` passes the length, checksum and busy checks. |
| Decode.WorkedFrameReading | aht30.py:108-116 | That frame converts to 77.187347412109375 °C and 9 %RH. |
| Sensor.Attempt | aht30.py:85-102 | One pass of the loop body after the bound check: a NACKed write, an empty read, a wrong length or a checksum mismatch ends the measurement with that failure; otherwise the busy bit decides between going round again and finishing with the frame. It returns what is left of both bus scripts. |
| Sensor.MeasureFrom | aht30.py:79-102 | The loop from a given cycle count: give up as busy once the count exceeds the bound, otherwise count one cycle, make one attempt and go round again while the device is busy. |
| Sensor.Measure | aht30.py:74-102 | A whole run of the loop, starting with `cycles == 0`. |
| Sensor.AttemptBusy | aht30.py:86-102 | One pass of the loop body ends with the busy bit set exactly when the write is acknowledged and the read returns a 7-byte, correctly checksummed frame with bit 7 set. It then consumes one entry of each script. |
| Sensor.MeasuredFrameReady | aht30.py:79-102 | Whenever the loop ends with a frame, that frame is classified Ready. |
| Sensor.MeasuredFrameValid | aht30.py:95-102 | A successful measurement's frame has exactly 7 bytes, byte 6 equal to the CRC-8 of bytes 0..5, and status below 128 (bit 7 clear). |
| Sensor.CyclesBounded | aht30.py:79-87 | Starting within the bound, the loop makes at least one and at most `AHT10_MAX_BUSY_CYCLES + 1` trigger writes in all. |
| Sensor.BusyTimeoutExactly | aht30.py:79-102 | Both directions: the loop gives up with DeviceBusy exactly when every attempt it may still make is acknowledged and answered by a valid frame with the busy bit set. |
| Sensor.FirstReadyFrameMeasured | aht30.py:79-102 | If the first trigger is acknowledged and the first read is a Ready frame, the measurement returns that frame after one cycle and consumes one entry of each script. |
| Sensor.Bus.Write | aht30.py:30-36 | Reports ACK exactly when the next scripted outcome is an ACK (an exhausted script NACKs). It consumes that outcome and logs the payload. |
| Sensor.Bus.Read | aht30.py:91-93 | Returns the next scripted response, or nothing once the script is exhausted, and consumes it. |
| Sensor.Aht30.constructor | aht30.py:50 | A new sensor reads 0 °C and 0 %RH. |
| Sensor.Aht30.TriggerAndRead | aht30.py:85-102 | One pass of the loop body after the bound check: its outcome and the remaining scripts are those of `Attempt`, and it writes the measure command once. |
| Sensor.Aht30.MakeMeasurement | aht30.py:73-117 | Proved against `Measure`. It returns true exactly when the loop ends with a frame, and that frame is Ready. The reading then becomes the frame's conversion. On every false return, temperature and humidity are unchanged. The bus scripts are consumed as `Measure` says, and the measure command is written once per cycle. |
| Sensor.Aht30.Sample | aht30.py:121-124 | Same outcome and bus effect as `MakeMeasurement`. On failure both readings are set to zero and the sample reports that it is not rescheduled. |

## Left out

- I2C transport: the bus object, its configuration and its exceptions are not modelled. `Bus` replays a script instead. A failure of the underlying read, whether it returns nothing or raises inside the loop, is folded into the script's "no response" entry.
- Sensor.Bus.Read: the requested length (7) is not used, because a real read may return any number of bytes and the length check handles that.
- Reactor timing: the 110 ms pause, timer registration and the wake-up time of the next sample are not modelled. They are scheduling and I/O.
- Sensor.Aht30.Sample: the timer return value (the next wake-up time, or NEVER on failure) is reduced to a boolean. The temperature range check with `invoke_shutdown` and the measurement callback that follow a success are not modelled; they are host-side effects.
- Sensor.Aht30.constructor: the initial `humidity` is the integer 0, where the source assigns the float 0.0; the model stores humidity as the integer the conversion produces, and both compare equal to zero.
- Sensor.Aht30.Sample: the reset assigns the integer 0 to `humidity`, where the source assigns the float 0.0. Both compare equal to zero.
- Klipper glue is not modelled: `load_config`, `add_object`, the connect handler, `setup_minmax`, `setup_callback`, `get_report_time_delta`.
- `get_status` and its rounding to two decimals are not modelled; that rounding is float arithmetic.
- Logging is not modelled.
- The contents of the AHT10 command table and the busy-cycle bound belong to a module that is not part of this model. They are parameters of `Aht30`.
