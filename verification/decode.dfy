/**
 * One AHT30 measurement frame: its validation and its conversion to
 * engineering units (`AHT30._make_measurement` in aht30.py).
 *
 * Wire layout of the seven bytes:
 *   [status][hum_hi][hum_mid][hum_lo | temp_hi][temp_mid][temp_lo][crc8]
 * Bit 7 of the status byte is the busy flag; the two 20-bit raw codes
 * share byte 3, humidity taking its high nibble and temperature its low one.
 */
module Decode {
  import opened Types
  import opened PyInt
  import Crc8

  const FrameLength := 7
  const BusyMask: Byte := 0x80
  /** Full scale of a 20-bit raw code, 2^20. */
  const RawScale := 1048576

  /** How the driver classifies the bytes of one read. */
  datatype FrameStatus = WrongLength | CrcMismatch | Busy | Ready

  /** A converted measurement: degrees Celsius and integer percent relative humidity. */
  datatype Reading = Reading(temperature: real, humidity: int)

  /**
   * `status & 0x80`: the sensor is still converting. Both operands are below
   * 256, so Python's `&` on them is the `&` of two eight-bit vectors.
   */
  predicate IsBusy(status: Byte) {
    status & BusyMask != 0
  }

  /** The busy flag is the top bit of the status byte. */
  lemma BusyIsTopBit(status: Byte)
    ensures IsBusy(status) <==> status as int >= 128
  {
  }

  /**
   * The checks made on one read, in the source's order: length, then
   * checksum of bytes 0..5 against byte 6, then the busy flag.
   */
  function CheckFrame(data: seq<Byte>): FrameStatus {
    if |data| != FrameLength then WrongLength
    else if Crc8.Crc8(data[..6]) != data[6] then CrcMismatch
    else if IsBusy(data[0]) then Busy
    else Ready
  }

  /**
   * What the classification means: a frame of the right length is accepted
   * exactly when it leaves a cleared CRC register and its top status bit is
   * clear, and is reported busy exactly when the register clears but the
   * top bit is set.
   */
  lemma CheckFrameMeaning(data: seq<Byte>)
    ensures CheckFrame(data) == WrongLength <==> |data| != FrameLength
    ensures CheckFrame(data) == CrcMismatch
        <==> |data| == FrameLength && Crc8.CrcFrom(Crc8.Preset, data) != 0
    ensures CheckFrame(data) == Busy
        <==> |data| == FrameLength && Crc8.CrcFrom(Crc8.Preset, data) == 0 && data[0] as int >= 128
    ensures CheckFrame(data) == Ready
        <==> |data| == FrameLength && Crc8.CrcFrom(Crc8.Preset, data) == 0 && data[0] as int < 128
  {
    if |data| == FrameLength {
      Crc8.FrameCheckIsResidue(data);
      BusyIsTopBit(data[0]);
    }
  }

  /** A frame that passed all checks and then had any one byte changed is rejected. */
  lemma CorruptedFrameRejected(f: seq<Byte>, i: nat, v: Byte)
    requires CheckFrame(f) == Ready
    requires i < |f| && v != f[i]
    ensures CheckFrame(f[i := v]) == CrcMismatch
  {
    var g := f[i := v];
    assert f == f[..i] + [f[i]] + f[i + 1..];
    assert g == f[..i] + [v] + f[i + 1..];
    CheckFrameMeaning(f);
    CheckFrameMeaning(g);
    Crc8.SingleByteChangeDetected(f[..i], f[i], v, f[i + 1..]);
  }

  // ---------------------------------------------------------------------
  // Raw codes

  /** `(hi << 16) | (mid << 8) | lo` packs three bytes big-endian when `mid` and `lo` are bytes. */
  lemma PackThreeBytes(hi: nat, mid: nat, lo: nat)
    requires mid < 256 && lo < 256
    ensures Or(Or(Shl(hi, 16), Shl(mid, 8)), lo) == hi * 65536 + mid * 256 + lo
  {
    Pow2Values();
    var upper := hi * 256 + mid;
    assert Shl(hi, 16) == hi * Pow2(16) == hi * 65536;
    assert Shl(mid, 8) == mid * Pow2(8) == mid * 256;
    OrDisjoint(hi, mid * 256, 16);
    assert Or(Shl(hi, 16), Shl(mid, 8)) == upper * 256;
    assert upper * 256 == upper * Pow2(8);
    OrDisjoint(upper, lo, 8);
  }

  /** Dropping the low nibble of three packed bytes. */
  lemma ShiftOutNibble(b1: nat, b2: nat, b3: nat)
    requires b3 < 256
    ensures Shr(b1 * 65536 + b2 * 256 + b3, 4) == b1 * 4096 + b2 * 16 + b3 / 16
  {
  }

  /** `((data[1] << 16) | (data[2] << 8) | data[3]) >> 4`: the 20-bit humidity code. */
  function HumRaw(f: seq<Byte>): (r: nat)
    requires |f| == FrameLength
    ensures r == (f[1] as int) * 4096 + (f[2] as int) * 16 + (f[3] as int) / 16
    ensures r < RawScale
  {
    var b1: nat, b2: nat, b3: nat := f[1] as int, f[2] as int, f[3] as int;
    PackThreeBytes(b1, b2, b3);
    ShiftOutNibble(b1, b2, b3);
    Shr(Or(Or(Shl(b1, 16), Shl(b2, 8)), b3), 4)
  }

  /** Keeping the low nibble of one byte and packing it above two more bytes. */
  lemma MaskAndPack(b3: nat, b4: nat, b5: nat)
    requires b4 < 256 && b5 < 256
    ensures Or(Or(Shl(And(b3, 0x0F), 16), Shl(b4, 8)), b5) == (b3 % 16) * 65536 + b4 * 256 + b5
  {
    Pow2Values();
    AndLowMask(b3, 4);
    assert And(b3, 0x0F) == b3 % 16;
    PackThreeBytes(b3 % 16, b4, b5);
  }

  /** `((data[3] & 0x0F) << 16) | (data[4] << 8) | data[5]`: the 20-bit temperature code. */
  function TempRaw(f: seq<Byte>): (r: nat)
    requires |f| == FrameLength
    ensures r == ((f[3] as int) % 16) * 65536 + (f[4] as int) * 256 + (f[5] as int)
    ensures r < RawScale
  {
    var b3: nat, b4: nat, b5: nat := f[3] as int, f[4] as int, f[5] as int;
    MaskAndPack(b3, b4, b5);
    Or(Or(Shl(And(b3, 0x0F), 16), Shl(b4, 8)), b5)
  }

  /**
   * The two codes split bytes 1..5 exactly: humidity is the top 20 of those
   * 40 bits and temperature the bottom 20, with nothing lost or shared.
   */
  lemma RawCodesSplitPayload(f: seq<Byte>)
    requires |f| == FrameLength
    ensures HumRaw(f) * RawScale + TempRaw(f)
         == (((((f[1] as int) * 256 + f[2] as int) * 256 + f[3] as int) * 256 + f[4] as int) * 256 + f[5] as int)
  {
    var b3 := f[3] as int;
    assert b3 == (b3 / 16) * 16 + b3 % 16;
  }

  // ---------------------------------------------------------------------
  // Scaling

  /** Python's `int(x)` on a float: truncation toward zero. */
  function Trunc(x: real): int {
    if x >= 0.0 then x.Floor else -((-x).Floor)
  }

  /** `int(hum_raw * 100 / 1048576)`, then clamped to 0..100. */
  function Humidity(humRaw: nat): (h: int)
    ensures 0 <= h <= 100
  {
    var scaled := Trunc((humRaw as real) * 100.0 / (RawScale as real));
    if scaled > 100 then 100
    else if scaled < 0 then 0
    else scaled
  }

  /**
   * For every 20-bit code the float division is an exact integer quotient,
   * the result never exceeds 99, and so neither clamp ever changes it.
   */
  lemma HumidityExact(humRaw: nat)
    requires humRaw < RawScale
    ensures Humidity(humRaw) == humRaw * 100 / RawScale
    ensures Humidity(humRaw) <= 99
  {
  }

  /** More raw humidity never reads as less humidity. */
  lemma HumidityMonotone(a: nat, b: nat)
    requires a <= b
    ensures Humidity(a) <= Humidity(b)
  {
  }

  /** `temp_raw * 200.0 / 1048576 - 50.0` */
  function Temperature(tempRaw: nat): (t: real)
    ensures tempRaw < RawScale ==> -50.0 <= t < 150.0
  {
    (tempRaw as real) * 200.0 / (RawScale as real) - 50.0
  }

  /** The raw code a temperature came from: the inverse of the linear conversion. */
  function TempRawOf(t: real): int {
    ((t + 50.0) * (RawScale as real) / 200.0).Floor
  }

  /** The temperature conversion loses nothing: every raw code is recovered from its temperature. */
  lemma TemperatureInvertible(tempRaw: nat)
    ensures TempRawOf(Temperature(tempRaw)) == tempRaw
  {
  }

  /** The converted values of a 7-byte frame. */
  function DecodeFrame(f: seq<Byte>): (r: Reading)
    requires |f| == FrameLength
    ensures -50.0 <= r.temperature < 150.0
    ensures 0 <= r.humidity <= 99
    ensures r.temperature == Temperature(TempRaw(f))
    ensures r.humidity == HumRaw(f) * 100 / RawScale
  {
    HumidityExact(HumRaw(f));
    Reading(Temperature(TempRaw(f)), Humidity(HumRaw(f)))
  }

  /** The worked frame used below: status 0x00, payload 0x19 0x99 0x9A 0x2C 0xCC, checksum 0x48. */
  const WorkedExample: seq<Byte> := [0x00, 0x19, 0x99, 0x9A, 0x2C, 0xCC, 0x48]

  /** The worked frame passes every check. */
  lemma WorkedFrameReady()
    ensures CheckFrame(WorkedExample) == Ready
  {
    var d: seq<Byte> := [0x00, 0x19, 0x99, 0x9A, 0x2C, 0xCC];
    assert WorkedExample[..6] == d;
    assert Crc8.Update(0xFF, 0x00) == 0xAC;
    assert Crc8.Update(0xAC, 0x19) == 0x4A;
    assert Crc8.Update(0x4A, 0x99) == 0x57;
    assert Crc8.Update(0x57, 0x9A) == 0x0B;
    assert Crc8.Update(0x0B, 0x2C) == 0x11;
    assert Crc8.Update(0x11, 0xCC) == 0x48;
    assert Crc8.CrcFrom(0x11, d[5..]) == 0x48;
    assert Crc8.CrcFrom(0x0B, d[4..]) == 0x48;
    assert Crc8.CrcFrom(0x57, d[3..]) == 0x48;
    assert Crc8.CrcFrom(0x4A, d[2..]) == 0x48;
    assert Crc8.CrcFrom(0xAC, d[1..]) == 0x48;
    assert Crc8.CrcFrom(0xFF, d) == 0x48;
  }

  /**
   * The worked frame's raw codes are 0x19999 and 0xA2CCC, which convert to
   * 9 %RH and 77.187347412109375 degrees Celsius.
   */
  lemma WorkedFrameReading()
    ensures DecodeFrame(WorkedExample) == Reading(77.187347412109375, 9)
  {
    var f := WorkedExample;
    assert HumRaw(f) == 0x19999;
    assert TempRaw(f) == 0xA2CCC;
    HumidityExact(0x19999);
  }
}
