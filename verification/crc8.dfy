/**
 * CRC-8 as computed by `calc_crc8` in aht30.py: generator polynomial 0x31
 * (x^8 + x^5 + x^4 + 1), register preset 0xFF, most significant bit first,
 * no reflection and no final XOR.
 *
 * The register is a `bv8`: shifting left and masking with 0xFF, as the
 * source does after every step, is exactly the truncating shift of an
 * eight-bit vector.
 */
module Crc8 {
  import opened Types

  const Polynomial: bv8 := 0x31
  const Preset: bv8 := 0xFF

  /** One pass of the inner loop: shift left, folding in the polynomial when the top bit was set. */
  function ShiftBit(crc: bv8): bv8 {
    if crc & 0x80 != 0 then (crc << 1) ^ Polynomial else crc << 1
  }

  /** `n` passes of the inner loop. */
  function Shift(crc: bv8, n: nat): bv8
    decreases n
  {
    if n == 0 then crc else Shift(ShiftBit(crc), n - 1)
  }

  /** One pass of the outer loop: XOR the byte into the register, then eight shifts. */
  function Update(crc: bv8, b: Byte): bv8 {
    Shift(crc ^ b, 8)
  }

  /** The register after feeding `data`, starting from register value `crc` (a left fold). */
  function CrcFrom(crc: bv8, data: seq<Byte>): bv8
    decreases |data|
  {
    if data == [] then crc else CrcFrom(Update(crc, data[0]), data[1..])
  }

  /** The checksum `calc_crc8(data)`; being a `bv8`, it is always in 0..255. */
  function Crc8(data: seq<Byte>): (r: Byte)
    ensures data == [] ==> r == 0xFF
  {
    CrcFrom(Preset, data)
  }

  /** The looping computation of `calc_crc8`, proved equal to the fold above. */
  method CalcCrc8(data: seq<Byte>) returns (r: Byte)
    ensures r == Crc8(data)
  {
    var crc: bv8 := Preset;
    var i := 0;
    while i < |data|
      invariant 0 <= i <= |data|
      invariant CrcFrom(crc, data[i..]) == CrcFrom(Preset, data)
    {
      crc := crc ^ data[i];
      ghost var start := crc;
      var j := 0;
      while j < 8
        invariant 0 <= j <= 8
        invariant Shift(crc, 8 - j) == Shift(start, 8)
      {
        if crc & 0x80 != 0 {
          crc := (crc << 1) ^ Polynomial;
        } else {
          crc := crc << 1;
        }
        j := j + 1;
      }
      assert data[i..][1..] == data[i + 1..];
      i := i + 1;
    }
    r := crc;
  }

  // ---------------------------------------------------------------------
  // Properties of the checksum

  /** The checksum of a concatenation continues from the checksum of the prefix. */
  lemma {:induction false} CrcFromAppend(crc: bv8, a: seq<Byte>, b: seq<Byte>)
    ensures CrcFrom(crc, a + b) == CrcFrom(CrcFrom(crc, a), b)
    decreases |a|
  {
    if a == [] {
      assert a + b == b;
    } else {
      assert (a + b)[0] == a[0];
      assert (a + b)[1..] == a[1..] + b;
      CrcFromAppend(Update(crc, a[0]), a[1..], b);
    }
  }

  /** `calc_crc8` of `a + b` is `b` processed from the register value `calc_crc8(a)`. */
  lemma Crc8Append(a: seq<Byte>, b: seq<Byte>)
    ensures Crc8(a + b) == CrcFrom(Crc8(a), b)
  {
    CrcFromAppend(Preset, a, b);
  }

  /** Shifting a cleared register keeps it cleared. */
  lemma {:induction false} ShiftZero(n: nat)
    ensures Shift(0, n) == 0
    decreases n
  {
    if n > 0 {
      assert ShiftBit(0) == 0;
      ShiftZero(n - 1);
    }
  }

  /** One shift step loses no information. */
  lemma ShiftBitInjective(a: bv8, b: bv8)
    ensures ShiftBit(a) == ShiftBit(b) ==> a == b
  {
  }

  /** Any number of shift steps loses no information. */
  lemma {:induction false} ShiftInjective(a: bv8, b: bv8, n: nat)
    ensures Shift(a, n) == Shift(b, n) ==> a == b
    decreases n
  {
    if n > 0 {
      ShiftInjective(ShiftBit(a), ShiftBit(b), n - 1);
      ShiftBitInjective(a, b);
    }
  }

  /** Feeding the same data from two different register values gives two different registers. */
  lemma {:induction false} CrcFromInjective(c: bv8, d: bv8, data: seq<Byte>)
    ensures CrcFrom(c, data) == CrcFrom(d, data) ==> c == d
    decreases |data|
  {
    if data != [] {
      CrcFromInjective(Update(c, data[0]), Update(d, data[0]), data[1..]);
      ShiftInjective(c ^ data[0], d ^ data[0], 8);
    }
  }

  /** Feeding a byte into the register clears it exactly when the byte equals the register. */
  lemma UpdateZero(crc: bv8, b: Byte)
    ensures Update(crc, b) == 0 <==> b == crc
  {
    ShiftZero(8);
    ShiftInjective(crc ^ b, 0, 8);
  }

  /** Appending its own checksum to a message clears the register. */
  lemma CrcResidueZero(d: seq<Byte>)
    ensures CrcFrom(Preset, d + [Crc8(d)]) == 0
  {
    CrcFromAppend(Preset, d, [Crc8(d)]);
    UpdateZero(CrcFrom(Preset, d), Crc8(d));
  }

  /**
   * The test the driver makes on a 7-byte frame (checksum of bytes 0..5
   * equals byte 6) is the same as asking that the whole frame leave a
   * cleared register.
   */
  lemma FrameCheckIsResidue(f: seq<Byte>)
    requires |f| == 7
    ensures Crc8(f[..6]) == f[6] <==> CrcFrom(Preset, f) == 0
  {
    assert f == f[..6] + [f[6]];
    CrcFromAppend(Preset, f[..6], [f[6]]);
    UpdateZero(CrcFrom(Preset, f[..6]), f[6]);
  }

  /** Two different bytes fed into the same register leave two different registers. */
  lemma UpdateInjective(c: bv8, x: Byte, y: Byte)
    requires x != y
    ensures Update(c, x) != Update(c, y)
  {
    assert (c ^ x) ^ c == x;
    ShiftInjective(c ^ x, c ^ y, 8);
  }

  /** The register after `pre + [x] + post`, unfolded at the byte `x`. */
  lemma CrcFromSplit(pre: seq<Byte>, x: Byte, post: seq<Byte>)
    ensures CrcFrom(Preset, pre + [x] + post) == CrcFrom(Update(CrcFrom(Preset, pre), x), post)
  {
    CrcFromAppend(Preset, pre + [x], post);
    CrcFromAppend(Preset, pre, [x]);
    assert [x][1..] == [];
  }

  /** Changing any single byte of a message changes its checksum. */
  lemma SingleByteChangeDetected(pre: seq<Byte>, x: Byte, y: Byte, post: seq<Byte>)
    requires x != y
    ensures Crc8(pre + [x] + post) != Crc8(pre + [y] + post)
  {
    var c := CrcFrom(Preset, pre);
    CrcFromSplit(pre, x, post);
    CrcFromSplit(pre, y, post);
    UpdateInjective(c, x, y);
    CrcFromInjective(Update(c, x), Update(c, y), post);
  }

  /** Published check value of this CRC variant: the two bytes 0xBE 0xEF give 0x92. */
  lemma CheckValue()
    ensures Crc8([0xBE, 0xEF]) == 0x92
  {
  }
}
