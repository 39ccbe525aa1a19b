/**
 * The CRC-16 that both persisted structures use: avr-libc's `_crc16_update`
 * (reflected polynomial 0xA001, i.e. x^16 + x^15 + x^2 + 1) applied byte by
 * byte from the seed 0xFFFF. With that seed and no final XOR this is the
 * CRC-16/MODBUS parameterisation of section 6.2.2 of the Modbus over Serial
 * Line specification V1.02.
 */
module Crc16 {
  import opened Bytes

  /** The seed both callers start from. */
  const Seed: bv16 := 0xFFFF

  /** One of the eight shift rounds of `_crc16_update`. */
  function Step(crc: bv16): bv16 {
    if crc & 1 == 1 then (crc >> 1) ^ 0xA001 else crc >> 1
  }

  /** `n` shift rounds. */
  function Rounds(crc: bv16, n: nat): bv16
    decreases n
  {
    if n == 0 then crc else Rounds(Step(crc), n - 1)
  }

  /** avr-libc `_crc16_update(crc, a)`: XOR the byte into the low bits, then eight rounds. */
  function Update(crc: bv16, a: uint8): bv16 {
    Rounds(crc ^ ByteBits(a), RoundsPerByte)
  }

  /** `_crc16_update` shifts once per bit of the byte. */
  const RoundsPerByte: nat := 8

  /** `v` if `c`, otherwise no bit. */
  function BitIf(c: bool, v: bv16): bv16 {
    if c then v else 0
  }

  /** The low `width` bits of `n` as a register value: for a byte and width 8, the byte widened to 16 bits. */
  function LowBits(n: nat, width: nat): bv16
    requires width <= 8
    decreases width
  {
    if width == 0 then 0 else (LowBits(n / 2, width - 1) << 1) | BitIf(n % 2 == 1, 1)
  }

  /** The eight bits of a byte in the low half of a 16-bit register (the implicit widening in `crc ^= a`). */
  function ByteBits(a: uint8): bv16 {
    LowBits(a as nat, 8)
  }

  /** The CRC of `data` started from `seed`, folding `Update` over the bytes in order. */
  function Crc(seed: bv16, data: seq<uint8>): bv16
    decreases |data|
  {
    if data == [] then seed else Update(Crc(seed, data[..|data| - 1]), data[|data| - 1])
  }

  /**
   * The byte loop every caller of `_crc16_update` writes: start at 0xFFFF and
   * feed the bytes in order.
   */
  method Checksum(data: seq<uint8>) returns (crc: bv16)
    ensures crc == Crc(Seed, data)
  {
    crc := Seed;
    for i := 0 to |data|
      invariant crc == Crc(Seed, data[..i])
    {
      assert data[..i + 1][..i] == data[..i];
      crc := Update(crc, data[i]);
    }
    assert data[..|data|] == data;
  }

  /** Distinct register values have distinct numeric values (as stored in a `uint16_t` field). */
  lemma AsNatInjective(x: bv16, y: bv16)
    ensures x as nat == y as nat ==> x == y
  {
    if x as nat == y as nat {
      assert (x as nat) as bv16 == x;
      assert (y as nat) as bv16 == y;
    }
  }

  /** A shift round loses no information: the top bit of the result records the dropped bit. */
  lemma StepInjective(a: bv16, b: bv16)
    ensures Step(a) == Step(b) ==> a == b
  {
  }

  lemma {:induction false} RoundsInjective(a: bv16, b: bv16, n: nat)
    decreases n
    ensures Rounds(a, n) == Rounds(b, n) ==> a == b
  {
    if n > 0 {
      RoundsInjective(Step(a), Step(b), n - 1);
      StepInjective(a, b);
    }
  }

  function Pow2(width: nat): (p: nat)
    ensures p >= 1
  {
    if width == 0 then 1 else 2 * Pow2(width - 1)
  }

  /** `LowBits(n, width)` stays within the low eight bits of the register. */
  lemma {:induction false} LowBitsBound(n: nat, width: nat)
    requires width <= 8
    ensures LowBits(n, width) < (1 as bv16) << width
    ensures LowBits(n, width) < 0x100
    decreases width
  {
    if width > 0 {
      LowBitsBound(n / 2, width - 1);
    }
  }

  /** A register shifted left with one bit put in below gives back both. */
  lemma ShiftInBit(x1: bv16, x2: bv16, c1: bool, c2: bool)
    requires x1 < 0x8000 && x2 < 0x8000
    requires (x1 << 1) | BitIf(c1, 1) == (x2 << 1) | BitIf(c2, 1)
    ensures x1 == x2 && c1 == c2
  {
  }

  /** Numbers below `2^width` with the same low `width` bits are equal. */
  lemma {:induction false} LowBitsInjective(n1: nat, n2: nat, width: nat)
    requires width <= 8 && n1 < Pow2(width) && n2 < Pow2(width)
    ensures LowBits(n1, width) == LowBits(n2, width) ==> n1 == n2
    decreases width
  {
    if width > 0 && LowBits(n1, width) == LowBits(n2, width) {
      LowBitsBound(n1 / 2, width - 1);
      LowBitsBound(n2 / 2, width - 1);
      ShiftInBit(LowBits(n1 / 2, width - 1), LowBits(n2 / 2, width - 1), n1 % 2 == 1, n2 % 2 == 1);
      LowBitsInjective(n1 / 2, n2 / 2, width - 1);
    }
  }

  /** Widening a byte into the register keeps it apart from every other byte. */
  lemma ByteBitsInjective(a1: uint8, a2: uint8)
    ensures ByteBits(a1) == ByteBits(a2) ==> a1 == a2
  {
    assert Pow2(8) == 256;
    LowBitsInjective(a1 as nat, a2 as nat, 8);
  }

  /** Different running values stay different after the same byte. */
  lemma UpdateInjectiveInCrc(c1: bv16, c2: bv16, a: uint8)
    ensures c1 != c2 ==> Update(c1, a) != Update(c2, a)
  {
    RoundsInjective(c1 ^ ByteBits(a), c2 ^ ByteBits(a), RoundsPerByte);
  }

  /** Different bytes give different values from the same running value. */
  lemma UpdateInjectiveInByte(c: bv16, a1: uint8, a2: uint8)
    ensures a1 != a2 ==> Update(c, a1) != Update(c, a2)
  {
    RoundsInjective(c ^ ByteBits(a1), c ^ ByteBits(a2), RoundsPerByte);
    ByteBitsInjective(a1, a2);
  }

  /**
   * Error detection: two messages of the same length that differ in exactly
   * one byte (in any number of its bits, so in particular in a single bit)
   * have different CRCs.
   */
  lemma {:induction false} CrcDetectsSingleByteChange(seed: bv16, m1: seq<uint8>, m2: seq<uint8>, p: nat)
    requires |m1| == |m2| && p < |m1|
    requires m1[p] != m2[p]
    requires forall k :: 0 <= k < |m1| && k != p ==> m1[k] == m2[k]
    ensures Crc(seed, m1) != Crc(seed, m2)
  {
    var n := |m1| - 1;
    var front1, front2 := m1[..n], m2[..n];
    if p == n {
      assert Crc(seed, m1) != Crc(seed, m2) by {
        CrcLast(seed, m1);
        CrcLast(seed, m2);
        assert front1 == front2;
        UpdateInjectiveInByte(Crc(seed, front1), m1[n], m2[n]);
      }
    } else {
      assert forall k :: 0 <= k < n && k != p ==> front1[k] == front2[k];
      CrcDetectsSingleByteChange(seed, front1, front2, p);
      assert Crc(seed, m1) != Crc(seed, m2) by {
        CrcLast(seed, m1);
        CrcLast(seed, m2);
        assert m1[n] == m2[n];
        UpdateInjectiveInCrc(Crc(seed, front1), Crc(seed, front2), m1[n]);
      }
    }
  }

  /** The CRC of a non-empty message is one `Update` past the CRC of all but its last byte. */
  lemma CrcLast(seed: bv16, m: seq<uint8>)
    requires m != []
    ensures Crc(seed, m) == Update(Crc(seed, m[..|m| - 1]), m[|m| - 1])
  {
  }

  /** From a non-zero seed, a run of zero bytes never brings the CRC to zero. */
  lemma {:induction false} CrcOfZerosNonZero(seed: bv16, n: nat)
    requires seed != 0
    ensures Crc(seed, Zeros(n)) != 0
  {
    if n > 0 {
      assert Zeros(n)[..n - 1] == Zeros(n - 1);
      CrcOfZerosNonZero(seed, n - 1);
      UpdateInjectiveInCrc(Crc(seed, Zeros(n - 1)), 0, 0);
      assert ByteBits(0) == 0;
    }
  }

  /**
   * The check value of CRC-16/MODBUS: the CRC of the ASCII digits "123456789"
   * is 0x4B37.
   */
  lemma ModbusCheckValue(m: seq<uint8>)
    requires m == [0x31, 0x32, 0x33, 0x34, 0x35, 0x36, 0x37, 0x38, 0x39]
    ensures Crc(Seed, m) == 0x4B37
  {
    var t: seq<bv16> := [0xFFFF, 0x947E, 0xF595, 0x7A75, 0x30BA, 0xA471, 0x32E4, 0x9D73, 0x37DD, 0x4B37];
    ModbusDigitUpdates(m, t);
    CrcByTrace(Seed, m, t);
  }

  /**
   * The register before and after each digit of "123456789"; each call lists
   * the register after the XOR and after each of the eight rounds.
   */
  lemma ModbusDigitUpdates(m: seq<uint8>, t: seq<bv16>)
    requires m == [0x31, 0x32, 0x33, 0x34, 0x35, 0x36, 0x37, 0x38, 0x39]
    requires t == [0xFFFF, 0x947E, 0xF595, 0x7A75, 0x30BA, 0xA471, 0x32E4, 0x9D73, 0x37DD, 0x4B37]
    ensures forall k :: 0 <= k < 9 ==> Update(t[k], m[k]) == t[k + 1]
  {
    UpdateByTrace(0xFFFF, 0x31, 0xFFCE, 0x7FE7, 0x9FF2, 0x4FF9, 0x87FD, 0xE3FF, 0xD1FE, 0x68FF, 0x947E);
    UpdateByTrace(0x947E, 0x32, 0x944C, 0x4A26, 0x2513, 0xB288, 0x5944, 0x2CA2, 0x1651, 0xAB29, 0xF595);
    UpdateByTrace(0xF595, 0x33, 0xF5A6, 0x7AD3, 0x9D68, 0x4EB4, 0x275A, 0x13AD, 0xA9D7, 0xF4EA, 0x7A75);
    UpdateByTrace(0x7A75, 0x34, 0x7A41, 0x9D21, 0xEE91, 0xD749, 0xCBA5, 0xC5D3, 0xC2E8, 0x6174, 0x30BA);
    UpdateByTrace(0x30BA, 0x35, 0x308F, 0xB846, 0x5C23, 0x8E10, 0x4708, 0x2384, 0x11C2, 0x08E1, 0xA471);
    UpdateByTrace(0xA471, 0x36, 0xA447, 0xF222, 0x7911, 0x9C89, 0xEE45, 0xD723, 0xCB90, 0x65C8, 0x32E4);
    UpdateByTrace(0x32E4, 0x37, 0x32D3, 0xB968, 0x5CB4, 0x2E5A, 0x172D, 0xAB97, 0xF5CA, 0x7AE5, 0x9D73);
    UpdateByTrace(0x9D73, 0x38, 0x9D4B, 0xEEA4, 0x7752, 0x3BA9, 0xBDD5, 0xFEEB, 0xDF74, 0x6FBA, 0x37DD);
    UpdateByTrace(0x37DD, 0x39, 0x37E4, 0x1BF2, 0x0DF9, 0xA6FD, 0xF37F, 0xD9BE, 0x6CDF, 0x966E, 0x4B37);
  }

  /** The CRC of `m` read off a trace `t` of the register before and after each byte. */
  lemma {:induction false} CrcByTrace(seed: bv16, m: seq<uint8>, t: seq<bv16>)
    requires |t| == |m| + 1 && t[0] == seed
    requires forall k :: 0 <= k < |m| ==> Update(t[k], m[k]) == t[k + 1]
    ensures Crc(seed, m) == t[|m|]
    decreases |m|
  {
    if m != [] {
      CrcByTrace(seed, m[..|m| - 1], t[..|m|]);
    }
  }

  /** `Update` evaluated along a trace of the register: after the XOR, then after each round. */
  lemma UpdateByTrace(crc: bv16, a: uint8, t0: bv16, t1: bv16, t2: bv16, t3: bv16, t4: bv16, t5: bv16, t6: bv16, t7: bv16, t8: bv16)
    requires t0 == crc ^ ByteBits(a)
    requires Step(t0) == t1 && Step(t1) == t2 && Step(t2) == t3 && Step(t3) == t4
    requires Step(t4) == t5 && Step(t5) == t6 && Step(t6) == t7 && Step(t7) == t8
    ensures Update(crc, a) == t8
  {
    RoundsByTrace(t0, t1, t2, t3, t4, t5, t6, t7, t8);
  }

  /** Eight rounds evaluated along a trace of the register. */
  lemma RoundsByTrace(t0: bv16, t1: bv16, t2: bv16, t3: bv16, t4: bv16, t5: bv16, t6: bv16, t7: bv16, t8: bv16)
    requires Step(t0) == t1 && Step(t1) == t2 && Step(t2) == t3 && Step(t3) == t4
    requires Step(t4) == t5 && Step(t5) == t6 && Step(t6) == t7 && Step(t7) == t8
    ensures Rounds(t0, RoundsPerByte) == t8
  {
    assert Rounds(t8, 0) == t8;
    assert Rounds(t7, 1) == t8;
    assert Rounds(t6, 2) == t8;
    assert Rounds(t5, 3) == t8;
    assert Rounds(t4, 4) == t8;
    assert Rounds(t3, 5) == t8;
    assert Rounds(t2, 6) == t8;
    assert Rounds(t1, 7) == t8;
  }
}
