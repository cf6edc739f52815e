/**
 * PHP's `crc32`: the CRC-32 of IEEE 802.3 (reflected polynomial 0xEDB88320,
 * initial value and final mask 0xFFFFFFFF), computed one bit at a time.
 */
module Crc32 {
  import opened Encoding

  const POLYNOMIAL: bv32 := 0xEDB8_8320
  const MASK: bv32 := 0xFFFF_FFFF

  /** `k` steps of the bitwise reflected CRC shift register. */
  function Shift(c: bv32, k: nat): bv32
    decreases k
  {
    if k == 0 then c
    else Shift(if c & 1 == 1 then (c >> 1) ^ POLYNOMIAL else c >> 1, k - 1)
  }

  /** Feeds `data` into the register, one byte (eight shifts) at a time. */
  function Update(c: bv32, data: seq<Byte>): bv32
    decreases |data|
  {
    if data == [] then c else Update(Shift(c ^ (data[0] as bv32), 8), data[1..])
  }

  /** The CRC-32 of `data`, as the non-negative integer PHP's `crc32` returns on 64-bit builds. */
  function Checksum(data: seq<Byte>): (crc: nat)
    ensures crc < TWO32
  {
    (Update(MASK, data) ^ MASK) as int
  }

  /** The checksum of the empty input is 0, and that of "a" is 0xE8B7BE43. */
  lemma KnownValues()
    ensures Checksum([]) == 0
    ensures Checksum([0x61]) == 0xE8B7_BE43
  {
    var a: seq<Byte> := [0x61];
    assert MASK ^ (a[0] as bv32) == 0xFFFF_FF9E;
    assert Update(MASK, a) == Update(Shift(0xFFFF_FF9E, 8), []);
    assert Shift(0x2E90_8378, 1) == Shift(0x1748_41BC, 0);
    assert Shift(0x5D21_06F0, 2) == Shift(0x2E90_8378, 1);
    assert Shift(0xBA42_0DE0, 3) == Shift(0x5D21_06F0, 2);
    assert Shift(0xAFF5_1D81, 4) == Shift(0xBA42_0DE0, 3);
    assert Shift(0x849B_3D43, 5) == Shift(0xAFF5_1D81, 4);
    assert Shift(0xD247_7CC7, 6) == Shift(0x849B_3D43, 5);
    assert Shift(0x7FFF_FFCF, 7) == Shift(0xD247_7CC7, 6);
    assert Shift(0xFFFF_FF9E, 8) == Shift(0x7FFF_FFCF, 7);
  }
}
