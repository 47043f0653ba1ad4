/** CRC-32 as used by ZIP (APPNOTE section 4.4.7): reflected polynomial 0xEDB88320, register
    preset to all ones and complemented at the end. */
module Crc32 {
  import opened Bytes

  const PRESET: bv32 := 0xFFFF_FFFF

  function ShiftBits(register: bv32, n: nat): bv32
    decreases n
  {
    if n == 0 then register
    else ShiftBits(if register & 1 == 1 then (register >> 1) ^ 0xEDB8_8320 else register >> 1, n - 1)
  }

  function Step(register: bv32, b: byte): bv32 {
    ShiftBits(register ^ (b as bv32), 8)
  }

  function Update(register: bv32, data: seq<byte>): bv32
    decreases |data|
  {
    if data == [] then register else Update(Step(register, data[0]), data[1..])
  }

  function Finish(register: bv32): u32 {
    (register ^ 0xFFFF_FFFF) as int
  }

  function Checksum(data: seq<byte>): u32 {
    Finish(Update(PRESET, data))
  }

  /** Feeding the register chunk by chunk, as a reader with short reads does, is feeding it the
      concatenation. */
  lemma {:induction false} UpdateAppend(register: bv32, a: seq<byte>, b: seq<byte>)
    ensures Update(register, a + b) == Update(Update(register, a), b)
    decreases |a|
  {
    if a == [] {
      assert a + b == b;
    } else {
      assert (a + b)[1..] == a[1..] + b;
      UpdateAppend(Step(register, a[0]), a[1..], b);
    }
  }

  // ---- a known value ----

  lemma ShiftStep(register: bv32, n: nat)
    ensures ShiftBits(register, n + 1)
            == ShiftBits(if register & 1 == 1 then (register >> 1) ^ 0xEDB8_8320 else register >> 1, n)
  {
  }

  lemma {:induction false} ShiftEnd(register: bv32)
    ensures ShiftBits(register, 0) == register
  {
  }

  lemma StepOfA()
    ensures Step(PRESET, 0x61) == 0x1748_41BC
  {
    hide ShiftBits;
    assert PRESET ^ 0x61 == 0xFFFF_FF9E;
    ShiftStep(0xFFFF_FF9E, 7);
    ShiftStep(0x7FFF_FFCF, 6);
    ShiftStep(0xD247_7CC7, 5);
    ShiftStep(0x849B_3D43, 4);
    ShiftStep(0xAFF5_1D81, 3);
    ShiftStep(0xBA42_0DE0, 2);
    ShiftStep(0x5D21_06F0, 1);
    ShiftStep(0x2E90_8378, 0);
    ShiftEnd(0x1748_41BC);
  }

  /** The checksum of the one-byte file "a", which every implementation of CRC-32 agrees on. */
  lemma ChecksumOfA()
    ensures Checksum([0x61]) == 0xE8B7_BE43
  {
    hide Step;
    StepOfA();
    assert [0x61][1..] == [];
    assert Update(PRESET, [0x61]) == Update(Step(PRESET, 0x61), [0x61][1..]);
    assert Update(Step(PRESET, 0x61), []) == Step(PRESET, 0x61);
  }
}
