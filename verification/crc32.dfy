/**
 * CRC-32 as computed by the `crc32fast` crate: the ISO 3309 / ITU-T V.42
 * polynomial in reflected form (0xEDB88320), initial value and final XOR
 * 0xFFFFFFFF, one bit at a time.
 */
module Crc32 {
  import opened Widths

  const POLY: bv32 := 0xEDB8_8320

  /** One bit of the reflected shift register. */
  function Step(c: bv32): bv32
  {
    if c & 1 == 1 then (c >> 1) ^ POLY else c >> 1
  }

  /** Eight steps: one input byte. */
  function Step8(c: bv32): bv32
  {
    Step(Step(Step(Step(Step(Step(Step(Step(c))))))))
  }

  function Update(c: bv32, data: seq<bv8>): bv32
    decreases |data|
  {
    if |data| == 0 then c else Update(Step8(c ^ (data[0] as bv32)), data[1..])
  }

  /** The register run over `data` from all ones, then inverted. */
  function ChecksumBits(data: seq<bv8>): (r: u32)
    ensures data == [] ==> r == 0
  {
    (Update(0xFFFF_FFFF, data) ^ 0xFFFF_FFFF) as int
  }

  /** `crc32fast::Hasher::new().update(data).finalize()`. */
  function Checksum(data: seq<u8>): (r: u32)
    ensures data == [] ==> r == 0
  {
    ChecksumBits(seq(|data|, i requires 0 <= i < |data| => data[i] as bv8))
  }

  /** The standard check value: the checksum of the ASCII text "123456789". */
  lemma CheckValue()
    ensures ChecksumBits([0x31, 0x32, 0x33, 0x34, 0x35, 0x36, 0x37, 0x38, 0x39]) == 0xCBF4_3926
  {
  }
}
