/**
 * CRC-32 with the IEEE 802.3 polynomial, as Go's `crc32.ChecksumIEEE`
 * computes it: reflected polynomial 0xEDB88320, initial value and final
 * XOR 0xFFFFFFFF, one bit at a time.
 */
module Crc32 {
  import opened Bytes

  const Poly: bv32 := 0xEDB88320

  /** Shift `k` bits through the register. */
  function Shift(c: bv32, k: nat): bv32
    decreases k
  {
    if k == 0 then c
    else Shift(if c & 1 == 1 then (c >> 1) ^ Poly else c >> 1, k - 1)
  }

  function Update(c: bv32, data: seq<byte>): bv32
    decreases |data|
  {
    if |data| == 0 then c else Update(Shift(c ^ (data[0] as bv32), 8), data[1..])
  }

  function ChecksumIEEE(data: seq<byte>): (r: uint32)
  {
    (!Update(0xFFFF_FFFF, data)) as int
  }
}
