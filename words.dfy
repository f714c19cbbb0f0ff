/** Fixed-width unsigned machine words, as the C header's uint8_t, uint16_t and uint32_t. */
module Words {

  const TWO_POW_32: int := 0x1_0000_0000

  type U32 = x: int | 0 <= x < 0x1_0000_0000
  type U16 = x: int | 0 <= x < 0x1_0000
  type U8 = x: int | 0 <= x < 0x100

  /** An address (`void *`); 0 is NULL. The guard only compares addresses, so their width does
      not matter; 32 bits are used here. */
  type Addr = U32

  const NULL: Addr := 0

  /** The C conversion of an integer to uint32_t: reduction modulo 2^32. */
  function Wrap32(x: int): (r: U32)
    ensures (r - x) % TWO_POW_32 == 0
    ensures 0 <= x < TWO_POW_32 ==> r == x
  {
    x % TWO_POW_32
  }

  /** 1 when `x` has a bit set under `mask`, otherwise 0. */
  function Flag(x: bv32, mask: bv32): (b: nat)
    ensures b <= 1
  {
    if x & mask != 0 then 1 else 0
  }

  /** Number of set bits among the low eight bits of `x`. */
  function ByteWeight(x: bv32): (c: nat)
    ensures c <= 8
  {
    Flag(x, 0x01) + Flag(x, 0x02) + Flag(x, 0x04) + Flag(x, 0x08)
    + Flag(x, 0x10) + Flag(x, 0x20) + Flag(x, 0x40) + Flag(x, 0x80)
  }

  /** Number of set bits of a 32-bit word, counted a byte at a time. */
  function PopCount(x: bv32): (c: nat)
    ensures c <= 32
  {
    ByteWeight(x) + ByteWeight(x >> 8) + ByteWeight(x >> 16) + ByteWeight(x >> 24)
  }

  /** Number of bit positions in which two 32-bit words differ. */
  function HammingDistance(a: bv32, b: bv32): (d: nat)
    ensures d <= 32
  {
    PopCount(a ^ b)
  }
}
