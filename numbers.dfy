/**
 * Fixed-width unsigned integers of the C++ source, as ranges of `int`.
 * Ordering, increments and map keys use these; only the address masks of
 * `AddressRange` work on the bit patterns (`bv32`).
 */
module Numbers {
  newtype uint32 = x: int | 0 <= x < 0x1_0000_0000
  newtype uint64 = x: int | 0 <= x < 0x1_0000_0000_0000_0000

  /** The largest `uint32`, 255.255.255.255 as an address. */
  const MaxUint32: uint32 := 0xFFFF_FFFF
}
