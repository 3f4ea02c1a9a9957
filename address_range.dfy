/**
 * Address arithmetic of `Network`: the network mask derived from the prefix
 * length, the broadcast address and the "allowed address" test.
 *
 * `getBroadcastAddress` and `isIpAllowed` compute `~0 << (32 - networkSize)`
 * on 32-bit values with an 8-bit prefix length; here the bit patterns are
 * `bv32` and the prefix length `bv8`. A shift by 32 is undefined in C++, so
 * every member requires a prefix length between 1 and 32.
 */
module AddressRange {

  predicate ValidPrefixLength(size: bv8)
  {
    1 <= size <= 32
  }

  /**
   * The network mask as the source computes it: all ones, shifted left past
   * the host bits. The first address bit is always a network bit; the last
   * is one only for a /32.
   */
  function NetMask(size: bv8): (m: bv32)
    requires ValidPrefixLength(size)
    ensures m & 0x8000_0000 != 0
    ensures m & 1 != 0 <==> size == 32
  {
    0xFFFF_FFFF << (32 - size as bv32)
  }

  /** The top `size` bits set and the rest clear, built one prefix bit at a time. */
  function LeadingOnes(size: bv8): bv32
    requires ValidPrefixLength(size)
    decreases size
  {
    if size == 1 then 0x8000_0000 else (LeadingOnes(size - 1) >> 1) | 0x8000_0000
  }

  /** The shifted mask is exactly the prefix bits: `size` leading ones, then zeros. */
  lemma {:induction false} MaskIsLeadingOnes(size: bv8)
    requires ValidPrefixLength(size)
    ensures NetMask(size) == LeadingOnes(size)
    decreases size
  {
    if size != 1 {
      MaskIsLeadingOnes(size - 1);
    }
  }

  /** `ip` lies in the network of `space`: the two agree under the network mask. */
  predicate InNetwork(space: bv32, size: bv8, ip: bv32)
    requires ValidPrefixLength(size)
  {
    ip & NetMask(size) == space & NetMask(size)
  }

  /** The network address proper: `space` with every host bit cleared. */
  function NetworkBase(space: bv32, size: bv8): (base: bv32)
    requires ValidPrefixLength(size)
    ensures InNetwork(space, size, base)
  {
    space & NetMask(size)
  }

  /** `getBroadcastAddress`: `space` with every host bit set, an address of the same network. */
  function BroadcastAddress(space: bv32, size: bv8): (b: bv32)
    requires ValidPrefixLength(size)
    ensures InNetwork(space, size, b)
  {
    space | !NetMask(size)
  }

  /** An address agreeing with `space` on the bits of `m`, other than `space | !m`, has a host part other than all ones. */
  lemma HostNotAllOnes(space: bv32, m: bv32, ip: bv32)
    ensures ip & m == space & m && ip != space | !m ==> ip & !m != !m
  {
  }

  /** When `space` has no host bits, an address agreeing with it on the bits of `m`, other than `space`, has a nonzero host part. */
  lemma HostNotZero(space: bv32, m: bv32, ip: bv32)
    ensures ip & m == space & m && ip != space && space & !m == 0 ==> ip & !m != 0
  {
  }

  /**
   * The allowed-address test under a mask `m`: `ip` agrees with `space` on
   * the bits of `m` and is neither `space` nor `space | !m`. Such an address
   * never has a host part of all ones and, when `space` has no host bits,
   * never a host part of zero.
   */
  predicate AllowedUnder(space: bv32, m: bv32, ip: bv32): (r: bool)
    ensures r ==> ip & !m != !m
    ensures r && space & !m == 0 ==> ip & !m != 0
  {
    HostNotAllOnes(space, m, ip);
    HostNotZero(space, m, ip);
    ip & m == space & m && ip != space && ip != space | !m
  }

  /**
   * `isIpAllowed`: the test under the network mask. An allowed address never
   * has a host part of all ones and, when the configured space is a network
   * address proper (no host bits set), never a host part of zero.
   */
  function IsIpAllowed(space: bv32, size: bv8, ip: bv32): (r: bool)
    requires ValidPrefixLength(size)
    ensures r ==> ip & !NetMask(size) != !NetMask(size)
    ensures r && space & !NetMask(size) == 0 ==> ip & !NetMask(size) != 0
  {
    AllowedUnder(space, NetMask(size), ip)
  }

  /**
   * Every address of the network carries all the bits of the network base
   * and no bit outside the broadcast address: base and broadcast are the
   * bitwise least and greatest addresses of the block.
   */
  lemma NetworkBetweenBaseAndBroadcast(space: bv32, size: bv8, ip: bv32)
    requires ValidPrefixLength(size)
    requires InNetwork(space, size, ip)
    ensures ip & NetworkBase(space, size) == NetworkBase(space, size)
    ensures ip | BroadcastAddress(space, size) == BroadcastAddress(space, size)
  {
  }

  /** The configured space is never allowed; in particular a space that is the network base refuses the base. */
  lemma SpaceNeverAllowed(space: bv32, size: bv8)
    requires ValidPrefixLength(size)
    ensures !IsIpAllowed(space, size, space)
  {
  }

  /** The broadcast address is never allowed. */
  lemma BroadcastNeverAllowed(space: bv32, size: bv8)
    requires ValidPrefixLength(size)
    ensures !IsIpAllowed(space, size, BroadcastAddress(space, size))
  {
  }

  /**
   * When the configured space has host bits set, the real network address
   * (the base) is allowed: the test only excludes the configured value.
   */
  lemma UnalignedSpaceAllowsBase(space: bv32, size: bv8)
    requires ValidPrefixLength(size)
    requires space != NetworkBase(space, size)
    ensures IsIpAllowed(space, size, NetworkBase(space, size))
  {
  }
}
