/** IPv6 addresses, compared only for equality except for the node id in their last two octets. */
module Address {
  type Byte = b: int | 0 <= b < 256

  /** Sixteen octets in network order. */
  type Addr = a: seq<Byte> | |a| == 16 witness [0, 0, 0, 0, 0, 0, 0, 0, 0, 0, 0, 0, 0, 0, 0, 0]

  /** The all-zero address a static `uip_ipaddr_t` starts as. */
  const UNSPECIFIED: Addr := [0, 0, 0, 0, 0, 0, 0, 0, 0, 0, 0, 0, 0, 0, 0, 0]

  /** The node id `(u8[14] << 8) | u8[15]` carried in an address's interface identifier. */
  function NodeIdFromAddr(a: Addr): (id: nat)
    ensures id < 0x1_0000
    ensures id / 256 == a[14] && id % 256 == a[15]
  {
    a[14] as int * 256 + a[15] as int
  }
}
