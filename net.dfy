/**
  The part of Rust's `std::net` the bridge uses: an `IpAddr` is an IPv4
  address held as its 32-bit value or an IPv6 address held as its 128-bit
  value, exactly what `Ipv4Addr::from(u32)` and `Ipv6Addr::from(u128)` take.
 */
module Net {
  import opened Endian

  datatype IpAddr = V4(v4: uint32) | V6(v6: uint128)
  {
    /** The address's octets in the order they are written: `10.0.0.1` is [10, 0, 0, 1]. */
    function Octets(): (o: seq<byte>)
      ensures |o| == (if V4? then 4 else 16)
      ensures BeValue(o) == (if V4? then v4 else v6)
    {
      Pow256Widths();
      if V4? then BeBytes(v4, 4) else BeBytes(v6, 16)
    }
  }
}
