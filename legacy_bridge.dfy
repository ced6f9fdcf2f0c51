/**
  src/bridge.rs, the earlier single-file version of the bridge. Its
  `pfr_addr`, `pfr_table` and `pfioc_table` records, their layout and their
  `init()` constructors are identical to those of src/bridge/bindings.rs
  and are taken from `Bindings`. What is its own: the error type, the named
  `pfr_table` constructor, and a direct conversion between `pfr_addr` and
  `IpAddr` whose IPv4 half is not symmetric.
 */
module LegacyBridge {
  import opened Endian
  import opened Net
  import opened Results
  import opened Bindings
  import Bridge

  datatype PfError = TableNameTooLong | Other(message: string)

  /**
    `pfr_table::new`: a zero table whose name buffer starts with the bytes of
    `name`. A name that would leave no room for the terminating zero is refused.
   */
  method NewTable(name: seq<byte>) returns (r: Result<PfrTable, PfError>)
    ensures r.Err? <==> |name| >= PF_TABLE_NAME_SIZE
    ensures r.Err? ==> r.error == TableNameTooLong
    ensures r.Ok? ==> && r.value.Valid()
                      && r.value.pfrtName[..|name|] == name
                      && AllZero(r.value.pfrtName[|name|..])
                      && r.value.pfrtName[PF_TABLE_NAME_SIZE - 1] == 0
                      && r.value.pfrtAnchor == PfrTableInit().pfrtAnchor
                      && r.value.pfrtFlags == 0 && r.value.pfrtFback == 0
    ensures r.Ok? && (name == [] || name[|name| - 1] != 0) ==> Bridge.TrimZeros(r.value.pfrtName) == name
  {
    var table := PfrTableInit();
    if |name| >= PF_TABLE_NAME_SIZE {
      return Err(TableNameTooLong);
    }
    for i := 0 to |name|
      invariant table.Valid()
      invariant table.pfrtName[..i] == name[..i]
      invariant AllZero(table.pfrtName[i..])
      invariant table.pfrtAnchor == PfrTableInit().pfrtAnchor
      invariant table.pfrtFlags == 0 && table.pfrtFback == 0
    {
      table := table.(pfrtName := table.pfrtName[i := name[i]]);
    }
    assert name[..|name|] == name;
    if name == [] || name[|name| - 1] != 0 {
      Bridge.TrimmedUnique(table.pfrtName, name, Bridge.TrimZeros(table.pfrtName));
    }
    return Ok(table);
  }

  /**
    `From<IpAddr> for pfr_addr`: the family byte by variant, the address in
    the union, and zero everywhere else (name and prefix length included).
    The IPv4 value is stored with `u32::to_le`, so its octets land in the
    union in reverse order; the IPv6 value is stored in network order.
   */
  function FromIpAddr(ip: IpAddr): (a: PfrAddr)
    ensures a.Valid()
    ensures a.pfraAf == (if ip.V4? then AF_INET else AF_INET6)
    ensures ip.V4? ==> a.pfraU[..4] == Reverse(ip.Octets()) && AllZero(a.pfraU[4..])
    ensures ip.V6? ==> a.pfraU == ip.Octets()
    ensures AllZero(a.pfraIfname) && AllZero(a.pad) && a.pfraNet == 0
    ensures a.pfraStates == 0 && a.pfraWeight == 0 && a.pfraNot == 0 && a.pfraFback == 0 && a.pfraType == 0
  {
    Pow256Widths();
    var addr := PfrAddrInit();
    match ip
    case V4(v) =>
      ReverseReverse(LeBytes(v, 4));
      addr.(pfraAf := AF_INET, pfraU := WriteIp4(addr.pfraU, ToLe32(v)))
    case V6(v) =>
      addr.(pfraAf := AF_INET6, pfraU := BeBytes(v, 16))
  }

  /**
    `Into<IpAddr> for pfr_addr`: reads the variant the family selects, in
    network byte order. Any other family panics, so it is a precondition.
   */
  function IntoIpAddr(a: PfrAddr): (ip: IpAddr)
    requires a.Valid()
    requires a.pfraAf == AF_INET || a.pfraAf == AF_INET6
    ensures ip.V4? <==> a.pfraAf == AF_INET
    ensures ip.V4? ==> ip.Octets() == a.pfraU[..4]
    ensures ip.V6? ==> ip.Octets() == a.pfraU
  {
    Pow256Widths();
    if a.pfraAf == AF_INET then
      LeBytesOfValue(a.pfraU[..4]);
      BeBytesOfValue(a.pfraU[..4]);
      V4(FromBe32(ReadIp4(a.pfraU)))
    else
      BeBytesOfValue(a.pfraU);
      V6(BeValue(a.pfraU))
  }

  /** An IPv6 address survives `From` then `Into` unchanged. */
  lemma Ipv6RoundTrip(v: uint128)
    ensures IntoIpAddr(FromIpAddr(V6(v))) == V6(v)
  {
    Pow256Widths();
    var back := IntoIpAddr(FromIpAddr(V6(v)));
    BeBytesOfValue(back.Octets());
    BeBytesOfValue(V6(v).Octets());
  }

  /** An IPv4 address comes back from `From` then `Into` with its four octets reversed. */
  lemma Ipv4RoundTripReversesOctets(v: uint32)
    ensures IntoIpAddr(FromIpAddr(V4(v))).V4?
    ensures IntoIpAddr(FromIpAddr(V4(v))).Octets() == Reverse(V4(v).Octets())
  {
  }

  lemma OctetsOfV4(v: uint32, le: seq<byte>)
    requires |le| == 4 && LeValue(le) == v
    ensures V4(v).Octets() == Reverse(le)
  {
    Pow256Widths();
    LeBytesOfValue(le);
  }

  lemma TenDotZeroDotZeroDotOne()
    ensures V4(0x0A00_0001).Octets() == [10, 0, 0, 1]
  {
    assert LeValue([1, 0, 0, 10]) == 0x0A00_0001;
    OctetsOfV4(0x0A00_0001, [1, 0, 0, 10]);
  }

  lemma OneDotZeroDotZeroDotTen()
    ensures V4(0x0100_000A).Octets() == [1, 0, 0, 10]
  {
    assert LeValue([10, 0, 0, 1]) == 0x0100_000A;
    OctetsOfV4(0x0100_000A, [10, 0, 0, 1]);
  }

  /** So `10.0.0.1` comes back as `1.0.0.10`: the round trip is not the identity. */
  lemma Ipv4RoundTripCounterexample()
    ensures V4(0x0A00_0001).Octets() == [10, 0, 0, 1]
    ensures IntoIpAddr(FromIpAddr(V4(0x0A00_0001))) == V4(0x0100_000A)
    ensures V4(0x0100_000A).Octets() == [1, 0, 0, 10]
  {
    TenDotZeroDotZeroDotOne();
    OneDotZeroDotZeroDotTen();
    var back := IntoIpAddr(FromIpAddr(V4(0x0A00_0001)));
    Ipv4RoundTripReversesOctets(0x0A00_0001);
    assert back.Octets() == Reverse([10, 0, 0, 1]) == [1, 0, 0, 10];
  }

  // ---- the conversion with network byte order on both sides ----

  /**
    `From<IpAddr> for pfr_addr` with the IPv4 value stored by `u32::to_be`,
    the conversion `Into<IpAddr>` expects. It is the encoder of
    src/bridge/mod.rs applied to an entry with no name and prefix length 0.
   */
  function FromIpAddrNetworkOrder(ip: IpAddr): (a: PfrAddr)
    ensures a.Valid()
    ensures a.pfraAf == (if ip.V4? then AF_INET else AF_INET6)
    ensures ip.V4? ==> a.pfraU[..4] == ip.Octets() && AllZero(a.pfraU[4..])
    ensures ip.V6? ==> a.pfraU == ip.Octets()
    ensures AllZero(a.pfraIfname) && AllZero(a.pad) && a.pfraNet == 0
    ensures a.pfraStates == 0 && a.pfraWeight == 0 && a.pfraNot == 0 && a.pfraFback == 0 && a.pfraType == 0
  {
    Bridge.Encode(Bridge.PfAddr(ip, [], 0))
  }

  /** With network order on both sides, every address, IPv4 included, survives the round trip. */
  lemma {:induction false} NetworkOrderRoundTrip(ip: IpAddr)
    ensures IntoIpAddr(FromIpAddrNetworkOrder(ip)) == ip
  {
    Pow256Widths();
    var back := IntoIpAddr(FromIpAddrNetworkOrder(ip));
    BeBytesOfValue(back.Octets());
    BeBytesOfValue(ip.Octets());
  }
}
