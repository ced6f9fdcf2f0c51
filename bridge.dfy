/**
  The translation layer of src/bridge/mod.rs: `PfAddr`, the safe form of a
  table entry, and the conversions between it and the kernel's `pfr_addr`.
 */
module Bridge {
  import opened Endian
  import opened Utf8
  import opened Net
  import opened Results
  import opened Errors
  import opened Bindings

  /** A table entry: its address, the interface it came from ("" when unset) and its prefix length. */
  datatype PfAddr = PfAddr(addr: IpAddr, ifname: Utf8Str, subnet: byte)

  // ---- trailing-zero trimming of the fixed interface-name buffer ----

  /**
    `t` is `buf` with its trailing zero bytes removed: a prefix of `buf`
    that does not end in 0, after which `buf` holds only zeros.
   */
  predicate IsTrimmed(buf: seq<byte>, t: seq<byte>)
  {
    && |t| <= |buf|
    && t == buf[..|t|]
    && (t == [] || t[|t| - 1] != 0)
    && AllZero(buf[|t|..])
  }

  /** The three facts pin the trimmed string down: there is only one. */
  lemma TrimmedUnique(buf: seq<byte>, t1: seq<byte>, t2: seq<byte>)
    requires IsTrimmed(buf, t1) && IsTrimmed(buf, t2)
    ensures t1 == t2
  {
  }

  function TrimZeros(buf: seq<byte>): (t: seq<byte>)
    ensures IsTrimmed(buf, t)
  {
    if buf == [] || buf[|buf| - 1] != 0 then buf
    else
      var t := TrimZeros(buf[..|buf| - 1]);
      assert buf[..|buf| - 1][..|t|] == buf[..|t|];
      assert buf[|t|..] == buf[..|buf| - 1][|t|..] + [0];
      t
  }

  /** The loop of `try_from` that pops zero bytes off the end of the interface name. */
  method TrimTrailingZeros(buf: seq<byte>) returns (t: seq<byte>)
    ensures IsTrimmed(buf, t)
  {
    t := buf;
    while |t| > 0 && t[|t| - 1] == 0
      invariant |t| <= |buf| && t == buf[..|t|]
      invariant AllZero(buf[|t|..])
    {
      t := t[..|t| - 1];
    }
  }

  // ---- decode: TryFrom<pfr_addr> for PfAddr ----

  /**
    The entry `a` describes: an unknown family is refused before the name is
    looked at; the address is read in network byte order from the union
    variant the family selects; the name is the trimmed buffer, refused
    when it is not UTF-8; the prefix length is copied.
   */
  function Decode(a: PfrAddr): (r: Result<PfAddr, PfError>)
    requires a.Valid()
    ensures a.pfraAf != AF_INET && a.pfraAf != AF_INET6 ==> r == Err(UnknownAddressFamily)
    ensures (a.pfraAf == AF_INET || a.pfraAf == AF_INET6) ==>
              (r.Err? <==> !ValidUtf8(TrimZeros(a.pfraIfname))) && (r.Err? ==> r.error == TranslationError)
    ensures r.Ok? ==> IsTrimmed(a.pfraIfname, r.value.ifname) && r.value.subnet == a.pfraNet
    ensures r.Ok? && a.pfraAf == AF_INET ==> r.value.addr.V4? && r.value.addr.v4 == BeValue(a.pfraU[..4])
    ensures r.Ok? && a.pfraAf == AF_INET6 ==> r.value.addr.V6? && r.value.addr.v6 == BeValue(a.pfraU)
  {
    if a.pfraAf != AF_INET && a.pfraAf != AF_INET6 then Err(UnknownAddressFamily)
    else
      var addr := if a.pfraAf == AF_INET then V4(Ip4FromUnion(a.pfraU)) else V6(Ip6FromUnion(a.pfraU));
      var ifname := TrimZeros(a.pfraIfname);
      if ValidUtf8(ifname) then Ok(PfAddr(addr, ifname, a.pfraNet)) else Err(TranslationError)
  }

  /** `u32::from_be(a.pfra_u._pfra_ip4addr)`. */
  function Ip4FromUnion(u: seq<byte>): (x: uint32)
    requires |u| == 16
    ensures x == BeValue(u[..4])
  {
    Pow256Widths();
    LeBytesOfValue(u[..4]);
    FromBe32(ReadIp4(u))
  }

  /** `u128::from_be_bytes(a.pfra_u._pfra_ip6addr)`. */
  function Ip6FromUnion(u: seq<byte>): (x: uint128)
    requires |u| == 16
    ensures Pow256(16) == 0x1_0000_0000_0000_0000_0000_0000_0000_0000 && BeBytes(x, 16) == u
  {
    Pow256Widths();
    BeBytesOfValue(u);
    BeValue(u)
  }

  /** `try_from`, step by step as the source runs it: family first, then the trimming loop, then the UTF-8 check. */
  method TryFrom(a: PfrAddr) returns (r: Result<PfAddr, PfError>)
    requires a.Valid()
    ensures r == Decode(a)
  {
    var addr: IpAddr;
    if a.pfraAf == AF_INET {
      addr := V4(Ip4FromUnion(a.pfraU));
    } else if a.pfraAf == AF_INET6 {
      addr := V6(Ip6FromUnion(a.pfraU));
    } else {
      return Err(UnknownAddressFamily);
    }
    var ifname := TrimTrailingZeros(a.pfraIfname);
    TrimmedUnique(a.pfraIfname, ifname, TrimZeros(a.pfraIfname));
    if !ValidUtf8(ifname) {
      return Err(TranslationError);
    }
    return Ok(PfAddr(addr, ifname, a.pfraNet));
  }

  // ---- encode: Into<pfr_addr> for PfAddr ----

  /**
    The `pfr_addr` for `p`: family and address in network byte order, the
    prefix length, and zero everywhere else. The interface name is not
    copied.
   */
  function Encode(p: PfAddr): (c: PfrAddr)
    ensures c.Valid()
    ensures c.pfraAf == (if p.addr.V4? then AF_INET else AF_INET6)
    ensures p.addr.V4? ==> c.pfraU[..4] == p.addr.Octets() && AllZero(c.pfraU[4..])
    ensures p.addr.V6? ==> c.pfraU == p.addr.Octets()
    ensures c.pfraNet == p.subnet
    ensures AllZero(c.pfraIfname) && AllZero(c.pad)
    ensures c.pfraStates == 0 && c.pfraWeight == 0 && c.pfraNot == 0 && c.pfraFback == 0 && c.pfraType == 0
  {
    Pow256Widths();
    var c := PfrAddrInit().(pfraNet := p.subnet);
    match p.addr
    case V4(v) =>
      c.(pfraAf := AF_INET, pfraU := WriteIp4(c.pfraU, ToBe32(v)))
    case V6(v) =>
      c.(pfraAf := AF_INET6, pfraU := BeBytes(v, 16))
  }

  // ---- round trips ----

  /**
    Decoding an encoded entry gives back its address and prefix length; the
    interface name comes back empty, so entries without one round-trip exactly.
   */
  lemma EncodeThenDecode(p: PfAddr)
    ensures Decode(Encode(p)) == Ok(PfAddr(p.addr, [], p.subnet))
    ensures p.ifname == [] ==> Decode(Encode(p)) == Ok(p)
  {
    Pow256Widths();
    var c := Encode(p);
    var t := TrimZeros(c.pfraIfname);
    assert t == [];
    match p.addr
    case V4(v) =>
      BeBytesOfValue(c.pfraU[..4]);
    case V6(v) =>
      BeBytesOfValue(c.pfraU);
  }

  /**
    The entries `Encode` can produce: a recognised family, nothing but zeros
    in the name and the unused fields, and, for IPv4, in the unused union bytes.
   */
  predicate Canonical(a: PfrAddr)
  {
    && a.Valid()
    && (a.pfraAf == AF_INET || a.pfraAf == AF_INET6)
    && (a.pfraAf == AF_INET ==> AllZero(a.pfraU[4..]))
    && AllZero(a.pfraIfname) && AllZero(a.pad)
    && a.pfraStates == 0 && a.pfraWeight == 0 && a.pfraNot == 0 && a.pfraFback == 0 && a.pfraType == 0
  }

  /** Every canonical entry decodes, and encoding the result rebuilds it byte for byte. */
  lemma DecodeThenEncode(a: PfrAddr)
    requires Canonical(a)
    ensures Decode(a).Ok?
    ensures Encode(Decode(a).value) == a
  {
    var t := TrimZeros(a.pfraIfname);
    assert t == [];
    var c := Encode(Decode(a).value);
    EncodedUnion(a);
    AllZeroIsZeros(c.pfraIfname);
    AllZeroIsZeros(a.pfraIfname);
    AllZeroIsZeros(c.pad);
    AllZeroIsZeros(a.pad);
  }

  /** The union bytes of a canonical entry survive decoding and re-encoding. */
  lemma EncodedUnion(a: PfrAddr)
    requires Canonical(a) && Decode(a).Ok?
    ensures Encode(Decode(a).value).pfraU == a.pfraU
  {
    Pow256Widths();
    var c := Encode(Decode(a).value);
    if a.pfraAf == AF_INET {
      BeBytesOfValue(a.pfraU[..4]);
      AllZeroIsZeros(c.pfraU[4..]);
      AllZeroIsZeros(a.pfraU[4..]);
      assert c.pfraU == c.pfraU[..4] + c.pfraU[4..];
      assert a.pfraU == a.pfraU[..4] + a.pfraU[4..];
    } else {
      BeBytesOfValue(a.pfraU);
    }
  }

  /** The family byte alone picks the variant: the two recognised values differ. */
  lemma FamiliesDistinct(a: PfrAddr)
    requires a.Valid() && Decode(a).Ok?
    ensures Decode(a).value.addr.V4? <==> a.pfraAf == AF_INET
  {
  }
}
