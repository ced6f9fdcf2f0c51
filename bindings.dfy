/**
  The fixed-layout mirrors of the kernel's `pfr_addr`, `pfr_table` and
  `pfioc_table` structures, their C layout, and their zero constructors.
  A structure's `...Image` is the bytes it occupies in memory, so `init()`,
  which reinterprets a zero-filled buffer of the structure's size, yields
  the record whose image is all zero.
 */
module Bindings {
  import opened Endian
  import opened Layout

  const PATH_MAX: nat := 1024
  const IFNAMSIZ: nat := 16
  const INET_ADDRSTRLEN: nat := 16
  const PF_TABLE_NAME_SIZE: nat := 32
  const DIOCRSETADDRS: uint64 := 3293594693
  const DIOCRGETADDRS: uint64 := 3293594694

  const AF_INET: byte := 2
  const AF_INET6: byte := 24

  const PFR_ADDR_SIZE: nat := 52
  const PFR_TABLE_SIZE: nat := 1064
  const PFIOC_TABLE_SIZE: nat := 1104

  /**
    `pfr_addr`. `pfraU` holds the 16 raw bytes of the `pfr_addr_u` union;
    which variant they mean is decided by `pfraAf` alone.
   */
  datatype PfrAddr = PfrAddr(
    pfraU: seq<byte>,
    pfraIfname: seq<byte>,
    pfraStates: uint32,
    pfraWeight: uint16,
    pfraAf: byte,
    pfraNet: byte,
    pfraNot: byte,
    pfraFback: byte,
    pfraType: byte,
    pad: seq<byte>)
  {
    /** The byte arrays have their declared lengths. */
    predicate Valid()
    {
      |pfraU| == 16 && |pfraIfname| == IFNAMSIZ && |pad| == 7
    }
  }

  /** `pfr_table`. */
  datatype PfrTable = PfrTable(
    pfrtAnchor: seq<byte>,
    pfrtName: seq<byte>,
    pfrtFlags: uint32,
    pfrtFback: byte)
  {
    predicate Valid()
    {
      |pfrtAnchor| == PATH_MAX && |pfrtName| == PF_TABLE_NAME_SIZE
    }
  }

  /** `pfioc_table`; `pfrioBuffer` is the address the raw pointer holds (0 is null). */
  datatype PfiocTable = PfiocTable(
    pfrioTable: PfrTable,
    pfrioBuffer: uint64,
    pfrioEsize: int32,
    pfrioSize: int32,
    pfrioSize2: int32,
    pfrioNadd: int32,
    pfrioNdel: int32,
    pfrioNchange: int32,
    pfrioFlags: int32,
    pfrioTicket: uint32)
  {
    predicate Valid()
    {
      pfrioTable.Valid()
    }
  }

  /** Reading the union's `_pfra_ip4addr`: its first four bytes as a host-order (little-endian) `u32`. */
  function ReadIp4(u: seq<byte>): (x: uint32)
    requires |u| == 16
    ensures Pow256(4) == 0x1_0000_0000 && LeBytes(x, 4) == u[..4]
  {
    Pow256Widths();
    LeBytesOfValue(u[..4]);
    LeValue(u[..4])
  }

  /** Writing the union's `_pfra_ip4addr`: the first four bytes take `x` in host order, the other twelve are kept. */
  function WriteIp4(u: seq<byte>, x: uint32): (u': seq<byte>)
    requires |u| == 16
    ensures |u'| == 16 && u'[4..] == u[4..]
    ensures ReadIp4(u') == x
  {
    Pow256Widths();
    LeBytes(x, 4) + u[4..]
  }

  // ---- C layout ----

  const U8 := Field(1, 1)
  const U16 := Field(2, 2)
  const U32 := Field(4, 4)
  const I32 := Field(4, 4)
  const Pointer := Field(8, 8)

  function ByteArray(n: nat): Field { Field(n, 1) }

  /** `pfr_addr_u`: a `u32` and a `[u8; 16]` sharing storage. */
  function PfrAddrULayout(): (fields: seq<Field>)
  {
    [U32, ByteArray(16)]
  }

  function PfrAddrLayout(): (fields: seq<Field>)
  {
    [UnionField(PfrAddrULayout()), ByteArray(IFNAMSIZ), U32, U16, U8, U8, U8, U8, U8, ByteArray(7)]
  }

  function PfrTableLayout(): (fields: seq<Field>)
  {
    [ByteArray(PATH_MAX), ByteArray(PF_TABLE_NAME_SIZE), U32, U8]
  }

  function PfiocTableLayout(): (fields: seq<Field>)
  {
    [StructField(PfrTableLayout()), Pointer, I32, I32, I32, I32, I32, I32, I32, U32]
  }

  /** The members of `pfr_addr` as sizes and alignments, the union being 16 bytes and 4-aligned. */
  lemma PfrAddrFields()
    ensures PfrAddrLayout() == [Field(16, 4), Field(16, 1), Field(4, 4), Field(2, 2), Field(1, 1),
                                Field(1, 1), Field(1, 1), Field(1, 1), Field(1, 1), Field(7, 1)]
  {
    assert UnionField(PfrAddrULayout()) == Field(16, 4);
  }

  /** The members of `pfr_addr` end at byte 50. */
  lemma PfrAddrEnd()
    ensures EndFrom(PfrAddrLayout(), 0) == 50
  {
    PfrAddrFields();
    var r: seq<Field> := [];
    EndFromCons(Field(7, 1), r, 43);
    r := [Field(7, 1)] + r;
    EndFromCons(Field(1, 1), r, 42);
    r := [Field(1, 1)] + r;
    EndFromCons(Field(1, 1), r, 41);
    r := [Field(1, 1)] + r;
    EndFromCons(Field(1, 1), r, 40);
    r := [Field(1, 1)] + r;
    EndFromCons(Field(1, 1), r, 39);
    r := [Field(1, 1)] + r;
    EndFromCons(Field(1, 1), r, 38);
    r := [Field(1, 1)] + r;
    EndFromCons(Field(2, 2), r, 36);
    r := [Field(2, 2)] + r;
    EndFromCons(Field(4, 4), r, 32);
    r := [Field(4, 4)] + r;
    EndFromCons(Field(16, 1), r, 16);
    r := [Field(16, 1)] + r;
    EndFromCons(Field(16, 4), r, 0);
    r := [Field(16, 4)] + r;
    assert r == [Field(16, 4), Field(16, 1), Field(4, 4), Field(2, 2), Field(1, 1), Field(1, 1), Field(1, 1), Field(1, 1), Field(1, 1), Field(7, 1)];
  }

  /** The union is 16 bytes, 4-aligned; `pfr_addr` is 4-aligned, so its 50 bytes of members are padded to 52. */
  lemma PfrAddrLayoutSize()
    ensures UnionField(PfrAddrULayout()) == Field(16, 4)
    ensures SizeOf(PfrAddrLayout()) == PFR_ADDR_SIZE
  {
    PfrAddrFields();
    PfrAddrEnd();
    MaxAlignAtMost(PfrAddrLayout(), 4);
    assert PfrAddrLayout()[0].align == 4;
    assert AlignUp(50, 4) == 52;
  }

  /** The members of `pfr_table` end at byte 1061 and the struct is padded to 1064. */
  lemma PfrTableLayoutSize()
    ensures Offsets(PfrTableLayout()) == [0, 1024, 1056, 1060]
    ensures EndFrom(PfrTableLayout(), 0) == 1061
    ensures SizeOf(PfrTableLayout()) == PFR_TABLE_SIZE
    ensures StructField(PfrTableLayout()) == Field(PFR_TABLE_SIZE, 4)
  {
  }

  /** The members of `pfioc_table` as sizes and alignments, the embedded table being 1064 bytes and 4-aligned. */
  lemma PfiocTableFields()
    ensures PfiocTableLayout() == [Field(1064, 4), Field(8, 8), Field(4, 4), Field(4, 4), Field(4, 4),
                                   Field(4, 4), Field(4, 4), Field(4, 4), Field(4, 4), Field(4, 4)]
  {
    PfrTableLayoutSize();
  }

  /** The members of `pfioc_table` end at byte 1104: the 8-aligned pointer follows the 1064-byte table with no gap. */
  lemma PfiocTableEnd()
    ensures EndFrom(PfiocTableLayout(), 0) == PFIOC_TABLE_SIZE
  {
    PfiocTableFields();
    var r: seq<Field> := [];
    EndFromCons(Field(4, 4), r, 1100);
    r := [Field(4, 4)] + r;
    EndFromCons(Field(4, 4), r, 1096);
    r := [Field(4, 4)] + r;
    EndFromCons(Field(4, 4), r, 1092);
    r := [Field(4, 4)] + r;
    EndFromCons(Field(4, 4), r, 1088);
    r := [Field(4, 4)] + r;
    EndFromCons(Field(4, 4), r, 1084);
    r := [Field(4, 4)] + r;
    EndFromCons(Field(4, 4), r, 1080);
    r := [Field(4, 4)] + r;
    EndFromCons(Field(4, 4), r, 1076);
    r := [Field(4, 4)] + r;
    EndFromCons(Field(4, 4), r, 1072);
    r := [Field(4, 4)] + r;
    EndFromCons(Field(8, 8), r, 1064);
    r := [Field(8, 8)] + r;
    EndFromCons(Field(1064, 4), r, 0);
    r := [Field(1064, 4)] + r;
    assert r == [Field(1064, 4), Field(8, 8), Field(4, 4), Field(4, 4), Field(4, 4), Field(4, 4), Field(4, 4), Field(4, 4), Field(4, 4), Field(4, 4)];
  }

  /** `pfioc_table` is 8-aligned and its members end at 1104, a multiple of 8, so there is no tail padding. */
  lemma PfiocTableLayoutSize()
    ensures SizeOf(PfiocTableLayout()) == PFIOC_TABLE_SIZE
  {
    PfiocTableFields();
    PfiocTableEnd();
    MaxAlignAtMost(PfiocTableLayout(), 8);
    assert PfiocTableLayout()[1].align == 8;
    assert AlignUp(1104, 8) == 1104;
  }

  // ---- memory images ----

  /** An `i32` in memory: two's complement, host order. */
  function I32Bytes(x: int32): (bs: seq<byte>)
    ensures |bs| == 4
  {
    Pow256Widths();
    LeBytes(if x < 0 then x + 0x1_0000_0000 else x, 4)
  }

  function PfrAddrMembers(a: PfrAddr): (values: seq<seq<byte>>)
    requires a.Valid()
    ensures Fits(PfrAddrLayout(), values)
  {
    Pow256Widths();
    PfrAddrFields();
    [a.pfraU, a.pfraIfname, LeBytes(a.pfraStates, 4), LeBytes(a.pfraWeight, 2),
     [a.pfraAf], [a.pfraNet], [a.pfraNot], [a.pfraFback], [a.pfraType], a.pad]
  }

  function PfrAddrImage(a: PfrAddr): (image: seq<byte>)
    requires a.Valid()
    ensures |image| == PFR_ADDR_SIZE
  {
    PfrAddrLayoutSize();
    Render(PfrAddrLayout(), PfrAddrMembers(a))
  }

  function PfrTableMembers(t: PfrTable): (values: seq<seq<byte>>)
    requires t.Valid()
    ensures Fits(PfrTableLayout(), values)
  {
    Pow256Widths();
    [t.pfrtAnchor, t.pfrtName, LeBytes(t.pfrtFlags, 4), [t.pfrtFback]]
  }

  function PfrTableImage(t: PfrTable): (image: seq<byte>)
    requires t.Valid()
    ensures |image| == PFR_TABLE_SIZE
  {
    PfrTableLayoutSize();
    Render(PfrTableLayout(), PfrTableMembers(t))
  }

  function PfiocTableMembers(io: PfiocTable): (values: seq<seq<byte>>)
    requires io.Valid()
    ensures Fits(PfiocTableLayout(), values)
  {
    Pow256Widths();
    PfrTableLayoutSize();
    [PfrTableImage(io.pfrioTable), LeBytes(io.pfrioBuffer, 8),
     I32Bytes(io.pfrioEsize), I32Bytes(io.pfrioSize), I32Bytes(io.pfrioSize2), I32Bytes(io.pfrioNadd),
     I32Bytes(io.pfrioNdel), I32Bytes(io.pfrioNchange), I32Bytes(io.pfrioFlags), LeBytes(io.pfrioTicket, 4)]
  }

  function PfiocTableImage(io: PfiocTable): (image: seq<byte>)
    requires io.Valid()
    ensures |image| == PFIOC_TABLE_SIZE
  {
    PfiocTableLayoutSize();
    Render(PfiocTableLayout(), PfiocTableMembers(io))
  }

  // ---- init() ----

  /** `pfr_addr::init`: every member zero. */
  function PfrAddrInit(): (a: PfrAddr)
    ensures a.Valid()
    ensures AllZero(a.pfraU) && AllZero(a.pfraIfname) && AllZero(a.pad)
    ensures a.pfraStates == 0 && a.pfraWeight == 0 && a.pfraAf == 0 && a.pfraNet == 0
    ensures a.pfraNot == 0 && a.pfraFback == 0 && a.pfraType == 0
  {
    PfrAddr(Zeros(16), Zeros(IFNAMSIZ), 0, 0, 0, 0, 0, 0, 0, Zeros(7))
  }

  /** `pfr_table::init`: empty anchor and name, no flags. */
  function PfrTableInit(): (t: PfrTable)
    ensures t.Valid()
    ensures AllZero(t.pfrtAnchor) && AllZero(t.pfrtName)
    ensures t.pfrtFlags == 0 && t.pfrtFback == 0
  {
    PfrTable(Zeros(PATH_MAX), Zeros(PF_TABLE_NAME_SIZE), 0, 0)
  }

  /** `pfioc_table::init`: a zero table, a null buffer pointer and every count zero. */
  function PfiocTableInit(): (io: PfiocTable)
    ensures io.Valid()
    ensures io.pfrioTable == PfrTableInit()
    ensures io.pfrioBuffer == 0
    ensures io.pfrioEsize == 0 && io.pfrioSize == 0 && io.pfrioSize2 == 0
    ensures io.pfrioNadd == 0 && io.pfrioNdel == 0 && io.pfrioNchange == 0
    ensures io.pfrioFlags == 0 && io.pfrioTicket == 0
  {
    PfiocTable(PfrTableInit(), 0, 0, 0, 0, 0, 0, 0, 0, 0)
  }

  // ---- init() is the transmute of a zero-filled buffer ----

  /** A byte string that is all zero is the zero string of its length. */
  lemma AllZeroIsZeros(s: seq<byte>)
    requires AllZero(s)
    ensures s == Zeros(|s|)
  {
  }

  /** A number whose byte image is all zero is zero. */
  lemma ZeroBytesValue(x: nat, n: nat)
    requires x < Pow256(n) && AllZero(LeBytes(x, n))
    ensures x == 0
  {
    LeValueOfZeros(LeBytes(x, n));
  }

  /** A valid `pfr_addr` occupies 52 zero bytes exactly when it is `init()`. */
  lemma PfrAddrZeroImage(a: PfrAddr)
    requires a.Valid()
    ensures AllZero(PfrAddrImage(a)) <==> a == PfrAddrInit()
  {
    if a == PfrAddrInit() {
      PfrAddrInitImage();
    }
    if AllZero(PfrAddrImage(a)) {
      PfrAddrFromZeroImage(a);
    }
  }

  lemma PfrAddrInitImage()
    ensures AllZero(PfrAddrImage(PfrAddrInit()))
  {
    var members := PfrAddrMembers(PfrAddrInit());
    Pow256Widths();
    LeBytesOfZero(4);
    LeBytesOfZero(2);
    assert members[2] == LeBytes(0, 4) && members[3] == LeBytes(0, 2);
    assert forall i :: 4 <= i < 9 ==> members[i] == [0];
    RenderZero(PfrAddrLayout(), members);
  }

  lemma PfrAddrFromZeroImage(a: PfrAddr)
    requires a.Valid() && AllZero(PfrAddrImage(a))
    ensures a == PfrAddrInit()
  {
    PfrAddrZeroMembers(a);
    ZeroBytesValue(a.pfraStates, 4);
    ZeroBytesValue(a.pfraWeight, 2);
    AllZeroIsZeros(a.pfraU);
    AllZeroIsZeros(a.pfraIfname);
    AllZeroIsZeros(a.pad);
  }

  /** Every member of a `pfr_addr` whose image is all zero is all zero. */
  lemma PfrAddrZeroMembers(a: PfrAddr)
    requires a.Valid() && AllZero(PfrAddrImage(a))
    ensures AllZero(a.pfraU) && AllZero(a.pfraIfname) && AllZero(a.pad)
    ensures Pow256(4) == 0x1_0000_0000 && AllZero(LeBytes(a.pfraStates, 4))
    ensures Pow256(2) == 0x1_0000 && AllZero(LeBytes(a.pfraWeight, 2))
    ensures a.pfraAf == 0 && a.pfraNet == 0 && a.pfraNot == 0 && a.pfraFback == 0 && a.pfraType == 0
  {
    Pow256Widths();
    var fields, members := PfrAddrLayout(), PfrAddrMembers(a);
    assert AllZero(Render(fields, members));
    ZeroImageMember(fields, members, 0);
    ZeroImageMember(fields, members, 1);
    ZeroImageMember(fields, members, 2);
    ZeroImageMember(fields, members, 3);
    ZeroImageMember(fields, members, 4);
    ZeroImageMember(fields, members, 5);
    ZeroImageMember(fields, members, 6);
    ZeroImageMember(fields, members, 7);
    ZeroImageMember(fields, members, 8);
    ZeroImageMember(fields, members, 9);
    assert members[4][0] == a.pfraAf && members[5][0] == a.pfraNet && members[6][0] == a.pfraNot;
    assert members[7][0] == a.pfraFback && members[8][0] == a.pfraType;
  }

  /** A valid `pfr_table` occupies 1064 zero bytes exactly when it is `init()`. */
  lemma {:induction false} PfrTableZeroImage(t: PfrTable)
    requires t.Valid()
    ensures AllZero(PfrTableImage(t)) <==> t == PfrTableInit()
  {
    Pow256Widths();
    PfrTableLayoutSize();
    var fields, members := PfrTableLayout(), PfrTableMembers(t);
    if t == PfrTableInit() {
      LeBytesOfZero(4);
      RenderZero(fields, members);
    }
    if AllZero(PfrTableImage(t)) {
      assert AllZero(Render(fields, members));
      ZeroImageMember(fields, members, 0);
      ZeroImageMember(fields, members, 1);
      ZeroImageMember(fields, members, 2);
      ZeroImageMember(fields, members, 3);
      ZeroBytesValue(t.pfrtFlags, 4);
      assert t.pfrtFback == members[3][0];
      AllZeroIsZeros(t.pfrtAnchor);
      AllZeroIsZeros(t.pfrtName);
    }
  }

  /** An `i32` whose image is all zero is zero. */
  lemma I32ZeroBytes(x: int32)
    ensures AllZero(I32Bytes(x)) <==> x == 0
  {
    Pow256Widths();
    var u := if x < 0 then x + 0x1_0000_0000 else x;
    if AllZero(I32Bytes(x)) {
      ZeroBytesValue(u, 4);
    }
    if x == 0 {
      LeBytesOfZero(4);
    }
  }

  /** A valid `pfioc_table` occupies 1104 zero bytes exactly when it is `init()`. */
  lemma PfiocTableZeroImage(io: PfiocTable)
    requires io.Valid()
    ensures AllZero(PfiocTableImage(io)) <==> io == PfiocTableInit()
  {
    if io == PfiocTableInit() {
      PfiocTableInitImage();
    }
    if AllZero(PfiocTableImage(io)) {
      PfiocTableFromZeroImage(io);
    }
  }

  lemma PfiocTableInitImage()
    ensures AllZero(PfiocTableImage(PfiocTableInit()))
  {
    PfiocTableInitMembers();
    RenderZero(PfiocTableLayout(), PfiocTableMembers(PfiocTableInit()));
  }

  /** Every member of `pfioc_table::init()` is all zero: a zero table, a null pointer, zero counts. */
  lemma PfiocTableInitMembers()
    ensures forall i :: 0 <= i < 10 ==> AllZero(PfiocTableMembers(PfiocTableInit())[i])
  {
    var members := PfiocTableMembers(PfiocTableInit());
    Pow256Widths();
    LeBytesOfZero(4);
    LeBytesOfZero(8);
    PfrTableZeroImage(PfrTableInit());
    I32ZeroBytes(0);
    var z := I32Bytes(0);
    assert members == [PfrTableImage(PfrTableInit()), LeBytes(0, 8), z, z, z, z, z, z, z, LeBytes(0, 4)];
  }

  lemma {:induction false} PfiocTableFromZeroImage(io: PfiocTable)
    requires io.Valid() && AllZero(PfiocTableImage(io))
    ensures io == PfiocTableInit()
  {
    PfiocTableZeroMembers(io);
    PfrTableZeroImage(io.pfrioTable);
    Pow256Widths();
    ZeroBytesValue(io.pfrioBuffer, 8);
    ZeroBytesValue(io.pfrioTicket, 4);
    I32ZeroBytes(io.pfrioEsize);
    I32ZeroBytes(io.pfrioSize);
    I32ZeroBytes(io.pfrioSize2);
    I32ZeroBytes(io.pfrioNadd);
    I32ZeroBytes(io.pfrioNdel);
    I32ZeroBytes(io.pfrioNchange);
    I32ZeroBytes(io.pfrioFlags);
  }

  lemma PfiocTableZeroMembers(io: PfiocTable)
    requires io.Valid() && AllZero(PfiocTableImage(io))
    ensures AllZero(PfrTableImage(io.pfrioTable))
    ensures Pow256(8) == 0x1_0000_0000_0000_0000 && AllZero(LeBytes(io.pfrioBuffer, 8))
    ensures AllZero(I32Bytes(io.pfrioEsize)) && AllZero(I32Bytes(io.pfrioSize)) && AllZero(I32Bytes(io.pfrioSize2))
    ensures AllZero(I32Bytes(io.pfrioNadd)) && AllZero(I32Bytes(io.pfrioNdel)) && AllZero(I32Bytes(io.pfrioNchange))
    ensures AllZero(I32Bytes(io.pfrioFlags))
    ensures Pow256(4) == 0x1_0000_0000 && AllZero(LeBytes(io.pfrioTicket, 4))
  {
    Pow256Widths();
    var fields, members := PfiocTableLayout(), PfiocTableMembers(io);
    assert AllZero(Render(fields, members));
    ZeroImageMember(fields, members, 0);
    ZeroImageMember(fields, members, 1);
    ZeroImageMember(fields, members, 2);
    ZeroImageMember(fields, members, 3);
    ZeroImageMember(fields, members, 4);
    ZeroImageMember(fields, members, 5);
    ZeroImageMember(fields, members, 6);
    ZeroImageMember(fields, members, 7);
    ZeroImageMember(fields, members, 8);
    ZeroImageMember(fields, members, 9);
    assert members[0] == PfrTableImage(io.pfrioTable) && members[1] == LeBytes(io.pfrioBuffer, 8);
    assert members[2] == I32Bytes(io.pfrioEsize) && members[3] == I32Bytes(io.pfrioSize);
    assert members[4] == I32Bytes(io.pfrioSize2) && members[5] == I32Bytes(io.pfrioNadd);
    assert members[6] == I32Bytes(io.pfrioNdel) && members[7] == I32Bytes(io.pfrioNchange);
    assert members[8] == I32Bytes(io.pfrioFlags) && members[9] == LeBytes(io.pfrioTicket, 4);
  }
}
