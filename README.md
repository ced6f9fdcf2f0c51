# pftables-rs in Dafny

A model of the core of pftables-rs, a small Rust library for managing
OpenBSD packet filter (pf) tables through `/dev/pf`. It covers four parts.

- **The kernel records** `pfr_addr`, `pfr_table` and `pfioc_table` (`Bindings`).
  - Each record is a value with fixed-length byte fields.
  - Each record also has a C layout computed by the usual `repr(C)` rules (`Layout`).
  - Each record has a byte image laid out by that layout.
  - Proved: the layouts add up to the size constants that the `init()` transmutes rely on (52, 1064 and 1104 bytes).
  - Proved: each `init()` record is exactly the record whose image is all zero.
- **The translation layer** of `src/bridge/mod.rs` (`Bridge`).
  - Decoding a `pfr_addr` into a `PfAddr` is modelled as a function and as the imperative zero-trimming loop of the source.
  - Encoding a `PfAddr` back into a `pfr_addr` is modelled as a function.
  - The round trips are proved in both directions.
- **The earlier single-file bridge** `src/bridge.rs` (`LegacyBridge`).
  - `pfr_table::new`, with its copy loop.
  - The direct `IpAddr` conversions, whose IPv4 halves disagree on byte order.
- **The table facade** of `src/lib.rs` (`Tables`).
  - A `PfTable` class whose methods drive kernel calls through a `Device`.
  - Its contract is the two-phase get protocol and the "nothing changes on failure" rule.

Platform assumptions:
- The host is little-endian, which makes `u32::to_be` and `u32::from_be` a byte swap and `u32::to_le` the identity.
- A pointer is 8 bytes, as on OpenBSD/amd64. This is the platform the 1104-byte `pfioc_table` implies.
- The `pfr_addr_u` union is modelled as its 16 raw bytes, with the `u32` variant in the first four bytes.

Supporting modules:
- `Endian`: fixed-width integers and their byte images.
- `Utf8`: the well-formedness rule of section 4 of RFC 3629, which `String::from_utf8` checks.
- `Net`: `IpAddr` as a 32-bit or 128-bit value.
- `Errors`: the crate's `PfError`.
- `Results`: `Result`.

Two quirks of the source are modelled as written:
- The encoder in `src/bridge/mod.rs` does not copy the interface name.
- `src/bridge/mod.rs:41` returns a `ConversionError` that the crate's `PfError` does not declare. It is modelled as `TranslationError`, the crate's conversion error.

## Model

| member | source | states |
|---|---|---|
| Endian.Swap32 | src/bridge/mod.rs:23 | the byte swap behind `u32::from_be`/`to_be`: the little-endian image of the result is the big-endian image of the argument |
| Endian.Swap32Involutive | src/bridge/mod.rs:23 | swapping twice gives back the original word, so `from_be` undoes `to_be` |
| Endian.ToBe32 | src/bridge/mod.rs:60 | `u32::to_be`: the word in memory holds the argument's network-order bytes |
| Endian.FromBe32 | src/bridge/mod.rs:23 | `u32::from_be`: the result's network-order bytes are the argument's bytes in memory |
| Endian.ToLe32 | src/bridge.rs:121 | `u32::to_le`: the word in memory holds the argument's bytes least significant first, the reverse of network order |
| Endian.LeBytesOfValue | src/bridge/bindings.rs:27 | reading four (or n) bytes as a host-order number and writing it back gives the same bytes |
| Endian.BeBytesOfValue | src/bridge/mod.rs:27 | reading bytes in network order and writing them back gives the same bytes, as `from_be_bytes`/`to_be_bytes` |
| Utf8.AsciiIsValid | src/bridge/mod.rs:39 | every ASCII byte string passes the `String::from_utf8` check |
| Utf8.StrayTailIsInvalid | src/bridge/mod.rs:39 | a buffer starting with a continuation byte fails the `String::from_utf8` check |
| Net.IpAddr.Octets | src/bridge/mod.rs:10 | an IPv4 address has 4 octets and an IPv6 address 16, and read in network order they are the address's value |
| Bindings.ReadIp4 | src/bridge/bindings.rs:26-29 | reading `_pfra_ip4addr` gives the `u32` whose host-order (little-endian) bytes are the first four union bytes |
| Bindings.WriteIp4 | src/bridge/bindings.rs:26-29 | writing `_pfra_ip4addr` changes only the first four bytes, and reading it back gives the value written |
| Layout.MaxAlign | src/bridge/bindings.rs:31-43 | a struct's alignment is at least every member's alignment, and 1 when it has none |
| Layout.MaxAlignAttained | src/bridge/bindings.rs:31-43 | some member has exactly that alignment, so it is the strictest one |
| Layout.MaxSize | src/bridge/bindings.rs:25-29 | the size bound of a union's variants is at least every variant's size, and 0 when there are none |
| Layout.MaxSizeAttained | src/bridge/bindings.rs:25-29 | some variant has exactly that size, so it is the largest one |
| Layout.SizeOf | src/bridge/bindings.rs:31-43 | a struct's size is the end of its last member rounded up to the next multiple of its strictest member alignment |
| Layout.MemberInside | src/bridge/bindings.rs:31-43 | each member's offset respects its alignment, and the member ends within the struct |
| Layout.StructField | src/bridge/bindings.rs:73-75 | a struct embedded in another takes its strictest member alignment, and its size is the end of its last member rounded up to that alignment |
| Layout.UnionField | src/bridge/bindings.rs:25-29 | a union takes the alignment of its strictest variant, and its size is its largest variant rounded up to that alignment |
| Layout.Render | src/bridge/bindings.rs:47-51 | a record's byte image is exactly as long as its layout's size |
| Layout.RenderAt | src/bridge/bindings.rs:47-51 | member i's bytes sit in the image at member i's offset |
| Layout.RenderZero | src/bridge/bindings.rs:47-51 | members that are all zero give an all-zero image, padding included |
| Bindings.PfrAddrFields | src/bridge/bindings.rs:31-43 | `pfr_addr` is a 16-byte union, a 16-byte name, a u32, a u16, five u8 and a 7-byte pad |
| Bindings.PfrAddrEnd | src/bridge/bindings.rs:31-43 | the `pfr_addr` members end at byte 50 |
| Bindings.PfrAddrLayoutSize | src/bridge/bindings.rs:17 | the union is 16 bytes aligned to 4, and `pfr_addr` is PFR_ADDR_SIZE = 52 bytes |
| Bindings.PfrTableLayoutSize | src/bridge/bindings.rs:18 | `pfr_table` members sit at offsets 0, 1024, 1056 and 1060, end at 1061 and round up to PFR_TABLE_SIZE = 1064, aligned to 4 |
| Bindings.PfiocTableFields | src/bridge/bindings.rs:73-85 | `pfioc_table` is the 1064-byte table, an 8-byte pointer and eight 4-byte fields |
| Bindings.PfiocTableEnd | src/bridge/bindings.rs:73-85 | the `pfioc_table` members end at byte 1104, with no padding |
| Bindings.PfiocTableLayoutSize | src/bridge/bindings.rs:19 | `pfioc_table` is PFIOC_TABLE_SIZE = 1104 bytes |
| Bindings.PfrAddrImage | src/bridge/bindings.rs:48-50 | a `pfr_addr` image is PFR_ADDR_SIZE bytes long, as the transmute source array is |
| Bindings.PfrTableImage | src/bridge/bindings.rs:66-68 | a `pfr_table` image is PFR_TABLE_SIZE bytes long |
| Bindings.PfiocTableImage | src/bridge/bindings.rs:90-92 | a `pfioc_table` image is PFIOC_TABLE_SIZE bytes long |
| Bindings.PfrAddrInit | src/bridge/bindings.rs:47-52 | `pfr_addr::init`: union bytes, name, states, weight, family, net, not, fback, type and pad are all zero |
| Bindings.PfrTableInit | src/bridge/bindings.rs:65-70 | `pfr_table::init`: zero anchor, zero name, zero flags and fback |
| Bindings.PfiocTableInit | src/bridge/bindings.rs:89-94 | `pfioc_table::init`: a zero table, a null buffer and all eight counters and flags zero |
| Bindings.PfrAddrZeroImage | src/bridge/bindings.rs:47-52 | a `pfr_addr` has an all-zero image if and only if it is `init()`, so the transmute of a zero buffer is `init()` |
| Bindings.PfrAddrInitImage | src/bridge/bindings.rs:47-52 | the image of `pfr_addr::init()` is all zero |
| Bindings.PfrAddrFromZeroImage | src/bridge/bindings.rs:47-52 | a `pfr_addr` whose image is all zero is `init()` |
| Bindings.PfrAddrZeroMembers | src/bridge/bindings.rs:47-52 | an all-zero `pfr_addr` image has every member's bytes zero |
| Bindings.PfrTableZeroImage | src/bridge/bindings.rs:65-70 | a `pfr_table` has an all-zero image if and only if it is `init()` |
| Bindings.I32ZeroBytes | src/bridge/bindings.rs:77-83 | an `i32` field's bytes are all zero if and only if it is 0 |
| Bindings.PfiocTableZeroImage | src/bridge/bindings.rs:89-94 | a `pfioc_table` has an all-zero image if and only if it is `init()` |
| Bindings.PfiocTableInitImage | src/bridge/bindings.rs:89-94 | the image of `pfioc_table::init()` is all zero |
| Bindings.PfiocTableInitMembers | src/bridge/bindings.rs:89-94 | every member of `pfioc_table::init()` has all-zero bytes |
| Bindings.PfiocTableFromZeroImage | src/bridge/bindings.rs:89-94 | a `pfioc_table` whose image is all zero is `init()` |
| Bindings.PfiocTableZeroMembers | src/bridge/bindings.rs:89-94 | an all-zero `pfioc_table` image has the embedded table, the pointer and every counter zero |
| Bridge.TrimmedUnique | src/bridge/mod.rs:34-37 | a buffer has only one trimmed form: a prefix not ending in 0 that is followed only by zeros |
| Bridge.TrimZeros | src/bridge/mod.rs:34-37 | the name with trailing zeros removed is a prefix of the buffer, does not end in 0, and only zeros follow it |
| Bridge.TrimTrailingZeros | src/bridge/mod.rs:34-37 | the popping loop of `try_from` computes that trimmed prefix |
| Bridge.Decode | src/bridge/mod.rs:19-49 | unknown family gives `UnknownAddressFamily` before the name is examined; otherwise the call fails, with the conversion error, exactly when the trimmed name is not UTF-8; IPv4 reads the first 4 union bytes and IPv6 all 16, in network order; subnet is copied |
| Bridge.Ip4FromUnion | src/bridge/mod.rs:22-23 | reading `_pfra_ip4addr` with `u32::from_be`: the value whose network-order bytes are the first four union bytes |
| Bridge.Ip6FromUnion | src/bridge/mod.rs:26-27 | `u128::from_be_bytes`: the value whose network-order bytes are the 16 union bytes |
| Bridge.TryFrom | src/bridge/mod.rs:19-49 | the imperative `try_from`, with early error returns, computes `Decode` |
| Bridge.Encode | src/bridge/mod.rs:53-69 | family byte by variant, address octets in network order, zero unused union bytes, subnet into `pfra_net`, and name, states, weight, not, fback, type and pad all zero |
| Bridge.EncodeThenDecode | src/bridge/mod.rs:19-69 | decoding an encoded entry gives back its address and subnet with an empty name, and exactly the entry when its name is empty |
| Bridge.DecodeThenEncode | src/bridge/mod.rs:19-69 | every entry the encoder could have produced decodes successfully and re-encodes to the same record |
| Bridge.EncodedUnion | src/bridge/mod.rs:19-69 | the union bytes of such an entry survive decoding and re-encoding |
| Bridge.FamiliesDistinct | src/bridge/bindings.rs:14-15 | AF_INET and AF_INET6 differ, so a decoded address is IPv4 exactly when the family byte is AF_INET |
| LegacyBridge.NewTable | src/bridge.rs:167-179 | fails with `TableNameTooLong` exactly when the name has at least 32 bytes; otherwise the name prefix is copied, the rest of the name buffer (last byte included) is zero, the anchor, flags and fback are zero, and trimming gives the name back when it does not end in a zero byte |
| LegacyBridge.FromIpAddr | src/bridge.rs:115-130 | family by variant; an IPv4 value's octets land in the union reversed (`to_le`), an IPv6 value's in network order; every other field is zero |
| LegacyBridge.IntoIpAddr | src/bridge.rs:101-113 | for a known family, IPv4 exactly for AF_INET; the address's octets are the union bytes read in network order |
| LegacyBridge.Ipv6RoundTrip | src/bridge.rs:107-108 | an IPv6 address survives `From` then `Into` unchanged |
| LegacyBridge.Ipv4RoundTripReversesOctets | src/bridge.rs:104-105 | an IPv4 address comes back with its four octets in reverse order |
| LegacyBridge.OctetsOfV4 | src/bridge.rs:121 | a word stored little-endian has its octets in the reverse of the stored byte order |
| LegacyBridge.TenDotZeroDotZeroDotOne | src/bridge.rs:121 | the word 0x0A000001 is the address 10.0.0.1 |
| LegacyBridge.OneDotZeroDotZeroDotTen | src/bridge.rs:121 | the word 0x0100000A is the address 1.0.0.10 |
| LegacyBridge.Ipv4RoundTripCounterexample | src/bridge.rs:121 | 10.0.0.1 comes back from `From` then `Into` as 1.0.0.10 |
| LegacyBridge.FromIpAddrNetworkOrder | src/bridge.rs:115-130 | the conversion with `to_be`, defined as the src/bridge/mod.rs encoder with no name and prefix length 0: both families store their octets in network order, and all other fields are zero |
| LegacyBridge.NetworkOrderRoundTrip | src/bridge.rs:101-130 | with network order on both sides, every address survives `From` then `Into` |
| Tables.Placeholders | src/lib.rs:71 | the second GetAddrs buffer holds exactly n default entries |
| Tables.PfIocTable.constructor | src/lib.rs:65 | a fresh request for the table's name, with an empty buffer and nothing reported |
| Tables.PfIocTable.Fire | src/lib.rs:68 | one kernel call with the current name and buffer is logged; on failure nothing changes, and on success buffer and size are what the kernel reported |
| Tables.PfTable.constructor | src/lib.rs:55-60 | `PfTable::new` keeps the name verbatim and starts with no entries |
| Tables.PfTable.GetAddrs | src/lib.rs:63-76 | `get_addrs` makes the calls, returns the result and leaves the entries that the two-phase protocol `GetOutcome` prescribes, and never changes the name |
| Tables.PfTable.AddAddrs | src/lib.rs:79-86 | AddAddrs with exactly the caller's entries, then a refresh only on success, as `ChangeOutcome` prescribes; the name is unchanged |
| Tables.PfTable.DelAddrs | src/lib.rs:89-96 | DelAddrs with exactly the caller's entries, then a refresh only on success; the name is unchanged |
| Tables.PfTable.ClrAddrs | src/lib.rs:99-103 | ClrAddrs with an empty buffer, then a refresh only on success; the name is unchanged |
| Tables.GetProtocol | src/lib.rs:63-76 | `get_addrs` makes one or two GetAddrs calls for its table: the first with an empty buffer, the second with exactly as many placeholders as the first reported. It succeeds only when both do, and then the entries are the second call's buffer. On failure the entries are unchanged and the failing call's error is returned. |
| Tables.ChangeProtocol | src/lib.rs:79-103 | add, delete and clear first send the caller's buffer with their own command for the table. If that fails, its error is returned, nothing more is sent and the entries are unchanged. Otherwise the outcome is a `get_addrs` refresh. |

## Left out

- The kernel interface is not modelled: `pfioc_table::fire` (src/bridge.rs:233-251), `ioctl`, `close`, the opening of `/dev/pf` and `last_os_error`.
  - Kernel calls are `Tables.Device`: a function from the history of requests to a reply.
  - `IoctlError` carries the OS error number.
- The file handle parameter `fd` of the `PfTable` methods is replaced by the `Device`.
- `PfIocTable`, `PfrAddr`, `PfIocCommand` and `PfrAddr::default()` are not part of this model's source. They are modelled by their use in src/lib.rs: a name, a buffer of entries and a reported size, with `default()` taken as IPv4 0.0.0.0, an empty name and prefix 0.
- `PfTable.addrs` holds `PfAddr` entries.
- The crate's `Result<T, Box<dyn Error>>` is modelled as `Result<T, PfError>`.
- All `fmt::Debug` and `fmt::Display` impls are left out; they are formatting only.
- The `mem::transmute` calls are modelled as the relation between a record and its byte image.
  - Memory safety, and the address stability of the raw `pfrio_buffer` pointer, are outside a value model.
  - The pointer is an unsigned 64-bit number; `init()` makes it 0.
- The `strlcpy` extern is not used by the modelled code and is left out.
- The ioctl codes DIOCRSETADDRS and DIOCRGETADDRS are declared with their values but are not used: the facade names kernel calls by `PfIocCommand`, and the codes are platform facts.
- INET_ADDRSTRLEN is declared but unused, as in the source.
- src/main.rs, the examples, the C experiments and src/bridge/tests.rs are left out. They are device I/O drivers, and tests of `PfIocTable::translate`/`update`, which lie outside the modelled files.
- Byte order is fixed to a little-endian host. A big-endian host, where `to_le` would swap and `to_be` would not, is not modelled.
- The two bridge files are modelled as separate versions. Legacy `pfr_addr`, `pfr_table` and `pfioc_table` and their `init()` (src/bridge.rs:52-99, 132-165, 182-229) are identical to the `Bindings` ones and reuse them.
- `LegacyBridge.IntoIpAddr`: the panic on an unknown family (src/bridge.rs:110) is a precondition rather than a modelled failure.
- `LegacyBridge.NewTable`: the name is taken as its UTF-8 bytes, which is what `&str::len` and `as_bytes` see.
- `Bridge.Decode`: the error for a name that is not UTF-8 is `TranslationError`, since the `ConversionError` named at src/bridge/mod.rs:41 is not declared by the crate.
- `Layout` computes offsets and sizes; field offsets are stated for `pfr_table`, and only the end and size for `pfr_addr` and `pfioc_table`.

## Findings

| source | as written | input that shows it | evidently intended | confidence | as-written member | corrected member |
|---|---|---|---|---|---|---|
| src/bridge.rs:121 | `From<IpAddr>` stores an IPv4 value with `u32::to_le`, but `Into<IpAddr>` reads it with `u32::from_be` (src/bridge.rs:105) | 10.0.0.1 converted to `pfr_addr` and back gives 1.0.0.10 | `u32::to_be`, as in src/bridge/mod.rs:60, so the kernel sees network order and the round trip is the identity | not executed; high | LegacyBridge.Ipv4RoundTripCounterexample | LegacyBridge.NetworkOrderRoundTrip |
