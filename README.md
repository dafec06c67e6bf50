# IPv6 fixed header and address codec

A Dafny model of the IPv6 header module of the Tock network capsules
(`capsules/src/net/ip.rs`). The module has four parts:

- `MacAddr`: a link-layer address, either short (16 bits) or long (8 octets).
- `ip6_nh`: a table of next-header protocol numbers.
- `IPAddr`: a 16-octet IPv6 address. It has classification predicates
  (unspecified, unicast link-local, multicast) and two mutators:
  `set_unicast_link_local` and the bit-granular `set_prefix`.
- `IP6Header`: the 40-octet fixed header of section 3 of RFC 8200. It has
  `parse` from a buffer, `serialize` into a buffer, and accessors for the
  packed version / traffic class / flow label word, the payload length, the
  next header and the hop limit.

Files and modules:

- `mac_addr.dfy` (`MacAddress`): the `MacAddr` datatype.
- `ip6_nh.dfy` (`Ip6Nh`): the protocol-number constants.
- `address.dfy` (`Address`): the `IPAddr` class over a 16-element array,
  with the mutators as methods. It also holds a bit-level reference for the
  prefix notation of section 2.3 of RFC 4291 (`Bit`, `HasPrefix`) and the
  function `Prefixed`, which specifies `set_prefix`.
- `ip6.dfy` (`Ip6`):
  - `Header`, the header as a value, with its 40-octet image `Encode` and
    `Parse`;
  - pure getters over the four packed octets, with `With*` functions that
    specify the setters;
  - `Word`, the 32-bit big-endian reference word of RFC 8200;
  - the `IP6Header` class, whose setters update its fields in place and are
    specified through `Value()`.

Octets are `bv8`, `u16` is `bv16` and `u32` is `bv32`. Rust's truncating
`as u8` is written out (`Low8`, `Low8Of32`). The host is taken to be
little-endian, so `u16::from_be` and `u16::to_be` both swap the two octets
(`SwapBytes16`).

## Model

| member | source | states |
|---|---|---|
| Address.IPAddr.constructor | capsules/src/net/ip.rs:24-27 | a new address is `::`, all sixteen octets zero |
| Address.IPAddr.IsUnspecified | capsules/src/net/ip.rs:29-31 | true exactly when all 128 bits of the address are those of `::` (the `::/128` prefix), i.e. the address equals `::` |
| Address.IPAddr.IsUnicastLinkLocal | capsules/src/net/ip.rs:33-36 | true exactly when the leftmost 64 bits of the address are those of `fe80::` (RFC 4291 prefix notation, bit by bit) |
| Address.IPAddr.SetUnicastLinkLocal | capsules/src/net/ip.rs:38-44 | afterwards the address is unicast link-local, octets 0-7 are `fe80:0:0:0`, octets 8-15 are unchanged |
| Address.IPAddr.SetPrefix | capsules/src/net/ip.rs:46-59 | the panic condition becomes the precondition; the new octets are `Prefixed(old octets, prefix, prefixLen)` |
| Address.PrefixedBits | capsules/src/net/ip.rs:47-59 | after `set_prefix(p, n)` every bit before `n` is the bit of `p` and every bit from `n` on is the old bit |
| Address.PrefixedHasPrefix | capsules/src/net/ip.rs:47-59 | after `set_prefix(p, n)` the address lies in `p/n`, and bits `n..128` are unchanged |
| Address.PrefixedIdempotent | capsules/src/net/ip.rs:47-59 | setting the same prefix twice gives the same address as setting it once |
| Address.PrefixMask | capsules/src/net/ip.rs:55 | the mask `0xff << (8 - rem)` has exactly its leading `rem` bits set |
| Address.MergeBit | capsules/src/net/ip.rs:56-57 | the clear-then-or on the boundary octet takes its leading `rem` bits from the prefix and the rest from the old octet |
| Address.BytePrefix | capsules/src/net/ip.rs:33-36 | the first `m` octets agree exactly when the first `8m` bits agree |
| Address.ByteBits | capsules/src/net/ip.rs:33-36 | two octets are equal exactly when all eight bits are |
| Address.IPAddr.IsMulticast | capsules/src/net/ip.rs:61-63 | true exactly when the leftmost 8 bits are those of `ff00::` |
| Ip6.IP6Header.constructor | capsules/src/net/ip.rs:77-95 | packed octets `60 00 00 00` (version 6, traffic class 0, flow label 0), payload length 0, next header `NO_NEXT`, hop limit 255, both addresses `::` |
| Ip6.Encode | capsules/src/net/ip.rs:133-140 | the wire image is always 40 octets |
| Ip6.ImageAt | capsules/src/net/ip.rs:133-140 | a 40-octet string holding every field at its offset (0-3, 4-5 low octet first, 6, 7, 8-23, 24-39) is the image of the header |
| Ip6.Parse | capsules/src/net/ip.rs:101-124 | fails exactly when the buffer is shorter than 40 octets |
| Ip6.PayloadOctets | capsules/src/net/ip.rs:107-135 | the two octets that `serialize` writes for the payload length are the two octets that `parse` assembled it from |
| Ip6.EncodeParse | capsules/src/net/ip.rs:101-140 | the image of a parsed header is the first 40 octets of the buffer |
| Ip6.ParseEncode | capsules/src/net/ip.rs:101-140 | parsing the image of any header gives that header back |
| Ip6.ParseIgnoresTail | capsules/src/net/ip.rs:101-124 | octets after the first 40 do not change what is parsed |
| Ip6.EncodeInjective | capsules/src/net/ip.rs:126-140 | two headers with the same image are equal |
| Ip6.FlowLabel | capsules/src/net/ip.rs:186-192 | `get_flow_label` is bits 19-0 of the big-endian first word, so it fits in 20 bits |
| Ip6.Version | capsules/src/net/ip.rs:147-149 | `get_version` is bits 31-28 of the big-endian first word, a value below 16 |
| Ip6.TrafficClass | capsules/src/net/ip.rs:152-154 | `get_traffic_class` is bits 27-20 of the big-endian first word |
| Ip6.DscpUnshifted | capsules/src/net/ip.rs:163-165 | `get_dscp_unshifted` is bits 27-22 of the first word left in place, the two ECN bits cleared |
| Ip6.Dscp | capsules/src/net/ip.rs:167-169 | `get_dscp` is bits 27-22 of the first word, below 64, and equals the traffic class shifted right by 2 |
| Ip6.Ecn | capsules/src/net/ip.rs:176-178 | `get_ecn` is bits 21-20 of the first word, below 4 |
| Ip6.TrafficClassLayout | capsules/src/net/ip.rs:156-161 | `set_traffic_class(t)` puts `t` into bits 27-20 of the first word and changes no other bit |
| Ip6.DscpLayout | capsules/src/net/ip.rs:171-174 | `set_dscp(d)` puts the low six bits of `d` into bits 27-22 and changes no other bit |
| Ip6.EcnLayout | capsules/src/net/ip.rs:180-183 | `set_ecn(e)` puts the low two bits of `e` into bits 21-20 and changes no other bit |
| Ip6.FlowLabelLayout | capsules/src/net/ip.rs:194-199 | `set_flow_label(v)` puts the low 20 bits of `v` into bits 19-0 and changes no other bit |
| Ip6.MergeDscp | capsules/src/net/ip.rs:171-174 | word arithmetic: re-storing the traffic class with the current ECN bits changes only the DSCP bits |
| Ip6.MergeEcn | capsules/src/net/ip.rs:180-183 | word arithmetic: re-storing the traffic class with the current DSCP bits changes only the ECN bits |
| Ip6.TrafficClassStored | capsules/src/net/ip.rs:152-161 | after `set_traffic_class(t)` the traffic class reads `t`, and version and flow label read as before |
| Ip6.TrafficClassRestored | capsules/src/net/ip.rs:152-161 | `set_traffic_class(get_traffic_class())` leaves all four packed octets as they were |
| Ip6.RestoreOctets | capsules/src/net/ip.rs:157-160 | octet arithmetic: the two masked writes of the traffic class just read give back octets 0 and 1 |
| Ip6.DscpRoundTrip | capsules/src/net/ip.rs:163-174 | the DSCP read back is the low six bits of the one stored; ECN, version and flow label are kept |
| Ip6.EcnRoundTrip | capsules/src/net/ip.rs:163-183 | the ECN read back is the low two bits of the one stored; DSCP, version and flow label are kept |
| Ip6.FlowLabelRoundTrip | capsules/src/net/ip.rs:186-199 | the flow label read back is the low 20 bits of the one stored; octet 0, the high nibble of octet 1, version and traffic class are kept |
| Ip6.PayloadLenRoundTrip | capsules/src/net/ip.rs:202-214 | `get_payload_len` returns what `set_payload_len` stored, and `set_payload_len` of the value read stores the same field back |
| Ip6.PayloadLen | capsules/src/net/ip.rs:202-204 | `get_payload_len` reads the two stored octets big-endian: the one from wire octet 4 on top, the one from wire octet 5 below |
| Ip6.SwapOctets | capsules/src/net/ip.rs:202-204 | converting from network order swaps the low and the high octet |
| Ip6.ParsedPayloadLen | capsules/src/net/ip.rs:107 | the payload length of a parsed buffer, as `get_payload_len` (lines 202-204) returns it, is octets 4 and 5 read big-endian |
| Ip6.TotalLen | capsules/src/net/ip.rs:207-209 | where the `u16` sum cannot overflow, the total length is 40 plus the payload length, with no wrap-around |
| Ip6.ParseExample | capsules/src/net/ip.rs:101-124 | a concrete header from `::` to `fe80::1` parses to version 6, payload 8, TCP, hop limit 64, destination in `fe80::/64`, total length 48 |
| Ip6.IP6Header.WriteFixed | capsules/src/net/ip.rs:133-137 | octets 0-7 of the target hold the packed word, the payload length low octet first, the next header and the hop limit; later octets are unchanged |
| Ip6.IP6Header.WriteAddresses | capsules/src/net/ip.rs:139-140 | octets 8-23 hold the source address and 24-39 the destination address; other octets are unchanged |
| Ip6.IP6Header.WriteImage | capsules/src/net/ip.rs:131-140 | the first 40 octets of the target are the header's image, the rest is unchanged, and the header is unchanged |
| Ip6.IP6Header.Serialize | capsules/src/net/ip.rs:126-144 | as written: fails exactly on a buffer shorter than 40 octets; on success the image is built in a local array and the caller's buffer is left as it was |
| Ip6.IP6Header.SerializeIntended | capsules/src/net/ip.rs:126-144 | corrected: same failure condition; on success the caller's buffer starts with the image, the tail is unchanged, and parsing the buffer gives the header back |
| Ip6.SerializeLeavesBufferStale | capsules/src/net/ip.rs:131 | a default header serialized into a zeroed 40-octet buffer leaves a buffer that parses to a different header |
| Ip6.IP6Header.SetTrafficClass | capsules/src/net/ip.rs:156-161 | the packed octets become `WithTrafficClass(old, t)` and nothing else changes; the traffic class then reads `t` |
| Ip6.IP6Header.SetDscp | capsules/src/net/ip.rs:171-174 | the packed octets become `WithDscp(old, d)` and nothing else changes; DSCP reads `d & 0x3f` and ECN is kept |
| Ip6.IP6Header.SetEcn | capsules/src/net/ip.rs:180-183 | the packed octets become `WithEcn(old, e)` and nothing else changes; ECN reads `e & 0x3` and DSCP is kept |
| Ip6.IP6Header.SetFlowLabel | capsules/src/net/ip.rs:194-199 | the packed octets become `WithFlowLabel(old, v)` and nothing else changes; the flow label reads `v & 0xfffff` |
| Ip6.IP6Header.SetPayloadLen | capsules/src/net/ip.rs:212-214 | only the payload-length field is written; it becomes the network-order value, the packed-octet array and both address objects stay the same, and the payload length then reads `n` |
| Ip6.IP6Header.SetNextHeader | capsules/src/net/ip.rs:220-222 | only the next-header field is written, to the new value; the packed-octet array and both address objects stay the same |
| Ip6.IP6Header.SetHopLimit | capsules/src/net/ip.rs:228-230 | only the hop-limit field is written, to the new value; the packed-octet array and both address objects stay the same |

## Left out

- `boards/components/src/process_console.rs` is not part of this model. It is an operator console with no interaction with the header codec.
- The `#[repr(C, packed)]` memory layout of `IP6Header` is not modelled. The header is a record of fields, and its wire form is `Encode`.
- The `derive` traits (`Copy`, `Clone`, `PartialEq`, `Debug`) are not modelled as operations. Equality of `MacAddr` and `Header` is Dafny's structural equality.
- Byte order is fixed to a little-endian host. On a big-endian host `from_be` and `to_be` would be the identity, and the stored payload-length field would then read differently.
- The panic of `set_prefix` (its `assert!`) is the precondition `PrefixFits`. Panics themselves are not modelled.
- `get_next_header` and `get_hop_limit` are plain reads of the `nextHeader` and `hopLimit` fields and have no member of their own. `SetNextHeader` and `SetHopLimit` state those fields after a write.
- Ip6.TotalLen: defined only where `40 + payload length` fits in a `u16`. Past that, Rust panics in debug builds and wraps in release builds, and the model covers neither.
- Ip6.IP6Header.SetTrafficClass: the two read-modify-write statements on each octet are computed in a local and then stored. The stored value is the same.
- Ip6.IP6Header.Serialize: the local image is returned as a ghost out-parameter so that it can be stated. In the source it is simply dropped.

## Findings

| source | as written | input that shows it | evidently intended | confidence | as-written member | corrected member |
|---|---|---|---|---|---|---|
| capsules/src/net/ip.rs:131 | `serialize` shadows the caller's `buf` with a fresh local `[0; 40]`, writes the header into the local copy and returns `Ok(())`, so the caller's buffer is never written | a default header (version 6) serialized into a zeroed 40-octet buffer; afterwards the buffer still parses to version 0 | the 40-octet image is written into the caller's buffer, so that parsing it gives the header back | not executed | Ip6.SerializeLeavesBufferStale | Ip6.IP6Header.SerializeIntended |
