/** Link-layer addresses as the IPv6 stack passes them around: either a
    16-bit short address or an 8-byte extended address. No behaviour beyond
    equality and copying. */
module MacAddress {

  /** Exactly eight octets, the `[u8; 8]` of an extended address. */
  type Octets8 = s: seq<bv8> | |s| == 8 witness [0, 0, 0, 0, 0, 0, 0, 0]

  datatype MacAddr =
    | ShortAddr(short: bv16)
    | LongAddr(long: Octets8)
}
