/** The IPv6 "next header" protocol numbers the stack recognises (the
    values IANA assigns in its Protocol Numbers registry). A constant table,
    no logic. */
module Ip6Nh {
  const HOP_OPTS: bv8 := 0
  const TCP: bv8 := 6
  const UDP: bv8 := 17
  const IP6: bv8 := 41
  const ROUTING: bv8 := 43
  const FRAGMENT: bv8 := 44
  const ICMP: bv8 := 58
  const NO_NEXT: bv8 := 59
  const DST_OPTS: bv8 := 60
  const MOBILITY: bv8 := 135
}
