/** The IPv6 fixed header of section 3 of RFC 8200 (`IP6Header`): the
    40-octet record, its parse and serialize operations, and the bit-level
    accessors of the packed version / traffic class / flow label word.

    The host is taken to be little-endian, as on the Cortex-M targets the
    stack runs on: `u16::from_be` and `u16::to_be` are then both a swap of the
    two octets (`SwapBytes16`). */
module Ip6 {
  import opened Address
  import Ip6Nh

  /** Size of the fixed header on the wire. */
  const HEADER_LEN: nat := 40

  /** Four octets, the `version_class_flow: [u8; 4]` field. */
  type Bytes4 = s: seq<bv8> | |s| == 4 witness [0, 0, 0, 0]

  /** `Result<T, ()>`: the operations here fail in one way only, a buffer
      shorter than the header. */
  datatype Result<T> = Ok(value: T) | Err

  /** The header as a value, field for field. `payloadLen` is the raw
      16-bit field as stored in memory, that is, the two wire octets 4 and 5
      read as a little-endian `u16`. */
  datatype Header = Header(
    versionClassFlow: Bytes4,
    payloadLen: bv16,
    nextHeader: bv8,
    hopLimit: bv8,
    srcAddr: Addr,
    dstAddr: Addr)

  /** Rust's truncating `as u8` on a `u16`: the low octet. */
  function Low8(x: bv16): bv8
  {
    (x & 0xff) as bv8
  }

  /** Rust's truncating `as u8` on a `u32`: the low octet. */
  function Low8Of32(x: bv32): bv8
  {
    (x & 0xff) as bv8
  }

  /** A `u16` from its low and high octets, the way `parse` assembles the
      payload length field. */
  function Assemble16(lo: bv8, hi: bv8): bv16
  {
    (lo as bv16) | ((hi as bv16) << 8)
  }

  // ---------------------------------------------------------------------
  // The 40-octet image and parse
  // ---------------------------------------------------------------------

  /** The 40-octet image `serialize` builds: the four packed octets, the
      payload length low octet then high octet, next header, hop limit, and
      the two addresses. */
  function Encode(h: Header): (b: seq<bv8>)
    ensures |b| == HEADER_LEN
  {
    h.versionClassFlow
    + [Low8(h.payloadLen), Low8(h.payloadLen >> 8), h.nextHeader, h.hopLimit]
    + h.srcAddr + h.dstAddr
  }

  /** An octet string is the image of `h` when every field of `h` sits at
      its offset. */
  lemma ImageAt(b: seq<bv8>, h: Header)
    requires |b| == HEADER_LEN
    requires forall i :: 0 <= i < 4 ==> b[i] == h.versionClassFlow[i]
    requires b[4] == Low8(h.payloadLen) && b[5] == Low8(h.payloadLen >> 8)
    requires b[6] == h.nextHeader && b[7] == h.hopLimit
    requires forall i :: 0 <= i < ADDR_LEN ==> b[8 + i] == h.srcAddr[i]
    requires forall i :: 0 <= i < ADDR_LEN ==> b[24 + i] == h.dstAddr[i]
    ensures b == Encode(h)
  {
    assert b[..4] == h.versionClassFlow;
    assert b[4..8] == [b[4], b[5], b[6], b[7]];
    assert b[8..24] == h.srcAddr;
    assert b[24..] == h.dstAddr;
    assert b == b[..4] + b[4..8] + b[8..24] + b[24..];
  }

  /** `parse`: fails exactly on a buffer shorter than 40 octets; otherwise
      copies the fields out of the first 40 octets without validating them. */
  function Parse(buf: seq<bv8>): (r: Result<Header>)
    ensures r.Err? <==> |buf| < HEADER_LEN
  {
    if |buf| < HEADER_LEN then Err
    else
      Ok(Header(
        buf[0..4],
        Assemble16(buf[4], buf[5]),
        buf[6],
        buf[7],
        buf[8..24],
        buf[24..40]))
  }

  /** The two octets of the stored payload length, low octet first, are the
      two octets it was assembled from. */
  lemma PayloadOctets(lo: bv8, hi: bv8)
    ensures Low8(Assemble16(lo, hi)) == lo && Low8(Assemble16(lo, hi) >> 8) == hi
  {
  }

  /** The image of a parsed header is the first 40 octets of the buffer:
      parse loses nothing of them. */
  lemma EncodeParse(buf: seq<bv8>)
    requires |buf| >= HEADER_LEN
    ensures Encode(Parse(buf).value) == buf[..HEADER_LEN]
  {
    var h := Parse(buf).value;
    PayloadOctets(buf[4], buf[5]);
    ImageAt(buf[..HEADER_LEN], h);
  }

  /** Parsing the image of a header gives the header back. */
  lemma ParseEncode(h: Header)
    ensures Parse(Encode(h)) == Ok(h)
  {
    var b := Encode(h);
    assert b[0..4] == h.versionClassFlow;
    assert b[8..24] == h.srcAddr;
    assert b[24..40] == h.dstAddr;
  }

  /** Trailing octets after the header do not change what is parsed. */
  lemma ParseIgnoresTail(buf: seq<bv8>, tail: seq<bv8>)
    requires |buf| >= HEADER_LEN
    ensures Parse(buf + tail) == Parse(buf)
  {
    assert (buf + tail)[..HEADER_LEN] == buf[..HEADER_LEN];
    EncodeParse(buf + tail);
    EncodeParse(buf);
    EncodeInjective(Parse(buf + tail).value, Parse(buf).value);
  }

  /** Two headers with the same image are the same header. */
  lemma EncodeInjective(g: Header, h: Header)
    requires Encode(g) == Encode(h)
    ensures g == h
  {
    ParseEncode(g);
    ParseEncode(h);
  }

  // ---------------------------------------------------------------------
  // The packed first word: version, traffic class, flow label
  // ---------------------------------------------------------------------

  /** The first 32 bits of the header in network order, as drawn in section
      3 of RFC 8200: version in bits 31..28, traffic class in bits 27..20,
      flow label in bits 19..0. */
  function Word(vcf: Bytes4): bv32
  {
    ((vcf[0] as bv32) << 24) | ((vcf[1] as bv32) << 16) | ((vcf[2] as bv32) << 8) | (vcf[3] as bv32)
  }

  /** `get_version`: bits 31..28 of the first word. */
  function Version(vcf: Bytes4): (r: bv8)
    ensures r < 16 && r as bv32 == Word(vcf) >> 28
  {
    (vcf[0] & 0xf0) >> 4
  }

  /** `get_traffic_class`: bits 27..20 of the first word. */
  function TrafficClass(vcf: Bytes4): (r: bv8)
    ensures r as bv32 == (Word(vcf) >> 20) & 0xff
  {
    ((vcf[0] & 0x0f) << 4) | ((vcf[1] & 0xf0) >> 4)
  }

  /** `get_dscp_unshifted`: the traffic class with its two ECN bits cleared,
      that is, bits 27..22 of the first word left in place. */
  function DscpUnshifted(vcf: Bytes4): (r: bv8)
    ensures r as bv32 == (Word(vcf) >> 20) & 0xfc
  {
    TrafficClass(vcf) & 0xfc
  }

  /** `get_dscp`: bits 27..22 of the first word, the upper six bits of the
      traffic class (section 3 of RFC 2474). */
  function Dscp(vcf: Bytes4): (r: bv8)
    ensures r < 64 && r as bv32 == (Word(vcf) >> 22) & 0x3f
    ensures r == TrafficClass(vcf) >> 2
  {
    DscpUnshifted(vcf) >> 2
  }

  /** `get_ecn`: bits 21..20 of the first word, the lower two bits of the
      traffic class (section 5 of RFC 3168). */
  function Ecn(vcf: Bytes4): (r: bv8)
    ensures r < 4 && r as bv32 == (Word(vcf) >> 20) & 0x03
  {
    TrafficClass(vcf) & 0x03
  }

  /** `get_flow_label`: bits 19..0 of the first word, in the low 20 bits of
      a `u32`. */
  function FlowLabel(vcf: Bytes4): (r: bv32)
    ensures r < 0x10_0000 && r == Word(vcf) & 0xf_ffff
  {
    (((vcf[1] & 0x0f) as bv32) << 16) | ((vcf[2] as bv32) << 8) | (vcf[3] as bv32)
  }

  /** The packed octets after `set_traffic_class(t)`. */
  function WithTrafficClass(vcf: Bytes4, t: bv8): Bytes4
  {
    [(vcf[0] & 0xf0) | ((t & 0xf0) >> 4), (vcf[1] & 0x0f) | ((t & 0x0f) << 4), vcf[2], vcf[3]]
  }

  /** The packed octets after `set_dscp(d)`: the traffic class re-stored with
      the current ECN bits. */
  function WithDscp(vcf: Bytes4, d: bv8): Bytes4
  {
    WithTrafficClass(vcf, Ecn(vcf) | ((d << 2) & 0xfc))
  }

  /** The packed octets after `set_ecn(e)`: the traffic class re-stored with
      the current DSCP bits. */
  function WithEcn(vcf: Bytes4, e: bv8): Bytes4
  {
    WithTrafficClass(vcf, DscpUnshifted(vcf) | (e & 0x03))
  }

  /** The packed octets after `set_flow_label(v)`. */
  function WithFlowLabel(vcf: Bytes4, v: bv32): Bytes4
  {
    [vcf[0], (vcf[1] & 0xf0) | Low8Of32((v >> 16) & 0x0f), Low8Of32(v >> 8), Low8Of32(v)]
  }

  /** `set_traffic_class(t)` changes exactly bits 27..20 of the first word
      and stores `t` there. */
  lemma TrafficClassLayout(vcf: Bytes4, t: bv8)
    ensures Word(WithTrafficClass(vcf, t)) == (Word(vcf) & 0xf00f_ffff) | ((t as bv32) << 20)
  {
  }

  /** `set_dscp(d)` changes exactly bits 27..22 of the first word and stores
      the low six bits of `d` there. */
  lemma DscpLayout(vcf: Bytes4, d: bv8)
    ensures Word(WithDscp(vcf, d)) == (Word(vcf) & 0xf03f_ffff) | (((d & 0x3f) as bv32) << 22)
  {
    var tc := Ecn(vcf) | ((d << 2) & 0xfc);
    TrafficClassLayout(vcf, tc);
    MergeDscp(Word(vcf), Ecn(vcf), d);
  }

  /** `set_ecn(e)` changes exactly bits 21..20 of the first word and stores
      the low two bits of `e` there. */
  lemma EcnLayout(vcf: Bytes4, e: bv8)
    ensures Word(WithEcn(vcf, e)) == (Word(vcf) & 0xffcf_ffff) | (((e & 0x03) as bv32) << 20)
  {
    var tc := DscpUnshifted(vcf) | (e & 0x03);
    TrafficClassLayout(vcf, tc);
    MergeEcn(Word(vcf), Dscp(vcf), e);
  }

  /** `set_flow_label(v)` changes exactly bits 19..0 of the first word and
      stores the low 20 bits of `v` there. */
  lemma FlowLabelLayout(vcf: Bytes4, v: bv32)
    ensures Word(WithFlowLabel(vcf, v)) == (Word(vcf) & 0xfff0_0000) | (v & 0xf_ffff)
  {
  }

  /** Word arithmetic behind `DscpLayout`. */
  lemma MergeDscp(w: bv32, ecn: bv8, d: bv8)
    requires ecn as bv32 == (w >> 20) & 0x03
    ensures (w & 0xf00f_ffff) | (((ecn | ((d << 2) & 0xfc)) as bv32) << 20)
         == (w & 0xf03f_ffff) | (((d & 0x3f) as bv32) << 22)
  {
  }

  /** Word arithmetic behind `EcnLayout`. */
  lemma MergeEcn(w: bv32, dscp: bv8, e: bv8)
    requires dscp as bv32 == (w >> 22) & 0x3f
    ensures (w & 0xf00f_ffff) | ((((dscp << 2) | (e & 0x03)) as bv32) << 20)
         == (w & 0xffcf_ffff) | (((e & 0x03) as bv32) << 20)
  {
  }

  /** Traffic class, storing: the getter returns what the setter stored,
      and version and flow label are untouched. */
  lemma TrafficClassStored(vcf: Bytes4, t: bv8)
    ensures TrafficClass(WithTrafficClass(vcf, t)) == t
    ensures Version(WithTrafficClass(vcf, t)) == Version(vcf)
    ensures FlowLabel(WithTrafficClass(vcf, t)) == FlowLabel(vcf)
  {
  }

  /** Traffic class, restoring: storing the traffic class just read changes
      no octet. */
  lemma TrafficClassRestored(vcf: Bytes4)
    ensures WithTrafficClass(vcf, TrafficClass(vcf)) == vcf
  {
    var tc := TrafficClass(vcf);
    assert tc == ((vcf[0] & 0x0f) << 4) | ((vcf[1] & 0xf0) >> 4);
    RestoreOctets(vcf[0], vcf[1], tc);
    var same := WithTrafficClass(vcf, tc);
    assert same[0] == vcf[0] && same[1] == vcf[1];
  }

  /** Octet arithmetic behind storing the traffic class just read. */
  lemma RestoreOctets(b0: bv8, b1: bv8, tc: bv8)
    requires tc == ((b0 & 0x0f) << 4) | ((b1 & 0xf0) >> 4)
    ensures (b0 & 0xf0) | ((tc & 0xf0) >> 4) == b0
    ensures (b1 & 0x0f) | ((tc & 0x0f) << 4) == b1
  {
  }

  /** DSCP: the getter returns the low six bits of what was stored, and ECN,
      version and flow label are untouched. */
  lemma DscpRoundTrip(vcf: Bytes4, d: bv8)
    ensures Dscp(WithDscp(vcf, d)) == d & 0x3f
    ensures Ecn(WithDscp(vcf, d)) == Ecn(vcf)
    ensures Version(WithDscp(vcf, d)) == Version(vcf)
    ensures FlowLabel(WithDscp(vcf, d)) == FlowLabel(vcf)
  {
  }

  /** ECN: the getter returns the low two bits of what was stored, and DSCP,
      version and flow label are untouched. */
  lemma EcnRoundTrip(vcf: Bytes4, e: bv8)
    ensures Ecn(WithEcn(vcf, e)) == e & 0x03
    ensures Dscp(WithEcn(vcf, e)) == Dscp(vcf)
    ensures Version(WithEcn(vcf, e)) == Version(vcf)
    ensures FlowLabel(WithEcn(vcf, e)) == FlowLabel(vcf)
  {
  }

  /** Flow label: the getter returns the low 20 bits of what was stored, and
      octet 0 and the high nibble of octet 1 (version and traffic class) are
      untouched. */
  lemma FlowLabelRoundTrip(vcf: Bytes4, v: bv32)
    ensures FlowLabel(WithFlowLabel(vcf, v)) == v & 0xf_ffff
    ensures WithFlowLabel(vcf, v)[0] == vcf[0]
    ensures WithFlowLabel(vcf, v)[1] & 0xf0 == vcf[1] & 0xf0
    ensures Version(WithFlowLabel(vcf, v)) == Version(vcf)
    ensures TrafficClass(WithFlowLabel(vcf, v)) == TrafficClass(vcf)
  {
  }

  // ---------------------------------------------------------------------
  // Payload length, total length
  // ---------------------------------------------------------------------

  /** `u16::from_be` and `u16::to_be` on a little-endian host. */
  function SwapBytes16(x: bv16): bv16
  {
    (x << 8) | (x >> 8)
  }

  /** `get_payload_len`: the stored field converted from network order. The
      field holds wire octet 4 in its low half and wire octet 5 in its high
      half; the length is those two octets read big-endian. */
  function PayloadLen(raw: bv16): (r: bv16)
    ensures r == Assemble16(Low8(raw >> 8), Low8(raw))
  {
    SwapBytes16(raw)
  }

  /** The getter returns what the setter stored, and the setter stores back
      exactly the field the getter read. */
  lemma PayloadLenRoundTrip(n: bv16, raw: bv16)
    ensures PayloadLen(SwapBytes16(n)) == n
    ensures SwapBytes16(PayloadLen(raw)) == raw
  {
  }

  /** The payload length of a parsed header is octets 4 and 5 of the buffer
      read in network (big-endian) order. */
  lemma ParsedPayloadLen(buf: seq<bv8>)
    requires |buf| >= HEADER_LEN
    ensures PayloadLen(Parse(buf).value.payloadLen) == Assemble16(buf[5], buf[4])
  {
    SwapOctets(buf[4], buf[5]);
  }

  /** The stored field holds the octets low first; swapping them puts the
      first wire octet on top. */
  lemma SwapOctets(lo: bv8, hi: bv8)
    ensures SwapBytes16(Assemble16(lo, hi)) == Assemble16(hi, lo)
  {
  }

  /** `get_total_len`: the fixed header plus the payload. Defined only while
      the `u16` sum does not overflow; then the result is at least 40 and
      exceeds 40 by exactly the payload length, with no wrap-around. */
  function TotalLen(raw: bv16): (r: bv16)
    requires PayloadLen(raw) <= 0xffff - 40
    ensures r >= 40 && r - 40 == PayloadLen(raw)
  {
    40 + PayloadLen(raw)
  }

  /** A concrete header: version 6, traffic class 0, flow label 0, payload
      8 octets, TCP, hop limit 64, from `::` to `fe80::1`. */
  lemma ParseExample()
    ensures
      var dst: seq<bv8> := [0xfe, 0x80, 0, 0, 0, 0, 0, 0, 0, 0, 0, 0, 0, 0, 0, 1];
      var buf: seq<bv8> := [0x60, 0, 0, 0, 0x00, 0x08, 0x06, 0x40] + UNSPECIFIED + dst;
      var r := Parse(buf);
      r.Ok? && Version(r.value.versionClassFlow) == 6 && TrafficClass(r.value.versionClassFlow) == 0 &&
      FlowLabel(r.value.versionClassFlow) == 0 && PayloadLen(r.value.payloadLen) == 8 &&
      r.value.nextHeader == Ip6Nh.TCP && r.value.hopLimit == 64 &&
      r.value.srcAddr == UNSPECIFIED && HasPrefix(r.value.dstAddr, LINK_LOCAL_PREFIX, 64) &&
      TotalLen(r.value.payloadLen) == 48
  {
    var dst: seq<bv8> := [0xfe, 0x80, 0, 0, 0, 0, 0, 0, 0, 0, 0, 0, 0, 0, 0, 1];
    var buf: seq<bv8> := [0x60, 0, 0, 0, 0x00, 0x08, 0x06, 0x40] + UNSPECIFIED + dst;
    var r := Parse(buf);
    assert r.value.dstAddr == dst;
    assert dst[..8] == LINK_LOCAL_PREFIX[..8];
    BytePrefix(dst, LINK_LOCAL_PREFIX, 8);
  }

  // ---------------------------------------------------------------------
  // IP6Header, updated in place
  // ---------------------------------------------------------------------

  class IP6Header {
    var versionClassFlow: array<bv8>
    var payloadLen: bv16
    var nextHeader: bv8
    var hopLimit: bv8
    var srcAddr: IPAddr
    var dstAddr: IPAddr

    /** The header owns its storage: the packed octets and two addresses,
        three arrays none of which is shared. */
    ghost predicate Valid()
      reads this, srcAddr, dstAddr
    {
      versionClassFlow.Length == 4 && srcAddr.Valid() && dstAddr.Valid() &&
      srcAddr.octets != dstAddr.octets &&
      versionClassFlow != srcAddr.octets && versionClassFlow != dstAddr.octets
    }

    /** The header as a value. */
    function Value(): Header
      reads this, versionClassFlow, srcAddr, srcAddr.octets, dstAddr, dstAddr.octets
      requires Valid()
    {
      Header(versionClassFlow[..], payloadLen, nextHeader, hopLimit, srcAddr.octets[..], dstAddr.octets[..])
    }

    /** `IP6Header::new()` / `default()`. */
    constructor ()
      ensures Valid()
      ensures fresh(versionClassFlow) && fresh(srcAddr) && fresh(srcAddr.octets)
      ensures fresh(dstAddr) && fresh(dstAddr.octets)
      ensures versionClassFlow[..] == [0x60, 0, 0, 0]
      ensures Version(versionClassFlow[..]) == 6
      ensures TrafficClass(versionClassFlow[..]) == 0 && FlowLabel(versionClassFlow[..]) == 0
      ensures PayloadLen(payloadLen) == 0
      ensures nextHeader == Ip6Nh.NO_NEXT && hopLimit == 255
      ensures srcAddr.IsUnspecified() && dstAddr.IsUnspecified()
    {
      var vcf := new bv8[4](i => if i == 0 then 0x60 else 0);
      versionClassFlow := vcf;
      payloadLen := 0;
      nextHeader := Ip6Nh.NO_NEXT;
      hopLimit := 255;
      srcAddr := new IPAddr();
      dstAddr := new IPAddr();
      new;
      assert versionClassFlow[..] == [0x60, 0, 0, 0];
    }

    /** The body of `serialize`: the header's image written into the first
        40 octets of `dst`, field by field, the rest of `dst` untouched. */
    method WriteImage(dst: array<bv8>)
      requires Valid()
      requires dst.Length >= HEADER_LEN
      requires dst != versionClassFlow && dst != srcAddr.octets && dst != dstAddr.octets
      modifies dst
      ensures Valid() && Value() == old(Value())
      ensures dst[..HEADER_LEN] == Encode(Value())
      ensures dst[HEADER_LEN..] == old(dst[HEADER_LEN..])
    {
      WriteFixed(dst);
      WriteAddresses(dst);
      ImageAt(dst[..HEADER_LEN], Value());
    }

    /** Octets 0 to 7 of the image: the packed word, the payload length low
        octet first, next header and hop limit. */
    method WriteFixed(dst: array<bv8>)
      requires Valid()
      requires dst.Length >= HEADER_LEN
      requires dst != versionClassFlow && dst != srcAddr.octets && dst != dstAddr.octets
      modifies dst
      ensures forall i :: 0 <= i < 4 ==> dst[i] == versionClassFlow[i]
      ensures dst[4] == Low8(payloadLen) && dst[5] == Low8(payloadLen >> 8)
      ensures dst[6] == nextHeader && dst[7] == hopLimit
      ensures forall i :: 8 <= i < dst.Length ==> dst[i] == old(dst[i])
    {
      forall i | 0 <= i < 4 {
        dst[i] := versionClassFlow[i];
      }
      dst[4] := Low8(payloadLen);
      dst[5] := Low8(payloadLen >> 8);
      dst[6] := nextHeader;
      dst[7] := hopLimit;
    }

    /** Octets 8 to 39 of the image: source then destination address. */
    method WriteAddresses(dst: array<bv8>)
      requires Valid()
      requires dst.Length >= HEADER_LEN
      requires dst != versionClassFlow && dst != srcAddr.octets && dst != dstAddr.octets
      modifies dst
      ensures forall i :: 0 <= i < ADDR_LEN ==> dst[8 + i] == srcAddr.octets[i]
      ensures forall i :: 0 <= i < ADDR_LEN ==> dst[24 + i] == dstAddr.octets[i]
      ensures forall i :: 0 <= i < dst.Length && (i < 8 || HEADER_LEN <= i) ==> dst[i] == old(dst[i])
    {
      forall i | 0 <= i < ADDR_LEN {
        dst[8 + i] := srcAddr.octets[i];
      }
      forall i | 0 <= i < ADDR_LEN {
        dst[24 + i] := dstAddr.octets[i];
      }
    }

    /** `serialize`, as written: fails exactly on a buffer shorter than 40
        octets; otherwise it builds the header's image in a local array
        (`image`) and returns success. The caller's buffer is never written. */
    method Serialize(buf: array<bv8>) returns (r: Result<()>, ghost image: seq<bv8>)
      requires Valid()
      ensures r.Err? <==> buf.Length < HEADER_LEN
      ensures r.Ok? ==> image == Encode(Value())
      ensures buf[..] == old(buf[..])
    {
      if buf.Length < HEADER_LEN {
        return Err, [];
      }
      var local := new bv8[HEADER_LEN](_ => 0);
      WriteImage(local);
      assert local[..] == local[..HEADER_LEN];
      return Ok(()), local[..];
    }

    /** `serialize` as evidently intended: the image is written into the
        caller's buffer, so that parsing the buffer gives the header back. */
    method SerializeIntended(buf: array<bv8>) returns (r: Result<()>)
      requires Valid()
      modifies buf
      ensures r.Err? <==> buf.Length < HEADER_LEN
      ensures r.Err? ==> buf[..] == old(buf[..])
      ensures r.Ok? ==> buf[..HEADER_LEN] == Encode(old(Value()))
      ensures r.Ok? ==> buf[HEADER_LEN..] == old(buf[HEADER_LEN..])
      ensures r.Ok? ==> Parse(buf[..]) == Ok(old(Value()))
    {
      if buf.Length < HEADER_LEN {
        return Err;
      }
      ghost var h := Value();
      WriteImage(buf);
      assert buf[..][..HEADER_LEN] == buf[..HEADER_LEN];
      EncodeParse(buf[..]);
      EncodeInjective(Parse(buf[..]).value, h);
      return Ok(());
    }

    /** `set_traffic_class`. */
    method SetTrafficClass(t: bv8)
      requires Valid()
      modifies versionClassFlow
      ensures Valid()
      ensures Value() == old(Value()).(versionClassFlow := WithTrafficClass(old(versionClassFlow[..]), t))
      ensures TrafficClass(versionClassFlow[..]) == t
    {
      ghost var before := versionClassFlow[..];
      var hi := versionClassFlow[0];
      hi := hi & 0xf0;
      hi := hi | ((t & 0xf0) >> 4);
      var lo := versionClassFlow[1];
      lo := lo & 0x0f;
      lo := lo | ((t & 0x0f) << 4);
      versionClassFlow[0] := hi;
      versionClassFlow[1] := lo;
      assert versionClassFlow[..] == WithTrafficClass(before, t);
      TrafficClassStored(before, t);
    }

    /** `set_dscp`: re-stores the traffic class with the current ECN bits. */
    method SetDscp(d: bv8)
      requires Valid()
      modifies versionClassFlow
      ensures Valid()
      ensures Value() == old(Value()).(versionClassFlow := WithDscp(old(versionClassFlow[..]), d))
      ensures Dscp(versionClassFlow[..]) == d & 0x3f
      ensures Ecn(versionClassFlow[..]) == old(Ecn(versionClassFlow[..]))
    {
      var ecn := Ecn(versionClassFlow[..]);
      SetTrafficClass(ecn | ((d << 2) & 0xfc));
      DscpRoundTrip(old(versionClassFlow[..]), d);
    }

    /** `set_ecn`: re-stores the traffic class with the current DSCP bits. */
    method SetEcn(e: bv8)
      requires Valid()
      modifies versionClassFlow
      ensures Valid()
      ensures Value() == old(Value()).(versionClassFlow := WithEcn(old(versionClassFlow[..]), e))
      ensures Ecn(versionClassFlow[..]) == e & 0x03
      ensures Dscp(versionClassFlow[..]) == old(Dscp(versionClassFlow[..]))
    {
      var dscpUnshifted := DscpUnshifted(versionClassFlow[..]);
      SetTrafficClass(dscpUnshifted | (e & 0x03));
      EcnRoundTrip(old(versionClassFlow[..]), e);
    }

    /** `set_flow_label`. */
    method SetFlowLabel(v: bv32)
      requires Valid()
      modifies versionClassFlow
      ensures Valid()
      ensures Value() == old(Value()).(versionClassFlow := WithFlowLabel(old(versionClassFlow[..]), v))
      ensures FlowLabel(versionClassFlow[..]) == v & 0xf_ffff
    {
      ghost var before := versionClassFlow[..];
      var mid := versionClassFlow[1];
      mid := mid & 0xf0;
      mid := mid | Low8Of32((v >> 16) & 0x0f);
      versionClassFlow[1] := mid;
      versionClassFlow[2] := Low8Of32(v >> 8);
      versionClassFlow[3] := Low8Of32(v);
      assert versionClassFlow[..] == WithFlowLabel(before, v);
      FlowLabelRoundTrip(before, v);
    }

    /** `set_payload_len`: stores the length in network order. */
    method SetPayloadLen(n: bv16)
      requires Valid()
      modifies this`payloadLen
      ensures Valid()
      ensures versionClassFlow == old(versionClassFlow)
      ensures srcAddr == old(srcAddr) && dstAddr == old(dstAddr)
      ensures Value() == old(Value()).(payloadLen := SwapBytes16(n))
      ensures PayloadLen(payloadLen) == n
    {
      payloadLen := SwapBytes16(n);
    }

    /** `set_next_header`. */
    method SetNextHeader(nh: bv8)
      requires Valid()
      modifies this`nextHeader
      ensures Valid()
      ensures versionClassFlow == old(versionClassFlow)
      ensures srcAddr == old(srcAddr) && dstAddr == old(dstAddr)
      ensures Value() == old(Value()).(nextHeader := nh)
    {
      nextHeader := nh;
    }

    /** `set_hop_limit`. */
    method SetHopLimit(hl: bv8)
      requires Valid()
      modifies this`hopLimit
      ensures Valid()
      ensures versionClassFlow == old(versionClassFlow)
      ensures srcAddr == old(srcAddr) && dstAddr == old(dstAddr)
      ensures Value() == old(Value()).(hopLimit := hl)
    {
      hopLimit := hl;
    }
  }

  /** What a caller of `serialize` observes: a zeroed 40-octet buffer handed
      to a fresh header's `serialize` still parses, after the call, to a
      header other than the one serialized (its version is 0, not 6). */
  method SerializeLeavesBufferStale() returns (stale: bool)
    ensures stale
  {
    var h := new IP6Header();
    var buf := new bv8[HEADER_LEN](_ => 0);
    var r, image := h.Serialize(buf);
    var back := Parse(buf[..]);
    assert back.value.versionClassFlow[0] == 0;
    stale := r.Ok? && back.Ok? && back.value != h.Value();
  }
}
