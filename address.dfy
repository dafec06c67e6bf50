/** The 128-bit IPv6 address (`IPAddr`): sixteen octets in network order,
    its classification predicates and its two in-place mutators.

    The classification predicates are tied to the prefix notation of
    section 2.3 of RFC 4291 ("the leftmost N bits of the address"), stated
    here bit by bit, most significant bit of octet 0 first. */
module Address {

  const ADDR_LEN: nat := 16

  /** Sixteen octets, the `[u8; 16]` inside `IPAddr`. */
  type Addr = s: seq<bv8> | |s| == ADDR_LEN witness seq(16, _ => 0)

  /** `::`, the unspecified address (section 2.5.2 of RFC 4291). */
  const UNSPECIFIED: Addr := seq(16, _ => 0)

  /** `fe80::`, whose first 64 bits are the link-local prefix of section
      2.5.6 of RFC 4291 (ten bits 1111111010 followed by 54 zero bits). */
  const LINK_LOCAL_PREFIX: Addr := [0xfe, 0x80] + seq(14, _ => 0)

  /** `ff00::`, whose first 8 bits are the multicast prefix of section 2.7 of
      RFC 4291. */
  const MULTICAST_PREFIX: Addr := [0xff] + seq(15, _ => 0)

  // ---------------------------------------------------------------------
  // Bits and prefixes
  // ---------------------------------------------------------------------

  /** Bit `j` of an octet, counting from the most significant bit (j == 0). */
  predicate BitAt(x: bv8, j: nat)
    requires j < 8
  {
    (x >> (7 - j)) & 1 == 1
  }

  /** Bit `k` of an octet string, counting from the most significant bit of
      its first octet. */
  predicate Bit(s: seq<bv8>, k: nat)
    requires k < 8 * |s|
  {
    BitAt(s[k / 8], k % 8)
  }

  /** The leftmost `n` bits of `a` are those of `p`: `a` lies in `p/n`. */
  predicate HasPrefix(a: seq<bv8>, p: seq<bv8>, n: nat)
    requires n <= 8 * |a| && n <= 8 * |p|
  {
    forall k :: 0 <= k < n ==> Bit(a, k) == Bit(p, k)
  }

  /** Two octets are equal exactly when all eight of their bits are. */
  lemma ByteBits(x: bv8, y: bv8)
    ensures x == y <==> forall j :: 0 <= j < 8 ==> BitAt(x, j) == BitAt(y, j)
  {
    if forall j :: 0 <= j < 8 ==> BitAt(x, j) == BitAt(y, j) {
      assert BitAt(x, 0) == BitAt(y, 0) && BitAt(x, 1) == BitAt(y, 1);
      assert BitAt(x, 2) == BitAt(y, 2) && BitAt(x, 3) == BitAt(y, 3);
      assert BitAt(x, 4) == BitAt(y, 4) && BitAt(x, 5) == BitAt(y, 5);
      assert BitAt(x, 6) == BitAt(y, 6) && BitAt(x, 7) == BitAt(y, 7);
    }
  }

  /** A prefix of whole octets: the first `m` octets agree exactly when the
      first `8 * m` bits do. */
  lemma BytePrefix(a: seq<bv8>, p: seq<bv8>, m: nat)
    requires m <= |a| && m <= |p|
    ensures a[..m] == p[..m] <==> HasPrefix(a, p, 8 * m)
  {
    if a[..m] == p[..m] {
      forall k | 0 <= k < 8 * m
        ensures Bit(a, k) == Bit(p, k)
      {
        assert a[k / 8] == a[..m][k / 8] == p[..m][k / 8] == p[k / 8];
      }
    }
    if HasPrefix(a, p, 8 * m) {
      forall i | 0 <= i < m
        ensures a[i] == p[i]
      {
        forall j | 0 <= j < 8
          ensures BitAt(a[i], j) == BitAt(p[i], j)
        {
          var k := 8 * i + j;
          assert k / 8 == i && k % 8 == j;
          assert Bit(a, k) == Bit(p, k);
        }
        ByteBits(a[i], p[i]);
      }
      assert a[..m] == p[..m];
    }
  }

  // ---------------------------------------------------------------------
  // set_prefix, as a function of the octets
  // ---------------------------------------------------------------------

  /** Octets of the prefix copied whole (`prefix_len / 8`). */
  function FullBytes(n: bv8): nat
  {
    n as int / 8
  }

  /** Bits of the prefix in the last, partly copied octet (`prefix_len & 0x7`). */
  function RemBits(n: bv8): nat
  {
    n as int % 8
  }

  /** The panic condition of `set_prefix`: the octets the prefix touches must
      exist both in `prefix` and in the address. */
  predicate PrefixFits(prefix: seq<bv8>, n: bv8)
  {
    var bytes := FullBytes(n) + (if RemBits(n) != 0 then 1 else 0);
    bytes <= |prefix| && bytes <= ADDR_LEN
  }

  /** The mask selecting the top `rem` bits of an octet. */
  function PrefixMask(rem: nat): (mask: bv8)
    requires 0 < rem < 8
    ensures forall j :: 0 <= j < 8 ==> (BitAt(mask, j) <==> j < rem)
  {
    0xff << (8 - rem)
  }

  /** The top `rem` bits of `y` over the low `8 - rem` bits of `x`. */
  function Merge(x: bv8, y: bv8, rem: nat): bv8
    requires 0 < rem < 8
  {
    (x & !PrefixMask(rem)) | (PrefixMask(rem) & y)
  }

  /** Bit by bit, a merged octet takes its leading `rem` bits from `y` and
      the rest from `x`. */
  lemma MergeBit(x: bv8, y: bv8, rem: nat, j: nat)
    requires 0 < rem < 8 && j < 8
    ensures BitAt(Merge(x, y, rem), j) == if j < rem then BitAt(y, j) else BitAt(x, j)
  {
    var mask := PrefixMask(rem);
    assert BitAt(mask, j) <==> j < rem;
  }

  /** The address `a` after `set_prefix(p, n)`. */
  function Prefixed(a: Addr, p: seq<bv8>, n: bv8): Addr
    requires PrefixFits(p, n)
  {
    seq(ADDR_LEN, i requires 0 <= i < ADDR_LEN =>
      if i < FullBytes(n) then p[i]
      else if i == FullBytes(n) && RemBits(n) != 0 then Merge(a[i], p[i], RemBits(n))
      else a[i])
  }

  /** `set_prefix(p, n)` copies exactly the leftmost `n` bits of `p`: every
      bit before `n` comes from `p`, every later bit keeps its old value. */
  lemma PrefixedBits(a: Addr, p: seq<bv8>, n: bv8, k: nat)
    requires PrefixFits(p, n) && k < 8 * ADDR_LEN
    ensures k < n as int ==> k < 8 * |p| && Bit(Prefixed(a, p, n), k) == Bit(p, k)
    ensures k >= n as int ==> Bit(Prefixed(a, p, n), k) == Bit(a, k)
  {
    var r := Prefixed(a, p, n);
    var i, j := k / 8, k % 8;
    if i < FullBytes(n) {
      assert r[i] == p[i];
    } else if i == FullBytes(n) && RemBits(n) != 0 {
      assert r[i] == Merge(a[i], p[i], RemBits(n));
      MergeBit(a[i], p[i], RemBits(n), j);
    } else {
      assert r[i] == a[i];
    }
  }

  /** Consequently the result lies in `p/n` and agrees with `a` from bit `n`
      on. */
  lemma PrefixedHasPrefix(a: Addr, p: seq<bv8>, n: bv8)
    requires PrefixFits(p, n)
    ensures n as int <= 8 * |p|
    ensures HasPrefix(Prefixed(a, p, n), p, n as int)
    ensures forall k :: n as int <= k < 8 * ADDR_LEN ==> Bit(Prefixed(a, p, n), k) == Bit(a, k)
  {
    forall k | 0 <= k < 8 * ADDR_LEN
      ensures k < n as int ==> k < 8 * |p| && Bit(Prefixed(a, p, n), k) == Bit(p, k)
      ensures k >= n as int ==> Bit(Prefixed(a, p, n), k) == Bit(a, k)
    {
      PrefixedBits(a, p, n, k);
    }
  }

  /** Setting the same prefix twice is the same as setting it once. */
  lemma PrefixedIdempotent(a: Addr, p: seq<bv8>, n: bv8)
    requires PrefixFits(p, n)
    ensures Prefixed(Prefixed(a, p, n), p, n) == Prefixed(a, p, n)
  {
    var once := Prefixed(a, p, n);
    var twice := Prefixed(once, p, n);
    forall i | 0 <= i < ADDR_LEN
      ensures twice[i] == once[i]
    {
      if i == FullBytes(n) && RemBits(n) != 0 {
        var rem := RemBits(n);
        var mask := PrefixMask(rem);
        assert twice[i] == Merge(Merge(a[i], p[i], rem), p[i], rem);
      }
    }
  }

  // ---------------------------------------------------------------------
  // IPAddr
  // ---------------------------------------------------------------------

  class IPAddr {
    var octets: array<bv8>

    ghost predicate Valid()
      reads this
    {
      octets.Length == ADDR_LEN
    }

    /** `IPAddr::new()`: the unspecified address. */
    constructor ()
      ensures Valid() && fresh(octets)
      ensures octets[..] == UNSPECIFIED
    {
      octets := new bv8[ADDR_LEN](_ => 0);
    }

    /** `is_unspecified`: every octet is zero, i.e. the address is `::/128`
        (section 2.5.2 of RFC 4291). */
    function IsUnspecified(): (r: bool)
      reads this, octets
      requires Valid()
      ensures r <==> HasPrefix(octets[..], UNSPECIFIED, 128)
      ensures r <==> octets[..] == UNSPECIFIED
    {
      BytePrefix(octets[..], UNSPECIFIED, ADDR_LEN);
      assert octets[..][..ADDR_LEN] == octets[..];
      forall i :: 0 <= i < ADDR_LEN ==> octets[i] == 0
    }

    /** `is_unicast_link_local`: the address lies in `fe80::/64`. */
    function IsUnicastLinkLocal(): (r: bool)
      reads this, octets
      requires Valid()
      ensures r <==> HasPrefix(octets[..], LINK_LOCAL_PREFIX, 64)
    {
      BytePrefix(octets[..], LINK_LOCAL_PREFIX, 8);
      assert octets[..][..8] == octets[..8];
      octets[0] == 0xfe && (octets[1] & 0xc0) == 0x80 && (octets[1] & 0x3f) == 0 &&
      forall i :: 2 <= i < 8 ==> octets[i] == 0
    }

    /** `set_unicast_link_local`: writes the `fe80::/64` prefix into the
        first eight octets and keeps the interface identifier. */
    method SetUnicastLinkLocal()
      requires Valid()
      modifies octets
      ensures Valid()
      ensures IsUnicastLinkLocal()
      ensures octets[..8] == LINK_LOCAL_PREFIX[..8]
      ensures octets[8..] == old(octets[8..])
    {
      octets[0] := 0xfe;
      octets[1] := 0x80;
      for i := 2 to 8
        invariant octets[0] == 0xfe && octets[1] == 0x80
        invariant forall j :: 2 <= j < i ==> octets[j] == 0
        invariant octets[8..] == old(octets[8..])
      {
        octets[i] := 0;
      }
      assert octets[..8] == LINK_LOCAL_PREFIX[..8];
    }

    /** `set_prefix`: copies the leftmost `prefixLen` bits of `prefix` into
        the address (whole octets, then a mask-and-merge of the last one). */
    method SetPrefix(prefix: seq<bv8>, prefixLen: bv8)
      requires Valid()
      requires PrefixFits(prefix, prefixLen)
      modifies octets
      ensures Valid()
      ensures octets[..] == Prefixed(old(octets[..]), prefix, prefixLen)
    {
      var full := FullBytes(prefixLen);
      var rem := RemBits(prefixLen);
      forall i | 0 <= i < full {
        octets[i] := prefix[i];
      }
      if rem != 0 {
        var mask := PrefixMask(rem);
        octets[full] := octets[full] & !mask;
        octets[full] := octets[full] | (mask & prefix[full]);
      }
    }

    /** `is_multicast`: the address lies in `ff00::/8`. */
    function IsMulticast(): (r: bool)
      reads this, octets
      requires Valid()
      ensures r <==> HasPrefix(octets[..], MULTICAST_PREFIX, 8)
    {
      BytePrefix(octets[..], MULTICAST_PREFIX, 1);
      assert octets[..][..1] == [octets[0]];
      octets[0] == 0xff
    }
  }
}
