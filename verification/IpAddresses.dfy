/** IP addresses as bit vectors, and the address classes the network policy tells apart. */
module IpAddresses {
  import opened Wrappers

  /** An IPv6 address as its eight segments. */
  datatype Ipv6 = Ipv6(s0: bv16, s1: bv16, s2: bv16, s3: bv16, s4: bv16, s5: bv16, s6: bv16, s7: bv16)

  datatype Ip = V4(v4: bv32) | V6(v6: Ipv6)

  // ---------- IPv4 ----------

  function OctetA(ip: bv32): bv32 { ip >> 24 }

  function OctetB(ip: bv32): bv32 { (ip >> 16) & 0xff }

  function OctetC(ip: bv32): bv32 { (ip >> 8) & 0xff }

  predicate IsPrivate4(ip: bv32) {
    || OctetA(ip) == 10
    || (OctetA(ip) == 172 && 16 <= OctetB(ip) <= 31)
    || (OctetA(ip) == 192 && OctetB(ip) == 168)
  }

  predicate IsLoopback4(ip: bv32) { OctetA(ip) == 127 }

  predicate IsUnspecified4(ip: bv32) { ip == 0 }

  predicate IsSharedSpace4(ip: bv32) { OctetA(ip) == 100 && 64 <= OctetB(ip) <= 127 }

  predicate IsPrivateNetwork4(ip: bv32) {
    IsPrivate4(ip) || IsLoopback4(ip) || IsSharedSpace4(ip)
  }

  predicate IsLinkLocal4(ip: bv32) { OctetA(ip) == 169 && OctetB(ip) == 254 }

  predicate IsBroadcast4(ip: bv32) { ip == 0xffff_ffff }

  predicate IsThisNetwork4(ip: bv32) { OctetA(ip) == 0 }

  predicate IsMulticast4(ip: bv32) { 224 <= OctetA(ip) <= 239 }

  predicate IsReserved4(ip: bv32) { OctetA(ip) & 0xf0 == 240 }

  predicate IsBenchmarking4(ip: bv32) { OctetA(ip) == 198 && (OctetB(ip) == 18 || OctetB(ip) == 19) }

  predicate IsProtocolAssignment4(ip: bv32) { OctetA(ip) == 192 && OctetB(ip) == 0 && OctetC(ip) == 0 }

  /** The deny list for IPv4, octet by octet. */
  predicate IsInternal4(ip: bv32) {
    || IsPrivate4(ip)
    || IsLoopback4(ip)
    || IsLinkLocal4(ip)
    || IsBroadcast4(ip)
    || IsUnspecified4(ip)
    || IsThisNetwork4(ip)
    || IsSharedSpace4(ip)
    || IsMulticast4(ip)
    || IsReserved4(ip)
    || IsBenchmarking4(ip)
    || IsProtocolAssignment4(ip)
  }

  /** `mask` has as many leading ones as the block's prefix is long. */
  predicate InBlock(ip: bv32, network: bv32, mask: bv32) {
    ip & mask == network
  }

  /** The blocks of a person's own networks. */
  predicate InPrivateNetworkBlocks(ip: bv32) {
    || InBlock(ip, 0x0a00_0000, 0xff00_0000)  // 10.0.0.0/8, section 3 of RFC 1918
    || InBlock(ip, 0xac10_0000, 0xfff0_0000)  // 172.16.0.0/12
    || InBlock(ip, 0xc0a8_0000, 0xffff_0000)  // 192.168.0.0/16
    || InBlock(ip, 0x7f00_0000, 0xff00_0000)  // 127.0.0.0/8
    || InBlock(ip, 0x6440_0000, 0xffc0_0000)  // 100.64.0.0/10, section 7 of RFC 6598
  }

  /** The further blocks that hold no public host. */
  predicate InOtherInternalBlocks(ip: bv32) {
    || InBlock(ip, 0x0000_0000, 0xff00_0000)  // 0.0.0.0/8
    || InBlock(ip, 0xa9fe_0000, 0xffff_0000)  // 169.254.0.0/16, link-local
    || InBlock(ip, 0xc000_0000, 0xffff_ff00)  // 192.0.0.0/24
    || InBlock(ip, 0xc612_0000, 0xfffe_0000)  // 198.18.0.0/15
    || InBlock(ip, 0xe000_0000, 0xf000_0000)  // 224.0.0.0/4, multicast
    || InBlock(ip, 0xf000_0000, 0xf000_0000)  // 240.0.0.0/4, reserved and broadcast
  }

  lemma PrivateBlocks(ip: bv32)
    ensures IsPrivate4(ip) <==>
            InBlock(ip, 0x0a00_0000, 0xff00_0000) || InBlock(ip, 0xac10_0000, 0xfff0_0000)
            || InBlock(ip, 0xc0a8_0000, 0xffff_0000)
  {
  }

  lemma OwnBlocks(ip: bv32)
    ensures IsLoopback4(ip) <==> InBlock(ip, 0x7f00_0000, 0xff00_0000)
    ensures IsSharedSpace4(ip) <==> InBlock(ip, 0x6440_0000, 0xffc0_0000)
  {
  }

  lemma SpecialBlocks(ip: bv32)
    ensures IsThisNetwork4(ip) <==> InBlock(ip, 0x0000_0000, 0xff00_0000)
    ensures IsLinkLocal4(ip) <==> InBlock(ip, 0xa9fe_0000, 0xffff_0000)
  {
  }

  lemma AssignmentBlock(ip: bv32)
    ensures IsProtocolAssignment4(ip) <==> InBlock(ip, 0xc000_0000, 0xffff_ff00)
  {
  }

  lemma BenchmarkingBlock(ip: bv32)
    ensures IsBenchmarking4(ip) <==> InBlock(ip, 0xc612_0000, 0xfffe_0000)
  {
  }

  lemma HighBlocks(ip: bv32)
    ensures IsUnspecified4(ip) ==> IsThisNetwork4(ip)
    ensures IsBroadcast4(ip) ==> IsReserved4(ip)
    ensures IsMulticast4(ip) <==> InBlock(ip, 0xe000_0000, 0xf000_0000)
    ensures IsReserved4(ip) <==> InBlock(ip, 0xf000_0000, 0xf000_0000)
  {
  }

  /** The octet tests of the two IPv4 predicates describe exactly these blocks. */
  lemma OctetTestsAreBlocks(ip: bv32)
    ensures IsPrivateNetwork4(ip) <==> InPrivateNetworkBlocks(ip)
    ensures IsInternal4(ip) <==> InPrivateNetworkBlocks(ip) || InOtherInternalBlocks(ip)
  {
    PrivateBlocks(ip);
    OwnBlocks(ip);
    SpecialBlocks(ip);
    AssignmentBlock(ip);
    BenchmarkingBlock(ip);
    HighBlocks(ip);
  }

  // ---------- IPv6 ----------

  /** The IPv4 address whose two halves are given. */
  function Pair(high: bv16, low: bv16): bv32 {
    ((high as bv32) << 16) | (low as bv32)
  }

  predicate UpperSegmentsAreZero(ip: Ipv6) {
    ip.s0 == 0 && ip.s1 == 0 && ip.s2 == 0 && ip.s3 == 0 && ip.s4 == 0
  }

  predicate IsLoopback6(ip: Ipv6) { UpperSegmentsAreZero(ip) && ip.s5 == 0 && ip.s6 == 0 && ip.s7 == 1 }

  predicate IsUnspecified6(ip: Ipv6) { UpperSegmentsAreZero(ip) && ip.s5 == 0 && ip.s6 == 0 && ip.s7 == 0 }

  predicate IsMulticast6(ip: Ipv6) { ip.s0 & 0xff00 == 0xff00 }

  predicate IsUniqueLocal6(ip: Ipv6) { ip.s0 & 0xfe00 == 0xfc00 }

  predicate IsLinkLocal6(ip: Ipv6) { ip.s0 & 0xffc0 == 0xfe80 }

  predicate IsSiteLocal6(ip: Ipv6) { ip.s0 & 0xffc0 == 0xfec0 }

  predicate IsLocalUseNat64(ip: Ipv6) { ip.s0 == 0x0064 && ip.s1 == 0xff9b && ip.s2 == 1 }

  function ToIpv4Mapped(ip: Ipv6): Option<bv32> {
    if UpperSegmentsAreZero(ip) && ip.s5 == 0xffff
    then Some(Pair(ip.s6, ip.s7)) else None
  }

  /** The mapped form and the compatible one. */
  function ToIpv4(ip: Ipv6): Option<bv32> {
    if UpperSegmentsAreZero(ip) && (ip.s5 == 0 || ip.s5 == 0xffff)
    then Some(Pair(ip.s6, ip.s7)) else None
  }

  function CarriedByNat64(ip: Ipv6): Option<bv32> {
    if ip.s0 == 0x0064 && ip.s1 == 0xff9b && ip.s2 == 0 && ip.s3 == 0 && ip.s4 == 0 && ip.s5 == 0
    then Some(Pair(ip.s6, ip.s7)) else None
  }

  function CarriedBySixToFour(ip: Ipv6): Option<bv32> {
    if ip.s0 == 0x2002 then Some(Pair(ip.s1, ip.s2)) else None
  }

  predicate IsTeredo(ip: Ipv6) { ip.s0 == 0x2001 && ip.s1 == 0 }

  function TeredoServer(ip: Ipv6): Option<bv32> {
    if IsTeredo(ip) then Some(Pair(ip.s2, ip.s3)) else None
  }

  function TeredoClient(ip: Ipv6): Option<bv32> {
    if IsTeredo(ip) then Some(!Pair(ip.s6, ip.s7)) else None
  }

  /** Every IPv4 address a transition mechanism carries inside an IPv6 address. */
  function EmbeddedIpv4Addresses(ip: Ipv6): seq<Option<bv32>> {
    [ToIpv4(ip), CarriedByNat64(ip), CarriedBySixToFour(ip), TeredoServer(ip), TeredoClient(ip)]
  }

  /** The masks on the first segment cut out these ranges: fe00::/9 below link-local stays outside them. */
  lemma SegmentMasksAreRanges(ip: Ipv6)
    ensures IsUniqueLocal6(ip) <==> 0xfc00 <= ip.s0 <= 0xfdff
    ensures IsLinkLocal6(ip) || IsSiteLocal6(ip) || IsMulticast6(ip) <==> 0xfe80 <= ip.s0
    ensures IsSiteLocal6(ip) <==> 0xfec0 <= ip.s0 <= 0xfeff
    ensures IsMulticast6(ip) <==> 0xff00 <= ip.s0
  {
  }

  // ---------- both families ----------

  predicate IsLoopbackIp(ip: Ip) {
    match ip
    case V4(v4) => IsLoopback4(v4)
    case V6(v6) => IsLoopback6(v6)
  }

  predicate IsPrivateNetworkIp(ip: Ip) {
    match ip
    case V4(v4) => IsPrivateNetwork4(v4)
    case V6(v6) =>
      || IsLoopback6(v6)
      || IsUniqueLocal6(v6)
      || (ToIpv4Mapped(v6).Some? && IsPrivateNetwork4(ToIpv4Mapped(v6).value))
  }

  /** Address ranges that are internal whatever they embed. */
  predicate InInternalRange6(ip: Ipv6) {
    || IsLoopback6(ip)
    || IsUnspecified6(ip)
    || IsMulticast6(ip)
    || IsUniqueLocal6(ip)
    || IsLinkLocal6(ip)
    || IsSiteLocal6(ip)
    || IsLocalUseNat64(ip)
  }

  predicate AnyInternal4(embedded: seq<Option<bv32>>) {
    exists i | 0 <= i < |embedded| :: embedded[i].Some? && IsInternal4(embedded[i].value)
  }

  predicate IsPrivateOrInternalIp(ip: Ip) {
    match ip
    case V4(v4) => IsInternal4(v4)
    case V6(v6) => InInternalRange6(v6) || AnyInternal4(EmbeddedIpv4Addresses(v6))
  }

  lemma PrivateNetworkIsInternal(ip: Ip)
    ensures IsLoopbackIp(ip) ==> IsPrivateNetworkIp(ip)
    ensures IsPrivateNetworkIp(ip) ==> IsPrivateOrInternalIp(ip)
  {
    if ip.V6? && ToIpv4Mapped(ip.v6).Some? {
      assert EmbeddedIpv4Addresses(ip.v6)[0] == ToIpv4Mapped(ip.v6);
    }
  }

  // ---------- embedding an IPv4 address ----------

  function High(ip: bv32): bv16 { (ip >> 16) as bv16 }

  function Low(ip: bv32): bv16 { (ip & 0xffff) as bv16 }

  lemma PairOfHalves(ip: bv32)
    ensures Pair(High(ip), Low(ip)) == ip
    ensures !Pair(High(!ip), Low(!ip)) == ip
  {
  }

  /** `::ffff:a.b.c.d`, section 2.5.5.2 of RFC 4291. */
  function Mapped(ip: bv32): Ip { V6(Ipv6(0, 0, 0, 0, 0, 0xffff, High(ip), Low(ip))) }

  /** `::a.b.c.d`, section 2.5.5.1 of RFC 4291. */
  function Compatible(ip: bv32): Ip { V6(Ipv6(0, 0, 0, 0, 0, 0, High(ip), Low(ip))) }

  /** `64:ff9b::a.b.c.d`, section 2.2 of RFC 6052. */
  function Nat64(ip: bv32): Ip { V6(Ipv6(0x0064, 0xff9b, 0, 0, 0, 0, High(ip), Low(ip))) }

  /** `2002:aabb:ccdd::`, section 2 of RFC 3056, with any subnet and interface. */
  function SixToFour(ip: bv32, s3: bv16, s4: bv16, s5: bv16, s6: bv16, s7: bv16): Ip {
    V6(Ipv6(0x2002, High(ip), Low(ip), s3, s4, s5, s6, s7))
  }

  /** A Teredo address, section 4 of RFC 4380: the server, flags and port, and the client inverted. */
  function Teredo(server: bv32, flags: bv16, port: bv16, client: bv32): Ip {
    V6(Ipv6(0x2001, 0, High(server), Low(server), flags, port, High(!client), Low(!client)))
  }

  lemma OneEmbedded(embedded: seq<Option<bv32>>, i: nat, ip: bv32)
    requires i < |embedded| && embedded[i] == Some(ip)
    requires forall j | 0 <= j < |embedded| && j != i :: embedded[j] == None
    ensures AnyInternal4(embedded) <==> IsInternal4(ip)
  {
  }

  lemma MappedEmbeds(ip: bv32)
    ensures ToIpv4Mapped(Mapped(ip).v6) == Some(ip)
    ensures EmbeddedIpv4Addresses(Mapped(ip).v6) == [Some(ip), None, None, None, None]
  {
    PairOfHalves(ip);
  }

  lemma MappedLiesInNoRange(ip: Ipv6)
    requires ip.s0 == 0 && ip.s5 == 0xffff
    ensures !InInternalRange6(ip)
  {
  }

  /** The mapped form is internal exactly when the IPv4 address is. */
  lemma MappedFollowsIpv4(ip: bv32)
    ensures IsPrivateOrInternalIp(Mapped(ip)) <==> IsInternal4(ip)
  {
    MappedEmbeds(ip);
    MappedLiesInNoRange(Mapped(ip).v6);
    OneEmbedded(EmbeddedIpv4Addresses(Mapped(ip).v6), 0, ip);
  }

  /** `::` and `::1` are internal, as are the IPv4 addresses 0.0.0.0 and 0.0.0.1 they spell. */
  lemma LowestAddressesAreInternal(ip: bv32)
    ensures IsUnspecified6(Compatible(ip).v6) || IsLoopback6(Compatible(ip).v6) ==> IsInternal4(ip)
  {
    PairOfHalves(ip);
  }

  lemma CompatibleFollowsIpv4(ip: bv32)
    ensures IsPrivateOrInternalIp(Compatible(ip)) <==> IsInternal4(ip)
  {
    hide IsInternal4, AnyInternal4;
    PairOfHalves(ip);
    LowestAddressesAreInternal(ip);
    OneEmbedded(EmbeddedIpv4Addresses(Compatible(ip).v6), 0, ip);
  }

  lemma Nat64FollowsIpv4(ip: bv32)
    ensures IsPrivateOrInternalIp(Nat64(ip)) <==> IsInternal4(ip)
  {
    PairOfHalves(ip);
    OneEmbedded(EmbeddedIpv4Addresses(Nat64(ip).v6), 1, ip);
  }

  lemma SixToFourFollowsIpv4(ip: bv32, s3: bv16, s4: bv16, s5: bv16, s6: bv16, s7: bv16)
    ensures IsPrivateOrInternalIp(SixToFour(ip, s3, s4, s5, s6, s7)) <==> IsInternal4(ip)
  {
    PairOfHalves(ip);
    OneEmbedded(EmbeddedIpv4Addresses(SixToFour(ip, s3, s4, s5, s6, s7).v6), 2, ip);
  }

  lemma TeredoEmbeds(server: bv32, flags: bv16, port: bv16, client: bv32)
    ensures EmbeddedIpv4Addresses(Teredo(server, flags, port, client).v6) == [None, None, None, Some(server), Some(client)]
  {
    PairOfHalves(server);
    PairOfHalves(client);
  }

  lemma TwoEmbedded(embedded: seq<Option<bv32>>, server: bv32, client: bv32)
    requires embedded == [None, None, None, Some(server), Some(client)]
    ensures AnyInternal4(embedded) <==> IsInternal4(server) || IsInternal4(client)
  {
    assert embedded[3] == Some(server) && embedded[4] == Some(client);
  }

  /** A Teredo address is internal exactly when its server or its client is. */
  lemma TeredoFollowsIpv4(server: bv32, flags: bv16, port: bv16, client: bv32)
    ensures IsPrivateOrInternalIp(Teredo(server, flags, port, client)) <==> IsInternal4(server) || IsInternal4(client)
  {
    TeredoEmbeds(server, flags, port, client);
    TwoEmbedded(EmbeddedIpv4Addresses(Teredo(server, flags, port, client).v6), server, client);
  }

  // ---------- the classes in numbers ----------

  lemma PrivateRanges(ip: bv32)
    ensures InBlock(ip, 0x0a00_0000, 0xff00_0000) <==> 0x0a00_0000 <= ip <= 0x0aff_ffff
    ensures InBlock(ip, 0xac10_0000, 0xfff0_0000) <==> 0xac10_0000 <= ip <= 0xac1f_ffff
    ensures InBlock(ip, 0xc0a8_0000, 0xffff_0000) <==> 0xc0a8_0000 <= ip <= 0xc0a8_ffff
  {
  }

  lemma OwnRanges(ip: bv32)
    ensures InBlock(ip, 0x7f00_0000, 0xff00_0000) <==> 0x7f00_0000 <= ip <= 0x7fff_ffff
    ensures InBlock(ip, 0x6440_0000, 0xffc0_0000) <==> 0x6440_0000 <= ip <= 0x647f_ffff
  {
  }

  lemma SpecialRanges(ip: bv32)
    ensures InBlock(ip, 0x0000_0000, 0xff00_0000) <==> ip <= 0x00ff_ffff
    ensures InBlock(ip, 0xa9fe_0000, 0xffff_0000) <==> 0xa9fe_0000 <= ip <= 0xa9fe_ffff
  {
  }

  lemma AssignmentRange(ip: bv32)
    ensures InBlock(ip, 0xc000_0000, 0xffff_ff00) <==> 0xc000_0000 <= ip <= 0xc000_00ff
  {
  }

  lemma BenchmarkingRange(ip: bv32)
    ensures InBlock(ip, 0xc612_0000, 0xfffe_0000) <==> 0xc612_0000 <= ip <= 0xc613_ffff
  {
  }

  lemma HighRange(ip: bv32)
    ensures InBlock(ip, 0xe000_0000, 0xf000_0000) || InBlock(ip, 0xf000_0000, 0xf000_0000) <==> 0xe000_0000 <= ip
  {
  }

  /** Two segments as the number of the IPv4 address they spell. */
  lemma PairIsNumber(high: bv16, low: bv16)
    ensures Pair(high, low) == (high as bv32) * 0x1_0000 + (low as bv32)
  {
  }

  /** The prefixes that are internal whatever they carry, as ranges of segments. */
  lemma InternalRanges6(ip: Ipv6)
    ensures InInternalRange6(ip) <==>
            || (ip.s0 == ip.s1 == ip.s2 == ip.s3 == ip.s4 == ip.s5 == ip.s6 == 0 && ip.s7 <= 1)  // ::, ::1
            || 0xff00 <= ip.s0  // ff00::/8
            || 0xfc00 <= ip.s0 <= 0xfdff  // fc00::/7
            || 0xfe80 <= ip.s0 <= 0xfebf  // fe80::/10
            || 0xfec0 <= ip.s0 <= 0xfeff  // fec0::/10
            || (ip.s0 == 0x0064 && ip.s1 == 0xff9b && ip.s2 == 1)  // 64:ff9b:1::/48
  {
  }

  lemma AnyOfFive(a: Option<bv32>, b: Option<bv32>, c: Option<bv32>, d: Option<bv32>, e: Option<bv32>)
    ensures AnyInternal4([a, b, c, d, e]) <==>
            || (a.Some? && IsInternal4(a.value)) || (b.Some? && IsInternal4(b.value)) || (c.Some? && IsInternal4(c.value))
            || (d.Some? && IsInternal4(d.value)) || (e.Some? && IsInternal4(e.value))
  {
    var all := [a, b, c, d, e];
    assert all[0] == a && all[1] == b && all[2] == c && all[3] == d && all[4] == e;
  }

  /** The IPv4 addresses carried, segment by segment. */
  lemma CarriedAddresses(ip: Ipv6)
    ensures AnyInternal4(EmbeddedIpv4Addresses(ip)) <==>
            || (ip.s0 == ip.s1 == ip.s2 == ip.s3 == ip.s4 == 0 && (ip.s5 == 0 || ip.s5 == 0xffff)
                && IsInternal4(Pair(ip.s6, ip.s7)))
            || (ip.s0 == 0x0064 && ip.s1 == 0xff9b && ip.s2 == ip.s3 == ip.s4 == ip.s5 == 0
                && IsInternal4(Pair(ip.s6, ip.s7)))
            || (ip.s0 == 0x2002 && IsInternal4(Pair(ip.s1, ip.s2)))
            || (ip.s0 == 0x2001 && ip.s1 == 0
                && (IsInternal4(Pair(ip.s2, ip.s3)) || IsInternal4(!Pair(ip.s6, ip.s7))))
  {
    hide IsInternal4, Pair, AnyInternal4;
    AnyOfFive(ToIpv4(ip), CarriedByNat64(ip), CarriedBySixToFour(ip), TeredoServer(ip), TeredoClient(ip));
  }

  /** Over all IPv6 addresses: internal are exactly the listed prefixes and the addresses that carry an internal IPv4 address. */
  lemma InternalIpv6(ip: Ipv6)
    ensures IsPrivateOrInternalIp(V6(ip)) <==>
            || (ip.s0 == ip.s1 == ip.s2 == ip.s3 == ip.s4 == ip.s5 == ip.s6 == 0 && ip.s7 <= 1)
            || 0xff00 <= ip.s0
            || 0xfc00 <= ip.s0 <= 0xfdff
            || 0xfe80 <= ip.s0 <= 0xfebf
            || 0xfec0 <= ip.s0 <= 0xfeff
            || (ip.s0 == 0x0064 && ip.s1 == 0xff9b && ip.s2 == 1)
            || (ip.s0 == ip.s1 == ip.s2 == ip.s3 == ip.s4 == 0 && (ip.s5 == 0 || ip.s5 == 0xffff)
                && IsPrivateOrInternalIp(V4(Pair(ip.s6, ip.s7))))
            || (ip.s0 == 0x0064 && ip.s1 == 0xff9b && ip.s2 == ip.s3 == ip.s4 == ip.s5 == 0
                && IsPrivateOrInternalIp(V4(Pair(ip.s6, ip.s7))))
            || (ip.s0 == 0x2002 && IsPrivateOrInternalIp(V4(Pair(ip.s1, ip.s2))))
            || (ip.s0 == 0x2001 && ip.s1 == 0
                && (IsPrivateOrInternalIp(V4(Pair(ip.s2, ip.s3))) || IsPrivateOrInternalIp(V4(!Pair(ip.s6, ip.s7)))))
  {
    hide IsInternal4, Pair, AnyInternal4, EmbeddedIpv4Addresses, InInternalRange6;
    InternalRanges6(ip);
    CarriedAddresses(ip);
  }

  /** Over all IPv6 addresses: a person's own networks are loopback, fc00::/7 and mapped addresses of the IPv4 ones. */
  lemma PrivateNetworkIpv6(ip: Ipv6)
    ensures IsPrivateNetworkIp(V6(ip)) <==>
            || (ip.s0 == ip.s1 == ip.s2 == ip.s3 == ip.s4 == ip.s5 == ip.s6 == 0 && ip.s7 == 1)
            || 0xfc00 <= ip.s0 <= 0xfdff
            || (ip.s0 == ip.s1 == ip.s2 == ip.s3 == ip.s4 == 0 && ip.s5 == 0xffff
                && IsPrivateNetworkIp(V4(Pair(ip.s6, ip.s7))))
    ensures IsLoopbackIp(V6(ip)) <==> ip.s0 == ip.s1 == ip.s2 == ip.s3 == ip.s4 == ip.s5 == ip.s6 == 0 && ip.s7 == 1
  {
    hide IsPrivateNetwork4, Pair;
    SegmentMasksAreRanges(ip);
  }

  /** Over all IPv4 addresses, `a.b.c.d` as one number: a person's own networks. */
  lemma PrivateNetworkIpv4(ip: bv32)
    ensures IsPrivateNetworkIp(V4(ip)) <==>
            || 0x0a00_0000 <= ip <= 0x0aff_ffff  // 10.0.0.0 - 10.255.255.255
            || 0xac10_0000 <= ip <= 0xac1f_ffff  // 172.16.0.0 - 172.31.255.255
            || 0xc0a8_0000 <= ip <= 0xc0a8_ffff  // 192.168.0.0 - 192.168.255.255
            || 0x7f00_0000 <= ip <= 0x7fff_ffff  // 127.0.0.0 - 127.255.255.255
            || 0x6440_0000 <= ip <= 0x647f_ffff  // 100.64.0.0 - 100.127.255.255
    ensures IsLoopbackIp(V4(ip)) <==> 0x7f00_0000 <= ip <= 0x7fff_ffff
  {
    hide IsPrivateNetwork4, IsInternal4, InBlock, IsLoopback4, InOtherInternalBlocks;
    OctetTestsAreBlocks(ip);
    OwnBlocks(ip);
    PrivateRanges(ip);
    OwnRanges(ip);
  }

  /** Over all IPv4 addresses: the deny list. */
  lemma InternalIpv4(ip: bv32)
    ensures IsPrivateOrInternalIp(V4(ip)) <==>
            || IsPrivateNetworkIp(V4(ip))
            || ip <= 0x00ff_ffff  // 0.0.0.0 - 0.255.255.255
            || 0xa9fe_0000 <= ip <= 0xa9fe_ffff  // 169.254.0.0 - 169.254.255.255
            || 0xc000_0000 <= ip <= 0xc000_00ff  // 192.0.0.0 - 192.0.0.255
            || 0xc612_0000 <= ip <= 0xc613_ffff  // 198.18.0.0 - 198.19.255.255
            || 0xe000_0000 <= ip  // 224.0.0.0 - 255.255.255.255
  {
    hide IsPrivateNetwork4, IsInternal4, InBlock, InPrivateNetworkBlocks;
    OctetTestsAreBlocks(ip);
    SpecialRanges(ip);
    AssignmentRange(ip);
    BenchmarkingRange(ip);
    HighRange(ip);
  }
}
