/** Which addresses the egress gateway lets through: the reserved-range tests against the
    listed prefixes, and the classification of address text. */
module EgressPolicy {
  import opened Basics
  import opened ByteOrder
  import opened AddressPrefix
  import opened AddressText

  /** A network and the number of its leading bits. */
  datatype Prefix = Prefix(network: seq<nat>, length: nat)

  // ------------------------------------------------------------------ IPv4

  function IsReservedIpv4Octets(o: seq<nat>): bool
    requires |o| == 4
  {
    var a, b, c := o[0], o[1], o[2];
    || a == 0 || a == 10
    || (a == 100 && 64 <= b <= 127)
    || a == 127
    || (a == 169 && b == 254)
    || (a == 172 && 16 <= b <= 31)
    || (a == 192 && b == 0 && (c == 0 || c == 2))
    || (a == 192 && b == 168)
    || (a == 198 && (b == 18 || b == 19))
    || (a == 198 && b == 51 && c == 100)
    || (a == 203 && b == 0 && c == 113)
    || a >= 224
  }

  const RESERVED_IPV4: seq<Prefix> := [
    Prefix([0, 0, 0, 0], 8),
    Prefix([10, 0, 0, 0], 8),
    Prefix([100, 64, 0, 0], 10),
    Prefix([127, 0, 0, 0], 8),
    Prefix([169, 254, 0, 0], 16),
    Prefix([172, 16, 0, 0], 12),
    Prefix([192, 0, 0, 0], 24),
    Prefix([192, 0, 2, 0], 24),
    Prefix([192, 168, 0, 0], 16),
    Prefix([198, 18, 0, 0], 15),
    Prefix([198, 51, 100, 0], 24),
    Prefix([203, 0, 113, 0], 24),
    Prefix([224, 0, 0, 0], 4),
    Prefix([240, 0, 0, 0], 4)]

  /** The whole groups of a prefix, and the host bits of the group its length ends in. */
  function WholeGroups(p: Prefix, w: nat): nat
    requires w > 0 && p.length > 0
  {
    (p.length - 1) / w
  }

  function HostBits(p: Prefix, w: nat): nat
    requires w > 0 && p.length > 0
  {
    w - 1 - (p.length - 1) % w
  }

  predicate SameGroups(u: seq<nat>, v: seq<nat>, k: nat)
    requires k <= |u| && k <= |v|
  {
    forall i :: 0 <= i < k ==> u[i] == v[i]
  }

  lemma SameGroupsIsSlice(u: seq<nat>, v: seq<nat>, k: nat)
    requires k <= |u| && k <= |v|
    ensures SameGroups(u, v, k) <==> u[..k] == v[..k]
  {
    if u[..k] == v[..k] {
      forall i | 0 <= i < k ensures u[i] == v[i] { assert u[..k][i] == v[..k][i]; }
    }
  }

  /** Group by group membership, as the tests check it. */
  predicate Matches(v: seq<nat>, p: Prefix, w: nat)
    requires w > 0 && 0 < p.length <= w * |v| && |p.network| == |v|
    requires WholeGroups(p, w) < |v|
  {
    var k := WholeGroups(p, w);
    SameGroups(v, p.network, k) && v[k] / Pow2(HostBits(p, w)) == p.network[k] / Pow2(HostBits(p, w))
  }

  /** Membership of the whole number in the prefix. */
  predicate Member(v: seq<nat>, p: Prefix, w: nat)
    requires p.length <= w * |v|
  {
    InPrefix(Number(v, w), Number(p.network, w), w * |v| - p.length)
  }

  lemma MemberIffMatches16(v: seq<nat>, p: Prefix)
    requires |v| == 8 && |p.network| == 8 && 0 < p.length <= 128
    requires AddressPrefix.Groups(v, 16) && AddressPrefix.Groups(p.network, 16)
    ensures Member(v, p, 16) <==> Matches(v, p, 16)
  {
    var k := (p.length - 1) / 16;
    MemberAt(v, p, 16, k, 15 - (p.length - 1) % 16, 16 * (8 - (k + 1)));
  }

  lemma MemberIffMatches8(v: seq<nat>, p: Prefix)
    requires |v| == 4 && |p.network| == 4 && 0 < p.length <= 32
    requires AddressPrefix.Groups(v, 8) && AddressPrefix.Groups(p.network, 8)
    ensures Member(v, p, 8) <==> Matches(v, p, 8)
  {
    var k := (p.length - 1) / 8;
    MemberAt(v, p, 8, k, 7 - (p.length - 1) % 8, 8 * (4 - (k + 1)));
  }

  lemma MemberAt(v: seq<nat>, p: Prefix, w: nat, k: nat, h: nat, bits: nat)
    requires p.length <= w * |v| && |p.network| == |v| && k < |v| && h <= w
    requires AddressPrefix.Groups(v, w) && AddressPrefix.Groups(p.network, w)
    requires bits == w * (|v| - (k + 1)) && bits + h == w * |v| - p.length
    ensures Member(v, p, w) <==> SameGroups(v, p.network, k) && v[k] / Pow2(h) == p.network[k] / Pow2(h)
  {
    PrefixByGroups(v, p.network, w, k, h, bits);
    SameGroupsIsSlice(v, p.network, k);
  }

  predicate InReservedIpv4(o: seq<nat>)
    requires |o| == 4
  {
    exists i :: 0 <= i < |RESERVED_IPV4| && Member(o, RESERVED_IPV4[i], 8)
  }

  lemma Powers()
    ensures Pow2(0) == 1 && Pow2(1) == 2 && Pow2(4) == 16 && Pow2(6) == 64 && Pow2(8) == 256
    ensures Pow2(9) == 512 && Pow2(12) == 4096 && Pow2(16) == 65536
  {
    Pow2Sum(4, 4);
    Pow2Sum(8, 1);
    Pow2Sum(8, 4);
    Pow2Sum(8, 8);
    assert Pow2(2) == 4 && Pow2(4) == 4 * Pow2(2) && Pow2(6) == 4 * Pow2(4);
  }

  lemma HighIpv4Entry(o: seq<nat>, i: nat)
    requires AreOctets(o) && (i == 12 || i == 13)
    ensures Member(o, RESERVED_IPV4[i], 8) <==> Ipv4Case(o, i)
  {
    Powers();
    MemberIffMatches8(o, RESERVED_IPV4[i]);
  }

  lemma ShortIpv4Entry(o: seq<nat>, i: nat)
    requires AreOctets(o) && i <= 3
    ensures Member(o, RESERVED_IPV4[i], 8) <==> Ipv4Case(o, i)
  {
    Powers();
    MemberIffMatches8(o, RESERVED_IPV4[i]);
  }

  lemma TwoOctetEntry(o: seq<nat>, i: nat)
    requires AreOctets(o) && (i == 4 || i == 5 || i == 8 || i == 9)
    ensures Member(o, RESERVED_IPV4[i], 8) <==> Ipv4Case(o, i)
  {
    Powers();
    MemberIffMatches8(o, RESERVED_IPV4[i]);
  }

  lemma ThreeOctetEntry(o: seq<nat>, i: nat)
    requires AreOctets(o) && (i == 6 || i == 7 || i == 10 || i == 11)
    ensures Member(o, RESERVED_IPV4[i], 8) <==> Ipv4Case(o, i)
  {
    Powers();
    MemberIffMatches8(o, RESERVED_IPV4[i]);
  }

  lemma Ipv4Entry(o: seq<nat>, i: nat)
    requires AreOctets(o) && i < |RESERVED_IPV4|
    ensures Member(o, RESERVED_IPV4[i], 8) <==> Ipv4Case(o, i)
  {
    if i <= 3 {
      ShortIpv4Entry(o, i);
    } else if i == 12 || i == 13 {
      HighIpv4Entry(o, i);
    } else if i == 6 || i == 7 || i == 10 || i == 11 {
      ThreeOctetEntry(o, i);
    } else {
      TwoOctetEntry(o, i);
    }
  }

  /** The source's tests one by one, in the order of the table. */
  predicate Ipv4Case(o: seq<nat>, i: nat)
    requires |o| == 4
  {
    match i
    case 0 => o[0] == 0
    case 1 => o[0] == 10
    case 2 => o[0] == 100 && 64 <= o[1] <= 127
    case 3 => o[0] == 127
    case 4 => o[0] == 169 && o[1] == 254
    case 5 => o[0] == 172 && 16 <= o[1] <= 31
    case 6 => o[0] == 192 && o[1] == 0 && o[2] == 0
    case 7 => o[0] == 192 && o[1] == 0 && o[2] == 2
    case 8 => o[0] == 192 && o[1] == 168
    case 9 => o[0] == 198 && 18 <= o[1] <= 19
    case 10 => o[0] == 198 && o[1] == 51 && o[2] == 100
    case 11 => o[0] == 203 && o[1] == 0 && o[2] == 113
    case 12 => 224 <= o[0] <= 239
    case 13 => 240 <= o[0] <= 255
    case _ => false
  }

  /** The octet tests are membership of the 32-bit address in the listed prefixes. */
  lemma ReservedIpv4IsPrefixMembership(o: seq<nat>)
    requires AreOctets(o)
    ensures IsReservedIpv4Octets(o) <==> InReservedIpv4(o)
  {
    forall i | 0 <= i < |RESERVED_IPV4| ensures Member(o, RESERVED_IPV4[i], 8) <==> Ipv4Case(o, i) { Ipv4Entry(o, i); }
    CasesCoverIpv4(o);
    if IsReservedIpv4Octets(o) {
      var i: nat :| i < 14 && Ipv4Case(o, i);
      assert Member(o, RESERVED_IPV4[i], 8);
    }
  }

  lemma CasesCoverIpv4(o: seq<nat>)
    requires AreOctets(o)
    ensures IsReservedIpv4Octets(o) <==> exists i: nat :: i < 14 && Ipv4Case(o, i)
  {
    if IsReservedIpv4Octets(o) {
      var i :=
        if o[0] == 0 then 0 else if o[0] == 10 then 1 else if o[0] == 100 then 2 else if o[0] == 127 then 3
        else if o[0] == 169 then 4 else if o[0] == 172 then 5
        else if o[0] == 192 && o[1] == 0 && o[2] == 0 then 6 else if o[0] == 192 && o[1] == 0 then 7
        else if o[0] == 192 then 8 else if o[0] == 198 && o[1] != 51 then 9 else if o[0] == 198 then 10
        else if o[0] == 203 then 11 else if o[0] < 240 then 12 else 13;
      assert Ipv4Case(o, i);
    }
  }

  // ------------------------------------------------------------------ IPv6

  predicate IsGroup(g: string) { |g| == 4 && AllHex(g) }

  predicate AreGroups(gs: seq<string>) { |gs| == 8 && forall i :: 0 <= i < 8 ==> IsGroup(gs[i]) }

  predicate AtLeast(a: string, b: string) { !Before(a, b) }

  predicate AtMost(a: string, b: string) { !Before(b, a) }

  /** The tests on zero-padded lower-case groups compare text. */
  predicate IsReservedIpv6Groups(gs: seq<string>)
    requires |gs| == 8
  {
    var g0, g1 := gs[0], gs[1];
    || (g0 == "0000" && g1 == "0000" && gs[2] == "0000" && gs[3] == "0000" && gs[4] == "0000" && gs[5] == "0000")
    || (AtLeast(g0, "fe80") && AtMost(g0, "febf"))
    || (AtLeast(g0, "fc00") && AtMost(g0, "fdff"))
    || AtLeast(g0, "ff00")
    || (g0 == "0064" && g1 == "ff9b" && gs[2] == "0000" && gs[3] == "0000" && gs[4] == "0000" && gs[5] == "0000")
    || (g0 == "0064" && g1 == "ff9b" && gs[2] == "0001")
    || (g0 == "2001" && g1 == "0db8")
    || (g0 == "2001" && AtLeast(g1, "0010") && AtMost(g1, "001f"))
    || (g0 == "2001" && g1 == "0000")
    || (g0 == "2001" && g1 == "0002" && gs[2] == "0000")
    || g0 == "2002"
    || g0 == "5f00"
    || (g0 == "3fff" && AtMost(g1, "0fff"))
    || (g0 == "0100" && g1 == "0000" && gs[2] == "0000" && gs[3] == "0000")
  }

  const RESERVED_IPV6: seq<Prefix> := [
    Prefix([0, 0, 0, 0, 0, 0, 0, 0], 96),
    Prefix([0xfe80, 0, 0, 0, 0, 0, 0, 0], 10),
    Prefix([0xfc00, 0, 0, 0, 0, 0, 0, 0], 7),
    Prefix([0xff00, 0, 0, 0, 0, 0, 0, 0], 8),
    Prefix([0x64, 0xff9b, 0, 0, 0, 0, 0, 0], 96),
    Prefix([0x64, 0xff9b, 1, 0, 0, 0, 0, 0], 48),
    Prefix([0x2001, 0xdb8, 0, 0, 0, 0, 0, 0], 32),
    Prefix([0x2001, 0x10, 0, 0, 0, 0, 0, 0], 28),
    Prefix([0x2001, 0, 0, 0, 0, 0, 0, 0], 32),
    Prefix([0x2001, 2, 0, 0, 0, 0, 0, 0], 48),
    Prefix([0x2002, 0, 0, 0, 0, 0, 0, 0], 16),
    Prefix([0x5f00, 0, 0, 0, 0, 0, 0, 0], 16),
    Prefix([0x3fff, 0, 0, 0, 0, 0, 0, 0], 20),
    Prefix([0x100, 0, 0, 0, 0, 0, 0, 0], 64)]

  predicate InReservedIpv6(v: seq<nat>)
    requires |v| == 8
  {
    exists i :: 0 <= i < |RESERVED_IPV6| && Member(v, RESERVED_IPV6[i], 16)
  }

  function GroupValue(g: string): nat { if AllHex(g) then HexValue(g) else 0 }

  /** The eight 16-bit numbers of the groups. */
  function Values(gs: seq<string>): (v: seq<nat>)
    ensures |v| == |gs| && forall i :: 0 <= i < |v| ==> v[i] == GroupValue(gs[i])
  {
    seq(|gs|, i requires 0 <= i < |gs| => GroupValue(gs[i]))
  }

  /** Of hexadecimal texts of one length, text order is number order. */
  lemma {:induction false} HexOrder(a: string, b: string)
    requires AllHex(a) && AllHex(b) && |a| == |b|
    ensures Before(a, b) <==> HexValue(a) < HexValue(b)
    ensures a == b <==> HexValue(a) == HexValue(b)
  {
    if a != "" {
      HexOrder(a[1..], b[1..]);
      HexBound(a[1..]);
      HexBound(b[1..]);
      assert Codes(a)[1..] == Codes(a[1..]) && Codes(b)[1..] == Codes(b[1..]);
      assert a == [a[0]] + a[1..] && b == [b[0]] + b[1..];
      DigitOrder(a[0], b[0]);
      HeadDecides(HexDigit(a[0]), HexValue(a[1..]), HexDigit(b[0]), HexValue(b[1..]), Pow16(|a| - 1));
    }
  }

  lemma DigitOrder(c: char, d: char)
    requires IsHexDigit(c) && IsHexDigit(d)
    ensures c < d <==> HexDigit(c) < HexDigit(d)
    ensures c == d <==> HexDigit(c) == HexDigit(d)
  {
  }

  lemma HeadDecides(x: nat, a: nat, y: nat, b: nat, p: nat)
    requires a < p && b < p
    ensures x < y ==> x * p + a < y * p + b
    ensures y < x ==> y * p + b < x * p + a
  {
    AtLeastOnce(y - x, p);
    AtLeastOnce(x - y, p);
    Difference(y, x, p);
    Difference(x, y, p);
  }

  lemma HexOfFour(g: string)
    requires IsGroup(g)
    ensures HexValue(g) == HexDigit(g[0]) * 4096 + HexDigit(g[1]) * 256 + HexDigit(g[2]) * 16 + HexDigit(g[3])
    ensures HexValue(g) < 65536
  {
    var g1, g2, g3 := g[1..], g[1..][1..], g[1..][1..][1..];
    assert Pow16(0) == 1 && Pow16(1) == 16 && Pow16(2) == 256 && Pow16(3) == 4096;
    assert HexValue(g3) == HexDigit(g3[0]) * Pow16(0) + HexValue(g3[1..]);
    assert HexValue(g2) == HexDigit(g2[0]) * Pow16(1) + HexValue(g3);
    assert HexValue(g1) == HexDigit(g1[0]) * Pow16(2) + HexValue(g2);
  }

  /** A group compared with a constant as text is its number compared with the constant's. */
  lemma CompareGroup(g: string, c: string, n: nat)
    requires IsGroup(g) && IsGroup(c) && HexValue(c) == n
    ensures g == c <==> GroupValue(g) == n
    ensures AtLeast(g, c) <==> GroupValue(g) >= n
    ensures AtMost(g, c) <==> GroupValue(g) <= n
  {
    HexOrder(g, c);
    HexOrder(c, g);
  }

  lemma ConstantGroup(c: string, d0: nat, d1: nat, d2: nat, d3: nat)
    requires IsGroup(c) && HexDigit(c[0]) == d0 && HexDigit(c[1]) == d1 && HexDigit(c[2]) == d2 && HexDigit(c[3]) == d3
    ensures HexValue(c) == d0 * 4096 + d1 * 256 + d2 * 16 + d3
  {
    HexOfFour(c);
  }

  /** The source's tests one by one, on the numbers, in the order of the table. */
  predicate Ipv6Case(v: seq<nat>, i: nat)
    requires |v| == 8
  {
    match i
    case 0 => v[0] == 0 && v[1] == 0 && v[2] == 0 && v[3] == 0 && v[4] == 0 && v[5] == 0
    case 1 => 0xfe80 <= v[0] <= 0xfebf
    case 2 => 0xfc00 <= v[0] <= 0xfdff
    case 3 => 0xff00 <= v[0]
    case 4 => v[0] == 0x64 && v[1] == 0xff9b && v[2] == 0 && v[3] == 0 && v[4] == 0 && v[5] == 0
    case 5 => v[0] == 0x64 && v[1] == 0xff9b && v[2] == 1
    case 6 => v[0] == 0x2001 && v[1] == 0xdb8
    case 7 => v[0] == 0x2001 && 0x10 <= v[1] <= 0x1f
    case 8 => v[0] == 0x2001 && v[1] == 0
    case 9 => v[0] == 0x2001 && v[1] == 2 && v[2] == 0
    case 10 => v[0] == 0x2002
    case 11 => v[0] == 0x5f00
    case 12 => v[0] == 0x3fff && v[1] <= 0xfff
    case 13 => v[0] == 0x100 && v[1] == 0 && v[2] == 0 && v[3] == 0
    case _ => false
  }

  predicate IsReservedNumbers(v: seq<nat>)
    requires |v| == 8
  {
    exists i: nat :: i < 14 && Ipv6Case(v, i)
  }

  predicate AreNumbers(v: seq<nat>) { |v| == 8 && forall k :: 0 <= k < 8 ==> v[k] < 65536 }

  lemma WholeGroupEntry(v: seq<nat>, i: nat)
    requires AreNumbers(v) && (i == 10 || i == 11)
    ensures Member(v, RESERVED_IPV6[i], 16) <==> Ipv6Case(v, i)
  {
    Powers();
    MemberIffMatches16(v, RESERVED_IPV6[i]);
  }

  lemma LinkLocalEntry(v: seq<nat>, i: nat)
    requires AreNumbers(v) && i == 1
    ensures Member(v, RESERVED_IPV6[i], 16) <==> Ipv6Case(v, i)
  {
    Powers();
    assert WholeGroups(RESERVED_IPV6[1], 16) == 0 && HostBits(RESERVED_IPV6[1], 16) == 6;
    MemberIffMatches16(v, RESERVED_IPV6[i]);
  }

  lemma UniqueLocalEntry(v: seq<nat>, i: nat)
    requires AreNumbers(v) && i == 2
    ensures Member(v, RESERVED_IPV6[i], 16) <==> Ipv6Case(v, i)
  {
    Powers();
    assert WholeGroups(RESERVED_IPV6[2], 16) == 0 && HostBits(RESERVED_IPV6[2], 16) == 9;
    MemberIffMatches16(v, RESERVED_IPV6[i]);
  }

  lemma MulticastEntry(v: seq<nat>, i: nat)
    requires AreNumbers(v) && i == 3
    ensures Member(v, RESERVED_IPV6[i], 16) <==> Ipv6Case(v, i)
  {
    Powers();
    assert WholeGroups(RESERVED_IPV6[3], 16) == 0 && HostBits(RESERVED_IPV6[3], 16) == 8;
    MemberIffMatches16(v, RESERVED_IPV6[i]);
  }

  lemma TwoGroupEntry(v: seq<nat>, i: nat)
    requires AreNumbers(v) && (i == 6 || i == 8)
    ensures Member(v, RESERVED_IPV6[i], 16) <==> Ipv6Case(v, i)
  {
    Powers();
    if i == 6 {
      MemberIffMatches16(v, RESERVED_IPV6[6]);
    } else {
      MemberIffMatches16(v, RESERVED_IPV6[8]);
    }
  }

  lemma OrchidEntry(v: seq<nat>, i: nat)
    requires AreNumbers(v) && i == 7
    ensures Member(v, RESERVED_IPV6[i], 16) <==> Ipv6Case(v, i)
  {
    Powers();
    assert WholeGroups(RESERVED_IPV6[7], 16) == 1 && HostBits(RESERVED_IPV6[7], 16) == 4;
    MemberIffMatches16(v, RESERVED_IPV6[i]);
  }

  lemma DocumentationEntry(v: seq<nat>, i: nat)
    requires AreNumbers(v) && i == 12
    ensures Member(v, RESERVED_IPV6[i], 16) <==> Ipv6Case(v, i)
  {
    Powers();
    assert WholeGroups(RESERVED_IPV6[12], 16) == 1 && HostBits(RESERVED_IPV6[12], 16) == 12;
    MemberIffMatches16(v, RESERVED_IPV6[i]);
  }

  lemma ThreeGroupEntry(v: seq<nat>, i: nat)
    requires AreNumbers(v) && (i == 5 || i == 9)
    ensures Member(v, RESERVED_IPV6[i], 16) <==> Ipv6Case(v, i)
  {
    Powers();
    MemberIffMatches16(v, RESERVED_IPV6[i]);
  }

  lemma SixGroupEntry(v: seq<nat>, i: nat)
    requires AreNumbers(v) && (i == 0 || i == 4)
    ensures Member(v, RESERVED_IPV6[i], 16) <==> Ipv6Case(v, i)
  {
    Powers();
    MemberIffMatches16(v, RESERVED_IPV6[i]);
  }

  lemma FourGroupEntry(v: seq<nat>, i: nat)
    requires AreNumbers(v) && (i == 13)
    ensures Member(v, RESERVED_IPV6[i], 16) <==> Ipv6Case(v, i)
  {
    Powers();
    MemberIffMatches16(v, RESERVED_IPV6[i]);
  }

  lemma ReservedNumbersArePrefixMembership(v: seq<nat>)
    requires AreNumbers(v)
    ensures IsReservedNumbers(v) <==> InReservedIpv6(v)
  {
    forall i | 0 <= i < |RESERVED_IPV6| ensures Member(v, RESERVED_IPV6[i], 16) <==> Ipv6Case(v, i) {
      if i == 1 {
        LinkLocalEntry(v, i);
      } else if i == 2 {
        UniqueLocalEntry(v, i);
      } else if i == 3 {
        MulticastEntry(v, i);
      } else if 10 <= i <= 11 {
        WholeGroupEntry(v, i);
      } else if i == 6 || i == 8 {
        TwoGroupEntry(v, i);
      } else if i == 7 {
        OrchidEntry(v, i);
      } else if i == 12 {
        DocumentationEntry(v, i);
      } else if i == 5 || i == 9 {
        ThreeGroupEntry(v, i);
      } else if i == 13 {
        FourGroupEntry(v, i);
      } else {
        SixGroupEntry(v, i);
      }
    }
    if IsReservedNumbers(v) {
      var i: nat :| i < 14 && Ipv6Case(v, i);
      assert Member(v, RESERVED_IPV6[i], 16);
    }
  }

  /** The text tests are membership of the 128-bit address in the listed prefixes. */
  lemma ReservedIpv6IsPrefixMembership(gs: seq<string>)
    requires AreGroups(gs)
    ensures IsReservedIpv6Groups(gs) <==> InReservedIpv6(Values(gs))
  {
    TextTests(gs);
    ReservedNumbersArePrefixMembership(Values(gs));
  }

  lemma TextTests(gs: seq<string>)
    requires AreGroups(gs)
    ensures forall i :: 0 <= i < 8 ==> GroupValue(gs[i]) < 65536
    ensures IsReservedIpv6Groups(gs) <==> IsReservedNumbers(Values(gs))
  {
    forall i | 0 <= i < 8 ensures GroupValue(gs[i]) < 65536 { HexOfFour(gs[i]); }
    TextCases(gs);
    NumberCases(Values(gs));
  }

  /** The same tests on the numbers, in one disjunction. */
  predicate AnyIpv6Case(v: seq<nat>)
    requires |v| == 8
  {
    || Ipv6Case(v, 0) || Ipv6Case(v, 1) || Ipv6Case(v, 2) || Ipv6Case(v, 3) || Ipv6Case(v, 4)
    || Ipv6Case(v, 5) || Ipv6Case(v, 6) || Ipv6Case(v, 7) || Ipv6Case(v, 8) || Ipv6Case(v, 9)
    || Ipv6Case(v, 10) || Ipv6Case(v, 11) || Ipv6Case(v, 12) || Ipv6Case(v, 13)
  }

  lemma NumberCases(v: seq<nat>)
    requires |v| == 8
    ensures AnyIpv6Case(v) <==> IsReservedNumbers(v)
  {
  }

  lemma TextCases(gs: seq<string>)
    requires AreGroups(gs)
    ensures IsReservedIpv6Groups(gs) <==> AnyIpv6Case(Values(gs))
  {
    ZeroAndOne(gs);
    LocalRanges(gs[0]);
    MoreRanges(gs[0]);
    LowGroups(gs[0]);
    FirstGroups(gs[0]);
    LaterFirstGroups(gs[0]);
    SecondGroups(gs[1]);
    SecondRanges(gs[1]);
  }

  lemma ZeroAndOne(gs: seq<string>)
    requires AreGroups(gs)
    ensures forall i :: 0 <= i < 8
              ==> (gs[i] == "0000" <==> GroupValue(gs[i]) == 0) && (gs[i] == "0001" <==> GroupValue(gs[i]) == 1)
  {
    ConstantGroup("0000", 0, 0, 0, 0);
    ConstantGroup("0001", 0, 0, 0, 1);
    forall i | 0 <= i < 8
      ensures (gs[i] == "0000" <==> GroupValue(gs[i]) == 0) && (gs[i] == "0001" <==> GroupValue(gs[i]) == 1)
    {
      CompareGroup(gs[i], "0000", 0);
      CompareGroup(gs[i], "0001", 1);
    }
  }

  lemma LocalRanges(g: string)
    requires IsGroup(g)
    ensures AtLeast(g, "fe80") <==> GroupValue(g) >= 0xfe80
    ensures AtMost(g, "febf") <==> GroupValue(g) <= 0xfebf
    ensures AtLeast(g, "fc00") <==> GroupValue(g) >= 0xfc00
  {
    ConstantGroup("fe80", 15, 14, 8, 0);
    CompareGroup(g, "fe80", 0xfe80);
    ConstantGroup("febf", 15, 14, 11, 15);
    CompareGroup(g, "febf", 0xfebf);
    ConstantGroup("fc00", 15, 12, 0, 0);
    CompareGroup(g, "fc00", 0xfc00);
  }

  lemma MoreRanges(g: string)
    requires IsGroup(g)
    ensures AtMost(g, "fdff") <==> GroupValue(g) <= 0xfdff
    ensures AtLeast(g, "ff00") <==> GroupValue(g) >= 0xff00
  {
    ConstantGroup("fdff", 15, 13, 15, 15);
    CompareGroup(g, "fdff", 0xfdff);
    ConstantGroup("ff00", 15, 15, 0, 0);
    CompareGroup(g, "ff00", 0xff00);
  }

  lemma LowGroups(g: string)
    requires IsGroup(g)
    ensures g == "0064" <==> GroupValue(g) == 0x64
    ensures g == "0100" <==> GroupValue(g) == 0x100
  {
    ConstantGroup("0064", 0, 0, 6, 4);
    CompareGroup(g, "0064", 0x64);
    ConstantGroup("0100", 0, 1, 0, 0);
    CompareGroup(g, "0100", 0x100);
  }

  lemma FirstGroups(g: string)
    requires IsGroup(g)
    ensures g == "2001" <==> GroupValue(g) == 0x2001
    ensures g == "2002" <==> GroupValue(g) == 0x2002
  {
    ConstantGroup("2001", 2, 0, 0, 1);
    CompareGroup(g, "2001", 0x2001);
    ConstantGroup("2002", 2, 0, 0, 2);
    CompareGroup(g, "2002", 0x2002);
  }

  lemma LaterFirstGroups(g: string)
    requires IsGroup(g)
    ensures g == "5f00" <==> GroupValue(g) == 0x5f00
    ensures g == "3fff" <==> GroupValue(g) == 0x3fff
  {
    ConstantGroup("5f00", 5, 15, 0, 0);
    CompareGroup(g, "5f00", 0x5f00);
    ConstantGroup("3fff", 3, 15, 15, 15);
    CompareGroup(g, "3fff", 0x3fff);
  }

  lemma SecondGroups(g: string)
    requires IsGroup(g)
    ensures g == "ff9b" <==> GroupValue(g) == 0xff9b
    ensures g == "0db8" <==> GroupValue(g) == 0xdb8
    ensures g == "0002" <==> GroupValue(g) == 2
  {
    ConstantGroup("ff9b", 15, 15, 9, 11);
    CompareGroup(g, "ff9b", 0xff9b);
    ConstantGroup("0db8", 0, 13, 11, 8);
    CompareGroup(g, "0db8", 0xdb8);
    ConstantGroup("0002", 0, 0, 0, 2);
    CompareGroup(g, "0002", 2);
  }

  lemma SecondRanges(g: string)
    requires IsGroup(g)
    ensures AtLeast(g, "0010") <==> GroupValue(g) >= 0x10
    ensures AtMost(g, "001f") <==> GroupValue(g) <= 0x1f
    ensures AtMost(g, "0fff") <==> GroupValue(g) <= 0xfff
  {
    ConstantGroup("0010", 0, 0, 1, 0);
    CompareGroup(g, "0010", 0x10);
    ConstantGroup("001f", 0, 0, 1, 15);
    CompareGroup(g, "001f", 0x1f);
    ConstantGroup("0fff", 0, 15, 15, 15);
    CompareGroup(g, "0fff", 0xfff);
  }

  // ------------------------------------------------------------------ classification

  datatype AddressClass = Invalid | Reserved | GlobalIpv4 | GlobalIpv6

  function TrimStart(s: string): string {
    if s != "" && IsSpace(s[0]) then TrimStart(s[1..]) else s
  }

  function Trim(s: string): string
    decreases |s|
  {
    var t := TrimStart(s);
    if t != "" && |t| <= |s| && IsSpace(t[|t| - 1]) then Trim(t[..|t| - 1]) else t
  }

  /** The two low groups as four octets, byte by byte. */
  function EmbeddedOctets(high: string, low: string): seq<nat>
    requires IsGroup(high) && IsGroup(low)
  {
    [HexValue(high[..2]), HexValue(high[2..]), HexValue(low[..2]), HexValue(low[2..])]
  }

  function ClassifyOctets(o: seq<nat>): AddressClass
    requires |o| == 4
  {
    if IsReservedIpv4Octets(o) then Reserved else GlobalIpv4
  }

  lemma {:induction false} HexTextIsGroup(n: nat)
    requires n < 65536
    ensures IsHexGroup(HexText(n))
  {
    HexTextLength(n, 4);
  }

  lemma {:induction false} HexTextLength(n: nat, k: nat)
    requires k > 0 && n < Pow16(k)
    ensures 1 <= |HexText(n)| <= k && AllHex(HexText(n))
    decreases k
  {
    if n >= 16 {
      assert Pow16(1) == 16;
      assert k > 1;
      HexTextLength(n / 16, k - 1);
    }
  }

  lemma {:induction false} TokenGroupsAreHex(token: string, last: bool)
    ensures TokenGroups(token, last).Some? ==> HexGroups(TokenGroups(token, last).value)
  {
    if '.' in token && last && Ipv4Octets(token).Some? {
      var o := Ipv4Octets(token).value;
      Ipv4Exactly(token, o);
      assert Pow16(4) == 65536 by { assert Pow16(2) == 256; }
      HexTextIsGroup(o[0] * 256 + o[1]);
      HexTextIsGroup(o[2] * 256 + o[3]);
    }
  }

  lemma {:induction false} GroupsAreHex(tokens: seq<string>, n: nat)
    requires n <= |tokens|
    ensures GroupsUpTo(tokens, n).Some? ==> HexGroups(GroupsUpTo(tokens, n).value)
  {
    if n > 0 {
      GroupsAreHex(tokens, n - 1);
      TokenGroupsAreHex(tokens[n - 1], n == |tokens|);
    }
  }

  lemma PartGroupsAreHex(part: string)
    ensures PartGroups(part).Some? ==> HexGroups(PartGroups(part).value)
  {
    if part != "" { GroupsAreHex(Text.Split(part, ':'), |Text.Split(part, ':')|); }
  }

  /** Expansion always yields eight groups of four hexadecimal digits. */
  lemma ExpansionIsGroups(s: string)
    ensures ExpandIpv6(s).Some? ==> AreGroups(ExpandIpv6(s).value)
  {
    if ExpandIpv6(s).Some? {
      var parts := SplitDouble(ToLower(s));
      PartGroupsAreHex(parts[0]);
      if |parts| == 2 { PartGroupsAreHex(parts[1]); }
      var explicit := Explicit(parts).value;
      assert HexGroups(explicit);
      forall i | 0 <= i < 8 ensures IsGroup(ExpandIpv6(s).value[i]) {
        assert IsHexGroup(explicit[i]);
        PadKeeps(explicit[i]);
      }
    }
  }

  function ClassifyAddress(value: string): AddressClass {
    var trimmed := Trim(value);
    if trimmed == "" then Invalid
    else if ':' in trimmed then
      ExpansionIsGroups(trimmed);
      var groups := ExpandIpv6(trimmed);
      if groups.None? then Reserved
      else if IsIpv4Mapped(groups.value) then ClassifyOctets(EmbeddedOctets(groups.value[6], groups.value[7]))
      else if IsReservedIpv6Groups(groups.value) then Reserved
      else GlobalIpv6
    else
      var octets := Ipv4Octets(trimmed);
      if octets.None? then Reserved
      else
        Ipv4Exactly(trimmed, octets.value);
        ClassifyOctets(octets.value)
  }

  predicate IsGlobalAddress(value: string) {
    ClassifyAddress(value) == GlobalIpv4 || ClassifyAddress(value) == GlobalIpv6
  }

  /** The low 32 bits of the address as octets. */
  function LowOctets(v: seq<nat>): seq<nat>
    requires |v| == 8
  {
    [v[6] / 256, v[6] % 256, v[7] / 256, v[7] % 256]
  }

  lemma HexHalves(g: string)
    requires IsGroup(g)
    ensures HexValue(g[..2]) == HexValue(g) / 256 && HexValue(g[2..]) == HexValue(g) % 256
  {
    HexOfFour(g);
    HexOfTwo(g[..2]);
    HexOfTwo(g[2..]);
  }

  lemma HexOfTwo(t: string)
    requires |t| == 2 && AllHex(t)
    ensures HexValue(t) == HexDigit(t[0]) * 16 + HexDigit(t[1])
  {
    assert Pow16(0) == 1 && Pow16(1) == 16;
    assert HexValue(t[1..]) == HexDigit(t[1..][0]) * Pow16(0) + HexValue(t[1..][1..]);
  }

  lemma EmbeddedIsLow(gs: seq<string>)
    requires AreGroups(gs)
    ensures EmbeddedOctets(gs[6], gs[7]) == LowOctets(Values(gs)) && AreOctets(LowOctets(Values(gs)))
  {
    HexHalves(gs[6]);
    HexHalves(gs[7]);
    HexOfFour(gs[6]);
    HexOfFour(gs[7]);
  }

  /** `::ffff:0:0/96`, the mapped addresses. */
  const MAPPED := Prefix([0, 0, 0, 0, 0, 0xffff, 0, 0], 96)

  lemma OnesGroup(g: string)
    requires IsGroup(g)
    ensures g == "ffff" <==> GroupValue(g) == 0xffff
  {
    ConstantGroup("ffff", 15, 15, 15, 15);
    CompareGroup(g, "ffff", 0xffff);
  }

  lemma MappedMember(v: seq<nat>)
    requires AreNumbers(v)
    ensures Member(v, MAPPED, 16) <==>
            v[0] == 0 && v[1] == 0 && v[2] == 0 && v[3] == 0 && v[4] == 0 && v[5] == 0xffff
  {
    Powers();
    MemberIffMatches16(v, MAPPED);
  }

  /** The test for a mapped address is membership of the 128-bit address in `::ffff:0:0/96`. */
  lemma MappedIsPrefixMembership(gs: seq<string>)
    requires AreGroups(gs)
    ensures IsIpv4Mapped(gs) <==> Member(Values(gs), MAPPED, 16)
  {
    TextTests(gs);
    ZeroAndOne(gs);
    OnesGroup(gs[5]);
    MappedMember(Values(gs));
  }

  /** The test for a compatible address is membership in `::/96`. */
  lemma CompatibleIsPrefixMembership(gs: seq<string>)
    requires AreGroups(gs)
    ensures IsIpv4Compatible(gs) <==> Member(Values(gs), Prefix([0, 0, 0, 0, 0, 0, 0, 0], 96), 16)
  {
    TextTests(gs);
    ZeroAndOne(gs);
    SixGroupEntry(Values(gs), 0);
  }

  /** The address the text stands for lies outside every listed prefix of its family; one in
      `::ffff:0:0/96` is judged by its last 32 bits. */
  ghost predicate OutsidePrefixes(trimmed: string) {
    if ':' in trimmed then
      ExpansionIsGroups(trimmed);
      var groups := ExpandIpv6(trimmed);
      && groups.Some?
      && (if Member(Values(groups.value), MAPPED, 16) then !InReservedIpv4(LowOctets(Values(groups.value)))
          else !InReservedIpv6(Values(groups.value)))
    else Ipv4Octets(trimmed).Some? && |Ipv4Octets(trimmed).value| == 4 && !InReservedIpv4(Ipv4Octets(trimmed).value)
  }

  /** Global exactly when the trimmed text is an address outside all listed prefixes. */
  lemma GlobalIffOutsidePrefixes(value: string)
    ensures IsGlobalAddress(value) <==> OutsidePrefixes(Trim(value))
  {
    var s := Trim(value);
    if ':' in s {
      ExpansionIsGroups(s);
      if ExpandIpv6(s).Some? {
        var gs := ExpandIpv6(s).value;
        EmbeddedIsLow(gs);
        MappedIsPrefixMembership(gs);
        ReservedIpv4IsPrefixMembership(LowOctets(Values(gs)));
        ReservedIpv6IsPrefixMembership(gs);
      }
    } else if Ipv4Octets(s).Some? {
      Ipv4Exactly(s, Ipv4Octets(s).value);
      ReservedIpv4IsPrefixMembership(Ipv4Octets(s).value);
    }
  }

  /** The four classes: blank text is invalid, everything that is no global address is reserved,
      and a global one is of version 6 exactly if it has a colon and is not mapped. */
  lemma ClassOf(value: string)
    ensures var s, answer := Trim(value), ClassifyAddress(value);
            && (answer == Invalid <==> s == "")
            && (answer == Reserved <==> s != "" && !OutsidePrefixes(s))
            && (answer == GlobalIpv6 <==>
                  s != "" && OutsidePrefixes(s) && ':' in s && !Member(Values(ExpandIpv6(s).value), MAPPED, 16))
            && (answer == GlobalIpv4 <==>
                  s != "" && OutsidePrefixes(s) && (':' in s ==> Member(Values(ExpandIpv6(s).value), MAPPED, 16)))
  {
    var s := Trim(value);
    GlobalIffOutsidePrefixes(value);
    BlankIsNoAddress();
    if ':' in s && ExpandIpv6(s).Some? {
      ExpansionIsGroups(s);
      MappedIsPrefixMembership(ExpandIpv6(s).value);
    }
  }

  lemma BlankIsNoAddress()
    ensures !OutsidePrefixes("")
  {
    assert Text.Split("", '.') == [""];
  }

  /** Trimming drops the white space at both ends and nothing else. */
  lemma TrimIsMiddle(s: string) returns (before: string, after: string)
    ensures s == before + Trim(s) + after
    ensures (forall i :: 0 <= i < |before| ==> IsSpace(before[i]))
            && (forall i :: 0 <= i < |after| ==> IsSpace(after[i]))
    ensures Trim(s) != "" ==> !IsSpace(Trim(s)[0]) && !IsSpace(Trim(s)[|Trim(s)| - 1])
    decreases |s|
  {
    var t := TrimStart(s);
    before := TrimStartIsRest(s);
    if t != "" && |t| <= |s| && IsSpace(t[|t| - 1]) {
      var b, a := TrimIsMiddle(t[..|t| - 1]);
      after := a + [t[|t| - 1]];
      assert t == t[..|t| - 1] + [t[|t| - 1]];
      before := before + b;
    } else {
      after := "";
    }
  }

  lemma {:induction false} TrimStartIsRest(s: string) returns (before: string)
    ensures s == before + TrimStart(s) && forall i :: 0 <= i < |before| ==> IsSpace(before[i])
    ensures TrimStart(s) != "" ==> !IsSpace(TrimStart(s)[0])
  {
    if s != "" && IsSpace(s[0]) {
      var rest := TrimStartIsRest(s[1..]);
      before := [s[0]] + rest;
      assert s == [s[0]] + s[1..];
    } else {
      before := "";
    }
  }

  // ------------------------------------------------------------------ a quad that ends the left side

  lemma {:induction false} HexAppend(t: string, c: char)
    requires AllHex(t) && IsHexDigit(c)
    ensures AllHex(t + [c]) && HexValue(t + [c]) == 16 * HexValue(t) + HexDigit(c)
  {
    if t == [] {
      assert t + [c] == [c] && [c][1..] == [] && Pow16(0) == 1;
    } else {
      assert (t + [c])[1..] == t[1..] + [c] && (t + [c])[0] == t[0];
      HexAppend(t[1..], c);
      SixteenTimes(HexDigit(t[0]), Pow16(|t| - 1));
      assert Pow16(|t|) == 16 * Pow16(|t| - 1);
    }
  }

  lemma SixteenTimes(d: nat, p: nat)
    ensures d * (16 * p) == 16 * (d * p)
  {
  }

  lemma {:induction false} HexRoundTrip(n: nat)
    ensures AllHex(HexText(n)) && HexValue(HexText(n)) == n
  {
    if n >= 16 {
      HexRoundTrip(n / 16);
      HexAppend(HexText(n / 16), HexDigitText(n % 16));
    } else {
      HexAppend([], HexDigitText(n));
      assert [] + [HexDigitText(n)] == HexText(n);
    }
  }

  lemma EmbeddedQuad(a: nat, b: nat)
    requires a <= 255 && b <= 255
    ensures IsGroup(PadStart(HexText(a * 256 + b))) && IsGroup("0000")
    ensures EmbeddedOctets(PadStart(HexText(a * 256 + b)), "0000") == [a, b, 0, 0]
  {
    var n := a * 256 + b;
    HexTextIsGroup(n);
    PadKeeps(HexText(n));
    HexRoundTrip(n);
    HexHalves(PadStart(HexText(n)));
    HexHalves("0000");
    HexOfFour("0000");
  }

  /** Such a text is judged by an IPv4 address it does not spell: `a.b.0.0`. */
  lemma QuadLeftIsShifted(a: nat, b: nat)
    requires a <= 255 && b <= 255
    ensures ClassifyAddress(QuadLeftText(a, b)) == ClassifyOctets([a, b, 0, 0])
  {
    var s := QuadLeftText(a, b);
    QuadLeftCharacters(a, b);
    QuadMayEndLeftSide(a, b);
    QuadLeftGroups(a, b);
    EmbeddedQuad(a, b);
    assert Trim(s) == s && s[|s| - 1] == ':';
  }
}
