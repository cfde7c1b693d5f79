/** Which IP literals must not be dialled (src/net-guard.js, `isBlockedIp` and what it calls). */
module IpClassifier {
  import opened Wrappers
  import opened JsNumber
  import opened Strings
  import opened NetGuard
  import opened Ipv6Grammar
  import P = Positional

  type uint32 = x: int | 0 <= x < 0x1_0000_0000

  /** A quad as one number: `((a << 24) >>> 0) + (b << 16) + (c << 8) + d`. */
  function V4ToUint(q: seq<byte>): (n: uint32)
    requires |q| == 4
    ensures n == (q[0] as int) * 0x100_0000 + (q[1] as int) * 0x1_0000 + (q[2] as int) * 0x100 + q[3]
  {
    PowersUsed();
    TopOctet(q[0]);
    ToUint32(Shl(q[0], 24)) + Shl(q[1], 16) + Shl(q[2], 8) + q[3]
  }

  lemma PowersUsed()
    ensures Pow2(8) == 0x100 && Pow2(16) == 0x1_0000 && Pow2(17) == 0x2_0000 && Pow2(20) == 0x10_0000
    ensures Pow2(22) == 0x40_0000 && Pow2(24) == 0x100_0000 && Pow2(28) == 0x1000_0000
  {
  }

  /** Shifting into the sign bit is undone by `>>> 0`. */
  lemma TopOctet(a: byte)
    ensures ToUint32(Shl(a, 24)) == (a as int) * 0x100_0000
  {
    PowersUsed();
    WrapIsUndone((a as int) * 0x100_0000);
  }

  lemma WrapIsUndone(x: int)
    requires 0 <= x < 0x1_0000_0000
    ensures ToUint32(ToInt32(x)) == x
  {
  }

  datatype Network = Network(base: seq<byte>, prefix: nat)

  type network = w: Network | |w.base| == 4 && w.prefix <= 32 witness Network([0, 0, 0, 0], 0)

  const V4_BLOCKED: seq<network> := [
    Network([0, 0, 0, 0], 8),
    Network([10, 0, 0, 0], 8),
    Network([100, 64, 0, 0], 10),
    Network([127, 0, 0, 0], 8),
    Network([169, 254, 0, 0], 16),
    Network([172, 16, 0, 0], 12),
    Network([192, 0, 0, 0], 24),
    Network([192, 0, 2, 0], 24),
    Network([192, 168, 0, 0], 16),
    Network([198, 18, 0, 0], 15),
    Network([198, 51, 100, 0], 24),
    Network([203, 0, 113, 0], 24),
    Network([224, 0, 0, 0], 4),
    Network([240, 0, 0, 0], 4)
  ]

  /** `n >>> shift === net >>> shift` for a row of the table. */
  predicate SamePrefix(n: uint32, w: network) {
    UShr(n, 32 - w.prefix) == UShr(V4ToUint(w.base), 32 - w.prefix)
  }

  ghost predicate V4IsBlocked(n: uint32) {
    exists k :: 0 <= k < |V4_BLOCKED| && SamePrefix(n, V4_BLOCKED[k])
  }

  method V4Blocked(n: uint32) returns (blocked: bool)
    ensures blocked <==> V4IsBlocked(n)
  {
    hide UShr, V4ToUint;
    var k := 0;
    while k < |V4_BLOCKED|
      invariant k <= |V4_BLOCKED|
      invariant forall j :: 0 <= j < k ==> !SamePrefix(n, V4_BLOCKED[j])
    {
      var w := V4_BLOCKED[k];
      var shift := 32 - w.prefix;
      if UShr(n, shift) == UShr(V4ToUint(w.base), shift) {
        assert SamePrefix(n, w);
        return true;
      }
      k := k + 1;
    }
    return false;
  }

  /** The fourteen intervals written out. */
  predicate InBlockedRange(n: uint32) {
    || n <= 0x00ff_ffff                    // 0.0.0.0 to 0.255.255.255
    || 0x0a00_0000 <= n <= 0x0aff_ffff     // 10.0.0.0 to 10.255.255.255
    || 0x6440_0000 <= n <= 0x647f_ffff     // 100.64.0.0 to 100.127.255.255
    || 0x7f00_0000 <= n <= 0x7fff_ffff     // 127.0.0.0 to 127.255.255.255
    || 0xa9fe_0000 <= n <= 0xa9fe_ffff     // 169.254.0.0 to 169.254.255.255
    || 0xac10_0000 <= n <= 0xac1f_ffff     // 172.16.0.0 to 172.31.255.255
    || 0xc000_0000 <= n <= 0xc000_00ff     // 192.0.0.0 to 192.0.0.255
    || 0xc000_0200 <= n <= 0xc000_02ff     // 192.0.2.0 to 192.0.2.255
    || 0xc0a8_0000 <= n <= 0xc0a8_ffff     // 192.168.0.0 to 192.168.255.255
    || 0xc612_0000 <= n <= 0xc613_ffff     // 198.18.0.0 to 198.19.255.255
    || 0xc633_6400 <= n <= 0xc633_64ff     // 198.51.100.0 to 198.51.100.255
    || 0xcb00_7100 <= n <= 0xcb00_71ff     // 203.0.113.0 to 203.0.113.255
    || 0xe000_0000 <= n <= 0xefff_ffff     // 224.0.0.0 to 239.255.255.255
    || 0xf000_0000 <= n                    // 240.0.0.0 to 255.255.255.255
  }

  lemma AlignedInterval(n: int, base: int, size: int)
    requires 0 <= n && 0 <= base && size > 0 && base % size == 0
    ensures n / size == base / size <==> base <= n < base + size
  {
    var a, b, r := n / size, base / size, n % size;
    P.DivModOf(n, size);
    P.DivModOf(base, size);
    assert n == size * a + r && base == size * b;
    if a < b {
      P.MulOrder(size, a + 1, b);
    } else if b < a {
      P.MulOrder(size, b + 1, a);
    }
  }

  /** Comparing the top bits is membership in an aligned interval. */
  lemma PrefixIsInterval(n: uint32, w: network, net: uint32, size: int)
    requires V4ToUint(w.base) == net && Pow2(32 - w.prefix) == size && net % size == 0
    ensures SamePrefix(n, w) <==> net <= n < net + size
  {
    hide V4ToUint, Pow2;
    AlignedInterval(n, net, size);
  }

  /** The shift comparison over the table is membership in one of the fourteen intervals. */
  lemma BlockedRanges(n: uint32)
    ensures V4IsBlocked(n) <==> InBlockedRange(n)
  {
    hide UShr, Pow2, SamePrefix, Shl, ToUint32, ToInt32, V4ToUint;
    PowersUsed();
    var t := V4_BLOCKED;
    PrefixIsInterval(n, t[0], 0x0000_0000, 0x100_0000);
    PrefixIsInterval(n, t[1], 0x0a00_0000, 0x100_0000);
    PrefixIsInterval(n, t[2], 0x6440_0000, 0x40_0000);
    PrefixIsInterval(n, t[3], 0x7f00_0000, 0x100_0000);
    PrefixIsInterval(n, t[4], 0xa9fe_0000, 0x1_0000);
    PrefixIsInterval(n, t[5], 0xac10_0000, 0x10_0000);
    PrefixIsInterval(n, t[6], 0xc000_0000, 0x100);
    PrefixIsInterval(n, t[7], 0xc000_0200, 0x100);
    PrefixIsInterval(n, t[8], 0xc0a8_0000, 0x1_0000);
    PrefixIsInterval(n, t[9], 0xc612_0000, 0x2_0000);
    PrefixIsInterval(n, t[10], 0xc633_6400, 0x100);
    PrefixIsInterval(n, t[11], 0xcb00_7100, 0x100);
    PrefixIsInterval(n, t[12], 0xe000_0000, 0x1000_0000);
    PrefixIsInterval(n, t[13], 0xf000_0000, 0x1000_0000);
  }

  // ----- IPv6

  type groups = g: seq<group> | |g| == 8 witness [0, 0, 0, 0, 0, 0, 0, 0]

  /** `((hi << 16) >>> 0) + lo`. */
  function Joined(hi: group, lo: group): (n: uint32)
    ensures n == (hi as int) * 0x1_0000 + lo
  {
    PowersUsed();
    WrapIsUndone((hi as int) * 0x1_0000);
    ToUint32(Shl(hi, 16)) + lo
  }

  predicate AllZero(g: groups, from: nat, upto: nat)
    requires from <= upto <= 8
  {
    forall i :: from <= i < upto ==> g[i] == 0
  }

  /** `x & mask` on 16-bit groups. */
  function Masked(x: group, mask: group): int {
    Pow2Is32();
    And(x, mask, 16)
  }

  ghost predicate V6IsBlocked(g: groups) {
    if AllZero(g, 0, 6) then V4IsBlocked(Joined(g[6], g[7]))
    else if AllZero(g, 0, 5) && g[5] == 0xffff then V4IsBlocked(Joined(g[6], g[7]))
    else if AllZero(g, 0, 4) && g[4] == 0xffff && g[5] == 0 then V4IsBlocked(Joined(g[6], g[7]))
    else if g[0] == 0x64 && g[1] == 0xff9b && AllZero(g, 2, 6) then V4IsBlocked(Joined(g[6], g[7]))
    else if g[0] == 0x64 && g[1] == 0xff9b && g[2] == 1 then true
    else if g[0] == 0x2002 then V4IsBlocked(Joined(g[1], g[2]))
    else if g[0] == 0x2001 && g[1] < 0x200 then true
    else if g[0] == 0x2001 && g[1] == 0xdb8 then true
    else if g[0] == 0x3fff && Masked(g[1], 0xf000) == 0 then true
    else Masked(g[0], 0xe000) != 0x2000
  }

  method V6Blocked(g: groups) returns (blocked: bool)
    ensures blocked <==> V6IsBlocked(g)
  {
    if AllZero(g, 0, 6) {
      blocked := V4Blocked(Joined(g[6], g[7]));
    } else if AllZero(g, 0, 5) && g[5] == 0xffff {
      blocked := V4Blocked(Joined(g[6], g[7]));
    } else if AllZero(g, 0, 4) && g[4] == 0xffff && g[5] == 0 {
      blocked := V4Blocked(Joined(g[6], g[7]));
    } else if g[0] == 0x64 && g[1] == 0xff9b && AllZero(g, 2, 6) {
      blocked := V4Blocked(Joined(g[6], g[7]));
    } else if g[0] == 0x64 && g[1] == 0xff9b && g[2] == 1 {
      blocked := true;
    } else if g[0] == 0x2002 {
      blocked := V4Blocked(Joined(g[1], g[2]));
    } else if g[0] == 0x2001 && g[1] < 0x200 {
      blocked := true;
    } else if g[0] == 0x2001 && g[1] == 0xdb8 {
      blocked := true;
    } else if g[0] == 0x3fff && Masked(g[1], 0xf000) == 0 {
      blocked := true;
    } else {
      blocked := Masked(g[0], 0xe000) != 0x2000;
    }
  }

  /** The ways an IPv6 address carries a quad. */
  datatype Embedding =
    | Compatible                                // ::a.b.c.d
    | Mapped                                    // ::ffff:a.b.c.d
    | Translated                                // ::ffff:0:a.b.c.d
    | Nat64                                     // 64:ff9b::a.b.c.d
    | SixToFour(subnet: group, host: seq<group>) // 2002:ab:cd:subnet:host

  function Embed(e: Embedding, q: seq<byte>): (g: groups)
    requires |q| == 4 && (e.SixToFour? ==> |e.host| == 4)
  {
    match e
    case Compatible => [0, 0, 0, 0, 0, 0] + QuadGroups(q)
    case Mapped => [0, 0, 0, 0, 0, 0xffff] + QuadGroups(q)
    case Translated => [0, 0, 0, 0, 0xffff, 0] + QuadGroups(q)
    case Nat64 => [0x64, 0xff9b, 0, 0, 0, 0] + QuadGroups(q)
    case SixToFour(subnet, host) => [0x2002] + QuadGroups(q) + [subnet] + host
  }

  /** An embedded quad gets its own verdict. */
  lemma EmbeddedVerdict(e: Embedding, q: seq<byte>)
    requires |q| == 4 && (e.SixToFour? ==> |e.host| == 4)
    ensures V6IsBlocked(Embed(e, q)) <==> V4IsBlocked(V4ToUint(q))
  {
    hide V4IsBlocked, QuadGroups, Masked, Joined, V4ToUint;
    var g, two := Embed(e, q), QuadGroups(q);
    assert Joined(two[0], two[1]) == V4ToUint(q);
    match e
    case Compatible => assert g[6] == two[0] && g[7] == two[1];
    case Mapped => assert g[6] == two[0] && g[7] == two[1];
    case Translated => assert g[6] == two[0] && g[7] == two[1];
    case Nat64 => assert g[6] == two[0] && g[7] == two[1];
    case SixToFour(subnet, host) => assert g[1] == two[0] && g[2] == two[1];
  }

  ghost predicate CarriesQuad(g: groups) {
    exists e: Embedding, q: seq<byte> :: |q| == 4 && (e.SixToFour? ==> |e.host| == 4) && g == Embed(e, q)
  }

  /** Global unicast 2000::/3 without 2001::/23, 2001:db8::/32 and 3fff::/20, on the top 32 bits. */
  predicate IsOpenUnicast(g: groups) {
    var top := g[0] as int * 0x1_0000 + g[1];
    && 0x2000_0000 <= top < 0x4000_0000
    && !(0x2001_0000 <= top < 0x2001_0200)
    && top != 0x2001_0db8
    && !(0x3fff_0000 <= top < 0x3fff_1000)
  }

  /** The two masks compare a group with a bound. */
  lemma MasksAreBounds(x: group)
    ensures Masked(x, 0xf000) == 0 <==> x < 0x1000
    ensures Masked(x, 0xe000) == 0x2000 <==> 0x2000 <= x < 0x4000
  {
    Pow2Is32();
    assert Pow2(12) == 0x1000 && Pow2(13) == 0x2000;
    hide Pow2, And;
    AndKeepsHigh(x, 12, 16);
    AndKeepsHigh(x, 13, 16);
    P.DivModOf(x, 0x1000);
    P.DivModOf(x, 0x2000);
  }

  /** The groups of a quad, read back. */
  lemma QuadOfGroups(hi: group, lo: group) returns (q: seq<byte>)
    ensures |q| == 4 && QuadGroups(q) == [hi, lo]
  {
    hide QuadGroups;
    P.DivModOf(hi, 256);
    P.DivModOf(lo, 256);
    q := [hi / 256, hi % 256, lo / 256, lo % 256];
  }

  predicate JudgedByQuad(g: groups) {
    || AllZero(g, 0, 6)
    || (AllZero(g, 0, 5) && g[5] == 0xffff)
    || (AllZero(g, 0, 4) && g[4] == 0xffff && g[5] == 0)
    || (g[0] == 0x64 && g[1] == 0xff9b && AllZero(g, 2, 6))
    || g[0] == 0x2002
  }

  /** The branches that look at an embedded quad are taken by addresses that carry one. */
  lemma EmbeddingsMatch(g: groups)
    requires JudgedByQuad(g)
    ensures CarriesQuad(g)
  {
    hide QuadGroups;
    var low := QuadOfGroups(g[6], g[7]);
    var high := QuadOfGroups(g[1], g[2]);
    if AllZero(g, 0, 6) {
      assert g == Embed(Compatible, low);
    } else if AllZero(g, 0, 5) && g[5] == 0xffff {
      assert g == Embed(Mapped, low);
    } else if AllZero(g, 0, 4) && g[4] == 0xffff && g[5] == 0 {
      assert g == Embed(Translated, low);
    } else if g[0] == 0x2002 {
      assert g == Embed(SixToFour(g[3], g[4..]), high);
    } else {
      assert g == Embed(Nat64, low);
    }
  }

  /** An address that carries no quad passes exactly when it is open global unicast. */
  lemma UnicastVerdict(g: groups)
    requires !CarriesQuad(g)
    ensures !V6IsBlocked(g) <==> IsOpenUnicast(g)
  {
    hide V4IsBlocked, Masked, CarriesQuad;
    MasksAreBounds(g[0]);
    MasksAreBounds(g[1]);
    if JudgedByQuad(g) { EmbeddingsMatch(g); }
    hide AllZero;
  }

  // ----- text

  ghost predicate IsBlocked(ip: string) {
    match Ipv4Of(ip)
    case Some(q) => V4IsBlocked(V4ToUint(q))
    case None =>
      match Ipv6Of(ip)
      case Some(g) => V6IsBlocked(g)
      case None => true
  }

  method IsBlockedIp(ip: string) returns (blocked: bool)
    ensures blocked <==> IsBlocked(ip)
  {
    hide Ipv6Of, Ipv4Of, V6IsBlocked, V4IsBlocked;
    var v4 := ParseIpv4(ip);
    if v4.Some? {
      blocked := V4Blocked(V4ToUint(v4.value));
      return;
    }
    var v6 := ParseIpv6(ip);
    if v6.Some? {
      blocked := V6Blocked(v6.value);
      return;
    }
    return true;
  }

  /** No string is both. */
  lemma NotBoth(ip: string)
    requires Ipv6Of(ip).Some?
    ensures Ipv4Of(ip).None?
  {
    var s, colon, q := AcceptedParts(ip);
    assert ':' in ip by { Brackets(ip); }
    if Ipv4Of(ip).Some? {
      hide Ipv6Of, Ipv4Of, QuadText;
      Ipv4Exact(ip, Ipv4Of(ip).value);
      QuadChars(Ipv4Of(ip).value);
    }
  }

  /** Every text spelling of an embedded quad gets the verdict of the quad's own text. */
  lemma SpellingsAgree(ip: string, e: Embedding, q: seq<byte>)
    requires |q| == 4 && (e.SixToFour? ==> |e.host| == 4)
    requires Ipv6Of(ip) == Some(Embed(e, q))
    ensures IsBlocked(ip) <==> IsBlocked(QuadText(q))
  {
    hide Ipv6Of, Ipv4Of, V6IsBlocked, V4IsBlocked, Embed, QuadText;
    NotBoth(ip);
    EmbeddedVerdict(e, q);
    Ipv4Exact(QuadText(q), q);
  }

  /** What passes: an unlisted quad, in its own text or carried by an IPv6 address, and open unicast. */
  lemma PassesExactly(ip: string)
    ensures !IsBlocked(ip) <==>
      || (exists q: seq<byte> :: |q| == 4 && !InBlockedRange(V4ToUint(q)) && ip == QuadText(q))
      || (exists e: Embedding, q: seq<byte> ::
            |q| == 4 && (e.SixToFour? ==> |e.host| == 4)
            && !InBlockedRange(V4ToUint(q)) && Ipv6Of(ip) == Some(Embed(e, q)))
      || (exists g: groups :: Ipv6Of(ip) == Some(g) && !CarriesQuad(g) && IsOpenUnicast(g))
  {
    hide Ipv6Of, Ipv4Of, V6IsBlocked, V4IsBlocked, Embed, QuadText, InBlockedRange, IsOpenUnicast, V4ToUint;
    forall q: seq<byte> | |q| == 4
      ensures (V4IsBlocked(V4ToUint(q)) <==> InBlockedRange(V4ToUint(q)))
      ensures ip == QuadText(q) <==> Ipv4Of(ip) == Some(q)
    {
      BlockedRanges(V4ToUint(q));
      Ipv4Exact(ip, q);
    }
    if Ipv6Of(ip).Some? {
      NotBoth(ip);
      var g: groups := Ipv6Of(ip).value;
      if CarriesQuad(g) {
        forall e: Embedding, q: seq<byte> | |q| == 4 && (e.SixToFour? ==> |e.host| == 4) && g == Embed(e, q)
          ensures V6IsBlocked(g) <==> V4IsBlocked(V4ToUint(q))
        {
          EmbeddedVerdict(e, q);
        }
      } else {
        UnicastVerdict(g);
      }
    }
  }
}
