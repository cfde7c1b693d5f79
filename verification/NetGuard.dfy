/** IP literals: strict text parsers and the blocked-address classifier (src/net-guard.js). */
module NetGuard {
  import opened Wrappers
  import opened JsNumber
  import opened Strings
  import P = Positional

  type group = x: int | 0 <= x < 0x1_0000

  // ----- dotted quads

  predicate IsDigit(c: char) {
    '0' <= c <= '9'
  }

  predicate IsDecimal(p: string) {
    1 <= |p| <= 3 && forall i :: 0 <= i < |p| ==> IsDigit(p[i])
  }

  function Digit(c: char): int {
    c as int - '0' as int
  }

  /** `Number(p)` for one to three decimal digits. */
  function Number(p: string): int
    requires IsDecimal(p)
  {
    if |p| == 1 then Digit(p[0])
    else if |p| == 2 then 10 * Digit(p[0]) + Digit(p[1])
    else 100 * Digit(p[0]) + 10 * Digit(p[1]) + Digit(p[2])
  }

  function OctetOf(p: string): Option<byte> {
    if !IsDecimal(p) || (|p| > 1 && p[0] == '0') || Number(p) > 255 then None else Some(Number(p))
  }

  function DigitChar(d: int): char
    requires 0 <= d < 10
  {
    '0' + d as char
  }

  /** The decimal spelling of an octet without leading zeros. */
  function Decimal(n: byte): string {
    if n < 10 then [DigitChar(n)]
    else if n < 100 then [DigitChar(n / 10), DigitChar(n % 10)]
    else [DigitChar(n / 100), DigitChar(n / 10 % 10), DigitChar(n % 10)]
  }

  lemma OctetPrints(n: byte)
    ensures OctetOf(Decimal(n)) == Some(n)
    ensures '.' !in Decimal(n) && ':' !in Decimal(n)
  {
    P.DivModOf(n, 100);
    P.DivModOf(n / 10, 10);
    P.DivModOf(n, 10);
    assert n / 10 / 10 == n / 100;
  }

  lemma OctetReads(p: string)
    requires OctetOf(p).Some?
    ensures p == Decimal(OctetOf(p).value)
  {
    var n := Number(p);
    if |p| == 2 {
      P.DivModUnique(Digit(p[0]), Digit(p[1]), 10);
    } else if |p| == 3 {
      P.DivModUnique(Digit(p[0]), 10 * Digit(p[1]) + Digit(p[2]), 100);
      P.DivModUnique(10 * Digit(p[0]) + Digit(p[1]), Digit(p[2]), 10);
      P.DivModUnique(Digit(p[0]), Digit(p[1]), 10);
    }
  }

  /** An octet is accepted in its canonical spelling only. */
  lemma OctetExact(p: string, n: byte)
    ensures OctetOf(p) == Some(n) <==> p == Decimal(n)
  {
    hide Decimal, Number;
    OctetPrints(n);
    if OctetOf(p).Some? { OctetReads(p); }
  }

  function Octets(ps: seq<string>): Option<seq<byte>> {
    if ps == [] then Some([])
    else
      match OctetOf(ps[0])
      case None => None
      case Some(n) =>
        match Octets(ps[1..])
        case None => None
        case Some(rest) => Some([n] + rest)
  }

  /** `parseIpv4`: four octets between dots. */
  function Ipv4Of(s: string): (r: Option<seq<byte>>)
    ensures r.Some? ==> |r.value| == 4
  {
    var ps := Split(s, '.');
    if |ps| != 4 then None
    else OctetsCount(ps); Octets(ps)
  }

  lemma {:induction false} OctetsCount(ps: seq<string>)
    ensures Octets(ps).Some? ==> |Octets(ps).value| == |ps|
  {
    if ps != [] {
      OctetsCount(ps[1..]);
    }
  }

  function Decimals(q: seq<byte>): (ps: seq<string>)
    ensures |ps| == |q| && forall i :: 0 <= i < |q| ==> ps[i] == Decimal(q[i])
  {
    seq(|q|, i requires 0 <= i < |q| => Decimal(q[i]))
  }

  function QuadText(q: seq<byte>): string {
    Join(Decimals(q), '.')
  }

  lemma DecimalsFirst(q: seq<byte>)
    requires q != []
    ensures Decimals(q) == [Decimal(q[0])] + Decimals(q[1..])
  {
    hide Decimal;
  }

  lemma {:induction false} OctetsExact(ps: seq<string>, q: seq<byte>)
    ensures Octets(ps) == Some(q) <==> ps == Decimals(q)
  {
    hide OctetOf, Decimal, Decimals;
    OctetsCount(ps);
    if ps != [] && q != [] {
      OctetExact(ps[0], q[0]);
      OctetsExact(ps[1..], q[1..]);
      DecimalsFirst(q);
      FirstAndRest(ps, Decimal(q[0]), Decimals(q[1..]));
      if Octets(ps[1..]).Some? && OctetOf(ps[0]).Some? {
        FirstAndRest(q, OctetOf(ps[0]).value, Octets(ps[1..]).value);
      }
    }
  }

  lemma FirstAndRest<T>(s: seq<T>, x: T, rest: seq<T>)
    requires s != []
    ensures s == [x] + rest <==> s[0] == x && s[1..] == rest
  {
    assert s == [s[0]] + s[1..];
    assert ([x] + rest)[1..] == rest;
  }

  /** A string is an IPv4 address exactly when it is the canonical dotted-decimal spelling of the result. */
  lemma Ipv4Exact(s: string, q: seq<byte>)
    requires |q| == 4
    ensures Ipv4Of(s) == Some(q) <==> s == QuadText(q)
    ensures Split(QuadText(q), '.') == Decimals(q)
  {
    var ds := Decimals(q);
    forall p | p in ds ensures '.' !in p {
      var i :| 0 <= i < |ds| && ds[i] == p;
      OctetPrints(q[i]);
    }
    SplitJoin(ds, '.');
    JoinSplit(s, '.');
    OctetsExact(Split(s, '.'), q);
  }

  /** What a loop that has pushed `out` returns when the rest parses to `rest`. */
  function Pushed<T>(out: seq<T>, rest: Option<seq<T>>): Option<seq<T>> {
    match rest case None => None case Some(r) => Some(out + r)
  }

  lemma PushedNothing<T>(rest: Option<seq<T>>)
    ensures Pushed([], rest) == rest
  {
    if rest.Some? { assert [] + rest.value == rest.value; }
  }

  lemma PushOne<T>(out: seq<T>, x: T, rest: seq<T>)
    ensures (out + [x]) + rest == out + ([x] + rest)
  {
  }

  method ParseIpv4(s: string) returns (r: Option<seq<byte>>)
    ensures r == Ipv4Of(s)
  {
    var m := Split(s, '.');
    if |m| != 4 {
      return None;
    }
    OctetsCount(m);
    var out: seq<byte> := [];
    assert m[0..] == m;
    PushedNothing(Octets(m));
    var i := 0;
    while i < 4
      invariant i <= 4 && Octets(m) == Pushed(out, Octets(m[i..]))
    {
      assert m[i..][1..] == m[i + 1..];
      var piece := m[i];
      if !IsDecimal(piece) { return None; }
      if |piece| > 1 && piece[0] == '0' { return None; }
      var n := Number(piece);
      if n > 255 { return None; }
      if Octets(m[i + 1..]).Some? { PushOne(out, n, Octets(m[i + 1..]).value); }
      out := out + [n];
      i := i + 1;
    }
    assert m[4..] == [] && out + [] == out;
    return Some(out);
  }

  // ----- IPv6 text, as the parser reads it

  function HexDigit(c: char): Option<int> {
    if '0' <= c <= '9' then Some(c as int - '0' as int)
    else if 'a' <= c <= 'f' then Some(c as int - 'a' as int + 10)
    else if 'A' <= c <= 'F' then Some(c as int - 'A' as int + 10)
    else None
  }

  predicate IsHex(p: string) {
    1 <= |p| <= 4 && forall i :: 0 <= i < |p| ==> HexDigit(p[i]).Some?
  }

  function HexFrom(p: string): (n: int)
    requires forall i :: 0 <= i < |p| ==> HexDigit(p[i]).Some?
    ensures n >= 0
    ensures |p| == 0 ==> n == 0
    ensures |p| == 1 ==> n < 0x10
    ensures |p| == 2 ==> n < 0x100
    ensures |p| == 3 ==> n < 0x1000
    ensures |p| == 4 ==> n < 0x1_0000
  {
    if p == "" then 0 else HexFrom(p[..|p| - 1]) * 16 + HexDigit(p[|p| - 1]).value
  }

  /** `parseInt(p, 16)`. */
  function HexValue(p: string): group
    requires IsHex(p)
  {
    HexFrom(p)
  }

  function PieceValues(ps: seq<string>): Option<seq<group>> {
    if ps == [] then Some([])
    else if !IsHex(ps[0]) then None
    else
      match PieceValues(ps[1..])
      case None => None
      case Some(rest) => Some([HexValue(ps[0])] + rest)
  }

  /** The `groups` closure: the empty part has no groups. */
  function GroupsOf(part: string): Option<seq<group>> {
    if part == "" then Some([]) else PieceValues(Split(part, ':'))
  }

  predicate IsGap(s: string, i: int) {
    0 <= i < |s| - 1 && s[i] == ':' && s[i + 1] == ':'
  }

  /** `s.indexOf("::")`. */
  function FirstGap(s: string, from: nat): (r: Option<nat>)
    requires from <= |s|
    ensures r.Some? ==> from <= r.value && IsGap(s, r.value) && forall j :: from <= j < r.value ==> !IsGap(s, j)
    ensures r.None? ==> forall j :: from <= j ==> !IsGap(s, j)
    decreases |s| - from
  {
    if from == |s| then None else if IsGap(s, from) then Some(from) else FirstGap(s, from + 1)
  }

  /** `s.lastIndexOf("::")`. */
  function LastGap(s: string, upto: nat): (r: Option<nat>)
    ensures r.Some? ==> r.value < upto && IsGap(s, r.value) && forall j :: r.value < j < upto ==> !IsGap(s, j)
    ensures r.None? ==> forall j :: 0 <= j < upto ==> !IsGap(s, j)
  {
    if upto == 0 then None else if IsGap(s, upto - 1) then Some(upto - 1) else LastGap(s, upto - 1)
  }

  /** The part before an embedded quad, with the quad's two groups to append. */
  function Assemble(s: string, tail: seq<group>): (r: Option<seq<group>>)
    requires |tail| <= 8
    ensures r.Some? ==> |r.value| == 8
  {
    var want := 8 - |tail|;
    match FirstGap(s, 0)
    case None =>
      var all := GroupsOf(s);
      if all.None? || |all.value| != want then None else Some(all.value + tail)
    case Some(gap) =>
      if LastGap(s, |s|) != Some(gap) then None
      else
        var head := GroupsOf(s[..gap]);
        var rest := GroupsOf(s[gap + 2..]);
        if head.None? || rest.None? then None
        else
          var fill := want - |head.value| - |rest.value|;
          if fill < 1 then None else Some(head.value + P.Zeros(fill) + rest.value + tail)
  }

  predicate IsAddressChar(c: char) {
    HexDigit(c).Some? || c == ':' || c == '.'
  }

  predicate IsAddressText(s: string) {
    s != "" && forall i :: 0 <= i < |s| ==> IsAddressChar(s[i])
  }

  function StripBrackets(s: string): string {
    if s != "" && s[0] == '[' && s[|s| - 1] == ']' then s[1..|s| - 1] else s
  }

  /** `[(q0 << 8) | q1, (q2 << 8) | q3]`. */
  function QuadGroups(q: seq<byte>): (g: seq<group>)
    requires |q| == 4
    ensures |g| == 2 && g[0] == (q[0] as int) * 256 + q[1] && g[1] == (q[2] as int) * 256 + q[3]
  {
    ShlByte(q[0]);
    ShlByte(q[2]);
    assert Pow2(8) == 256;
    [OrLow(Shl(q[0], 8), q[1], 8), OrLow(Shl(q[2], 8), q[3], 8)]
  }

  /** What remains of the text in front of a quad: its colon goes unless it ends a `::`. */
  function Front(s: string): string
    requires s != ""
  {
    if EndsWith(s, "::") then s else s[..|s| - 1]
  }

  /** `parseIpv6`. */
  function Ipv6Of(input: string): (r: Option<seq<group>>)
    ensures r.Some? ==> |r.value| == 8
  {
    var s := StripBrackets(input);
    if !IsAddressText(s) then None
    else
      match LastIndexOf(s, ':')
      case None => None
      case Some(lastColon) =>
        if '.' in s then
          match Ipv4Of(s[lastColon + 1..])
          case None => None
          case Some(q) => Assemble(Front(s[..lastColon + 1]), QuadGroups(q))
        else Assemble(s, [])
  }

  method ParseGroups(part: string) returns (r: Option<seq<group>>)
    ensures r == GroupsOf(part)
  {
    if part == "" { return Some([]); }
    var out: seq<group> := [];
    var pieces := Split(part, ':');
    assert pieces[0..] == pieces;
    PushedNothing(PieceValues(pieces));
    var i := 0;
    while i < |pieces|
      invariant i <= |pieces| && PieceValues(pieces) == Pushed(out, PieceValues(pieces[i..]))
    {
      assert pieces[i..][1..] == pieces[i + 1..];
      if !IsHex(pieces[i]) { return None; }
      var n := HexValue(pieces[i]);
      if PieceValues(pieces[i + 1..]).Some? { PushOne(out, n, PieceValues(pieces[i + 1..]).value); }
      out := out + [n];
      i := i + 1;
    }
    assert pieces[i..] == [] && out + [] == out;
    return Some(out);
  }

  /** From the search for `::` to the result. */
  method AssembleGroups(s: string, tail: seq<group>) returns (r: Option<seq<group>>)
    requires |tail| <= 8
    ensures r == Assemble(s, tail)
  {
    hide GroupsOf, FirstGap, LastGap, P.Zeros;
    var want := 8 - |tail|;
    var gap := FirstGap(s, 0);
    if gap.None? {
      var all := ParseGroups(s);
      if all.None? || |all.value| != want { return None; }
      return Some(all.value + tail);
    }
    if LastGap(s, |s|) != gap { return None; }
    var head := ParseGroups(s[..gap.value]);
    var rest := ParseGroups(s[gap.value + 2..]);
    if head.None? || rest.None? { return None; }
    var fill := want - |head.value| - |rest.value|;
    if fill < 1 { return None; }
    return Some(head.value + P.Zeros(fill) + rest.value + tail);
  }

  method ParseIpv6(input: string) returns (r: Option<seq<group>>)
    ensures r == Ipv6Of(input)
  {
    hide Assemble, IsAddressText, IsAddressChar, HexDigit, Ipv4Of, LastIndexOf, QuadGroups, EndsWith;
    var s := input;
    if s != "" && s[0] == '[' && s[|s| - 1] == ']' { s := s[1..|s| - 1]; }
    if !IsAddressText(s) { return None; }
    var colon := LastIndexOf(s, ':');
    if colon.None? { return None; }
    var lastColon := colon.value;
    var tail: seq<group> := [];
    if '.' in s {
      var v4 := ParseIpv4(s[lastColon + 1..]);
      if v4.None? { return None; }
      tail := QuadGroups(v4.value);
      s := s[..lastColon + 1];
      if !EndsWith(s, "::") { s := s[..|s| - 1]; }
    }
    r := AssembleGroups(s, tail);
  }
}
