/**
 The text forms of section 2.2 of RFC 4291, given independently of the parser, and the
 proof that src/net-guard.js accepts exactly these and returns what they denote.
 */
module Ipv6Grammar {
  import opened Wrappers
  import opened JsNumber
  import opened Strings
  import opened NetGuard
  import P = Positional

  /** Hex groups between colons, or two such lists around one `::`. */
  datatype Form = Full(groups: seq<string>) | Gapped(head: seq<string>, rest: seq<string>)

  const LOWER := "0123456789" + "abcdef"
  const UPPER := "0123456789" + "ABCDEF"

  /** One to four hex digits, in either case. */
  predicate IsGroup(p: string) {
    1 <= |p| <= 4 && forall i :: 0 <= i < |p| ==> p[i] in LOWER || p[i] in UPPER
  }

  /** The place of each digit in its alphabet. */
  function Places(p: string): (ds: seq<int>)
    ensures |ds| == |p|
  {
    seq(|p|, i requires 0 <= i < |p| => if p[i] in LOWER then IndexOf(LOWER, p[i]) else IndexOf(UPPER, p[i]))
  }

  /** The number a group denotes: its digits to base 16, most significant first. */
  function GroupValue(p: string): (n: group)
    requires IsGroup(p)
  {
    GroupIsHex(p);
    P.BigEnd(Places(p), 16)
  }

  ghost predicate AllHex(ps: seq<string>) {
    forall p :: p in ps ==> IsGroup(p)
  }

  /** `want` groups in all; a `::` stands for at least one zero group. */
  ghost predicate WellFormed(f: Form, want: nat) {
    match f
    case Full(gs) => AllHex(gs) && |gs| == want
    case Gapped(head, rest) => AllHex(head) && AllHex(rest) && |head| + |rest| < want
  }

  function Text(f: Form): string {
    match f
    case Full(gs) => Join(gs, ':')
    case Gapped(head, rest) => Join(head, ':') + "::" + Join(rest, ':')
  }

  function Groups(ps: seq<string>): (g: seq<group>)
    requires forall p :: p in ps ==> IsGroup(p)
    ensures |g| == |ps|
  {
    if ps == [] then [] else [GroupValue(ps[0])] + Groups(ps[1..])
  }

  ghost function Denoted(f: Form, want: nat): (g: seq<group>)
    requires WellFormed(f, want)
    ensures |g| == want
  {
    match f
    case Full(gs) => Groups(gs)
    case Gapped(head, rest) => Groups(head) + P.Zeros(want - |head| - |rest|) + Groups(rest)
  }

  /** A whole address: a form of eight groups, or of six with a dotted quad after it. */
  datatype Address = Plain(form: Form) | WithQuad(form: Form, quad: seq<byte>)

  ghost predicate Valid(a: Address) {
    match a
    case Plain(f) => WellFormed(f, 8)
    case WithQuad(f, q) => |q| == 4 && WellFormed(f, 6)
  }

  function Printed(a: Address): string {
    match a
    case Plain(f) => Text(f)
    case WithQuad(f, q) => Text(f) + (if f.Gapped? && f.rest == [] then "" else ":") + QuadText(q)
  }

  ghost function Value(a: Address): seq<group>
    requires Valid(a)
  {
    match a
    case Plain(f) => Denoted(f, 8)
    case WithQuad(f, q) => Denoted(f, 6) + QuadGroups(q)
  }

  // ----- one group

  /** The alphabets, run by run. */
  lemma AlphabetRuns()
    ensures |LOWER| == 16 && |UPPER| == 16
    ensures forall d {:trigger LOWER[d]} :: 0 <= d < 16 ==> LOWER[d] == if d < 10 then '0' + d as char else 'a' + (d - 10) as char
    ensures forall d {:trigger UPPER[d]} :: 0 <= d < 16 ==> UPPER[d] == if d < 10 then '0' + d as char else 'A' + (d - 10) as char
  {
  }

  lemma PlaceIsDigit(c: char)
    ensures c in LOWER || c in UPPER <==> HexDigit(c).Some?
    ensures HexDigit(c).Some? ==> HexDigit(c).value == if c in LOWER then IndexOf(LOWER, c) else IndexOf(UPPER, c)
  {
    hide IndexOf;
    AlphabetRuns();
    if '0' <= c <= '9' {
      assert LOWER[c as int - '0' as int] == c;
    } else if 'a' <= c <= 'f' {
      assert LOWER[c as int - 'a' as int + 10] == c;
    } else if 'A' <= c <= 'F' {
      assert UPPER[c as int - 'A' as int + 10] == c;
    }
  }

  lemma {:induction false} PlacesGiveHex(p: string)
    requires forall i :: 0 <= i < |p| ==> HexDigit(p[i]).Some?
    ensures P.BigEnd(Places(p), 16) == HexFrom(p)
  {
    if p != "" {
      var n := |p| - 1;
      PlacesGiveHex(p[..n]);
      PlaceIsDigit(p[n]);
      hide IndexOf, HexDigit;
      assert Places(p)[..n] == Places(p[..n]);
    }
  }

  /** The parser reads a group as the number it denotes. */
  lemma GroupIsHex(p: string)
    ensures IsGroup(p) <==> IsHex(p)
    ensures IsHex(p) ==> HexValue(p) == P.BigEnd(Places(p), 16)
  {
    forall i | 0 <= i < |p| ensures p[i] in LOWER || p[i] in UPPER <==> HexDigit(p[i]).Some? {
      PlaceIsDigit(p[i]);
    }
    hide HexDigit, IndexOf, HexFrom;
    if IsHex(p) { PlacesGiveHex(p); }
  }

  function HexChar(d: int): (c: char)
    requires 0 <= d < 16
    ensures HexDigit(c) == Some(d)
  {
    if d < 10 then '0' + d as char else 'a' + (d - 10) as char
  }

  /** A group in four digits. */
  function Hex4(n: group): (p: string)
    ensures |p| == 4
  {
    Nibbles(n);
    [HexChar(n / 4096), HexChar(n / 256 % 16), HexChar(n / 16 % 16), HexChar(n % 16)]
  }

  lemma Nibbles(n: group)
    ensures 0 <= n / 4096 < 16 && 0 <= n / 256 % 16 < 16 && 0 <= n / 16 % 16 < 16 && 0 <= n % 16 < 16
    ensures n == n / 4096 * 4096 + n / 256 % 16 * 256 + n / 16 % 16 * 16 + n % 16
  {
    var a, b := n / 16, n / 256;
    P.DivModOf(n, 16);
    P.DivModOf(a, 16);
    P.DivModOf(b, 16);
    assert a / 16 == b && b / 16 == n / 4096;
  }

  lemma FourDigits(a: int, b: int, c: int, d: int)
    requires 0 <= a < 16 && 0 <= b < 16 && 0 <= c < 16 && 0 <= d < 16
    ensures HexFrom([HexChar(a), HexChar(b), HexChar(c), HexChar(d)]) == a * 4096 + b * 256 + c * 16 + d
  {
    hide HexDigit;
    var w, x, y, z := HexChar(a), HexChar(b), HexChar(c), HexChar(d);
    assert [w, x, y, z][..3] == [w, x, y] && [w, x, y][..2] == [w, x] && [w, x][..1] == [w] && [w][..0] == "";
    assert HexFrom([w]) == a;
    assert HexFrom([w, x]) == a * 16 + b;
    assert HexFrom([w, x, y]) == (a * 16 + b) * 16 + c;
  }

  lemma {:induction false} ZeroInFront(p: string)
    requires forall i :: 0 <= i < |p| ==> HexDigit(p[i]).Some?
    ensures HexFrom("0" + p) == HexFrom(p)
  {
    hide HexDigit;
    assert HexDigit('0') == Some(0) by { assert HexChar(0) == '0'; }
    if p == "" {
      assert "0"[..0] == "" && "0" + p == "0";
    } else {
      ZeroInFront(p[..|p| - 1]);
      assert ("0" + p)[..|p|] == "0" + p[..|p| - 1];
    }
  }

  lemma {:induction false} PaddedHex(n: group, k: nat)
    requires k <= 3 && forall i :: 0 <= i < k ==> Hex4(n)[i] == '0'
    ensures IsHex(Hex4(n)[k..]) && HexFrom(Hex4(n)[k..]) == n
  {
    hide HexDigit, HexFrom;
    var p := Hex4(n)[k..];
    assert forall i :: 0 <= i < 4 ==> HexDigit(Hex4(n)[i]).Some?;
    if k == 0 {
      Nibbles(n);
      FourDigits(n / 4096, n / 256 % 16, n / 16 % 16, n % 16);
      assert p == Hex4(n);
    } else {
      PaddedHex(n, k - 1);
      hide Hex4;
      ZeroInFront(p);
      assert Hex4(n)[k - 1..] == "0" + p;
    }
  }

  /** Every spelling of a group with leading zeros, up to four digits, is read as the group. */
  lemma PaddedGroupIsRead(n: group, k: nat)
    requires k <= 3 && forall i :: 0 <= i < k ==> Hex4(n)[i] == '0'
    ensures IsGroup(Hex4(n)[k..]) && GroupValue(Hex4(n)[k..]) == n
  {
    hide HexDigit, HexFrom, Hex4, IsHex, IsGroup, Places, P.BigEnd;
    PaddedHex(n, k);
    GroupIsHex(Hex4(n)[k..]);
  }

  // ----- lists of pieces

  lemma {:induction false} PieceValuesExact(ps: seq<string>)
    ensures PieceValues(ps).Some? <==> AllHex(ps)
    ensures AllHex(ps) ==> PieceValues(ps) == Some(Groups(ps))
  {
    if ps != [] {
      PieceValuesExact(ps[1..]);
      GroupIsHex(ps[0]);
      hide IsHex, IsGroup, HexValue, Places, P.BigEnd;
      assert ps == [ps[0]] + ps[1..];
      assert AllHex(ps) <==> IsGroup(ps[0]) && AllHex(ps[1..]) by {
        assert forall p :: p in ps <==> p == ps[0] || p in ps[1..];
      }
    }
  }

  lemma HexHasNoColon(p: string)
    requires IsGroup(p)
    ensures p != "" && ':' !in p && '.' !in p && IsAddressText(p)
  {
    GroupIsHex(p);
    hide IsGroup;
  }

  /** A list of hex groups is read back from its text; so is the empty list from the empty text. */
  lemma GroupsOfJoin(ps: seq<string>)
    requires AllHex(ps)
    ensures GroupsOf(Join(ps, ':')) == Some(Groups(ps))
  {
    JoinedPieces(ps);
    PieceValuesExact(ps);
    if ps != [] {
      forall p | p in ps ensures ':' !in p { HexHasNoColon(p); }
      SplitJoin(ps, ':');
    }
  }

  /** Accepted text is the join of a list of hex groups. */
  lemma GroupsOfAccepts(part: string) returns (ps: seq<string>)
    requires GroupsOf(part).Some?
    ensures AllHex(ps) && Join(ps, ':') == part && GroupsOf(part) == Some(Groups(ps))
    ensures part == "" <==> ps == []
  {
    if part == "" {
      ps := [];
    } else {
      ps := Split(part, ':');
      JoinSplit(part, ':');
      PieceValuesExact(ps);
    }
  }

  ghost predicate NoGap(s: string) {
    forall i: int {:trigger IsGap(s, i)} :: !IsGap(s, i)
  }

  /** Starts and ends with a hex digit, and has neither `::` nor a dot inside. */
  ghost predicate Clean(s: string) {
    && NoGap(s)
    && s != "" && s[0] != ':' && s[|s| - 1] != ':'
    && IsAddressText(s) && '.' !in s
  }

  lemma CleanPiece(p: string)
    requires IsGroup(p)
    ensures Clean(p)
  {
    HexHasNoColon(p);
  }

  lemma CleanPair(p: string, t: string)
    requires Clean(p) && ':' !in p && Clean(t)
    ensures Clean(p + [':'] + t)
  {
    assert IsAddressChar(':');
    hide IsAddressChar;
    var s, n := p + [':'] + t, |p|;
    forall i: int ensures !IsGap(s, i) {
      assert i > n ==> (IsGap(s, i) <==> IsGap(t, i - n - 1));
    }
    assert IsAddressText(s) by {
      forall i | 0 <= i < |s| ensures IsAddressChar(s[i]) {
        if i < n { assert s[i] == p[i]; } else if i > n { assert s[i] == t[i - n - 1]; }
      }
    }
  }

  /** Joined groups neither start nor end with a colon and contain no `::`. */
  lemma {:induction false} JoinedPieces(ps: seq<string>)
    requires AllHex(ps)
    ensures var s := Join(ps, ':');
      if ps == [] then s == "" && NoGap(s) else Clean(s)
  {
    hide Clean, IsGroup, NoGap;
    if ps == [] {
      assert NoGap("") by { NoGapInNothing(); }
    } else {
      assert ps[0] in ps;
      HexHasNoColon(ps[0]);
      CleanPiece(ps[0]);
      if |ps| > 1 {
        assert forall p :: p in ps[1..] ==> p in ps;
        JoinedPieces(ps[1..]);
        CleanPair(ps[0], Join(ps[1..], ':'));
      }
    }
  }

  lemma JoinedHasNoGap(ps: seq<string>)
    requires AllHex(ps)
    ensures NoGap(Join(ps, ':'))
  {
    JoinedPieces(ps);
    hide Join, IsGroup;
  }

  lemma NoGapInNothing()
    ensures NoGap("")
  {
  }

  /** The `::` of a gapped form is the only one. */
  lemma GapIsUnique(head: seq<string>, rest: seq<string>)
    requires AllHex(head) && AllHex(rest)
    ensures var s := Text(Gapped(head, rest)); var k := |Join(head, ':')|;
      && (forall i: int {:trigger IsGap(s, i)} :: IsGap(s, i) <==> i == k)
      && s[..k] == Join(head, ':') && s[k + 2..] == Join(rest, ':')
  {
    JoinedPieces(head);
    JoinedPieces(rest);
    var h, t := Join(head, ':'), Join(rest, ':');
    var s, k := h + "::" + t, |h|;
    forall i: int ensures IsGap(s, i) <==> i == k {
      if 0 <= i < k - 1 { assert IsGap(s, i) <==> IsGap(h, i); }
      if i >= k + 2 { assert IsGap(s, i) <==> IsGap(t, i - k - 2); }
    }
  }

  // ----- the part in front of a quad

  /** Every well-formed form is assembled to what it denotes. */
  lemma AssembleForm(f: Form, tail: seq<group>)
    requires |tail| <= 8 && WellFormed(f, 8 - |tail|)
    ensures Assemble(Text(f), tail) == Some(Denoted(f, 8 - |tail|) + tail)
  {
    hide GroupsOf, Groups, IsGroup, Join, Clean;
    var s := Text(f);
    match f
    case Full(gs) =>
      JoinedHasNoGap(gs);
      GroupsOfJoin(gs);
    case Gapped(head, rest) =>
      GapIsUnique(head, rest);
      GroupsOfJoin(head);
      GroupsOfJoin(rest);
      var k := |Join(head, ':')|;
      assert IsGap(s, k);
      assert FirstGap(s, 0) == Some(k) && LastGap(s, |s|) == Some(k);
  }

  /** Whatever is assembled comes from a well-formed form with that text. */
  lemma AssembledForm(s: string, tail: seq<group>) returns (f: Form)
    requires |tail| <= 8 && Assemble(s, tail).Some?
    ensures WellFormed(f, 8 - |tail|) && Text(f) == s
    ensures f.Gapped? ==> (EndsWith(s, "::") <==> f.rest == [])
    ensures f.Full? ==> !EndsWith(s, "::")
  {
    hide GroupsOf, Groups, Join, IsGroup;
    match FirstGap(s, 0)
    case None =>
      var gs := GroupsOfAccepts(s);
      f := Full(gs);
      assert EndsWith(s, "::") ==> IsGap(s, |s| - 2);
    case Some(gap) =>
      var head := GroupsOfAccepts(s[..gap]);
      var rest := GroupsOfAccepts(s[gap + 2..]);
      f := Gapped(head, rest);
      assert s == s[..gap] + "::" + s[gap + 2..];
      if EndsWith(s, "::") { assert IsGap(s, |s| - 2); }
  }

  lemma FormChars(f: Form, want: nat)
    requires WellFormed(f, want) && want > 0
    ensures IsAddressText(Text(f)) && '.' !in Text(f)
    ensures f.Full? ==> Text(f)[|Text(f)| - 1] != ':'
    ensures f.Gapped? && f.rest != [] ==> Text(f)[|Text(f)| - 1] != ':'
    ensures Text(f)[0] != '['
  {
    match f
    case Full(gs) => JoinedPieces(gs);
    case Gapped(head, rest) =>
      JoinedPieces(head);
      JoinedPieces(rest);
  }

  lemma JoinOfFour(a: string, b: string, c: string, d: string)
    ensures Join([a, b, c, d], '.') == a + ['.'] + (b + ['.'] + (c + ['.'] + d))
  {
    var l4, l3, l2, l1 := [a, b, c, d], [b, c, d], [c, d], [d];
    assert l4[1..] == l3 && l3[1..] == l2 && l2[1..] == l1;
    assert Join(l1, '.') == d;
    assert Join(l2, '.') == c + ['.'] + d;
    assert Join(l3, '.') == b + ['.'] + Join(l2, '.');
    assert Join(l4, '.') == a + ['.'] + Join(l3, '.');
  }

  lemma DecimalChars(n: byte)
    ensures IsAddressText(Decimal(n)) && ':' !in Decimal(n)
  {
    OctetPrints(n);
    assert forall k :: 0 <= k < |Decimal(n)| ==> IsAddressChar(Decimal(n)[k]);
  }

  lemma QuadChars(q: seq<byte>)
    requires |q| == 4
    ensures IsAddressText(QuadText(q)) && ':' !in QuadText(q) && '.' in QuadText(q)
  {
    hide Decimal, Join, OctetOf;
    var ds := Decimals(q);
    forall i | 0 <= i < 4 ensures IsAddressText(ds[i]) && ':' !in ds[i] {
      DecimalChars(q[i]);
    }
    JoinOfFour(ds[0], ds[1], ds[2], ds[3]);
    assert ds == [ds[0], ds[1], ds[2], ds[3]];
  }

  // ----- the whole address

  /** Without brackets, the parser returns the value of every printed address. */
  lemma PrintedIsParsed(a: Address)
    requires Valid(a)
    ensures Ipv6Of(Printed(a)) == Some(Value(a))
  {
    var s := Printed(a);
    match a
    case Plain(f) =>
      FormChars(f, 8);
      AssembleForm(f, []);
      assert ':' in s by { EightGroupsHaveColon(f); }
      assert Value(a) + [] == Value(a);
    case WithQuad(f, q) => QuadIsParsed(f, q);
  }

  lemma EightGroupsHaveColon(f: Form)
    requires WellFormed(f, 8)
    ensures ':' in Text(f)
  {
    match f
    case Full(gs) => assert Text(f)[|gs[0]|] == ':';
    case Gapped(head, rest) => assert Text(f)[|Join(head, ':')|] == ':';
  }

  lemma QuadIsParsed(f: Form, q: seq<byte>)
    requires |q| == 4 && WellFormed(f, 6)
    ensures Ipv6Of(Printed(WithQuad(f, q))) == Some(Denoted(f, 6) + QuadGroups(q))
  {
    AssembleForm(f, QuadGroups(q));
    SplitsAtQuad(f, q);
  }

  /** A form as it stands in front of a quad. */
  function FrontText(f: Form): string {
    Text(f) + if f.Gapped? && f.rest == [] then "" else ":"
  }

  lemma FrontOfForm(f: Form)
    requires WellFormed(f, 6)
    ensures FrontText(f) != "" && FrontText(f)[|FrontText(f)| - 1] == ':' && Front(FrontText(f)) == Text(f)
    ensures FrontText(f)[0] != '[' && IsAddressText(FrontText(f))
  {
    FormChars(f, 6);
    var t, front := Text(f), FrontText(f);
    if f.Gapped? && f.rest == [] {
      assert EndsWith(t, "::") && front == t;
    } else {
      assert front[|front| - 2] != ':';
      assert front[..|front| - 1] == t;
    }
  }

  /** The parser on a text with a quad: split after the last colon, then assemble. */
  lemma ParseAtQuad(s: string, front: string, d: string, q: seq<byte>)
    requires s == front + d && front != "" && front[|front| - 1] == ':' && front[0] != '['
    requires ':' !in d && '.' in d && IsAddressText(front) && IsAddressText(d)
    requires |q| == 4 && Ipv4Of(d) == Some(q)
    ensures Ipv6Of(s) == Assemble(Front(front), QuadGroups(q))
  {
    hide Assemble, Front, Ipv4Of, QuadGroups, IsAddressChar, LastIndexOf;
    LastIndexOfIs(s, ':', |front| - 1);
    assert s[|front|..] == d && s[..|front|] == front;
    assert IsAddressText(s);
    assert StripBrackets(s) == s;
    assert '.' in s;
  }

  lemma PrintedWithQuad(f: Form, q: seq<byte>)
    ensures Printed(WithQuad(f, q)) == FrontText(f) + QuadText(q)
  {
    hide Text, QuadText;
  }

  lemma SplitsAtQuad(f: Form, q: seq<byte>)
    requires |q| == 4 && WellFormed(f, 6)
    requires Assemble(Text(f), QuadGroups(q)) == Some(Denoted(f, 6) + QuadGroups(q))
    ensures Ipv6Of(Printed(WithQuad(f, q))) == Some(Denoted(f, 6) + QuadGroups(q))
  {
    hide *;
    var d, front := QuadText(q), FrontText(f);
    QuadChars(q);
    Ipv4Exact(d, q);
    FrontOfForm(f);
    PrintedWithQuad(f, q);
    ParseAtQuad(front + d, front, d, q);
  }

  /** Brackets around an address change nothing. */
  lemma BracketsAreStripped(s: string)
    requires s != "" && s[0] != '['
    ensures Ipv6Of("[" + s + "]") == Ipv6Of(s)
  {
    hide Assemble, Ipv4Of, LastIndexOf, IsAddressText, QuadGroups, Front;
    var b := "[" + s + "]";
    assert b[1..|b| - 1] == s;
    assert StripBrackets(b) == s && StripBrackets(s) == s;
  }

  /** Parsing any printed form of any eight groups, bracketed or not, returns them. */
  lemma EveryFormIsParsed(a: Address)
    requires Valid(a)
    ensures Ipv6Of(Printed(a)) == Some(Value(a))
    ensures Ipv6Of("[" + Printed(a) + "]") == Some(Value(a))
    ensures |Value(a)| == 8
  {
    PrintedIsParsed(a);
    FormChars(a.form, if a.Plain? then 8 else 6);
    BracketsAreStripped(Printed(a));
  }

  /** The two branches of an accepting run. */
  lemma AcceptedParts(input: string) returns (s: string, colon: nat, q: seq<byte>)
    requires Ipv6Of(input).Some?
    ensures s == StripBrackets(input) && colon < |s| && s[colon] == ':'
    ensures '.' !in s ==> Ipv6Of(input) == Assemble(s, [])
    ensures '.' in s ==>
      && |q| == 4 && Ipv4Of(s[colon + 1..]) == Some(q)
      && Ipv6Of(input) == Assemble(Front(s[..colon + 1]), QuadGroups(q))
  {
    hide Assemble, Ipv4Of, LastIndexOf, IsAddressText, QuadGroups, Front, StripBrackets;
    s := StripBrackets(input);
    colon := LastIndexOf(s, ':').value;
    q := [];
    if '.' in s { q := Ipv4Of(s[colon + 1..]).value; }
  }

  lemma Brackets(input: string)
    ensures var s := StripBrackets(input); s == input || "[" + s + "]" == input
  {
  }

  /** Every accepted string is a printed address, bracketed or not, and the result is its value. */
  lemma OnlyFormsAreParsed(input: string) returns (a: Address)
    requires Ipv6Of(input).Some?
    ensures Valid(a) && Value(a) == Ipv6Of(input).value
    ensures input == Printed(a) || input == "[" + Printed(a) + "]"
  {
    Brackets(input);
    var s, colon, q := AcceptedParts(input);
    hide Ipv6Of, Assemble, Ipv4Of, QuadGroups, QuadText, Front, StripBrackets, Text, WellFormed, Denoted, EndsWith;
    if '.' in s {
      Ipv4Exact(s[colon + 1..], q);
      var f := AssembledForm(Front(s[..colon + 1]), QuadGroups(q));
      AssembleForm(f, QuadGroups(q));
      a := WithQuad(f, q);
      QuadReprinted(s, colon, f, q);
    } else {
      var f := AssembledForm(s, []);
      AssembleForm(f, []);
      a := Plain(f);
      assert Value(a) + [] == Value(a);
    }
  }

  lemma QuadReprinted(s: string, colon: nat, f: Form, q: seq<byte>)
    requires colon < |s| && s[colon] == ':' && |q| == 4
    requires s[colon + 1..] == QuadText(q) && Text(f) == Front(s[..colon + 1])
    requires f.Gapped? ==> (EndsWith(Text(f), "::") <==> f.rest == [])
    requires f.Full? ==> !EndsWith(Text(f), "::")
    ensures Printed(WithQuad(f, q)) == s
  {
    hide Text, QuadText;
    var front := s[..colon + 1];
    assert s == front + QuadText(q);
    if EndsWith(front, "::") {
      assert FrontText(f) == front;
    } else {
      assert front == Front(front) + ":";
      assert FrontText(f) == front;
    }
    PrintedWithQuad(f, q);
  }

  /** The parser is exact: accepted strings are the text forms, and the result is what they denote. */
  lemma Ipv6Exact(input: string, g: seq<group>)
    ensures Ipv6Of(input) == Some(g) <==>
      exists a :: Valid(a) && Value(a) == g && (input == Printed(a) || input == "[" + Printed(a) + "]")
  {
    if Ipv6Of(input) == Some(g) {
      var a := OnlyFormsAreParsed(input);
    }
    forall a | Valid(a) && Value(a) == g && (input == Printed(a) || input == "[" + Printed(a) + "]")
      ensures Ipv6Of(input) == Some(g)
    {
      EveryFormIsParsed(a);
    }
  }
}
