/** base64url without padding, section 5 of RFC 4648 (src/base64url.js). */
module Base64Url {
  import opened Wrappers
  import opened JsNumber
  import P = Positional

  const B64_CHARS := "ABCDEFGHIJKLM" + "NOPQRSTUVWXYZ" + "abcdefghijklm" + "nopqrstuvwxyz" + "0123456789" + "-_"

  type sextet = x: int | 0 <= x < 64

  function CharOf(d: sextet): (c: char)
    ensures |B64_CHARS| == 64 && c == B64_CHARS[d]
  {
    if d < 26 then 'A' + d as char
    else if d < 52 then 'a' + (d - 26) as char
    else if d < 62 then '0' + (d - 52) as char
    else if d == 62 then '-'
    else '_'
  }

  /** `B64_LOOKUP[c]`. */
  function ValueOf(c: char): Option<sextet> {
    if 'A' <= c <= 'Z' then Some(c as int - 'A' as int)
    else if 'a' <= c <= 'z' then Some(c as int - 'a' as int + 26)
    else if '0' <= c <= '9' then Some(c as int - '0' as int + 52)
    else if c == '-' then Some(62)
    else if c == '_' then Some(63)
    else None
  }

  lemma LookupInvertsAlphabet(d: sextet, c: char)
    ensures ValueOf(CharOf(d)) == Some(d)
    ensures ValueOf(c).Some? ==> CharOf(ValueOf(c).value) == c
  {
  }

  // ----- the bit stream read as sextets or as bytes

  /** Sextet r of three bytes. */
  function SextetOf(x: byte, y: byte, z: byte, r: nat): sextet {
    if r == 0 then x / 4
    else if r == 1 then x % 4 * 16 + y / 16
    else if r == 2 then y % 16 * 4 + z / 64
    else z % 64
  }

  /** Byte r of a group of sextets lies across sextets r and r + 1. */
  function Join(x: int, y: int, r: nat): byte
    requires 0 <= x < 64 && 0 <= y < 64
  {
    if r == 0 then x * 4 + y / 16
    else if r == 1 then x % 16 * 16 + y / 4
    else x % 4 * 64 + y
  }

  /** The bytes' bits in sixes, zero-extended at the end. */
  function Sextets(b: seq<byte>): seq<sextet> {
    if |b| == 0 then []
    else if |b| == 1 then [SextetOf(b[0], 0, 0, 0), SextetOf(b[0], 0, 0, 1)]
    else if |b| == 2 then [SextetOf(b[0], b[1], 0, 0), SextetOf(b[0], b[1], 0, 1), SextetOf(b[0], b[1], 0, 2)]
    else Group(b[0], b[1], b[2]) + Sextets(b[3..])
  }

  function Group(x: byte, y: byte, z: byte): seq<sextet> {
    [SextetOf(x, y, z, 0), SextetOf(x, y, z, 1), SextetOf(x, y, z, 2), SextetOf(x, y, z, 3)]
  }

  /** The sextets' bits in eights; bits short of a byte are dropped. */
  function Bytes(v: seq<sextet>): seq<byte> {
    if |v| <= 1 then []
    else if |v| == 2 then [Join(v[0], v[1], 0)]
    else if |v| == 3 then [Join(v[0], v[1], 0), Join(v[1], v[2], 1)]
    else [Join(v[0], v[1], 0), Join(v[1], v[2], 1), Join(v[2], v[3], 2)] + Bytes(v[4..])
  }

  lemma {:induction false} Lengths(b: seq<byte>, v: seq<sextet>)
    ensures |Sextets(b)| % 4 != 1
    ensures |Bytes(v)| == 3 * |v| / 4
    decreases |b| + |v|
  {
    if |b| >= 3 { Lengths(b[3..], v); }
    else if |v| >= 4 { Lengths(b, v[4..]); }
  }

  lemma GroupInverse(x: byte, y: byte, z: byte)
    ensures Join(SextetOf(x, y, z, 0), SextetOf(x, y, z, 1), 0) == x
    ensures Join(SextetOf(x, y, z, 1), SextetOf(x, y, z, 2), 1) == y
    ensures Join(SextetOf(x, y, z, 2), SextetOf(x, y, z, 3), 2) == z
  {
  }

  /** Reading bytes as sextets and back loses nothing. */
  lemma {:induction false} BytesOfSextets(b: seq<byte>)
    ensures Bytes(Sextets(b)) == b
  {
    hide Join, SextetOf;
    if |b| == 1 {
      GroupInverse(b[0], 0, 0);
    } else if |b| == 2 {
      GroupInverse(b[0], b[1], 0);
    } else if |b| >= 3 {
      GroupInverse(b[0], b[1], b[2]);
      BytesOfSextets(b[3..]);
      assert Sextets(b)[4..] == Sextets(b[3..]);
      assert b == [b[0], b[1], b[2]] + b[3..];
    }
  }

  /** The bits of the last character that no byte uses are zero. */
  predicate TailClear(v: seq<sextet>) {
    && (|v| % 4 == 2 ==> v[|v| - 1] % 16 == 0)
    && (|v| % 4 == 3 ==> v[|v| - 1] % 4 == 0)
  }

  /** Splitting two adjacent joined bytes gives back the sextet between them. */
  lemma JoinParts(x: sextet, y: sextet)
    ensures Join(x, y, 0) / 4 == x && Join(x, y, 0) % 4 == y / 16
    ensures Join(x, y, 1) / 16 == x % 16 && Join(x, y, 1) % 16 == y / 4
    ensures Join(x, y, 2) / 64 == x % 4 && Join(x, y, 2) % 64 == y
  {
    P.DivModUnique(x, y / 16, 4);
    P.DivModUnique(x % 16, y / 4, 16);
    P.DivModUnique(x % 4, y, 64);
  }

  /** Sextets of a group read back from its bytes; a missing byte counts as zero. */
  lemma SextetGroupInverse(x: sextet, y: sextet, z: sextet, w: sextet)
    ensures SextetOf(Join(x, y, 0), 0, 0, 0) == x
    ensures SextetOf(Join(x, y, 0), 0, 0, 1) == y <==> y % 16 == 0
    ensures SextetOf(Join(x, y, 0), Join(y, z, 1), 0, 0) == x
    ensures SextetOf(Join(x, y, 0), Join(y, z, 1), 0, 1) == y
    ensures SextetOf(Join(x, y, 0), Join(y, z, 1), 0, 2) == z <==> z % 4 == 0
    ensures SextetOf(Join(x, y, 0), Join(y, z, 1), Join(z, w, 2), 0) == x
    ensures SextetOf(Join(x, y, 0), Join(y, z, 1), Join(z, w, 2), 1) == y
    ensures SextetOf(Join(x, y, 0), Join(y, z, 1), Join(z, w, 2), 2) == z
    ensures SextetOf(Join(x, y, 0), Join(y, z, 1), Join(z, w, 2), 3) == w
  {
    JoinParts(x, y);
    JoinParts(y, z);
    JoinParts(z, w);
    hide Join;
  }

  lemma FullGroupBack(v: seq<sextet>)
    requires |v| >= 4
    ensures Sextets(Bytes(v)) == v[..4] + Sextets(Bytes(v[4..]))
  {
    hide Join, SextetOf;
    var x, y, z, w := v[0], v[1], v[2], v[3];
    SextetGroupInverse(x, y, z, w);
    assert v[..4] == [x, y, z, w] == Group(Join(x, y, 0), Join(y, z, 1), Join(z, w, 2));
    SextetsInFront(Join(x, y, 0), Join(y, z, 1), Join(z, w, 2), Bytes(v[4..]));
  }

  lemma SextetsInFront(a: byte, b: byte, c: byte, rest: seq<byte>)
    ensures Sextets([a, b, c] + rest) == Group(a, b, c) + Sextets(rest)
  {
    hide Group;
    assert ([a, b, c] + rest)[3..] == rest;
  }

  lemma ShortGroupBack(v: seq<sextet>)
    requires |v| == 2 || |v| == 3
    ensures |Sextets(Bytes(v))| == |v|
    ensures Sextets(Bytes(v)) == v <==> TailClear(v)
  {
    hide Join, SextetOf;
    var s := Sextets(Bytes(v));
    SextetGroupInverse(v[0], v[1], if |v| == 3 then v[2] else 0, 0);
    if |v| == 2 {
      assert s == v <==> s[0] == v[0] && s[1] == v[1];
    } else {
      assert s == v <==> s[0] == v[0] && s[1] == v[1] && s[2] == v[2];
    }
  }

  /** Reading sextets as bytes and back loses exactly the unused bits of the last one. */
  lemma {:induction false} SextetsOfBytes(v: seq<sextet>)
    requires |v| % 4 != 1
    ensures |Sextets(Bytes(v))| == |v|
    ensures Sextets(Bytes(v)) == v <==> TailClear(v)
  {
    if |v| == 2 || |v| == 3 {
      ShortGroupBack(v);
    } else if |v| >= 4 {
      SextetsOfBytes(v[4..]);
      FullGroupBack(v);
      TailOfRest(v);
      hide *;
      ConcatCancels(v[..4], Sextets(Bytes(v[4..])), v[4..]);
      assert v == v[..4] + v[4..];
    }
  }

  lemma TailOfRest(v: seq<sextet>)
    requires |v| >= 4
    ensures |v[4..]| % 4 == |v| % 4 && (TailClear(v) <==> TailClear(v[4..]))
  {
    assert |v| > 4 ==> v[4..][|v| - 5] == v[|v| - 1];
  }

  lemma ConcatCancels(g: seq<sextet>, u: seq<sextet>, v: seq<sextet>)
    ensures g + u == g + v <==> u == v
  {
    assert (g + u)[|g|..] == u && (g + v)[|g|..] == v;
  }

  /** The byte, if any, that one more sextet completes. */
  function Completed(v: seq<sextet>, x: sextet): seq<byte> {
    if |v| % 4 == 0 then [] else [Join(v[|v| - 1], x, |v| % 4 - 1)]
  }

  /** One more sextet completes at most one more byte. */
  lemma {:induction false} BytesGrow(v: seq<sextet>, x: sextet)
    ensures Bytes(v + [x]) == Bytes(v) + Completed(v, x)
  {
    hide *;
    if |v| >= 4 {
      var t, g := v[4..], Bytes(v[..4]);
      BytesGrow(t, x);
      GroupInFront(v);
      GroupInFront(v + [x]);
      CompletedByRest(v, x);
      assert (v + [x])[4..] == t + [x] && (v + [x])[..4] == v[..4];
      assert g + (Bytes(t) + Completed(t, x)) == (g + Bytes(t)) + Completed(t, x);
    } else {
      ShortGrow(v, x);
    }
  }

  lemma CompletedByRest(v: seq<sextet>, x: sextet)
    requires |v| >= 4
    ensures Completed(v, x) == Completed(v[4..], x)
  {
    hide Join;
    assert |v| > 4 ==> v[4..][|v| - 5] == v[|v| - 1];
  }

  lemma BytesOfShort(x: sextet, y: sextet, z: sextet, w: sextet)
    ensures Bytes([]) == [] && Bytes([x]) == []
    ensures Bytes([x, y]) == [Join(x, y, 0)]
    ensures Bytes([x, y, z]) == [Join(x, y, 0), Join(y, z, 1)]
    ensures Bytes([x, y, z, w]) == [Join(x, y, 0), Join(y, z, 1), Join(z, w, 2)]
  {
    hide Join;
    assert [x, y, z, w][4..] == [];
  }

  lemma ShortGrow(v: seq<sextet>, x: sextet)
    requires |v| < 4
    ensures Bytes(v + [x]) == Bytes(v) + Completed(v, x)
  {
    hide *;
    if |v| == 0 {
      GrowAfter(x, x, x, x);
      assert v + [x] == [x] && v == [];
    } else if |v| == 1 {
      GrowAfter(v[0], x, x, x);
      assert v + [x] == [v[0], x] && v == [v[0]];
    } else if |v| == 2 {
      GrowAfter(v[0], v[1], x, x);
      assert v + [x] == [v[0], v[1], x] && v == [v[0], v[1]];
    } else {
      GrowAfter(v[0], v[1], v[2], x);
      assert v + [x] == [v[0], v[1], v[2], x] && v == [v[0], v[1], v[2]];
    }
  }

  lemma GrowAfter(x: sextet, y: sextet, z: sextet, w: sextet)
    ensures Bytes([x]) == Bytes([]) + Completed([], x)
    ensures Bytes([x, y]) == Bytes([x]) + Completed([x], y)
    ensures Bytes([x, y, z]) == Bytes([x, y]) + Completed([x, y], z)
    ensures Bytes([x, y, z, w]) == Bytes([x, y, z]) + Completed([x, y, z], w)
  {
    hide Join;
    BytesOfShort(x, y, z, w);
  }

  lemma GroupInFront(v: seq<sextet>)
    requires |v| >= 4
    ensures Bytes(v) == Bytes(v[..4]) + Bytes(v[4..])
  {
    hide Join;
    BytesOfShort(v[0], v[1], v[2], v[3]);
    assert v[..4] == [v[0], v[1], v[2], v[3]];
  }

  // ----- text

  function Text(v: seq<sextet>): (s: string)
    ensures |s| == |v| && forall i :: 0 <= i < |s| ==> s[i] == CharOf(v[i])
  {
    seq(|v|, i requires 0 <= i < |v| => CharOf(v[i]))
  }

  function Encoded(b: seq<byte>): string {
    Text(Sextets(b))
  }

  predicate InAlphabet(s: string) {
    forall i :: 0 <= i < |s| ==> ValueOf(s[i]).Some?
  }

  function Values(s: string): (v: seq<sextet>)
    requires InAlphabet(s)
    ensures |v| == |s| && forall i :: 0 <= i < |s| ==> v[i] == ValueOf(s[i]).value
  {
    seq(|s|, i requires 0 <= i < |s| => ValueOf(s[i]).value)
  }

  function UrlChar(c: char): char {
    if c == '+' then '-' else if c == '/' then '_' else c
  }

  function UrlChars(s: string): (r: string)
    ensures |r| == |s| && forall i :: 0 <= i < |s| ==> r[i] == UrlChar(s[i])
  {
    seq(|s|, i requires 0 <= i < |s| => UrlChar(s[i]))
  }

  function StripPadding(s: string): string {
    if s != "" && s[|s| - 1] == '=' then StripPadding(s[..|s| - 1]) else s
  }

  /** The two `replace` calls, then trailing padding dropped. */
  function Normalised(s: string): string {
    StripPadding(UrlChars(s))
  }

  /** Normalising drops exactly the trailing `=` and replaces `+` by `-` and `/` by `_`. */
  lemma NormalisedExactly(s: string, t: string)
    ensures Normalised(s) == t <==>
      && |t| <= |s| && (t == "" || t[|t| - 1] != '=')
      && (forall i :: |t| <= i < |s| ==> s[i] == '=')
      && (forall i :: 0 <= i < |t| ==> t[i] == if s[i] == '+' then '-' else if s[i] == '/' then '_' else s[i])
  {
    PaddingStripped(UrlChars(s));
    var n := Normalised(s);
    hide StripPadding;
    if |t| <= |s| && (t == "" || t[|t| - 1] != '=') && (forall i :: |t| <= i < |s| ==> s[i] == '=')
       && (forall i :: 0 <= i < |t| ==> t[i] == UrlChar(s[i])) {
      if |t| < |n| { assert n[|n| - 1] == UrlChar(s[|n| - 1]); }
    }
  }

  lemma {:induction false} PaddingStripped(s: string)
    ensures var t := StripPadding(s);
      t <= s && (t == "" || t[|t| - 1] != '=') && forall i :: |t| <= i < |s| ==> s[i] == '='
  {
    if s != "" && s[|s| - 1] == '=' { PaddingStripped(s[..|s| - 1]); }
  }

  datatype DecodeError = BadLength | BadChar(at: nat)

  /** What `decode` accepts and returns. */
  function Decoded(s: string): Option<seq<byte>> {
    var norm := Normalised(s);
    if |norm| % 4 == 1 || !InAlphabet(norm) then None else Some(Bytes(Values(norm)))
  }

  lemma TextIsNormal(v: seq<sextet>)
    ensures Normalised(Text(v)) == Text(v) && InAlphabet(Text(v)) && Values(Text(v)) == v
  {
    forall i | 0 <= i < |v| ensures ValueOf(Text(v)[i]) == Some(v[i]) {
      LookupInvertsAlphabet(v[i], 'a');
    }
    assert UrlChars(Text(v)) == Text(v);
  }

  /** decode(encode(b)) is b for every byte string. */
  lemma DecodeEncode(b: seq<byte>)
    ensures Decoded(Encoded(b)) == Some(b)
  {
    TextIsNormal(Sextets(b));
    BytesOfSextets(b);
    Lengths(b, []);
  }

  /** encode(decode(s)) is the normalised s exactly when the last character's unused bits are zero. */
  lemma EncodeDecode(s: string)
    requires Decoded(s).Some?
    ensures Encoded(Decoded(s).value) == Normalised(s) <==> TailClear(Values(Normalised(s)))
  {
    var norm := Normalised(s);
    var v := Values(norm);
    SextetsOfBytes(v);
    var w := Sextets(Bytes(v));
    forall i | 0 <= i < |v| ensures Text(w)[i] == norm[i] <==> w[i] == v[i] {
      LookupInvertsAlphabet(w[i], norm[i]);
    }
    if Text(w) == norm {
      assert forall i :: 0 <= i < |v| ==> Text(w)[i] == norm[i];
      assert w == v;
    }
  }

  // ----- the loops of the source

  /** `B64_CHARS[(n >> k) & 0x3f]`. */
  function Pick(n: int, k: nat): char {
    SixBits(n, k);
    B64_CHARS[LowBits(Shr(n, k), 6)]
  }

  lemma SixBits(n: int, k: nat)
    ensures |B64_CHARS| == 64 && 0 <= LowBits(Shr(n, k), 6) < 64
  {
    assert Pow2(6) == 64;
  }

  lemma PickIs(n: int, d: sextet, k: nat)
    requires 0 <= n < 0x100_0000
    requires k == 18 ==> d == n / 0x4_0000 % 64
    requires k == 12 ==> d == n / 0x1000 % 64
    requires k == 6 ==> d == n / 64 % 64
    requires k == 0 ==> d == n % 64
    ensures (k == 18 || k == 12 || k == 6 || k == 0) ==> Pick(n, k) == CharOf(d)
  {
    assert Pow2(6) == 64 && Pow2(12) == 0x1000 && Pow2(18) == 0x4_0000 && Pow2(0) == 1;
    assert k == 18 || k == 12 || k == 6 || k == 0 ==> Shr(n, k) % 64 == d by { hide Pow2; }
    hide LowBits, Pow2, Shr;
    SixBits(n, k);
    LowBitsAre(Shr(n, k));
  }

  /** `(a << 16) | (b << 8) | c`. */
  function Word(a: byte, b: byte, c: byte): (n: int)
    ensures n == a * 0x1_0000 + b * 0x100 + c
  {
    ShlByte(a);
    ShlByte(b);
    ShlByte(c);
    HighPart(Shl(a, 16), Shl(b, 8));
    OrLow(OrLow(Shl(a, 16), Shl(b, 8), 16), c, 8)
  }

  lemma HighPart(x: int, y: int)
    requires x % 0x1_0000 == 0 && y % 0x100 == 0
    ensures (x + y) % Pow2(8) == 0
  {
    assert Pow2(8) == 0x100;
  }

  lemma WordParts(a: int, b: int, c: int)
    requires 0 <= a < 256 && 0 <= b < 256 && 0 <= c < 256
    ensures var n := a * 0x1_0000 + b * 0x100 + c;
      && 0 <= n < 0x100_0000
      && n / 0x4_0000 % 64 == a / 4
      && n / 0x1000 % 64 == a % 4 * 16 + b / 16
      && n / 64 % 64 == b % 16 * 4 + c / 64
      && n % 64 == c % 64
  {
    P.DivModUnique(a / 4, a % 4 * 0x1_0000 + b * 0x100 + c, 0x4_0000);
    P.DivModUnique(0, a / 4, 64);
    P.DivModUnique(a * 16 + b / 16, b % 16 * 0x100 + c, 0x1000);
    P.DivModUnique(a / 4, a % 4 * 16 + b / 16, 64);
    P.DivModUnique(a * 1024 + b * 4 + c / 64, c % 64, 64);
    P.DivModUnique(a * 16 + b / 16, b % 16 * 4 + c / 64, 64);
  }

  /** The four characters picked from the word of a group. */
  lemma GroupChars(x: byte, y: byte, z: byte)
    ensures var w := Word(x, y, z);
      && [Pick(w, 18), Pick(w, 12), Pick(w, 6), Pick(w, 0)] == Text(Group(x, y, z))
      && [Pick(w, 18), Pick(w, 12), Pick(w, 6)] == Text(Group(x, y, z)[..3])
      && [Pick(w, 18), Pick(w, 12)] == Text(Group(x, y, z)[..2])
  {
    hide Word, Pick, CharOf;
    WordParts(x, y, z);
    var w := Word(x, y, z);
    PickIs(w, SextetOf(x, y, z, 0), 18);
    PickIs(w, SextetOf(x, y, z, 1), 12);
    PickIs(w, SextetOf(x, y, z, 2), 6);
    PickIs(w, SextetOf(x, y, z, 3), 0);
    hide SextetOf;
  }

  lemma TextConcat(u: seq<sextet>, v: seq<sextet>)
    ensures Text(u + v) == Text(u) + Text(v)
  {
  }

  /** What is left to encode, one group or tail at a time. */
  lemma EncodedParts(arr: seq<byte>, i: nat)
    requires i <= |arr|
    ensures i + 2 < |arr| ==> Encoded(arr[i..]) == Text(Group(arr[i], arr[i + 1], arr[i + 2])) + Encoded(arr[i + 3..])
    ensures |arr| - i == 2 ==> Encoded(arr[i..]) == Text(Group(arr[i], arr[i + 1], 0)[..3])
    ensures |arr| - i == 1 ==> Encoded(arr[i..]) == Text(Group(arr[i], 0, 0)[..2])
    ensures |arr| - i == 0 ==> Encoded(arr[i..]) == ""
  {
    hide SextetOf;
    if i + 2 < |arr| {
      assert arr[i..][3..] == arr[i + 3..];
      TextConcat(Group(arr[i], arr[i + 1], arr[i + 2]), Sextets(arr[i + 3..]));
    }
  }

  method Encode(arr: seq<byte>) returns (out: string)
    ensures out == Encoded(arr)
  {
    hide *;
    out := "";
    var i := 0;
    assert arr[0..] == arr;
    while i + 2 < |arr|
      invariant i <= |arr| && out + Encoded(arr[i..]) == Encoded(arr)
    {
      GroupChars(arr[i], arr[i + 1], arr[i + 2]);
      EncodedParts(arr, i);
      var n := Word(arr[i], arr[i + 1], arr[i + 2]);
      out := out + [Pick(n, 18), Pick(n, 12), Pick(n, 6), Pick(n, 0)];
      i := i + 3;
    }
    EncodedParts(arr, i);
    var rem := |arr| - i;
    if rem == 1 {
      GroupChars(arr[i], 0, 0);
      var n := Word(arr[i], 0, 0);
      out := out + [Pick(n, 18), Pick(n, 12)];
    } else if rem == 2 {
      GroupChars(arr[i], arr[i + 1], 0);
      var n := Word(arr[i], arr[i + 1], 0);
      out := out + [Pick(n, 18), Pick(n, 12), Pick(n, 6)];
    }
  }

  /** How many bits of the accumulator are pending after i characters. */
  function Pending(i: nat): nat {
    if i % 4 == 0 then 0 else if i % 4 == 1 then 6 else if i % 4 == 2 then 4 else 2
  }

  lemma WrapKeepsLowBits(x: int)
    ensures exists k :: ToInt32(x) == x + k * 0x1_0000_0000
  {
    var q := x / 0x1_0000_0000;
    assert x == q * 0x1_0000_0000 + x % 0x1_0000_0000;
    assert ToInt32(x) == x + (-q) * 0x1_0000_0000 || ToInt32(x) == x + (-q - 1) * 0x1_0000_0000;
  }

  /** Only the low twelve bits of the accumulator matter, so its int32 wrap-around never shows. */
  lemma LowTwelve(n: int, m: int, k: int, v: int)
    requires 0 <= v < 64 && m == n + k * 0x400_0000
    ensures (64 * m + v) % 4096 == n % 64 * 64 + v && (64 * m + v) % 64 == v
  {
    P.DivModUnique(n / 64 + k * 0x10_0000, n % 64, 64);
    P.DivModUnique(m, v, 64);
    P.DivModUnique(m / 64, 64 * (m % 64) + v, 4096);
  }

  /** `(n << 6) | x`. */
  function NextWord(n: int, x: sextet): (w: int)
    requires -0x8000_0000 <= n < 0x8000_0000
    ensures -0x8000_0000 <= w < 0x8000_0000
    ensures w % 4096 == n % 64 * 64 + x && w % 64 == x
  {
    assert Pow2(6) == 64;
    WrapKeepsLowBits(n * 64);
    var k :| ToInt32(n * 64) == n * 64 + k * 0x1_0000_0000;
    var m := n + k * 0x400_0000;
    assert Shl(n, 6) == 64 * m;
    LowTwelve(n, m, k, x);
    OrLow(Shl(n, 6), x, 6)
  }

  /** `(n >> bits) & 0xff`. */
  function EmitByte(n: int, bits: nat): byte {
    assert Pow2(8) == 256;
    LowBits(Shr(n, bits), 8)
  }

  lemma SplitWord(n: int, unit: int, g: int)
    requires unit > 0 && g > 0 && g * unit == 16
    ensures n / unit % 256 == n % 4096 / unit % 256
  {
    var t, m := n / 4096, n % 4096;
    P.DivModOf(m, unit);
    assert t * 4096 == (t * g * 256) * unit by { assert t * (g * unit) * 256 == (t * g * 256) * unit; }
    P.DivModUnique(t * g * 256 + m / unit, m % unit, unit);
    P.DivModOf(m / unit, 256);
    P.DivModUnique(t * g + m / unit / 256, m / unit % 256, 256);
  }

  /** Byte r of a group sits 4, 2 or 0 bits above the end of the word of its two sextets. */
  lemma JoinIsByteOfWord(x: int, y: int, r: nat)
    requires 0 <= x < 64 && 0 <= y < 64 && r < 3
    ensures (x * 64 + y) / (if r == 0 then 16 else if r == 1 then 4 else 1) % 256 == Join(x, y, r)
  {
    if r == 0 {
      P.DivModUnique(x * 4 + y / 16, y % 16, 16);
    } else if r == 1 {
      P.DivModUnique(x * 16 + y / 4, y % 4, 4);
      P.DivModUnique(x / 16, x % 16 * 16 + y / 4, 256);
    } else {
      P.DivModUnique(x / 4, x % 4 * 64 + y, 256);
    }
  }

  lemma ByteOfWord(w: int, x: int, y: int, r: nat)
    requires 0 <= x < 64 && 0 <= y < 64 && r < 3 && w % 4096 == x * 64 + y
    ensures w / (if r == 0 then 16 else if r == 1 then 4 else 1) % 256 == Join(x, y, r)
  {
    hide Join;
    JoinIsByteOfWord(x, y, r);
    if r == 0 {
      SplitWord(w, 16, 1);
    } else if r == 1 {
      SplitWord(w, 4, 4);
    } else {
      SplitWord(w, 1, 16);
    }
  }

  lemma Accumulate(n: int, prev: int, x: sextet, bits: nat, i: nat)
    requires -0x8000_0000 <= n < 0x8000_0000 && 0 <= prev < 64 && n % 64 == prev
    requires i % 4 != 0 && bits == Pending(i)
    ensures bits - 2 == Pending(i + 1) && EmitByte(NextWord(n, x), bits - 2) == Join(prev, x, i % 4 - 1)
  {
    hide NextWord, Join, EmitByte;
    var w, r := NextWord(n, x), i % 4 - 1;
    assert bits - 2 == (if r == 0 then 4 else if r == 1 then 2 else 0) && bits - 2 == Pending(i + 1);
    hide Pending;
    EmitByteIs(w, bits - 2);
    ByteOfWord(w, prev, x, r);
  }

  lemma EmitByteIs(w: int, bits: nat)
    requires -0x8000_0000 <= w < 0x8000_0000 && (bits == 4 || bits == 2 || bits == 0)
    ensures EmitByte(w, bits) == w / (if bits == 4 then 16 else if bits == 2 then 4 else 1) % 256
  {
    assert Pow2(4) == 16 && Pow2(2) == 4 && Pow2(0) == 1;
    hide LowBits, Pow2;
    LowBitsAre(Shr(w, bits));
  }

  /** Feeding one sextet emits exactly the byte it completes. */
  lemma Feed(v: seq<sextet>, x: sextet, n: int, bits: nat)
    requires -0x8000_0000 <= n < 0x8000_0000 && bits == Pending(|v|) && (v != [] ==> n % 64 == v[|v| - 1])
    ensures (v + [x])[|v|] == x
    ensures bits + 6 < 8 ==> bits + 6 == Pending(|v| + 1) && Bytes(v + [x]) == Bytes(v)
    ensures bits + 6 >= 8 ==> bits - 2 == Pending(|v| + 1) && Bytes(v + [x]) == Bytes(v) + [EmitByte(NextWord(n, x), bits - 2)]
  {
    hide NextWord, EmitByte, Join, Bytes;
    BytesGrow(v, x);
    if |v| % 4 != 0 {
      Accumulate(n, v[|v| - 1], x, bits, |v|);
    }
  }

  /** The buffer of floor(3L/4) bytes has room for every byte a prefix completes. */
  lemma Room(v: seq<sextet>, n: nat)
    requires |v| <= n
    ensures |Bytes(v)| <= n * 3 / 4
    ensures |v| == n ==> |Bytes(v)| == n * 3 / 4
  {
    Lengths([], v);
  }

  /** `decode`: the bit accumulator, filling exactly floor(3L/4) bytes. */
  method Decode(s: string) returns (r: Result<seq<byte>, DecodeError>)
    ensures r.Ok? <==> Decoded(s).Some?
    ensures r.Ok? ==> r.value == Decoded(s).value
    ensures r.Err? ==> (r.error.BadLength? <==> |Normalised(s)| % 4 == 1)
    ensures r.Err? && r.error.BadChar? ==>
      r.error.at < |Normalised(s)| && ValueOf(Normalised(s)[r.error.at]).None? && InAlphabet(Normalised(s)[..r.error.at])
  {
    var norm := Normalised(s);
    if |norm| % 4 == 1 {
      return Err(BadLength);
    }
    r := DecodeChars(norm);
  }

  /** The loop of `decode` over the normalised text. */
  method DecodeChars(norm: string) returns (r: Result<seq<byte>, DecodeError>)
    ensures r.Ok? <==> InAlphabet(norm)
    ensures r.Ok? ==> r.value == Bytes(Values(norm))
    ensures r.Err? ==> r.error.BadChar? && r.error.at < |norm|
    ensures r.Err? ==> ValueOf(norm[r.error.at]).None? && InAlphabet(norm[..r.error.at])
  {
    hide *;
    var out := new byte[|norm| * 3 / 4](_ => 0);
    var outIdx := 0;
    var n := 0;
    var bits := 0;
    ghost var v: seq<sextet> := [];
    Start(norm);
    for i := 0 to |norm|
      invariant |v| == i && InAlphabet(norm[..i]) && v == Values(norm[..i])
      invariant bits == Pending(i) && -0x8000_0000 <= n < 0x8000_0000
      invariant v != [] ==> n % 64 == v[|v| - 1]
      invariant outIdx == |Bytes(v)| <= out.Length && out[..outIdx] == Bytes(v)
    {
      var x := ValueOf(norm[i]);
      if x.None? {
        WholeString(norm);
        return Err(BadChar(i));
      }
      NextChar(norm, i);
      Feed(v, x.value, n, bits);
      Room(v + [x.value], |norm|);
      n := NextWord(n, x.value);
      bits := bits + 6;
      if bits >= 8 {
        bits := bits - 8;
        out[outIdx] := EmitByte(n, bits);
        outIdx := outIdx + 1;
        assert out[..outIdx] == Bytes(v) + [out[outIdx - 1]];
      }
      v := v + [x.value];
    }
    WholeString(norm);
    return Ok(out[..outIdx]);
  }

  lemma Start(s: string)
    ensures InAlphabet(s[..0]) && Values(s[..0]) == [] && |Bytes([])| == 0 && Pending(0) == 0
  {
  }

  lemma WholeString(s: string)
    ensures s[..|s|] == s
    ensures forall i :: 0 <= i < |s| && ValueOf(s[i]).None? ==> !InAlphabet(s)
  {
  }

  lemma NextChar(s: string, i: nat)
    requires i < |s| && InAlphabet(s[..i]) && ValueOf(s[i]).Some?
    ensures InAlphabet(s[..i + 1]) && Values(s[..i + 1]) == Values(s[..i]) + [ValueOf(s[i]).value]
  {
    assert s[..i + 1] == s[..i] + [s[i]];
  }
}
