/** The laws assumed of the primitives can all hold at once: a toy suite that meets them. */
module Consistency {
  import opened Wrappers
  import opened JsNumber
  import opened Bytes
  import opened Envelope
  import opened ConcatKdf
  import A = A256CbcHs512
  import P = Positional

  function ZeroBytes(n: nat): (z: bytes)
    ensures z == P.Zeros(n)
  {
    P.Zeros(n)
  }

  // ----- an injective text for lists of strings

  function Unary(n: nat): string {
    if n == 0 then "0" else "1" + Unary(n - 1)
  }

  lemma {:induction false} UnaryReads(n: nat, m: nat, u: string, v: string)
    requires Unary(n) + u == Unary(m) + v
    ensures n == m && u == v
  {
    var x, y := Unary(n) + u, Unary(m) + v;
    assert x[0] == Unary(n)[0] && y[0] == Unary(m)[0];
    assert x[1..] == Unary(n)[1..] + u && y[1..] == Unary(m)[1..] + v;
    if n > 0 && m > 0 {
      UnaryReads(n - 1, m - 1, u, v);
    } else {
      assert n == m == 0;
      assert "0"[1..] + u == u && "0"[1..] + v == v;
    }
  }

  function ListText(ss: seq<string>): string {
    if ss == [] then "" else Unary(|ss[0]|) + (ss[0] + ListText(ss[1..]))
  }

  lemma {:induction false} ListReads(ss: seq<string>, tt: seq<string>)
    requires ListText(ss) == ListText(tt)
    ensures ss == tt
  {
    if ss != [] && tt != [] {
      var u, v := ss[0] + ListText(ss[1..]), tt[0] + ListText(tt[1..]);
      UnaryReads(|ss[0]|, |tt[0]|, u, v);
      assert u[..|ss[0]|] == ss[0] && v[..|tt[0]|] == tt[0];
      assert u[|ss[0]|..] == ListText(ss[1..]) && v[|tt[0]|..] == ListText(tt[1..]);
      ListReads(ss[1..], tt[1..]);
      assert ss == [ss[0]] + ss[1..] && tt == [tt[0]] + tt[1..];
    }
  }

  function Object(ss: seq<string>): (t: string)
    ensures StartsObject(t)
  {
    "{" + ListText(ss)
  }

  lemma ObjectReads(ss: seq<string>, tt: seq<string>)
    requires Object(ss) == Object(tt)
    ensures ss == tt
  {
    assert Object(ss)[1..] == ListText(ss) && Object(tt)[1..] == ListText(tt);
    ListReads(ss, tt);
  }

  // ----- texts of the three kinds of JSON value

  function RecipientFields(rs: seq<Recipient>): (ss: seq<string>)
    ensures |ss| == 2 * |rs| && forall i :: 0 <= i < |rs| ==> ss[2 * i] == rs[i].kid && ss[2 * i + 1] == rs[i].encryptedKey
  {
    seq(2 * |rs|, k requires 0 <= k < 2 * |rs| => if k % 2 == 0 then rs[k / 2].kid else rs[k / 2].encryptedKey)
  }

  function JweText(x: Jwe): string {
    Object([x.protected, x.iv, x.ciphertext, x.tag] + RecipientFields(x.recipients))
  }

  lemma JweReads(x: Jwe, y: Jwe)
    requires JweText(x) == JweText(y)
    ensures x == y
  {
    var ss, tt := [x.protected, x.iv, x.ciphertext, x.tag] + RecipientFields(x.recipients), [y.protected, y.iv, y.ciphertext, y.tag] + RecipientFields(y.recipients);
    ObjectReads(ss, tt);
    assert ss[0] == tt[0] && ss[1] == tt[1] && ss[2] == tt[2] && ss[3] == tt[3];
    assert ss[4..] == RecipientFields(x.recipients) && tt[4..] == RecipientFields(y.recipients);
    forall i | 0 <= i < |x.recipients| ensures x.recipients[i] == y.recipients[i] {
      assert RecipientFields(x.recipients)[2 * i] == RecipientFields(y.recipients)[2 * i];
      assert RecipientFields(x.recipients)[2 * i + 1] == RecipientFields(y.recipients)[2 * i + 1];
    }
    assert x.recipients == y.recipients;
  }

  function BytesText(b: bytes): (t: string)
    ensures |t| == |b| && forall i :: 0 <= i < |b| ==> t[i] as int == b[i]
  {
    seq(|b|, i requires 0 <= i < |b| => b[i] as char)
  }

  lemma BytesRead(a: bytes, b: bytes)
    requires BytesText(a) == BytesText(b)
    ensures a == b
  {
    forall i | 0 <= i < |a| ensures a[i] == b[i] { assert BytesText(a)[i] == BytesText(b)[i]; }
  }

  function CurveText(c: Curve): string {
    match c case X25519 => "X" case P256 => "P" case OtherCurve => "O"
  }

  function JwkFields(k: Jwk): seq<string> {
    [CurveText(k.crv), BytesText(k.publicKey)] + if k.privateKey.Some? then [BytesText(k.privateKey.value)] else []
  }

  function HeaderText(h: Header): string {
    Object([h.typ, h.alg, h.enc, h.apu, h.apv, h.skid] + if h.epk.Some? then JwkFields(h.epk.value) else [])
  }

  lemma JwkReads(x: Jwk, y: Jwk)
    requires JwkFields(x) == JwkFields(y)
    ensures x == y
  {
    var ss, tt := JwkFields(x), JwkFields(y);
    assert ss[0] == tt[0] && ss[1] == tt[1];
    BytesRead(x.publicKey, y.publicKey);
    assert CurveText(x.crv)[0] == CurveText(y.crv)[0];
    if x.privateKey.Some? {
      assert ss[2] == tt[2];
      BytesRead(x.privateKey.value, y.privateKey.value);
    }
  }

  lemma HeaderReads(x: Header, y: Header)
    requires HeaderText(x) == HeaderText(y)
    ensures x == y
  {
    var e, f := if x.epk.Some? then JwkFields(x.epk.value) else [], if y.epk.Some? then JwkFields(y.epk.value) else [];
    var ss, tt := [x.typ, x.alg, x.enc, x.apu, x.apv, x.skid] + e, [y.typ, y.alg, y.enc, y.apu, y.apv, y.skid] + f;
    ObjectReads(ss, tt);
    assert ss[0] == tt[0] && ss[1] == tt[1] && ss[2] == tt[2] && ss[3] == tt[3] && ss[4] == tt[4] && ss[5] == tt[5];
    assert ss[6..] == e && tt[6..] == f;
    if x.epk.Some? && y.epk.Some? { JwkReads(x.epk.value, y.epk.value); }
  }

  function JsonText(x: Json): string {
    match x
    case Object(from, rest) => Object([rest] + if from.Some? then [from.value] else [])
    case OtherJson(t) => "0"
  }

  lemma JsonReads(x: Json, y: Json)
    requires x.Object? && JsonText(x) == JsonText(y)
    ensures x == y
  {
    if y.Object? {
      var ss, tt := [x.rest] + (if x.from.Some? then [x.from.value] else []), [y.rest] + (if y.from.Some? then [y.from.value] else []);
      ObjectReads(ss, tt);
      assert ss[0] == tt[0];
      if x.from.Some? { assert ss[1] == tt[1]; }
    }
  }

  // ----- three bytes a character

  function Utf8(t: string): (b: bytes)
    ensures |b| == 3 * |t|
  {
    if t == "" then []
    else
      var c := t[0] as int;
      [c / 0x1_0000, c / 0x100 % 0x100, c % 0x100] + Utf8(t[1..])
  }

  lemma {:induction false} Utf8Reads(s: string, t: string)
    requires Utf8(s) == Utf8(t)
    ensures s == t
  {
    if s != "" {
      var a, b := Utf8(s), Utf8(t);
      assert a[0] == b[0] && a[1] == b[1] && a[2] == b[2];
      SameCode(s[0] as int, t[0] as int);
      assert a[3..] == Utf8(s[1..]) && b[3..] == Utf8(t[1..]);
      Utf8Reads(s[1..], t[1..]);
      assert s == [s[0]] + s[1..] && t == [t[0]] + t[1..];
    }
  }

  lemma SameCode(c: nat, d: nat)
    requires c / 0x1_0000 == d / 0x1_0000 && c / 0x100 % 0x100 == d / 0x100 % 0x100 && c % 0x100 == d % 0x100
    ensures c == d
  {
    P.DivModOf(c, 0x100);
    P.DivModOf(d, 0x100);
    P.DivModOf(c / 0x100, 0x100);
    P.DivModOf(d / 0x100, 0x100);
    assert c / 0x100 / 0x100 == c / 0x1_0000 && d / 0x100 / 0x100 == d / 0x1_0000;
  }

  // ----- the inverses, by choice

  ghost function Utf8Inverse(b: bytes): string {
    if exists t :: Utf8(t) == b then
      var t :| Utf8(t) == b;
      WithoutMark(t)
    else ""
  }

  ghost function JweInverse(t: string): Option<Jwe> {
    if exists x :: JweText(x) == t then
      var x :| JweText(x) == t;
      Some(x)
    else None
  }

  ghost function HeaderInverse(t: string): Option<Header> {
    if exists x :: HeaderText(x) == t then
      var x :| HeaderText(x) == t;
      Some(x)
    else None
  }

  ghost function JsonInverse(t: string): Option<Json> {
    if exists x :: JsonText(x) == t then
      var x :| JsonText(x) == t;
      Some(x)
    else None
  }

  function Unwrap(w: bytes): Option<bytes> {
    if |w| >= 24 && |w| % 8 == 0 && w[|w| - 8..] == ZeroBytes(8) then Some(w[..|w| - 8]) else None
  }

  ghost function Toy(): Suite {
    Suite(
      x => ZeroBytes(32),
      A.Primitives((k, iv, m) => m, (k, iv, m) => Some(m), (k, m) => ZeroBytes(64)),
      (c, k) => k,
      (c, k, p) => Some(ZeroBytes(32)),
      (c, a, b, d, e) => None,
      (k, c) => c + ZeroBytes(8),
      (k, w) => Unwrap(w),
      t => Utf8(t),
      b => Utf8Inverse(b),
      Codec(x => JweText(x), t => JweInverse(t)),
      Codec(x => HeaderText(x), t => HeaderInverse(t)),
      Codec(x => JsonText(x), t => JsonInverse(t)))
  }

  lemma ToyWraps(w: bytes, c: bytes)
    ensures Unwrap(w) == Some(c) <==> IsWrappable(c) && w == c + ZeroBytes(8)
  {
    if |w| >= 8 { assert w == w[..|w| - 8] + w[|w| - 8..]; }
    var v := c + ZeroBytes(8);
    assert v[|v| - 8..] == ZeroBytes(8) && v[..|v| - 8] == c;
  }

  lemma ToyUtf8(t: string)
    ensures Utf8Inverse(Utf8(t)) == WithoutMark(t)
  {
    forall u | Utf8(u) == Utf8(t) ensures u == t { Utf8Reads(u, t); }
  }

  lemma ToyJwe(x: Jwe)
    ensures JweInverse(JweText(x)) == Some(x)
  {
    hide JweText;
    forall y | JweText(y) == JweText(x) ensures y == x { JweReads(y, x); }
  }

  lemma ToyHeader(x: Header)
    ensures HeaderInverse(HeaderText(x)) == Some(x)
  {
    hide HeaderText;
    forall y | HeaderText(y) == HeaderText(x) ensures y == x { HeaderReads(y, x); }
  }

  lemma ToyJson(x: Json)
    requires x.Object?
    ensures JsonInverse(JsonText(x)) == Some(x)
  {
    hide JsonText;
    forall y | JsonText(y) == JsonText(x) ensures y == x { JsonReads(x, y); }
  }

  lemma ToyKeys()
    ensures DhLaw(Toy()) && WrapLaw(Toy()) && A.Lawful(Toy().aead)
  {
    hide Unwrap, Utf8, Utf8Inverse, JweText, JweInverse, HeaderText, HeaderInverse, JsonText, JsonInverse;
    forall w, c ensures Unwrap(w) == Some(c) <==> IsWrappable(c) && w == c + ZeroBytes(8) { ToyWraps(w, c); }
  }

  lemma ToyTexts()
    ensures Utf8Law(Toy()) && JsonLaw(Toy())
  {
    hide Unwrap, Utf8, Utf8Inverse, JweInverse, HeaderInverse, JsonInverse, StartsObject, ListText, JweText;
    forall t ensures Utf8Inverse(Utf8(t)) == WithoutMark(t) { ToyUtf8(t); }
    forall x ensures JweInverse(JweText(x)) == Some(x) { ToyJwe(x); }
    forall x ensures HeaderInverse(HeaderText(x)) == Some(x) { ToyHeader(x); }
    forall x: Json | x.Object? ensures JsonInverse(JsonText(x)) == Some(x) { ToyJson(x); }
  }

  /** Some suite meets every law the envelope lemmas assume. */
  lemma LawsAreConsistent()
    ensures exists s: Suite :: Lawful(s)
  {
    hide Toy, DhLaw, WrapLaw, Utf8Law, JsonLaw, A.Lawful;
    ToyKeys();
    ToyTexts();
    assert Lawful(Toy());
  }
}
