/** What an encrypted DIDComm envelope is made of, over abstract primitives (src/ecdh-1pu.js, src/jwk.js, src/aes.js). */
module Envelope {
  import opened Wrappers
  import opened JsNumber
  import opened Bytes
  import opened ConcatKdf
  import A = A256CbcHs512

  const ALG_AUTHCRYPT := "ECDH-1PU+A256KW"
  const ALG_ANONCRYPT := "ECDH-ES+A256KW"
  const ENC := "A256CBC-HS512"
  const TYP := "application/didcomm-encrypted+json"

  const BYTE_ORDER_MARK := '\U{FEFF}'

  datatype Curve = X25519 | P256 | OtherCurve

  /** Raw key bytes with their curve; the private scalar where there is one. */
  datatype Jwk = Jwk(crv: Curve, publicKey: bytes, privateKey: Option<bytes>)

  /** A protected header; an absent string is empty. */
  datatype Header = Header(typ: string, alg: string, enc: string, apu: string, apv: string, skid: string, epk: Option<Jwk>)

  datatype Recipient = Recipient(kid: string, encryptedKey: string)

  datatype Jwe = Jwe(protected: string, recipients: seq<Recipient>, iv: string, ciphertext: string, tag: string)

  /** A message: an object with its `from` if that is a string, or any other JSON value. */
  datatype Json = Object(from: Option<string>, rest: string) | OtherJson(text: string)

  datatype Codec<!T> = Codec(text: T -> string, parse: string -> Option<T>)

  datatype Suite = Suite(
    hash: Hash,
    aead: A.Primitives,
    publicKey: (Curve, bytes) -> bytes,
    dh: (Curve, bytes, bytes) -> Option<bytes>,
    esKek: (Curve, bytes, bytes, bytes, bytes) -> Option<bytes>,
    wrap: (bytes, bytes) -> bytes,
    unwrap: (bytes, bytes) -> Option<bytes>,
    utf8: string -> bytes,
    utf8Decode: bytes -> string,
    jwe: Codec<Jwe>,
    header: Codec<Header>,
    message: Codec<Json>)

  /** AES-KW takes whole 8-byte blocks, at least two. */
  predicate IsWrappable(cek: bytes) {
    |cek| >= 16 && |cek| % 8 == 0
  }

  /** Diffie-Hellman is symmetric in the two key pairs and gives 32 bytes, or nothing. */
  ghost predicate DhLaw(s: Suite) {
    && (forall c, a, b :: s.dh(c, a, s.publicKey(c, b)) == s.dh(c, b, s.publicKey(c, a)))
    && (forall c, a, p :: s.dh(c, a, p).Some? ==> |s.dh(c, a, p).value| == 32)
  }

  /** AES-KW unwraps exactly what it wraps under that key, adding one block. */
  ghost predicate WrapLaw(s: Suite) {
    && (forall k, w, c :: s.unwrap(k, w) == Some(c) <==> IsWrappable(c) && w == s.wrap(k, c))
    && (forall k, c :: |s.wrap(k, c)| == |c| + 8)
  }

  /** UTF-8 decodes what it encodes, except that a decoder drops a leading byte order mark. */
  ghost predicate Utf8Law(s: Suite) {
    && (forall t :: s.utf8Decode(s.utf8(t)) == WithoutMark(t))
    && (forall t :: |t| <= |s.utf8(t)| <= 4 * |t|)
  }

  function WithoutMark(t: string): string {
    if t != "" && t[0] == BYTE_ORDER_MARK then t[1..] else t
  }

  /** JSON objects are read back from their text, which starts with a brace. */
  ghost predicate JsonLaw(s: Suite) {
    && (forall x :: s.jwe.parse(s.jwe.text(x)) == Some(x))
    && (forall x :: s.header.parse(s.header.text(x)) == Some(x) && StartsObject(s.header.text(x)))
    && (forall x: Json :: x.Object? ==> s.message.parse(s.message.text(x)) == Some(x) && StartsObject(s.message.text(x)))
  }

  predicate StartsObject(t: string) {
    t != "" && t[0] == '{'
  }

  ghost predicate Lawful(s: Suite) {
    DhLaw(s) && WrapLaw(s) && Utf8Law(s) && JsonLaw(s) && A.Lawful(s.aead)
  }

  datatype Error =
    | MissingKey | UnsupportedCurve | CurveMismatch | BadKey
    | Kdf(kdf: KdfError) | Aead(aead: A.AeadError)
    | NotJson | NoRecipients | BadBase64 | BadHeader
    | UnsupportedAlg | UnsupportedEnc | MissingEpk | MissingSkid | MissingSender
    | NoEntry | NoEncryptedKey | ApuMismatch | BadWrap
    | PlaintextNotJson | NotAnObject
    | SenderMismatch(senderDid: string, claimedFrom: Option<string>)

  // ----- the key that wraps the content key

  function KekInfo(s: Suite, apu: bytes, apv: bytes, tag: bytes): Info {
    Info(s.utf8(ALG_AUTHCRYPT), apu, apv, 256, Some(tag))
  }

  /** Ze || Zs through the KDF. */
  function Kek(s: Suite, ze: Option<bytes>, zs: Option<bytes>, i: Info, legacy: bool): Result<bytes, Error> {
    match ze
    case None => Err(BadKey)
    case Some(e) =>
      match zs
      case None => Err(BadKey)
      case Some(z) =>
        match Key(s.hash, e + z, i, legacy)
        case Err(error) => Err(Kdf(error))
        case Ok(kek) => Ok(kek)
  }

  function SenderKek(s: Suite, crv: Curve, ephemeral: bytes, sender: bytes, recipientPublic: bytes, i: Info): Result<bytes, Error> {
    Kek(s, s.dh(crv, ephemeral, recipientPublic), s.dh(crv, sender, recipientPublic), i, false)
  }

  function RecipientKek(s: Suite, crv: Curve, recipient: bytes, epk: bytes, senderPublic: bytes, i: Info, legacy: bool): Result<bytes, Error> {
    Kek(s, s.dh(crv, recipient, epk), s.dh(crv, recipient, senderPublic), i, legacy)
  }

  /** Sender and recipient derive the same key from opposite halves of their pairs. */
  lemma KeksAgree(s: Suite, crv: Curve, ephemeral: bytes, sender: bytes, recipient: bytes, i: Info)
    requires DhLaw(s)
    ensures SenderKek(s, crv, ephemeral, sender, s.publicKey(crv, recipient), i)
         == RecipientKek(s, crv, recipient, s.publicKey(crv, ephemeral), s.publicKey(crv, sender), i, false)
  {
    hide Kek;
  }

  /** A number in four bytes, most significant first. */
  function BigEndian(n: nat): bytes
    requires n < 0x1_0000_0000
  {
    [n / 0x100_0000, n / 0x1_0000 % 0x100, n / 0x100 % 0x100, n % 0x100]
  }

  /** A field of OtherInfo (section 4.6.2 of RFC 7518): its length, then its bytes. */
  function Field(b: bytes): bytes
    requires |b| < 0x1_0000_0000
  {
    BigEndian(|b|) + b
  }

  /** What is hashed into the wrapping key: the counter, Ze, Zs, the algorithm, both party infos, 256, and the tag. */
  function KekInput(s: Suite, ze: bytes, zs: bytes, apu: bytes, apv: bytes, tag: bytes, legacy: bool): bytes
    requires |s.utf8("ECDH-1PU+A256KW")| < 0x1_0000_0000 && |apu| < 0x1_0000_0000 && |apv| < 0x1_0000_0000
    requires legacy || |tag| < 0x1_0000_0000
  {
    BigEndian(1) + ((ze + zs) + (Field(s.utf8("ECDH-1PU+A256KW")) + (Field(apu) + (Field(apv)
      + (BigEndian(256) + if legacy then tag else Field(tag))))))
  }

  /** The wrapping key is the SHA-256 of exactly that; the unprefixed form differs in the tag's length alone. */
  lemma KekIsHash(s: Suite, ze: bytes, zs: bytes, apu: bytes, apv: bytes, tag: bytes, legacy: bool, k: bytes)
    requires Utf8Law(s)
    ensures Kek(s, Some(ze), Some(zs), KekInfo(s, apu, apv, tag), legacy) == Ok(k) <==>
      && |s.utf8("ECDH-1PU+A256KW")| < 0x1_0000_0000 && |apu| < 0x1_0000_0000 && |apv| < 0x1_0000_0000
      && (legacy || |tag| < 0x1_0000_0000)
      && k == s.hash(KekInput(s, ze, zs, apu, apv, tag, legacy))
  {
    var i := KekInfo(s, apu, apv, tag);
    if Fits(i, legacy) {
      KekIsOneBlock(s.hash, ze + zs, i, legacy);
      OtherInfoParts(i, legacy);
      Uint32IsBigEndian(1);
      Uint32IsBigEndian(256);
      Uint32IsBigEndian(|i.alg|);
      Uint32IsBigEndian(|apu|);
      Uint32IsBigEndian(|apv|);
      if !legacy { Uint32IsBigEndian(|tag|); }
    }
    hide Uint32, OtherInfo, KeyStream;
  }

  method DeriveKek(s: Suite, ze: Option<bytes>, zs: Option<bytes>, i: Info, legacy: bool) returns (r: Result<array<byte>, Error>)
    ensures r.Ok? ==> fresh(r.value) && Kek(s, ze, zs, i, legacy) == Ok(r.value[..])
    ensures r.Err? ==> Kek(s, ze, zs, i, legacy) == Err(r.error)
  {
    hide Key;
    if ze.None? || zs.None? { return Err(BadKey); }
    var z := Concatenate([ze.value, zs.value]);
    assert Concat([ze.value, zs.value]) == ze.value + zs.value by { ConcatTwo(ze.value, zs.value); }
    var key := DeriveKey(s.hash, z[..], i, legacy);
    if key.Err? { return Err(Kdf(key.error)); }
    var kek := Copy(key.value);
    return Ok(kek);
  }

  lemma ConcatTwo(a: bytes, b: bytes)
    ensures Concat([a, b]) == a + b
  {
    assert [a, b][1..] == [b] && [b][1..] == [];
    assert Concat([b]) == b + [] == b;
  }
}
