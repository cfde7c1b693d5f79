/** Authcrypt pack as a function of its randomness (src/pack.js). */
module Pack {
  import opened Wrappers
  import opened JsNumber
  import opened Bytes
  import opened Envelope
  import opened ConcatKdf
  import A = A256CbcHs512
  import B64 = Base64Url
  import DidScid

  /** A key id and its key; an empty id or a missing key is none. */
  datatype Party = Party(kid: string, jwk: Option<Jwk>)

  /** The ephemeral scalar, the content key and the iv. */
  datatype Randomness = Randomness(ephemeral: bytes, cek: bytes, iv: bytes)

  predicate Sized(r: Randomness) {
    |r.cek| == A.CEK_BYTES && |r.iv| == A.IV_BYTES
  }

  /** The `skid`: a bare key of a did:scid `from` gains the source of that `from`. */
  function SenderKid(kid: string, from: Option<string>): string {
    match from
    case None => kid
    case Some(f) =>
      match DidScid.ScidSrc(f)
      case None => kid
      case Some(src) =>
        if DidScid.ScidIdentity(kid) != DidScid.ScidIdentity(f) then kid else DidScid.WithScidSrc(kid, src)
  }

  /** The source never changes whose key it is. */
  lemma SenderKidKeepsIdentity(kid: string, from: Option<string>)
    ensures DidScid.ScidIdentity(SenderKid(kid, from)) == DidScid.ScidIdentity(kid)
  {
    if from.Some? && DidScid.ScidSrc(from.value).Some? && DidScid.IsBare(kid) {
      hide DidScid.ScidIdentity, DidScid.WithScidSrc, DidScid.SplitQuery;
      var b, src, f := DidScid.Stripped(from.value);
      DidScid.IdentityUnderSource(kid, src);
    } else {
      hide DidScid.ScidIdentity, DidScid.ScidSrc;
    }
  }

  /** A bare key of the did:scid that `from` names gains the source of `from`; any other key id stays as it is. */
  lemma SenderKidExactly(kid: string, from: string)
    ensures SenderKid(kid, None) == kid
    ensures var skid := SenderKid(kid, Some(from));
      if DidScid.ScidSrc(from).Some? && DidScid.IsBare(kid) && DidScid.ScidIdentity(kid) == DidScid.ScidIdentity(from)
      then DidScid.ScidSrc(skid) == DidScid.ScidSrc(from) && DidScid.StripScidSrc(skid) == kid
      else skid == kid
  {
    if DidScid.ScidSrc(from).Some? && DidScid.IsBare(kid) {
      var b, src, f := DidScid.Stripped(from);
      DidScid.SrcRoundTrip(kid, src);
    }
    hide DidScid.ScidIdentity, DidScid.StripScidSrc, DidScid.SplitQuery, DidScid.IsSource;
  }

  /** A key id does not change its first character by gaining a source. */
  lemma SenderKidStart(kid: string, from: Option<string>)
    requires kid != ""
    ensures var skid := SenderKid(kid, from); skid != "" && skid[0] == kid[0]
  {
    hide DidScid.ScidIdentity, DidScid.ScidSrc;
    if DidScid.IsBare(kid) { assert kid[0] == DidScid.PREFIX[0] != '#'; }
  }

  function FromOf(message: Json): Option<string> {
    if message.Object? then message.from else None
  }

  /** The checks before anything is generated: the curve, the scalar and the recipient's point. */
  function Keys(sender: Party, recipient: Party): Result<(Curve, bytes, bytes), Error> {
    if sender.kid == "" || sender.jwk.None? then Err(MissingKey)
    else if recipient.kid == "" || recipient.jwk.None? then Err(MissingKey)
    else
      var crv := recipient.jwk.value.crv;
      if crv == OtherCurve then Err(UnsupportedCurve)
      else if sender.jwk.value.crv != crv then Err(CurveMismatch)
      else
        match sender.jwk.value.privateKey
        case None => Err(BadKey)
        case Some(scalar) => Ok((crv, scalar, recipient.jwk.value.publicKey))
  }

  function HeaderOf(s: Suite, crv: Curve, skid: string, apu: bytes, apv: bytes, ephemeral: bytes): Header {
    Header(TYP, ALG_AUTHCRYPT, ENC, B64.Encoded(apu), B64.Encoded(apv), skid, Some(Jwk(crv, s.publicKey(crv, ephemeral), None)))
  }

  /** Encrypt first, then derive the wrapping key from the tag, then wrap. */
  function Sealed(s: Suite, keys: (Curve, bytes, bytes), header: Header, apu: bytes, apv: bytes,
                  plaintext: bytes, kid: string, r: Randomness): Result<Jwe, Error> {
    var protected := B64.Encoded(s.utf8(s.header.text(header)));
    match A.Encrypted(s.aead, r.cek, r.iv, s.utf8(protected), plaintext)
    case Err(e) => Err(Aead(e))
    case Ok((ciphertext, tag)) =>
      match SenderKek(s, keys.0, r.ephemeral, keys.1, keys.2, KekInfo(s, apu, apv, tag))
      case Err(e) => Err(e)
      case Ok(kek) =>
        Ok(Jwe(protected, [Recipient(kid, B64.Encoded(s.wrap(kek, r.cek)))],
               B64.Encoded(r.iv), B64.Encoded(ciphertext), B64.Encoded(tag)))
  }

  function Packed(s: Suite, message: Json, sender: Party, recipient: Party, r: Randomness): Result<string, Error> {
    match Keys(sender, recipient)
    case Err(e) => Err(e)
    case Ok(keys) =>
      var skid := SenderKid(sender.kid, FromOf(message));
      var apu, apv := s.utf8(skid), s.hash(s.utf8(recipient.kid));
      match Sealed(s, keys, HeaderOf(s, keys.0, skid, apu, apv, r.ephemeral), apu, apv,
                   s.utf8(s.message.text(message)), recipient.kid, r)
      case Err(e) => Err(e)
      case Ok(jwe) => Ok(s.jwe.text(jwe))
  }

  /** Exactly when there is an envelope: ids and keys, one supported curve, sizes, and both shared secrets. */
  lemma PacksExactly(s: Suite, message: Json, sender: Party, recipient: Party, r: Randomness)
    requires Utf8Law(s)
    ensures Packed(s, message, sender, recipient, r).Ok? <==>
      && sender.kid != "" && recipient.kid != "" && sender.jwk.Some? && recipient.jwk.Some?
      && (recipient.jwk.value.crv == X25519 || recipient.jwk.value.crv == P256) && sender.jwk.value.crv == recipient.jwk.value.crv
      && sender.jwk.value.privateKey.Some? && |r.cek| == 64 && |r.iv| == 16
      && s.dh(recipient.jwk.value.crv, r.ephemeral, recipient.jwk.value.publicKey).Some?
      && s.dh(recipient.jwk.value.crv, sender.jwk.value.privateKey.value, recipient.jwk.value.publicKey).Some?
      && |s.utf8(SenderKid(sender.kid, FromOf(message)))| < 0x1_0000_0000
  {
    hide SenderKid, B64.Encoded, Kek, A.Tag, Utf8Law;
    if Keys(sender, recipient).Ok? {
      var keys := Keys(sender, recipient).value;
      var skid := SenderKid(sender.kid, FromOf(message));
      var apu, apv := s.utf8(skid), s.hash(s.utf8(recipient.kid));
      SealsWhen(s, keys, HeaderOf(s, keys.0, skid, apu, apv, r.ephemeral), apu, apv, s.utf8(s.message.text(message)), recipient.kid, r);
    }
    hide Sealed, HeaderOf;
  }

  lemma SealsWhen(s: Suite, keys: (Curve, bytes, bytes), header: Header, apu: bytes, apv: Digest,
                  plaintext: bytes, kid: string, r: Randomness)
    requires Utf8Law(s)
    ensures Sealed(s, keys, header, apu, apv, plaintext, kid, r).Ok? <==>
      && |r.cek| == 64 && |r.iv| == 16
      && s.dh(keys.0, r.ephemeral, keys.2).Some? && s.dh(keys.0, keys.1, keys.2).Some?
      && |apu| < 0x1_0000_0000
  {
    hide B64.Encoded, Kek, A.Tag, KekInfo;
    var protected := B64.Encoded(s.utf8(s.header.text(header)));
    var sealed := A.Encrypted(s.aead, r.cek, r.iv, s.utf8(protected), plaintext);
    if sealed.Ok? {
      KekWhen(s, s.dh(keys.0, r.ephemeral, keys.2), s.dh(keys.0, keys.1, keys.2), apu, apv, sealed.value.1);
    }
  }

  lemma KekWhen(s: Suite, ze: Option<bytes>, zs: Option<bytes>, apu: bytes, apv: bytes, tag: bytes)
    requires Utf8Law(s) && |apv| < 0x1_0000_0000 && |tag| < 0x1_0000_0000
    ensures Kek(s, ze, zs, KekInfo(s, apu, apv, tag), false).Ok? <==>
      ze.Some? && zs.Some? && |apu| < 0x1_0000_0000
  {
    hide OtherInfo, KeyStream;
  }

  /** Encrypt, derive, wrap; both key buffers are zero once an envelope is returned. */
  method PackMessage(s: Suite, message: Json, sender: Party, recipient: Party, ephemeral: bytes, cek: array<byte>, iv: bytes)
      returns (r: Result<string, Error>, kek: Option<array<byte>>)
    modifies cek
    ensures r == Packed(s, message, sender, recipient, Randomness(ephemeral, old(cek[..]), iv))
    ensures r.Ok? ==> IsWiped(cek) && kek.Some? && IsWiped(kek.value)
  {
    hide SenderKid, B64.Encoded, A.Encrypted, KekInfo, Kek;
    if sender.kid == "" || sender.jwk.None? || recipient.kid == "" || recipient.jwk.None? { return Err(MissingKey), None; }
    var crv := recipient.jwk.value.crv;
    if crv == OtherCurve { return Err(UnsupportedCurve), None; }
    if sender.jwk.value.crv != crv { return Err(CurveMismatch), None; }
    if sender.jwk.value.privateKey.None? { return Err(BadKey), None; }
    var scalar, point := sender.jwk.value.privateKey.value, recipient.jwk.value.publicKey;
    var skid := SenderKid(sender.kid, FromOf(message));
    var apu, apv := s.utf8(skid), s.hash(s.utf8(recipient.kid));
    var header := HeaderOf(s, crv, skid, apu, apv, ephemeral);
    var protected := B64.Encoded(s.utf8(s.header.text(header)));
    var sealed := A.Encrypt(s.aead, cek[..], iv, s.utf8(protected), s.utf8(s.message.text(message)));
    if sealed.Err? { return Err(Aead(sealed.error)), None; }
    var (ciphertext, tag) := sealed.value;
    var ze, zs := s.dh(crv, ephemeral, point), s.dh(crv, scalar, point);
    var derived := DeriveKek(s, ze, zs, KekInfo(s, apu, apv, tag), false);
    if derived.Err? { return Err(derived.error), None; }
    var encryptedKey := s.wrap(derived.value[..], cek[..]);
    var jwe := Jwe(protected, [Recipient(recipient.kid, B64.Encoded(encryptedKey))],
                   B64.Encoded(iv), B64.Encoded(ciphertext), B64.Encoded(tag));
    Wipe(cek);
    Wipe(derived.value);
    return Ok(s.jwe.text(jwe)), Some(derived.value);
  }
}
