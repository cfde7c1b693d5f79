/** What pack and unpack promise together (src/pack.js, src/unpack.js, src/ecdh-1pu.js). */
module Authcrypt {
  import opened Wrappers
  import opened JsNumber
  import opened Bytes
  import opened Envelope
  import opened ConcatKdf
  import opened Pack
  import opened Unpack
  import A = A256CbcHs512
  import B64 = Base64Url
  import DidScid

  // ----- unpack undoes pack

  /** One end-to-end exchange: who sends what to whom, with which keys. */
  datatype Exchange = Exchange(crv: Curve, message: Json, senderKid: string, senderPrivate: bytes,
                               recipientKid: string, recipientPrivate: bytes, randomness: Randomness)

  function SenderOf(s: Suite, x: Exchange): Jwk {
    Jwk(x.crv, s.publicKey(x.crv, x.senderPrivate), Some(x.senderPrivate))
  }

  function RecipientOf(s: Suite, x: Exchange): Jwk {
    Jwk(x.crv, s.publicKey(x.crv, x.recipientPrivate), Some(x.recipientPrivate))
  }

  function Sent(s: Suite, x: Exchange): Result<string, Error> {
    Packed(s, x.message, Party(x.senderKid, Some(SenderOf(s, x))), Party(x.recipientKid, Some(RecipientOf(s, x))), x.randomness)
  }

  function Skid(x: Exchange): string {
    SenderKid(x.senderKid, FromOf(x.message))
  }

  /** What the recipient gets: the message, if its `from` has no fragment and is a DID with the identity of the sender's key. */
  function Expected(x: Exchange): Result<Opened, Error> {
    var did, from := DidScid.ScidIdentity(x.senderKid), FromOf(x.message);
    if x.senderKid != "" && x.senderKid[0] == BYTE_ORDER_MARK then Err(ApuMismatch)
    else if from.Some? && '#' !in from.value && DidScid.ScidIdentity(from.value) == did && "did:" <= did then
      Ok(Opened(x.message, Some(Skid(x)), Some(did), true, false))
    else Err(SenderMismatch(did, from))
  }

  /** The envelope as the recipient reads it. */
  function Read(s: Suite, x: Exchange, ciphertext: bytes, tag: bytes, aad: bytes, wrapped: bytes): Checked {
    Checked(true, x.crv, Skid(x), s.publicKey(x.crv, x.randomness.ephemeral), s.utf8(Skid(x)), s.hash(s.utf8(x.recipientKid)),
            x.randomness.iv, ciphertext, tag, aad, wrapped)
  }

  lemma EncodedIsEmpty(b: bytes)
    requires B64.Encoded(b) == ""
    ensures b == []
  {
    B64.DecodeEncode(b);
    B64.DecodeEncode([]);
    assert B64.Encoded([]) == "";
  }

  /** The parts of a sent envelope. */
  lemma SentParts(s: Suite, x: Exchange) returns (jwe: Jwe, h: Header, ciphertext: bytes, tag: bytes, kek: bytes)
    requires Lawful(s) && Sized(x.randomness) && Sent(s, x).Ok?
    ensures x.senderKid != "" && x.recipientKid != "" && x.crv != OtherCurve
    ensures Sent(s, x).value == s.jwe.text(jwe)
    ensures h == HeaderOf(s, x.crv, Skid(x), s.utf8(Skid(x)), s.hash(s.utf8(x.recipientKid)), x.randomness.ephemeral)
    ensures h == Header("application/didcomm-encrypted+json", "ECDH-1PU+A256KW", "A256CBC-HS512",
                        B64.Encoded(s.utf8(Skid(x))), B64.Encoded(s.hash(s.utf8(x.recipientKid))), Skid(x),
                        Some(Jwk(x.crv, s.publicKey(x.crv, x.randomness.ephemeral), None)))
    ensures jwe.protected == B64.Encoded(s.utf8(s.header.text(h)))
    ensures A.Encrypted(s.aead, x.randomness.cek, x.randomness.iv, s.utf8(jwe.protected), s.utf8(s.message.text(x.message))) == Ok((ciphertext, tag))
    ensures jwe == Jwe(jwe.protected, [Recipient(x.recipientKid, B64.Encoded(s.wrap(kek, x.randomness.cek)))],
                       B64.Encoded(x.randomness.iv), B64.Encoded(ciphertext), B64.Encoded(tag))
    ensures AuthKek(s, Read(s, x, ciphertext, tag, s.utf8(jwe.protected), s.wrap(kek, x.randomness.cek)), x.recipientPrivate,
                    s.publicKey(x.crv, x.senderPrivate), false) == Ok(kek)
  {
    hide A.Encrypted, B64.Encoded, Kek, SenderKid, A.Lawful, WrapLaw, Utf8Law, JsonLaw;
    var apu, apv := s.utf8(Skid(x)), s.hash(s.utf8(x.recipientKid));
    h := HeaderOf(s, x.crv, Skid(x), apu, apv, x.randomness.ephemeral);
    var protected := B64.Encoded(s.utf8(s.header.text(h)));
    var sealed := A.Encrypted(s.aead, x.randomness.cek, x.randomness.iv, s.utf8(protected), s.utf8(s.message.text(x.message)));
    ciphertext, tag := sealed.value.0, sealed.value.1;
    var i := KekInfo(s, apu, apv, tag);
    KeksAgree(s, x.crv, x.randomness.ephemeral, x.senderPrivate, x.recipientPrivate, i);
    kek := SenderKek(s, x.crv, x.randomness.ephemeral, x.senderPrivate, s.publicKey(x.crv, x.recipientPrivate), i).value;
    jwe := Jwe(protected, [Recipient(x.recipientKid, B64.Encoded(s.wrap(kek, x.randomness.cek)))],
               B64.Encoded(x.randomness.iv), B64.Encoded(ciphertext), B64.Encoded(tag));
  }

  /** The recipient reads the envelope that was sent. */
  lemma SentIsChecked(s: Suite, x: Exchange, jwe: Jwe, h: Header, ciphertext: bytes, tag: bytes, wrapped: bytes)
    requires Lawful(s) && x.senderKid != "" && x.recipientKid != "" && x.crv != OtherCurve && wrapped != []
    requires h == HeaderOf(s, x.crv, Skid(x), s.utf8(Skid(x)), s.hash(s.utf8(x.recipientKid)), x.randomness.ephemeral)
    requires jwe == Jwe(B64.Encoded(s.utf8(s.header.text(h))), [Recipient(x.recipientKid, B64.Encoded(wrapped))],
                        B64.Encoded(x.randomness.iv), B64.Encoded(ciphertext), B64.Encoded(tag))
    ensures Check(s, s.jwe.text(jwe), Me(x.recipientKid, RecipientOf(s, x)), Some(SenderOf(s, x)))
         == Ok(Read(s, x, ciphertext, tag, s.utf8(jwe.protected), wrapped))
  {
    SenderKidStart(x.senderKid, FromOf(x.message));
    HeaderIsRead(s, h);
    CheckedHeader(s, x, h);
    PartsAreRead(s, x, jwe, h, ciphertext, tag, wrapped);
    hide B64.Encoded, SenderKid, ReadHeader, CheckHeader, ReadParts, HeaderOf;
  }

  lemma HeaderIsRead(s: Suite, h: Header)
    requires Utf8Law(s) && JsonLaw(s)
    ensures ReadHeader(s, B64.Encoded(s.utf8(s.header.text(h)))) == Ok(h)
  {
    B64.DecodeEncode(s.utf8(s.header.text(h)));
    hide B64.Encoded, B64.Decoded;
    assert StartsObject(s.header.text(h));
  }

  lemma CheckedHeader(s: Suite, x: Exchange, h: Header)
    requires x.crv != OtherCurve && Skid(x) != ""
    requires h == HeaderOf(s, x.crv, Skid(x), s.utf8(Skid(x)), s.hash(s.utf8(x.recipientKid)), x.randomness.ephemeral)
    ensures CheckHeader(h, Some(SenderOf(s, x))) == Ok((true, x.crv, s.publicKey(x.crv, x.randomness.ephemeral)))
  {
    hide B64.Encoded, SenderKid;
  }

  lemma PartsAreRead(s: Suite, x: Exchange, jwe: Jwe, h: Header, ciphertext: bytes, tag: bytes, wrapped: bytes)
    requires wrapped != []
    requires h == HeaderOf(s, x.crv, Skid(x), s.utf8(Skid(x)), s.hash(s.utf8(x.recipientKid)), x.randomness.ephemeral)
    requires jwe == Jwe(jwe.protected, [Recipient(x.recipientKid, B64.Encoded(wrapped))],
                        B64.Encoded(x.randomness.iv), B64.Encoded(ciphertext), B64.Encoded(tag))
    ensures ReadParts(s, jwe, h, (true, x.crv, s.publicKey(x.crv, x.randomness.ephemeral)), Me(x.recipientKid, RecipientOf(s, x)))
         == Ok(Read(s, x, ciphertext, tag, s.utf8(jwe.protected), wrapped))
  {
    if B64.Encoded(wrapped) == "" { EncodedIsEmpty(wrapped); }
    B64.DecodeEncode(wrapped);
    B64.DecodeEncode(x.randomness.iv);
    B64.DecodeEncode(ciphertext);
    B64.DecodeEncode(tag);
    B64.DecodeEncode(s.utf8(Skid(x)));
    B64.DecodeEncode(s.hash(s.utf8(x.recipientKid)));
    hide B64.Encoded, B64.Decoded, SenderKid;
    assert FirstFor(jwe.recipients, x.recipientKid) == Some(jwe.recipients[0]);
  }

  /** The content opens to the message. */
  lemma ContentOpens(s: Suite, x: Exchange, ciphertext: bytes, tag: bytes, aad: bytes, wrapped: bytes)
    requires Lawful(s) && Sized(x.randomness) && x.message.Object?
    requires A.Encrypted(s.aead, x.randomness.cek, x.randomness.iv, aad, s.utf8(s.message.text(x.message))) == Ok((ciphertext, tag))
    ensures Content(s, Read(s, x, ciphertext, tag, aad, wrapped), x.randomness.cek) == Ok(x.message)
  {
    hide B64.Encoded, A.Encrypted, A.Decrypted, Skid, A.Lawful;
    A.DecryptsEncrypted(s.aead, x.randomness.cek, x.randomness.iv, aad, s.utf8(s.message.text(x.message)));
    assert StartsObject(s.message.text(x.message));
  }

  /**
   Whatever pack sends, unpack with the matching keys returns the message with the sender authenticated,
   exactly when `from` has no fragment and names the `did:` identity of the sender's key; otherwise it
   reports the mismatch.
   */
  lemma UnpackUndoesPack(s: Suite, x: Exchange)
    requires Lawful(s) && Sized(x.randomness) && x.message.Object? && Sent(s, x).Ok?
    ensures Unpacked(s, Sent(s, x).value, Me(x.recipientKid, RecipientOf(s, x)), Some(SenderOf(s, x))) == Expected(x)
  {
    hide Check, Content, Recover, Sent, B64.Encoded, A.Encrypted, SenderKid, AuthKek, Skid, Read, Lawful, Bind, Expected, HeaderOf;
    var jwe, h, ciphertext, tag, kek := SentParts(s, x);
    var wrapped := s.wrap(kek, x.randomness.cek);
    var c := Read(s, x, ciphertext, tag, s.utf8(jwe.protected), wrapped);
    WrapsBack(s, kek, x.randomness.cek);
    SentIsChecked(s, x, jwe, h, ciphertext, tag, wrapped);
    ContentOpens(s, x, ciphertext, tag, s.utf8(jwe.protected), wrapped);
    ReadFields(s, x, ciphertext, tag, s.utf8(jwe.protected), wrapped);
    SentIsRecovered(s, x, c, kek);
    if x.senderKid[0] != BYTE_ORDER_MARK { BoundAsExpected(x, c); } else { MarkIsRefused(x); }
  }

  lemma WrapsBack(s: Suite, kek: bytes, cek: bytes)
    requires Lawful(s) && |cek| == A.CEK_BYTES
    ensures s.unwrap(kek, s.wrap(kek, cek)) == Some(cek) && s.wrap(kek, cek) != []
  {
    hide A.Lawful, DhLaw, Utf8Law, JsonLaw;
    assert |s.wrap(kek, cek)| == 72;
  }

  lemma ReadFields(s: Suite, x: Exchange, ciphertext: bytes, tag: bytes, aad: bytes, wrapped: bytes)
    ensures var c := Read(s, x, ciphertext, tag, aad, wrapped);
      && c.authcrypt && c.skid == Skid(x) && c.apu == s.utf8(Skid(x)) && c.crv == x.crv && c.wrapped == wrapped
      && Mine(Me(x.recipientKid, RecipientOf(s, x))) == x.recipientPrivate && SenderOf(s, x).publicKey == s.publicKey(x.crv, x.senderPrivate)
  {
    hide Skid;
  }

  lemma MarkIsRefused(x: Exchange)
    requires x.senderKid != "" && x.senderKid[0] == BYTE_ORDER_MARK
    ensures Expected(x) == Err(ApuMismatch)
  {
    hide DidScid.ScidIdentity, SenderKid;
  }

  /** Binding the key id that was sent is binding the sender's own. */
  lemma BoundAsExpected(x: Exchange, c: Checked)
    requires x.message.Object? && x.senderKid != "" && x.senderKid[0] != BYTE_ORDER_MARK && c.authcrypt && c.skid == Skid(x)
    ensures Bind(c, x.message, false) == Expected(x)
  {
    SenderKidKeepsIdentity(x.senderKid, FromOf(x.message));
    hide SenderKid, DidScid.ScidIdentity;
  }

  /** The content key comes back, unless the key id starts with a byte order mark. */
  lemma SentIsRecovered(s: Suite, x: Exchange, c: Checked, kek: bytes)
    requires Lawful(s) && x.senderKid != "" && c.skid == Skid(x) && c.apu == s.utf8(Skid(x)) && c.crv == x.crv
    requires AuthKek(s, c, x.recipientPrivate, s.publicKey(x.crv, x.senderPrivate), false) == Ok(kek)
    requires s.unwrap(kek, c.wrapped) == Some(x.randomness.cek)
    ensures Recover(s, c, x.recipientPrivate, SenderOf(s, x)) ==
      if x.senderKid[0] == BYTE_ORDER_MARK then Err(ApuMismatch) else Ok((x.randomness.cek, false))
  {
    SenderKidStart(x.senderKid, FromOf(x.message));
    hide SenderKid, AuthKek, A.Lawful, DhLaw, WrapLaw, JsonLaw;
    assert s.utf8Decode(c.apu) == WithoutMark(Skid(x));
  }

  // ----- what is read out of an envelope

  /** The envelope, its header, and its first entry for the recipient, in the terms of RFC 7516 and DIDComm. */
  ghost predicate IsReadFrom(s: Suite, text: string, me: Me, sender: Option<Jwk>, jwe: Jwe, h: Header, n: nat, c: Checked) {
    && me.kid != "" && s.jwe.parse(text) == Some(jwe)
    && B64.Decoded(jwe.protected).Some? && s.header.parse(s.utf8Decode(B64.Decoded(jwe.protected).value)) == Some(h)
    && h.enc == "A256CBC-HS512" && (h.alg == "ECDH-1PU+A256KW" || h.alg == "ECDH-ES+A256KW")
    && c.authcrypt == (h.alg == "ECDH-1PU+A256KW") && (c.authcrypt ==> h.skid != "" && sender.Some?)
    && h.epk.Some? && h.epk.value == Jwk(c.crv, c.epk, h.epk.value.privateKey) && (c.crv == X25519 || c.crv == P256)
    && me.jwk.crv == c.crv && me.jwk.privateKey.Some?
    && n < |jwe.recipients| && jwe.recipients[n].kid == me.kid && (forall i :: 0 <= i < n ==> jwe.recipients[i].kid != me.kid)
    && jwe.recipients[n].encryptedKey != "" && B64.Decoded(jwe.recipients[n].encryptedKey) == Some(c.wrapped)
    && c.skid == h.skid && B64.Decoded(h.apu) == Some(c.apu) && B64.Decoded(h.apv) == Some(c.apv)
    && B64.Decoded(jwe.iv) == Some(c.iv) && B64.Decoded(jwe.ciphertext) == Some(c.ciphertext) && B64.Decoded(jwe.tag) == Some(c.tag)
    && c.aad == s.utf8(jwe.protected)
  }

  lemma {:induction false} FirstForIs(rs: seq<Recipient>, kid: string) returns (n: nat)
    ensures n <= |rs| && (forall i :: 0 <= i < n ==> rs[i].kid != kid) && (n < |rs| ==> rs[n].kid == kid)
    ensures FirstFor(rs, kid) == if n < |rs| then Some(rs[n]) else None
  {
    if rs == [] || rs[0].kid == kid {
      n := 0;
    } else {
      var k := FirstForIs(rs[1..], kid);
      n := k + 1;
      assert forall i :: 1 <= i < n ==> rs[i] == rs[1..][i - 1];
    }
  }

  /** Exactly which envelopes pass the checks, and what of them goes into the keys. */
  lemma CheckExactly(s: Suite, text: string, me: Me, sender: Option<Jwk>, c: Checked)
    ensures Check(s, text, me, sender) == Ok(c) <==> exists jwe, h, n :: IsReadFrom(s, text, me, sender, jwe, h, n, c)
  {
    hide B64.Decoded;
    if Check(s, text, me, sender) == Ok(c) {
      var jwe := s.jwe.parse(text).value;
      var h := ReadHeader(s, jwe.protected).value;
      var n := FirstForIs(jwe.recipients, me.kid);
      assert IsReadFrom(s, text, me, sender, jwe, h, n, c);
    }
    if jwe, h, n :| IsReadFrom(s, text, me, sender, jwe, h, n, c) {
      ReadIsChecked(s, text, me, sender, jwe, h, n, c);
    }
  }

  lemma ReadIsChecked(s: Suite, text: string, me: Me, sender: Option<Jwk>, jwe: Jwe, h: Header, n: nat, c: Checked)
    requires IsReadFrom(s, text, me, sender, jwe, h, n, c)
    ensures Check(s, text, me, sender) == Ok(c)
  {
    hide B64.Decoded;
    var k := FirstForIs(jwe.recipients, me.kid);
    assert k == n;
    assert ReadHeader(s, jwe.protected) == Ok(h);
    assert CheckHeader(h, sender) == Ok((c.authcrypt, c.crv, c.epk));
  }

  // ----- the migration fallback

  /** Some content key was wrapped to these bytes under `kek`. */
  ghost predicate WrappedUnder(s: Suite, kek: bytes, wrapped: bytes) {
    exists k: bytes :: IsWrappable(k) && wrapped == s.wrap(kek, k)
  }

  /**
   For an envelope that passed the checks, a content key is recovered exactly when it was wrapped under the
   prefixed key, or under the unprefixed one while nothing was wrapped under the prefixed; the flag says which.
   */
  lemma FallbackDecides(s: Suite, c: Checked, mine: bytes, sender: Jwk, kek: bytes, legacyKek: bytes, cek: bytes, legacy: bool)
    requires WrapLaw(s) && s.utf8Decode(c.apu) == c.skid && sender.crv == c.crv
    requires AuthKek(s, c, mine, sender.publicKey, false) == Ok(kek) && AuthKek(s, c, mine, sender.publicKey, true) == Ok(legacyKek)
    ensures Recover(s, c, mine, sender) == Ok((cek, legacy)) <==>
            IsWrappable(cek) && c.wrapped == s.wrap(if legacy then legacyKek else kek, cek)
            && (legacy ==> !WrappedUnder(s, kek, c.wrapped))
  {
    hide AuthKek;
    Unwraps(s, legacyKek, c.wrapped, cek);
    Unwraps(s, kek, c.wrapped, cek);
    if s.unwrap(kek, c.wrapped).Some? {
      Unwraps(s, kek, c.wrapped, s.unwrap(kek, c.wrapped).value);
    } else if k :| IsWrappable(k) && c.wrapped == s.wrap(kek, k) {
      Unwraps(s, kek, c.wrapped, k);
    }
  }

  lemma Unwraps(s: Suite, kek: bytes, wrapped: bytes, cek: bytes)
    requires WrapLaw(s)
    ensures s.unwrap(kek, wrapped) == Some(cek) <==> IsWrappable(cek) && wrapped == s.wrap(kek, cek)
  {
  }

  /** The two keys of an envelope differ, whatever its tag, unless the hash collides. */
  lemma KeksDiffer(s: Suite, c: Checked, mine: bytes, senderPublic: bytes, kek: bytes) returns (x: bytes, y: bytes)
    requires Utf8Law(s)
    requires AuthKek(s, c, mine, senderPublic, false) == Ok(kek) && AuthKek(s, c, mine, senderPublic, true) == Ok(kek)
    ensures Collision(s.hash, x, y)
  {
    var ze, zs := s.dh(c.crv, mine, c.epk), s.dh(c.crv, mine, senderPublic);
    var i := InfoOf(s, c);
    KdfInputs(s, ze, zs, i, false);
    KdfInputs(s, ze, zs, i, true);
    hide Key, Kek, Utf8Law;
    x, y := LegacyKeyDiffers(s.hash, ze.value + zs.value, i);
  }

  /** A derived key is the KDF over both secrets, with a context that fits. */
  lemma KdfInputs(s: Suite, ze: Option<bytes>, zs: Option<bytes>, i: Info, legacy: bool)
    requires Kek(s, ze, zs, i, legacy).Ok?
    ensures ze.Some? && zs.Some? && i.alg != [] && IsKeyLength(i.bits) && Fits(i, legacy)
    ensures Key(s.hash, ze.value + zs.value, i, legacy) == Ok(Kek(s, ze, zs, i, legacy).value)
  {
    hide KeyStream, OtherInfo;
  }

  // ----- what the wrapping key binds

  /** What goes into the key of an envelope beside the secrets. */
  predicate SameContext(c: Checked, d: Checked) {
    c.apu == d.apu && c.apv == d.apv && c.tag == d.tag
  }

  /**
   Two envelopes with the same key have the same sender id, recipient digest and tag, and the same two
   shared secrets, unless the hash collides. A changed ciphertext changes the tag and so the key.
   */
  lemma KekBindsContext(s: Suite, c: Checked, mine: bytes, sender: bytes, d: Checked, mine': bytes, sender': bytes, kek: bytes, legacy: bool)
      returns (x: bytes, y: bytes)
    requires Lawful(s)
    requires AuthKek(s, c, mine, sender, legacy) == Ok(kek) && AuthKek(s, d, mine', sender', legacy) == Ok(kek)
    requires !SameContext(c, d) || s.dh(c.crv, mine, c.epk) != s.dh(d.crv, mine', d.epk)
          || s.dh(c.crv, mine, sender) != s.dh(d.crv, mine', sender')
    ensures Collision(s.hash, x, y)
  {
    var ze, zs, ze', zs' := s.dh(c.crv, mine, c.epk), s.dh(c.crv, mine, sender), s.dh(d.crv, mine', d.epk), s.dh(d.crv, mine', sender');
    var i, j := InfoOf(s, c), InfoOf(s, d);
    KdfInputs(s, ze, zs, i, legacy);
    KdfInputs(s, ze', zs', j, legacy);
    SecretsDiffer(ze.value, zs.value, ze'.value, zs'.value);
    ContextsDiffer(i, j, legacy);
    hide Key, Kek, OtherInfo;
    x, y := EqualKeysCollide(s.hash, ze.value + zs.value, i, legacy, ze'.value + zs'.value, j, legacy);
  }

  lemma SecretsDiffer(a: bytes, b: bytes, a': bytes, b': bytes)
    requires |a| == |a'|
    ensures a + b == a' + b' <==> a == a' && b == b'
  {
    assert (a + b)[..|a|] == a && (a' + b')[..|a|] == a';
    assert (a + b)[|a|..] == b && (a' + b')[|a|..] == b';
  }

  lemma ContextsDiffer(i: Info, j: Info, legacy: bool)
    requires Fits(i, legacy) && Fits(j, legacy) && i.supp.Some? && j.supp.Some?
    ensures OtherInfo(i, legacy) == OtherInfo(j, legacy) ==> i == j
  {
    if legacy {
      LegacyRoundTrip(i, true);
      LegacyRoundTrip(j, true);
    } else {
      OtherInfoRoundTrip(i);
      OtherInfoRoundTrip(j);
    }
    hide OtherInfo, ParseOtherInfo, ParseLegacy;
  }

  // ----- who sent it

  /**
   Every envelope accepted as authenticated: the sender id is the one fed into the key, the content key was
   wrapped under that key with the given sender's public key, the content opened under it, and `from` is a DID
   without fragment that has the identity returned.
   */
  lemma SenderIsBound(s: Suite, text: string, me: Me, sender: Option<Jwk>, o: Opened)
      returns (c: Checked, kek: bytes, cek: bytes, plaintext: bytes)
    requires WrapLaw(s) && Unpacked(s, text, me, sender) == Ok(o) && o.authenticated
    ensures sender.Some? && Check(s, text, me, sender) == Ok(c) && c.authcrypt && sender.value.crv == c.crv
    ensures o.senderKid == Some(c.skid) && s.utf8Decode(c.apu) == c.skid
    ensures AuthKek(s, c, Mine(me), sender.value.publicKey, o.legacyKekUsed) == Ok(kek)
    ensures IsWrappable(cek) && c.wrapped == s.wrap(kek, cek)
    ensures A.Decrypted(s.aead, cek, c.iv, c.aad, c.ciphertext, c.tag) == Ok(plaintext)
    ensures s.message.parse(s.utf8Decode(plaintext)) == Some(o.message) && o.message.Object?
    ensures o.senderDid == Some(DidScid.ScidIdentity(c.skid)) && "did:" <= o.senderDid.value
    ensures o.message.from.Some? && '#' !in o.message.from.value && DidScid.ScidIdentity(o.message.from.value) == o.senderDid.value
  {
    AuthenticatedIsAuthcrypt(s, text, me, sender, o);
    CheckedSender(s, text, me, sender);
    c := Check(s, text, me, sender).value;
    cek := Recover(s, c, Mine(me), sender.value).value.0;
    plaintext := OpenedContent(s, c, cek, o.message);
    BoundSender(c, o.message, o.legacyKekUsed);
    hide Check, Content, AuthKek, Recover, DidScid.ScidIdentity, WrapLaw, A.Decrypted, SpeaksFor;
    kek := RecoveredUnder(s, c, Mine(me), sender.value, cek, o.legacyKekUsed);
  }

  /** An anonymous envelope names no sender, whatever its header says, and opened under the ECDH-ES key alone. */
  lemma AnonymousNamesNobody(s: Suite, text: string, me: Me, sender: Option<Jwk>, o: Opened)
      returns (c: Checked, kek: bytes, cek: bytes, plaintext: bytes)
    requires WrapLaw(s) && Unpacked(s, text, me, sender) == Ok(o) && !o.authenticated
    ensures Check(s, text, me, sender) == Ok(c) && !c.authcrypt
    ensures o == Opened(o.message, None, None, false, false) && o.message.Object?
    ensures s.esKek(c.crv, Mine(me), c.epk, c.apu, c.apv) == Some(kek) && IsWrappable(cek) && c.wrapped == s.wrap(kek, cek)
    ensures A.Decrypted(s.aead, cek, c.iv, c.aad, c.ciphertext, c.tag) == Ok(plaintext)
    ensures s.message.parse(s.utf8Decode(plaintext)) == Some(o.message)
  {
    AuthenticatedIsAuthcrypt(s, text, me, sender, o);
    hide Check, Content, Recover, WrapLaw;
    c := Check(s, text, me, sender).value;
    cek := RecoverAnon(s, c, Mine(me)).value.0;
    plaintext := OpenedContent(s, c, cek, o.message);
    kek := s.esKek(c.crv, Mine(me), c.epk, c.apu, c.apv).value;
    Unwraps(s, kek, c.wrapped, cek);
  }

  lemma OpenedContent(s: Suite, c: Checked, cek: bytes, message: Json) returns (plaintext: bytes)
    requires Content(s, c, cek) == Ok(message)
    ensures A.Decrypted(s.aead, cek, c.iv, c.aad, c.ciphertext, c.tag) == Ok(plaintext)
    ensures s.message.parse(s.utf8Decode(plaintext)) == Some(message)
  {
    hide A.Decrypted;
    plaintext := A.Decrypted(s.aead, cek, c.iv, c.aad, c.ciphertext, c.tag).value;
  }

  /** Exactly which messages are handed on as authenticated. */
  lemma BoundSender(c: Checked, message: Json, legacy: bool)
    requires c.authcrypt && message.Object?
    ensures Bind(c, message, legacy).Ok? <==>
      && "did:" <= DidScid.ScidIdentity(c.skid)
      && message.from.Some? && '#' !in message.from.value
      && DidScid.ScidIdentity(message.from.value) == DidScid.ScidIdentity(c.skid)
    ensures Bind(c, message, legacy).Ok? ==>
      Bind(c, message, legacy).value == Opened(message, Some(c.skid), Some(DidScid.ScidIdentity(c.skid)), true, legacy)
    ensures Bind(c, message, legacy).Err? ==>
      Bind(c, message, legacy).error == SenderMismatch(DidScid.ScidIdentity(c.skid), message.from)
  {
    hide DidScid.ScidIdentity;
  }

  lemma RecoveredUnder(s: Suite, c: Checked, mine: bytes, sender: Jwk, cek: bytes, legacy: bool) returns (kek: bytes)
    requires WrapLaw(s) && Recover(s, c, mine, sender) == Ok((cek, legacy))
    ensures s.utf8Decode(c.apu) == c.skid && sender.crv == c.crv && AuthKek(s, c, mine, sender.publicKey, legacy) == Ok(kek)
    ensures IsWrappable(cek) && c.wrapped == s.wrap(kek, cek)
  {
    hide AuthKek;
    kek := AuthKek(s, c, mine, sender.publicKey, legacy).value;
    Unwraps(s, kek, c.wrapped, cek);
  }

  lemma AuthenticatedIsAuthcrypt(s: Suite, text: string, me: Me, sender: Option<Jwk>, o: Opened)
    requires Unpacked(s, text, me, sender) == Ok(o)
    ensures Check(s, text, me, sender).Ok? && Check(s, text, me, sender).value.authcrypt == o.authenticated && o.message.Object?
  {
    hide Check, Content, Recover, RecoverAnon, DidScid.ScidIdentity;
  }

  lemma CheckedSender(s: Suite, text: string, me: Me, sender: Option<Jwk>)
    requires Check(s, text, me, sender).Ok? && Check(s, text, me, sender).value.authcrypt
    ensures sender.Some?
  {
    hide ReadHeader;
  }
}
