/** Unpacking an envelope: header checks, the key with its migration fallback, the sender (src/unpack.js). */
module Unpack {
  import opened Wrappers
  import opened JsNumber
  import opened Bytes
  import opened Envelope
  import opened ConcatKdf
  import A = A256CbcHs512
  import B64 = Base64Url
  import DidScid

  datatype Opened = Opened(message: Json, senderKid: Option<string>, senderDid: Option<string>, authenticated: bool, legacyKekUsed: bool)

  /** An envelope that passed the checks before any key is derived. */
  datatype Checked = Checked(authcrypt: bool, crv: Curve, skid: string, epk: bytes, apu: bytes, apv: bytes,
                             iv: bytes, ciphertext: bytes, tag: bytes, aad: bytes, wrapped: bytes)

  function FirstFor(rs: seq<Recipient>, kid: string): Option<Recipient> {
    if rs == [] then None else if rs[0].kid == kid then Some(rs[0]) else FirstFor(rs[1..], kid)
  }

  function Decode(t: string): Result<bytes, Error> {
    match B64.Decoded(t) case None => Err(BadBase64) case Some(b) => Ok(b)
  }

  /** The recipient's own key id and key. */
  datatype Me = Me(kid: string, jwk: Jwk)

  /** What the protected header must say. */
  function CheckHeader(h: Header, sender: Option<Jwk>): Result<(bool, Curve, bytes), Error> {
    var authcrypt := h.alg == ALG_AUTHCRYPT;
    if !authcrypt && h.alg != ALG_ANONCRYPT then Err(UnsupportedAlg)
    else if h.enc != ENC then Err(UnsupportedEnc)
    else if h.epk.None? || h.epk.value.crv == OtherCurve then Err(MissingEpk)
    else if authcrypt && h.skid == "" then Err(MissingSkid)
    else if authcrypt && sender.None? then Err(MissingSender)
    else Ok((authcrypt, h.epk.value.crv, h.epk.value.publicKey))
  }

  function ReadHeader(s: Suite, protected: string): Result<Header, Error> {
    match Decode(protected)
    case Err(e) => Err(e)
    case Ok(b) => match s.header.parse(s.utf8Decode(b)) case None => Err(BadHeader) case Some(h) => Ok(h)
  }

  /** Everything else that is decoded, in the order it is. */
  function ReadParts(s: Suite, jwe: Jwe, h: Header, what: (bool, Curve, bytes), me: Me): Result<Checked, Error> {
    match FirstFor(jwe.recipients, me.kid)
    case None => Err(NoEntry)
    case Some(entry) =>
      if entry.encryptedKey == "" then Err(NoEncryptedKey)
      else
        match Decode(jwe.iv) case Err(e) => Err(e) case Ok(iv) =>
        match Decode(jwe.ciphertext) case Err(e) => Err(e) case Ok(ciphertext) =>
        match Decode(jwe.tag) case Err(e) => Err(e) case Ok(tag) =>
        if me.jwk.crv != what.1 then Err(CurveMismatch)
        else if me.jwk.privateKey.None? then Err(BadKey)
        else
          match Decode(h.apu) case Err(e) => Err(e) case Ok(apu) =>
          match Decode(h.apv) case Err(e) => Err(e) case Ok(apv) =>
          match Decode(entry.encryptedKey) case Err(e) => Err(e) case Ok(wrapped) =>
          Ok(Checked(what.0, what.1, h.skid, what.2, apu, apv, iv, ciphertext, tag, s.utf8(jwe.protected), wrapped))
  }

  function Check(s: Suite, text: string, me: Me, sender: Option<Jwk>): Result<Checked, Error> {
    if me.kid == "" then Err(MissingKey)
    else
      match s.jwe.parse(text)
      case None => Err(NotJson)
      case Some(jwe) =>
        if jwe.recipients == [] then Err(NoRecipients)
        else
          match ReadHeader(s, jwe.protected) case Err(e) => Err(e) case Ok(h) =>
          match CheckHeader(h, sender) case Err(e) => Err(e) case Ok(what) =>
          ReadParts(s, jwe, h, what, me)
  }

  function InfoOf(s: Suite, c: Checked): Info {
    KekInfo(s, c.apu, c.apv, c.tag)
  }

  function AuthKek(s: Suite, c: Checked, mine: bytes, sender: bytes, legacy: bool): Result<bytes, Error> {
    RecipientKek(s, c.crv, mine, c.epk, sender, InfoOf(s, c), legacy)
  }

  /** The content key, and whether only the unprefixed key unwrapped it. */
  function Recover(s: Suite, c: Checked, mine: bytes, sender: Jwk): Result<(bytes, bool), Error> {
    if s.utf8Decode(c.apu) != c.skid then Err(ApuMismatch)
    else if sender.crv != c.crv then Err(CurveMismatch)
    else
      match AuthKek(s, c, mine, sender.publicKey, false) case Err(e) => Err(e) case Ok(kek) =>
      match s.unwrap(kek, c.wrapped)
      case Some(cek) => Ok((cek, false))
      case None =>
        match AuthKek(s, c, mine, sender.publicKey, true) case Err(e) => Err(e) case Ok(legacyKek) =>
        match s.unwrap(legacyKek, c.wrapped) case Some(cek) => Ok((cek, true)) case None => Err(BadWrap)
  }

  /** The anonymous branch, over an abstract ECDH-ES key. */
  function RecoverAnon(s: Suite, c: Checked, mine: bytes): Result<(bytes, bool), Error> {
    match s.esKek(c.crv, mine, c.epk, c.apu, c.apv) case None => Err(BadKey) case Some(kek) =>
    match s.unwrap(kek, c.wrapped) case Some(cek) => Ok((cek, false)) case None => Err(BadWrap)
  }

  function Content(s: Suite, c: Checked, cek: bytes): (r: Result<Json, Error>)
    ensures r.Ok? ==> r.value.Object?
  {
    match A.Decrypted(s.aead, cek, c.iv, c.aad, c.ciphertext, c.tag) case Err(e) => Err(Aead(e)) case Ok(plaintext) =>
    match s.message.parse(s.utf8Decode(plaintext)) case None => Err(PlaintextNotJson) case Some(message) =>
    if message.Object? then Ok(message) else Err(NotAnObject)
  }

  /** `from` is a DID without fragment whose identity is that of `skid`. */
  predicate SpeaksFor(skid: string, from: Option<string>) {
    var did := DidScid.ScidIdentity(skid);
    "did:" <= did && from.Some? && '#' !in from.value && DidScid.ScidIdentity(from.value) == did
  }

  function Bind(c: Checked, message: Json, legacy: bool): (r: Result<Opened, Error>)
    requires message.Object?
    ensures r.Ok? ==> r.value.legacyKekUsed == legacy
  {
    if !c.authcrypt then Ok(Opened(message, None, None, false, legacy))
    else
      var did := DidScid.ScidIdentity(c.skid);
      if !SpeaksFor(c.skid, message.from) then Err(SenderMismatch(did, message.from))
      else Ok(Opened(message, Some(c.skid), Some(did), true, legacy))
  }

  function Unpacked(s: Suite, text: string, me: Me, sender: Option<Jwk>): Result<Opened, Error> {
    match Check(s, text, me, sender) case Err(e) => Err(e) case Ok(c) =>
    match (if c.authcrypt && sender.Some? then Recover(s, c, Mine(me), sender.value) else RecoverAnon(s, c, Mine(me)))
    case Err(e) => Err(e)
    case Ok((cek, legacy)) =>
      match Content(s, c, cek) case Err(e) => Err(e) case Ok(message) =>
      Bind(c, message, legacy)
  }

  function Mine(me: Me): bytes {
    if me.jwk.privateKey.Some? then me.jwk.privateKey.value else []
  }

  // ----- the procedure, with its key buffers

  ghost predicate AllWiped(buffers: seq<array<byte>>)
    reads set b | b in buffers
  {
    forall b :: b in buffers ==> IsWiped(b)
  }

  /** Each key has a buffer of its own. */
  ghost predicate AllApart(buffers: seq<array<byte>>) {
    forall i, j :: 0 <= i < j < |buffers| ==> buffers[i] != buffers[j]
  }

  /** One try: the wrapping key is zero again whether or not it unwraps. */
  method TryKey(s: Suite, kek: array<byte>, wrapped: bytes) returns (cek: Option<bytes>)
    modifies kek
    ensures cek == s.unwrap(old(kek[..]), wrapped) && IsWiped(kek)
  {
    cek := s.unwrap(kek[..], wrapped);
    Wipe(kek);
  }

  lemma KekErrors(s: Suite, ze: Option<bytes>, zs: Option<bytes>, i: Info, legacy: bool)
    ensures Kek(s, ze, zs, i, legacy) != Err(BadWrap)
  {
    hide Key;
  }

  /** The prefixed key first, then the unprefixed one; both buffers are zero on every way out. */
  method RecoverCek(s: Suite, c: Checked, mine: bytes, sender: Jwk) returns (r: Result<(bytes, bool), Error>, keks: seq<array<byte>>)
    ensures r == Recover(s, c, mine, sender)
    ensures AllWiped(keks) && AllApart(keks) && forall b :: b in keks ==> fresh(b)
    ensures r.Ok? ==> |keks| == if r.value.1 then 2 else 1
    ensures r == Err(BadWrap) ==> |keks| == 2
  {
    hide Kek, KekInfo;
    keks := [];
    var apuStr := s.utf8Decode(c.apu);
    if apuStr != c.skid { return Err(ApuMismatch), keks; }
    if sender.crv != c.crv { return Err(CurveMismatch), keks; }
    var ze, zs := s.dh(c.crv, mine, c.epk), s.dh(c.crv, mine, sender.publicKey);
    KekErrors(s, ze, zs, InfoOf(s, c), false);
    KekErrors(s, ze, zs, InfoOf(s, c), true);
    var kek := DeriveKek(s, ze, zs, InfoOf(s, c), false);
    if kek.Err? { return Err(kek.error), keks; }
    var cek := TryKey(s, kek.value, c.wrapped);
    keks := [kek.value];
    if cek.Some? { return Ok((cek.value, false)), keks; }
    var legacyKek := DeriveKek(s, ze, zs, InfoOf(s, c), true);
    if legacyKek.Err? { return Err(legacyKek.error), keks; }
    cek := TryKey(s, legacyKek.value, c.wrapped);
    keks := [kek.value, legacyKek.value];
    if cek.Some? { return Ok((cek.value, true)), keks; }
    return Err(BadWrap), keks;
  }

  method OpenContent(s: Suite, c: Checked, cek: array<byte>) returns (r: Result<Json, Error>)
    modifies cek
    ensures r == Content(s, c, old(cek[..])) && IsWiped(cek)
  {
    hide A.Decrypted;
    var plaintext := A.Decrypt(s.aead, cek[..], c.iv, c.aad, c.ciphertext, c.tag);
    Wipe(cek);
    if plaintext.Err? { return Err(Aead(plaintext.error)); }
    var message := s.message.parse(s.utf8Decode(plaintext.value));
    if message.None? { return Err(PlaintextNotJson); }
    if !message.value.Object? { return Err(NotAnObject); }
    return Ok(message.value);
  }

  /** `unpack`; every buffer that held a key is zero on every way out. */
  method UnpackMessage(s: Suite, text: string, me: Me, sender: Option<Jwk>) returns (r: Result<Opened, Error>, buffers: seq<array<byte>>)
    ensures r == Unpacked(s, text, me, sender)
    ensures AllWiped(buffers) && AllApart(buffers) && forall b :: b in buffers ==> fresh(b)
    ensures r.Ok? ==> |buffers| == if r.value.legacyKekUsed then 3 else 2
  {
    hide Check, Recover, Content, Bind;
    buffers := [];
    var checked := Check(s, text, me, sender);
    if checked.Err? { return Err(checked.error), buffers; }
    var c := checked.value;
    var recovered: Result<(bytes, bool), Error>;
    if c.authcrypt && sender.Some? {
      recovered, buffers := RecoverCek(s, c, Mine(me), sender.value);
    } else {
      var kek := s.esKek(c.crv, Mine(me), c.epk, c.apu, c.apv);
      if kek.None? { return Err(BadKey), buffers; }
      var buffer := Copy(kek.value);
      var cek := TryKey(s, buffer, c.wrapped);
      buffers := [buffer];
      recovered := if cek.Some? then Ok((cek.value, false)) else Err(BadWrap);
    }
    if recovered.Err? { return Err(recovered.error), buffers; }
    var (key, legacyKekUsed) := recovered.value;
    var cek := Copy(key);
    var message := OpenContent(s, c, cek);
    buffers := buffers + [cek];
    if message.Err? { return Err(message.error), buffers; }
    return Bind(c, message.value, legacyKekUsed), buffers;
  }
}
