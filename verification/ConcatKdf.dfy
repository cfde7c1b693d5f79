/** The Concat KDF of section 4.6.2 of RFC 7518 with the ECDH-1PU tag (src/concat-kdf.js), over an abstract hash. */
module ConcatKdf {
  import opened Wrappers
  import opened JsNumber
  import opened Bytes
  import P = Positional

  const HASH_LEN := 32

  type Digest = d: bytes | |d| == 32 witness seq(32, i => 0)

  type Hash = bytes -> Digest

  datatype KdfError = RangeError | BadAlg | BadLength

  // ----- 32-bit big-endian numbers

  predicate IsUint32(n: int) {
    0 <= n <= 0xffff_ffff
  }

  /** The four bytes `(n >>> 24) & 0xff` to `n & 0xff`. */
  function Uint32(n: int): (b: bytes)
    requires IsUint32(n)
    ensures |b| == 4
  {
    [LowBits(UShr(n, 24), 8), LowBits(UShr(n, 16), 8), LowBits(UShr(n, 8), 8), LowBits(n, 8)]
  }

  function Uint32Value(b: bytes): int
    requires |b| >= 4
  {
    (b[0] as int) * 0x100_0000 + (b[1] as int) * 0x1_0000 + (b[2] as int) * 0x100 + b[3]
  }

  /** Reading four bytes back gives the number. */
  lemma Uint32RoundTrip(n: int)
    requires IsUint32(n)
    ensures Uint32Value(Uint32(n)) == n
  {
    hide LowBits, UShr, Pow2;
    UShrBytes(n);
    LowBitsAre(n);
    LowBitsAre(n / 0x100);
    LowBitsAre(n / 0x1_0000);
    LowBitsAre(n / 0x100_0000);
    BytesOf(n);
  }

  lemma BytesOf(n: int)
    requires IsUint32(n)
    ensures n == n / 0x100_0000 % 0x100 * 0x100_0000 + n / 0x1_0000 % 0x100 * 0x1_0000 + n / 0x100 % 0x100 * 0x100 + n % 0x100
  {
    var a, b := n / 0x100, n / 0x1_0000;
    P.DivModOf(n, 0x100);
    P.DivModOf(a, 0x100);
    P.DivModOf(b, 0x100);
    assert a / 0x100 == b && b / 0x100 == n / 0x100_0000;
  }

  method Uint32Be(n: int) returns (r: Result<array<byte>, KdfError>)
    ensures r.Ok? <==> 0 <= n < 0x1_0000_0000
    ensures r.Ok? ==> fresh(r.value) && r.value[..] == Uint32(n)
    ensures r.Err? ==> r.error == RangeError
  {
    hide LowBits, UShr;
    if n < 0 || n > 0xffff_ffff { return Err(RangeError); }
    var out := new byte[4](_ => 0);
    out[0] := LowBits(UShr(n, 24), 8);
    out[1] := LowBits(UShr(n, 16), 8);
    out[2] := LowBits(UShr(n, 8), 8);
    out[3] := LowBits(n, 8);
    assert out[..] == [out[0], out[1], out[2], out[3]];
    return Ok(out);
  }

  /** They are the base-256 digits of the number, most significant first. */
  lemma Uint32IsBigEndian(n: int)
    requires IsUint32(n)
    ensures 0 <= n / 0x100_0000 < 0x100
    ensures Uint32(n) == [n / 0x100_0000, n / 0x1_0000 % 0x100, n / 0x100 % 0x100, n % 0x100]
  {
    TopByte(n);
    hide LowBits, UShr, Pow2;
    UShrBytes(n);
    var a, b, c := n / 0x100, n / 0x1_0000, n / 0x100_0000;
    LowBitsAre(n);
    LowBitsAre(a);
    LowBitsAre(b);
    LowBitsAre(c);
    assert Uint32(n) == [c % 0x100, b % 0x100, a % 0x100, n % 0x100];
  }

  lemma TopByte(n: int)
    requires IsUint32(n)
    ensures 0 <= n / 0x100_0000 < 0x100 && n / 0x100_0000 % 0x100 == n / 0x100_0000
  {
    P.DivModOf(n / 0x100_0000, 0x100);
  }

  /** A field behind its length. */
  function Prefixed(b: bytes): bytes
    requires IsUint32(|b|)
  {
    Uint32(|b|) + b
  }

  method LengthPrefix(b: bytes) returns (r: Result<array<byte>, KdfError>)
    ensures r.Ok? <==> IsUint32(|b|)
    ensures r.Ok? ==> fresh(r.value) && r.value[..] == Prefixed(b)
    ensures r.Err? ==> r.error == RangeError
  {
    hide Uint32;
    var out := new byte[4 + |b|](_ => 0);
    var length := Uint32Be(|b|);
    if length.Err? { return Err(length.error); }
    SetAt(out, length.value[..], 0);
    assert out[0..4] == Uint32(|b|);
    SetAt(out, b, 4);
    assert out[..] == out[..4] + out[4..4 + |b|];
    return Ok(out);
  }

  // ----- OtherInfo

  /** The KDF context; `supp` is the content tag, absent outside key-wrap mode. */
  datatype Info = Info(alg: bytes, apu: bytes, apv: bytes, bits: int, supp: Option<bytes>)

  /** Every length written fits in 32 bits; `legacy` writes no length for the tag. */
  predicate Fits(i: Info, legacy: bool) {
    && IsUint32(|i.alg|) && IsUint32(|i.apu|) && IsUint32(|i.apv|) && IsUint32(i.bits)
    && (i.supp.Some? && !legacy ==> IsUint32(|i.supp.value|))
  }

  function Supp(i: Info, legacy: bool): bytes
    requires Fits(i, legacy)
  {
    match i.supp
    case None => []
    case Some(tag) => if legacy then tag else Prefixed(tag)
  }

  function OtherInfo(i: Info, legacy: bool): bytes
    requires Fits(i, legacy)
  {
    Concat([Prefixed(i.alg), Prefixed(i.apu), Prefixed(i.apv), Uint32(i.bits), Supp(i, legacy)])
  }

  // ----- reading it back

  /** A field behind its length, and what follows it. */
  function ReadField(b: bytes): Option<(bytes, bytes)> {
    if |b| < 4 || |b| - 4 < Uint32Value(b) || Uint32Value(b) < 0 then None
    else Some((b[4..4 + Uint32Value(b)], b[4 + Uint32Value(b)..]))
  }

  /** A complete reading of OtherInfo: three fields, the bit length, and nothing or one more field. */
  function ParseOtherInfo(b: bytes): Option<Info> {
    match ReadField(b)
    case None => None
    case Some((alg, b1)) =>
      match ReadField(b1)
      case None => None
      case Some((apu, b2)) =>
        match ReadField(b2)
        case None => None
        case Some((apv, b3)) =>
          if |b3| < 4 then None
          else if |b3| == 4 then Some(Info(alg, apu, apv, Uint32Value(b3), None))
          else
            match ReadField(b3[4..])
            case None => None
            case Some((tag, b4)) => if b4 == [] then Some(Info(alg, apu, apv, Uint32Value(b3), Some(tag))) else None
  }

  lemma ReadsField(field: bytes, rest: bytes)
    requires IsUint32(|field|)
    ensures ReadField(Prefixed(field) + rest) == Some((field, rest))
  {
    Uint32RoundTrip(|field|);
    var b := Prefixed(field) + rest;
    hide Uint32;
    var u := Uint32(|field|);
    assert b[0] == u[0] && b[1] == u[1] && b[2] == u[2] && b[3] == u[3];
    assert Uint32Value(b) == Uint32Value(u);
    assert b[4..4 + |field|] == field && b[4 + |field|..] == rest;
  }

  lemma ReadsBits(bits: int, rest: bytes)
    requires IsUint32(bits)
    ensures Uint32Value(Uint32(bits) + rest) == bits && (Uint32(bits) + rest)[4..] == rest
  {
    Uint32RoundTrip(bits);
    hide Uint32;
    var u, b := Uint32(bits), Uint32(bits) + rest;
    assert b[0] == u[0] && b[1] == u[1] && b[2] == u[2] && b[3] == u[3];
  }

  /** The five parts, from the front. */
  lemma OtherInfoParts(i: Info, legacy: bool)
    requires Fits(i, legacy)
    ensures OtherInfo(i, legacy) == Prefixed(i.alg) + (Prefixed(i.apu) + (Prefixed(i.apv) + (Uint32(i.bits) + Supp(i, legacy))))
  {
    hide Prefixed, Uint32, Supp;
    var a, b, c, d, e := Prefixed(i.alg), Prefixed(i.apu), Prefixed(i.apv), Uint32(i.bits), Supp(i, legacy);
    ConcatFive(a, b, c, d, e);
  }

  lemma ConcatFive(a: bytes, b: bytes, c: bytes, d: bytes, e: bytes)
    ensures Concat([a, b, c, d, e]) == a + (b + (c + (d + e)))
  {
    assert [a, b, c, d, e][1..] == [b, c, d, e] && [b, c, d, e][1..] == [c, d, e];
    assert [c, d, e][1..] == [d, e] && [d, e][1..] == [e] && [e][1..] == [];
    assert Concat([e]) == e + [] == e;
    assert Concat([d, e]) == d + e;
    assert Concat([c, d, e]) == c + (d + e);
    assert Concat([b, c, d, e]) == b + (c + (d + e));
  }

  lemma PrefixedIsLong(b: bytes)
    requires IsUint32(|b|)
    ensures |Prefixed(b)| >= 4
  {
  }

  /** OtherInfo is read back completely, so it determines all its fields. */
  lemma OtherInfoRoundTrip(i: Info)
    requires Fits(i, false)
    ensures ParseOtherInfo(OtherInfo(i, false)) == Some(i)
  {
    OtherInfoParts(i, false);
    ReadsBits(i.bits, Supp(i, false));
    hide Uint32, Uint32Value, ReadField, OtherInfo, Prefixed;
    var tail := Uint32(i.bits) + Supp(i, false);
    ReadsField(i.alg, Prefixed(i.apu) + (Prefixed(i.apv) + tail));
    ReadsField(i.apu, Prefixed(i.apv) + tail);
    ReadsField(i.apv, tail);
    match i.supp
    case None =>
    case Some(tag) =>
      PrefixedIsLong(tag);
      assert Prefixed(tag) + [] == Prefixed(tag);
      ReadsField(tag, []);
  }

  /** The unprefixed form reads back all but the tag, which is the rest. */
  function ParseLegacy(b: bytes): Option<Info> {
    match ReadField(b)
    case None => None
    case Some((alg, b1)) =>
      match ReadField(b1)
      case None => None
      case Some((apu, b2)) =>
        match ReadField(b2)
        case None => None
        case Some((apv, b3)) => if |b3| < 4 then None else Some(Info(alg, apu, apv, Uint32Value(b3), Some(b3[4..])))
  }

  lemma LegacyRoundTrip(i: Info, legacy: bool)
    requires Fits(i, legacy)
    ensures ParseLegacy(OtherInfo(i, legacy)) ==
      Some(i.(supp := Some(match i.supp case None => [] case Some(tag) => if legacy then tag else Uint32(|tag|) + tag)))
  {
    OtherInfoParts(i, legacy);
    ReadsBits(i.bits, Supp(i, legacy));
    hide Uint32, Uint32Value, ReadField, OtherInfo, Prefixed, Supp;
    var tail := Uint32(i.bits) + Supp(i, legacy);
    ReadsField(i.alg, Prefixed(i.apu) + (Prefixed(i.apv) + tail));
    ReadsField(i.apu, Prefixed(i.apv) + tail);
    ReadsField(i.apv, tail);
  }

  /** A prefixed and an unprefixed context give the same bytes exactly when the raw tag is the other tag with its length. */
  lemma WhenFormsCollide(i: Info, j: Info)
    requires Fits(i, false) && Fits(j, true)
    ensures OtherInfo(i, false) == OtherInfo(j, true) <==>
      && i.alg == j.alg && i.apu == j.apu && i.apv == j.apv && i.bits == j.bits
      && (match i.supp case None => [] case Some(tag) => Uint32(|tag|) + tag) == (if j.supp.Some? then j.supp.value else [])
  {
    LegacyRoundTrip(i, false);
    LegacyRoundTrip(j, true);
    OtherInfoParts(i, false);
    OtherInfoParts(j, true);
    hide Uint32, Prefixed, Supp, OtherInfo, ParseLegacy;
  }

  /** For one tag the two forms always differ. */
  lemma FormsDiffer(i: Info)
    requires Fits(i, false) && i.supp.Some?
    ensures OtherInfo(i, false) != OtherInfo(i, true)
  {
    WhenFormsCollide(i, i);
    assert |Supp(i, false)| == 4 + |Supp(i, true)|;
  }

  // ----- the derived key

  function HashInput(counter: int, z: bytes, other: bytes): bytes
    requires IsUint32(counter)
  {
    Uint32(counter) + (z + other)
  }

  /** K_1 to K_reps one after the other. */
  function KeyStream(hash: Hash, z: bytes, other: bytes, reps: nat): (k: bytes)
    requires IsUint32(reps)
    ensures |k| == reps * HASH_LEN
  {
    if reps == 0 then [] else KeyStream(hash, z, other, reps - 1) + hash(HashInput(reps, z, other))
  }

  /** Block n of the stream is the hash under counter n + 1. */
  lemma {:induction false} KeyBlock(hash: Hash, z: bytes, other: bytes, reps: nat, n: nat)
    requires IsUint32(reps) && n < reps
    ensures (n + 1) * HASH_LEN <= reps * HASH_LEN
    ensures KeyStream(hash, z, other, reps)[n * HASH_LEN..(n + 1) * HASH_LEN] == hash(Uint32(n + 1) + (z + other))
  {
    hide Uint32;
    if n < reps - 1 { KeyBlock(hash, z, other, reps - 1, n); }
  }

  predicate IsKeyLength(bits: int) {
    0 < bits <= 4096 && bits % 8 == 0
  }

  /** The number of hash blocks: bits / 256 rounded up. */
  function Reps(bits: int): (reps: nat)
    requires IsKeyLength(bits)
    ensures (reps - 1) * HASH_LEN < bits / 8 <= reps * HASH_LEN && reps <= 16
  {
    (bits / 8 + HASH_LEN - 1) / HASH_LEN
  }

  function Key(hash: Hash, z: bytes, i: Info, legacy: bool): Result<bytes, KdfError> {
    if i.alg == [] then Err(BadAlg)
    else if !IsKeyLength(i.bits) then Err(BadLength)
    else if !Fits(i, legacy) then Err(RangeError)
    else Ok(KeyStream(hash, z, OtherInfo(i, legacy), Reps(i.bits))[..i.bits / 8])
  }

  /** Which inputs have a key, and what its bytes are: byte j is byte j mod 32 of the hash under counter j / 32 + 1. */
  lemma KeyExactly(hash: Hash, z: bytes, i: Info, legacy: bool, k: bytes)
    ensures Key(hash, z, i, legacy) == Ok(k) <==>
      && i.alg != [] && 0 < i.bits <= 4096 && i.bits % 8 == 0
      && |i.alg| < 0x1_0000_0000 && |i.apu| < 0x1_0000_0000 && |i.apv| < 0x1_0000_0000
      && (i.supp.Some? && !legacy ==> |i.supp.value| < 0x1_0000_0000)
      && |k| == i.bits / 8
      && forall j :: 0 <= j < |k| ==> k[j] == hash(Uint32(j / 32 + 1) + (z + OtherInfo(i, legacy)))[j % 32]
    ensures i.alg == [] ==> Key(hash, z, i, legacy) == Err(BadAlg)
    ensures i.alg != [] && !(0 < i.bits <= 4096 && i.bits % 8 == 0) ==> Key(hash, z, i, legacy) == Err(BadLength)
  {
    hide OtherInfo, Uint32;
    if i.alg != [] && IsKeyLength(i.bits) && Fits(i, legacy) {
      var other, n := OtherInfo(i, legacy), i.bits / 8;
      var stream := KeyStream(hash, z, other, Reps(i.bits));
      assert Key(hash, z, i, legacy) == Ok(stream[..n]);
      forall j | 0 <= j < n ensures stream[..n][j] == hash(Uint32(j / 32 + 1) + (z + other))[j % 32] {
        StreamByte(hash, z, other, Reps(i.bits), j);
      }
      hide KeyStream;
      assert k == stream[..n] <==> |k| == n && forall j :: 0 <= j < n ==> k[j] == stream[..n][j];
    }
  }

  lemma StreamByte(hash: Hash, z: bytes, other: bytes, reps: nat, j: nat)
    requires IsUint32(reps) && j < reps * HASH_LEN
    ensures KeyStream(hash, z, other, reps)[j] == hash(Uint32(j / 32 + 1) + (z + other))[j % 32]
  {
    hide Uint32, KeyStream;
    KeyBlock(hash, z, other, reps, j / 32);
    var block := KeyStream(hash, z, other, reps)[j / 32 * HASH_LEN..(j / 32 + 1) * HASH_LEN];
    assert block[j % 32] == KeyStream(hash, z, other, reps)[j];
  }

  /** `concatenate(lengthPrefix(alg), lengthPrefix(apu), lengthPrefix(apv), uint32be(bits), supp)`. */
  method BuildOtherInfo(i: Info, legacy: bool) returns (r: Result<bytes, KdfError>)
    ensures r == if Fits(i, legacy) then Ok(OtherInfo(i, legacy)) else Err(RangeError)
  {
    hide Prefixed, Uint32, Concat;
    var supp: bytes := [];
    if i.supp.Some? {
      supp := i.supp.value;
      if !legacy {
        var tag := LengthPrefix(i.supp.value);
        if tag.Err? { return Err(tag.error); }
        supp := tag.value[..];
      }
    }
    var alg := LengthPrefix(i.alg);
    if alg.Err? { return Err(alg.error); }
    var apu := LengthPrefix(i.apu);
    if apu.Err? { return Err(apu.error); }
    var apv := LengthPrefix(i.apv);
    if apv.Err? { return Err(apv.error); }
    var bits := Uint32Be(i.bits);
    if bits.Err? { return Err(bits.error); }
    var out := Concatenate([alg.value[..], apu.value[..], apv.value[..], bits.value[..], supp]);
    return Ok(out[..]);
  }

  /** The leftmost bits / 8 bytes of K_1 to K_reps, or the error. */
  method DeriveKey(hash: Hash, z: bytes, i: Info, legacy: bool) returns (r: Result<bytes, KdfError>)
    ensures r == Key(hash, z, i, legacy)
  {
    hide OtherInfo, Fits;
    if i.alg == [] { return Err(BadAlg); }
    if i.bits <= 0 || i.bits % 8 != 0 || i.bits > 4096 { return Err(BadLength); }
    var keyDataLenBytes := i.bits / 8;
    var other := BuildOtherInfo(i, legacy);
    if other.Err? { return Err(other.error); }
    var out := Blocks(hash, z, other.value, Reps(i.bits));
    return Ok(out[..keyDataLenBytes]);
  }

  method Blocks(hash: Hash, z: bytes, other: bytes, reps: nat) returns (out: array<byte>)
    requires IsUint32(reps)
    ensures out[..] == KeyStream(hash, z, other, reps)
  {
    hide Uint32;
    out := new byte[reps * HASH_LEN](_ => 0);
    var i := 1;
    while i <= reps
      invariant 1 <= i <= reps + 1 && out[..(i - 1) * HASH_LEN] == KeyStream(hash, z, other, i - 1)
    {
      var counter := Uint32Be(i);
      var input := Concatenate([counter.value[..], z, other]);
      ConcatThree(counter.value[..], z, other);
      var at := (i - 1) * HASH_LEN;
      SetAt(out, hash(input[..]), at);
      assert out[..i * HASH_LEN] == out[..at] + out[at..at + HASH_LEN];
      i := i + 1;
    }
    assert out[..reps * HASH_LEN] == out[..];
  }

  lemma ConcatThree(a: bytes, b: bytes, c: bytes)
    ensures Concat([a, b, c]) == a + (b + c)
  {
    assert [a, b, c][1..] == [b, c] && [b, c][1..] == [c] && [c][1..] == [];
    assert Concat([c]) == c + [] == c;
    assert Concat([b, c]) == b + c;
  }

  /** At 256 bits the key is the first block. */
  lemma KekIsOneBlock(hash: Hash, z: bytes, i: Info, legacy: bool)
    requires i.alg != [] && i.bits == 256 && Fits(i, legacy)
    ensures Key(hash, z, i, legacy) == Ok(hash(HashInput(1, z, OtherInfo(i, legacy))))
  {
    hide OtherInfo, HashInput;
    var other := OtherInfo(i, legacy);
    assert Reps(256) == 1 && KeyStream(hash, z, other, 0) == [];
    var k := hash(HashInput(1, z, other));
    assert k[..32] == k;
    assert KeyStream(hash, z, other, 1) == [] + hash(HashInput(1, z, other)) == hash(HashInput(1, z, other));
  }

  /** Different secrets of one length, or different contexts, hash different inputs. */
  lemma InputsDiffer(z: bytes, other: bytes, z': bytes, other': bytes)
    requires |z| == |z'| && (z != z' || other != other')
    ensures HashInput(1, z, other) != HashInput(1, z', other')
  {
    hide Uint32;
    var u := Uint32(1);
    assert HashInput(1, z, other)[4..] == z + other && HashInput(1, z', other')[4..] == z' + other';
    assert (z + other)[..|z|] == z && (z' + other')[..|z|] == z';
    assert (z + other)[|z|..] == other && (z' + other')[|z|..] == other';
  }

  ghost predicate Collision(hash: Hash, x: bytes, y: bytes) {
    x != y && hash(x) == hash(y)
  }

  /** One 256-bit key from two secrets or two contexts is a collision of the hash. */
  lemma EqualKeysCollide(hash: Hash, z: bytes, i: Info, legacy: bool, z': bytes, j: Info, legacy': bool)
      returns (x: bytes, y: bytes)
    requires i.alg != [] && i.bits == 256 && Fits(i, legacy) && j.alg != [] && j.bits == 256 && Fits(j, legacy')
    requires |z| == |z'| && (z != z' || OtherInfo(i, legacy) != OtherInfo(j, legacy'))
    requires Key(hash, z, i, legacy) == Key(hash, z', j, legacy')
    ensures Collision(hash, x, y)
  {
    KekIsOneBlock(hash, z, i, legacy);
    KekIsOneBlock(hash, z', j, legacy');
    hide OtherInfo, HashInput;
    InputsDiffer(z, OtherInfo(i, legacy), z', OtherInfo(j, legacy'));
    x, y := HashInput(1, z, OtherInfo(i, legacy)), HashInput(1, z', OtherInfo(j, legacy'));
  }

  /** The prefixed and the unprefixed key for one tag are equal only through a collision of the hash. */
  lemma LegacyKeyDiffers(hash: Hash, z: bytes, i: Info) returns (x: bytes, y: bytes)
    requires i.alg != [] && i.bits == 256 && Fits(i, false) && i.supp.Some?
    requires Key(hash, z, i, false) == Key(hash, z, i, true)
    ensures Collision(hash, x, y)
  {
    FormsDiffer(i);
    x, y := EqualKeysCollide(hash, z, i, false, z, i, true);
  }
}
