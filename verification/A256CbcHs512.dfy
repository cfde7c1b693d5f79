/** A256CBC-HS512 of section 5.2.5 of RFC 7518 over abstract AES-CBC and HMAC (src/a256cbc-hs512.js). */
module A256CbcHs512 {
  import opened Wrappers
  import opened JsNumber
  import opened Bytes
  import P = Positional

  const CEK_BYTES := 64
  const IV_BYTES := 16
  const TAG_BYTES := 32

  // ----- the 64-bit length

  /** The least e for which x fits in 53 bits over 2^e. */
  function Exponent(x: nat): (e: nat)
    ensures x < 0x20_0000_0000_0000 ==> e == 0
  {
    if x < 0x20_0000_0000_0000 then 0 else 1 + Exponent(x / 2)
  }

  /** `Number(x)` of a BigInt: the nearest double, ties to the even one. */
  function ToDouble(x: nat): nat {
    var unit := Pow2(Exponent(x));
    var q, r := x / unit, x % unit;
    P.DivModOf(x, unit);
    if 2 * r < unit || (2 * r == unit && q % 2 == 0) then q * unit else (q + 1) * unit
  }

  /** `bits >> BigInt(k)` on a non-negative BigInt. */
  function BigShr(x: nat, k: nat): nat {
    P.DivModOf(x, Pow2(k));
    x / Pow2(k)
  }

  /** One byte of the length: `Number(bits >> BigInt((7 - i) * 8)) & 0xff`. */
  function LengthByte(byteLen: nat, i: nat): byte
    requires i < 8
  {
    Pow2Of8();
    LowBits(ToDouble(BigShr(byteLen * 8, (7 - i) * 8)), 8)
  }

  lemma Pow2Of8()
    ensures Pow2(8) == 256
  {
  }

  function BitLength(byteLen: nat): (al: bytes)
    ensures |al| == 8
  {
    [LengthByte(byteLen, 0), LengthByte(byteLen, 1), LengthByte(byteLen, 2), LengthByte(byteLen, 3),
     LengthByte(byteLen, 4), LengthByte(byteLen, 5), LengthByte(byteLen, 6), LengthByte(byteLen, 7)]
  }

  method Uint64BeBitLen(byteLen: nat) returns (out: array<byte>)
    ensures fresh(out) && out[..] == BitLength(byteLen)
  {
    hide LengthByte;
    out := new byte[8](_ => 0);
    var i := 7;
    while i >= 0
      invariant -1 <= i <= 7
      invariant forall j :: i < j < 8 ==> out[j] == LengthByte(byteLen, j)
    {
      out[i] := LengthByte(byteLen, i);
      i := i - 1;
    }
    assert out[..] == [out[0], out[1], out[2], out[3], out[4], out[5], out[6], out[7]];
  }

  /** The values a Number can have among the non-negative integers; an array length is one. */
  predicate IsNumber(x: nat) {
    ToDouble(x) == x
  }

  /** A number of bytes whose number of bits fits in 64. */
  predicate IsByteLength(n: nat): (b: bool)
    ensures n < 0x20_0000_0000_0000 ==> b
  {
    IsNumber(n) && n < 0x2000_0000_0000_0000
  }

  /** At most 53 significant bits: whole units of its exponent. */
  predicate IsWhole(x: nat) {
    x % Pow2(Exponent(x)) == 0
  }

  lemma NumbersAreWhole(x: nat)
    ensures IsNumber(x) <==> IsWhole(x)
  {
    var unit := Pow2(Exponent(x));
    var q := x / unit;
    P.DivModOf(x, unit);
    P.DivModUnique(q, 0, unit);
    P.DivModUnique(q + 1, 0, unit);
  }

  lemma {:induction false} DoubleIsWhole(x: nat)
    requires IsWhole(x)
    ensures IsWhole(2 * x)
  {
    var unit, q := Pow2(Exponent(x)), x / Pow2(Exponent(x));
    P.DivModOf(x, unit);
    if 2 * x >= 0x20_0000_0000_0000 {
      assert Exponent(2 * x) == 1 + Exponent(x) && 2 * x == q * (2 * unit);
      P.DivModUnique(q, 0, 2 * unit);
    }
  }

  lemma HalfIsWhole(x: nat)
    requires IsWhole(x)
    ensures IsWhole(x / 2)
  {
    if x >= 0x20_0000_0000_0000 {
      var unit := Pow2(Exponent(x / 2));
      assert Pow2(Exponent(x)) == 2 * unit;
      hide Exponent, Pow2;
      var q := x / (2 * unit);
      P.DivModOf(x, 2 * unit);
      assert x == 2 * (q * unit);
      assert x / 2 == q * unit + 0;
      P.DivModUnique(q, 0, unit);
    }
  }

  /** Eight times a Number, shifted down any distance, still converts exactly. */
  lemma {:induction false} ShiftedIsNumber(byteLen: nat, k: nat)
    requires IsNumber(byteLen)
    ensures IsNumber(BigShr(byteLen * 8, k))
  {
    NumbersAreWhole(BigShr(byteLen * 8, k));
    hide Exponent, ToDouble, IsWhole, IsNumber;
    if k == 0 {
      NumbersAreWhole(byteLen);
      DoubleIsWhole(byteLen);
      DoubleIsWhole(2 * byteLen);
      DoubleIsWhole(4 * byteLen);
      assert BigShr(byteLen * 8, 0) == byteLen * 8;
    } else {
      ShiftedIsNumber(byteLen, k - 1);
      NumbersAreWhole(BigShr(byteLen * 8, k - 1));
      HalfIsWhole(BigShr(byteLen * 8, k - 1));
      DivDiv(byteLen * 8, Pow2(k - 1), 2);
    }
  }

  lemma DivDiv(x: nat, a: nat, b: nat)
    requires a > 0 && b > 0
    ensures a * b > 0 && x / (a * b) == x / a / b
  {
    var q, r := x / a, x % a;
    var q2, r2 := q / b, q % b;
    P.DivModOf(x, a);
    P.DivModOf(q, b);
    P.MulOrder(a, r2, b - 1);
    P.MulOrder(a, 1, b);
    assert a * r2 + r < a * b;
    calc {
      x;
      a * q + r;
      a * (b * q2 + r2) + r;
      { assert a * (b * q2) == q2 * (a * b); }
      q2 * (a * b) + (a * r2 + r);
    }
    P.DivModUnique(q2, a * r2 + r, a * b);
  }

  lemma ByteIsExact(byteLen: nat, i: nat)
    requires IsNumber(byteLen) && i < 8
    ensures LengthByte(byteLen, i) == BigShr(byteLen * 8, (7 - i) * 8) % 256
  {
    Pow2Of8();
    ShiftedIsNumber(byteLen, (7 - i) * 8);
    hide ToDouble, Pow2;
  }

  lemma {:induction false} TopBytes(byteLen: nat, n: nat)
    requires IsByteLength(byteLen) && n <= 8
    ensures P.BigEnd(BitLength(byteLen)[..n], 256) == BigShr(byteLen * 8, 64 - 8 * n)
  {
    hide LengthByte;
    var al, x := BitLength(byteLen), byteLen * 8;
    if n == 0 {
      TooFar(x);
    } else {
      TopBytes(byteLen, n - 1);
      var low := BigShr(x, 64 - 8 * n);
      Pow2Of8();
      Pow2Sum(64 - 8 * n, 8);
      DivDiv(x, Pow2(64 - 8 * n), 256);
      P.DivModOf(low, 256);
      assert al[n - 1] == LengthByte(byteLen, n - 1);
      ByteIsExact(byteLen, n - 1);
      assert al[..n][..n - 1] == al[..n - 1];
    }
  }

  lemma TooFar(x: nat)
    requires x < 0x1_0000_0000_0000_0000
    ensures BigShr(x, 64) == 0
  {
    Pow2Is32();
    Pow2Sum(32, 32);
    P.DivModOf(x, Pow2(64));
  }

  /** AL is exactly the 64-bit big-endian number of bits, for every Number of bytes whose bits fit in 64. */
  lemma BitLengthIsExact(byteLen: nat)
    requires IsByteLength(byteLen)
    ensures P.BigEnd(BitLength(byteLen), 256) == byteLen * 8
  {
    TopBytes(byteLen, 8);
    hide LengthByte;
    assert BitLength(byteLen)[..8] == BitLength(byteLen);
  }

  // ----- the MAC input

  function MacInput(aad: bytes, iv: bytes, ciphertext: bytes): bytes {
    Concat([aad, iv, ciphertext, BitLength(|aad|)])
  }

  /** The three parts, read back with the length at the end. */
  function ParseMacInput(b: bytes): Option<(bytes, bytes, bytes)> {
    if |b| < 8 then None
    else
      var n := P.BigEnd(b[|b| - 8..], 256) / 8;
      if n < 0 || |b| < n + IV_BYTES + 8 then None
      else Some((b[..n], b[n..n + IV_BYTES], b[n + IV_BYTES..|b| - 8]))
  }

  lemma ConcatFour(a: bytes, b: bytes, c: bytes, d: bytes)
    ensures Concat([a, b, c, d]) == a + (b + (c + d))
  {
    assert [a, b, c, d][1..] == [b, c, d] && [b, c, d][1..] == [c, d] && [c, d][1..] == [d] && [d][1..] == [];
    assert Concat([d]) == d + [] == d;
    assert Concat([c, d]) == c + d;
    assert Concat([b, c, d]) == b + (c + d);
  }

  lemma FourCuts(a: bytes, b: bytes, c: bytes, d: bytes)
    ensures var s := a + (b + (c + d)); var i, j := |a| + |b|, |a| + |b| + |c|;
      s[..|a|] == a && s[|a|..i] == b && s[i..j] == c && s[j..] == d
  {
  }

  /** The MAC input determines the data it authenticates. */
  lemma MacInputRoundTrip(aad: bytes, iv: bytes, ciphertext: bytes)
    requires |iv| == IV_BYTES && IsByteLength(|aad|)
    ensures ParseMacInput(MacInput(aad, iv, ciphertext)) == Some((aad, iv, ciphertext))
  {
    BitLengthIsExact(|aad|);
    hide *;
    var al := BitLength(|aad|);
    var b := aad + (iv + (ciphertext + al));
    MacInputIs(aad, iv, ciphertext);
    FourCuts(aad, iv, ciphertext, al);
    ParseAt(b, |aad|);
  }

  lemma MacInputIs(aad: bytes, iv: bytes, ciphertext: bytes)
    ensures MacInput(aad, iv, ciphertext) == aad + (iv + (ciphertext + BitLength(|aad|)))
  {
    hide BitLength, Concat;
    ConcatFour(aad, iv, ciphertext, BitLength(|aad|));
  }

  lemma ParseAt(b: bytes, n: nat)
    requires |b| >= n + 24 && P.BigEnd(b[|b| - 8..], 256) == n * 8
    ensures ParseMacInput(b) == Some((b[..n], b[n..n + 16], b[n + 16..|b| - 8]))
  {
    hide P.BigEnd;
  }

  // ----- comparing tags

  /** True exactly for equal contents. */
  method ConstantTimeEqual(a: bytes, b: bytes) returns (equal: bool)
    ensures equal <==> a == b
  {
    Pow2Of8();
    hide Xor, Or, Pow2;
    if |a| != |b| { return false; }
    var acc: byte := 0;
    var i := 0;
    while i < |a|
      invariant i <= |a| && (acc == 0 <==> a[..i] == b[..i])
    {
      assert a[..i + 1] == a[..i] + [a[i]] && b[..i + 1] == b[..i] + [b[i]];
      acc := Or(acc, Xor(a[i], b[i], 8), 8);
      i := i + 1;
    }
    assert a[..i] == a && b[..i] == b;
    return acc == 0;
  }

  // ----- authenticated encryption

  type Mac = m: bytes | |m| == 64 witness seq(64, i => 0)

  /** AES-256-CBC with padding, and HMAC-SHA-512. */
  datatype Primitives = Primitives(
    cbcEncrypt: (bytes, bytes, bytes) -> bytes,
    cbcDecrypt: (bytes, bytes, bytes) -> Option<bytes>,
    hmac: (bytes, bytes) -> Mac)

  /** Decryption undoes encryption under the same key and iv. */
  ghost predicate Lawful(p: Primitives) {
    forall k, iv, m :: |k| == 32 && |iv| == IV_BYTES ==> p.cbcDecrypt(k, iv, p.cbcEncrypt(k, iv, m)) == Some(m)
  }

  datatype AeadError = BadSize | TagMismatch | BadPadding

  function Tag(p: Primitives, macKey: bytes, aad: bytes, iv: bytes, ciphertext: bytes): (t: bytes)
    ensures |t| == TAG_BYTES
  {
    p.hmac(macKey, MacInput(aad, iv, ciphertext))[..TAG_BYTES]
  }

  function Encrypted(p: Primitives, cek: bytes, iv: bytes, aad: bytes, plaintext: bytes): Result<(bytes, bytes), AeadError> {
    if |cek| != CEK_BYTES || |iv| != IV_BYTES then Err(BadSize)
    else
      var ciphertext := p.cbcEncrypt(cek[32..], iv, plaintext);
      Ok((ciphertext, Tag(p, cek[..32], aad, iv, ciphertext)))
  }

  function Decrypted(p: Primitives, cek: bytes, iv: bytes, aad: bytes, ciphertext: bytes, tag: bytes): Result<bytes, AeadError> {
    if |cek| != CEK_BYTES || |iv| != IV_BYTES || |tag| != TAG_BYTES then Err(BadSize)
    else if Tag(p, cek[..32], aad, iv, ciphertext) != tag then Err(TagMismatch)
    else
      match p.cbcDecrypt(cek[32..], iv, ciphertext)
      case None => Err(BadPadding)
      case Some(m) => Ok(m)
  }

  method HmacTag(p: Primitives, macKey: bytes, aad: bytes, iv: bytes, ciphertext: bytes) returns (tag: bytes)
    ensures tag == Tag(p, macKey, aad, iv, ciphertext)
  {
    hide BitLength, Concat;
    var al := Uint64BeBitLen(|aad|);
    var input := Concatenate([aad, iv, ciphertext, al[..]]);
    var sig := p.hmac(macKey, input[..]);
    return sig[..TAG_BYTES];
  }

  method Encrypt(p: Primitives, cek: bytes, iv: bytes, aad: bytes, plaintext: bytes) returns (r: Result<(bytes, bytes), AeadError>)
    ensures r == Encrypted(p, cek, iv, aad, plaintext)
  {
    hide Tag;
    if |cek| != CEK_BYTES || |iv| != IV_BYTES { return Err(BadSize); }
    var macKey, encKey := cek[..32], cek[32..];
    var ciphertext := p.cbcEncrypt(encKey, iv, plaintext);
    var tag := HmacTag(p, macKey, aad, iv, ciphertext);
    return Ok((ciphertext, tag));
  }

  method Decrypt(p: Primitives, cek: bytes, iv: bytes, aad: bytes, ciphertext: bytes, tag: bytes) returns (r: Result<bytes, AeadError>)
    ensures r == Decrypted(p, cek, iv, aad, ciphertext, tag)
  {
    hide Tag;
    if |cek| != CEK_BYTES || |iv| != IV_BYTES || |tag| != TAG_BYTES { return Err(BadSize); }
    var macKey, encKey := cek[..32], cek[32..];
    var expected := HmacTag(p, macKey, aad, iv, ciphertext);
    var same := ConstantTimeEqual(expected, tag);
    if !same { return Err(TagMismatch); }
    var m := p.cbcDecrypt(encKey, iv, ciphertext);
    return if m.Some? then Ok(m.value) else Err(BadPadding);
  }

  /** What is sealed: CBC under the second half of the key, the truncated MAC under the first, over aad, iv, ciphertext and AL. */
  lemma SealsExactly(p: Primitives, cek: bytes, iv: bytes, aad: bytes, plaintext: bytes, ciphertext: bytes, tag: bytes)
    ensures Encrypted(p, cek, iv, aad, plaintext) == Ok((ciphertext, tag)) <==>
      && |cek| == 64 && |iv| == 16 && ciphertext == p.cbcEncrypt(cek[32..], iv, plaintext)
      && tag == p.hmac(cek[..32], aad + (iv + (ciphertext + BitLength(|aad|))))[..32]
  {
    MacInputIs(aad, iv, ciphertext);
    hide BitLength, MacInput;
  }

  /** What opens: the sizes, the tag and the padding must all be right; the first that is not is reported. */
  lemma OpensExactly(p: Primitives, cek: bytes, iv: bytes, aad: bytes, ciphertext: bytes, tag: bytes, plaintext: bytes)
    ensures Decrypted(p, cek, iv, aad, ciphertext, tag) == Err(BadSize) <==> !(|cek| == 64 && |iv| == 16 && |tag| == 32)
    ensures Decrypted(p, cek, iv, aad, ciphertext, tag) == Err(TagMismatch) <==>
      && |cek| == 64 && |iv| == 16 && |tag| == 32
      && tag != p.hmac(cek[..32], aad + (iv + (ciphertext + BitLength(|aad|))))[..32]
    ensures Decrypted(p, cek, iv, aad, ciphertext, tag) == Ok(plaintext) <==>
      && |cek| == 64 && |iv| == 16 && |tag| == 32 && p.cbcDecrypt(cek[32..], iv, ciphertext) == Some(plaintext)
      && tag == p.hmac(cek[..32], aad + (iv + (ciphertext + BitLength(|aad|))))[..32]
  {
    MacInputIs(aad, iv, ciphertext);
    hide BitLength, MacInput;
  }

  /** What was encrypted is decrypted, under lawful primitives. */
  lemma DecryptsEncrypted(p: Primitives, cek: bytes, iv: bytes, aad: bytes, plaintext: bytes)
    requires Lawful(p) && |cek| == CEK_BYTES && |iv| == IV_BYTES
    ensures var r := Encrypted(p, cek, iv, aad, plaintext);
      r.Ok? && Decrypted(p, cek, iv, aad, r.value.0, r.value.1) == Ok(plaintext)
  {
    hide Tag;
  }

  /** One key and tag opening two different envelopes is a collision of the truncated MAC. */
  lemma TwoOpeningsCollide(p: Primitives, cek: bytes, tag: bytes,
                           iv: bytes, aad: bytes, ciphertext: bytes,
                           iv': bytes, aad': bytes, ciphertext': bytes)
      returns (x: bytes, y: bytes)
    requires Decrypted(p, cek, iv, aad, ciphertext, tag).Ok? && Decrypted(p, cek, iv', aad', ciphertext', tag).Ok?
    requires IsByteLength(|aad|) && IsByteLength(|aad'|)
    requires iv != iv' || aad != aad' || ciphertext != ciphertext'
    ensures x != y && p.hmac(cek[..32], x)[..TAG_BYTES] == p.hmac(cek[..32], y)[..TAG_BYTES]
  {
    MacInputRoundTrip(aad, iv, ciphertext);
    MacInputRoundTrip(aad', iv', ciphertext');
    hide MacInput, ParseMacInput;
    x, y := MacInput(aad, iv, ciphertext), MacInput(aad', iv', ciphertext');
  }
}
