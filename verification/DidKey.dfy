/** The Ed25519 to X25519 public key conversion (src/did-key.js). */
module DidKey {
  import opened Wrappers
  import opened JsNumber
  import opened Fermat
  import P = Positional

  /** 2^255 - 19. */
  const FIELD_PRIME: int := 0x7fffffff_ffffffff_ffffffff_ffffffff_ffffffff_ffffffff_ffffffff_ffffffed

  ghost predicate Congruent(m: int, a: int, b: int)
    requires m != 0
  {
    Divides(m, a - b)
  }

  // ----- modular exponentiation

  lemma CongruentMul(m: int, a: int, b: int, c: int)
    requires m != 0 && Congruent(m, a, b)
    ensures Congruent(m, a * c, b * c)
  {
    DividesMul(m, a - b, c);
    assert (a - b) * c == a * c - b * c;
  }

  lemma CongruentTrans(m: int, a: int, b: int, c: int)
    requires m != 0 && Congruent(m, a, b) && Congruent(m, b, c)
    ensures Congruent(m, a, c)
  {
    DividesSum(m, a - b, b - c);
  }

  lemma CongruentSym(m: int, a: int, b: int)
    requires m != 0 && Congruent(m, a, b)
    ensures Congruent(m, b, a)
  {
    DividesWitness(m, 0, 0);
    DividesSum(m, 0, a - b);
  }

  lemma Reduced(m: int, a: int)
    requires m > 0
    ensures Congruent(m, a % m, a)
  {
    P.DivModOf(a, m);
    DividesWitness(m, -(a / m), a % m - a);
  }

  lemma {:induction false} CongruentPow(m: int, a: int, b: int, n: nat)
    requires m != 0 && Congruent(m, a, b)
    ensures Congruent(m, Pow(a, n), Pow(b, n))
  {
    if n == 0 {
      DividesWitness(m, 0, 0);
    } else {
      CongruentPow(m, a, b, n - 1);
      CongruentMul(m, Pow(a, n - 1), Pow(b, n - 1), a);
      CongruentMul(m, a, b, Pow(b, n - 1));
      CongruentTrans(m, a * Pow(a, n - 1), a * Pow(b, n - 1), b * Pow(b, n - 1));
    }
  }

  lemma {:induction false} PowOfSquare(b: int, h: nat)
    ensures Pow(b * b, h) == Pow(b, 2 * h)
  {
    if h > 0 {
      PowOfSquare(b, h - 1);
      assert Pow(b, 2 * h) == b * Pow(b, 2 * h - 1) == b * (b * Pow(b, 2 * h - 2));
    }
  }

  /** One round of square-and-multiply keeps `result * b^e` modulo m. */
  lemma SquareAndMultiply(m: int, result: int, b: int, e: nat, result': int, b': int)
    requires m > 0 && e > 0
    requires result' == if e % 2 == 1 then (result * b) % m else result
    requires b' == (b * b) % m
    ensures Congruent(m, result' * Pow(b', e / 2), result * Pow(b, e))
  {
    var h := e / 2;
    Reduced(m, b * b);
    CongruentPow(m, b', b * b, h);
    PowOfSquare(b, h);
    var w := Pow(b, 2 * h);
    CongruentMul(m, Pow(b', h), w, result');
    if e % 2 == 1 {
      assert e == 2 * h + 1 && Pow(b, e) == b * w;
      Reduced(m, result * b);
      CongruentMul(m, result', result * b, w);
      assert (result * b) * w == result * (b * w);
      CongruentTrans(m, result' * Pow(b', h), result' * w, result * Pow(b, e));
    }
  }

  /** `modPow`; like the source it returns 1, not 1 mod m, when there is nothing to multiply. */
  method ModPow(base: int, exp: int, mod: int) returns (result: int)
    requires mod > 0
    ensures exp <= 0 ==> result == 1
    ensures exp > 0 ==> result == Pow(base, exp) % mod
  {
    result := 1;
    var b := Rem(base, mod);
    ghost var start := b;
    if b < 0 { b := b + mod; }
    var e := exp;
    if exp > 0 {
      NormalisedRemainder(base, mod);
      CongruentPow(mod, b, base, exp);
    }
    while e > 0
      invariant exp <= 0 ==> e == exp && result == 1
      invariant exp > 0 ==> e >= 0 && Congruent(mod, result * Pow(b, e), Pow(base, exp))
      invariant exp > 0 && e == 0 ==> 0 <= result < mod
    {
      ghost var r0, b0, e0 := result, b, e;
      if e % 2 == 1 { result := (result * b) % mod; }
      e := e / 2;
      b := (b * b) % mod;
      SquareAndMultiply(mod, r0, b0, e0, result, b);
      CongruentTrans(mod, result * Pow(b, e), r0 * Pow(b0, e0), Pow(base, exp));
    }
    if exp > 0 {
      CongruentIsMod(mod, result, Pow(base, exp));
      P.DivModOf(result, mod);
      DividesWitness(mod, 0, 0);
      CongruentIsMod(mod, result % mod, result);
      Unreduced(result, mod);
    }
  }

  lemma Unreduced(r: int, m: int)
    requires 0 <= r < m
    ensures r % m == r
  {
    P.DivModOf(r, m);
  }

  /** `x % m`, plus m when negative, is the residue of x. */
  lemma NormalisedRemainder(x: int, m: int)
    requires m > 0
    ensures var r := Rem(x, m); (if r < 0 then r + m else r) == x % m && Congruent(m, x % m, x)
  {
    Reduced(m, x);
    if x < 0 {
      var r := Rem(x, m);
      var s := if r < 0 then r + m else r;
      P.DivModOf(-x, m);
      DividesWitness(m, (-x) / m + (if r < 0 then 1 else 0), s - x);
      CongruentIsMod(m, s, x);
      Unreduced(s, m);
    }
  }

  /** `modInverse`, for a prime modulus and a residue. */
  method ModInverse(a: nat, p: int) returns (r: int)
    requires p > 2
    ensures r == Pow(a, p - 2) % p
    ensures IsPrime(p) && !Divides(p, a) ==> Congruent(p, a * r, 1)
    ensures a == 0 ==> r == 0
  {
    r := ModPow(a, p - 2, p);
    if IsPrime(p) && !Divides(p, a) {
      FermatInverse(p, a);
      Reduced(p, Pow(a, p - 2));
      CongruentMul(p, r, Pow(a, p - 2), a);
      CongruentTrans(p, a * r, a * Pow(a, p - 2), 1);
    }
    if a == 0 {
      assert Pow(0, p - 2) == 0 * Pow(0, p - 3);
      Unreduced(0, p);
    }
  }

  // ----- the birational map

  /** u is the Montgomery coordinate of the Edwards y (section 4.1 of RFC 7748), 0 where the map is undefined. */
  ghost predicate IsMontgomeryU(p: int, y: int, u: int)
    requires p > 2
  {
    && 0 <= u < p
    && (if Congruent(p, y, 1) then u == 0 else Congruent(p, u * (1 - y), 1 + y))
  }

  method EdwardsToMontgomery(y: nat, p: int) returns (u: int)
    requires p > 2
    ensures 0 <= u < p
    ensures IsPrime(p) ==> IsMontgomeryU(p, y, u)
  {
    var num := Rem(1 + y, p);
    var denomRaw := Rem(1 - y, p);
    var denom := if denomRaw < 0 then denomRaw + p else denomRaw;
    NormalisedRemainder(1 - y, p);
    NormalisedRemainder(1 + y, p);
    P.DivModOf(1 - y, p);
    P.DivModOf(1 + y, p);
    var inverse := ModInverse(denom, p);
    u := Rem(num * inverse, p);
    InverseRange(p, num, inverse);
    if IsPrime(p) {
      if Congruent(p, y, 1) {
        CongruentSym(p, y, 1);
        DividesIsMod(p, 1 - y);
        assert inverse == 0;
        Unreduced(0, p);
      } else {
        DenominatorIsUnit(p, y, denom);
        QuotientIsU(p, y, num, denom, inverse, u);
      }
    }
  }

  lemma InverseRange(p: int, num: int, inverse: int)
    requires p > 2 && num >= 0 && inverse >= 0
    ensures num * inverse >= 0 && Rem(num * inverse, p) == (num * inverse) % p
  {
  }

  lemma DenominatorIsUnit(p: int, y: int, denom: int)
    requires p > 2 && !Congruent(p, y, 1) && denom == (1 - y) % p
    ensures !Divides(p, denom)
  {
    P.DivModOf(1 - y, p);
    if Divides(p, denom) {
      SmallMultiple(p, denom);
      DividesIsMod(p, 1 - y);
      CongruentSym(p, 1, y);
    }
  }

  lemma QuotientIsU(p: int, y: int, num: int, denom: int, inverse: int, u: int)
    requires p > 2 && num == (1 + y) % p && denom == (1 - y) % p
    requires Congruent(p, denom * inverse, 1) && u == (num * inverse) % p
    ensures Congruent(p, u * (1 - y), 1 + y)
  {
    Reduced(p, 1 + y);
    Reduced(p, 1 - y);
    CongruentSym(p, denom, 1 - y);
    CongruentMul(p, 1 - y, denom, u);
    QuotientTimesDenominator(p, num, denom, inverse, u);
    CongruentTrans(p, (1 - y) * u, denom * u, num);
    CongruentTrans(p, (1 - y) * u, num, 1 + y);
  }

  lemma QuotientTimesDenominator(p: int, num: int, denom: int, inverse: int, u: int)
    requires p > 0 && Congruent(p, denom * inverse, 1) && u == (num * inverse) % p
    ensures Congruent(p, denom * u, num)
  {
    Reduced(p, num * inverse);
    CongruentMul(p, u, num * inverse, denom);
    CongruentMul(p, denom * inverse, 1, num);
    assert (num * inverse) * denom == (denom * inverse) * num;
    CongruentTrans(p, u * denom, num * inverse * denom, 1 * num);
  }

  /** The coordinate is determined by y modulo p. */
  lemma MontgomeryUIsUnique(p: int, y: int, u: int, v: int)
    requires IsPrime(p) && p > 2 && IsMontgomeryU(p, y, u) && IsMontgomeryU(p, y, v)
    ensures u == v
  {
    if !Congruent(p, y, 1) {
      CongruentSym(p, v * (1 - y), 1 + y);
      CongruentTrans(p, u * (1 - y), 1 + y, v * (1 - y));
      assert u * (1 - y) - v * (1 - y) == (1 - y) * (u - v);
      Euclid(p, 1 - y, u - v);
      if Divides(p, 1 - y) { CongruentSym(p, 1, y); }
      SmallMultiple(p, u - v);
    }
  }

  /** Distinct y modulo p, other than 1, have distinct coordinates. */
  lemma MapIsInjective(p: int, y: int, z: int, u: int)
    requires IsPrime(p) && p > 2 && IsMontgomeryU(p, y, u) && IsMontgomeryU(p, z, u)
    requires !Congruent(p, y, 1) && !Congruent(p, z, 1)
    ensures Congruent(p, y, z)
  {
    // u(1-y) = 1+y and u(1-z) = 1+z give (u+1)(y-z) = 0; u+1 = 0 would make 2 a multiple of p
    CongruentSym(p, u * (1 - y), 1 + y);
    DividesSum(p, u * (1 - z) - (1 + z), u * (1 - y) - (1 + y));
    CrossMultiplied(u, y, z);
    Euclid(p, u + 1, y - z);
    if Divides(p, u + 1) {
      CrossMultiplied(u, y, y);
      DividesMul(p, u + 1, 1 - y);
      DividesSum(p, (u + 1) * (1 - y), u * (1 - y) - (1 + y));
      SmallMultiple(p, 2);
    }
  }

  lemma CrossMultiplied(u: int, y: int, z: int)
    ensures (u * (1 - z) - (1 + z)) - (u * (1 - y) - (1 + y)) == (u + 1) * (y - z)
    ensures (u + 1) * (1 - y) - (u * (1 - y) - (1 + y)) == 2
  {
    assert u * (1 - z) == u - u * z && u * (1 - y) == u - u * y;
    assert (u + 1) * (y - z) == u * y - u * z + (y - z);
    assert (u + 1) * (1 - y) == u * (1 - y) + (1 - y);
  }

  // ----- byte strings

  /** `leToBigInt`. */
  method LeToBigInt(bytes: seq<byte>) returns (out: nat)
    ensures out == P.LittleEnd(bytes, 256)
  {
    out := 0;
    var i := |bytes| - 1;
    while i >= 0
      invariant -1 <= i < |bytes|
      invariant out == P.LittleEnd(bytes[i + 1..], 256)
    {
      assert bytes[i..][1..] == bytes[i + 1..];
      out := out * 256 + bytes[i];
      i := i - 1;
    }
    assert bytes[0..] == bytes;
  }

  /** The k low bytes of n, least significant first. */
  function LeBytes(n: nat, k: nat): (s: seq<byte>)
    ensures |s| == k
    decreases k
  {
    if k == 0 then [] else [n % 256] + LeBytes(n / 256, k - 1)
  }

  lemma {:induction false} LeBytesValue(n: nat, k: nat)
    requires n < Pow(256, k)
    ensures P.LittleEnd(LeBytes(n, k), 256) == n
    decreases k
  {
    if k > 0 {
      LeBytesValue(n / 256, k - 1);
      assert LeBytes(n, k)[1..] == LeBytes(n / 256, k - 1);
    }
  }

  /** `bigIntToLe32`. */
  method BigIntToLe32(n: nat) returns (out: array<byte>)
    ensures fresh(out) && out[..] == LeBytes(n, 32)
  {
    hide LeBytes;
    out := new byte[32];
    var rest := n;
    for i := 0 to 32
      invariant rest >= 0
      invariant forall k :: 0 <= k < i ==> out[k] == LeBytes(n, out.Length)[k]
      invariant LeBytes(rest, out.Length - i) == LeBytes(n, out.Length)[i..]
    {
      LeBytesStep(n, out.Length, i, rest);
      out[i] := rest % 256;
      rest := rest / 256;
    }
    assert out[..] == LeBytes(n, out.Length);
  }

  lemma LeBytesStep(n: nat, k: nat, i: nat, rest: nat)
    requires i < k && LeBytes(rest, k - i) == LeBytes(n, k)[i..]
    ensures LeBytes(n, k)[i] == rest % 256
    ensures LeBytes(rest / 256, k - i - 1) == LeBytes(n, k)[i + 1..]
  {
    assert LeBytes(n, k)[i..][1..] == LeBytes(n, k)[i + 1..];
  }

  lemma PowersOfTwo()
    ensures Pow2(7) == 128 && Pow2(8) == 256
    ensures Pow2(248) == 0x1000000_00000000_00000000_00000000_00000000_00000000_00000000_00000000
    ensures Pow2(255) == 128 * Pow2(248) && Pow2(256) == 256 * Pow2(248)
  {
    assert Pow2(7) == 128 && Pow2(8) == 256;
    Pow2Is32();
    hide Pow2;
    Pow2Sum(32, 32);
    assert Pow2(64) == 0x1_00000000_00000000;
    Pow2Sum(64, 64);
    assert Pow2(128) == 0x1_00000000_00000000_00000000_00000000;
    Pow2Sum(32, 16);
    Pow2Sum(48, 8);
    Pow2Sum(56, 64);
    assert Pow2(120) == 0x1000000_00000000_00000000_00000000;
    Pow2Sum(128, 120);
    Pow2Sum(7, 248);
    Pow2Sum(8, 248);
  }

  /** The modulus is the one of section 4.1 of RFC 7748. */
  lemma FieldIs25519()
    ensures FIELD_PRIME == Pow2(255) - 19
  {
    PowersOfTwo();
    hide Pow2;
  }

  lemma {:induction false} BytesAreBits(n: nat)
    ensures Pow(256, n) == Pow2(8 * n)
  {
    if n > 0 {
      BytesAreBits(n - 1);
      PowersOfTwo();
      hide Pow2;
      Pow2Sum(8, 8 * (n - 1));
    }
  }

  lemma FieldFitsIn32Bytes()
    ensures FIELD_PRIME < Pow(256, 32)
  {
    BytesAreBits(32);
    PowersOfTwo();
    hide Pow2;
  }

  // ----- the sign bit

  /** The last byte counts for the most. */
  lemma {:induction false} TopByte(s: seq<byte>)
    requires s != []
    ensures P.LittleEnd(s, 256) == P.LittleEnd(s[..|s| - 1], 256) + Pow(256, |s| - 1) * s[|s| - 1]
  {
    if |s| == 1 {
      assert s[1..] == [] && s[..0] == [];
    } else {
      TopByte(s[1..]);
      var n := |s| - 1;
      assert s[1..][..n - 1] == s[..n][1..];
      ScaleTop(s[0], P.LittleEnd(s[..n][1..], 256), Pow(256, n - 1), s[n]);
    }
  }

  lemma ScaleTop(first: int, v: int, p: int, x: int)
    ensures first + 256 * (v + p * x) == (first + 256 * v) + 256 * p * x
  {
  }

  lemma {:induction false} LittleEndBound(s: seq<byte>)
    ensures 0 <= P.LittleEnd(s, 256) < Pow(256, |s|)
  {
    if s != [] { LittleEndBound(s[1..]); }
  }

  /** Clearing the top bit of the last byte takes the number modulo 2^255. */
  lemma SignCleared(s: seq<byte>)
    requires |s| == 32
    ensures P.LittleEnd(s[31 := s[31] % 128], 256) == P.LittleEnd(s, 256) % Pow2(255)
  {
    var t := s[31 := s[31] % 128];
    var low, p := P.LittleEnd(s[..31], 256), Pow(256, 31);
    assert t[..31] == s[..31];
    TopByte(s);
    TopByte(t);
    LittleEndBound(s[..31]);
    BytesAreBits(31);
    PowersOfTwo();
    P.DivModOf(s[31], 128);
    hide P.LittleEnd, Pow, Pow2;
    SplitSign(low, p, s[31] / 128, s[31] % 128);
  }

  lemma SplitSign(low: int, p: int, h: int, l: int)
    requires 0 <= low < p && 0 <= l < 128
    ensures (low + p * (128 * h + l)) % (128 * p) == low + p * l
  {
    P.MulOrder(p, l, 127);
    P.MulOrder(p, 0, l);
    assert low + p * (128 * h + l) == h * (128 * p) + (low + p * l);
    P.DivModUnique(h, low + p * l, 128 * p);
  }

  datatype KeyError = WrongLength(actual: nat)

  /** `ed25519PublicKeyToX25519`: y is the low 255 bits of the input, which is not modified. */
  method Ed25519PublicKeyToX25519(edPub: array<byte>) returns (r: Result<array<byte>, KeyError>)
    ensures r.Err? <==> edPub.Length != 32
    ensures r.Ok? ==> fresh(r.value) && r.value.Length == 32
    ensures r.Ok? ==> P.LittleEnd(r.value[..], 256) < FIELD_PRIME
    ensures r.Ok? && IsPrime(FIELD_PRIME) ==>
      IsMontgomeryU(FIELD_PRIME, P.LittleEnd(edPub[..], 256) % Pow2(255), P.LittleEnd(r.value[..], 256))
  {
    if edPub.Length != 32 {
      return Err(WrongLength(edPub.Length));
    }
    var yLe := new byte[32](i requires 0 <= i < 32 reads edPub => edPub[i]);
    PowersOfTwo();
    hide Pow2;
    yLe[31] := LowBits(yLe[31], 7);
    assert yLe[..] == edPub[..][31 := edPub[31] % 128];
    SignCleared(edPub[..]);
    hide LowBits, Pow, P.LittleEnd;
    var y := LeToBigInt(yLe[..]);
    var u := EdwardsToMontgomery(y, FIELD_PRIME);
    FieldFitsIn32Bytes();
    LeBytesValue(u, 32);
    var out := BigIntToLe32(u);
    return Ok(out);
  }

  /** Two byte strings of one length with one value are the same. */
  lemma {:induction false} SameBytes(a: seq<byte>, b: seq<byte>)
    requires |a| == |b| && P.LittleEnd(a, 256) == P.LittleEnd(b, 256)
    ensures a == b
  {
    if a != [] {
      P.DivModUnique(P.LittleEnd(a[1..], 256), a[0], 256);
      P.DivModUnique(P.LittleEnd(b[1..], 256), b[0], 256);
      SameBytes(a[1..], b[1..]);
      assert a == [a[0]] + a[1..] && b == [b[0]] + b[1..];
    }
  }

  /** Two keys that differ in the sign bit only convert to the same bytes. */
  lemma SignIsIgnored(a: seq<byte>, b: seq<byte>, ra: seq<byte>, rb: seq<byte>)
    requires |a| == |b| == |ra| == |rb| == 32 && a[..31] == b[..31] && a[31] % 128 == b[31] % 128
    requires IsPrime(FIELD_PRIME)
    requires IsMontgomeryU(FIELD_PRIME, P.LittleEnd(a, 256) % Pow2(255), P.LittleEnd(ra, 256))
    requires IsMontgomeryU(FIELD_PRIME, P.LittleEnd(b, 256) % Pow2(255), P.LittleEnd(rb, 256))
    ensures ra == rb
  {
    hide P.LittleEnd, Pow, Pow2, IsMontgomeryU, IsPrime;
    SignCleared(a);
    SignCleared(b);
    assert a[31 := a[31] % 128] == a[..31] + [a[31] % 128] == b[31 := b[31] % 128];
    MontgomeryUIsUnique(FIELD_PRIME, P.LittleEnd(a, 256) % Pow2(255), P.LittleEnd(ra, 256), P.LittleEnd(rb, 256));
    SameBytes(ra, rb);
  }
}
