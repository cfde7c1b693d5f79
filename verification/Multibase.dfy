/** Base58btc and multikeys (src/multibase.js). */
module Multibase {
  import opened Wrappers
  import opened JsNumber
  import opened Positional

  const B58 := "123456789" + "ABCDEFGH" + "JKLMN" + "PQRSTUVWXYZ" + "abcdefghijk" + "mnopqrstuvwxyz"

  /** `B58[d]`, spelled by the runs of the alphabet (it skips 0, I, O and l). */
  function CharOf(d: int): (c: char)
    requires 0 <= d < 58
    ensures |B58| == 58 && c == B58[d]
  {
    if d < 9 then '1' + d as char
    else if d < 17 then 'A' + (d - 9) as char
    else if d < 22 then 'J' + (d - 17) as char
    else if d < 33 then 'P' + (d - 22) as char
    else if d < 44 then 'a' + (d - 33) as char
    else 'm' + (d - 44) as char
  }

  /** `B58_LOOKUP[c]`. */
  function ValueOf(c: char): (r: Option<int>)
    ensures r.Some? ==> 0 <= r.value < 58
  {
    if '1' <= c <= '9' then Some(c as int - '1' as int)
    else if 'A' <= c <= 'H' then Some(c as int - 'A' as int + 9)
    else if 'J' <= c <= 'N' then Some(c as int - 'J' as int + 17)
    else if 'P' <= c <= 'Z' then Some(c as int - 'P' as int + 22)
    else if 'a' <= c <= 'k' then Some(c as int - 'a' as int + 33)
    else if 'm' <= c <= 'z' then Some(c as int - 'm' as int + 44)
    else None
  }

  lemma LookupInvertsAlphabet(d: int, c: char)
    requires 0 <= d < 58
    ensures ValueOf(CharOf(d)) == Some(d)
    ensures ValueOf(c).Some? ==> CharOf(ValueOf(c).value) == c
  {
  }

  function Chars(ds: seq<int>): (s: string)
    requires AreDigits(ds, 58)
    ensures |s| == |ds| && forall i :: 0 <= i < |s| ==> s[i] == CharOf(ds[i])
  {
    seq(|ds|, i requires 0 <= i < |ds| => CharOf(ds[i]))
  }

  predicate InAlphabet(s: string) {
    forall i :: 0 <= i < |s| ==> ValueOf(s[i]).Some?
  }

  function Values(s: string): (ds: seq<int>)
    requires InAlphabet(s)
    ensures AreDigits(ds, 58)
    ensures |ds| == |s| && forall i :: 0 <= i < |s| ==> ds[i] == ValueOf(s[i]).value
  {
    seq(|s|, i requires 0 <= i < |s| => ValueOf(s[i]).value)
  }

  /** What base58btc text denotes a byte string. */
  function Encoded(bytes: seq<byte>): string {
    Chars(Transcode(bytes, 256, 58))
  }

  function Decoded(s: string): (bytes: seq<byte>)
    requires InAlphabet(s)
  {
    ToBytes(Transcode(Values(s), 58, 256))
  }

  function ToBytes(ds: seq<int>): (bytes: seq<byte>)
    requires AreDigits(ds, 256)
    ensures bytes == ds
  {
    seq(|ds|, i requires 0 <= i < |ds| => ds[i])
  }

  /** decode(encode(b)) is b, for every byte string, leading zeros included. */
  lemma DecodeEncode(bytes: seq<byte>)
    ensures InAlphabet(Encoded(bytes)) && Decoded(Encoded(bytes)) == bytes
  {
    var ds := Transcode(bytes, 256, 58);
    forall i | 0 <= i < |ds| ensures ValueOf(Chars(ds)[i]) == Some(ds[i]) {
      LookupInvertsAlphabet(ds[i], 'a');
    }
    assert Values(Chars(ds)) == ds;
    TranscodeRoundTrip(bytes, 256, 58);
  }

  /** encode(decode(s)) is s, for every string over the alphabet. */
  lemma EncodeDecode(s: string)
    requires InAlphabet(s)
    ensures Encoded(Decoded(s)) == s
  {
    TranscodeRoundTrip(Values(s), 58, 256);
    forall i | 0 <= i < |s| ensures Chars(Values(s))[i] == s[i] {
      LookupInvertsAlphabet(0, s[i]);
    }
  }

  /** One step of a carry pass: the lowest pending digit is rewritten, the carry moves on. */
  lemma CarryPass(now: seq<int>, j: nat, m: int, carry: int, base: int)
    requires base >= 2 && m >= 1 && carry >= 0 && AreDigits(now, base) && j < |now|
    ensures carry + now[j] * m >= 0
    ensures var c := carry + now[j] * m;
            && 0 <= c % base < base && c / base >= 0
            && now[..j] + MulAdd(now[j..], m, carry, base)
               == now[j := c % base][..j + 1] + MulAdd(now[j + 1..], m, c / base, base)
  {
    MulOrder(m, 0, now[j]);
    DivModOf(carry + now[j] * m, base);
    assert now[j..][1..] == now[j + 1..];
  }

  lemma MulAddNothing(m: int, carry: int, base: int)
    requires m >= 1 && carry >= 0 && base >= 2
    ensures MulAdd([], m, carry, base) == Digits(carry, base)
  {
  }

  /** Below 14848 the operators of the encoder are exact: `%`, `(carry / 58) | 0`. */
  lemma EncodeOps(carry: int, digit: int)
    requires 0 <= carry <= 255 && 0 <= digit < 58
    ensures carry + Shl(digit, 8) == carry + digit * 256 <= 14847
    ensures var c := carry + digit * 256; Rem(c, 58) == c % 58 && ToInt32(c / 58) == c / 58 <= 255
  {
    ShlIsMul(digit);
  }

  /** The pass `digits = digits * 256 + value`, in place, with 32-bit operators. */
  method EncodePass(before: seq<int>, value: byte) returns (digits: seq<int>)
    requires Canonical(before, 58)
    ensures digits == MulAdd(before, 256, value, 58)
    ensures Canonical(digits, 58) && LittleEnd(digits, 58) == 256 * LittleEnd(before, 58) + value
  {
    hide Shl, Rem, ToInt32, MulAdd, LittleEnd;
    digits := before;
    var carry: int := value;
    var j := 0;
    while j < |digits|
      invariant j <= |digits| == |before| && AreDigits(digits, 58) && 0 <= carry <= 255
      invariant digits[..j] + MulAdd(digits[j..], 256, carry, 58) == MulAdd(before, 256, value, 58)
    {
      CarryPass(digits, j, 256, carry, 58);
      EncodeOps(carry, digits[j]);
      carry := carry + Shl(digits[j], 8);
      digits := digits[j := Rem(carry, 58)];
      carry := ToInt32(carry / 58);
      j := j + 1;
    }
    assert digits[..j] == digits && digits[j..] == [];
    MulAddNothing(256, carry, 58);
    digits := PushCarry(digits, carry);
    MulAddValue(before, 256, value, 58);
    MulAddCanonical(before, 256, value, 58);
  }

  /** `while (carry > 0)`: the rest of the carry becomes new top digits. */
  method PushCarry(low: seq<int>, rest: int) returns (digits: seq<int>)
    requires 0 <= rest <= 255
    ensures digits == low + Digits(rest, 58)
  {
    digits := low;
    var carry := rest;
    while carry > 0
      invariant 0 <= carry <= 255
      invariant digits + Digits(carry, 58) == low + Digits(rest, 58)
    {
      DivShrinks(carry, 58);
      digits := digits + [Rem(carry, 58)];
      carry := ToInt32(carry / 58);
    }
  }

  /** `base58btcEncode`: carry propagation over a growing digit array. */
  method Base58btcEncode(bytes: seq<byte>) returns (s: string)
    ensures s == Encoded(bytes)
  {
    if |bytes| == 0 { return ""; }
    var zeros := 0;
    while zeros < |bytes| && bytes[zeros] == 0
      invariant zeros <= LeadingZeros(bytes)
    {
      zeros := zeros + 1;
    }
    var digits: seq<int> := [];
    LeadingValue(bytes, zeros, 256);
    for i := zeros to |bytes|
      invariant Canonical(digits, 58)
      invariant LittleEnd(digits, 58) == BigEnd(bytes[..i], 256)
    {
      assert bytes[..i + 1][..i] == bytes[..i];
      MulAddIsDigits(digits, 256, bytes[i], 58);
      digits := EncodePass(digits, bytes[i]);
    }
    assert bytes[..|bytes|] == bytes;
    CanonicalIsUnique(digits, 58);
    s := Spell(zeros, digits);
  }

  /** The final two loops: a `1` for each zero byte, then the digits from the top down. */
  method Spell(zeros: nat, digits: seq<int>) returns (s: string)
    requires AreDigits(digits, 58)
    ensures s == Chars(Zeros(zeros) + Reverse(digits))
  {
    s := "";
    for i := 0 to zeros
      invariant s == Chars(Zeros(i))
    {
      s := s + "1";
    }
    var i := |digits| - 1;
    while i >= 0
      invariant -1 <= i < |digits|
      invariant |s| == zeros + |digits| - 1 - i
      invariant forall k :: 0 <= k < |s| ==> s[k] == CharOf((Zeros(zeros) + Reverse(digits))[k])
    {
      s := s + [B58[digits[i]]];
      i := i - 1;
    }
  }

  /** Leading zeros contribute no value. */
  lemma LeadingValue(s: seq<int>, z: nat, base: int)
    requires z <= LeadingZeros(s)
    ensures BigEnd(s[..z], base) == 0
  {
    assert s[..z] == Zeros(z) + [];
    ZerosHaveNoValue(z, [], base);
  }

  /** On these ranges the 32-bit shift is an exact multiplication. */
  lemma ShlIsMul(x: int)
    requires 0 <= x < 256
    ensures Shl(x, 8) == x * 256
  {
    assert Pow2(8) == 256;
  }

  datatype Base58Error = InvalidChar(at: nat)

  /** Below 14848 the operators of the decoder are exact: `& 0xff`, `>>= 8`. */
  lemma DecodeOps(carry: int, value: int)
    requires 0 <= carry <= 57 && 0 <= value < 256
    ensures carry + value * 58 <= 14847
    ensures var c := carry + value * 58; LowBits(c, 8) == c % 256 && Shr(c, 8) == c / 256 <= 57
  {
    LowByte(carry + value * 58);
  }

  /** The pass `bytes = bytes * 58 + value`, in place, with 32-bit operators. */
  method DecodePass(before: seq<int>, value: int) returns (bytes: seq<int>)
    requires Canonical(before, 256) && 0 <= value < 58
    ensures bytes == MulAdd(before, 58, value, 256)
    ensures Canonical(bytes, 256) && LittleEnd(bytes, 256) == 58 * LittleEnd(before, 256) + value
  {
    hide LowBits, Shr, MulAdd, LittleEnd;
    bytes := before;
    var carry := value;
    var j := 0;
    while j < |bytes|
      invariant j <= |bytes| == |before| && AreDigits(bytes, 256) && 0 <= carry <= 57
      invariant bytes[..j] + MulAdd(bytes[j..], 58, carry, 256) == MulAdd(before, 58, value, 256)
    {
      CarryPass(bytes, j, 58, carry, 256);
      DecodeOps(carry, bytes[j]);
      carry := carry + bytes[j] * 58;
      bytes := bytes[j := LowBits(carry, 8)];
      carry := Shr(carry, 8);
      j := j + 1;
    }
    assert bytes[..j] == bytes && bytes[j..] == [];
    MulAddNothing(58, carry, 256);
    bytes := PushBytes(bytes, carry);
    MulAddValue(before, 58, value, 256);
    MulAddCanonical(before, 58, value, 256);
  }

  /** `while (carry > 0)`: the rest of the carry becomes new top bytes. */
  method PushBytes(low: seq<int>, rest: int) returns (bytes: seq<int>)
    requires 0 <= rest <= 57
    ensures bytes == low + Digits(rest, 256)
  {
    bytes := low;
    var carry := rest;
    while carry > 0
      invariant 0 <= carry <= 57
      invariant bytes + Digits(carry, 256) == low + Digits(rest, 256)
    {
      DivShrinks(carry, 256);
      LowByte(carry);
      bytes := bytes + [LowBits(carry, 8)];
      carry := Shr(carry, 8);
    }
  }

  /** `base58btcDecode`. */
  method Base58btcDecode(s: string) returns (r: Result<seq<byte>, Base58Error>)
    ensures r.Ok? <==> InAlphabet(s)
    ensures r.Ok? ==> r.value == Decoded(s)
    ensures r.Err? ==> r.error.at < |s| && ValueOf(s[r.error.at]).None? && InAlphabet(s[..r.error.at])
  {
    var zeros := 0;
    while zeros < |s| && s[zeros] == '1'
      invariant zeros <= |s| && forall k :: 0 <= k < zeros ==> s[k] == '1'
    {
      zeros := zeros + 1;
    }
    LeadingOnes(s, zeros);
    var bytes: seq<int> := [];
    var i := zeros;
    while i < |s|
      invariant zeros <= i <= |s| && InAlphabet(s[..i]) && Canonical(bytes, 256)
      invariant LittleEnd(bytes, 256) == BigEnd(Values(s[..i]), 58)
    {
      var value := ValueOf(s[i]);
      if value.None? {
        return Err(InvalidChar(i));
      }
      NextValue(s, i, bytes);
      bytes := DecodePass(bytes, value.value);
      i := i + 1;
    }
    assert s[..|s|] == s;
    CanonicalIsUnique(bytes, 256);
    var out := FillOut(zeros, bytes);
    return Ok(out);
  }

  /** Reading one more character multiplies the value by 58 and adds its digit. */
  lemma NextValue(s: string, i: nat, bytes: seq<int>)
    requires i < |s| && InAlphabet(s[..i]) && ValueOf(s[i]).Some? && Canonical(bytes, 256)
    requires LittleEnd(bytes, 256) == BigEnd(Values(s[..i]), 58)
    ensures InAlphabet(s[..i + 1])
    ensures Canonical(MulAdd(bytes, 58, ValueOf(s[i]).value, 256), 256)
    ensures LittleEnd(MulAdd(bytes, 58, ValueOf(s[i]).value, 256), 256) == BigEnd(Values(s[..i + 1]), 58)
  {
    assert s[..i + 1] == s[..i] + [s[i]];
    assert Values(s[..i + 1])[..i] == Values(s[..i]);
    MulAddIsDigits(bytes, 58, ValueOf(s[i]).value, 256);
  }

  /** The output buffer: zero bytes, then the bytes from the top down. */
  method FillOut(zeros: nat, bytes: seq<int>) returns (filled: seq<byte>)
    requires AreDigits(bytes, 256)
    ensures filled == Zeros(zeros) + Reverse(bytes)
  {
    var out := new byte[zeros + |bytes|](_ => 0);
    var i, j := |bytes| - 1, zeros;
    while i >= 0
      invariant -1 <= i < |bytes| && j == zeros + |bytes| - 1 - i
      invariant forall k :: 0 <= k < zeros ==> out[k] == 0
      invariant forall k :: zeros <= k < j ==> out[k] == Reverse(bytes)[k - zeros]
    {
      out[j] := bytes[i];
      i, j := i - 1, j + 1;
    }
    assert out[..] == Zeros(zeros) + Reverse(bytes);
    return out[..];
  }

  lemma OnesHaveNoValue(s: string, z: nat)
    requires z <= |s| && forall k :: 0 <= k < z ==> s[k] == '1'
    ensures InAlphabet(s[..z]) && BigEnd(Values(s[..z]), 58) == 0
  {
    assert Values(s[..z]) == Zeros(z) + [];
    ZerosHaveNoValue(z, [], 58);
  }

  /** `1` is the digit zero, and the only one. */
  lemma LeadingOnes(s: string, z: nat)
    requires z <= |s| && forall k :: 0 <= k < z ==> s[k] == '1'
    ensures InAlphabet(s[..z]) && BigEnd(Values(s[..z]), 58) == 0
    ensures InAlphabet(s) && (z < |s| ==> s[z] != '1') ==> LeadingZeros(Values(s)) == z
  {
    OnesHaveNoValue(s, z);
    hide BigEnd;
    if InAlphabet(s) && (z < |s| ==> s[z] != '1') {
      var n := LeadingZeros(Values(s));
      assert forall k :: 0 <= k < |s| && s[k] != '1' ==> Values(s)[k] != 0;
    }
  }

  // ----- multikeys

  /** How many bytes `decodeMultikey` takes for the unsigned varint in front. */
  function VarintLen(raw: seq<byte>): (n: nat)
    ensures n <= |raw|
  {
    if raw == [] then 0 else if raw[0] < 128 then 1 else 1 + VarintLen(raw[1..])
  }

  /** An unsigned varint: continuation bytes, then one byte with its high bit clear. */
  predicate IsVarint(codec: seq<byte>) {
    codec != [] && codec[|codec| - 1] < 128 && forall i :: 0 <= i < |codec| - 1 ==> codec[i] >= 128
  }

  predicate Unterminated(codec: seq<byte>) {
    forall i :: 0 <= i < |codec| ==> codec[i] >= 128
  }

  lemma {:induction false} VarintLenOf(codec: seq<byte>, key: seq<byte>)
    ensures VarintLen(codec + key) == |codec| <==> IsVarint(codec) || (Unterminated(codec) && key == [])
  {
    var raw := codec + key;
    if codec == [] {
      assert raw == key;
    } else if codec[0] >= 128 {
      assert raw[1..] == codec[1..] + key;
      VarintLenOf(codec[1..], key);
      assert IsVarint(codec[1..]) ==> IsVarint(codec) by {
        if IsVarint(codec[1..]) {
          forall i | 0 <= i < |codec| - 1 ensures codec[i] >= 128 {
            if i > 0 { assert codec[i] == codec[1..][i - 1]; }
          }
        }
      }
      assert Unterminated(codec[1..]) ==> Unterminated(codec) by {
        if Unterminated(codec[1..]) {
          forall i | 0 <= i < |codec| ensures codec[i] >= 128 {
            if i > 0 { assert codec[i] == codec[1..][i - 1]; }
          }
        }
      }
    }
  }

  function EncodeMultikey(codec: seq<byte>, key: seq<byte>): string {
    "z" + Encoded(codec + key)
  }

  datatype Multikey = Multikey(codec: seq<byte>, key: seq<byte>)
  datatype MultikeyError = NotBase58btc | BadChar(at: nat)

  function DecodeMultikeySpec(s: string): Option<Multikey> {
    if s == "" || s[0] != 'z' || !InAlphabet(s[1..]) then None
    else
      var raw := Decoded(s[1..]);
      Some(Multikey(raw[..VarintLen(raw)], raw[VarintLen(raw)..]))
  }

  method DecodeMultikey(s: string) returns (r: Result<Multikey, MultikeyError>)
    ensures r.Ok? <==> DecodeMultikeySpec(s).Some?
    ensures r.Ok? ==> r.value == DecodeMultikeySpec(s).value
    ensures r.Err? ==> (r.error.NotBase58btc? <==> s == "" || s[0] != 'z')
  {
    if !("z" <= s) {
      return Err(NotBase58btc);
    }
    var decoded := Base58btcDecode(s[1..]);
    if decoded.Err? {
      return Err(BadChar(decoded.error.at));
    }
    var raw := decoded.value;
    var codecLen := ReadVarint(raw);
    return Ok(Multikey(raw[..codecLen], raw[codecLen..]));
  }

  method ReadVarint(raw: seq<byte>) returns (codecLen: nat)
    ensures codecLen == VarintLen(raw)
  {
    codecLen := 0;
    var i := 0;
    while i < |raw|
      invariant i == codecLen <= |raw|
      invariant VarintLen(raw) == codecLen + VarintLen(raw[i..])
    {
      codecLen := codecLen + 1;
      if raw[i] < 128 { return; }
      assert raw[i..][1..] == raw[i + 1..];
      i := i + 1;
    }
  }

  /** decodeMultikey undoes encodeMultikey exactly when the prefix is a well-formed varint (or unterminated with no key). */
  lemma MultikeyRoundTrip(codec: seq<byte>, key: seq<byte>)
    ensures DecodeMultikeySpec(EncodeMultikey(codec, key)) == Some(Multikey(codec, key))
            <==> IsVarint(codec) || (Unterminated(codec) && key == [])
  {
    var raw := codec + key;
    DecodeEncode(raw);
    assert EncodeMultikey(codec, key)[1..] == Encoded(raw);
    VarintLenOf(codec, key);
    if VarintLen(raw) == |codec| {
      assert raw[..|codec|] == codec && raw[|codec|..] == key;
    }
  }

  /** encodeMultikey undoes decodeMultikey on every accepted string. */
  lemma MultikeyReencodes(s: string)
    requires DecodeMultikeySpec(s).Some?
    ensures var m := DecodeMultikeySpec(s).value; EncodeMultikey(m.codec, m.key) == s
  {
    hide Encoded, Decoded, InAlphabet, VarintLen, Values;
    var t := s[1..];
    var m := DecodeMultikeySpec(s).value;
    EncodeDecode(t);
    assert m.codec + m.key == Decoded(t);
    assert "z" + t == s;
  }
}
