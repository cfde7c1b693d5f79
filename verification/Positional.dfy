/** Positional number systems: values, canonical digits, and change of base. */
module Positional {

  predicate AreDigits(s: seq<int>, base: int) {
    forall i :: 0 <= i < |s| ==> 0 <= s[i] < base
  }

  /** The number a digit string denotes, most significant digit first. */
  function BigEnd(s: seq<int>, base: int): int {
    if s == [] then 0 else BigEnd(s[..|s| - 1], base) * base + s[|s| - 1]
  }

  /** The number a digit string denotes, least significant digit first. */
  function LittleEnd(s: seq<int>, base: int): int {
    if s == [] then 0 else s[0] + base * LittleEnd(s[1..], base)
  }

  /** Digits, least significant first, with no superfluous zero at the top. */
  predicate Canonical(s: seq<int>, base: int) {
    AreDigits(s, base) && (s == [] || s[|s| - 1] != 0)
  }

  function Digits(n: nat, base: int): (s: seq<int>)
    requires base >= 2
    ensures Canonical(s, base) && LittleEnd(s, base) == n
    decreases n
  {
    if n == 0 then []
    else
      DivModOf(n, base);
      DivShrinks(n, base);
      var rest := Digits(n / base, base);
      assert ([n % base] + rest)[1..] == rest;
      [n % base] + rest
  }

  lemma MulOrder(a: int, x: int, y: int)
    requires 0 <= a && x <= y
    ensures a * x <= a * y
  {
  }

  lemma DivModOf(n: int, base: int)
    requires base > 0
    ensures n == base * (n / base) + n % base && 0 <= n % base < base
    ensures n >= 0 ==> n / base >= 0
    ensures 0 <= n < base ==> n / base == 0 && n % base == n
  {
    if n >= 0 && n / base < 0 {
      MulOrder(base, n / base, -1);
    }
  }

  lemma DivShrinks(n: int, base: int)
    requires n > 0 && base >= 2
    ensures 0 <= n / base < n
  {
    DivModOf(n, base);
    MulOrder(n / base, 2, base);
  }

  /** Quotient and remainder are unique. */
  lemma DivModUnique(q: int, r: int, base: int)
    requires 0 <= r < base
    ensures (q * base + r) / base == q && (q * base + r) % base == r
  {
    var n := q * base + r;
    DivModOf(n, base);
    var d := n / base - q;
    assert base * d == base * (n / base) - base * q;
    if d >= 1 { MulOrder(base, 1, d); }
    if d <= -1 { MulOrder(base, d, -1); }
  }

  lemma {:induction false} LittleEndSign(s: seq<int>, base: int)
    requires base >= 2 && AreDigits(s, base)
    ensures LittleEnd(s, base) >= 0
  {
    if s != [] {
      LittleEndSign(s[1..], base);
    }
  }

  /** A canonical digit string is the one `Digits` computes from its value. */
  lemma {:induction false} CanonicalIsUnique(s: seq<int>, base: int)
    requires base >= 2 && Canonical(s, base)
    ensures LittleEnd(s, base) >= 0 && Digits(LittleEnd(s, base), base) == s
  {
    LittleEndSign(s, base);
    if s != [] {
      var v := LittleEnd(s[1..], base);
      CanonicalIsUnique(s[1..], base);
      DivModUnique(v, s[0], base);
      assert LittleEnd(s, base) == v * base + s[0];
      if v == 0 {
        assert s[1..] == [];
      } else {
        MulOrder(base, 1, v);
      }
      assert s == [s[0]] + s[1..];
    }
  }

  function Reverse<T>(s: seq<T>): (r: seq<T>)
    ensures |r| == |s| && forall i :: 0 <= i < |s| ==> r[i] == s[|s| - 1 - i]
  {
    if s == [] then [] else Reverse(s[1..]) + [s[0]]
  }

  lemma ReverseTwice<T>(s: seq<T>)
    ensures Reverse(Reverse(s)) == s
  {
  }

  lemma {:induction false} ReverseValue(s: seq<int>, base: int)
    ensures BigEnd(Reverse(s), base) == LittleEnd(s, base)
  {
    if s != [] {
      ReverseValue(s[1..], base);
      assert Reverse(s)[..|s| - 1] == Reverse(s[1..]);
    }
  }

  function Zeros(n: nat): (z: seq<int>)
    ensures |z| == n && forall i :: 0 <= i < n ==> z[i] == 0
  {
    seq(n, i => 0)
  }

  /** The number of leading zeros. */
  function LeadingZeros(s: seq<int>): (n: nat)
    ensures n <= |s|
    ensures forall i :: 0 <= i < n ==> s[i] == 0
    ensures n < |s| ==> s[n] != 0
  {
    if s == [] || s[0] != 0 then 0 else 1 + LeadingZeros(s[1..])
  }

  lemma LeadingZerosOf(n: nat, t: seq<int>)
    requires t == [] || t[0] != 0
    ensures LeadingZeros(Zeros(n) + t) == n
  {
    var s := Zeros(n) + t;
    assert n < |s| ==> s[n] == t[0];
    assert forall i :: 0 <= i < n ==> s[i] == 0;
  }

  lemma {:induction false} ZerosHaveNoValue(n: nat, t: seq<int>, base: int)
    ensures BigEnd(Zeros(n) + t, base) == BigEnd(t, base)
  {
    var s := Zeros(n) + t;
    if t != [] {
      assert s[..|s| - 1] == Zeros(n) + t[..|t| - 1];
      ZerosHaveNoValue(n, t[..|t| - 1], base);
    } else if n > 0 {
      assert s[..|s| - 1] == Zeros(n - 1) + [];
      ZerosHaveNoValue(n - 1, [], base);
    }
  }

  /** Change of base that keeps one leading zero digit for each leading zero digit. */
  function Transcode(s: seq<int>, from: int, to: int): (r: seq<int>)
    requires from >= 2 && to >= 2 && AreDigits(s, from)
    ensures AreDigits(r, to)
  {
    BigEndSign(s, from);
    Zeros(LeadingZeros(s)) + Reverse(Digits(BigEnd(s, from), to))
  }

  lemma {:induction false} BigEndSign(s: seq<int>, base: int)
    requires base >= 2 && AreDigits(s, base)
    ensures BigEnd(s, base) >= 0
  {
    if s != [] {
      BigEndSign(s[..|s| - 1], base);
    }
  }

  /** Changing base and back gives the digit string one started from, for any two bases. */
  lemma TranscodeRoundTrip(s: seq<int>, from: int, to: int)
    requires from >= 2 && to >= 2 && AreDigits(s, from)
    ensures Transcode(Transcode(s, from, to), to, from) == s
  {
    BigEndSign(s, from);
    var z := LeadingZeros(s);
    var t := s[z..];
    var v := BigEnd(s, from);
    var u := Reverse(Digits(v, to));
    assert s == Zeros(z) + t;
    ZerosHaveNoValue(z, t, from);
    assert LeadingZeros(Zeros(z) + u) == z by { LeadingZerosOf(z, u); }
    assert BigEnd(Zeros(z) + u, to) == v by {
      ZerosHaveNoValue(z, u, to);
      ReverseValue(Digits(v, to), to);
    }
    assert Reverse(Digits(v, from)) == t by { ReadBack(t, from); }
  }

  lemma ReadBack(t: seq<int>, base: int)
    requires base >= 2 && AreDigits(t, base) && (t == [] || t[0] != 0)
    ensures BigEnd(t, base) >= 0 && Reverse(Digits(BigEnd(t, base), base)) == t
  {
    CanonicalIsUnique(Reverse(t), base);
    ReverseValue(Reverse(t), base);
    ReverseTwice(t);
  }

  /** Digits of `m * LittleEnd(s) + c`, by one pass with a running carry. */
  function MulAdd(s: seq<int>, m: int, c: int, base: int): seq<int>
    requires base >= 2 && m >= 1 && c >= 0 && AreDigits(s, base)
    decreases |s|
  {
    if s == [] then Digits(c, base)
    else
      MulOrder(m, 0, s[0]);
      DivModOf(s[0] * m + c, base);
      [(s[0] * m + c) % base] + MulAdd(s[1..], m, (s[0] * m + c) / base, base)
  }

  lemma CarryStep(m: int, d: int, c: int, v: int, q: int, r: int, base: int)
    requires d * m + c == base * q + r
    ensures r + base * (m * v + q) == m * (d + base * v) + c
  {
    assert base * (m * v + q) == base * (m * v) + base * q;
    assert m * (d + base * v) == d * m + m * (base * v);
    assert m * (base * v) == base * (m * v);
  }

  lemma {:induction false} MulAddValue(s: seq<int>, m: int, c: int, base: int)
    requires base >= 2 && m >= 1 && c >= 0 && AreDigits(s, base)
    ensures LittleEnd(MulAdd(s, m, c, base), base) == m * LittleEnd(s, base) + c
    decreases |s|
  {
    if s != [] {
      MulOrder(m, 0, s[0]);
      var n := s[0] * m + c;
      DivModOf(n, base);
      var rest := MulAdd(s[1..], m, n / base, base);
      MulAddValue(s[1..], m, n / base, base);
      assert ([n % base] + rest)[1..] == rest;
      CarryStep(m, s[0], c, LittleEnd(s[1..], base), n / base, n % base, base);
    }
  }

  lemma {:induction false} MulAddCanonical(s: seq<int>, m: int, c: int, base: int)
    requires base >= 2 && m >= 1 && c >= 0 && Canonical(s, base)
    ensures Canonical(MulAdd(s, m, c, base), base)
    ensures s != [] ==> MulAdd(s, m, c, base) != []
    decreases |s|
  {
    if s != [] {
      MulOrder(m, 0, s[0]);
      var n := s[0] * m + c;
      DivModOf(n, base);
      var rest := MulAdd(s[1..], m, n / base, base);
      MulAddCanonical(s[1..], m, n / base, base);
      if rest == [] {
        assert n / base == 0;
        MulOrder(m, 1, s[0]);
      }
    }
  }

  /** One `digits = digits * m + c` pass yields the canonical digits of the new value. */
  lemma MulAddIsDigits(s: seq<int>, m: int, c: int, base: int)
    requires base >= 2 && m >= 1 && c >= 0 && Canonical(s, base)
    ensures m * LittleEnd(s, base) + c >= 0
    ensures MulAdd(s, m, c, base) == Digits(m * LittleEnd(s, base) + c, base)
  {
    MulAddValue(s, m, c, base);
    MulAddCanonical(s, m, c, base);
    CanonicalIsUnique(MulAdd(s, m, c, base), base);
  }
}
