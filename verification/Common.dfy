/** Failure-carrying datatypes shared by every module. */
module Wrappers {
  datatype Option<+T> = None | Some(value: T)

  datatype Result<+T, +E> = Ok(value: T) | Err(error: E)
}

/** Bytes and the 32-bit integer operators of JavaScript. */
module JsNumber {
  import P = Positional

  type byte = x: int | 0 <= x < 256

  function Pow2(k: nat): (r: nat)
    ensures r > 0
  {
    if k == 0 then 1 else 2 * Pow2(k - 1)
  }

  /** The `ToInt32` conversion every bitwise operator applies first. */
  function ToInt32(x: int): (r: int)
    ensures -0x8000_0000 <= r < 0x8000_0000
    ensures -0x8000_0000 <= x < 0x8000_0000 ==> r == x
  {
    var m := x % 0x1_0000_0000;
    if m < 0x8000_0000 then m else m - 0x1_0000_0000
  }

  /** `x >>> 0`. */
  function ToUint32(x: int): (r: int)
    ensures 0 <= r < 0x1_0000_0000
    ensures 0 <= x < 0x1_0000_0000 ==> r == x
  {
    x % 0x1_0000_0000
  }

  /** `x << k`. */
  function Shl(x: int, k: nat): int {
    ToInt32(ToInt32(x) * Pow2(k))
  }

  /** `x >> k`: division rounding down, as on two's complement. */
  function Shr(x: int, k: nat): int {
    ToInt32(x) / Pow2(k)
  }

  /** `x >>> k`. */
  function UShr(x: int, k: nat): int {
    ToUint32(x) / Pow2(k)
  }

  /** `x & (2^k - 1)`, on the 32-bit word of x. */
  function LowBits(x: int, k: nat): (r: int)
    requires k <= 32
    ensures r == x % Pow2(k) && 0 <= r < Pow2(k)
  {
    WordHasLowBits(x, k);
    AndKeepsLow(ToUint32(x), k, 32);
    And(ToUint32(x), Pow2(k) - 1, 32)
  }

  /** The remainder of `%` on Numbers and BigInts takes the sign of the dividend. */
  function Rem(x: int, m: int): int
    requires m > 0
  {
    if x >= 0 then x % m else -((-x) % m)
  }

  /** `x & 0xff` and `x & 0x3f`. */
  lemma LowBitsAre(x: int)
    ensures LowBits(x, 8) == x % 0x100 && LowBits(x, 6) == x % 0x40
  {
    assert Pow2(8) == 0x100 && Pow2(6) == 0x40;
    hide LowBits, Pow2;
  }

  /** `n >>> 8`, `n >>> 16` and `n >>> 24` on a uint32. */
  lemma UShrBytes(n: int)
    requires 0 <= n < 0x1_0000_0000
    ensures UShr(n, 8) == n / 0x100 && UShr(n, 16) == n / 0x1_0000 && UShr(n, 24) == n / 0x100_0000
  {
    assert Pow2(8) == 0x100 && Pow2(16) == 0x1_0000 && Pow2(24) == 0x100_0000;
    hide Pow2;
  }

  /** `x & 0xff` and `x >> 8` on a non-negative int32. */
  lemma LowByte(x: int)
    requires 0 <= x < 0x8000_0000
    ensures LowBits(x, 8) == x % 256 && Shr(x, 8) == x / 256
  {
    assert Pow2(8) == 256;
    hide LowBits, Pow2;
  }

  /** `high | low`, where the low k bits of `high` are clear and `low` fits in them, is their sum. */
  function OrLow(high: int, low: int, k: nat): (r: int)
    requires k <= 31 && -0x8000_0000 <= high < 0x8000_0000 && high % Pow2(k) == 0 && 0 <= low < Pow2(k)
    ensures r == high + low && -0x8000_0000 <= r < 0x8000_0000
  {
    OrOfWords(high, low, k);
    ToInt32(Or(ToUint32(high), ToUint32(low), 32))
  }

  /** A byte shifted by one or two bytes keeps clear of the sign bit. */
  lemma ShlByte(x: byte)
    ensures Shl(x, 8) == x * 0x100 && Shl(x, 8) % Pow2(8) == 0 && Shl(x, 8) % 0x100 == 0
    ensures Shl(x, 16) == x * 0x1_0000 && Shl(x, 16) % Pow2(16) == 0 && Shl(x, 16) % 0x1_0000 == 0
    ensures 0 <= Shl(x, 8) < Pow2(16) && 0 <= x < Pow2(8)
  {
    assert Pow2(8) == 0x100 && Pow2(16) == 0x1_0000;
  }

  /** `x ^ y`, bit by bit, on numbers of k bits. */
  function Xor(x: nat, y: nat, k: nat): (r: nat)
    requires x < Pow2(k) && y < Pow2(k)
    ensures r < Pow2(k) && (r == 0 <==> x == y)
  {
    if k == 0 then 0 else 2 * Xor(x / 2, y / 2, k - 1) + if x % 2 == y % 2 then 0 else 1
  }

  /** `x | y`, bit by bit, on numbers of k bits. */
  function Or(x: nat, y: nat, k: nat): (r: nat)
    requires x < Pow2(k) && y < Pow2(k)
    ensures r < Pow2(k) && (r == 0 <==> x == 0 && y == 0)
  {
    if k == 0 then 0 else 2 * Or(x / 2, y / 2, k - 1) + if x % 2 == 0 && y % 2 == 0 then 0 else 1
  }

  /** `x & y`, bit by bit, on numbers of k bits. */
  function And(x: nat, y: nat, k: nat): (r: nat)
    requires x < Pow2(k) && y < Pow2(k)
    ensures r < Pow2(k)
  {
    if k == 0 then 0 else 2 * And(x / 2, y / 2, k - 1) + if x % 2 == 1 && y % 2 == 1 then 1 else 0
  }

  lemma Pow2Is32()
    ensures Pow2(16) == 0x1_0000 && Pow2(31) == 0x8000_0000 && Pow2(32) == 0x1_0000_0000
  {
    assert Pow2(8) == 0x100 && Pow2(1) == 2;
    hide Pow2;
    Pow2Sum(8, 8);
    Pow2Sum(16, 16);
    Pow2Sum(31, 1);
  }

  lemma {:induction false} Pow2Sum(j: nat, k: nat)
    ensures Pow2(j + k) == Pow2(j) * Pow2(k)
  {
    if j > 0 { Pow2Sum(j - 1, k); }
  }

  lemma Halved(x: nat, m: nat)
    requires m > 0
    ensures x % (2 * m) == 2 * (x / 2 % m) + x % 2
  {
    var q, r := x / 2 / m, x / 2 % m;
    P.DivModOf(x / 2, m);
    assert x == q * (2 * m) + (2 * r + x % 2);
    P.DivModUnique(q, 2 * r + x % 2, 2 * m);
  }

  /** A mask of low ones keeps the remainder. */
  lemma {:induction false} AndKeepsLow(x: nat, j: nat, k: nat)
    requires j <= k && x < Pow2(k)
    ensures Pow2(j) - 1 < Pow2(k) && And(x, Pow2(j) - 1, k) == x % Pow2(j)
    decreases k
  {
    if j == 0 {
      AndNothing(x, k);
    } else {
      AndKeepsLow(x / 2, j - 1, k - 1);
      Halved(x, Pow2(j - 1));
    }
  }

  lemma {:induction false} AndNothing(x: nat, k: nat)
    requires x < Pow2(k)
    ensures And(x, 0, k) == 0
  {
    if k > 0 { AndNothing(x / 2, k - 1); }
  }

  /** A mask of high ones drops the remainder. */
  lemma {:induction false} AndKeepsHigh(x: nat, j: nat, k: nat)
    requires j <= k && x < Pow2(k)
    ensures 0 <= Pow2(k) - Pow2(j) < Pow2(k) && And(x, Pow2(k) - Pow2(j), k) == x - x % Pow2(j)
    decreases k
  {
    if j == 0 {
      AndKeepsLow(x, k, k);
      P.DivModOf(x, Pow2(k));
    } else {
      var m := Pow2(k - 1) - Pow2(j - 1);
      AndKeepsHigh(x / 2, j - 1, k - 1);
      Halved(x, Pow2(j - 1));
      AndEven(x, m, k);
      assert Pow2(k) - Pow2(j) == 2 * m;
    }
  }

  lemma AndEven(x: nat, m: nat, k: nat)
    requires k > 0 && x < Pow2(k) && m < Pow2(k - 1)
    ensures And(x, 2 * m, k) == 2 * And(x / 2, m, k - 1)
  {
    assert 2 * m / 2 == m && 2 * m % 2 == 0;
  }

  lemma {:induction false} OrNothing(x: nat, k: nat)
    requires x < Pow2(k)
    ensures Or(x, 0, k) == x
  {
    if k > 0 { OrNothing(x / 2, k - 1); }
  }

  /** Numbers with disjoint bits combine to their sum. */
  lemma {:induction false} OrAdds(high: nat, low: nat, j: nat, k: nat)
    requires j <= k && high < Pow2(k) && high % Pow2(j) == 0 && low < Pow2(j)
    ensures low < Pow2(k) && Or(high, low, k) == high + low
    decreases k
  {
    if j == 0 {
      OrNothing(high, k);
    } else {
      Halved(high, Pow2(j - 1));
      OrAdds(high / 2, low / 2, j - 1, k - 1);
    }
  }

  lemma WordHasLowBits(x: int, k: nat)
    requires k <= 32
    ensures Pow2(k) <= Pow2(32) == 0x1_0000_0000 && ToUint32(x) % Pow2(k) == x % Pow2(k)
  {
    hide Pow2;
    Pow2Is32();
    Pow2Sum(k, 32 - k);
    P.MulOrder(Pow2(k), 1, Pow2(32 - k));
    SameRemainder(x, Pow2(k), Pow2(32 - k));
  }

  lemma SameRemainder(x: int, unit: int, m: int)
    requires unit > 0 && m > 0
    ensures unit * m > 0 && x % (unit * m) % unit == x % unit
  {
    P.MulOrder(unit, 1, m);
    var q, w := x / (unit * m), x % (unit * m);
    P.DivModOf(x, unit * m);
    P.DivModOf(w, unit);
    assert (unit * m) * q == q * m * unit;
    assert x == (q * m + w / unit) * unit + w % unit;
    P.DivModUnique(q * m + w / unit, w % unit, unit);
  }

  /** On the 32-bit words of the operands, back as an int32. */
  lemma OrOfWords(high: int, low: int, k: nat)
    requires k <= 31 && -0x8000_0000 <= high < 0x8000_0000 && high % Pow2(k) == 0 && 0 <= low < Pow2(k)
    ensures ToUint32(high) < Pow2(32) && ToUint32(low) < Pow2(32)
    ensures ToInt32(Or(ToUint32(high), ToUint32(low), 32)) == high + low && -0x8000_0000 <= high + low < 0x8000_0000
  {
    hide *;
    Pow2Is32();
    WordHasLowBits(high, k);
    Pow2Sum(k, 31 - k);
    P.MulOrder(Pow2(k), 1, Pow2(31 - k));
    StaysInWord(high, low, Pow2(k), Pow2(31 - k));
    WordOf(high);
    WordOf(low);
    OrAdds(ToUint32(high), low, k, 32);
    IntOf(ToUint32(high) + low);
  }

  lemma WordOf(x: int)
    requires -0x8000_0000 <= x < 0x8000_0000
    ensures ToUint32(x) == if x >= 0 then x else x + 0x1_0000_0000
  {
  }

  lemma IntOf(w: int)
    requires 0 <= w < 0x1_0000_0000
    ensures ToInt32(w) == if w < 0x8000_0000 then w else w - 0x1_0000_0000
  {
  }

  /** A multiple of a divisor of 2^31 below 2^31 leaves room for one unit less one. */
  lemma StaysInWord(high: int, low: int, unit: int, m: int)
    requires unit > 0 && m > 0 && unit * m == 0x8000_0000
    requires -0x8000_0000 <= high < 0x8000_0000 && high % unit == 0 && 0 <= low < unit
    ensures high + low < 0x8000_0000 && (high < 0 ==> high + low < 0)
  {
    var q := high / unit;
    P.DivModOf(high, unit);
    if q >= m { P.MulOrder(unit, m, q); }
    P.MulOrder(unit, q, m - 1);
    if q < 0 { P.MulOrder(unit, q, -1); }
  }
}
