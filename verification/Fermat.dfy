/** Fermat's little theorem for an arbitrary prime, from the definition of primality. */
module Fermat {
  import P = Positional

  ghost predicate Divides(d: int, n: int)
    requires d != 0
  {
    exists k :: Product(d, k) == n
  }

  function Product(d: int, k: int): int {
    d * k
  }

  ghost predicate IsPrime(p: int) {
    p >= 2 && forall d :: 1 < d < p ==> !Divides(d, p)
  }

  lemma DividesWitness(d: int, k: int, n: int)
    requires d != 0 && n == d * k
    ensures Divides(d, n)
  {
    assert Product(d, k) == n;
  }

  lemma DividesSum(d: int, a: int, b: int)
    requires d != 0 && Divides(d, a) && Divides(d, b)
    ensures Divides(d, a + b) && Divides(d, a - b)
  {
    var i :| Product(d, i) == a;
    var j :| Product(d, j) == b;
    DividesWitness(d, i + j, a + b);
    DividesWitness(d, i - j, a - b);
  }

  lemma DividesMul(d: int, a: int, b: int)
    requires d != 0 && Divides(d, a)
    ensures Divides(d, a * b)
  {
    var i :| Product(d, i) == a;
    assert a * b == d * (i * b);
    DividesWitness(d, i * b, a * b);
  }

  lemma SmallMultiple(d: int, n: int)
    requires d > 0 && -d < n < d && Divides(d, n)
    ensures n == 0
  {
    var k :| Product(d, k) == n;
    if k >= 1 { assert d * k >= d * 1 by { P.MulOrder(d, 1, k); } }
    if k <= -1 { assert d * k <= d * -1 by { P.MulOrder(d, k, -1); } }
  }

  /** Divisibility is a zero remainder. */
  lemma DividesIsMod(d: int, n: int)
    requires d > 0
    ensures Divides(d, n) <==> n % d == 0
  {
    P.DivModOf(n, d);
    if n % d == 0 {
      DividesWitness(d, n / d, n);
    }
    if Divides(d, n) {
      DividesWitness(d, n / d, d * (n / d));
      DividesSum(d, n, d * (n / d));
      SmallMultiple(d, n % d);
    }
  }

  /** The definition means what it should. */
  lemma SmallPrimes()
    ensures !IsPrime(1) && IsPrime(2) && IsPrime(3) && !IsPrime(4) && IsPrime(5)
  {
    forall d, n | 1 < d < n <= 5 ensures Divides(d, n) <==> d == 2 && n == 4 {
      DividesIsMod(d, n);
    }
    DividesWitness(2, 2, 4);
    hide Divides;
    assert Divides(2, 4);
  }

  /** Equal remainders are congruence. */
  lemma CongruentIsMod(d: int, a: int, b: int)
    requires d > 0
    ensures Divides(d, a - b) <==> a % d == b % d
  {
    P.DivModOf(a, d);
    P.DivModOf(b, d);
    var q := a / d - b / d;
    assert a - b == d * q + (a % d - b % d);
    DividesWitness(d, q, d * q);
    if a % d == b % d {
      DividesWitness(d, q, a - b);
    }
    if Divides(d, a - b) {
      DividesSum(d, a - b, d * q);
      SmallMultiple(d, a % d - b % d);
    }
  }

  /** Euclid's lemma, by descent on the remainder of p by the factor. */
  lemma {:induction false} EuclidDescent(p: int, a: int, b: int)
    requires IsPrime(p) && 0 < a < p && Divides(p, a * b)
    ensures Divides(p, b)
    decreases a
  {
    if a > 1 {
      P.DivModOf(p, a);
      var q, r := p / a, p % a;
      if r == 0 {
        DividesWitness(a, q, p);
        assert false;
      }
      DividesMul(p, a * b, q);
      DividesWitness(p, b, p * b);
      DividesSum(p, p * b, a * b * q);
      assert p * b - a * b * q == r * b by {
        assert p * b == (a * q + r) * b;
        assert (a * q + r) * b == a * b * q + r * b;
      }
      EuclidDescent(p, r, b);
    }
  }

  lemma Euclid(p: int, a: int, b: int)
    requires IsPrime(p) && Divides(p, a * b)
    ensures Divides(p, a) || Divides(p, b)
  {
    P.DivModOf(a, p);
    var q, r := a / p, a % p;
    if r == 0 {
      DividesWitness(p, q, a);
    } else {
      assert a * b == p * (q * b) + r * b;
      DividesWitness(p, q * b, p * (q * b));
      DividesSum(p, a * b, p * (q * b));
      EuclidDescent(p, r, b);
    }
  }

  function Pow(a: int, n: nat): int {
    if n == 0 then 1 else a * Pow(a, n - 1)
  }

  /** Pascal's triangle. */
  function Choose(n: nat, k: nat): nat {
    if k == 0 then 1 else if n == 0 then 0 else Choose(n - 1, k - 1) + Choose(n - 1, k)
  }

  lemma ChooseAbove(n: nat, k: nat)
    requires k > n
    ensures Choose(n, k) == 0
  {
  }

  lemma ChooseAll(n: nat)
    ensures Choose(n, n) == 1
  {
    if n > 0 {
      ChooseAbove(n - 1, n);
    }
  }

  /** k * C(n, k) == n * C(n - 1, k - 1). */
  lemma {:induction false} Absorption(n: nat, k: nat)
    requires n > 0 && k > 0
    ensures k * Choose(n, k) == n * Choose(n - 1, k - 1)
  {
    if n == 1 {
      if k > 1 { ChooseAbove(n, k); }
      else { assert Choose(1, 1) == Choose(0, 0) + Choose(0, 1); }
    } else if k == 1 {
      Absorption(n - 1, 1);
      assert Choose(n, 1) == Choose(n - 1, 0) + Choose(n - 1, 1);
    } else {
      Absorption(n - 1, k - 1);
      Absorption(n - 1, k);
      AbsorbStep(n, k, Choose(n - 2, k - 2), Choose(n - 2, k - 1), Choose(n - 1, k));
    }
  }

  lemma AbsorbStep(n: int, k: int, x: int, y: int, u: int)
    requires (k - 1) * (x + y) == (n - 1) * x && k * u == (n - 1) * y
    ensures k * ((x + y) + u) == n * (x + y)
  {
    assert k * ((x + y) + u) == (k - 1) * (x + y) + (x + y) + k * u;
    assert (n - 1) * x + (n - 1) * y == (n - 1) * (x + y);
    assert n * (x + y) == (n - 1) * (x + y) + (x + y);
  }

  lemma PrimeDividesChoose(p: int, k: nat)
    requires IsPrime(p) && 0 < k < p
    ensures Divides(p, Choose(p, k))
  {
    Absorption(p, k);
    DividesWitness(p, Choose(p - 1, k - 1), k * Choose(p, k));
    EuclidDescent(p, k, Choose(p, k));
  }

  /** The first m + 1 terms of the binomial expansion of (a + 1)^n. */
  function Terms(n: nat, m: nat, a: int): int {
    Choose(n, m) * Pow(a, m) + if m == 0 then 0 else Terms(n, m - 1, a)
  }

  lemma {:induction false} PascalTerms(n: nat, m: nat, a: int)
    requires m > 0
    ensures Terms(n + 1, m, a) == Terms(n, m, a) + a * Terms(n, m - 1, a)
  {
    var c, d, w := Choose(n, m - 1), Choose(n, m), Pow(a, m - 1);
    assert Choose(n + 1, m) == c + d;
    assert Pow(a, m) == a * w;
    assert (c + d) * (a * w) == d * (a * w) + a * (c * w);
    if m > 1 {
      PascalTerms(n, m - 1, a);
      var t := Terms(n, m - 2, a);
      assert a * (c * w + t) == a * (c * w) + a * t;
    }
  }

  lemma {:induction false} Binomial(n: nat, a: int)
    ensures Terms(n, n, a) == Pow(a + 1, n)
  {
    if n > 0 {
      Binomial(n - 1, a);
      PascalTerms(n - 1, n, a);
      ChooseAbove(n - 1, n);
      var t := Terms(n - 1, n - 1, a);
      assert Terms(n - 1, n, a) == 0 * Pow(a, n) + t;
      assert t + a * t == (a + 1) * t;
    }
  }

  lemma {:induction false} MiddleTermsVanish(p: int, m: nat, a: int)
    requires IsPrime(p) && m < p
    ensures Divides(p, Terms(p, m, a) - 1)
  {
    if m == 0 {
      DividesWitness(p, 0, 0);
    } else {
      MiddleTermsVanish(p, m - 1, a);
      PrimeDividesChoose(p, m);
      DividesMul(p, Choose(p, m), Pow(a, m));
      DividesSum(p, Terms(p, m - 1, a) - 1, Choose(p, m) * Pow(a, m));
    }
  }

  lemma FreshmansDream(p: int, a: int)
    requires IsPrime(p)
    ensures Divides(p, Pow(a + 1, p) - (Pow(a, p) + 1))
  {
    Binomial(p, a);
    ChooseAll(p);
    MiddleTermsVanish(p, p - 1, a);
    assert Terms(p, p, a) == 1 * Pow(a, p) + Terms(p, p - 1, a);
  }

  lemma {:induction false} FermatNat(p: int, a: nat)
    requires IsPrime(p)
    ensures Divides(p, Pow(a, p) - a)
  {
    if a == 0 {
      assert Pow(0, p) == 0 * Pow(0, p - 1);
      DividesWitness(p, 0, 0);
    } else {
      FermatNat(p, a - 1);
      FreshmansDream(p, a - 1);
      DividesSum(p, Pow(a, p) - (Pow(a - 1, p) + 1), Pow(a - 1, p) - (a - 1));
    }
  }

  /** a * a^(p-2) is 1 modulo p, for a not a multiple of the prime p. */
  lemma FermatInverse(p: int, a: nat)
    requires IsPrime(p) && !Divides(p, a)
    ensures Divides(p, a * Pow(a, p - 2) - 1)
  {
    FermatNat(p, a);
    var w := Pow(a, p - 2);
    assert Pow(a, p) == a * Pow(a, p - 1) && Pow(a, p - 1) == a * w;
    assert Pow(a, p) - a == a * (a * w - 1);
    Euclid(p, a, a * w - 1);
  }
}
