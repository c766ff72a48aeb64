/** Powers, congruences and the facts about prime moduli that the delay function rests on. */
module Arithmetic {

  function Pow(b: int, e: nat): int
  {
    if e == 0 then 1 else b * Pow(b, e - 1)
  }

  ghost predicate IsPrime(n: int)
  {
    n >= 2 && forall d :: 2 <= d < n ==> n % d != 0
  }

  // ----- division with remainder

  lemma MulMonotone(a: int, b: int, c: int)
    requires a <= b && 0 <= c
    ensures a * c <= b * c
  {
  }

  lemma RemainderUnique(a: int, m: int, q: int, r: int)
    requires m > 0 && a == q * m + r && 0 <= r < m
    ensures a % m == r && a / m == q
  {
    var d := q - a / m;
    assert d * m == a % m - r by {
      assert a == (a / m) * m + a % m;
      assert q * m - (a / m) * m == d * m;
    }
    assert d > 0 ==> d * m >= m;
    assert d < 0 ==> d * m <= -m;
  }

  lemma AddMultiple(a: int, k: int, m: int)
    requires m > 0
    ensures (a + k * m) % m == a % m
  {
    assert a == (a / m) * m + a % m;
    assert (a / m + k) * m == (a / m) * m + k * m;
    RemainderUnique(a + k * m, m, a / m + k, a % m);
  }

  lemma ModAdd(a: int, b: int, m: int)
    requires m > 0
    ensures (a + b) % m == (a % m + b % m) % m
  {
    var s := a % m + b % m;
    assert (a / m + b / m) * m == (a / m) * m + (b / m) * m;
    assert a + b == s + (a / m + b / m) * m;
    AddMultiple(s, a / m + b / m, m);
  }

  lemma ModMul(a: int, b: int, m: int)
    requires m > 0
    ensures (a * b) % m == ((a % m) * (b % m)) % m
    ensures (a * b) % m == ((a % m) * b) % m
  {
    var i, r, j, s := a / m, a % m, b / m, b % m;
    assert a * b == r * b + (i * b) * m by {
      assert a == i * m + r;
      assert (i * m + r) * b == (i * m) * b + r * b;
      assert (i * m) * b == (i * b) * m;
    }
    AddMultiple(r * b, i * b, m);
    assert r * b == r * s + (r * j) * m by {
      assert b == j * m + s;
      assert r * (j * m + s) == r * (j * m) + r * s;
      assert r * (j * m) == (r * j) * m;
    }
    AddMultiple(r * s, r * j, m);
  }

  lemma ModIdempotent(a: int, m: int)
    requires m > 0
    ensures (a % m) % m == a % m
  {
    RemainderUnique(a % m, m, 0, a % m);
  }

  /** Equal remainders mean a difference that the modulus divides. */
  lemma ModEqual(a: int, b: int, m: int)
    requires m > 0
    ensures a % m == b % m <==> (a - b) % m == 0
  {
    if a % m == b % m {
      assert a - b == (a / m - b / m) * m + 0 by {
        assert (a / m - b / m) * m == (a / m) * m - (b / m) * m;
      }
      RemainderUnique(a - b, m, a / m - b / m, 0);
    }
    if (a - b) % m == 0 {
      assert a == b + ((a - b) / m) * m;
      AddMultiple(b, (a - b) / m, m);
    }
  }

  // ----- powers

  lemma {:induction false} PowAdd(b: int, m: nat, n: nat)
    ensures Pow(b, m + n) == Pow(b, m) * Pow(b, n)
  {
    if m > 0 {
      PowAdd(b, m - 1, n);
      assert b * (Pow(b, m - 1) * Pow(b, n)) == (b * Pow(b, m - 1)) * Pow(b, n);
    }
  }

  lemma {:induction false} PowMul(b: int, m: nat, n: nat)
    ensures m * n >= 0
    ensures Pow(Pow(b, m), n) == Pow(b, m * n)
  {
    if n > 0 {
      PowMul(b, m, n - 1);
      assert m * n == m + m * (n - 1);
      PowAdd(b, m, m * (n - 1));
    }
  }

  lemma {:induction false} PowPositive(b: int, e: nat)
    requires b > 0
    ensures Pow(b, e) > 0
  {
    if e > 0 { PowPositive(b, e - 1); }
  }

  lemma {:induction false} PowOne(e: nat)
    ensures Pow(1, e) == 1
  {
    if e > 0 { PowOne(e - 1); }
  }

  lemma {:induction false} PowMod(b: int, e: nat, m: int)
    requires m > 0
    ensures Pow(b % m, e) % m == Pow(b, e) % m
  {
    if e > 0 {
      PowMod(b, e - 1, m);
      ModMul(b, Pow(b, e - 1), m);
      ModMul(b % m, Pow(b % m, e - 1), m);
      ModIdempotent(b, m);
    }
  }

  // ----- prime moduli

  lemma CombineMultiples(p: int, x: int, q: int, b: int)
    requires p > 0 && x % p == 0
    ensures (b * p - q * x) % p == 0
  {
    var k := x / p;
    assert x == k * p;
    assert q * x == (q * k) * p by { assert q * (k * p) == (q * k) * p; }
    assert b * p - (q * k) * p == (b - q * k) * p + 0;
    RemainderUnique(b * p - q * x, p, b - q * k, 0);
  }

  /** Euclid's lemma, for a factor already reduced. */
  lemma {:induction false} EuclidReduced(p: int, a: int, b: int)
    requires IsPrime(p) && 0 < a < p && (a * b) % p == 0
    ensures b % p == 0
    decreases a
  {
    if a > 1 {
      // p = q·a + r with 0 < r < a, and r·b is again a multiple of p.
      var q, r := p / a, p % a;
      ReducedFactor(p, a, b, q, r);
      EuclidReduced(p, r, b);
    }
  }

  lemma ReducedFactor(p: int, a: int, b: int, q: int, r: int)
    requires p > 0 && (a * b) % p == 0 && p == q * a + r
    ensures (r * b) % p == 0
  {
    CombineMultiples(p, a * b, q, b);
    assert r * b == b * p - q * (a * b) by {
      assert r == p - q * a;
      assert (p - q * a) * b == p * b - (q * a) * b;
      assert (q * a) * b == q * (a * b);
    }
  }

  lemma Euclid(p: int, a: int, b: int)
    requires IsPrime(p) && (a * b) % p == 0
    ensures a % p == 0 || b % p == 0
  {
    if a % p != 0 {
      ModMul(a, b, p);
      EuclidReduced(p, a % p, b);
    }
  }

  /** Modulo a prime, 1 has no square roots but 1 and -1. */
  lemma SquareRootsOfOne(p: int, x: int)
    requires IsPrime(p) && 0 <= x < p && (x * x) % p == 1
    ensures x == 1 || x == p - 1
  {
    RemainderUnique(1, p, 0, 1);
    ModEqual(x * x, 1, p);
    assert x * x - 1 == (x - 1) * (x + 1);
    Euclid(p, x - 1, x + 1);
    if (x - 1) % p == 0 {
      ModEqual(x, 1, p);
      RemainderUnique(x, p, 0, x);
    } else if x + 1 < p {
      RemainderUnique(x + 1, p, 0, x + 1);
    }
  }

  // ----- Fermat's little theorem, by the binomial theorem

  function Choose(n: nat, k: nat): nat
  {
    if k == 0 then 1 else if n == 0 then 0 else Choose(n - 1, k - 1) + Choose(n - 1, k)
  }

  lemma {:induction false} ChooseBeyond(n: nat, k: nat)
    requires k > n
    ensures Choose(n, k) == 0
  {
    if n > 0 {
      ChooseBeyond(n - 1, k - 1);
      ChooseBeyond(n - 1, k);
    }
  }

  lemma {:induction false} ChooseAll(n: nat)
    ensures Choose(n, n) == 1
  {
    if n > 0 {
      ChooseAll(n - 1);
      ChooseBeyond(n - 1, n);
    }
  }

  lemma AbsorptionStep(n: int, k: int, c: int, rest: int, u: int, v: int)
    requires (k - 1) * c == (n - 1) * u && k * rest == (n - 1) * v && c == u + v
    ensures k * (c + rest) == n * c
  {
    assert (n - 1) * c == (n - 1) * u + (n - 1) * v;
    assert k * (c + rest) == k * c + k * rest;
    assert (k - 1) * c == k * c - c && (n - 1) * c == n * c - c;
  }

  lemma {:induction false} Absorption(n: nat, k: nat)
    requires n > 0 && k > 0
    ensures k * Choose(n, k) == n * Choose(n - 1, k - 1)
  {
    if n == 1 {
      if k > 1 {
        ChooseBeyond(1, k);
        ChooseBeyond(0, k - 1);
      }
    } else {
      Absorption(n - 1, k);
      var c, v := Choose(n - 1, k - 1), Choose(n - 2, k - 1);
      if k > 1 {
        Absorption(n - 1, k - 1);
        AbsorptionStep(n, k, c, Choose(n - 1, k), Choose(n - 2, k - 2), v);
      } else {
        AbsorptionStep(n, k, c, Choose(n - 1, k), 0, v);
      }
    }
  }

  lemma PrimeDividesChoose(p: nat, k: nat)
    requires IsPrime(p) && 0 < k < p
    ensures Choose(p, k) % p == 0
  {
    Absorption(p, k);
    RemainderUnique(p * Choose(p - 1, k - 1), p, Choose(p - 1, k - 1), 0);
    EuclidReduced(p, k, Choose(p, k));
  }

  /** The first `k + 1` terms of the expansion of (1 + a)^n. */
  function BinomialSum(n: nat, k: nat, a: int): int
  {
    Choose(n, k) * Pow(a, k) + if k == 0 then 0 else BinomialSum(n, k - 1, a)
  }

  lemma RegroupTerms(a: int, c: int, d: int, power: int, rest: int)
    ensures (c + d) * (a * power) + a * rest == d * (a * power) + a * (c * power + rest)
  {
    assert (c + d) * (a * power) == c * (a * power) + d * (a * power);
    assert c * (a * power) == a * (c * power);
    assert a * (c * power + rest) == a * (c * power) + a * rest;
  }

  lemma {:induction false} BinomialStep(n: nat, k: nat, a: int)
    ensures BinomialSum(n + 1, k, a) == BinomialSum(n, k, a) + if k == 0 then 0 else a * BinomialSum(n, k - 1, a)
  {
    if k > 0 {
      BinomialStep(n, k - 1, a);
      var rest := if k == 1 then 0 else BinomialSum(n, k - 2, a);
      assert BinomialSum(n, k - 1, a) == Choose(n, k - 1) * Pow(a, k - 1) + rest;
      RegroupTerms(a, Choose(n, k - 1), Choose(n, k), Pow(a, k - 1), rest);
      assert a * 0 == 0;
    }
  }

  lemma {:induction false} Binomial(n: nat, a: int)
    ensures BinomialSum(n, n, a) == Pow(1 + a, n)
  {
    if n > 0 {
      Binomial(n - 1, a);
      BinomialStep(n - 1, n, a);
      ChooseBeyond(n - 1, n);
      var s := Pow(1 + a, n - 1);
      assert BinomialSum(n - 1, n, a) == 0 * Pow(a, n) + s;
      assert (1 + a) * s == s + a * s;
    }
  }

  lemma TermVanishes(p: nat, k: nat, power: int)
    requires IsPrime(p) && 0 < k < p
    ensures (Choose(p, k) * power) % p == 0
  {
    PrimeDividesChoose(p, k);
    CombineMultiples(p, Choose(p, k), -power, 0);
    assert Choose(p, k) * power == 0 * p - (-power) * Choose(p, k);
  }

  lemma {:induction false} MiddleTermsVanish(p: nat, k: nat, a: int)
    requires IsPrime(p) && k < p
    ensures BinomialSum(p, k, a) % p == 1
  {
    RemainderUnique(1, p, 0, 1);
    if k > 0 {
      MiddleTermsVanish(p, k - 1, a);
      TermVanishes(p, k, Pow(a, k));
      ModAdd(Choose(p, k) * Pow(a, k), BinomialSum(p, k - 1, a), p);
    }
  }

  /** (1 + a)^p = 1 + a^p modulo a prime p. */
  lemma FreshmansDream(p: nat, a: int)
    requires IsPrime(p)
    ensures Pow(1 + a, p) % p == (1 + Pow(a, p)) % p
  {
    Binomial(p, a);
    ChooseAll(p);
    MiddleTermsVanish(p, p - 1, a);
    var rest := BinomialSum(p, p - 1, a);
    assert Pow(1 + a, p) == Pow(a, p) + rest;
    ModAdd(Pow(a, p), rest, p);
    ModAdd(Pow(a, p), 1, p);
    RemainderUnique(1, p, 0, 1);
  }

  lemma {:induction false} FermatAll(p: nat, a: nat)
    requires IsPrime(p)
    ensures Pow(a, p) % p == a % p
  {
    if a == 0 {
      assert Pow(0, p) == 0 * Pow(0, p - 1);
    } else {
      FermatAll(p, a - 1);
      FreshmansDream(p, a - 1);
      ModAdd(1, Pow(a - 1, p), p);
      ModAdd(1, a - 1, p);
    }
  }

  /** Fermat's little theorem. */
  lemma Fermat(p: nat, a: nat)
    requires IsPrime(p) && a % p != 0
    ensures Pow(a, p - 1) % p == 1
  {
    FermatAll(p, a);
    ModEqual(Pow(a, p), a, p);
    assert Pow(a, p) - a == a * (Pow(a, p - 1) - 1) by {
      assert Pow(a, p) == a * Pow(a, p - 1);
      assert a * (Pow(a, p - 1) - 1) == a * Pow(a, p - 1) - a;
    }
    Euclid(p, a, Pow(a, p - 1) - 1);
    ModEqual(Pow(a, p - 1), 1, p);
    RemainderUnique(1, p, 0, 1);
  }
}
