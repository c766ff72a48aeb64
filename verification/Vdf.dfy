/**
 The number theory of the delay function (core/vdf.rs): the hand-written Miller-Rabin test,
 the Fiat-Shamir prime drawn from a digest, and the Wesolowski check.  SHA-256 is a function
 parameter, and `modpow` is a power followed by a remainder.
 */
module Vdf {
  import opened Wrappers
  import opened Arithmetic

  const SMALL_PRIMES: seq<nat> := [2, 3, 5, 7, 11, 13, 17, 19, 23, 29, 31, 37]
  const BASES: seq<nat> := [2, 3, 5, 7, 11, 13, 17, 19, 23, 29, 31, 37]

  function ModPow(b: int, e: nat, m: int): nat
    requires m > 0
  {
    Pow(b, e) % m
  }

  // ----- k = d·2^s with d odd

  function OddPart(k: nat): nat
    requires k > 0
  {
    if k % 2 == 0 then OddPart(k / 2) else k
  }

  function Twos(k: nat): nat
    requires k > 0
  {
    if k % 2 == 0 then 1 + Twos(k / 2) else 0
  }

  /** d·2^r */
  function Doubled(d: nat, r: nat): nat
  {
    if r == 0 then d else 2 * Doubled(d, r - 1)
  }

  lemma {:induction false} DoubledShift(d: nat, r: nat)
    ensures Doubled(2 * d, r) == Doubled(d, r + 1)
  {
    if r > 0 { DoubledShift(d, r - 1); }
  }

  lemma {:induction false} OddPartTwos(k: nat)
    requires k > 0
    ensures k == Doubled(OddPart(k), Twos(k)) && OddPart(k) % 2 == 1
  {
    if k % 2 == 0 {
      OddPartTwos(k / 2);
    }
  }

  // ----- strong probable primes

  /** The residue the test looks at after `r` squarings: a^(d·2^r) mod n. */
  function Residue(a: nat, d: nat, r: nat, n: int): int
    requires n > 0
  {
    Pow(a, Doubled(d, r)) % n
  }

  ghost predicate StrongProbablePrime(n: nat, a: nat)
    requires n >= 2
  {
    var d, s := OddPart(n - 1), Twos(n - 1);
    Residue(a, d, 0, n) == 1 || exists r: nat :: r < s && Residue(a, d, r, n) == n - 1
  }

  /** What the test decides, without its loops. */
  ghost predicate Accepted(n: nat)
  {
    && n >= 2
    && (forall p :: p in SMALL_PRIMES ==> n == p || n % p != 0)
    && (n in SMALL_PRIMES || forall a :: a in BASES && a < n ==> StrongProbablePrime(n, a))
  }

  lemma Squaring(a: nat, d: nat, r: nat, n: int)
    requires n > 0
    ensures Residue(a, d, r + 1, n) == ModPow(Residue(a, d, r, n), 2, n)
    ensures Residue(a, d, r + 1, n) == (Residue(a, d, r, n) * Residue(a, d, r, n)) % n
  {
    var e, x := Doubled(d, r), Residue(a, d, r, n);
    PowAdd(a, e, e);
    ModMul(Pow(a, e), Pow(a, e), n);
    assert Pow(x, 2) == x * Pow(x, 1) == x * (x * Pow(x, 0)) == x * x;
  }

  // ----- trial division

  /** A composite number below b² has a divisor below b. */
  lemma SmallDivisor(n: nat, b: nat) returns (k: nat)
    requires 2 <= n < b * b && !IsPrime(n)
    ensures 2 <= k < b && k < n && n % k == 0
  {
    var d :| 2 <= d < n && n % d == 0;
    var e := n / d;
    CofactorBounds(n, d, e, b);
    k := if d < b then d else e;
  }

  lemma CofactorBounds(n: nat, d: nat, e: nat, b: nat)
    requires 2 <= d < n < b * b && n % d == 0 && e == n / d
    ensures 2 <= e < n && n % e == 0 && (d < b || e < b)
  {
    assert n == d * e;
    if e <= 0 { MulMonotone(e, 0, d); }
    MulMonotone(2, d, e);
    if d >= b && e >= b {
      MulMonotone(b, d, b);
      MulMonotone(b, e, d);
    }
    RemainderUnique(n, e, d, 0);
  }

  lemma PrimeByTrial(n: nat, b: nat)
    requires 2 <= n < b * b && forall k :: 2 <= k < b && k < n ==> n % k != 0
    ensures IsPrime(n)
  {
    if !IsPrime(n) { var _ := SmallDivisor(n, b); }
  }

  lemma SmallPrimesArePrime(i: nat)
    requires i < |SMALL_PRIMES|
    ensures IsPrime(SMALL_PRIMES[i])
  {
    PrimeByTrial(SMALL_PRIMES[i], 7);
  }

  lemma SmallPrimeAccepted(i: nat)
    requires i < |SMALL_PRIMES|
    ensures Accepted(SMALL_PRIMES[i])
  {
    var n := SMALL_PRIMES[i];
    SmallPrimesArePrime(i);
    forall p | p in SMALL_PRIMES ensures n == p || n % p != 0 {
      if n < p { RemainderUnique(n, p, 0, n); }
    }
  }

  // ----- the test itself

  method IsProbablePrime(n: nat) returns (accepted: bool)
    ensures accepted <==> Accepted(n)
  {
    if n < 2 {
      return false;
    }
    for i := 0 to |SMALL_PRIMES|
      invariant forall k :: 0 <= k < i ==> n != SMALL_PRIMES[k] && n % SMALL_PRIMES[k] != 0
    {
      if n == SMALL_PRIMES[i] {
        SmallPrimeAccepted(i);
        return true;
      }
      if n % SMALL_PRIMES[i] == 0 {
        assert SMALL_PRIMES[i] in SMALL_PRIMES;
        return false;
      }
    }
    assert n % SMALL_PRIMES[0] != 0;

    var d, s := n - 1, 0;
    while d % 2 == 0
      invariant d > 0
      invariant OddPart(d) == OddPart(n - 1) && Twos(n - 1) == s + Twos(d)
      decreases d
    {
      d := d / 2;
      s := s + 1;
    }

    for i := 0 to |BASES|
      invariant forall k :: 0 <= k < i && BASES[k] < n ==> StrongProbablePrime(n, BASES[k])
    {
      var a := BASES[i];
      if a >= n {
        continue;
      }
      var passes := PassesBase(n, a, d, s);
      if !passes {
        return false;
      }
    }
    assert forall a :: a in BASES && a < n ==> StrongProbablePrime(n, a);
    return true;
  }

  /** One turn of the loop over the bases: false when `a` is a witness. */
  method PassesBase(n: nat, a: nat, d: nat, s: nat) returns (passes: bool)
    requires n > 2 && n % 2 == 1 && d == OddPart(n - 1) && s == Twos(n - 1)
    ensures passes <==> StrongProbablePrime(n, a)
  {
    OddPartTwos(n - 1);
    var x := ModPow(a, d, n);
    assert x == Residue(a, d, 0, n);
    if x == 1 {
      return true;
    }
    if x == n - 1 {
      assert 0 < s;
      return true;
    }
    var isWitness := true;
    var k := 1;
    while k < s
      invariant 1 <= k && (k <= s || s == 0)
      invariant x == Residue(a, d, k - 1, n)
      invariant forall r: nat :: r < k ==> Residue(a, d, r, n) != n - 1
    {
      Squaring(a, d, k - 1, n);
      x := ModPow(x, 2, n);
      if x == n - 1 {
        isWitness := false;
        break;
      }
      k := k + 1;
    }
    return !isWitness;
  }

  // ----- completeness: no prime is rejected

  /** If some squaring reaches 1 modulo a prime, the residues pass the test. */
  lemma {:induction false} OneIsReachedThroughMinusOne(p: nat, a: nat, d: nat, r: nat)
    requires IsPrime(p) && Residue(a, d, r, p) == 1
    ensures Residue(a, d, 0, p) == 1 || exists k: nat :: k < r && Residue(a, d, k, p) == p - 1
  {
    if r > 0 {
      Squaring(a, d, r - 1, p);
      SquareRootsOfOne(p, Residue(a, d, r - 1, p));
      if Residue(a, d, r - 1, p) == 1 {
        OneIsReachedThroughMinusOne(p, a, d, r - 1);
      }
    }
  }

  lemma PrimesPassEveryBase(p: nat, a: nat)
    requires IsPrime(p) && 0 < a < p
    ensures StrongProbablePrime(p, a)
  {
    RemainderUnique(a, p, 0, a);
    Fermat(p, a);
    OddPartTwos(p - 1);
    OneIsReachedThroughMinusOne(p, a, OddPart(p - 1), Twos(p - 1));
  }

  /** Every prime is accepted, so every rejected number is composite. */
  lemma PrimesAreAccepted(p: nat)
    requires IsPrime(p)
    ensures Accepted(p)
  {
    forall q | q in SMALL_PRIMES ensures p == q || p % q != 0 {
      if p < q { RemainderUnique(p, q, 0, p); }
    }
    forall a | a in BASES && a < p ensures StrongProbablePrime(p, a) {
      PrimesPassEveryBase(p, a);
    }
  }

  // ----- what acceptance buys

  lemma {:induction false} OnesStay(a: nat, d: nat, r: nat, k: nat, n: int)
    requires n >= 2 && r <= k && Residue(a, d, r, n) == 1
    ensures Residue(a, d, k, n) == 1
    decreases k
  {
    if r < k {
      OnesStay(a, d, r, k - 1, n);
      Squaring(a, d, k - 1, n);
      RemainderUnique(1, n, 0, 1);
    }
  }

  lemma StrongSatisfiesFermat(n: nat, a: nat)
    requires n >= 3 && StrongProbablePrime(n, a)
    ensures Pow(a, n - 1) % n == 1
  {
    OddPartTwos(n - 1);
    var d, s := OddPart(n - 1), Twos(n - 1);
    if Residue(a, d, 0, n) == 1 {
      OnesStay(a, d, 0, s, n);
    } else {
      var r: nat :| r < s && Residue(a, d, r, n) == n - 1;
      MinusOneSquared(a, d, r, n);
      OnesStay(a, d, r + 1, s, n);
    }
  }

  lemma MinusOneSquared(a: nat, d: nat, r: nat, n: int)
    requires n >= 2 && Residue(a, d, r, n) == n - 1
    ensures Residue(a, d, r + 1, n) == 1
  {
    Squaring(a, d, r, n);
    assert (n - 1) * (n - 1) == (n - 2) * n + 1;
    RemainderUnique((n - 1) * (n - 1), n, n - 2, 1);
  }

  ghost predicate TrivialRoot(n: nat, a: nat, e: nat)
    requires n >= 2
  {
    Pow(a, 2 * e) % n == 1 ==> Pow(a, e) % n == 1 || Pow(a, e) % n == n - 1
  }

  /** Halving the exponent n-1, as often as that goes, never meets a square root of 1 other than 1 and -1. */
  ghost predicate OnlyTrivialRoots(n: nat, a: nat)
    requires n >= 2
  {
    forall e: nat, k: nat :: k >= 1 && e * Pow(2, k) == n - 1 ==> TrivialRoot(n, a, e)
  }

  lemma {:induction false} DoubledPow(d: nat, r: nat)
    ensures Doubled(d, r) == d * Pow(2, r)
  {
    if r > 0 { DoubledPow(d, r - 1); }
  }

  lemma {:induction false} HalvingsOf(e: nat, k: nat)
    requires e > 0
    ensures Doubled(e, k) > 0 && OddPart(Doubled(e, k)) == OddPart(e) && Twos(Doubled(e, k)) == Twos(e) + k
  {
    if k > 0 {
      HalvingsOf(e, k - 1);
      TwiceIsEven(Doubled(e, k - 1));
    }
  }

  lemma TwiceIsEven(m: nat)
    requires m > 0
    ensures OddPart(2 * m) == OddPart(m) && Twos(2 * m) == Twos(m) + 1
  {
    assert (2 * m) % 2 == 0 && (2 * m) / 2 == m;
  }

  /**
   The test for one base, said without its d and s: Fermat's congruence, and no square root of
   1 other than 1 and -1 on the way there.
   */
  lemma StrongIff(n: nat, a: nat)
    requires n >= 3
    ensures StrongProbablePrime(n, a) <==> Pow(a, n - 1) % n == 1 && OnlyTrivialRoots(n, a)
  {
    OddPartTwos(n - 1);
    if StrongProbablePrime(n, a) {
      StrongSatisfiesFermat(n, a);
      forall e: nat, k: nat | k >= 1 && e * Pow(2, k) == n - 1 ensures TrivialRoot(n, a, e) {
        assert e > 0;
        DoubledPow(e, k);
        HalvingsOf(e, k);
        OddPartTwos(e);
        if Pow(a, 2 * e) % n == 1 { StrongRoot(n, a, Twos(e)); }
      }
    }
    if Pow(a, n - 1) % n == 1 && OnlyTrivialRoots(n, a) {
      FirstOne(n, a, Twos(n - 1));
    }
  }

  lemma StrongRoot(n: nat, a: nat, r: nat)
    requires n >= 3 && StrongProbablePrime(n, a)
    requires r < Twos(n - 1) && Residue(a, OddPart(n - 1), r + 1, n) == 1
    ensures Residue(a, OddPart(n - 1), r, n) == 1 || Residue(a, OddPart(n - 1), r, n) == n - 1
  {
    var d := OddPart(n - 1);
    if Residue(a, d, 0, n) == 1 {
      OnesStay(a, d, 0, r, n);
    } else {
      var k: nat :| k < Twos(n - 1) && Residue(a, d, k, n) == n - 1;
      if k < r {
        MinusOneSquared(a, d, k, n);
        OnesStay(a, d, k + 1, r, n);
      } else if r < k {
        OnesStay(a, d, r + 1, k, n);
      }
    }
  }

  lemma {:induction false} FirstOne(n: nat, a: nat, r: nat)
    requires n >= 3 && OnlyTrivialRoots(n, a) && r <= Twos(n - 1)
    requires Residue(a, OddPart(n - 1), r, n) == 1
    ensures StrongProbablePrime(n, a)
  {
    if r > 0 {
      var d, s := OddPart(n - 1), Twos(n - 1);
      OddPartTwos(n - 1);
      HalvedAt(d, r - 1, s);
      assert TrivialRoot(n, a, Doubled(d, r - 1));
      if Residue(a, d, r - 1, n) == 1 { FirstOne(n, a, r - 1); }
    }
  }

  lemma HalvedAt(d: nat, r: nat, s: nat)
    requires r < s
    ensures Doubled(d, r) * Pow(2, s - r) == Doubled(d, s)
  {
    DoubledPow(d, r);
    DoubledPow(d, s);
    PowAdd(2, r, s - r);
    assert d * Pow(2, r) * Pow(2, s - r) == d * (Pow(2, r) * Pow(2, s - r));
  }

  /** The prime does not divide the number and, as a base, finds nothing against it. */
  ghost predicate NothingAgainst(n: nat, p: nat)
    requires n >= 2 && p > 0
  {
    n % p != 0 && (p < n ==> Pow(p, n - 1) % n == 1 && OnlyTrivialRoots(n, p))
  }

  ghost predicate AmongTwelve(p: nat)
  {
    p in {2, 3, 5, 7, 11, 13, 17, 19, 23, 29, 31, 37}
  }

  lemma FirstTwelve(p: nat)
    ensures AmongTwelve(p) <==> p in SMALL_PRIMES
    ensures AmongTwelve(p) <==> p in BASES
  {
    assert BASES == SMALL_PRIMES;
    if AmongTwelve(p) {
      assert SMALL_PRIMES[0] == 2 && SMALL_PRIMES[1] == 3 && SMALL_PRIMES[2] == 5 && SMALL_PRIMES[3] == 7;
      assert SMALL_PRIMES[4] == 11 && SMALL_PRIMES[5] == 13 && SMALL_PRIMES[6] == 17 && SMALL_PRIMES[7] == 19;
      assert SMALL_PRIMES[8] == 23 && SMALL_PRIMES[9] == 29 && SMALL_PRIMES[10] == 31 && SMALL_PRIMES[11] == 37;
    }
  }

  /**
   What the test accepts, said without its constants and its d and s: the first twelve primes,
   and the numbers that none of them divides and none of them finds anything against.
   */
  lemma AcceptedIff(n: nat)
    ensures Accepted(n) <==> AmongTwelve(n) || (n >= 2 && forall p: nat :: AmongTwelve(p) ==> NothingAgainst(n, p))
  {
    FirstTwelve(n);
    if AmongTwelve(n) {
      var i :| 0 <= i < |SMALL_PRIMES| && SMALL_PRIMES[i] == n;
      SmallPrimesArePrime(i);
      PrimesAreAccepted(n);
    } else if n >= 2 {
      if Accepted(n) {
        forall p: nat | AmongTwelve(p) ensures NothingAgainst(n, p) {
          FirstTwelve(p);
          AgainstIff(n, p);
        }
      }
      if forall p: nat :: AmongTwelve(p) ==> NothingAgainst(n, p) {
        AllClearAccepted(n);
      }
    }
  }

  lemma AgainstIff(n: nat, p: nat)
    requires n >= 2 && AmongTwelve(p)
    ensures NothingAgainst(n, p) <==> n % p != 0 && (p < n ==> StrongProbablePrime(n, p))
  {
    if n >= 3 { StrongIff(n, p); }
  }

  lemma AllClearAccepted(n: nat)
    requires n >= 2 && forall p: nat :: AmongTwelve(p) ==> NothingAgainst(n, p)
    ensures Accepted(n)
  {
    forall p: nat | p in SMALL_PRIMES ensures n % p != 0 {
      FirstTwelve(p);
      assert NothingAgainst(n, p);
    }
    forall a: nat | a in BASES && a < n ensures StrongProbablePrime(n, a) {
      FirstTwelve(a);
      assert NothingAgainst(n, a);
      AgainstIff(n, a);
    }
  }

  /** An accepted number satisfies Fermat's congruence for every base below it. */
  lemma AcceptedSatisfiesFermat(n: nat, a: nat)
    requires Accepted(n) && a in BASES && a < n
    ensures Pow(a, n - 1) % n == 1
  {
    if n in SMALL_PRIMES {
      var i :| 0 <= i < |SMALL_PRIMES| && SMALL_PRIMES[i] == n;
      SmallPrimesArePrime(i);
      PrimesPassEveryBase(n, a);
    }
    StrongSatisfiesFermat(n, a);
  }

  /** Every number from 2 to 40 has a divisor among the small primes. */
  lemma SmallPrimeBelow41(k: nat) returns (p: nat)
    requires 2 <= k <= 40
    ensures p in SMALL_PRIMES && k % p == 0
  {
    p := if k % 2 == 0 then 2 else if k % 3 == 0 then 3 else if k % 5 == 0 then 5 else k;
    assert p == SMALL_PRIMES[0] || p == SMALL_PRIMES[1] || p == SMALL_PRIMES[2] || p == k;
    if p == k {
      assert k == SMALL_PRIMES[0] || k == SMALL_PRIMES[1] || k == SMALL_PRIMES[2] || k == SMALL_PRIMES[3]
        || k == SMALL_PRIMES[4] || k == SMALL_PRIMES[5] || k == SMALL_PRIMES[6] || k == SMALL_PRIMES[7]
        || k == SMALL_PRIMES[8] || k == SMALL_PRIMES[9] || k == SMALL_PRIMES[10] || k == SMALL_PRIMES[11];
    }
  }

  /** Below 41² the answer is exact: accepted if and only if prime. */
  lemma ExactBelow1681(n: nat)
    requires n < 41 * 41
    ensures Accepted(n) <==> IsPrime(n)
  {
    if IsPrime(n) {
      PrimesAreAccepted(n);
    } else if n >= 2 {
      var k := SmallDivisor(n, 41);
      var p := SmallPrimeBelow41(k);
      DivisorOfDivisor(n, k, p);
    }
  }

  lemma DivisorOfDivisor(n: nat, k: nat, p: nat)
    requires 0 < p && 0 < k && n % k == 0 && k % p == 0
    ensures n % p == 0 && p <= k
  {
    var i, j := n / k, k / p;
    assert n == i * k && k == j * p;
    assert i * (j * p) == (i * j) * p;
    RemainderUnique(n, p, i * j, 0);
    assert j >= 1;
    assert j * p >= p;
  }

  // ----- the Fiat-Shamir prime

  /** A SHA-256 digest. */
  type Digest = d: seq<byte> | |d| == 32 witness seq(32, i => 0)

  function BytesValue(bytes: seq<byte>): nat
  {
    if bytes == [] then 0 else 256 * BytesValue(bytes[..|bytes| - 1]) + bytes[|bytes| - 1]
  }

  /** The first 16 digest bytes with the lowest and the highest bit forced to 1. */
  function Candidate(digest: Digest): nat
  {
    var first: byte := if digest[0] < 128 then digest[0] + 128 else digest[0];
    var last: byte := if digest[15] % 2 == 0 then digest[15] + 1 else digest[15];
    BytesValue([first] + digest[1..15] + [last])
  }

  lemma {:induction false} BytesValueRange(bytes: seq<byte>)
    requires bytes != [] && bytes[0] >= 128
    ensures 128 * Pow(256, |bytes| - 1) <= BytesValue(bytes) < Pow(256, |bytes|)
  {
    var front := bytes[..|bytes| - 1];
    if |bytes| == 1 {
      assert front == [];
      assert Pow(256, 1) == 256 * Pow(256, 0);
    } else {
      BytesValueRange(front);
    }
  }

  lemma LastByteParity(bytes: seq<byte>)
    requires bytes != []
    ensures BytesValue(bytes) % 2 == bytes[|bytes| - 1] % 2
  {
  }

  /** Every candidate is odd and has exactly 128 bits. */
  lemma CandidateShape(digest: Digest)
    ensures 0x8000_0000_0000_0000_0000_0000_0000_0000 <= Candidate(digest)
    ensures Candidate(digest) < 0x1_0000_0000_0000_0000_0000_0000_0000_0000
    ensures Candidate(digest) % 2 == 1
  {
    var first: byte := if digest[0] < 128 then digest[0] + 128 else digest[0];
    var last: byte := if digest[15] % 2 == 0 then digest[15] + 1 else digest[15];
    var bytes := [first] + digest[1..15] + [last];
    BytesValueRange(bytes);
    LastByteParity(bytes);
    SixteenBytes();
  }

  /** The k-th byte of a number, counted from the least significant one. */
  function ByteAt(n: nat, k: nat): nat
  {
    if k == 0 then n % 256 else ByteAt(n / 256, k - 1)
  }

  lemma {:induction false} ByteOfValue(bytes: seq<byte>, k: nat)
    requires k < |bytes|
    ensures ByteAt(BytesValue(bytes), k) == bytes[|bytes| - 1 - k]
    decreases k
  {
    var front := bytes[..|bytes| - 1];
    RemainderUnique(BytesValue(bytes), 256, BytesValue(front), bytes[|bytes| - 1]);
    if k > 0 { ByteOfValue(front, k - 1); }
  }

  /** The candidate is the first 16 bytes of the digest, big-endian, but for its first and last bit. */
  lemma CandidateBytes(digest: Digest, i: nat)
    requires i < 16
    ensures var b := ByteAt(Candidate(digest), 15 - i);
            && (0 < i < 15 ==> b == digest[i])
            && (i == 0 ==> b % 128 == digest[0] % 128 && b >= 128)
            && (i == 15 ==> b / 2 == digest[15] / 2 && b % 2 == 1)
  {
    var first: byte := if digest[0] < 128 then digest[0] + 128 else digest[0];
    var last: byte := if digest[15] % 2 == 0 then digest[15] + 1 else digest[15];
    ByteOfValue([first] + digest[1..15] + [last], 15 - i);
  }

  lemma SixteenBytes()
    ensures 128 * Pow(256, 15) == 0x8000_0000_0000_0000_0000_0000_0000_0000
    ensures Pow(256, 16) == 0x1_0000_0000_0000_0000_0000_0000_0000_0000
  {
    assert Pow(256, 2) == 256 * Pow(256, 1) == 0x1_0000;
    PowAdd(256, 2, 2);
    PowAdd(256, 4, 4);
    PowAdd(256, 8, 8);
    assert Pow(256, 16) == 256 * Pow(256, 15);
  }

  /** The first counter value whose candidate passes the test. */
  ghost predicate FirstHit(candidate: nat -> nat, counter: nat)
  {
    Accepted(candidate(counter)) && forall earlier: nat :: earlier < counter ==> !Accepted(candidate(earlier))
  }

  const COUNTERS: nat := 0x1_0000_0000

  /**
   The counter loop of `hash_to_prime` with its 32-bit counter.  `None`: the counter overflows,
   which stops the program or, without overflow checks, starts the same candidates over.
   */
  method FirstAccepted(candidate: nat -> nat) returns (found: Option<nat>)
    ensures found.Some? ==> found.value < COUNTERS && FirstHit(candidate, found.value)
    ensures found.None? <==> forall c: nat :: c < COUNTERS ==> !Accepted(candidate(c))
  {
    var counter := 0;
    while counter < COUNTERS
      invariant counter <= COUNTERS
      invariant forall earlier: nat :: earlier < counter ==> !Accepted(candidate(earlier))
    {
      var accepted := IsProbablePrime(candidate(counter));
      if accepted {
        return Some(counter);
      }
      counter := counter + 1;
    }
    return None;
  }

  /** What `hash_to_prime` delivers when it delivers a value. */
  method HashToPrime(digest: nat -> Digest) returns (l: Option<nat>)
    ensures l.None? <==> forall c: nat :: c < COUNTERS ==> !Accepted(Candidate(digest(c)))
    ensures l.Some? ==>
              && Accepted(l.value) && l.value % 2 == 1
              && 0x8000_0000_0000_0000_0000_0000_0000_0000 <= l.value < 0x1_0000_0000_0000_0000_0000_0000_0000_0000
              && exists c: nat ::
                   c < COUNTERS && FirstHit(i => Candidate(digest(i)), c) && l.value == Candidate(digest(c))
  {
    var candidate := (i: nat) => Candidate(digest(i));
    var counter := FirstAccepted(candidate);
    if counter.None? {
      assert forall c: nat :: c < COUNTERS ==> Accepted(candidate(c)) == Accepted(Candidate(digest(c)));
      return None;
    }
    CandidateShape(digest(counter.value));
    assert Accepted(candidate(counter.value));
    return Some(Candidate(digest(counter.value)));
  }

  // ----- the challenge element and the Wesolowski check

  /** `hash_to_element`: a digest value folded into the range of valid bases. */
  function HashToElement(value: nat, modulus: nat): (x: nat)
    requires modulus > 3
    ensures 2 <= x < modulus - 1
    ensures x % (modulus - 3) == (value + 2) % (modulus - 3)
  {
    FoldedResidue(value, modulus - 3);
    value % (modulus - 3) + 2
  }

  lemma FoldedResidue(value: nat, m: nat)
    requires m > 0
    ensures (value % m + 2) % m == (value + 2) % m
  {
    ModAdd(value, 2, m);
    ModAdd(value % m, 2, m);
    ModIdempotent(value, m);
  }

  datatype VdfError = OutOfBounds | InvalidProof

  /** The arithmetic part of `verify_vdf`, after parsing, with `l` from `hash_to_prime`. */
  function VerifyArithmetic(x: nat, y: nat, pi: nat, t: nat, l: nat, modulus: nat): Result<(), VdfError>
    requires l > 0 && modulus > 0
  {
    if x < 2 || y < 2 || pi < 2 || x >= modulus || y >= modulus || pi >= modulus then
      Err(OutOfBounds)
    else
      var r := ModPow(2, t, l);
      var check := (ModPow(pi, l, modulus) * ModPow(x, r, modulus)) % modulus;
      if check != y then Err(InvalidProof) else Ok(())
  }

  ghost predicate InBounds(v: nat, modulus: nat)
  {
    2 <= v < modulus
  }

  /**
   Forged or honest: a proof is accepted exactly when all three values are in bounds and the
   verification equation holds, and a bad bound is the error reported first.
   */
  lemma ProofAcceptedIff(x: nat, y: nat, pi: nat, t: nat, l: nat, modulus: nat)
    requires l > 0 && modulus > 0
    ensures VerifyArithmetic(x, y, pi, t, l, modulus) == Ok(()) <==>
              && InBounds(x, modulus) && InBounds(y, modulus) && InBounds(pi, modulus)
              && Pow(pi, l) * Pow(x, Pow(2, t) % l) % modulus == y
    ensures VerifyArithmetic(x, y, pi, t, l, modulus) == Err(OutOfBounds) <==>
              !InBounds(x, modulus) || !InBounds(y, modulus) || !InBounds(pi, modulus)
  {
    ModMul(Pow(pi, l), Pow(x, Pow(2, t) % l), modulus);
  }

  /** For fixed x, pi, t and l at most one output is accepted. */
  lemma OneOutputAccepted(x: nat, y1: nat, y2: nat, pi: nat, t: nat, l: nat, modulus: nat)
    requires l > 0 && modulus > 0
    requires VerifyArithmetic(x, y1, pi, t, l, modulus) == Ok(())
    requires VerifyArithmetic(x, y2, pi, t, l, modulus) == Ok(())
    ensures y1 == y2
  {
    ProofAcceptedIff(x, y1, pi, t, l, modulus);
    ProofAcceptedIff(x, y2, pi, t, l, modulus);
  }

  /** What the honest solver computes: t squarings of x. */
  function HonestOutput(x: nat, t: nat, modulus: nat): nat
    requires modulus > 0
  {
    ModPow(x, Doubled(1, t), modulus)
  }

  /** Wesolowski's proof: x to the quotient of 2^t by l. */
  function HonestProof(x: nat, t: nat, l: nat, modulus: nat): nat
    requires l > 0 && modulus > 0
  {
    ModPow(x, Doubled(1, t) / l, modulus)
  }

  lemma {:induction false} PowerOfTwo(t: nat)
    ensures Doubled(1, t) == Pow(2, t)
  {
    if t > 0 { PowerOfTwo(t - 1); }
  }

  /** pi^l · x^(2^t mod l) = y. */
  lemma WesolowskiEquation(x: nat, t: nat, l: nat, modulus: nat)
    requires l > 0 && modulus > 0
    ensures (ModPow(HonestProof(x, t, l, modulus), l, modulus) * ModPow(x, ModPow(2, t, l), modulus)) % modulus
         == HonestOutput(x, t, modulus)
  {
    PowerOfTwo(t);
    var e := Doubled(1, t);
    var q, r := e / l, e % l;
    assert e == q * l + r;
    PowMod(Pow(x, q), l, modulus);
    PowMul(x, q, l);
    PowAdd(x, q * l, r);
    ModMul(Pow(x, q * l), Pow(x, r), modulus);
  }

  /** The honest solver is accepted exactly when neither value falls below 2. */
  lemma HonestAcceptedIff(x: nat, t: nat, l: nat, modulus: nat)
    requires 2 <= x < modulus && l > 0
    ensures VerifyArithmetic(x, HonestOutput(x, t, modulus), HonestProof(x, t, l, modulus), t, l, modulus) == Ok(())
       <==> HonestOutput(x, t, modulus) >= 2 && HonestProof(x, t, l, modulus) >= 2
  {
    WesolowskiEquation(x, t, l, modulus);
  }

  lemma {:induction false} PowMonotone(b: int, m: nat, n: nat)
    requires b >= 1 && m <= n
    ensures 1 <= Pow(b, m) <= Pow(b, n)
  {
    PowPositive(b, m);
    if m < n {
      PowMonotone(b, m, n - 1);
      assert b * Pow(b, n - 1) >= Pow(b, n - 1);
    }
  }

  /**
   With a 128-bit l the scheme needs at least 128 squarings: below that the quotient is 0,
   the proof is 1, and the bounds check turns the honest solver away.
   */
  lemma ShortDelaysAreRejected(x: nat, t: nat, l: nat, modulus: nat)
    requires 2 <= x < modulus && t <= 127
    requires l > 0x8000_0000_0000_0000_0000_0000_0000_0000
    ensures HonestProof(x, t, l, modulus) == 1
    ensures VerifyArithmetic(x, HonestOutput(x, t, modulus), HonestProof(x, t, l, modulus), t, l, modulus)
        == Err(OutOfBounds)
  {
    PowerOfTwo(t);
    PowMonotone(2, t, 127);
    TwoTo127();
    RemainderUnique(Doubled(1, t), l, 0, Doubled(1, t));
    assert Pow(x, 0) == 1;
    RemainderUnique(1, modulus, 0, 1);
  }

  lemma TwoTo127()
    ensures Pow(2, 127) == 0x8000_0000_0000_0000_0000_0000_0000_0000
  {
    TwoTo32();
    PowAdd(2, 32, 32);
    PowAdd(2, 64, 64);
    assert Pow(2, 128) == 2 * Pow(2, 127);
  }

  lemma TwoTo32()
    ensures Pow(2, 32) == 0x1_0000_0000
  {
    assert Pow(2, 4) == 16;
    PowAdd(2, 4, 4);
    PowAdd(2, 8, 8);
    PowAdd(2, 16, 16);
  }
}
