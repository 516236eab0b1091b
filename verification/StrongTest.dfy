/** What is_prime (overlay/engram_layout.py:12-33) decides about every number, composites included,
    said with divisors and powers only. */
module StrongTest {
  import opened Arithmetic
  import opened NumberTheory
  import opened HeadLayout

  /** The power of a that is reached after s squarings is -1 modulo n. */
  ghost predicate MinusOneAt(n: nat, a: nat, d: nat, s: nat)
    requires n > 0
  {
    Pow(a, d * Pow(2, s)) % n == n - 1
  }

  /** n passes the strong test to base a, where n - 1 is d times 2^r and d is odd. */
  ghost predicate Strong(n: nat, a: nat, d: nat, r: nat)
    requires n > 0
  {
    Pow(a, d) % n == 1 || exists s :: 0 <= s < r && MinusOneAt(n, a, d, s)
  }

  /** No number from 2 to 40 is a proper divisor of n. */
  ghost predicate NoSmallDivisor(n: nat) {
    forall q :: 2 <= q <= 40 && q < n ==> n % q != 0
  }

  // ---------------------------------------------------------------------------
  // The loop over the squarings.

  lemma {:induction false} ReachesIff(a: nat, d: nat, n: nat, k: nat)
    requires n > 0
    ensures ReachesMinusOne(Pow(a, d) % n, n, k) <==> exists s :: 1 <= s <= k && MinusOneAt(n, a, d, s)
    decreases k
  {
    if k > 0 {
      SquareOfPower(a, d, n);
      ReachesIff(a, 2 * d, n, k - 1);
      forall s: nat | s > 0 ensures MinusOneAt(n, a, d, s) == MinusOneAt(n, a, 2 * d, s - 1) {
        DoubledExponent(d, s);
      }
      FirstSquaring(a, d, n);
      ReachesStep(a, d, n, k);
    }
  }

  lemma FirstSquaring(a: nat, d: nat, n: nat)
    requires n > 0
    ensures MinusOneAt(n, a, 2 * d, 0) <==> Pow(a, 2 * d) % n == n - 1
  {
    assert 2 * d * Pow(2, 0) == 2 * d;
  }

  lemma ReachesStep(a: nat, d: nat, n: nat, k: nat)
    requires n > 0 && k > 0
    requires forall s: nat :: s > 0 ==> MinusOneAt(n, a, d, s) == MinusOneAt(n, a, 2 * d, s - 1)
    ensures (exists s :: 1 <= s <= k && MinusOneAt(n, a, d, s))
            <==> MinusOneAt(n, a, 2 * d, 0) || exists s :: 1 <= s <= k - 1 && MinusOneAt(n, a, 2 * d, s)
  {
    assert MinusOneAt(n, a, d, 1) == MinusOneAt(n, a, 2 * d, 0);
    forall u | 1 <= u <= k - 1 && MinusOneAt(n, a, 2 * d, u)
      ensures exists s :: 1 <= s <= k && MinusOneAt(n, a, d, s)
    {
      assert MinusOneAt(n, a, d, u + 1) == MinusOneAt(n, a, 2 * d, u + 1 - 1);
    }
  }

  /** One round of the code's test is the strong test. */
  lemma PassesIff(n: nat, a: nat, d: nat, r: nat)
    requires n > 0 && r > 0
    ensures PassesBase(n, a, d, r) <==> Strong(n, a, d, r)
  {
    ReachesIff(a, d, n, r - 1);
    assert d * Pow(2, 0) == d;
    assert MinusOneAt(n, a, d, 0) <==> Pow(a, d) % n == n - 1;
  }

  lemma HalfOf(d: nat, r: nat) returns (half: nat)
    requires d > 0 && r > 0
    ensures half == d * Pow(2, r - 1) && d * Pow(2, r) == 2 * half && half > 0
  {
    half := d * Pow(2, r - 1);
    var p := Pow(2, r - 1);
    assert d * (2 * p) == 2 * (d * p);
    PowPositive(2, r - 1);
    MulMonotone(1, d, p);
  }

  lemma OneHalving(m: nat, half: nat)
    requires m == 2 * half && half > 0
    ensures OddPart(m) == OddPart(half) && Halvings(m) == 1 + Halvings(half)
  {
    assert m % 2 == 0 && m / 2 == half;
  }

  /** The halvings find the only way to write m as an odd number times a power of 2. */
  lemma {:induction false} HalvingsAre(m: nat, d: nat, r: nat)
    requires d % 2 == 1 && m == d * Pow(2, r)
    ensures OddPart(m) == d && Halvings(m) == r
    decreases r
  {
    if r > 0 {
      var half := HalfOf(d, r);
      HalvingsAre(half, d, r - 1);
      OneHalving(m, half);
    } else {
      assert Pow(2, 0) == 1 && m == d;
    }
  }

  // ---------------------------------------------------------------------------
  // The trial division.

  lemma {:induction false} FirstFactor(n: nat, factors: seq<nat>)
    requires Factors(factors)
    ensures SmallFactor(n, factors) == 0 ==> forall k :: 0 <= k < |factors| ==> n % factors[k] != 0
    ensures SmallFactor(n, factors) != 0 ==>
              exists k :: 0 <= k < |factors| && IsFirst(n, factors, k)
  {
    if factors != [] && n % factors[0] != 0 {
      FirstFactor(n, factors[1..]);
      if SmallFactor(n, factors) != 0 {
        var k :| 0 <= k < |factors[1..]| && IsFirst(n, factors[1..], k);
        assert IsFirst(n, factors, k + 1);
      } else {
        forall k | 0 <= k < |factors| ensures n % factors[k] != 0 {
          assert k > 0 ==> factors[k] == factors[1..][k - 1];
        }
      }
    } else if factors != [] {
      assert IsFirst(n, factors, 0);
    }
  }

  ghost predicate IsFirst(n: nat, factors: seq<nat>, k: nat)
    requires Factors(factors)
  {
    && k < |factors| && factors[k] == SmallFactor(n, factors) && n % factors[k] == 0
    && forall j :: 0 <= j < k ==> n % factors[j] != 0
  }

  /** The primes up to 40 are the ones the code divides by. */
  lemma PrimesTo40(p: nat) returns (k: nat)
    requires Prime(p) && p <= 40
    ensures k < |SMALL| && SMALL[k] == p
  {
    assert p > 2 ==> p % 2 != 0;
    assert p > 3 ==> p % 3 != 0;
    assert p > 5 ==> p % 5 != 0;
    k := if p == 2 then 0 else if p == 3 then 1 else if p == 5 then 2 else if p == 7 then 3
         else if p == 11 then 4 else if p == 13 then 5 else if p == 17 then 6 else if p == 19 then 7
         else if p == 23 then 8 else if p == 29 then 9 else if p == 31 then 10 else 11;
  }

  /** The trial division lets n through exactly when no number up to 40 is a proper divisor. */
  lemma TrialIff(n: nat)
    requires n >= 2
    ensures SmallFactor(n, SMALL) == 0 || SmallFactor(n, SMALL) == n <==> NoSmallDivisor(n)
    ensures NoSmallDivisor(n) ==> (SmallFactor(n, SMALL) == 0 <==> n > 40)
  {
    FirstFactor(n, SMALL);
    var f := SmallFactor(n, SMALL);
    if f == 0 || f == n {
      forall q | 2 <= q <= 40 && q < n ensures n % q != 0 {
        if n % q == 0 {
          NoDivisorBefore(n, q);
        }
      }
    } else {
      var k :| 0 <= k < |SMALL| && IsFirst(n, SMALL, k);
      DivisorIsSmaller(n, f);
      assert f <= 37;
    }
    if NoSmallDivisor(n) && n <= 40 {
      var k := PrimesTo40(n);
      MultipleModZero(1, n);
    }
    if f != 0 {
      var k :| 0 <= k < |SMALL| && IsFirst(n, SMALL, k);
    }
  }

  lemma DivisorIsSmaller(n: nat, f: nat)
    requires n > 0 && f > 0 && n % f == 0
    ensures f <= n
  {
    if f > n {
      DivModUnique(n, f, 0, n);
    }
  }

  lemma SmallOrdered(k: nat, j: nat)
    requires k <= j < |SMALL|
    ensures SMALL[k] <= SMALL[j] <= 40
  {
  }

  /** A proper divisor up to 40 has a prime factor that the division meets before n itself. */
  lemma NoDivisorBefore(n: nat, q: nat)
    requires 2 <= q <= 40 && q < n && n % q == 0
    ensures SmallFactor(n, SMALL) != 0 && SmallFactor(n, SMALL) < n
  {
    FirstFactor(n, SMALL);
    var p := PrimeFactor(q);
    DivisorIsSmaller(q, p);
    DivisorOfDivisor(n, q, p);
    var j := PrimesTo40(p);
    var k :| 0 <= k < |SMALL| && IsFirst(n, SMALL, k);
    SmallOrdered(k, j);
  }

  // ---------------------------------------------------------------------------
  // What is accepted.

  /** Exactly which numbers is_prime accepts. */
  lemma AcceptedIff(n: nat, d: nat, r: nat)
    requires n >= 2 && d % 2 == 1 && n - 1 == d * Pow(2, r)
    ensures Accepted(n) <==>
            NoSmallDivisor(n) && (n > 40 ==> Strong(n, 2, d, r) && Strong(n, 7, d, r) && Strong(n, 61, d, r))
  {
    TrialIff(n);
    HalvingsAre(n - 1, d, r);
    if SmallFactor(n, SMALL) == 0 {
      EvenHasSmallFactor(n);
      PassesIff(n, 2, d, r);
      PassesIff(n, 7, d, r);
      PassesIff(n, 61, d, r);
      assert BASES[0] == 2 && BASES[1] == 7 && BASES[2] == 61;
    }
  }

  lemma Decompose(n: nat) returns (d: nat, r: nat)
    requires n >= 2
    ensures d % 2 == 1 && n - 1 == d * Pow(2, r)
  {
    d, r := OddPart(n - 1), Halvings(n - 1);
    OddPartTimesPower(n - 1);
    OddPartIsOdd(n - 1);
  }

  lemma {:induction false} OddPartIsOdd(m: nat)
    requires m > 0
    ensures OddPart(m) % 2 == 1
  {
    if m % 2 == 0 {
      OddPartIsOdd(m / 2);
    }
  }

  /** Below 41 squared the answer is right for every number but 61. */
  lemma ExactBelow1681(n: int)
    requires n < 1681
    ensures Accepted(n) <==> Prime(n) && n != 61
  {
    if Prime(n) {
      PrimeAcceptedUnless61(n);
    } else if Accepted(n) {
      var d, r := Decompose(n);
      AcceptedIff(n, d, r);
      var q :| 2 <= q < n && n % q == 0;
      SmallOfTwo(n, q, n / q);
      assert false;
    }
  }

  /** Of two factors of a number below 41 squared one is at most 40. */
  lemma SmallOfTwo(n: nat, q: nat, m: nat)
    requires n < 1681 && n == m * q && 2 <= q < n
    ensures !NoSmallDivisor(n)
  {
    CofactorDivides(n, q, m);
    MultipleModZero(m, q);
    MulMonotone(41, m, q);
    MulMonotone(41, q, 41);
    assert q <= 40 || m <= 40;
  }

  lemma CofactorDivides(n: nat, q: nat, m: nat)
    requires n == m * q && 2 <= q < n
    ensures 2 <= m < n && n % m == 0
  {
    MulMonotone(m, 1, q);
    MulMonotone(2, q, m);
    assert n == q * m;
    MultipleModZero(q, m);
  }

  lemma {:induction false} OneStaysOne(n: nat, k: nat)
    requires n > 1
    ensures Squared(1, n, k) == 1
  {
    if k > 0 {
      OneStaysOne(n, k - 1);
    }
  }

  lemma MinusOneSquared(n: nat)
    requires n > 1
    ensures Square(n - 1, n) == 1
  {
    assert (n - 1) * (n - 1) == (n - 2) * n + 1;
    DivModUnique((n - 1) * (n - 1), n, n - 2, 1);
  }

  /** From an exponent whose power is 1 on, all doublings give 1. */
  lemma PowerStaysOne(a: nat, e: nat, n: nat, k: nat)
    requires n > 1 && Pow(a, e) % n == 1
    ensures Pow(a, e * Pow(2, k)) % n == 1
  {
    SquaredIsPower(a, e, n, k);
    OneStaysOne(n, k);
  }

  lemma ExponentSplit(d: nat, s: nat, r: nat)
    requires s < r
    ensures 2 * (d * Pow(2, s)) * Pow(2, r - s - 1) == d * Pow(2, r)
  {
    PowAdd(2, s + 1, r - s - 1);
    var u, v := Pow(2, s), Pow(2, r - s - 1);
    assert Pow(2, r) == 2 * u * v;
    assert 2 * (d * u) * v == d * (2 * u * v);
  }

  lemma StrongIsFermat(n: nat, a: nat, d: nat, r: nat)
    requires n > 1 && n - 1 == d * Pow(2, r) && Strong(n, a, d, r)
    ensures Pow(a, n - 1) % n == 1
  {
    if Pow(a, d) % n == 1 {
      PowerStaysOne(a, d, n, r);
    } else {
      var s :| 0 <= s < r && MinusOneAt(n, a, d, s);
      var e := d * Pow(2, s);
      MinusOneSquared(n);
      SquareOfPower(a, e, n);
      PowerStaysOne(a, 2 * e, n, r - s - 1);
      ExponentSplit(d, s, r);
    }
  }

  /** Every larger accepted number is at least a Fermat probable prime to all three bases, and is
      not divisible by any number up to 40. */
  lemma AcceptedPassesFermat(n: nat)
    requires Accepted(n) && n > 40
    ensures NoSmallDivisor(n)
    ensures Pow(2, n - 1) % n == 1 && Pow(7, n - 1) % n == 1 && Pow(61, n - 1) % n == 1
  {
    var d, r := Decompose(n);
    AcceptedIff(n, d, r);
    StrongIsFermat(n, 2, d, r);
    StrongIsFermat(n, 7, d, r);
    StrongIsFermat(n, 61, d, r);
  }
}
