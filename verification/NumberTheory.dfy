/** Primes, powers and residues: what the head-size search of overlay/engram_layout.py rests on. */
module NumberTheory {
  import opened Arithmetic

  ghost predicate Prime(p: int) {
    p >= 2 && forall d :: 2 <= d < p ==> p % d != 0
  }

  function Pow(b: nat, e: nat): nat {
    if e == 0 then 1 else b * Pow(b, e - 1)
  }

  function Factorial(n: nat): (f: nat)
    ensures f > 0
  {
    if n == 0 then 1 else n * Factorial(n - 1)
  }

  // ---------------------------------------------------------------------------
  // Residues.

  lemma AddMultiple(x: nat, k: nat, m: nat)
    requires m > 0
    ensures (k * m + x) % m == x % m
  {
    assert k * m + x == (k + x / m) * m + x % m;
    DivModUnique(k * m + x, m, k + x / m, x % m);
  }

  lemma ModOfProduct(a: nat, b: nat, m: nat)
    requires m > 0
    ensures (a * b) % m == (a % m * b) % m
  {
    var q, r := a / m, a % m;
    assert a * b == (q * m + r) * b == (q * b) * m + r * b;
    AddMultiple(r * b, q * b, m);
  }

  lemma ModOfProducts(a: nat, b: nat, m: nat)
    requires m > 0
    ensures (a * b) % m == (a % m * (b % m)) % m
  {
    ModOfProduct(a, b, m);
    assert a % m * b == b * (a % m);
    ModOfProduct(b, a % m, m);
    assert b % m * (a % m) == a % m * (b % m);
  }

  lemma EqualResidues(a: nat, b: nat, m: nat)
    requires m > 0 && a >= b
    ensures a % m == b % m <==> (a - b) % m == 0
  {
    var q := b / m;
    assert b == q * m + b % m;
    if a % m == b % m {
      assert a == a / m * m + a % m;
      assert a - b == (a / m - q) * m;
      MulMonotone(a / m + 1, q, m);
      DivModUnique(a - b, m, a / m - q, 0);
    }
    if (a - b) % m == 0 {
      assert a == (a - b) / m * m + b;
      AddMultiple(b, (a - b) / m, m);
    }
  }

  /** A prime divides no product of a smaller positive number and a number it does not divide. */
  lemma {:induction false} NoZeroProduct(p: nat, r: nat, b: nat)
    requires Prime(p) && 0 < r < p && b % p != 0
    ensures (r * b) % p != 0
    decreases r
  {
    if r > 1 {
      var q, s, k := p / r, p % r, r * b / p;
      NoZeroProduct(p, s, b);
      assert p == q * r + s;
      assert r * b == k * p + (r * b) % p;
      assert s * b == p * b - q * (r * b);
      assert (r * b) % p == 0 ==> s * b == (b - q * k) * p;
      MultipleModZero(b - q * k, p);
    } else {
      assert r * b == b;
    }
  }

  lemma MultipleModZero(k: int, m: nat)
    requires m > 0
    ensures (k * m) % m == 0
  {
    if k >= 0 {
      DivModUnique(k * m, m, k, 0);
    } else {
      var x := k * m;
      assert x == x / m * m + x % m;
      MulMonotone(k + 1, x / m, m);
      MulMonotone(x / m + 1, k, m);
    }
  }

  lemma PrimeDividesProduct(p: nat, a: nat, b: nat)
    requires Prime(p) && (a * b) % p == 0
    ensures a % p == 0 || b % p == 0
  {
    ModOfProduct(a, b, p);
    if a % p != 0 && b % p != 0 {
      NoZeroProduct(p, a % p, b);
    }
  }

  lemma CancelFactor(p: nat, w: nat, f: nat)
    requires Prime(p) && w > 0 && (w * f) % p == f % p && f % p != 0
    ensures w % p == 1
  {
    MulMonotone(1, w, f);
    EqualResidues(w * f, f, p);
    assert w * f - f == (w - 1) * f;
    PrimeDividesProduct(p, w - 1, f);
    EqualResidues(w, 1, p);
  }

  lemma SquareMinusOne(m: nat, u: nat)
    requires m >= 2 && ((u + 1) * (u + 1)) % m == 1
    ensures (u * (u + 2)) % m == 0
  {
    var y := u * (u + 2);
    assert (u + 1) * (u + 1) == y + 1;
    EqualResidues(y + 1, 1, m);
  }

  lemma SquareRootsOfOne(p: nat, x: nat)
    requires Prime(p) && 0 < x < p && (x * x) % p == 1
    ensures x == 1 || x == p - 1
  {
    SquareMinusOne(p, x - 1);
    PrimeDividesProduct(p, x - 1, x + 1);
  }

  // ---------------------------------------------------------------------------
  // Fermat's little theorem, by the permutation i -> a * i of the nonzero residues.

  ghost function Product(s: set<nat>): nat {
    if s == {} then 1 else var x :| x in s; x * Product(s - {x})
  }

  lemma {:induction false} ProductWith(s: set<nat>, x: nat)
    requires x in s
    ensures Product(s) == x * Product(s - {x})
    decreases |s|
  {
    var y :| y in s && Product(s) == y * Product(s - {y});
    if y != x {
      ProductWith(s - {y}, x);
      ProductWith(s - {x}, y);
      assert s - {y} - {x} == s - {x} - {y};
      assert Product(s) == y * (x * Product(s - {x} - {y})) == x * (y * Product(s - {x} - {y}));
    }
  }

  function Images(a: nat, p: nat, k: nat): set<nat>
    requires p > 0
  {
    if k == 0 then {} else Images(a, p, k - 1) + {a * k % p}
  }

  function UpTo(k: nat): set<nat> {
    if k == 0 then {} else UpTo(k - 1) + {k}
  }

  lemma {:induction false} UpToFacts(k: nat)
    ensures |UpTo(k)| == k && Product(UpTo(k)) == Factorial(k)
    ensures forall x: nat :: x in UpTo(k) <==> 1 <= x <= k
  {
    if k > 0 {
      UpToFacts(k - 1);
      ProductWith(UpTo(k), k);
      assert UpTo(k) - {k} == UpTo(k - 1);
    }
  }

  lemma {:induction false} NewImage(a: nat, p: nat, j: nat, k: nat)
    requires Prime(p) && a % p != 0 && j < k < p
    ensures a * k % p !in Images(a, p, j)
  {
    if j > 0 {
      NewImage(a, p, j - 1, k);
      NoZeroProduct(p, k - j, a);
      assert a * k - a * j == (k - j) * a;
      MulMonotone(j, k, a);
      assert a * j <= a * k;
      EqualResidues(a * k, a * j, p);
    }
  }

  lemma ResidueStep(a: nat, p: nat, k: nat, rest: nat, w: nat, f: nat)
    requires p > 0 && rest % p == w * f % p
    ensures (a * k % p * rest) % p == (a * w * (k * f)) % p
  {
    ModOfProducts(a * k, rest, p);
    ModOfProducts(a * k, w * f, p);
    ModOfProduct(a * k, rest, p);
    assert a * k * (w * f) == a * w * (k * f);
  }

  lemma {:induction false} ImagesDistinct(a: nat, p: nat, k: nat)
    requires Prime(p) && a % p != 0 && k < p
    ensures |Images(a, p, k)| == k && Images(a, p, k) <= UpTo(p - 1)
  {
    if k > 0 {
      ImagesDistinct(a, p, k - 1);
      NewImage(a, p, k - 1, k);
      NoZeroProduct(p, k, a);
      assert a * k == k * a;
      UpToFacts(p - 1);
    }
  }

  lemma {:induction false} ImagesProduct(a: nat, p: nat, k: nat)
    requires Prime(p) && a % p != 0 && k < p
    ensures Product(Images(a, p, k)) % p == Pow(a, k) * Factorial(k) % p
  {
    if k > 0 {
      ImagesProduct(a, p, k - 1);
      NewImage(a, p, k - 1, k);
      var rest, x := Images(a, p, k - 1), a * k % p;
      ProductWith(Images(a, p, k), x);
      assert Images(a, p, k) - {x} == rest;
      ResidueStep(a, p, k, Product(rest), Pow(a, k - 1), Factorial(k - 1));
    }
  }

  lemma FullSubset<T>(s: set<T>, t: set<T>)
    requires s <= t && |s| == |t|
    ensures s == t
  {
    assert s * t == s;
    assert |t - s| == 0;
  }

  lemma {:induction false} FactorialCoprime(p: nat, k: nat)
    requires Prime(p) && k < p
    ensures Factorial(k) % p != 0
  {
    if k > 0 {
      FactorialCoprime(p, k - 1);
      NoZeroProduct(p, k, Factorial(k - 1));
    }
  }

  lemma {:induction false} PowPositive(a: nat, e: nat)
    requires a > 0
    ensures Pow(a, e) > 0
  {
    if e > 0 {
      PowPositive(a, e - 1);
    }
  }

  lemma ImagesAreAll(a: nat, p: nat)
    requires Prime(p) && a % p != 0
    ensures Pow(a, p - 1) * Factorial(p - 1) % p == Factorial(p - 1) % p
  {
    ImagesDistinct(a, p, p - 1);
    ImagesProduct(a, p, p - 1);
    UpToFacts(p - 1);
    FullSubset(Images(a, p, p - 1), UpTo(p - 1));
  }

  lemma Fermat(a: nat, p: nat)
    requires Prime(p) && a % p != 0
    ensures Pow(a, p - 1) % p == 1
  {
    ImagesAreAll(a, p);
    FactorialCoprime(p, p - 1);
    PowPositive(a, p - 1);
    CancelFactor(p, Pow(a, p - 1), Factorial(p - 1));
  }

  // ---------------------------------------------------------------------------
  // There is a prime above every number.

  lemma {:induction false} FactorialDivisible(m: nat, k: nat)
    requires 1 <= k <= m
    ensures Factorial(m) % k == 0
  {
    if k == m {
      assert Factorial(m) == Factorial(m - 1) * m;
      MultipleModZero(Factorial(m - 1), m);
    } else {
      FactorialDivisible(m - 1, k);
      var f := Factorial(m - 1) / k;
      assert Factorial(m) == m * (f * k) == (m * f) * k;
      MultipleModZero(m * f, k);
    }
  }

  lemma DivisorOfDivisor(n: nat, q: nat, d: nat)
    requires q > 0 && d > 0 && n % q == 0
    ensures q % d == 0 ==> n % d == 0
  {
    if q % d == 0 {
      assert n == n / q * (q / d * d) == (n / q * (q / d)) * d;
      MultipleModZero(n / q * (q / d), d);
    }
  }

  lemma FactorialPlusOne(m: nat, q: nat)
    requires 2 <= q <= m
    ensures (Factorial(m) + 1) % q == 1
  {
    FactorialDivisible(m, q);
    var f := Factorial(m);
    EqualResidues(f + 1, 1, q);
  }

  lemma PrimeFactor(n: nat) returns (q: nat)
    requires n >= 2
    ensures Prime(q) && n % q == 0
  {
    q := 2;
    while n % q != 0
      invariant 2 <= q <= n
      invariant forall d :: 2 <= d < q ==> n % d != 0
      decreases n - q
    {
      q := q + 1;
    }
    forall d | 2 <= d < q ensures q % d != 0 {
      DivisorOfDivisor(n, q, d);
    }
  }

  lemma PrimeAbove(m: nat) returns (q: nat)
    ensures Prime(q) && q > m
  {
    q := PrimeFactor(Factorial(m) + 1);
    if q <= m {
      FactorialPlusOne(m, q);
    }
  }
}
