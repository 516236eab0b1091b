/** Engram's hash-head layout: the head-size search and the shard ranges of
    overlay/engram_layout.py, and the backend's sharding of the same heads in
    overlay/engram_file_backend.py. */
module HeadLayout {
  import opened Arithmetic
  import opened NumberTheory

  // ---------------------------------------------------------------------------
  // is_prime.

  const SMALL: seq<nat> := [2, 3, 5, 7, 11, 13, 17, 19, 23, 29, 31, 37]
  const BASES: seq<nat> := [2, 7, 61]

  function OddPart(d: nat): (o: nat)
    ensures d > 0 ==> 0 < o
  {
    if d > 0 && d % 2 == 0 then OddPart(d / 2) else d
  }

  function Halvings(d: nat): nat {
    if d > 0 && d % 2 == 0 then 1 + Halvings(d / 2) else 0
  }

  function Square(x: nat, n: nat): (y: nat)
    requires n > 0
    ensures y < n
  {
    x * x % n
  }

  /** Does one of the next k squarings of x give n - 1? */
  predicate ReachesMinusOne(x: nat, n: nat, k: nat)
    requires n > 0
    decreases k
  {
    k > 0 && (Square(x, n) == n - 1 || ReachesMinusOne(Square(x, n), n, k - 1))
  }

  /** One round of the strong test: a^d is 1 or -1, or reaches -1 within r - 1 squarings. */
  predicate PassesBase(n: nat, a: nat, d: nat, r: nat)
    requires n > 0 && r > 0
  {
    var x := Pow(a, d) % n;
    x == 1 || x == n - 1 || ReachesMinusOne(x, n, r - 1)
  }

  predicate Factors(factors: seq<nat>) {
    forall k :: 0 <= k < |factors| ==> factors[k] >= 2
  }

  /** The first of the factors that divides n, or 0. */
  function SmallFactor(n: nat, factors: seq<nat>): nat
    requires Factors(factors)
  {
    if factors == [] then 0 else if n % factors[0] == 0 then factors[0] else SmallFactor(n, factors[1..])
  }

  lemma EvenHasSmallFactor(n: nat)
    ensures n % 2 == 0 ==> SmallFactor(n, SMALL) == 2
    ensures n % 2 == 1 && n > 1 ==> Halvings(n - 1) > 0
  {
  }

  /** What is_prime answers. */
  predicate Accepted(n: int) {
    n >= 2 &&
    if SmallFactor(n, SMALL) != 0 then n == SmallFactor(n, SMALL)
    else
      EvenHasSmallFactor(n);
      forall i :: 0 <= i < |BASES| ==> PassesBase(n, BASES[i], OddPart(n - 1), Halvings(n - 1))
  }

  /** The body of is_prime's loop over the bases. */
  method PassesBaseLoop(n: nat, a: nat, d: nat, r: nat) returns (passes: bool)
    requires n > 0 && r > 0
    ensures passes == PassesBase(n, a, d, r)
  {
    var x: nat := Pow(a, d) % n;
    if x == 1 || x == n - 1 {
      return true;
    }
    ghost var reaches := ReachesMinusOne(x, n, r - 1);
    for k := 0 to r - 1
      invariant reaches == ReachesMinusOne(x, n, r - 1 - k)
    {
      x := Square(x, n);
      if x == n - 1 {
        return true;
      }
    }
    passes := false;
  }

  /** The trial division. */
  method FindSmallFactor(n: nat, factors: seq<nat>) returns (f: nat)
    requires Factors(factors)
    ensures f == SmallFactor(n, factors)
  {
    var i := 0;
    while i < |factors|
      invariant i <= |factors| && SmallFactor(n, factors) == SmallFactor(n, factors[i..])
    {
      if n % factors[i] == 0 {
        return factors[i];
      }
      i := i + 1;
    }
    f := 0;
  }

  method IsPrime(n: int) returns (answer: bool)
    ensures answer == Accepted(n)
  {
    if n < 2 {
      return false;
    }
    var f := FindSmallFactor(n, SMALL);
    if f != 0 {
      return n == f;
    }
    EvenHasSmallFactor(n);
    var d, r := n - 1, 0;
    while d % 2 == 0
      invariant d > 0 && OddPart(d) == OddPart(n - 1) && r + Halvings(d) == Halvings(n - 1)
      decreases d
    {
      d, r := d / 2, r + 1;
    }
    assert d == OddPart(n - 1) && r == Halvings(n - 1);
    var b := 0;
    while b < |BASES|
      invariant b <= |BASES|
      invariant forall k :: 0 <= k < b ==> PassesBase(n, BASES[k], d, r)
    {
      var passes := PassesBaseLoop(n, BASES[b], d, r);
      if !passes {
        return false;
      }
      b := b + 1;
    }
    answer := true;
  }

  lemma {:induction false} OddPartTimesPower(d: nat)
    ensures OddPart(d) * Pow(2, Halvings(d)) == d
  {
    if d > 0 && d % 2 == 0 {
      OddPartTimesPower(d / 2);
      assert OddPart(d) * Pow(2, Halvings(d)) == OddPart(d / 2) * (2 * Pow(2, Halvings(d / 2)))
             == 2 * (OddPart(d / 2) * Pow(2, Halvings(d / 2)));
    }
  }

  function Squared(x: nat, n: nat, k: nat): nat
    requires n > 0
    decreases k
  {
    if k == 0 then x else Squared(Square(x, n), n, k - 1)
  }

  lemma {:induction false} PowAdd(a: nat, e: nat, f: nat)
    ensures Pow(a, e + f) == Pow(a, e) * Pow(a, f)
    decreases e
  {
    if e > 0 {
      PowAdd(a, e - 1, f);
      var u, v := Pow(a, e - 1), Pow(a, f);
      assert Pow(a, e + f) == a * Pow(a, e - 1 + f);
      assert a * (u * v) == a * u * v;
    }
  }

  lemma SquareOfPower(a: nat, d: nat, n: nat)
    requires n > 0
    ensures Square(Pow(a, d) % n, n) == Pow(a, 2 * d) % n
  {
    PowAdd(a, d, d);
    ModOfProducts(Pow(a, d), Pow(a, d), n);
  }

  lemma DoubledExponent(d: nat, k: nat)
    requires k > 0
    ensures 2 * d * Pow(2, k - 1) == d * Pow(2, k)
  {
  }

  lemma {:induction false} SquaredIsPower(a: nat, d: nat, n: nat, k: nat)
    requires n > 0
    ensures Squared(Pow(a, d) % n, n, k) == Pow(a, d * Pow(2, k)) % n
    decreases k
  {
    if k > 0 {
      DoubledExponent(d, k);
      SquareOfPower(a, d, n);
      SquaredIsPower(a, 2 * d, n, k - 1);
    } else {
      assert d * Pow(2, 0) == d;
    }
  }

  /** If squaring k times ends at 1 then, p being prime, the chain was at 1 or -1 from the
      start or met -1 on the way. */
  lemma {:induction false} ChainToOne(x: nat, p: nat, k: nat)
    requires Prime(p) && x < p && k > 0 && Squared(x, p, k) == 1
    ensures x == 1 || x == p - 1 || ReachesMinusOne(x, p, k - 1)
    decreases k
  {
    var y := Square(x, p);
    if k > 1 {
      ChainToOne(y, p, k - 1);
    }
    if y == 1 && x > 0 {
      SquareRootsOfOne(p, x);
    }
  }

  lemma PrimePassesBase(p: nat, a: nat)
    requires Prime(p) && p % 2 == 1 && a % p != 0
    ensures Halvings(p - 1) > 0 && PassesBase(p, a, OddPart(p - 1), Halvings(p - 1))
  {
    Fermat(a, p);
    OddPartTimesPower(p - 1);
    SquaredIsPower(a, OddPart(p - 1), p, Halvings(p - 1));
    ChainToOne(Pow(a, OddPart(p - 1)) % p, p, Halvings(p - 1));
  }

  lemma {:induction false} SmallFactorOfPrime(p: nat, factors: seq<nat>)
    requires Prime(p) && Factors(factors)
    ensures SmallFactor(p, factors) == 0 || SmallFactor(p, factors) == p
    ensures SmallFactor(p, factors) == 0 ==> forall k :: 0 <= k < |factors| ==> p % factors[k] != 0
  {
    if factors != [] && p % factors[0] != 0 {
      SmallFactorOfPrime(p, factors[1..]);
      forall k | 0 < k < |factors|
        ensures SmallFactor(p, factors) == 0 ==> p % factors[k] != 0
      {
        assert factors[k] == factors[1..][k - 1];
      }
    }
  }

  lemma NoSmallFactorIsLarge(p: nat)
    requires p >= 2 && forall k :: 0 <= k < |SMALL| ==> p % SMALL[k] != 0
    ensures p >= 41
  {
    assert p % SMALL[0] != 0 && p % SMALL[1] != 0 && p % SMALL[2] != 0 && p % SMALL[3] != 0;
    assert p % SMALL[4] != 0 && p % SMALL[5] != 0 && p % SMALL[6] != 0 && p % SMALL[7] != 0;
    assert p % SMALL[8] != 0 && p % SMALL[9] != 0 && p % SMALL[10] != 0 && p % SMALL[11] != 0;
  }

  lemma {:induction false} NoFactor(n: nat, factors: seq<nat>)
    requires Factors(factors) && forall k :: 0 <= k < |factors| ==> n % factors[k] != 0
    ensures SmallFactor(n, factors) == 0
  {
    if factors != [] {
      NoFactor(n, factors[1..]);
    }
  }

  lemma Base61Fails()
    ensures !PassesBase(61, 61, 15, 2)
  {
    assert Pow(61, 15) == Pow(61, 14) * 61;
    MultipleModZero(Pow(61, 14), 61);
    assert Square(0, 61) == 0 && !ReachesMinusOne(0, 61, 1);
  }

  lemma Rejects61()
    ensures !Accepted(61)
  {
    NoFactor(61, SMALL);
    assert OddPart(60) == 15 && Halvings(60) == 2;
    Base61Fails();
    assert BASES[2] == 61;
  }

  lemma BaseNotMultiple(p: nat, i: nat)
    requires p >= 41 && p != 61 && i < |BASES|
    ensures BASES[i] % p != 0
  {
    var a := BASES[i];
    assert a == 2 || a == 7 || a == 61;
    if p > a {
      DivModUnique(a, p, 0, a);
    } else {
      DivModUnique(61, p, 1, 61 - p);
    }
  }

  /** is_prime accepts every prime but one: 61 is a test base, so base 61 is 0 modulo it. */
  lemma PrimeAcceptedUnless61(p: int)
    requires Prime(p)
    ensures Accepted(p) <==> p != 61
  {
    if p == 61 {
      Rejects61();
    } else {
      SmallFactorOfPrime(p, SMALL);
      if SmallFactor(p, SMALL) == 0 {
        NoSmallFactorIsLarge(p);
        EvenHasSmallFactor(p);
        forall i | 0 <= i < |BASES| ensures PassesBase(p, BASES[i], OddPart(p - 1), Halvings(p - 1)) {
          BaseNotMultiple(p, i);
          PrimePassesBase(p, BASES[i]);
        }
      }
    }
  }

  // ---------------------------------------------------------------------------
  // find_next_prime and head_sizes.

  /** A number the search may take: accepted and not taken before. */
  ghost predicate Free(c: int, seen: set<int>) {
    Accepted(c) && c !in seen
  }

  ghost predicate IsNext(c: int, start: int, seen: set<int>) {
    c > start && Free(c, seen) && NoneBetween(start, c, seen)
  }

  lemma {:induction false} SetBound(s: set<int>) returns (m: nat)
    ensures forall x :: x in s ==> x <= m
    decreases |s|
  {
    m := 0;
    if exists y :: y in s {
      var y :| y in s;
      m := SetBound(s - {y});
      assert forall x :: x in s ==> x == y || x in s - {y};
      m := if y > m then y else m;
    }
  }

  /** The search always has something to find: a prime above the start, 61 and all of seen. */
  lemma FreeAbove(start: int, seen: set<int>) returns (c: int)
    ensures c > start && Free(c, seen)
  {
    var m := SetBound(seen + {start, 61});
    assert start in seen + {start, 61} && 61 in seen + {start, 61};
    c := PrimeAbove(m);
    PrimeAcceptedUnless61(c);
    assert c in seen ==> c in seen + {start, 61};
  }

  /** Nothing free was passed over. */
  ghost predicate NoneBetween(start: int, c: int, seen: set<int>) {
    forall x :: start < x < c ==> !Free(x, seen)
  }

  lemma PassOver(start: int, c: int, seen: set<int>, found: int)
    requires NoneBetween(start, c, seen) && !Free(c, seen) && Free(found, seen) && c <= found
    ensures NoneBetween(start, c + 1, seen) && c < found
  {
  }

  /** The test in the loop's guard. */
  method IsFree(c: int, seen: set<int>) returns (free: bool)
    ensures free == Free(c, seen)
  {
    free := IsPrime(c);
    free := free && c !in seen;
  }

  method FindNextPrime(start: int, seen: set<int>) returns (candidate: int)
    ensures IsNext(candidate, start, seen)
  {
    ghost var found := FreeAbove(start, seen);
    candidate := start + 1;
    var free := IsFree(candidate, seen);
    while !free
      invariant start < candidate <= found && free == Free(candidate, seen)
      invariant NoneBetween(start, candidate, seen)
      decreases found - candidate
    {
      PassOver(start, candidate, seen, found);
      candidate := candidate + 1;
      free := IsFree(candidate, seen);
    }
  }

  function SetOf(s: seq<int>): set<int> {
    set x | x in s
  }

  /** Each size is the least number from v on that is still free when it is taken. */
  ghost predicate Greedy(sizes: seq<int>, v: int, seen: set<int>) {
    sizes == [] ||
    var n := |sizes| - 1;
    Greedy(sizes[..n], v, seen) && IsNext(sizes[n], v - 1, seen + SetOf(sizes[..n]))
  }

  /** Searching on from the last size taken finds the same number as searching from v. */
  lemma ExtendGreedy(sizes: seq<int>, v: int, seen: set<int>, start: int, c: int)
    requires Greedy(sizes, v, seen)
    requires IsNext(c, start, seen + SetOf(sizes))
    requires start == v - 1 || (sizes != [] && start == sizes[|sizes| - 1])
    ensures Greedy(sizes + [c], v, seen)
  {
    assert (sizes + [c])[..|sizes|] == sizes;
    forall x | v - 1 < x <= start ensures !Free(x, seen + SetOf(sizes)) {
      var init := sizes[..|sizes| - 1];
      assert x < start ==> !Free(x, seen + SetOf(init));
      assert forall y :: y in init ==> y in sizes;
    }
  }

  lemma {:induction false} JoinGreedy(a: seq<int>, b: seq<int>, v: int, seen: set<int>)
    requires Greedy(a, v, seen) && Greedy(b, v, seen + SetOf(a))
    ensures Greedy(a + b, v, seen)
    ensures SetOf(a + b) == SetOf(a) + SetOf(b)
    decreases |b|
  {
    if b == [] {
      assert a + b == a;
    } else {
      var n := |b| - 1;
      JoinGreedy(a, b[..n], v, seen);
      assert (a + b)[..|a| + n] == a + b[..n];
      assert seen + SetOf(a) + SetOf(b[..n]) == seen + SetOf(a + b[..n]);
    }
  }

  /** What greedy choice amounts to: the sizes are increasing, and they are all the free
      numbers from v up to the last of them. */
  lemma {:induction false} GreedyIsConsecutive(sizes: seq<int>, v: int, seen: set<int>)
    requires Greedy(sizes, v, seen)
    ensures forall i, j :: 0 <= i < j < |sizes| ==> sizes[i] < sizes[j]
    ensures sizes != [] ==>
              forall x :: x in sizes <==> v <= x <= sizes[|sizes| - 1] && Free(x, seen)
  {
    if sizes != [] {
      var n := |sizes| - 1;
      var init, c := sizes[..n], sizes[n];
      GreedyIsConsecutive(init, v, seen);
      assert forall x :: x in sizes <==> x in init || x == c;
      assert Free(c, seen) && c !in init;
      assert n > 0 ==> init[n - 1] < c;
      forall x ensures x in sizes <==> v <= x <= c && Free(x, seen) {
        assert x !in init && Free(x, seen) ==> Free(x, seen + SetOf(init));
      }
    }
  }

  /** A greedy run of given length is determined by where it starts. */
  lemma {:induction false} GreedyUnique(a: seq<int>, b: seq<int>, v: int, seen: set<int>)
    requires Greedy(a, v, seen) && Greedy(b, v, seen) && |a| == |b|
    ensures a == b
  {
    if a != [] {
      var n := |a| - 1;
      GreedyUnique(a[..n], b[..n], v, seen);
      assert a == a[..n] + [a[n]] && b == b[..n] + [b[n]];
    }
  }

  /** head_sizes' inner loop: the heads of one n-gram order. */
  method OneOrder(vocabSize: int, heads: nat, seen: set<int>) returns (sizes: seq<int>, seen': set<int>)
    ensures Greedy(sizes, vocabSize, seen) && |sizes| == heads
    ensures seen' == seen + SetOf(sizes)
  {
    sizes, seen' := [], seen;
    var current := vocabSize - 1;
    for h := 0 to heads
      invariant |sizes| == h && Greedy(sizes, vocabSize, seen) && seen' == seen + SetOf(sizes)
      invariant current == if h == 0 then vocabSize - 1 else sizes[h - 1]
    {
      var previous := current;
      current := FindNextPrime(previous, seen');
      ExtendGreedy(sizes, vocabSize, seen, previous, current);
      seen' := seen' + {current};
      sizes := sizes + [current];
    }
  }

  /** heads for each n-gram order from 2 up to maxNgram. */
  function HeadCount(heads: nat, maxNgram: int): nat
    decreases maxNgram
  {
    if maxNgram <= 1 then 0 else heads + HeadCount(heads, maxNgram - 1)
  }

  lemma {:induction false} HeadCountIs(heads: nat, maxNgram: int)
    ensures HeadCount(heads, maxNgram) == if maxNgram >= 1 then heads * (maxNgram - 1) else 0
    decreases maxNgram
  {
    if maxNgram > 1 {
      HeadCountIs(heads, maxNgram - 1);
      assert heads * (maxNgram - 1) == heads * (maxNgram - 2) + heads;
    }
  }

  /** head_sizes: although the search restarts below vocab_size for each n-gram order, the
      sizes are one greedy run from vocab_size on, and seen gains exactly them. */
  method HeadSizes(vocabSize: int, heads: nat, maxNgram: int, seen: set<int>) returns (sizes: seq<int>, seen': set<int>)
    ensures Greedy(sizes, vocabSize, seen)
    ensures |sizes| == HeadCount(heads, maxNgram)
    ensures seen' == seen + SetOf(sizes)
  {
    sizes, seen' := [], seen;
    var order := 1;
    while order < maxNgram
      invariant 1 <= order && (order <= maxNgram || order == 1)
      invariant |sizes| == HeadCount(heads, order)
      invariant Greedy(sizes, vocabSize, seen) && seen' == seen + SetOf(sizes)
    {
      var more;
      more, seen' := OneOrder(vocabSize, heads, seen');
      JoinGreedy(sizes, more, vocabSize, seen);
      sizes := sizes + more;
      order := order + 1;
    }
  }

  /** The least free number above a start, given one. */
  lemma NextFree(start: int, seen: set<int>, found: int) returns (c: int)
    requires found > start && Free(found, seen)
    ensures IsNext(c, start, seen)
  {
    c := start + 1;
    while !Free(c, seen)
      invariant start < c <= found
      invariant forall x :: start < x < c ==> !Free(x, seen)
      decreases found - c
    {
      c := c + 1;
    }
  }

  /** There are greedy runs of every length. */
  lemma {:induction false} GreedyExists(v: int, seen: set<int>, n: nat) returns (sizes: seq<int>)
    ensures Greedy(sizes, v, seen) && |sizes| == n
  {
    if n == 0 {
      sizes := [];
    } else {
      var init := GreedyExists(v, seen, n - 1);
      var found := FreeAbove(v - 1, seen + SetOf(init));
      var c := NextFree(v - 1, seen + SetOf(init), found);
      sizes := init + [c];
      assert sizes[..n - 1] == init;
    }
  }

  /** How many sizes the layers below this one take, n each. */
  function Taken(layer: nat, n: nat): nat {
    if layer == 0 then 0 else Taken(layer - 1, n) + n
  }

  lemma {:induction false} TakenIs(layer: nat, n: nat)
    ensures Taken(layer, n) == layer * n
  {
    if layer > 0 {
      TakenIs(layer - 1, n);
      assert layer * n == (layer - 1) * n + n;
    }
  }

  /** In the greedy run from vocabSize on, the sizes are the stretch behind those of the layers
      below. */
  ghost predicate IsLayer(sizes: seq<int>, vocabSize: int, layer: nat) {
    forall run: seq<int> :: Greedy(run, vocabSize, {}) && |run| == Taken(layer + 1, |sizes|) ==>
      sizes == run[Taken(layer, |sizes|)..]
  }

  /** One layer's sizes behind those of the layers below it. */
  lemma NextLayer(taken: seq<int>, last: seq<int>, vocabSize: int, layer: nat)
    requires Greedy(taken, vocabSize, {}) && Greedy(last, vocabSize, SetOf(taken)) && |taken| == Taken(layer, |last|)
    ensures Greedy(taken + last, vocabSize, {}) && |taken + last| == Taken(layer + 1, |last|)
    ensures SetOf(taken + last) == SetOf(taken) + SetOf(last)
    ensures IsLayer(last, vocabSize, layer)
  {
    assert {} + SetOf(taken) == SetOf(taken);
    JoinGreedy(taken, last, vocabSize, {});
    forall run: seq<int> | Greedy(run, vocabSize, {}) && |run| == |taken + last| ensures last == run[|taken|..] {
      GreedyUnique(run, taken + last, vocabSize, {});
    }
  }

  /** layer_head_sizes_from_config: the last of layer + 1 searches that share one seen set. In the
      greedy run over the accepted numbers from vocab_size on, which no size occurs in twice,
      they are the stretch that follows those of the layers before. */
  method LayerHeadSizes(vocabSize: int, heads: nat, maxNgram: int, layer: nat) returns (last: seq<int>)
    ensures |last| == HeadCount(heads, maxNgram) && IsLayer(last, vocabSize, layer)
  {
    var seen: set<int> := {};
    ghost var taken: seq<int> := [];
    last := [];
    for i := 0 to layer + 1
      invariant Greedy(taken, vocabSize, {}) && seen == SetOf(taken) && |taken| == Taken(i, HeadCount(heads, maxNgram))
      invariant i > 0 ==> |last| == HeadCount(heads, maxNgram) && IsLayer(last, vocabSize, i - 1)
    {
      last, seen := HeadSizes(vocabSize, heads, maxNgram, seen);
      NextLayer(taken, last, vocabSize, i);
      taken := taken + last;
    }
  }
}
