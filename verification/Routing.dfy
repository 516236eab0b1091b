/** Routed-expert bookkeeping (overlay/exl3.py): routes, their local experts, the histogram,
    and the expert-sorted buffer that every tier of the fused MoE reads. */
module Routing {
  import opened Wrappers

  /** One term of the layer's output: weight * expert(x[token]) is added to row `token`. */
  datatype Add = Add(token: nat, expert: nat, weight: real)

  /** One slot of the sorted buffers token_sorted and weight_sorted. */
  datatype Row = Row(token: nat, weight: real)

  // ---------------------------------------------------------------------------
  // Local experts.

  /** map_topk_to_local for one id: the local expert, or n for the sentinel bucket. */
  function MapToLocal(id: int, n: nat, emap: Option<seq<int>>): (e: nat)
    ensures e <= n
  {
    match emap
    case None => if id < 0 || id >= n then n else id
    case Some(m) =>
      if id < 0 || id >= |m| then n
      else if m[id] < 0 || m[id] >= n then n
      else m[id]
  }

  /** An id goes to local expert e exactly when it is e's own number, or the map has e for it. */
  lemma MapToLocalIff(id: int, n: nat, emap: Option<seq<int>>, e: nat)
    requires e < n
    ensures MapToLocal(id, n, emap) == e <==>
            if emap.Some? then 0 <= id < |emap.value| && emap.value[id] == e else id == e
  {
  }

  /** The expert apply_exl3_python_loop runs for an id, if any. */
  function LoopLocal(id: int, n: nat, emap: Option<seq<int>>): Option<nat> {
    if id < 0 then None
    else
      var e := if emap.Some? && |emap.value| > id then emap.value[id] else id;
      if e < 0 || e >= n then None else Some(e)
  }

  /** The same with the sentinel for none. */
  function LoopExpert(id: int, n: nat, emap: Option<seq<int>>): (e: nat)
    ensures e <= n
  {
    match LoopLocal(id, n, emap)
    case Some(e) => e
    case None => n
  }

  /** The id is a local expert's number that lies past the end of the expert map. */
  predicate PastMap(id: int, n: nat, emap: Option<seq<int>>) {
    emap.Some? && |emap.value| <= id < n
  }

  /** The loop and map_topk_to_local agree on an id exactly when it is not past the map. */
  lemma LoopAgreesIff(id: int, n: nat, emap: Option<seq<int>>)
    ensures MapToLocal(id, n, emap) == LoopExpert(id, n, emap) <==> !PastMap(id, n, emap)
  {
  }

  // ---------------------------------------------------------------------------
  // Routes.

  /** One entry of the flattened top-k: flat_token, the id and flat_weight at one position. */
  datatype Route = Route(token: nat, id: int, weight: real)

  ghost predicate Rectangular(ids: seq<seq<int>>, weights: seq<seq<real>>) {
    |ids| == |weights| && forall t :: 0 <= t < |ids| ==> |ids[t]| == |weights[t]|
  }

  function TokenRoutes(token: nat, ids: seq<int>, weights: seq<real>): (r: seq<Route>)
    requires |ids| == |weights|
    ensures |r| == |ids|
    ensures forall k :: 0 <= k < |ids| ==> r[k] == Route(token, ids[k], weights[k])
  {
    seq(|ids|, k requires 0 <= k < |ids| => Route(token, ids[k], weights[k]))
  }

  /** The row-major flattening of ids and weights. */
  function Flatten(ids: seq<seq<int>>, weights: seq<seq<real>>): (r: seq<Route>)
    requires Rectangular(ids, weights)
    ensures forall i :: 0 <= i < |r| ==> r[i].token < |ids|
  {
    if ids == [] then [] else
      var t := |ids| - 1;
      Flatten(ids[..t], weights[..t]) + TokenRoutes(t, ids[t], weights[t])
  }

  /** The routes with their local experts; n is the sentinel. */
  function Adds(routes: seq<Route>, n: nat, emap: Option<seq<int>>): (a: seq<Add>)
    ensures |a| == |routes|
    ensures forall i :: 0 <= i < |a| ==>
              a[i] == Add(routes[i].token, MapToLocal(routes[i].id, n, emap), routes[i].weight)
  {
    seq(|routes|, i requires 0 <= i < |routes| =>
      Add(routes[i].token, MapToLocal(routes[i].id, n, emap), routes[i].weight))
  }

  /** The adds as the loop understands the ids. */
  function LoopAdds(routes: seq<Route>, n: nat, emap: Option<seq<int>>): (a: seq<Add>)
    ensures |a| == |routes|
    ensures forall i :: 0 <= i < |a| ==>
              a[i] == Add(routes[i].token, LoopExpert(routes[i].id, n, emap), routes[i].weight)
  {
    seq(|routes|, i requires 0 <= i < |routes| =>
      Add(routes[i].token, LoopExpert(routes[i].id, n, emap), routes[i].weight))
  }

  /** How many routes with an id past the map the loop takes for the add x. */
  function Extra(routes: seq<Route>, n: nat, emap: Option<seq<int>>, x: Add): nat {
    if routes == [] then 0 else
      var r := routes[|routes| - 1];
      Extra(routes[..|routes| - 1], n, emap, x)
      + if PastMap(r.id, n, emap) && Add(r.token, r.id, r.weight) == x then 1 else 0
  }

  lemma OneMoreAdd(a: seq<Add>, last: Add, x: Add)
    ensures multiset(a + [last])[x] == multiset(a)[x] + if last == x then 1 else 0
  {
  }

  /** One route's add as the loop makes it, as the map makes it, and the extra one. */
  lemma OneRoute(r: Route, n: nat, emap: Option<seq<int>>, x: Add)
    requires x.expert < n
    ensures (Add(r.token, LoopExpert(r.id, n, emap), r.weight) == x)
            <==> (Add(r.token, MapToLocal(r.id, n, emap), r.weight) == x
                  || (PastMap(r.id, n, emap) && Add(r.token, r.id, r.weight) == x))
    ensures PastMap(r.id, n, emap) ==> Add(r.token, MapToLocal(r.id, n, emap), r.weight) != x
  {
  }

  lemma LastAdds(routes: seq<Route>, n: nat, emap: Option<seq<int>>)
    requires routes != []
    ensures var init, r := routes[..|routes| - 1], routes[|routes| - 1];
            && LoopAdds(routes, n, emap)
                 == LoopAdds(init, n, emap) + [Add(r.token, LoopExpert(r.id, n, emap), r.weight)]
            && Adds(routes, n, emap) == Adds(init, n, emap) + [Add(r.token, MapToLocal(r.id, n, emap), r.weight)]
  {
  }

  lemma {:induction false} LoopAddsAre(routes: seq<Route>, n: nat, emap: Option<seq<int>>, x: Add)
    requires x.expert < n
    ensures multiset(LoopAdds(routes, n, emap))[x] == multiset(Adds(routes, n, emap))[x] + Extra(routes, n, emap, x)
  {
    if routes != [] {
      var init, r := routes[..|routes| - 1], routes[|routes| - 1];
      LoopAddsAre(init, n, emap, x);
      OneRoute(r, n, emap, x);
      LastAdds(routes, n, emap);
      OneMoreAdd(LoopAdds(init, n, emap), Add(r.token, LoopExpert(r.id, n, emap), r.weight), x);
      OneMoreAdd(Adds(init, n, emap), Add(r.token, MapToLocal(r.id, n, emap), r.weight), x);
    }
  }

  /** There are extra adds exactly for the routes past the map. */
  lemma {:induction false} ExtraIff(routes: seq<Route>, n: nat, emap: Option<seq<int>>, x: Add)
    ensures Extra(routes, n, emap, x) > 0 <==>
            exists i :: 0 <= i < |routes| && PastMap(routes[i].id, n, emap)
                        && Add(routes[i].token, routes[i].id, routes[i].weight) == x
  {
    if routes != [] {
      var init := routes[..|routes| - 1];
      ExtraIff(init, n, emap, x);
      forall i | 0 <= i < |routes| && PastMap(routes[i].id, n, emap)
                 && Add(routes[i].token, routes[i].id, routes[i].weight) == x
        ensures Extra(routes, n, emap, x) > 0
      {
        if i < |init| {
          assert init[i] == routes[i];
        }
      }
    }
  }

  lemma AddsConcat(a: seq<Route>, b: seq<Route>, n: nat, emap: Option<seq<int>>)
    ensures Adds(a + b, n, emap) == Adds(a, n, emap) + Adds(b, n, emap)
  {
  }

  // ---------------------------------------------------------------------------
  // Counting.

  /** expert_count[e]: how many routes go to e. */
  function Count(a: seq<Add>, e: nat): nat {
    if a == [] then 0 else Count(a[..|a| - 1], e) + if a[|a| - 1].expert == e then 1 else 0
  }

  function Counts(a: seq<Add>, n: nat): (c: seq<nat>)
    ensures |c| == n && forall e :: 0 <= e < n ==> c[e] == Count(a, e)
  {
    seq(n, e requires 0 <= e < n => Count(a, e))
  }

  lemma {:induction false} CountConcat(a: seq<Add>, b: seq<Add>, e: nat)
    ensures Count(a + b, e) == Count(a, e) + Count(b, e)
  {
    if b == [] {
      assert a + b == a;
    } else {
      assert (a + b)[..|a + b| - 1] == a + b[..|b| - 1];
      CountConcat(a, b[..|b| - 1], e);
    }
  }

  /** Permuted sequences stay so when the last element of one is taken out of both. */
  lemma TakeOut(a: seq<Add>, b: seq<Add>) returns (k: nat)
    requires a != [] && multiset(a) == multiset(b)
    ensures k < |b| && b[k] == a[|a| - 1]
    ensures b == b[..k] + [b[k]] + b[k + 1..]
    ensures multiset(a[..|a| - 1]) == multiset(b[..k] + b[k + 1..])
  {
    var n := |a| - 1;
    var x := a[n];
    assert a == a[..n] + [x];
    assert x in multiset(b);
    k :| 0 <= k < |b| && b[k] == x;
    assert b == b[..k] + [x] + b[k + 1..];
    var u, v, w := multiset(a[..n]), multiset(b[..k]), multiset(b[k + 1..]);
    assert multiset(a) == u + multiset{x};
    assert multiset(b) == v + multiset{x} + w by {
      assert multiset(b[..k] + [x] + b[k + 1..]) == multiset(b[..k] + [x]) + w;
    }
    assert u == multiset(a) - multiset{x} && v + w == multiset(b) - multiset{x};
    assert multiset(b[..k] + b[k + 1..]) == v + w;
  }

  lemma EmptyPermutation(b: seq<Add>)
    requires multiset(b) == multiset{}
    ensures b == []
  {
    assert |multiset(b)| == |b|;
  }

  lemma {:induction false} CountOfPermutation(a: seq<Add>, b: seq<Add>, e: nat)
    requires multiset(a) == multiset(b)
    ensures Count(a, e) == Count(b, e)
  {
    if a == [] {
      EmptyPermutation(b);
    } else {
      var k := TakeOut(a, b);
      CountOfPermutation(a[..|a| - 1], b[..k] + b[k + 1..], e);
      CountConcat(b[..k], b[k + 1..], e);
      CountConcat(b[..k] + [b[k]], b[k + 1..], e);
      assert (b[..k] + [b[k]])[..k] == b[..k];
    }
  }

  /** Sum of the first e counts: the start of bucket e in the sorted buffer. */
  function Prefix(c: seq<nat>, e: nat): nat
    requires e <= |c|
  {
    if e == 0 then 0 else Prefix(c, e - 1) + c[e - 1]
  }

  lemma {:induction false} PrefixMonotone(c: seq<nat>, d: nat, e: nat)
    requires d <= e <= |c|
    ensures Prefix(c, d) <= Prefix(c, e)
  {
    if d < e {
      PrefixMonotone(c, d, e - 1);
    }
  }

  lemma {:induction false} PrefixAgree(c: seq<nat>, d: seq<nat>, e: nat)
    requires e <= |c| && e <= |d| && forall i :: 0 <= i < e ==> c[i] == d[i]
    ensures Prefix(c, e) == Prefix(d, e)
  {
    if e > 0 {
      PrefixAgree(c, d, e - 1);
    }
  }

  /** torch.searchsorted(cumsum(c), v, right=True): the first bucket that ends after v. */
  function Bucket(c: seq<nat>, v: nat, from: nat): (b: nat)
    requires from <= |c|
    ensures from <= b <= |c|
    ensures Prefix(c, from) <= v ==> Prefix(c, b) <= v
    ensures b < |c| ==> v < Prefix(c, b + 1)
    decreases |c| - from
  {
    if from == |c| || Prefix(c, from + 1) > v then from else Bucket(c, v, from + 1)
  }

  lemma {:induction false} BucketIs(c: seq<nat>, v: nat, from: nat, e: nat)
    requires from <= e < |c| && Prefix(c, e) <= v < Prefix(c, e + 1)
    ensures Bucket(c, v, from) == e
    decreases e - from
  {
    if from < e {
      PrefixMonotone(c, from + 1, e);
      BucketIs(c, v, from + 1, e);
    }
  }

  /** The k-th slot of bucket e is found in bucket e. */
  lemma BucketAt(c: seq<nat>, e: nat, k: nat)
    requires e < |c| && k < c[e]
    ensures Prefix(c, e) + k < Prefix(c, |c|)
    ensures Bucket(c, Prefix(c, e) + k, 0) == e
  {
    var next := Prefix(c, e + 1);
    assert next == Prefix(c, e) + c[e];
    PrefixMonotone(c, e + 1, |c|);
    BucketIs(c, Prefix(c, e) + k, 0, e);
  }

  lemma {:induction false} BucketPastEnd(c: seq<nat>, v: nat, from: nat)
    requires from <= |c| && Prefix(c, |c|) <= v
    ensures Bucket(c, v, from) == |c|
    decreases |c| - from
  {
    if from < |c| {
      PrefixMonotone(c, from + 1, |c|);
      BucketPastEnd(c, v, from + 1);
    }
  }

  // ---------------------------------------------------------------------------
  // The sorted buffer.

  ghost predicate ByExpert(a: seq<Add>) {
    forall i, j :: 0 <= i < j < |a| ==> a[i].expert <= a[j].expert
  }

  /** `sorted` is the routes in any order argsort may give: it need not be stable. */
  ghost predicate SortOf(sorted: seq<Add>, adds: seq<Add>) {
    ByExpert(sorted) && multiset(sorted) == multiset(adds)
  }

  function Rows(a: seq<Add>): (r: seq<Row>)
    ensures |r| == |a|
    ensures forall i :: 0 <= i < |a| ==> r[i] == Row(a[i].token, a[i].weight)
  {
    seq(|a|, i requires 0 <= i < |a| => Row(a[i].token, a[i].weight))
  }

  /** How often each add is made. */
  type Tally = Add -> nat

  /** How often running x's expert over rows lo..hi makes the add x. */
  function Times(rows: seq<Row>, lo: nat, hi: nat, x: Add): nat
    requires lo <= hi <= |rows|
    decreases hi
  {
    if lo == hi then 0 else
      Times(rows, lo, hi - 1, x) + if rows[hi - 1] == Row(x.token, x.weight) then 1 else 0
  }

  lemma {:induction false} TimesSplit(rows: seq<Row>, lo: nat, mid: nat, hi: nat, x: Add)
    requires lo <= mid <= hi <= |rows|
    ensures Times(rows, lo, hi, x) == Times(rows, lo, mid, x) + Times(rows, mid, hi, x)
    decreases hi
  {
    if mid < hi {
      TimesSplit(rows, lo, mid, hi - 1, x);
    }
  }

  /** Two buffers agree at a pair of positions. */
  ghost predicate SameAt(a: seq<Row>, p: nat, b: seq<Row>, q: nat, i: nat)
    requires p + i < |a| && q + i < |b|
  {
    a[p + i] == b[q + i]
  }

  lemma {:induction false} SameTimes(a: seq<Row>, p: nat, b: seq<Row>, q: nat, k: nat, x: Add)
    requires p + k <= |a| && q + k <= |b| && forall i :: 0 <= i < k ==> SameAt(a, p, b, q, i)
    ensures Times(a, p, p + k, x) == Times(b, q, q + k, x)
  {
    if k > 0 {
      SameTimes(a, p, b, q, k - 1, x);
      assert SameAt(a, p, b, q, k - 1);
    }
  }

  /** Where an expert's rows lie: the sum of the counts below it cuts the sorted buffer. */
  lemma {:induction false} SortedCut(a: seq<Add>, n: nat, e: nat)
    requires ByExpert(a) && e <= n
    ensures Prefix(Counts(a, n), e) <= |a|
    ensures forall i :: 0 <= i < |a| ==> (a[i].expert < e <==> i < Prefix(Counts(a, n), e))
  {
    if a == [] {
      EmptyPrefix(n, e);
    } else {
      var init, x := a[..|a| - 1], a[|a| - 1];
      SortedCut(init, n, e);
      AppendPrefix(init, x, n, e);
      assert a == init + [x];
      assert forall i :: 0 <= i < |init| ==> a[i] == init[i];
    }
  }

  lemma {:induction false} EmptyPrefix(n: nat, e: nat)
    requires e <= n
    ensures Prefix(Counts([], n), e) == 0
  {
    if e > 0 {
      EmptyPrefix(n, e - 1);
    }
  }

  lemma {:induction false} AppendPrefix(a: seq<Add>, x: Add, n: nat, e: nat)
    requires e <= n
    ensures Prefix(Counts(a + [x], n), e) == Prefix(Counts(a, n), e) + if x.expert < e then 1 else 0
  {
    if e > 0 {
      AppendPrefix(a, x, n, e - 1);
      assert (a + [x])[..|a|] == a;
    }
  }

  /** `out` makes each route of the given experts exactly as often as `adds` has it, and no
      other add. */
  ghost predicate Exactly(out: Tally, adds: seq<Add>, experts: set<nat>) {
    forall x: Add :: out(x) == if x.expert in experts then multiset(adds)[x] else 0
  }

  /** Going from `before` to `after` makes each route of the given experts exactly as often as
      `adds` has it, and no other add. */
  ghost predicate Added(before: Tally, after: Tally, adds: seq<Add>, experts: set<nat>) {
    forall x: Add :: after(x) == before(x) + if x.expert in experts then multiset(adds)[x] else 0
  }

  lemma CutInThree(a: seq<Add>, lo: nat, hi: nat)
    requires lo <= hi <= |a|
    ensures multiset(a) == multiset(a[..lo]) + multiset(a[lo..hi]) + multiset(a[hi..])
  {
    assert a == a[..lo] + a[lo..hi] + a[hi..];
  }

  lemma CountsOfSorted(sorted: seq<Add>, adds: seq<Add>, n: nat)
    requires multiset(sorted) == multiset(adds)
    ensures Counts(sorted, n) == Counts(adds, n)
  {
    forall d | 0 <= d < n ensures Count(sorted, d) == Count(adds, d) {
      CountOfPermutation(sorted, adds, d);
    }
  }

  /** Rows lo..hi of the buffer are those of expert e. */
  ghost predicate Holds(a: seq<Add>, lo: nat, hi: nat, e: nat) {
    lo <= hi <= |a| && forall i :: 0 <= i < |a| ==> (a[i].expert == e <==> lo <= i < hi)
  }

  lemma CutExact(a: seq<Add>, lo: nat, hi: nat, e: nat, x: Add)
    requires Holds(a, lo, hi, e) && x.expert == e
    ensures multiset(a[lo..hi])[x] == multiset(a)[x]
  {
    CutInThree(a, lo, hi);
    assert x !in a[..lo] && x !in a[hi..];
  }

  /** Between its two cuts the sorted buffer holds an expert's routes and no others. */
  lemma BetweenCuts(a: seq<Add>, n: nat, e: nat)
    requires ByExpert(a) && e < n
    ensures var c := Counts(a, n); Holds(a, Prefix(c, e), Prefix(c, e) + c[e], e)
  {
    SortedCut(a, n, e);
    SortedCut(a, n, e + 1);
    var c := Counts(a, n);
    assert Prefix(c, e + 1) == Prefix(c, e) + c[e];
  }

  /** Running e over rows that are all e's makes those routes' adds. */
  lemma {:induction false} TimesOfCut(a: seq<Add>, lo: nat, hi: nat, x: Add)
    requires lo <= hi <= |a|
    requires forall i :: lo <= i < hi ==> a[i].expert == x.expert
    ensures Times(Rows(a), lo, hi, x) == multiset(a[lo..hi])[x]
    decreases hi
  {
    if lo < hi {
      TimesOfCut(a, lo, hi - 1, x);
      assert a[lo..hi] == a[lo..hi - 1] + [a[hi - 1]];
    }
  }

  /** c's e-th slice of the buffer, run by expert e, makes e's routes exactly. */
  ghost predicate SliceIs(rows: seq<Row>, c: seq<nat>, adds: seq<Add>, e: nat) {
    && e < |c| && Prefix(c, e) + c[e] <= |rows|
    && forall x: Add :: x.expert == e ==> Times(rows, Prefix(c, e), Prefix(c, e) + c[e], x) == multiset(adds)[x]
  }

  lemma SliceOfCut(sorted: seq<Add>, adds: seq<Add>, c: seq<nat>, e: nat)
    requires multiset(sorted) == multiset(adds) && e < |c|
    requires Holds(sorted, Prefix(c, e), Prefix(c, e) + c[e], e)
    ensures SliceIs(Rows(sorted), c, adds, e)
  {
    var lo, hi := Prefix(c, e), Prefix(c, e) + c[e];
    forall x: Add | x.expert == e ensures Times(Rows(sorted), lo, hi, x) == multiset(adds)[x] {
      CutExact(sorted, lo, hi, e, x);
      TimesOfCut(sorted, lo, hi, x);
    }
  }

  /** c cuts the buffer into the experts' routes; what lies behind the last cut is sentinel. */
  ghost predicate Cuts(rows: seq<Row>, c: seq<nat>, adds: seq<Add>) {
    Prefix(c, |c|) <= |rows| && forall e :: 0 <= e < |c| ==> SliceIs(rows, c, adds, e)
  }

  /** The histogram cuts the sorted buffer, with the sentinel bucket or without. */
  lemma CountsCut(sorted: seq<Add>, adds: seq<Add>, n: nat)
    requires SortOf(sorted, adds)
    ensures Cuts(Rows(sorted), Counts(adds, n), adds)
  {
    CountsOfSorted(sorted, adds, n);
    SortedCut(sorted, n, n);
    var c := Counts(sorted, n);
    forall e | 0 <= e < n ensures SliceIs(Rows(sorted), c, adds, e) {
      BetweenCuts(sorted, n, e);
      SliceOfCut(sorted, adds, c, e);
    }
  }

  // ---------------------------------------------------------------------------
  // Top-k without repetition bounds an expert's count by the number of tokens.

  ghost predicate DistinctExperts(token: seq<int>, n: nat, emap: Option<seq<int>>) {
    forall j, k :: 0 <= j < k < |token| && MapToLocal(token[j], n, emap) < n ==>
      MapToLocal(token[j], n, emap) != MapToLocal(token[k], n, emap)
  }

  lemma {:induction false} AtMostOnePerToken(a: seq<Add>, e: nat)
    requires forall j, k :: 0 <= j < k < |a| && a[j].expert == e ==> a[k].expert != e
    ensures Count(a, e) <= 1
    ensures (forall j :: 0 <= j < |a| ==> a[j].expert != e) ==> Count(a, e) == 0
  {
    if a != [] {
      AtMostOnePerToken(a[..|a| - 1], e);
    }
  }

  lemma {:induction false} CountAtMostTokens(ids: seq<seq<int>>, weights: seq<seq<real>>, n: nat,
                                             emap: Option<seq<int>>, e: nat)
    requires Rectangular(ids, weights) && e < n
    requires forall t :: 0 <= t < |ids| ==> DistinctExperts(ids[t], n, emap)
    ensures Count(Adds(Flatten(ids, weights), n, emap), e) <= |ids|
  {
    if ids != [] {
      var t := |ids| - 1;
      var before, last := Flatten(ids[..t], weights[..t]), TokenRoutes(t, ids[t], weights[t]);
      CountAtMostTokens(ids[..t], weights[..t], n, emap, e);
      AddsConcat(before, last, n, emap);
      CountConcat(Adds(before, n, emap), Adds(last, n, emap), e);
      AtMostOnePerToken(Adds(last, n, emap), e);
    }
  }

  // ---------------------------------------------------------------------------
  // What the adds amount to.

  /** Row `token` of the output after the adds, in the order they are made; `value` is what
      one add contributes: weight * expert(hidden state of the token), one coordinate of it. */
  function Output(adds: seq<Add>, token: nat, value: Add -> real): real {
    if adds == [] then 0.0
    else
      var x := adds[|adds| - 1];
      Output(adds[..|adds| - 1], token, value) + if x.token == token then value(x) else 0.0
  }

  lemma {:induction false} OutputConcat(a: seq<Add>, b: seq<Add>, token: nat, value: Add -> real)
    ensures Output(a + b, token, value) == Output(a, token, value) + Output(b, token, value)
  {
    if b == [] {
      assert a + b == a;
    } else {
      assert (a + b)[..|a + b| - 1] == a + b[..|b| - 1];
      OutputConcat(a, b[..|b| - 1], token, value);
    }
  }

  /** The order of the adds does not matter (exact sums; rounding is not modelled). */
  lemma {:induction false} OutputOfPermutation(a: seq<Add>, b: seq<Add>, token: nat, value: Add -> real)
    requires multiset(a) == multiset(b)
    ensures Output(a, token, value) == Output(b, token, value)
  {
    if a == [] {
      EmptyPermutation(b);
    } else {
      var k := TakeOut(a, b);
      OutputOfPermutation(a[..|a| - 1], b[..k] + b[k + 1..], token, value);
      OutputConcat(b[..k], b[k + 1..], token, value);
      OutputConcat(b[..k] + [b[k]], b[k + 1..], token, value);
      assert (b[..k] + [b[k]])[..k] == b[..k];
    }
  }
}
