/** The set-associative row cache (the cache part of fetch_row, and its sizing in
    row_store_open, in overlay/row_store.cpp) and its behaviour under concurrent lookups.

    The cache's own operations are the two locked sections of fetch_row: Probe and Insert.
    A lookup that misses reads its row between them, without the lock, so any number of
    other lookups may fill the same set meanwhile. */
module RowCache {
  import opened Wrappers
  import opened Arithmetic
  import opened Bytes

  const KEY_BYTES: nat := 8

  /** The cache's contents: `ways` slots for each set, one replacement cursor for each set.
      Key 0 marks an empty slot, key id + 1 a slot that holds row id. */
  datatype Contents<Row> = Contents(sets: nat, ways: nat, keys: seq<nat>, rows: seq<Row>, victim: seq<nat>)

  predicate Shaped<Row>(c: Contents<Row>) {
    && c.sets > 0 && c.ways > 0
    && |c.keys| == |c.rows| == c.sets * c.ways
    && |c.victim| == c.sets
  }

  lemma SlotInRange(sets: nat, ways: nat, s: nat, w: nat)
    requires s < sets && w < ways
    ensures s * ways + w < sets * ways
  {
    MulMonotone(s + 1, sets, ways);
  }

  lemma SlotOfSet(ways: nat, s: nat, w: nat)
    requires w < ways
    ensures (s * ways + w) / ways == s && (s * ways + w) % ways == w
  {
    DivModUnique(s * ways + w, ways, s, w);
  }

  function Slot<Row>(c: Contents<Row>, s: nat, w: nat): (k: nat)
    requires Shaped(c) && s < c.sets && w < c.ways
    ensures k < |c.keys|
  {
    SlotInRange(c.sets, c.ways, s, w);
    s * c.ways + w
  }

  /** The first way of id's set, from w on, that is labelled with id. */
  function FindFrom<Row>(c: Contents<Row>, id: nat, w: nat): Option<Row>
    requires Shaped(c) && w <= c.ways
    decreases c.ways - w
  {
    if w == c.ways then None
    else if c.keys[Slot(c, id % c.sets, w)] == id + 1 then Some(c.rows[Slot(c, id % c.sets, w)])
    else FindFrom(c, id, w + 1)
  }

  function Find<Row>(c: Contents<Row>, id: nat): Option<Row>
    requires Shaped(c)
  {
    FindFrom(c, id, 0)
  }

  function VictimWay<Row>(c: Contents<Row>, id: nat): (w: nat)
    requires Shaped(c)
    ensures w < c.ways
  {
    c.victim[id % c.sets] % c.ways
  }

  function Insert<Row>(c: Contents<Row>, id: nat, row: Row): (d: Contents<Row>)
    requires Shaped(c)
    ensures Shaped(d) && d.sets == c.sets && d.ways == c.ways
  {
    var s := id % c.sets;
    var k := Slot(c, s, VictimWay(c, id));
    c.(keys := c.keys[k := id + 1], rows := c.rows[k := row], victim := c.victim[s := (c.victim[s] + 1) % c.ways])
  }

  /** The cache after one undisturbed lookup of id, whose row is `row`. */
  function AfterLookup<Row>(c: Contents<Row>, id: nat, row: Row): (d: Contents<Row>)
    requires Shaped(c)
  {
    if Find(c, id).Some? then c else Insert(c, id, row)
  }

  /** A nonzero key labels a slot of its own set that holds exactly that row. */
  ghost predicate Labelled<Row>(c: Contents<Row>, table: nat -> Row) {
    && Shaped(c)
    && forall k :: 0 <= k < |c.keys| && c.keys[k] != 0 ==>
         (c.keys[k] - 1) % c.sets == k / c.ways && c.rows[k] == table(c.keys[k] - 1)
  }

  lemma {:induction false} FoundIsTrue<Row>(c: Contents<Row>, table: nat -> Row, id: nat, w: nat)
    requires Labelled(c, table) && w <= c.ways
    ensures FindFrom(c, id, w).Some? ==> FindFrom(c, id, w).value == table(id)
    decreases c.ways - w
  {
    if w < c.ways {
      FoundIsTrue(c, table, id, w + 1);
    }
  }

  /** A row found is in a slot labelled with the id. */
  lemma {:induction false} FoundInSlot<Row>(c: Contents<Row>, id: nat, w: nat)
    requires Shaped(c) && w <= c.ways
    ensures FindFrom(c, id, w).Some? ==>
              exists k :: 0 <= k < |c.keys| && c.keys[k] == id + 1 && c.rows[k] == FindFrom(c, id, w).value
    decreases c.ways - w
  {
    if w < c.ways {
      FoundInSlot(c, id, w + 1);
    }
  }

  lemma InsertKeepsLabels<Row>(c: Contents<Row>, table: nat -> Row, id: nat)
    requires Labelled(c, table)
    ensures Labelled(Insert(c, id, table(id)), table)
  {
    SlotOfSet(c.ways, id % c.sets, VictimWay(c, id));
  }

  // ---------------------------------------------------------------------------
  // Replacement.

  function InsertAll<Row>(c: Contents<Row>, ops: seq<(nat, Row)>): (d: Contents<Row>)
    requires Shaped(c)
    ensures Shaped(d) && d.sets == c.sets && d.ways == c.ways
    decreases |ops|
  {
    if ops == [] then c else InsertAll(Insert(c, ops[0].0, ops[0].1), ops[1..])
  }

  /** How many of the insertions go to set s. */
  function IntoSet<Row>(ops: seq<(nat, Row)>, sets: nat, s: nat): nat
    requires sets > 0
  {
    if ops == [] then 0 else (if ops[0].0 % sets == s then 1 else 0) + IntoSet(ops[1..], sets, s)
  }

  /** The cursor's place after n insertions into a set, the first of them at way w. */
  function Ahead(w: nat, n: nat, ways: nat): nat
    requires w < ways && 1 <= n <= ways
  {
    if w + n < ways then w + n else w + n - ways
  }

  lemma SmallMod(v: nat, ways: nat)
    requires 0 < ways && v <= ways
    ensures v % ways == if v == ways then 0 else v
  {
  }

  /** A slot just filled outlives fewer than `ways` insertions into its set. */
  lemma {:induction false} SlotSurvives<Row>(c: Contents<Row>, s: nat, w: nat, n: nat, ops: seq<(nat, Row)>)
    requires Shaped(c) && s < c.sets && w < c.ways && 1 <= n <= c.ways
    requires c.victim[s] == Ahead(w, n, c.ways)
    requires n + IntoSet(ops, c.sets, s) <= c.ways
    ensures InsertAll(c, ops).keys[Slot(c, s, w)] == c.keys[Slot(c, s, w)]
    ensures InsertAll(c, ops).rows[Slot(c, s, w)] == c.rows[Slot(c, s, w)]
    decreases |ops|
  {
    if ops != [] {
      var id, row := ops[0].0, ops[0].1;
      var d := Insert(c, id, row);
      SlotOfSet(c.ways, s, w);
      SlotOfSet(c.ways, id % c.sets, VictimWay(c, id));
      if id % c.sets == s {
        SmallMod(c.victim[s], c.ways);
        SmallMod(c.victim[s] + 1, c.ways);
        SlotSurvives(d, s, w, n + 1, ops[1..]);
      } else {
        SlotSurvives(d, s, w, n, ops[1..]);
      }
    }
  }

  lemma {:induction false} FoundIfLabelled<Row>(c: Contents<Row>, id: nat, w: nat, at: nat)
    requires Shaped(c) && w <= at < c.ways && c.keys[Slot(c, id % c.sets, at)] == id + 1
    ensures FindFrom(c, id, w).Some?
    decreases c.ways - w
  {
    if w < at {
      FoundIfLabelled(c, id, w + 1, at);
    }
  }

  lemma CursorAdvances(v: nat, ways: nat)
    requires ways > 0
    ensures (v + 1) % ways == Ahead(v % ways, 1, ways)
  {
    var q, r := v / ways, v % ways;
    assert v == q * ways + r;
    if r + 1 < ways {
      SlotOfSet(ways, q, r + 1);
    } else {
      assert v + 1 == (q + 1) * ways + 0;
      SlotOfSet(ways, q + 1, 0);
    }
  }

  /** The cursor stands one way past the slot just filled. */
  lemma CursorAfter<Row>(c: Contents<Row>, id: nat, row: Row, s: nat, w: nat, d: Contents<Row>)
    requires Shaped(c) && s == id % c.sets && w == VictimWay(c, id) && d == Insert(c, id, row)
    ensures s < d.sets == c.sets && w < d.ways == c.ways && d.victim[s] == Ahead(w, 1, c.ways)
  {
    CursorAdvances(c.victim[s], c.ways);
  }

  /** A row inserted by one lookup is still found after any insertions that put fewer than
      `ways` rows into its set, whoever makes them and wherever the others go. */
  lemma RowSurvives<Row>(c: Contents<Row>, id: nat, row: Row, ops: seq<(nat, Row)>)
    requires Shaped(c) && IntoSet(ops, c.sets, id % c.sets) < c.ways
    ensures Find(InsertAll(Insert(c, id, row), ops), id).Some?
  {
    var d := Insert(c, id, row);
    var s, w := id % c.sets, VictimWay(c, id);
    CursorAfter(c, id, row, s, w, d);
    SlotSurvives(d, s, w, 1, ops);
    FoundIfLabelled(InsertAll(d, ops), id, 0, w);
  }

  /** ... and `ways` is exact: the last of that many insertions into the set takes its slot. */
  lemma {:induction false} SlotRetaken<Row>(c: Contents<Row>, s: nat, w: nat, n: nat, ops: seq<(nat, Row)>)
    requires Shaped(c) && s < c.sets && w < c.ways && 1 <= n <= c.ways
    requires c.victim[s] == Ahead(w, n, c.ways)
    requires ops != [] && ops[|ops| - 1].0 % c.sets == s
    requires n + IntoSet(ops, c.sets, s) == c.ways + 1
    ensures InsertAll(c, ops).keys[Slot(c, s, w)] == ops[|ops| - 1].0 + 1
    decreases |ops|
  {
    var id := ops[0].0;
    var d := Insert(c, id, ops[0].1);
    if |ops| == 1 {
      assert IntoSet(ops[1..], c.sets, s) == 0;
      SmallMod(c.victim[s], c.ways);
    } else if id % c.sets == s {
      SomeIntoSet(ops[1..], c.sets, s);
      SmallMod(c.victim[s], c.ways);
      SmallMod(c.victim[s] + 1, c.ways);
      SlotRetaken(d, s, w, n + 1, ops[1..]);
    } else {
      SlotRetaken(d, s, w, n, ops[1..]);
    }
  }

  lemma {:induction false} SomeIntoSet<Row>(ops: seq<(nat, Row)>, sets: nat, s: nat)
    requires sets > 0 && ops != [] && ops[|ops| - 1].0 % sets == s
    ensures IntoSet(ops, sets, s) > 0
  {
    if |ops| > 1 {
      SomeIntoSet(ops[1..], sets, s);
    }
  }

  lemma RowEvicted<Row>(c: Contents<Row>, id: nat, row: Row, s: nat, w: nat, ops: seq<(nat, Row)>)
    requires Shaped(c) && s == id % c.sets && w == VictimWay(c, id)
    requires ops != [] && ops[|ops| - 1].0 % c.sets == s && IntoSet(ops, c.sets, s) == c.ways
    ensures InsertAll(Insert(c, id, row), ops).keys[Slot(c, s, w)] == ops[|ops| - 1].0 + 1
  {
    var d := Insert(c, id, row);
    CursorAfter(c, id, row, s, w, d);
    assert Slot(d, s, w) == Slot(c, s, w);
    SlotRetaken(d, s, w, 1, ops);
  }

  // ---------------------------------------------------------------------------
  // Sizing.

  /** What one set costs: row and key for each way, and the cursor byte. */
  function SetBytes(ways: nat): (b: nat)
    ensures b > 0
  {
    (ROW_BYTES + KEY_BYTES) * ways + 1
  }

  function SetsFor(budget: nat, ways: nat): nat {
    budget / SetBytes(ways)
  }

  /** What row_store_stats reports. */
  function CacheBytes(sets: nat, ways: nat): nat {
    sets * ways * (ROW_BYTES + KEY_BYTES) + sets
  }

  lemma CacheBytesBySet(sets: nat, ways: nat)
    ensures CacheBytes(sets, ways) == sets * SetBytes(ways)
  {
    assert sets * ways * (ROW_BYTES + KEY_BYTES) == sets * ((ROW_BYTES + KEY_BYTES) * ways);
  }

  /** The cache never exceeds its budget, and one more set would. */
  lemma BudgetKept(budget: nat, ways: nat)
    ensures CacheBytes(SetsFor(budget, ways), ways) <= budget < CacheBytes(SetsFor(budget, ways) + 1, ways)
    ensures ROW_BYTES + KEY_BYTES == 264 + 8
  {
    var unit, q := SetBytes(ways), SetsFor(budget, ways);
    CacheBytesBySet(q, ways);
    CacheBytesBySet(q + 1, ways);
    assert budget == q * unit + budget % unit;
    assert (q + 1) * unit == q * unit + unit;
  }

  // ---------------------------------------------------------------------------
  // Concurrent lookups.

  datatype Fetch<Row> =
    | Resting                            // no lookup under way; the last one is over
    | Probing(id: nat)                   // about to lock and search the set
    | Reading(id: nat)                   // missed, reading without the lock
    | Counting(id: nat, row: Row)        // has the row, about to count the miss
    | Filling(id: nat, row: Row)         // about to lock and insert
    | Returned(id: nat, row: Row)

  datatype State<Row> = State(
    cache: Option<Contents<Row>>, threads: seq<Fetch<Row>>, started: nat, hits: nat, misses: nat)

  datatype Action = Start(i: nat, id: nat) | Step(i: nat)

  predicate Enabled<Row>(s: State<Row>, a: Action) {
    && a.i < |s.threads|
    && (s.cache.Some? ==> Shaped(s.cache.value))
    && match a
       case Start(i, _) => s.threads[i].Resting? || s.threads[i].Returned?
       case Step(i) => !s.threads[i].Resting? && !s.threads[i].Returned?
  }

  /** One step of one lookup; a store without a cache (sets = 0) skips the locked sections. */
  ghost function Apply<Row>(s: State<Row>, a: Action, table: nat -> Row): State<Row>
    requires Enabled(s, a)
  {
    match a
    case Start(i, id) => s.(threads := s.threads[i := Probing(id)], started := s.started + 1)
    case Step(i) =>
      match s.threads[i]
      case Probing(id) =>
        var found := if s.cache.Some? then Find(s.cache.value, id) else None;
        if found.Some? then s.(threads := s.threads[i := Returned(id, found.value)], hits := s.hits + 1)
        else s.(threads := s.threads[i := Reading(id)])
      case Reading(id) => s.(threads := s.threads[i := Counting(id, table(id))])
      case Counting(id, row) => s.(threads := s.threads[i := Filling(id, row)], misses := s.misses + 1)
      case Filling(id, row) =>
        s.(threads := s.threads[i := Returned(id, row)],
           cache := if s.cache.Some? then Some(Insert(s.cache.value, id, row)) else None)
      case _ => s
  }

  ghost predicate Initial<Row>(s: State<Row>) {
    && s.started == s.hits == s.misses == 0
    && (forall i :: 0 <= i < |s.threads| ==> s.threads[i].Resting?)
    && (s.cache.Some? ==>
          Shaped(s.cache.value) && forall k :: 0 <= k < |s.cache.value.keys| ==> s.cache.value.keys[k] == 0)
  }

  ghost predicate IsRun<Row>(states: seq<State<Row>>, actions: seq<Action>, table: nat -> Row) {
    && |states| == |actions| + 1
    && Initial(states[0])
    && forall i :: 0 <= i < |actions| ==>
         Enabled(states[i], actions[i]) && states[i + 1] == Apply(states[i], actions[i], table)
  }

  /** Lookups that have been started and are not yet counted as a hit or a miss. */
  function Uncounted<Row>(threads: seq<Fetch<Row>>): nat {
    if threads == [] then 0
    else (if threads[0].Probing? || threads[0].Reading? || threads[0].Counting? then 1 else 0) + Uncounted(threads[1..])
  }

  lemma {:induction false} UncountedUpdate<Row>(threads: seq<Fetch<Row>>, i: nat, f: Fetch<Row>)
    requires i < |threads|
    ensures Uncounted(threads[i := f]) == Uncounted(threads) - Uncounted([threads[i]]) + Uncounted([f])
  {
    assert forall g: Fetch<Row> :: [g][1..] == [];
    if i == 0 {
      assert threads[i := f][1..] == threads[1..];
    } else {
      assert threads[i := f][1..] == threads[1..][i - 1 := f];
      UncountedUpdate(threads[1..], i - 1, f);
    }
  }

  ghost predicate Inv<Row>(s: State<Row>, table: nat -> Row) {
    && (s.cache.Some? ==> Labelled(s.cache.value, table))
    && (forall f :: f in s.threads && (f.Counting? || f.Filling? || f.Returned?) ==> f.row == table(f.id))
    && s.hits + s.misses + Uncounted(s.threads) == s.started
  }

  lemma InvStep<Row>(s: State<Row>, a: Action, table: nat -> Row)
    requires Inv(s, table) && Enabled(s, a)
    ensures Inv(Apply(s, a, table), table)
  {
    var s' := Apply(s, a, table);
    UncountedUpdate(s.threads, a.i, s'.threads[a.i]);
    assert forall g: Fetch<Row> :: [g][1..] == [];
    if a.Step? && s.cache.Some? && s.threads[a.i].Probing? {
      FoundIsTrue(s.cache.value, table, s.threads[a.i].id, 0);
    } else if a.Step? && s.cache.Some? && s.threads[a.i].Filling? {
      assert s.threads[a.i] in s.threads;
      InsertKeepsLabels(s.cache.value, table, s.threads[a.i].id);
    }
  }

  lemma {:induction false} InvOnRun<Row>(states: seq<State<Row>>, actions: seq<Action>, table: nat -> Row, i: nat)
    requires IsRun(states, actions, table) && i < |states|
    ensures Inv(states[i], table)
  {
    if i == 0 {
      NoneUncounted(states[0].threads);
    } else {
      InvOnRun(states, actions, table, i - 1);
      InvStep(states[i - 1], actions[i - 1], table);
    }
  }

  lemma {:induction false} NoneUncounted<Row>(threads: seq<Fetch<Row>>)
    requires forall i :: 0 <= i < |threads| ==> threads[i].Resting? || threads[i].Returned?
    ensures Uncounted(threads) == 0
  {
    if threads != [] {
      NoneUncounted(threads[1..]);
    }
  }

  /** Under any interleaving of lookups, every slot is labelled truly, every lookup that has
      returned has returned the true row, and once all are over the counters add up. */
  lemma ConcurrentLookups<Row>(states: seq<State<Row>>, actions: seq<Action>, table: nat -> Row, i: nat)
    requires IsRun(states, actions, table) && i < |states|
    ensures states[i].cache.Some? ==> Labelled(states[i].cache.value, table)
    ensures forall f :: f in states[i].threads && f.Returned? ==> f.row == table(f.id)
    ensures (forall f :: f in states[i].threads ==> f.Resting? || f.Returned?)
            ==> states[i].hits + states[i].misses == states[i].started
  {
    InvOnRun(states, actions, table, i);
    if forall f :: f in states[i].threads ==> f.Resting? || f.Returned? {
      NoneUncounted(states[i].threads);
    }
  }
}
