/** A whole lookup (row_store_lookup in overlay/row_store.cpp): the thread pool serves the tickets
    of a work item while its threads, and those of any other lookup, fetch rows through the
    cache. Joins the runs of PoolProtocol and of RowCache to the specification in RowStore. */
module Lookups {
  import opened Arithmetic
  import opened Bytes
  import opened PackedShard
  import opened RowStore
  import P = PoolProtocol
  import C = RowCache

  /** The rank's table: a fetch that completes outside the cache reads the true row. */
  ghost predicate TableIs(table: nat -> seq<byte>, file: seq<byte>, t: Span, lo: nat, hi: nat)
    requires InFile(file, t) && hi <= t.rows
  {
    forall id: nat :: lo <= id < hi ==> table(id) == TableRow(file, t, id)
  }

  /** What serve writes for an id: the row that some lookup of the id has returned, if the rank owns
      it, and zeros otherwise. */
  ghost predicate ServesId(fetches: seq<C.State<seq<byte>>>, lo: nat, hi: nat, id: int, written: seq<byte>) {
    if lo <= id < hi then
      exists k, i :: 0 <= k < |fetches| && 0 <= i < |fetches[k].threads|
                     && fetches[k].threads[i] == C.Returned(id, written)
    else written == Zeros(ROW_BYTES)
  }

  /** Every step that serves a ticket of the job writes its rows so. */
  ghost predicate StepsServe(states: seq<P.State>, actions: seq<P.Action>, fetches: seq<C.State<seq<byte>>>,
                             job: nat, ids: seq<int>, chunk: nat, lo: nat, hi: nat, value: (nat, nat) -> seq<byte>)
    requires P.IsRun(states, actions)
  {
    forall i, row | 0 <= i < |actions| && 0 <= row < |ids|
                    && P.WritesAt(states, actions, i, job, |ids|, chunk, row) ::
      ServesId(fetches, lo, hi, ids[row], value(i, row))
  }

  lemma ServedIsAnswer(fetches: seq<C.State<seq<byte>>>, steps: seq<C.Action>, table: nat -> seq<byte>,
                       file: seq<byte>, t: Span, lo: nat, hi: nat, id: int, written: seq<byte>)
    requires InFile(file, t) && hi <= t.rows && TableIs(table, file, t, lo, hi)
    requires C.IsRun(fetches, steps, table) && ServesId(fetches, lo, hi, id, written)
    ensures written == Answer(file, t, lo, hi, id)
  {
    if lo <= id < hi {
      var k, i :| 0 <= k < |fetches| && 0 <= i < |fetches[k].threads|
                  && fetches[k].threads[i] == C.Returned(id, written);
      C.ConcurrentLookups(fetches, steps, table, k);
      assert fetches[k].threads[i] in fetches[k].threads;
    }
  }

  /** Whatever the interleaving of the pool's threads and of the fetches in the cache: when run()
      has returned, each output row of the job was written exactly once, with its id's answer. */
  lemma EveryRowAnswered(states: seq<P.State>, actions: seq<P.Action>, k: nat, job: nat,
                         fetches: seq<C.State<seq<byte>>>, steps: seq<C.Action>, table: nat -> seq<byte>,
                         file: seq<byte>, t: Span, lo: nat, hi: nat, ids: seq<int>, chunk: nat, row: nat,
                         value: (nat, nat) -> seq<byte>)
    requires P.IsRun(states, actions) && k <= |actions| && states[k].caller.Outside?
    requires chunk > 0 && job < |states[k].sizes| && states[k].sizes[job] == CeilDiv(|ids|, chunk) && row < |ids|
    requires InFile(file, t) && hi <= t.rows && TableIs(table, file, t, lo, hi)
    requires C.IsRun(fetches, steps, table)
    requires StepsServe(states, actions, fetches, job, ids, chunk, lo, hi, value)
    ensures P.Writes(states, actions, k, job, |ids|, chunk, row, i => value(i, row))
              == [Answer(file, t, lo, hi, ids[row])]
  {
    var i := P.RowsWrittenOnce(states, actions, k, job, |ids|, chunk, row, i => value(i, row));
    ServedIsAnswer(fetches, steps, table, file, t, lo, hi, ids[row], value(i, row));
  }
}
