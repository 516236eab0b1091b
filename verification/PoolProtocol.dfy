/** The ticket protocol of the row-fetch thread pool (Pool::run, drain and loop in
    overlay/row_store.cpp), as a state machine whose steps are the code's atomic
    operations and locked sections.

    One caller at a time runs a job (run() holds caller_ throughout), together with any
    number of workers. Jobs are numbered in the order run() starts them, so a thread that
    still holds an old job_ reference can be told from one that holds the current job. The
    caller's test of its wait predicate is split into its two loads, because remaining_ is
    changed outside mutex_; every other locked section is one step. */
module PoolProtocol {
  import opened Wrappers
  import opened Arithmetic

  /** Where a thread is inside drain(). */
  datatype Drain =
    | Take                     // about to fetch_add next_
    | Check(ticket: nat)       // holds a ticket, about to compare it with chunks_
    | Serve(ticket: nat)       // about to serve the ticket's rows
    | Finish                   // about to fetch_sub remaining_
    | Notify                   // saw the last chunk finish, about to lock and notify

  datatype WorkerPc =
    | Awake                    // about to lock mutex_ and test ready_'s predicate
    | Asleep                   // blocked on ready_
    | Draining(job: nat, at: Drain)
    | Leaving(job: nat)        // out of drain(), about to lock and give up its place

  datatype Worker = Worker(pc: WorkerPc, seen: nat)

  datatype CallerPc =
    | Outside                  // not in run()
    | Announce                 // job published, about to notify_all on ready_
    | Working(at: Drain)
    | Waiting                  // about to lock mutex_ and test done_'s predicate
    | TestRemaining            // holds mutex_, about to load remaining_
    | TestActive               // holds mutex_, remaining_ was 0, about to load active_
    | FallAsleep               // holds mutex_, predicate was false, about to block
    | CallerAsleep             // blocked on done_

  datatype State = State(
    caller: CallerPc,
    workers: seq<Worker>,
    job: Option<nat>,          // job_
    next: nat,
    remaining: int,
    active: int,
    chunks: nat,
    generation: nat,
    sizes: seq<nat>,                   // history: chunks of every job started
    served: multiset<(nat, nat)>)      // history: (job, ticket) pairs served

  datatype Action =
    | Begin(chunks: nat)
    | NotifyAll
    | CallerDrain
    | CallerWait
    | CallerSpurious
    | WorkerTest(i: nat)
    | WorkerDrain(i: nat)
    | WorkerLeave(i: nat)
    | WorkerSpurious(i: nat)

  predicate Initial(s: State) {
    && s.caller == Outside && s.job == None
    && s.next == 0 && s.remaining == 0 && s.active == 0
    && s.chunks == 0 && s.generation == 0 && s.sizes == [] && s.served == multiset{}
    && forall i :: 0 <= i < |s.workers| ==> s.workers[i] == Worker(Awake, 0)
  }

  /** mutex_ is held across steps only while the caller tests done_'s predicate. */
  predicate MutexFree(s: State) {
    !s.caller.TestRemaining? && !s.caller.TestActive? && !s.caller.FallAsleep?
  }

  predicate DrainEnabled(s: State, at: Drain) {
    at.Notify? ==> MutexFree(s)
  }

  predicate Enabled(s: State, a: Action) {
    match a
    case Begin(_) => s.caller.Outside?
    case NotifyAll => s.caller.Announce?
    case CallerDrain => s.caller.Working? && DrainEnabled(s, s.caller.at)
    case CallerWait => s.caller.Waiting? || !MutexFree(s)
    case CallerSpurious => s.caller.CallerAsleep?
    case WorkerTest(i) => i < |s.workers| && s.workers[i].pc.Awake? && MutexFree(s)
    case WorkerDrain(i) => i < |s.workers| && s.workers[i].pc.Draining? && DrainEnabled(s, s.workers[i].pc.at)
    case WorkerLeave(i) => i < |s.workers| && s.workers[i].pc.Leaving? && MutexFree(s)
    case WorkerSpurious(i) => i < |s.workers| && s.workers[i].pc.Asleep?
  }

  /** The shared effect of one step of drain() by a thread that holds `job`. */
  function DrainEffect(s: State, job: nat, at: Drain): State {
    match at
    case Take => s.(next := s.next + 1)
    case Check(_) => s
    case Serve(t) => s.(served := s.served + multiset{(job, t)})
    case Finish => s.(remaining := s.remaining - 1)
    case Notify => s.(caller := if s.caller.CallerAsleep? then Waiting else s.caller)
  }

  /** The thread's next place in drain(); None when it returns. */
  function DrainNext(s: State, at: Drain): Option<Drain> {
    match at
    case Take => Some(Check(s.next))
    case Check(t) => if t >= s.chunks then None else Some(Serve(t))
    case Serve(_) => Some(Finish)
    case Finish => Some(if s.remaining == 1 then Notify else Take)
    case Notify => Some(Take)
  }

  function SetWorker(s: State, i: nat, w: Worker): State
    requires i < |s.workers|
  {
    s.(workers := s.workers[i := w])
  }

  function WakeAll(ws: seq<Worker>): (r: seq<Worker>)
    ensures |r| == |ws|
    ensures forall i :: 0 <= i < |ws| ==> r[i] == if ws[i].pc.Asleep? then Worker(Awake, ws[i].seen) else ws[i]
  {
    seq(|ws|, i requires 0 <= i < |ws| => if ws[i].pc.Asleep? then Worker(Awake, ws[i].seen) else ws[i])
  }

  function Apply(s: State, a: Action): State
    requires Enabled(s, a)
  {
    match a
    case Begin(chunks) =>
      s.(caller := Announce, job := Some(|s.sizes|), next := 0, chunks := chunks,
         remaining := chunks, generation := s.generation + 1, sizes := s.sizes + [chunks])
    case NotifyAll =>
      s.(caller := Working(Take), workers := WakeAll(s.workers))
    case CallerDrain =>
      // run() drains the job it was given, which it published as job_
      var t := DrainEffect(s, if s.job.Some? then s.job.value else 0, s.caller.at);
      var at := DrainNext(s, s.caller.at);
      t.(caller := if at.Some? then Working(at.value) else Waiting)
    case CallerWait =>
      (match s.caller
       case Waiting => s.(caller := TestRemaining)
       case TestRemaining => s.(caller := if s.remaining == 0 then TestActive else FallAsleep)
       case TestActive => if s.active == 0 then s.(caller := Outside, job := None) else s.(caller := FallAsleep)
       case _ => s.(caller := CallerAsleep))
    case CallerSpurious =>
      s.(caller := Waiting)
    case WorkerTest(i) =>
      var w := s.workers[i];
      if s.generation == w.seen then SetWorker(s, i, Worker(Asleep, w.seen))
      else if s.job.None? then SetWorker(s, i, Worker(Awake, s.generation))
      else SetWorker(s, i, Worker(Draining(s.job.value, Take), s.generation)).(active := s.active + 1)
    case WorkerDrain(i) =>
      var w := s.workers[i];
      var at := DrainNext(s, w.pc.at);
      var pc := if at.Some? then Draining(w.pc.job, at.value) else Leaving(w.pc.job);
      SetWorker(DrainEffect(s, w.pc.job, w.pc.at), i, Worker(pc, w.seen))
    case WorkerLeave(i) =>
      SetWorker(s, i, Worker(Awake, s.workers[i].seen))
        .(active := s.active - 1, caller := if s.caller.CallerAsleep? then Waiting else s.caller)
    case WorkerSpurious(i) =>
      SetWorker(s, i, Worker(Awake, s.workers[i].seen))
  }

  /** A run of the protocol: every interleaving of the caller and the workers is one. */
  ghost predicate IsRun(states: seq<State>, actions: seq<Action>) {
    && |states| == |actions| + 1
    && Initial(states[0])
    && forall i :: 0 <= i < |actions| ==>
         Enabled(states[i], actions[i]) && states[i + 1] == Apply(states[i], actions[i])
  }

  // ---------------------------------------------------------------------------
  // Scores: what a thread contributes to the conserved and decreasing quantities.

  datatype Score =
    | InJob                                   // counted in active_
    | Live(chunks: nat)                       // owes a fetch_sub of remaining_
    | Pending(ticket: nat)                    // holds this ticket and has not served it
    | Spent(chunks: nat, generation: nat)     // has drawn its one ticket past the end
    | Weight(chunks: nat, generation: nat)    // steps it may still take

  function DrainScore(k: Score, at: Drain): nat {
    match k
    case InJob => 1
    case Live(chunks) => if at.Serve? || at.Finish? || (at.Check? && at.ticket < chunks) then 1 else 0
    case Pending(t) => if (at.Check? || at.Serve?) && at.ticket == t then 1 else 0
    case Spent(chunks, _) => if at.Check? && at.ticket >= chunks then 1 else 0
    case Weight(chunks, _) =>
      match at
      case Take => 8
      case Check(t) => if t < chunks then 16 else 7
      case Serve(_) => 15
      case Finish => 14
      case Notify => 13
  }

  function WorkerScore(k: Score, w: Worker): nat {
    match w.pc
    case Draining(_, at) => DrainScore(k, at)
    case Leaving(_) => if k.InJob? || k.Spent? then 1 else if k.Weight? then 6 else 0
    case _ =>
      match k
      case Spent(_, generation) => if w.seen == generation then 1 else 0
      case Weight(_, generation) => if w.seen != generation then 9 else if w.pc.Awake? then 1 else 0
      case _ => 0
  }

  function CallerScore(k: Score, c: CallerPc, workers: nat): nat {
    match c
    case Outside => 0
    case Announce => if k.Weight? then 9 + workers else 0
    case Working(at) => if k.InJob? then 0 else DrainScore(k, at)
    case Waiting => if k.Weight? then 4 else if k.Spent? then 1 else 0
    case TestRemaining => if k.Weight? then 3 else if k.Spent? then 1 else 0
    case TestActive => if k.Weight? then 2 else if k.Spent? then 1 else 0
    case FallAsleep => if k.Weight? then 1 else if k.Spent? then 1 else 0
    case CallerAsleep => if k.Spent? then 1 else 0
  }

  function Total(k: Score, ws: seq<Worker>): nat {
    if ws == [] then 0 else WorkerScore(k, ws[0]) + Total(k, ws[1..])
  }

  lemma {:induction false} TotalUpdate(k: Score, ws: seq<Worker>, i: nat, w: Worker)
    requires i < |ws|
    ensures Total(k, ws[i := w]) == Total(k, ws) - WorkerScore(k, ws[i]) + WorkerScore(k, w)
  {
    if i == 0 {
      assert ws[i := w][1..] == ws[1..];
    } else {
      assert ws[i := w][1..] == ws[1..][i - 1 := w];
      TotalUpdate(k, ws[1..], i - 1, w);
    }
  }

  lemma {:induction false} TotalAtLeast(k: Score, ws: seq<Worker>, i: nat)
    requires i < |ws|
    ensures WorkerScore(k, ws[i]) <= Total(k, ws)
  {
    if i > 0 {
      TotalAtLeast(k, ws[1..], i - 1);
    }
  }

  lemma {:induction false} TotalAtMost(k: Score, ws: seq<Worker>, bound: nat)
    requires forall i :: 0 <= i < |ws| ==> WorkerScore(k, ws[i]) <= bound
    ensures Total(k, ws) <= bound * |ws|
  {
    if ws != [] {
      forall i | 0 <= i < |ws[1..]| ensures WorkerScore(k, ws[1..][i]) <= bound {
        assert ws[1..][i] == ws[i + 1];
      }
      TotalAtMost(k, ws[1..], bound);
      assert bound * |ws| == bound + bound * |ws[1..]|;
    }
  }

  /** What waking every sleeper does to a total: nothing but at most one unit of weight each. */
  lemma {:induction false} TotalWakeAll(k: Score, ws: seq<Worker>)
    ensures Total(k, ws) <= Total(k, WakeAll(ws)) <= Total(k, ws) + |ws|
    ensures !k.Weight? ==> Total(k, WakeAll(ws)) == Total(k, ws)
  {
    if ws != [] {
      assert WakeAll(ws)[1..] == WakeAll(ws[1..]);
      TotalWakeAll(k, ws[1..]);
    }
  }

  lemma {:induction false} SomeoneScores(k: Score, ws: seq<Worker>) returns (i: nat)
    requires Total(k, ws) > 0
    ensures i < |ws| && WorkerScore(k, ws[i]) > 0
  {
    if WorkerScore(k, ws[0]) > 0 {
      i := 0;
    } else {
      i := SomeoneScores(k, ws[1..]);
      i := i + 1;
    }
  }

  function CallerTotal(k: Score, s: State): nat {
    CallerScore(k, s.caller, |s.workers|) + Total(k, s.workers)
  }

  function Fresh(s: State): nat {
    if s.next < s.chunks then s.chunks - s.next else 0
  }

  /** An upper bound on the steps the current job can still take. */
  function Measure(s: State): nat {
    9 * Fresh(s) + CallerTotal(Weight(s.chunks, s.generation), s)
  }

  // ---------------------------------------------------------------------------
  // The invariant.

  ghost predicate WorkerOk(s: State, w: Worker) {
    && w.seen <= s.generation
    && (w.pc.Draining? || w.pc.Leaving? ==> s.job == Some(w.pc.job) && w.seen == s.generation)
    && (w.pc.Draining? && w.pc.at.Check? ==> w.pc.at.ticket < s.next)
    && (w.pc.Draining? && w.pc.at.Serve? ==> w.pc.at.ticket < s.next && w.pc.at.ticket < s.chunks)
    && (w.pc.Asleep? && w.seen != s.generation ==> s.caller.Announce?)
  }

  ghost predicate ControlOk(s: State) {
    && s.job == (if s.caller.Outside? then None else Some(|s.sizes| - 1))
    && (s.job.Some? ==> s.sizes != [] && s.chunks == s.sizes[|s.sizes| - 1])
    && (forall i :: 0 <= i < |s.workers| ==> WorkerOk(s, s.workers[i]))
    && (s.caller.Working? && s.caller.at.Check? ==> s.caller.at.ticket < s.next)
    && (s.caller.Working? && s.caller.at.Serve? ==> s.caller.at.ticket < s.next && s.caller.at.ticket < s.chunks)
  }

  /** active_, remaining_ and next_ are what the threads' positions say. */
  ghost predicate CountersOk(s: State) {
    && s.active == Total(InJob, s.workers)
    && (s.job.Some? ==> s.remaining == Fresh(s) + CallerTotal(Live(s.chunks), s))
    && (s.job.Some? ==> s.next <= s.chunks + CallerTotal(Spent(s.chunks, s.generation), s))
    && (s.caller.Waiting? || s.caller.TestRemaining? || s.caller.TestActive? || s.caller.FallAsleep?
         || s.caller.CallerAsleep?
        ==> s.next > s.chunks)
    && (s.caller.TestActive? ==> s.remaining == 0)
    && (s.caller.FallAsleep? || s.caller.CallerAsleep? ==> s.active > 0)
  }

  /** Each ticket is drawn once, and is then either still held or already served. */
  ghost predicate TicketOk(s: State, j: nat, t: nat) {
    if s.job == Some(j) then
      if t < s.chunks then
        s.served[(j, t)] + CallerTotal(Pending(t), s) == if t < s.next then 1 else 0
      else
        s.served[(j, t)] == 0
    else
      s.served[(j, t)] == if j < |s.sizes| && t < s.sizes[j] then 1 else 0
  }

  ghost predicate Inv(s: State) {
    ControlOk(s) && CountersOk(s) && forall j: nat, t: nat :: TicketOk(s, j, t)
  }

  /** The scores a change of worker i makes, for every score at once. */
  lemma UpdateAll(ws: seq<Worker>, i: nat, w: Worker)
    requires i < |ws|
    ensures forall k :: Total(k, ws[i := w]) == Total(k, ws) - WorkerScore(k, ws[i]) + WorkerScore(k, w)
    ensures forall k :: WorkerScore(k, ws[i]) <= Total(k, ws)
  {
    forall k ensures Total(k, ws[i := w]) == Total(k, ws) - WorkerScore(k, ws[i]) + WorkerScore(k, w)
                     && WorkerScore(k, ws[i]) <= Total(k, ws)
    {
      TotalUpdate(k, ws, i, w);
      TotalAtLeast(k, ws, i);
    }
  }

  lemma InvInitial(s: State)
    requires Initial(s)
    ensures Inv(s)
  {
    TotalAtMost(InJob, s.workers, 0);
  }

  /** With nobody in the job, no ticket is held and nothing is owed. */
  lemma NoneInJob(s: State)
    requires ControlOk(s) && s.active == Total(InJob, s.workers)
    requires s.active == 0 || s.job.None?
    ensures s.active == 0
    ensures forall i :: 0 <= i < |s.workers| ==> !s.workers[i].pc.Draining? && !s.workers[i].pc.Leaving?
    ensures forall k: Score :: k.Pending? || k.Live? ==> Total(k, s.workers) == 0
  {
    forall i | 0 <= i < |s.workers| ensures !s.workers[i].pc.Draining? && !s.workers[i].pc.Leaving? {
      assert WorkerOk(s, s.workers[i]);
      TotalAtLeast(InJob, s.workers, i);
    }
    TotalAtMost(InJob, s.workers, 0);
    forall k: Score | k.Pending? || k.Live? ensures Total(k, s.workers) == 0 {
      TotalAtMost(k, s.workers, 0);
    }
  }

  lemma TicketsUnmoved(s: State, s': State)
    requires forall j: nat, t: nat :: TicketOk(s, j, t)
    requires s'.job == s.job && s'.next == s.next && s'.chunks == s.chunks && s'.sizes == s.sizes
             && s'.served == s.served
    requires forall t: nat :: CallerTotal(Pending(t), s') == CallerTotal(Pending(t), s)
    ensures forall j: nat, t: nat :: TicketOk(s', j, t)
  {
    forall j: nat, t: nat ensures TicketOk(s', j, t) {
      assert TicketOk(s, j, t);
    }
  }

  /** Starting a job turns "served in full" into "served in full before this one". */
  lemma TicketsAtBegin(s: State, s': State)
    requires forall j: nat, t: nat :: TicketOk(s, j, t)
    requires s.job.None? && s'.job == Some(|s.sizes|) && s'.next == 0 && s'.served == s.served
    requires s'.sizes == s.sizes + [s'.chunks]
    requires forall t: nat :: CallerTotal(Pending(t), s') == 0
    ensures forall j: nat, t: nat :: TicketOk(s', j, t)
  {
    forall j: nat, t: nat ensures TicketOk(s', j, t) {
      assert TicketOk(s, j, t);
    }
  }

  /** Returning from run() turns "nothing held, nothing left" into "served in full". */
  lemma TicketsAtReturn(s: State, s': State)
    requires forall j: nat, t: nat :: TicketOk(s, j, t)
    requires s.job == Some(|s.sizes| - 1) && s.sizes != [] && s.chunks == s.sizes[|s.sizes| - 1] && s.next >= s.chunks
    requires s'.job.None? && s'.sizes == s.sizes && s'.served == s.served
    requires forall t: nat :: CallerTotal(Pending(t), s) == 0
    ensures forall j: nat, t: nat :: TicketOk(s', j, t)
  {
    forall j: nat, t: nat ensures TicketOk(s', j, t) {
      assert TicketOk(s, j, t);
    }
  }

  lemma InvBegin(s: State, chunks: nat)
    requires Inv(s) && s.caller.Outside?
    ensures Inv(Apply(s, Begin(chunks)))
  {
    var s' := Apply(s, Begin(chunks));
    NoneInJob(s);
    assert forall i :: 0 <= i < |s.workers| ==> WorkerOk(s, s.workers[i]) ==> WorkerOk(s', s'.workers[i]);
    TotalAtMost(Spent(chunks, s'.generation), s.workers, 0);
    TicketsAtBegin(s, s');
  }

  lemma InvNotifyAll(s: State)
    requires Inv(s) && s.caller.Announce?
    ensures Inv(Apply(s, NotifyAll))
  {
    var s' := Apply(s, NotifyAll);
    forall k: Score ensures !k.Weight? ==> Total(k, s'.workers) == Total(k, s.workers) {
      TotalWakeAll(k, s.workers);
    }
    forall i | 0 <= i < |s'.workers| ensures WorkerOk(s', s'.workers[i]) {
      assert WorkerOk(s, s.workers[i]);
    }
    TicketsUnmoved(s, s');
  }

  function ScoreAfter(k: Score, at: Option<Drain>): nat {
    if at.Some? then DrainScore(k, at.value) else 0
  }

  /** One step of drain() moves remaining_, the tickets left and the thread's debt together. */
  lemma DrainConserves(s: State, job: nat, at: Drain)
    ensures var t := DrainEffect(s, job, at);
            && t.remaining - Fresh(t) - ScoreAfter(Live(s.chunks), DrainNext(s, at))
               == s.remaining - Fresh(s) - DrainScore(Live(s.chunks), at)
            && (t.next <= s.chunks || t.next - ScoreAfter(Spent(s.chunks, s.generation), DrainNext(s, at))
                                      <= s.next - DrainScore(Spent(s.chunks, s.generation), at)
                || DrainNext(s, at).None?)
            && t.next >= s.next && t.active == s.active && t.chunks == s.chunks
            && t.job == s.job && t.sizes == s.sizes && t.generation == s.generation && t.workers == s.workers
  {
  }

  /** ... and for each ticket, the thread's hold on it together with what was served. */
  lemma DrainTickets(s: State, job: nat, at: Drain, t: nat)
    requires at.Check? || at.Serve? ==> at.ticket < s.next
    ensures DrainEffect(s, job, at).served[(job, t)] + ScoreAfter(Pending(t), DrainNext(s, at))
            == s.served[(job, t)] + DrainScore(Pending(t), at)
               + (if at.Take? && t == s.next then 1 else 0)
               - (if at.Check? && at.ticket == t && t >= s.chunks then 1 else 0)
    ensures forall j: nat :: j != job ==> DrainEffect(s, job, at).served[(j, t)] == s.served[(j, t)]
  {
  }

  lemma WorkersStayOk(s: State, s': State)
    requires |s.workers| == |s'.workers|
    requires s'.job == s.job && s'.generation == s.generation && s'.chunks == s.chunks && s'.next >= s.next
    requires s.caller.Announce? ==> s'.caller.Announce?
    ensures forall k :: 0 <= k < |s.workers| && WorkerOk(s, s.workers[k]) && s'.workers[k] == s.workers[k]
                        ==> WorkerOk(s', s'.workers[k])
  {
  }

  lemma CallerDrainTicket(s: State, j: nat, t: nat)
    requires Inv(s) && Enabled(s, CallerDrain)
    ensures TicketOk(Apply(s, CallerDrain), j, t)
  {
    DrainTickets(s, s.job.value, s.caller.at, t);
    assert TicketOk(s, j, t);
  }

  lemma InvCallerDrain(s: State)
    requires Inv(s) && Enabled(s, CallerDrain)
    ensures Inv(Apply(s, CallerDrain))
  {
    var s' := Apply(s, CallerDrain);
    DrainConserves(s, s.job.value, s.caller.at);
    WorkersStayOk(s, s');
    forall j: nat, t: nat ensures TicketOk(s', j, t) {
      CallerDrainTicket(s, j, t);
    }
  }

  lemma InvCallerWait(s: State)
    requires Inv(s) && Enabled(s, CallerWait)
    ensures Inv(Apply(s, CallerWait))
  {
    var s' := Apply(s, CallerWait);
    if s.caller.TestActive? && s.active == 0 {
      NoneInJob(s);
    } else if s.caller.TestRemaining? && s.remaining != 0 && s.active == 0 {
      NoneInJob(s);
    }
    forall i | 0 <= i < |s'.workers| ensures WorkerOk(s', s'.workers[i]) {
      assert WorkerOk(s, s.workers[i]);
    }
    if s'.job.None? {
      TicketsAtReturn(s, s');
    } else {
      TicketsUnmoved(s, s');
    }
  }

  lemma InvWorkerTest(s: State, i: nat)
    requires Inv(s) && Enabled(s, WorkerTest(i))
    ensures Inv(Apply(s, WorkerTest(i)))
  {
    var s' := Apply(s, WorkerTest(i));
    assert WorkerOk(s, s.workers[i]);
    UpdateAll(s.workers, i, s'.workers[i]);
    forall k | 0 <= k < |s'.workers| ensures WorkerOk(s', s'.workers[k]) {
      assert WorkerOk(s, s.workers[k]);
    }
    TicketsUnmoved(s, s');
  }

  lemma WorkerDrainControl(s: State, i: nat)
    requires Inv(s) && Enabled(s, WorkerDrain(i))
    ensures ControlOk(Apply(s, WorkerDrain(i)))
  {
    var s' := Apply(s, WorkerDrain(i));
    assert WorkerOk(s, s.workers[i]);
    DrainConserves(s, s.workers[i].pc.job, s.workers[i].pc.at);
    WorkersStayOk(s, s');
    assert WorkerOk(s', s'.workers[i]);
  }

  lemma WorkerDrainActive(s: State, i: nat)
    requires Inv(s) && Enabled(s, WorkerDrain(i))
    ensures var s' := Apply(s, WorkerDrain(i)); s'.active == Total(InJob, s'.workers) && s'.active == s.active > 0
  {
    var s' := Apply(s, WorkerDrain(i));
    TotalUpdate(InJob, s.workers, i, s'.workers[i]);
    TotalAtLeast(InJob, s.workers, i);
  }

  lemma WorkerDrainRemaining(s: State, i: nat)
    requires Inv(s) && Enabled(s, WorkerDrain(i))
    ensures var s' := Apply(s, WorkerDrain(i));
            s'.job == s.job && s'.remaining == Fresh(s') + CallerTotal(Live(s.chunks), s')
            && (s.remaining == 0 ==> s'.remaining == 0)
  {
    var s' := Apply(s, WorkerDrain(i));
    assert WorkerOk(s, s.workers[i]);
    DrainConserves(s, s.workers[i].pc.job, s.workers[i].pc.at);
    TotalUpdate(Live(s.chunks), s.workers, i, s'.workers[i]);
    TotalAtLeast(Live(s.chunks), s.workers, i);
  }

  lemma WorkerDrainNext(s: State, i: nat)
    requires Inv(s) && Enabled(s, WorkerDrain(i))
    ensures var s' := Apply(s, WorkerDrain(i));
            s'.next >= s.next && s'.next <= s.chunks + CallerTotal(Spent(s.chunks, s.generation), s')
  {
    var s' := Apply(s, WorkerDrain(i));
    assert WorkerOk(s, s.workers[i]);
    DrainConserves(s, s.workers[i].pc.job, s.workers[i].pc.at);
    TotalUpdate(Spent(s.chunks, s.generation), s.workers, i, s'.workers[i]);
  }

  lemma WorkerDrainCounters(s: State, i: nat)
    requires Inv(s) && Enabled(s, WorkerDrain(i))
    ensures CountersOk(Apply(s, WorkerDrain(i)))
  {
    WorkerDrainActive(s, i);
    WorkerDrainRemaining(s, i);
    WorkerDrainNext(s, i);
  }

  lemma WorkerDrainTicket(s: State, i: nat, j: nat, t: nat)
    requires Inv(s) && Enabled(s, WorkerDrain(i))
    ensures TicketOk(Apply(s, WorkerDrain(i)), j, t)
  {
    var s' := Apply(s, WorkerDrain(i));
    var job, at := s.workers[i].pc.job, s.workers[i].pc.at;
    assert WorkerOk(s, s.workers[i]);
    TotalUpdate(Pending(t), s.workers, i, s'.workers[i]);
    DrainTickets(s, job, at, t);
    assert TicketOk(s, j, t);
    assert CallerScore(Pending(t), s'.caller, |s.workers|) == CallerScore(Pending(t), s.caller, |s.workers|);
  }

  lemma InvWorkerDrain(s: State, i: nat)
    requires Inv(s) && Enabled(s, WorkerDrain(i))
    ensures Inv(Apply(s, WorkerDrain(i)))
  {
    WorkerDrainControl(s, i);
    WorkerDrainCounters(s, i);
    forall j: nat, t: nat ensures TicketOk(Apply(s, WorkerDrain(i)), j, t) {
      WorkerDrainTicket(s, i, j, t);
    }
  }

  lemma InvWorkerLeave(s: State, i: nat)
    requires Inv(s) && Enabled(s, WorkerLeave(i))
    ensures Inv(Apply(s, WorkerLeave(i)))
  {
    var s' := Apply(s, WorkerLeave(i));
    assert WorkerOk(s, s.workers[i]);
    UpdateAll(s.workers, i, s'.workers[i]);
    forall k | 0 <= k < |s'.workers| ensures WorkerOk(s', s'.workers[k]) {
      assert WorkerOk(s, s.workers[k]);
    }
    TicketsUnmoved(s, s');
  }

  lemma InvSpurious(s: State, a: Action)
    requires Inv(s) && Enabled(s, a) && IsSpurious(a)
    ensures Inv(Apply(s, a))
  {
    var s' := Apply(s, a);
    if a.WorkerSpurious? {
      UpdateAll(s.workers, a.i, s'.workers[a.i]);
    }
    forall k | 0 <= k < |s'.workers| ensures WorkerOk(s', s'.workers[k]) {
      assert WorkerOk(s, s.workers[k]);
    }
    TicketsUnmoved(s, s');
  }

  lemma InvStep(s: State, a: Action)
    requires Inv(s) && Enabled(s, a)
    ensures Inv(Apply(s, a)) && |Apply(s, a).workers| == |s.workers|
  {
    match a
    case Begin(chunks) => InvBegin(s, chunks);
    case NotifyAll => InvNotifyAll(s);
    case CallerDrain => InvCallerDrain(s);
    case CallerWait => InvCallerWait(s);
    case WorkerTest(i) => InvWorkerTest(s, i);
    case WorkerDrain(i) => InvWorkerDrain(s, i);
    case WorkerLeave(i) => InvWorkerLeave(s, i);
    case CallerSpurious => InvSpurious(s, a);
    case WorkerSpurious(_) => InvSpurious(s, a);
  }

  lemma {:induction false} InvOnRun(states: seq<State>, actions: seq<Action>, i: nat)
    requires IsRun(states, actions) && i < |states|
    ensures Inv(states[i]) && |states[i].workers| == |states[0].workers|
  {
    if i == 0 {
      InvInitial(states[0]);
    } else {
      InvOnRun(states, actions, i - 1);
      InvStep(states[i - 1], actions[i - 1]);
    }
  }

  // ---------------------------------------------------------------------------
  // Safety over whole runs.

  /** Whatever the interleaving, a ticket is served at most once, only if it belongs to a job
      that was started, and a thread in drain() or on its way out holds the job now running. */
  lemma ServedAtMostOnce(states: seq<State>, actions: seq<Action>, i: nat)
    requires IsRun(states, actions) && i < |states|
    ensures forall j: nat, t: nat :: states[i].served[(j, t)] <= 1
    ensures forall j: nat, t: nat :: states[i].served[(j, t)] > 0 ==> j < |states[i].sizes| && t < states[i].sizes[j]
    ensures forall w :: w in states[i].workers && (w.pc.Draining? || w.pc.Leaving?)
                        ==> !states[i].caller.Outside? && w.pc.job == |states[i].sizes| - 1
  {
    var s := states[i];
    InvOnRun(states, actions, i);
    forall j: nat, t: nat
      ensures s.served[(j, t)] <= 1 && (s.served[(j, t)] > 0 ==> j < |s.sizes| && t < s.sizes[j])
    {
      assert TicketOk(s, j, t);
    }
    forall w | w in s.workers && (w.pc.Draining? || w.pc.Leaving?)
      ensures !s.caller.Outside? && w.pc.job == |s.sizes| - 1
    {
      assert WorkerOk(s, w);
    }
  }

  /** When run() has returned, every ticket of every job so far was served exactly once, and
      no worker, however late it woke, still holds a job or a ticket. */
  lemma ServedInFullOnReturn(states: seq<State>, actions: seq<Action>, i: nat)
    requires IsRun(states, actions) && i < |states| && states[i].caller.Outside?
    ensures forall j: nat, t: nat ::
              states[i].served[(j, t)] == if j < |states[i].sizes| && t < states[i].sizes[j] then 1 else 0
    ensures states[i].active == 0
    ensures forall w :: w in states[i].workers ==> w.pc.Awake? || w.pc.Asleep?
  {
    var s := states[i];
    InvOnRun(states, actions, i);
    NoneInJob(s);
    forall j: nat, t: nat ensures s.served[(j, t)] == if j < |s.sizes| && t < s.sizes[j] then 1 else 0 {
      assert TicketOk(s, j, t);
    }
  }

  /** No wakeup is lost: a caller that is blocked (or committed to blocking) has a false
      predicate, and a worker that slept through a new job still has notify_all to come. */
  lemma NoLostWakeup(states: seq<State>, actions: seq<Action>, i: nat)
    requires IsRun(states, actions) && i < |states|
    ensures states[i].caller.CallerAsleep? || states[i].caller.FallAsleep?
            ==> !(states[i].remaining == 0 && states[i].active == 0)
    ensures forall w :: w in states[i].workers && w.pc.Asleep? && w.seen != states[i].generation ==>
              states[i].caller.Announce?
  {
    InvOnRun(states, actions, i);
    forall w | w in states[i].workers && w.pc.Asleep? && w.seen != states[i].generation
      ensures states[i].caller.Announce?
    {
      assert WorkerOk(states[i], w);
    }
  }

  /** A job draws at most chunks + workers + 1 tickets: one useless one for each thread. */
  lemma TicketsDrawn(states: seq<State>, actions: seq<Action>, i: nat)
    requires IsRun(states, actions) && i < |states| && !states[i].caller.Outside?
    ensures states[i].next <= states[i].chunks + |states[0].workers| + 1
    ensures 0 <= states[i].remaining
    ensures 0 <= states[i].active <= |states[0].workers|
  {
    var s := states[i];
    InvOnRun(states, actions, i);
    TotalAtMost(Spent(s.chunks, s.generation), s.workers, 1);
    TotalAtMost(InJob, s.workers, 1);
  }

  // ---------------------------------------------------------------------------
  // Progress.

  predicate IsSpurious(a: Action) {
    a.CallerSpurious? || a.WorkerSpurious?
  }

  /** Steps other than the start of a job and spurious wakeups. */
  predicate Productive(a: Action) {
    !a.Begin? && !IsSpurious(a)
  }

  lemma DrainMeasure(s: State, job: nat, at: Drain, generation: nat)
    requires at.Check? ==> at.ticket < s.next
    requires at.Serve? ==> at.ticket < s.chunks
    ensures var k := Weight(s.chunks, generation);
            9 * Fresh(DrainEffect(s, job, at))
              + (if DrainNext(s, at).None? then 6
                 else DrainScore(k, DrainNext(s, at).value) + if at.Notify? then 4 else 0)
            < 9 * Fresh(s) + DrainScore(k, at)
  {
  }

  lemma WorkerDrainMeasure(s: State, i: nat)
    requires Inv(s) && Enabled(s, WorkerDrain(i))
    ensures Measure(Apply(s, WorkerDrain(i))) < Measure(s)
  {
    var k := Weight(s.chunks, s.generation);
    assert WorkerOk(s, s.workers[i]);
    DrainMeasure(s, s.workers[i].pc.job, s.workers[i].pc.at, s.generation);
    TotalUpdate(k, s.workers, i, Apply(s, WorkerDrain(i)).workers[i]);
    TotalAtLeast(k, s.workers, i);
  }

  lemma CallerDrainMeasure(s: State)
    requires Inv(s) && Enabled(s, CallerDrain)
    ensures Measure(Apply(s, CallerDrain)) < Measure(s)
  {
    DrainMeasure(s, s.job.value, s.caller.at, s.generation);
  }

  /** Every productive step lowers the measure, whoever takes it. */
  lemma MeasureDecreases(s: State, a: Action)
    requires Inv(s) && Enabled(s, a) && Productive(a)
    ensures Measure(Apply(s, a)) < Measure(s)
  {
    var k := Weight(s.chunks, s.generation);
    match a
    case NotifyAll =>
      TotalWakeAll(k, s.workers);
    case CallerDrain =>
      CallerDrainMeasure(s);
    case CallerWait =>
    case WorkerTest(i) =>
      assert WorkerOk(s, s.workers[i]);
      TotalUpdate(k, s.workers, i, Apply(s, a).workers[i]);
    case WorkerDrain(i) =>
      WorkerDrainMeasure(s, i);
    case WorkerLeave(i) =>
      assert WorkerOk(s, s.workers[i]);
      TotalUpdate(k, s.workers, i, Apply(s, a).workers[i]);
      TotalAtLeast(k, s.workers, i);
  }

  /** While a job runs, some thread can take a productive step: the pool cannot deadlock. */
  lemma SomeoneCanStep(s: State) returns (a: Action)
    requires Inv(s) && !s.caller.Outside?
    ensures Enabled(s, a) && Productive(a)
  {
    match s.caller
    case Announce => a := NotifyAll;
    case Working(_) => a := CallerDrain;
    case CallerAsleep =>
      var i := SomeoneScores(InJob, s.workers);
      a := if s.workers[i].pc.Draining? then WorkerDrain(i) else WorkerLeave(i);
    case Waiting => a := CallerWait;
    case TestRemaining => a := CallerWait;
    case TestActive => a := CallerWait;
    case FallAsleep => a := CallerWait;
  }

  lemma ProgressOnRun(states: seq<State>, actions: seq<Action>, i: nat) returns (a: Action)
    requires IsRun(states, actions) && i < |states| && !states[i].caller.Outside?
    ensures Enabled(states[i], a) && Productive(a) && Measure(Apply(states[i], a)) < Measure(states[i])
  {
    InvOnRun(states, actions, i);
    a := SomeoneCanStep(states[i]);
    MeasureDecreases(states[i], a);
  }

  /** A spurious wakeup gives back at most the steps of one test of a predicate. */
  lemma SpuriousMeasure(s: State, a: Action)
    requires Inv(s) && Enabled(s, a) && IsSpurious(a)
    ensures Measure(Apply(s, a)) <= Measure(s) + 4
  {
    if a.WorkerSpurious? {
      TotalUpdate(Weight(s.chunks, s.generation), s.workers, a.i, Apply(s, a).workers[a.i]);
    }
  }

  lemma StepOnRun(states: seq<State>, actions: seq<Action>, i: nat)
    requires IsRun(states, actions) && i < |actions| && !actions[i].Begin?
    ensures Measure(states[i + 1]) + 1 <= Measure(states[i]) + if IsSpurious(actions[i]) then 5 else 0
  {
    InvOnRun(states, actions, i);
    if IsSpurious(actions[i]) {
      SpuriousMeasure(states[i], actions[i]);
    } else {
      MeasureDecreases(states[i], actions[i]);
    }
  }

  /** How many of the steps from b to e are spurious wakeups. */
  function Spurious(actions: seq<Action>, b: nat, e: nat): nat
    requires b <= e <= |actions|
    decreases e
  {
    if b == e then 0 else Spurious(actions, b, e - 1) + if IsSpurious(actions[e - 1]) then 1 else 0
  }

  lemma {:induction false} MeasureOverSteps(states: seq<State>, actions: seq<Action>, b: nat, e: nat)
    requires IsRun(states, actions) && b <= e < |states|
    requires forall i :: b <= i < e ==> !actions[i].Begin?
    ensures Measure(states[e]) + (e - b) <= Measure(states[b]) + 5 * Spurious(actions, b, e)
  {
    if b < e {
      MeasureOverSteps(states, actions, b, e - 1);
      StepOnRun(states, actions, e - 1);
    }
  }

  /** Under every schedule, a job of c chunks on w workers is over after at most 9c + 10w + 9 steps
      of all threads together, and five more for each spurious wakeup. */
  lemma JobEnds(states: seq<State>, actions: seq<Action>, b: nat, e: nat)
    requires IsRun(states, actions) && b < e < |states| && actions[b].Begin?
    requires forall i :: b < i < e ==> !actions[i].Begin?
    ensures e - b - 1 <= 9 * actions[b].chunks + 10 * |states[0].workers| + 9 + 5 * Spurious(actions, b + 1, e)
  {
    var s := states[b + 1];
    InvOnRun(states, actions, b);
    InvOnRun(states, actions, b + 1);
    MeasureOverSteps(states, actions, b + 1, e);
    TotalAtMost(Weight(s.chunks, s.generation), s.workers, 9) by {
      forall i | 0 <= i < |s.workers| ensures WorkerScore(Weight(s.chunks, s.generation), s.workers[i]) <= 9 {
        assert WorkerOk(states[b], states[b].workers[i]);
      }
    }
  }

  // ---------------------------------------------------------------------------
  // From tickets to rows.

  /** The rows drain() hands to serve() for a ticket. */
  predicate TicketServesRow(count: nat, chunk: nat, ticket: nat, row: nat) {
    var begin := ticket * chunk;
    begin <= row < if begin + chunk < count then begin + chunk else count
  }

  /** For any chunk size the tickets' row ranges cover each row of the work exactly once. */
  lemma RowInOneTicket(count: nat, chunk: nat, row: nat)
    requires chunk > 0
    ensures row < count ==> row / chunk < CeilDiv(count, chunk) && TicketServesRow(count, chunk, row / chunk, row)
    ensures forall t: nat :: TicketServesRow(count, chunk, t, row) ==> row < count && t == row / chunk
  {
    forall t: nat | TicketServesRow(count, chunk, t, row) ensures t == row / chunk {
      DivModUnique(row, chunk, t, row - t * chunk);
    }
    var q, n := row / chunk, count + chunk - 1;
    assert row == q * chunk + row % chunk && n == n / chunk * chunk + n % chunk;
    MulMonotone(n / chunk, q, chunk);
  }

  /** The ticket that a step serves, with its job. */
  function ServedBy(s: State, a: Action): Option<(nat, nat)>
    requires Enabled(s, a)
  {
    match a
    case CallerDrain =>
      if s.caller.at.Serve? then Some((if s.job.Some? then s.job.value else 0, s.caller.at.ticket)) else None
    case WorkerDrain(i) =>
      if s.workers[i].pc.at.Serve? then Some((s.workers[i].pc.job, s.workers[i].pc.at.ticket)) else None
    case _ => None
  }

  lemma ServedStep(s: State, a: Action)
    requires Enabled(s, a)
    ensures Apply(s, a).served == s.served + match ServedBy(s, a) case Some(p) => multiset{p} case None => multiset{}
  {
  }

  /** What the first k steps of a run write to an output row of a job, in order; value(i) is what
      step i writes there if it serves the row's ticket. */
  function Writes<V>(states: seq<State>, actions: seq<Action>, k: nat, job: nat, count: nat, chunk: nat, row: nat,
                     value: nat -> V): seq<V>
    requires IsRun(states, actions) && k <= |actions|
  {
    if k == 0 then []
    else
      Writes(states, actions, k - 1, job, count, chunk, row, value)
      + match ServedBy(states[k - 1], actions[k - 1])
        case Some((j, t)) => if j == job && TicketServesRow(count, chunk, t, row) then [value(k - 1)] else []
        case None => []
  }

  /** Step i serves the ticket of the row. */
  ghost predicate WritesAt(states: seq<State>, actions: seq<Action>, i: nat, job: nat, count: nat, chunk: nat, row: nat)
    requires IsRun(states, actions) && i < |actions|
  {
    match ServedBy(states[i], actions[i])
    case Some((j, t)) => j == job && TicketServesRow(count, chunk, t, row)
    case None => false
  }

  /** A row is written as often as its ticket is served. */
  lemma {:induction false} WritesAreServes<V>(states: seq<State>, actions: seq<Action>, k: nat, job: nat, count: nat,
                                              chunk: nat, row: nat, value: nat -> V)
    requires IsRun(states, actions) && k <= |actions| && chunk > 0
    ensures |Writes(states, actions, k, job, count, chunk, row, value)|
            == if row < count then states[k].served[(job, row / chunk)] else 0
    ensures forall v :: v in Writes(states, actions, k, job, count, chunk, row, value) ==>
              exists i :: 0 <= i < k && WritesAt(states, actions, i, job, count, chunk, row) && v == value(i)
  {
    if k > 0 {
      WritesAreServes(states, actions, k - 1, job, count, chunk, row, value);
      ServedStep(states[k - 1], actions[k - 1]);
      RowInOneTicket(count, chunk, row);
      var before, now := Writes(states, actions, k - 1, job, count, chunk, row, value),
                         Writes(states, actions, k, job, count, chunk, row, value);
      forall v | v in now
        ensures exists i :: 0 <= i < k && WritesAt(states, actions, i, job, count, chunk, row) && v == value(i)
      {
        if v !in before {
          assert WritesAt(states, actions, k - 1, job, count, chunk, row) && v == value(k - 1);
        }
      }
    }
  }

  lemma RowTicketServed(states: seq<State>, actions: seq<Action>, k: nat, job: nat, count: nat, chunk: nat, row: nat)
    requires IsRun(states, actions) && k <= |actions| && states[k].caller.Outside?
    requires chunk > 0 && job < |states[k].sizes| && states[k].sizes[job] == CeilDiv(count, chunk) && row < count
    ensures states[k].served[(job, row / chunk)] == 1
  {
    ServedInFullOnReturn(states, actions, k);
    RowInOneTicket(count, chunk, row);
  }

  /** When run() has returned, every output row of every job so far was written exactly once, by a
      step that served that job. */
  lemma RowsWrittenOnce<V>(states: seq<State>, actions: seq<Action>, k: nat, job: nat, count: nat, chunk: nat, row: nat,
                           value: nat -> V) returns (i: nat)
    requires IsRun(states, actions) && k <= |actions| && states[k].caller.Outside?
    requires chunk > 0 && job < |states[k].sizes| && states[k].sizes[job] == CeilDiv(count, chunk) && row < count
    ensures i < k && WritesAt(states, actions, i, job, count, chunk, row)
    ensures Writes(states, actions, k, job, count, chunk, row, value) == [value(i)]
  {
    RowTicketServed(states, actions, k, job, count, chunk, row);
    WritesAreServes(states, actions, k, job, count, chunk, row, value);
    var w := Writes(states, actions, k, job, count, chunk, row, value);
    assert w[0] in w && w == [w[0]];
    i :| 0 <= i < k && WritesAt(states, actions, i, job, count, chunk, row) && w[0] == value(i);
  }
}
