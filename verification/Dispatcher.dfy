/** The worker-pool dispatcher as a state machine: callers, delivery goroutines, workers and the error
    collector meet on unbuffered channels, so every exchange is one step. */
module Dispatcher {
  import opened Entities
  import opened Listings

  type WorkerId = nat

  /** What a job does before it signals the wait group: sends an error (or nil) or stores a result. */
  datatype Action<W> = Send(err: Option<string>) | Write(result: W)

  type Job<W> = seq<Action<W>>

  datatype Stage =
    | Pending                              // not yet received by the dispatcher
    | Received                             // in the hands of the dispatcher's loop
    | Delivering                           // a goroutine waits for some worker's channel
    | Holding(w: WorkerId)                 // that goroutine has the channel of worker w, which is in its select
    | Running(worker: WorkerId, pc: nat)
    | Finished

  /** The dispatcher's own loop: ready to receive a job, or starting the goroutine that will deliver one. */
  datatype Loop = Receiving | Spawning(job: nat)

  datatype Caller = Submitting | Collecting | Closing | Returned | Stopped

  datatype State<W> = State(
    stages: seq<Stage>,
    added: nat,                    // jobs counted in the wait group so far
    handed: nat,                   // jobs received by the dispatcher
    dispatcher: Loop,
    waitGroup: int,
    workers: set<WorkerId>,        // worker goroutines
    offering: set<WorkerId>,       // those blocked on offering their channel to the pool
    caller: Caller,
    errChOpen: bool,
    errs: seq<string>,             // non-nil errors collected by Wait
    started: seq<nat>,             // jobs in the order in which workers called them
    results: seq<W>                // results in the order in which they were stored
  )

  /** A dispatcher run: the jobs the caller submits before it waits, and the pool size. */
  datatype Pool<W> = Pool(jobs: seq<Job<W>>, maxWorkers: int) {
    predicate Dynamic() {
      maxWorkers <= 0
    }

    ghost function Init(): State<W> {
      var ws := if Dynamic() then {} else Ids(maxWorkers);
      State(seq(|jobs|, i => Pending), 0, 0, Receiving, 0, ws, ws, Submitting, true, [], [], [])
    }
  }

  ghost function Ids(n: nat): (s: set<WorkerId>)
    ensures forall w: WorkerId :: w in s <==> w < n
    ensures |s| == n
  {
    if n == 0 then {} else Ids(n - 1) + {n - 1}
  }

  datatype Event =
    | BeginAddJob | HandOverJob | CallWait | SpawnDelivery
    | Pair(j: nat, w: WorkerId) | Receive(j: nat) | Act(j: nat) | FinishJob(j: nat)
    | CloseErrors | ReturnFromWait | Stop | Quit(worker: WorkerId)

  /** Worker `w` waits in its select for a job or for quit. */
  ghost predicate InSelect<W>(s: State<W>, w: WorkerId) {
    exists j :: 0 <= j < |s.stages| && s.stages[j] == Holding(w)
  }

  ghost predicate Enabled<W>(p: Pool<W>, s: State<W>, e: Event)
    requires |s.stages| == |p.jobs|
  {
    match e
    case BeginAddJob => s.caller.Submitting? && s.added == s.handed < |p.jobs|
    case HandOverJob => s.caller.Submitting? && s.handed < s.added <= |p.jobs| && s.dispatcher.Receiving?
    case CallWait => s.caller.Submitting? && s.added == s.handed == |p.jobs|
    case SpawnDelivery =>
      && s.dispatcher.Spawning? && s.dispatcher.job < |s.stages| && s.stages[s.dispatcher.job].Received?
    case Pair(j, w) => j < |s.stages| && s.stages[j].Delivering? && w in s.offering
    case Receive(j) => j < |s.stages| && s.stages[j].Holding?
    case Act(j) =>
      && j < |s.stages| && s.stages[j].Running? && s.stages[j].pc < |p.jobs[j]|
      && (p.jobs[j][s.stages[j].pc].Send? ==> s.caller.Collecting? && s.errChOpen)
    case FinishJob(j) => j < |s.stages| && s.stages[j].Running? && s.stages[j].pc == |p.jobs[j]|
    case CloseErrors => s.caller.Collecting? && s.waitGroup == 0
    case ReturnFromWait => s.caller.Closing?
    case Stop => s.caller.Returned?
    case Quit(w) => s.caller.Stopped? && !p.Dynamic() && w in s.workers && InSelect(s, w)
  }

  /** A job is about to send on the error channel after it was closed; the program would panic. */
  ghost predicate SendsOnClosed<W>(p: Pool<W>, s: State<W>)
    requires |s.stages| == |p.jobs|
  {
    && !s.errChOpen
    && exists j :: 0 <= j < |s.stages| && s.stages[j].Running?
         && s.stages[j].pc < |p.jobs[j]| && p.jobs[j][s.stages[j].pc].Send?
  }

  ghost function Next<W>(p: Pool<W>, s: State<W>, e: Event): State<W>
    requires |s.stages| == |p.jobs| && Enabled(p, s, e)
  {
    match e
    case BeginAddJob => s.(added := s.added + 1, waitGroup := s.waitGroup + 1)
    case HandOverJob =>
      s.(handed := s.handed + 1, stages := s.stages[s.handed := Received], dispatcher := Spawning(s.handed))
    case SpawnDelivery =>
      var j := s.dispatcher.job;
      s.(stages := s.stages[j := Delivering], dispatcher := Receiving,
         workers := if p.Dynamic() then s.workers + {j} else s.workers,
         offering := if p.Dynamic() then s.offering + {j} else s.offering)
    case CallWait => s.(caller := Collecting)
    case Pair(j, w) => s.(stages := s.stages[j := Holding(w)], offering := s.offering - {w})
    case Receive(j) => s.(stages := s.stages[j := Running(s.stages[j].w, 0)], started := s.started + [j])
    case Act(j) =>
      var r := s.stages[j];
      var s' := s.(stages := s.stages[j := Running(r.worker, r.pc + 1)]);
      (match p.jobs[j][r.pc]
       case Send(None) => s'
       case Send(Some(err)) => s'.(errs := s.errs + [err])
       case Write(x) => s'.(results := s.results + [x]))
    case FinishJob(j) =>
      s.(stages := s.stages[j := Finished], offering := s.offering + {s.stages[j].worker}, waitGroup := s.waitGroup - 1)
    case CloseErrors => s.(caller := Closing, errChOpen := false)
    case ReturnFromWait => s.(caller := Returned)
    case Stop => s.(caller := Stopped)
    case Quit(w) => s.(workers := s.workers - {w})
  }

  ghost predicate Steps<W(!new)>(p: Pool<W>, s: State<W>, s': State<W>)
    requires |s.stages| == |p.jobs|
  {
    exists e :: Enabled(p, s, e) && s' == Next(p, s, e)
  }

  ghost predicate IsRun<W(!new)>(p: Pool<W>, run: seq<State<W>>) {
    && |run| > 0 && run[0] == p.Init()
    && (forall i :: 0 <= i < |run| ==> |run[i].stages| == |p.jobs|)
    && forall i :: 0 <= i < |run| - 1 ==> Steps(p, run[i], run[i + 1])
  }

  // ---------------------------------------------------------------------------
  // Totals over all jobs
  // ---------------------------------------------------------------------------

  /** How many actions of a job have happened. */
  function Progress(stage: Stage, length: nat): nat {
    match stage
    case Running(_, pc) => if pc <= length then pc else length
    case Finished => length
    case _ => 0
  }

  /** How often action `a` occurs among the first `n` actions of a job. */
  ghost function Occurrences<W>(job: Job<W>, n: nat, a: Action<W>): nat
    requires n <= |job|
  {
    if n == 0 then 0 else Occurrences(job, n - 1, a) + if job[n - 1] == a then 1 else 0
  }

  /** How often action `a` has happened so far, over the first `n` jobs. */
  ghost function Happened<W>(jobs: seq<Job<W>>, stages: seq<Stage>, n: nat, a: Action<W>): nat
    requires n <= |jobs| == |stages|
  {
    if n == 0 then 0
    else Happened(jobs, stages, n - 1, a) + Occurrences(jobs[n - 1], Progress(stages[n - 1], |jobs[n - 1]|), a)
  }

  /** How often action `a` occurs in the first `n` jobs altogether. */
  ghost function Total<W>(jobs: seq<Job<W>>, n: nat, a: Action<W>): nat
    requires n <= |jobs|
  {
    if n == 0 then 0 else Total(jobs, n - 1, a) + Occurrences(jobs[n - 1], |jobs[n - 1]|, a)
  }

  function FinishedCount(stages: seq<Stage>, n: nat): nat
    requires n <= |stages|
  {
    if n == 0 then 0 else FinishedCount(stages, n - 1) + if stages[n - 1].Finished? then 1 else 0
  }

  // ---------------------------------------------------------------------------
  // The invariant
  // ---------------------------------------------------------------------------

  function WorkerOf(stage: Stage): Option<WorkerId> {
    match stage
    case Holding(w) => Some(w)
    case Running(w, _) => Some(w)
    case _ => None
  }

  /** Jobs reach the dispatcher in order; one at a time is counted but not yet received. */
  ghost predicate SubmitInvariant<W>(p: Pool<W>, s: State<W>) {
    && |s.stages| == |p.jobs|
    && s.handed <= s.added <= s.handed + 1 && s.added <= |p.jobs|
    && (forall j :: 0 <= j < |s.stages| ==> (s.stages[j].Pending? <==> j >= s.handed))
    && (!s.caller.Submitting? ==> s.handed == |p.jobs|)
    && (s.dispatcher.Spawning? ==> s.dispatcher.job + 1 == s.handed)
    && (forall j :: 0 <= j < |s.stages| ==> (s.stages[j].Received? <==> s.dispatcher == Spawning(j)))
    && (forall j :: 0 <= j < |s.stages| && s.stages[j].Running? ==> s.stages[j].pc <= |p.jobs[j]|)
  }

  /** The jobs for which the dispatcher has started a delivery. */
  function Spawned<W>(s: State<W>): int {
    if s.dispatcher.Spawning? then s.handed - 1 else s.handed
  }

  /** The worker goroutines there are. */
  ghost function WorkersOf<W>(p: Pool<W>, s: State<W>): set<WorkerId> {
    Ids(if p.Dynamic() then (if Spawned(s) < 0 then 0 else Spawned(s)) else p.maxWorkers)
  }

  /** Workers are either offering or serving exactly one job. */
  ghost predicate WorkerInvariant<W>(p: Pool<W>, s: State<W>) {
    && s.workers == WorkersOf(p, s)
    && s.offering <= s.workers
    && (forall j :: 0 <= j < |s.stages| && WorkerOf(s.stages[j]).Some? ==>
          WorkerOf(s.stages[j]).value in s.workers - s.offering)
    && (forall i, j :: 0 <= i < j < |s.stages| && WorkerOf(s.stages[i]).Some? ==>
         WorkerOf(s.stages[i]) != WorkerOf(s.stages[j]))
    && (forall w :: w in s.workers - s.offering ==> Serves(s.stages, w))
  }

  ghost predicate Serves(stages: seq<Stage>, w: WorkerId) {
    exists j :: 0 <= j < |stages| && WorkerOf(stages[j]) == Some(w)
  }

  /** The wait group counts added jobs that have not finished; the channel is closed only at zero. */
  ghost predicate CountInvariant<W>(p: Pool<W>, s: State<W>)
    requires SubmitInvariant(p, s)
  {
    && s.waitGroup == s.added - FinishedCount(s.stages, |s.stages|)
    && (s.errChOpen <==> s.caller.Submitting? || s.caller.Collecting?)
    && (!s.errChOpen ==> s.waitGroup == 0)
  }

  function Called(stage: Stage): bool {
    stage.Running? || stage.Finished?
  }

  /** Each job that was called was called once. */
  ghost predicate StartInvariant<W>(s: State<W>) {
    && NoDuplicates(s.started)
    && (forall j: nat :: j in s.started <==> j < |s.stages| && Called(s.stages[j]))
  }

  /** Errors and results so far are exactly those of the actions that happened. */
  ghost predicate TotalInvariant<W(!new)>(p: Pool<W>, s: State<W>)
    requires SubmitInvariant(p, s)
  {
    && (forall e :: multiset(s.errs)[e] == Happened(p.jobs, s.stages, |p.jobs|, Send(Some(e))))
    && (forall x :: multiset(s.results)[x] == Happened(p.jobs, s.stages, |p.jobs|, Write(x)))
  }

  ghost predicate Invariant<W(!new)>(p: Pool<W>, s: State<W>) {
    SubmitInvariant(p, s) && WorkerInvariant(p, s) && CountInvariant(p, s) && TotalInvariant(p, s) && StartInvariant(s)
  }
}
