/** What every run of the dispatcher keeps: safety, progress and termination. */
module DispatcherSafety {
  import opened Entities
  import opened Listings
  import opened Dispatcher

  // ---------------------------------------------------------------------------
  // How the totals change when one stage changes
  // ---------------------------------------------------------------------------

  lemma {:induction false} HappenedUpdate<W>(jobs: seq<Job<W>>, stages: seq<Stage>, j: nat, stage: Stage, n: nat,
                                             a: Action<W>)
    requires n <= |jobs| == |stages| && j < |jobs|
    ensures Happened(jobs, stages[j := stage], n, a)
              + (if j < n then Occurrences(jobs[j], Progress(stages[j], |jobs[j]|), a) else 0)
         == Happened(jobs, stages, n, a)
              + (if j < n then Occurrences(jobs[j], Progress(stage, |jobs[j]|), a) else 0)
    decreases n
  {
    if n > 0 {
      HappenedUpdate(jobs, stages, j, stage, n - 1, a);
    }
  }

  lemma {:induction false} FinishedUpdate(stages: seq<Stage>, j: nat, stage: Stage, n: nat)
    requires n <= |stages| && j < |stages|
    ensures FinishedCount(stages[j := stage], n) + (if j < n && stages[j].Finished? then 1 else 0)
         == FinishedCount(stages, n) + (if j < n && stage.Finished? then 1 else 0)
    decreases n
  {
    if n > 0 {
      FinishedUpdate(stages, j, stage, n - 1);
    }
  }

  // ---------------------------------------------------------------------------
  // Steps keep the invariant
  // ---------------------------------------------------------------------------

  lemma {:induction false} NothingHappened<W>(p: Pool<W>, n: nat, a: Action<W>)
    requires n <= |p.jobs|
    ensures Happened(p.jobs, p.Init().stages, n, a) == 0
  {
    if n > 0 {
      NothingHappened(p, n - 1, a);
    }
  }

  lemma {:induction false} NothingFinished<W>(p: Pool<W>, n: nat)
    requires n <= |p.jobs|
    ensures FinishedCount(p.Init().stages, n) == 0
  {
    if n > 0 {
      NothingFinished(p, n - 1);
    }
  }

  lemma InitInvariant<W(!new)>(p: Pool<W>)
    ensures Invariant(p, p.Init())
  {
    NothingFinished(p, |p.jobs|);
    forall a: Action<W> ensures Happened(p.jobs, p.Init().stages, |p.jobs|, a) == 0 {
      NothingHappened(p, |p.jobs|, a);
    }
  }

  /** A stage change without an action changes no total. */
  lemma TotalsAfterQuietStep<W(!new)>(p: Pool<W>, s: State<W>, j: nat, stage: Stage, s': State<W>)
    requires SubmitInvariant(p, s) && TotalInvariant(p, s) && SubmitInvariant(p, s') && j < |p.jobs|
    requires Progress(s.stages[j], |p.jobs[j]|) == Progress(stage, |p.jobs[j]|)
    requires s'.stages == s.stages[j := stage] && s'.errs == s.errs && s'.results == s.results
    ensures TotalInvariant(p, s')
  {
    forall a: Action<W> ensures Happened(p.jobs, s'.stages, |p.jobs|, a) == Happened(p.jobs, s.stages, |p.jobs|, a) {
      HappenedUpdate(p.jobs, s.stages, j, stage, |p.jobs|, a);
    }
  }

  /** One action happens once more, every other as often as before. */
  lemma HappenedAfterAct<W>(p: Pool<W>, stages: seq<Stage>, j: nat, w: WorkerId, pc: nat, a: Action<W>)
    requires |stages| == |p.jobs| && j < |p.jobs| && stages[j] == Running(w, pc) && pc < |p.jobs[j]|
    ensures Happened(p.jobs, stages[j := Running(w, pc + 1)], |p.jobs|, a)
         == Happened(p.jobs, stages, |p.jobs|, a) + if p.jobs[j][pc] == a then 1 else 0
  {
    HappenedUpdate(p.jobs, stages, j, Running(w, pc + 1), |p.jobs|, a);
  }

  lemma ErrorsAfterAct<W(!new)>(p: Pool<W>, s: State<W>, j: nat, w: WorkerId, pc: nat, e: string, errs: seq<string>)
    requires |s.stages| == |p.jobs| && j < |p.jobs| && s.stages[j] == Running(w, pc) && pc < |p.jobs[j]|
    requires errs == (match p.jobs[j][pc] case Send(Some(x)) => s.errs + [x] case _ => s.errs)
    requires multiset(s.errs)[e] == Happened(p.jobs, s.stages, |p.jobs|, Send(Some(e)))
    ensures multiset(errs)[e] == Happened(p.jobs, s.stages[j := Running(w, pc + 1)], |p.jobs|, Send(Some(e)))
  {
    HappenedAfterAct(p, s.stages, j, w, pc, Send(Some(e)));
  }

  lemma ResultsAfterAct<W(!new)>(p: Pool<W>, s: State<W>, j: nat, w: WorkerId, pc: nat, x: W, results: seq<W>)
    requires |s.stages| == |p.jobs| && j < |p.jobs| && s.stages[j] == Running(w, pc) && pc < |p.jobs[j]|
    requires results == (match p.jobs[j][pc] case Write(y) => s.results + [y] case _ => s.results)
    requires multiset(s.results)[x] == Happened(p.jobs, s.stages, |p.jobs|, Write(x))
    ensures multiset(results)[x] == Happened(p.jobs, s.stages[j := Running(w, pc + 1)], |p.jobs|, Write(x))
  {
    HappenedAfterAct(p, s.stages, j, w, pc, Write(x));
  }

  /** One action adds exactly its own error or result. */
  lemma TotalsAfterAct<W(!new)>(p: Pool<W>, s: State<W>, j: nat, w: WorkerId, pc: nat, s': State<W>)
    requires SubmitInvariant(p, s) && TotalInvariant(p, s) && SubmitInvariant(p, s') && j < |p.jobs|
    requires s.stages[j] == Running(w, pc) && pc < |p.jobs[j]| && s'.stages == s.stages[j := Running(w, pc + 1)]
    requires s'.errs == (match p.jobs[j][pc] case Send(Some(e)) => s.errs + [e] case _ => s.errs)
    requires s'.results == (match p.jobs[j][pc] case Write(x) => s.results + [x] case _ => s.results)
    ensures TotalInvariant(p, s')
  {
    forall e ensures multiset(s'.errs)[e] == Happened(p.jobs, s'.stages, |p.jobs|, Send(Some(e))) {
      ErrorsAfterAct(p, s, j, w, pc, e, s'.errs);
    }
    forall x ensures multiset(s'.results)[x] == Happened(p.jobs, s'.stages, |p.jobs|, Write(x)) {
      ResultsAfterAct(p, s, j, w, pc, x, s'.results);
    }
  }

  lemma StartsAfterSame<W>(s: State<W>, j: nat, stage: Stage, s': State<W>)
    requires StartInvariant(s) && j < |s.stages| && Called(stage) == Called(s.stages[j])
    requires s'.stages == s.stages[j := stage] && s'.started == s.started
    ensures StartInvariant(s')
  {
  }

  lemma AfterHandOver<W(!new)>(p: Pool<W>, s: State<W>, s': State<W>)
    requires Invariant(p, s) && Enabled(p, s, HandOverJob) && s' == Next(p, s, HandOverJob)
    ensures Invariant(p, s')
  {
    var j := s.handed;
    assert SubmitInvariant(p, s');
    WorkersAfterHandOver(p, s, s');
    FinishedUpdate(s.stages, j, Received, |s.stages|);
    TotalsAfterQuietStep(p, s, j, Received, s');
    StartsAfterSame(s, j, Received, s');
  }

  lemma WorkersAfterHandOver<W>(p: Pool<W>, s: State<W>, s': State<W>)
    requires WorkerInvariant(p, s) && s.handed < |s.stages| && WorkerOf(s.stages[s.handed]).None?
    requires s'.stages == s.stages[s.handed := Received] && s.dispatcher.Receiving?
    requires s'.handed == s.handed + 1 && s'.dispatcher.Spawning?
    requires s'.workers == s.workers && s'.offering == s.offering
    ensures WorkerInvariant(p, s')
  {
    assert forall j :: 0 <= j < |s.stages| ==> WorkerOf(s'.stages[j]) == WorkerOf(s.stages[j]);
    SameServed(s.stages, s'.stages, s.workers - s.offering);
  }

  lemma AfterSpawn<W(!new)>(p: Pool<W>, s: State<W>, s': State<W>)
    requires Invariant(p, s) && Enabled(p, s, SpawnDelivery) && s' == Next(p, s, SpawnDelivery)
    ensures Invariant(p, s')
  {
    var j := s.dispatcher.job;
    assert SubmitInvariant(p, s');
    WorkersAfterSpawn(p, s, j, s');
    FinishedUpdate(s.stages, j, Delivering, |s.stages|);
    TotalsAfterQuietStep(p, s, j, Delivering, s');
    StartsAfterSame(s, j, Delivering, s');
  }

  lemma WorkersAfterSpawn<W>(p: Pool<W>, s: State<W>, j: nat, s': State<W>)
    requires WorkerInvariant(p, s) && j < |s.stages| && WorkerOf(s.stages[j]).None?
    requires s.dispatcher == Spawning(j) && j + 1 == s.handed == s'.handed && s'.dispatcher.Receiving?
    requires s'.stages == s.stages[j := Delivering]
    requires s'.workers == (if p.Dynamic() then s.workers + {j} else s.workers)
    requires s'.offering == (if p.Dynamic() then s.offering + {j} else s.offering)
    ensures WorkerInvariant(p, s')
  {
    assert forall k :: 0 <= k < |s.stages| ==> WorkerOf(s'.stages[k]) == WorkerOf(s.stages[k]);
    assert WorkersOf(p, s') == s'.workers && (p.Dynamic() ==> j !in s.workers) by {
      assert p.Dynamic() ==> Ids(j + 1) == Ids(j) + {j};
    }
    assert s'.workers - s'.offering == s.workers - s.offering;
    SameServed(s.stages, s'.stages, s.workers - s.offering);
  }

  /** Workers are served by stages alone. */
  lemma SameServed(stages: seq<Stage>, stages': seq<Stage>, ws: set<WorkerId>)
    requires |stages'| == |stages| && forall j :: 0 <= j < |stages| ==> WorkerOf(stages'[j]) == WorkerOf(stages[j])
    requires forall w :: w in ws ==> Serves(stages, w)
    ensures forall w :: w in ws ==> Serves(stages', w)
  {
    forall w | w in ws ensures Serves(stages', w) {
      var j :| 0 <= j < |stages| && WorkerOf(stages[j]) == Some(w);
      assert WorkerOf(stages'[j]) == Some(w);
    }
  }

  lemma AfterPair<W(!new)>(p: Pool<W>, s: State<W>, j: nat, w: WorkerId, s': State<W>)
    requires Invariant(p, s) && Enabled(p, s, Pair(j, w)) && s' == Next(p, s, Pair(j, w))
    ensures Invariant(p, s')
  {
    assert SubmitInvariant(p, s');
    WorkersAfterPair(p, s, j, w, s');
    FinishedUpdate(s.stages, j, Holding(w), |s.stages|);
    TotalsAfterQuietStep(p, s, j, Holding(w), s');
    StartsAfterSame(s, j, Holding(w), s');
  }

  lemma WorkersAfterPair<W>(p: Pool<W>, s: State<W>, j: nat, w: WorkerId, s': State<W>)
    requires WorkerInvariant(p, s) && j < |s.stages| && WorkerOf(s.stages[j]).None? && w in s.offering
    requires s'.stages == s.stages[j := Holding(w)] && Spawned(s') == Spawned(s)
    requires s'.workers == s.workers && s'.offering == s.offering - {w}
    ensures WorkerInvariant(p, s')
  {
    forall v | v in s'.workers - s'.offering ensures Serves(s'.stages, v) {
      if v == w {
        assert WorkerOf(s'.stages[j]) == Some(v);
      } else {
        assert v in s.workers - s.offering && Serves(s.stages, v);
        var k :| 0 <= k < |s.stages| && WorkerOf(s.stages[k]) == Some(v);
        assert WorkerOf(s'.stages[k]) == Some(v);
      }
    }
  }

  /** A worker that keeps its job keeps the worker invariant. */
  lemma WorkersAfterSameWorker<W>(p: Pool<W>, s: State<W>, j: nat, stage: Stage, s': State<W>)
    requires WorkerInvariant(p, s) && j < |s.stages| && WorkerOf(stage) == WorkerOf(s.stages[j])
    requires s'.stages == s.stages[j := stage] && Spawned(s') == Spawned(s)
    requires s'.workers == s.workers && s'.offering == s.offering
    ensures WorkerInvariant(p, s')
  {
    SameServed(s.stages, s'.stages, s.workers - s.offering);
  }

  lemma StartsAfterReceive<W>(s: State<W>, j: nat, stage: Stage, s': State<W>)
    requires StartInvariant(s) && j < |s.stages| && Called(stage) && !Called(s.stages[j])
    requires s'.stages == s.stages[j := stage] && s'.started == s.started + [j]
    ensures StartInvariant(s')
  {
    assert j !in s.started;
    forall k: nat ensures k in s'.started <==> k < |s'.stages| && Called(s'.stages[k]) {
      assert k in s'.started <==> k in s.started || k == j;
    }
  }

  lemma AfterReceive<W(!new)>(p: Pool<W>, s: State<W>, j: nat, s': State<W>)
    requires Invariant(p, s) && Enabled(p, s, Receive(j)) && s' == Next(p, s, Receive(j))
    ensures Invariant(p, s')
  {
    var stage := Running(s.stages[j].w, 0);
    assert SubmitInvariant(p, s');
    WorkersAfterSameWorker(p, s, j, stage, s');
    FinishedUpdate(s.stages, j, stage, |s.stages|);
    TotalsAfterQuietStep(p, s, j, stage, s');
    StartsAfterReceive(s, j, stage, s');
  }

  lemma AfterAct<W(!new)>(p: Pool<W>, s: State<W>, j: nat, s': State<W>)
    requires Invariant(p, s) && Enabled(p, s, Act(j)) && s' == Next(p, s, Act(j))
    ensures Invariant(p, s')
  {
    ActChanges(p, s, j, s');
    AfterActChanges(p, s, j, s.stages[j].worker, s.stages[j].pc, s');
  }

  lemma ActChanges<W>(p: Pool<W>, s: State<W>, j: nat, s': State<W>)
    requires |s.stages| == |p.jobs| && Enabled(p, s, Act(j)) && s' == Next(p, s, Act(j))
    ensures s'.stages == s.stages[j := Running(s.stages[j].worker, s.stages[j].pc + 1)]
    ensures s'.(stages := s.stages, errs := s.errs, results := s.results) == s
    ensures s'.errs == (match p.jobs[j][s.stages[j].pc] case Send(Some(e)) => s.errs + [e] case _ => s.errs)
    ensures s'.results == (match p.jobs[j][s.stages[j].pc] case Write(x) => s.results + [x] case _ => s.results)
  {
  }

  lemma AfterActChanges<W(!new)>(p: Pool<W>, s: State<W>, j: nat, w: WorkerId, pc: nat, s': State<W>)
    requires Invariant(p, s) && j < |p.jobs| && s.stages[j] == Running(w, pc) && pc < |p.jobs[j]|
    requires s'.stages == s.stages[j := Running(w, pc + 1)]
    requires s'.(stages := s.stages, errs := s.errs, results := s.results) == s
    requires s'.errs == (match p.jobs[j][pc] case Send(Some(e)) => s.errs + [e] case _ => s.errs)
    requires s'.results == (match p.jobs[j][pc] case Write(x) => s.results + [x] case _ => s.results)
    ensures Invariant(p, s')
  {
    assert SubmitInvariant(p, s');
    WorkersAfterSameWorker(p, s, j, Running(w, pc + 1), s');
    FinishedUpdate(s.stages, j, Running(w, pc + 1), |s.stages|);
    TotalsAfterAct(p, s, j, w, pc, s');
    StartsAfterSame(s, j, Running(w, pc + 1), s');
  }

  lemma AfterFinish<W(!new)>(p: Pool<W>, s: State<W>, j: nat, s': State<W>)
    requires Invariant(p, s) && Enabled(p, s, FinishJob(j)) && s' == Next(p, s, FinishJob(j))
    ensures Invariant(p, s')
  {
    assert SubmitInvariant(p, s');
    WorkersAfterFinish(p, s, j, s');
    FinishedUpdate(s.stages, j, Finished, |s.stages|);
    OpenWhileUnfinished(p, s, j);
    TotalsAfterQuietStep(p, s, j, Finished, s');
    StartsAfterSame(s, j, Finished, s');
  }

  lemma WorkersAfterFinish<W>(p: Pool<W>, s: State<W>, j: nat, s': State<W>)
    requires WorkerInvariant(p, s) && j < |s.stages| && s.stages[j].Running?
    requires s'.stages == s.stages[j := Finished] && Spawned(s') == Spawned(s)
    requires s'.workers == s.workers && s'.offering == s.offering + {s.stages[j].worker}
    ensures WorkerInvariant(p, s')
  {
    var w := s.stages[j].worker;
    assert WorkerOf(s.stages[j]) == Some(w);
    forall i | 0 <= i < |s'.stages| && WorkerOf(s'.stages[i]).Some?
      ensures WorkerOf(s'.stages[i]).value in s'.workers - s'.offering
    {
      assert i != j && WorkerOf(s.stages[i]) != Some(w);
    }
    forall v | v in s'.workers - s'.offering ensures Serves(s'.stages, v) {
      assert v in s.workers - s.offering && Serves(s.stages, v);
      var k :| 0 <= k < |s.stages| && WorkerOf(s.stages[k]) == Some(v);
      assert WorkerOf(s'.stages[k]) == Some(v);
    }
  }

  lemma {:induction false} SomeUnfinished(stages: seq<Stage>, j: nat, n: nat)
    requires j < n <= |stages| && !stages[j].Finished?
    ensures FinishedCount(stages, n) < n
    decreases n
  {
    if n - 1 > j {
      SomeUnfinished(stages, j, n - 1);
    } else {
      FinishedAtMost(stages, n - 1);
    }
  }

  lemma {:induction false} FinishedAtMost(stages: seq<Stage>, n: nat)
    requires n <= |stages|
    ensures FinishedCount(stages, n) <= n
  {
    if n > 0 {
      FinishedAtMost(stages, n - 1);
    }
  }

  /** Jobs that the dispatcher has not received are not finished, so only the first `n` count. */
  lemma {:induction false} PendingNotFinished(stages: seq<Stage>, handed: nat, n: nat)
    requires handed <= n <= |stages|
    requires forall j :: handed <= j < |stages| ==> stages[j].Pending?
    ensures FinishedCount(stages, n) == FinishedCount(stages, handed)
    decreases n
  {
    if n > handed {
      PendingNotFinished(stages, handed, n - 1);
    }
  }

  /** While a received job is unfinished the wait group is positive, so the error channel is open. */
  lemma OpenWhileUnfinished<W>(p: Pool<W>, s: State<W>, j: nat)
    requires SubmitInvariant(p, s) && CountInvariant(p, s)
    requires j < |s.stages| && !s.stages[j].Pending? && !s.stages[j].Finished?
    ensures s.waitGroup > 0 && s.errChOpen
  {
    PendingNotFinished(s.stages, s.handed, |s.stages|);
    SomeUnfinished(s.stages, j, s.handed);
  }

  /** The caller's own steps touch no job and no worker. */
  lemma AfterCallerStep<W(!new)>(p: Pool<W>, s: State<W>, e: Event, s': State<W>)
    requires Invariant(p, s) && Enabled(p, s, e) && s' == Next(p, s, e)
    requires e.BeginAddJob? || e.CallWait? || e.CloseErrors? || e.ReturnFromWait? || e.Stop?
    ensures Invariant(p, s')
  {
  }

  lemma StepPreserves<W(!new)>(p: Pool<W>, s: State<W>, e: Event, s': State<W>)
    requires Invariant(p, s) && Enabled(p, s, e) && s' == Next(p, s, e)
    ensures Invariant(p, s')
  {
    match e
    case HandOverJob => AfterHandOver(p, s, s');
    case SpawnDelivery => AfterSpawn(p, s, s');
    case Pair(j, w) => AfterPair(p, s, j, w, s');
    case Receive(j) => AfterReceive(p, s, j, s');
    case Act(j) => AfterAct(p, s, j, s');
    case FinishJob(j) => AfterFinish(p, s, j, s');
    case Quit(w) =>
      QuitIsNeverReceived(p, s, w);
      assert false;
    case _ => AfterCallerStep(p, s, e, s');
  }

  /** No worker is in its select once the error channel is closed, so none ever receives quit. */
  lemma QuitIsNeverReceived<W>(p: Pool<W>, s: State<W>, w: WorkerId)
    requires SubmitInvariant(p, s) && CountInvariant(p, s)
    ensures !Enabled(p, s, Quit(w))
  {
    if Enabled(p, s, Quit(w)) {
      var j :| 0 <= j < |s.stages| && s.stages[j] == Holding(w);
      OpenWhileUnfinished(p, s, j);
      assert false;
    }
  }

  lemma {:induction false} RunInvariant<W(!new)>(p: Pool<W>, run: seq<State<W>>, i: nat)
    requires IsRun(p, run) && i < |run|
    ensures Invariant(p, run[i])
  {
    if i == 0 {
      InitInvariant(p);
    } else {
      RunInvariant(p, run, i - 1);
      assert Steps(p, run[i - 1], run[(i - 1) + 1]);
      var e :| Enabled(p, run[i - 1], e) && run[i] == Next(p, run[i - 1], e);
      StepPreserves(p, run[i - 1], e, run[i]);
    }
  }

  ghost predicate Reachable<W(!new)>(p: Pool<W>, s: State<W>) {
    exists run :: IsRun(p, run) && run[|run| - 1] == s
  }

  lemma ReachableInvariant<W(!new)>(p: Pool<W>, s: State<W>)
    requires Reachable(p, s)
    ensures Invariant(p, s)
  {
    var run :| IsRun(p, run) && run[|run| - 1] == s;
    RunInvariant(p, run, |run| - 1);
  }

  // ---------------------------------------------------------------------------
  // Safety
  // ---------------------------------------------------------------------------

  lemma {:induction false} AllFinished(stages: seq<Stage>, n: nat, j: nat)
    requires j < n <= |stages| && FinishedCount(stages, n) == n
    ensures stages[j].Finished?
  {
    if !stages[j].Finished? {
      SomeUnfinished(stages, j, n);
      assert false;
    }
  }

  lemma {:induction false} FinishedTotals<W>(jobs: seq<Job<W>>, stages: seq<Stage>, n: nat, a: Action<W>)
    requires n <= |jobs| == |stages| && forall j :: 0 <= j < |stages| ==> stages[j].Finished?
    ensures Happened(jobs, stages, n, a) == Total(jobs, n, a)
  {
    if n > 0 {
      FinishedTotals(jobs, stages, n - 1, a);
    }
  }

  /** Once the error channel is closed every job has finished. */
  lemma ClosedMeansFinished<W>(p: Pool<W>, s: State<W>)
    requires SubmitInvariant(p, s) && CountInvariant(p, s) && !s.errChOpen
    ensures forall j :: 0 <= j < |s.stages| ==> s.stages[j].Finished?
  {
    forall j | 0 <= j < |s.stages| ensures s.stages[j].Finished? {
      AllFinished(s.stages, |s.stages|, j);
    }
  }

  /** When Wait has returned, every job was called exactly once and has finished, and Wait's errors and the
      stored results are exactly those of all jobs, with their multiplicities. */
  lemma WaitReturnsEverything<W(!new)>(p: Pool<W>, s: State<W>)
    requires Reachable(p, s) && !s.errChOpen
    ensures forall j :: 0 <= j < |p.jobs| ==> s.stages[j].Finished?
    ensures Lists(s.started, Ids(|p.jobs|))
    ensures forall e :: multiset(s.errs)[e] == Total(p.jobs, |p.jobs|, Send(Some(e)))
    ensures forall x :: multiset(s.results)[x] == Total(p.jobs, |p.jobs|, Write(x))
  {
    ReachableInvariant(p, s);
    ClosedMeansFinished(p, s);
    forall a: Action<W> ensures Happened(p.jobs, s.stages, |p.jobs|, a) == Total(p.jobs, |p.jobs|, a) {
      FinishedTotals(p.jobs, s.stages, |p.jobs|, a);
    }
  }

  /** In no reachable state does a job send on the closed error channel. */
  lemma NoSendAfterClose<W(!new)>(p: Pool<W>, s: State<W>)
    requires Reachable(p, s)
    ensures |s.stages| == |p.jobs| && !SendsOnClosed(p, s)
  {
    ReachableInvariant(p, s);
    if !s.errChOpen {
      ClosedMeansFinished(p, s);
    }
  }

  ghost function RunningJobs(stages: seq<Stage>, n: nat): set<nat>
    requires n <= |stages|
  {
    if n == 0 then {}
    else if stages[n - 1].Running? then RunningJobs(stages, n - 1) + {n - 1}
    else RunningJobs(stages, n - 1)
  }

  ghost function BusyWorkers(stages: seq<Stage>, n: nat): set<WorkerId>
    requires n <= |stages|
  {
    if n == 0 then {}
    else if stages[n - 1].Running? then BusyWorkers(stages, n - 1) + {stages[n - 1].worker}
    else BusyWorkers(stages, n - 1)
  }

  lemma {:induction false} RunningMembers(stages: seq<Stage>, n: nat)
    requires n <= |stages|
    ensures forall j: nat :: j in RunningJobs(stages, n) <==> j < n && stages[j].Running?
  {
    if n > 0 {
      RunningMembers(stages, n - 1);
    }
  }

  ghost predicate RunsSome(stages: seq<Stage>, n: nat, w: WorkerId)
    requires n <= |stages|
  {
    exists j :: 0 <= j < n && stages[j].Running? && stages[j].worker == w
  }

  lemma {:induction false} BusyMembers(stages: seq<Stage>, n: nat, w: WorkerId)
    requires n <= |stages|
    ensures w in BusyWorkers(stages, n) <==> RunsSome(stages, n, w)
  {
    if n > 0 {
      BusyMembers(stages, n - 1, w);
      if RunsSome(stages, n - 1, w) {
        var j :| 0 <= j < n - 1 && stages[j].Running? && stages[j].worker == w;
        assert stages[j].worker == w;
      }
    }
  }

  /** A worker that serves none of the first `n` jobs is not busy with one of them. */
  lemma {:induction false} NotBusy(stages: seq<Stage>, n: nat, w: WorkerId)
    requires n <= |stages| && forall j :: 0 <= j < n ==> WorkerOf(stages[j]) != Some(w)
    ensures w !in BusyWorkers(stages, n)
  {
    if n > 0 {
      NotBusy(stages, n - 1, w);
      assert WorkerOf(stages[n - 1]) != Some(w);
    }
  }

  lemma LargerSet(s: set<nat>, x: nat)
    requires x !in s
    ensures |s + {x}| == |s| + 1
  {
  }

  ghost predicate WorkersDiffer(stages: seq<Stage>) {
    forall i, j :: 0 <= i < j < |stages| && WorkerOf(stages[i]).Some? ==> WorkerOf(stages[i]) != WorkerOf(stages[j])
  }

  lemma OthersServeOthers(stages: seq<Stage>, n: nat)
    requires WorkersDiffer(stages) && n < |stages| && stages[n].Running?
    ensures stages[n].worker !in BusyWorkers(stages, n)
  {
    assert WorkerOf(stages[n]) == Some(stages[n].worker);
    NotBusy(stages, n, stages[n].worker);
  }

  /** A running job with a worker of its own adds one to both counts. */
  lemma OneMoreOfBoth(stages: seq<Stage>, n: nat)
    requires n < |stages| && stages[n].Running? && stages[n].worker !in BusyWorkers(stages, n)
    ensures |RunningJobs(stages, n + 1)| == |RunningJobs(stages, n)| + 1
    ensures |BusyWorkers(stages, n + 1)| == |BusyWorkers(stages, n)| + 1
  {
    assert n !in RunningJobs(stages, n) by {
      RunningMembers(stages, n);
    }
    LargerSet(RunningJobs(stages, n), n);
    LargerSet(BusyWorkers(stages, n), stages[n].worker);
  }

  lemma {:induction false} OneWorkerPerJob(stages: seq<Stage>, n: nat)
    requires WorkersDiffer(stages) && n <= |stages|
    ensures |RunningJobs(stages, n)| == |BusyWorkers(stages, n)|
  {
    if n > 0 {
      OneWorkerPerJob(stages, n - 1);
      if stages[n - 1].Running? {
        OthersServeOthers(stages, n - 1);
        OneMoreOfBoth(stages, n - 1);
      }
    }
  }

  lemma BusyWorkersExist<W>(p: Pool<W>, s: State<W>)
    requires WorkerInvariant(p, s)
    ensures BusyWorkers(s.stages, |s.stages|) <= s.workers
  {
    forall w | w in BusyWorkers(s.stages, |s.stages|) ensures w in s.workers {
      BusyMembers(s.stages, |s.stages|, w);
      var j :| 0 <= j < |s.stages| && s.stages[j].Running? && s.stages[j].worker == w;
      assert WorkerOf(s.stages[j]) == Some(w);
    }
  }

  /** At most `maxWorkers` jobs run at once in a fixed pool. */
  lemma AtMostMaxWorkers<W(!new)>(p: Pool<W>, s: State<W>)
    requires Reachable(p, s) && p.maxWorkers > 0
    ensures |set j: nat | j < |s.stages| && s.stages[j].Running?| <= p.maxWorkers
  {
    ReachableInvariant(p, s);
    OneWorkerPerJob(s.stages, |s.stages|);
    RunningMembers(s.stages, |s.stages|);
    BusyWorkersExist(p, s);
    SubsetSize(BusyWorkers(s.stages, |s.stages|), s.workers);
    assert (set j: nat | j < |s.stages| && s.stages[j].Running?) == RunningJobs(s.stages, |s.stages|);
  }

  /** When all jobs have finished every worker is back at offering its channel. */
  lemma WorkersAreBack<W>(p: Pool<W>, s: State<W>)
    requires SubmitInvariant(p, s) && WorkerInvariant(p, s)
    requires forall j :: 0 <= j < |s.stages| ==> s.stages[j].Finished?
    ensures s.offering == s.workers
    ensures s.dispatcher.Receiving?
  {
    forall w | w in s.workers ensures w in s.offering {
      assert !Serves(s.stages, w);
    }
  }

  /** Stop has nobody to stop: whenever it is called after Wait all worker goroutines are still there, every
      one of them blocked on offering its channel; none can receive quit, and nothing happens any more. Only
      a dynamic pool without any job leaves no worker behind. The dispatcher's own loop stays in every case,
      receiving from the job queue that nobody closes. */
  lemma StopReachesNobody<W(!new)>(p: Pool<W>, s: State<W>, e: Event)
    requires Reachable(p, s) && s.caller.Stopped?
    ensures s.dispatcher.Receiving?
    ensures s.offering == s.workers
    ensures |s.workers| == if p.Dynamic() then |p.jobs| else p.maxWorkers
    ensures s.workers == {} <==> p.Dynamic() && p.jobs == []
    ensures |s.stages| == |p.jobs| && !Enabled(p, s, e)
  {
    ReachableInvariant(p, s);
    ClosedMeansFinished(p, s);
    WorkersAreBack(p, s);
    if e.Quit? {
      QuitIsNeverReceived(p, s, e.worker);
    }
  }

  // ---------------------------------------------------------------------------
  // Progress and termination
  // ---------------------------------------------------------------------------

  /** Submitting never waits for a job: whatever the jobs do, the caller's next step is possible at once,
      or right after the dispatcher has started the delivery of the job that it received before. */
  lemma SubmissionNeverBlocks<W(!new)>(p: Pool<W>, s: State<W>) returns (e: Event)
    requires Reachable(p, s) && s.caller.Submitting?
    ensures |s.stages| == |p.jobs| && Enabled(p, s, e)
    ensures
      || e.BeginAddJob? || e.HandOverJob? || e.CallWait?
      || (e.SpawnDelivery? && |Next(p, s, e).stages| == |p.jobs| && Enabled(p, Next(p, s, e), HandOverJob))
  {
    ReachableInvariant(p, s);
    if s.handed < s.added {
      e := if s.dispatcher.Receiving? then HandOverJob else SpawnDelivery;
    } else {
      e := if s.added < |p.jobs| then BeginAddJob else CallWait;
    }
  }

  /** A job on a worker can take its next step once the collector runs. */
  lemma ServedJobAdvances<W>(p: Pool<W>, s: State<W>, j: nat) returns (e: Event)
    requires SubmitInvariant(p, s) && CountInvariant(p, s) && s.caller.Collecting?
    requires j < |s.stages| && WorkerOf(s.stages[j]).Some?
    ensures Enabled(p, s, e)
  {
    e := if s.stages[j].Holding? then Receive(j)
         else if s.stages[j].pc < |p.jobs[j]| then Act(j)
         else FinishJob(j);
  }

  /** No deadlock: until Stop was called some step is possible, for the fixed and the dynamic pool. */
  lemma SomeStepEnabled<W(!new)>(p: Pool<W>, s: State<W>) returns (e: Event)
    requires Reachable(p, s) && !s.caller.Stopped?
    ensures |s.stages| == |p.jobs| && Enabled(p, s, e)
  {
    ReachableInvariant(p, s);
    match s.caller
    case Submitting => e := SubmissionNeverBlocks(p, s);
    case Closing => e := ReturnFromWait;
    case Returned => e := Stop;
    case Collecting =>
      if s.waitGroup == 0 {
        e := CloseErrors;
      } else {
        e := UnfinishedJobAdvances(p, s);
      }
  }

  lemma {:induction false} FindUnfinished(stages: seq<Stage>, n: nat) returns (j: nat)
    requires n <= |stages| && FinishedCount(stages, n) != n
    ensures j < n && !stages[j].Finished?
  {
    if !stages[n - 1].Finished? {
      return n - 1;
    }
    j := FindUnfinished(stages, n - 1);
  }

  lemma UnfinishedJobAdvances<W(!new)>(p: Pool<W>, s: State<W>) returns (e: Event)
    requires SubmitInvariant(p, s) && WorkerInvariant(p, s) && CountInvariant(p, s)
    requires s.caller.Collecting? && s.waitGroup != 0
    ensures Enabled(p, s, e)
  {
    var j := FindUnfinished(s.stages, |s.stages|);
    if WorkerOf(s.stages[j]).Some? {
      e := ServedJobAdvances(p, s, j);
    } else if s.stages[j].Received? {
      e := SpawnDelivery;
    } else {
      assert s.stages[j].Delivering?;
      assert s.dispatcher.Spawning? ==> j != s.dispatcher.job;
      var w: WorkerId := 0;
      assert w in s.workers;
      if w in s.offering {
        e := Pair(j, w);
      } else {
        assert Serves(s.stages, w);
        var k: nat :| k < |s.stages| && WorkerOf(s.stages[k]) == Some(w);
        e := ServedJobAdvances(p, s, k);
      }
    }
  }

  function Rank(stage: Stage, length: nat): nat {
    match stage
    case Pending => length + 5
    case Received => length + 4
    case Delivering => length + 3
    case Holding(_) => length + 2
    case Running(_, pc) => if pc <= length then length - pc + 1 else 1
    case Finished => 0
  }

  ghost function TotalRank<W>(jobs: seq<Job<W>>, stages: seq<Stage>, n: nat): nat
    requires n <= |jobs| == |stages|
  {
    if n == 0 then 0 else TotalRank(jobs, stages, n - 1) + Rank(stages[n - 1], |jobs[n - 1]|)
  }

  lemma {:induction false} RankUpdate<W>(jobs: seq<Job<W>>, stages: seq<Stage>, j: nat, stage: Stage, n: nat)
    requires n <= |jobs| == |stages| && j < |jobs|
    ensures TotalRank(jobs, stages[j := stage], n) + (if j < n then Rank(stages[j], |jobs[j]|) else 0)
         == TotalRank(jobs, stages, n) + (if j < n then Rank(stage, |jobs[j]|) else 0)
  {
    if n > 0 {
      RankUpdate(jobs, stages, j, stage, n - 1);
    }
  }

  function CallerRank(c: Caller): nat {
    match c
    case Submitting => 4
    case Collecting => 3
    case Closing => 2
    case Returned => 1
    case Stopped => 0
  }

  ghost function Measure<W>(p: Pool<W>, s: State<W>): int
    requires |s.stages| == |p.jobs|
  {
    TotalRank(p.jobs, s.stages, |p.jobs|) + (|p.jobs| - s.added) + CallerRank(s.caller)
  }

  lemma MeasureIsNatural<W>(p: Pool<W>, s: State<W>)
    requires SubmitInvariant(p, s)
    ensures 0 <= Measure(p, s)
  {
  }

  lemma StageLowersMeasure<W>(p: Pool<W>, s: State<W>, j: nat, stage: Stage, s': State<W>)
    requires |s.stages| == |p.jobs| && j < |p.jobs| && Rank(stage, |p.jobs[j]|) < Rank(s.stages[j], |p.jobs[j]|)
    requires s'.stages == s.stages[j := stage] && s'.added == s.added && s'.caller == s.caller
    ensures Measure(p, s') < Measure(p, s)
  {
    RankUpdate(p.jobs, s.stages, j, stage, |p.jobs|);
  }

  /** Every step lowers the measure, so no run is infinite; with progress, every run that cannot be
      extended has returned from Wait and called Stop. */
  lemma MeasureDecreases<W(!new)>(p: Pool<W>, s: State<W>, e: Event)
    requires SubmitInvariant(p, s) && CountInvariant(p, s) && Enabled(p, s, e)
    ensures 0 <= Measure(p, s)
    ensures |Next(p, s, e).stages| == |p.jobs| && Measure(p, Next(p, s, e)) < Measure(p, s)
  {
    MeasureIsNatural(p, s);
    var s' := Next(p, s, e);
    match e
    case HandOverJob => StageLowersMeasure(p, s, s.handed, Received, s');
    case SpawnDelivery => StageLowersMeasure(p, s, s.dispatcher.job, Delivering, s');
    case Pair(j, w) => StageLowersMeasure(p, s, j, Holding(w), s');
    case Receive(j) => StageLowersMeasure(p, s, j, Running(s.stages[j].w, 0), s');
    case Act(j) => StageLowersMeasure(p, s, j, Running(s.stages[j].worker, s.stages[j].pc + 1), s');
    case FinishJob(j) => StageLowersMeasure(p, s, j, Finished, s');
    case Quit(w) =>
      QuitIsNeverReceived(p, s, w);
      assert false;
    case _ =>
  }

  ghost predicate WaitAhead(c: Caller) {
    c.Submitting? || c.Collecting? || c.Closing?
  }

  lemma StepLowersMeasure<W(!new)>(p: Pool<W>, s: State<W>, e: Event)
    requires Invariant(p, s) && Enabled(p, s, e)
    ensures |Next(p, s, e).stages| == |p.jobs| && 0 <= Measure(p, Next(p, s, e)) < Measure(p, s)
  {
    MeasureDecreases(p, s, e);
    StepPreserves(p, s, e, Next(p, s, e));
    MeasureIsNatural(p, Next(p, s, e));
  }

  lemma CallerMovesOn<W>(p: Pool<W>, s: State<W>, e: Event)
    requires |s.stages| == |p.jobs| && Enabled(p, s, e) && WaitAhead(s.caller)
    ensures WaitAhead(Next(p, s, e).caller) || Next(p, s, e).caller.Returned?
  {
  }

  lemma StepTowardsReturn<W(!new)>(p: Pool<W>, s: State<W>) returns (s': State<W>)
    requires Reachable(p, s) && WaitAhead(s.caller)
    ensures |s.stages| == |p.jobs| == |s'.stages| && Steps(p, s, s') && 0 <= Measure(p, s') < Measure(p, s)
    ensures WaitAhead(s'.caller) || s'.caller.Returned?
  {
    var e := SomeStepEnabled(p, s);
    s' := Next(p, s, e);
    CallerMovesOn(p, s, e);
    ReachableInvariant(p, s);
    StepLowersMeasure(p, s, e);
  }

  /** Wait always returns: every run can be continued to a state in which it has. */
  lemma {:induction false} WaitReturns<W(!new)>(p: Pool<W>, run: seq<State<W>>) returns (longer: seq<State<W>>)
    requires IsRun(p, run) && (WaitAhead(run[|run| - 1].caller) || run[|run| - 1].caller.Returned?)
    ensures IsRun(p, longer) && run <= longer && longer[|longer| - 1].caller.Returned?
    decreases Measure(p, run[|run| - 1])
  {
    if run[|run| - 1].caller.Returned? {
      return run;
    }
    assert Reachable(p, run[|run| - 1]);
    var s' := StepTowardsReturn(p, run[|run| - 1]);
    longer := WaitReturns(p, run + [s']);
  }
}
