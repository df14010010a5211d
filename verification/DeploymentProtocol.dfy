/** The wave scheduler of the deployment engine as a state machine: every goroutine
    interleaving of one component's deployment is a run of it. */
module DeploymentProtocol {
  import opened Digraph
  import opened Entities
  import opened Listings

  /** What is reported for a node. */
  datatype Outcome = Succeeded(entity: ResolvedEntity) | Failed | Excluded | Skipped

  /** One component of the dependency graph with the behaviour of its configs.
      `deployOracle` stands for parameter resolution, rendering and the remote call: it sees
      the entities of the node's dependencies and yields the deployed properties or an error. */
  datatype Component = Component(
    graph: Graph<NodeId>,
    coordinateOf: map<NodeId, Coordinate>,
    skipFlag: set<NodeId>,
    deployOracle: (NodeId, map<NodeId, ResolvedEntity>) -> Option<Properties>
  ) {
    ghost predicate WellFormed() {
      && graph.Valid()
      && graph.Acyclic()
      && graph.nodes <= coordinateOf.Keys
    }

    /** No two nodes share a coordinate. */
    ghost predicate UniqueCoordinates() {
      forall a, b {:trigger coordinateOf[a], coordinateOf[b]} ::
        a in coordinateOf && b in coordinateOf && coordinateOf[a] == coordinateOf[b] ==> a == b
    }

    /** The outcome of handing `n` to the deployment with the given dependency entities. */
    function DeployConfig(n: NodeId, view: map<NodeId, ResolvedEntity>): Outcome
      requires n in coordinateOf
    {
      if n in skipFlag then Excluded
      else match deployOracle(n, view)
        case None => Failed
        case Some(properties) => Succeeded(ResolvedEntity(coordinateOf[n], properties, false))
    }

    /** The entities of the dependencies of `n` that a lookup in `entities` finds. */
    function View(entities: map<Coordinate, ResolvedEntity>, n: NodeId): map<NodeId, ResolvedEntity> {
      map p | p in graph.To(n) && p in coordinateOf && coordinateOf[p] in entities :: entities[coordinateOf[p]]
    }

    // -------------------------------------------------------------------------
    // The sequential reference: outcomes by recursion over dependencies
    // -------------------------------------------------------------------------

    function Verdict(n: NodeId, dependencies: map<NodeId, Outcome>): Outcome
      requires n in coordinateOf
    {
      if exists p :: p in dependencies && !dependencies[p].Succeeded? then Skipped
      else DeployConfig(n, map p | p in dependencies :: dependencies[p].entity)
    }

    /** The outcome of `n` as determined by its dependencies alone. */
    ghost function Spec(n: NodeId): Outcome
      requires WellFormed() && n in graph.nodes
      decreases |graph.Ancestors(n)|
    {
      Verdict(n, map p | p in graph.To(n) ::
        (graph.AncestorsShrink(p, n); SmallerSet(graph.Ancestors(p), graph.Ancestors(n)); Spec(p)))
    }

    lemma SpecUnfolds(n: NodeId) returns (outs: map<NodeId, Outcome>)
      requires WellFormed() && n in graph.nodes
      ensures outs.Keys == graph.To(n)
      ensures forall p :: p in outs ==> outs[p] == Spec(p)
      ensures Spec(n) == Verdict(n, outs)
    {
      outs := map p | p in graph.To(n) :: Spec(p);
    }

    /** Every dependency of `n` succeeds. */
    ghost predicate Ready(n: NodeId)
      requires WellFormed() && n in graph.nodes
    {
      forall p :: p in graph.To(n) ==> Spec(p).Succeeded?
    }

    ghost function DependencyEntities(n: NodeId): map<NodeId, ResolvedEntity>
      requires WellFormed() && n in graph.nodes && Ready(n)
    {
      map p | p in graph.To(n) :: Spec(p).entity
    }

    lemma SpecBlocked(n: NodeId, p: NodeId)
      requires WellFormed() && p in graph.To(n) && !Spec(p).Succeeded?
      ensures Spec(n) == Skipped
    {
      var outs := SpecUnfolds(n);
    }

    lemma SpecReady(n: NodeId)
      requires WellFormed() && n in graph.nodes && Ready(n)
      ensures Spec(n) == DeployConfig(n, DependencyEntities(n))
    {
      var outs := SpecUnfolds(n);
      assert (map p | p in outs :: outs[p].entity) == DependencyEntities(n);
    }

    /** A node that does not succeed makes every node below it skipped. */
    lemma {:induction false} SkipPropagates(a: NodeId, n: NodeId, w: seq<NodeId>)
      requires WellFormed() && n in graph.nodes && a in graph.nodes
      requires graph.WalkFromTo(w, a, n) && !Spec(a).Succeeded?
      ensures Spec(n) == Skipped
      decreases |w|
    {
      var p := w[|w| - 2];
      assert (p, n) in graph.edges;
      if |w| > 2 {
        assert graph.WalkFromTo(w[..|w| - 1], a, p);
        SkipPropagates(a, p, w[..|w| - 1]);
      }
      SpecBlocked(n, p);
    }

    lemma ReadyIffNoBadAncestor(n: NodeId)
      requires WellFormed() && n in graph.nodes
      ensures Ready(n) <==> forall a :: a in graph.Ancestors(n) ==> Spec(a).Succeeded?
      ensures !Ready(n) ==> Spec(n) == Skipped
    {
      forall p | p in graph.To(n) ensures p in graph.Ancestors(n) {
        graph.EdgeReaches(p, n);
      }
      if Ready(n) {
        forall a | a in graph.Ancestors(n) ensures Spec(a).Succeeded? {
          if !Spec(a).Succeeded? {
            var p := graph.ReachesLast(a, n);
            if p != a {
              var w :| graph.WalkFromTo(w, a, p);
              SkipPropagates(a, p, w);
            }
          }
        }
      } else {
        var p :| p in graph.To(n) && !Spec(p).Succeeded?;
        SpecBlocked(n, p);
      }
    }

    /** Skipped exactly when a proper ancestor did not succeed; otherwise the skip flag excludes the
        node; otherwise the oracle decides on the entities of the dependencies. */
    lemma SpecIsAncestorRule(n: NodeId)
      requires WellFormed() && n in graph.nodes
      ensures Spec(n).Skipped? <==> exists a :: a in graph.Ancestors(n) && !Spec(a).Succeeded?
      ensures Spec(n).Excluded? <==> !Spec(n).Skipped? && n in skipFlag
      ensures !Spec(n).Skipped? && n !in skipFlag ==>
        && Ready(n)
        && var r := deployOracle(n, DependencyEntities(n));
           Spec(n) == if r.Some? then Succeeded(ResolvedEntity(coordinateOf[n], r.value, false)) else Failed
    {
      ReadyIffNoBadAncestor(n);
      if Ready(n) {
        SpecReady(n);
      }
    }
  }

  // ---------------------------------------------------------------------------
  // States and steps
  // ---------------------------------------------------------------------------

  datatype State = State(
    graph: Graph<NodeId>,                                   // what is left of the component's graph
    wave: set<NodeId>,                                      // the roots of the current wave
    waiting: set<NodeId>,                                   // goroutines not yet in the deployment call
    running: map<NodeId, map<NodeId, ResolvedEntity>>,      // inside the call, with the entities they see
    entities: map<Coordinate, ResolvedEntity>,
    outcomes: map<NodeId, Outcome>,
    reports: seq<NodeId>,                                   // the order in which outcomes were reported
    attempts: map<NodeId, nat>,                             // the wave in which a node was handed over
    waveNumber: nat,
    errCount: nat
  )

  datatype Event =
    | LaunchWave
    | HandOver(n: NodeId)
    | Finish(n: NodeId, skipped: seq<NodeId>)   // `skipped`: the order in which removals are reported
    | EndWave

  function Init(c: Component): State {
    State(c.graph, {}, {}, map[], map[], map[], [], map[], 0, 0)
  }

  ghost predicate Enabled(c: Component, s: State, e: Event) {
    match e
    case LaunchWave => s.wave == {} && s.graph.nodes != {} && s.graph.Roots() != {}
    case HandOver(n) => n in s.waiting
    case Finish(n, skipped) =>
      && n in s.running && n in c.coordinateOf
      && Lists(skipped, if c.DeployConfig(n, s.running[n]).Succeeded? then {} else s.graph.Descendants(n))
    case EndWave => s.wave != {} && s.waiting == {} && s.running == map[]
  }

  ghost function AfterLaunch(s: State): State {
    s.(wave := s.graph.Roots(), waiting := s.graph.Roots())
  }

  ghost function AfterHandOver(c: Component, s: State, n: NodeId): State {
    s.(waiting := s.waiting - {n},
       running := s.running[n := c.View(s.entities, n)],
       attempts := s.attempts[n := s.waveNumber])
  }

  ghost function AfterSuccess(s: State, n: NodeId, o: Outcome): State
    requires o.Succeeded?
  {
    s.(running := s.running - {n},
       entities := s.entities[o.entity.coordinate := o.entity],
       outcomes := s.outcomes[n := o],
       reports := s.reports + [n])
  }

  ghost function AfterFailure(s: State, n: NodeId, o: Outcome, removed: set<NodeId>, skipped: seq<NodeId>): State {
    s.(running := s.running - {n},
       graph := s.graph.Remove(removed),
       outcomes := (s.outcomes + map d | d in removed :: Skipped)[n := o],
       reports := s.reports + skipped + [n],
       errCount := s.errCount + if o.Failed? then 1 else 0)
  }

  ghost function AfterEndWave(s: State): State {
    s.(graph := s.graph.Remove(s.wave), wave := {}, waveNumber := s.waveNumber + 1)
  }

  ghost function Next(c: Component, s: State, e: Event): State
    requires Enabled(c, s, e)
  {
    match e
    case LaunchWave => AfterLaunch(s)
    case HandOver(n) => AfterHandOver(c, s, n)
    case Finish(n, skipped) =>
      var outcome := c.DeployConfig(n, s.running[n]);
      if outcome.Succeeded? then AfterSuccess(s, n, outcome)
      else AfterFailure(s, n, outcome, s.graph.Descendants(n), skipped)
    case EndWave => AfterEndWave(s)
  }

  ghost predicate Steps(c: Component, s: State, s': State) {
    exists e :: Enabled(c, s, e) && s' == Next(c, s, e)
  }

  ghost predicate IsRun(c: Component, run: seq<State>) {
    && |run| > 0
    && run[0] == Init(c)
    && forall i :: 0 <= i < |run| - 1 ==> Steps(c, run[i], run[i + 1])
  }

  /** The loop over waves has ended. */
  predicate Finished(s: State) {
    s.graph.nodes == {} && s.wave == {}
  }

  // ---------------------------------------------------------------------------
  // The invariant
  // ---------------------------------------------------------------------------

  /** The live graph is the component minus finished nodes; the wave is its set of roots. */
  ghost predicate GraphInvariant(c: Component, s: State) {
    && s.graph.nodes <= c.graph.nodes
    && (forall u, v :: (u, v) in s.graph.edges <==> (u, v) in c.graph.edges && u in s.graph.nodes && v in s.graph.nodes)
    && (s.wave != {} ==> s.wave == s.graph.Roots())
    && s.waiting <= s.wave && s.running.Keys <= s.wave && s.waiting !! s.running.Keys
  }

  /** Exactly the removed and completed nodes have an outcome, and it is the reference outcome. */
  ghost predicate OutcomeInvariant(c: Component, s: State)
    requires c.WellFormed()
  {
    && s.outcomes.Keys == (c.graph.nodes - s.graph.nodes) + (s.wave - s.waiting - s.running.Keys)
    && s.outcomes.Keys <= c.graph.nodes
    && (forall n :: n in s.outcomes ==> s.outcomes[n] == c.Spec(n))
    && (forall p, m :: (p, m) in c.graph.edges && m in s.graph.nodes && p in s.outcomes ==> s.outcomes[p].Succeeded?)
  }

  /** The entity map holds the entity of every succeeded node, and nothing else. */
  ghost predicate EntityInvariant(c: Component, s: State)
    requires c.WellFormed()
  {
    && (forall n :: n in s.outcomes && n in c.coordinateOf && s.outcomes[n].Succeeded? ==>
          c.coordinateOf[n] in s.entities && s.entities[c.coordinateOf[n]] == s.outcomes[n].entity)
    && (forall k :: k in s.entities ==> SucceededAt(c, s.outcomes, k))
  }

  ghost predicate SucceededAt(c: Component, outcomes: map<NodeId, Outcome>, k: Coordinate) {
    exists n :: n in outcomes && n in c.coordinateOf && outcomes[n].Succeeded? && c.coordinateOf[n] == k
  }

  /** A node inside the deployment call sees what a lookup would find now. */
  ghost predicate ViewInvariant(c: Component, s: State) {
    forall n :: n in s.running ==> s.running[n] == c.View(s.entities, n)
  }

  ghost function FailedNodes(outcomes: map<NodeId, Outcome>): set<NodeId> {
    set n | n in outcomes && outcomes[n].Failed?
  }

  ghost function SucceededNodes(outcomes: map<NodeId, Outcome>): set<NodeId> {
    set n | n in outcomes && outcomes[n].Succeeded?
  }

  ghost function ExcludedNodes(outcomes: map<NodeId, Outcome>): set<NodeId> {
    set n | n in outcomes && outcomes[n].Excluded?
  }

  ghost function SkippedNodes(outcomes: map<NodeId, Outcome>): set<NodeId> {
    set n | n in outcomes && outcomes[n].Skipped?
  }

  /** Every outcome is reported once and every failure is counted once. */
  ghost predicate CountInvariant(s: State) {
    && Lists(s.reports, s.outcomes.Keys)
    && s.errCount == |FailedNodes(s.outcomes)|
  }

  /** Nodes are attempted in the wave given by their longest dependency walk. */
  ghost predicate TimingInvariant(c: Component, s: State) {
    && (forall n :: n in s.attempts ==> c.graph.LongestWalk(n, s.attempts[n]))
    && (forall n :: n in s.attempts ==> s.attempts[n] <= s.waveNumber)
    && (forall n :: n in s.attempts && n !in s.graph.nodes ==> s.attempts[n] < s.waveNumber)
    && (forall n :: n in s.outcomes && !s.outcomes[n].Skipped? ==> n in s.attempts)
    && (forall n :: n in s.attempts ==> n in s.running || (n in s.outcomes && !s.outcomes[n].Skipped?))
    && (forall n :: n in s.running ==> n in s.attempts)
    && (forall n :: n in s.graph.nodes ==> c.graph.WalkEndsAt(n, s.waveNumber))
  }

  ghost predicate Invariant(c: Component, s: State)
    requires c.WellFormed()
  {
    && GraphInvariant(c, s) && OutcomeInvariant(c, s) && EntityInvariant(c, s) && ViewInvariant(c, s)
    && CountInvariant(s) && TimingInvariant(c, s)
  }
}
