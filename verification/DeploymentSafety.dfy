/** What every interleaving of a component's deployment keeps, and what every complete one yields. */
module DeploymentSafety {
  import opened Digraph
  import opened Entities
  import opened Listings
  import opened DeploymentProtocol

  ghost predicate Deployable(c: Component) {
    c.WellFormed() && c.UniqueCoordinates()
  }

  lemma InitInvariant(c: Component)
    requires Deployable(c)
    ensures Invariant(c, Init(c))
  {
    forall n | n in c.graph.nodes ensures c.graph.WalkEndsAt(n, 0) {
      c.graph.WalkOfZero(n);
    }
    assert FailedNodes(map[]) == {};
    assert Init(c).graph == c.graph.Remove({});
  }

  /** The dependencies of a node in the wave are finished and have all succeeded. */
  lemma WaveNodeIsReady(c: Component, s: State, n: NodeId)
    requires Deployable(c) && GraphInvariant(c, s) && OutcomeInvariant(c, s) && n in s.wave
    ensures forall p :: p in c.graph.To(n) ==> p in s.outcomes && p !in s.graph.nodes && s.outcomes[p].Succeeded?
    ensures c.Ready(n)
  {
    assert s.graph.To(n) == {};
    forall p | p in c.graph.To(n)
      ensures p in s.outcomes && p !in s.graph.nodes && s.outcomes[p].Succeeded?
    {
      assert p in s.graph.nodes ==> p in s.graph.To(n);
    }
  }

  /** A node in the wave looks up exactly its dependencies' entities, so it gets the reference outcome. */
  lemma WaveNodeView(c: Component, s: State, n: NodeId)
    requires Deployable(c) && GraphInvariant(c, s) && OutcomeInvariant(c, s) && EntityInvariant(c, s) && n in s.wave
    ensures c.Ready(n) && c.View(s.entities, n) == c.DependencyEntities(n)
    ensures c.Spec(n) == c.DeployConfig(n, c.View(s.entities, n))
  {
    WaveNodeIsReady(c, s, n);
    ViewOfReady(c, s.entities, n);
    c.SpecReady(n);
  }

  lemma ViewOfReady(c: Component, entities: map<Coordinate, ResolvedEntity>, n: NodeId)
    requires c.WellFormed() && n in c.graph.nodes && c.Ready(n)
    requires forall p :: p in c.graph.To(n) ==>
      c.coordinateOf[p] in entities && entities[c.coordinateOf[p]] == c.Spec(p).entity
    ensures c.View(entities, n) == c.DependencyEntities(n)
  {
  }

  lemma EntitiesUnchanged(c: Component, s: State, s': State)
    requires c.WellFormed() && EntityInvariant(c, s) && s'.outcomes == s.outcomes && s'.entities == s.entities
    ensures EntityInvariant(c, s')
  {
    forall k | k in s'.entities ensures SucceededAt(c, s'.outcomes, k) {
      assert SucceededAt(c, s.outcomes, k);
    }
  }

  lemma CountsUnchanged(s: State, s': State)
    requires CountInvariant(s) && s'.outcomes == s.outcomes && s'.reports == s.reports && s'.errCount == s.errCount
    ensures CountInvariant(s')
  {
  }

  lemma OutcomesAfterLaunch(c: Component, s: State, s': State)
    requires Deployable(c) && OutcomeInvariant(c, s) && s.wave == {} && s'.wave == s'.waiting
    requires s'.graph == s.graph && s'.running == s.running && s'.outcomes == s.outcomes
    ensures OutcomeInvariant(c, s')
  {
    assert s.wave - s.waiting - s.running.Keys == {} == s'.wave - s'.waiting - s'.running.Keys;
  }

  lemma TimingUnchanged(c: Component, s: State, s': State)
    requires TimingInvariant(c, s)
    requires s'.graph == s.graph && s'.running == s.running && s'.outcomes == s.outcomes
    requires s'.attempts == s.attempts && s'.waveNumber == s.waveNumber
    ensures TimingInvariant(c, s')
  {
  }

  lemma PreservedByLaunch(c: Component, s: State, s': State)
    requires Deployable(c) && Invariant(c, s) && Enabled(c, s, LaunchWave) && s' == AfterLaunch(s)
    ensures Invariant(c, s')
  {
    OutcomesAfterLaunch(c, s, s');
    EntitiesUnchanged(c, s, s');
    CountsUnchanged(s, s');
    TimingUnchanged(c, s, s');
  }

  /** A wave node's longest dependency walk has as many edges as waves have passed. */
  lemma AttemptedAtDepth(c: Component, s: State, n: NodeId)
    requires Deployable(c) && GraphInvariant(c, s) && OutcomeInvariant(c, s) && TimingInvariant(c, s) && n in s.wave
    ensures c.graph.LongestWalk(n, s.waveNumber)
  {
    WaveNodeIsReady(c, s, n);
    forall j: nat | c.graph.WalkEndsAt(n, j) ensures j <= s.waveNumber {
      if j > 0 {
        var p := c.graph.WalkShrinks(n, j - 1);
        assert p in c.graph.To(n);
        assert s.attempts[p] < s.waveNumber;
      }
    }
  }

  lemma TimingAfterHandOver(c: Component, s: State, n: NodeId, s': State)
    requires TimingInvariant(c, s) && c.graph.LongestWalk(n, s.waveNumber) && n in s.graph.nodes
    requires s' == AfterHandOver(c, s, n)
    ensures TimingInvariant(c, s')
  {
  }

  lemma ViewsAfterHandOver(c: Component, s: State, n: NodeId, s': State)
    requires ViewInvariant(c, s) && s' == AfterHandOver(c, s, n)
    ensures ViewInvariant(c, s')
  {
  }

  lemma OutcomesAfterHandOver(c: Component, s: State, n: NodeId, s': State)
    requires Deployable(c) && OutcomeInvariant(c, s) && n in s.waiting && n !in s.running
    requires s'.graph == s.graph && s'.wave == s.wave && s'.outcomes == s.outcomes
    requires s'.waiting == s.waiting - {n} && s'.running.Keys == s.running.Keys + {n}
    ensures OutcomeInvariant(c, s')
  {
    assert s.waiting + s.running.Keys == s'.waiting + s'.running.Keys;
  }

  lemma GraphAfterHandOver(c: Component, s: State, n: NodeId, s': State)
    requires GraphInvariant(c, s) && n in s.waiting && s' == AfterHandOver(c, s, n)
    ensures GraphInvariant(c, s') && s'.running.Keys == s.running.Keys + {n}
  {
  }

  lemma PreservedByHandOver(c: Component, s: State, n: NodeId, s': State)
    requires Deployable(c) && Invariant(c, s) && n in s.waiting && s' == AfterHandOver(c, s, n)
    ensures Invariant(c, s')
  {
    AttemptedAtDepth(c, s, n);
    GraphAfterHandOver(c, s, n, s');
    TimingAfterHandOver(c, s, n, s');
    OutcomesAfterHandOver(c, s, n, s');
    EntitiesUnchanged(c, s, s');
    ViewsAfterHandOver(c, s, n, s');
    CountsUnchanged(s, s');
  }

  /** Storing the entity of one wave node does not change what another one can look up. */
  lemma ViewIsStable(c: Component, s: State, n: NodeId, m: NodeId, e: ResolvedEntity)
    requires Deployable(c) && GraphInvariant(c, s) && OutcomeInvariant(c, s)
    requires n in s.wave && m in s.wave && e.coordinate == c.coordinateOf[m]
    ensures c.View(s.entities[e.coordinate := e], n) == c.View(s.entities, n)
  {
    WaveNodeIsReady(c, s, n);
    var entities' := s.entities[e.coordinate := e];
    assert m in s.graph.nodes && m in c.coordinateOf;
    forall p | p in c.graph.To(n) ensures c.coordinateOf[p] != e.coordinate {
      assert p !in s.graph.nodes;
    }
    ViewDependsOnDependencies(c, s.entities, entities', n);
  }

  lemma ViewDependsOnDependencies(c: Component, a: map<Coordinate, ResolvedEntity>, b: map<Coordinate, ResolvedEntity>,
                                  n: NodeId)
    requires forall p :: p in c.graph.To(n) && p in c.coordinateOf ==>
      (c.coordinateOf[p] in a <==> c.coordinateOf[p] in b)
    requires forall p ::
      p in c.graph.To(n) && p in c.coordinateOf && c.coordinateOf[p] in a && c.coordinateOf[p] in b ==>
      a[c.coordinateOf[p]] == b[c.coordinateOf[p]]
    ensures c.View(a, n) == c.View(b, n)
  {
  }

  lemma OutcomesAfterSuccess(c: Component, s: State, n: NodeId, s': State)
    requires Deployable(c) && GraphInvariant(c, s) && OutcomeInvariant(c, s)
    requires n in s.running && c.Spec(n).Succeeded?
    requires s'.graph == s.graph && s'.wave == s.wave && s'.waiting == s.waiting && s'.running == s.running - {n}
    requires s'.outcomes == s.outcomes[n := c.Spec(n)]
    ensures GraphInvariant(c, s') && OutcomeInvariant(c, s')
  {
    assert s'.outcomes.Keys == s.outcomes.Keys + {n};
  }

  lemma EntitiesAfterSuccess(c: Component, s: State, n: NodeId, s': State)
    requires Deployable(c) && EntityInvariant(c, s)
    requires n in c.graph.nodes && n !in s.outcomes
    requires c.Spec(n).Succeeded? && c.Spec(n).entity.coordinate == c.coordinateOf[n]
    requires s'.outcomes == s.outcomes[n := c.Spec(n)]
    requires s'.entities == s.entities[c.coordinateOf[n] := c.Spec(n).entity]
    ensures EntityInvariant(c, s')
  {
    forall k | k in s'.entities ensures SucceededAt(c, s'.outcomes, k) {
      if k == c.coordinateOf[n] {
        assert n in s'.outcomes;
      } else {
        assert SucceededAt(c, s.outcomes, k);
        var m :| m in s.outcomes && m in c.coordinateOf && s.outcomes[m].Succeeded? && c.coordinateOf[m] == k;
        assert m in s'.outcomes && s'.outcomes[m] == s.outcomes[m];
      }
    }
  }

  lemma ViewsAfterSuccess(c: Component, s: State, n: NodeId, e: ResolvedEntity, s': State)
    requires Deployable(c) && GraphInvariant(c, s) && OutcomeInvariant(c, s) && ViewInvariant(c, s)
    requires n in s.running && e.coordinate == c.coordinateOf[n]
    requires s'.running == s.running - {n} && s'.entities == s.entities[c.coordinateOf[n] := e]
    ensures ViewInvariant(c, s')
  {
    forall m | m in s'.running ensures s'.running[m] == c.View(s'.entities, m) {
      ViewIsStable(c, s, m, n, e);
    }
  }

  lemma CountsAfterSuccess(s: State, n: NodeId, o: Outcome, s': State)
    requires CountInvariant(s) && n !in s.outcomes && o.Succeeded?
    requires s'.outcomes == s.outcomes[n := o] && s'.reports == s.reports + [n] && s'.errCount == s.errCount
    ensures CountInvariant(s')
  {
    ListsAppend(s.reports, s.outcomes.Keys, [n], {n});
    assert s'.outcomes.Keys == s.outcomes.Keys + {n};
    assert FailedNodes(s'.outcomes) == FailedNodes(s.outcomes);
  }

  lemma TimingAfterSuccess(c: Component, s: State, n: NodeId, o: Outcome, s': State)
    requires TimingInvariant(c, s) && n in s.running && !o.Skipped?
    requires s'.outcomes == s.outcomes[n := o] && s'.attempts == s.attempts && s'.waveNumber == s.waveNumber
    requires s'.running == s.running - {n} && s'.graph == s.graph
    ensures TimingInvariant(c, s')
  {
  }

  lemma NextOnSuccess(c: Component, s: State, n: NodeId, skipped: seq<NodeId>)
    requires Enabled(c, s, Finish(n, skipped)) && c.DeployConfig(n, s.running[n]).Succeeded?
    ensures Next(c, s, Finish(n, skipped)) == AfterSuccess(s, n, c.DeployConfig(n, s.running[n]))
  {
  }

  lemma PreservedBySuccess(c: Component, s: State, n: NodeId, o: Outcome, s': State)
    requires Deployable(c) && Invariant(c, s) && n in s.running
    requires o == c.Spec(n) && o.Succeeded? && o.entity.coordinate == c.coordinateOf[n]
    requires s' == AfterSuccess(s, n, o)
    ensures Invariant(c, s')
  {
    OutcomesAfterSuccess(c, s, n, s');
    EntitiesAfterSuccess(c, s, n, s');
    ViewsAfterSuccess(c, s, n, o.entity, s');
    CountsAfterSuccess(s, n, o, s');
    TimingAfterSuccess(c, s, n, o, s');
  }

  /** A running node finishes with its reference outcome. */
  lemma RunningOutcome(c: Component, s: State, n: NodeId)
    requires Deployable(c) && GraphInvariant(c, s) && OutcomeInvariant(c, s) && EntityInvariant(c, s)
    requires ViewInvariant(c, s)
    requires n in s.running
    ensures n in c.graph.nodes && n !in s.outcomes
    ensures c.Spec(n) == c.DeployConfig(n, s.running[n])
  {
    WaveNodeView(c, s, n);
  }

  /** The nodes below a wave node that does not succeed: outside the wave and skipped by the reference. */
  lemma RemovedNodeIsSkipped(c: Component, s: State, n: NodeId, d: NodeId)
    requires Deployable(c) && GraphInvariant(c, s)
    requires n in s.wave && !c.Spec(n).Succeeded? && d in s.graph.Descendants(n)
    ensures d !in s.wave && c.Spec(d) == Skipped
  {
    var p := s.graph.ReachesLast(n, d);
    assert p in s.graph.To(d);
    c.graph.ReachesMonotone(s.graph, n, d);
    var w :| c.graph.WalkFromTo(w, n, d);
    c.SkipPropagates(n, d, w);
  }

  lemma RemovedIsClosed(c: Component, s: State, n: NodeId, p: NodeId, m: NodeId)
    requires Deployable(c) && GraphInvariant(c, s) && n in s.wave
    requires (p, m) in c.graph.edges && m in s.graph.nodes && (p == n || p in s.graph.Descendants(n))
    ensures m in s.graph.Descendants(n)
  {
    assert (p, m) in s.graph.edges;
    s.graph.EdgeReaches(p, m);
    if p != n {
      s.graph.ReachesTransitive(n, p, m);
    }
  }

  /** Removing everything below a node adds no root and loses none. */
  lemma RootsAfterRemove(g: Graph<NodeId>, n: NodeId)
    requires g.Valid()
    requires g.Descendants(n) !! g.Roots()
    ensures g.Remove(g.Descendants(n)).Roots() == g.Roots()
  {
    var removed := g.Descendants(n);
    var left := g.Remove(removed);
    forall m | m in left.nodes ensures g.To(m) == left.To(m) {
      forall p | p in g.To(m) ensures p in left.To(m) {
        g.EdgeReaches(p, m);
        if p in removed {
          g.ReachesTransitive(n, p, m);
        }
      }
    }
  }

  lemma GraphAfterFailure(c: Component, s: State, n: NodeId, s': State)
    requires Deployable(c) && GraphInvariant(c, s) && n in s.running && !c.Spec(n).Succeeded?
    requires s'.graph == s.graph.Remove(s.graph.Descendants(n))
    requires s'.wave == s.wave && s'.waiting == s.waiting && s'.running == s.running - {n}
    ensures GraphInvariant(c, s')
  {
    forall d | d in s.graph.Descendants(n) ensures d !in s.wave {
      RemovedNodeIsSkipped(c, s, n, d);
    }
    RootsAfterRemove(s.graph, n);
  }

  lemma RemovedAreUnreported(c: Component, s: State, n: NodeId, removed: set<NodeId>)
    requires Deployable(c) && GraphInvariant(c, s) && OutcomeInvariant(c, s)
    requires n in s.wave && !c.Spec(n).Succeeded? && removed == s.graph.Descendants(n)
    ensures forall d :: d in removed ==> d !in s.wave && d !in s.outcomes && d in c.graph.nodes && c.Spec(d) == Skipped
  {
    forall d | d in removed
      ensures d !in s.wave && d !in s.outcomes && d in c.graph.nodes && c.Spec(d) == Skipped
    {
      RemovedNodeIsSkipped(c, s, n, d);
      assert d in s.graph.nodes;
    }
  }

  lemma FrontierAfterFailure(c: Component, s: State, n: NodeId, removed: set<NodeId>, p: NodeId, m: NodeId)
    requires Deployable(c) && GraphInvariant(c, s) && OutcomeInvariant(c, s)
    requires n in s.wave && removed == s.graph.Descendants(n)
    requires (p, m) in c.graph.edges && m in s.graph.nodes - removed && (p in s.outcomes || p in removed || p == n)
    ensures p in s.outcomes && s.outcomes[p].Succeeded?
  {
    if p == n || p in removed {
      RemovedIsClosed(c, s, n, p, m);
      assert false;
    }
  }

  lemma AccountedAfterFailure(all: set<NodeId>, live: set<NodeId>, wave: set<NodeId>, waiting: set<NodeId>,
                              running: set<NodeId>, removed: set<NodeId>, n: NodeId)
    requires live <= all && wave <= live && waiting <= wave && running <= wave && waiting !! running
    requires n in running && removed <= live && removed !! wave
    ensures (all - live) + (wave - waiting - running) + removed + {n}
         == (all - (live - removed)) + (wave - waiting - (running - {n}))
  {
  }

  lemma OutcomesAfterFailure(c: Component, s: State, n: NodeId, removed: set<NodeId>, s': State)
    requires Deployable(c) && GraphInvariant(c, s) && OutcomeInvariant(c, s)
    requires n in s.running && !c.Spec(n).Succeeded?
    requires removed == s.graph.Descendants(n) && removed !! s.wave && n !in s.outcomes
    requires forall d :: d in removed ==> d !in s.wave && d !in s.outcomes && d in c.graph.nodes && c.Spec(d) == Skipped
    requires s'.graph.nodes == s.graph.nodes - removed
    requires s'.wave == s.wave && s'.waiting == s.waiting && s'.running == s.running - {n}
    requires s'.outcomes == (s.outcomes + map d | d in removed :: Skipped)[n := c.Spec(n)]
    ensures OutcomeInvariant(c, s')
  {
    FailedAfterFailure(s.outcomes, n, c.Spec(n), removed);
    AccountedAfterFailure(c.graph.nodes, s.graph.nodes, s.wave, s.waiting, s.running.Keys, removed, n);
    assert s'.outcomes.Keys == s.outcomes.Keys + removed + {n};
    assert s'.running.Keys == s.running.Keys - {n};
    forall m | m in s'.outcomes ensures s'.outcomes[m] == c.Spec(m) {
      assert m == n || m in removed || m in s.outcomes;
    }
    forall p, m | (p, m) in c.graph.edges && m in s'.graph.nodes && p in s'.outcomes ensures s'.outcomes[p].Succeeded? {
      FrontierAfterFailure(c, s, n, removed, p, m);
      assert p != n;
    }
  }

  lemma EntitiesAfterFailure(c: Component, s: State, n: NodeId, removed: set<NodeId>, s': State)
    requires Deployable(c) && EntityInvariant(c, s)
    requires n !in s.outcomes && removed !! s.outcomes.Keys && n in c.graph.nodes && !c.Spec(n).Succeeded?
    requires s'.entities == s.entities && s'.running == s.running - {n}
    requires s'.outcomes == (s.outcomes + map d | d in removed :: Skipped)[n := c.Spec(n)]
    ensures EntityInvariant(c, s')
  {
    forall k | k in s'.entities ensures SucceededAt(c, s'.outcomes, k) {
      assert SucceededAt(c, s.outcomes, k);
      var m :| m in s.outcomes && m in c.coordinateOf && s.outcomes[m].Succeeded? && c.coordinateOf[m] == k;
      assert m in s'.outcomes;
    }
  }

  lemma FailedAfterFailure(before: map<NodeId, Outcome>, n: NodeId, o: Outcome, removed: set<NodeId>)
    requires n !in before && removed !! before.Keys && n !in removed
    ensures FailedNodes((before + map d | d in removed :: Skipped)[n := o])
         == FailedNodes(before) + if o.Failed? then {n} else {}
    ensures ((before + map d | d in removed :: Skipped)[n := o]).Keys == before.Keys + removed + {n}
  {
  }

  lemma ReportsAfterFailure(reports: seq<NodeId>, keys: set<NodeId>, skipped: seq<NodeId>, removed: set<NodeId>,
                            n: NodeId)
    requires Lists(reports, keys) && Lists(skipped, removed) && keys !! removed && n !in keys && n !in removed
    ensures Lists(reports + skipped + [n], keys + removed + {n})
  {
    ListsAppend(reports, keys, skipped, removed);
    ListsAppend(reports + skipped, keys + removed, [n], {n});
  }

  lemma CountsAfterFailure(s: State, n: NodeId, o: Outcome, removed: set<NodeId>, skipped: seq<NodeId>, s': State)
    requires CountInvariant(s) && n !in s.outcomes && removed !! s.outcomes.Keys && n !in removed
    requires Lists(skipped, removed) && !o.Succeeded?
    requires s'.outcomes == (s.outcomes + map d | d in removed :: Skipped)[n := o]
    requires s'.reports == s.reports + skipped + [n]
    requires s'.errCount == s.errCount + if o.Failed? then 1 else 0
    ensures CountInvariant(s')
  {
    ReportsAfterFailure(s.reports, s.outcomes.Keys, skipped, removed, n);
    FailedAfterFailure(s.outcomes, n, o, removed);
  }

  lemma TimingAfterFailure(c: Component, s: State, n: NodeId, o: Outcome, removed: set<NodeId>, s': State)
    requires TimingInvariant(c, s) && n in s.running && n !in removed && removed !! s.outcomes.Keys && !o.Skipped?
    requires removed !! s.running.Keys
    requires s'.outcomes == (s.outcomes + map d | d in removed :: Skipped)[n := o]
    requires s'.attempts == s.attempts && s'.waveNumber == s.waveNumber && s'.running == s.running - {n}
    requires s'.graph.nodes == s.graph.nodes - removed
    ensures TimingInvariant(c, s')
  {
  }

  lemma NextOnFailure(c: Component, s: State, n: NodeId, skipped: seq<NodeId>)
    requires Enabled(c, s, Finish(n, skipped)) && !c.DeployConfig(n, s.running[n]).Succeeded?
    ensures Lists(skipped, s.graph.Descendants(n))
    ensures Next(c, s, Finish(n, skipped)) ==
      AfterFailure(s, n, c.DeployConfig(n, s.running[n]), s.graph.Descendants(n), skipped)
  {
  }

  lemma PreservedByFailure(c: Component, s: State, n: NodeId, o: Outcome, removed: set<NodeId>, skipped: seq<NodeId>,
                           s': State)
    requires Deployable(c) && Invariant(c, s) && n in s.running && n in c.graph.nodes && n !in s.outcomes
    requires o == c.Spec(n) && !o.Succeeded? && !o.Skipped?
    requires removed == s.graph.Descendants(n) && Lists(skipped, removed)
    requires s' == AfterFailure(s, n, o, removed, skipped)
    ensures Invariant(c, s')
  {
    RemovedAreUnreported(c, s, n, removed);
    GraphAfterFailure(c, s, n, s');
    OutcomesAfterFailure(c, s, n, removed, s');
    EntitiesAfterFailure(c, s, n, removed, s');
    CountsAfterFailure(s, n, o, removed, skipped, s');
    TimingAfterFailure(c, s, n, o, removed, s');
  }

  /** A node that outlives the wave has a dependency in it, so its walks are longer. */
  lemma RemainingNodeIsDeeper(c: Component, s: State, n: NodeId)
    requires GraphInvariant(c, s) && TimingInvariant(c, s) && s.wave != {} && n in s.graph.nodes - s.wave
    ensures c.graph.WalkEndsAt(n, s.waveNumber + 1)
  {
    assert n in s.graph.nodes && n !in s.graph.Roots();
    var p :| p in s.graph.To(n);
    c.graph.WalkExtends(p, n, s.waveNumber);
  }

  lemma TimingAfterEndWave(c: Component, s: State, s': State)
    requires GraphInvariant(c, s) && TimingInvariant(c, s) && s.wave != {} && s.running == map[]
    requires s' == AfterEndWave(s)
    ensures TimingInvariant(c, s')
  {
    forall n | n in s.graph.nodes - s.wave ensures c.graph.WalkEndsAt(n, s.waveNumber + 1) {
      RemainingNodeIsDeeper(c, s, n);
    }
  }

  lemma OutcomesAfterEndWave(c: Component, s: State, s': State)
    requires Deployable(c) && GraphInvariant(c, s) && OutcomeInvariant(c, s)
    requires s.waiting == {} && s.running == map[] && s' == AfterEndWave(s)
    ensures GraphInvariant(c, s') && OutcomeInvariant(c, s')
  {
    assert s'.outcomes.Keys == (c.graph.nodes - s'.graph.nodes) + (s'.wave - s'.waiting - s'.running.Keys);
  }

  lemma PreservedByEndWave(c: Component, s: State, s': State)
    requires Deployable(c) && Invariant(c, s) && Enabled(c, s, EndWave) && s' == AfterEndWave(s)
    ensures Invariant(c, s')
  {
    OutcomesAfterEndWave(c, s, s');
    TimingAfterEndWave(c, s, s');
    EntitiesUnchanged(c, s, s');
    CountsUnchanged(s, s');
  }

  lemma DeployConfigKinds(c: Component, n: NodeId, view: map<NodeId, ResolvedEntity>)
    requires n in c.coordinateOf
    ensures !c.DeployConfig(n, view).Skipped?
    ensures c.DeployConfig(n, view).Succeeded? ==> c.DeployConfig(n, view).entity.coordinate == c.coordinateOf[n]
  {
  }

  lemma PreservedByFinish(c: Component, s: State, n: NodeId, skipped: seq<NodeId>, o: Outcome, s': State)
    requires Deployable(c) && Invariant(c, s) && n in s.running && n in c.coordinateOf
    requires o == c.DeployConfig(n, s.running[n])
    requires o.Succeeded? ==> s' == AfterSuccess(s, n, o)
    requires !o.Succeeded? ==>
      Lists(skipped, s.graph.Descendants(n)) && s' == AfterFailure(s, n, o, s.graph.Descendants(n), skipped)
    ensures Invariant(c, s')
  {
    RunningOutcome(c, s, n);
    DeployConfigKinds(c, n, s.running[n]);
    if o.Succeeded? {
      PreservedBySuccess(c, s, n, o, s');
    } else {
      PreservedByFailure(c, s, n, o, s.graph.Descendants(n), skipped, s');
    }
  }

  /** Every step keeps the invariant. */
  lemma StepPreserves(c: Component, s: State, e: Event, s': State)
    requires Deployable(c) && Invariant(c, s) && Enabled(c, s, e) && s' == Next(c, s, e)
    ensures Invariant(c, s')
  {
    match e
    case LaunchWave => PreservedByLaunch(c, s, s');
    case HandOver(n) => PreservedByHandOver(c, s, n, s');
    case Finish(n, skipped) => PreservedByFinish(c, s, n, skipped, c.DeployConfig(n, s.running[n]), s');
    case EndWave => PreservedByEndWave(c, s, s');
  }

  lemma {:induction false} RunInvariant(c: Component, run: seq<State>, i: nat)
    requires Deployable(c) && IsRun(c, run) && i < |run|
    ensures Invariant(c, run[i])
  {
    if i == 0 {
      InitInvariant(c);
    } else {
      RunInvariant(c, run, i - 1);
      assert Steps(c, run[i - 1], run[(i - 1) + 1]);
      var e :| Enabled(c, run[i - 1], e) && run[i] == Next(c, run[i - 1], e);
      StepPreserves(c, run[i - 1], e, run[i]);
    }
  }

  // ---------------------------------------------------------------------------
  // Theorems about every run
  // ---------------------------------------------------------------------------

  ghost predicate Reachable(c: Component, s: State) {
    exists run :: IsRun(c, run) && run[|run| - 1] == s
  }

  lemma ReachableInvariant(c: Component, s: State)
    requires Deployable(c) && Reachable(c, s)
    ensures Invariant(c, s)
  {
    var run :| IsRun(c, run) && run[|run| - 1] == s;
    RunInvariant(c, run, |run| - 1);
  }

  /** Safety: a config enters the deployment call only after every dependency it has in the original
      component succeeded and its entity is in the map, and throughout the call it sees exactly those. */
  lemma HandedOverOnlyAfterDependencies(c: Component, s: State, n: NodeId, p: NodeId)
    requires Deployable(c) && Reachable(c, s)
    requires n in s.waiting || n in s.running
    requires (p, n) in c.graph.edges
    ensures p in s.outcomes && s.outcomes[p].Succeeded? && s.outcomes[p] == c.Spec(p)
    ensures c.coordinateOf[p] in s.entities && s.entities[c.coordinateOf[p]] == s.outcomes[p].entity
    ensures n in s.running ==> p in s.running[n] && s.running[n][p] == s.outcomes[p].entity
  {
    ReachableInvariant(c, s);
    assert n in s.wave;
    WaveNodeIsReady(c, s, n);
    assert p in c.graph.To(n);
  }

  /** Confluence: a finished run gives every node its reference outcome, whatever the interleaving;
      each outcome is reported once and the error count is the number of failed nodes. */
  lemma FinishedRunIsReference(c: Component, s: State)
    requires Deployable(c) && Reachable(c, s) && Finished(s)
    ensures s.outcomes == map n | n in c.graph.nodes :: c.Spec(n)
    ensures Lists(s.reports, c.graph.nodes) && |s.reports| == |c.graph.nodes|
    ensures s.errCount == |set n | n in c.graph.nodes && c.Spec(n).Failed?|
  {
    ReachableInvariant(c, s);
    FinalOutcomes(c, s);
    ListsSize(s.reports, c.graph.nodes);
  }

  lemma FinalOutcomes(c: Component, s: State)
    requires Deployable(c) && GraphInvariant(c, s) && OutcomeInvariant(c, s) && Finished(s)
    ensures s.outcomes.Keys == c.graph.nodes
    ensures s.outcomes == map n | n in c.graph.nodes :: c.Spec(n)
    ensures FailedNodes(s.outcomes) == set n | n in c.graph.nodes && c.Spec(n).Failed?
  {
  }

  /** Any two complete deployments of a component agree on outcomes, entities and error count. */
  lemma Confluence(c: Component, a: State, b: State)
    requires Deployable(c) && Reachable(c, a) && Reachable(c, b) && Finished(a) && Finished(b)
    ensures a.outcomes == b.outcomes && a.entities == b.entities && a.errCount == b.errCount
  {
    FinishedRunIsReference(c, a);
    FinishedRunIsReference(c, b);
    ReachableInvariant(c, a);
    ReachableInvariant(c, b);
    EntitiesDetermined(c, a, b);
    EntitiesDetermined(c, b, a);
  }

  lemma EntitiesDetermined(c: Component, a: State, b: State)
    requires Deployable(c) && EntityInvariant(c, a) && EntityInvariant(c, b) && a.outcomes == b.outcomes
    ensures forall k :: k in a.entities ==> k in b.entities && b.entities[k] == a.entities[k]
  {
    forall k | k in a.entities ensures k in b.entities && b.entities[k] == a.entities[k] {
      assert SucceededAt(c, a.outcomes, k);
    }
  }

  /** Conservation: in every reachable state the four kinds of outcome add up to the nodes accounted for,
      and at the end to all nodes. */
  lemma Conservation(c: Component, s: State)
    requires Deployable(c) && Reachable(c, s)
    ensures |s.reports| == |SucceededNodes(s.outcomes)| + |FailedNodes(s.outcomes)|
                         + |ExcludedNodes(s.outcomes)| + |SkippedNodes(s.outcomes)|
    ensures s.errCount == |FailedNodes(s.outcomes)|
    ensures Finished(s) ==> |s.reports| == |c.graph.nodes|
  {
    ReachableInvariant(c, s);
    CountsAddUp(s);
    if Finished(s) {
      FinishedRunIsReference(c, s);
    }
  }

  lemma CountsAddUp(s: State)
    requires CountInvariant(s)
    ensures |s.reports| == |SucceededNodes(s.outcomes)| + |FailedNodes(s.outcomes)|
                         + |ExcludedNodes(s.outcomes)| + |SkippedNodes(s.outcomes)|
  {
    ListsSize(s.reports, s.outcomes.Keys);
    KindsPartition(s.outcomes);
  }

  lemma KindsPartition(outcomes: map<NodeId, Outcome>)
    ensures |outcomes.Keys| == |SucceededNodes(outcomes)| + |FailedNodes(outcomes)|
                             + |ExcludedNodes(outcomes)| + |SkippedNodes(outcomes)|
  {
    var sf := SucceededNodes(outcomes) + FailedNodes(outcomes);
    var es := ExcludedNodes(outcomes) + SkippedNodes(outcomes);
    assert |sf| == |SucceededNodes(outcomes)| + |FailedNodes(outcomes)|;
    assert |es| == |ExcludedNodes(outcomes)| + |SkippedNodes(outcomes)|;
    assert outcomes.Keys == sf + es;
  }

  /** Every node that was not skipped was attempted in the wave whose number is the length of the
      longest dependency walk ending at it. */
  lemma AttemptedInLongestWalkWave(c: Component, s: State, n: NodeId)
    requires Deployable(c) && Reachable(c, s)
    requires n in s.attempts || (n in s.outcomes && !s.outcomes[n].Skipped?)
    ensures n in s.attempts && c.graph.LongestWalk(n, s.attempts[n])
    ensures s.attempts[n] <= s.waveNumber
  {
    ReachableInvariant(c, s);
  }

  // ---------------------------------------------------------------------------
  // Progress and termination
  // ---------------------------------------------------------------------------

  ghost function ListOf(a: set<NodeId>): (s: seq<NodeId>)
    ensures Lists(s, a)
  {
    if a == {} then []
    else
      var x :| x in a;
      var rest := ListOf(a - {x});
      ListsAppend([x], {x}, rest, a - {x});
      [x] + rest
  }

  /** No deadlock: until the deployment is finished some step is possible. */
  lemma SomeStepEnabled(c: Component, s: State) returns (e: Event)
    requires Deployable(c) && Reachable(c, s) && !Finished(s)
    ensures Enabled(c, s, e)
  {
    ReachableInvariant(c, s);
    if s.wave == {} {
      LiveGraphIsAcyclic(c, s);
      s.graph.AcyclicHasRoot();
      return LaunchWave;
    }
    if s.waiting != {} {
      var n :| n in s.waiting;
      return HandOver(n);
    }
    if s.running != map[] {
      var n :| n in s.running;
      return Finish(n, ListOf(if c.DeployConfig(n, s.running[n]).Succeeded? then {} else s.graph.Descendants(n)));
    }
    return EndWave;
  }

  lemma LiveGraphIsAcyclic(c: Component, s: State)
    requires Deployable(c) && GraphInvariant(c, s)
    ensures s.graph.Valid() && s.graph.Acyclic()
  {
    forall n | n in s.graph.nodes ensures !s.graph.Reaches(n, n) {
      if s.graph.Reaches(n, n) {
        c.graph.ReachesMonotone(s.graph, n, n);
      }
    }
  }

  ghost function Measure(s: State): int {
    4 * |s.graph.nodes| - 3 * |s.wave| + 2 * |s.waiting| + |s.running.Keys|
  }

  lemma MeasureIsNatural(c: Component, s: State)
    requires GraphInvariant(c, s)
    ensures 0 <= Measure(s)
  {
    SubsetSize(s.wave, s.graph.nodes);
  }

  lemma FinishLowersMeasure(c: Component, s: State, n: NodeId, skipped: seq<NodeId>)
    requires Enabled(c, s, Finish(n, skipped))
    ensures Measure(Next(c, s, Finish(n, skipped))) < Measure(s)
  {
    assert (s.running - {n}).Keys == s.running.Keys - {n};
    if c.DeployConfig(n, s.running[n]).Succeeded? {
      NextOnSuccess(c, s, n, skipped);
    } else {
      NextOnFailure(c, s, n, skipped);
      SubsetSize(s.graph.nodes - s.graph.Descendants(n), s.graph.nodes);
    }
  }

  /** Every step lowers the measure. */
  lemma MeasureDecreases(c: Component, s: State, e: Event)
    requires GraphInvariant(c, s) && Enabled(c, s, e)
    ensures Measure(Next(c, s, e)) < Measure(s)
  {
    match e
    case LaunchWave => LaunchLowersMeasure(s);
    case HandOver(n) => HandOverLowersMeasure(c, s, n);
    case Finish(n, skipped) => FinishLowersMeasure(c, s, n, skipped);
    case EndWave => EndWaveLowersMeasure(s);
  }

  lemma LaunchLowersMeasure(s: State)
    requires s.wave == {} && s.waiting == {} && s.graph.Roots() != {}
    ensures Measure(AfterLaunch(s)) < Measure(s)
  {
  }

  lemma OneLess(a: set<NodeId>, n: NodeId)
    requires n in a
    ensures |a - {n}| == |a| - 1
  {
  }

  lemma AtMostOneMore(a: set<NodeId>, n: NodeId)
    ensures |a + {n}| <= |a| + 1
  {
    if n in a {
      assert a + {n} == a;
    }
  }

  lemma HandOverLowersMeasure(c: Component, s: State, n: NodeId)
    requires n in s.waiting
    ensures Measure(AfterHandOver(c, s, n)) < Measure(s)
  {
    OneLess(s.waiting, n);
    AtMostOneMore(s.running.Keys, n);
    assert s.running[n := c.View(s.entities, n)].Keys == s.running.Keys + {n};
  }

  lemma EndWaveLowersMeasure(s: State)
    requires s.wave != {} && s.wave <= s.graph.nodes
    ensures Measure(AfterEndWave(s)) < Measure(s)
  {
    assert |s.graph.nodes - s.wave| == |s.graph.nodes| - |s.wave|;
  }

  lemma InitMeasure(c: Component)
    ensures Measure(Init(c)) == 4 * |c.graph.nodes|
  {
  }

  /** Every run takes at most four steps per node. */
  lemma {:induction false} RunsAreBounded(c: Component, run: seq<State>, i: nat)
    requires Deployable(c) && IsRun(c, run) && i < |run|
    ensures 0 <= Measure(run[i]) <= 4 * |c.graph.nodes| - i
  {
    if i == 0 {
      InitMeasure(c);
    } else {
      RunsAreBounded(c, run, i - 1);
      RunStepLowersMeasure(c, run, i - 1);
    }
  }

  lemma RunStepLowersMeasure(c: Component, run: seq<State>, i: nat)
    requires Deployable(c) && IsRun(c, run) && i + 1 < |run|
    ensures 0 <= Measure(run[i + 1]) < Measure(run[i])
  {
    RunInvariant(c, run, i);
    RunInvariant(c, run, i + 1);
    MeasureIsNatural(c, run[i + 1]);
    assert Steps(c, run[i], run[i + 1]);
    var e :| Enabled(c, run[i], e) && run[i + 1] == Next(c, run[i], e);
    MeasureDecreases(c, run[i], e);
  }
}
