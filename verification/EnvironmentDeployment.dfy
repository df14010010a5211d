/** Deploying a whole environment: graph, components and engine together. */
module EnvironmentDeployment {
  import opened Digraph
  import opened Entities
  import opened Listings
  import opened DeploymentProtocol
  import opened DeploymentSafety
  import DeployEngine
  import G = GraphComponents

  /** The component `part` with the behaviour of the whole environment. */
  function Part(c: Component, part: Graph<NodeId>): Component {
    c.(graph := part)
  }

  lemma PartIsDeployable(c: Component, part: Graph<NodeId>)
    requires Deployable(c) && G.PartOf(c.graph, part)
    ensures Deployable(Part(c, part))
  {
    forall n | n in part.nodes ensures !part.Reaches(n, n) {
      G.PartIsAcyclicIff(c.graph, part, n);
    }
    forall u, v | (u, v) in part.edges ensures u in part.nodes && v in part.nodes {
      assert (u, v) in G.Induced(c.graph, part.nodes).edges;
    }
  }

  lemma PartDependencies(c: Component, part: Graph<NodeId>, n: NodeId)
    requires Deployable(c) && G.PartOf(c.graph, part) && n in part.nodes
    ensures part.To(n) == c.graph.To(n)
  {
    forall p ensures p in part.To(n) <==> p in c.graph.To(n) {
      assert (p, n) in part.edges <==> (p, n) in G.Induced(c.graph, part.nodes).edges;
    }
  }

  /** A node has the same reference outcome in its component as in the whole environment. */
  lemma {:induction false} SpecInPart(c: Component, part: Graph<NodeId>, n: NodeId)
    requires Deployable(c) && Deployable(Part(c, part)) && G.PartOf(c.graph, part) && n in part.nodes
    ensures Part(c, part).Spec(n) == c.Spec(n)
    decreases |c.graph.Ancestors(n)|
  {
    PartDependencies(c, part, n);
    var outs := c.SpecUnfolds(n);
    var partOuts := Part(c, part).SpecUnfolds(n);
    forall p | p in outs ensures partOuts[p] == outs[p] {
      c.graph.AncestorsShrink(p, n);
      SmallerSet(c.graph.Ancestors(p), c.graph.Ancestors(n));
      SpecInPart(c, part, p);
    }
    assert outs == partOuts;
    VerdictInPart(c, part, n, outs);
  }

  lemma VerdictInPart(c: Component, part: Graph<NodeId>, n: NodeId, outs: map<NodeId, Outcome>)
    requires n in c.coordinateOf
    ensures Part(c, part).Verdict(n, outs) == c.Verdict(n, outs)
  {
  }

  ghost function FailuresIn(c: Component, nodes: set<NodeId>): set<NodeId>
    requires c.WellFormed() && nodes <= c.graph.nodes
  {
    set n | n in nodes && c.Spec(n).Failed?
  }

  /** The number of nodes whose reference outcome is failed. */
  ghost function FailureCount(c: Component): nat
    requires c.WellFormed()
  {
    |FailuresIn(c, c.graph.nodes)|
  }

  ghost function NodesOf(comps: seq<Graph<NodeId>>, k: nat): set<NodeId>
    requires k <= |comps|
  {
    if k == 0 then {} else NodesOf(comps, k - 1) + comps[k - 1].nodes
  }

  lemma {:induction false} NodesOfMember(comps: seq<Graph<NodeId>>, k: nat, n: NodeId)
    requires k <= |comps|
    ensures n in NodesOf(comps, k) <==> G.InSomePart(comps[..k], n)
  {
    if k > 0 {
      NodesOfMember(comps, k - 1, n);
      assert comps[..k] == comps[..k - 1] + [comps[k - 1]];
      if G.InSomePart(comps[..k - 1], n) {
        var i :| 0 <= i < k - 1 && n in comps[..k - 1][i].nodes;
        assert n in comps[..k][i].nodes;
      }
      if n in comps[k - 1].nodes {
        assert n in comps[..k][k - 1].nodes;
      }
    }
  }

  lemma NextPartIsNew(c: Component, comps: seq<Graph<NodeId>>, k: nat)
    requires k < |comps| && G.ExactSplit(c.graph, comps)
    ensures NodesOf(comps, k) !! comps[k].nodes
    ensures NodesOf(comps, k + 1) == NodesOf(comps, k) + comps[k].nodes <= c.graph.nodes
  {
    forall n | n in NodesOf(comps, k) ensures n !in comps[k].nodes && n in c.graph.nodes {
      NodesOfMember(comps, k, n);
      var i :| 0 <= i < k && n in comps[..k][i].nodes;
      assert n in comps[i].nodes;
      assert G.InSomePart(comps, n);
    }
    assert G.PartOf(c.graph, comps[k]);
  }

  /** What the next component contributes. */
  lemma NextPart(c: Component, comps: seq<Graph<NodeId>>, i: nat)
    requires Deployable(c) && G.ExactSplit(c.graph, comps) && i < |comps| && NodesOf(comps, i) <= c.graph.nodes
    ensures Deployable(Part(c, comps[i]))
    ensures NodesOf(comps, i) !! comps[i].nodes
    ensures NodesOf(comps, i + 1) == NodesOf(comps, i) + comps[i].nodes <= c.graph.nodes
    ensures |FailuresIn(c, NodesOf(comps, i + 1))| ==
      |FailuresIn(c, NodesOf(comps, i))| + |set n | n in comps[i].nodes && Part(c, comps[i]).Spec(n).Failed?|
  {
    var part := comps[i];
    assert G.PartOf(c.graph, part);
    PartIsDeployable(c, part);
    NextPartIsNew(c, comps, i);
    PartFailures(c, part);
    SplitFailures(c, NodesOf(comps, i), part.nodes);
  }

  lemma SplitFailures(c: Component, a: set<NodeId>, b: set<NodeId>)
    requires c.WellFormed() && a + b <= c.graph.nodes && a !! b
    ensures |FailuresIn(c, a + b)| == |FailuresIn(c, a)| + |FailuresIn(c, b)|
  {
    assert FailuresIn(c, a + b) == FailuresIn(c, a) + FailuresIn(c, b);
  }

  lemma PartFailures(c: Component, part: Graph<NodeId>)
    requires Deployable(c) && Deployable(Part(c, part)) && G.PartOf(c.graph, part)
    ensures (set n | n in part.nodes && Part(c, part).Spec(n).Failed?) == FailuresIn(c, part.nodes)
  {
    forall n | n in part.nodes ensures Part(c, part).Spec(n) == c.Spec(n) {
      SpecInPart(c, part, n);
    }
  }

  lemma AllNodes(c: Component, comps: seq<Graph<NodeId>>)
    requires G.ExactSplit(c.graph, comps) && NodesOf(comps, |comps|) <= c.graph.nodes
    ensures NodesOf(comps, |comps|) == c.graph.nodes
  {
    forall n | n in c.graph.nodes ensures n in NodesOf(comps, |comps|) {
      NodesOfMember(comps, |comps|, n);
      assert comps[..|comps|] == comps;
      assert G.InSomePart(comps, n);
    }
  }

  /** Deploys every component and adds up the failures. Over all components each node of the environment
      is reported once, and the error count is the number of nodes whose reference outcome is failed. */
  method DeployComponents(c: Component, comps: seq<Graph<NodeId>>) returns (errCount: nat, reports: seq<NodeId>)
    requires Deployable(c) && G.ExactSplit(c.graph, comps)
    ensures errCount == FailureCount(c)
    ensures Lists(reports, c.graph.nodes)
  {
    errCount, reports := 0, [];
    for i := 0 to |comps|
      invariant Deployed(c, NodesOf(comps, i), errCount, reports)
    {
      errCount, reports := DeployComponent(c, comps, i, comps[i], errCount, reports);
    }
    AllNodes(c, comps);
  }

  /** Deploys one component and adds its failures to the sum. */
  method DeployComponent(c: Component, ghost comps: seq<Graph<NodeId>>, ghost i: nat, part: Graph<NodeId>,
                         errCount0: nat, reports0: seq<NodeId>)
      returns (errCount: nat, reports: seq<NodeId>)
    requires Deployable(c) && G.ExactSplit(c.graph, comps) && i < |comps| && part == comps[i]
    requires Deployed(c, NodesOf(comps, i), errCount0, reports0)
    ensures Deployed(c, NodesOf(comps, i + 1), errCount, reports)
  {
    NextPart(c, comps, i);
    var configGraph := new DeployEngine.ConfigGraph(part);
    var failures, reported, _, _ := DeployEngine.DeployGraph(Part(c, part), configGraph);
    ListsAppend(reports0, NodesOf(comps, i), reported, part.nodes);
    errCount := errCount0 + failures;
    reports := reports0 + reported;
  }

  /** The nodes in `nodes` have been deployed, with these failures and reports. */
  ghost predicate Deployed(c: Component, nodes: set<NodeId>, errCount: nat, reports: seq<NodeId>)
    requires c.WellFormed()
  {
    nodes <= c.graph.nodes && errCount == |FailuresIn(c, nodes)| && Lists(reports, nodes)
  }

  // ---------------------------------------------------------------------------
  // From configs to outcomes
  // ---------------------------------------------------------------------------

  /** The environment whose graph `BuildDependencyGraph` makes from `configs`. */
  function Environment(configs: seq<G.Config>, graph: Graph<NodeId>,
                       deployOracle: (NodeId, map<NodeId, ResolvedEntity>) -> Option<Properties>): Component
    requires forall i :: i in graph.nodes ==> i.index < |configs|
  {
    var coordinateOf := map i | i in graph.nodes :: configs[i.index].coordinate;
    var skipFlag := set i | i in graph.nodes && configs[i.index].skip;
    Component(graph, coordinateOf, skipFlag, deployOracle)
  }

  lemma EnvironmentIsDeployable(configs: seq<G.Config>, ignoreSkipped: bool, graph: Graph<NodeId>,
                                deployOracle: (NodeId, map<NodeId, ResolvedEntity>) -> Option<Properties>)
    requires G.UniqueCoordinates(configs, ignoreSkipped)
    requires G.DependencyGraphOf(configs, ignoreSkipped, graph) && graph.Acyclic()
    ensures Deployable(Environment(configs, graph, deployOracle))
  {
    var c := Environment(configs, graph, deployOracle);
    forall a, b | a in c.coordinateOf && b in c.coordinateOf && c.coordinateOf[a] == c.coordinateOf[b] ensures a == b {
      assert G.Included(configs, ignoreSkipped, a) && G.Included(configs, ignoreSkipped, b);
    }
  }

  // ---------------------------------------------------------------------------
  // The outcome law on the configs
  // ---------------------------------------------------------------------------

  /** `i` stands for a config that takes part in the deployment. */
  predicate TakesPart(configs: seq<G.Config>, ignoreSkipped: bool, i: NodeId) {
    i.index < |configs| && !(configs[i.index].skip && ignoreSkipped)
  }

  /** The outcomes of the other configs that config `i` refers to. */
  function Referenced(configs: seq<G.Config>, outcomes: map<NodeId, Outcome>, i: NodeId): map<NodeId, Outcome>
    requires i.index < |configs|
  {
    map j | j in outcomes && j != i && j.index < |configs|
            && configs[j.index].coordinate in configs[i.index].references :: outcomes[j]
  }

  /** A config is skipped iff a config that it refers to did not succeed. Otherwise it is excluded iff it is
      flagged, and otherwise deployed with the entities of the configs it refers to, under its own coordinate. */
  predicate IsLawful(config: G.Config, i: NodeId, referenced: map<NodeId, Outcome>,
                     deployOracle: (NodeId, map<NodeId, ResolvedEntity>) -> Option<Properties>, outcome: Outcome) {
    if exists j :: j in referenced && !referenced[j].Succeeded? then outcome == Skipped
    else if config.skip then outcome == Excluded
    else
      match deployOracle(i, map j | j in referenced :: referenced[j].entity)
      case None => outcome == Failed
      case Some(properties) => outcome == Succeeded(ResolvedEntity(config.coordinate, properties, false))
  }

  /** Each config that takes part has an outcome, and all of them are lawful. */
  ghost predicate Lawful(configs: seq<G.Config>, ignoreSkipped: bool,
                         deployOracle: (NodeId, map<NodeId, ResolvedEntity>) -> Option<Properties>,
                         outcomes: map<NodeId, Outcome>) {
    && (forall i :: i in outcomes <==> TakesPart(configs, ignoreSkipped, i))
    && forall i :: TakesPart(configs, ignoreSkipped, i) ==>
         IsLawful(configs[i.index], i, Referenced(configs, outcomes, i), deployOracle, outcomes[i])
  }

  /** The dependencies of a node are the other configs it refers to. */
  lemma ReferencedIsTo(configs: seq<G.Config>, ignoreSkipped: bool, graph: Graph<NodeId>, outcomes: map<NodeId,
                       Outcome>,
                       i: NodeId)
    requires G.UniqueCoordinates(configs, ignoreSkipped) && G.DependencyGraphOf(configs, ignoreSkipped, graph)
    requires forall j :: j in outcomes <==> TakesPart(configs, ignoreSkipped, j)
    requires TakesPart(configs, ignoreSkipped, i)
    ensures i in graph.nodes && graph.To(i) == Referenced(configs, outcomes, i).Keys
  {
    assert G.Included(configs, ignoreSkipped, i);
    forall j ensures j in graph.To(i) <==> j in Referenced(configs, outcomes, i) {
      assert TakesPart(configs, ignoreSkipped, j) <==> G.Included(configs, ignoreSkipped, j);
      if j in outcomes {
        assert G.IsLast(configs, ignoreSkipped, i) && G.IsLast(configs, ignoreSkipped, j);
        assert (j, i) in graph.edges <==> G.RefersTo(configs, i, j);
      }
    }
  }

  /** The verdict of the reference is lawful, and nothing else is. */
  lemma VerdictIsLawful(c: Component, config: G.Config, i: NodeId, outs: map<NodeId, Outcome>, outcome: Outcome)
    requires i in c.coordinateOf && c.coordinateOf[i] == config.coordinate && (i in c.skipFlag <==> config.skip)
    ensures IsLawful(config, i, outs, c.deployOracle, outcome) <==> outcome == c.Verdict(i, outs)
  {
  }

  /** The component has the nodes, edges, coordinates and flags of the configs. */
  ghost predicate StandsFor(c: Component, configs: seq<G.Config>, ignoreSkipped: bool) {
    && c.WellFormed() && G.UniqueCoordinates(configs, ignoreSkipped)
    && G.DependencyGraphOf(configs, ignoreSkipped, c.graph)
    && forall i :: i in c.graph.nodes ==>
         && i.index < |configs| && i in c.coordinateOf && c.coordinateOf[i] == configs[i.index].coordinate
         && (i in c.skipFlag <==> configs[i.index].skip)
  }

  lemma EnvironmentStandsFor(configs: seq<G.Config>, ignoreSkipped: bool, graph: Graph<NodeId>,
                             deployOracle: (NodeId, map<NodeId, ResolvedEntity>) -> Option<Properties>)
    requires G.UniqueCoordinates(configs, ignoreSkipped)
    requires G.DependencyGraphOf(configs, ignoreSkipped, graph) && graph.Acyclic()
    ensures StandsFor(Environment(configs, graph, deployOracle), configs, ignoreSkipped)
  {
    EnvironmentIsDeployable(configs, ignoreSkipped, graph, deployOracle);
  }

  lemma NodesTakePart(c: Component, configs: seq<G.Config>, ignoreSkipped: bool, i: NodeId)
    requires StandsFor(c, configs, ignoreSkipped)
    ensures i in c.graph.nodes <==> TakesPart(configs, ignoreSkipped, i)
  {
    assert i in c.graph.nodes <==> G.Included(configs, ignoreSkipped, i);
  }

  /** An outcome is lawful exactly when it is the verdict on the outcomes of the dependencies. */
  lemma LawfulIffVerdict(c: Component, configs: seq<G.Config>, ignoreSkipped: bool, outcomes: map<NodeId, Outcome>,
                         i: NodeId, outs: map<NodeId, Outcome>, outcome: Outcome)
    requires StandsFor(c, configs, ignoreSkipped) && TakesPart(configs, ignoreSkipped, i)
    requires forall j :: j in outcomes <==> TakesPart(configs, ignoreSkipped, j)
    requires outs.Keys == c.graph.To(i) && forall p :: p in outs && p in outcomes ==> outs[p] == outcomes[p]
    ensures i in c.coordinateOf
    ensures IsLawful(configs[i.index], i, Referenced(configs, outcomes, i), c.deployOracle, outcome) <==>
      outcome == c.Verdict(i, outs)
  {
    ReferencedIsTo(configs, ignoreSkipped, c.graph, outcomes, i);
    assert outs == Referenced(configs, outcomes, i);
    VerdictIsLawful(c, configs[i.index], i, outs, outcome);
  }

  /** Lawful outcomes are those of the reference. */
  lemma {:induction false} LawfulIsSpec(c: Component, configs: seq<G.Config>, ignoreSkipped: bool,
                                        outcomes: map<NodeId, Outcome>, i: NodeId)
    requires StandsFor(c, configs, ignoreSkipped) && i in c.graph.nodes
    requires Lawful(configs, ignoreSkipped, c.deployOracle, outcomes)
    ensures i in outcomes && outcomes[i] == c.Spec(i)
    decreases |c.graph.Ancestors(i)|
  {
    var outs := c.SpecUnfolds(i);
    forall p | p in outs ensures p in outcomes && outs[p] == outcomes[p] {
      c.graph.AncestorsShrink(p, i);
      SmallerSet(c.graph.Ancestors(p), c.graph.Ancestors(i));
      LawfulIsSpec(c, configs, ignoreSkipped, outcomes, p);
    }
    NodesTakePart(c, configs, ignoreSkipped, i);
    LawfulIffVerdict(c, configs, ignoreSkipped, outcomes, i, outs, outcomes[i]);
  }

  ghost function SpecOutcomes(c: Component): map<NodeId, Outcome>
    requires c.WellFormed()
  {
    map i | i in c.graph.nodes :: c.Spec(i)
  }

  /** The outcomes of the reference are lawful. */
  lemma SpecIsLawful(c: Component, configs: seq<G.Config>, ignoreSkipped: bool)
    requires StandsFor(c, configs, ignoreSkipped)
    ensures Lawful(configs, ignoreSkipped, c.deployOracle, SpecOutcomes(c))
  {
    var outcomes := SpecOutcomes(c);
    forall i ensures i in outcomes <==> TakesPart(configs, ignoreSkipped, i) {
      NodesTakePart(c, configs, ignoreSkipped, i);
    }
    forall i | TakesPart(configs, ignoreSkipped, i)
      ensures IsLawful(configs[i.index], i, Referenced(configs, outcomes, i), c.deployOracle, outcomes[i])
    {
      var outs := c.SpecUnfolds(i);
      LawfulIffVerdict(c, configs, ignoreSkipped, outcomes, i, outs, outcomes[i]);
    }
  }

  function FailedConfigs(outcomes: map<NodeId, Outcome>): set<NodeId> {
    set i | i in outcomes && outcomes[i].Failed?
  }

  /** The failures of the reference are the failed configs of any lawful outcomes. */
  lemma LawfulFailures(c: Component, configs: seq<G.Config>, ignoreSkipped: bool, outcomes: map<NodeId, Outcome>)
    requires StandsFor(c, configs, ignoreSkipped)
    requires Lawful(configs, ignoreSkipped, c.deployOracle, outcomes)
    ensures c.graph.nodes == outcomes.Keys
    ensures FailureCount(c) == |FailedConfigs(outcomes)|
  {
    forall i ensures i in outcomes <==> i in c.graph.nodes {
      NodesTakePart(c, configs, ignoreSkipped, i);
    }
    forall i | i in c.graph.nodes ensures outcomes[i] == c.Spec(i) {
      LawfulIsSpec(c, configs, ignoreSkipped, outcomes, i);
    }
    assert FailuresIn(c, c.graph.nodes) == FailedConfigs(outcomes);
  }
}
