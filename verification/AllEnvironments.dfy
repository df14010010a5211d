/** Deploying to several environments, one after the other. */
module AllEnvironments {
  import opened Digraph
  import opened Entities
  import opened Listings
  import opened DeploymentProtocol
  import opened DeploymentSafety
  import opened EnvironmentDeployment
  import G = GraphComponents

  datatype Input = Input(
    configs: seq<G.Config>,
    deployOracle: (NodeId, map<NodeId, ResolvedEntity>) -> Option<Properties>)

  datatype Options = Options(ignoreSkipped: bool, continueOnErr: bool, dryRun: bool) {
    predicate StopsAtErrors() {
      !continueOnErr && !dryRun
    }
  }

  // ---------------------------------------------------------------------------
  // One environment
  // ---------------------------------------------------------------------------

  /** The dependency graph of some configs. */
  ghost function GraphOf(configs: seq<G.Config>, ignoreSkipped: bool): Graph<NodeId> {
    Graph(
      set n: nat | n < |configs| && G.Included(configs, ignoreSkipped, NodeId(n)) :: NodeId(n),
      set i: nat, j: nat | i < |configs| && j < |configs| && HasEdge(configs, ignoreSkipped, NodeId(i), NodeId(j))
        :: (NodeId(j), NodeId(i)))
  }

  ghost predicate HasEdge(configs: seq<G.Config>, ignoreSkipped: bool, i: NodeId, j: NodeId) {
    G.IsLast(configs, ignoreSkipped, i) && G.IsLast(configs, ignoreSkipped, j) && G.RefersTo(configs, i, j)
  }

  lemma GraphIsUnique(configs: seq<G.Config>, ignoreSkipped: bool, graph: Graph<NodeId>)
    requires G.DependencyGraphOf(configs, ignoreSkipped, graph)
    ensures graph == GraphOf(configs, ignoreSkipped)
  {
    var other := GraphOf(configs, ignoreSkipped);
    forall n ensures n in graph.nodes <==> n in other.nodes {
      assert n == NodeId(n.index);
    }
    forall e ensures e in graph.edges <==> e in other.edges {
      assert e == (NodeId(e.0.index), NodeId(e.1.index));
      assert HasEdge(configs, ignoreSkipped, e.1, e.0) <==> (e.0, e.1) in graph.edges;
    }
  }

  ghost predicate HasReference(input: Input, ignoreSkipped: bool) {
    && G.UniqueCoordinates(input.configs, ignoreSkipped)
    && G.DependencyGraphOf(input.configs, ignoreSkipped, GraphOf(input.configs, ignoreSkipped))
    && GraphOf(input.configs, ignoreSkipped).Acyclic()
  }

  /** The number of configs whose reference outcome is failed. */
  ghost function FailuresOf(input: Input, ignoreSkipped: bool): nat {
    if HasReference(input, ignoreSkipped) then
      var graph := GraphOf(input.configs, ignoreSkipped);
      EnvironmentIsDeployable(input.configs, ignoreSkipped, graph, input.deployOracle);
      FailureCount(Environment(input.configs, graph, input.deployOracle))
    else 0
  }

  /** A graph with its components in deployable order. */
  datatype Sorted = Sorted(graph: Graph<NodeId>, components: seq<G.SortedComponent>)

  ghost predicate IsSorted(input: Input, ignoreSkipped: bool, s: Sorted) {
    && HasReference(input, ignoreSkipped) && s.graph == GraphOf(input.configs, ignoreSkipped)
    && G.ExactSplit(s.graph, G.Graphs(s.components))
  }

  /** Builds and sorts the graphs of all environments; a cycle in any of them leaves nothing. */
  method GetSortedEnvConfigs(inputs: seq<Input>, ignoreSkipped: bool, topoSort: Graph<NodeId> -> Option<seq<NodeId>>)
      returns (sorted: Option<seq<Sorted>>)
    requires G.IsTopologicalSort(topoSort)
    requires forall k :: 0 <= k < |inputs| ==> G.UniqueCoordinates(inputs[k].configs, ignoreSkipped)
    ensures sorted.Some? <==> forall k :: 0 <= k < |inputs| ==> GraphOf(inputs[k].configs, ignoreSkipped).Acyclic()
    ensures sorted.Some? ==> |sorted.value| == |inputs|
    ensures sorted.Some? ==> forall k :: 0 <= k < |inputs| ==> IsSorted(inputs[k], ignoreSkipped, sorted.value[k])
  {
    var result: seq<Sorted> := [];
    for i := 0 to |inputs|
      invariant |result| == i
      invariant forall k :: 0 <= k < i ==> IsSorted(inputs[k], ignoreSkipped, result[k])
    {
      var graph := G.BuildDependencyGraph(inputs[i].configs, ignoreSkipped);
      GraphIsUnique(inputs[i].configs, ignoreSkipped, graph);
      var components, cycles := G.GetIndependentlySortedConfigs(graph, topoSort);
      if cycles > 0 {
        return None;
      }
      result := result + [Sorted(graph, components)];
    }
    sorted := Some(result);
  }

  method DeployEnvironment(input: Input, ignoreSkipped: bool, s: Sorted) returns (errCount: nat, reports: seq<NodeId>)
    requires IsSorted(input, ignoreSkipped, s)
    ensures HasReference(input, ignoreSkipped) && errCount == FailuresOf(input, ignoreSkipped)
    ensures Lists(reports, GraphOf(input.configs, ignoreSkipped).nodes)
    ensures exists outcomes :: Lawful(input.configs, ignoreSkipped, input.deployOracle, outcomes)
    ensures forall outcomes :: Lawful(input.configs, ignoreSkipped, input.deployOracle, outcomes) ==>
      errCount == |FailedConfigs(outcomes)| && Lists(reports, outcomes.Keys)
  {
    EnvironmentIsDeployable(input.configs, ignoreSkipped, s.graph, input.deployOracle);
    var c := Environment(input.configs, s.graph, input.deployOracle);
    errCount, reports := DeployComponents(c, G.Graphs(s.components));
    ghost var _ := LawfulExists(input, ignoreSkipped);
    forall outcomes | Lawful(input.configs, ignoreSkipped, input.deployOracle, outcomes)
      ensures errCount == |FailedConfigs(outcomes)| && Lists(reports, outcomes.Keys)
    {
      LawfulFailuresOf(input, ignoreSkipped, outcomes);
    }
  }

  lemma LawfulExists(input: Input, ignoreSkipped: bool) returns (outcomes: map<NodeId, Outcome>)
    requires HasReference(input, ignoreSkipped)
    ensures Lawful(input.configs, ignoreSkipped, input.deployOracle, outcomes)
  {
    var graph := GraphOf(input.configs, ignoreSkipped);
    EnvironmentStandsFor(input.configs, ignoreSkipped, graph, input.deployOracle);
    var c := Environment(input.configs, graph, input.deployOracle);
    SpecIsLawful(c, input.configs, ignoreSkipped);
    outcomes := SpecOutcomes(c);
  }

  lemma LawfulFailuresOf(input: Input, ignoreSkipped: bool, outcomes: map<NodeId, Outcome>)
    requires HasReference(input, ignoreSkipped)
    requires Lawful(input.configs, ignoreSkipped, input.deployOracle, outcomes)
    ensures FailuresOf(input, ignoreSkipped) == |FailedConfigs(outcomes)|
    ensures GraphOf(input.configs, ignoreSkipped).nodes == outcomes.Keys
  {
    var graph := GraphOf(input.configs, ignoreSkipped);
    EnvironmentStandsFor(input.configs, ignoreSkipped, graph, input.deployOracle);
    LawfulFailures(Environment(input.configs, graph, input.deployOracle), input.configs, ignoreSkipped, outcomes);
  }

  // ---------------------------------------------------------------------------
  // All environments
  // ---------------------------------------------------------------------------

  /** The failures of the environments deployed so far: up to the first failing one if errors stop the
      deployment, and otherwise of all. */
  predicate DeployedUpTo(counts: seq<nat>, stops: bool, failures: seq<nat>) {
    && failures <= counts
    && (stops ==> forall k :: 0 <= k < |failures| - 1 ==> failures[k] == 0)
    && (|failures| < |counts| ==> stops && failures != [] && failures[|failures| - 1] > 0)
  }

  ghost function ReferenceCounts(inputs: seq<Input>, ignoreSkipped: bool): seq<nat> {
    seq(|inputs|, k requires 0 <= k < |inputs| => FailuresOf(inputs[k], ignoreSkipped))
  }

  ghost predicate IsTask(input: Input, ignoreSkipped: bool, s: Sorted, count: nat) {
    IsSorted(input, ignoreSkipped, s) && count == FailuresOf(input, ignoreSkipped)
  }

  method DeploySorted(inputs: seq<Input>, options: Options, sorted: seq<Sorted>, ghost counts: seq<nat>)
      returns (failures: seq<nat>)
    requires |sorted| == |inputs| == |counts|
    requires forall k {:trigger sorted[k]} :: 0 <= k < |sorted| ==>
      IsTask(inputs[k], options.ignoreSkipped, sorted[k], counts[k])
    ensures DeployedUpTo(counts, options.StopsAtErrors(), failures)
  {
    failures := [];
    for i := 0 to |inputs|
      invariant |failures| == i && failures == counts[..i]
      invariant options.StopsAtErrors() ==> forall k :: 0 <= k < i ==> failures[k] == 0
    {
      var errCount := DeployOne(inputs[i], options.ignoreSkipped, sorted[i], counts[i]);
      failures := failures + [errCount];
      if errCount > 0 && options.StopsAtErrors() {
        return;
      }
    }
  }

  method DeployOne(input: Input, ignoreSkipped: bool, s: Sorted, ghost count: nat) returns (errCount: nat)
    requires IsTask(input, ignoreSkipped, s, count)
    ensures errCount == count
  {
    var reports;
    errCount, reports := DeployEnvironment(input, ignoreSkipped, s);
  }

  /** Deploys the environments in the order in which they happen to be iterated. Nothing is deployed when
      validation failed and errors stop the deployment, or when any environment has a dependency cycle. Otherwise
      the environments are deployed up to the first failing one, or all of them when errors do not stop the
      deployment; the counts are those of the failed configs in lawful outcomes, which there are, and there is
      success iff no config of any environment fails. */
  method DeployForAllEnvironments(inputs: seq<Input>, valid: bool, options: Options,
                                  topoSort: Graph<NodeId> -> Option<seq<NodeId>>)
      returns (ok: bool, failures: seq<nat>)
    requires G.IsTopologicalSort(topoSort)
    requires forall k :: 0 <= k < |inputs| ==> G.UniqueCoordinates(inputs[k].configs, options.ignoreSkipped)
    ensures (!valid && options.StopsAtErrors()) || !AllAcyclic(inputs, options.ignoreSkipped) ==> failures == []
    ensures (valid || !options.StopsAtErrors()) && AllAcyclic(inputs, options.ignoreSkipped) ==>
      DeployedUpTo(ReferenceCounts(inputs, options.ignoreSkipped), options.StopsAtErrors(), failures)
    ensures ok <==>
      && valid && AllAcyclic(inputs, options.ignoreSkipped)
      && |failures| == |inputs| && forall k :: 0 <= k < |failures| ==> failures[k] == 0
    ensures !valid && !options.continueOnErr && !options.dryRun ==> failures == []
    ensures AllAcyclic(inputs, options.ignoreSkipped) ==>
      && (exists outcomes :: AllLawful(inputs, options.ignoreSkipped, outcomes))
      && forall outcomes :: AllLawful(inputs, options.ignoreSkipped, outcomes) ==>
           && (valid || options.continueOnErr || options.dryRun ==>
                 DeployedUpTo(FailedCounts(outcomes), !options.continueOnErr && !options.dryRun, failures))
           && (ok <==> valid && NothingFails(outcomes))
  {
    if AllAcyclic(inputs, options.ignoreSkipped) {
      LawfulCounts(inputs, options.ignoreSkipped);
    }
    if !valid && options.StopsAtErrors() {
      return false, [];
    }
    var sorted := GetSortedEnvConfigs(inputs, options.ignoreSkipped, topoSort);
    if sorted.None? {
      return false, [];
    }
    failures := DeploySorted(inputs, options, sorted.value, ReferenceCounts(inputs, options.ignoreSkipped));
    ok := valid && forall k :: 0 <= k < |failures| ==> failures[k] == 0;
  }

  lemma GraphOfIsDependencyGraph(configs: seq<G.Config>, ignoreSkipped: bool)
    ensures G.DependencyGraphOf(configs, ignoreSkipped, GraphOf(configs, ignoreSkipped))
  {
    var g := GraphOf(configs, ignoreSkipped);
    forall i ensures i in g.nodes <==> G.Included(configs, ignoreSkipped, i) {
      assert i == NodeId(i.index);
    }
    forall i, j ensures (j, i) in g.edges <==> HasEdge(configs, ignoreSkipped, i, j) {
      assert i == NodeId(i.index) && j == NodeId(j.index);
    }
  }

  /** There are lawful outcomes, and the counts of the reference are their failures. */
  lemma LawfulCounts(inputs: seq<Input>, ignoreSkipped: bool)
    requires forall k :: 0 <= k < |inputs| ==> G.UniqueCoordinates(inputs[k].configs, ignoreSkipped)
    requires AllAcyclic(inputs, ignoreSkipped)
    ensures exists outcomes :: AllLawful(inputs, ignoreSkipped, outcomes)
    ensures forall outcomes :: AllLawful(inputs, ignoreSkipped, outcomes) ==>
      FailedCounts(outcomes) == ReferenceCounts(inputs, ignoreSkipped)
    ensures forall outcomes :: AllLawful(inputs, ignoreSkipped, outcomes) ==>
      (NothingFails(outcomes) <==> forall k :: 0 <= k < |inputs| ==> ReferenceCounts(inputs, ignoreSkipped)[k] == 0)
  {
    forall k | 0 <= k < |inputs| ensures HasReference(inputs[k], ignoreSkipped) {
      GraphOfIsDependencyGraph(inputs[k].configs, ignoreSkipped);
    }
    var _ := AllLawfulExist(inputs, ignoreSkipped);
    forall outcomes | AllLawful(inputs, ignoreSkipped, outcomes)
      ensures FailedCounts(outcomes) == ReferenceCounts(inputs, ignoreSkipped)
      ensures NothingFails(outcomes) <==>
        forall k :: 0 <= k < |inputs| ==> ReferenceCounts(inputs, ignoreSkipped)[k] == 0
    {
      CountsOf(inputs, ignoreSkipped, outcomes);
      NothingFailsIff(outcomes);
    }
  }

  lemma {:induction false} AllLawfulExist(inputs: seq<Input>, ignoreSkipped: bool)
      returns (outcomes: seq<map<NodeId, Outcome>>)
    requires forall k :: 0 <= k < |inputs| ==> HasReference(inputs[k], ignoreSkipped)
    ensures AllLawful(inputs, ignoreSkipped, outcomes)
    decreases |inputs|
  {
    outcomes := [];
    if inputs != [] {
      var n := |inputs| - 1;
      var front := AllLawfulExist(inputs[..n], ignoreSkipped);
      var last := LawfulExists(inputs[n], ignoreSkipped);
      outcomes := front + [last];
    }
  }

  lemma CountsOf(inputs: seq<Input>, ignoreSkipped: bool, outcomes: seq<map<NodeId, Outcome>>)
    requires forall k :: 0 <= k < |inputs| ==> HasReference(inputs[k], ignoreSkipped)
    requires AllLawful(inputs, ignoreSkipped, outcomes)
    ensures FailedCounts(outcomes) == ReferenceCounts(inputs, ignoreSkipped)
  {
    forall k | 0 <= k < |inputs| ensures FailuresOf(inputs[k], ignoreSkipped) == |FailedConfigs(outcomes[k])| {
      LawfulFailuresOf(inputs[k], ignoreSkipped, outcomes[k]);
    }
  }

  lemma NothingFailsIff(outcomes: seq<map<NodeId, Outcome>>)
    ensures NothingFails(outcomes) <==> forall k :: 0 <= k < |outcomes| ==> FailedCounts(outcomes)[k] == 0
  {
    forall k | 0 <= k < |outcomes|
      ensures FailedCounts(outcomes)[k] == 0 <==> forall i :: i in outcomes[k] ==> !outcomes[k][i].Failed?
    {
      assert FailedCounts(outcomes)[k] == 0 <==> FailedConfigs(outcomes[k]) == {};
      assert forall i :: i in FailedConfigs(outcomes[k]) <==> i in outcomes[k] && outcomes[k][i].Failed?;
    }
  }

  /** Lawful outcomes for every environment. */
  ghost predicate AllLawful(inputs: seq<Input>, ignoreSkipped: bool, outcomes: seq<map<NodeId, Outcome>>) {
    && |outcomes| == |inputs|
    && forall k :: 0 <= k < |inputs| ==>
         Lawful(inputs[k].configs, ignoreSkipped, inputs[k].deployOracle, outcomes[k])
  }

  function FailedCounts(outcomes: seq<map<NodeId, Outcome>>): seq<nat> {
    seq(|outcomes|, k requires 0 <= k < |outcomes| => |FailedConfigs(outcomes[k])|)
  }

  predicate NothingFails(outcomes: seq<map<NodeId, Outcome>>) {
    forall k, i :: 0 <= k < |outcomes| && i in outcomes[k] ==> !outcomes[k][i].Failed?
  }

  ghost predicate AllAcyclic(inputs: seq<Input>, ignoreSkipped: bool) {
    forall k :: 0 <= k < |inputs| ==> GraphOf(inputs[k].configs, ignoreSkipped).Acyclic()
  }
}
