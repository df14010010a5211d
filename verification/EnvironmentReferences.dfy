/** References between configs of an environment resolve end to end, and resolution sees nothing else. */
module EnvironmentReferences {
  import opened Digraph
  import opened Entities
  import opened DeploymentProtocol
  import opened DeploymentSafety
  import opened EnvironmentDeployment
  import opened ParameterResolution
  import P = ParameterOrder
  import G = GraphComponents

  type Oracle = (NodeId, map<NodeId, ResolvedEntity>) -> Option<Properties>

  /** Config `i` is in component `k` of the acyclic graph of an environment with unique coordinates, and
      about to be deployed or being deployed in the reachable state `s` of that component. */
  ghost predicate InDeployment(configs: seq<G.Config>, ignoreSkipped: bool, graph: Graph<NodeId>,
                               comps: seq<Graph<NodeId>>,
                               oracle: Oracle, k: nat, s: State, i: NodeId) {
    && G.UniqueCoordinates(configs, ignoreSkipped)
    && G.DependencyGraphOf(configs, ignoreSkipped, graph) && graph.Acyclic()
    && G.ExactSplit(graph, comps) && k < |comps| && i in comps[k].nodes && i in graph.nodes && i.index < |configs|
    && Reachable(Part(Environment(configs, graph, oracle), comps[k]), s)
    && (i in s.waiting || i in s.running)
  }

  /** Whenever a config of any component is about to enter or is inside its deployment call, every config of
      the environment that it refers to is in its component, with an edge, and in the component's own entity map. */
  lemma ReferencesResolve(configs: seq<G.Config>, ignoreSkipped: bool, graph: Graph<NodeId>, comps: seq<Graph<NodeId>>,
                          oracle: Oracle, k: nat, s: State, i: NodeId, j: NodeId)
    requires InDeployment(configs, ignoreSkipped, graph, comps, oracle, k, s, i)
    requires G.Included(configs, ignoreSkipped, j) && G.RefersTo(configs, i, j)
    ensures j in comps[k].nodes && (j, i) in comps[k].edges
    ensures configs[j.index].coordinate in s.entities
    ensures s.entities[configs[j.index].coordinate].coordinate == configs[j.index].coordinate
    ensures !s.entities[configs[j.index].coordinate].skip
  {
    var c := Environment(configs, graph, oracle);
    ReferenceStaysInComponent(graph, comps, k, i, j);
    EnvironmentIsDeployable(configs, ignoreSkipped, graph, oracle);
    assert G.PartOf(graph, comps[k]);
    DependencyIsPresent(c, comps[k], s, i, j);
  }

  lemma ReferenceStaysInComponent(graph: Graph<NodeId>, comps: seq<Graph<NodeId>>, k: nat, i: NodeId, j: NodeId)
    requires G.ExactSplit(graph, comps) && k < |comps| && i in comps[k].nodes && (j, i) in graph.edges
    ensures j in comps[k].nodes && (j, i) in comps[k].edges
  {
    assert G.PartOf(graph, comps[k]);
    assert (j, i) in G.Induced(graph, comps[k].nodes).edges;
  }

  lemma DependencyIsPresent(c: Component, comp: Graph<NodeId>, s: State, i: NodeId, j: NodeId)
    requires Deployable(c) && G.PartOf(c.graph, comp) && (j, i) in comp.edges && j in comp.nodes
    requires Reachable(Part(c, comp), s) && (i in s.waiting || i in s.running)
    ensures c.coordinateOf[j] in s.entities
    ensures s.entities[c.coordinateOf[j]].coordinate == c.coordinateOf[j] && !s.entities[c.coordinateOf[j]].skip
  {
    PartIsDeployable(c, comp);
    HandedOverOnlyAfterDependencies(Part(c, comp), s, i, j);
    Part(c, comp).SpecIsAncestorRule(j);
  }

  /** So validation never reports a reference to a config of the environment as unknown or skipped. */
  lemma NeverReportedAsMissing(configs: seq<G.Config>, ignoreSkipped: bool, graph: Graph<NodeId>,
                               comps: seq<Graph<NodeId>>,
                               oracle: Oracle, k: nat, s: State, i: NodeId, j: NodeId,
                               name: string, refs: seq<P.ParameterReference>, r: P.ParameterReference)
    requires InDeployment(configs, ignoreSkipped, graph, comps, oracle, k, s, i)
    requires forall x :: x in refs ==> x.config in configs[i.index].references
    requires G.Included(configs, ignoreSkipped, j) && configs[j.index].coordinate == r.config
    ensures
      var errs := AllReferenceErrors(configs[i.index].coordinate, s.entities, name, refs);
      ReferencedConfigNotFound(name, r) !in errs && ReferencesSkippedConfig(name, r) !in errs
  {
    ReportedIff(configs[i.index].coordinate, s.entities, name, refs, r);
    if r in refs && r.config != configs[i.index].coordinate {
      ReferencesResolve(configs, ignoreSkipped, graph, comps, oracle, k, s, i, j);
    }
  }

  /** The entities of dependencies, by coordinate. */
  function Visible(c: Component, view: map<NodeId, ResolvedEntity>): EntityTable
    requires c.UniqueCoordinates()
  {
    map p | p in view && p in c.coordinateOf :: c.coordinateOf[p] := view[p]
  }

  lemma ComponentIsDeployable(configs: seq<G.Config>, ignoreSkipped: bool, graph: Graph<NodeId>,
                              comps: seq<Graph<NodeId>>,
                              oracle: Oracle, k: nat, s: State, i: NodeId)
    requires InDeployment(configs, ignoreSkipped, graph, comps, oracle, k, s, i)
    ensures Deployable(Part(Environment(configs, graph, oracle), comps[k]))
  {
    EnvironmentIsDeployable(configs, ignoreSkipped, graph, oracle);
    assert G.PartOf(graph, comps[k]);
    PartIsDeployable(Environment(configs, graph, oracle), comps[k]);
  }

  /** A stored entity belongs to a node of the component; a running node sees what is stored. */
  lemma StoredBelongsToNode(c: Component, s: State, coordinate: Coordinate) returns (n: NodeId)
    requires Deployable(c) && Reachable(c, s) && coordinate in s.entities
    ensures n in c.graph.nodes && n in c.coordinateOf && c.coordinateOf[n] == coordinate
  {
    ReachableInvariant(c, s);
    assert SucceededAt(c, s.outcomes, coordinate);
    n :| n in s.outcomes && n in c.coordinateOf && s.outcomes[n].Succeeded? && c.coordinateOf[n] == coordinate;
  }

  lemma RunningView(c: Component, s: State, i: NodeId)
    requires Deployable(c) && Reachable(c, s) && i in s.running
    ensures s.running[i] == c.View(s.entities, i)
  {
    ReachableInvariant(c, s);
  }

  /** A referenced node of the component is a dependency. */
  lemma ReferencedIsDependency(configs: seq<G.Config>, ignoreSkipped: bool, graph: Graph<NodeId>,
                               comps: seq<Graph<NodeId>>,
                               k: nat, i: NodeId, n: NodeId)
    requires G.UniqueCoordinates(configs, ignoreSkipped) && G.DependencyGraphOf(configs, ignoreSkipped, graph)
    requires G.ExactSplit(graph, comps) && k < |comps| && i in comps[k].nodes && i in graph.nodes && n in graph.nodes
    requires G.RefersTo(configs, i, n)
    ensures n in comps[k].To(i)
  {
    assert G.Included(configs, ignoreSkipped, n) && G.Included(configs, ignoreSkipped, i);
    ReferenceStaysInComponent(graph, comps, k, i, n);
  }

  /** An entity that is stored at the coordinate of a reference belongs to a dependency. */
  lemma StoredIsDependency(configs: seq<G.Config>, ignoreSkipped: bool, graph: Graph<NodeId>, comps: seq<Graph<NodeId>>,
                           oracle: Oracle, k: nat, s: State, i: NodeId, coordinate: Coordinate) returns (n: NodeId)
    requires InDeployment(configs, ignoreSkipped, graph, comps, oracle, k, s, i)
    requires coordinate in configs[i.index].references && coordinate != configs[i.index].coordinate
    requires coordinate in s.entities
    ensures n in comps[k].To(i) && n in graph.nodes && configs[n.index].coordinate == coordinate
  {
    ComponentIsDeployable(configs, ignoreSkipped, graph, comps, oracle, k, s, i);
    n := StoredBelongsToNode(Part(Environment(configs, graph, oracle), comps[k]), s, coordinate);
    assert n in graph.nodes && configs[n.index].coordinate == coordinate;
    ReferencedIsDependency(configs, ignoreSkipped, graph, comps, k, i, n);
  }

  /** A view by coordinate has the dependencies' entities where they are stored. */
  lemma VisibleIsStored(c: Component, entities: EntityTable, i: NodeId, coordinate: Coordinate)
    requires c.UniqueCoordinates()
    requires coordinate in entities ==>
      exists n :: n in c.graph.To(i) && n in c.coordinateOf && c.coordinateOf[n] == coordinate
    ensures SameAt(entities, Visible(c, c.View(entities, i)), coordinate)
  {
    if coordinate in entities {
      var n :| n in c.graph.To(i) && n in c.coordinateOf && c.coordinateOf[n] == coordinate;
      assert n in c.View(entities, i);
    }
  }

  /** At the coordinate of a reference, the entity map has exactly what the dependencies provide. */
  lemma VisibleAtReference(configs: seq<G.Config>, ignoreSkipped: bool, graph: Graph<NodeId>, comps: seq<Graph<NodeId>>,
                           oracle: Oracle, k: nat, s: State, i: NodeId, coordinate: Coordinate)
    requires InDeployment(configs, ignoreSkipped, graph, comps, oracle, k, s, i) && i in s.running
    requires Environment(configs, graph, oracle).UniqueCoordinates()
    requires coordinate in configs[i.index].references && coordinate != configs[i.index].coordinate
    ensures SameAt(s.entities, Visible(Environment(configs, graph, oracle), s.running[i]), coordinate)
  {
    var c := Environment(configs, graph, oracle);
    ComponentIsDeployable(configs, ignoreSkipped, graph, comps, oracle, k, s, i);
    RunningView(Part(c, comps[k]), s, i);
    if coordinate in s.entities {
      var n := StoredIsDependency(configs, ignoreSkipped, graph, comps, oracle, k, s, i, coordinate);
      assert Part(c, comps[k]).coordinateOf[n] == coordinate;
    }
    VisibleIsStored(Part(c, comps[k]), s.entities, i, coordinate);
    assert Visible(c, s.running[i]) == Visible(Part(c, comps[k]), s.running[i]);
  }

  /** While a config is deployed, resolving its parameters against the entity map that all its component's
      goroutines write to gives the same as resolving them against the entities of its dependencies. */
  lemma ResolutionSeesDependencies(configs: seq<G.Config>, ignoreSkipped: bool, graph: Graph<NodeId>,
                                   comps: seq<Graph<NodeId>>, oracle: Oracle, k: nat, s: State, i: NodeId,
                                   resolver: Resolver, parameters: seq<P.NamedParameter>)
    requires InDeployment(configs, ignoreSkipped, graph, comps, oracle, k, s, i) && i in s.running
    requires forall p, r :: p in parameters && r in p.parameter.GetReferences() ==>
      r.config in configs[i.index].references
    ensures Environment(configs, graph, oracle).UniqueCoordinates()
    ensures
      var conf, visible := configs[i.index].coordinate, Visible(Environment(configs, graph, oracle), s.running[i]);
      ResolveAll(conf, s.entities, resolver, parameters) == ResolveAll(conf, visible, resolver, parameters)
  {
    var c := Environment(configs, graph, oracle);
    var conf := configs[i.index].coordinate;
    EnvironmentIsDeployable(configs, ignoreSkipped, graph, oracle);
    var visible := Visible(c, s.running[i]);
    forall n | 0 <= n < |parameters|
      ensures AgreeOn(conf, s.entities, visible, parameters[n].parameter.GetReferences())
    {
      forall r | r in parameters[n].parameter.GetReferences() && r.config != conf
        ensures SameAt(s.entities, visible, r.config)
      {
        assert parameters[n] in parameters;
        VisibleAtReference(configs, ignoreSkipped, graph, comps, oracle, k, s, i, r.config);
      }
    }
    ResolutionDependsOnReferences(conf, s.entities, visible, resolver, parameters);
  }
}
