/** The deployment engine itself: in-place removal from the shared graph, one node's deployment,
    the loop over waves, and the sum over components. */
module DeployEngine {
  import opened Digraph
  import opened Entities
  import opened Listings
  import opened DeploymentProtocol
  import opened DeploymentSafety

  /** The mutable config graph that the goroutines of a component share. */
  class ConfigGraph {
    var nodes: set<NodeId>
    var edges: set<(NodeId, NodeId)>

    function Value(): Graph<NodeId>
      reads this
    {
      Graph(nodes, edges)
    }

    constructor (g: Graph<NodeId>)
      ensures Value() == g
    {
      nodes, edges := g.nodes, g.edges;
    }

    /** Deletes a node and its edges; a node that is not there is ignored. */
    method RemoveNode(n: NodeId)
      modifies this
      ensures Value() == old(Value()).Remove({n})
    {
      nodes := nodes - {n};
      edges := set e | e in edges && e.0 != n && e.1 != n;
    }

    /** All nodes without incoming edges. */
    method Roots() returns (roots: set<NodeId>)
      ensures roots == Value().Roots()
    {
      roots := {};
      var todo := nodes;
      while todo != {}
        invariant todo <= nodes
        invariant forall n :: n in roots <==> n in nodes - todo && Value().To(n) == {}
      {
        var n :| n in todo;
        if Value().To(n) == {} {
          roots := roots + {n};
        }
        todo := todo - {n};
      }
    }
  }

  /** Below `n` everything is gone once `dead` contains the children and is closed under edges. */
  lemma DescendantsCovered(g: Graph<NodeId>, n: NodeId, dead: set<NodeId>)
    requires g.Valid() && dead <= g.Descendants(n)
    requires forall x, y :: x in dead && (x, y) in g.edges ==> y in dead
    requires g.Remove(dead).From(n) == {} && n in g.nodes && n !in dead
    ensures dead == g.Descendants(n)
  {
    forall d | d in g.Descendants(n) ensures d in dead {
      var c := g.ReachesFirst(n, d);
      assert c !in dead ==> c in g.Remove(dead).From(n);
      if c != d {
        var w :| g.WalkFromTo(w, c, d);
        ClosedAlongWalk(g, dead, w);
      }
    }
  }

  lemma {:induction false} ClosedAlongWalk(g: Graph<NodeId>, dead: set<NodeId>, w: seq<NodeId>)
    requires g.IsWalk(w) && w[0] in dead
    requires forall x, y :: x in dead && (x, y) in g.edges ==> y in dead
    ensures w[|w| - 1] in dead
    decreases |w|
  {
    if |w| > 1 {
      assert (w[0], w[1]) in g.edges;
      ClosedAlongWalk(g, dead, w[1..]);
    }
  }

  /** One round of the removal: `child` and everything still below it join `dead`. */
  lemma RemovalRound(g: Graph<NodeId>, parent: NodeId, dead: set<NodeId>, child: NodeId, below: set<NodeId>)
    requires g.Valid() && g.Acyclic() && dead <= g.Descendants(parent)
    requires forall x, y :: x in dead && (x, y) in g.edges ==> y in dead
    requires child in g.Remove(dead).From(parent) && below == g.Remove(dead).Descendants(child)
    ensures child !in dead && child !in below && below !! dead
    ensures below < g.Descendants(parent)
    ensures dead + {child} + below <= g.Descendants(parent)
    ensures forall x, y :: x in dead + {child} + below && (x, y) in g.edges ==> y in dead + {child} + below
    ensures |g.Descendants(parent) - (dead + {child} + below)| < |g.Descendants(parent) - dead|
  {
    g.EdgeReaches(parent, child);
    g.DescendantsAfterRemove(dead, child);
    assert below == g.Descendants(child) - dead;
    forall d | d in below ensures d in g.Descendants(parent) {
      g.ReachesTransitive(parent, child, d);
    }
    assert child !in g.Descendants(child);
    assert child in g.Descendants(parent) - below;
    SmallerSet(g.Descendants(parent) - (dead + {child} + below), g.Descendants(parent) - dead);
    forall x, y | x in {child} + below && (x, y) in g.edges ensures y in dead + {child} + below {
      g.EdgeReaches(x, y);
      if x != child {
        g.ReachesTransitive(child, x, y);
      }
    }
  }

  /** Part of what lies below `parent` is gone, together with everything below that, and reported. */
  ghost predicate Removing(g: Graph<NodeId>, parent: NodeId, dead: set<NodeId>, live: Graph<NodeId>,
                           reported: seq<NodeId>)
  {
    && dead <= g.Descendants(parent)
    && (forall x, y :: x in dead && (x, y) in g.edges ==> y in dead)
    && live == g.Remove(dead)
    && Lists(reported, dead)
  }

  lemma RemovalReported(g: Graph<NodeId>, dead: set<NodeId>, child: NodeId, below: set<NodeId>,
                        reported: seq<NodeId>, further: seq<NodeId>)
    requires Lists(reported, dead) && Lists(further, below)
    requires child !in dead && child !in below && below !! dead
    ensures Lists(reported + [child] + further, dead + {child} + below)
    ensures g.Remove(dead).Remove(below).Remove({child}) == g.Remove(dead + {child} + below)
  {
    ListsAppend(reported, dead, [child], {child});
    ListsAppend(reported + [child], dead + {child}, further, below);
    g.RemoveTwice(dead, below);
    g.RemoveTwice(dead + below, {child});
    assert dead + below + {child} == dead + {child} + below;
  }

  /** Deletes everything strictly below `parent`, reporting each deleted node once. The children are
      iterated over the live adjacency, so a node deleted further down is not visited again. */
  method RemoveChildren(parent: NodeId, configGraph: ConfigGraph) returns (reported: seq<NodeId>)
    requires configGraph.Value().Valid() && configGraph.Value().Acyclic() && parent in configGraph.nodes
    modifies configGraph
    ensures configGraph.Value() == old(configGraph.Value()).Remove(old(configGraph.Value()).Descendants(parent))
    ensures Lists(reported, old(configGraph.Value()).Descendants(parent))
    decreases |configGraph.Value().Descendants(parent)|
  {
    ghost var g := configGraph.Value();
    ghost var dead: set<NodeId> := {};
    reported := [];
    assert g.Remove({}) == g;
    var children := configGraph.Value().From(parent);
    while children != {}
      invariant Removing(g, parent, dead, configGraph.Value(), reported)
      invariant children == configGraph.Value().From(parent)
      decreases |g.Descendants(parent) - dead|
    {
      var child :| child in children;
      ghost var below := g.Remove(dead).Descendants(child);
      RemovalRound(g, parent, dead, child, below);
      SmallerSet(below, g.Descendants(parent));
      g.RemoveAcyclic(dead);
      var further := RemoveChildren(child, configGraph);
      configGraph.RemoveNode(child);
      RemovalReported(g, dead, child, below, reported, further);
      reported := reported + [child] + further;
      dead := dead + {child} + below;
      children := configGraph.Value().From(parent);
    }
    DescendantsCovered(g, parent, dead);
  }

  /** What deploying `n` does to the graph and the entity map, and what it reports. */
  ghost predicate NodeDeployed(c: Component, n: NodeId, outcome: Outcome, failed: bool, skipped: seq<NodeId>,
                               g: Graph<NodeId>, entities: map<Coordinate, ResolvedEntity>,
                               g': Graph<NodeId>, entities': map<Coordinate, ResolvedEntity>) {
    && failed == outcome.Failed?
    && if outcome.Succeeded? then
         g' == g && skipped == [] && entities' == entities[outcome.entity.coordinate := outcome.entity]
       else
         g' == g.Remove(g.Descendants(n)) && Lists(skipped, g.Descendants(n)) && entities' == entities
  }

  /** Deploys one config. A failed or excluded config takes everything below it out of the graph
      before it is reported itself; a deployed one publishes its entity. */
  method DeployNode(c: Component, n: NodeId, view: map<NodeId, ResolvedEntity>,
                    configGraph: ConfigGraph, resolvedEntities: EntityMap)
      returns (failed: bool, skipped: seq<NodeId>)
    requires n in c.coordinateOf && n in configGraph.nodes
    requires configGraph.Value().Valid() && configGraph.Value().Acyclic()
    modifies configGraph, resolvedEntities
    ensures NodeDeployed(c, n, c.DeployConfig(n, view), failed, skipped,
                         old(configGraph.Value()), old(resolvedEntities.resolvedEntities),
                         configGraph.Value(), resolvedEntities.resolvedEntities)
  {
    var outcome := c.DeployConfig(n, view);
    if !outcome.Succeeded? {
      skipped := RemoveChildren(n, configGraph);
      failed := outcome.Failed?;
    } else {
      resolvedEntities.Put(outcome.entity);
      failed, skipped := false, [];
    }
  }

  /** Deletes the finished roots of a wave. */
  method RemoveNodes(roots: set<NodeId>, configGraph: ConfigGraph)
    modifies configGraph
    ensures configGraph.Value() == old(configGraph.Value()).Remove(roots)
  {
    var todo := roots;
    ghost var g := configGraph.Value();
    assert g.Remove({}) == g;
    while todo != {}
      invariant todo <= roots
      invariant configGraph.Value() == g.Remove(roots - todo)
    {
      var n :| n in todo;
      configGraph.RemoveNode(n);
      g.RemoveTwice(roots - todo, {n});
      assert roots - (todo - {n}) == roots - todo + {n};
      todo := todo - {n};
    }
  }

  /** The concrete variables show the protocol state `s`. */
  ghost predicate Shows(s: State, g: Graph<NodeId>, wave: set<NodeId>, waiting: set<NodeId>,
                        running: map<NodeId, map<NodeId, ResolvedEntity>>,
                        entities: map<Coordinate, ResolvedEntity>, reports: seq<NodeId>, errCount: nat) {
    && s.graph == g && s.wave == wave && s.waiting == waiting && s.running == running
    && s.entities == entities && s.reports == reports && s.errCount == errCount
  }

  ghost function Extend(c: Component, run: seq<State>, e: Event): (longer: seq<State>)
    requires IsRun(c, run) && Enabled(c, run[|run| - 1], e)
    ensures IsRun(c, longer) && longer[|longer| - 1] == Next(c, run[|run| - 1], e)
  {
    var last := run[|run| - 1];
    assert Steps(c, last, Next(c, last, e));
    run + [Next(c, last, e)]
  }

  ghost function Pending(waiting: set<NodeId>, running: map<NodeId, map<NodeId, ResolvedEntity>>): nat {
    2 * |waiting| + |running.Keys|
  }

  lemma HandOverStep(c: Component, s: State, n: NodeId)
    requires n in s.waiting
    ensures Enabled(c, s, HandOver(n))
    ensures Pending(s.waiting - {n}, s.running[n := c.View(s.entities, n)]) < Pending(s.waiting, s.running)
  {
    assert |s.waiting - {n}| == |s.waiting| - 1;
    assert s.running[n := c.View(s.entities, n)].Keys == s.running.Keys + {n};
  }

  lemma RunningNodeIsLive(c: Component, run: seq<State>, n: NodeId)
    requires Deployable(c) && IsRun(c, run) && n in run[|run| - 1].running
    ensures n in c.coordinateOf && n in run[|run| - 1].graph.nodes
    ensures run[|run| - 1].graph.Valid() && run[|run| - 1].graph.Acyclic()
  {
    RunInvariant(c, run, |run| - 1);
    LiveGraphIsAcyclic(c, run[|run| - 1]);
  }

  /** Deploying a running node is the protocol's finishing step. */
  lemma FinishStep(c: Component, s: State, n: NodeId, failed: bool, skipped: seq<NodeId>,
                   g': Graph<NodeId>, entities': map<Coordinate, ResolvedEntity>)
    requires n in s.running && n in c.coordinateOf
    requires NodeDeployed(c, n, c.DeployConfig(n, s.running[n]), failed, skipped, s.graph, s.entities, g', entities')
    ensures Enabled(c, s, Finish(n, skipped))
    ensures Shows(Next(c, s, Finish(n, skipped)), g', s.wave, s.waiting, s.running - {n}, entities',
                  s.reports + skipped + [n], s.errCount + if failed then 1 else 0)
    ensures Pending(s.waiting, s.running - {n}) < Pending(s.waiting, s.running)
    ensures g'.nodes <= s.graph.nodes
  {
    assert (s.running - {n}).Keys == s.running.Keys - {n};
    if c.DeployConfig(n, s.running[n]).Succeeded? {
      NextOnSuccess(c, s, n, skipped);
      assert s.reports + skipped + [n] == s.reports + [n];
    } else {
      NextOnFailure(c, s, n, skipped);
    }
  }

  /** Deploys a component wave by wave. The goroutines of a wave are the `waiting` and `running` nodes;
      which of them moves next is arbitrary. Every execution is a complete run of the protocol, so
      everything proved about runs holds of it. */
  method DeployGraph(c: Component, configGraph: ConfigGraph)
      returns (errCount: nat, reports: seq<NodeId>, resolvedEntities: EntityMap, ghost run: seq<State>)
    requires Deployable(c) && configGraph.Value() == c.graph
    modifies configGraph
    ensures IsRun(c, run) && Finished(run[|run| - 1])
    ensures Shows(run[|run| - 1], configGraph.Value(), {}, {}, map[], resolvedEntities.resolvedEntities, reports,
      errCount)
    ensures errCount == |set n | n in c.graph.nodes && c.Spec(n).Failed?|
    ensures Lists(reports, c.graph.nodes)
  {
    resolvedEntities := new EntityMap();
    errCount, reports := 0, [];
    run := [Init(c)];
    while configGraph.nodes != {}
      invariant IsRun(c, run)
      invariant Shows(run[|run| - 1], configGraph.Value(), {}, {}, map[], resolvedEntities.resolvedEntities, reports,
        errCount)
      invariant fresh(resolvedEntities)
      decreases |configGraph.nodes|
    {
      RunInvariant(c, run, |run| - 1);
      LiveGraphIsAcyclic(c, run[|run| - 1]);
      configGraph.Value().AcyclicHasRoot();
      ghost var before := configGraph.nodes;
      var roots := configGraph.Roots();
      run := Extend(c, run, LaunchWave);
      errCount, reports, run := DeployWave(c, roots, configGraph, resolvedEntities, errCount, reports, run);
      run := Extend(c, run, EndWave);
      RemoveNodes(roots, configGraph);
      SmallerSet(configGraph.nodes, before);
    }
    FinishedRunIsReference(c, run[|run| - 1]) by {
      assert Reachable(c, run[|run| - 1]);
    }
  }

  /** One wave: the goroutines of all roots run to completion in an arbitrary order. */
  method DeployWave(c: Component, roots: set<NodeId>, configGraph: ConfigGraph, resolvedEntities: EntityMap,
                    errCount0: nat, reports0: seq<NodeId>, ghost run0: seq<State>)
      returns (errCount: nat, reports: seq<NodeId>, ghost run: seq<State>)
    requires Deployable(c) && IsRun(c, run0) && roots != {}
    requires Shows(run0[|run0| - 1], configGraph.Value(), roots, roots, map[], resolvedEntities.resolvedEntities,
      reports0, errCount0)
    modifies configGraph, resolvedEntities
    ensures IsRun(c, run)
    ensures Shows(run[|run| - 1], configGraph.Value(), roots, {}, map[], resolvedEntities.resolvedEntities, reports,
      errCount)
    ensures configGraph.nodes <= old(configGraph.nodes)
  {
    errCount, reports, run := errCount0, reports0, run0;
    var waiting, running := roots, map[];
    while waiting != {} || running != map[]
      invariant IsRun(c, run)
      invariant Shows(run[|run| - 1], configGraph.Value(), roots, waiting, running, resolvedEntities.resolvedEntities,
        reports, errCount)
      invariant configGraph.nodes <= old(configGraph.nodes)
      decreases Pending(waiting, running)
    {
      ghost var s := run[|run| - 1];
      if
      case waiting != {} =>
        var n :| n in waiting;
        HandOverStep(c, s, n);
        run := Extend(c, run, HandOver(n));
        waiting := waiting - {n};
        running := running[n := c.View(resolvedEntities.resolvedEntities, n)];
      case running != map[] =>
        var n :| n in running;
        RunningNodeIsLive(c, run, n);
        var failed, skipped := DeployNode(c, n, running[n], configGraph, resolvedEntities);
        FinishStep(c, s, n, failed, skipped, configGraph.Value(), resolvedEntities.resolvedEntities);
        run := Extend(c, run, Finish(n, skipped));
        reports := reports + skipped + [n];
        errCount := errCount + if failed then 1 else 0;
        running := running - {n};
    }
  }
}
