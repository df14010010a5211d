/** Building the dependency graph from configs and splitting it into weakly connected components. */
module GraphComponents {
  import opened Digraph
  import opened Entities
  import opened Listings

  /** The part of a config that the graph sees. */
  datatype Config = Config(coordinate: Coordinate, skip: bool, references: seq<Coordinate>)

  // ---------------------------------------------------------------------------
  // The dependency graph
  // ---------------------------------------------------------------------------

  /** The config of node `i` exists and is not excluded. */
  predicate Included(configs: seq<Config>, ignoreSkipped: bool, i: NodeId) {
    i.index < |configs| && !(configs[i.index].skip && ignoreSkipped)
  }

  /** Config `i` is the last included one with its coordinate. */
  ghost predicate IsLast(configs: seq<Config>, ignoreSkipped: bool, i: NodeId) {
    && Included(configs, ignoreSkipped, i)
    && forall j: NodeId :: i.index < j.index && Included(configs, ignoreSkipped, j) ==>
         configs[j.index].coordinate != configs[i.index].coordinate
  }

  /** Included configs have pairwise different coordinates. */
  ghost predicate UniqueCoordinates(configs: seq<Config>, ignoreSkipped: bool) {
    forall i, j ::
      Included(configs, ignoreSkipped, i) && Included(configs, ignoreSkipped, j) && i != j ==>
        configs[i.index].coordinate != configs[j.index].coordinate
  }

  /** Config `i` refers to the config `j` under a coordinate that is not its own. */
  ghost predicate RefersTo(configs: seq<Config>, i: NodeId, j: NodeId) {
    && i.index < |configs| && j.index < |configs|
    && configs[j.index].coordinate in configs[i.index].references
    && configs[j.index].coordinate != configs[i.index].coordinate
  }

  /** The nodes are the included configs; the edges lead from a referenced config to the referring one,
      where the last config with a coordinate stands for it. */
  ghost predicate DependencyGraphOf(configs: seq<Config>, ignoreSkipped: bool, g: Graph<NodeId>) {
    && g.Valid()
    && (forall i :: i in g.nodes <==> Included(configs, ignoreSkipped, i))
    && (forall i, j :: (j, i) in g.edges <==>
          IsLast(configs, ignoreSkipped, i) && IsLast(configs, ignoreSkipped, j) && RefersTo(configs, i, j))
  }

  /** Node ids and references by coordinate, over the first `n` configs. */
  ghost predicate Tables(configs: seq<Config>, ignoreSkipped: bool, n: nat,
                         ids: map<Coordinate, NodeId>, refs: map<Coordinate, set<Coordinate>>)
    requires n <= |configs|
  {
    && ids.Keys == refs.Keys
    && (forall k :: k in ids ==> IsLast(configs[..n], ignoreSkipped, ids[k]) && configs[ids[k].index].coordinate == k)
    && (forall i :: Included(configs[..n], ignoreSkipped, i) ==> configs[i.index].coordinate in ids)
    && (forall k, r :: k in refs ==> (r in refs[k] <==> r in configs[ids[k].index].references))
  }

  /** All configs of an environment become nodes; a reference to another known config becomes an edge
      from the referenced node. Where a coordinate occurs more than once its last config stands for it. */
  method BuildDependencyGraph(configs: seq<Config>, ignoreSkipped: bool) returns (g: Graph<NodeId>)
    ensures DependencyGraphOf(configs, ignoreSkipped, g)
  {
    var nodes: set<NodeId> := {};
    var ids: map<Coordinate, NodeId> := map[];
    var refs: map<Coordinate, set<Coordinate>> := map[];
    for i := 0 to |configs|
      invariant forall k :: k in nodes <==> Included(configs[..i], ignoreSkipped, k)
      invariant Tables(configs, ignoreSkipped, i, ids, refs)
    {
      assert configs[..i + 1] == configs[..i] + [configs[i]];
      var c := configs[i];
      if !(c.skip && ignoreSkipped) {
        nodes := nodes + {NodeId(i)};
        ids := ids[c.coordinate := NodeId(i)];
        refs := refs[c.coordinate := set r | r in c.references];
      }
    }
    assert configs[..|configs|] == configs;
    var edges := CollectEdges(ids, refs);
    g := Graph(nodes, edges);
    EdgesAreReferences(configs, ignoreSkipped, ids, refs, edges);
  }

  /** Adds an edge for every reference to a known coordinate other than the config's own. */
  method CollectEdges(ids: map<Coordinate, NodeId>, refs: map<Coordinate, set<Coordinate>>)
      returns (edges: set<(NodeId, NodeId)>)
    requires ids.Keys == refs.Keys
    ensures forall j, i :: (j, i) in edges <==> EdgeFor(ids, refs, refs.Keys, j, i)
  {
    edges := {};
    var todo := refs.Keys;
    while todo != {}
      invariant todo <= refs.Keys
      invariant forall j, i :: (j, i) in edges <==> EdgeFor(ids, refs, refs.Keys - todo, j, i)
    {
      var c :| c in todo;
      var others := refs[c];
      ghost var before := edges;
      while others != {}
        invariant others <= refs[c]
        invariant forall j, i :: (j, i) in edges <==>
          (j, i) in before || EdgeTo(ids, refs, c, refs[c] - others, j, i)
      {
        var other :| other in others;
        if c != other && other in ids {
          assert EdgeBetween(ids, refs, c, other, ids[other], ids[c]);
          edges := edges + {(ids[other], ids[c])};
        }
        others := others - {other};
      }
      todo := todo - {c};
    }
  }

  ghost predicate EdgeTo(ids: map<Coordinate, NodeId>, refs: map<Coordinate, set<Coordinate>>,
                         c: Coordinate, targets: set<Coordinate>, j: NodeId, i: NodeId) {
    exists other :: other in targets && EdgeBetween(ids, refs, c, other, j, i)
  }

  ghost predicate EdgeBetween(ids: map<Coordinate, NodeId>, refs: map<Coordinate, set<Coordinate>>,
                              c: Coordinate, other: Coordinate, j: NodeId, i: NodeId) {
    c in refs && c in ids && other in ids && other in refs[c] && other != c && ids[other] == j && ids[c] == i
  }

  ghost predicate EdgeFor(ids: map<Coordinate, NodeId>, refs: map<Coordinate, set<Coordinate>>,
                          sources: set<Coordinate>, j: NodeId, i: NodeId) {
    exists c, other :: c in sources && EdgeBetween(ids, refs, c, other, j, i)
  }

  lemma EdgesAreReferences(configs: seq<Config>, ignoreSkipped: bool, ids: map<Coordinate, NodeId>,
                           refs: map<Coordinate, set<Coordinate>>, edges: set<(NodeId, NodeId)>)
    requires configs[..|configs|] == configs && Tables(configs, ignoreSkipped, |configs|, ids, refs)
    requires forall j, i :: (j, i) in edges <==> EdgeFor(ids, refs, refs.Keys, j, i)
    ensures forall i, j :: (j, i) in edges <==>
      IsLast(configs, ignoreSkipped, i) && IsLast(configs, ignoreSkipped, j) && RefersTo(configs, i, j)
  {
    forall i, j | IsLast(configs, ignoreSkipped, i) && IsLast(configs, ignoreSkipped, j) && RefersTo(configs, i, j)
      ensures (j, i) in edges
    {
      LastHasId(configs, ignoreSkipped, ids, refs, i);
      LastHasId(configs, ignoreSkipped, ids, refs, j);
      assert EdgeBetween(ids, refs, configs[i.index].coordinate, configs[j.index].coordinate, j, i);
    }
  }

  lemma LastHasId(configs: seq<Config>, ignoreSkipped: bool, ids: map<Coordinate, NodeId>,
                  refs: map<Coordinate, set<Coordinate>>, i: NodeId)
    requires configs[..|configs|] == configs && Tables(configs, ignoreSkipped, |configs|, ids, refs)
    requires IsLast(configs, ignoreSkipped, i)
    ensures configs[i.index].coordinate in ids && ids[configs[i.index].coordinate] == i
  {
    var k := ids[configs[i.index].coordinate];
    assert IsLast(configs, ignoreSkipped, k) && configs[k.index].coordinate == configs[i.index].coordinate;
  }

  // ---------------------------------------------------------------------------
  // Weak connectivity
  // ---------------------------------------------------------------------------

  /** The graph with every edge in both directions. */
  function Undirected(d: Graph<NodeId>): Graph<NodeId> {
    Graph(d.nodes, d.edges + set e | e in d.edges :: (e.1, e.0))
  }

  lemma UndirectedEdges(d: Graph<NodeId>, u: NodeId, v: NodeId)
    ensures (u, v) in Undirected(d).edges <==> (u, v) in d.edges || (v, u) in d.edges
  {
    if (v, u) in d.edges {
      assert ((v, u).1, (v, u).0) in Undirected(d).edges;
    }
  }

  /** The part of `d` between the nodes in `members`. */
  ghost function Induced(d: Graph<NodeId>, members: set<NodeId>): Graph<NodeId> {
    Graph(members, set e | e in d.edges && e.0 in members && e.1 in members)
  }

  ghost predicate Linked(d: Graph<NodeId>, a: NodeId, b: NodeId) {
    a == b || Undirected(d).Reaches(a, b)
  }

  ghost predicate WeaklyConnected(d: Graph<NodeId>) {
    forall a, b :: a in d.nodes && b in d.nodes ==> Linked(d, a, b)
  }

  /** No edge of `d` crosses the border of `members`. */
  ghost predicate Closed(d: Graph<NodeId>, members: set<NodeId>) {
    forall u, v :: (u, v) in d.edges ==> (u in members <==> v in members)
  }

  lemma {:induction false} ReverseWalk(d: Graph<NodeId>, w: seq<NodeId>) returns (r: seq<NodeId>)
    requires Undirected(d).IsWalk(w)
    ensures Undirected(d).IsWalk(r) && |r| == |w| && r[0] == w[|w| - 1] && r[|r| - 1] == w[0]
    decreases |w|
  {
    if |w| == 1 {
      return w;
    }
    var tail := ReverseWalk(d, w[1..]);
    r := tail + [w[0]];
    assert (w[0], w[1]) in Undirected(d).edges;
    UndirectedEdges(d, w[0], w[1]);
    UndirectedEdges(d, w[1], w[0]);
  }

  lemma LinkedSymmetric(d: Graph<NodeId>, a: NodeId, b: NodeId)
    requires Linked(d, a, b)
    ensures Linked(d, b, a)
  {
    if a != b {
      var w :| Undirected(d).WalkFromTo(w, a, b);
      var r := ReverseWalk(d, w);
      assert Undirected(d).WalkFromTo(r, b, a);
    }
  }

  lemma LinkedTransitive(d: Graph<NodeId>, a: NodeId, b: NodeId, c: NodeId)
    requires Linked(d, a, b) && Linked(d, b, c)
    ensures Linked(d, a, c)
  {
    if a != b && b != c {
      Undirected(d).ReachesTransitive(a, b, c);
    }
  }

  /** A walk that starts inside a closed set stays inside and is a walk of the induced graph. */
  lemma {:induction false} WalkStaysInside(d: Graph<NodeId>, members: set<NodeId>, w: seq<NodeId>)
    requires Closed(d, members) && Undirected(d).IsWalk(w) && w[0] in members
    ensures forall i :: 0 <= i < |w| ==> w[i] in members
    ensures Undirected(Induced(d, members)).IsWalk(w)
    decreases |w|
  {
    if |w| > 1 {
      assert (w[0], w[1]) in Undirected(d).edges;
      UndirectedEdges(d, w[0], w[1]);
      UndirectedEdges(Induced(d, members), w[0], w[1]);
      WalkStaysInside(d, members, w[1..]);
      assert forall i :: 1 <= i < |w| ==> w[i] == w[1..][i - 1];
      forall i | 0 <= i < |w| - 1 ensures (w[i], w[i + 1]) in Undirected(Induced(d, members)).edges {
        if i > 0 {
          assert (w[1..][i - 1], w[1..][i]) in Undirected(Induced(d, members)).edges;
        }
      }
    }
  }

  /** A closed set whose members are all linked to one of them induces a weakly connected graph. */
  lemma ClosedLinkedIsConnected(d: Graph<NodeId>, members: set<NodeId>, root: NodeId)
    requires Closed(d, members) && root in members
    requires forall m :: m in members ==> Linked(d, root, m)
    ensures WeaklyConnected(Induced(d, members))
  {
    var sub := Induced(d, members);
    forall m | m in members ensures Linked(sub, root, m) {
      if m != root {
        var w :| Undirected(d).WalkFromTo(w, root, m);
        WalkStaysInside(d, members, w);
        assert Undirected(sub).WalkFromTo(w, root, m);
      }
    }
    forall a, b | a in members && b in members ensures Linked(sub, a, b) {
      LinkedSymmetric(sub, root, a);
      LinkedTransitive(sub, a, root, b);
    }
  }

  // ---------------------------------------------------------------------------
  // Splitting into components
  // ---------------------------------------------------------------------------

  /** Puts the edges of `d` between `t` and `n` that a walk from `t` over the undirected edge finds:
      the outgoing one if there is one, else the incoming one. */
  function TraversedEdge(d: Graph<NodeId>, t: NodeId, n: NodeId): (NodeId, NodeId) {
    if (t, n) in d.edges then (t, n) else (n, t)
  }

  /** The edges collected once the nodes in `done` have been expanded. */
  ghost predicate Collected(d: Graph<NodeId>, done: set<NodeId>, u: NodeId, v: NodeId) {
    (u, v) in d.edges && (u in done || (v in done && (v, u) !in d.edges))
  }

  /** Adds every edge that touches `t` to the component and marks unseen neighbours. */
  method Expand(d: Graph<NodeId>, u: Graph<NodeId>, t: NodeId, comp0: Graph<NodeId>, visited0: set<NodeId>,
                stack0: seq<NodeId>,
                ghost done: set<NodeId>)
      returns (comp: Graph<NodeId>, visited: set<NodeId>, stack: seq<NodeId>)
    requires d.Valid() && u == Undirected(d) && t in d.nodes
    requires forall a, b :: (a, b) in comp0.edges <==> Collected(d, done, a, b)
    ensures comp.nodes == comp0.nodes + {t} + u.From(t)
    ensures forall a, b :: (a, b) in comp.edges <==> Collected(d, done + {t}, a, b)
    ensures visited == visited0 + u.From(t)
    ensures forall m :: m in stack <==> m in stack0 || m in u.From(t) - visited0
    ensures visited == visited0 ==> stack == stack0
  {
    comp := Graph(comp0.nodes + {t}, comp0.edges);
    visited, stack := visited0, stack0;
    var todo := u.From(t);
    while todo != {}
      invariant todo <= u.From(t)
      invariant comp.nodes == comp0.nodes + {t} + (u.From(t) - todo)
      invariant forall a, b :: (a, b) in comp.edges <==>
        (a, b) in comp0.edges || exists m :: m in u.From(t) - todo && TraversedEdge(d, t, m) == (a, b)
      invariant visited == visited0 + (u.From(t) - todo)
      invariant visited == visited0 ==> stack == stack0
      invariant forall m :: m in stack <==> m in stack0 || m in (u.From(t) - todo) - visited0
    {
      var n :| n in todo;
      comp := Graph(comp.nodes + {n}, comp.edges + {TraversedEdge(d, t, n)});
      if n !in visited {
        visited := visited + {n};
        stack := stack + [n];
      }
      todo := todo - {n};
    }
    forall a, b ensures (a, b) in comp.edges <==> Collected(d, done + {t}, a, b) {
      ExpandedEdges(d, t, done, a, b);
    }
  }

  lemma ExpandedEdges(d: Graph<NodeId>, t: NodeId, done: set<NodeId>, a: NodeId, b: NodeId)
    requires d.Valid() && t in d.nodes
    ensures Collected(d, done + {t}, a, b) <==>
      Collected(d, done, a, b) || exists m :: m in Undirected(d).From(t) && TraversedEdge(d, t, m) == (a, b)
  {
    UndirectedEdges(d, t, a);
    UndirectedEdges(d, t, b);
    if m :| m in Undirected(d).From(t) && TraversedEdge(d, t, m) == (a, b) {
      UndirectedEdges(d, t, m);
    }
    if Collected(d, done + {t}, a, b) && !Collected(d, done, a, b) {
      if a == t {
        assert TraversedEdge(d, t, b) == (a, b);
      } else {
        assert TraversedEdge(d, t, a) == (a, b);
      }
    }
  }

  /** Walks one component from an unvisited node. */
  method WalkComponent(d: Graph<NodeId>, u: Graph<NodeId>, root: NodeId, visited0: set<NodeId>)
      returns (comp: Graph<NodeId>, visited: set<NodeId>)
    requires d.Valid() && u == Undirected(d) && root in d.nodes && root !in visited0
    requires visited0 <= d.nodes && Closed(d, visited0)
    ensures visited == visited0 + comp.nodes && comp.nodes !! visited0 && root in comp.nodes
    ensures comp.nodes <= d.nodes && comp == Induced(d, comp.nodes)
    ensures Closed(d, visited) && Closed(d, comp.nodes)
    ensures WeaklyConnected(comp)
  {
    comp := Graph({}, {});
    visited := visited0 + {root};
    var stack := [root];
    ghost var done: set<NodeId> := {};
    while stack != []
      invariant Walking(d, root, visited0, comp, visited, stack, done)
      decreases |d.nodes - visited|, |stack|
    {
      comp, visited, stack, done := ExpandTop(d, u, root, visited0, comp, visited, stack, done);
    }
    WalkingDone(d, root, visited0, comp, visited, done);
  }

  /** Takes the top node off the stack and expands it. */
  method ExpandTop(d: Graph<NodeId>, u: Graph<NodeId>, ghost root: NodeId, ghost visited0: set<NodeId>,
                   comp: Graph<NodeId>, visited: set<NodeId>, stack: seq<NodeId>, ghost done: set<NodeId>)
      returns (comp': Graph<NodeId>, visited': set<NodeId>, stack': seq<NodeId>, ghost done': set<NodeId>)
    requires d.Valid() && u == Undirected(d) && Closed(d, visited0)
    requires stack != [] && Walking(d, root, visited0, comp, visited, stack, done)
    ensures Walking(d, root, visited0, comp', visited', stack', done')
    ensures |d.nodes - visited'| < |d.nodes - visited| || (visited' == visited && |stack'| < |stack|)
  {
    var t := stack[|stack| - 1];
    assert t in stack;
    comp', visited', stack' := Expand(d, u, t, comp, visited, stack[..|stack| - 1], done);
    done' := done + {t};
    WalkingStep(d, root, visited0, comp, visited, stack, done, comp', visited', stack');
    if visited' != visited {
      SmallerSet(d.nodes - visited', d.nodes - visited);
    }
  }

  /** The state of a component walk: `done` nodes are expanded, the other visited ones are on the stack. */
  ghost predicate Walking(d: Graph<NodeId>, root: NodeId, visited0: set<NodeId>, comp: Graph<NodeId>,
                          visited: set<NodeId>, stack: seq<NodeId>, done: set<NodeId>) {
    && Frontier(d, root, visited0, visited, stack, done)
    && done <= comp.nodes <= visited - visited0
    && (forall a, b :: (a, b) in comp.edges <==> Collected(d, done, a, b))
  }

  ghost predicate Frontier(d: Graph<NodeId>, root: NodeId, visited0: set<NodeId>,
                           visited: set<NodeId>, stack: seq<NodeId>, done: set<NodeId>) {
    && visited0 <= visited <= d.nodes && root in visited && done <= visited - visited0
    && (forall m :: m in visited <==> m in visited0 || m in done || m in stack)
    && (forall m :: m in stack ==> m !in visited0)
    && (forall t :: t in done ==> Undirected(d).From(t) <= visited - visited0)
    && (forall m :: m in visited - visited0 ==> Linked(d, root, m))
  }

  /** When the stack is empty the component is complete. */
  lemma WalkingDone(d: Graph<NodeId>, root: NodeId, visited0: set<NodeId>, comp: Graph<NodeId>,
                    visited: set<NodeId>, done: set<NodeId>)
    requires d.Valid() && Closed(d, visited0) && root !in visited0
    requires Walking(d, root, visited0, comp, visited, [], done)
    ensures comp.nodes == visited - visited0 && comp == Induced(d, comp.nodes)
    ensures Closed(d, visited) && Closed(d, comp.nodes) && WeaklyConnected(comp)
  {
    forall m | m in visited - visited0 ensures m in done {
      assert m !in [];
    }
    assert done == comp.nodes && visited == visited0 + comp.nodes;
    ExpandedIsInduced(d, comp, visited0);
    ClosedLinkedIsConnected(d, comp.nodes, root);
  }

  lemma WalkingStep(d: Graph<NodeId>, root: NodeId, visited0: set<NodeId>, comp: Graph<NodeId>, visited: set<NodeId>,
                    stack: seq<NodeId>, done: set<NodeId>,
                    comp': Graph<NodeId>, visited': set<NodeId>, stack': seq<NodeId>)
    requires stack != [] && Closed(d, visited0) && Walking(d, root, visited0, comp, visited, stack, done)
    requires var t := stack[|stack| - 1];
      && comp'.nodes == comp.nodes + {t} + Undirected(d).From(t)
      && (forall a, b :: (a, b) in comp'.edges <==> Collected(d, done + {t}, a, b))
      && visited' == visited + Undirected(d).From(t)
      && forall m :: m in stack' <==> m in stack[..|stack| - 1] || m in Undirected(d).From(t) - visited
    ensures Walking(d, root, visited0, comp', visited', stack', done + {stack[|stack| - 1]})
  {
    var t := stack[|stack| - 1];
    assert stack == stack[..|stack| - 1] + [t];
    assert t in stack;
    NeighboursUnvisited(d, visited0, t);
    LinkNeighbours(d, root, t);
    assert forall m :: m in stack <==> m in stack[..|stack| - 1] || m == t;
  }

  lemma NeighboursUnvisited(d: Graph<NodeId>, visited: set<NodeId>, t: NodeId)
    requires Closed(d, visited) && t !in visited
    ensures Undirected(d).From(t) !! visited
  {
    forall m | m in Undirected(d).From(t) ensures m !in visited {
      UndirectedEdges(d, t, m);
    }
  }

  lemma LinkNeighbours(d: Graph<NodeId>, root: NodeId, t: NodeId)
    requires Linked(d, root, t)
    ensures forall m :: m in Undirected(d).From(t) ==> Linked(d, root, m)
  {
    forall m | m in Undirected(d).From(t) ensures Linked(d, root, m) {
      Undirected(d).EdgeReaches(t, m);
      LinkedTransitive(d, root, t, m);
    }
  }

  /** When every node of the component has been expanded it is an induced, closed subgraph. */
  lemma ExpandedIsInduced(d: Graph<NodeId>, comp: Graph<NodeId>, visited0: set<NodeId>)
    requires d.Valid() && comp.nodes !! visited0 && Closed(d, visited0)
    requires forall a, b :: (a, b) in comp.edges <==> Collected(d, comp.nodes, a, b)
    requires forall t :: t in comp.nodes ==> Undirected(d).From(t) <= comp.nodes
    ensures Closed(d, comp.nodes) && Closed(d, visited0 + comp.nodes)
    ensures comp == Induced(d, comp.nodes)
  {
    forall a, b | (a, b) in d.edges ensures a in comp.nodes <==> b in comp.nodes {
      UndirectedEdges(d, a, b);
      UndirectedEdges(d, b, a);
      assert a in comp.nodes ==> b in Undirected(d).From(a);
      assert b in comp.nodes ==> a in Undirected(d).From(b);
    }
    forall e ensures e in comp.edges <==> e in Induced(d, comp.nodes).edges {
      var (a, b) := e;
    }
  }

  /** The components partition the nodes; each is weakly connected and has exactly the edges between
      its nodes, in their original direction; no edge joins two components. */
  ghost predicate ExactSplit(d: Graph<NodeId>, comps: seq<Graph<NodeId>>) {
    && (forall n {:trigger InSomePart(comps, n)} :: n in d.nodes <==> InSomePart(comps, n))
    && (forall k, l :: 0 <= k < l < |comps| ==> comps[k].nodes !! comps[l].nodes)
    && (forall k {:trigger PartOf(d, comps[k])} :: 0 <= k < |comps| ==> PartOf(d, comps[k]))
  }

  ghost predicate InSomePart(comps: seq<Graph<NodeId>>, n: NodeId) {
    exists k :: 0 <= k < |comps| && n in comps[k].nodes
  }

  ghost predicate PartOf(d: Graph<NodeId>, comp: Graph<NodeId>) {
    && comp.nodes != {} && comp.nodes <= d.nodes
    && comp == Induced(d, comp.nodes)
    && Closed(d, comp.nodes)
    && WeaklyConnected(comp)
  }

  /** Every node and edge of the directed graph, as an undirected graph. */
  method BuildUndirectedGraph(d: Graph<NodeId>) returns (u: Graph<NodeId>)
    ensures u == Undirected(d)
  {
    u := Graph(d.nodes, {});
    var todo := d.edges;
    while todo != {}
      invariant todo <= d.edges
      invariant u == Undirected(Graph(d.nodes, d.edges - todo))
    {
      var e :| e in todo;
      u := Graph(u.nodes, u.edges + {e, (e.1, e.0)});
      todo := todo - {e};
    }
  }

  method FindConnectedComponents(d: Graph<NodeId>) returns (comps: seq<Graph<NodeId>>)
    requires d.Valid()
    ensures ExactSplit(d, comps)
  {
    var u := BuildUndirectedGraph(d);
    comps := [];
    var visited: set<NodeId> := {};
    var todo := d.nodes;
    while todo != {}
      invariant todo <= d.nodes && d.nodes - todo <= visited <= d.nodes && Closed(d, visited)
      invariant forall n {:trigger InSomePart(comps, n)} :: n in visited <==> InSomePart(comps, n)
      invariant forall k, l :: 0 <= k < l < |comps| ==> comps[k].nodes !! comps[l].nodes
      invariant forall k :: 0 <= k < |comps| ==> PartOf(d, comps[k])
    {
      var from :| from in todo;
      todo := todo - {from};
      if from !in visited {
        ghost var before := visited;
        var comp;
        comp, visited := WalkComponent(d, u, from, visited);
        ghost var compsBefore := comps;
        comps := comps + [comp];
        forall k, n | 0 <= k < |compsBefore| && n in compsBefore[k].nodes ensures n !in comp.nodes {
          assert InSomePart(compsBefore, n);
        }
        forall n ensures n in visited <==> InSomePart(comps, n) {
          if n in before {
            assert InSomePart(compsBefore, n);
            var k :| 0 <= k < |compsBefore| && n in compsBefore[k].nodes;
            assert n in comps[k].nodes;
          } else if n in comp.nodes {
            assert n in comps[|compsBefore|].nodes;
          } else if InSomePart(comps, n) {
            var k :| 0 <= k < |comps| && n in comps[k].nodes;
            assert n in compsBefore[k].nodes;
            assert InSomePart(compsBefore, n);
          }
        }
      }
    }
    assert visited == d.nodes;
  }

  /** A cycle lies inside a component exactly when it lies in the graph. */
  lemma PartIsAcyclicIff(d: Graph<NodeId>, comp: Graph<NodeId>, n: NodeId)
    requires PartOf(d, comp) && n in comp.nodes
    ensures comp.Reaches(n, n) <==> d.Reaches(n, n)
  {
    if comp.Reaches(n, n) {
      d.ReachesMonotone(comp, n, n);
    }
    if d.Reaches(n, n) {
      var w :| d.WalkFromTo(w, n, n);
      DirectedWalkStaysInside(d, comp, w);
      assert comp.WalkFromTo(w, n, n);
    }
  }

  lemma {:induction false} DirectedWalkStaysInside(d: Graph<NodeId>, comp: Graph<NodeId>, w: seq<NodeId>)
    requires PartOf(d, comp) && d.IsWalk(w) && w[0] in comp.nodes
    ensures comp.IsWalk(w) && w[|w| - 1] in comp.nodes
    decreases |w|
  {
    if |w| > 1 {
      var front := w[..|w| - 1];
      var u, v := w[|w| - 2], w[|w| - 1];
      assert (u, v) in d.edges;
      assert front[0] == w[0] && front[|front| - 1] == u;
      DirectedWalkStaysInside(d, comp, front);
      assert v in comp.nodes;
      assert (u, v) in Induced(d, comp.nodes).edges;
      forall i | 0 <= i < |w| - 1 ensures (w[i], w[i + 1]) in comp.edges {
        if i < |w| - 2 {
          assert (front[i], front[i + 1]) in comp.edges;
        }
      }
    }
  }

  /** All components are acyclic exactly when the whole graph is. */
  lemma AcyclicIffComponentsAre(d: Graph<NodeId>, comps: seq<Graph<NodeId>>)
    requires d.Valid() && ExactSplit(d, comps)
    ensures d.Acyclic() <==> forall k :: 0 <= k < |comps| ==> comps[k].Acyclic()
  {
    if d.Acyclic() {
      forall k | 0 <= k < |comps| ensures comps[k].Acyclic() {
        assert PartOf(d, comps[k]);
        forall n | n in comps[k].nodes ensures !comps[k].Reaches(n, n) {
          PartIsAcyclicIff(d, comps[k], n);
        }
      }
    }
    if forall k :: 0 <= k < |comps| ==> comps[k].Acyclic() {
      forall n | n in d.nodes ensures !d.Reaches(n, n) {
        assert InSomePart(comps, n);
        var k :| 0 <= k < |comps| && n in comps[k].nodes;
        assert PartOf(d, comps[k]);
        PartIsAcyclicIff(d, comps[k], n);
      }
    }
  }

  /** A component and its nodes in an order in which they could be deployed one by one. */
  datatype SortedComponent = SortedComponent(graph: Graph<NodeId>, sortedNodes: seq<NodeId>)

  function Graphs(sorted: seq<SortedComponent>): seq<Graph<NodeId>> {
    seq(|sorted|, i requires 0 <= i < |sorted| => sorted[i].graph)
  }

  /** Every node once, no one before one of its dependencies. */
  ghost predicate TopologicalOrder(g: Graph<NodeId>, nodes: seq<NodeId>) {
    Lists(nodes, g.nodes) && forall i, j :: 0 <= i < j < |nodes| ==> (nodes[j], nodes[i]) !in g.edges
  }

  /** The library's topological sort: an order of the nodes of exactly each acyclic graph. */
  ghost predicate IsTopologicalSort(topoSort: Graph<NodeId> -> Option<seq<NodeId>>) {
    forall g: Graph<NodeId> :: g.Valid() ==>
      && (topoSort(g).Some? <==> g.Acyclic())
      && (topoSort(g).Some? ==> TopologicalOrder(g, topoSort(g).value))
  }

  /** The components of an environment, each with its nodes in topological order, or one error per cyclic component. */
  method GetIndependentlySortedConfigs(d: Graph<NodeId>, topoSort: Graph<NodeId> -> Option<seq<NodeId>>)
      returns (sorted: seq<SortedComponent>, errors: nat)
    requires d.Valid() && IsTopologicalSort(topoSort)
    ensures errors == 0 <==> d.Acyclic()
    ensures errors == 0 ==>
      && ExactSplit(d, Graphs(sorted))
      && forall k :: 0 <= k < |sorted| ==>
           sorted[k].graph.Acyclic() && TopologicalOrder(sorted[k].graph, sorted[k].sortedNodes)
    ensures errors > 0 ==> sorted == []
  {
    var comps := FindConnectedComponents(d);
    sorted, errors := [], 0;
    for i := 0 to |comps|
      invariant errors == 0 <==> forall k :: 0 <= k < i ==> comps[k].Acyclic()
      invariant errors == 0 ==> |sorted| == i && forall k :: 0 <= k < i ==>
        sorted[k].graph == comps[k] && TopologicalOrder(comps[k], sorted[k].sortedNodes)
    {
      assert PartOf(d, comps[i]);
      var nodes := topoSort(comps[i]);
      if nodes.None? {
        errors := errors + 1;
      } else {
        sorted := sorted + [SortedComponent(comps[i], nodes.value)];
      }
    }
    AcyclicIffComponentsAre(d, comps);
    if errors > 0 {
      sorted := [];
    } else {
      assert Graphs(sorted) == comps;
    }
  }
}
