/** Finite directed graphs, walks and reachability: the vocabulary shared by the
    deployment engine, the component split and the topological sort. */
module Digraph {
  import opened Listings

  datatype Graph<!T(!new,==)> = Graph(nodes: set<T>, edges: set<(T, T)>) {

    /** Every edge joins two nodes. */
    ghost predicate Valid() {
      forall u, v :: (u, v) in edges ==> u in nodes && v in nodes
    }

    /** The nodes with an edge into `n`. */
    function To(n: T): set<T> {
      set p | p in nodes && (p, n) in edges
    }

    /** The nodes with an edge out of `n`. */
    function From(n: T): set<T> {
      set c | c in nodes && (n, c) in edges
    }

    /** The nodes without incoming edges. */
    function Roots(): set<T> {
      set n | n in nodes && To(n) == {}
    }

    /** The graph without the nodes in `dead` and the edges that touch them. */
    function Remove(dead: set<T>): Graph<T> {
      Graph(nodes - dead, set e | e in edges && e.0 !in dead && e.1 !in dead)
    }

    // A walk of k edges is a sequence of k + 1 nodes.
    ghost predicate IsWalk(w: seq<T>) {
      |w| > 0 && forall i :: 0 <= i < |w| - 1 ==> (w[i], w[i + 1]) in edges
    }

    ghost predicate WalkFromTo(w: seq<T>, u: T, v: T) {
      |w| >= 2 && IsWalk(w) && w[0] == u && w[|w| - 1] == v
    }

    /** `u` is a proper ancestor of `v`: some walk of at least one edge leads from `u` to `v`. */
    ghost predicate Reaches(u: T, v: T) {
      exists w :: WalkFromTo(w, u, v)
    }

    ghost predicate Acyclic() {
      forall n :: n in nodes ==> !Reaches(n, n)
    }

    ghost function Ancestors(n: T): set<T> {
      set a | a in nodes && Reaches(a, n)
    }

    ghost function Descendants(n: T): set<T> {
      set d | d in nodes && Reaches(n, d)
    }

    /** Some walk of exactly `k` edges ends at `n`. */
    ghost predicate WalkEndsAt(n: T, k: nat) {
      exists w :: IsWalk(w) && |w| == k + 1 && w[k] == n
    }

    /** `k` is the number of edges of a longest walk ending at `n`. */
    ghost predicate LongestWalk(n: T, k: nat) {
      WalkEndsAt(n, k) && forall j: nat :: WalkEndsAt(n, j) ==> j <= k
    }

    lemma EdgeReaches(u: T, v: T)
      requires (u, v) in edges
      ensures Reaches(u, v)
    {
      assert WalkFromTo([u, v], u, v);
    }

    lemma ReachesTransitive(u: T, m: T, v: T)
      requires Reaches(u, m) && Reaches(m, v)
      ensures Reaches(u, v)
    {
      var a :| WalkFromTo(a, u, m);
      var b :| WalkFromTo(b, m, v);
      assert WalkFromTo(a + b[1..], u, v);
    }

    /** The last edge of a walk. */
    lemma ReachesLast(u: T, v: T) returns (p: T)
      requires Reaches(u, v)
      ensures (p, v) in edges && (p == u || Reaches(u, p))
    {
      var w :| WalkFromTo(w, u, v);
      p := w[|w| - 2];
      if |w| > 2 {
        assert WalkFromTo(w[..|w| - 1], u, p);
      }
    }

    /** The first edge of a walk. */
    lemma ReachesFirst(u: T, v: T) returns (c: T)
      requires Reaches(u, v)
      ensures (u, c) in edges && (c == v || Reaches(c, v))
    {
      var w :| WalkFromTo(w, u, v);
      c := w[1];
      if |w| > 2 {
        assert WalkFromTo(w[1..], c, v);
      }
    }

    lemma AncestorsShrink(p: T, n: T)
      requires Valid() && Acyclic() && (p, n) in edges
      ensures Ancestors(p) < Ancestors(n)
    {
      EdgeReaches(p, n);
      forall a | a in Ancestors(p) ensures a in Ancestors(n) {
        ReachesTransitive(a, p, n);
      }
      assert p in Ancestors(n) && p !in Ancestors(p);
    }

    /** Every node of `s` has a predecessor in `s`. */
    ghost predicate PredecessorClosed(s: set<T>) {
      forall x {:trigger PredecessorIn(s, x)} :: x in s ==> PredecessorIn(s, x)
    }

    ghost predicate PredecessorIn(s: set<T>, x: T) {
      exists p :: p in s && (p, x) in edges
    }

    lemma AncestorsOfPredecessor(p: T, v: T)
      requires p in nodes && (p, v) in edges && !Reaches(p, p)
      ensures Reaches(p, v)
      ensures |Ancestors(p)| < |Ancestors(v)|
    {
      EdgeReaches(p, v);
      forall a | a in Ancestors(p) ensures a in Ancestors(v) {
        ReachesTransitive(a, p, v);
      }
      assert p in Ancestors(v) && p !in Ancestors(p);
      SmallerSet(Ancestors(p), Ancestors(v));
    }

    /** Following predecessors inside a finite set that always has one leads back to a cycle. */
    lemma {:induction false} CycleBehind(s: set<T>, v: T) returns (c: T)
      requires s <= nodes && v in s && PredecessorClosed(s)
      ensures c in s && Reaches(c, c) && (c == v || Reaches(c, v))
      decreases |Ancestors(v)|
    {
      if Reaches(v, v) {
        return v;
      }
      assert PredecessorIn(s, v);
      var p :| p in s && (p, v) in edges;
      EdgeReaches(p, v);
      if Reaches(p, p) {
        return p;
      }
      AncestorsOfPredecessor(p, v);
      c := CycleBehind(s, p);
      if c != p {
        ReachesTransitive(c, p, v);
      }
    }

    /** A non-empty acyclic graph has a root. */
    lemma AcyclicHasRoot()
      requires Valid() && Acyclic() && nodes != {}
      ensures Roots() != {}
    {
      if Roots() == {} {
        forall x | x in nodes ensures PredecessorIn(nodes, x) {
          assert x !in Roots();
          var p :| p in To(x);
        }
        assert PredecessorClosed(nodes);
        var v :| v in nodes;
        var c := CycleBehind(nodes, v);
      }
    }

    /** A walk in a subgraph is a walk in the graph. */
    lemma ReachesMonotone(sub: Graph<T>, u: T, v: T)
      requires forall x, y :: (x, y) in sub.edges ==> (x, y) in edges
      requires sub.Reaches(u, v)
      ensures Reaches(u, v)
    {
      var w :| sub.WalkFromTo(w, u, v);
      assert WalkFromTo(w, u, v);
    }

    /** Deleting a set that contains all its successors keeps every other walk. */
    lemma {:induction false} RemoveClosedReaches(dead: set<T>, w: seq<T>, u: T, v: T)
      requires WalkFromTo(w, u, v)
      requires forall x, y :: x in dead && (x, y) in edges ==> y in dead
      requires v !in dead
      ensures Remove(dead).WalkFromTo(w, u, v)
      decreases |w|
    {
      assert (w[|w| - 2], v) in edges;
      if |w| > 2 {
        RemoveClosedReaches(dead, w[..|w| - 1], u, w[|w| - 2]);
      }
    }

    /** Descendants after deleting a successor-closed set. */
    lemma DescendantsAfterRemove(dead: set<T>, n: T)
      requires Valid()
      requires forall x, y :: x in dead && (x, y) in edges ==> y in dead
      ensures Remove(dead).Descendants(n) == Descendants(n) - dead
    {
      var sub := Remove(dead);
      forall d | d in sub.Descendants(n) ensures d in Descendants(n) - dead {
        ReachesMonotone(sub, n, d);
      }
      forall d | d in Descendants(n) - dead ensures d in sub.Descendants(n) {
        var w :| WalkFromTo(w, n, d);
        RemoveClosedReaches(dead, w, n, d);
      }
    }

    lemma RemoveAcyclic(dead: set<T>)
      requires Acyclic()
      ensures Remove(dead).Acyclic()
    {
      forall n | n in Remove(dead).nodes ensures !Remove(dead).Reaches(n, n) {
        if Remove(dead).Reaches(n, n) {
          ReachesMonotone(Remove(dead), n, n);
        }
      }
    }

    lemma RemoveTwice(a: set<T>, b: set<T>)
      ensures Remove(a).Remove(b) == Remove(a + b)
    {
    }

    /** A walk to a predecessor extends by one edge. */
    lemma WalkExtends(p: T, n: T, k: nat)
      requires WalkEndsAt(p, k) && (p, n) in edges
      ensures WalkEndsAt(n, k + 1)
    {
      var w :| IsWalk(w) && |w| == k + 1 && w[k] == p;
      assert IsWalk(w + [n]);
    }

    lemma WalkOfZero(n: T)
      ensures WalkEndsAt(n, 0)
    {
      assert IsWalk([n]);
    }

    /** A walk of k + 1 edges ends with an edge from a node where a walk of k edges ends. */
    lemma WalkShrinks(n: T, k: nat) returns (p: T)
      requires WalkEndsAt(n, k + 1)
      ensures (p, n) in edges && WalkEndsAt(p, k)
    {
      var w :| IsWalk(w) && |w| == k + 2 && w[k + 1] == n;
      p := w[k];
      assert IsWalk(w[..k + 1]);
    }
  }
}
