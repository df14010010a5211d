/** Kahn's algorithm on a matrix of incoming edges that it destroys in place. */
module TopologySort {
  import opened Digraph
  import opened Listings

  datatype SortError = SortError(onId: nat, unresolvedIncomingEdgesFrom: seq<nat>)

  /** The graph of a matrix: `e[i][j]` marks an edge from j to i. */
  ghost function GraphOf(e: seq<seq<bool>>): Graph<nat>
    requires Square(e)
  {
    Graph(Indices(|e|), set j: nat, i: nat | i < |e| && j < |e| && e[i][j] :: (j, i))
  }

  ghost function Indices(n: nat): (s: set<nat>)
    ensures forall i: nat :: i in s <==> i < n
  {
    if n == 0 then {} else Indices(n - 1) + {n - 1}
  }

  predicate Square(e: seq<seq<bool>>) {
    forall i :: 0 <= i < |e| ==> |e[i]| == |e|
  }

  /** The sources of the edges into `i` that are not in `done`. */
  ghost function Pending(e: seq<seq<bool>>, done: set<nat>, i: nat): set<nat>
    requires Square(e) && i < |e|
  {
    set j | 0 <= j < |e| && e[i][j] && j !in done
  }

  ghost function Elements(s: seq<nat>): set<nat> {
    set x | x in s
  }

  /** `s` is the increasing list of the elements of `a`. */
  ghost predicate Increasing(s: seq<nat>, a: set<nat>) {
    && (forall x :: x in s <==> x in a)
    && (forall i, j :: 0 <= i < j < |s| ==> s[i] < s[j])
  }

  lemma IncreasingAppend(s: seq<nat>, a: set<nat>, x: nat)
    requires Increasing(s, a) && forall y :: y in a ==> y < x
    ensures Increasing(s + [x], a + {x})
  {
    forall i, j | 0 <= i < j < |s + [x]| ensures (s + [x])[i] < (s + [x])[j] {
      if j == |s| {
        assert s[i] in s;
      }
    }
  }

  /** The matrix holds exactly the edges whose source is not yet sorted, with matching in-degrees. */
  ghost predicate Matches(m: array2<bool>, inDegrees: array<int>, e: seq<seq<bool>>, done: set<nat>, i: nat)
    requires Square(e) && m.Length0 == m.Length1 == inDegrees.Length == |e| && i < |e|
    reads m, inDegrees
  {
    && (forall j :: 0 <= j < |e| ==> (m[i, j] <==> j in Pending(e, done, i)))
    && inDegrees[i] == |Pending(e, done, i)|
  }

  /** All nodes with in-degree zero, in increasing order. */
  method GetAllLeaves(inDegrees: array<int>) returns (nodes: seq<nat>)
    ensures Increasing(nodes, set i | 0 <= i < inDegrees.Length && inDegrees[i] == 0)
  {
    nodes := [];
    for i := 0 to inDegrees.Length
      invariant Increasing(nodes, set k | 0 <= k < i && inDegrees[k] == 0)
    {
      if inDegrees[i] == 0 {
        IncreasingAppend(nodes, (set k | 0 <= k < i && inDegrees[k] == 0), i);
        nodes := nodes + [i];
      }
      assert (set k | 0 <= k < i + 1 && inDegrees[k] == 0)
          == (set k | 0 <= k < i && inDegrees[k] == 0) + if inDegrees[i] == 0 then {i} else {};
    }
  }

  /** The columns marked in row `i`, in increasing order. */
  method GetSourceOfIncomingEdges(m: array2<bool>, i: nat) returns (sources: seq<nat>)
    requires i < m.Length0
    ensures Increasing(sources, set j | 0 <= j < m.Length1 && m[i, j])
  {
    sources := [];
    for j := 0 to m.Length1
      invariant Increasing(sources, set k | 0 <= k < j && m[i, k])
    {
      if m[i, j] {
        IncreasingAppend(sources, (set k | 0 <= k < j && m[i, k]), j);
        sources := sources + [j];
      }
      assert (set k | 0 <= k < j + 1 && m[i, k]) == (set k | 0 <= k < j && m[i, k]) + if m[i, j] then {j} else {};
    }
  }

  /** Every sorted node comes after all its predecessors. */
  ghost predicate RespectsEdges(e: seq<seq<bool>>, sorted: seq<nat>)
    requires Square(e)
  {
    forall k, j {:trigger e[sorted[k]][j]} ::
      0 <= k < |sorted| && sorted[k] < |e| && 0 <= j < |e| && e[sorted[k]][j] ==> j in sorted[..k]
  }

  /** Between iterations: sorted and queued nodes are exactly the nodes without pending predecessors. */
  ghost predicate Sorting(e: seq<seq<bool>>, sorted: seq<nat>, queue: seq<nat>)
    requires Square(e)
  {
    && (forall x :: x in sorted || x in queue ==> x < |e|)
    && NoDuplicates(sorted + queue)
    && (forall i :: 0 <= i < |e| && Pending(e, Elements(sorted), i) == {} ==> i in sorted || i in queue)
    && (forall i :: i in queue && i < |e| ==> Pending(e, Elements(sorted), i) == {})
    && RespectsEdges(e, sorted)
  }

  /** `errs` lists in increasing order every unsorted node, each with its unsorted predecessors. */
  ghost predicate ReportsUnsorted(e: seq<seq<bool>>, sorted: seq<nat>, errs: seq<SortError>, n: nat)
    requires Square(e) && n <= |e|
  {
    && (forall k :: 0 <= k < |errs| ==>
          && errs[k].onId < n && errs[k].onId !in sorted
          && errs[k].unresolvedIncomingEdgesFrom != []
          && Increasing(errs[k].unresolvedIncomingEdgesFrom, Pending(e, Elements(sorted), errs[k].onId)))
    && (forall k, l :: 0 <= k < l < |errs| ==> errs[k].onId < errs[l].onId)
    && (forall i :: 0 <= i < n && i !in sorted ==> exists k :: 0 <= k < |errs| && errs[k].onId == i)
  }

  ghost function Matrix(m: array2<bool>): (e: seq<seq<bool>>)
    reads m
    ensures |e| == m.Length0
    ensures forall i :: 0 <= i < |e| ==> |e[i]| == m.Length1
    ensures forall i, j :: 0 <= i < |e| && 0 <= j < m.Length1 ==> e[i][j] == m[i, j]
  {
    seq(m.Length0, i requires 0 <= i < m.Length0 reads m =>
      seq(m.Length1, j requires 0 <= j < m.Length1 reads m => m[i, j]))
  }

  /** Erases the edge from `cur` to `i` if there is one, and says whether it was the last one into `i`. */
  method EraseEdge(m: array2<bool>, inDegrees: array<int>, i: nat, cur: nat) returns (freed: bool)
    requires m.Length0 == m.Length1 == inDegrees.Length && i < m.Length0 && cur < m.Length0
    modifies m, inDegrees
    ensures forall k, j {:trigger m[k, j]} :: 0 <= k < m.Length0 && 0 <= j < m.Length1 ==>
      m[k, j] == (old(m[k, j]) && !(k == i && j == cur))
    ensures forall k :: 0 <= k < inDegrees.Length ==>
      inDegrees[k] == old(inDegrees[k]) - if k == i && old(m[i, cur]) then 1 else 0
    ensures freed <==> old(m[i, cur]) && inDegrees[i] <= 0
  {
    freed := false;
    if m[i, cur] {
      m[i, cur] := false;
      inDegrees[i] := inDegrees[i] - 1;
      if inDegrees[i] <= 0 {
        freed := true;
      }
    }
  }

  /** Erases the edges out of `cur`; nodes that lose their last incoming edge join the queue. */
  method ReleaseSuccessors(m: array2<bool>, inDegrees: array<int>, ghost e: seq<seq<bool>>, ghost done: set<nat>,
                           cur: nat, queue0: seq<nat>)
      returns (queue: seq<nat>, ghost added: seq<nat>)
    requires Square(e) && m.Length0 == m.Length1 == inDegrees.Length == |e| && cur < |e| && cur !in done
    requires forall i: nat :: i < |e| ==> Matches(m, inDegrees, e, done, i)
    modifies m, inDegrees
    ensures forall i: nat :: i < |e| ==> Matches(m, inDegrees, e, done + {cur}, i)
    ensures queue == queue0 + added
    ensures Increasing(added, Released(e, done, cur, |e|))
  {
    queue, added := queue0, [];
    assert forall k: nat :: k < |e| ==> Matches(m, inDegrees, e, done, k) && inDegrees[k] == |Pending(e, done, k)|;
    assert forall k, j {:trigger m[k, j]} :: 0 <= k < |e| && 0 <= j < |e| ==>
      (m[k, j] <==> j in Pending(e, done, k)) by {
      forall k: nat, j: nat | k < |e| && j < |e| ensures m[k, j] <==> j in Pending(e, done, k) {
        assert Matches(m, inDegrees, e, done, k);
      }
    }
    for i := 0 to inDegrees.Length
      invariant forall k, j {:trigger m[k, j]} :: 0 <= k < |e| && 0 <= j < |e| ==>
        (m[k, j] <==> j in Pending(e, done, k) && !(k < i && j == cur))
      invariant forall k: nat {:trigger inDegrees[k]} :: k < |e| ==>
        inDegrees[k] == |Pending(e, if k < i then done + {cur} else done, k)|
      invariant queue == queue0 + added
      invariant Increasing(added, Released(e, done, cur, i))
    {
      PendingShrinks(e, done, cur, i);
      ReleasedGrows(e, done, cur, i, added);
      var freed := EraseEdge(m, inDegrees, i, cur);
      if freed {
        queue := queue + [i];
        added := added + [i];
      }
    }
    forall k: nat | k < |e| ensures Matches(m, inDegrees, e, done + {cur}, k) {
      assert inDegrees[k] == |Pending(e, done + {cur}, k)|;
    }
  }

  /** The nodes below `n` whose last pending predecessor is `cur`. */
  ghost function Released(e: seq<seq<bool>>, done: set<nat>, cur: nat, n: nat): set<nat>
    requires Square(e) && n <= |e| && cur < |e|
  {
    set i: nat | i < n && e[i][cur] && Pending(e, done + {cur}, i) == {}
  }

  lemma PendingShrinks(e: seq<seq<bool>>, done: set<nat>, cur: nat, i: nat)
    requires Square(e) && i < |e| && cur < |e| && cur !in done
    ensures Pending(e, done + {cur}, i) == Pending(e, done, i) - {cur}
    ensures |Pending(e, done + {cur}, i)| == |Pending(e, done, i)| - if e[i][cur] then 1 else 0
  {
    assert cur in Pending(e, done, i) <==> e[i][cur];
    assert Pending(e, done + {cur}, i) == Pending(e, done, i) - {cur};
  }

  lemma ReleasedGrows(e: seq<seq<bool>>, done: set<nat>, cur: nat, i: nat, added: seq<nat>)
    requires Square(e) && i < |e| && cur < |e| && Increasing(added, Released(e, done, cur, i))
    ensures Increasing(if e[i][cur] && |Pending(e, done + {cur}, i)| == 0 then added + [i] else added,
                       Released(e, done, cur, i + 1))
  {
    var joins := e[i][cur] && Pending(e, done + {cur}, i) == {};
    if joins {
      IncreasingAppend(added, Released(e, done, cur, i), i);
      assert Released(e, done, cur, i + 1) == Released(e, done, cur, i) + {i};
    } else {
      assert Released(e, done, cur, i + 1) == Released(e, done, cur, i);
    }
  }

  /** One iteration: the queue's head is sorted and its released successors are queued. */
  lemma SortingStep(e: seq<seq<bool>>, sorted: seq<nat>, cur: nat, rest: seq<nat>, added: seq<nat>)
    requires Square(e) && cur < |e| && Sorting(e, sorted, [cur] + rest)
    requires Increasing(added, Released(e, Elements(sorted), cur, |e|))
    ensures Sorting(e, sorted + [cur], rest + added)
    ensures Elements(sorted + [cur]) == Elements(sorted) + {cur}
  {
    var done := Elements(sorted);
    var queue := [cur] + rest;
    assert queue[0] == cur && cur in queue;
    assert Pending(e, done, cur) == {};
    assert Elements(sorted + [cur]) == done + {cur};
    CurrentIsNew(sorted, cur, rest);
    ReleasedAreNew(e, sorted, cur, rest);
    AppendNew(sorted, cur, rest, added);
    RespectsAppend(e, sorted, cur);
    forall x | x in sorted + [cur] || x in rest + added ensures x < |e| {
      assert x in rest ==> x in queue;
      assert x in added ==> x in Released(e, done, cur, |e|);
    }
    forall i | 0 <= i < |e| && Pending(e, done + {cur}, i) == {} ensures i in sorted + [cur] || i in rest + added {
      if Pending(e, done, i) != {} {
        var j :| j in Pending(e, done, i);
        assert j == cur by { assert j !in Pending(e, done + {cur}, i); }
        assert i in Released(e, done, cur, |e|);
      }
    }
    forall i | i in rest + added && i < |e| ensures Pending(e, done + {cur}, i) == {} {
      if i in rest {
        assert i in queue;
        assert Pending(e, done + {cur}, i) <= Pending(e, done, i);
      }
    }
  }

  lemma CurrentIsNew(sorted: seq<nat>, cur: nat, rest: seq<nat>)
    requires NoDuplicates(sorted + ([cur] + rest))
    ensures cur !in sorted && cur !in rest
  {
    var all := sorted + ([cur] + rest);
    assert all[|sorted|] == cur;
    assert forall k :: 0 <= k < |sorted| ==> all[k] == sorted[k];
    assert forall k :: 0 <= k < |rest| ==> all[|sorted| + 1 + k] == rest[k];
  }

  lemma ReleasedAreNew(e: seq<seq<bool>>, sorted: seq<nat>, cur: nat, rest: seq<nat>)
    requires Square(e) && Sorting(e, sorted, [cur] + rest) && cur < |e| && cur !in sorted && cur !in rest
    ensures forall i :: i in Released(e, Elements(sorted), cur, |e|) ==> i !in sorted && i !in rest && i != cur
  {
    forall i | i in Released(e, Elements(sorted), cur, |e|) ensures i !in sorted && i !in rest && i != cur {
      assert cur in Pending(e, Elements(sorted), i);
      assert i !in [cur] + rest;
      forall k | 0 <= k < |sorted| ensures sorted[k] != i {
        assert cur !in sorted[..k];
        assert e[i][cur];
      }
      assert i == cur ==> i in [cur] + rest;
      assert i in rest ==> i in [cur] + rest;
    }
  }

  lemma AppendNew(sorted: seq<nat>, cur: nat, rest: seq<nat>, added: seq<nat>)
    requires NoDuplicates(sorted + ([cur] + rest))
    requires forall i, j :: 0 <= i < j < |added| ==> added[i] < added[j]
    requires forall i :: i in added ==> i !in sorted && i !in rest && i != cur
    ensures NoDuplicates(sorted + [cur] + (rest + added))
  {
    var front := sorted + ([cur] + rest);
    assert sorted + [cur] + (rest + added) == front + added;
    forall i, j | 0 <= i < j < |front + added| ensures (front + added)[i] != (front + added)[j] {
      if i < |front| <= j {
        assert added[j - |front|] in added;
        assert front[i] in front;
      }
    }
  }

  lemma RespectsAppend(e: seq<seq<bool>>, sorted: seq<nat>, cur: nat)
    requires Square(e) && RespectsEdges(e, sorted) && cur < |e| && Pending(e, Elements(sorted), cur) == {}
    ensures RespectsEdges(e, sorted + [cur])
  {
    var longer := sorted + [cur];
    forall k, j {:trigger e[longer[k]][j]} | 0 <= k < |longer| && longer[k] < |e| && 0 <= j < |e| && e[longer[k]][j]
      ensures j in longer[..k]
    {
      if k < |sorted| {
        assert e[sorted[k]][j];
        assert longer[..k] == sorted[..k];
      } else {
        assert j !in Pending(e, Elements(sorted), cur);
        assert longer[..k] == sorted;
      }
    }
  }

  /** What the sort promises: a duplicate-free order that respects every edge into a sorted node, and one
      error per unsorted node with precisely its unsorted predecessors, of which there is at least one. */
  ghost predicate SortResult(e: seq<seq<bool>>, sorted: seq<nat>, errs: seq<SortError>)
    requires Square(e)
  {
    && NoDuplicates(sorted)
    && (forall x :: x in sorted ==> x < |e|)
    && RespectsEdges(e, sorted)
    && ReportsUnsorted(e, sorted, errs, |e|)
  }

  /** The nodes without predecessors come first, in increasing order. */
  ghost predicate LeavesFirst(e: seq<seq<bool>>, sorted: seq<nat>)
    requires Square(e)
  {
    exists leaves :: Increasing(leaves, Leaves(e)) && leaves <= sorted
  }

  ghost function Leaves(e: seq<seq<bool>>): set<nat>
    requires Square(e)
  {
    set i: nat | i < |e| && Pending(e, {}, i) == {}
  }

  method Sort(m: array2<bool>, inDegrees: array<int>) returns (sorted: seq<nat>, errs: seq<SortError>)
    requires m.Length0 == m.Length1 == inDegrees.Length
    requires forall i :: 0 <= i < inDegrees.Length ==> inDegrees[i] == |Pending(Matrix(m), {}, i)|
    modifies m, inDegrees
    ensures SortResult(old(Matrix(m)), sorted, errs)
    ensures LeavesFirst(old(Matrix(m)), sorted)
  {
    ghost var e := Matrix(m);
    var queue := GetAllLeaves(inDegrees);
    ghost var leaves := queue;
    sorted := [];
    StartSorting(e, queue, set i | 0 <= i < inDegrees.Length && inDegrees[i] == 0);
    assert Elements(sorted) == {};
    while queue != []
      invariant Sorting(e, sorted, queue) && leaves <= sorted + queue
      invariant forall i: nat :: i < |e| ==> Matches(m, inDegrees, e, Elements(sorted), i)
      decreases GraphOf(e).nodes - Elements(sorted)
    {
      var cur := queue[0];
      ghost var added;
      ghost var rest := queue[1..];
      assert queue == [cur] + rest;
      CurrentIsNew(sorted, cur, rest);
      ghost var before := sorted;
      sorted := sorted + [cur];
      queue, added := ReleaseSuccessors(m, inDegrees, e, Elements(before), cur, queue[1..]);
      SortingStep(e, before, cur, rest, added);
      PrefixStays(leaves, before, cur, rest, added);
    }
    errs := CollectErrors(m, inDegrees, e, sorted);
    assert sorted + queue == sorted;
  }

  lemma StartSorting(e: seq<seq<bool>>, queue: seq<nat>, leaves: set<nat>)
    requires Square(e) && Increasing(queue, leaves)
    requires forall i :: i in leaves <==> 0 <= i < |e| && |Pending(e, {}, i)| == 0
    ensures Sorting(e, [], queue) && Increasing(queue, Leaves(e))
  {
    assert Elements([]) == {};
    assert [] + queue == queue;
    assert Leaves(e) == leaves;
  }

  lemma PrefixStays(leaves: seq<nat>, sorted: seq<nat>, cur: nat, rest: seq<nat>, added: seq<nat>)
    requires leaves <= sorted + ([cur] + rest)
    ensures leaves <= (sorted + [cur]) + (rest + added)
  {
    assert (sorted + [cur]) + (rest + added) == sorted + ([cur] + rest) + added;
  }

  method CollectErrors(m: array2<bool>, inDegrees: array<int>, ghost e: seq<seq<bool>>, ghost sorted: seq<nat>)
      returns (errs: seq<SortError>)
    requires Square(e) && m.Length0 == m.Length1 == inDegrees.Length == |e|
    requires Sorting(e, sorted, [])
    requires forall i: nat :: i < |e| ==> Matches(m, inDegrees, e, Elements(sorted), i)
    ensures ReportsUnsorted(e, sorted, errs, |e|)
  {
    errs := [];
    for i := 0 to inDegrees.Length
      invariant ReportsUnsorted(e, sorted, errs, i)
    {
      assert Matches(m, inDegrees, e, Elements(sorted), i);
      UnsortedIffPending(e, sorted, i);
      ghost var before := errs;
      if inDegrees[i] != 0 {
        var sources := GetSourceOfIncomingEdges(m, i);
        assert (set j | 0 <= j < m.Length1 && m[i, j]) == Pending(e, Elements(sorted), i);
        errs := errs + [SortError(i, sources)];
      }
      ReportsNext(e, sorted, before, errs, i);
    }
  }

  lemma UnsortedIffPending(e: seq<seq<bool>>, sorted: seq<nat>, i: nat)
    requires Square(e) && Sorting(e, sorted, []) && i < |e|
    ensures i !in sorted <==> |Pending(e, Elements(sorted), i)| != 0
  {
    if i in sorted {
      var k :| 0 <= k < |sorted| && sorted[k] == i;
      forall j: nat | j < |e| && e[i][j] ensures j in sorted {
        assert e[sorted[k]][j];
        assert j in sorted[..k];
      }
      assert Pending(e, Elements(sorted), i) == {};
    } else {
      assert i !in [];
    }
  }

  lemma ReportsNext(e: seq<seq<bool>>, sorted: seq<nat>, errs: seq<SortError>, errs': seq<SortError>, i: nat)
    requires Square(e) && i < |e| && ReportsUnsorted(e, sorted, errs, i)
    requires i in sorted ==> errs' == errs
    requires i !in sorted ==>
      (&& |errs'| == |errs| + 1 && errs' == errs + [errs'[|errs|]]
       && errs'[|errs|].onId == i && errs'[|errs|].unresolvedIncomingEdgesFrom != []
       && Increasing(errs'[|errs|].unresolvedIncomingEdgesFrom, Pending(e, Elements(sorted), i)))
    ensures ReportsUnsorted(e, sorted, errs', i + 1)
  {
    forall k | 0 <= k < i + 1 && k !in sorted ensures exists l :: 0 <= l < |errs'| && errs'[l].onId == k {
      if k == i {
        assert errs'[|errs|].onId == k;
      } else {
        var l :| 0 <= l < |errs| && errs[l].onId == k;
        assert errs'[l].onId == k;
      }
    }
  }

  // ---------------------------------------------------------------------------
  // What a result says about cycles
  // ---------------------------------------------------------------------------

  lemma GraphEdges(e: seq<seq<bool>>, j: nat, i: nat)
    requires Square(e)
    ensures GraphOf(e).Valid()
    ensures (j, i) in GraphOf(e).edges <==> j < |e| && i < |e| && e[i][j]
  {
  }

  /** Everything that reaches a sorted node was sorted before it. */
  lemma {:induction false} AncestorsSortedBefore(e: seq<seq<bool>>, sorted: seq<nat>, k: nat, a: nat)
    requires Square(e) && (forall x :: x in sorted ==> x < |e|) && RespectsEdges(e, sorted)
    requires k < |sorted| && GraphOf(e).Reaches(a, sorted[k])
    ensures a in sorted[..k]
    decreases k
  {
    var p := GraphOf(e).ReachesLast(a, sorted[k]);
    assert sorted[k] in sorted;
    GraphEdges(e, p, sorted[k]);
    assert e[sorted[k]][p];
    var l :| 0 <= l < k && sorted[..k][l] == p;
    if p != a {
      AncestorsSortedBefore(e, sorted, l, a);
    }
  }

  /** The nodes with an error are exactly those on a cycle or reachable from one. */
  lemma UnsortedIffBehindCycle(e: seq<seq<bool>>, sorted: seq<nat>, errs: seq<SortError>, i: nat)
    requires Square(e) && SortResult(e, sorted, errs) && i < |e|
    ensures i !in sorted <==>
      exists c :: c in GraphOf(e).nodes && GraphOf(e).Reaches(c, c) && (c == i || GraphOf(e).Reaches(c, i))
    ensures i !in sorted <==> exists k :: 0 <= k < |errs| && errs[k].onId == i
  {
    var g := GraphOf(e);
    if i in sorted {
      var k :| 0 <= k < |sorted| && sorted[k] == i;
      forall c | c in g.nodes && g.Reaches(c, c) && (c == i || g.Reaches(c, i)) ensures false {
        CycleIsUnsorted(e, sorted, c);
        if c != i {
          AncestorsSortedBefore(e, sorted, k, c);
        }
      }
    } else {
      var unsorted := Indices(|e|) - Elements(sorted);
      UnsortedHavePredecessors(e, sorted, errs);
      var c := g.CycleBehind(unsorted, i);
    }
  }

  lemma CycleIsUnsorted(e: seq<seq<bool>>, sorted: seq<nat>, c: nat)
    requires Square(e) && NoDuplicates(sorted) && (forall x :: x in sorted ==> x < |e|) && RespectsEdges(e, sorted)
    requires GraphOf(e).Reaches(c, c)
    ensures c !in sorted
  {
    forall k | 0 <= k < |sorted| ensures sorted[k] != c {
      if sorted[k] == c {
        AncestorsSortedBefore(e, sorted, k, c);
        assert false;
      }
    }
  }

  lemma UnsortedHavePredecessors(e: seq<seq<bool>>, sorted: seq<nat>, errs: seq<SortError>)
    requires Square(e) && SortResult(e, sorted, errs)
    ensures GraphOf(e).PredecessorClosed(Indices(|e|) - Elements(sorted))
  {
    var unsorted := Indices(|e|) - Elements(sorted);
    forall x | x in unsorted ensures GraphOf(e).PredecessorIn(unsorted, x) {
      var k :| 0 <= k < |errs| && errs[k].onId == x;
      var j := errs[k].unresolvedIncomingEdgesFrom[0];
      assert j in errs[k].unresolvedIncomingEdgesFrom;
      assert j in Pending(e, Elements(sorted), x);
      GraphEdges(e, j, x);
    }
  }

  /** The sort succeeds exactly on acyclic graphs; then every node is sorted. */
  lemma NoErrorsIffAcyclic(e: seq<seq<bool>>, sorted: seq<nat>, errs: seq<SortError>)
    requires Square(e) && SortResult(e, sorted, errs)
    ensures errs == [] <==> GraphOf(e).Acyclic()
    ensures errs == [] ==> forall i: nat :: i < |e| ==> i in sorted
  {
    var g := GraphOf(e);
    if errs == [] {
      forall i: nat | i < |e| ensures i in sorted && !g.Reaches(i, i) {
        UnsortedIffBehindCycle(e, sorted, errs, i);
      }
    } else {
      var i := errs[0].onId;
      UnsortedIffBehindCycle(e, sorted, errs, i);
      assert errs[0].onId == i;
    }
  }
}
