/** The components of an environment deployed side by side: any interleaving of their steps. */
module ComponentInterleaving {
  import opened Digraph
  import opened Entities
  import opened Listings
  import opened DeploymentProtocol
  import opened DeploymentSafety
  import opened EnvironmentDeployment
  import G = GraphComponents

  /** One component takes a step of its own; the others stay as they are. */
  ghost predicate ComponentSteps(c: Component, comps: seq<Graph<NodeId>>, ss: seq<State>, ss': seq<State>, k: nat)
    requires |ss| == |ss'| == |comps| && k < |comps|
  {
    Steps(Part(c, comps[k]), ss[k], ss'[k]) && forall l :: 0 <= l < |comps| && l != k ==> ss'[l] == ss[l]
  }

  ghost predicate SomeSteps(c: Component, comps: seq<Graph<NodeId>>, ss: seq<State>, ss': seq<State>) {
    |ss| == |ss'| == |comps| && exists k :: 0 <= k < |comps| && ComponentSteps(c, comps, ss, ss', k)
  }

  ghost function Start(c: Component, comps: seq<Graph<NodeId>>): seq<State> {
    seq(|comps|, k requires 0 <= k < |comps| => Init(Part(c, comps[k])))
  }

  ghost predicate IsInterleaving(c: Component, comps: seq<Graph<NodeId>>, run: seq<seq<State>>) {
    && |run| > 0 && run[0] == Start(c, comps)
    && (forall i :: 0 <= i < |run| ==> |run[i]| == |comps|)
    && forall i :: 0 <= i < |run| - 1 ==> SomeSteps(c, comps, run[i], run[i + 1])
  }

  /** Every component's share of an interleaving is a run of that component. */
  lemma {:induction false} ShareIsReachable(c: Component, comps: seq<Graph<NodeId>>, run: seq<seq<State>>, i: nat,
                                            k: nat)
    requires IsInterleaving(c, comps, run) && i < |run| && k < |comps|
    ensures Reachable(Part(c, comps[k]), run[i][k])
  {
    if i == 0 {
      assert IsRun(Part(c, comps[k]), [run[0][k]]);
    } else {
      ShareIsReachable(c, comps, run, i - 1, k);
      assert SomeSteps(c, comps, run[i - 1], run[(i - 1) + 1]);
      var m :| 0 <= m < |comps| && ComponentSteps(c, comps, run[i - 1], run[i], m);
      if m == k {
        StepIsReachable(Part(c, comps[k]), run[i - 1][k], run[i][k]);
      }
    }
  }

  lemma StepIsReachable(c: Component, s: State, s': State)
    requires Reachable(c, s) && Steps(c, s, s')
    ensures Reachable(c, s')
  {
    var run :| IsRun(c, run) && run[|run| - 1] == s;
    var longer := run + [s'];
    forall i | 0 <= i < |longer| - 1 ensures Steps(c, longer[i], longer[i + 1]) {
      if i < |run| - 1 {
        assert Steps(c, run[i], run[i + 1]);
      }
    }
    assert IsRun(c, longer) && longer[|longer| - 1] == s';
  }

  ghost function ErrorSum(ss: seq<State>, k: nat): nat
    requires k <= |ss|
  {
    if k == 0 then 0 else ErrorSum(ss, k - 1) + ss[k - 1].errCount
  }

  ghost predicate AllFinished(ss: seq<State>) {
    forall k :: 0 <= k < |ss| ==> Finished(ss[k])
  }

  lemma FinishedComponentAdds(c: Component, comps: seq<Graph<NodeId>>, k: nat, s: State)
    requires Deployable(c) && G.ExactSplit(c.graph, comps) && k < |comps| && NodesOf(comps, k) <= c.graph.nodes
    requires Reachable(Part(c, comps[k]), s) && Finished(s)
    ensures NodesOf(comps, k + 1) <= c.graph.nodes
    ensures |FailuresIn(c, NodesOf(comps, k + 1))| == |FailuresIn(c, NodesOf(comps, k))| + s.errCount
  {
    NextPart(c, comps, k);
    FinishedRunIsReference(Part(c, comps[k]), s);
  }

  lemma {:induction false} ErrorSumIsFailures(c: Component, comps: seq<Graph<NodeId>>, ss: seq<State>, k: nat)
    requires Deployable(c) && G.ExactSplit(c.graph, comps) && |ss| == |comps| && k <= |comps|
    requires AllFinished(ss) && forall l {:trigger ss[l]} :: 0 <= l < |ss| ==> Reachable(Part(c, comps[l]), ss[l])
    ensures NodesOf(comps, k) <= c.graph.nodes && ErrorSum(ss, k) == |FailuresIn(c, NodesOf(comps, k))|
  {
    if k == 0 {
      assert FailuresIn(c, {}) == {};
    } else {
      ErrorSumIsFailures(c, comps, ss, k - 1);
      FinishedComponentAdds(c, comps, k - 1, ss[k - 1]);
    }
  }

  /** However the components' goroutines interleave, once all have finished the error counts add up to the
      number of failed nodes, and every node of the environment has its reference outcome in its component. */
  lemma InterleavingIsReference(c: Component, comps: seq<Graph<NodeId>>, run: seq<seq<State>>)
    requires Deployable(c) && G.ExactSplit(c.graph, comps) && IsInterleaving(c, comps, run)
    requires AllFinished(run[|run| - 1])
    ensures ErrorSum(run[|run| - 1], |comps|) == FailureCount(c)
    ensures forall n :: n in c.graph.nodes ==> HasReferenceOutcome(c, comps, run[|run| - 1], n)
  {
    var last := run[|run| - 1];
    forall k | 0 <= k < |comps| ensures Reachable(Part(c, comps[k]), last[k]) {
      ShareIsReachable(c, comps, run, |run| - 1, k);
    }
    ErrorSumIsFailures(c, comps, last, |comps|);
    AllNodes(c, comps);
    forall n | n in c.graph.nodes ensures HasReferenceOutcome(c, comps, last, n) {
      assert G.InSomePart(comps, n);
      var k :| 0 <= k < |comps| && n in comps[k].nodes;
      assert G.PartOf(c.graph, comps[k]);
      OutcomeInShare(c, comps[k], last[k], n);
    }
  }

  ghost predicate HasReferenceOutcome(c: Component, comps: seq<Graph<NodeId>>, ss: seq<State>, n: NodeId)
    requires c.WellFormed() && n in c.graph.nodes && |ss| == |comps|
  {
    exists k :: 0 <= k < |comps| && n in comps[k].nodes && n in ss[k].outcomes && ss[k].outcomes[n] == c.Spec(n)
  }

  lemma OutcomeInShare(c: Component, part: Graph<NodeId>, s: State, n: NodeId)
    requires Deployable(c) && G.PartOf(c.graph, part) && n in part.nodes
    requires Reachable(Part(c, part), s) && Finished(s)
    ensures n in s.outcomes && n in c.graph.nodes && s.outcomes[n] == c.Spec(n)
  {
    PartIsDeployable(c, part);
    FinishedRunIsReference(Part(c, part), s);
    SpecInPart(c, part, n);
  }

  /** Until all components have finished, one of them can take a step. */
  lemma SomeComponentAdvances(c: Component, comps: seq<Graph<NodeId>>, run: seq<seq<State>>) returns (ss': seq<State>)
    requires Deployable(c) && G.ExactSplit(c.graph, comps) && IsInterleaving(c, comps, run)
    requires !AllFinished(run[|run| - 1])
    ensures IsInterleaving(c, comps, run + [ss'])
  {
    var last := run[|run| - 1];
    var k :| 0 <= k < |last| && !Finished(last[k]);
    var part := Part(c, comps[k]);
    ShareIsReachable(c, comps, run, |run| - 1, k);
    assert G.PartOf(c.graph, comps[k]);
    PartIsDeployable(c, comps[k]);
    var e := SomeStepEnabled(part, last[k]);
    ss' := last[k := Next(part, last[k], e)];
    assert Steps(part, last[k], ss'[k]);
    assert ComponentSteps(c, comps, last, ss', k);
  }
}
