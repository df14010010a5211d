/** The order in which a config's parameters are resolved. */
module ParameterOrder {
  import opened Digraph
  import opened Entities
  import opened Listings
  import T = TopologySort

  datatype ParameterReference = ParameterReference(config: Coordinate, property: string)

  /** Value parameters hold a value and no references, reference parameters a single reference; all other
      kinds are known by their references. */
  datatype Parameter =
    | ValueParameter(value: Value)
    | ReferenceParameter(reference: ParameterReference)
    | OtherParameter(references: seq<ParameterReference>)
  {
    function GetReferences(): seq<ParameterReference> {
      match this
      case ValueParameter(_) => []
      case ReferenceParameter(r) => [r]
      case OtherParameter(rs) => rs
    }
  }

  datatype NamedParameter = NamedParameter(name: string, parameter: Parameter)

  // ---------------------------------------------------------------------------
  // Which parameter a reference means
  // ---------------------------------------------------------------------------

  /** The key names the parameter, or something inside its map value. */
  predicate SearchValueParameterForKey(key: string, paramName: string, value: Value) {
    var p := Cut(key);
    if value.Nested? && p.found && p.first == paramName then ResolvePropValue(p.rest, value.fields).Some?
    else key == paramName
  }

  predicate Matches(property: string, target: NamedParameter) {
    if target.parameter.ValueParameter? then SearchValueParameterForKey(property, target.name, target.parameter.value)
    else property == target.name
  }

  /** `source` refers to `target` within the config. */
  predicate RefersTo(source: NamedParameter, config: Coordinate, target: NamedParameter) {
    exists r :: r in source.parameter.GetReferences() && r.config == config && Matches(r.property, target)
  }

  /** The single trailing dot, where the value has no empty key. */
  predicate TrailingDot(key: string, name: string, v: Value) {
    key == name + "." && !(v.Nested? && "" in v.fields)
  }

  /** The search for a value parameter agrees with the nested lookup under its name, for every dot-free
      name and every key except the name followed by a single dot; there the lookup still finds the
      whole value, while the search asks the map for an empty key. */
  lemma SearchAgreesIff(key: string, paramName: string, value: Value)
    requires '.' !in paramName
    ensures
      var found := ResolvePropValue(key, map[paramName := value]).Some?;
      (SearchValueParameterForKey(key, paramName, value) <==> found) <==> !TrailingDot(key, paramName, value)
  {
    var p := Cut(key);
    if p.found && p.rest == "" {
      assert key == p.first + ".";
      if value.Nested? {
        assert Cut("") == Pieces("", "", false);
        assert ResolvePropValue("", value.fields).Some? <==> "" in value.fields;
      }
      if key == paramName + "." {
        CutAtFirstDot(paramName, "");
        assert paramName + "." + "" == key;
      }
    } else if p.found {
      CutAtFirstDot(paramName, "");
      assert paramName + "." + "" == paramName + ".";
      assert key != paramName + ".";
      if '.' !in p.rest {
        assert Cut(p.rest) == Pieces(p.rest, "", false);
      }
      assert key != paramName by {
        assert '.' in key;
      }
    } else {
      assert '.' in paramName + "." by {
        assert (paramName + ".")[|paramName|] == '.';
      }
      assert key != paramName + ".";
    }
  }

  /** The key leads below the name: the name, a dot, and anything. */
  predicate LeadsBelow(key: string, name: string) {
    Cut(key).found && Cut(key).first == name
  }

  /** A reference is an edge exactly when the lookup finds it under its target: for a value parameter on all keys
      but one trailing dot; for any other parameter, whatever its value, on exactly the keys that do not lead
      below its name. */
  lemma MatchesAgreesIff(key: string, target: NamedParameter)
    requires '.' !in target.name
    ensures target.parameter.ValueParameter? ==>
      var v := target.parameter.value;
      ((Matches(key, target) <==> ResolvePropValue(key, map[target.name := v]).Some?) <==>
       !TrailingDot(key, target.name, v))
    ensures !target.parameter.ValueParameter? ==>
      ((forall v :: Matches(key, target) <==> ResolvePropValue(key, map[target.name := v]).Some?) <==>
       !LeadsBelow(key, target.name))
  {
    if target.parameter.ValueParameter? {
      SearchAgreesIff(key, target.name, target.parameter.value);
    } else if LeadsBelow(key, target.name) {
      var v := Along(PathOf(Cut(key).rest));
      FoundBelow(key, target.name, v);
      assert ResolvePropValue(key, map[target.name := v]).Some? && !Matches(key, target);
    } else {
      assert Cut(key).found ==> key != target.name;
    }
  }

  /** The value that has something exactly at the rest of the key. */
  lemma FoundBelow(key: string, name: string, v: Value)
    requires LeadsBelow(key, name) && v == Along(PathOf(Cut(key).rest))
    ensures ResolvePropValue(key, map[name := v]).Some?
  {
    var rest := PathOf(Cut(key).rest);
    LookupFollowsPath(key, map[name := v]);
    SplitDropped(key);
    if Cut(key).rest == "" {
      FollowOne(name, map[name := v]);
    } else {
      FollowStep(name, rest, map[name := v]);
      FollowAlong(rest, []);
      assert rest + [] == rest;
    }
  }

  /** A reference to "a." is resolved from the value of `a`, yet the search gives it no edge. */
  lemma SearchMissesTrailingDot()
    ensures !SearchValueParameterForKey("a.", "a", Scalar("x"))
    ensures ResolvePropValue("a.", map["a" := Scalar("x")]) == Some(Scalar("x"))
  {
    TrailingDotIsIgnored();
    assert "a." != "a";
  }

  // ---------------------------------------------------------------------------
  // Sorting
  // ---------------------------------------------------------------------------

  /** Edge from j to i: parameter j refers to another parameter i. */
  predicate DependsOn(conf: Coordinate, parameters: seq<NamedParameter>, i: nat, j: nat) {
    i < |parameters| && j < |parameters| && i != j && RefersTo(parameters[j], conf, parameters[i])
  }

  ghost predicate SortData(conf: Coordinate, parameters: seq<NamedParameter>, e: seq<seq<bool>>) {
    && |e| == |parameters| && T.Square(e)
    && forall i, j :: 0 <= i < |e| && 0 <= j < |e| ==> (e[i][j] <==> DependsOn(conf, parameters, i, j))
  }

  /** The matrix marks in row i the parameters that refer to parameter i; the in-degrees count them. */
  method ParametersToSortData(conf: Coordinate, parameters: seq<NamedParameter>)
      returns (matrix: array2<bool>, inDegrees: array<int>)
    ensures fresh(matrix) && fresh(inDegrees)
    ensures matrix.Length0 == matrix.Length1 == inDegrees.Length == |parameters|
    ensures SortData(conf, parameters, T.Matrix(matrix))
    ensures forall i :: 0 <= i < inDegrees.Length ==> inDegrees[i] == |T.Pending(T.Matrix(matrix), {}, i)|
  {
    var n := |parameters|;
    matrix := new bool[n, n]((i, j) => false);
    inDegrees := new int[n](i => 0);
    for i := 0 to n
      invariant forall k, j {:trigger matrix[k, j]} :: 0 <= k < n && 0 <= j < n ==>
        matrix[k, j] == (k < i && DependsOn(conf, parameters, k, j))
      invariant forall k :: 0 <= k < n ==> inDegrees[k] == if k < i then |Users(conf, parameters, k, n)| else 0
    {
      FillRow(conf, parameters, i, matrix, inDegrees);
    }
    forall i | 0 <= i < n ensures T.Pending(T.Matrix(matrix), {}, i) == Users(conf, parameters, i, n) {
    }
  }

  /** The parameters before `n` that refer to parameter `i`. */
  ghost function Users(conf: Coordinate, parameters: seq<NamedParameter>, i: nat, n: nat): set<nat>
    requires n <= |parameters|
  {
    set j: nat | j < n && DependsOn(conf, parameters, i, j)
  }

  method FillRow(conf: Coordinate, parameters: seq<NamedParameter>, i: nat, matrix: array2<bool>, inDegrees: array<int>)
    requires matrix.Length0 == matrix.Length1 == inDegrees.Length == |parameters| && i < |parameters|
    requires (forall j :: 0 <= j < |parameters| ==> !matrix[i, j]) && inDegrees[i] == 0
    modifies matrix, inDegrees
    ensures forall k, j {:trigger matrix[k, j]} :: 0 <= k < |parameters| && 0 <= j < |parameters| ==>
      matrix[k, j] == if k == i then DependsOn(conf, parameters, i, j) else old(matrix[k, j])
    ensures forall k :: 0 <= k < |parameters| ==>
      inDegrees[k] == if k == i then |Users(conf, parameters, i, |parameters|)| else old(inDegrees[k])
  {
    for j := 0 to |parameters|
      invariant forall k, l {:trigger matrix[k, l]} :: 0 <= k < |parameters| && 0 <= l < |parameters| ==>
        matrix[k, l] == if k == i then l < j && DependsOn(conf, parameters, i, l) else old(matrix[k, l])
      invariant forall k :: 0 <= k < |parameters| ==>
        inDegrees[k] == if k == i then |Users(conf, parameters, i, j)| else old(inDegrees[k])
    {
      UsersGrow(conf, parameters, i, j);
      if i != j {
        if RefersTo(parameters[j], conf, parameters[i]) {
          matrix[i, j] := true;
          inDegrees[i] := inDegrees[i] + 1;
        }
      }
    }
  }

  lemma OneMore(before: set<nat>, after: set<nat>, x: nat)
    requires x !in before && forall k :: k != x ==> (k in after <==> k in before)
    ensures |after| == |before| + if x in after then 1 else 0
  {
    assert after == before + if x in after then {x} else {};
  }

  lemma UsersGrow(conf: Coordinate, parameters: seq<NamedParameter>, i: nat, j: nat)
    requires j < |parameters|
    ensures |Users(conf, parameters, i, j + 1)| ==
      |Users(conf, parameters, i, j)| + if DependsOn(conf, parameters, i, j) then 1 else 0
  {
    var before, after := Users(conf, parameters, i, j), Users(conf, parameters, i, j + 1);
    var isUser := DependsOn(conf, parameters, i, j);
    assert j in after <==> isUser;
    assert forall k :: k != j ==> (k in after <==> k in before);
    OneMore(before, after, j);
  }

  /** An edge from each parameter to the parameters it refers to. */
  ghost function ReferenceGraph(conf: Coordinate, parameters: seq<NamedParameter>): Graph<nat> {
    Graph(T.Indices(|parameters|),
          set j: nat, i: nat | i < |parameters| && j < |parameters| && DependsOn(conf, parameters, i, j) :: (j, i))
  }

  lemma SortDataGraph(conf: Coordinate, parameters: seq<NamedParameter>, e: seq<seq<bool>>)
    requires SortData(conf, parameters, e)
    ensures T.GraphOf(e) == ReferenceGraph(conf, parameters)
  {
  }

  predicate DistinctNames(parameters: seq<NamedParameter>) {
    forall i, j :: 0 <= i < j < |parameters| ==> parameters[i].name != parameters[j].name
  }

  /** Every parameter comes after the parameters of the same config that it refers to. */
  predicate DependencyOrder(conf: Coordinate, parameters: seq<NamedParameter>) {
    forall a, b ::
      0 <= a < |parameters| && 0 <= b < |parameters| && a != b && RefersTo(parameters[b], conf, parameters[a]) ==> a < b
  }

  /** In dependency order a parameter comes after every other one that it names, whatever kind it is of. */
  lemma NamedComesFirst(conf: Coordinate, parameters: seq<NamedParameter>, a: nat, b: nat, r: ParameterReference)
    requires DependencyOrder(conf, parameters) && a < |parameters| && b < |parameters| && a != b
    requires r.config == conf && r.property == parameters[a].name
    requires match parameters[b].parameter
      case ValueParameter(_) => false
      case ReferenceParameter(own) => r == own
      case OtherParameter(rs) => r in rs
    ensures a < b
  {
    assert Matches(r.property, parameters[a]);
    assert r in parameters[b].parameter.GetReferences();
    assert RefersTo(parameters[b], conf, parameters[a]);
  }

  datatype CircularDependency = CircularDependency(parameterName: string, dependsOn: seq<ParameterReference>)

  ghost predicate BehindCycle(g: Graph<nat>, i: nat) {
    exists c :: c in g.nodes && g.Reaches(c, c) && (c == i || g.Reaches(c, i))
  }

  /** The parameters that no other one refers to come last, in reverse. */
  ghost predicate UnreferencedLast(conf: Coordinate, parameters: seq<NamedParameter>, sorted: seq<NamedParameter>) {
    exists leaves ::
      && T.Increasing(leaves, Unreferenced(conf, parameters))
      && |leaves| <= |sorted|
      && forall l :: 0 <= l < |leaves| ==> leaves[l] < |parameters| && sorted[|sorted| - 1 - l] == parameters[leaves[l]]
  }

  ghost function Unreferenced(conf: Coordinate, parameters: seq<NamedParameter>): set<nat> {
    set i: nat | i < |parameters| && Users(conf, parameters, i, |parameters|) == {}
  }

  lemma LeavesAreUnreferenced(conf: Coordinate, parameters: seq<NamedParameter>, e: seq<seq<bool>>, order: seq<nat>,
                              sorted: seq<NamedParameter>)
    requires SortData(conf, parameters, e) && T.LeavesFirst(e, order) && Reversed(parameters, order, sorted)
    ensures UnreferencedLast(conf, parameters, sorted)
  {
    forall i: nat | i < |e| ensures T.Pending(e, {}, i) == Users(conf, parameters, i, |parameters|) {
    }
    assert T.Leaves(e) == Unreferenced(conf, parameters);
    var leaves :| T.Increasing(leaves, T.Leaves(e)) && leaves <= order;
    assert forall l :: 0 <= l < |leaves| ==> leaves[l] == order[l];
  }

  /** Sorts parameters so that referenced ones come first. On a reference cycle there is no order but one
      error for every parameter that lies on a cycle or is referred to, directly or not, from one. */
  method GetSortedParameters(conf: Coordinate, parameters: seq<NamedParameter>)
      returns (sorted: seq<NamedParameter>, errs: seq<CircularDependency>)
    requires DistinctNames(parameters)
    ensures errs == [] <==> ReferenceGraph(conf, parameters).Acyclic()
    ensures errs == [] ==>
      && Lists(sorted, set p | p in parameters) && |sorted| == |parameters|
      && DistinctNames(sorted) && DependencyOrder(conf, sorted) && UnreferencedLast(conf, parameters, sorted)
    ensures errs != [] ==> sorted == []
    ensures forall i :: 0 <= i < |parameters| ==>
      (BehindCycle(ReferenceGraph(conf, parameters), i) <==> ReportedCircular(errs, parameters[i]))
  {
    var matrix, inDegrees := ParametersToSortData(conf, parameters);
    ghost var e := T.Matrix(matrix);
    var order, sortErrs := T.Sort(matrix, inDegrees);
    SortDataGraph(conf, parameters, e);
    T.NoErrorsIffAcyclic(e, order, sortErrs);
    sorted, errs := [], [];
    if |sortErrs| > 0 {
      for k := 0 to |sortErrs|
        invariant |errs| == k
        invariant forall l :: 0 <= l < k ==> errs[l] == Circular(parameters[sortErrs[l].onId])
      {
        errs := errs + [Circular(parameters[sortErrs[k].onId])];
      }
    } else {
      var k := |order|;
      assert forall l :: 0 <= l < |order| ==> order[l] in order;
      while k > 0
        invariant 0 <= k <= |order|
        invariant forall l :: 0 <= l < |order| ==> order[l] < |parameters|
        invariant |sorted| == |order| - k
        invariant forall l :: 0 <= l < |sorted| ==> sorted[l] == parameters[order[|order| - 1 - l]]
      {
        k := k - 1;
        sorted := sorted + [parameters[order[k]]];
      }
      ReversedOrderIsRight(conf, parameters, e, order, sortErrs, sorted);
      LeavesAreUnreferenced(conf, parameters, e, order, sorted);
    }
    forall i | 0 <= i < |parameters|
      ensures BehindCycle(ReferenceGraph(conf, parameters), i) <==> ReportedCircular(errs, parameters[i])
    {
      T.UnsortedIffBehindCycle(e, order, sortErrs, i);
      CircularReports(parameters, e, order, sortErrs, errs, i);
    }
  }

  function Circular(p: NamedParameter): CircularDependency {
    CircularDependency(p.name, p.parameter.GetReferences())
  }

  predicate ReportedCircular(errs: seq<CircularDependency>, p: NamedParameter) {
    CircularDependency(p.name, p.parameter.GetReferences()) in errs
  }

  lemma CircularReports(parameters: seq<NamedParameter>, e: seq<seq<bool>>, order: seq<nat>, sortErrs: seq<T.SortError>,
                        errs: seq<CircularDependency>, i: nat)
    requires T.Square(e) && |e| == |parameters| && T.SortResult(e, order, sortErrs) && DistinctNames(parameters)
    requires i < |parameters| && |errs| == |sortErrs|
    requires forall l :: 0 <= l < |errs| ==> errs[l] == Circular(parameters[sortErrs[l].onId])
    ensures ReportedCircular(errs, parameters[i]) <==> exists k :: 0 <= k < |sortErrs| && sortErrs[k].onId == i
  {
    if ReportedCircular(errs, parameters[i]) {
      var l :| 0 <= l < |errs| && errs[l] == Circular(parameters[i]);
      assert sortErrs[l].onId == i;
    }
    if k :| 0 <= k < |sortErrs| && sortErrs[k].onId == i {
      assert errs[k] == Circular(parameters[i]);
    }
  }

  lemma {:induction false} IndicesSize(n: nat)
    ensures |T.Indices(n)| == n
  {
    if n > 0 {
      IndicesSize(n - 1);
    }
  }

  /** `sorted` lists the parameters in the reverse of `order`. */
  ghost predicate Reversed(parameters: seq<NamedParameter>, order: seq<nat>, sorted: seq<NamedParameter>) {
    && |sorted| == |order|
    && (forall l :: 0 <= l < |order| ==> order[l] < |parameters|)
    && (forall l :: 0 <= l < |sorted| ==> sorted[l] == parameters[order[|order| - 1 - l]])
  }

  lemma ReversedNames(parameters: seq<NamedParameter>, order: seq<nat>, sorted: seq<NamedParameter>)
    requires Reversed(parameters, order, sorted) && DistinctNames(parameters) && NoDuplicates(order)
    ensures DistinctNames(sorted)
  {
    var n := |order|;
    forall a, b | 0 <= a < b < n ensures sorted[a].name != sorted[b].name {
      assert order[n - 1 - b] != order[n - 1 - a];
    }
  }

  lemma ReversedElements(parameters: seq<NamedParameter>, order: seq<nat>, sorted: seq<NamedParameter>,
                         p: NamedParameter)
    requires Reversed(parameters, order, sorted) && forall i: nat :: i < |parameters| ==> i in order
    ensures p in sorted <==> p in parameters
  {
    if p in parameters {
      var i :| 0 <= i < |parameters| && parameters[i] == p;
      assert i in order;
      var k :| 0 <= k < |order| && order[k] == i;
      assert sorted[|order| - 1 - k] == p;
    }
  }

  lemma ReversedIsPermutation(parameters: seq<NamedParameter>, order: seq<nat>, sorted: seq<NamedParameter>)
    requires Reversed(parameters, order, sorted) && DistinctNames(parameters) && NoDuplicates(order)
    requires forall i: nat :: i < |parameters| ==> i in order
    ensures Lists(sorted, set p | p in parameters) && |sorted| == |parameters| && DistinctNames(sorted)
  {
    ListsSize(order, T.Indices(|parameters|)) by {
      assert forall x :: x in order ==> x < |parameters|;
    }
    IndicesSize(|parameters|);
    ReversedNames(parameters, order, sorted);
    forall p ensures p in sorted <==> p in parameters {
      ReversedElements(parameters, order, sorted, p);
    }
  }

  lemma ReversedPutsDependenciesFirst(conf: Coordinate, parameters: seq<NamedParameter>, e: seq<seq<bool>>,
                                      order: seq<nat>,
                                      sorted: seq<NamedParameter>, a: nat, b: nat)
    requires SortData(conf, parameters, e) && Reversed(parameters, order, sorted) && NoDuplicates(order)
    requires T.RespectsEdges(e, order)
    requires a < |order| && b < |order| && a != b && RefersTo(sorted[b], conf, sorted[a])
    ensures a < b
  {
    var ka, kb := |order| - 1 - a, |order| - 1 - b;
    assert order[ka] != order[kb];
    assert DependsOn(conf, parameters, order[ka], order[kb]);
    assert e[order[ka]][order[kb]];
    var l :| 0 <= l < ka && order[..ka][l] == order[kb];
    assert l == kb;
  }

  lemma ReversedOrderIsRight(conf: Coordinate, parameters: seq<NamedParameter>, e: seq<seq<bool>>, order: seq<nat>,
                             sortErrs: seq<T.SortError>, sorted: seq<NamedParameter>)
    requires SortData(conf, parameters, e) && T.SortResult(e, order, sortErrs) && DistinctNames(parameters)
    requires (forall i: nat :: i < |e| ==> i in order) && Reversed(parameters, order, sorted)
    ensures Lists(sorted, set p | p in parameters) && |sorted| == |parameters|
    ensures DistinctNames(sorted) && DependencyOrder(conf, sorted)
  {
    ReversedIsPermutation(parameters, order, sorted);
    forall a, b | 0 <= a < |sorted| && 0 <= b < |sorted| && a != b && RefersTo(sorted[b], conf, sorted[a])
      ensures a < b
    {
      ReversedPutsDependenciesFirst(conf, parameters, e, order, sorted, a, b);
    }
  }
}
