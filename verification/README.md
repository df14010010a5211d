# Monaco: deployment, configuration and account protocols

Monaco (Dynatrace Configuration as Code) reads configs from YAML, turns them into a dependency graph and
deploys them concurrently; it also deploys account resources and writes downloaded configs back to YAML.
This project models the parts of it whose correctness needs an argument over whole runs or across several
functions, and proves what those parts are for. `dafny verify dfyconfig.toml` checks everything.

## The models

* **Deployment engine.** `DeploymentProtocol` is the wave scheduler of one component as a state machine: the
  goroutines of a wave start and finish in any order, and a finishing step that fails removes everything below
  the node in one step, as it happens under the lock. What a config's deployment does is an arbitrary function of the config
  and its dependencies' entities. `Spec` is the sequential reference: the outcome of a node by recursion over
  its dependencies. `DeploymentSafety` proves that every run keeps an invariant, cannot get stuck, is bounded,
  and ends with the reference outcomes. `DeployEngine` has the engine's own code over a mutable graph and a
  mutable entity map; each of its executions is shown to be a run of the protocol.
* **Dependency graph.** `GraphComponents` builds the graph from configs and splits it into weakly connected
  components by the depth-first walk. `EnvironmentDeployment` deploys the components, `ComponentInterleaving` covers
  every interleaving of their goroutines, `AllEnvironments` goes through all environments. The outcome law of a
  deployment is stated on the configs alone (`EnvironmentDeployment.Lawful`). `EnvironmentReferences`
  shows that a reference to a config of the environment is always found and that resolution looks at nothing
  else. `Digraph` and `Listings` are the vocabulary.
* **Parameters.** `TopologySort` is Kahn's algorithm on the matrix it destroys; `ParameterOrder` prepares the
  matrix and reverses the result; `ParameterResolution` resolves the values; `ReferenceTiming` proves when a
  reference within a config is resolved before its target; `Entities` has the nested property lookup and the entity map.
* **Writer and loader.** `ConfigWriter` factors the variants of a config into a base and overrides for groups
  and environments, `ConfigLoader` reapplies them, `WriterLoader` proves when the two undo each other, and
  `WriterMinimality` that what variants or groups share is written only once.
* **Templates.** `TemplateEscape` has the three-step escaping, the repair of `{{{` and a renderer for text and
  actions that print a raw string, a quoted string or a property.
* **Account deployer.** `Dispatcher` is the worker pool as a state machine over unbuffered channels, a wait
  group and a closing error channel, with the dispatcher's own loop and a fixed or a dynamic pool; `DispatcherSafety` proves its safety,
  progress and termination. `IdMaps` is the table the phases share, `AccountDeployer` the three phases.
* **Projects and ids.** `ProjectLoader` is the worklist over project dependencies, `LoadedConfigs` what its result
  means for the dependency graph; `NumericId` the decoding of
  legacy numeric ids on 64-bit words, in the format of the sections "Base 128 Varints" and "Signed Integers" of
  the Protocol Buffers encoding specification.

Iteration over a Go map is an arbitrary choice everywhere.

## What is assumed

* The graph library: iterating the successors of a node follows the live adjacency, so a node deleted meanwhile
  is not visited; the depth-first walk shows every edge at a visited node; its topological sort fails exactly
  on cyclic graphs and otherwise lists each node once, after its dependencies.
* Of the entity map, a deployment uses only what parameter resolution reads. That this is no more than the
  entities of the config's own dependencies is proved (`EnvironmentReferences.ResolutionSeesDependencies`).
* Coordinates within an environment are unique. For the configs of loaded projects this is proved
  (`LoadedConfigs.LoadedCoordinatesAreUnique`): a coordinate carries its project, and the loader checks each project.
* A scheduler oracle picks, for the jobs of each account phase, any state in which `Wait` has returned;
  `DispatcherSafety.WaitReturns` shows that there is one.

## Where the code does not do what one may expect

* The round trip of writer and loader fails when the variants of a group share nothing and the groups that
  share something agree on a value that a variant of the first group lacks (`config_writer.go`, lines 226-237 and
  353-357): the group gets no base and inherits, for instance, a parameter of another group.
  `WriterLoader.LeakedParameter` is such an input and `WriterLoader.RoundTrip` the exact condition on the variants.
  A group with a base never loses anything, and the order of the groups never matters.
* A lookup ignores one trailing dot (`resolvedentity.go`, lines 48-52): `Entities.TrailingDotIsIgnored`,
  with the exact condition in `Entities.LookupAgreesIff`. The search that decides sort edges does not ignore it, so a
  reference to `a.` has no edge although it resolves: `ParameterOrder.SearchMissesTrailingDot` and `ParameterOrder.SearchAgreesIff`.
* A reference to a key below a parameter that is no value parameter has no edge either (`sort.go`, lines 107-112), yet
  `reference.go` resolves it from whatever that parameter became; `ParameterOrder.MatchesAgreesIff` has the exact keys.
  The sort may then put the reference first, and it cannot be resolved: `ReferenceTiming.NestedReferenceComesTooEarly`.
  `ReferenceTiming.SeesFinalIff` is the exact condition on a sorted list of parameters, `ReferenceTiming.SafeSeesFinal`
  has one on the config alone, under which no dependency order puts it too early.
* A template that cannot be loaded hides all errors of parameters (`config_entry_loader.go`, lines 216-218, look at the
  error of line 189): `ConfigLoader.GetConfigFromDefinition`.
* The id that tells duplicate configs apart joins its parts with colons (`project_loader.go`, lines 357-359), so with a
  colon in the name of a group or environment two different configs can collide: `ProjectLoader.ColonsCollide`. Without
  one they are reported iff group, environment and coordinate agree: `ProjectLoader.SameIdIff`.
* `Stop` of the dispatcher stops nobody: after `Wait` every worker is still there, blocked on offering its channel, and
  never reads its quit channel (`dispatcher.go`, lines 141-150). Only a dynamic pool without jobs leaves no worker
  behind, and the dispatcher's own loop stays even then, since nothing closes the job queue (lines 95-96 and 104-106):
  `DispatcherSafety.StopReachesNobody`.

## Model

| member | source | states |
|---|---|---|
| Digraph.Graph.AcyclicHasRoot | pkg/deploy/deploy.go:217-218 | a non-empty acyclic graph has a root, so no wave is empty |
| Digraph.Graph.CycleBehind | internal/topologysort/topologysort.go:71-79 | following predecessors within a finite set that always has one ends on a cycle of that set from which the start is reachable |
| Digraph.Graph.DescendantsAfterRemove | pkg/deploy/deploy.go:327-329 | once a successor-closed set is deleted, exactly the other descendants of a node are still below it |
| DeploymentProtocol.Component.SpecIsAncestorRule | pkg/deploy/deploy.go:251-281 | the reference outcome: skipped iff some proper ancestor did not succeed, otherwise excluded iff flagged, otherwise the oracle's answer on the dependencies' entities |
| DeploymentProtocol.Component.SkipPropagates | pkg/deploy/deploy.go:297-331 | a node that does not succeed makes every node reachable from it skipped |
| DeploymentSafety.StepPreserves | pkg/deploy/deploy.go:210-281 | each of the four kinds of step keeps the invariant on graph, outcomes, entities, views, counts and waves |
| DeploymentSafety.RunInvariant | pkg/deploy/deploy.go:210-281 | the invariant holds in every state of every run |
| DeploymentSafety.HandedOverOnlyAfterDependencies | pkg/deploy/deploy.go:217-240 | in every reachable state, a node that is about to be or is being deployed has all its original dependencies succeeded and in the entity map, and sees their entities throughout |
| DeploymentSafety.ViewIsStable | pkg/deploy/deploy.go:271 | storing the entity of one node of a wave does not change what another one can look up |
| DeploymentSafety.RootsAfterRemove | pkg/deploy/deploy.go:259-261 | deleting everything below a node neither adds nor loses a root, so a failure leaves the running wave a wave |
| DeploymentSafety.FinishedRunIsReference | pkg/deploy/deploy.go:210-249 | a finished run gives every node its reference outcome, reports each node once and counts exactly the failed ones |
| DeploymentSafety.Confluence | pkg/deploy/deploy.go:210-331 | any two complete runs agree on all outcomes, on the entity map and on the error count |
| DeploymentSafety.Conservation | pkg/deploy/deploy.go:229-246 | in every reachable state successes, failures, exclusions and skips add up to the reports; at the end they add up to all nodes |
| DeploymentSafety.AttemptedInLongestWalkWave | pkg/deploy/deploy.go:217-240 | a node is attempted in the wave whose number is the length of the longest dependency path that ends at it |
| DeploymentSafety.SomeStepEnabled | pkg/deploy/deploy.go:217-240 | no deadlock: in every reachable state that is not finished some step is possible |
| DeploymentSafety.MeasureDecreases | pkg/deploy/deploy.go:217-240 | every step lowers a measure |
| DeploymentSafety.RunsAreBounded | pkg/deploy/deploy.go:217-240 | the measure is natural and starts at four times the number of nodes, so no run has more than four steps per node |
| DeployEngine.ConfigGraph.RemoveNode | pkg/deploy/deploy.go:237-239 | deletes a node with all its edges and nothing else |
| DeployEngine.ConfigGraph.Roots | pkg/graph/graph.go:283-294 | exactly the nodes without incoming edges |
| DeployEngine.RemoveChildren | pkg/deploy/deploy.go:297-331 | on an acyclic graph deletes exactly the strict descendants and reports each of them once, diamonds included |
| DeployEngine.DeployNode | pkg/deploy/deploy.go:251-281 | a success publishes the entity and leaves the graph; a failure or exclusion deletes and reports the descendants and publishes nothing; only a failure is an error |
| DeployEngine.RemoveNodes | pkg/deploy/deploy.go:236-239 | the graph without the finished roots |
| DeployEngine.DeployWave | pkg/deploy/deploy.go:220-234 | whatever order its goroutines move in, a wave is a run of the protocol that ends with none of them left |
| DeployEngine.DeployGraph | pkg/deploy/deploy.go:210-249 | every execution is a complete run; its error count is the number of nodes whose reference outcome is failed and every node is reported once |
| EnvironmentDeployment.SpecInPart | pkg/deploy/deploy.go:184-189 | a node has the same reference outcome in its component as in the whole environment |
| EnvironmentDeployment.LawfulIsSpec | pkg/deploy/deploy.go:251-281 | the outcome law on configs alone: skipped iff a referenced config did not succeed, otherwise excluded iff flagged, otherwise the answer on the entities of the referenced configs under the own coordinate; outcomes that obey it are those of the reference |
| EnvironmentDeployment.SpecIsLawful | pkg/deploy/deploy.go:340-352 | the outcomes of the reference obey the law, so there are such outcomes |
| EnvironmentDeployment.LawfulFailures | pkg/deploy/deploy.go:184-199 | the failures counted by the engine are the failed configs of any lawful outcomes |
| EnvironmentDeployment.DeployComponents | pkg/deploy/deploy.go:179-208 | over all components each node of the environment is reported once, and the summed error count is the number of failed nodes of the environment |
| ComponentInterleaving.ShareIsReachable | pkg/deploy/deploy.go:184-189 | in every interleaving of the components' goroutines each component's share is a run of that component |
| ComponentInterleaving.InterleavingIsReference | pkg/deploy/deploy.go:184-199 | however the components interleave, once all have finished the error counts add up to the failed nodes and every node has its reference outcome |
| ComponentInterleaving.SomeComponentAdvances | pkg/deploy/deploy.go:184-199 | until all components have finished, some component can take a step |
| AllEnvironments.GetSortedEnvConfigs | pkg/deploy/deploy.go:167-177 | the graphs of all environments with their components, unless one has a dependency cycle |
| AllEnvironments.DeployEnvironment | pkg/deploy/deploy.go:157-164 | every included config is reported once, and the error count is the number of failed configs in the outcomes that the law on configs, references and flags determines |
| AllEnvironments.DeploySorted | pkg/deploy/deploy.go:118-135 | the reference counts up to the first failing environment when errors stop the deployment, and of all environments otherwise |
| AllEnvironments.DeployForAllEnvironments | pkg/deploy/deploy.go:83-142 | nothing is deployed after a failed validation that stops, or with a dependency cycle in any environment; otherwise the numbers of failed configs under the outcome law, up to the first failing environment iff neither option continues; success iff valid and no config fails |
| EnvironmentReferences.ReferencesResolve | pkg/graph/graph.go:258-272 | with unique coordinates, a config of the environment that a config refers to is in its component, with an edge, and in that component's entity map, not skipped, whenever the referring config is deployed |
| EnvironmentReferences.NeverReportedAsMissing | pkg/config/resolve.go:88-98 | so validation never reports a reference to a config of the environment as not found or as skipped |
| EnvironmentReferences.ResolutionSeesDependencies | pkg/config/resolve.go:26-71 | while a config is deployed, resolving against the shared entity map gives the same as resolving against the entities of its dependencies |
| GraphComponents.BuildDependencyGraph | pkg/graph/graph.go:219-276 | nodes are the included configs; edges lead exactly from a referenced to the referring config, where the last config of a coordinate stands for it |
| GraphComponents.CollectEdges | pkg/graph/graph.go:258-273 | an edge for exactly each reference from a known coordinate to another known one, for any order of the maps |
| GraphComponents.BuildUndirectedGraph | pkg/graph/graph.go:193-205 | all nodes, and every edge in both directions |
| GraphComponents.WalkComponent | pkg/graph/graph.go:163-188 | one walk collects a set of new nodes that no edge leaves, that is weakly connected, with all edges among them in their own direction |
| GraphComponents.FindConnectedComponents | pkg/graph/graph.go:158-191 | components partition the nodes, each weakly connected with exactly the edges between its nodes as they were; no edge joins two |
| GraphComponents.AcyclicIffComponentsAre | pkg/graph/graph.go:123-141 | the whole graph is acyclic iff every component is |
| GraphComponents.GetIndependentlySortedConfigs | pkg/graph/graph.go:117-148 | errors iff the environment's graph is cyclic, and no components then; otherwise the exact split into acyclic components, each with its nodes once and in an order that respects its edges |
| TopologySort.GetAllLeaves | internal/topologysort/topologysort.go:85-93 | the increasing list of exactly the nodes with in-degree zero |
| TopologySort.GetSourceOfIncomingEdges | internal/topologysort/topologysort.go:96-104 | the increasing list of exactly the marked columns |
| TopologySort.ReleaseSuccessors | internal/topologysort/topologysort.go:60-68 | erases exactly the edges out of the current node, keeps the in-degrees equal to the row counts and queues exactly the nodes that lost their last edge |
| TopologySort.CollectErrors | internal/topologysort/topologysort.go:71-79 | one error, in increasing order, for exactly the unsorted nodes |
| TopologySort.Sort | internal/topologysort/topologysort.go:51-82 | no duplicates; every predecessor of a sorted node is sorted before it; the nodes without predecessors come first; one error for each unsorted node with precisely its unsorted predecessors, a non-empty list |
| TopologySort.AncestorsSortedBefore | internal/topologysort/topologysort.go:37-50 | everything that reaches a sorted node was sorted before it |
| TopologySort.UnsortedIffBehindCycle | internal/topologysort/topologysort.go:46-48 | a node has an error iff it is on a cycle or reachable from one |
| TopologySort.NoErrorsIffAcyclic | internal/topologysort/topologysort.go:43-48 | no errors iff the graph is acyclic, and then every node is sorted |
| ParameterOrder.SearchAgreesIff | pkg/config/sort.go:121-129 | for dot-free names the search agrees with the nested lookup iff the key is not the name with a single trailing dot (or the map has an empty key) |
| ParameterOrder.SearchMissesTrailingDot | pkg/config/sort.go:121-129 | a concrete key that the lookup resolves and the search misses |
| ParameterOrder.MatchesAgreesIff | pkg/config/sort.go:101-119 | edge and lookup under the target agree: for a value parameter iff the key is not its name with a mere trailing dot, for any other parameter, over all its values, iff the key does not lead below its name |
| ParameterOrder.NamedComesFirst | pkg/config/sort.go:101-119 | in dependency order a reference or compound parameter comes after every other parameter that it names |
| ParameterOrder.ParametersToSortData | pkg/config/sort.go:77-99 | row i marks exactly the other parameters that refer to parameter i, and each in-degree is the count of its row |
| ParameterOrder.GetSortedParameters | pkg/config/sort.go:32-75 | errors iff references are cyclic, one for exactly each parameter on a cycle or behind one; otherwise a permutation with referenced parameters first and unreferenced ones last, in reverse |
| ParameterResolution.ValidateParameterReferences | pkg/config/resolve.go:73-102 | the errors of all references in order: itself, unknown or skipped config, none within the same config |
| ParameterResolution.ReportedIff | pkg/config/resolve.go:75-99 | a reference is reported as unknown iff it is to another config that is not in the entity map, as skipped iff that is there as skipped, and as itself iff it names its own parameter |
| ParameterResolution.EscapedLookup | internal/template/template_utils.go:27-59 | escaping a value keeps which keys a lookup finds, so edges to value parameters hold for their resolved values |
| ParameterResolution.ResolveValue | pkg/config/parameter/reference/reference.go:93-115 | a reference within the config reads the properties resolved so far, any other one the entity map, and other parameters never do |
| ParameterResolution.GetReferencedParameterValues | pkg/config/parameter/file/file.go:79-90 | exactly the referenced properties, or none as soon as one of them has not been resolved |
| ParameterResolution.ResolveValues | pkg/config/resolve.go:26-71 | the loop yields the left fold that resolves each parameter from those before it and from the entity map |
| ParameterResolution.ResolutionDependsOnReferences | pkg/config/resolve.go:26-71 | properties and errors depend only on the entities at the coordinates that the parameters refer to |
| ParameterResolution.ResolvedWithoutErrors | pkg/config/resolve.go:26-71 | without errors every parameter has the value that its own resolution gave on the properties before it |
| ParameterResolution.ReferencesResolvedBeforeUse | pkg/config/resolve.go:43-61 | in dependency order and without errors, a referenced parameter of the config was already there, with its final value, when its user was resolved |
| ReferenceTiming.Run.SeenAt | pkg/config/resolve.go:31-61 | with or without errors, a parameter is in the properties from its own turn on, with what it stored then, or never |
| ReferenceTiming.StoredMeans | pkg/config/resolve.go:43-61 | what is stored: a value with its texts escaped, the value a reference leads to in the final properties or in the other config, or a text made from exactly the referenced properties; for the name of the config its text |
| ReferenceTiming.StoredIff | pkg/config/resolve.go:31-61 | a parameter is stored iff its references are valid and what they lead to is there |
| ReferenceTiming.NothingReportedIff | pkg/config/resolve.go:31-71 | nothing is reported iff every parameter is resolvable from the properties before it |
| ReferenceTiming.OnlyCanFind | pkg/config/parameter/reference/reference.go:93-115 | whatever the entities, a path below a parameter is found only if it ends in a value that has it, in another config, or at a text, along references to earlier parameters |
| ReferenceTiming.FullRunFinds | pkg/config/parameter/reference/reference.go:93-115 | the converse: for some entities all of it is found, in one and the same resolution |
| ReferenceTiming.SeesFinalIff | pkg/config/resolve.go:31-61 | in a given order a reference within the config reads final values, for all entities, iff it leads to no parameter at its own or a later position below which something can be found |
| ReferenceTiming.SafeIff | pkg/config/sort.go:101-119 | a reference to a parameter is safe iff it is an edge whenever that parameter may hold something it finds |
| ReferenceTiming.SafeSeesFinal | pkg/config/sort.go:101-129 | in every dependency order a reference that is safe for all parameters of the config reads final values |
| ReferenceTiming.NestedReferenceComesTooEarly | pkg/config/sort.go:107-112 | a concrete config whose only sorted order leaves a reference unresolvable, though another order resolves it |
| ReferenceTiming.ResolveParameterValues | pkg/config/config.go:200-218 | none on a reference cycle; otherwise the parameters are resolved in dependency order and there are properties iff nothing is reported, exactly those of the fold, with the value of every parameter; references read final values unless they come too early, which no safe one does |
| Entities.Cut | pkg/config/entities/resolvedentity.go:48 | the first piece has no dot and the pieces make up the string |
| Entities.LookupFollowsPath | pkg/config/entities/resolvedentity.go:47-66 | the recursive lookup is single-key lookups along the dot-separated path, without one trailing dot |
| Entities.LookupAgreesIff | pkg/config/entities/resolvedentity.go:47-66 | lookup and path agree on all properties iff the key does not end in a dot |
| Entities.TrailingDotIsIgnored | pkg/config/entities/resolvedentity.go:50-52 | a concrete key on which they differ |
| Entities.EntityMap.Put | pkg/config/entities/entitymap.go:37-42 | stores under the entity's own coordinate and changes no other entry |
| Entities.EntityMap.GetResolvedEntity | pkg/config/entities/entitymap.go:70-76 | the stored entity iff there is one |
| Entities.EntityMap.GetResolvedProperty | pkg/config/entities/entitymap.go:55-68 | the value at the dotted path below the stored entity; none for an unknown one |
| ConfigWriter.GroupByGroups | pkg/config/writer/config_writer.go:330-339 | each group with its variants in order |
| ConfigWriter.TestForSameProperties | pkg/config/writer/config_writer.go:472-516 | a property is shared iff all variants agree on it, a missing and a false skip counting as equal; the shared values |
| ConfigWriter.IsSharedParameter | pkg/config/writer/config_writer.go:447-456 | all variants have the parameter with that value |
| ConfigWriter.ExtractSharedParameters | pkg/config/writer/config_writer.go:435-445 | exactly the parameters that all variants have with one value |
| ConfigWriter.CreateCommonConfigDefinition | pkg/config/writer/config_writer.go:413-433 | the shared values; a property that is neither found nor shared stays empty |
| ConfigWriter.CreateConfigDefinitionWithoutSharedValues | pkg/config/writer/config_writer.go:377-411 | what is not shared, or nothing when everything is; minimality is `WriterMinimality.OverrideSets` |
| ConfigWriter.ExtractCommonBase | pkg/config/writer/config_writer.go:341-375 | base and reduced variants as specified for any number of variants, none, one and sharing nothing included |
| ConfigWriter.FactorGroups | pkg/config/writer/config_writer.go:221-237 | for some order of the groups, the bases of those that have one and the overrides of all |
| ConfigWriter.ToTopLevelConfigDefinition | pkg/config/writer/config_writer.go:214-279 | the factored definition for some order of the groups |
| WriterMinimality.OverrideRepeatsNothing | pkg/config/writer/config_writer.go:377-411 | beside a base no override has a name, template, skip or parameter that the base has |
| WriterMinimality.NoOverrideIff | pkg/config/writer/config_writer.go:390-393 | of several variants one has no override iff there is a base, all agree on name, template and effective skip, and all share every parameter of this one |
| WriterMinimality.OverrideSets | pkg/config/writer/config_writer.go:377-411 | an override sets exactly what its variant has and not all variants do |
| WriterMinimality.EnvironmentOverrideSets | pkg/config/writer/config_writer.go:214-279 | in any factored definition the override for an environment sets exactly what its variant has and some variant of its group has not |
| WriterMinimality.NoEnvironmentOverrideIff | pkg/config/writer/config_writer.go:214-279 | an environment has no override iff its variant is alone in its group, or the group has a base and shares all of the variant |
| WriterMinimality.GroupOverrideSets | pkg/config/writer/config_writer.go:214-279 | the override for a group sets exactly what all its variants have and some variant of a group with a base has not |
| WriterMinimality.NoGroupOverrideIff | pkg/config/writer/config_writer.go:214-279 | a group with a base has no override iff no other group has one, or something is common and the groups with a base agree on name, template, skip and on all its parameters |
| WriterMinimality.GroupOverrideRepeatsNothing | pkg/config/writer/config_writer.go:377-411 | no group override has a name, template, skip or parameter that the common base has |
| WriterMinimality.OneOverrideEach | pkg/config/writer/config_writer.go:214-279 | at most one override is written for each environment and for each group |
| WriterMinimality.NoOtherOverrides | pkg/config/writer/config_writer.go:214-279 | every override is for an environment or a group of the variants |
| WriterLoader.FactorsBack | pkg/config/writer/config_writer.go:341-516 | base and override make up the variant again, and the base says nothing that the variant does not |
| WriterLoader.GroupFactorsBack | pkg/config/writer/config_writer.go:239-254 | common base and group override make up the group's base again, also for one group and for bases that share nothing |
| WriterLoader.FindEnvironment | pkg/config/loader/config_entry_loader.go:103-111 | with distinct environments the loader finds for each one exactly what its variant left over |
| WriterLoader.FindGroup | pkg/config/loader/config_entry_loader.go:113-121 | the loader finds for each group exactly what its base left over |
| WriterLoader.CommonBaseHasIff | pkg/config/writer/config_writer.go:239-247 | for every group order, the common base has a name, parameter, template or true skip iff some group has a base and all variants of such groups agree on it |
| WriterLoader.HasBaseIff | pkg/config/writer/config_writer.go:341-357 | a group has a base iff it has one variant, or several that share a name, template, skip or parameter |
| WriterLoader.RoundTrip | pkg/config/loader/config_entry_loader.go:123-172 | loading gives a variant back its name, parameters, template and effective skip iff its group has a base or it sets everything on which all variants of the groups with a base agree |
| WriterLoader.OrderDoesNotMatter | pkg/config/writer/config_writer.go:226-237 | what an environment gets is the same for any two group orders, whether or not it is its own definition |
| WriterLoader.LoadsAlike | pkg/config/loader/config_entry_loader.go:174-275 | a definition that comes back is read with the same config or the same errors as the original |
| WriterLoader.UniformRoundTrip | pkg/config/loader/config_entry_loader.go:123-275 | with the same parameter keys, names, templates and explicit skips, loading yields the variant's own config, or the errors that its own definition has |
| WriterLoader.LeakedParameter | pkg/config/writer/config_writer.go:226-237 | a concrete input on which an environment gets a parameter of another group |
| ConfigLoader.Draft.ApplyOverrides | pkg/config/loader/config_entry_loader.go:153-172 | present values win in place, parameters are merged, the rest stays |
| ConfigLoader.FindsLast | pkg/config/loader/config_entry_loader.go:103-121 | a lookup finds the last override for the key, or there is none |
| ConfigLoader.ToOverrideMap | pkg/config/loader/config_entry_loader.go:103-121 | overrides by key |
| ConfigLoader.GetConfigFromDefinition | pkg/config/loader/config_entry_loader.go:174-275 | a missing template, or one that cannot be loaded, is the only error; otherwise all errors of parameters and name together, and without any the config, whose missing skip is false |
| ConfigLoader.ParseDefinitionForEnvironment | pkg/config/loader/config_entry_loader.go:123-151 | name, template, skip and each parameter come from the last override for the environment if it sets them, otherwise from the last one for the group, otherwise from the base |
| ConfigLoader.ParseConfigEntry | pkg/config/loader/config_entry_loader.go:40-85 | a wrong type is the only error; otherwise, for each environment by that precedence, its config or its errors, in order |
| ConfigLoader.EffectedByPrecedence | pkg/config/loader/config_entry_loader.go:137-147 | the definition in effect is the one by precedence |
| ConfigLoader.LoadedByPrecedence | pkg/config/loader/config_entry_loader.go:123-151 | overrides that apply and a definition by precedence exist, and reading that one gives the result |
| ConfigLoader.PrecedenceIsUnique | pkg/config/loader/config_entry_loader.go:153-172 | precedence determines the whole definition |
| ConfigLoader.EachEnvironmentCounts | pkg/config/loader/config_entry_loader.go:66-84 | every selected environment has its config among the results or contributes an error |
| ConfigLoader.WithoutErrorsAllLoad | pkg/config/loader/config_entry_loader.go:66-84 | without errors the results are the configs of all environments, in order |
| TemplateEscape.EscapeIsStage | internal/template/escape.go:25-30 | the three replacements escape each delimiter of the source, found greedily from the left, on its own |
| TemplateEscape.RepairSeparates | pkg/config/template/renderer.go:35 | on escaped text the repair separates exactly the plain braces in front of an escaped right delimiter |
| TemplateEscape.RenderUndoesEscape | pkg/config/template/renderer.go:26-50 | for every text and all properties, rendering the escaped text gives back the text |
| TemplateEscape.RenderPrintsProperty | pkg/config/template/renderer.go:26-50 | a property action in front of an escaped text prints the value as it is, whatever it contains, and then the text; it fails iff there is no such property |
| TemplateEscape.RepairIsNeededIff | pkg/config/template/renderer.go:32-35 | without the repair the escaped text executes to the text iff no plain opening brace directly precedes a right delimiter; otherwise it fails |
| DispatcherSafety.StepPreserves | pkg/account/deployer/dispatcher.go:48-158 | every step keeps the invariant on submission, workers, wait group, channel and totals |
| DispatcherSafety.RunInvariant | pkg/account/deployer/dispatcher.go:48-158 | the invariant holds in every state of every run |
| DispatcherSafety.WaitReturnsEverything | pkg/account/deployer/dispatcher.go:78-93 | once Wait has closed the channel every added job was called exactly once and has finished, and errors and stored results are those of all jobs with their multiplicities |
| DispatcherSafety.NoSendAfterClose | pkg/account/deployer/dispatcher.go:88-90 | no job sends on the error channel after it was closed |
| DispatcherSafety.AtMostMaxWorkers | pkg/account/deployer/dispatcher.go:48-65 | a fixed pool never runs more than maxWorkers jobs at once |
| DispatcherSafety.StopReachesNobody | pkg/account/deployer/dispatcher.go:67-71 | when Stop is called after Wait all workers, as many as jobs or as maxWorkers, are still there and offering their channel; none can receive quit; no worker is left iff a dynamic pool had no job; the dispatcher's loop still waits for jobs |
| DispatcherSafety.SubmissionNeverBlocks | pkg/account/deployer/dispatcher.go:73-76 | while the caller adds jobs its next step is possible, at once or after one step of the dispatcher's loop, whatever the jobs do |
| DispatcherSafety.SomeStepEnabled | pkg/account/deployer/dispatcher.go:95-121 | no deadlock before Stop, for the fixed and the dynamic pool |
| DispatcherSafety.MeasureDecreases | pkg/account/deployer/dispatcher.go:48-158 | every step lowers a natural measure, so every run is finite |
| DispatcherSafety.WaitReturns | pkg/account/deployer/dispatcher.go:78-93 | every run before Wait has returned can be continued until it has |
| IdMaps.IdMap.AddIds | pkg/account/deployer/ids.go:49-89 | overwrites the given identifiers of one kind and no other |
| IdMaps.IdMap.AddMZones | pkg/account/deployer/ids.go:79-83 | appends the zones |
| IdMaps.IdMap.GetUUID | pkg/account/deployer/ids.go:91-107 | the remote identifier, or the empty string |
| IdMaps.IdMap.GetMZoneUUID | pkg/account/deployer/ids.go:109-118 | the identifier of the first zone of that environment and name, or the empty string |
| IdMaps.ReplayLookup | pkg/account/deployer/ids.go:49-107 | after any writes an identifier reads as one of the values written to it, or as before if there were none |
| IdMaps.ZoneFound | pkg/account/deployer/ids.go:109-118 | when all zones have identifiers, the lookup fails iff there is no such zone |
| IdMaps.ZoneIdIsFirst | pkg/account/deployer/ids.go:109-118 | the identifier of the zone at the first position that matches, and the empty string when none does |
| IdMaps.ProcessItems | pkg/account/deployer/deployer.go:600-619 | all identifiers in order iff every reference is known; otherwise exactly the unknown references in order |
| IdMaps.ProcessPolicyBindings | pkg/account/deployer/deployer.go:583-598 | succeeds iff every policy and boundary is known |
| IdMaps.LastBindingCounts | pkg/account/deployer/deployer.go:583-598 | the table has exactly the bound policies, each with the boundaries of its last binding |
| IdMaps.GetEnvPolicyRefs | pkg/account/deployer/deployer.go:561-573 | succeeds iff the bindings of every environment do |
| IdMaps.LastEnvironmentCounts | pkg/account/deployer/deployer.go:561-573 | the table has the bindings of the last entry for an environment |
| IdMaps.EnvironmentTableKeys | pkg/account/deployer/deployer.go:561-573 | it has exactly the environments with an entry |
| AccountDeployer.PhaseResult | pkg/account/deployer/deployer.go:119-173 | for every run of a phase: no error iff no job sends one, and each identifier reads as some job wrote it, or as before |
| AccountDeployer.AddJobs | pkg/account/deployer/deployer.go:220-279 | for any map order, one job for each entry: what the jobs do is what the entries' jobs do |
| AccountDeployer.AccountDeployer.RunPhase | pkg/account/deployer/deployer.go:149-161 | the same of the method, with the zones, and with an unchanged table if no job writes |
| AccountDeployer.AccountDeployer.FetchExistingResources | pkg/account/deployer/deployer.go:119-147 | no error iff all four fetches succeeded; then every fetched identifier and zone is in the table and the others are as before |
| AccountDeployer.DeployedLookup | pkg/account/deployer/deployer.go:220-265 | for every interleaving a declared identifier reads as what the upsert of an entity with it returned, any other one as before |
| AccountDeployer.DeployJobsSilent | pkg/account/deployer/deployer.go:220-293 | the jobs of the second phase send no error iff every upsert of boundaries, policies, groups, users and service users succeeded |
| AccountDeployer.AccountDeployer.DeployResources | pkg/account/deployer/deployer.go:149-161 | no error iff every upsert succeeded; declared identifiers read as upserted, the others and the zones as before |
| AccountDeployer.AccountDeployer.UpdateGroupPolicyBindings | pkg/account/deployer/deployer.go:397-430 | no error iff the group, its policies and boundaries are known and the remote side accepts the account bindings and those of every environment, or the deletion when there are none |
| AccountDeployer.GroupBoundIff | pkg/account/deployer/deployer.go:397-430 | no error in terms of the requests: the account gets the last binding of each policy, each environment those of its last entry, and all are deleted iff there is no entry |
| AccountDeployer.ZonesKnownIff | pkg/account/deployer/deployer.go:529-548 | the zones of a group are known iff there is one for each and the first one has an identifier |
| AccountDeployer.UserBoundIff | pkg/account/deployer/deployer.go:432-459 | users and service users are bound iff every group is known and the update with the identifiers, in order, is accepted |
| AccountDeployer.AccountDeployer.GetEnvironmentPermissions | pkg/account/deployer/deployer.go:514-527 | the permissions of all environments |
| AccountDeployer.AccountDeployer.GetManagementZonePermissions | pkg/account/deployer/deployer.go:529-548 | succeeds iff the zone of every entry is known, with the permissions of all zones |
| AccountDeployer.PermissionIff | pkg/account/deployer/deployer.go:468-548 | a group is sent exactly the permissions that it lists, each scoped to the account, to its environment, or to its environment and the identifier of the first zone of its name there |
| AccountDeployer.AccountDeployer.UpdateGroupPermissions | pkg/account/deployer/deployer.go:468-499 | no error iff group and management zones are known and the update with all permissions is accepted |
| AccountDeployer.AccountDeployer.UpdateUserGroupBindings | pkg/account/deployer/deployer.go:432-442 | no error iff the user's groups are known and the update with their identifiers is accepted |
| AccountDeployer.AccountDeployer.UpdateServiceUserGroupBindings | pkg/account/deployer/deployer.go:444-459 | the same for service users, with the fetched email |
| AccountDeployer.AccountDeployer.DeployGroupBindings | pkg/account/deployer/deployer.go:295-313 | one job for each group; it sends an error iff the group's bindings fail and, independently, one iff its permissions do, and writes nothing |
| AccountDeployer.AccountDeployer.UpdateBindings | pkg/account/deployer/deployer.go:163-173 | leaves the table as it is; no error iff every binding succeeds |
| AccountDeployer.AccountDeployer.Deploy | pkg/account/deployer/deployer.go:100-117 | the phase barrier: bindings start iff all fetches and upserts succeeded, every declared identifier then being non-empty; success iff the bindings succeed; and they do when every reference is declared or fetched and the remote side accepts them |
| AccountDeployer.BothPhasesThrough | pkg/account/deployer/deployer.go:100-111 | after two successful phases every declared or fetched reference and every fetched zone resolves |
| AccountDeployer.CoveredBinds | pkg/account/deployer/deployer.go:397-499 | then no binding of covered resources fails on a lookup |
| ProjectLoader.ToDependenciesMap | pkg/project/project_loader.go:361-383 | per environment exactly the other projects that configs which are not skipped refer to, each once |
| ProjectLoader.FindDuplicatedConfigIdentifiers | pkg/project/project_loader.go:338-359 | one error, in order, for exactly the configs that repeat an identifier; without colons in names these are the ones that agree with an earlier one in group, environment and coordinate |
| ProjectLoader.SameIdIff | pkg/project/project_loader.go:357-359 | without colons in group, environment, project and type, two ids agree iff group, environment and coordinate do |
| ProjectLoader.ColonsCollide | pkg/project/project_loader.go:357-359 | concrete groups and environments with a colon that give one id to different configs |
| ProjectLoader.LoadsIff | pkg/project/project_loader.go:169-209 | without colons a project loads iff its files can be read, no coordinate occurs twice for one environment of a group, and every key user action has a reference as scope |
| LoadedConfigs.LoadedCoordinatesAreUnique | pkg/graph/graph.go:225-231 | after a successful load the configs gathered for an environment from all projects have pairwise different coordinates |
| ProjectLoader.CoordinatesAreUnique | pkg/project/project_loader.go:187 | configs of a project that loads have different coordinates within one group and environment |
| ProjectLoader.CheckKeyUserActionScope | pkg/project/project_loader.go:239-257 | errors for exactly the key user action configs whose scope is no reference |
| ProjectLoader.LoadProject | pkg/project/project_loader.go:169-209 | a project with its configs and dependencies iff its files can be read, no identifier is repeated and all scopes are valid |
| ProjectLoader.GroupMembers | pkg/project/project_loader.go:153-159 | exactly the names of the projects of a group, and whether there is one |
| ProjectLoader.GetProjectNamesToLoad | pkg/project/project_loader.go:133-167 | exactly the names asked for, by project or by group; errors iff some name is neither |
| ProjectLoader.EnqueueDependencies | pkg/project/project_loader.go:120-122 | adds exactly the dependencies in selected environments |
| ProjectLoader.LoadProjects | pkg/project/project_loader.go:77-130 | terminates; succeeds iff there are projects, all names are known and everything wanted can be read; then loads each project of the least fixpoint once and no other |
| ProjectLoader.ReferencedProjectsAreLoaded | pkg/project/project_loader.go:361-383 | after success, a project of the manifest that a loaded config refers to, unless the config is skipped, is loaded too |
| ProjectLoader.LoadedOnlyIfReferenced | pkg/project/project_loader.go:361-383 | a loaded project that was not asked for is referenced by a config of another loaded project that is not skipped and is for a selected environment |
| NumericId.VarInt | internal/idutils/numeric_id.go:73-94 | the sum of the 7-bit groups up to the first byte without continuation bit, modulo 2^64 |
| NumericId.OrStep | internal/idutils/numeric_id.go:86-90 | combining a shifted group by bitwise or is addition modulo 2^64, also for shifts beyond the word |
| NumericId.DecodeEncode | internal/idutils/numeric_id.go:73-94 | decoding inverts base-128 encoding, whatever bytes follow |
| NumericId.WordRoundTrip | internal/idutils/numeric_id.go:73-94 | every 64-bit word takes at most ten bytes and decodes to itself |
| NumericId.ZigzagDecode | internal/idutils/numeric_id.go:95-101 | half of an even word; minus half minus one of an odd one, through the flipped bits |
| NumericId.ZigzagBijection | internal/idutils/numeric_id.go:95-101 | zigzag decoding and encoding invert each other between words and signed 64-bit integers |
| NumericId.GetLegacyNumericID | internal/idutils/numeric_id.go:66-71 | despite the aliased append the id is that of the original bytes 0-5 and 12-15 |
| NumericId.LegacyIdRoundTrip | internal/idutils/numeric_id.go:66-101 | a UUID that carries the code of a signed integer yields that integer |

## Left out

- HTTP clients, retries, upserts and their caches: remote behaviour; a deployment or a request is a parameter of the model.
- YAML and JSON, the file system, logging, reporters and commands: input and output.
- The request limiter: unseen code.
- DeployComponents: runs one component after the other, because components share no state; `ComponentInterleaving` covers all interleavings.
- The validators that run before a deployment: only whether they found an error.
- The wait before each deployment of a wave (`DeployWaitDuration`) and the wording of skip warnings: the order of reports is kept, their text is not.
- The copy of the config graph in `deployGraph`: it is never read.
- Sorting parameters by name before `parametersToSortData`: the theorems hold for every order of distinct names.
- `OriginObjectId`, scope, `insertAfter` and the serialized form of parameters: the factoring does not carry origin ids, the others cannot be overridden.
- Parameters whose definition is nil: every parameter of the writer's model has a definition, so a missing one is never equal to a present one.
- A variant with a nil skip: the writer always writes a boolean; `RoundTrip` covers nil all the same, `UniformRoundTrip` asks for explicit skips.
- The rest of the template language: an action outside the modelled ones, trim markers and escapes in quoted strings fail in the model.
- Texts are sequences of characters where the source replaces bytes; all patterns are ASCII.
- Wrapping of errors with context in the account deployer, and the distinction between a nil and an empty map of account bindings.
- Binding jobs look identifiers up when they are added rather than when they run: no job of that phase writes to the table.
- A finishing job signals the wait group and its worker offers its channel again in one step: in between the worker does nothing that another goroutine could see.
- A deployed node publishes its entity and is reported in one step; the report itself is seen by no other goroutine.
- Panics of jobs and cancelled contexts.
- `getNumericID`, the regular expressions and the base-64 decoding around numeric ids: one conversion, and unseen code.
- `insertNetworkZoneParameter` in the project loader: it adds references within a project, which its dependencies ignore.
- Compound, file, list and environment parameters: known by their references and a text, or a failure, that depends arbitrarily on the properties they refer to; escaping a text cannot fail.
- Template files, parameters and names of a definition are checked by arbitrary functions; a skip is a boolean, as the writer produces it.
- File name generation, version comparison, filters and delete ordering: no property that a reader would not see in the body.
