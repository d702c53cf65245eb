# Pri-Fly compiler and monitor: a Dafny model

Pri-Fly turns authored workflow packages into sealed, content-addressed
workflow graphs, runs them durably, and shows their runs in a monitor. This
project models the parts of it whose correctness is an argument and not a
lookup, and proves what they are for. Each file is one module (two in
`Lowering.dfy`); `dafny verify dfyconfig.toml` checks everything.

**The composition compiler.** A composition arranges contributions into trees
of sequences, parallel groups and choices.

- `Arrangement` reads the declarations and collapses contributions into groups;
  `GroupDeclarations` is the language of these declarations.
- `Lowering` is the compiler as a function; `Lowerer` is the object that does
  the same by updating its `external`, `ports` and component list, method by
  method proved equal to the function.
- `Flow` is the target: a stage graph stepped by the runtime's rules for calls,
  joins and choices, with `Conditions` as its truth tables. `Meaning` evaluates
  the authored tree directly, `Starts` says what that starts.
  `LoweringProof` and `LoweringTheorems` prove that the two agree, and that
  bindings and links come out right; `LoweringSuccess` says exactly which groups
  compile, `GeneratedDocuments` what the documents state field by field, and
  `LoweringFacts` what names, targets, sources and identities come to.
- `Splice` inserts a stage on one edge of a workflow; `ComposedInsertion` applies
  all contributions of a root in turn and states what the finished project does.

**Sealing.** `Definitions` rewrites references in documents, `BuildSealing` is
the memoised depth-first sealer as an object, `BuildProvenance` is the package
build, its provenance and the separate checker.

**Options.** `CompositionOptions` splits options into entries and sets them
back, `OptionResolution` resolves entries over the ancestry of a composition.

**The monitor.** `Provenance` links runs to the runs they were forked from,
`RelatedRuns` counts and shows them level by level, `GraphRank` lays out a
workflow graph, `MonitorRefresh` keeps the cached rows in step with storage
that other processes write.

**Development scripts.** `ReleaseChecks` is the loop that prepares CI evidence
for a release, `ImportClosure` the choice of packages a change can affect.

Where the original updates fields or local maps in place, the model is a class
or a method with loops, proved against a specification function or predicate;
where the original iterates a Go map, the method takes the next key
arbitrarily, so its contract holds for every order. Hashes, canonical JSON and
the behaviour of authored components are parameters.

## Findings

Where the code does not do what its comments, its view or its names suggest,
the property is stated with a concrete case and with the condition under which
it holds, for all inputs.

1. **A row may not become current although its mark is.** The comment on
   `monitorStorageMark` (`cmd/prifly/monitor_catalog.go:518-525` and 537-538)
   wants a rewritten `prifly.json` to be seen even when no run moved. The mark
   does move, and the source is read again, but a terminal row of unchanged
   version and events is reused whole (476-480), its `Project` included. Then
   the mark is recorded and the row stays (`MonitorRefresh.RenameIsMissed`). A
   summary read that fails once leaves its error row under a matching mark in
   the same way, until the storage changes (`MonitorRefresh.FailedSummaryStays`).
   `MonitorRefresh.ReuseIsFullReadExactlyWhen` and
   `MonitorRefresh.MatchingMarkIsCurrent` are the exact conditions.
2. **Two settings may become one option.** When an owner names both its own
   root and the consumer's root as settings targets, the rename in
   `cmd/prifly/project_composition_options.go:33-35` gives both the same key, and
   the order of map iteration picks the value
   (`CompositionOptions.CollisionIsAmbiguous`). More than one result is possible
   exactly if such a pair with different values exists
   (`CompositionOptions.AmbiguousExactlyWhen`).
3. **Rows opened one by one may miss a run.** Every request chooses the parent
   links anew (`cmd/prifly/monitor_list.go:44-64`, called at 241). If two runs name
   each other, the request for the top may show only the one, and the request
   below it links the other way and shows nothing
   (`RelatedRuns.ARunIsLostBetweenRequests`). The links are the same in every order,
   and every matched run is shown in every sequence of requests, exactly if no
   provenance cycle has two or more runs (`Provenance.ForestIsUniqueExactlyWhen`,
   `RelatedRuns.MatchesAreShownExactlyWhen`).
4. **A loop may be drawn without an edge going back.** An unchosen edge is drawn
   as skipped whatever its columns (`cmd/prifly/monitor.js:181`), so a loop whose
   back edge a choice refused shows no returning edge
   (`GraphRank.RefusedEdgeHidesTheReturn`). A cycle that passes no node twice has
   one in every layout it is part of exactly if no choice refused any of its edges
   (`GraphRank.CyclesReturnExactlyWhen`); with a refused edge it depends on the
   layout (`GraphRank.ReturnDespiteRefusal`).
5. **A package may be its own reason.** The reason is picked after the package
   joined the closure (`scripts/test-changed.py:105-106`), and a package with
   external tests imports itself (`ImportClosure.APackageExplainsItself`). The
   recorded reasons always lead to a selected package exactly if no affected,
   unselected package imports itself (`ImportClosure.ReasonsLeadExactlyWhen`). The
   closure itself is right in every case.
6. **Two sources may get one lifted key.** A stage name and a port name are joined
   by an underscore, so the outputs of two stages can meet
   (`LoweringSuccess.JoinedNamesMeet`); the group is then refused.
   `LoweringSuccess.LoweringSucceedsExactlyWhen` says which groups are accepted.

## Model

| member | source | states |
|---|---|---|
| `LoweringTheorems.CompiledGroupRunsAsWritten` | cmd/prifly/project_composition_group.go:346-513 | for every group tree, lowered against a list that may already hold the wrappers of earlier groups, for every behaviour of the authored components, every predicate value and every settlement order: stepping the generated stage graphs of the finished list through the outer call gives the same result (succeeded, rejected, technical failure) and the same history of started leaves as evaluating the tree |
| `LoweringTheorems.LoweringPreservesMeaning` | cmd/prifly/project_composition_group.go:344-513 | any runtime that runs each generated wrapper by stepping its stages implements the tree |
| `LoweringSuccess.LoweringSucceedsExactlyWhen` | cmd/prifly/project_composition_group.go:279-513 | the compiler accepts a group exactly if every source it reads is a root input or typed stage output (with a schema where projected), no two different ones share a lifted key, every leaf finds its one target with all outcomes routed, and the root's namespace leaves room for identities |
| `LoweringSuccess.JoinedNamesMeet` | cmd/prifly/project_composition_group.go:296-338 | a contribution that reads two stage outputs of one lifted key, each in scope, with its target found and room for an identity, is refused for the collision alone |
| `GeneratedDocuments.GeneratedDocumentsFit` | cmd/prifly/project_composition_group.go:346-513 | of what is listed for a group: every call stage names a listed workflow and every step stage a listed step; each document is of the root's revision, version, limits and policy, with the two outcomes and no outputs; a fan-out runs all branches at once and waits for all; every input is required, named and typed by its source; the document returned stands for the group, each leaf by one stage of its own kind with its target, routes, ports and impossible verdicts |
| `LoweringFacts.TargetFoundExactlyWhen` | cmd/prifly/project_composition_group.go:390-436 | a leaf finds its target exactly if one component of the right kind has its name and all outcomes are routed; only the good result that leads on leads to `done`; no target, an unrouted outcome and several targets are refused in this order, each with its code |
| `LoweringFacts.TargetIs` | cmd/prifly/project_composition.go:1219-1224 | a component is meant by its name or a further name, an unnamed one by what stands after the last slash of its identity |
| `LoweringFacts.LiftedAs` | cmd/prifly/project_composition_group.go:279-342 | a binding is lifted exactly if it reads a root input or a declared output of a step or call stage, states a projected schema, and its key is not taken by another; its input then has its source's format and schema, or the projected one |
| `LoweringFacts.WrapperIdIs` | cmd/prifly/project_composition_group.go:484-495 | a generated identity is the root's namespace, `:workflow/` and as much of the hash as 128 characters leave room for, and is refused if that is less than 32 |
| `Starts.CompiledGroupStartsOnce` | cmd/prifly/project_composition_group.go:346-513 | stepping the generated workflows of a group starts only targets of its leaves, with their bound inputs, each at most once and at the call path of its leaf, and a sequence in order, whatever the components answer |
| `Starts.TreeStartsOnce` | cmd/prifly/project_composition_group.go:450-480 | no behaviour of the components makes a tree start anything but its leaves, or one of them twice |
| `Starts.LeafStarts` | cmd/prifly/project_composition_group.go:350-437 | a leaf starts its one target once, or nothing if its inputs cannot be bound |
| `Starts.SequenceStartsInOrder` | cmd/prifly/project_composition_group.go:453-461 | a sequence starts what its members start, in order, up to and including the first that does not succeed, and has that one's result |
| `Starts.ChoiceStarts` | cmd/prifly/project_composition_group.go:468-480 | a choice starts what its selected member starts and nothing of the others |
| `LoweringProof.LowerImplements` | cmd/prifly/project_composition_group.go:346-513 | the invariant behind it: at any point of the compilation, a lowered subtree called with inputs holding its lifted bindings means the subtree |
| `LoweringProof.SequenceRuns` | cmd/prifly/project_composition_group.go:453-461 | the generated chain runs members in order and the first member that does not succeed ends it with that result |
| `LoweringProof.JoinIsOrderFree` | internal/runtime/parallel_model.go:164-183 | with join "all" over succeeded, every settlement order of the branches gives the same verdict, and a technical failure of any branch fails the join |
| `LoweringProof.ParallelRuns` | cmd/prifly/project_composition_group.go:462-467 | the generated fan-out succeeds exactly if every member did, rejects if all settled and one did not succeed, and fails if one failed |
| `LoweringProof.ChoiceRuns` | cmd/prifly/project_composition_group.go:468-480 | the generated choice runs the member the selection rule picks, rejects on an unknown condition, fails on an ambiguous exclusive one, and takes the member at the default index otherwise |
| `Conditions.FirstMatchIs` | internal/flow/conditions.go:179-217 | `first_match` goes by the first condition that is not false and takes the default if there is none |
| `Conditions.ExclusiveIs` | internal/flow/conditions.go:179-217 | `exclusive` fails on an error or two conditions that hold, then goes by an unknown one, then by the one that holds, else by the default |
| `Conditions.ConnectivesAre` | internal/flow/conditions.go:260-294 | the tables of not, all and any over true, false and unknown; an error in any argument, or no argument, is an error |
| `Conditions.CompareIs` | internal/flow/conditions.go:228-247 | a comparison is decided for present scalars of one kind, unknown if a value is missing, and an error otherwise |
| `LoweringProof.LeafImplements` | cmd/prifly/project_composition_group.go:350-437 | a leaf wrapper calls the one named component with the author's bindings; only success that leads to the attachment target succeeds, any other outcome rejects, a technical failure stays one |
| `LoweringTheorems.OuterCallBindsEverySource` | cmd/prifly/project_composition_group.go:252-261 | the outer call binds exactly the source bindings written anywhere in the tree; the port of each leads back to it, and different bindings never share a port |
| `LoweringProof.LiftPredicateKeeps` | cmd/prifly/project_composition_group.go:547-587 | a lifted predicate evaluated on the wrapper's inputs has the truth value the author's predicate has at the root |
| `LoweringProof.LowerKeeps` | cmd/prifly/project_composition_group.go:279-342 | lowering keeps the compiler state good: ports and external bindings only grow, under their own keys, and sealed components stay listed |
| `LoweringTheorems.GeneratedWorkflowsAreLinked` | cmd/prifly/project_composition_group.go:439-529 | the component list stays duplicate-free and ordered, group after group: every call of a generated workflow targets something listed earlier, a generated child receives exactly the inputs it declares, and only declared inputs or literals are passed on |
| `LoweringTheorems.ExecuteRealises` | cmd/prifly/project_composition_group.go:483-512 | because of that order, an interpreter that links each workflow only to earlier ones runs every generated workflow by its full stage graph |
| `LowererObject.Lowerer.LiftOne` | cmd/prifly/project_composition_group.go:279-342 | the object's `lift` returns what the function `Lift` says, updates `external` and `ports` accordingly, and refuses with the same code |
| `LowererObject.Lowerer.LiftCondition` | cmd/prifly/project_composition_group.go:547-587 | the in-place predicate walk equals the lifting function |
| `LowererObject.Lowerer.Target` | cmd/prifly/project_composition_group.go:390-436 | the scan over the components finds the unique named target with its routes or gives the exact refusal |
| `LowererObject.Lowerer.BindChild` | cmd/prifly/project_composition_group.go:515-529 | the bindings passed to a child are its declared inputs among the offered ones |
| `LowererObject.Lowerer.Append` | cmd/prifly/project_composition_group.go:504-512 | a sealed wrapper is listed once, at the end, or reused |
| `LowererObject.Lowerer.LowerOne` | cmd/prifly/project_composition_group.go:346-513 | the object compiles any contribution to exactly what the compiler function gives, state included, and refuses with the same code |
| `Splice.ProjectWorkflow.Apply` | cmd/prifly/project.go:2182-2330 | the graph afterwards is the splice planned on the graph before; every refusal but the last leaves the workflow as it was; the last, for an impossible verdict unknown to the raised revision, comes after the change and has its own code |
| `Splice.ProjectWorkflow.FindRoutes` | cmd/prifly/project.go:2212-2229 | the collected routes are exactly the routes of the source stage to the target, each once |
| `Splice.ProjectWorkflow.Prepare` | cmd/prifly/project.go:2196-2275 | the checks, in their order, give the one route or the first refusal that applies |
| `Splice.PlansExactlyWhen` | cmd/prifly/project.go:2196-2275 | an insertion is possible exactly if its stage is new, one route makes up its edge, and every stage it mentions exists; that route is the one planned |
| `Splice.PlanRefuses` | cmd/prifly/project.go:2196-2275 | which refusal an impossible one gets, in the order of the checks |
| `Splice.InsertedStageIs` | cmd/prifly/project.go:2182-2301 | the stage put in: its identity, its kind and reference, exactly the declared routes, an error route for calls only, each port bound to its listed source, else the single input, else the given binding, and impossible verdicts for steps only |
| `Splice.EdgeOutOfInserted` | cmd/prifly/project.go:2282-2289 | a further insertion aimed at an edge leaving the inserted stage finds that edge |
| `Splice.RevisionsAre` | cmd/prifly/project.go:2303-2325 | no, or a known revision below the fourth becomes the fourth, any other stays; a step may name `blocked` from the sixth on and the other four verdicts always |
| `Splice.InsertionIsReversible` | cmd/prifly/project.go:2276-2298 | removing the new stage and pointing its one route back restores the original stages; no other route or stage changes |
| `Splice.RaisedIsNotLower` | cmd/prifly/project.go:2299-2316 | the workflow revision is never lowered, and an unknown one is left alone |
| `Splice.PlanAfter` | cmd/prifly/project.go:2212-2240 | after one insertion, a second one is planned as before, unless it wants the same edge, whose route is gone |
| `Splice.InsertionsCommute` | cmd/prifly/project.go:2182-2330 | two possible insertions of different stages can both be made exactly if their edges differ, and then either order gives the same graph |
| `ComposedInsertion.InsertedGroupRunsAsWritten` | cmd/prifly/project_composition_group.go:232-270 | every group of a root, in the finished project: its call has the reference and bindings it was lowered to, so entering it evaluates the authored tree, and it leaves by the route the group declares for that result, `on_error` for a technical failure; if its sources cannot be bound it leaves by `on_error` having started nothing; the edge enters the call directly, and a route leaves for the declared stage directly, exactly if no later contribution stands on that edge, and otherwise leads to the one that does |
| `ComposedInsertion.StagesKept` | cmd/prifly/project.go:2276-2298 | in the finished project every stage of an earlier state of the graph has its kind, reference, inputs and routes, each route redirected by the later contributions on its edge and by nothing else, also on edges that leave an inserted stage |
| `ComposedInsertion.LeadStaysExactlyWhen` | cmd/prifly/project.go:2276-2281 | a route keeps its target exactly if no later contribution is attached to that edge |
| `ComposedInsertion.ApplyContributions` | cmd/prifly/project_composition_group.go:232-270 | the loop over a root's contributions: single ones are spliced in, groups lowered against the growing list by a lowerer that reads the root as it then stands, and spliced in as one call; graph, revision and list end as the fold of these steps says, or with the refusal of the first that fails |
| `ComposedInsertion.GroupAppliesExactlyWhen` | cmd/prifly/project_composition_group.go:232-270 | a group is applied exactly if, in the graph and with the components as the contributions before it have left them, every source it reads is in reach, no two share a lifted key, every leaf finds its target, its edge fits and the root leaves room for identities |
| `ComposedInsertion.InsertedOutputsAreInReach` | cmd/prifly/project_composition_group.go:242-244 | the outputs of a stage inserted before can be read |
| `ComposedInsertion.StaysInReach` | cmd/prifly/project_composition_group.go:234-268 | what a contribution could read stays in reach for all later ones |
| `ComposedInsertion.GroupDocumentsAre` | cmd/prifly/project_composition_group.go:247-268 | the documents of a group are of the revision the root then has, under its limits and policy, and the call spliced in names the one that stands for the group |
| `ComposedInsertion.InsertsExactlyWhen` | cmd/prifly/project.go:2276-2330 | a single stage goes in exactly if it can be planned and the resulting revision knows its impossible verdicts |
| `Arrangement.Arrange` | cmd/prifly/project_composition_group.go:24-117 | the result, refusals and their codes included, is that of indexing, reading the declarations in order, emitting and the final checks; on success the list consists of one group per declaration, as declared, and the unused contributions; each group stands where the first of its contributions stood; its leaves are a permutation of the leaves given; sources, edges and stage ids do not repeat; there is no refusal for a lost group |
| `Arrangement.ReadsExactlyWhen` | cmd/prifly/project_composition_group.go:119-216 | a group can be read exactly if its declaration has one operator of the right shape with nested groups like it no deeper than the limit, and every contribution it names is known, attached to the group's edge, not used before and named once; reading uses exactly these and gives the operator, members, selection rule, conditions and default that were declared |
| `Arrangement.DeclarationReadsExactlyWhen` | cmd/prifly/project_composition_group.go:34-76 | a declaration can be read exactly if it has a valid new identity, an edge, such a group and proper routes; the group then has that identity, edge, content and those routes |
| `GroupDeclarations.GroupShapeIs` | cmd/prifly/project_composition_group.go:119-216 | what can be read as a group is exactly what the declaration language allows, told by JSON fields: one operator, 1 to 32 members or branches, a choice with a selection rule of the two, its branches, a default and rejection on unknown, nested at most 8 deep |
| `GroupDeclarations.ReadAsDeclared` | cmd/prifly/project_composition_group.go:119-216 | the members read are those declared, in order, a choice's under their conditions with the default last |
| `GroupDeclarations.DeclarationIs` | cmd/prifly/project_composition_group.go:34-74 | a declaration has the right shape exactly if it states a valid identity, an edge, a group, success leading on and rejection elsewhere |
| `GroupDeclarations.HeadAsDeclared` | cmd/prifly/project_composition_group.go:75-79 | the group's identity, edge, routes, source and selector are those declared; an error is routed as stated or else as a rejection |
| `GroupDeclarations.SelectorRefused` | cmd/prifly/project_composition_group.go:139-151 | an unknown selector, one used before and one of another edge are refused, each with its code |
| `GroupDeclarations.PlaceRefusedFor` | cmd/prifly/project_composition_group.go:102-114 | two contributions on one edge need an arrangement, two of one stage identity are in conflict |
| `Arrangement.ReadGroups` | cmd/prifly/project_composition_group.go:32-77 | the loop over the declarations gives their fold with the identities and contributions really taken so far, or the refusal of the first that cannot be read |
| `Arrangement.Emit` | cmd/prifly/project_composition_group.go:80-96 | at every point of the pass, the contributions passed account for exactly the beginning of the list: the unused ones and each group with a contribution among the used ones |
| `Arrangement.EveryGroupEmitted` | cmd/prifly/project_composition_group.go:80-98 | once all contributions are passed every declared group has been emitted once, so the refusal for a lost group is unreachable |
| `Arrangement.ReadGroupTakes` | cmd/prifly/project_composition_group.go:119-216 | reading a group consumes contributions not used before, each once, and its leaves are exactly those of the contributions consumed |
| `Arrangement.LeavesKept` | cmd/prifly/project_composition_group.go:218-228 | replacing consumed contributions by their groups keeps the multiset of leaves |
| `Arrangement.ValidatedAre` | cmd/prifly/project_composition_group.go:605-622 | validation that succeeds has seen every leaf source once, across all nesting, and no group deeper than the limit |
| `Arrangement.IndexContributions` | cmd/prifly/project_composition_group.go:25-31 | contributions are indexed exactly if no two share a selector |
| `Arrangement.CheckPlaces` | cmd/prifly/project_composition_group.go:102-114 | the loop refuses exactly at the first contribution whose edge, or else stage id, is taken by the last non-empty selector seen there, with the code for that |
| `Arrangement.PlacesAre` | cmd/prifly/project_composition_group.go:102-114 | nothing is refused exactly if, wherever an edge or a stage id repeats, the one before had an empty selector; so a refusal means one repeats, and with non-empty selectors no refusal means none does |
| `CompositionOptions.Entries` | cmd/prifly/project_composition_options.go:29-67 | the entries are exactly the set options under their renamed keys, in any order of visiting |
| `CompositionOptions.SettingsLand` | cmd/prifly/project_composition_options.go:31-41 | settings under the owner's own root land under the composed root, others stay where they are, and none comes from elsewhere |
| `CompositionOptions.EntriesDetermined` | cmd/prifly/project_composition_options.go:32-39 | without a collision under the rename, every option's entry has that option's value |
| `CompositionOptions.AmbiguousExactlyWhen` | cmd/prifly/project_composition_options.go:29-39 | more than one result of splitting is possible exactly if the owner sets one name to different values under its own root and under the composed root |
| `CompositionOptions.CollisionIsAmbiguous` | cmd/prifly/project_composition_options.go:33-38 | the concrete case |
| `CompositionOptions.SplitAndSetIsIdentity` | cmd/prifly/project_composition_options.go:29-193 | splitting normalised options and setting the entries back, in any order, gives the options back |
| `CompositionOptions.SetAllThenGet` | cmd/prifly/project_composition_options.go:145-193 | after setting entries each key reads its entry and every other key is untouched, so the order does not matter |
| `OptionResolution.ResolvedIsMaximal` | cmd/prifly/project_composition_options.go:110-132 | an entry other than a reference resolves to a value exactly if all its maximal declarations have it, and conflicts exactly if two of them disagree |
| `OptionResolution.ResolvesExactlyWhen` | cmd/prifly/project_composition_options.go:110-131 | an entry has a value exactly if some declaration is not overridden by one of an inheriting owner and all such agree on it; disagreement and a cycle are refused, each with its code |
| `OptionResolution.ReferenceRefused` | cmd/prifly/project_composition_options.go:90-109 | inherited references that differ are in conflict, and agreeing ones that the consumer repeats overlap |
| `OptionResolution.MaximalExists` | cmd/prifly/project_composition_options.go:110-125 | on every ancestry a declared entry has a maximal declaration: the "no maximal source" refusal is unreachable |
| `OptionResolution.OwnDeclarationWins` | cmd/prifly/project_composition_options.go:110-131 | the consumer's own declaration decides |
| `OptionResolution.ReferenceResolves` | cmd/prifly/project_composition_options.go:90-109 | a reference resolves exactly if all inherited declarations agree and the consumer adds none to them; then every declaration has the value |
| `OptionResolution.ConsecutiveIsAll` | cmd/prifly/project_composition_options.go:93-105 | comparing each inherited declaration with the previous one is enough for all to agree |
| `OptionResolution.CheckReferences` | cmd/prifly/project_composition_options.go:92-109 | the loop over the declarations decides exactly that, with the code of the first violation |
| `OptionResolution.FindMaximal` | cmd/prifly/project_composition_options.go:110-122 | the nested loops collect exactly the declarations no descendant shadows, in order |
| `OptionResolution.ResolvedOptions.Put` | cmd/prifly/project_composition_options.go:145-193 | setting an entry in place changes that entry and nothing else |
| `OptionResolution.ResolveOptions` | cmd/prifly/project_composition_options.go:69-141 | the resolved options hold exactly the selected entries; an execution binding is the node's own if it has one, else that of the last parent that has one, and no other exists; a refusal is that of the first entry, by kind, scope and name, that does not resolve |
| `OptionResolution.OneFirstFailure` | cmd/prifly/project_composition_options.go:77-86 | that order leaves one entry only, so the declarations decide the refusal |
| `OptionResolution.EarlierIs` | cmd/prifly/project_composition_options.go:77-86 | the order of entries: by kind in alphabetical order, then by scope, then by name |
| `OptionResolution.ConsumerDecides` | cmd/prifly/project_composition_options.go:69-132 | over a whole resolution, what the node itself declares is what it gets |
| `OptionResolution.DeclarationsFit` | cmd/prifly/project_composition_options.go:70-76 | the declarations a resolution collects satisfy the assumptions of the theorems above, on every ancestry |
| `Definitions.RenameTwice` | cmd/prifly/project_build.go:248-285 | renaming references twice is renaming by the composition |
| `Definitions.RenamedRefs` | cmd/prifly/project_build.go:248-285 | the references of the renamed document are exactly the images of the original's |
| `Definitions.UnchangedKeepsRefs` | cmd/prifly/project_build.go:248-285 | a document that renaming leaves as it is refers only to what is not renamed |
| `Definitions.DataStays` | cmd/prifly/project_build.go:259-262 | literal values and configuration defaults are never changed, at any depth, even if they look like references |
| `Definitions.RewritesExactly` | cmd/prifly/project_build.go:245-285 | the whole rewriting, place by place: the value of a literal and the default of a declared input's configuration stay with all that is in them, an exact reference anywhere else becomes what it is renamed to, and all else stays |
| `BuildSealing.Builder.Rebuild` | cmd/prifly/project_build.go:361-411 | sealing a definition seals whatever it refers to first, keeps what is sealed, and refuses only if a chain of references through definitions not sealed yet returns to itself or is deeper than allowed |
| `BuildSealing.Builder.RebuildRefs` | cmd/prifly/project_build.go:380-391 | the rewritten value is the original with every owned reference replaced by the sealed one, whatever got sealed on the way |
| `BuildSealing.PathsDiffer` | cmd/prifly/project_build.go:403-407 | no two definitions are written to the same path |
| `BuildSealing.PathIs` | cmd/prifly/project_build.go:403-407 | a definition is written in the directory of its kind, under its number and the kind's suffix |
| `BuildProvenance.SealPackage` | cmd/prifly/project_build.go:412-425 | the output seals every definition once, in order, with its mapping and at most one root; success means that the first listed definition leading to another does so within the depth limit; a refusal means two roots, or from some definition a chain over what no earlier listed one leads to that closes or is deeper than the limit |
| `BuildProvenance.NotShallowIsNotSealable` | cmd/prifly/project_build.go:364-368 | the two bounds fit: where the shortest such chain is too deep, a refusal is certain, and its condition holds |
| `BuildProvenance.NotSealableIsCyclicOrDeep` | cmd/prifly/project_build.go:363-368 | such a chain is a reference cycle or deeper than the limit |
| `BuildProvenance.ReferentsFirstIsSealable` | cmd/prifly/project_build.go:364-368 | listed with referents first, a package is never refused for depth, however deep its references go: the limit counts only what is still unsealed |
| `BuildProvenance.SealedIsAcyclic` | cmd/prifly/project_build.go:363-368 | a sealed package has no reference cycle; so a cyclic one is always refused |
| `BuildProvenance.SealedReferencesResolve` | cmd/prifly/project_build.go:380-402 | every reference in a sealed document is an authored reference out of the package or names one output component by the digest of its final document |
| `BuildProvenance.SealedFields` | cmd/prifly/project_build.go:376-417 | a sealed definition field by field: kind, author and root mark kept, the version of this build, stated in the document, the digest of the final document; contexts untouched, schemas but for the version; and the mapping recorded for it |
| `BuildProvenance.OneRootExactlyWhen` | cmd/prifly/project_build.go:418-423 | a package is refused for its roots exactly if it has two; the root reference is that of the one it has |
| `BuildProvenance.CompiledDiffer` | cmd/prifly/project_build.go:89-95 | the version hash of kind, identity and authored version gives the definitions of a package, whose identities and versions differ, different compiled references |
| `BuildProvenance.ProvenanceRestoresDocuments` | cmd/prifly/project_build.go:377-417 | mapping compiled references back through the provenance table and restoring the author's version gives back the authored document, exactly if no reference of it to something outside the package is one of the compiled references |
| `BuildProvenance.ValidateBuild` | cmd/prifly/project_build.go:461-495 | the checker accepts exactly the provenance the declarative predicate describes |
| `BuildProvenance.AcceptsExactlyWhen` | cmd/prifly/project_build.go:461-495 | that is: as many mappings as components, different compiled references, each with the author's identity and this build's version and describing an exported component by reference, author, kind and path, and the root reference that of a root workflow |
| `BuildProvenance.AcceptedIsBijection` | cmd/prifly/project_build.go:461-491 | acceptance puts mappings and exported components in one-to-one correspondence |
| `BuildProvenance.OneRootMark` | cmd/prifly/project_build.go:482-494 | exactly one mapping is counted as root when one exported workflow is the root |
| `BuildProvenance.BuiltIsAccepted` | cmd/prifly/project_build.go:412-495 | the builder's own output is accepted exactly if the compiled references differ and the root is a workflow |
| `Provenance.LinkParents` | cmd/prifly/monitor_list.go:42-64 | in every iteration order the chosen links are acyclic, each is the recorded one, and a link is left out only if it would close a cycle |
| `Provenance.ForestIs` | cmd/prifly/monitor_list.go:46-63 | told by the catalog's fields: a link leads to the listed run of the same source named as the fork source, and one that is recorded is left out only if the walk up from it comes back |
| `Provenance.DroppedOnlyOnCycles` | cmd/prifly/monitor_list.go:48-63 | a resolvable link is dropped only from a run on a provenance cycle |
| `Provenance.OneLinkDroppedPerCycle` | cmd/prifly/monitor_list.go:49-63 | from each provenance cycle, self-links included, exactly one link is dropped |
| `Provenance.ForestIsUniqueExactlyWhen` | cmd/prifly/monitor_list.go:44-64 | the links are the same in every order of visiting exactly if no provenance cycle has two or more runs |
| `RelatedRuns.CountMatches` | cmd/prifly/monitor_list.go:68-80 | the included set is exactly the matched runs and their ancestors, although the walk stops at the first included one; each count is the number of matches at or below the run |
| `RelatedRuns.CountDescendants` | cmd/prifly/monitor_list.go:90-95 | the descendant count of a run is the number of included runs strictly below it |
| `RelatedRuns.FindLatest` | cmd/prifly/monitor_list.go:81-89 | the tip of a run is the most recently observed of all runs strictly below it, ties going to the larger key |
| `RelatedRuns.ShowRelated` | cmd/prifly/monitor_list.go:41-145 | the shown level holds exactly the included runs of that level, sorted, each row with its exact counts, context mark, missing parent mark and tip |
| `RelatedRuns.TopRowsAddUp` | cmd/prifly/monitor_list.go:77-79 | the matches shown on the top rows add up to the number of matched runs |
| `RelatedRuns.MatchesSplit` | cmd/prifly/monitor_list.go:70-80 | the matches at a run are its own plus those of its children's rows |
| `RelatedRuns.ShownRunsAreTheIncludedOnes` | cmd/prifly/monitor_list.go:103-143 | opening every shown row down from the top, each by a request that chooses its own links, shows each included run exactly once and no other, if no provenance cycle has two or more runs |
| `RelatedRuns.MatchesAreShownExactlyWhen` | cmd/prifly/monitor_list.go:103-143 | and exactly then every matched run is on some level, whatever links the requests choose |
| `RelatedRuns.ARunIsLostBetweenRequests` | cmd/prifly/monitor_list.go:44-64 | the concrete case of two runs that name each other: one of them is on no level |
| `RelatedRuns.SortSorts` | cmd/prifly/monitor_list.go:117-127 | the level is sorted by creation time in the asked direction, then by key, and is a permutation |
| `RelatedRuns.SortedMeans` | cmd/prifly/monitor_list.go:117-127 | that order: creation times descend if newest first is asked for and ascend otherwise, and equal ones come by ascending key |
| `RelatedRuns.LatestMeans` | cmd/prifly/monitor_list.go:81-89 | no run below was observed after the tip, and of those observed with it the tip has the largest key |
| `GraphRank.Reachable` | cmd/prifly/monitor.js:163 | the set grown from the entry is exactly the nodes some path of followed edges reaches |
| `GraphRank.Rank` | cmd/prifly/monitor.js:175-177 | exactly the nodes reached by routes a choice did not refuse get a rank, and it is the length of a shortest such path, on cyclic graphs too |
| `GraphRank.DrawnIs` | cmd/prifly/monitor.js:181 | a refused edge is drawn as skipped, another as returning exactly if it does not lead to a later column, a node without a rank counting as in the first |
| `GraphRank.CyclesTurnBack` | cmd/prifly/monitor.js:181 | whatever the columns, every cycle contains an edge drawn as returning or as skipped |
| `GraphRank.CyclesReturnExactlyWhen` | cmd/prifly/monitor.js:181 | over all graphs with the edges of a cycle that passes no node twice, and the columns their layout gives: the cycle always has an edge drawn as returning exactly if no choice refused one of its edges |
| `GraphRank.RefusedEdgeHidesTheReturn` | cmd/prifly/monitor.js:181 | the concrete loop, in the columns of the layout, without a returning edge |
| `GraphRank.ReturnDespiteRefusal` | cmd/prifly/monitor.js:181 | a concrete layout where a loop has a refused edge and a returning one, since a node past the refused edge is not reached and stands in the first column |
| `GraphRank.OnwardIsOneColumn` | cmd/prifly/monitor.js:177-181 | an edge drawn neither as skipped nor as returning goes exactly one column further |
| `MonitorRefresh.MatchingMarkIsCurrent` | cmd/prifly/monitor_catalog.go:444-451 | with writers acting at any moment, whenever the recorded mark is the current one the rows are those of the storage now, and they equal a full read exactly if no row records a failed read and every row shows the present project name |
| `MonitorRefresh.ReadPage` | cmd/prifly/monitor_catalog.go:474-490 | unchanged ended rows are taken from the cache, others are read one by one, each becoming the run's row or, if that read fails or the run is gone, an error row; over steady storage each row is one of these |
| `MonitorRefresh.ReadAll` | cmd/prifly/monitor_catalog.go:465-496 | over steady storage the pages together list every run; no rows come back if a page fails |
| `MonitorRefresh.Reread` | cmd/prifly/monitor_catalog.go:452-513 | a failed read keeps the rows and clears the mark; rows of another authority are dropped; on success the rows are those the pass read, and they hold for the moment the mark was taken if nothing changed during the read |
| `MonitorRefresh.Catalog.RefreshOne` | cmd/prifly/monitor_catalog.go:432-515 | refreshing a source changes only that source and keeps the invariant; it is forgotten exactly if its installation is gone and skipped exactly if its mark is the recorded one and not empty |
| `MonitorRefresh.Catalog.Refresh` | cmd/prifly/monitor_catalog.go:430-515 | a whole pass keeps the invariant of every source and forgets a source only if it was absent at some moment of the pass |
| `MonitorRefresh.ReuseIsFullReadExactlyWhen` | cmd/prifly/monitor_catalog.go:475-483 | reuse loses nothing exactly if every reusable row shows the present project name |
| `MonitorRefresh.PassIs` | cmd/prifly/monitor_catalog.go:475-488 | the row of each run after an undisturbed pass: the cached one if version and events are the same, it records no error and the run had completed, failed or been cancelled; else what the storage says, under the present project name |
| `MonitorRefresh.UnreadIsRetried` | cmd/prifly/monitor_catalog.go:484-488 | an error row has no status, so it is never reused and the run is read again |
| `MonitorRefresh.RenameIsMissed` | cmd/prifly/monitor_catalog.go:476-480 | the concrete case in which it does: a project renamed after its only run ended |
| `MonitorRefresh.FailedSummaryStays` | cmd/prifly/monitor_catalog.go:484-513 | the concrete case of a summary read that fails once: its error row is kept under a mark that stays the current one |
| `ReleaseChecks.Scan` | scripts/release_checks.py:99-111 | the first run, newest first, that is not ignored answers: it is waited for, it failed, or it is evidence less than a day old; ignored is a run cancelled before any step began, or successful without being evidence; evidence has differently named jobs, with each required job successful and its one required step completed, successful and timed |
| `ReleaseChecks.Handle` | scripts/ensure-release-checks.py:18-29 | a workflow is dispatched exactly if its record needs it, it was not dispatched before and the ref names the candidate; a forced batch's old result reads as waiting; a moved ref or a failed call ends the run |
| `ReleaseChecks.Prepare` | scripts/ensure-release-checks.py:11-38 | over every environment: at most one dispatch per workflow, each while the ref named the candidate; every workflow some poll showed to need a dispatch got one unless the run was broken off; Ready only if every required check succeeded in the last round, under force with a record other than the one seen at dispatch; Pending only without waiting or after the timeout, while nothing has failed and something has not succeeded; pauses last a quarter of a minute or what is left; the loop ends |
| `ReleaseChecks.Round` | scripts/ensure-release-checks.py:18-28 | one round settles every workflow and dispatches each one that its poll shows to need it, keeping the discipline of the whole history |
| `ImportClosure.Close` | scripts/test-changed.py:98-107 | the set grown in place is exactly the packages from which imports lead to a selected one, with import cycles too; each recorded reason is an import that is in the closure once the package is; every repeated pass adds a package, so it ends |
| `ImportClosure.ReasonsLeadExactlyWhen` | scripts/test-changed.py:105-106 | in every run of the passes the reasons lead each package to a selected one exactly if no affected, unselected package imports itself |
| `ImportClosure.ExplainedExactlyWhen` | scripts/test-changed.py:105-106 | of one run: exactly if no package is its own reason |
| `ImportClosure.APackageExplainsItself` | scripts/test-changed.py:105-106 | the concrete case |
| `ImportClosure.OrderDoesNotMatter` | scripts/test-changed.py:101-107 | the order in which packages are listed does not change the closure |

## Left out

Assumptions of the model:

- Hashes are functions; they are assumed injective (on the values hashed) only where the compiler's identities and lifted keys need it, for lowering, and where the compiled versions of a package have to differ, for its provenance. Truncating a digest to the room left for an identity is part of the same function.
- Map iteration is an arbitrary choice in the methods; a leaf's bindings and an insertion's sources are given as a list in the order they are visited.
- Predicates read an absent source as missing. Quorum joins, `remainder: cancel` and cancellation are not generated and not modelled; all branches of a fan-out are entered and settle in an arbitrary order, so the history of a failing fan-out lists branches the runtime might no longer start.
- Leaves name components that were authored, and no leaf's target has a generated wrapper's name, so a contribution cannot call a generated wrapper. An authored workflow that carries the generated title is run by its stages, as any workflow is, and calls authored components. Only workflows carry it: a step definition is another kind of document.
- A revision of a run never changes, and the storage mark changes on each commit (no two different contents within one period share it). Clocks are counters.

Not modelled:

- Parsing of authored bindings and predicates: they arrive compiled. Predicate depth, node and byte budgets, fractional numbers, and operators with more than the limit of arguments.
- Composition node loading, component lookup by wrapper name for the outer call (`projectApplyExtensions`), unified points and the `b2` build.
- Build keys and input documents, the JSON Schema check of provenance, source profiles.
- File system access, locks, Git and `gh` calls, HTTP, paging, filters and rendering of the monitor, SVG coordinates, the propagation of skip reasons in `graphData`.
- Which onward edges of the graph are drawn as terminal.
- Candidate filtering and sorting in `select`: `Scan` takes candidates newest first, and a network error inside a poll is an environment event.
- The mapping from changed files to selected packages in `choose`.

Weaker than the code:

- OptionResolution.ResolveOptions: error messages and `Programs` are not modelled.
- BuildProvenance.SealPackage: a package without cycles in which the shortest chains fit the depth limit and longer ones do not may be refused or not, depending on the order in which maps are iterated and the fields of its documents are visited; so success and refusal are bounded from both sides there and not decided. A cyclic package is always refused (SealedIsAcyclic).
- ReleaseChecks.Scan: a run record without a usable attempt number is assumed filtered out.
- MonitorRefresh.Catalog.RefreshOne: the moment between clearing the rows of a changed authority and recording new ones is not observable.
- RelatedRuns.ShowRelated: timestamps are compared as strings, as the source does; the row repeats of its run only the key.
