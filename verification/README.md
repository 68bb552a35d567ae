# Verification of the repository's scripts

Dafny models of the algorithmic scripts under `scripts/`, with proofs of what each one is for.
`dafny verify dfyconfig.toml` checks the whole project. Code that changes state step by step is
modelled by classes and loops; each such method is tied to a function of its inputs or of the old
state, and the properties are proved of that function. Schedulers and protocols are step machines,
so that what is proved holds for every interleaving and every interruption. Where a promise is
false of the code, the code is kept, a concrete input shows the failure, and the exact condition is
proved.

| module | models |
|---|---|
| `GateGraph`, `GateMachine`, `GateRun` (on `Digraph`) | the gate scheduler of `run-gates.ts`: graph validation, the depth-first cycle detector, the bounded-concurrency machine whose settle order is left open, skip propagation, the exit code |
| `PackageGraph` | the layered sort of `package-graph.ts` |
| `ConfigLookup`, `ConfigMeaning`, `ConfigExact`, `ConfigDefinite`, `ConfigTermination`, `ConfigLevels` | the schema-path lookup of `gen-config-catalog.ts`, what the declarations mean, when its answers are right, when they are definite and when it ends |
| `NameResolution`, `PasteClosure`, `SchemaFold` | name resolution across imports, the paste walk and the schema fold of `gen-config-catalog.ts` |
| `Publication` | registry publication of `publish-npm-baseline.ts`, cut off before any registry write |
| `TranslationBrief` (on `Splices`, `TextLines`) | the mechanical translation update of `translation-brief.ts` |
| `PairingRecord`, `PairingMerge` | pairing records and the fail-closed batch resolution of `translation-pairing-merge.ts` |
| `ReferenceFaces` | the Project Reference worklist of `project-reference-faces.ts` |
| `MarkdownProse` (on `WhiteSpace`) | comment clipping and the cursor sweep of `markdown.ts` |
| `DocSite`, `MarkdownRewrite` | the destination scanner and the link rewriting of `project-doc-site.ts` |
| `JsDoc` | the prose buffers of `jsdoc.ts` |
| `PublintPool` | the worker pool of `publint-all.ts` |

What the code leaves to Git, npm, TypeScript, the Markdown parser or the clock is a parameter: an
executor's outcome, a text merge, a hash, a collation, a parsed tree, a span list. Strings are
sequences of characters.

## Where the code and its promise differ

- `lookupPath` documents that what it cannot see through is never missing. It answers `missing` for
  a member an index signature admits, for a property whose name is written in quotes and for one
  that a later interface of the same name declares, and `found` under `keyof` and under a local
  declaration named like a pass-through wrapper. A definite answer is right exactly as
  `ConfigExact.LookupExactly` says.
- `type A = A['x']` makes `lookupPath` recurse without end: the guard's key holds the number of
  remaining steps, and every round adds one. A lookup ends exactly when the paths it comes to are of
  bounded length.
- The entry's `latest` tag is documented to move last. It does exactly unless the bundle's own
  dist-tag is `latest` and a package comes after the entry.
- The update of fenced code compares masked documents. A source is never updated over a prose edit
  exactly when no mask marker is a line of the prose beside its own fence. The update reads back as
  it is meant exactly when none of its lines ends in a carriage return.
- `destinationRange` stops at white space beyond ASCII, a final backslash of a bare destination
  makes it skip the white space that ends it, and brackets in a code span of a label count.
- A rendered pairing record reads back exactly unless the file name holds `:`, `#` or a newline, is
  `.md` alone, or a directory name holds a newline followed by what is no comment.
- `resolveTypeName` does not return exactly when the import chain of the name comes back to a file.

## Model

| member | source | states |
|---|---|---|
| `GateGraph.FindDependencyCycle` | scripts/run-gates.ts:669-699 | on every gate list, unique ids or not, the detector answers nothing exactly when the needs between listed gates are acyclic; otherwise a real cycle that repeats no gate but its first and last |
| `GateGraph.CycleFinder.Visit` | scripts/run-gates.ts:675-692 | one visit either finds such a cycle or leaves the stack as it was and completes the gate, in an order in which needs come first |
| `GateGraph.ByIdNodes` | scripts/run-gates.ts:670-670 | the map by id has exactly the listed ids |
| `GateGraph.ByIdNeeds` | scripts/run-gates.ts:670-670 | with unique ids it holds exactly each gate's declared needs |
| `GateGraph.ValidateGateGraph` | scripts/run-gates.ts:649-667 | accepts exactly the non-empty graphs with unique ids, known needs and no cycle, and otherwise names the first offence in the order of the checks, down to the first unknown need of its gate |
| `GateMachine.StepKeepsInv` | scripts/run-gates.ts:723-770 | every step of every schedule keeps the invariant: at most `maxActive` run, each gate is in one state, runs only if all it transitively needs pass, has a result exactly when settled and is logged once |
| `GateMachine.NeedsOfRunner` | scripts/run-gates.ts:779-781 | a gate that runs needs only gates that run and pass |
| `GateMachine.RunnerFromNeeds` | scripts/run-gates.ts:779-781 | a gate all of whose needs run and pass runs |
| `GateRun.EveryRun` | scripts/run-gates.ts:719-770 | every state of every run is sound, a run of n gates has at most 2n + 2 states, and work is conserved: whenever a running gate settles or rejects, `maxActive` gates were running or every pending gate had a need that had not passed |
| `GateRun.StartsInOrder` | scripts/run-gates.ts:725-732 | a start takes a free place, for the first gate of the list that is pending with all its needs passed |
| `GateRun.ObservesInOrder` | scripts/run-gates.ts:742-768 | a step records at most one result, of a gate that had none, and shows just that to the observer, behind all it was shown before |
| `GateRun.StepKeepsStartedAfterNeeds` | scripts/run-gates.ts:725-731 | whatever is running or was executed had all its needs passed |
| `GateRun.StepMovesForward` | scripts/run-gates.ts:723-770 | no gate ever goes back in the order pending, running, settled, a settled one keeps its status, and only a pending gate is started |
| `GateRun.StepDoesWork` | scripts/run-gates.ts:723-770 | every step but an abort strictly lowers the work left |
| `GateRun.PendingIsBlocked` | scripts/run-gates.ts:735-741 | on a validated graph with nothing running or ready, some pending gate has a failed or skipped need: the stalled throw is unreachable |
| `GateRun.NoStall` | scripts/run-gates.ts:723-770 | until the run is over the scheduler can always move |
| `GateRun.ScheduleIndependence` | scripts/run-gates.ts:709-777 | all completed runs, whatever the settle order, leave the same result for every gate, the reported failed needs included; a gate is executed exactly if all it transitively needs passes |
| `GateRun.TwoRunsAgree` | scripts/run-gates.ts:709-777 | any two completed runs of the same gates, under any two bounds, leave the same results |
| `GateRun.EndingIsScheduleIndependent` | scripts/run-gates.ts:764-764 | a run ends by an exception exactly when some gate that runs has a rejecting executor, for every schedule |
| `GateRun.SkippedExactlyWhen` | scripts/run-gates.ts:734-760 | a gate is skipped exactly when it transitively needs one that was executed and did not pass |
| `GateRun.SkippedNamesNeeds` | scripts/run-gates.ts:742-754 | a skip names at least one need, and only needs that failed or were skipped |
| `GateRun.SkipReports` | scripts/run-gates.ts:734-754 | a gate is skipped only with nothing running and nothing able to start, and reports all its failed or skipped needs, in the order in which it lists them |
| `GateRun.FailedNeedsExactly` | scripts/run-gates.ts:742-744 | the reported needs are the listed ones at exactly the places of failed or skipped ones, in order |
| `GateRun.ObservedExactlyOnce` | scripts/run-gates.ts:757-768 | by the end every gate has been observed exactly once |
| `GateRun.RunGates` | scripts/run-gates.ts:709-777 | throws exactly on an invalid graph or bound with nothing started or observed; otherwise performs a run of the machine to its end, throws exactly if a gate that runs rejects, and answers the results in gate order; the missing-result throw is unreachable |
| `GateRun.ExitCodeMeaning` | scripts/run-gates.ts:92-96 | any completed run exits 0 exactly when every gate not allowed to fail runs and passes |
| `PublintPool.EveryRun` | scripts/publint-all.ts:127-138 | over every interleaving of the workers: indices are taken in order, once each, no two workers hold one, each result is at its own index, and a run has at most 2 n + c + 1 states |
| `PublintPool.NoDeadlock` | scripts/publint-all.ts:130-138 | a worker that has not returned can move |
| `PublintPool.FinishedPool` | scripts/publint-all.ts:127-144 | when all workers have returned every target was linted exactly once and stored at its own index, unless there was no worker |
| `PublintPool.RunAll` | scripts/publint-all.ts:127-145 | the missing-result throw is reached exactly when there are targets but no worker; otherwise the answer is each target's result in order |
| `PublintPool.ComputedConcurrencySuffices` | scripts/publint-all.ts:48-61 | the computed concurrency is never zero for a non-empty list and never exceeds it |
| `PublintPool.ConcurrencyExactly` | scripts/publint-all.ts:48-61 | it is the lesser of the number of targets and the setting, or the available parallelism without one; it throws exactly on a setting that is no positive integer, if there are targets |
| `PackageGraph.TopoSort` | scripts/package-graph.ts:59-75 | succeeds with a permutation of the packages sorted by longest dependency chain, then by comparator, dependencies first; throws exactly when some package reaches a cycle or an unlisted dependency, naming exactly those |
| `PackageGraph.SortIgnoresInputOrder` | scripts/package-graph.ts:59-75 | any two inputs with the same packages are sorted alike |
| `PackageGraph.LayeredListIsUnique` | scripts/package-graph.ts:63-73 | there is only one list of the packages in that order |
| `PackageGraph.MapValuesMeaning` | scripts/package-graph.ts:60-60 | the map keeps, for each name, the last package of that name |
| `PackageGraph.PutKeepsPlaces` | scripts/package-graph.ts:60-60 | a later package of a name takes the place of the earlier one, nothing else moves, and a new name goes to the end |
| `PackageGraph.ReadyDepth` | scripts/package-graph.ts:64-65 | a package becomes ready in exactly the round of its longest dependency chain |
| `PackageGraph.StuckIsDoomed` | scripts/package-graph.ts:67-67 | when nothing is ready, everything left reaches a cycle or an unlisted dependency |
| `PackageGraph.PlacedIsNotDoomed` | scripts/package-graph.ts:68-72 | nothing placed does |
| `PackageGraph.ComparatorIsTotal` | scripts/package-graph.ts:77-83 | the comparator is a strict total order of group and name |
| `PackageGraph.GroupsInOrder` | scripts/package-graph.ts:77-83 | a group listed earlier comes first, a listed one before an unlisted one, and unlisted ones by name |
| `ConfigMeaning.DeclMeaning` | scripts/gen-config-catalog.ts:309-316 | the unions resolved both ways and the undeclared taken both ways are the two ends: a declaration must contain a path exactly when every view of it does, and may exactly when some view does |
| `ConfigMeaning.TypeMeaning` | scripts/gen-config-catalog.ts:309-316 | the same of a type |
| `ConfigExact.LookupExactly` | scripts/gen-config-catalog.ts:317-403 | for every declaration, path, guard set and stack: `found` is right (in every view) exactly when the walk found it at something that means what it reads, and `missing` is right (in no view) exactly when it passed nothing that may contain the path: no `keyof`, no declaration or namespace behind a built-in name, no member list that admits the name, no later interface of the same name |
| `ConfigExact.LookupTypeExactly` | scripts/gen-config-catalog.ts:317-403 | the same for every type |
| `ConfigDefinite.DefiniteExactly` | scripts/gen-config-catalog.ts:317-403 | read off the declarations, place by place: from the start of a check the answer is `found` exactly if the path is there, `missing` exactly if it is not, and `unknown` exactly if it is obstructed: by an enum, a name out of reach, an unannotated property, an element step at no array or a member step at one, an unread node, a union whose branches disagree, or a declaration entered again with as many steps left |
| `ConfigDefinite.MisspeltKeyIsMissing` | scripts/gen-config-catalog.ts:337-376 | in `interface Config { agents: { id }[] }` the key `agents[].idd` is missing and `agents[].id` is found |
| `ConfigExact.FoundIsRight` | scripts/gen-config-catalog.ts:317-403 | what is found is in every view if what this path meets reads as it is meant; methods and index signatures do no harm |
| `ConfigExact.MissingIsRight` | scripts/gen-config-catalog.ts:317-403 | what is missed is in no view if the member lists passed over are silent about the name as well and are all of their interfaces |
| `ConfigExact.InterfaceExact` | scripts/gen-config-catalog.ts:348-363 | at an interface with bases, for any path: right exactly when a property found by its text is the declared one and the rest of the path is right, and without one, when bases and member list bear the answer out |
| `ConfigExact.WrapperExact` | scripts/gen-config-catalog.ts:387-397 | at a wrapper or array name the answer is its argument's, and is right exactly when it is right for the argument, or for the declaration that bears the name; behind a namespace exactly when it is unknown |
| `ConfigExact.KeyofExact` | scripts/gen-config-catalog.ts:380-380 | at `keyof` the answer is right exactly when the walk of the operand is not definite |
| `ConfigExact.KeyofAlways` | scripts/gen-config-catalog.ts:380-380 | `keyof` is read rightly by every walk exactly when no walk of its operand is ever definite |
| `ConfigExact.KeyofIsMisread` | scripts/gen-config-catalog.ts:380-380 | `keyof { a }` is reported to have a member `a` |
| `ConfigExact.IndexSignatureIsMisread` | scripts/gen-config-catalog.ts:337-342 | a member that an index signature admits is reported missing |
| `ConfigExact.QuotedNameIsMisread` | scripts/gen-config-catalog.ts:338-338 | a property whose name is in quotes is reported missing in every view that has it |
| `ConfigExact.ShadowedWrapperIsMisread` | scripts/gen-config-catalog.ts:392-394 | a local declaration named like a wrapper is passed through |
| `ConfigExact.MergedInterfaceIsMisread` | scripts/gen-config-catalog.ts:133-139 | a member that only a later interface of the same name declares is reported missing, though every view has it |
| `ConfigExact.SelfIndexDiverges` | scripts/gen-config-catalog.ts:381-385 | `type A = A['x']` is never answered, whatever the stack |
| `ConfigTermination.LookupEndsExactly` | scripts/gen-config-catalog.ts:317-326 | on every declaration graph a lookup ends, for some stack and every larger one, exactly when the declarations it enters have a bounded number of steps left: it fails to end only by growing for ever |
| `ConfigTermination.LookupEnds` | scripts/gen-config-catalog.ts:317-326 | it ends if some set of declarations with the steps left, of bounded length, holds it and is closed under the references the walk takes, whatever else is declared |
| `ConfigLevels.LevelledEnds` | scripts/gen-config-catalog.ts:322-326 | in particular if no reference cycle adds more steps, by indexed access, than it takes, by members and elements |
| `ConfigLevels.MemberAccessIsLevelled` | scripts/gen-config-catalog.ts:381-385 | an interface with a member `Config['mode']` gains no step |
| `ConfigLevels.NestedAccessEnds` | scripts/gen-config-catalog.ts:381-385 | an interface with a member `Config['server']['port']` has a cycle that gains a step, and yet every lookup ends |
| `ConfigLevels.SelfIndexIsNotLevelled` | scripts/gen-config-catalog.ts:381-385 | `type A = A['x']`, which diverges, gains a step, however steps are counted |
| `ConfigLevels.GuardStopsGrowth` | scripts/gen-config-catalog.ts:322-326 | `type A = { x: A['y']; y: A['x']['z'] }`: references lead to paths of any length, so no set of bounded length is closed, and yet the guard ends every lookup |
| `NameResolution.AnswersExactly` | scripts/gen-config-catalog.ts:146-171 | name resolution returns or throws, given stack enough, exactly when the import chain of the name does not come back to a file |
| `NameResolution.ResolveExactly` | scripts/gen-config-catalog.ts:146-171 | the answer is that of any stack that answers, and there is none exactly for a circle of imports |
| `NameResolution.ResolvesAsSaid` | scripts/gen-config-catalog.ts:146-171 | what the answer is, by the chain of relative imports of the name: declared in the file where the chain ends at a declaration; imported, from the specifier and under the name given there, where it ends at an import from a package; a missing file where it leads to none; unresolved where the name is not imported, imported without `.ts` or under another name |
| `NameResolution.CircularImportsDiverge` | scripts/gen-config-catalog.ts:160-171 | two files that import a name from each other are never answered, whatever the stack |
| `PasteClosure.CollectPastes` | scripts/gen-config-catalog.ts:663-715 | the walk comes to an end unless a reached mention needs a missing file or has circular imports, and always does if all of them resolve; it records no violation exactly when like names resolve alike across the fence and the root is declared; then every mention denotes what it resolves to in its own file, exactly the reached declarations are pasted, the root first, and the references are exactly the imports reached. The declarations always stand in the order in which a reader of the fence first meets a mention of each |
| `PasteClosure.MentionsInOrder` | scripts/gen-config-catalog.ts:709-714 | the names a declaration mentions are queued in their order, globals left out |
| `PasteClosure.VisitKeepsRecords` | scripts/gen-config-catalog.ts:673-706 | each recorded meaning is backed by a mention, and a violation is recorded only when the fence is ambiguous |
| `SchemaFold.Folder.FoldComposed` | scripts/gen-config-catalog.ts:735-749 | one fold adds the keys of exactly the packages it newly sees, each once, and reports every composed name no package has |
| `SchemaFold.FoldEntry` | scripts/gen-config-catalog.ts:735-750 | over cyclic compositions too, the fold covers exactly the packages reached, each once; its keys are exactly theirs, and it reports exactly the names they compose that no package has |
| `SchemaFold.KeysExactly` | scripts/gen-config-catalog.ts:739-746 | a key is folded in exactly when a reached package has it |
| `SchemaFold.MissingExactly` | scripts/gen-config-catalog.ts:741-745 | a name is reported exactly when a reached package composes it and no package has it |
| `Publication.RegistryPublication.PublishBundle` | scripts/publish-npm-baseline.ts:625-654 | the class performs the run its specification describes, whenever it is cut off |
| `Publication.RegistryPublication.EnsureTag` | scripts/publish-npm-baseline.ts:755-764 | only this one tag can change, and only if it pointed elsewhere and the version is there, for one write; success means that it points at the version |
| `Publication.RegistryPublication.VerifyRemote` | scripts/publish-npm-baseline.ts:662-684 | passes exactly when every package is present with its integrity and tagged |
| `Publication.PublishAdvances` | scripts/publish-npm-baseline.ts:630-653 | cut off anywhere, a run only adds bundle versions and moves bundle tags: no existing integrity is ever replaced |
| `Publication.DoneIsVerified` | scripts/publish-npm-baseline.ts:651-653 | a run that reports success leaves a verified registry, and its own verification never fails |
| `Publication.UncutRunSucceeds` | scripts/publish-npm-baseline.ts:630-653 | a run not cut off succeeds exactly on a registry without a conflicting integrity in which the entry can be tagged; a conflict stops it at that package, with all before it published |
| `Publication.VerifiedIsUnique` | scripts/publish-npm-baseline.ts:656-660 | only one verified registry can be reached from a start |
| `Publication.Resumable` | scripts/publish-npm-baseline.ts:625-654 | after any number of interrupted runs, one complete run reaches the registry a single run reaches, and it is verified |
| `Publication.RerunWritesNothing` | scripts/publish-npm-baseline.ts:631-652 | on a verified registry a further run writes nothing |
| `Publication.OneMoreWrite` | scripts/publish-npm-baseline.ts:630-653 | a run allowed one registry write more makes exactly that one, a new version or a tag, or was not cut off |
| `Publication.NewPackageWrites` | scripts/publish-npm-baseline.ts:632-639 | a new package gets its version by the first write and its tag by the second |
| `Publication.ConflictLeavesRest` | scripts/publish-npm-baseline.ts:640-645 | a run that meets a conflict has changed only the version and the bundle's tag of packages before it: nothing of that package or of those behind it, and the entry's `latest` only where that is the bundle's tag of a package before it |
| `Publication.LatestMovesLast` | scripts/publish-npm-baseline.ts:630-653 | in every state of a run, a newly moved `latest` of the entry means the whole bundle is present, exact and tagged |
| `Publication.LatestMovesLastOverAttempts` | scripts/publish-npm-baseline.ts:630-653 | the same over any number of interrupted or repeated runs |
| `Publication.MovesLastExactly` | scripts/publish-npm-baseline.ts:651-651 | this holds exactly for the bundles whose own tag is not `latest` or in which nothing follows the entry |
| `Publication.EarlyEntryMovesEarly` | scripts/publish-npm-baseline.ts:649-649 | for any other bundle some registry makes `latest` move before a package that then conflicts |
| `Splices.SpliceStep` | scripts/translation-brief.ts:169-173 | one splice, taken from the back, turns the partial replacement into the next |
| `Splices.WeaveIsWhole` | scripts/translation-brief.ts:167-175 | what lies between the spans, woven with the spans' own pieces, is the whole again |
| `TextLines.LinesExactly` | scripts/translation-brief.ts:35-39 | the lines of any text are the ones without newlines that, each with a newline behind it, make up the normalized text, or that and a newline where a last line of some text has none |
| `TextLines.NormalizeLast` | scripts/translation-brief.ts:36-36 | text without a newline stays as it is |
| `TextLines.RoundTripExactly` | scripts/translation-brief.ts:35-43 | lines survive being written out and read back exactly when there are any and none holds a newline or ends in a carriage return |
| `TextLines.ReadBack` | scripts/translation-brief.ts:35-43 | lines written out and read back lose exactly the carriage return each may end in |
| `TextLines.TextDeterminesLines` | scripts/translation-brief.ts:41-43 | texts of non-empty lists of lines without newlines are equal exactly when the lines are |
| `TranslationBrief.ReplaceSpanTexts` | scripts/translation-brief.ts:167-175 | the descending splices are a simultaneous replacement of the spans, even where lengths change; it throws exactly for an unknown span |
| `TranslationBrief.ComputeMechanicalUpdate` | scripts/translation-brief.ts:193-203 | gives nothing exactly when the comparison of texts refuses; otherwise the counterpart with the changed spans replaced |
| `TranslationBrief.MaskDeterminesExactly` | scripts/translation-brief.ts:177-179 | the mask of a document determines its prose exactly when no marker is a line of the prose beside its own fence |
| `TranslationBrief.MarkerReads` | scripts/translation-brief.ts:178-178 | a marker is the fixed word and the number of the span in decimal, and no two spans share one |
| `TranslationBrief.RefusedExactly` | scripts/translation-brief.ts:193-203 | an update is given exactly when the masks agree, the counterpart has the confirmed code and some fence changed, whatever lines the documents hold |
| `TranslationBrief.UpdatesExactlyCodeOnlyChanges` | scripts/translation-brief.ts:193-203 | for a source whose mask determines its prose, exactly when the prose is untouched, the counterpart still has the confirmed code and some fence changed |
| `TranslationBrief.NeverOverProseExactly` | scripts/translation-brief.ts:193-203 | no current source and counterpart make an update go over a prose edit, exactly when no marker is a line of the confirmed prose beside its own fence |
| `TranslationBrief.MarkerLineHidesProseEdit` | scripts/translation-brief.ts:177-203 | two sources, with a marker line before and behind the fence: the update is given although the prose was edited |
| `TranslationBrief.SuchDocumentsExist` | scripts/translation-brief.ts:35-43 | there are texts that read as these sources |
| `TranslationBrief.UpdateIsCorrect` | scripts/translation-brief.ts:181-203 | every fence becomes the current source's and every line outside fences stays the counterpart's own, in the returned text as read back, exactly when no line of that ends in a carriage return |
| `TranslationBrief.CarriageReturnIsLost` | scripts/translation-brief.ts:35-43 | a prose line with a carriage return of its own comes back without it |
| `TranslationBrief.SuchReturnsExist` | scripts/translation-brief.ts:35-43 | there are texts that read as these documents |
| `PairingRecord.RecordRoundTrip` | scripts/translation-pairing-record.ts:62-99 | a rendered record parses to what it was rendered from exactly when the file name is clean and no line of a directory name reads as data |
| `PairingRecord.ParseExactly` | scripts/translation-pairing-record.ts:62-77 | a text is a record of a pair exactly if, besides empty lines and comments, it has two lines, in either order, one with each file name of the pair and forty lower-case hexadecimal digits |
| `PairingRecord.ColonIsUnrecordable` | scripts/translation-pairing-record.ts:62-99 | the record of `a:b.md` does not read back, whatever it holds |
| `PairingRecord.ParsedNamesAreClean` | scripts/translation-pairing-record.ts:62-77 | a record that parses for a pair shows that the pair's file names are clean |
| `PairingRecord.PairNames` | scripts/translation-pairing-record.ts:31-53 | the two file names of a pair always differ, and are clean together |
| `PairingRecord.PathsExactly` | scripts/translation-pairing-record.ts:31-53 | a path has a pair exactly if it is a stem and `.i18n.yaml` and the stem does not end in `.zh`; the pair is then the stem with `.md` and with `.zh.md` |
| `PairingRecord.BasenameIsLast` | scripts/translation-pairing-record.ts:73-74 | the file name is what follows the last slash |
| `PairingMerge.MergeExactly` | scripts/translation-pairing-merge.ts:209-237 | records compose exactly when the pair is in scope and text-merged, all three records name stored contents, both owners merge cleanly and the merges stay aligned; the record then names those merges |
| `PairingMerge.RefusedForScope` | scripts/translation-pairing-merge.ts:216-221 | out of scope, no pair and another merge strategy are told exactly so, the first that applies |
| `PairingMerge.RefusedForRecords` | scripts/translation-pairing-merge.ts:151-163 | of the ancestor, current and other record the first that does not load decides: one that does not parse is invalid, one that names a missing or falsified object lacks an owner |
| `PairingMerge.RefusedForOwners` | scripts/translation-pairing-merge.ts:225-227 | with all owners at hand, it is a conflict exactly if one side does not merge cleanly, and misaligned exactly if the merges do not match |
| `PairingMerge.VerdictExactly` | scripts/translation-pairing-merge.ts:295-328 | a conflict yields a record exactly when its stages are complete and stored, nobody edited the sidecar, the pair is in scope and text-merged, the three records name stored contents that merge cleanly and stay aligned, and index and working tree hold those merges |
| `PairingMerge.UneditedExactly` | scripts/translation-pairing-merge.ts:258-285 | a sidecar counts as unedited exactly if it is one side, the clean text merge, or a text with the three conflict markers in which every data line of both sides occurs |
| `PairingMerge.EditedIsRefused` | scripts/translation-pairing-merge.ts:276-285 | a sidecar that is neither side nor the clean merge, and lacks a data line of either side, is refused as edited |
| `PairingMerge.RefusedBecause` | scripts/translation-pairing-merge.ts:297-303 | incomplete stages, missing objects and a missing sidecar are each refused exactly as such, in this order |
| `PairingMerge.RefusedForContents` | scripts/translation-pairing-merge.ts:312-323 | a pair that composes is refused for the index exactly if that holds other owners, and for the working tree exactly if only that does |
| `PairingMerge.VerdictConfirms` | scripts/translation-pairing-merge.ts:295-328 | a conflict that passes all checks yields a record that names exactly what index and working tree hold of both owners |
| `PairingMerge.EveryConflictOnce` | scripts/translation-pairing-merge.ts:293-329 | every conflict is resolved or refused, by its own verdict, and never both |
| `PairingMerge.RefusedAreNotWritten` | scripts/translation-pairing-merge.ts:326-333 | no refused conflict is among what is written |
| `PairingMerge.OrderDoesNotMatter` | scripts/translation-pairing-merge.ts:292-329 | unless an object is missing to begin with, neither the order of the batch nor what it stores changes a verdict |
| `PairingMerge.Repository.Judge` | scripts/translation-pairing-merge.ts:296-325 | the checks of one conflict, in their order; only the object store may grow |
| `PairingMerge.Repository.ResolveConflicts` | scripts/translation-pairing-merge.ts:292-342 | in the final state every written sidecar is staged and names both owners' staged and working-tree contents; its record and both owners it names are in the object store, each, unless the store already had the id, as content of that hash, which is that very content where no two contents share one; every other path of index and working tree is as it was. Every unmerged `.i18n.yaml` path is written or reported, and it throws exactly when some conflict was refused, after staging the safe ones |
| `ReferenceFaces.FaceExactly` | scripts/project-reference-faces.ts:88-103 | even with circular `extends` the face is the first one on the chain, and the search throws exactly if it meets an unreadable config before |
| `ReferenceFaces.DeclaredExactly` | scripts/project-reference-faces.ts:94-97 | a config declares a face exactly by its file name or as one of the two base configs of the workspace |
| `ReferenceFaces.CompliantExactly` | scripts/project-reference-faces.ts:42-56 | a reference into a split project is compliant exactly if it leads, directly in that project, to `tsconfig.host.json` or `tsconfig.client.json`, whichever declares the config's own face |
| `ReferenceFaces.ReadExactly` | scripts/project-reference-faces.ts:38-39 | reading a config throws exactly if it, or one its `extends` come to before a face, cannot be read; otherwise its face is the chain's |
| `ReferenceFaces.AggregatesExactly` | scripts/project-reference-faces.ts:33-33 | the walk begins at the two aggregates of the workspace |
| `ReferenceFaces.InnermostSplitRoot` | scripts/project-reference-faces.ts:65-121 | of nested split projects the innermost containing the target is found, and none exactly when none contains it |
| `ReferenceFaces.FollowReferences` | scripts/project-reference-faces.ts:40-59 | one config reports exactly its offending entries and pushes exactly its compliant targets |
| `ReferenceFaces.CollectViolations` | scripts/project-reference-faces.ts:30-60 | ends on circular references and `extends`; visits exactly the existing configs reached from the aggregates through compliant references, each once, and reports precisely their offending entries |
| `ReferenceFaces.OneViolationPerEntry` | scripts/project-reference-faces.ts:40-57 | a config's reports are its offending entries with their multiplicity |
| `MarkdownProse.ClipToLine` | scripts/markdown.ts:125-138 | for arbitrary, overlapping comments: a column is in a clipped range exactly when its offset is in a comment, and there is an entry exactly when a comment touches the line |
| `MarkdownProse.VisibleText` | scripts/markdown.ts:145-151 | the sweep collects exactly the characters that no range covers, in order |
| `MarkdownProse.HasRenderedText` | scripts/markdown.ts:143-153 | true exactly when no comment touches the line or some character, not white space, is uncovered |
| `MarkdownProse.LineIsSlice` | scripts/markdown.ts:124-137 | the running offset is the line's place in the document |
| `MarkdownProse.SweepStep` | scripts/markdown.ts:147-150 | one move of the cursor collects exactly the uncovered characters it passes |
| `MarkdownProse.MarkdownProseLines` | scripts/markdown.ts:160-176 | a line outside code is kept, verbatim and in order, exactly when no comment touches it or it has a character, not white space, whose document offset lies in no comment |
| `DocSite.DestinationRange` | scripts/project-doc-site.ts:89-132 | the scanner's loops compute the specified range or fail with the specified error |
| `DocSite.LabelEnd` | scripts/project-doc-site.ts:71-87 | the bracket loop finds the specified end of the label |
| `DocSite.LabelPasses` | scripts/project-doc-site.ts:75-85 | the label scan passes over balanced or escaped text |
| `DocSite.PlainPasses` | scripts/project-doc-site.ts:117-130 | so does the scan of a bare destination |
| `DocSite.DestinationExactly` | scripts/project-doc-site.ts:89-132 | printer and scanner are inverse exactly on the readable nodes: every link, image or definition with balanced or escaped brackets (sections 4.7 and 6.3 of CommonMark 0.31) whose bare destination has no white space outside parentheses and no final backslash before its tail |
| `DocSite.ExpectedIsTarget` | scripts/project-doc-site.ts:112-131 | the range holds the destination text without its angle brackets |
| `DocSite.TopSpaceMisread` | scripts/project-doc-site.ts:127-129 | white space outside parentheses is always misread |
| `DocSite.FinalBackslashMisread` | scripts/project-doc-site.ts:120-121 | a final backslash before white space is always misread |
| `DocSite.NoBreakSpaceMisread` | scripts/project-doc-site.ts:127-129 | a link to `f`, a no-break space and `g` is taken to end at the space |
| `DocSite.FinalBackslashExample` | scripts/project-doc-site.ts:120-121 | a link to `f\` with a title is read beyond its destination |
| `DocSite.LabelExactly` | scripts/project-doc-site.ts:71-87 | for a label of any text, code spans included, the scanner finds its end exactly when its brackets, outside escapes, leave just the opening one open |
| `DocSite.CodeInLabelMisread` | scripts/project-doc-site.ts:71-87 | a label with a bracket and a parenthesis in a code span is taken to end there, and the range holds other text than the destination |
| `MarkdownRewrite.PlacedApart` | scripts/project-doc-site.ts:232-262 | destinations of nested and neighbouring nodes never touch |
| `MarkdownRewrite.WalkedIsPlaced` | scripts/project-doc-site.ts:256-262 | the walk collects each replacement once, though not in document order |
| `MarkdownRewrite.DescendingIsReverse` | scripts/project-doc-site.ts:265-265 | sorting from the back gives the reverse of the document order |
| `MarkdownRewrite.Rewriter.Visit` | scripts/project-doc-site.ts:232-262 | the walk adds exactly the specified replacements, or stops at the first fault |
| `MarkdownRewrite.FailsExactly` | scripts/project-doc-site.ts:228-262 | a tree makes rewriting throw exactly if some node in it that is rewritten is routed to a missing path or has a destination the scanner does not read |
| `MarkdownRewrite.RewriteMarkdown` | scripts/project-doc-site.ts:225-269 | for any positions: throws exactly when some node in walking order does, and otherwise makes the collected splices from the back; where positions are nested, these are one simultaneous substitution of all destinations, and all other text stays |
| `MarkdownRewrite.NestedIsSimultaneous` | scripts/project-doc-site.ts:264-269 | splices of nested positions, sorted from the back, are a simultaneous substitution, whatever the order of the walk |
| `MarkdownRewrite.PrintedIsNested` | scripts/project-doc-site.ts:232-262 | a tree whose rewritten nodes are printed nodes with their children inside the caption has nested positions, the scanner throws at none of them, and what is collected is exactly their destinations |
| `MarkdownRewrite.PrintedTreeRewrites` | scripts/project-doc-site.ts:225-269 | rewriting such a tree puts the new URLs in the place of exactly the destinations, at once |
| `MarkdownRewrite.ReplacesTheTarget` | scripts/project-doc-site.ts:247-254 | for a readable node exactly the destination text is what is replaced |
| `MarkdownRewrite.ChildrenInLabel` | scripts/project-doc-site.ts:71-87 | a printed node's label content lies in front of the limit set for its children |
| `JsDoc.ParseJsDoc` | scripts/jsdoc.ts:32-82 | before links are rewritten the description is the blocks of the lines before the first block tag, a blank line between them: a paragraph is one line, a list has each bullet with its continuations on one line; its words are theirs, in order. The mode is the last well-formed one |
| `JsDoc.ModeExactly` | scripts/jsdoc.ts:61-63 | a line gives a mode exactly if, behind white space, it is `@mode`, white space, one of the five names and nothing else |
| `JsDoc.ModeTagExactly` | scripts/jsdoc.ts:64-64 | a line is a mode tag exactly if, behind white space, it is `@mode` and no word character follows |
| `JsDoc.LastModeExactly` | scripts/jsdoc.ts:60-63 | the mode is that of the last line that gives one |
| `JsDoc.TagExactly` | scripts/jsdoc.ts:65-65 | a block tag is an at sign behind white space |
| `JsDoc.BulletExactly` | scripts/jsdoc.ts:68-68 | a bullet is a hyphen and white space at the very beginning |
| `JsDoc.ProseExactly` | scripts/jsdoc.ts:60-66 | the prose is the lines up to the first block tag |
| `JsDoc.Buffers.Take` | scripts/jsdoc.ts:66-77 | whatever lines are still to come, taking one changes nothing of the blocks there will be; a pending paragraph and a pending list never coexist |
| `JsDoc.Buffers.FlushPara` | scripts/jsdoc.ts:46-59 | a flush empties the buffers into the one block they stand for |
| `JsDoc.JoinWithWords` | scripts/jsdoc.ts:45-54 | joining by white space keeps all words in order |
| `JsDoc.BlockWords` | scripts/jsdoc.ts:60-79 | the blocks have the words of their lines, in order |
| `JsDoc.TrimCollapse` | scripts/jsdoc.ts:45-45 | collapsed and trimmed, a text is its words with one space between them |
| `WhiteSpace.WordsCollapse` | scripts/jsdoc.ts:45-45 | collapsing white space keeps the words |
| `WhiteSpace.SpacesListed` | scripts/jsdoc.ts:45-45 | white space is the twenty-five characters of `\s` |

## Left out

- `GateRun`: what a gate's child process does, its durations and output, and console lines; a non-integer `maxActive` is not a value of the model.
- `PackageGraph`: `localeCompare` is any strict total order that answers 0 only for equal names.
- `ConfigExact`: at a construct the walk leaves unread (a shadowed wrapper, a list whose text and names differ, a base behind one not found) the condition is what the declarations themselves say there; `FoundIsRight` and `MissingIsRight` need only the path. Type parameters are not resolved.
- ConfigTermination.LookupEnds: one way, since the guard compares only the number of steps and so ends some growth that references allow (`GuardStopsGrowth`); `LookupEndsExactly` goes both ways, by the walk itself. The call stack is a bound on the depth of recursion.
- `ConfigLookup` takes what a type name denotes in a file as a map: import and re-export chains are not followed there.
- `PasteClosure`: where name resolution throws or does not return, the walk has no result; a declaration is identified by its file and name; the additional message for an unconventional relative import and the check that members are documented.
- `SchemaFold`: how schema expressions are read, and `parsePath`, which would add an easy member.
- `Publication`: the registry sets only the tag it is told and has no other publisher; ping, identity and confirmation change nothing; `ReleaseBundle.create` and the staging and validation of dependency pins, which are set checks.
- `TranslationBrief`: which lines are code is the parser's answer, taken as any spans in order; `sectionSpans`, `fenceFor` and the rendered brief.
- `PairingRecord`: the fixed comment lines of a record are any lines that begin with `#`.
- `PairingMerge`: failures of Git or of the file system after the checks, clean filters, path patterns in pathspecs, non-UTF-8 contents, and the normalisation of the path given to the merge driver.
- `ReferenceFaces`: the final sort of the messages and the resolution of paths from text.
- `MarkdownProse`: comment offsets and the lines of code blocks come from the parser; the search for comment delimiters inside an HTML node.
- `DocSite`: raw text that is no printed node, such as a label with brackets in a code span; for it the agreement of the loops with the scanning functions is stated, and where the label ends (`LabelExactly`).
- `MarkdownRewrite`: how a URL is routed to a page, image or repository link; node positions are the parser's, with children inside the label of a rewritten link.
- `JsDoc`: stripping the comment delimiters, the rewriting of `{@link}`, `@param` and `@returns`.
- `PublintPool`: the lints themselves, which never reject, and the parsing of the setting.
