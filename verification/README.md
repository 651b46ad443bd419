# Concept tooling: a verified model

This project models the decision logic of the concept tooling: the graph checks of the concept
compiler, the Hub lease protocol under the governance evaluators, the fail-closed W3 sweep and the
W2 evaluation window, the text transformations in front of both, delta ingest, and the provenance
analysis of process APIs. All of it starts from values that are already loaded and parsed.

One module stands for one source file or component:

| module | what it is about |
|---|---|
| `Components`, `ReferenceIntegrity` | Tarjan's search with its shared counters and stack, and the cycle findings computed from it |
| `ReferenceGate` | the verdict of the reference gate: cycle findings, stale entries and the baseline of unresolved references |
| `GroupCycles` | the depth-first search for a witness cycle among component groups |
| `GroupHierarchy`, `ComponentTree` | hierarchy validation, the climbs it makes safe, and the recursive tree renderer |
| `Scenarios` | the worklist closure of a state machine and the backtracking search for a run |
| `HubLeases`, `HubSession` | acquire and release, the epoch-rotating session, its bounded retry, and the drivers, one call at a time |
| `HubSteps` | the same session as a state machine whose sends overlap |
| `ScopePolicy`, `ScopeSets`, `ScopeRun` | the W3 sweep, from authorized chunks to the accounted result |
| `ContradictionKeys` | which reported contradictions survive being filed under their keys |
| `SourceSpans` | labelled line spans and the evidence extracted by label |
| `Baselines`, `Execution` | suppression by exact key, and the bounded concurrent window |
| `JsonEscapes`, `SchemaKeys`, `Globs` | escape repair, key repair, and ignore patterns compiled to regular expressions |
| `Sections`, `Chunking` | heading sections with their numbers, and overflow splitting under a token limit |
| `DeltaIngest` | delta writes to a remote index against the full rebuild |
| `Provenance` | which process APIs a call target may stand for |
| `Graphs`, `Ordering`, `Texts`, `Options` | walks and reachability; sorting as `sorted` does it; Python's string methods; optional values |

Three conventions run through it. An object whose methods update its fields is a class, and a loop
is a method proved against an independent statement of what it computes. The Hub, the evaluators,
the executor and the remote collection are nondeterministic: they answer anything, and only leave a
ghost record of what they were asked, answered or failed. The tokenizer and the rendered prompt
length are arbitrary functions; where a result depends on what they are like, the theorem says so.

Some things are worth knowing before reading the proofs, because the code does not do what a first
reading suggests:

- Chunks may exceed the token limit. The description of overflow splitting excuses only a single
  over-long line, but a paragraph that is split after a paragraph that fitted has its pieces put
  back into one buffer. `Chunking.OverflowSplit` states exactly when the limit holds, and
  `Chunking.PutBackTogether` is a concrete case where it does not.
- The window of concurrent evaluations describes its result as being in chunk order, but findings
  are appended as chunks complete. For distinct chunks the order holds exactly when one chunk is
  evaluated at a time or there is at most one (`Execution.ChunkOrderIff`, with the orders a window
  admits in `Execution.AdmittedIffRun`). The baseline then sorts the findings by key, which is not
  chunk order either, but is the same for all completion orders provided that equal keys mean equal
  findings (`Execution.CompletionOrderIsForgotten`).
- Two overlapping sends that both fail give the same lease back twice. A lease is given back once,
  and once more for every send on it that fails after its epoch has ended
  (`HubSteps.ReleasedOnceIff`); without overlap that never happens (`HubSteps.OneAtATimeReleasesOnce`).
- The baseline of unresolved references demotes whatever it lists by key, cycle findings included:
  a cyclic scope passes the gate once its keys are listed (`ReferenceGate.CyclicScopePasses`).
  `ReferenceGate.CycleGate` states exactly when the gate passes, and stale entries are the one
  thing no baseline can hide (`ReferenceGate.StaleCannotBeHidden`).
- Delta ingest agrees with a rebuild on hashes always, on all stored properties exactly when equal
  hashes mean equal properties (`DeltaIngest.ConvergedIsRebuilt`, `DeltaIngest.StaleProperty`).
- A newline in a path makes some pattern mean something else than it says: `.*` stops at it, and an
  anchored `$` looks past a final one. On every other path all patterns mean what they say
  (`Globs.MeaningKeptIffNewlineFree`).
- A double star is documented as zero or more segments, but the translation asks for at least one.
  The two readings agree exactly for patterns in which no double star has more of the pattern behind
  it (`Globs.DocumentedTranslationIff`); the documentation's own examples take the translation's side
  (`Globs.DirectoryPatterns`).
- Two different contradictions may have one key, and then the first is lost: related loci are joined
  by two control characters that the fields of a chunk may contain. Over any alphabet with a visible
  character, keys tell findings apart, and no contradiction is ever lost, exactly when neither of
  the two belongs to it (`Baselines.KeysTellIff`, `ContradictionKeys.NeverLosesIff`).
- An unknown command is only reported when the search gets as far as it; a trace that dies earlier
  is rejected as not executable (`Scenarios.Solve`, `Scenarios.UnknownGoesUnreported`).

`dafny verify dfyconfig.toml` checks the whole project.

## Model

| member | source | states |
|---|---|---|
| Components.ComponentCyclicIff | tools/concept_compiler/reference_integrity.py:779-782 | the test "more than one member or a self-loop" holds of a strongly connected component iff its nodes lie on a directed cycle |
| Components.ComponentsShareNothing | tools/concept_compiler/reference_integrity.py:747-787 | two components with a common node are the same sorted tuple |
| Components.CyclicComponentsUnique | tools/concept_compiler/reference_integrity.py:747-787 | the answer owed by the search is determined by the edges alone |
| Components.FreshTarget | tools/concept_compiler/reference_integrity.py:765-767 | returning from an unnumbered target and taking over its lowlink keeps the search invariant, whether or not the target's component was completed |
| Components.StackedTarget | tools/concept_compiler/reference_integrity.py:768-769 | an edge to a stacked node, answered with its number, keeps the search invariant |
| Components.PoppedTarget | tools/concept_compiler/reference_integrity.py:764-769 | an edge to a node already taken off the stack may be ignored |
| Components.NotRoot | tools/concept_compiler/reference_integrity.py:770-771 | a node whose lowlink differs from its number stays stacked and still reaches an open node below it |
| Components.SegmentIsComponent | tools/concept_compiler/reference_integrity.py:772-779 | what is popped for a root is one whole, maximal strongly connected component |
| Components.Root | tools/concept_compiler/reference_integrity.py:770-782 | popping down to a root and reporting its component iff it is cyclic keeps the invariant and the report exact |
| ReferenceIntegrity.ComponentSearch.Visit | tools/concept_compiler/reference_integrity.py:759-782 | from any reachable state of the shared counters and stack, a visit numbers its node, terminates and keeps the invariant |
| ReferenceIntegrity.ComponentSearch.PopDownTo | tools/concept_compiler/reference_integrity.py:772-778 | exactly the stack from the node upwards is popped and removed from the stacked set |
| ReferenceIntegrity.BuildAdjacency | tools/concept_compiler/reference_integrity.py:748-751 | the adjacency lists hold exactly the edges and have every endpoint as a key |
| ReferenceIntegrity.StrongComponents | tools/concept_compiler/reference_integrity.py:747-787 | for every edge list the result is exactly the maximal, pairwise disjoint components that carry a cycle, each once; the members of each and the list itself ascend, texts by the first different character and tuples by the first different text |
| Ordering.StringLeIff | tools/concept_compiler/reference_integrity.py:779 | texts are ordered by the first character in which they differ, or by being a beginning |
| Ordering.TupleLeIff | tools/concept_compiler/reference_integrity.py:787 | tuples are ordered by the first text in which they differ, or by being a beginning |
| ReferenceIntegrity.ComponentOf | tools/concept_compiler/reference_integrity.py:747-787 | the partner of the search: every node on a cycle has such a component, namely the nodes it is mutually reachable with |
| ReferenceIntegrity.ScopeCycleFindings | tools/concept_compiler/reference_integrity.py:707-720 | a finding for each cyclic component of each scope's own edges, and no other, each once |
| ReferenceIntegrity.ScopeReportedIffCyclic | tools/concept_compiler/reference_integrity.py:707-720 | a scope gets a finding iff its own edges contain a directed cycle |
| ReferenceIntegrity.ScopeCycleInsideDocumentCycle | tools/concept_compiler/reference_integrity.py:707-744 | every scope-level component lies inside one document-level component |
| ReferenceIntegrity.DocumentCycleFindings | tools/concept_compiler/reference_integrity.py:723-744 | a document component blocks iff its exact membership is not in the baseline, and is reported otherwise |
| ReferenceIntegrity.StaleCycles | tools/concept_compiler/reference_integrity.py:817-849 | a baseline cycle is stale iff it is no cyclic component of the edges, listed in order |
| ReferenceGate.ApplyUnresolvedBaseline | tools/concept_compiler/reference_integrity.py:790-814 | warnings pass by; of the rest exactly the findings listed by key become reports, and none is lost |
| ReferenceGate.DocumentKeysTell | tools/concept_compiler/reference_integrity.py:723-744 | components of ids without commas have one key only if they are the same |
| ReferenceGate.CommaSharesKey | tools/concept_compiler/reference_integrity.py:723-744 | a comma in an id is enough for two components to share theirs |
| ReferenceGate.ScopeKeysTell | tools/concept_compiler/reference_integrity.py:707-720 | the keys of two scopes differ, and none is that of a document cycle |
| ReferenceGate.CycleFindings | tools/concept_compiler/reference_integrity.py:707-744 | one blocking finding for each cyclic component of each scope, then one for each document component that is not in the cycle baseline, each once and no other |
| ReferenceGate.StaleBaselineFindings | tools/concept_compiler/reference_integrity.py:817-849 | a stale finding for each listed reference without a finding and each listed cycle that is none, and no other |
| ReferenceGate.CycleGate | tools/concept_compiler/reference_integrity.py:121-132 | no error is left iff every error of the scan and every cyclic scope is listed by key, every document cycle is listed as such or by its joined key, and nothing listed is without its finding or cycle; errors and reports carry exactly the unlisted and the listed keys |
| ReferenceGate.StaleCannotBeHidden | tools/concept_compiler/reference_integrity.py:817-849 | a finite baseline that hides its own stale findings has none to hide: each hidden one would be a longer stale entry |
| ReferenceGate.CyclicScopePasses | tools/concept_compiler/reference_integrity.py:790-814 | whatever document defers to itself in whatever scope, the gate passes once the two keys of its findings are listed, with an empty cycle baseline |
| ReferenceGate.SelfLoopNeedsKey | tools/concept_compiler/reference_integrity.py:676-705 | since a listed cycle has at least two documents, a gate that passes has every self-deferral that is a component of its own listed by key |
| ReferenceGate.WithoutListedCycles | tools/concept_compiler/reference_integrity.py:121-132 | if no cycle finding is listed by key, passing means that no scope is cyclic and the cycle baseline is exactly the set of document cycles |
| GroupCycles.FinishedIsAcyclic | tools/concept_compiler/architecture_conformance.py:1976-1993 | if every edge of a finished node leads to one finished earlier, the relation has no cycle |
| GroupCycles.BackEdgeCloses | tools/concept_compiler/architecture_conformance.py:1977-1979 | a successor still being visited closes a walk of real edges whose nodes are distinct except first and last |
| GroupCycles.GroupCycleSearch.Walk | tools/concept_compiler/architecture_conformance.py:1976-1993 | a walk either returns such a witness or finishes its node and restores stack and visiting |
| GroupCycles.FindGroupCycle | tools/concept_compiler/architecture_conformance.py:1967-2001 | nothing is returned iff the edges restricted to the groups are acyclic; otherwise a witness cycle inside the groups |
| GroupHierarchy.ChainIsCyclic | tools/concept_compiler/architecture_conformance.py:2193-2213 | the climb with its visited set terminates; it stops at a repeat only if there is a cycle, and otherwise its start is on none |
| GroupHierarchy.ValidateReferences | tools/concept_compiler/architecture_conformance.py:2158-2191 | accepted iff every parent is known and every shared group's owner and importers are known and its importers are top-level |
| GroupHierarchy.ValidateHierarchy | tools/concept_compiler/architecture_conformance.py:2142-2213 | accepted iff all references are sound and no parent chain is cyclic |
| GroupHierarchy.ChainToTop | tools/concept_compiler/architecture_conformance.py:88-108 | after validation, for groups with the unique ids that compilation guarantees (tools/concept_compiler/compiler.py:71-81), the climb terminates at a group without a parent, linked step by step |
| GroupHierarchy.ChainUnique | tools/concept_compiler/architecture_conformance.py:88-108 | there is only one such chain |
| GroupHierarchy.TopLevelGroup | tools/concept_compiler/architecture_conformance.py:1945-1964 | after validation, for groups with the unique ids that compilation guarantees (tools/concept_compiler/compiler.py:71-81), the climb terminates at the end of that one chain |
| GroupHierarchy.TopIsShared | tools/concept_compiler/architecture_conformance.py:1945-1964 | every group on the chain has the same top |
| ComponentTree.BelowSplits | tools/concept_compiler/architecture_conformance.py:640-667 | what lies below a group is the group and what lies below its children |
| ComponentTree.SiblingsApart | tools/concept_compiler/architecture_conformance.py:640-667 | nothing lies below two siblings |
| ComponentTree.NothingBetween | tools/concept_compiler/architecture_conformance.py:640-667 | in tree order a subtree is contiguous: what is shown between a group and something below it lies below it too |
| ComponentTree.TreeOrderIsStrict | tools/concept_compiler/architecture_conformance.py:640-667 | the tree order leaves no choice: two groups are in it one way round only |
| ComponentTree.ElderIff | tools/concept_compiler/architecture_conformance.py:636-651 | of two siblings the elder has the smaller name, and among equal names was declared earlier |
| Ordering.SortedStable | tools/concept_compiler/architecture_conformance.py:636-651 | the sort is stable: of two elements that tie, the one that came first stays first |
| ComponentTree.IndentIsDepth | tools/concept_compiler/architecture_conformance.py:640-667 | the indentation of a line is three columns for every group above its group |
| ComponentTree.TreeRenderer.Render | tools/concept_compiler/architecture_conformance.py:640-667 | the recursion terminates and emits all that lies below its group, once each and in tree order |
| ComponentTree.RenderComponentTree | tools/concept_compiler/architecture_conformance.py:623-667 | after validation, for groups with the unique ids that compilation guarantees (tools/concept_compiler/compiler.py:71-81), the recursion terminates and every group is shown in exactly one line; of two lines the one above comes first, and otherwise the one below the sibling that is first by name; each hangs from its parent's line, with the corner iff it is the last sibling |
| Scenarios.ExploredIsClosure | tools/concept_compiler/scenario_runner.py:277-293 | an empty frontier means that the states found are those reachable in one or more transitions |
| Scenarios.ReachableStates | tools/concept_compiler/scenario_runner.py:277-293 | exactly the transitive closure, sorted; the start only by `allow_self` or by a real cycle |
| Scenarios.MayKeepStateIff | tools/concept_compiler/scenario_runner.py:296-304 | a command may keep its state iff one of the listed markers occurs in it, or the audit-log suffix ends it |
| Scenarios.ArrivesStep | tools/concept_compiler/scenario_runner.py:151-171 | a run of the commands exists iff some first step is followed by a run of the rest |
| Scenarios.UnknownNeverArrives | tools/concept_compiler/scenario_runner.py:156-161 | a run that meets an unknown command rules out an accepting run altogether |
| Scenarios.Solve | tools/concept_compiler/scenario_runner.py:151-171 | the search answers true iff some run explains the remaining commands and ends in the expected status; it raises only for an unknown command that some run meets |
| Scenarios.UnknownGoesUnreported | tools/concept_compiler/scenario_runner.py:151-171 | a concrete trace whose unknown command goes unreported because the command before it leads nowhere |
| Scenarios.ValidateStatusTrace | tools/concept_compiler/scenario_runner.py:126-182 | a trace is accepted iff start and end are known, the end is terminal, and a sequence of states explains the commands one by one |
| Scenarios.ValidatePhaseTrace | tools/concept_compiler/scenario_runner.py:185-231 | accepted iff there is a start, all named phases are known, and consecutive checkpoints are equal or connected |
| HubLeases.AcquireEpochLease | tools/concept_governance/hub_lease.py:24-53 | a lease is returned iff the Hub's last grant is for the routed backend alone; a foreign grant is given straight back; only queued answers are retried, up to the bound; the Hub's own error is passed on as it is, and a foreign or finally queued grant gives a client error |
| HubLeases.BracketCounts | tools/concept_governance/hub_lease.py:24-69 | in a log of the session's shape each lease is released as often as acquired, except the one held |
| HubLeases.ReleasedExactlyOnce | tools/concept_governance/hub_lease.py:24-69 | when nothing is held every lease ever acquired, foreign ones included, was released exactly once and no other lease was |
| HubLeases.AtMostOneOut | tools/concept_governance/hub_batch.py:53-124 | at every moment of the log at most one lease is out |
| HubSession.HubBatchSession.Create | tools/concept_governance/hub_batch.py:22-45 | a limit below one is refused; the default limit applies when none is given |
| HubSession.HubBatchSession.Open | tools/concept_governance/hub_batch.py:47-51 | opening twice is refused and changes no epoch |
| HubSession.HubBatchSession.Acquire | tools/concept_governance/hub_batch.py:110-117 | a kept grant starts an epoch with a higher fence and no completed items; a refusal leaves no lease and the fence as it was, and is the Hub's own error or else a client error |
| HubSession.HubBatchSession.Retire | tools/concept_governance/hub_batch.py:119-124 | the lease is cleared, the fence moves, and exactly one release follows |
| HubSession.HubBatchSession.Exchange | tools/concept_governance/hub_batch.py:66-93 | one send on the current lease: a usable answer is the text; an error that may not be retried is passed on and leaves the epoch; every other outcome ends the epoch and is raised as a client error, which may be retried |
| HubSession.HubBatchSession.Send | tools/concept_governance/hub_batch.py:53-93 | acquires iff no epoch of the backend is held, sends iff one is then held, on a lease for that backend alone; returns a text iff the Hub answered for the backend; of everything else, an error that may not be retried is passed on and any other outcome is raised as one that may, with no lease left; never fenced off when calls do not overlap |
| HubSession.HubBatchSession.Checkpoint | tools/concept_governance/hub_batch.py:95-102 | refused iff no lease is held; otherwise counts, and retires the epoch at its limit |
| HubSession.HubBatchSession.Close | tools/concept_governance/hub_batch.py:104-108 | whatever was acquired over the life of the session has been released exactly once |
| HubSession.CompleteWithTransportRetry | tools/concept_governance/transport_retry.py:55-91 | every reply but the last is a failure that may be retried, and the last decides: a text is the Hub's answer, an error is passed on only if it is the Hub's own and may not be retried, and every other failure is retried until four sends are used up, with no lease left; all sends carry the one prompt |
| HubSession.RunAny | tools/concept_governance/hub_batch.py:47-124 | over any sequence of calls with any answers of the Hub, followed by close, the log settles and the fence never falls |
| HubSession.Sweep | tools/concept_governance/scope_execution.py:46-54 | evaluate-then-checkpoint never meets the "no active epoch lease" error, stops early only for lack of a usable reply, and collects the texts of the replies in order |
| HubSteps.StepKeeps | tools/concept_governance/hub_batch.py:47-124 | every step of the overlapping protocol keeps the invariant, and the fence never falls |
| HubSteps.AcceptedIffUndisturbed | tools/concept_governance/hub_batch.py:66-93 | a response passes the fence check iff no lease was kept or retired since its hand-over; the lease comparison adds nothing to the fence |
| HubSteps.RetiredEpochIsPowerless | tools/concept_governance/hub_batch.py:84-92 | a send of a retired epoch is never accepted, and its failure never clears a newer lease |
| HubSteps.StaleReleasesAreLateFailures | tools/concept_governance/hub_batch.py:84-93 | a release beyond the first is written by the failure of a send whose lease is no longer the session's, and by nothing else |
| HubSteps.ReleasedOnceIff | tools/concept_governance/hub_batch.py:119-124 | over every run that ends with nothing held: a lease was released once, and once more for each late failure on it; exactly once iff no move of the run is one |
| HubSteps.OneAtATimeReleasesOnce | tools/concept_governance/hub_batch.py:47-124 | if nothing but a send's own end happens while it is pending, every lease is released exactly once |
| HubSteps.OnlyTheCurrentIsOut | tools/concept_governance/hub_batch.py:95-124 | an unreleased lease is the current one, its epoch is not full, and close releases it |
| HubSteps.OverlappingFailuresReleaseTwice | tools/concept_governance/hub_batch.py:84-85 | a reachable history in which one lease is released twice |
| JsonEscapes.RepairDecodes | tools/concept_governance/json_escapes.py:34-72 | strict decoding of the repaired text equals decoding the original with unknown escapes read literally; it fails iff the text ends in a lone backslash (section 7 of RFC 8259) |
| JsonEscapes.EscapesSpelledOut | tools/concept_governance/json_escapes.py:26-27 | the recognised escapes are the eight of two characters, and `u` with four hexadecimal digits (section 7 of RFC 8259) |
| JsonEscapes.HexDigits | tools/concept_governance/json_escapes.py:26-27 | a hexadecimal digit is one of sixteen in either case, and its value is its place among them |
| JsonEscapes.RepairPreservesMeaning | tools/concept_governance/json_escapes.py:34-72 | the repair changes no meaning under lenient reading |
| JsonEscapes.RepairIsWellEscaped | tools/concept_governance/json_escapes.py:26-72 | after the repair every backslash starts an escape, except a lone final one |
| JsonEscapes.UnchangedIffWellEscaped | tools/concept_governance/json_escapes.py:34-72 | a text is left unchanged iff there was nothing to repair |
| JsonEscapes.StrictIffWellEscaped | tools/concept_governance/json_escapes.py:26-72 | a text decodes strictly iff every backslash starts an escape and none is left over |
| JsonEscapes.RepairIsAProjection | tools/concept_governance/json_escapes.py:34-72 | repairing twice is repairing once, and valid text is unchanged |
| SchemaKeys.Hook | tools/concept_governance/json_escapes.py:127-136 | the hook's loop computes the cleaned members of one object, or the collision |
| SchemaKeys.CleanAppend | tools/concept_governance/json_escapes.py:131 | cleaning a key goes character by character (and `SchemaKeys.CleanOne` says which are dropped) |
| SchemaKeys.NormalizeIsFaithful | tools/concept_governance/json_escapes.py:95-144 | fails iff two keys of one object clean to the same name at any depth; otherwise changes only keys, and reports a change iff some key held a backslash |
| SchemaKeys.NormalizeIsAProjection | tools/concept_governance/json_escapes.py:95-144 | unchanged documents are returned as they were, and normalizing again changes nothing |
| Globs.GlobToRegex | src/agentkit/concepts/ignore.py:45-67 | the loop emits the anchored spelling of the pattern's pieces |
| Globs.RegexReadsBack | src/agentkit/concepts/ignore.py:45-67 | reading the emitted text gives back the pieces: by the reader's own list of metacharacters, no literal is taken for syntax |
| Globs.TranslationPreservesMeaning | src/agentkit/concepts/ignore.py:45-83 | the language of the pieces is the direct meaning of the pattern, for every pattern and newline-free path |
| Globs.IgnoredIffGlobMatch | src/agentkit/concepts/ignore.py:40-67 | the compiled pattern accepts a newline-free path iff the pattern matches it directly |
| Globs.IgnoredIffSomeMatches | src/agentkit/concepts/ignore.py:107-109 | a newline-free path is ignored iff one of the patterns matches it directly |
| Globs.MeaningKeptIffNewlineFree | src/agentkit/concepts/ignore.py:40-67 | every pattern means what it says on a path iff the path holds no newline |
| Globs.DocumentedReadingIff | src/agentkit/concepts/ignore.py:11-83 | for patterns whose double stars are whole segments, the documented zero-or-more reading and the direct one agree on all paths iff no double star has more of the pattern behind it |
| Globs.DocumentedTranslationIff | src/agentkit/concepts/ignore.py:11-83 | the same of the compiled pattern, for patterns of one line and newline-free paths |
| Globs.MatchesBySegments | src/agentkit/concepts/ignore.py:45-83 | for patterns whose double stars are whole segments, matching goes segment by segment |
| Globs.PlainMatchesNameByName | src/agentkit/concepts/ignore.py:45-83 | a compiled pattern without a double star matches a newline-free path iff both have equally many names and each matches its own: no wildcard crosses a slash |
| Globs.BelowDirectory | src/agentkit/concepts/ignore.py:45-83 | a pattern below a directory without double stars matches iff the path lies under the directory name by name and the rest matches the rest |
| Globs.DirectoryPatterns | src/agentkit/concepts/ignore.py:70-83 | below any directory without double stars, nested or not, the double star takes everything, direct children included, and the double star before a star only what lies in a subdirectory |
| SourceSpans.SpanIdsDistinct | tools/concept_governance/source_spans.py:80-89 | different lines have different zero-padded labels, however many lines there are |
| SourceSpans.SpanIdShape | tools/concept_governance/source_spans.py:86 | a label is an `s` and the line number in decimal digits, padded to six and longer only if needed |
| SourceSpans.SpanMapTiles | tools/concept_governance/source_spans.py:80-89 | the spans are contiguous from zero to the end of the text, one per physical line |
| Texts.SplitLinesAtBreaks | tools/concept_governance/source_spans.py:82 | the physical lines end at the line breaks, at every one and nowhere else, `\r\n` being one break |
| SourceSpans.BuildSourceSpanMap | tools/concept_governance/source_spans.py:80-89 | the cursor loop builds that map |
| SourceSpans.SlicesAreTheText | tools/concept_governance/source_spans.py:80-89 | the labelled slices concatenate to the text |
| SourceSpans.ExtractSourceSpans | tools/concept_governance/source_spans.py:92-142 | succeeds iff all contract checks hold, and then returns one slice per reference in order, of its source, not blank and within the bound, each ending before the other starts wherever two are of one source |
| SourceSpans.ResolvesIff | tools/concept_governance/source_spans.py:92-142 | on built maps a reference resolves iff its labels are those of two lines of its source, in order, and then to where the one starts and the other ends |
| SourceSpans.ContractWithoutOrder | tools/concept_governance/source_spans.py:92-142 | the contract restated without positions: each reference acceptable, occurring once, and overlapping no other |
| SourceSpans.OrderDoesNotMatter | tools/concept_governance/source_spans.py:92-142 | success does not depend on the order of the references |
| SourceSpans.EvidenceIsExact | tools/concept_governance/source_spans.py:92-142 | an extracted slice is exactly the whole lines between the two labels |
| Baselines.ApplyBaseline | tools/concept_governance/baseline_policy.py:16-37 | ordered part by part of the key; every finding comes through once, as a report iff an entry agrees with it in every part of the key or it was one, and every entry of another code within the included documents that agrees with none is reported stale under its own fields, nothing else being added |
| Baselines.ApplyScopeBaseline | tools/concept_governance/baseline_policy.py:40-67 | the same account over the contradiction entries of the selected scopes, taking over the triage decision of the last entry that agrees |
| Baselines.KeyConcerns | tools/concept_governance/finding_types.py:43-56 | a key is equal to an entry's iff the two agree in each of those parts |
| Baselines.KeyLeIff | tools/concept_governance/finding_types.py:43-56 | findings are ordered by code, document, anchor, evidence, scope, prompt version, model and then related loci |
| Baselines.AuthorityEntries | tools/concept_governance/baseline_policy.py:16-37 | the entries taken are those of all other codes, within the included documents if those are given |
| Baselines.ScopeEntries | tools/concept_governance/baseline_policy.py:40-67 | the entries taken are those of contradictions in the selected scopes, and no other |
| Baselines.AppliedElements | tools/concept_governance/baseline_policy.py:16-95 | the result holds exactly the marked findings and the stale entries |
| Baselines.StaleIff | tools/concept_governance/baseline_policy.py:70-95 | a stale finding stands for each selected entry without a matching finding, and for no other |
| Baselines.OkIff | tools/concept_governance/baseline_policy.py:16-67 | no error is left iff every erroneous finding is baselined by exact key and every entry still matches a finding |
| Baselines.SortForgetsOrder | tools/concept_governance/baseline_policy.py:16-37 | a stable sort gives the same sequence for permuted findings if ties are equal elements |
| Baselines.OrderIsForgotten | tools/concept_governance/baseline_policy.py:16-67 | when equal keys mean equal findings, the result does not depend on the order the findings came in |
| Baselines.PlainKeysTell | tools/concept_governance/finding_types.py:43-56 | keys are equal iff all their fields are, as long as no related locus holds a separator |
| Baselines.KeysTellIff | tools/concept_governance/finding_types.py:43-56 | over any alphabet with a visible character, equal keys mean equal fields for all findings iff neither separator belongs to the alphabet |
| Baselines.OneLocusReadsLikeTwo | tools/concept_governance/finding_types.py:54-56 | any two related loci are encoded like the one whose evidence spells out the separators between them |
| ScopePolicy.GroupLoci | tools/concept_governance/scope_policy.py:40-52 | slices are put back beside their references: the sorted loci of a group |
| ScopePolicy.GroupLociAscend | tools/concept_governance/scope_policy.py:39-48 | the loci of a group are those of its references, each as often as referred to, by document, anchor and evidence: the primary one is least |
| ScopePolicy.EvaluateScopePolicy | tools/concept_governance/scope_policy.py:25-62 | fails iff some reference breaks the evidence contract; otherwise one finding per key in ascending order, that of the last group with the key, every contradiction group being covered |
| ContradictionKeys.AlikeLosesOne | tools/concept_governance/scope_policy.py:25-62 | any two different lists of loci in order, with one primary locus and one encoding, can be reported for one partition within the evidence contract, and the first is then lost |
| ContradictionKeys.NeverLosesIff | tools/concept_governance/scope_policy.py:25-62 | over any alphabet with a visible character, no evaluation of any partition loses a contradiction iff neither separator belongs to the alphabet |
| ScopeSets.PartitionKeepsAll | tools/concept_governance/scope_sets.py:71-77 | the slices are non-empty, concatenate to the assertions, and all but the last are as long as allowed, the last no longer |
| ScopeSets.FitRenderedPromptLimit | tools/concept_governance/scope_sets.py:80-113 | terminates for any rendering; on success non-empty groups concatenate to the input, each prompt fits as finally numbered, and the groups come from the input by halving, round by round, exactly those that are too long; fails only for a single assertion that is too long; fitting input is unchanged |
| ScopeSets.PartitionScopeSet | tools/concept_governance/scope_sets.py:47-68 | the numbered partitions of a set, cut from full slices by that halving; a non-empty set is one partition iff it fits whole under both limits; every refusal has its reason |
| ScopeSets.BuildScopeSets | tools/concept_governance/scope_sets.py:22-44 | succeeds iff the scopes are live, no chunk lacks a field or its scopes, and no chunk occurs twice in a scope; then one set per selected scope in order |
| ScopeSets.SetMembership | tools/concept_governance/scope_sets.py:22-44 | a set holds exactly the chunks authorized for its scope, with their own id, path, anchor and text |
| ScopeSets.ChunksAscend | tools/concept_governance/scope_sets.py:34 | the chunks are taken by path, then position in the document, then id |
| ScopeRun.CollectScopeFindings | tools/concept_governance/scope_execution.py:38-62 | complete iff nothing failed and every answer met the contract; then every partition was asked exactly once, in order, and the findings are those of each answer in turn; a failure names its partition with its own code and backend, and what was completed before it |
| ScopeRun.CrossPartition | tools/concept_governance/scope_run_findings.py:53-70 | one finding for the first partition of each set that was cut, in order, and no other |
| ScopeRun.SelectSets | tools/concept_governance/scope_runner.py:57-75 | sets are selected iff they can be built, the limit is positive, and there are some and none is empty |
| ScopeRun.PartitionSets | tools/concept_governance/scope_runner.py:76-98 | no coverage finding iff every set fits whole; the partitions are those of each set in turn, and a set that cannot be partitioned stops with the cuts found before it |
| ScopeRun.JustifiedIff | tools/concept_governance/scope_runner.py:125-126 | no error survives iff every contradiction reported is baselined and no selected entry is stale |
| ScopeRun.RunScopeConsistency | tools/concept_governance/scope_runner.py:40-133 | the result accounts for everything in every case: of a whole sweep it shows what the baseline makes of all contradictions answered and of all selected entries, then one finding per cut set; of a stopped one the failing partition with its code and how many were completed; of one that never started the reason. It is green iff sets were selected, each non-empty and whole in its one partition, each asked exactly once without any failure, all answers meet the contract, every contradiction is baselined and no selected entry is stale |
| ScopeRun.SweepPartitions | tools/concept_governance/scope_runner.py:98-133 | the same account of the sweep alone, inside the lifecycle of a batch evaluator, whose failures leave nothing completed |
| Execution.Window.SubmitNext | tools/concept_governance/execution.py:79-90 | hands over the next chunk if there is one, never exceeding the parallelism |
| Execution.AdmittedIffRun | tools/concept_governance/execution.py:54-90 | the completion orders the window admits, told by position alone, are exactly the orders in which a window of that size can be emptied and refilled |
| Execution.CollectFindings | tools/concept_governance/execution.py:37-76 | all are collected iff the parallelism is positive and no chunk fails; then each chunk is evaluated exactly once in an order the window admits and the findings are in that order, which is chunk order for a parallelism of one |
| Execution.ChunkOrderIff | tools/concept_governance/execution.py:43-76 | for distinct chunks, findings are in chunk order for all verdicts and completion orders iff the parallelism is one or there is at most one chunk |
| Execution.SwapShows | tools/concept_governance/execution.py:54-76 | the run that counters it: the first two chunks complete the other way round |
| Execution.FindingsPermute | tools/concept_governance/execution.py:54-76 | as a multiset the findings depend only on which chunks were evaluated |
| Execution.CompletionOrderIsForgotten | tools/concept_governance/baseline_policy.py:16-37 | after the baseline, the sequence of findings is the same for all completion orders the window admits when equal keys mean equal findings |
| Sections.HeadingHasForm | src/agentkit/concepts/chunking.py:98-106 | a heading line is two or three hashes, then white space, then something that is not; the level is the number of hashes and the text what follows them, from its first to its last visible character |
| Sections.FormIsHeading | src/agentkit/concepts/chunking.py:98-106 | every line of that form is a heading of that level |
| Sections.FindHeadingBoundaries | src/agentkit/concepts/chunking.py:95-108 | the boundaries are exactly the heading lines, each at the offset of its line |
| Sections.SectionsFromMatches | src/agentkit/concepts/chunking.py:65-92 | one section per heading after the intro, with the number the counters give; none is dropped |
| Sections.NumbersIncrease | src/agentkit/concepts/chunking.py:74-87 | section numbers strictly increase in lexicographic order |
| Sections.SubsectionNumber | src/agentkit/concepts/chunking.py:74-87 | the subsections of a section carry its number, counted from one |
| Sections.NumberCountsSections | src/agentkit/concepts/chunking.py:74-87 | the first counter counts the sections opened so far |
| Sections.LeadingSubsection | src/agentkit/concepts/chunking.py:74-87 | subsections before any section are numbered as if they were in the first |
| Sections.SectionsKeepInk | src/agentkit/concepts/chunking.py:65-92 | the sections together hold every character that is not white space, in order |
| Sections.SplitIntoSections | src/agentkit/concepts/chunking.py:46-62 | all of this for whole documents: exactly the heading lines, content kept, no blank section, numbers increasing from the intro on |
| Chunking.SplitLongPara | src/agentkit/concepts/chunking.py:172-189 | the pieces are consecutive lines packed greedily: each within the limit or a single line, and each next line would not have fitted |
| Chunking.PackingJoins | src/agentkit/concepts/chunking.py:172-189 | the pieces joined by line ends are the paragraph |
| Chunking.StepKeepsInk | src/agentkit/concepts/chunking.py:148-169 | such a step loses nothing but white space |
| Chunking.OrderlyStep | src/agentkit/concepts/chunking.py:148-169 | as long as no split paragraph meets a filled buffer, chunks stay within the limit or are whole over-long lines |
| Chunking.OverfullStep | src/agentkit/concepts/chunking.py:158-162 | once split pieces are put back into one buffer, a chunk of several lines beyond the limit is sure to come out |
| Chunking.OverflowSplit | src/agentkit/concepts/chunking.py:115-145 | content is kept and no chunk is blank; a text within the limit is left whole, any other is what the run over its paragraphs leaves; for subadditive counting the limit holds if the text fits or no long paragraph comes after one that fits, and for counting in which line ends only separate words this is also necessary |
| Chunking.SplitIsGreedy | src/agentkit/concepts/chunking.py:115-145 | nothing is split more than it must be: unless a long paragraph comes too late, the chunks are the paragraphs packed greedily, after the leading over-long ones that are each split into lines packed greedily |
| Chunking.GreedyIsUnique | src/agentkit/concepts/chunking.py:115-145 | there is one way to pack items greedily, so this determines the chunks |
| Chunking.FittingParagraphs | src/agentkit/concepts/chunking.py:115-145 | if no paragraph exceeds the limit, the condition holds and means that every chunk is within the limit |
| Chunking.PutBackTogether | src/agentkit/concepts/chunking.py:158-162 | a concrete text for which the limit fails |
| Chunking.ChunkDocument | src/agentkit/concepts/chunking.py:192-203 | the sections are those of exactly the heading lines; the pieces of each keep its content, hold the limit under the conditions above and are split no more than that; together, in order, they hold every character of the body that is not white space; the limit is refused iff it is not positive and there is something to chunk |
| DeltaIngest.WrittenAt | tools/concept_ingester/ingester.py:185 | for each id the last object with that id counts |
| DeltaIngest.ConvergedHashes | tools/concept_ingester/ingester.py:243-292 | a delta without failures leaves the hashes of the corpus, whatever was stored before |
| DeltaIngest.ConvergedIsRebuilt | tools/concept_ingester/ingester.py:255-261 | it leaves the whole rebuilt index iff equal hashes mean equal properties |
| DeltaIngest.StaleProperty | tools/concept_ingester/ingester.py:255-261 | a concrete property outside hash and id, such as the title of the document, that goes stale |
| DeltaIngest.IngestFull | tools/concept_ingester/ingester.py:159-177 | an id that no failure names holds what the corpus says, nothing else is stored, and every object counts as inserted or failed |
| DeltaIngest.IngestDelta | tools/concept_ingester/ingester.py:180-292 | every id holds what it held or what the corpus says, whatever fails; one that no failure names holds what the delta says; inserted, updated, deleted and skipped are each the size of its own set of ids, those with a failure left out; all is skipped iff the stored hashes were those of the corpus |
| DeltaIngest.CleanDelta | tools/concept_ingester/ingester.py:251-288 | inserting the new, replacing the changed and deleting the unknown objects is the whole delta, id by id |
| DeltaIngest.IngestHistory | tools/concept_ingester/ingester.py:180-292 | over any history of runs with failures, nothing is stored that no corpus said, and one clean run makes the hashes right again |
| DeltaIngest.RebuildAgreesWithDelta | tools/concept_ingester/ingester.py:130-193 | a clean delta and a clean rebuild agree on every hash, and a second delta only skips |
| Provenance.ResolveName | scripts/ci/check_interpreter_entrypoints.py:737-767 | the scope loop terminates for cyclic aliases too and adds up the bindings of all enclosing scopes |
| Provenance.BindingsAre | scripts/ci/check_interpreter_entrypoints.py:748-766 | the bindings counted for a name are exactly the imports, aliases and rebindings of the scopes outwards, as many as those hold together |
| Provenance.PathOfChain | scripts/ci/check_interpreter_entrypoints.py:770-779 | a plain attribute chain is read as its root and the attributes in the order they are written, and nothing else is |
| Provenance.ChainIsCertain | scripts/ci/check_interpreter_entrypoints.py:737-767 | along an acyclic chain of names with exactly one binding each, ending in an import, the origin is found with certainty |
| Provenance.CertainHasChain | scripts/ci/check_interpreter_entrypoints.py:737-767 | a certain resolution comes from such a chain |
| Provenance.SingleBinding | scripts/ci/check_interpreter_entrypoints.py:749-767 | a target with one certain API has a root with exactly one binding around it, and that is no rebinding |
| Provenance.OriginsAreDerivable | scripts/ci/check_interpreter_entrypoints.py:707-767 | no origin is made up: each ends a chain of bindings |
| Provenance.DerivableAreOrigins | scripts/ci/check_interpreter_entrypoints.py:707-767 | none is missed: every chain of bindings that looks up no name twice is followed |
| Provenance.ProvenanceFor | scripts/ci/check_interpreter_entrypoints.py:689-705 | "stdlib" iff a certain chain names one API, and only if the scopes around hold one binding of the root and no rebinding; "unrelated" iff no chain names an API and the target is no unbound process method; otherwise "undecidable" with exactly the APIs that may be named, in ascending order |

## Left out

- File walking, git calls, YAML and pydantic loading, command lines, and the wording of messages and rendered reports: the model starts from parsed values and keeps error kinds, not texts.
- The Hub client, the evaluators, the executor and the vector store: any behaviour is admitted; only fresh lease objects per grant and one effect per write are assumed.
- The tokenizer asset, hashing and identifier generation: the tokenizer is any function, hashes and identifiers are plain values; the canonical spelling of an identifier by the store is not part of this model.
- `_group_edges`, `_group_for_module` and `_without_shell_quotes`: single passes that are settled locally.
- ReferenceGate.CycleGate: tells which findings block, which are reported and which warn, by key; the order of the three lists, the messages, and the reports of baselined document cycles (`ReferenceIntegrity.DocumentCycleFindings`), which never block, are not repeated there. Scan and load findings are any that carry none of the three codes the gate adds.
- HubSession.HubBatchSession.Create: the Hub serves this session alone, because leases of other sessions have no part in its accounting.
- HubSteps.StepKeeps: other calls may happen while a send waits for the Hub; acquire and release are taken as part of their step, so interleavings inside those two are not covered.
- HubLeases.AcquireEpochLease: the waiting time between queued attempts is not modelled.
- JsonEscapes.RepairDecodes: surrogate pairs and the ban on raw control characters belong to the decoder after the escapes and are not modelled; code units stay marked.
- Globs.IgnoredIffGlobMatch: paths that contain a newline are excluded, because there the two differ; `Globs.MeaningKeptIffNewlineFree` says so.
- ScopePolicy.EvaluateScopePolicy: a locus with a blank document or anchor, which the finding's own validation refuses, is not modelled, nor is the hash of the prompt that a finding carries along.
- Execution.CollectFindings: a chunk's outcome is a function of the chunk, because the claim is about the order of completion; futures cancelled after a failure are not followed further.
- Sections.NumbersIncrease: numbers are compared as counters; the dotted rendering is not modelled.
- DeltaIngest.IngestDelta: the order in which a batch is sent, and batch-level aborts, are not modelled; each object's write succeeds, fails, or fails after taking effect.
- Provenance.ProvenanceFor: verdicts name the origin that was found, not its canonical spelling; collecting the bindings from the syntax tree is not part of this model.
- Recursion limits of the interpreter: the recursive searches are modelled without one.
