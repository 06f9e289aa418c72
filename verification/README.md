# Planning and bookkeeping tools: a verified model

This project models the tools with which the repository plans its work and keeps its records, and proves what they
promise: the Python planners and linters under `tools/`, and two small TypeScript cores of the web front end.

- **Scheduling.** `Graphs`, `Depsort`, `Waves`: the prerequisite graph of requirements, a three-colour depth-first
  search for cycles, and Kahn's levelling into waves, proved to agree with each other and with the graph's meaning.
  `BatchPlan`: the greedy batch planner, proved equal to a short rule, legal, never stalled, and near optimal.
  `Wfctl`: the status of a workflow derived from its requirements, and the theorem in which waves and workflows meet.
- **Corpus repair.** `Encoding`: UTF-8 (section 3 of RFC 3629) and Windows-1252, and the gate with two cursors.
  `Handoffs`, `Backfill`, `Repair`: the repairs of one file, the registry merge, and what a second run changes.
- **Linters.** `Wiring`: the two reachability walks behind the test wiring report. `Timestamps`: the order of strings
  and the order of time. `HandoffLint`, `HandoffRules`, `MatchingKeys`, `Baseline`, `Acknowledgement`: the handoff
  linter, what it promises about handoffs, the keys of its baseline, and what a generated baseline acknowledges.
- **Queue.** `QueueSync`: merging and pushing by any number of workspaces. `QueueMutex`: the lock file.
- **Web.** `History`: the undo store. `FormSchema`: from JSON Schema to a field tree to a validator.

`Orders`, `Sorting` and `Registry` hold what the others share. An algorithm that updates state in the original is a
method with loops, or a class where several procedures share variables, proved against a specification; protocols are
state machines, and their theorems are about every run. Where a function of the model is only a step of the
computation, a predicate that no computation uses says in terms of the input what is promised, and a lemma connects
the two. An exception is a `None` or error result. File contents, directory walks, the clock, the network and
Unicode's tables are parameters.

Some promises turn out to hold only under a condition. The model keeps the code's behaviour, and theorems state when the
promise holds and give the input on which it fails:

- The repair is a fixpoint after one run unless exactly one complete handoff has a falsy id such as `false` or `0`: it is
  added to the registry again on every run (`Repair.SecondRun`).
- The queue tools assume that a push succeeds only if origin is at the version last fetched. A fetch whose result does
  not reach the local file, because reading it failed or because the tool exits on an error before it writes, lets a
  copy without others' items be pushed (`QueueSync.ReadFailureLosesItem`, `QueueSync.ErrorExitLosesItem`). Exactly the
  runs in which every accepted push holds all identities of origin lose nothing (`QueueSync.RunLosesNothingIff`), and a
  run is safe if no workspace pushes between such a fetch and its next merge (`QueueSync.SafeUnderLastFetched`).
- The queue lock excludes as long as no stale lock is removed, and no lock released a second time, while a process is
  inside (`QueueMutex.HarmlessRemovalsExclude`), as when an abandoned lock is recovered
  (`QueueMutex.AbandonedLockIsRecovered`). That is certain only if no lock outlives 120 minutes and printing the result
  does not fail: the exception handler releases what was already released (`QueueMutex.MutualExclusion`). A process that
  dies before it has written its stamp blocks the queue for good (`QueueMutex.EmptyLockIsForever`).
- The scheduler takes DEPRECATED for built and does not load entries of other types than requirement; the workflow tool
  does neither. So a wave can arrive while the workflow it belongs to is blocked (`Wfctl.DependencyDeliveredIff`, with
  the inputs in `Wfctl.RuleOrDeprecatedBlocks`).
- The UAT gate lets a workflow without requirements through, which `derive` never counts as delivered
  (`Wfctl.GateVersusDerive`).
- The cycle report labels every unplaced requirement as in a cycle; some only need one that is
  (`Waves.UnplacedNeedNotBeOnACycle`). The label is right exactly for those that must come before themselves
  (`Waves.OnCycleIff`).
- Lexical order of timestamps is the order of time exactly for ASCII digits and no final newline, both of which the
  linter's pattern does not insist on (`Timestamps.SortsByTimeIffPlain`, `Timestamps.NewlineSortsLater`,
  `Timestamps.NewlineExample`).
- The final step of a run is to sort last; the step `10000` sorts after it (`HandoffLint.FinalIsNotLast`).
- Baseline keys tell timestamp findings apart whatever their paths are, and orphan findings on paths without bars and
  commas (`MatchingKeys.KeyMeaning`); with them, two orphans can share a key (`MatchingKeys.CommaCollision`,
  `PathBarCollision`, `LaterBarCollision`).
- A form makes an object mandatory whose own `required` is present, even empty (`FormSchema.FormEnforces`), and it counts
  lengths in UTF-16 units (`FormSchema.FormEnforcesUnits`, `FormSchema.AstralCountsTwice`).

## Model

| member | source | states |
|---|---|---|
| Graphs.UnplacedIffReachesCycle | tools/depsort.py:176-194 | an id stays unplaced by levelling if and only if a cycle can be reached from it |
| Graphs.AcyclicIffAllPlaced | tools/depsort.py:155-194 | levelling places every id if and only if there is no cycle of prerequisites |
| Graphs.WaveIsLongestChain | tools/depsort.py:176-194 | the wave of an id is the length of its longest prerequisite chain, and no numbering that respects prerequisites puts it earlier |
| Graphs.FinalIsFixpoint | tools/depsort.py:181-193 | levelling is finished after at most as many rounds as there are ids |
| Graphs.RestrictionNeverDelays | tools/depsort.py:109-131 | in an induced subgraph no id is placed in a later round |
| Depsort.BuildGraph | tools/depsort.py:103-152 | the scheduled ids are those neither RELEASED nor DEPRECATED, unless all are asked for; another scheduled id is a prerequisite of one if and only if it extends it or its workflow depends on the other's; related ids come from See, and dangling are the Extends references to unknown ids but for non-functional ones; the prerequisites are closed |
| Depsort.GraphMeaning | tools/depsort.py:103-152 | the same of the graph that all theorems are about, read off the register and the catalogue: a requirement belongs to the last workflow that lists it |
| Depsort.LoadMeaning | tools/depsort.py:80-84 | the scheduler loads the entries of type requirement, as they are |
| Depsort.IndexOwners | tools/depsort.py:137-140 | a requirement belongs to the last workflow that lists it |
| Depsort.GraphIsClosed | tools/depsort.py:114-151 | every prerequisite is itself scheduled and nothing is its own prerequisite |
| Depsort.CycleFinder.FindCycles | tools/depsort.py:155-173 | every finding is a simple cycle of prerequisite edges, no two are closed by one edge, every cycle of the graph uses the closing edge of some finding, and there is a finding if and only if the graph is cyclic |
| Depsort.CycleFinder.Visit | tools/depsort.py:159-168 | a visit leaves the stack as it was, blackens its id, changes no colour already given, keeps all findings and adds only ones closed from ids that were white |
| Depsort.CycleFinder.Report | tools/depsort.py:162-164 | a back edge to a grey id closes a simple cycle |
| Depsort.SearchDecides | tools/depsort.py:155-173 | when every id is black, every cycle uses the closing edge of some finding, so the absence of findings means the graph is acyclic |
| Waves.Waves | tools/depsort.py:176-194 | every wave lists exactly what is in no earlier wave but has all its prerequisites there, none is empty, and after the last one nothing more is due; each is in order of stage, priority and id |
| Waves.OrderMeaning | tools/depsort.py:66-77 | within a wave numeric stages come first, then F-stages, both by number, then others by text; then MUST before SHOULD before COULD before anything else or no priority; then by id |
| Waves.WaveCountIsCriticalPath | tools/depsort.py:313-323 | the number of waves is the length of the longest chain of prerequisites that can be placed |
| Waves.Check | tools/depsort.py:290-310 | on the entries of type requirement: search and levelling agree, cycles are found if and only if something is unplaced, the unplaced ids are exactly those that reach a cycle, and the check passes if and only if the graph is acyclic |
| Waves.UnplacedNeedNotBeOnACycle | tools/depsort.py:301-303 | a register with an unplaced requirement that lies on no cycle, against the label printed for it |
| Waves.OnCycleIff | tools/depsort.py:301-303 | an id lies on a cycle, as the label says, if and only if it strictly reaches itself |
| Waves.Closure | tools/depsort.py:252-259 | the walk yields exactly the ids reached by at least one edge |
| Waves.Path | tools/depsort.py:245-272 | exactly the requirements that must come before an id and exactly those that must come after it; an error if and only if the id is not a requirement |
| Waves.OpenGraphIsInduced | tools/depsort.py:109-151 | leaving out built requirements gives the induced subgraph |
| Waves.ReleaseNeverDelays | tools/depsort.py:80-194 | when requirements become RELEASED or DEPRECATED, every other placed requirement stays placed, in the same wave or an earlier one |
| BatchPlan.TopoOrder | tools/reqctl_batch_plan.py:64-88 | fails if and only if the Extends references form a cycle; otherwise lists every id once, after its parent |
| BatchPlan.BuildPlan | tools/reqctl_batch_plan.py:103-198 | in terms of the register: an error if and only if qualifying requirements extend each other in a circle; otherwise exactly those with the status and stage are planned, each in one batch, what is extended in a strictly earlier one; and every pick is the first, in the order of the planner, of what may follow, among its predecessor's workflow as long as that has any, until four are picked or nothing may follow |
| BatchPlan.PlanMeaning | tools/reqctl_batch_plan.py:103-198 | the same of any plan that follows the greedy rule |
| BatchPlan.PlanOrder | tools/reqctl_batch_plan.py:91-135 | the sort key puts integer stages first, by number, then others by text; then MUST, which is also the default, before SHOULD before COULD before anything else; then the id |
| BatchPlan.CycleMeaning | tools/reqctl_batch_plan.py:45-61 | the graph of the planner has a cycle if and only if qualifying requirements extend each other in a circle |
| BatchPlan.FillBatch | tools/reqctl_batch_plan.py:155-186 | the loop with deferrals picks what the rule picks: the first id, in sort order, of the current workflow or else of all ids whose parent is in an earlier batch, until four are picked or none is left |
| BatchPlan.PlanUnique | tools/reqctl_batch_plan.py:154-198 | the greedy rule determines the plan: two plans that follow it are equal |
| BatchPlan.PlanIsLegal | tools/reqctl_batch_plan.py:154-198 | the plan is legal, and a batch is left short only when everything still unplaced waits for an id in it |
| BatchPlan.LegalPlanMeaning | tools/reqctl_batch_plan.py:171-180 | in a legal plan every id is in exactly one batch, and its parent in a strictly earlier one |
| BatchPlan.BatchCount | tools/reqctl_batch_plan.py:154-198 | any work-conserving legal plan from any point on obeys the list-scheduling bound |
| BatchPlan.PlanSize | tools/reqctl_batch_plan.py:154-198 | four times the number of batches is at most the number of ids plus three times the longest Extends chain |
| BatchPlan.AnyPlanSize | tools/reqctl_batch_plan.py:41-41 | no legal plan has fewer batches than a quarter of the ids, or than the longest chain |
| BatchPlan.PlanIsNearOptimal | tools/reqctl_batch_plan.py:154-198 | the plan has at most seven quarters of the batches of any legal plan |
| BatchPlan.Release | tools/reqctl_batch_plan.py:148-152 | releasing an id decrements the in-degree of its children and makes ready exactly those that reach zero |
| Wfctl.DeriveMeaning | tools/wfctl.py:111-147 | all six statuses, each if and only if: delivered means that requirements are listed, all registered, and the gating ones TESTED or RELEASED; a delivered workflow is RELEASED if all its requirements are, else UAT_PASSED if its UAT passed, else IMPLEMENTED; an undelivered one whose requirements are registered is IN_PROGRESS if one has been started, else READY, or DRAFT if it is stored as that; and it is DRAFT if a requirement is not registered |
| Wfctl.GatingMeaning | tools/wfctl.py:117-122 | the gating requirements are the MUST ones, or all registered ones if there is no MUST |
| Wfctl.Next | tools/wfctl.py:360-375 | in order of their ids, exactly the workflows that are not delivered, or delivered but neither RELEASED throughout nor through their UAT, all of whose dependencies are delivered; an error if and only if one of the former depends on an unknown one |
| Wfctl.UatReady | tools/wfctl.py:309-345 | an error if and only if the workflow is unknown; otherwise ready if and only if all requirements are registered, the gating ones complete, the scenario files present and the known dependencies delivered |
| Wfctl.GateVersusDerive | tools/wfctl.py:317-328 | the gate's requirement checks pass if and only if the derived status counts as delivered or the workflow has no requirements |
| Wfctl.DependencyDeliveredIff | tools/wfctl.py:111-147 | once all earlier waves are RELEASED, a dependency is delivered if and only if it has requirements, all registered, and each gating one is of type requirement and not DEPRECATED, or of another type and TESTED or RELEASED; the scheduler sees the entries of type requirement only (tools/depsort.py, line 84), this tool sees all |
| Wfctl.WavesUnblockIff | tools/wfctl.py:360-375 | once all waves before n are RELEASED, nothing blocks the owner of a wave-n requirement if and only if every dependency meets that condition |
| Wfctl.WaveArrivesBlocked | tools/depsort.py:57-84 | for every entry that is not TESTED or RELEASED and is DEPRECATED or not of type requirement: a catalogue whose claims and dependencies `validate` accepts, where a first-wave requirement belongs to a blocked workflow |
| Wfctl.RuleOrDeprecatedBlocks | tools/depsort.py:84-84 | two such catalogues: with an INFORMATIONAL interpretation rule, and with a DEPRECATED requirement |
| Wfctl.WavesDriveWorkflows | tools/wfctl.py:360-375 | in a valid catalogue that claims only entries of type requirement that are not DEPRECATED, once all waves before n are RELEASED, every dependency of a workflow owning a wave-n requirement is derived RELEASED, so nothing blocks it |
| Encoding.DecodeOfEncoded | tools/repair_handoff_bookkeeping.py:358-376 | strict UTF-8 decoding undoes encoding, for every text without surrogates |
| Encoding.DecodeIsStrict | tools/repair_handoff_bookkeeping.py:150-158 | what decodes is the encoding of its text, which has no surrogates |
| Encoding.Cp1252RoundTrip | tools/repair_handoff_bookkeeping.py:358-376 | Windows-1252 decoding has an inverse on every file it accepts |
| Encoding.Cp1252Meaning | tools/repair_handoff_bookkeeping.py:358-364 | the five bytes that stand for nothing, and what each other byte from 0x80 to 0x9F stands for |
| Encoding.ReencodingIsReversible | tools/repair_handoff_bookkeeping.py:358-376 | the original bytes can be computed from the re-encoded file, so the repair is injective |
| Encoding.OnlyKnownCorruptionBytesDiffer | tools/repair_handoff_bookkeeping.py:319-355 | the two cursors accept if and only if the candidate is the file with every catalogued byte replaced and every other byte kept |
| Encoding.RewrittenMeaning | tools/repair_handoff_bookkeeping.py:84-121 | wherever it stands, a curly quote, a dash or a section sign in Windows-1252 is replaced by its UTF-8 bytes, and any other byte is kept |
| Encoding.GateCharacterised | tools/repair_handoff_bookkeeping.py:319-376 | on the re-encoded file the gate accepts if and only if every byte is ASCII or in the corruption map |
| Encoding.LengthTells | tools/repair_handoff_bookkeeping.py:84-121 | the rewritten file is never longer than the re-encoded one, and as long only if every byte is ASCII or catalogued |
| Handoffs.DumpReadsBack | tools/repair_handoff_bookkeeping.py:173-212 | what the tool writes has no byte order mark and reads back as the value written |
| Handoffs.ParseMeaning | tools/repair_handoff_bookkeeping.py:153-161 | a file that is the UTF-8 encoding of a text, after a byte order mark or without one, parses as that text |
| Handoffs.ParsedIsUtf8 | tools/repair_handoff_bookkeeping.py:153-161 | and every file that parses is one |
| Handoffs.RefusedBom | tools/repair_handoff_bookkeeping.py:249-260 | a file whose byte order mark cannot be stripped parses in neither encoding |
| Handoffs.RefusedBomStays | tools/repair_handoff_bookkeeping.py:485-513 | such a file passes all four repairs unchanged |
| Handoffs.BomRepairIff | tools/repair_handoff_bookkeeping.py:249-260 | a byte order mark is stripped if and only if what follows parses and does not start with another one |
| Handoffs.ResultRepairIff | tools/repair_handoff_bookkeeping.py:227-246 | a result is unwrapped if and only if it is a string that reads as an object, and then the file reads back with that field replaced and no other |
| Handoffs.StatusRepairIff | tools/repair_handoff_bookkeeping.py:266-282 | the status repair changes a file if and only if its `result.status` is FAILED or PARTIAL_PASS, which become FAIL and PARTIAL and nothing else changes; it raises if and only if that status is a list or an object |
| Handoffs.WritesSucceed | tools/repair_handoff_bookkeeping.py:572-618 | the encoding repair changes a file if and only if it does not parse, its re-encoding differs and parses, and every byte is ASCII or catalogued, and then to that re-encoding |
| Handoffs.AllFourSettle | tools/repair_handoff_bookkeeping.py:446-618 | after the four repairs a file is settled under all four, whether they changed or refused it |
| Backfill.NewEntries | tools/repair_handoff_bookkeeping.py:637-688 | the entries added are exactly those of complete handoffs whose id is unregistered and occurs in one file only, in scan order; an error if and only if an id that is looked up cannot be hashed |
| Backfill.Stage | tools/repair_handoff_bookkeeping.py:640-679 | after the scan the candidates are exactly the complete, unregistered handoffs whose id no other file carries, plus those with a falsy id |
| Backfill.ProperIdsOccurOnce | tools/repair_handoff_bookkeeping.py:681-686 | a candidate with a proper id occurs once among the candidates |
| Backfill.FilterDropsOnlyFalsyIds | tools/repair_handoff_bookkeeping.py:681-686 | the final duplicate filter removes nothing if and only if at most one complete handoff has a falsy id |
| Backfill.FalseAndZeroAreDropped | tools/repair_handoff_bookkeeping.py:681-686 | two candidates, with the ids false and 0, that the filter drops |
| Backfill.EntryMeaning | tools/repair_handoff_bookkeeping.py:285-305 | a registry entry holds the seven required fields of the handoff as they are, its path, its stage if that is truthy, and nothing else |
| Repair.RegistryGrowsExactly | tools/repair_handoff_bookkeeping.py:702-732 | the registry write is never refused; the old entries stay as an unchanged prefix and one entry follows for each handoff that can be added, in scan order; all other keys stay, but for the time of the update |
| Repair.AcceptedMeaning | tools/repair_handoff_bookkeeping.py:637-688 | a handoff is added if and only if its seven fields are there and no entry and no other handoff has its id, as Python compares ids; or its id is falsy and it is the only such handoff |
| Repair.SecondMerge | tools/repair_handoff_bookkeeping.py:621-732 | merging the same scan again changes the registry if and only if exactly one complete handoff has a falsy id |
| Repair.FilesSettle | tools/repair_handoff_bookkeeping.py:750-834 | after one run no pass changes a file again, and the status pass raises again if and only if it raised before |
| Repair.SecondRun | tools/repair_handoff_bookkeeping.py:807-834 | a second run, at any later time, changes no handoff file and raises if and only if the first did; it changes the registry if and only if the registry can be merged into and exactly one repaired handoff is complete with a falsy id |
| Repair.FalseIdIsAddedAgain | tools/repair_handoff_bookkeeping.py:648-667 | a corpus whose registry grows on every run |
| Repair.Repository.Repair | tools/repair_handoff_bookkeeping.py:832-834 | the passes in their fixed order: every file goes through the first three, and through the status pass up to the first file on which that raises; the registry is merged into, from the repaired files, if it raises on none |
| Repair.RunMeaning | tools/repair_handoff_bookkeeping.py:807-834 | the same of the outcome that the theorems about a second run speak about |
| Repair.Repository.RunStatus | tools/repair_handoff_bookkeeping.py:516-569 | the status pass stops at the first file on which it raises, with the files before it rewritten and the others as they were |
| Repair.Repository.RunRegistry | tools/repair_handoff_bookkeeping.py:621-732 | the file is left as it is if it is missing or does not parse; the pass raises, and writes nothing, if and only if it is no object, its entries are nothing to iterate over, or an id that is looked up is a list or an object; otherwise it reads back grown by exactly the entries of the handoffs that can be added |
| Repair.HandoffsMeaning | tools/repair_handoff_bookkeeping.py:129-163 | the handoffs scanned are those of the files that parse to an object, with their paths, in the order of the files |
| Wiring.ReachableFromRoots | tools/lint_test_wiring.py:233-251 | the walk over imports ends with exactly the files reached from a root |
| Wiring.ReachSteps | tools/lint_test_wiring.py:287-306 | the walk over build steps ends with exactly the bindings reached from an aggregate step |
| Wiring.FindUnattachedRunArtifacts | tools/lint_test_wiring.py:287-360 | in terms of the build file: lists, in the order of their first runs and each once, exactly the test binaries with runs, none of which is at the end of a chain of dependOn edges from the step test or test-integration, and whose root file no chain of imports reaches from the root of one that is; each with its first run and whether something depends on one of its runs |
| Wiring.ReportedMeaning | tools/lint_test_wiring.py:287-360 | the condition on graphs that the walks decide is that condition on chains |
| Wiring.ReportsShrink | tools/lint_test_wiring.py:287-360 | further dependOn edges and imports never add a report |
| Timestamps.LexicalIsChronological | tools/lint_handoffs.py:94-96 | for plain stamps on the calendar, string order is the order of seconds since the year 1, leap years included |
| Timestamps.TimeOrder | tools/lint_handoffs.py:94-95 | counting seconds orders moments as comparing year, month, day and time of day does |
| Timestamps.DaysBeforeYearClosed | tools/lint_handoffs.py:318-323 | counting leap years one by one agrees with the closed form by which dates are numbered |
| Timestamps.MonthsMeaning | tools/lint_handoffs.py:318-323 | a month is as many days of 86400 seconds long as it has days, and January follows December |
| Timestamps.MonthLengths | tools/lint_handoffs.py:318-323 | which months have 31, 30 and 28 or 29 days |
| Timestamps.UnitsMeaning | tools/lint_handoffs.py:318-323 | within a month, a day counts 86400 seconds, an hour 3600 and a minute 60 |
| Timestamps.SortsByTimeIffPlain | tools/lint_handoffs.py:94-96 | a stamp of the pattern sorts by time against all plain stamps if and only if it has ASCII digits and no final newline |
| Timestamps.NewlineSortsLater | tools/lint_handoffs.py:96-96 | a plain stamp with a newline after it fits the pattern, is the same moment and sorts later |
| Timestamps.StampMeaning | tools/lint_handoffs.py:96-96 | the pattern: four, two and two digits with dashes, a T, three times two digits with colons, a Z, and perhaps a newline |
| HandoffLint.FinalIsNotLast | tools/lint_handoffs.py:112-124 | the step 10000 sorts after the step final |
| HandoffRules.StepOrder | tools/lint_handoffs.py:112-124 | numbered steps run by number; a step without a number comes after those below 5000 and before those above; a final step comes after both, unless the number is 9999 or more |
| HandoffLint.DocFindingsMeaning | tools/lint_handoffs.py:145-198 | a file carries H003, H004 or H005 if and only if its stamps run backwards or it is COMPLETED without an end |
| HandoffRules.DocFindingsExactly | tools/lint_handoffs.py:145-216 | a finding, with its severity, path and message, is reported on a handoff if and only if it deserves it: H007 for each of seven keys that is missing, H003 and H004 for stamps that run backwards, H005 for COMPLETED without an end, H002 for a result that is a string, H006 for a status other than the five legal ones and null; and no other code is |
| HandoffLint.TimeCodesMeaning | tools/lint_handoffs.py:293-340 | on proper stamps H003 means that completion precedes the start in time, and H013 that it does so by whole hours within six minutes; at exactly six minutes the outcome of the floating-point comparison is a parameter |
| HandoffLint.SkewedFileIsBackwards | tools/lint_handoffs.py:164-175 | whatever the stamps look like, every H013 has a gap of at least 54 minutes and its file carries H003 |
| HandoffRules.SkewExactly | tools/lint_handoffs.py:293-340 | H013 if and only if both stamps parse and completion precedes the start by a number of hours, at least one, to within six minutes |
| HandoffLint.SortedIsOrder | tools/lint_handoffs.py:270-270 | the sorted run holds every handoff once, by step key and then in walk order |
| HandoffLint.OrphansMeaning | tools/lint_handoffs.py:249-290 | a run has a finding for each open handoff that a completed one sorts after, and only for those, and it tells exactly which steps bypass it |
| HandoffRules.OrphansAreReported | tools/lint_handoffs.py:249-290 | of the handoffs as they are: in step order, one finding for each whose status is PENDING or IN_PROGRESS and that some handoff with status COMPLETED comes after, with exactly the paths of those that do, in step order |
| HandoffLint.WalkOrderIrrelevantIff | tools/lint_handoffs.py:268-290 | what is reported about a run is the same for every walk order if and only if no open handoff has the step key of a completed one |
| MatchingKeys.SortPathsForgetsOrder | tools/lint_handoffs.py:465-469 | sorting the paths forgets their order and nothing else |
| MatchingKeys.KeyDeterminesCode | tools/lint_handoffs.py:463-465 | whatever paths and messages contain, equal keys have equal severity and code |
| MatchingKeys.KeyMeaning | tools/lint_handoffs.py:445-469 | two findings share a key if and only if they agree in code, severity, path, message and, for H009, bypassing steps: for H009 on paths without bars and commas, for other codes on any paths, if the message has no bar |
| MatchingKeys.KeyForm | tools/lint_handoffs.py:445-469 | the text of a key |
| MatchingKeys.TextForm | tools/lint_handoffs.py:463-465 | the names of severities and codes in a key |
| MatchingKeys.JoinForm | tools/lint_handoffs.py:465-469 | the paths are joined by commas |
| MatchingKeys.CommaCollision | tools/lint_handoffs.py:456-461 | for any paths a, b, c that sort suitably: an orphan bypassed by the files "a,b" and "c" and one bypassed by "a" and "b,c" share a key |
| MatchingKeys.CommaExample | tools/lint_handoffs.py:456-461 | such paths among step files, such as h/step-1.json,h/step-2.json and h/step-3.json |
| MatchingKeys.PathBarCollision | tools/lint_handoffs.py:279-287 | with bars in paths and run ids, orphans of different files can share a key |
| MatchingKeys.LaterBarCollision | tools/lint_handoffs.py:463-469 | with bars in the path of a bypassing step, orphans bypassed by different steps can share a key |
| Baseline.RunsOfMeaning | tools/lint_handoffs.py:953-954 | every run holds exactly the handoffs of its id in walk order, every handoff has its run, and no id has two |
| Baseline.RunsExactly | tools/lint_handoffs.py:943-954 | of the files: each run holds, in walk order, the handoffs whose truthy run id, or else whose folder, equals its id as Python compares them; every handoff has a run, and no two runs have equal ids |
| Baseline.FileFindingsExactly | tools/lint_handoffs.py:127-246 | H008 if and only if the file has a byte order mark; H001 if and only if it does not parse to an object; otherwise what the handoff deserves |
| Baseline.Linter.LintParsed | tools/lint_handoffs.py:145-216 | exactly the findings that the handoff deserves are appended, unless its result status cannot be hashed |
| Baseline.Linter.LintOrphans | tools/lint_handoffs.py:249-290 | run by run, one finding for each PENDING or IN_PROGRESS handoff that a COMPLETED one comes after is appended; an error if and only if a status is a list or an object |
| Baseline.Linter.LintClockSkew | tools/lint_handoffs.py:293-340 | H013 is appended exactly for the handoffs of all runs whose completion precedes their start by whole hours |
| Baseline.Linter.Lint | tools/lint_handoffs.py:933-1027 | every finding that the files, the orphans and the clock skew of all runs call for is reported, as acknowledged if the baseline has its key, and no other; an error if and only if a status, a result status or a non-empty id is a list or an object |
| Baseline.Generate | tools/generate_lint_handoffs_baseline.py:95-216 | the sorted entries that `Acknowledgement.BaselineFile` describes; an error if and only if a status, a result status or a non-empty run id is a list or an object |
| Acknowledgement.RecordedIsScoped | tools/generate_lint_handoffs_baseline.py:125-149 | the generator records exactly the H003, H004, H005 and H009 findings of the linter |
| Acknowledgement.BaselineFile | tools/generate_lint_handoffs_baseline.py:203-219 | the file has one entry for each H003, H004, H005 and H009 of the corpus, with its file, code, key, reason, time and author, and no other, in order of code, file and key; its keys are those that the linter looks up |
| Acknowledgement.AcknowledgesExactly | tools/lint_handoffs.py:1014-1027 | a finding is acknowledged by a baseline if and only if it is of these codes and the baseline's corpus had a finding with its key |
| Acknowledgement.AcknowledgesSame | tools/lint_handoffs.py:1014-1027 | if the paths that H009 findings mention have no bar or comma, and the wording of the timestamp findings no bar: a finding of a corpus is acknowledged if and only if it is of these codes and the baseline's corpus had the same finding |
| Acknowledgement.NothingIsLost | tools/lint_handoffs.py:1019-1027 | every finding is either left or acknowledged, with its multiplicity |
| Acknowledgement.BaselineRoundTrip | tools/generate_lint_handoffs_baseline.py:194-216 | linting the corpus a baseline was generated from leaves exactly the findings of other codes, in place |
| Acknowledgement.BaselineSurvivesWalkOrder | tools/lint_handoffs.py:1014-1027 | the same holds when the corpus is walked in another order, if no open handoff ties with a completed one and ids that hash alike are alike |
| QueueSync.MergeMeaning | tools/_queue_sync.py:66-89 | origin wins for every identity it knows; any other identity is carried over unchanged |
| QueueSync.IdentityMeaning | tools/_queue_sync.py:50-63 | two items have one identity if and only if both have an issue and it is the same, or neither has one and both stage and batch are the same |
| QueueSync.MergeItems | tools/_queue_sync.py:66-89 | the merge is origin with its items first, followed by exactly the local items that match none of them in that sense, unchanged and in order |
| QueueSync.MergeAssociative | tools/_queue_sync.py:66-89 | merging is associative |
| QueueSync.MergeIdempotent | tools/_queue_sync.py:66-89 | merging a queue with itself changes nothing if and only if it has an item list |
| QueueSync.PushAltersOnlyOwnChanges | tools/_queue_sync.py:34-39 | whether pushes are checked against the version last fetched or last merged: an accepted push of a workspace that has merged what it fetched loses no identity of origin and alters no item that the workspace has not changed since it last merged |
| QueueSync.PushLosesOnlyUnmerged | tools/_queue_sync.py:34-39 | any accepted push: what it loses is not in the version the workspace last merged, nor, if nothing was lost before, in any earlier one; an item it alters is its own change or differs from the version last merged |
| QueueSync.RunPushesAlterOnlyOwnChanges | tools/_queue_sync.py:34-39 | the same in every run, for a workspace that has merged into its file since its last fetch that it did not merge |
| QueueSync.LocalItemsSurvive | tools/_queue_sync.py:131-143 | no step removes an identity from a local copy, a merge keeps an item that origin does not know as it is, and an accepted push delivers it |
| QueueSync.LocalItemsSurviveRuns | tools/_queue_sync.py:131-143 | over whole runs: a local item stays in the local copy through any steps, and unchanged while its workspace does not change it and origin does not know it |
| QueueSync.LocalItemsAreDelivered | tools/_queue_sync.py:34-39 | a later accepted push of that workspace delivers it to origin |
| QueueSync.RunLosesNothingIff | tools/_queue_sync.py:92-143 | every run, under either push rule and whatever fails: no pushed identity disappears if and only if every accepted push comes from a local copy that holds all identities of origin |
| QueueSync.FreshPushesLoseNothing | tools/_queue_sync.py:92-143 | every run in which each accepted push comes from a workspace that has merged what it fetched loses nothing |
| QueueSync.StaleIsUnmerged | tools/queue_heartbeat.py:91-120 | a workspace has fetched something unmerged only under the last-fetched rule, after a failed read or an exit before the write, with no merge since |
| QueueSync.SafeUnderLastFetched | tools/_queue_sync.py:34-39 | under the last-fetched rule, every run in which no workspace pushes successfully between a fetch that did not reach its file and its next merge loses nothing |
| QueueSync.PushedIsNeverLost | tools/_queue_sync.py:92-143 | over all runs of any number of workspaces no pushed identity disappears, if and only if pushes are checked against the version last merged, or neither reads fail nor tools exit before they write |
| QueueSync.ReadFailureLosesItem | tools/_queue_sync.py:131-143 | a run with failed reads only that loses a pushed item when pushes are checked against the version last fetched |
| QueueSync.ErrorExitLosesItem | tools/queue_heartbeat.py:91-120 | a run without failed reads that loses one: the tool exits on an error after fetching and before writing |
| QueueMutex.MutualExclusion | tools/queue_heartbeat.py:38-133 | over all interleavings at most one process is between acquire and release, if and only if no lock file is ever older than 120 minutes and printing never fails |
| QueueMutex.HarmlessRemovalsExclude | tools/queue_heartbeat.py:46-68 | every run, with expiring locks and failing prints: at most one process is between acquire and release as long as no stale lock is removed, and none released a second time, while some process is |
| QueueMutex.LockIsGivenBack | tools/queue_heartbeat.py:63-133 | in every run in which no process is killed inside, whatever errors, expiries and failing prints there are: a lock file is there only while the process that created it is inside, and with nobody inside the next to try acquires it |
| QueueMutex.ErrorReleases | tools/queue_heartbeat.py:131-134 | an error inside ends the process and removes the lock file, and touches no other process |
| QueueMutex.AbandonedLockIsRecovered | tools/queue_heartbeat.py:46-61 | a run in which the lock of a process that died inside expires, is removed, and the next process acquires, all states being exclusive |
| QueueMutex.ExpiredMeaning | tools/queue_heartbeat.py:38-43 | a lock file counts as abandoned if and only if its stamp is more than two hours old |
| QueueMutex.EmptyLockIsForever | tools/queue_heartbeat.py:38-61 | over any run without failing prints: once a process has died between creating the lock file and stamping it, the file stays and nobody acquires, however much time passes |
| QueueMutex.DeathBeforeStampSticks | tools/queue_heartbeat.py:46-51 | such a death, among any number of processes |
| QueueMutex.SecondReleaseBreaksExclusion | tools/queue_heartbeat.py:131-138 | a run without expiry in which the handler's second release removes another process's lock |
| QueueMutex.ExpiryBreaksExclusion | tools/queue_heartbeat.py:46-61 | a run in which an expired lock is taken from a process still inside |
| History.HistoryStore.PushSnapshot | web/src/stores/canvasHistoryStore.ts:55-64 | the snapshot is appended, the oldest dropped beyond the limit, and the future emptied |
| History.HistoryStore.Undo | web/src/stores/canvasHistoryStore.ts:66-74 | the last snapshot is returned and the current canvas put at the head of the future; nothing happens on an empty past |
| History.HistoryStore.Redo | web/src/stores/canvasHistoryStore.ts:76-84 | the first future snapshot is returned and the current canvas appended to the past; nothing happens on an empty future |
| History.HistoryStore.Clear | web/src/stores/canvasHistoryStore.ts:86-88 | both stacks are emptied |
| History.CursorMoves | web/src/components/canvas/ProcessCanvas.tsx:265-303 | past, current and future form a line that undo and redo leave unchanged while moving the cursor by one, and they undo each other |
| History.DepthIsBounded | web/src/stores/canvasHistoryStore.ts:53-84 | under any operations both stacks together never exceed the limit, although redo does not check it |
| History.UndoRestoresEdits | web/src/components/canvas/ProcessCanvas.tsx:139-145 | after n snapshotted edits, k undos for k up to n and the limit restore the canvas of k edits ago, and k redos bring everything back |
| FormSchema.FieldToZod | web/src/utils/jsonSchemaToZod.ts:14-99 | the loop builds the validator that the meaning theorems are about |
| FormSchema.FormMeaning | web/src/utils/formSchemaParser.ts:31-91 | on the supported fragment, for any way of counting lengths that meets the same bounds on the value as UTF-16 units: the form accepts a value if and only if the schema, with every object also requiring its marked properties, validates it |
| FormSchema.StrengthenMeaning | web/src/utils/formSchemaParser.ts:33-33 | the strengthened schema validates a value if and only if the schema does and every object in the value has its marked properties, those whose own schema has a truthy `required` |
| FormSchema.FormAgreesIff | web/src/utils/formSchemaParser.ts:31-91 | on the fragment, form and schema agree about a value if and only if it is invalid or every object in it has its marked properties |
| FormSchema.CompilationPreservesMeaning | web/src/utils/jsonSchemaToZod.ts:14-99 | if marked properties are also listed as required, the form accepts a value if and only if the schema validates it, with `required` as in section 6.5.3 of JSON Schema Validation, draft 2020-12 |
| FormSchema.FormEnforces | web/src/utils/formSchemaParser.ts:31-110 | for any schema without email, uri, select or date and without a boolean `required` on an object with properties, and any way of counting lengths that meets the bounds as UTF-16 units do: the form accepts a value if and only if the loosened and strengthened schema validates it |
| FormSchema.FormEnforcesUnits | web/src/utils/jsonSchemaToZod.ts:14-99 | for any such schema and every value: the form accepts it if and only if that schema validates it with lengths in UTF-16 units |
| FormSchema.LoosenMeaning | web/src/utils/formSchemaParser.ts:31-110 | what is left of a schema: bounds on text without an enum, an enum on text, bounds on numbers, and only declared names as required |
| FormSchema.MultipleMeaning | web/src/utils/jsonSchemaToZod.ts:47-49 | the multiples of a positive number are zero, what is one such number away from one, and nothing in between |
| FormSchema.TypeMeaning | web/src/utils/formSchemaParser.ts:93-113 | integers are numbers; missing, unknown and null types are text |
| FormSchema.FormatMeaning | web/src/utils/jsonSchemaToZod.ts:18-37 | an email or uri format is one more check on text without an enum |
| FormSchema.OtherFieldsMeaning | web/src/utils/jsonSchemaToZod.ts:56-69 | a select accepts the texts of its members, or any text without one; a date what coercion accepts; no schema at all any object |
| FormSchema.ParseRaisesIff | web/src/utils/formSchemaParser.ts:69-80 | parsing raises if and only if an object with properties, nested anywhere in what is parsed, has a boolean for `required` |
| FormSchema.OptionalObjectBecomesMandatory | web/src/utils/formSchemaParser.ts:33-33 | an optional object whose own `required` is an empty list is mandatory in the form |
| FormSchema.AstralCountsTwice | web/src/utils/jsonSchemaToZod.ts:20-25 | a character beyond the basic plane meets a minimum length of two in the form but not in the schema |

## Left out

- YAML, JSON and TypeScript text, regular expressions, directory walks, git, subprocesses and printing: the models take parsed records, graphs and bytes. For JSON text the model assumes that dumped text is ASCII and loads back, and that no JSON text starts with a byte order mark or its first Windows-1252 letter.
- JSON values: NaN, infinities and lone surrogates are not values, and the order of the keys of an object is not kept.
- Exceptions of the interpreter itself (recursion depth, memory, integers of thousands of digits) and I/O errors in the middle of a write.
- Graph orders that the original takes from hash tables: a model that picks any element of a set stands for all of them, and results that depend on the order are not stated.
- Depsort.CycleFinder.FindCycles: does not state the order of the findings, nor which of the cycles through a closing edge is reported; both depend on the order of the search.
- The repair tool's dry run, its counters, category selection and the requirement that `--now` is given.
- The rest of the wiring linter: type-only pins, allow lists, and the plain list of files no root reaches.
- HandoffLint.TimeCodesMeaning: does not compute the floating-point comparison of H013 at exactly six minutes, where rounding decides; its outcome is a parameter.
- The linter's `--changed` mode and its comparison with the merge base; the registry and log checks, whose findings are a parameter; the display order of findings.
- Baseline.Generate: leaves out the header of the file, and writing and reading it as JSON text.
- QueueSync.PushedIsNeverLost: the queue tools' own edits are any rewriting of the local file that drops no identity; how each tool edits its item is not modelled, and one tool at a time runs in a workspace, as the lock is to ensure.
- QueueMutex.MutualExclusion: the attempts with pauses are any number of attempts; lock files with a malformed stamp, which these tools do not write, are not modelled.
- History.DepthIsBounded: the editing of canvases themselves; a canvas is any value.
- FormSchema.FormEnforces: leaves out email and uri formats, select and date fields, property names that JavaScript treats specially, and `required` given as a string; regular expressions, email and URL syntax and date coercion are parameters.
- The codegen scripts, the create scripts, text-pattern linters, status boards, database tools, React components, API clients, and `web/src/stores/canvasStore.ts`, an older store with other semantics.
