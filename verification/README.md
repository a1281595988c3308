# Quire CI: a verified model

This project models the CI engine of Quire as one connected system, and proves what it promises.

1. **Compiling a pipeline.** A `ci.fnl` script registers jobs (`Registration.dfy`). The compiler builds a
   dependency graph, rejects cycles and jobs that no trigger reaches, and sorts what is left (`Pipelines.dfy`). The
   graph algorithms it takes from a library are implemented here against path-based reachability (`Graphs.dfy`).
2. **Running it.** The executor runs the jobs in topological order until the first failure, and emits a bracketed
   stream of events (`Executor.dfy`, `Events.dfy`). A run-fn is an oracle: any sequence of `sh` attempts, each of
   which may fail to spawn or lose its log, and then success or an error.
3. **Recording it.** The server replays the event file into tables with keys and CHECKs (`Schema.dfy`,
   `Ingest.dfy`), and turns the outcome into the run's row (`Server.dfy`). `Verdicts.dfy` composes all of it: script,
   pipeline, execution, crash, ingest, row, with every other writer of the database acting in between.
4. **The run row.** Several writers act on one row: creation and superseding, bootstrap fetch, dispatch, resolve,
   reconciliation. `Runs.dfy` gives each statement a meaning, "apply, or reject and change nothing", and proves what
   holds over every interleaving.
5. **Showing it.** The detail page deals a flat list of logs out to commands again (`RunDetail.dfy`).

Four smaller algorithms stand beside these: secret redaction (`Secrets.dfy` over `Strings.dfy`), HTML escaping
(`HtmlEscape.dfy`), the log format and its reader (`CriLog.dfy`), and the in-place line splitter of the file view
(`LineSplitter.dfy`). `Orders.dfy` holds sorting, `Seqs.dfy` and `Wrappers.dfy` stock helpers.

Loops and objects of the source are methods and classes here, each proved equal to a specification function or
predicate; the theorems are lemmas about those. Beside it the method's contract, or a lemma whose name ends in
`Means` or `Mean`, says outright what that function is, in terms of inputs, rows and events only.
`dafny verify dfyconfig.toml` checks everything.

## Where the code and its own words disagree

The model follows the code.

- `docs/CI-STATE.md:184` says an ingest failure never hides the run's own verdict. `quire-server/src/ci/run.rs:303-337`
  turns it into `failed-internal`. `Verdicts.IngestErrorDemotes` is a concrete run; `Ingest.CompleteStream` says exactly
  for which runs ingest succeeds.
- `quire-core/src/secret.rs:158-160` says the fetcher is called at most once per name. A failed answer is not cached,
  so the next lookup asks again (`Secrets.FailedFetchIsRepeated`). `Secrets.AskedOnceIff` has the exact condition.
- `quire-server/static/file-view.js:93` says a blob ending in a newline has no trailing row. It has one when that
  newline sits inside an element (`LineSplitter.TrailingRowAppears`). `LineSplitter.Split` has the exact condition.
- A row resolved while it was queued is not frozen under a clock that stands still: a bootstrap fetch in the same
  millisecond still dispatches it (`Runs.StillClockUnfreezes`). `Runs.ResolvedRowTakesStamp` has the exact condition.
- Redaction hides every revealed value only under a condition. For a single secret `Secrets.SingleSecretLeaksIff` makes
  it exact, whatever the value. For several, if none can reach across the edge of a marker (`Secrets.EdgelessIff`; no
  value without braces can, nor most JSON), `Secrets.NothingSurvivesIff` does: a finite check on values and names.
  `Secrets.NameLeaks` shows that names matter, `Secrets.BracesLeak` that edges do.

## Model

| member | source | states |
|---|---|---|
| `Registration.Collector.AddJob` | quire-core/src/ci/registration.rs:127-140 | the first registration of an id wins; a later one leaves the jobs alone and adds one DuplicateJob error |
| `Registration.Collector.RegisterImage` | quire-core/src/ci/registration.rs:151-173 | the first image is kept; a later one leaves it and the jobs alone and adds one DuplicateImage error with its line; the sinks stay what all calls so far deserve |
| `Registration.Collector.RegisterJob` | quire-core/src/ci/registration.rs:180-206 | adds exactly the error the call deserves (slash, else empty inputs, else a known id), or else one job with the id, every input and the line of the call; the image stays; the sinks stay what all calls so far deserve |
| `Registration.Register` | quire-core/src/ci/registration.rs:38-77 | any error discards the whole batch and all errors come back in call order; otherwise every job in call order and the first image |
| `Registration.CleanIffNoFaults` | quire-core/src/ci/registration.rs:63-76 | registration reports nothing exactly for scripts with slash-free ids, non-empty inputs, no repeated id and at most one image, and then keeps every job |
| `Registration.AcceptedIds` | quire-core/src/ci/registration.rs:127-140 | an accepted job carries an id exactly when an earlier well-formed call did, so a rejected call never shadows a later one |
| `Registration.JobsOfMeans` | quire-core/src/ci/registration.rs:180-206 | a job is registered exactly when some job call gave its id, all of its inputs and its line |
| `Registration.JobsKeepOrder` | quire-core/src/ci/registration.rs:138-139 | jobs are in the order of their calls |
| `Registration.FirstImageMeans` | quire-core/src/ci/registration.rs:151-173 | the image is the one named by the first image call |
| `Registration.JobsOfClean` | quire-core/src/ci/registration.rs:180-206 | jobs of an accepted script have slash-free, pairwise different ids, non-empty inputs and a span |
| `Graphs.StrongComponents` | quire-core/src/ci/pipeline.rs:458-459 | the components partition the nodes, and two nodes share one exactly when each reaches the other |
| `Graphs.Toposort` | quire-core/src/ci/pipeline.rs:211-212 | finds an order exactly when the graph has no cycle, and the order lists every node once with edges going forward |
| `Graphs.Bfs.Next` | quire-core/src/ci/pipeline.rs:266-267 | each visited node is new and reaches the start; the walk ends only when nothing discovered is left |
| `Graphs.Bfs.Exhausted` | quire-core/src/ci/pipeline.rs:266-271 | a walk that has ended visited exactly the nodes from which the start can be reached |
| `Graphs.NoSourceMeansCycle` | quire-core/src/ci/pipeline.rs:455-458 | a non-empty finite set in which every node has a predecessor in the set holds a node on a cycle |
| `Graphs.AcyclicHasTopoOrder` | quire-core/src/ci/pipeline.rs:206-216 | every acyclic graph has a topological order |
| `Graphs.TopoOrderMeansAcyclic` | quire-core/src/ci/pipeline.rs:206-216 | a graph with a topological order has no cycle |
| `Graphs.ClimbingMeansAcyclic` | quire-core/src/ci/pipeline.rs:206-216 | a graph all of whose edges climb in some numbering has no cycle |
| `Graphs.CycleComponent` | quire-core/src/ci/pipeline.rs:455-459 | a node is on a cycle exactly when it has a self-edge or shares its component with another node |
| `Pipelines.BuildGraph` | quire-core/src/ci/pipeline.rs:294-315 | nodes are the jobs in registration order, edges are the resolved inputs of each, and the id map finds the last job of each id and no other name |
| `Pipelines.DependencyEdges` | quire-core/src/ci/pipeline.rs:307-312 | with distinct ids there is an edge from one job to another exactly when the second lists the first among its inputs |
| `Pipelines.CycleErrors` | quire-core/src/ci/pipeline.rs:458-473 | the errors are exactly the components on a cycle, each once, sorted and complete, no job in two; the member set holds exactly the jobs on a cycle |
| `Pipelines.SortedMembers` | quire-core/src/ci/pipeline.rs:463-464 | the jobs of one component, all of them and no others, in strictly increasing order of id |
| `Orders.StringLessMeans` | quire-core/src/ci/pipeline.rs:464 | the order of ids: at the first place where two differ, the lesser has the smaller character or is at its end |
| `Pipelines.CycleErrorFor` | quire-core/src/ci/pipeline.rs:463-472 | the error names every member of the component, sorted, with one span each, none missing |
| `Pipelines.FindsTrigger` | quire-core/src/ci/pipeline.rs:493-501 | the walk finds a trigger exactly when the job is one or has one among its ancestors |
| `Pipelines.CheckReachable` | quire-core/src/ci/pipeline.rs:484-510 | a job is reported unreachable exactly when it is off every cycle, has inputs, and no trigger reaches it |
| `Pipelines.UnreachableErrors` | quire-core/src/ci/pipeline.rs:484-511 | the unreachable jobs, each once, in registration order |
| `Pipelines.OrphansListed` | quire-core/src/ci/pipeline.rs:484-511 | the list of unreachable jobs: strictly ascending positions, exactly the orphans, each with its own id and line |
| `Pipelines.ValidatePostGraph` | quire-core/src/ci/pipeline.rs:451-518 | accepts exactly the acyclic graphs in which every job is below a trigger; otherwise the cycle errors, then the unreachable jobs in registration order |
| `Pipelines.NoCycleErrorIffTopoOrder` | quire-core/src/ci/pipeline.rs:455-473 | no cycle is reported exactly when a topological order exists |
| `Pipelines.CycleErrorIsNontrivialComponent` | quire-core/src/ci/pipeline.rs:455-488 | each cycle error is a whole component with two jobs or a job listing itself, and none of its members is also reported unreachable |
| `Pipelines.UnreachableWhenAcyclic` | quire-core/src/ci/pipeline.rs:475-510 | in an acyclic graph a job is unreachable exactly when no trigger is among its ancestors, and then it or one of them has inputs none of which names a job |
| `Pipelines.ResolvedMeansReachable` | quire-core/src/ci/pipeline.rs:479-483 | an acyclic graph in which every non-empty input list names some job has no unreachable job |
| `Pipelines.VerdictMeans` | quire-core/src/ci/pipeline.rs:513-517 | the validator is silent exactly when the graph is acyclic and every job is below a trigger |
| `Pipelines.Pipeline.Jobs` | quire-core/src/ci/pipeline.rs:210-216 | on an accepted pipeline the sort cannot fail; every job is listed once, each resolved input before its dependent |
| `Pipelines.Pipeline.Job` | quire-core/src/ci/pipeline.rs:224-226 | finds the job with an id, or none when no job has it |
| `Pipelines.Pipeline.TransitiveInputs` | quire-core/src/ci/pipeline.rs:261-275 | for every job, exactly the ids of its strict ancestors |
| `Pipelines.Compile` | quire-core/src/ci/pipeline.rs:413-443 | accepted exactly when the script ran, broke no registration rule, and its graph with the push job is acyclic and triggered; otherwise which errors, in which order; an accepted pipeline is sound, has the push job and each call's job as its call gave it, and an edge for each listed input that names a job |
| `Pipelines.AcceptsIff` | quire-core/src/ci/pipeline.rs:413-443 | which scripts compile, said of the calls alone: no registration rule broken, the jobs can be numbered so that each listed input that exists has a smaller number, and every job lists at least one input that exists |
| `Pipelines.PipelineOfCalls` | quire-core/src/ci/pipeline.rs:294-315 | the id map holds the push job and one job per call, and one job feeds another exactly when the other's call lists its id |
| `Pipelines.AncestorsAreChains` | quire-core/src/ci/pipeline.rs:261-275 | a job's strict ancestors are exactly the names from which a chain of calls, each listing the name before, leads to it |
| `Pipelines.UnknownInputIsAccepted` | quire-core/src/ci/pipeline.rs:307-312 | an input that names no job is no error by itself: this script compiles |
| `Executor.BuildInputViews` | quire-core/src/ci/runtime.rs:148-172 | every job gets a view whose keys are exactly its strict ancestors, and only the push job has a value |
| `Executor.ViewsOfSoundPipeline` | quire-core/src/ci/runtime.rs:159-172 | no job is in its own view; the push job is in everyone else's, alone has no inputs, and is the only name that carries a value |
| `Executor.LookupReadsAncestors` | quire-core/src/ci/runtime.rs:419-448 | a job may read exactly its strict ancestors, gets push data from the push job alone and nothing yet from the others; its own outputs, any other name and a call outside a job are three different errors |
| `Executor.Runtime.constructor` | quire-core/src/ci/runtime.rs:174-184 | a new runtime has no current job, no recorded output and no event |
| `Executor.Runtime.Sh` | quire-core/src/ci/runtime.rs:268-327 | announced before the spawn and after the exit; the output is returned unless the spawn or, inside a job, the log write failed, each with its own error; the log is file one more than the recorded outputs and holds this output, and only a logged output is recorded; outside a job nothing is emitted or recorded |
| `Executor.Runtime.CallRunFn` | quire-ci/src/main.rs:601-610 | a user's run-fn emits and records exactly its attempts in order and succeeds exactly when the script says so; the built-in one does nothing and succeeds |
| `Executor.AttemptEvents` | quire-core/src/ci/runtime.rs:268-327 | the events of a run-fn, one by one: each attempt is announced with its stamp and text, and its exit follows at once if it was spawned |
| `Executor.RunOfUserJob` | quire-ci/src/main.rs:601-610 | a user's job does in the stream what its run-fn did: the same attempts, stamps and result |
| `Executor.RecordedOutputs` | quire-core/src/ci/runtime.rs:300-327 | the outputs recorded of a job are those of its spawned and logged attempts, in order |
| `Executor.RunJob` | quire-ci/src/main.rs:580-628 | one job emits its start, its attempts if it is a user's, and its finish, reported succeeded exactly when its run-fn did not fail; it leaves its logs, and no job is current afterwards |
| `Executor.RunUntilFailure` | quire-ci/src/main.rs:579-634 | the executed jobs are a prefix of the order, all succeeded but possibly the last, and a shorter prefix means the last failed |
| `Executor.ExecutedUnique` | quire-ci/src/main.rs:580-634 | those facts determine the run: it is the jobs up to the first failure |
| `Executor.RunPipeline` | quire-ci/src/main.rs:493-656 | a script that does not compile is one pipeline-failure event; otherwise the whole bracketed stream of the executed jobs and their log files, closed by success exactly when no user's run-fn fails |
| `Executor.AllOkMeans` | quire-ci/src/main.rs:580-634 | all executed jobs were good exactly when no user's run-fn fails |
| `Executor.JobEventsTell` | quire-ci/src/main.rs:580-628 | every start and finish in the stream carries its run-fn's stamp, and a user's job is reported succeeded exactly when its run-fn did not fail |
| `Executor.ExecutedDistinct` | quire-ci/src/main.rs:518-634 | no job is executed twice |
| `Executor.AncestorRanBefore` | quire-ci/src/main.rs:580-634 | every strict ancestor of an executed job was executed before it and succeeded |
| `Executor.InputsFinishFirst` | quire-ci/src/main.rs:580-634 | when a job's start is emitted, each job it transitively depends on has already emitted a successful finish |
| `Executor.ListedInputsFinishFirst` | quire-ci/src/main.rs:580-634 | in particular each name the job's own call lists, if a job is called so |
| `Events.CutStream` | quire-core/src/ci/event.rs:40-56 | a stream cut anywhere is its finished jobs followed by the start of one unfinished job |
| `Events.LocateEvent` | quire-core/src/ci/event.rs:40-56 | every event but the last belongs to one executed job's stretch of the stream |
| `Events.JobStreamKinds` | quire-core/src/ci/event.rs:42-56 | within a job's stretch start comes first and only first, finish last and only last, and every event carries that job's id |
| `Schema.Database.ExecInsertJob` | quire-server/migrations/0009_rename_ci_vocab.sql:62-82 | inserts exactly this row, or reports the violated CHECK, key or reference, in that order, and changes nothing |
| `Schema.Database.ExecInsertSh` | quire-server/migrations/0002_sh_events.sql:1-10 | inserts exactly this row, or reports the violated key or reference, in that order, and changes nothing |
| `Ingest.IngestEvents` | quire-server/src/ci/run.rs:348-421 | a missing file is no outcome, an unreadable or unparsable one an error, both without a trace; otherwise result and tables are those of the two-pass replay |
| `Ingest.InsertJobs` | quire-server/src/ci/run.rs:368-393 | the first pass as a loop equals the replay of job events, stopping at the first rejected row |
| `Ingest.InsertShs` | quire-server/src/ci/run.rs:395-418 | the second pass as a loop equals the replay of sh events, stopping at the first rejected row |
| `Ingest.IngestOnlyAdds` | quire-server/src/ci/run.rs:366-420 | whatever the events, only rows of this run are added, none is overwritten, and every key and CHECK still holds |
| `Ingest.WithJobsRows` | quire-server/src/ci/run.rs:376-387 | the recorded table has one row per executed job with its outcome and times, and every other row untouched |
| `Ingest.WithRunShsRow` | quire-server/src/ci/run.rs:395-418 | each spawned command of a recorded job has a row under its start stamp with its finish stamp, exit status and text |
| `Ingest.RecordedMeans` | quire-server/src/ci/run.rs:368-418 | what is recorded, column by column: of each job its result and the stamps of its brackets, of each spawned command its stamps, exit status and text, and no row besides |
| `Ingest.CompleteStream` | quire-server/src/ci/run.rs:366-420 | a finished run is ingested without error exactly when no job ends before it starts and no two spawned commands of a job share a start stamp; then the tables reconstruct the history and the outcome is the emitted one |
| `Ingest.CutStreamIngest` | quire-server/src/ci/run.rs:300-313 | for a stream cut at any event the tables hold exactly the finished jobs and exactly their spawned commands, whether ingest ends well or at the foreign key of the one unfinished job, and it says which |
| `Ingest.UnpairedJobEvents` | quire-server/src/ci/run.rs:368-393 | a finish without a start counts as its own start; after two starts the later one counts |
| `Ingest.UnpairedShFinish` | quire-server/src/ci/run.rs:395-418 | a command's finish without a start is passed over |
| `Ingest.RestartedSh` | quire-server/src/ci/run.rs:395-418 | after two starts of a command the later one's stamp and text count |
| `Ingest.LastOutcomeCounts` | quire-server/src/ci/run.rs:388-421 | behind any events a terminal event adds no row, and its outcome is the one returned unless the replay failed |
| `Runs.StepRows` | quire-server/migrations/0010_outcome_schema.sql:33-38 | every statement keeps the CHECKs, deletes no row, writes each lifecycle column at most once and only with the clock it read |
| `Runs.TraceRows` | quire-server/src/ci/run.rs:453-470 | over any interleaving `resolved_at` and `outcome` are written together and never change, `dispatched_at` at most once, identity columns never |
| `Runs.BootstrapIsOneShot` | quire-server/src/quire/web/api.rs:164-179 | over any interleaving at most one bootstrap fetch per run is served, and none once the run was dispatched |
| `Runs.ReachableOnePerRef` | quire-server/src/ci/run.rs:82-99 | every reachable database has at most one unresolved run per repository and ref |
| `Runs.CreateLeavesOtherRefs` | quire-server/src/ci/run.rs:114-153 | creating a run leaves every row of every other repository or ref as it was |
| `Runs.CancelExistingMeans` | quire-server/src/ci/run.rs:116-153 | a cancel goes through exactly when no open row of the ref was created or dispatched after the clock reading; then all of them are superseded now, in no other column different, and every other row is as it was |
| `Runs.CreateMeans` | quire-server/src/ci/run.rs:71-112 | a create is refused exactly for such a row or a taken id; otherwise every open row of the ref is superseded, the new row is queued with the repository, ref, commit, stamps and token given, and every other row is as it was; a refused one inserts nothing |
| `Runs.FetchServesWhatWasCreated` | quire-server/src/quire/web/api.rs:137-191 | after an accepted create and any further steps of anybody, a served fetch hands out the commit, ref, push time and repository the run was created with; it is gone exactly when dispatched, and never not found |
| `Runs.ReconcileResolvesAll` | quire-server/src/ci/run.rs:159-174 | reconciling is accepted exactly when no open row was created or dispatched after the clock reading; then no run stays unresolved, open ones become orphaned now, and resolved rows are unchanged |
| `Runs.TraceStamps` | quire-server/src/ci/run.rs:82-99 | under a clock that never goes back no row of any trace carries a stamp after the last reading |
| `Runs.ReconcileAfterAnyTrace` | quire-server/src/ci/run.rs:156-174 | so reconciling any reachable database under such a clock succeeds and leaves no run unresolved |
| `Runs.ResolveLandsIff` | quire-server/src/ci/run.rs:453-470 | a verdict reaches the row exactly when the handle has not resolved, nobody else has, and the clock has not gone back behind the row's stamps |
| `Runs.ResolvedRowTakesStamp` | quire-server/src/ci/run.rs:453-470 | a later stamp still lands on a resolved row exactly when it was resolved while queued and the clock lies between its creation and its resolution |
| `Runs.StillClockUnfreezes` | quire-server/src/quire/web/api.rs:164-179 | a superseded run is dispatched by a bootstrap fetch in the same millisecond |
| `Runs.ResolvedIsFrozen` | quire-server/src/ci/run.rs:437-470 | under a strictly increasing clock the lifecycle columns of a resolved row never change again, over any interleaving |
| `Runs.StepHandles` | quire-server/src/ci/run.rs:181-189 | a handle that believes its run resolved is right after any step, whichever process takes it |
| `Runs.ReachableHandles` | quire-server/src/ci/run.rs:181-189 | the same over every interleaving, although `execute` sets the dispatched flag without touching the row |
| `Runs.VerdictComesFromResolve` | quire-server/src/ci/run.rs:453-470 | an outcome other than superseded or orphaned is only ever written by a handle of that run resolving it with that outcome |
| `Server.RunStore.CancelExisting` | quire-server/src/ci/run.rs:116-153 | supersedes the active runs of the ref one statement at a time, then the queued ones at once, stopping at the first rejection; no other table changes |
| `Server.RunStore.Create` | quire-server/src/ci/run.rs:71-112 | refused exactly when an open row of the ref has a later stamp or the id is taken; otherwise supersedes every open row of the ref, inserts the queued row as given, leaves all others alone and returns a fresh handle; it is the create step of the interleaving theorems |
| `Server.ReconcileAtStartup` | quire-server/src/ci/run.rs:159-174 | succeeds exactly when no open row was created or dispatched after the clock reading; then no run is unresolved, open ones are orphaned now, resolved rows and all other tables unchanged; otherwise nothing changes |
| `Server.GetBootstrap` | quire-server/src/quire/web/api.rs:137-191 | not found exactly without a row, gone exactly when it was dispatched, rejected exactly when the stamp does not fit the row's others; else hands out that row's commit, ref, push time, repository and trace parent and stamps the dispatch; an error changes nothing; it is the fetch step of the interleaving theorems |
| `Server.Run.Dispatch` | quire-server/src/ci/run.rs:438-450 | refuses exactly a handle already dispatched or resolved; stamps an empty dispatch column and no other, unless the stamp does not fit; a rejection leaves row and flags; it is the dispatch step of the interleaving theorems |
| `Server.Run.Resolve` | quire-server/src/ci/run.rs:453-470 | refuses exactly a resolved handle; fills what is still empty of the three columns, sets both flags; rejected exactly when the stamp lies before the row's others, leaving row and flags; it is the resolve step of the interleaving theorems |
| `Server.Run.Begin` | quire-server/src/ci/run.rs:240-285 | with a session only the flag and the row's trace parent are set, as given, and the row stays queued; without one it is a dispatch |
| `Server.OpenRun` | quire-server/src/ci/run.rs:203-217 | no handle exactly without a row; else one whose flags tell which of the row's stamps are set; it is the open step of the interleaving theorems |
| `Server.Run.Conclude` | quire-server/src/ci/run.rs:300-340 | ingests before anything else; a non-zero exit is always an error; on an open row that the stamp fits, the outcome is `failed-internal` exactly when the exit was bad or no outcome was read, `succeeded` and `failed-pipeline` exactly when it was good and that was read, and only these two return no error |
| `Verdicts.OutcomeMeansComplete` | quire-server/src/ci/run.rs:303-337 | an outcome is read only from a stream that is all there, it is the emitted one, and then the whole history was recorded |
| `Verdicts.CompileFailureLeavesNoJobs` | quire-ci/src/main.rs:500-516 | a script that did not compile fails the pipeline without a job row |
| `Verdicts.IngestErrorDemotes` | quire-server/src/ci/run.rs:303-337 | a fully successful run whose two commands share a millisecond ends as `failed-internal` |
| `Verdicts.StepKeepsTables` | quire-server/migrations/0009_rename_ci_vocab.sql:62-82 | no statement on run rows breaks a key, reference or CHECK of any table |
| `Verdicts.OutcomeReadIff` | quire-server/src/ci/run.rs:300-313 | `execute` sees an outcome exactly when the stream is all there and the schema can hold its time stamps, and then it is the emitted one |
| `Verdicts.PipelineRan` | quire-ci/src/main.rs:579-634 | the executed runs are runs of the pipeline's jobs, none twice, all good but possibly the last, and of every job when all are good |
| `Verdicts.AllOkIff` | quire-ci/src/main.rs:579-634 | all executed jobs were good exactly when no job call's run-fn fails; otherwise the last one executed is a job call whose run-fn failed |
| `Verdicts.VerdictReadIsTrue` | quire-server/src/ci/run.rs:300-338 | whatever was left on disk, the verdict it leads to is borne out by the job rows that were inserted |
| `Verdicts.OthersKeep` | quire-server/src/ci/run.rs:114-174 | no sequence of other processes' actions changes a run's job rows, overwrites a verdict or writes one other than superseded or orphaned |
| `Verdicts.ConcludedAmidNothing` | quire-server/src/ci/run.rs:300-340 | with no action in between, concluding amid others is what `execute` does on its own |
| `Verdicts.ConcludedVerdictIsTrue` | quire-server/src/ci/run.rs:300-338 | with any other actions between ingest and resolve and after it: a `succeeded` row means that no run-fn of the script fails and every job has a succeeded row; a `failed-pipeline` row means exactly the executed jobs have rows, the last, whose run-fn failed, a failed one and all others succeeded, or that the script was rejected and no job has a row |
| `Verdicts.ReachableVerdictIsTrue` | quire-server/src/ci/run.rs:300-338 | the same in every database reachable from an empty one, with any creates, supersessions, dispatches, fetches, reconciliations, ingests and resolves of others before, between and after |
| `Verdicts.ConcludedRow` | quire-server/src/ci/run.rs:300-338 | with no other writer the row gets its verdict exactly when the clock has not gone back behind its stamps, and otherwise none |
| `Verdicts.EventsWritten` | quire-ci/src/main.rs:493-656 | what a process that dies after some events leaves is that much of its pipeline's stream, or of the lone failure event when the script is not accepted |
| `Verdicts.Start` | quire-server/src/ci/run.rs:240-285 | a run gets going exactly when its row waits for the fetch (or, without a session, its handle for the dispatch) and the stamp is not before its creation |
| `Verdicts.ExecuteRun` | quire-server/src/ci/run.rs:232-340 | from script to row, with or without a session, crash or torn line, the verdict is true of the rows and of the run-fns; with no other writer the row becomes `succeeded` exactly when the stamps fit, the process exits well with its whole stream intact and recordable, the script is accepted and no run-fn fails; `failed-pipeline` exactly when instead a run-fn fails or the script was rejected; `failed-internal` exactly when the process exits badly or its stream is torn, cut or not recordable, or never got its bootstrap; and an error is returned exactly when it is neither of the first two |
| `RunDetail.GroupEvents` | quire-server/src/quire/web/handlers/ci.rs:74-78 | every job's events, in query order, and no others |
| `RunDetail.GroupMeans` | quire-server/src/quire/web/handlers/ci.rs:74-78 | a group is the events at ascending positions of the query result, and those are exactly the job's |
| `RunDetail.FetchLogs` | quire-server/src/quire/web/handlers/ci.rs:91-121 | the flat list is the logs of each job's commands in turn, unsafe ids and missing files reading as empty |
| `RunDetail.FetchJobLogs` | quire-server/src/quire/web/handlers/ci.rs:98-115 | log number k is the content of file k, or empty if that is missing or the id is empty, `.`, `..` or holds a slash, backslash or NUL |
| `RunDetail.DealLogs` | quire-server/src/quire/web/handlers/ci.rs:123-152 | dealing the flat list out again puts each job's k-th command beside that job's k-th log |
| `RunDetail.BuildDetail` | quire-server/src/quire/web/handlers/ci.rs:72-152 | both walks together keep the list in step: each job shows its commands beside its own numbered logs |
| `RunDetail.GroupIsLaunchOrder` | quire-server/src/quire/web/db.rs:105-109 | ordering the table's rows and grouping them gives back exactly the job's spawned commands in launch order |
| `RunDetail.NumberIsPosition` | quire-core/src/ci/runtime.rs:305-318 | a command's log gets its row's position as number exactly when no earlier command of the job lost its log; failed spawns do not matter |
| `RunDetail.LogStays` | quire-core/src/ci/runtime.rs:300-318 | a written log keeps its number: no later command of the job overwrites it |
| `RunDetail.RunLogFile` | quire-core/src/ci/runtime.rs:300-318 | after the whole run that file still holds that command's log, whatever other jobs did |
| `RunDetail.ShownLogIsOwnLog` | quire-server/src/quire/web/handlers/ci.rs:72-152 | for every finished job, each command is shown with its stamps, exit status and text beside the log written of its own output, whatever an unfinished job has left behind, through ordering, grouping and both walks |
| `RunDetail.CrashedRunShowsOwnLogs` | quire-server/src/quire/web/handlers/ci.rs:72-152 | the same end to end: after a crash at any event, or none, through execution, ingest and the page |
| `RunDetail.LostLogShifts` | quire-core/src/ci/runtime.rs:305-318 | one lost log shifts the rest: the next command's log takes its number |
| `Secrets.Registry.Resolve` | quire-core/src/secret.rs:261-281 | the answer is what is cached, else what the fetcher gives; only a new value is cached; a value of eight bytes or more becomes redactable under its name, a shorter one does not, and no other name is touched |
| `Secrets.ResolvesAreConsistent` | quire-core/src/secret.rs:244-281 | over any lookups an answer once cached never changes, and everything redactable is long enough and what the cache holds |
| `Secrets.CacheMeans` | quire-core/src/secret.rs:262-269 | the cache ends up with what it was seeded with and else the first value the fetcher gave for the name |
| `Secrets.AnswerMeans` | quire-core/src/secret.rs:261-281 | what any lookup of any sequence is answered, said of the fetcher alone: the seeded answer, else the first value the fetcher gave up to then, else the error it gives now |
| `Secrets.GivenOutIsRevealed` | quire-core/src/secret.rs:270-281 | every value of eight bytes or more that was ever given out is redactable, as it was given out |
| `Secrets.AskedOnceIff` | quire-core/src/secret.rs:158-160 | the fetcher is called at most once for a name exactly when the name was cached to begin with, or its first lookup, if another follows, is answered with a value |
| `Secrets.FailedFetchIsRepeated` | quire-core/src/secret.rs:265 | a name refused once and then answered is asked for twice |
| `Secrets.Registry.Entries` | quire-core/src/secret.rs:288-296 | the revealed pairs, each once, longest value first and then by name |
| `Secrets.EntriesAreUnique` | quire-core/src/secret.rs:283-296 | there is only one such list, so the map's iteration order does not matter |
| `Secrets.Registry.Redact` | quire-core/src/secret.rs:307-317 | the text after every replacement of the one sorted list in turn, early return included; it holds no revealed value whenever no value can reach across a marker's edge or occurs in a marker; a text that holds none is left alone |
| `Strings.StrReplace` | quire-core/src/secret.rs:314 | the loop replaces the leftmost non-overlapping occurrences |
| `Strings.FindIsLeftmost` | quire-core/src/secret.rs:314 | the search returns the first occurrence from a position, and nothing only if there is none |
| `Strings.ReplaceJoin` | quire-core/src/secret.rs:314 | where no occurrence of the pattern straddles a seam, replacing works on either side of it separately |
| `Secrets.EdgelessIff` | quire-core/src/secret.rs:313 | a value can reach across no edge of any name's marker exactly when past its start it has no `{` or `{{` at its end and no `{{` before a space, and short of its end no `}` or `}}` at its start and no `}}` behind a space |
| `Secrets.RedactedMarker` | quire-core/src/secret.rs:312-315 | later replacements by such values pass through a marker: the text before it, the marker and the text after it are redacted separately |
| `Secrets.NothingSurvivesIff` | quire-core/src/secret.rs:303-317 | for values that cannot reach across a marker's edge, no text keeps a revealed value exactly when none of the revealed values alone does, a finite check |
| `Secrets.RedactionIsSafe` | quire-core/src/secret.rs:303-317 | if moreover no marker contains a revealed value, no text keeps one, and redacting again changes nothing |
| `Secrets.PlainValues` | quire-core/src/secret.rs:313 | a value without braces reaches across no edge; it occurs in a marker exactly when it occurs in the padded name, and, unless it starts or ends with a space, exactly when it occurs in the name |
| `Secrets.StoreRedaction` | quire-core/src/secret.rs:303-317 | the same over a registry: with safe revealed pairs the redacted text holds none of the revealed values and is its own redaction |
| `Secrets.GivenOutIsRedacted` | quire-core/src/secret.rs:261-317 | so whatever lookups were made, no secret of eight bytes or more that was ever given out is in the redacted text |
| `Secrets.ValueBecomesMarker` | quire-core/src/secret.rs:283-317 | any value alone becomes exactly `{{ name }}` for the least name holding it, even with shorter secrets inside it, if that marker contains no revealed value |
| `Strings.CanLeaveIff` | quire-core/src/secret.rs:314 | replacing a pattern can leave the pattern in some text exactly when the replacement contains it, or ends with a proper beginning of it, or agrees from its start with some rest of it, as far as both go, while the pattern behind the part before that rest is found there and not earlier |
| `Secrets.SingleSecretLeaksIff` | quire-core/src/secret.rs:307-317 | for a single secret of any characters, some text lets it through exactly under that condition on the value and its marker |
| `Secrets.BracesLeak` | quire-core/src/secret.rs:312-315 | a value ending in braces reappears across the edge of its own marker |
| `Secrets.NameLeaks` | quire-core/src/secret.rs:312-315 | every secret that occurs in its own marker is printed there |
| `HtmlEscape.FourPassesAreOne` | quire-server/src/quire/web/handlers/tree.rs:351-356 | the four replacements in a row equal one pass that escapes each character |
| `HtmlEscape.EscapedBy4Append` | quire-server/src/quire/web/handlers/tree.rs:351-356 | the two parts of a text are escaped independently |
| `HtmlEscape.EntityTable` | quire-server/src/quire/web/handlers/tree.rs:351-356 | the four entities, and every other character as it is |
| `HtmlEscape.Escape` | quire-server/src/quire/web/handlers/tree.rs:351-356 | the loops compute those four replacements; the result unescapes to the input and holds no angle bracket or double quote |
| `HtmlEscape.NothingSpecialLeft` | quire-server/src/quire/web/handlers/tree.rs:351-356 | the result holds no angle bracket and no double quote |
| `HtmlEscape.UnescapeInverts` | quire-server/src/quire/web/handlers/tree.rs:351-356 | a one-pass unescape gives the original back |
| `HtmlEscape.EscapeIsInjective` | quire-server/src/quire/web/handlers/tree.rs:351-356 | different strings have different escapes |
| `CriLog.WriteCriLog` | quire-core/src/ci/logs.rs:20-34 | the file is one tagged line per stdout line and then per stderr line |
| `CriLog.ContentsMean` | quire-core/src/ci/logs.rs:20-34 | the file, spelled out: `<ts> stdout F <line>` for each stdout line, then `<ts> stderr F <line>` for each stderr line, each closed by a newline |
| `CriLog.LinesMean` | quire-core/src/ci/logs.rs:25-31 | what the lines of a text are: newline-free, joined they give it back with its final newline supplied, and each closed one is short of one carriage return |
| `CriLog.Dump` | quire-ci/src/main.rs:159-164 | the printed lines are the file's lines, each without its first three fields, or whole when it has fewer |
| `CriLog.StripMeans` | quire-ci/src/main.rs:161-163 | a line loses exactly its first three space-separated fields |
| `CriLog.ShortLinesStay` | quire-ci/src/main.rs:161-163 | a line with fewer than four fields is printed whole |
| `CriLog.DumpGivesLinesBack` | quire-ci/src/main.rs:159-164 | dumping a written log prints the stdout lines and then the stderr lines, each short of at most one carriage return, so exactly those lines if and only if none ends in one |
| `CriLog.NoCrInLines` | quire-core/src/ci/logs.rs:25-31 | output without carriage returns has no line ending in one |
| `LineSplitter.TakeLine` | quire-server/static/file-view.js:35-64 | splits the old source into newline-free content appended to the destination, one newline if hit, and the new source, in order, every character keeping its chain of elements; without a hit the source ends empty |
| `LineSplitter.Split` | quire-server/static/file-view.js:85-106 | ends, numbers rows from one, and the rows are exactly the blob's lines with every character under its elements, short of a final empty line exactly when the last child is a text node ending in a newline |
| `LineSplitter.RowsJoinToText` | quire-server/static/file-view.js:85-106 | the rows joined by newlines give back the blob's text except for that one trailing newline |
| `LineSplitter.TrailingRowAppears` | quire-server/static/file-view.js:93 | a blob whose final newline is inside an element does get an empty trailing row |

## Left out

- The graph library. `tarjan_scc`, `Bfs` and `toposort` are stand-ins that meet the same specification; the order of
  cycle errors among themselves and the choice among topological orders are therefore left open.
- Evaluating Fennel and Lua, metatables, and installing the runtime: a script is the list of registration calls it
  made and whether it ran to its end, a run-fn the list of its `sh` attempts and its result.
- Source spans are the line of the call, not byte offsets into the source.
- JSON encoding and line framing of events: an event file is missing, unreadable, unparsable or a list of events.
- HTTP, sockets, tokens, Git, tar, containers, process spawning, tracing and Sentry; their success or failure is an
  input. A `quire-ci` process that cannot be spawned leaves the row for reconciliation (`run.rs:290-298`).
- Reading the clock: every stamp is an input, and each theorem says what it needs of them.
- `sh` timings, which nothing modelled reads, and the redaction of a command's text and output inside `sh`: the
  attempts of the model carry what was recorded after redaction.
- Failing to create a job's log directory is not told apart from failing to write the log; both lose it.
- The data migrations, SQL as a language, connections and WAL. The `IN (…)` CHECKs on outcome and state hold by the
  type of the column; the unused `git_dir` column is dropped.
- Server.RunStore.Create: one atomic step, as is `get_bootstrap`, though the source wraps neither in a transaction;
  the one-per-ref and one-shot theorems are about calls that do not interleave. Creating the run directory is not
  modelled.
- Verdicts.ExecuteRun: no other writer acts between its statements; `Verdicts.ReachableVerdictIsTrue` is the theorem in
  which all of them may. There one ingest is one step: its inserts touch rows of its own run only, which no other
  statement reads or writes.
- Secrets.NothingSurvivesIff: for several secrets of which one can reach across a marker's edge, no exact condition is
  given; there a later replacement can take part of an earlier marker together with the text beside it.
- Executor.RunPipeline: the branch for a pipeline without jobs is not separate; the push job is always there, and the
  loop over no jobs would emit the same lone event.
- Secrets.Registry.Resolve: a secret read from a file is its content or its read error, read once; strings are byte
  strings, so lengths are byte lengths.
- CriLog.Dump: one file; walking the job directories in name order is not modelled.
- LineSplitter.TakeLine: child lists change in place but the nodes in them are values, so node identity is not
  captured; a shallow clone is the element's tag, which stands for its attributes too.
- Highlighting, selection, history and scrolling in the file view; templates, labels and durations on the pages.
