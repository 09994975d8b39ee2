# Verification of the jobrunner pipeline controller and web interface

jobrunner runs a `Pipeline`: an ordered list of steps, each of which becomes one Kubernetes Job. A controller
reconciles the persisted step phases with the Jobs. A web interface names new pipelines, watches them, and draws their
dependencies in the pipeline monitor (`pipelineToGraph` is called in `ui/src/components/monitor/pipeline-detail.ts:487`
only). Its graph module also exports a check for cycles, `wouldCreateCycle`, which nothing calls. This project models both
in Dafny and proves what the controller keeps in every run and what the algorithms of the web interface compute.

## How the model is built

* `PipelineTypes`, `Scheduling`: the resource types, and the waiting rules as one decision (wait, start, skip) on the
  phases of all steps.
* `Controller`: the reconciler as code, on a mutable in-memory copy of the pipeline and an API server object. Every API
  call can fail; a failed call ends the pass and drops the in-memory copy. Loops keep the shape they have in Go.
* `Passes`: what one pass computes, as a function of the store, of the number of API calls that still succeed, of the
  label query's answer and of the clock. Each method of `Controller` is proved equal to its function here.
* `Transitions`: the persisted state as a transition system. Controller steps are the single effective API calls;
  cluster steps are Jobs changing, vanishing or appearing, and a deletion request. `ReconcileReaches` proves that a pass,
  cut short by a failing call anywhere, takes the store along controller steps only. A state that is persisted in the
  middle of a pass is the final state of a pass cut short there, so what is proved of every state of every `Run` holds of
  everything that is ever persisted. An `Execution` is a list of stores linked by whole passes and cluster steps;
  `ExecutionIsRun` proves that each is a run. Counterexamples are stated as executions.
* `Invariants`, `RunProperties`, `JobCreation`, `Fate`, `Deadlock`: theorems about whole runs. `Fate` defines the fate
  of every step as the fixed point of the waiting rules for given Job outcomes, and proves that in steady runs no schedule
  gives a step another final phase. Whether a step reaches its fate can depend on the schedule; `Fate`, `Deadlock` and `PassEffect` say
  exactly when. `Deadlock` shows which steps have a fate.
* `PassEffect`, `Liveness`: what a pass on which no call fails does, exactly, on phases and Jobs alone; which passes achieve
  nothing, how many others a pipeline needs, and which pipelines end. `Examples`, `Schedules`: executions, pass by pass.
  `LongestRun`: for every n a pipeline that needs as many passes as the bound allows.
* `Answers`, `Calls`: what each operation answers in each case, on the resource's own fields; how many calls a pass makes.
* `Walks`, `Counting`: walks, cycles and the pigeonhole principle. `GraphLayout`, `GraphAgreement`: the drawn
  graph, the depth-first cycle check, and how both relate to the order the controller enforces.
* `WatchStream`, `FreshNames`: the framing of the watch stream, and the search for a free pipeline name.

Run `dafny verify dfyconfig.toml` to check everything.

Some promises need a guard on the run, and each guard comes with the execution that breaks the promise without it and with
the exact condition:

* `Run`: no guard. Invariants, verdicts, the Job account, stuck steps, and that a start or a skip is never taken back.
* `LastingRun`: no Job appears under the name of a started step whose Job has vanished. The code reads the Jobs of finished
  steps again, so a Job that takes such a name reopens the step. With the guard the lifecycle is one-way.
* `SteadyRun`: also, no step is decided while a step it looks at is Suspended. Jobs may be suspended and resumed at will.
  `SteadyExact`: the decisions of a lasting run stay justified exactly when it is steady.

## Where the code departs from its documentation

* A Suspended step is in neither dependency switch. The documented manual gate (`docs/job-controls.md:88-92`) therefore does
  not hold back the next step: `ManualGateLeaks`, `SuspensionBreaksJustification` and `SuspensionBreaksFate` are the
  counterexamples. `ManualGateExact` says in which states the gate works, `DecisionStandsExact` that a decision stands
  exactly when no step it looked at was Suspended, and `SteadyExact` the same for whole runs.
* "One-way state transitions" (`docs/conditional-execution.md:44`): when a finished step's Job is removed
  (`docs/job-controls.md:61`) and another Job takes its name, the next pass turns the step from Succeeded back to Running:
  `ReplacementReopensStep`. `FinalPhaseKeptExact` and `LifecycleExact` say exactly when the transitions are one-way.
  `CollisionExact` says which other pipelines can want that name.
* `operator: or` waits for all listed steps, not for the first match (`docs/conditional-execution.md:43`):
  `OrWaitsForAll`, `OrExampleWaits`, and for whole runs `OrDecidesOnFinalList`.
* "Each step runs at most once" (`docs/conditional-execution.md:40`) fails when a Job is created, the status write after
  it fails, and the Job vanishes before the next pass: `CreatedTwice`. `CreationAccount` and `AtMostOnceExact` give the
  exact account. While such a Job stays, its step cannot be started at all: `TakenNameBlocks`.
* "Runs when ALL steps succeeded" (`docs/conditional-execution.md:30-37`): a pass takes the verdict before it starts steps,
  so a step that is due is given up when a failure has been handled and nothing else happens to run. The same outcomes then
  give different results, depending on when an unrelated Job finishes: `ResultDependsOnSchedule`. `DueStepExact` says when a
  pass decides a due step, `FinishedRunLeaves` and `WholeResultExact` what a finished run leaves. Without runIf the whole
  result is the same in every schedule: `PlainResultsAgree`.
* "Delete immediately after completion" (`docs/job-controls.md:81`): when a Job is deleted before a pass has seen it finish,
  its step stays Running or Suspended and the pipeline never ends: `DeletedJobHangs`, and for every run `LostJobHangs`.
* The drawing shows an edge from the previous step only. Behind conditional steps it can be acyclic although the
  pipeline deadlocks: `DrawingHidesDeadlock`. `AgreementExact` says when drawing and controller agree.

## Model

| member | source | states |
|---|---|---|
| PipelineTypes.JobNameInjective | internal/controller/pipeline_jobs.go:90 | within one pipeline different steps never share a Job name |
| PipelineTypes.CollisionExact | internal/controller/pipeline_jobs.go:90 | two pipelines' steps want the same Job name exactly when they are the same, or one pipeline name continued by the separator begins the other and its rest begins the other step's name |
| PipelineTypes.PipelinesCollideExact | internal/controller/pipeline_jobs.go:90 | some steps of two pipelines collide exactly when the names are equal or one extends the other by the separator |
| PipelineTypes.JobNamesDisjoint | internal/controller/pipeline_jobs.go:90 | otherwise the Job names of two pipelines are disjoint, whatever their steps |
| PipelineTypes.JobNamesCollideAcrossPipelines | internal/controller/pipeline_jobs.go:90 | an instance: step b-c of pipeline a and step c of pipeline a-b |
| Answers.JobNameExample | internal/controller/pipeline_jobs.go:90 | step publish of pipeline release has the Job release-publish |
| Scheduling.DecisionStable | internal/controller/pipeline_dependencies.go:59-100 | a decision on final phases is the same in every later state |
| Scheduling.DecisionStandsExact | internal/controller/pipeline_dependencies.go:65-100 | a decision to start or skip stands in every possible future exactly when no step it looked at was Suspended |
| Scheduling.SequentialRule | internal/controller/pipeline_dependencies.go:41-101 | all inputs: start iff all earlier steps are Succeeded or Suspended, wait iff one is Pending or Running, skip iff none waits and one Failed or was Skipped |
| Scheduling.WaitRule | internal/controller/pipeline_dependencies.go:154-183 | a step with runIf waits exactly while a listed name belongs to no step or to one that is Pending or Running |
| Scheduling.AndRule | internal/controller/pipeline_dependencies.go:150-195 | with operator and, also by default, it then starts exactly when every listed step has Failed, for condition fail, or Succeeded, for any other; else it is skipped |
| Scheduling.OrRule | internal/controller/pipeline_dependencies.go:150-195 | with operator or it then starts exactly when some listed step has; else it is skipped |
| Scheduling.ManualGateExact | internal/controller/pipeline_dependencies.go:65-78 | "start iff all earlier steps succeeded" holds exactly unless some earlier step is Suspended and all others of them are Succeeded |
| Scheduling.ManualGateLeaks | internal/controller/pipeline_dependencies.go:65-78 | a suspended approval step does not hold back the next step |
| Scheduling.OrWaitsForAll | internal/controller/pipeline_dependencies.go:176-195 | "start iff some listed step matches" agrees with the code exactly unless a match exists while a listed step is unfinished or missing |
| Scheduling.OrExampleWaits | internal/controller/pipeline_dependencies.go:176-195 | the documentation's publish example waits for the second build |
| Controller.ApiServer.UpdateStatus | internal/controller/pipeline_reconciler.go:225 | a status write replaces the stored status by the in-memory one, or fails and changes nothing |
| Controller.ApiServer.Create | internal/controller/pipeline_jobs.go:139-142 | a create is refused when the name is taken and otherwise adds exactly that Job |
| Controller.ApiServer.GetJob | internal/controller/pipeline_status.go:52-66 | a missing Job is an answer, not an error |
| Controller.DetermineStepPhase | internal/controller/pipeline_status.go:108-144 | the first True deciding condition in list order gives the phase, else an active Job is Running, else the phase stays |
| Controller.RefreshStep | internal/controller/pipeline_status.go:42-91 | one turn of the observation loop reads exactly the step's own Job |
| Controller.RefreshSteps | internal/controller/pipeline_status.go:39-92 | the loop observes every tracked step, fails iff a fetch fails, and reports a change iff some phase moved |
| Controller.UpdateStepStatusesOf | internal/controller/pipeline_status.go:36-105 | the observed phases are written in one write iff some phase moved |
| Controller.UpdateConditions | internal/controller/pipeline_status.go:147-247 | the Ready condition is replaced by the one that belongs to the phase, other conditions stay |
| Controller.GetStepStatus | internal/controller/pipeline_reconciler.go:255-262 | the first entry with the name, or none |
| Controller.CheckSequentialExecution | internal/controller/pipeline_dependencies.go:41-101 | the two lists of waiting and failed names answer as the sequential rule decides |
| Controller.MatchCountQuantifies | internal/controller/pipeline_dependencies.go:185-192 | counting matches with duplicates equals "all match" and "some match" |
| Controller.CheckStepStatuses | internal/controller/pipeline_dependencies.go:150-195 | complete iff every listed name resolves to a step that is not waiting; met iff complete and all, or some, match |
| Controller.BlockedByName | internal/controller/pipeline_dependencies.go:154-183 | waiting for listed names is waiting for the steps they name, missing names included |
| Controller.StartByName | internal/controller/pipeline_dependencies.go:185-192 | matching listed names is matching the steps they name |
| Controller.CheckConditionalExecution | internal/controller/pipeline_dependencies.go:105-141 | answers as the waiting rules decide for a step with runIf |
| Controller.AreDependenciesSatisfied | internal/controller/pipeline_dependencies.go:29-37 | ready iff the decision is to start, skip iff the decision is to skip |
| Controller.HasPendingFailureHandlers | internal/controller/pipeline_dependencies.go:206-232 | true iff a Pending step has a fail condition |
| Controller.AnalyzePipelineState | internal/controller/pipeline_reconciler.go:145-190 | every flag is the quantified fact about the phases it is named after |
| Controller.UpdatePipelinePhaseOf | internal/controller/pipeline_reconciler.go:193-231 | new phase, completion time and condition from the flags, written iff the phase moved |
| Controller.InitializeStepStatuses | internal/controller/pipeline_reconciler.go:234-252 | one Pending entry per step of the spec, in order, written at once |
| Controller.CreateJobForStep | internal/controller/pipeline_jobs.go:88-149 | records the Job name in memory and creates the Job with the pipeline's label |
| Controller.TryStep | internal/controller/pipeline_jobs.go:36-82 | one turn of the walk: nothing, skip and write, or create, mark Running and write |
| Controller.StartReadySteps | internal/controller/pipeline_jobs.go:33-85 | the walk over the spec on the current phases, stopped by the first failing call |
| Controller.ReconcileDeletePass | internal/controller/pipeline_reconciler.go:34-69 | deletes the listed Jobs one by one and releases the finalizer only after the last |
| Controller.JudgeAndStartPass | internal/controller/pipeline_reconciler.go:95-131 | the verdict is taken before any step is started, and a final one ends the pass |
| Controller.ReconcilePipelinePass | internal/controller/pipeline_reconciler.go:72-131 | initialise, observe, judge, start |
| Controller.ReconcilePass | internal/controller/pipeline_controller.go:54-100 | deletion, finalizer, phase initialisation and final phases, for every failing call |
| Answers.ObservedPhaseRule | internal/controller/pipeline_status.go:108-144 | the first True condition of type Complete, Failed or Suspended gives the phase, without one an active pod gives Running, else the phase stays |
| Answers.ObservedEntry | internal/controller/pipeline_status.go:42-91 | an entry without a Job name, or whose Job is gone, stays; otherwise the Job's status is recorded |
| Answers.VerdictTable | internal/controller/pipeline_reconciler.go:193-217 | what is reported in each of the six situations: Running while something runs, else Suspended, else Failed or, with a Pending step that has a fail condition, Running, else unchanged while something is Pending, else Succeeded |
| Answers.JudgedStatus | internal/controller/pipeline_reconciler.go:193-231 | a verdict changes the phase, sets the completion time to the clock when it is final and none is set, replaces the Ready condition, and nothing else |
| Answers.VerdictWritten | internal/controller/pipeline_reconciler.go:222-231 | it is written exactly when the phase changes |
| Answers.TurnPasses | internal/controller/pipeline_jobs.go:36-66 | nothing is done for a step that is not Pending or waits |
| Answers.TurnSkips | internal/controller/pipeline_jobs.go:58-66 | a skip is one write, of the status in which the entry is Skipped |
| Answers.TurnStarts | internal/controller/pipeline_jobs.go:69-81 | a start creates the labelled Job, refused when its name is taken, and then writes the entry as Running with the Job's name; with one call left the Job is created and not recorded |
| Answers.WalkInOrder | internal/controller/pipeline_jobs.go:33-85 | a step is decided on the phases that earlier steps have after the walk and later ones before it |
| Answers.Dispatch | internal/controller/pipeline_controller.go:54-100 | a missing object, a deleted one without finalizer and a failing first call change nothing, and what each answers |
| Answers.FirstContact | internal/controller/pipeline_controller.go:78-89 | a pipeline without a phase becomes Pending with its start time and is taken up again at once; with too few calls the answer is an error and the status stays |
| Answers.NothingAfterTheEnd | internal/controller/pipeline_controller.go:91-96 | a finished pipeline only gets its finalizer, and no further pass is asked for |
| Answers.DeletionCompletes | internal/controller/pipeline_reconciler.go:34-69 | a deletion pass without failing calls removes every Job of the pipeline and no other, releases the finalizer, so that the object goes, and stops |
| Answers.DeletionCalls | internal/controller/pipeline_reconciler.go:34-69 | it needs three calls and one for each Job; with fewer it answers with an error and the object stays, without the Jobs listed first |
| Calls.TrackedCount | internal/controller/pipeline_status.go:39-66 | an observation fetches one Job for each entry that names one |
| Calls.CallsExact | internal/controller/pipeline_controller.go:54-100 | how many calls a pass over a pipeline in progress makes: with fewer that succeed it answers with an error, with so many it does what it does without a failure |
| Calls.PassRecords | internal/controller/pipeline_status.go:70-105 | a pass that moved a phase leaves in the entry of every started step whose Job is there that Job's status |
| Transitions.HandleStepReaches | internal/controller/pipeline_jobs.go:36-82 | one turn of the walk is at most one persisted step, a lost start included |
| Transitions.UndecidedOpensGate | internal/controller/pipeline_reconciler.go:104-123 | a walk starts only when no failure has settled the verdict |
| Transitions.ReconcilePipelineReaches | internal/controller/pipeline_reconciler.go:72-131 | every prefix of an active pass is a sequence of controller steps |
| Transitions.ReconcileDeleteReaches | internal/controller/pipeline_reconciler.go:34-69 | every prefix of a deletion pass is a sequence of controller steps |
| Transitions.ReconcileReaches | internal/controller/pipeline_controller.go:54-100 | refinement: whatever call fails, a pass moves the store along controller steps only |
| Transitions.ExecutionIsRun | internal/controller/pipeline_controller.go:54-100 | every state between the passes and the cluster's steps is the last state of a run |
| Invariants.FirstTrueIsTheTrueOne | internal/controller/pipeline_status.go:110-130 | when only one deciding condition is True, list order does not matter |
| Invariants.ObservedPhaseExact | internal/controller/pipeline_status.go:108-144 | which condition holds determines the observed phase |
| Invariants.EvolvesKeepsResult | internal/controller/pipeline_status.go:108-144 | a finished Job is read with the same result ever after |
| Invariants.FinalPhaseKeptExact | internal/controller/pipeline_status.go:42-92 | looking again at a finished step keeps its phase exactly when the Job is gone, shows the same result, or shows none and is idle |
| Invariants.ObserveJobsKeepsCore | internal/controller/pipeline_status.go:36-105 | an observation keeps the core invariant and moves started steps to started phases only |
| Invariants.ObserveJobsKeepsJobs | internal/controller/pipeline_status.go:36-105 | while no Job is replaced it moves Running and Suspended steps only, and finished steps stay settled |
| Invariants.PassVerdictKeepsCore | internal/controller/pipeline_reconciler.go:193-231 | writing a verdict keeps the core invariant: it is true of the steps and agrees with condition and completion time |
| Invariants.StartKeepsCore | internal/controller/pipeline_jobs.go:69-81 | starting a step keeps the core invariant and changes only that step |
| Invariants.NextKeepsCore | internal/controller/pipeline_reconciler.go:72-131 | every controller or cluster step keeps the core invariant and moves phases as observation, skip or start |
| Invariants.NextKeepsInv | internal/controller/pipeline_reconciler.go:72-131 | while no Job is replaced every step also keeps every finished step's Job showing its result, and observations never move a finished step |
| Invariants.ControllerReplacesNothing | internal/controller/pipeline_jobs.go:69-81 | no step of the controller creates a Job under the name of a started step |
| Invariants.RunKeepsCore | internal/controller/pipeline_reconciler.go:234-262 | in every persisted state of every run the entries are absent or match the spec in order, a Job name is recorded exactly for started steps, and verdict, condition, completion time and finalizer agree |
| Invariants.RunKeepsInv | internal/controller/pipeline_status.go:36-105 | in every state of a lasting run, too, the Job of a started step is the pipeline's own and a finished one shows the step's result |
| RunProperties.DecisionIsFinal | internal/controller/pipeline_jobs.go:36-82 | in every run a started step stays started, a skipped one skipped, and none returns to Pending |
| RunProperties.LifecycleExact | internal/controller/pipeline_status.go:42-92 | a step of a run moves every phase along the lifecycle exactly unless it is an observation that reads the Job of a finished step with another result |
| RunProperties.LifecycleInRun | internal/controller/pipeline_status.go:42-92 | in lasting runs phases move Pending to Running or Skipped, Running to and from Suspended, either to Succeeded or Failed, and no other way |
| RunProperties.FinalPhaseStays | docs/conditional-execution.md:41-44 | a final step phase is final over any stretch of any lasting run |
| RunProperties.VerdictExact | internal/controller/pipeline_reconciler.go:145-217 | a pass ends the pipeline exactly when nothing runs or is suspended and whatever is Pending is given up because of a failure it does not handle; otherwise it reports Running and Suspended as the steps show |
| RunProperties.VerdictIsFinal | internal/controller/pipeline_controller.go:91-96 | after Succeeded or Failed no event changes any part of the status |
| RunProperties.VerdictIsSound | internal/controller/pipeline_reconciler.go:193-217 | Succeeded means all Succeeded or Skipped; Failed means a failure, nothing running or suspended, no pending handler; condition and completion time agree |
| RunProperties.CompletionTimeWrittenOnce | internal/controller/pipeline_reconciler.go:204-214 | the completion time never changes once set |
| RunProperties.NoJobOutlivesPipeline | internal/controller/pipeline_reconciler.go:34-69 | when the pipeline object is gone, none of its Jobs is left |
| RunProperties.DecisionsStayJustified | internal/controller/pipeline_jobs.go:36-82 | in steady runs every started step meets its start condition, and every skipped one its skip condition, on the current phases, and all they look at is final |
| RunProperties.StartedAfterSuccesses | docs/conditional-execution.md:145-153 | in steady runs a started step without runIf follows successes only |
| RunProperties.SteadyExact | internal/controller/pipeline_dependencies.go:59-100 | all decisions of a lasting run are justified in all its states exactly when no step is ever decided while a step it looks at is Suspended |
| RunProperties.OrDecidesOnFinalList | internal/controller/pipeline_dependencies.go:154-195 | in steady runs an or step leaves Pending only when every listed step exists and is final, and it starts exactly when one of them ended as wanted |
| RunProperties.CleanUpGuaranteed | internal/controller/pipeline_reconciler.go:184-217 | in steady runs, when the pipeline is over, every any-failure handler with a failed listed step has been run to its end and no step with a fail condition is Pending |
| RunProperties.StartedConditionsStay | internal/controller/pipeline_dependencies.go:176-195 | in every lasting run, suspended Jobs or not, every step with runIf that has started still meets its start condition |
| RunProperties.ComplementaryBranches | internal/controller/pipeline_dependencies.go:150-195 | in lasting runs success-of-all and failure-of-any steps on the same list never both start; in steady runs, with nothing listed skipped, a Succeeded pipeline ran exactly the first |
| RunProperties.LostJobHangs | internal/controller/pipeline_status.go:52-66 | a step whose Job goes while it is Running or Suspended keeps its phase in every lasting continuation, and the pipeline never ends |
| RunProperties.SequentialShape | internal/controller/pipeline_dependencies.go:41-101 | in steady runs without runIf every state is successes, then one step in any phase but Skipped, then Pending steps |
| RunProperties.WeightFalls | internal/controller/pipeline_status.go:108-144 | the lifecycle never raises the weight, and any change but suspending and resuming lowers it |
| RunProperties.BoundedChanges | internal/controller/pipeline_jobs.go:33-85 | an n-step pipeline makes progress at most 2n times in any lasting run, however often Jobs are suspended, and the remaining weight bounds the rest |
| JobCreation.OnlyStartsCreate | internal/controller/pipeline_jobs.go:69-81 | a step's Job comes into being exactly in a controller step that starts the Pending step or loses that start |
| JobCreation.CreationAccount | internal/controller/pipeline_jobs.go:33-149 | conservation over whole runs: creations equal unrecorded Jobs lost, plus one if the step is recorded as started or its Job exists |
| JobCreation.AtMostOnceExact | docs/conditional-execution.md:39-44 | a step's Job is created at most once exactly when no unrecorded Job was lost, or one was and nothing is left of the step |
| JobCreation.AtMostOnceWhileJobsStay | docs/conditional-execution.md:39-44 | while Jobs are not removed, failing calls and retries never create a step's Job twice |
| JobCreation.TakenNameBlocks | internal/controller/pipeline_jobs.go:69-73 | while its Job name is taken a step that is due stays Pending throughout a lasting run and the pipeline does not succeed |
| Fate.FateIsFixed | internal/controller/pipeline_dependencies.go:29-195 | the fate that the outcomes determine is a fixed point of the waiting rules, reached within n rounds |
| Fate.FinishesAsDelivered | internal/controller/pipeline_status.go:36-105 | a step finishes only as its own Job does |
| Fate.RunFollowsFate | internal/controller/pipeline_dependencies.go:29-195 | in every persisted state of every steady run every final phase is the step's fate, and only steps whose fate is to start have started; which steps get there is stated by FinishedRunLeaves and DueStepExact |
| Fate.RunsAgree | internal/controller/pipeline_dependencies.go:29-195 | any two steady runs with the same Job outcomes agree on every step both have decided |
| Fate.VerdictFollowsFate | internal/controller/pipeline_reconciler.go:145-217 | a finished pipeline is Failed exactly when some fate is to fail, and a Succeeded one has every phase equal to its fate |
| Fate.VerdictsAgree | internal/controller/pipeline_reconciler.go:145-217 | two finished steady runs with the same outcomes report the same verdict |
| Fate.FinishedRunLeaves | internal/controller/pipeline_reconciler.go:104-123 | a finished run leaves every step at its fate, or Pending without a fail condition in a Failed pipeline |
| Fate.PlainResultsAgree | internal/controller/pipeline_reconciler.go:104-123 | without runIf any two finished steady runs with the same outcomes leave the same phases |
| Deadlock.StuckStaysPending | internal/controller/pipeline_dependencies.go:154-183 | steps that wait for each other or for missing steps stay Pending in every run, and the pipeline never succeeds |
| Deadlock.StuckHandlerNeverEnds | internal/controller/pipeline_reconciler.go:184-217 | if one of them has a fail condition the pipeline never ends, not even as Failed |
| Deadlock.NeverDecidedExact | internal/controller/pipeline_dependencies.go:29-195 | the waiting rules give a step no fate, whatever the outcomes, exactly when it belongs to such a set |
| Deadlock.WholeResultExact | internal/controller/pipeline_reconciler.go:104-123 | a finished run leaves every step at its fate exactly when every step it leaves Pending still waits |
| Deadlock.StuckExact | internal/controller/pipeline_dependencies.go:154-183 | such sets exist exactly when a listed step is missing or there is a dependency cycle |
| Deadlock.EverythingDecidedExact | internal/controller/pipeline_dependencies.go:29-195 | the waiting rules give every step a fate, whatever the outcomes, exactly when nothing is missing and there is no cycle |
| Deadlock.ConditionalFirstStepSticks | internal/controller/pipeline_dependencies.go:51-55 | with a conditional first step the whole pipeline is stuck |
| Deadlock.SuccessRanFirstStep | internal/controller/pipeline_dependencies.go:51-55 | in every run, a pipeline that reports success has run its first step, which has no runIf |
| PassEffect.ObservationExact | internal/controller/pipeline_status.go:36-105 | an observation on which no call fails turns every started step whose Job is there into what the Job shows, in memory and in the store |
| PassEffect.WalkExact | internal/controller/pipeline_jobs.go:33-85 | a walk on which no call fails and no name is taken computes exactly the step-by-step decisions, each counting for the steps after it, and creates exactly the started steps' Jobs |
| PassEffect.WalkOnlyDecides | internal/controller/pipeline_jobs.go:36-82 | the walk starts and skips Pending steps and changes no decided step |
| PassEffect.WalkDecides | internal/controller/pipeline_jobs.go:33-85 | the walk starts or skips every Pending step that is due when it begins, as it is due then |
| Schedules.WalkJobsAre | internal/controller/pipeline_jobs.go:69-81 | it creates a Job for exactly the steps it turns from Pending to Running |
| PassEffect.NamesStayFree | internal/controller/pipeline_jobs.go:69-81 | the names of the steps it leaves Pending are still free after it |
| PassEffect.PassExact | internal/controller/pipeline_controller.go:54-100 | the whole pass: it ends the pipeline exactly when nothing is left to do on what it has seen, and otherwise leaves exactly the phases and Jobs of the walk and asks to be called again |
| PassEffect.DueStepExact | internal/controller/pipeline_reconciler.go:104-123 | a step that a pass sees due is decided by it, as it is due, exactly unless some step seen has failed, none runs or is suspended, and no Pending one has a fail condition; then the pipeline ends Failed |
| Liveness.ContinuesLowersWeight | internal/controller/pipeline_reconciler.go:72-131 | no pass, failing call or step of the cluster raises the weight |
| Liveness.WalkRestsExact | internal/controller/pipeline_jobs.go:36-82 | a walk changes nothing exactly when every Pending step waits |
| Liveness.PassIdlesExact | internal/controller/pipeline_reconciler.go:72-131 | a pass achieves nothing exactly when work is left, no active step is seen to have finished and every Pending step waits |
| Liveness.SoundRests | internal/controller/pipeline_reconciler.go:145-217 | in a sound pipeline, once nothing is active and every Pending step waits, the verdict is final |
| Liveness.PassLowersWeight | internal/controller/pipeline_reconciler.go:72-131 | where that is so, a pass that finds nothing active, or something finished, ends the pipeline or lowers its weight, suspended steps or not |
| Liveness.PassLowersRemaining | internal/controller/pipeline_reconciler.go:72-131 | such a pass ends the pipeline or lowers the number of steps that are not final, plus one while nothing is active |
| Liveness.ContinuesLowersRemaining | internal/controller/pipeline_reconciler.go:72-131 | nothing that happens raises that number |
| Liveness.ProductivePassesEnd | internal/controller/pipeline_reconciler.go:72-131 | termination for every schedule: in the life of a sound n-step pipeline there are at most n + 1 such passes, the last of them ends it, and until then that number bounds those still to come; this whatever happens before, between and after them: failing passes, Jobs that change, vanish or belong to others, all but the replacement of a started step's Job |
| Liveness.SeenFollows | internal/controller/pipeline_status.go:36-105 | what a pass sees follows the fate when the state does and the Jobs deliver |
| Liveness.ProductivePassesEndExact | internal/controller/pipeline_reconciler.go:72-131 | for every pipeline, sound or not: after n + 1 productive passes in a history that follows the fate it has ended exactly when no step is without a fate, or some fate is to fail and no step with a fail condition is without one |
| Liveness.RipePassesEnd | internal/controller/pipeline_reconciler.go:72-131 | passes in a row over a sound pipeline, from a state in which no Job has the name of a Pending step, while the Jobs run at their own pace: at most n + 1 find nothing active, or something finished, and the last of these ends the pipeline, however many others there are |
| Liveness.ObservationSees | internal/controller/pipeline_status.go:36-105 | when all Jobs have finished an observation turns every Running step into Succeeded or Failed and touches no other phase |
| Liveness.PassDecides | internal/controller/pipeline_reconciler.go:72-131 | then a pass ends the pipeline, or decides every step whose dependencies it saw final and asks for the next pass |
| Liveness.PassStaysReachable | internal/controller/pipeline_controller.go:54-100 | any pass with any failing call leads from a reachable state to a reachable state |
| Liveness.TerminatesWithinBound | internal/controller/pipeline_reconciler.go:72-131 | from any reachable initialised state in which no Job has the name of a Pending step, n + 1 passes without failing calls, before each of which all running Jobs finish, end a sound pipeline of n steps, as a special case |
| LongestRun.BoundIsMet | internal/controller/pipeline_reconciler.go:72-131 | the bound is exact: for every n there is a sound pipeline of n steps with such passes of which n do not end it and n + 1 do, all of them productive |
| Liveness.EagerRunEndsExact | internal/controller/pipeline_reconciler.go:72-131 | such passes have ended a pipeline, sound or not, exactly when no step is without a fate, or some fate is to fail and no step with a fail condition is without one |
| Liveness.RestingWalkExact | internal/controller/pipeline_jobs.go:36-82 | with nothing running, suspended or name-blocked, a walk changes nothing exactly when the Pending steps are stuck |
| Liveness.NeverForgotten | internal/controller/pipeline_reconciler.go:108-131 | a pass without error stops asking for passes exactly when the stored phase is final |
| Examples.SuspensionBreaksJustification | internal/controller/pipeline_dependencies.go:65-78 | an execution without failing calls or lost Jobs in which a step runs behind a failed one, by way of Suspended |
| Examples.SuspensionBreaksFate | internal/controller/pipeline_dependencies.go:65-78 | it goes on until the second step has Succeeded although its fate is to be skipped |
| Schedules.ResultDependsOnSchedule | internal/controller/pipeline_reconciler.go:104-123 | two executions of one sound pipeline with the same outcomes: in one a due step is given up and stays Pending, in the other it is run |
| Examples.ReplacementReopensStep | internal/controller/pipeline_status.go:42-92 | an execution without failing calls in which a pass turns a Succeeded step back to Running after another pipeline's step has taken the name of its removed Job |
| Examples.CreatedTwice | internal/controller/pipeline_jobs.go:69-81 | two passes that each create the one step's Job, the first cut short before the status write, with the Job removed in between |
| Examples.DeletedJobHangs | internal/controller/pipeline_status.go:52-66 | an execution in which a Job succeeds and is deleted before the next pass, and whatever can follow leaves the step Running and the pipeline without an end |
| Examples.ExecutionReaches | internal/controller/pipeline_controller.go:54-100 | every state of an execution in which no Job is replaced is the end of a lasting run |
| Examples.EagerRunExample | internal/controller/pipeline_reconciler.go:72-131 | what the bounds assume can happen: a one-step pipeline, started by the first pass and reported Succeeded by the second |
| Walks.NewEdgeClosesCycle | ui/src/lib/graph-layout.ts:177-199 | on an acyclic edge set a new edge closes a cycle exactly when its target already reaches its source |
| Walks.CycleExact | ui/src/lib/graph-layout.ts:177-230 | a cycle is a walk along edges back to its first node, a self-loop included |
| GraphLayout.CycleFinder.AddEdge | ui/src/lib/graph-layout.ts:188-199 | the adjacency map gains exactly the given edge |
| GraphLayout.CycleFinder.HasCycle | ui/src/lib/graph-layout.ts:205-220 | the search from a node finds a real cycle, or leaves the node in a closed, cycle-free set; it terminates on the unvisited nodes |
| GraphLayout.CycleFinder.ExploreAll | ui/src/lib/graph-layout.ts:209-216 | the loop over the neighbours finds a real cycle or finishes every neighbour and restores the stack |
| GraphLayout.CycleFinder.SearchFrom | ui/src/lib/graph-layout.ts:222-227 | a search from a key finds a real cycle, or leaves the key in a closed, cycle-free set of visited nodes |
| GraphLayout.BuildAdjacency | ui/src/lib/graph-layout.ts:186-199 | the adjacency map holds exactly the given edges and the new one |
| GraphLayout.WouldCreateCycle | ui/src/lib/graph-layout.ts:180-230 | true iff the edges with the new one contain a directed cycle, self-loops included |
| GraphLayout.ConnectListed | ui/src/lib/graph-layout.ts:43-58 | one edge per listed step that exists, in list order, with its kind and defaulted data |
| GraphLayout.PipelineToGraph | ui/src/lib/graph-layout.ts:24-72 | nodes and edges in order, node by node and edge by edge |
| GraphLayout.StatusFound | ui/src/lib/graph-layout.ts:31 | a node carries the first status entry with the step's name, and none when no entry has it |
| GraphLayout.AlignedStatusFound | ui/src/lib/graph-layout.ts:31 | with one entry per step in order, each node carries the entry at its position |
| GraphLayout.EdgesIntoExact | ui/src/lib/graph-layout.ts:42-69 | the edges into a step, with id, ends, kind and defaulted data: one for each listed step that exists, in list order, or one from the step before it |
| GraphLayout.EdgesInStepOrder | ui/src/lib/graph-layout.ts:42-69 | the drawing is the edges into the first step, then those into the second, and so on |
| GraphAgreement.DrawnKinds | ui/src/lib/graph-layout.ts:42-69 | an edge into a step is a failure edge iff the step has a fail condition and a sequential one iff it has no runIf |
| GraphAgreement.DrawnIsEnforced | ui/src/lib/graph-layout.ts:42-69 | every edge drawn is a dependency the controller enforces |
| GraphAgreement.AgreementExact | ui/src/lib/graph-layout.ts:42-69 | drawing and controller agree on what leads to what exactly when every earlier step leads to every unconditional one in the drawing |
| GraphAgreement.CyclesAgree | ui/src/lib/graph-layout.ts:42-69 | a drawn cycle is real, and where the list order shows every real cycle is drawn |
| GraphAgreement.PlainFirstShowsSequence | ui/src/lib/graph-layout.ts:59-68 | with the unconditional steps first the drawing shows the list order |
| GraphAgreement.DrawingHidesDeadlock | ui/src/lib/graph-layout.ts:59-68 | a pipeline with an acyclic drawing and a cyclic dependency relation |
| GraphAgreement.HiddenListsExist | ui/src/lib/graph-layout.ts:59-68 | that pipeline names no missing step and is not sound |
| GraphAgreement.EnforcedCycles | internal/controller/pipeline_dependencies.go:29-195 | the dependency graph on names and the one on positions have cycles together |
| GraphAgreement.AcyclicDrawingIsSound | ui/src/lib/graph-layout.ts:180-230 | where the drawing shows the list order, an acyclic drawing without missing names is exactly what termination needs |
| WatchStream.SplitThenJoin | ui/src/lib/k8s-client.ts:133 | splitting at newlines loses nothing |
| WatchStream.JoinThenSplit | ui/src/lib/k8s-client.ts:133 | splitting is the only way to cut a text into newline-free lines |
| WatchStream.SplitOfOne | ui/src/lib/k8s-client.ts:133 | a text without a newline is one piece |
| WatchStream.SplitAtNewline | ui/src/lib/k8s-client.ts:133 | a newline separates the pieces before it from those after it |
| WatchStream.LinesAtNewline | ui/src/lib/k8s-client.ts:133-134 | what was received up to a newline are lines, and what follows the last is kept |
| WatchStream.SolidLineIsKept | ui/src/lib/k8s-client.ts:136-137 | a line with a character that trim does not remove is handed on, in its place |
| WatchStream.PrintableLineIsKept | ui/src/lib/k8s-client.ts:136-137 | so is every line with a printable ASCII character, whatever blanks it has |
| WatchStream.SpaceLineIsDropped | ui/src/lib/k8s-client.ts:136-137 | the empty line and lines of such blanks only are not handed on |
| WatchStream.SplitAppend | ui/src/lib/k8s-client.ts:132-134 | later text can only extend the unfinished line |
| WatchStream.Watch.Receive | ui/src/lib/k8s-client.ts:132-145 | one turn hands on the complete non-blank lines in order and keeps the rest |
| WatchStream.Watch.Run | ui/src/lib/k8s-client.ts:125-146 | the whole loop hands on the non-blank newline-terminated lines of the concatenation and keeps the text after the last newline |
| WatchStream.HandedIsFraming | ui/src/lib/k8s-client.ts:125-146 | chunk by chunk gives the same as all at once |
| WatchStream.ChunkingDoesNotMatter | ui/src/lib/k8s-client.ts:125-146 | two ways of cutting the same stream hand on the same lines |
| WatchStream.StreamHandsOn | ui/src/lib/k8s-client.ts:125-146 | in a stream cut anyhow, a line with a printable character is handed on between what comes from before and after it |
| WatchStream.StreamDrops | ui/src/lib/k8s-client.ts:125-146 | and a line of spaces, tabs and carriage returns leaves no trace |
| FreshNames.DecimalReadsBack | ui/src/components/builder/pipeline-canvas.ts:503 | the rendered counter reads back, so different counters give different names |
| FreshNames.DecimalDigits | ui/src/components/builder/pipeline-canvas.ts:503 | the counter is rendered in decimal: the digits of the tens and then the last digit |
| FreshNames.TakenNamesBound | ui/src/components/builder/pipeline-canvas.ts:501-504 | only as many numbered names can be taken as there are taken names |
| FreshNames.StripUndoesCopy | ui/src/components/builder/pipeline-canvas.ts:503 | stripping a generated copy name gives its stem back, so copies of copies stay in one family |
| FreshNames.StemIsItsOwn | ui/src/components/builder/pipeline-canvas.ts:503 | a name that does not end in -copy or -copy- and digits is its own stem |
| FreshNames.StemLosesEnding | ui/src/components/builder/pipeline-canvas.ts:503 | a name that does loses exactly that ending |
| FreshNames.PlacedExact | ui/src/components/builder/pipeline-canvas.ts:517-521 | the steps of a copy stand below each other in order, 120 apart |
| FreshNames.PipelineCanvas.LoadFromCopiedPipeline | ui/src/components/builder/pipeline-canvas.ts:490-534 | the copy gets the first free name after at most one turn more than there are names, and its steps, placed, when it has any |
| FreshNames.PipelineCanvas.LoadExistingPipelines | ui/src/components/builder/pipeline-canvas.ts:537-566 | a new pipeline gets the first free name after at most as many turns as there are names; nothing changes when the listing fails |

## Left out

- ApiServer: reads are current. A read from a stale cache is not modelled; the write that follows it would be refused by the server, a create before it would not.
- ReconcilePass: the cluster does not move during a pass. Each Job name is read or created at most once in a pass, so a change in the middle of a pass can be placed before or after it.
- UniqueNames: step names are assumed unique, as the type's comment promises; with duplicate names every lookup means the first entry.
- Run: the spec does not change while the pipeline runs, and no second pipeline of the same name is created.
- Gate: the transition system lets steps start or skip whenever a failure may still be handled, which allows more runs than the verdict taken at the start of each pass does.
- Exclusive: of Complete, Failed and Suspended at most one is True on a Job that has changed, and a True Complete or Failed stays. The API server's own guarantees are not part of this model.
- FinalPhaseStays: and the theorems for lasting and steady runs assume that no Job takes the name of a started step's vanished Job; `ReplacementReopensStep` shows that they are false without it.
- DecisionsStayJustified: and the theorems built on it are for steady runs; `SteadyExact` shows that they need to be.
- ProductivePassesEnd: counts passes on which no call fails and whose step names are free; nothing is said about how soon the work queue comes round to one, or whether a Job ever finishes.
- TerminatesWithinBound: and RipePassesEnd and EagerRunEndsExact assume that no Job has the name of a Pending step in the first state, that no call fails, and that between two passes Jobs only change; a Job that holds such a name blocks its step, as `TakenNameBlocks` shows.
- FateIsFixed: the fate is what the waiting rules make of the outcomes; it says nothing about steps that the verdict gives up on.
- CreateJobForStep: models name, pipeline label and creation; not the step label and the Job defaults (pod template, shared volume, service account, backoff), which nothing reads back. A failing owner reference leaves the same store as a failing create.
- UpdateConditions: models type, status and reason; message text and transition time are not modelled.
- Durations and log output; times are opaque numbers handed in by the caller.
- shouldSkipStep, a constant false placeholder.
- The Go client, its cache, leader election, metrics, TLS and generated copies.
- ELK layout, YAML, JSON parsing, fetch, the retry timer of the watch, and text decoding; a chunk is decoded text.
- streamPodLogs, which splits every chunk on its own and does not have the framing property.
- The components of the web interface other than the two naming loops, and namespaces, of which one is modelled.
