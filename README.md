# cdk-deploy-pr-github-action, modelled in Dafny

`cdk-deploy-pr-github-action` is a projen construct. It turns a list of
named deployment stages into two GitHub Actions workflows:

- `deploy.yml` has a `synth` job, a `publish-assets` job and one deploy job
  per automatic stage. Each deploy job `needs` the jobs of the stages it
  depends on.
- `deploy-dispatch.yml` has one job per stage. The `environment` input of a
  `workflow_dispatch` run selects which job runs.

Before it builds anything, the pipeline constructor validates the stage
list. It rejects, in this order:

- an empty list;
- an unknown dependency, then a self-dependency;
- an automatic stage that depends on a manual one;
- a dependency cycle;
- a missing package namespace.

The project models the part of the construct that decides what gets
built:

- `names.dfy` (module `Names`) holds the two name normalisers of
  `src/utils.ts`, `toKebabCase` and `toGithubJobId`. They are pure
  functions over ASCII strings, and each regex replace is written out as a
  recursive function.
- `cycles.dfy` (module `Cycles`) holds `validateNoCycles`. It is
  imperative: a class `CycleSearch` with the mutable sets `visited` and
  `inStack`, the recursive method `Visit`, and the outer loop. It is proved
  to terminate, and to return normally exactly when the stage graph has no
  cycle. The walk it reports holds a genuine cycle.
- `types.dfy` (module `Types`) holds the records of `src/types.ts`, the
  job records, the errors, and the per-stage resolution rules shared by
  both builders.
- `jobloop.dfy` (module `JobLoop`) holds the bookkeeping of a loop that
  assigns `jobs[id] = job` into a JavaScript object, where the last write
  to a key wins. Both builders' loops are proved against it.
- `pipeline.dfy` (module `Pipeline`) holds the `CdkDeployPipeline`
  constructor as methods with loops:
  - the validation loops;
  - the two fixed jobs;
  - the per-stage loop with its `continue` and its `addTask`;
  - the dispatch gate.

  The constructor returns a `Result` instead of throwing.
- `dispatch.dfy` (module `Dispatch`) holds the `CdkDeployDispatchWorkflow`
  constructor: the environment choices and the gated job loop.
- `properties.dfy` (module `Properties`) holds what the two builders
  guarantee together:
  - every `needs` entry names a job;
  - `needs` is acyclic when job ids are distinct;
  - manual stages only appear in the dispatch workflow;
  - a dispatch job deploys exactly like its automatic twin.
- `scenarios.dfy` (module `Scenarios`) holds the stage lists of
  `test/main.test.ts` and what the model proves about each of them.

Four behaviours of the code worth knowing:

- **`toGithubJobId` is not idempotent.** `""` becomes `"s-"`, which
  becomes `"s"`. `Names.JobIdIdempotentIff` proves that it is idempotent
  exactly when the cleaned input is non-empty.
- **The cycle report is not only the loop.** The reported walk is the
  search path followed by the repeated name, so it can start with names
  that are not on the loop. `Cycles.ReportedCycleHasCycle` locates the
  cycle inside it.
- **Stage names are never checked for uniqueness.** Two names with the
  same kebab-case (`a` and `A`) share one job id, and the later stage's job
  overwrites the earlier one's. `Scenarios.CaseCollisionNeedsCycle` shows
  that the resulting `deploy.yml` can contain a `needs` cycle.
- **The working directory is never passed on.** The pipeline constructor
  does not read `workingDirectory` and does not pass it to the dispatch
  builder. The model passes `None`. `Properties.NoWorkingDirectory` proves
  that no job of either workflow sets a working directory. So the tests at
  test/main.test.ts lines 302-317, 319-333 and 350-366 do not hold of the
  code as written, and the one at lines 368-381 does.

## Model

| member | source | states |
|---|---|---|
| Names.ReplaceRunsShape | src/utils.ts:6 | the result is no longer than the input and holds only hyphens and characters of the kept class; when hyphens are not kept it has no `--`, and its kept characters are the input's, in order |
| Names.RunBecomesOneHyphen | src/utils.ts:6 | a maximal run of characters outside the class, between kept characters or an end of the string, becomes exactly one hyphen, and the text on either side is replaced independently |
| Names.KebabOfTwoWords | src/utils.ts:4-9 | two words of letters and digits around any run of other characters become the lower-cased words joined by a single hyphen |
| Names.TrimHyphens | src/utils.ts:7 | the result is the window of the input between its leading and its trailing hyphen runs, both all hyphens, and has no edge hyphen |
| Names.KebabShape | src/utils.ts:4-9 | every result holds only `a-z`, `0-9` and `-`, has no leading or trailing hyphen and no `--` |
| Names.KebabFixesKebab | src/utils.ts:5-8 | a string already in kebab case is left unchanged |
| Names.KebabIdempotent | src/utils.ts:5-8 | kebab-casing twice equals kebab-casing once |
| Names.KebabKeepsAlnum | src/utils.ts:5-8 | the letters and digits of the result are those of the input, lower-cased, in the same order |
| Names.KebabEmptyIff | src/utils.ts:5-8 | the result is empty exactly when the input has no ASCII letter or digit |
| Names.KebabOfAlnum | src/utils.ts:5-8 | a name of letters and digits only is just lower-cased |
| Names.CleanShape | src/utils.ts:16-19 | after the three replaces and the lower-casing only `a-z`, `0-9`, `_` and single inner hyphens remain |
| Names.CleanFixesClean | src/utils.ts:16-19 | a string of that shape passes the three replaces and the lower-casing unchanged |
| Names.ToGithubJobId | src/utils.ts:12-23 | the job id is never empty, starts with a letter or `_`, and holds only `a-z`, `0-9`, `_` and `-` |
| Names.JobIdPrefixRule | src/utils.ts:20-22 | `s-` is prepended exactly when the cleaned string is empty or starts with a digit; otherwise the cleaned string is returned |
| Names.JobIdIdempotentIff | src/utils.ts:15-24 | applying `toGithubJobId` twice equals applying it once exactly when the cleaned input is non-empty |
| Names.JobIdOfEmpty | src/utils.ts:20-22 | `""` becomes `"s-"` |
| Names.JobIdOfSHyphen | src/utils.ts:16-22 | `"s-"` becomes `"s"`, which breaks idempotence |
| Names.ReplaceRunsIdentity | src/utils.ts:6 | a string of kept characters and single hyphens is left unchanged by a run replace |
| Names.TrimIdentity | src/utils.ts:7 | a string without edge hyphens is left unchanged by the trim |
| Names.KeptOfTrim | src/utils.ts:7 | trimming hyphens removes no letter or digit |
| Cycles.CycleSearch.constructor | src/utils.ts:33-35 | the search starts with empty `visited` and `inStack` over the stage map |
| Cycles.CycleSearch.Visit | src/utils.ts:37-55 | terminates, since every recursive call has one more name of the finite universe on the stack; a normal return leaves `inStack` as it was and `name` visited, with every edge from a visited name leading to an earlier-finished one; a throw reports `path + [name]` extended to a walk of distinct names closed by a repeat |
| Cycles.CycleSearch.Finish | src/utils.ts:53-54 | `name` leaves the stack and joins `visited` after everything it depends on |
| Cycles.CycleSearch.VisitAll | src/utils.ts:57-59 | on normal return `inStack` is empty and every stage name is visited; a reported walk starts at a stage name |
| Cycles.ValidateNoCycles | src/utils.ts:30-60 | returns normally exactly when the stage graph is acyclic (names without a stage are leaves); a reported walk is a walk of distinct names closed by a repeat, starting at a stage name |
| Cycles.RankedIsAcyclic | src/utils.ts:53-59 | finishing times that drop along every edge rule out every cycle |
| Cycles.RankDropsAlongPath | src/utils.ts:53-54 | the finishing time strictly drops along a walk |
| Cycles.ReportedCycleHasCycle | src/utils.ts:38-41 | the suffix of the reported walk from the first occurrence of its last name is a genuine cycle |
| Cycles.ExtendPath | src/utils.ts:49-50 | the path handed to a recursive `visit` is still a walk of the graph |
| Types.Dedup | src/CdkDeployPipeline.ts:44-50 | the `Available:` list holds exactly the stage names, each once |
| Types.DedupOrder | src/CdkDeployPipeline.ts:44-50 | the `Available:` list is in the order of each name's first occurrence, as `new Set` iterates; with `Types.Dedup` this fixes the list |
| Types.FindIndex | src/CdkDeployPipeline.ts:64 | `stages.find` stops at the first stage of that name |
| Types.StageMap | src/utils.ts:35 | the map's keys are the stage names, and a name maps to the dependencies of its last stage |
| Types.JobIdNotFixed | src/CdkDeployPipeline.ts:224 | a deploy job id is never `synth` or `publish-assets` |
| Types.JobIdIsGithubJobId | src/CdkDeployPipeline.ts:224 | when the stage name has a letter or digit, `deploy-<kebab>` is already a legal GitHub job id |
| Types.JobIdIsClean | src/CdkDeployPipeline.ts:224 | when the stage name has a letter or digit, `deploy-<kebab>` has only job-id characters, no doubled hyphen and no hyphen at either end |
| Types.DistinctIsLast | src/CdkDeployPipeline.ts:246 | with distinct job ids, every stage makes the write of its id that stays |
| Types.DeployCommandOfOne | src/CdkDeployPipeline.ts:242-244 | the command for one stack is its single `cdk deploy` invocation |
| Types.DeployCommandSplits | src/CdkDeployPipeline.ts:242-244 | the command for several stacks is the first invocation, ` && `, then the rest |
| JobLoop.WrittenStep | src/CdkDeployPipeline.ts:246 | one more iteration adds its key unless it is skipped |
| JobLoop.SkipStep | src/CdkDeployPipeline.ts:223 | a skipped iteration keeps the last-writer invariant |
| JobLoop.WriteStep | src/CdkDeployDispatchWorkflow.ts:78 | an assignment `jobs[id] = job` keeps the last-writer invariant |
| JobLoop.LastBeforeShrinks | src/CdkDeployPipeline.ts:246 | a last writer over more iterations is one over fewer |
| JobLoop.LastExists | src/CdkDeployDispatchWorkflow.ts:66-78 | every written key has a last writer |
| JobLoop.LastWriter | src/CdkDeployDispatchWorkflow.ts:66-78 | after the loop every written key holds its last writer's value |
| Pipeline.CheckDependencies | src/CdkDeployPipeline.ts:44-58 | no error exactly when every dependency names another stage; otherwise the error of the first violation in stage order then dependency order, the unknown-name error before the self-dependency one |
| Pipeline.CheckManualOrdering | src/CdkDeployPipeline.ts:61-72 | no error exactly when no automatic stage depends on a manual one; otherwise the first such error |
| Pipeline.Validate | src/CdkDeployPipeline.ts:40-80 | each check in order decides the error: empty list, dependencies, manual ordering, cycle (a reported walk from a stage), missing `pkgNamespace`; no error exactly for accepted options |
| Pipeline.FixedJobs | src/CdkDeployPipeline.ts:96-219 | the record holds exactly the `synth` and `publish-assets` jobs |
| Pipeline.AddDeployJobs | src/CdkDeployPipeline.ts:222-307 | the keys are the fixed ones plus the ids of the automatic stages; the fixed jobs are untouched; each id holds the job of its last automatic stage; the tasks are those of the automatic stages in order |
| Pipeline.AutoStages | src/CdkDeployPipeline.ts:222-223 | the stages kept are exactly the non-manual ones |
| Pipeline.TaskListOfAutoStages | src/CdkDeployPipeline.ts:300-306 | the k-th task is the local task of the k-th automatic stage |
| Pipeline.TaskListStep | src/CdkDeployPipeline.ts:223 | one more stage adds its task unless it is manual |
| Pipeline.FixedIdsNotWritten | src/CdkDeployPipeline.ts:224 | no stage's job id overwrites `synth` or `publish-assets` |
| Pipeline.DeployJobsWritten | src/CdkDeployPipeline.ts:222-307 | the loop's last-writer invariant gives the deploy record |
| Pipeline.CdkDeployPipeline | src/CdkDeployPipeline.ts:24-326 | the validation errors in their order; on success the branch, the deploy record, the tasks, and a dispatch workflow exactly when `manualDeployment` and `useGithubPackagesForAssembly` both hold |
| Dispatch.Choices | src/CdkDeployDispatchWorkflow.ts:42-44 | one choice per stage in declaration order, the stage's environment or else its name |
| Dispatch.GuardEnvironment | src/CdkDeployDispatchWorkflow.ts:80 | an environment read back from a guard rebuilds that guard |
| Dispatch.CdkDeployDispatchWorkflow | src/CdkDeployDispatchWorkflow.ts:20-135 | the choices are those of every stage; the keys are the job ids of all stages; each id holds the dispatch job of its last stage |
| Dispatch.GuardRoundTrip | src/CdkDeployDispatchWorkflow.ts:80 | the guard of an environment reads back as that environment |
| Dispatch.GuardInjective | src/CdkDeployDispatchWorkflow.ts:80 | different environments have different guards |
| Dispatch.DispatchJobsGated | src/CdkDeployDispatchWorkflow.ts:34-131 | no job has `needs`; every guard compares against the job's own environment, which is an offered choice; the working directory is attached exactly when it is truthy |
| Dispatch.ChoiceSelectsItsStage | src/CdkDeployDispatchWorkflow.ts:42-80 | with distinct job ids, the i-th choice's guard is on the i-th stage's own job |
| Dispatch.EveryChoiceSelectsItsStage | src/CdkDeployDispatchWorkflow.ts:42-80 | the same for every stage, with the job's name |
| Dispatch.LastWriterOf | src/CdkDeployDispatchWorkflow.ts:66-78 | every job is the dispatch job of the last stage with its id |
| Properties.DependencyTargetWritten | src/CdkDeployPipeline.ts:44-72 | in an accepted list a dependency of an automatic stage is an automatic stage, so its job id is written |
| Properties.NeedsWritten | src/CdkDeployPipeline.ts:233-240 | each `needs` entry is `publish-assets` or the job id of an automatic stage |
| Properties.DeployJobNeedsClosed | src/CdkDeployPipeline.ts:233-248 | every `needs` entry of a deploy job names a job of the record |
| Properties.BuiltNeedsClosed | src/CdkDeployPipeline.ts:210-248 | in `deploy.yml` every `needs` entry names a job |
| Properties.DeployJobSettings | src/CdkDeployPipeline.ts:224-254 | the deploy job is named after the stage, has no guard, takes the stage's environment override or else its name, and has the stage's concurrency group and the deploy permissions |
| Properties.DeployJobCommands | src/CdkDeployPipeline.ts:242-296 | the deploy job has six steps; the credentials step takes the stage's role and region overrides or else the pipeline's, and the deploy step runs the cdk command over the stage's stacks or else `<prefix>-<name>` |
| Properties.NoWorkingDirectory | src/CdkDeployPipeline.ts:313-325 | no job of `deploy.yml` or `deploy-dispatch.yml` sets a working directory |
| Properties.PublishStepsIff | src/CdkDeployPipeline.ts:142-206 | the assembly-package steps are present exactly when GitHub Packages is used, after six fixed steps |
| Properties.FixedJobsNeeds | src/CdkDeployPipeline.ts:99-210 | `synth` needs nothing and `publish-assets` needs `synth` |
| Properties.AutoStageHasItsJob | src/CdkDeployPipeline.ts:222-246 | with distinct job ids every automatic stage's job is its own |
| Properties.AutoStageNeeds | src/CdkDeployPipeline.ts:233-248 | that job waits for the deploy jobs of the stage's dependencies, in order, or for `publish-assets` when there are none |
| Properties.CycleAvoidsFixedJobs | src/CdkDeployPipeline.ts:208-210 | no `needs` cycle passes through a fixed job |
| Properties.NeedsEntryIsDependency | src/CdkDeployPipeline.ts:233-237 | a `needs` entry that is a deploy job id belongs to one of the stage's dependencies |
| Properties.DistinctStageMap | src/utils.ts:35 | with distinct job ids the stage map gives each stage its own dependencies |
| Properties.DeployJobAt | src/CdkDeployPipeline.ts:246-248 | with distinct job ids an id's job needs what its stage needs |
| Properties.NeedsEdgeIsDependency | src/CdkDeployPipeline.ts:233-237 | a `needs` edge between deploy jobs is a dependency edge between their stages |
| Properties.StageCycleOf | src/CdkDeployPipeline.ts:74 | a `needs` cycle through deploy jobs names a cycle of stages |
| Properties.BuiltNeedsAcyclic | src/CdkDeployPipeline.ts:74-248 | with distinct job ids the `needs` relation of `deploy.yml` has no cycle |
| Properties.ManualStageHasNoDeployJob | src/CdkDeployPipeline.ts:222-223 | a manual stage gets no job in `deploy.yml` when no automatic stage shares its job id |
| Properties.DispatchCoversEveryStage | src/CdkDeployPipeline.ts:313-325 | every stage, manual or not, has a dispatch job, and there is one choice per stage |
| Properties.DispatchSharesDeploySettings | src/CdkDeployDispatchWorkflow.ts:67-92 | a stage's dispatch job has its deploy job's environment, concurrency group and permissions |
| Properties.DispatchStepsMatchDeploy | src/CdkDeployDispatchWorkflow.ts:94-130 | the dispatch steps are the deploy steps with the artifact download replaced by the versioned package download |
| Scenarios.JobIdOfAlnum | src/CdkDeployPipeline.ts:224 | a letters-and-digits name's job id is `deploy-` and the lower-cased name |
| Scenarios.DifferentLengthsDifferentIds | src/CdkDeployPipeline.ts:224 | two such names of different lengths have different job ids |
| Scenarios.DistinctLengthsDistinctIds | src/CdkDeployPipeline.ts:224 | such stages with pairwise different name lengths have distinct job ids |
| Scenarios.DefaultCommands | test/main.test.ts:20-38 | with no cdk command and no stacks given, a stage deploys the stack `<prefix>-<name>` with `npx cdk deploy … --require-approval never --app cdk.out`, and `synth` runs `npx cdk synth` |
| Scenarios.TwoStacksCommand | test/main.test.ts:135-149 | two custom stacks are deployed one after the other, joined by ` && ` |
| Scenarios.CircularStagesRejected | test/main.test.ts:165-178 | `A` and `B` depending on each other pass the earlier checks but have a cycle |
| Scenarios.UnknownDependencyRejected | test/main.test.ts:151-163 | a dependency on `NonExistent` is the first error and lists `Dev` |
| Scenarios.AutoAfterManualRejected | test/main.test.ts:253-266 | an automatic stage depending on a manual one is rejected, naming both |
| Scenarios.StageMapOfThree | src/utils.ts:35 | the stage map of three distinctly named stages |
| Scenarios.ThreeStagesAcyclic | test/main.test.ts:61-81 | the three-stage graph has no cycle |
| Scenarios.ThreeStagesValid | test/main.test.ts:61-81 | the three-stage list passes every check |
| Scenarios.ThreeStagesDistinct | test/main.test.ts:61-81 | its job ids are distinct |
| Scenarios.IndependentStagesWaitForAssets | test/main.test.ts:40-59 | stages without dependencies wait only for `publish-assets` |
| Scenarios.DependsOnWaits | test/main.test.ts:61-81 | `Production` waits for the deploy jobs of `Sandbox` and `Dev`, in that order |
| Scenarios.NeedsOfTwo | src/CdkDeployPipeline.ts:234-237 | two dependencies give two job-id needs in order |
| Scenarios.DevAndProductionValid | test/main.test.ts:268-284 | both dev/production lists, manual or not, pass every check |
| Scenarios.DevAndProductionDistinct | test/main.test.ts:192-211 | their job ids are distinct |
| Scenarios.ManualStageNotInDeploy | test/main.test.ts:228-251 | the manual `Production` stage has no job in `deploy.yml`; `Dev` has one |
| Scenarios.ManualStageInDispatch | test/main.test.ts:228-251 | both stages have a dispatch job |
| Scenarios.DispatchChoices | test/main.test.ts:192-211 | the choices are `development` and `production`, in stage order |
| Scenarios.DispatchGuards | test/main.test.ts:209-210 | each dispatch job is gated on its own environment |
| Scenarios.CaseCollisionValid | src/CdkDeployPipeline.ts:40-80 | a stage named by any lower-case letter, then one named by its upper-case twin that depends on it (`a`, then `A`), pass every check |
| Scenarios.CaseCollisionSameId | src/CdkDeployPipeline.ts:224 | yet the two share one job id (`deploy-a`) |
| Scenarios.CaseCollisionSameLower | src/utils.ts:8 | a lower-case letter and its upper-case twin lower-case to the same letter |
| Scenarios.CaseCollisionSelfNeeds | src/CdkDeployPipeline.ts:233-248 | so the surviving job needs its own id |
| Scenarios.CaseCollisionNeedsCycle | src/CdkDeployPipeline.ts:233-248 | and `deploy.yml` holds a `needs` cycle |
| Scenarios.NeedsOfOne | src/CdkDeployPipeline.ts:234-237 | one dependency gives one job-id need |
| Scenarios.SelfNeedsIsCycle | src/CdkDeployPipeline.ts:246-248 | a job that needs itself is a cycle |

## Left out

- The writing of the workflows is not modelled: `GitHub`, `GithubWorkflow`, `workflow.on`, `workflow.addJobs` and the YAML rendering are projen library code. The model returns the job records and the task list that would be handed over. `project.github ?? new GitHub(project)` is not modelled either.
- `project.addTask` is modelled as appending to a task list. What projen does when two tasks share a name is not modelled.
- Steps keep only the parts that vary with the options: action versions, registry URLs, secret expressions, the `cdk-assets` loop and the npm/jq scripts are constants implied by each step kind.
- `runsOn: ['ubuntu-latest']`, `env: { CI: 'true' }` and the `workflow_dispatch` version input are the same for every job and are not stored.
- `appName` (line 93 of src/CdkDeployPipeline.ts) is an input of the constructor, because it comes from the projen project.
- Working-directory normalisation and artifact-path rewriting are not modelled, because the code does not do them. The pipeline never reads `workingDirectory` and does not pass it on. The dispatch builder's handling of a given one is modelled.
- The Go bindings under `cdkdeployprgithubaction/` are generated proxies and are not modelled.
- `toLowerCase` is modelled on ASCII only. After the replaces only ASCII letters, digits, `_` and `-` remain, so nothing else can reach it.
- The region fallback `stage.env.region` is not modelled: the pipeline-level region always has a value, so that branch can never be taken.
- Properties.BuiltNeedsAcyclic: holds only when no two stages share a job id. The code does not check this, and Scenarios.CaseCollisionNeedsCycle shows what goes wrong without it.
- Dispatch.EveryChoiceSelectsItsStage: holds only for distinct job ids, for the same reason. Otherwise Dispatch.LastWriterOf still ties each job to its last stage.
