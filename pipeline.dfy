/** The `CdkDeployPipeline` constructor of src/CdkDeployPipeline.ts: it
    validates the stage list, fills the job record of `deploy.yml` (a synth
    job, an asset-publish job and one deploy job per automatic stage),
    registers one local deploy task per automatic stage, and builds the
    dispatch workflow when both `manualDeployment` and
    `useGithubPackagesForAssembly` are on. */
module Pipeline {
  import opened Wrappers
  import opened Types
  import JobLoop
  import Cycles
  import Dispatch

  /** `CdkDeployPipelineOptions` (src/types.ts:68-122); an absent optional
      field is `None`. */
  datatype PipelineOptions = PipelineOptions(
    pkgNamespace: string,
    stackPrefix: string,
    iamRoleArn: string,
    iamRoleRegion: Option<string>,
    nodeVersion: Option<string>,
    cdkCommand: Option<string>,
    installCommand: Option<string>,
    stages: seq<Stage>,
    manualDeployment: Option<bool>,
    useGithubPackagesForAssembly: Option<bool>,
    branchName: Option<string>)

  /** A local task registered with `project.addTask`. */
  datatype Task = Task(name: string, description: string, exec: string)

  /** What the constructor hands to the project: the push branch of
      `deploy.yml`, its job record, the local tasks in registration order,
      and the dispatch workflow when one is built. */
  datatype PipelineOutput = PipelineOutput(
    branch: string,
    jobs: JobGraph,
    tasks: seq<Task>,
    dispatch: Option<Dispatch.DispatchWorkflow>)

  // ---------------------------------------------------------------------
  // The destructuring defaults (lines 25-37)

  function RegionOf(o: PipelineOptions): string { o.iamRoleRegion.GetOr("us-east-1") }
  function NodeVersionOf(o: PipelineOptions): string { o.nodeVersion.GetOr("24.x") }
  function CdkCommandOf(o: PipelineOptions): string { o.cdkCommand.GetOr("npx cdk") }
  function InstallCommandOf(o: PipelineOptions): string {
    o.installCommand.GetOr("yarn install --check-files --frozen-lockfile")
  }
  predicate ManualDeploymentOf(o: PipelineOptions) { o.manualDeployment.GetOr(true) }
  predicate UsesPackages(o: PipelineOptions) { o.useGithubPackagesForAssembly.GetOr(true) }
  function BranchOf(o: PipelineOptions): string { o.branchName.GetOr("main") }

  function DefaultsOf(o: PipelineOptions): Defaults {
    Defaults(o.stackPrefix, o.iamRoleArn, RegionOf(o), CdkCommandOf(o))
  }

  // ---------------------------------------------------------------------
  // Validation rules (lines 40-80)

  /** Entry `j` of stage `i`'s `dependsOn` names no stage, or names stage
      `i` itself. */
  predicate DependencyViolation(stages: seq<Stage>, i: int, j: int)
    requires 0 <= i < |stages| && 0 <= j < |Deps(stages[i])|
  {
    var d := Deps(stages[i])[j];
    d !in NameSet(stages) || d == stages[i].name
  }

  /** The error thrown for a dependency violation: the unknown-name check
      comes first (lines 48-55). */
  function DependencyError(stages: seq<Stage>, i: int, j: int): Error
    requires 0 <= i < |stages| && 0 <= j < |Deps(stages[i])|
  {
    var d := Deps(stages[i])[j];
    if d !in NameSet(stages) then UnknownDependency(stages[i].name, d, Dedup(NameList(stages)))
    else SelfDependency(stages[i].name)
  }

  /** No dependency violation before entry `j` of stage `i`, in stage order
      and then dependency order. */
  ghost predicate NoDependencyViolationBefore(stages: seq<Stage>, i: int, j: int)
    requires 0 <= i <= |stages|
  {
    && (forall a, b :: 0 <= a < i && 0 <= b < |Deps(stages[a])| ==> !DependencyViolation(stages, a, b))
    && (i < |stages| ==> forall b :: 0 <= b < j && b < |Deps(stages[i])| ==> !DependencyViolation(stages, i, b))
  }

  predicate DependenciesOk(stages: seq<Stage>) {
    forall a, b :: 0 <= a < |stages| && 0 <= b < |Deps(stages[a])| ==> !DependencyViolation(stages, a, b)
  }

  /** `e` is the error of the first dependency violation. */
  ghost predicate IsFirstDependencyError(stages: seq<Stage>, e: Error) {
    exists i, j :: 0 <= i < |stages| && 0 <= j < |Deps(stages[i])|
      && DependencyViolation(stages, i, j) && NoDependencyViolationBefore(stages, i, j)
      && e == DependencyError(stages, i, j)
  }

  /** Automatic stage `i` depends, through entry `j`, on a stage whose first
      declaration is manual (lines 62-65). */
  predicate OrderingViolation(stages: seq<Stage>, i: int, j: int)
    requires 0 <= i < |stages| && 0 <= j < |Deps(stages[i])|
  {
    var f := Find(stages, Deps(stages[i])[j]);
    !IsManual(stages[i]) && f.Some? && IsManual(f.value)
  }

  ghost predicate NoOrderingViolationBefore(stages: seq<Stage>, i: int, j: int)
    requires 0 <= i <= |stages|
  {
    && (forall a, b :: 0 <= a < i && 0 <= b < |Deps(stages[a])| ==> !OrderingViolation(stages, a, b))
    && (i < |stages| ==> forall b :: 0 <= b < j && b < |Deps(stages[i])| ==> !OrderingViolation(stages, i, b))
  }

  predicate ManualOrderingOk(stages: seq<Stage>) {
    forall a, b :: 0 <= a < |stages| && 0 <= b < |Deps(stages[a])| ==> !OrderingViolation(stages, a, b)
  }

  /** `e` is the error of the first ordering violation. */
  ghost predicate IsFirstOrderingError(stages: seq<Stage>, e: Error) {
    exists i, j :: 0 <= i < |stages| && 0 <= j < |Deps(stages[i])|
      && OrderingViolation(stages, i, j) && NoOrderingViolationBefore(stages, i, j)
      && e == ManualDependency(stages[i].name, Deps(stages[i])[j])
  }

  /** The stage list passes every check up to and including cycle
      detection. */
  ghost predicate StagesOk(stages: seq<Stage>) {
    && stages != []
    && DependenciesOk(stages)
    && ManualOrderingOk(stages)
    && Cycles.Acyclic(StageMap(stages))
  }

  /** The options the constructor accepts. */
  ghost predicate WellFormed(o: PipelineOptions) {
    StagesOk(o.stages) && (UsesPackages(o) ==> o.pkgNamespace != "")
  }

  // ---------------------------------------------------------------------
  // The jobs and tasks built (lines 98-307)

  function SetupSteps(o: PipelineOptions, fullHistory: bool): seq<Step> {
    [Checkout(fullHistory), SetupNode(NodeVersionOf(o)), InstallDependencies(InstallCommandOf(o))]
  }

  /** The `synth` job (lines 99-139). */
  function SynthJob(o: PipelineOptions): Job {
    Job("Synthesize CDK application", None, None, None, None,
        Permissions(Read, Read, None), None,
        SetupSteps(o, true) + [Synthesize(CdkCommandOf(o) + " synth"), UploadAssembly])
  }

  /** The steps of the `publish-assets` job (lines 142-206): the assembly
      package steps only when GitHub Packages is used. */
  function PublishSteps(appName: string, o: PipelineOptions): seq<Step> {
    SetupSteps(o, true)
    + [DownloadAssembly, AwsCredentials(o.iamRoleArn, RegionOf(o)), PublishAssets]
    + (if UsesPackages(o) then
         [ConfigureGitIdentity, CreateAssemblyPackage(o.pkgNamespace + "/" + appName), PublishAssembly]
       else [])
  }

  /** The `publish-assets` job (lines 208-219). */
  function PublishAssetsJob(appName: string, o: PipelineOptions): Job {
    Job("Publish assets to AWS", None, Some(["synth"]), None, None,
        Permissions(Write, Write, Some(Write)), None, PublishSteps(appName, o))
  }

  /** The `needs` of a stage's deploy job (lines 233-240). */
  function Needs(s: Stage): seq<string> {
    var deps := Deps(s);
    if |deps| > 0 then seq(|deps|, k requires 0 <= k < |deps| => JobId(deps[k]))
    else ["publish-assets"]
  }

  /** The deploy job of an automatic stage (lines 224-298). */
  function DeployJob(o: PipelineOptions, s: Stage): Job {
    var res := Resolve(DefaultsOf(o), s);
    Job(
      "Deploy " + s.name,
      None,
      Some(Needs(s)),
      Some(res.githubEnv),
      Some(Concurrency(res.jobId, false)),
      Permissions(Read, Read, Some(Write)),
      None,
      SetupSteps(o, false)
      + [DownloadAssembly, AwsCredentials(res.roleArn, res.roleRegion), Deploy(s.name, res.deployCommand)])
  }

  /** The `exec` of a local task: like the job's command, without `--app`. */
  function LocalCommand(cdkCommand: string, stacks: seq<string>): string {
    Join(seq(|stacks|, i requires 0 <= i < |stacks| => cdkCommand + " deploy " + stacks[i] + " --require-approval never"), " && ")
  }

  /** The task of an automatic stage (lines 301-306). */
  function LocalTask(o: PipelineOptions, s: Stage): Task {
    var res := Resolve(DefaultsOf(o), s);
    Task("deploy:" + s.name, "Deploy to " + s.name, LocalCommand(CdkCommandOf(o), res.stacks))
  }

  /** The automatic stages, in declaration order. */
  function AutoStages(stages: seq<Stage>): (r: seq<Stage>)
    ensures |r| <= |stages|
    ensures forall s :: s in r <==> s in stages && !IsManual(s)
  {
    if stages == [] then []
    else
      var init := stages[..|stages| - 1];
      var last := stages[|stages| - 1];
      assert stages == init + [last];
      AutoStages(init) + (if IsManual(last) then [] else [last])
  }

  /** The tasks registered by the loop over `stages`. */
  function TaskList(o: PipelineOptions, stages: seq<Stage>): seq<Task> {
    if stages == [] then []
    else
      var init := stages[..|stages| - 1];
      var last := stages[|stages| - 1];
      TaskList(o, init) + (if IsManual(last) then [] else [LocalTask(o, last)])
  }

  /** The tasks are the local tasks of the automatic stages, in declaration
      order. */
  lemma {:induction false} TaskListOfAutoStages(o: PipelineOptions, stages: seq<Stage>)
    ensures |TaskList(o, stages)| == |AutoStages(stages)|
    ensures forall k :: 0 <= k < |TaskList(o, stages)| ==> TaskList(o, stages)[k] == LocalTask(o, AutoStages(stages)[k])
  {
    if stages != [] {
      var init := stages[..|stages| - 1];
      var last := stages[|stages| - 1];
      TaskListOfAutoStages(o, init);
      var t, a := TaskList(o, init), AutoStages(init);
      var t', a' := TaskList(o, stages), AutoStages(stages);
      if IsManual(last) {
        assert t' == t && a' == a;
      } else {
        assert t' == t + [LocalTask(o, last)] && a' == a + [last];
        TasksOfAppended(o, t, a, last);
      }
    }
  }

  lemma TasksOfAppended(o: PipelineOptions, t: seq<Task>, a: seq<Stage>, last: Stage)
    requires |t| == |a| && forall k :: 0 <= k < |t| ==> t[k] == LocalTask(o, a[k])
    ensures forall k :: 0 <= k < |t| + 1 ==> (t + [LocalTask(o, last)])[k] == LocalTask(o, (a + [last])[k])
  {
    forall k | 0 <= k < |t| + 1 ensures (t + [LocalTask(o, last)])[k] == LocalTask(o, (a + [last])[k]) {
      if k < |t| {
        assert (t + [LocalTask(o, last)])[k] == t[k] && (a + [last])[k] == a[k];
      }
    }
  }

  /** The options handed to the dispatch builder (lines 314-324); no
      working directory is passed. */
  function DispatchOptionsOf(appName: string, o: PipelineOptions): Dispatch.DispatchOptions {
    Dispatch.DispatchOptions(o.stages, o.pkgNamespace, appName, o.stackPrefix, o.iamRoleArn,
      RegionOf(o), NodeVersionOf(o), CdkCommandOf(o), InstallCommandOf(o), None)
  }

  /** The deploy jobs of the record: each job id an automatic stage writes
      holds the job of the last automatic stage that writes it. */
  ghost predicate DeployJobsOf(o: PipelineOptions, jobs: JobGraph) {
    forall i :: 0 <= i < |o.stages| && !IsManual(o.stages[i]) && IsLastWithId(o.stages, i, true) ==>
      JobId(o.stages[i].name) in jobs && jobs[JobId(o.stages[i].name)] == DeployJob(o, o.stages[i])
  }

  /** The job record of `deploy.yml`: the two fixed jobs and one deploy job
      per job id of an automatic stage. */
  ghost predicate DeployRecord(appName: string, o: PipelineOptions, jobs: JobGraph) {
    && jobs.Keys == {"synth", "publish-assets"} + JobIds(o.stages, true)
    && jobs["synth"] == SynthJob(o)
    && jobs["publish-assets"] == PublishAssetsJob(appName, o)
    && DeployJobsOf(o, jobs)
  }

  /** What a successful run of the constructor produces. */
  ghost predicate Builds(appName: string, o: PipelineOptions, out: PipelineOutput) {
    && out.branch == BranchOf(o)
    && DeployRecord(appName, o, out.jobs)
    && out.tasks == TaskList(o, o.stages)
    && (out.dispatch.Some? <==> ManualDeploymentOf(o) && UsesPackages(o))
    && (out.dispatch.Some? ==> Dispatch.IsDispatchWorkflow(DispatchOptionsOf(appName, o), out.dispatch.value))
  }

  // ---------------------------------------------------------------------
  // The constructor

  /** Lines 44-58. */
  method CheckDependencies(stages: seq<Stage>) returns (r: Option<Error>)
    ensures r.None? <==> DependenciesOk(stages)
    ensures r.Some? ==> IsFirstDependencyError(stages, r.value)
  {
    var stageNames := NameSet(stages);
    for i := 0 to |stages|
      invariant NoDependencyViolationBefore(stages, i, 0)
    {
      var stage := stages[i];
      if stage.dependsOn.Some? {
        var deps := stage.dependsOn.value;
        for j := 0 to |deps|
          invariant NoDependencyViolationBefore(stages, i, j)
        {
          var dep := deps[j];
          if dep !in stageNames {
            assert DependencyViolation(stages, i, j);
            return Some(UnknownDependency(stage.name, dep, Dedup(NameList(stages))));
          }
          if dep == stage.name {
            assert DependencyViolation(stages, i, j);
            return Some(SelfDependency(stage.name));
          }
        }
      }
    }
    return None;
  }

  /** Lines 61-72. */
  method CheckManualOrdering(stages: seq<Stage>) returns (r: Option<Error>)
    ensures r.None? <==> ManualOrderingOk(stages)
    ensures r.Some? ==> IsFirstOrderingError(stages, r.value)
  {
    for i := 0 to |stages|
      invariant NoOrderingViolationBefore(stages, i, 0)
    {
      var stage := stages[i];
      if !IsManual(stage) && stage.dependsOn.Some? {
        var deps := stage.dependsOn.value;
        for j := 0 to |deps|
          invariant NoOrderingViolationBefore(stages, i, j)
        {
          var dep := deps[j];
          var depStage := Find(stages, dep);
          if depStage.Some? && IsManual(depStage.value) {
            assert OrderingViolation(stages, i, j);
            return Some(ManualDependency(stage.name, dep));
          }
        }
      }
    }
    return None;
  }

  /** The checks of lines 40-80, in order; the first one that fails decides
      the error. */
  method Validate(o: PipelineOptions) returns (r: Option<Error>)
    ensures r == Some(EmptyStages) <==> o.stages == []
    ensures o.stages != [] && !DependenciesOk(o.stages) ==>
      r.Some? && IsFirstDependencyError(o.stages, r.value)
    ensures o.stages != [] && DependenciesOk(o.stages) && !ManualOrderingOk(o.stages) ==>
      r.Some? && IsFirstOrderingError(o.stages, r.value)
    ensures o.stages != [] && DependenciesOk(o.stages) && ManualOrderingOk(o.stages)
            && !Cycles.Acyclic(StageMap(o.stages)) ==>
      && r.Some? && r.value.CircularDependency?
      && Cycles.ReportedCycle(StageMap(o.stages), r.value.path)
      && r.value.path[0] in NameSet(o.stages)
    ensures StagesOk(o.stages) && UsesPackages(o) && o.pkgNamespace == "" ==>
      r == Some(MissingPkgNamespace)
    ensures r.None? <==> WellFormed(o)
  {
    var stages := o.stages;
    if |stages| == 0 {
      return Some(EmptyStages);
    }
    var depError := CheckDependencies(stages);
    if depError.Some? {
      return depError;
    }
    var orderError := CheckManualOrdering(stages);
    if orderError.Some? {
      return orderError;
    }
    var cycle := Cycles.ValidateNoCycles(stages);
    if cycle.Fail? {
      return Some(CircularDependency(cycle.error));
    }
    if UsesPackages(o) && o.pkgNamespace == "" {
      return Some(MissingPkgNamespace);
    }
    return None;
  }

  /** The `synth` and `publish-assets` jobs (lines 96-219). */
  method FixedJobs(appName: string, o: PipelineOptions) returns (jobs: JobGraph)
    ensures jobs == map["synth" := SynthJob(o), "publish-assets" := PublishAssetsJob(appName, o)]
  {
    jobs := map[];
    jobs := jobs["synth" := SynthJob(o)];
    var publishSteps := SetupSteps(o, true)
      + [DownloadAssembly, AwsCredentials(o.iamRoleArn, RegionOf(o)), PublishAssets];
    if UsesPackages(o) {
      publishSteps := publishSteps
        + [ConfigureGitIdentity, CreateAssemblyPackage(o.pkgNamespace + "/" + appName), PublishAssembly];
    }
    assert publishSteps == PublishSteps(appName, o);
    jobs := jobs["publish-assets" := Job("Publish assets to AWS", None, Some(["synth"]), None, None,
                                         Permissions(Write, Write, Some(Write)), None, publishSteps)];
  }

  /** The loop over the stages (lines 222-307): a deploy job and a local
      task for every automatic stage, added to the jobs already there. */
  method AddDeployJobs(o: PipelineOptions, fixed: JobGraph) returns (jobs: JobGraph, tasks: seq<Task>)
    requires fixed.Keys == {"synth", "publish-assets"}
    ensures jobs.Keys == {"synth", "publish-assets"} + JobIds(o.stages, true)
    ensures jobs["synth"] == fixed["synth"] && jobs["publish-assets"] == fixed["publish-assets"]
    ensures DeployJobsOf(o, jobs)
    ensures tasks == TaskList(o, o.stages)
  {
    var stages := o.stages;
    ghost var ids := JobIdList(stages);
    ghost var skip := Skipped(stages, true);
    ghost var vals := seq(|stages|, j requires 0 <= j < |stages| => DeployJob(o, stages[j]));
    jobs := fixed;
    tasks := [];
    for i := 0 to |stages|
      invariant JobLoop.WrittenLast(ids, skip, vals, i, fixed, jobs)
      invariant tasks == TaskList(o, stages[..i])
    {
      var stage := stages[i];
      TaskListStep(o, stages, i);
      assert skip[i] == IsManual(stage);
      if IsManual(stage) {
        JobLoop.SkipStep(ids, skip, vals, i, fixed, jobs);
        continue;
      }
      var job := DeployJob(o, stage);
      assert job == vals[i];
      JobLoop.WriteStep(ids, skip, vals, i, fixed, jobs);
      jobs := jobs[JobId(stage.name) := job];
      tasks := tasks + [LocalTask(o, stage)];
    }
    assert stages[..|stages|] == stages;
    DeployJobsWritten(o, ids, skip, vals, fixed, jobs);
  }

  /** The constructor (lines 24-326), with `appName` (line 93) as an input
      and the writing of the workflows left out. */
  method CdkDeployPipeline(appName: string, o: PipelineOptions) returns (r: Result<PipelineOutput, Error>)
    ensures r == Failure(EmptyStages) <==> o.stages == []
    ensures o.stages != [] && !DependenciesOk(o.stages) ==>
      r.Failure? && IsFirstDependencyError(o.stages, r.error)
    ensures o.stages != [] && DependenciesOk(o.stages) && !ManualOrderingOk(o.stages) ==>
      r.Failure? && IsFirstOrderingError(o.stages, r.error)
    ensures o.stages != [] && DependenciesOk(o.stages) && ManualOrderingOk(o.stages)
            && !Cycles.Acyclic(StageMap(o.stages)) ==>
      && r.Failure? && r.error.CircularDependency?
      && Cycles.ReportedCycle(StageMap(o.stages), r.error.path)
      && r.error.path[0] in NameSet(o.stages)
    ensures StagesOk(o.stages) && UsesPackages(o) && o.pkgNamespace == "" ==>
      r == Failure(MissingPkgNamespace)
    ensures r.Success? <==> WellFormed(o)
    ensures r.Success? ==> Builds(appName, o, r.value)
  {
    var error := Validate(o);
    if error.Some? {
      return Failure(error.value);
    }
    var fixed := FixedJobs(appName, o);
    var jobs, tasks := AddDeployJobs(o, fixed);
    var dispatch: Option<Dispatch.DispatchWorkflow> := None;
    if ManualDeploymentOf(o) && UsesPackages(o) {
      var w := Dispatch.CdkDeployDispatchWorkflow(DispatchOptionsOf(appName, o));
      dispatch := Some(w);
    }
    return Success(PipelineOutput(BranchOf(o), jobs, tasks, dispatch));
  }

  // ---------------------------------------------------------------------
  // Lemmas

  /** No deploy job id is `synth` or `publish-assets`. */
  lemma FixedIdsNotWritten(stages: seq<Stage>)
    ensures "synth" !in JobIds(stages, true) && "publish-assets" !in JobIds(stages, true)
  {
    var ids := JobIdList(stages);
    forall j | 0 <= j < |stages| ensures ids[j] != "synth" && ids[j] != "publish-assets" {
      JobIdNotFixed(stages[j].name);
    }
  }

  /** The job record after the loop, stated in the terms of `Builds`. */
  /** One more stage adds its task, unless it is manual. */
  lemma TaskListStep(o: PipelineOptions, stages: seq<Stage>, i: int)
    requires 0 <= i < |stages|
    ensures TaskList(o, stages[..i + 1])
            == TaskList(o, stages[..i]) + (if IsManual(stages[i]) then [] else [LocalTask(o, stages[i])])
  {
    assert stages[..i + 1][..i] == stages[..i];
  }

  lemma DeployJobsWritten(o: PipelineOptions, ids: seq<string>, skip: seq<bool>, vals: seq<Job>,
                          fixed: JobGraph, jobs: JobGraph)
    requires ids == JobIdList(o.stages) && skip == Skipped(o.stages, true)
    requires vals == seq(|o.stages|, j requires 0 <= j < |o.stages| => DeployJob(o, o.stages[j]))
    requires fixed.Keys == {"synth", "publish-assets"}
    requires JobLoop.WrittenLast(ids, skip, vals, |o.stages|, fixed, jobs)
    ensures jobs.Keys == {"synth", "publish-assets"} + JobIds(o.stages, true)
    ensures jobs["synth"] == fixed["synth"] && jobs["publish-assets"] == fixed["publish-assets"]
    ensures DeployJobsOf(o, jobs)
  {
    FixedIdsNotWritten(o.stages);
    forall i | 0 <= i < |o.stages| && !IsManual(o.stages[i]) && IsLastWithId(o.stages, i, true)
      ensures JobId(o.stages[i].name) in jobs && jobs[JobId(o.stages[i].name)] == DeployJob(o, o.stages[i])
    {
      assert !skip[i] && ids[i] == JobId(o.stages[i].name) && vals[i] == DeployJob(o, o.stages[i]);
    }
  }
}
