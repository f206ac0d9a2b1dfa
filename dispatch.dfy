/** The `CdkDeployDispatchWorkflow` constructor of
    src/CdkDeployDispatchWorkflow.ts: a `workflow_dispatch` workflow whose
    `environment` input offers one choice per stage, and one job per stage
    that runs only when the chosen environment is that stage's. */
module Dispatch {
  import opened Wrappers
  import opened Types
  import JobLoop

  /** `DeployDispatchInternalOptions`, plus the `workingDirectory` the
      constructor reads (line 31). */
  datatype DispatchOptions = DispatchOptions(
    stages: seq<Stage>,
    pkgNamespace: string,
    appName: string,
    stackPrefix: string,
    iamRoleArn: string,
    iamRoleRegion: string,
    nodeVersion: string,
    cdkCommand: string,
    installCommand: string,
    workingDirectory: Option<string>)

  /** The choices of the `environment` input and the job graph. */
  datatype DispatchWorkflow = DispatchWorkflow(environmentChoices: seq<string>, jobs: JobGraph)

  function DefaultsOf(o: DispatchOptions): Defaults {
    Defaults(o.stackPrefix, o.iamRoleArn, o.iamRoleRegion, o.cdkCommand)
  }

  const GuardPrefix: string := "github.event.inputs.environment == '"

  /** The `if` expression of a job (line 80). */
  function Guard(env: string): string {
    GuardPrefix + env + "'"
  }

  /** Reads back the environment a guard compares against. */
  function GuardEnvironment(g: string): (r: Option<string>)
    ensures r.Some? ==> Guard(r.value) == g
  {
    var n := |GuardPrefix|;
    if |g| > n && g[..n] == GuardPrefix && g[|g| - 1] == '\'' then
      assert g == g[..n] + g[n..|g| - 1] + [g[|g| - 1]];
      Some(g[n..|g| - 1])
    else None
  }

  /** The package the job downloads: `<pkgNamespace>/<appName>`. */
  function PackageName(o: DispatchOptions): string {
    o.pkgNamespace + "/" + o.appName
  }

  /** The job written for one stage (lines 67-131). */
  function DispatchJob(o: DispatchOptions, s: Stage): Job {
    var res := Resolve(DefaultsOf(o), s);
    Job(
      "Deploy " + s.name + " (manual)",
      Some(Guard(res.githubEnv)),
      None,
      Some(res.githubEnv),
      Some(Concurrency(res.jobId, false)),
      Permissions(Read, Read, Some(Write)),
      if Truthy(o.workingDirectory) then o.workingDirectory else None,
      [ Checkout(false),
        SetupNode(o.nodeVersion),
        InstallDependencies(o.installCommand),
        DownloadVersionedAssembly(PackageName(o)),
        AwsCredentials(res.roleArn, res.roleRegion),
        Deploy(s.name, res.deployCommand) ])
  }

  /** The options of the `environment` input (lines 42-44): each stage's
      GitHub environment, its name when it has none, in declaration order. */
  function Choices(stages: seq<Stage>): (r: seq<string>)
    ensures |r| == |stages|
    ensures forall i :: 0 <= i < |stages| ==> r[i] == stages[i].environment.GetOr(stages[i].name)
  {
    seq(|stages|, i requires 0 <= i < |stages| => stages[i].environment.GetOr(stages[i].name))
  }

  /** What the constructor builds: one choice per stage in declaration
      order, one job id per stage, and for each id the job of the last stage
      that wrote it. */
  ghost predicate IsDispatchWorkflow(o: DispatchOptions, w: DispatchWorkflow) {
    && w.environmentChoices == Choices(o.stages)
    && w.jobs.Keys == JobIds(o.stages, false)
    && (forall i :: 0 <= i < |o.stages| && IsLastWithId(o.stages, i, false) ==>
          JobId(o.stages[i].name) in w.jobs && w.jobs[JobId(o.stages[i].name)] == DispatchJob(o, o.stages[i]))
  }

  /** The constructor (lines 20-135), without the writing of the workflow. */
  method CdkDeployDispatchWorkflow(o: DispatchOptions) returns (w: DispatchWorkflow)
    ensures IsDispatchWorkflow(o, w)
  {
    var stages := o.stages;
    var choices := Choices(stages);
    ghost var ids := JobIdList(stages);
    ghost var skip := Skipped(stages, false);
    ghost var vals := seq(|stages|, j requires 0 <= j < |stages| => DispatchJob(o, stages[j]));
    var jobs: JobGraph := map[];
    for i := 0 to |stages|
      invariant JobLoop.WrittenLast(ids, skip, vals, i, map[], jobs)
    {
      var stage := stages[i];
      JobLoop.WriteStep(ids, skip, vals, i, map[], jobs);
      jobs := jobs[JobId(stage.name) := DispatchJob(o, stage)];
    }
    forall i | 0 <= i < |stages| && IsLastWithId(stages, i, false)
      ensures JobId(stages[i].name) in jobs && jobs[JobId(stages[i].name)] == DispatchJob(o, stages[i])
    {
      assert !skip[i];
      assert ids[i] == JobId(stages[i].name) && vals[i] == DispatchJob(o, stages[i]);
    }
    w := DispatchWorkflow(choices, jobs);
  }

  // ---------------------------------------------------------------------
  // Lemmas

  /** The guard of an environment reads back as that environment. */
  lemma GuardRoundTrip(env: string)
    ensures GuardEnvironment(Guard(env)) == Some(env)
  {
    var g := Guard(env);
    var n := |GuardPrefix|;
    assert g[..n] == GuardPrefix;
    assert g[n..|g| - 1] == env;
  }

  /** Two different environments never share a guard. */
  lemma GuardInjective(a: string, b: string)
    requires Guard(a) == Guard(b)
    ensures a == b
  {
    GuardRoundTrip(a);
    GuardRoundTrip(b);
  }

  /** Every dispatch job is gated on its own GitHub environment, which is one
      of the offered choices; no job waits for another; the working directory
      is attached exactly when a truthy one was given. */
  lemma DispatchJobsGated(o: DispatchOptions, w: DispatchWorkflow)
    requires IsDispatchWorkflow(o, w)
    ensures forall id :: id in w.jobs ==> w.jobs[id].needs.None?
    ensures forall id :: id in w.jobs ==>
      && w.jobs[id].guard.Some? && w.jobs[id].environment.Some?
      && GuardEnvironment(w.jobs[id].guard.value) == w.jobs[id].environment
      && w.jobs[id].environment.value in w.environmentChoices
    ensures forall id :: id in w.jobs ==>
      w.jobs[id].workingDirectory == (if Truthy(o.workingDirectory) then o.workingDirectory else None)
  {
    forall id | id in w.jobs
      ensures w.jobs[id].needs.None?
      ensures w.jobs[id].guard.Some? && w.jobs[id].environment.Some?
      ensures GuardEnvironment(w.jobs[id].guard.value) == w.jobs[id].environment
      ensures w.jobs[id].environment.value in w.environmentChoices
      ensures w.jobs[id].workingDirectory == (if Truthy(o.workingDirectory) then o.workingDirectory else None)
    {
      var k := LastWriterOf(o, w, id);
      var env := o.stages[k].environment.GetOr(o.stages[k].name);
      assert w.jobs[id] == DispatchJob(o, o.stages[k]);
      GuardRoundTrip(env);
      assert w.environmentChoices[k] == env;
    }
  }

  /** When no two stages share a job id, every choice selects exactly the
      job of its own stage. */
  lemma EveryChoiceSelectsItsStage(o: DispatchOptions, w: DispatchWorkflow)
    requires IsDispatchWorkflow(o, w)
    requires DistinctJobIds(o.stages)
    ensures forall i :: 0 <= i < |o.stages| ==>
      && JobId(o.stages[i].name) in w.jobs
      && w.jobs[JobId(o.stages[i].name)].guard == Some(Guard(w.environmentChoices[i]))
      && w.jobs[JobId(o.stages[i].name)].name == "Deploy " + o.stages[i].name + " (manual)"
  {
    forall i | 0 <= i < |o.stages|
      ensures JobId(o.stages[i].name) in w.jobs
      ensures w.jobs[JobId(o.stages[i].name)].guard == Some(Guard(w.environmentChoices[i]))
      ensures w.jobs[JobId(o.stages[i].name)].name == "Deploy " + o.stages[i].name + " (manual)"
    {
      ChoiceSelectsItsStage(o, w, i);
    }
  }

  /** The same for one stage: its job holds its own dispatch job. */
  lemma ChoiceSelectsItsStage(o: DispatchOptions, w: DispatchWorkflow, i: int)
    requires IsDispatchWorkflow(o, w)
    requires DistinctJobIds(o.stages)
    requires 0 <= i < |o.stages|
    ensures JobId(o.stages[i].name) in w.jobs
    ensures w.jobs[JobId(o.stages[i].name)] == DispatchJob(o, o.stages[i])
    ensures w.jobs[JobId(o.stages[i].name)].guard == Some(Guard(w.environmentChoices[i]))
  {
    DistinctIsLast(o.stages, i, false);
    var ids := JobIdList(o.stages);
    assert ids[i] == JobId(o.stages[i].name);
    assert !Skipped(o.stages, false)[i];
    assert ids[i] in JobIds(o.stages, false);
  }

  /** Every job of the workflow is the one its last writing stage built. */
  lemma LastWriterOf(o: DispatchOptions, w: DispatchWorkflow, id: string) returns (k: int)
    requires IsDispatchWorkflow(o, w) && id in w.jobs
    ensures 0 <= k < |o.stages| && JobId(o.stages[k].name) == id
    ensures w.jobs[id] == DispatchJob(o, o.stages[k])
  {
    var ids := JobIdList(o.stages);
    var skip := Skipped(o.stages, false);
    var i :| 0 <= i < |o.stages| && !skip[i] && ids[i] == id;
    k := JobLoop.LastExists(ids, skip, i);
    assert IsLastWithId(o.stages, k, false);
  }
}
