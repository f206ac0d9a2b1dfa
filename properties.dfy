/** What the two builders guarantee about the job records they hand to the
    workflow writer: every `needs` entry names a job, the `needs` relation
    of `deploy.yml` has no cycle when no two stages share a job id, manual
    stages stay out of `deploy.yml` but get a dispatch job, and the dispatch
    job of a stage deploys it the way its automatic job does. */
module Properties {
  import opened Wrappers
  import opened Types
  import JobLoop
  import Cycles
  import Dispatch
  import opened Pipeline

  /** The `needs` relation of a job record, as a dependency graph. */
  function NeedsGraph(jobs: JobGraph): Graph {
    map id | id in jobs :: jobs[id].needs.GetOr([])
  }

  /** The automatic stage that writes job id `id`. */
  ghost function StageOf(stages: seq<Stage>, id: string): (k: int)
    requires id in JobIds(stages, true)
    ensures 0 <= k < |stages| && !IsManual(stages[k]) && JobId(stages[k].name) == id
  {
    var ids := JobIdList(stages);
    var skip := Skipped(stages, true);
    var k :| 0 <= k < |stages| && !skip[k] && ids[k] == id;
    k
  }

  // ---------------------------------------------------------------------
  // deploy.yml

  /** A dependency of an automatic stage, in an accepted stage list, is the
      name of an automatic stage, and that stage writes a deploy job. */
  lemma DependencyTargetWritten(stages: seq<Stage>, k: int, m: int) returns (f: int)
    requires DependenciesOk(stages) && ManualOrderingOk(stages)
    requires 0 <= k < |stages| && !IsManual(stages[k]) && 0 <= m < |Deps(stages[k])|
    ensures 0 <= f < |stages| && stages[f].name == Deps(stages[k])[m] && !IsManual(stages[f])
    ensures JobId(Deps(stages[k])[m]) in JobIds(stages, true)
  {
    var d := Deps(stages[k])[m];
    assert !DependencyViolation(stages, k, m);
    assert !OrderingViolation(stages, k, m);
    var s :| s in stages && s.name == d;
    var idx :| 0 <= idx < |stages| && stages[idx] == s;
    f := FindIndex(stages, d);
    assert f <= idx;
    var ids := JobIdList(stages);
    var skip := Skipped(stages, true);
    assert ids[f] == JobId(d) && !skip[f];
  }

  /** The deploy job an id holds waits only for jobs of the record. */
  lemma DeployJobNeedsClosed(o: PipelineOptions, jobs: JobGraph, id: string)
    requires DependenciesOk(o.stages) && ManualOrderingOk(o.stages) && DeployJobsOf(o, jobs)
    requires jobs.Keys == {"synth", "publish-assets"} + JobIds(o.stages, true)
    requires id in JobIds(o.stages, true)
    ensures id in jobs && jobs[id].needs.Some?
    ensures forall n :: n in jobs[id].needs.value ==> n in jobs
  {
    var stages := o.stages;
    var ids := JobIdList(stages);
    var skip := Skipped(stages, true);
    var i :| 0 <= i < |stages| && !skip[i] && ids[i] == id;
    var k := JobLoop.LastExists(ids, skip, i);
    assert IsLastWithId(stages, k, true);
    assert jobs[id].needs == Some(Needs(stages[k]));
    NeedsWritten(stages, k);
  }

  /** Each entry of an automatic stage's `needs`, in an accepted stage list,
      is `publish-assets` or the job id of an automatic stage. */
  lemma NeedsWritten(stages: seq<Stage>, k: int)
    requires DependenciesOk(stages) && ManualOrderingOk(stages)
    requires 0 <= k < |stages| && !IsManual(stages[k])
    ensures forall n :: n in Needs(stages[k]) ==> n == "publish-assets" || n in JobIds(stages, true)
  {
    forall n | n in Needs(stages[k]) ensures n == "publish-assets" || n in JobIds(stages, true) {
      if |Deps(stages[k])| > 0 {
        var needs := Needs(stages[k]);
        var m :| 0 <= m < |needs| && needs[m] == n;
        var _ := DependencyTargetWritten(stages, k, m);
      }
    }
  }

  /** In `deploy.yml` every `needs` entry names a job of the workflow: the
      validation of lines 44-72 is what rules out a dangling `needs`. */
  lemma BuiltNeedsClosed(appName: string, o: PipelineOptions, jobs: JobGraph)
    requires WellFormed(o) && DeployRecord(appName, o, jobs)
    ensures NeedsClosed(jobs)
  {
    var auto := JobIds(o.stages, true);
    FixedJobsNeeds(appName, o, jobs);
    forall id | id in auto
      ensures jobs[id].needs.Some? && forall n :: n in jobs[id].needs.value ==> n in jobs
    {
      DeployJobNeedsClosed(o, jobs, id);
    }
    NeedsClosedOfParts(jobs, auto);
  }

  /** A graph of the two fixed jobs and some deploy jobs is closed when each
      deploy job's `needs` is. */
  lemma NeedsClosedOfParts(jobs: JobGraph, auto: set<string>)
    requires jobs.Keys == {"synth", "publish-assets"} + auto
    requires jobs["synth"].needs.None? && jobs["publish-assets"].needs == Some(["synth"])
    requires forall id :: id in auto ==> jobs[id].needs.Some? && forall n :: n in jobs[id].needs.value ==> n in jobs
    ensures NeedsClosed(jobs)
  {
  }

  /** The deploy job of a stage takes each setting from the stage when it
      overrides it and from the pipeline otherwise (lines 224-254)... */
  lemma DeployJobSettings(o: PipelineOptions, s: Stage)
    ensures var j := DeployJob(o, s);
            && j.name == "Deploy " + s.name
            && j.guard.None?
            && j.environment == Some(s.environment.GetOr(s.name))
            && j.concurrency == Some(Concurrency(JobId(s.name), false))
            && j.permissions == Permissions(Read, Read, Some(Write))
  {
  }

  /** ... and so do its credentials and its deploy command (lines 242-244,
      284-296). */
  lemma DeployJobCommands(o: PipelineOptions, s: Stage)
    ensures var j := DeployJob(o, s);
            var stacks := s.stacks.GetOr([o.stackPrefix + "-" + s.name]);
            && |j.steps| == 6
            && j.steps[4] == AwsCredentials(s.iamRoleArn.GetOr(o.iamRoleArn), s.iamRoleRegion.GetOr(RegionOf(o)))
            && j.steps[5] == Deploy(s.name, DeployCommand(CdkCommandOf(o), stacks))
  {
    var res := Resolve(DefaultsOf(o), s);
    assert res.stacks == s.stacks.GetOr([o.stackPrefix + "-" + s.name]);
    assert res.deployCommand == DeployCommand(CdkCommandOf(o), res.stacks);
  }

  /** The three assembly-package steps are in `publish-assets` exactly when
      GitHub Packages is used, after the six steps it always has (lines
      142-206). */
  lemma PublishStepsIff(appName: string, o: PipelineOptions)
    ensures var p := PublishSteps(appName, o);
            && |p| == (if UsesPackages(o) then 9 else 6)
            && p[3] == DownloadAssembly && p[5] == PublishAssets
            && (PublishAssembly in p <==> UsesPackages(o))
            && (CreateAssemblyPackage(o.pkgNamespace + "/" + appName) in p <==> UsesPackages(o))
  {
    var p := PublishSteps(appName, o);
    var base := SetupSteps(o, true) + [DownloadAssembly, AwsCredentials(o.iamRoleArn, RegionOf(o)), PublishAssets];
    assert forall k :: 0 <= k < |base| ==> !base[k].PublishAssembly? && !base[k].CreateAssemblyPackage?;
    if !UsesPackages(o) {
      assert p == base;
    }
  }

  /** With no two stages sharing a job id, every automatic stage's job is
      its own. */
  lemma AutoStageHasItsJob(appName: string, o: PipelineOptions, jobs: JobGraph, i: int)
    requires DeployRecord(appName, o, jobs) && DistinctJobIds(o.stages)
    requires 0 <= i < |o.stages| && !IsManual(o.stages[i])
    ensures JobId(o.stages[i].name) in jobs && jobs[JobId(o.stages[i].name)] == DeployJob(o, o.stages[i])
  {
    DistinctIsLast(o.stages, i, true);
  }

  /** ... so it waits for the deploy jobs of the stage's dependencies, or
      for `publish-assets` when it has none (lines 233-240). */
  lemma AutoStageNeeds(appName: string, o: PipelineOptions, jobs: JobGraph, i: int)
    requires DeployRecord(appName, o, jobs) && DistinctJobIds(o.stages)
    requires 0 <= i < |o.stages| && !IsManual(o.stages[i])
    ensures JobId(o.stages[i].name) in jobs && jobs[JobId(o.stages[i].name)].needs == Some(Needs(o.stages[i]))
  {
    AutoStageHasItsJob(appName, o, jobs, i);
  }

  /** Every name on a `needs` cycle of a record whose `synth` job needs
      nothing and whose `publish-assets` job needs only `synth` is one of the
      other ids. */
  lemma CycleAvoidsFixedJobs(jobs: JobGraph, others: set<string>, p: seq<string>)
    requires jobs.Keys == {"synth", "publish-assets"} + others
    requires jobs["synth"].needs.None? && jobs["publish-assets"].needs == Some(["synth"])
    requires Cycles.IsCycle(NeedsGraph(jobs), p)
    ensures forall i :: 0 <= i < |p| ==> p[i] in others
  {
    var g := NeedsGraph(jobs);
    assert g["synth"] == [] && g["publish-assets"] == ["synth"];
    forall i | 0 <= i < |p| ensures p[i] != "synth" {
      var j := if i < |p| - 1 then i else 0;
      assert p[j] == p[i] && Cycles.Edge(g, p[j], p[j + 1]);
    }
    forall i | 0 <= i < |p| ensures p[i] in others {
      var j := if i < |p| - 1 then i else 0;
      assert p[j] == p[i] && Cycles.Edge(g, p[j], p[j + 1]);
      assert p[j + 1] != "synth";
    }
  }

  /** The two fixed jobs of the record. */
  lemma FixedJobsNeeds(appName: string, o: PipelineOptions, jobs: JobGraph)
    requires DeployRecord(appName, o, jobs)
    ensures jobs["synth"].needs.None? && jobs["publish-assets"].needs == Some(["synth"])
  {
  }

  /** A `needs` entry of a deploy job that is itself a deploy job id is the
      job id of one of the stage's dependencies. */
  lemma NeedsEntryIsDependency(stages: seq<Stage>, k: int, y: string)
    requires DependenciesOk(stages) && ManualOrderingOk(stages) && DistinctJobIds(stages)
    requires 0 <= k < |stages| && !IsManual(stages[k])
    requires y in Needs(stages[k]) && y in JobIds(stages, true)
    ensures stages[StageOf(stages, y)].name in Deps(stages[k])
  {
    var kk := StageOf(stages, y);
    JobIdNotFixed(stages[kk].name);
    var needs := Needs(stages[k]);
    var m :| 0 <= m < |needs| && needs[m] == y;
    var f := DependencyTargetWritten(stages, k, m);
    assert JobId(stages[f].name) == JobId(stages[kk].name);
    assert f == kk;
  }

  /** With no two stages sharing a job id, the stage graph maps each
      stage's name to that stage's own dependencies. */
  lemma DistinctStageMap(stages: seq<Stage>, k: int)
    requires DistinctJobIds(stages) && 0 <= k < |stages|
    ensures stages[k].name in StageMap(stages) && StageMap(stages)[stages[k].name] == Deps(stages[k])
  {
    forall j | k < j < |stages| ensures stages[j].name != stages[k].name {
      assert JobId(stages[j].name) != JobId(stages[k].name);
    }
  }

  /** The deploy job an id holds, when no two stages share a job id. */
  lemma DeployJobAt(o: PipelineOptions, jobs: JobGraph, x: string)
    requires DeployJobsOf(o, jobs) && DistinctJobIds(o.stages) && x in JobIds(o.stages, true)
    ensures x in jobs && jobs[x].needs == Some(Needs(o.stages[StageOf(o.stages, x)]))
  {
    DistinctIsLast(o.stages, StageOf(o.stages, x), true);
  }

  /** A `needs` edge between two deploy jobs is a dependency edge between
      their stages. */
  lemma NeedsEdgeIsDependency(o: PipelineOptions, jobs: JobGraph, x: string, y: string)
    requires DependenciesOk(o.stages) && ManualOrderingOk(o.stages)
    requires DeployJobsOf(o, jobs) && DistinctJobIds(o.stages)
    requires x in JobIds(o.stages, true) && y in JobIds(o.stages, true)
    requires Cycles.Edge(NeedsGraph(jobs), x, y)
    ensures Cycles.Edge(StageMap(o.stages), o.stages[StageOf(o.stages, x)].name, o.stages[StageOf(o.stages, y)].name)
  {
    var k := StageOf(o.stages, x);
    DeployJobAt(o, jobs, x);
    NeedsEntryIsDependency(o.stages, k, y);
    DistinctStageMap(o.stages, k);
  }

  /** The names of the stages that write the job ids of `p`. */
  ghost function StageNames(stages: seq<Stage>, p: seq<string>): (q: seq<string>)
    requires forall i :: 0 <= i < |p| ==> p[i] in JobIds(stages, true)
    ensures |q| == |p|
    ensures forall i :: 0 <= i < |p| ==> q[i] == stages[StageOf(stages, p[i])].name
  {
    seq(|p|, i requires 0 <= i < |p| => stages[StageOf(stages, p[i])].name)
  }

  /** A `needs` cycle through deploy jobs names a cycle of stages. */
  lemma StageCycleOf(o: PipelineOptions, jobs: JobGraph, p: seq<string>) returns (q: seq<string>)
    requires DependenciesOk(o.stages) && ManualOrderingOk(o.stages)
    requires DeployJobsOf(o, jobs) && DistinctJobIds(o.stages)
    requires Cycles.IsCycle(NeedsGraph(jobs), p)
    requires forall i :: 0 <= i < |p| ==> p[i] in JobIds(o.stages, true)
    ensures Cycles.IsCycle(StageMap(o.stages), q)
  {
    var g := StageMap(o.stages);
    q := StageNames(o.stages, p);
    forall i | 0 <= i < |q| - 1 ensures Cycles.Edge(g, q[i], q[i + 1]) {
      assert Cycles.Edge(NeedsGraph(jobs), p[i], p[i + 1]);
      NeedsEdgeIsDependency(o, jobs, p[i], p[i + 1]);
    }
    assert p[0] == p[|p| - 1];
    Cycles.ClosedWalkIsCycle(g, q);
  }

  /** When no two stages share a job id, the `needs` relation of `deploy.yml`
      has no cycle: a cycle of jobs would be a cycle of stages, which the
      check of lines 74-75 rules out. */
  lemma BuiltNeedsAcyclic(appName: string, o: PipelineOptions, jobs: JobGraph)
    requires WellFormed(o) && DeployRecord(appName, o, jobs) && DistinctJobIds(o.stages)
    ensures Cycles.Acyclic(NeedsGraph(jobs))
  {
    FixedJobsNeeds(appName, o, jobs);
    forall p | Cycles.IsCycle(NeedsGraph(jobs), p) ensures false {
      CycleAvoidsFixedJobs(jobs, JobIds(o.stages, true), p);
      var q := StageCycleOf(o, jobs, p);
    }
  }

  /** A manual stage whose job id no automatic stage shares gets no job in
      `deploy.yml` (the `continue` of line 223). */
  lemma ManualStageHasNoDeployJob(appName: string, o: PipelineOptions, jobs: JobGraph, i: int)
    requires DeployRecord(appName, o, jobs)
    requires 0 <= i < |o.stages| && IsManual(o.stages[i])
    requires forall j :: 0 <= j < |o.stages| && !IsManual(o.stages[j]) ==>
      JobId(o.stages[j].name) != JobId(o.stages[i].name)
    ensures JobId(o.stages[i].name) !in jobs
  {
    NotAnAutoJobId(o.stages, jobs.Keys, o.stages[i].name);
  }

  /** A stage name whose job id no automatic stage has is not a key of the
      record. */
  lemma NotAnAutoJobId(stages: seq<Stage>, keys: set<string>, name: string)
    requires keys == {"synth", "publish-assets"} + JobIds(stages, true)
    requires forall j :: 0 <= j < |stages| && !IsManual(stages[j]) ==> JobId(stages[j].name) != JobId(name)
    ensures JobId(name) !in keys
  {
    JobIdNotFixedKey(name);
    NotAutoWritten(stages, JobId(name));
  }

  lemma NotAutoWritten(stages: seq<Stage>, id: string)
    requires forall j :: 0 <= j < |stages| && !IsManual(stages[j]) ==> JobId(stages[j].name) != id
    ensures id !in JobIds(stages, true)
  {
    var ids := JobIdList(stages);
    var skip := Skipped(stages, true);
    forall j | 0 <= j < |stages| && !skip[j] ensures ids[j] != id {
      assert !IsManual(stages[j]) && ids[j] == JobId(stages[j].name);
    }
  }

  /** No job of either workflow sets a working directory: the pipeline never
      reads one, and hands the dispatch builder none. */
  lemma NoWorkingDirectory(appName: string, o: PipelineOptions, out: PipelineOutput)
    requires Builds(appName, o, out)
    ensures forall id :: id in out.jobs ==> out.jobs[id].workingDirectory.None?
    ensures out.dispatch.Some? ==>
      forall id :: id in out.dispatch.value.jobs ==> out.dispatch.value.jobs[id].workingDirectory.None?
  {
    var jobs := out.jobs;
    forall id | id in JobIds(o.stages, true) ensures jobs[id].workingDirectory.None? {
      var k := DeployJobHeld(o, jobs, id);
    }
    if out.dispatch.Some? {
      Dispatch.DispatchJobsGated(DispatchOptionsOf(appName, o), out.dispatch.value);
    }
  }

  /** The deploy job an id of an automatic stage holds is that of its last
      writer. */
  lemma DeployJobHeld(o: PipelineOptions, jobs: JobGraph, id: string) returns (k: int)
    requires DeployJobsOf(o, jobs) && id in JobIds(o.stages, true)
    ensures 0 <= k < |o.stages| && !IsManual(o.stages[k]) && JobId(o.stages[k].name) == id
    ensures id in jobs && jobs[id] == DeployJob(o, o.stages[k])
  {
    var ids := JobIdList(o.stages);
    var skip := Skipped(o.stages, true);
    var i :| 0 <= i < |o.stages| && !skip[i] && ids[i] == id;
    k := JobLoop.LastExists(ids, skip, i);
    assert IsLastWithId(o.stages, k, true);
  }

  // ---------------------------------------------------------------------
  // deploy-dispatch.yml

  /** Every stage, manual or automatic, has a job in the dispatch workflow. */
  lemma DispatchCoversEveryStage(appName: string, o: PipelineOptions, out: PipelineOutput)
    requires Builds(appName, o, out) && out.dispatch.Some?
    ensures forall i :: 0 <= i < |o.stages| ==> JobId(o.stages[i].name) in out.dispatch.value.jobs
    ensures |out.dispatch.value.environmentChoices| == |o.stages|
  {
    var ids := JobIdList(o.stages);
    forall i | 0 <= i < |o.stages| ensures JobId(o.stages[i].name) in out.dispatch.value.jobs {
      assert ids[i] == JobId(o.stages[i].name);
      assert ids[i] in JobIds(o.stages, false);
    }
  }

  /** The dispatch job of a stage deploys it like its automatic job: same
      GitHub environment, same concurrency group (so the two never run at
      once) and same permissions... */
  lemma DispatchSharesDeploySettings(appName: string, o: PipelineOptions, s: Stage)
    ensures var d := Dispatch.DispatchJob(DispatchOptionsOf(appName, o), s);
            var a := DeployJob(o, s);
            && d.environment == a.environment
            && d.concurrency == a.concurrency
            && d.permissions == a.permissions
  {
    assert Dispatch.DefaultsOf(DispatchOptionsOf(appName, o)) == DefaultsOf(o);
  }

  /** ... and the same steps, except that it downloads a chosen assembly
      version from GitHub Packages instead of the artifact of the run. */
  lemma DispatchStepsMatchDeploy(appName: string, o: PipelineOptions, s: Stage)
    ensures var d := Dispatch.DispatchJob(DispatchOptionsOf(appName, o), s).steps;
            var a := DeployJob(o, s).steps;
            && |a| == 6 && a[3] == DownloadAssembly
            && d == a[3 := DownloadVersionedAssembly(o.pkgNamespace + "/" + appName)]
  {
    var dOpts := DispatchOptionsOf(appName, o);
    assert Dispatch.DefaultsOf(dOpts) == DefaultsOf(o);
    var a, d := DeployJob(o, s).steps, Dispatch.DispatchJob(dOpts, s).steps;
    var v := DownloadVersionedAssembly(o.pkgNamespace + "/" + appName);
    SameButFourth(a, d, v);
  }

  lemma SameButFourth(a: seq<Step>, d: seq<Step>, v: Step)
    requires |a| == |d| == 6 && d[3] == v
    requires a[0] == d[0] && a[1] == d[1] && a[2] == d[2] && a[4] == d[4] && a[5] == d[5]
    ensures d == a[3 := v]
  {
  }
}
