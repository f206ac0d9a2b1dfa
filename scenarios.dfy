/** The stage lists of test/main.test.ts, and what the model says the
    constructor does with them.  Stage names are parameters fixed by a
    precondition, so that the kebab-casing of a name is reasoned about
    rather than evaluated character by character. */
module Scenarios {
  import opened Wrappers
  import opened Types
  import Names
  import Cycles
  import Dispatch
  import opened Pipeline
  import opened Properties

  /** A stage of the tests; the account, the region and the unused optional
      fields play no part here. */
  function TestStage(name: string, dependsOn: Option<seq<string>>, manualApproval: Option<bool>,
                     environment: Option<string>): Stage {
    Stage(name, AwsEnvironment("222222222222", "us-east-1"), environment, None, None, dependsOn, None, manualApproval)
  }

  predicate AllAlnum(s: string) {
    forall i :: 0 <= i < |s| ==> Names.IsAlnum(s[i])
  }

  /** The job id of a name made of letters and digits is `deploy-` and the
      lower-cased name. */
  lemma JobIdOfAlnum(name: string)
    requires AllAlnum(name)
    ensures JobId(name) == "deploy-" + Names.ToLower(name)
    ensures |JobId(name)| == 7 + |name|
  {
    Names.KebabOfAlnum(name);
  }

  /** Names of letters and digits of different lengths have different job
      ids. */
  lemma DifferentLengthsDifferentIds(a: string, b: string)
    requires AllAlnum(a) && AllAlnum(b) && |a| != |b|
    ensures JobId(a) != JobId(b)
  {
    JobIdOfAlnum(a);
    JobIdOfAlnum(b);
  }

  /** Stages named by letters and digits, no two names of the same length,
      have distinct job ids. */
  lemma DistinctLengthsDistinctIds(stages: seq<Stage>)
    requires forall i :: 0 <= i < |stages| ==> AllAlnum(stages[i].name)
    requires forall i, j :: 0 <= i < j < |stages| ==> |stages[i].name| != |stages[j].name|
    ensures DistinctJobIds(stages)
  {
    forall i, j | 0 <= i < j < |stages| ensures JobId(stages[i].name) != JobId(stages[j].name) {
      DifferentLengthsDifferentIds(stages[i].name, stages[j].name);
    }
  }

  /** Lines 20-38 of the tests: with no `stacks` and the default CDK
      command, a stage deploys the stack `<stackPrefix>-<name>` with
      `npx cdk`, and `synth` runs `npx cdk synth`. */
  lemma DefaultCommands(o: PipelineOptions, s: Stage)
    requires o.cdkCommand.None? && s.stacks.None?
    ensures DeployJob(o, s).steps[5]
            == Deploy(s.name, "npx cdk" + " deploy " + (o.stackPrefix + "-" + s.name) + " --require-approval never --app cdk.out")
    ensures SynthJob(o).steps[3] == Synthesize("npx cdk" + " synth")
  {
    DeployJobCommands(o, s);
    DeployCommandOfOne("npx cdk", o.stackPrefix + "-" + s.name);
  }

  /** Lines 135-149: a stage with its own two stacks deploys both, one
      after the other. */
  lemma TwoStacksCommand(o: PipelineOptions, s: Stage, a: string, b: string)
    requires s.stacks == Some([a, b])
    ensures DeployJob(o, s).steps[5]
            == Deploy(s.name, DeployInvocation(CdkCommandOf(o), a) + " && " + DeployInvocation(CdkCommandOf(o), b))
  {
    DeployJobCommands(o, s);
    DeployCommandSplits(CdkCommandOf(o), [a, b]);
    assert [a, b][1..] == [b];
    DeployCommandOfOne(CdkCommandOf(o), b);
  }

  /** Lines 165-178 of the tests: `A` and `B` depend on each other.  Both
      earlier checks pass and the stage graph has a cycle, so by the
      contract of `CdkDeployPipeline` the constructor throws a
      `CircularDependency`. */
  lemma CircularStagesRejected(stages: seq<Stage>)
    requires stages == [TestStage("A", Some(["B"]), None, None), TestStage("B", Some(["A"]), None, None)]
    ensures DependenciesOk(stages) && ManualOrderingOk(stages)
    ensures !Cycles.Acyclic(StageMap(stages))
  {
    assert stages[0] in stages && stages[1] in stages;
    assert IsLastNamed(stages, 0) && IsLastNamed(stages, 1);
    var g := StageMap(stages);
    assert g["A"] == ["B"] && g["B"] == ["A"];
    assert Cycles.IsCycle(g, ["A", "B", "A"]);
  }

  /** Lines 151-163: a dependency on a name no stage has is the first error,
      and it lists the defined stages. */
  lemma UnknownDependencyRejected(stages: seq<Stage>)
    requires stages == [TestStage("Dev", Some(["NonExistent"]), None, None)]
    ensures !DependenciesOk(stages)
    ensures IsFirstDependencyError(stages, UnknownDependency("Dev", "NonExistent", ["Dev"]))
  {
    assert NameSet(stages) == {"Dev"};
    assert NameList(stages) == ["Dev"];
    assert Dedup(["Dev"]) == ["Dev"];
    assert DependencyViolation(stages, 0, 0);
    assert NoDependencyViolationBefore(stages, 0, 0);
  }

  /** Lines 253-266: an automatic stage that depends on a manual one is
      rejected with a `ManualDependency` naming both. */
  lemma AutoAfterManualRejected(stages: seq<Stage>)
    requires stages == [TestStage("Dev", None, Some(true), None), TestStage("Production", Some(["Dev"]), None, None)]
    ensures DependenciesOk(stages) && !ManualOrderingOk(stages)
    ensures IsFirstOrderingError(stages, ManualDependency("Production", "Dev"))
  {
    assert stages[0] in stages;
    assert Find(stages, "Dev") == Some(stages[0]);
    assert OrderingViolation(stages, 1, 0);
    assert NoOrderingViolationBefore(stages, 1, 0);
  }

  /** The stage list of lines 61-81. */
  function ThreeStages(sandbox: string, dev: string, production: string): seq<Stage> {
    [ TestStage(sandbox, None, None, None),
      TestStage(dev, None, None, None),
      TestStage(production, Some([sandbox, dev]), None, None) ]
  }

  /** The stage graph of three stages of different names. */
  lemma StageMapOfThree(stages: seq<Stage>)
    requires |stages| == 3
    requires stages[0].name != stages[1].name && stages[0].name != stages[2].name && stages[1].name != stages[2].name
    ensures StageMap(stages).Keys == {stages[0].name, stages[1].name, stages[2].name}
    ensures StageMap(stages)[stages[0].name] == Deps(stages[0])
    ensures StageMap(stages)[stages[1].name] == Deps(stages[1])
    ensures StageMap(stages)[stages[2].name] == Deps(stages[2])
  {
    assert IsLastNamed(stages, 0) && IsLastNamed(stages, 1) && IsLastNamed(stages, 2);
    assert stages[0] in stages && stages[1] in stages && stages[2] in stages;
    forall x | x in NameSet(stages) ensures x in {stages[0].name, stages[1].name, stages[2].name} {
      var s :| s in stages && s.name == x;
      var i :| 0 <= i < 3 && stages[i] == s;
      assert i == 0 || i == 1 || i == 2;
    }
  }

  /** The stage graph of lines 61-81 has no cycle: `Production` finishes
      after the two stages it depends on. */
  lemma ThreeStagesAcyclic(sandbox: string, dev: string, production: string)
    requires sandbox == "Sandbox" && dev == "Dev" && production == "Production"
    ensures Cycles.Acyclic(StageMap(ThreeStages(sandbox, dev, production)))
  {
    var stages := ThreeStages(sandbox, dev, production);
    StageMapOfThree(stages);
    var g := StageMap(stages);
    var rank := map[sandbox := 0, dev := 0, production := 1];
    forall a, b | Cycles.Edge(g, a, b) ensures a in rank && b in rank && rank[b] < rank[a] {
      assert a == production && b in [sandbox, dev];
    }
    Cycles.RankedIsAcyclic(g, rank);
  }

  /** Lines 61-81: the list passes every check... */
  lemma ThreeStagesValid(sandbox: string, dev: string, production: string)
    requires sandbox == "Sandbox" && dev == "Dev" && production == "Production"
    ensures StagesOk(ThreeStages(sandbox, dev, production))
  {
    var stages := ThreeStages(sandbox, dev, production);
    assert stages[0] in stages && stages[1] in stages;
    forall a, b | 0 <= a < |stages| && 0 <= b < |Deps(stages[a])|
      ensures !DependencyViolation(stages, a, b) && !OrderingViolation(stages, a, b)
    {
      assert a == 2 && (b == 0 || b == 1);
    }
    ThreeStagesAcyclic(sandbox, dev, production);
  }

  /** ... and its three job ids differ. */
  lemma ThreeStagesDistinct(sandbox: string, dev: string, production: string)
    requires sandbox == "Sandbox" && dev == "Dev" && production == "Production"
    ensures DistinctJobIds(ThreeStages(sandbox, dev, production))
  {
    var stages := ThreeStages(sandbox, dev, production);
    assert AllAlnum(sandbox) && AllAlnum(dev) && AllAlnum(production);
    forall i | 0 <= i < |stages| ensures AllAlnum(stages[i].name) {
      assert i == 0 || i == 1 || i == 2;
    }
    forall i, j | 0 <= i < j < |stages| ensures |stages[i].name| != |stages[j].name| {
      assert (i == 0 && j == 1) || (i == 0 && j == 2) || (i == 1 && j == 2);
    }
    DistinctLengthsDistinctIds(stages);
  }

  /** Lines 40-59 and 61-81: stages without `dependsOn` wait for
      `publish-assets`, not for each other... */
  lemma IndependentStagesWaitForAssets(appName: string, o: PipelineOptions, jobs: JobGraph,
                                       sandbox: string, dev: string, production: string)
    requires sandbox == "Sandbox" && dev == "Dev" && production == "Production"
    requires o.stages == ThreeStages(sandbox, dev, production)
    requires DeployRecord(appName, o, jobs)
    ensures JobId(sandbox) in jobs && jobs[JobId(sandbox)].needs == Some(["publish-assets"])
    ensures JobId(dev) in jobs && jobs[JobId(dev)].needs == Some(["publish-assets"])
  {
    ThreeStagesDistinct(sandbox, dev, production);
    AutoStageNeeds(appName, o, jobs, 0);
    AutoStageNeeds(appName, o, jobs, 1);
  }

  /** ... and a stage that depends on two others waits for their deploy
      jobs. */
  lemma DependsOnWaits(appName: string, o: PipelineOptions, jobs: JobGraph,
                       sandbox: string, dev: string, production: string)
    requires sandbox == "Sandbox" && dev == "Dev" && production == "Production"
    requires o.stages == ThreeStages(sandbox, dev, production)
    requires DeployRecord(appName, o, jobs)
    ensures JobId(production) in jobs && jobs[JobId(production)].needs == Some([JobId(sandbox), JobId(dev)])
  {
    ThreeStagesDistinct(sandbox, dev, production);
    AutoStageNeeds(appName, o, jobs, 2);
    NeedsOfTwo(o.stages[2], sandbox, dev);
  }

  lemma NeedsOfTwo(s: Stage, a: string, b: string)
    requires Deps(s) == [a, b]
    ensures Needs(s) == [JobId(a), JobId(b)]
  {
  }

  /** The stage lists of lines 192-211 (`productionManual` absent) and
      268-284 (`productionManual` true). */
  function DevAndProduction(dev: string, production: string, productionManual: Option<bool>): seq<Stage> {
    [ TestStage(dev, None, None, Some("development")),
      TestStage(production, Some([dev]), productionManual, Some("production")) ]
  }

  /** Both lists pass every check, manual or not... */
  lemma DevAndProductionValid(dev: string, production: string, productionManual: Option<bool>)
    requires dev == "Dev" && production == "Production"
    ensures StagesOk(DevAndProduction(dev, production, productionManual))
  {
    var stages := DevAndProduction(dev, production, productionManual);
    assert stages[0] in stages;
    assert IsLastNamed(stages, 0) && IsLastNamed(stages, 1);
    var g := StageMap(stages);
    assert g.Keys == {dev, production} by {
      forall x | x in NameSet(stages) ensures x == dev || x == production {
        var s :| s in stages && s.name == x;
      }
    }
    var rank := map[dev := 0, production := 1];
    forall a, b | Cycles.Edge(g, a, b) ensures a in rank && b in rank && rank[b] < rank[a] {
      assert a == production && b == dev;
    }
    Cycles.RankedIsAcyclic(g, rank);
  }

  /** ... and their two job ids differ. */
  lemma DevAndProductionDistinct(dev: string, production: string, productionManual: Option<bool>)
    requires dev == "Dev" && production == "Production"
    ensures DistinctJobIds(DevAndProduction(dev, production, productionManual))
  {
    var stages := DevAndProduction(dev, production, productionManual);
    assert AllAlnum(dev) && AllAlnum(production);
    forall i | 0 <= i < |stages| ensures AllAlnum(stages[i].name) {
      assert i == 0 || i == 1;
    }
    forall i, j | 0 <= i < j < |stages| ensures |stages[i].name| != |stages[j].name| {
      assert i == 0 && j == 1;
    }
    DistinctLengthsDistinctIds(stages);
  }

  /** Lines 228-251 and 268-284: the manual stage has no job in
      `deploy.yml`, the automatic one has... */
  lemma ManualStageNotInDeploy(appName: string, o: PipelineOptions, jobs: JobGraph, dev: string, production: string)
    requires dev == "Dev" && production == "Production"
    requires o.stages == DevAndProduction(dev, production, Some(true))
    requires DeployRecord(appName, o, jobs)
    ensures JobId(dev) in jobs && JobId(production) !in jobs
  {
    DevAndProductionDistinct(dev, production, Some(true));
    AutoStageNeeds(appName, o, jobs, 0);
    ManualStageHasNoDeployJob(appName, o, jobs, 1);
  }

  /** ... and both have a job in `deploy-dispatch.yml`. */
  lemma ManualStageInDispatch(appName: string, o: PipelineOptions, w: Dispatch.DispatchWorkflow, dev: string, production: string)
    requires dev == "Dev" && production == "Production"
    requires o.stages == DevAndProduction(dev, production, Some(true))
    requires Dispatch.IsDispatchWorkflow(DispatchOptionsOf(appName, o), w)
    ensures JobId(dev) in w.jobs && JobId(production) in w.jobs
  {
    DevAndProductionDistinct(dev, production, Some(true));
    Dispatch.ChoiceSelectsItsStage(DispatchOptionsOf(appName, o), w, 0);
    Dispatch.ChoiceSelectsItsStage(DispatchOptionsOf(appName, o), w, 1);
  }

  /** Lines 192-211 and 228-251: the dispatch workflow offers the stages'
      GitHub environments, in stage order... */
  lemma DispatchChoices(dev: string, production: string, productionManual: Option<bool>)
    ensures Dispatch.Choices(DevAndProduction(dev, production, productionManual)) == ["development", "production"]
  {
  }

  /** ... and each stage's dispatch job runs only when its own environment
      is chosen. */
  lemma DispatchGuards(appName: string, o: PipelineOptions, w: Dispatch.DispatchWorkflow, dev: string, production: string)
    requires dev == "Dev" && production == "Production"
    requires o.stages == DevAndProduction(dev, production, None)
    requires Dispatch.IsDispatchWorkflow(DispatchOptionsOf(appName, o), w)
    ensures JobId(dev) in w.jobs && w.jobs[JobId(dev)].guard == Some(Dispatch.Guard("development"))
    ensures JobId(production) in w.jobs && w.jobs[JobId(production)].guard == Some(Dispatch.Guard("production"))
  {
    DevAndProductionDistinct(dev, production, None);
    DispatchChoices(dev, production, None);
    Dispatch.ChoiceSelectsItsStage(DispatchOptionsOf(appName, o), w, 0);
    Dispatch.ChoiceSelectsItsStage(DispatchOptionsOf(appName, o), w, 1);
  }

  /** The upper-case twin of a lower-case ASCII letter. */
  function Upper(c: char): char
    requires Names.IsLower(c)
  {
    (c as int - 32) as char
  }

  /** A stage named by a lower-case letter, then one named by the same
      letter upper-cased that depends on it (`a`, then `A`). */
  function CaseCollision(c: char): seq<Stage>
    requires Names.IsLower(c)
  {
    [TestStage([c], None, None, None), TestStage([Upper(c)], Some([[c]]), None, None)]
  }

  /** Two stage names that differ only in case pass every check... */
  lemma CaseCollisionValid(c: char)
    requires Names.IsLower(c)
    ensures StagesOk(CaseCollision(c))
  {
    var stages := CaseCollision(c);
    var lower, upper := [c], [Upper(c)];
    assert lower[0] != upper[0];
    assert stages[0] in stages && stages[1] in stages;
    var g := StageMap(stages);
    assert IsLastNamed(stages, 0) && IsLastNamed(stages, 1);
    assert g.Keys == {lower, upper} by {
      forall x | x in NameSet(stages) ensures x == lower || x == upper {
        var s :| s in stages && s.name == x;
      }
    }
    var rank := map[lower := 0, upper := 1];
    forall a, b | Cycles.Edge(g, a, b) ensures a in rank && b in rank && rank[b] < rank[a] {
      assert a == upper && b == lower;
    }
    Cycles.RankedIsAcyclic(g, rank);
  }

  /** ... yet share a job id. */
  lemma CaseCollisionSameId(c: char)
    requires Names.IsLower(c)
    ensures JobId([c]) == JobId([Upper(c)])
  {
    var lower, upper := [c], [Upper(c)];
    assert AllAlnum(lower) && AllAlnum(upper);
    JobIdOfAlnum(lower);
    JobIdOfAlnum(upper);
    CaseCollisionSameLower(c);
  }

  /** A lower-case letter and its upper-case twin lower-case alike. */
  lemma CaseCollisionSameLower(c: char)
    requires Names.IsLower(c)
    ensures Names.ToLower([c]) == Names.ToLower([Upper(c)]) == [c]
  {
    assert Names.LowerChar(Upper(c)) == c;
  }

  /** So the later stage's job replaces the earlier one's and needs its own
      id... */
  lemma CaseCollisionSelfNeeds(appName: string, o: PipelineOptions, jobs: JobGraph, c: char)
    requires Names.IsLower(c)
    requires o.stages == CaseCollision(c)
    requires DeployRecord(appName, o, jobs)
    ensures JobId([c]) in jobs && jobs[JobId([c])].needs == Some([JobId([c])])
  {
    CaseCollisionSameId(c);
    assert IsLastWithId(o.stages, 1, true);
    NeedsOfOne(o.stages[1], [c]);
  }

  /** ... so `deploy.yml` holds a `needs` cycle.  This is why
      `BuiltNeedsAcyclic` asks for distinct job ids. */
  lemma CaseCollisionNeedsCycle(appName: string, o: PipelineOptions, jobs: JobGraph, c: char)
    requires Names.IsLower(c)
    requires o.stages == CaseCollision(c)
    requires DeployRecord(appName, o, jobs)
    ensures Cycles.IsCycle(NeedsGraph(jobs), [JobId([c]), JobId([c])])
  {
    CaseCollisionSelfNeeds(appName, o, jobs, c);
    SelfNeedsIsCycle(jobs, JobId([c]));
  }

  lemma NeedsOfOne(s: Stage, a: string)
    requires Deps(s) == [a]
    ensures Needs(s) == [JobId(a)]
  {
  }

  /** A job that needs itself is a cycle of length one. */
  lemma SelfNeedsIsCycle(jobs: JobGraph, id: string)
    requires id in jobs && jobs[id].needs == Some([id])
    ensures Cycles.IsCycle(NeedsGraph(jobs), [id, id])
  {
    assert NeedsGraph(jobs)[id] == [id];
  }
}
