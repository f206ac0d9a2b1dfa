/** The records of src/types.ts, the job-graph records the two workflow
    builders hand to the workflow writer, the errors the pipeline
    constructor throws, and the per-stage resolution rules both builders
    apply (src/CdkDeployPipeline.ts:224-244, src/CdkDeployDispatchWorkflow.ts:67-76). */
module Types {
  import opened Wrappers
  import Names
  import JobLoop

  // ---------------------------------------------------------------------
  // Inputs (src/types.ts)

  datatype AwsEnvironment = AwsEnvironment(account: string, region: string)

  /** `DeployStageOptions`; an absent optional field is `None`. */
  datatype Stage = Stage(
    name: string,
    env: AwsEnvironment,
    environment: Option<string>,
    iamRoleArn: Option<string>,
    iamRoleRegion: Option<string>,
    dependsOn: Option<seq<string>>,
    stacks: Option<seq<string>>,
    manualApproval: Option<bool>)

  /** `stage.manualApproval` is truthy. */
  predicate IsManual(s: Stage) {
    s.manualApproval == Some(true)
  }

  /** The dependency list, empty when `dependsOn` is absent. */
  function Deps(s: Stage): seq<string> {
    s.dependsOn.GetOr([])
  }

  function NameSet(stages: seq<Stage>): set<string> {
    set s | s in stages :: s.name
  }

  function NameList(stages: seq<Stage>): seq<string> {
    seq(|stages|, i requires 0 <= i < |stages| => stages[i].name)
  }

  /** The iteration order of `new Set(xs)`: each element once, at its first
      occurrence. */
  function Dedup(xs: seq<string>): (r: seq<string>)
    ensures forall x :: x in r <==> x in xs
    ensures forall i, j :: 0 <= i < j < |r| ==> r[i] != r[j]
  {
    if xs == [] then []
    else
      var d := Dedup(xs[..|xs| - 1]);
      assert xs == xs[..|xs| - 1] + [xs[|xs| - 1]];
      if xs[|xs| - 1] in d then d else d + [xs[|xs| - 1]]
  }

  /** The index of the first occurrence of `x` in `xs`. */
  function IndexOf(xs: seq<string>, x: string): (k: nat)
    requires x in xs
    ensures k < |xs| && xs[k] == x && x !in xs[..k]
  {
    if xs[0] == x then 0
    else
      var k := 1 + IndexOf(xs[1..], x);
      assert xs[..k] == [xs[0]] + xs[1..][..k - 1];
      k
  }

  /** An index holding `x` with no `x` before it is the first occurrence. */
  lemma IndexOfUnique(xs: seq<string>, x: string, k: nat)
    requires k < |xs| && xs[k] == x && x !in xs[..k]
    ensures IndexOf(xs, x) == k
  {
    var f := IndexOf(xs, x);
    forall i | 0 <= i < k ensures xs[i] != x {
      assert xs[i] == xs[..k][i];
    }
    forall i | 0 <= i < f ensures xs[i] != x {
      assert xs[i] == xs[..f][i];
    }
  }

  /** `Dedup` keeps the elements in the order of their first occurrences;
      with its membership and distinctness this fixes the result. */
  lemma {:induction false} DedupOrder(xs: seq<string>)
    ensures forall i, j :: 0 <= i < j < |Dedup(xs)| ==> IndexOf(xs, Dedup(xs)[i]) < IndexOf(xs, Dedup(xs)[j])
  {
    if xs != [] {
      var n := |xs| - 1;
      var init := xs[..n];
      var d := Dedup(init);
      DedupOrder(init);
      var r := Dedup(xs);
      assert r == if xs[n] in d then d else d + [xs[n]];
      forall i, j | 0 <= i < j < |r| ensures IndexOf(xs, r[i]) < IndexOf(xs, r[j]) {
        assert r[i] == d[i] && d[i] in d;
        IndexOfInit(xs, d[i]);
        if j < |d| {
          assert r[j] == d[j] && d[j] in d;
          IndexOfInit(xs, d[j]);
          assert IndexOf(init, d[i]) < IndexOf(init, d[j]);
        } else {
          assert r[j] == xs[n] && xs[n] !in init;
          IndexOfUnique(xs, xs[n], n);
        }
      }
    }
  }

  /** An element of all but the last has its first occurrence there. */
  lemma IndexOfInit(xs: seq<string>, x: string)
    requires xs != [] && x in xs[..|xs| - 1]
    ensures IndexOf(xs, x) == IndexOf(xs[..|xs| - 1], x) < |xs| - 1
  {
    var init := xs[..|xs| - 1];
    var k := IndexOf(init, x);
    assert xs[..k] == init[..k];
    IndexOfUnique(xs, x, k);
  }

  /** The index `stages.find((s) => s.name === name)` stops at, or `|stages|`. */
  function FindIndex(stages: seq<Stage>, name: string): (i: nat)
    ensures i <= |stages|
    ensures i < |stages| ==> stages[i].name == name
    ensures forall j :: 0 <= j < i ==> stages[j].name != name
  {
    if stages == [] then 0
    else if stages[0].name == name then 0
    else 1 + FindIndex(stages[1..], name)
  }

  /** `stages.find((s) => s.name === name)`: the FIRST stage of that name. */
  function Find(stages: seq<Stage>, name: string): Option<Stage> {
    var i := FindIndex(stages, name);
    if i < |stages| then Some(stages[i]) else None
  }

  /** No later stage has the same name (the one `new Map` keeps). */
  predicate IsLastNamed(stages: seq<Stage>, i: int)
    requires 0 <= i < |stages|
  {
    forall j :: i < j < |stages| ==> stages[j].name != stages[i].name
  }

  /** The dependency graph, keyed by stage name. */
  type Graph = map<string, seq<string>>

  /** `new Map(stages.map((s) => [s.name, s]))` of src/utils.ts:35, reduced to
      the dependency lists: a later stage of the same name overwrites. */
  function StageMap(stages: seq<Stage>): (g: Graph)
    ensures g.Keys == NameSet(stages)
    ensures forall i :: 0 <= i < |stages| && IsLastNamed(stages, i) ==> g[stages[i].name] == Deps(stages[i])
  {
    if stages == [] then map[]
    else
      var init := stages[..|stages| - 1];
      var last := stages[|stages| - 1];
      assert stages == init + [last];
      assert forall i :: 0 <= i < |init| ==> init[i] == stages[i];
      StageMap(init)[last.name := Deps(last)]
  }

  // ---------------------------------------------------------------------
  // Resolution shared by both builders

  /** `deploy-${toKebabCase(name)}`: job id and concurrency group. */
  function JobId(name: string): string {
    "deploy-" + Names.ToKebabCase(name)
  }

  /** `xs.join(sep)`. */
  function Join(xs: seq<string>, sep: string): string {
    if |xs| == 0 then ""
    else if |xs| == 1 then xs[0]
    else xs[0] + sep + Join(xs[1..], sep)
  }

  /** One `cdk deploy` invocation of the workflow jobs. */
  function DeployInvocation(cdkCommand: string, stack: string): string {
    cdkCommand + " deploy " + stack + " --require-approval never --app cdk.out"
  }

  /** The `' && '`-join of one invocation per stack. */
  function DeployCommand(cdkCommand: string, stacks: seq<string>): string {
    Join(seq(|stacks|, i requires 0 <= i < |stacks| => DeployInvocation(cdkCommand, stacks[i])), " && ")
  }

  /** The pipeline-level values the per-stage resolution falls back on. */
  datatype Defaults = Defaults(
    stackPrefix: string,
    iamRoleArn: string,
    iamRoleRegion: string,
    cdkCommand: string)

  /** The effective settings of one stage. */
  datatype Resolved = Resolved(
    jobId: string,
    stacks: seq<string>,
    githubEnv: string,
    roleArn: string,
    roleRegion: string,
    deployCommand: string)

  /** Override first, then the pipeline default.  The region chain of the
      source ends in `stage.env.region`, but the pipeline-level region is a
      string that is always present, so that last fallback is never taken. */
  function Resolve(d: Defaults, s: Stage): Resolved {
    var stacks := s.stacks.GetOr([d.stackPrefix + "-" + s.name]);
    Resolved(
      JobId(s.name),
      stacks,
      s.environment.GetOr(s.name),
      s.iamRoleArn.GetOr(d.iamRoleArn),
      s.iamRoleRegion.GetOr(d.iamRoleRegion),
      DeployCommand(d.cdkCommand, stacks))
  }

  // ---------------------------------------------------------------------
  // Outputs: the job graph handed to the workflow writer

  datatype Permission = Read | Write

  datatype Permissions = Permissions(contents: Permission, packages: Permission, idToken: Option<Permission>)

  datatype Concurrency = Concurrency(group: string, cancelInProgress: bool)

  /** A workflow step; only the parts that vary are kept, the literal action
      versions, registry URLs, secrets and shell scripts are implied by the
      constructor. */
  datatype Step =
    | Checkout(fullHistory: bool)
    | SetupNode(nodeVersion: string)
    | InstallDependencies(command: string)
    | Synthesize(command: string)
    | UploadAssembly
    | DownloadAssembly
    | AwsCredentials(roleArn: string, region: string)
    | PublishAssets
    | ConfigureGitIdentity
    | CreateAssemblyPackage(packageName: string)
    | PublishAssembly
    | DownloadVersionedAssembly(packageName: string)
    | Deploy(stageName: string, command: string)

  /** One job.  `needs: None` is a job without a `needs` key, `guard` is the
      `if` expression and `workingDirectory` is `defaults.run.working-directory`.
      Every job also runs on `ubuntu-latest` with `CI=true`. */
  datatype Job = Job(
    name: string,
    guard: Option<string>,
    needs: Option<seq<string>>,
    environment: Option<string>,
    concurrency: Option<Concurrency>,
    permissions: Permissions,
    workingDirectory: Option<string>,
    steps: seq<Step>)

  type JobGraph = map<string, Job>

  /** Every `needs` entry of every job names a job of the graph. */
  predicate NeedsClosed(jobs: JobGraph) {
    forall id, n :: id in jobs && jobs[id].needs.Some? && n in jobs[id].needs.value ==> n in jobs
  }

  /** The job id each stage's iteration of a job loop writes. */
  function JobIdList(stages: seq<Stage>): (ids: seq<string>)
    ensures |ids| == |stages|
  {
    seq(|stages|, i requires 0 <= i < |stages| => JobId(stages[i].name))
  }

  /** The iterations a job loop passes over: with `autoOnly`, those of the
      manual stages. */
  function Skipped(stages: seq<Stage>, autoOnly: bool): (skip: seq<bool>)
    ensures |skip| == |stages|
  {
    seq(|stages|, i requires 0 <= i < |stages| => autoOnly && IsManual(stages[i]))
  }

  /** Stage `i` makes the write of its job id that stays: no later stage
      (no later automatic stage, with `autoOnly`) has the same job id. */
  predicate IsLastWithId(stages: seq<Stage>, i: int, autoOnly: bool)
    requires 0 <= i < |stages|
  {
    JobLoop.LastBefore(JobIdList(stages), Skipped(stages, autoOnly), |stages|, i)
  }

  /** The job ids the stages write (the automatic ones, with `autoOnly`). */
  function JobIds(stages: seq<Stage>, autoOnly: bool): set<string> {
    JobLoop.Written(JobIdList(stages), Skipped(stages, autoOnly), |stages|)
  }

  /** No two stages write the same job id (which also rules out two stages
      of the same name). */
  predicate DistinctJobIds(stages: seq<Stage>) {
    forall i, j :: 0 <= i < j < |stages| ==> JobId(stages[i].name) != JobId(stages[j].name)
  }

  /** A JavaScript truthy string: present and not empty. */
  predicate Truthy(s: Option<string>) {
    s.Some? && s.value != ""
  }

  // ---------------------------------------------------------------------
  // Errors thrown by the constructor

  datatype Error =
    | EmptyStages
    | UnknownDependency(stage: string, dependency: string, available: seq<string>)
    | SelfDependency(stage: string)
    | ManualDependency(stage: string, dependency: string)
    | CircularDependency(path: seq<string>)
    | MissingPkgNamespace

  /** The text of the thrown `Error`. */
  function Message(e: Error): string {
    match e
    case EmptyStages => "At least one deployment stage must be defined"
    case UnknownDependency(s, d, available) =>
      "Stage '" + s + "' depends on '" + d + "', which is not a defined stage. Available: " + Join(available, ", ")
    case SelfDependency(s) => "Stage '" + s + "' cannot depend on itself"
    case ManualDependency(s, d) =>
      "Stage '" + s + "' depends on '" + d
      + "', which has manualApproval enabled. Auto-deploy stages cannot depend on manual-approval stages."
    case CircularDependency(p) => "Circular dependency detected: " + Join(p, " -> ")
    case MissingPkgNamespace => "pkgNamespace is required when useGithubPackagesForAssembly is enabled"
  }

  // ---------------------------------------------------------------------
  // Lemmas

  /** A deploy job id is never one of the two fixed job ids. */
  lemma JobIdNotFixedKey(name: string)
    ensures JobId(name) !in {"synth", "publish-assets"}
  {
    JobIdNotFixed(name);
  }

  lemma JobIdNotFixed(name: string)
    ensures JobId(name) != "synth" && JobId(name) != "publish-assets"
  {
    assert JobId(name)[0] == 'd';
  }

  /** Whenever the stage name has a letter or digit, its job id is already a
      legal GitHub Actions job id: `toGithubJobId` leaves it unchanged. */
  lemma JobIdIsGithubJobId(name: string)
    requires Names.Kept(name, Names.Alnum) != []
    ensures Names.ToGithubJobId(JobId(name)) == JobId(name)
  {
    var j := JobId(name);
    JobIdIsClean(name);
    Names.CleanFixesClean(j);
    Names.JobIdPrefixRule(j);
    assert j[0] == 'd';
  }

  /** Whenever the stage name has a letter or digit, its job id is made of
      job-id characters with no doubled and no leading or trailing hyphen. */
  lemma JobIdIsClean(name: string)
    requires Names.Kept(name, Names.Alnum) != []
    ensures Names.IsCleanId(JobId(name))
  {
    var k := Names.ToKebabCase(name);
    Names.KebabEmptyIff(name);
    Names.KebabShape(name);
    DeployPrefixedIsClean(k);
  }

  lemma DeployPrefixedIsClean(k: string)
    requires Names.IsKebab(k) && k != []
    ensures Names.IsCleanId("deploy-" + k)
  {
    DeployPrefixShape();
    assert forall i :: 0 <= i < |k| ==> Names.IsJobIdOutChar(k[i]);
    Names.ConcatIsClean("deploy-", k);
  }

  lemma DeployPrefixShape()
    ensures forall i :: 0 <= i < |"deploy-"| ==> Names.IsJobIdOutChar("deploy-"[i])
    ensures Names.NoDoubleHyphen("deploy-")
    ensures "deploy-"[0] == 'd'
  {
  }

  /** The deploy command of one stack is its single invocation... */
  lemma DeployCommandOfOne(cdkCommand: string, stack: string)
    ensures DeployCommand(cdkCommand, [stack]) == DeployInvocation(cdkCommand, stack)
  {
  }

  /** ... and of more stacks, the first invocation, ` && `, and the command
      of the rest. */
  lemma DeployCommandSplits(cdkCommand: string, stacks: seq<string>)
    requires |stacks| >= 2
    ensures DeployCommand(cdkCommand, stacks)
            == DeployInvocation(cdkCommand, stacks[0]) + " && " + DeployCommand(cdkCommand, stacks[1..])
  {
    var xs := seq(|stacks|, i requires 0 <= i < |stacks| => DeployInvocation(cdkCommand, stacks[i]));
    var rest := stacks[1..];
    assert xs[1..] == seq(|rest|, i requires 0 <= i < |rest| => DeployInvocation(cdkCommand, rest[i]));
  }

  lemma DistinctIsLast(stages: seq<Stage>, i: int, autoOnly: bool)
    requires 0 <= i < |stages| && DistinctJobIds(stages)
    ensures IsLastWithId(stages, i, autoOnly)
  {
    var ids := JobIdList(stages);
    forall j | i < j < |stages| ensures ids[j] != ids[i] {
      assert ids[j] == JobId(stages[j].name) && ids[i] == JobId(stages[i].name);
    }
  }
}
