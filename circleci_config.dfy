/**
 * Job filtering for the generated CircleCI configuration: finding the jobs
 * whose run commands mention an already-built manifest entry, and removing
 * jobs (and the dependencies on them) from a workflow.
 *
 * A JSON mapping becomes a datatype with an Option per key the script reads
 * with a default; a mapping the script updates in place becomes an object.
 */
module CircleciConfig {
  import opened Wrappers

  /** A step's "run" mapping; only its "command" is read. */
  datatype RunInfo = RunInfo(command: Option<string>)

  /** A job step; only its "run" entry is read. */
  datatype Step = Step(run: Option<RunInfo>)

  /** A job under the top-level "jobs" mapping; only its "steps" are read. */
  datatype CircleciJob = CircleciJob(steps: Option<seq<Step>>)

  /** The manifest entries taken to be built already. */
  const BuiltManifestNames: seq<string> := ["barretenberg-x86_64-linux-clang", "barretenberg-x86_64-linux-gcc"]

  /** circleci_job.get("steps", []) */
  function Steps(job: CircleciJob): seq<Step>
  {
    if job.steps.Some? then job.steps.value else []
  }

  /** step.get("run", {}).get("command", "") */
  function Command(step: Step): string
  {
    if step.run.Some? && step.run.value.command.Some? then step.run.value.command.value else ""
  }

  /** Python's `sub in s` on strings: sub occurs in s at some offset. */
  function Contains(s: string, sub: string): bool
    decreases |s|
  {
    if |sub| > |s| then false
    else s[..|sub|] == sub || Contains(s[1..], sub)
  }

  /** sub occurs in s starting at offset k. */
  predicate OccursAt(s: string, sub: string, k: nat)
  {
    k + |sub| <= |s| && s[k..k + |sub|] == sub
  }

  /** The scan finds sub exactly when it occurs at some offset. */
  lemma {:induction false} ContainsIff(s: string, sub: string)
    ensures Contains(s, sub) <==> exists k: nat :: OccursAt(s, sub, k)
    decreases |s|
  {
    if |sub| > |s| {
      forall k: nat
        ensures !OccursAt(s, sub, k)
      {
      }
    } else if s[..|sub|] == sub {
      assert OccursAt(s, sub, 0);
    } else {
      assert |sub| > 0;
      ContainsIff(s[1..], sub);
      forall k: nat
        ensures OccursAt(s, sub, k + 1) == OccursAt(s[1..], sub, k)
      {
        if k + 1 + |sub| <= |s| {
          assert s[k + 1..k + 1 + |sub|] == s[1..][k..k + |sub|];
        }
      }
      if k: nat :| OccursAt(s, sub, k) {
        assert k != 0;
        assert OccursAt(s[1..], sub, k - 1);
      }
    }
  }

  /** Some step's command contains some manifest name. */
  ghost predicate Associated(job: CircleciJob, manifestNames: seq<string>)
  {
    exists i, j :: 0 <= i < |Steps(job)| && 0 <= j < |manifestNames| && Contains(Command(Steps(job)[i]), manifestNames[j])
  }

  /** has_associated_manifest_job: the nested search, returning at the first match. */
  method HasAssociatedManifestJob(job: CircleciJob, manifestNames: seq<string>) returns (found: bool)
    ensures found <==> Associated(job, manifestNames)
  {
    var steps := Steps(job);
    var i := 0;
    while i < |steps|
      invariant 0 <= i <= |steps|
      invariant forall i', j :: 0 <= i' < i && 0 <= j < |manifestNames| ==> !Contains(Command(steps[i']), manifestNames[j])
    {
      var command := Command(steps[i]);
      var j := 0;
      while j < |manifestNames|
        invariant 0 <= j <= |manifestNames|
        invariant forall j' :: 0 <= j' < j ==> !Contains(command, manifestNames[j'])
      {
        if Contains(command, manifestNames[j]) {
          return true;
        }
        j := j + 1;
      }
      i := i + 1;
    }
    return false;
  }

  /** A job without steps, or whose steps run nothing, is never associated. */
  lemma NoCommandsNoAssociation(job: CircleciJob, manifestNames: seq<string>)
    requires forall i :: 0 <= i < |Steps(job)| ==> Command(Steps(job)[i]) == ""
    requires forall j :: 0 <= j < |manifestNames| ==> manifestNames[j] != ""
    ensures !Associated(job, manifestNames)
  {
    forall i, j | 0 <= i < |Steps(job)| && 0 <= j < |manifestNames|
      ensures !Contains(Command(Steps(job)[i]), manifestNames[j])
    {
      assert |manifestNames[j]| > 0;
    }
  }

  /** The names of the associated jobs, in the order of the jobs mapping. */
  ghost function AlreadyBuilt(jobs: seq<(string, CircleciJob)>, manifestNames: seq<string>): seq<string>
  {
    if jobs == [] then []
    else (if Associated(jobs[0].1, manifestNames) then [jobs[0].0] else []) + AlreadyBuilt(jobs[1..], manifestNames)
  }

  lemma {:induction false} AlreadyBuiltAppend(xs: seq<(string, CircleciJob)>, ys: seq<(string, CircleciJob)>, manifestNames: seq<string>)
    ensures AlreadyBuilt(xs + ys, manifestNames) == AlreadyBuilt(xs, manifestNames) + AlreadyBuilt(ys, manifestNames)
  {
    if xs != [] {
      assert (xs + ys)[1..] == xs[1..] + ys;
      AlreadyBuiltAppend(xs[1..], ys, manifestNames);
    } else {
      assert xs + ys == ys;
    }
  }

  /** A name is reported exactly when some job of that name is associated. */
  lemma {:induction false} AlreadyBuiltMembers(jobs: seq<(string, CircleciJob)>, manifestNames: seq<string>, name: string)
    ensures name in AlreadyBuilt(jobs, manifestNames) <==>
      exists i :: 0 <= i < |jobs| && jobs[i].0 == name && Associated(jobs[i].1, manifestNames)
  {
    if jobs != [] {
      AlreadyBuiltMembers(jobs[1..], manifestNames, name);
      forall i | 0 < i < |jobs|
        ensures jobs[i] == jobs[1..][i - 1]
      {
      }
      if name in AlreadyBuilt(jobs[1..], manifestNames) {
        var i :| 0 <= i < |jobs[1..]| && jobs[1..][i].0 == name && Associated(jobs[1..][i].1, manifestNames);
        assert jobs[i + 1] == jobs[1..][i];
      }
    }
  }

  /**
   * get_already_built_circleci_job_names: the generator's output, in the
   * order of the jobs mapping, for the two hard-coded manifest names.
   */
  method GetAlreadyBuiltCircleciJobNames(circleciJobs: seq<(string, CircleciJob)>) returns (names: seq<string>)
    ensures names == AlreadyBuilt(circleciJobs, BuiltManifestNames)
  {
    names := [];
    var i := 0;
    while i < |circleciJobs|
      invariant 0 <= i <= |circleciJobs|
      invariant names == AlreadyBuilt(circleciJobs[..i], BuiltManifestNames)
    {
      var (jobName, job) := circleciJobs[i];
      var associated := HasAssociatedManifestJob(job, BuiltManifestNames);
      if associated {
        names := names + [jobName];
      }
      assert circleciJobs[..i + 1] == circleciJobs[..i] + [circleciJobs[i]];
      AlreadyBuiltAppend(circleciJobs[..i], [circleciJobs[i]], BuiltManifestNames);
      i := i + 1;
    }
    assert circleciJobs[..i] == circleciJobs;
  }

  // ----- removing jobs from a workflow -----

  /**
   * An entry of a workflow's job list: a mapping with one key, the job's
   * name, whose value holds an optional "requires" list. The script
   * rewrites "requires" in place.
   */
  class WorkflowJob {
    const name: string
    var dependencies: Option<seq<string>>

    constructor (name: string, dependencies: Option<seq<string>>)
      ensures this.name == name && this.dependencies == dependencies
    {
      this.name := name;
      this.dependencies := dependencies;
    }
  }

  /** job[key].get("requires", []) */
  function Requires(dependencies: Option<seq<string>>): seq<string>
  {
    if dependencies.Some? then dependencies.value else []
  }

  /** The new "requires" entry of a kept job: its old list, or [], without the names being removed. */
  function Rewritten(dependencies: Option<seq<string>>, removed: seq<string>): Option<seq<string>>
  {
    Some(Without(Requires(dependencies), removed))
  }

  /** [r for r in xs if r not in removed] */
  function Without(xs: seq<string>, removed: seq<string>): (ys: seq<string>)
    ensures forall y :: y in ys <==> y in xs && y !in removed
    ensures |ys| <= |xs|
  {
    if xs == [] then []
    else (if xs[0] in removed then [] else [xs[0]]) + Without(xs[1..], removed)
  }

  lemma {:induction false} WithoutAppend(xs: seq<string>, ys: seq<string>, removed: seq<string>)
    ensures Without(xs + ys, removed) == Without(xs, removed) + Without(ys, removed)
  {
    if xs != [] {
      assert (xs + ys)[1..] == xs[1..] + ys;
      WithoutAppend(xs[1..], ys, removed);
    } else {
      assert xs + ys == ys;
    }
  }

  /** Filtering twice is filtering once, so a job listed twice is rewritten consistently. */
  lemma {:induction false} WithoutIdempotent(xs: seq<string>, removed: seq<string>)
    ensures Without(Without(xs, removed), removed) == Without(xs, removed)
  {
    if xs != [] {
      WithoutIdempotent(xs[1..], removed);
      var head := if xs[0] in removed then [] else [xs[0]];
      WithoutAppend(head, Without(xs[1..], removed), removed);
      if xs[0] !in removed {
        assert [xs[0]][1..] == [];
      }
    }
  }

  /** A list that names no removed job is left as it is. */
  lemma {:induction false} WithoutNothingRemoved(xs: seq<string>, removed: seq<string>)
    requires forall x :: x in xs ==> x !in removed
    ensures Without(xs, removed) == xs
  {
    if xs != [] {
      WithoutNothingRemoved(xs[1..], removed);
      assert [xs[0]] + xs[1..] == xs;
    }
  }

  /** The entries whose name is not removed, in their original order. */
  function KeptJobs(jobs: seq<WorkflowJob>, toRemove: seq<string>): seq<WorkflowJob>
  {
    if jobs == [] then []
    else
      var last := jobs[|jobs| - 1];
      KeptJobs(jobs[..|jobs| - 1], toRemove) + (if last.name in toRemove then [] else [last])
  }

  /** An entry is kept exactly when it is listed and its name is not removed. */
  lemma {:induction false} KeptJobsMembers(jobs: seq<WorkflowJob>, toRemove: seq<string>, job: WorkflowJob)
    ensures job in KeptJobs(jobs, toRemove) <==> job in jobs && job.name !in toRemove
  {
    if jobs != [] {
      KeptJobsMembers(jobs[..|jobs| - 1], toRemove, job);
      assert jobs == jobs[..|jobs| - 1] + [jobs[|jobs| - 1]];
    }
  }

  lemma {:induction false} KeptJobsAppend(xs: seq<WorkflowJob>, ys: seq<WorkflowJob>, toRemove: seq<string>)
    ensures KeptJobs(xs + ys, toRemove) == KeptJobs(xs, toRemove) + KeptJobs(ys, toRemove)
    decreases |ys|
  {
    if ys == [] {
      assert xs + ys == xs;
    } else {
      var init := ys[..|ys| - 1];
      assert (xs + ys)[..|xs + ys| - 1] == xs + init;
      KeptJobsAppend(xs, init, toRemove);
    }
  }

  /**
   * remove_jobs_from_workflow with the dependency filter reading its own
   * to_remove parameter: the kept entries in order, each with its
   * "requires" rewritten to the names that are not removed.
   */
  method RemoveJobsFromWorkflow(jobs: seq<WorkflowJob>, toRemove: seq<string>) returns (newJobs: seq<WorkflowJob>)
    modifies set j | j in jobs
    ensures newJobs == KeptJobs(jobs, toRemove)
    ensures forall j :: j in jobs ==>
      j.dependencies == if j.name in toRemove then old(j.dependencies) else Some(Without(Requires(old(j.dependencies)), toRemove))
  {
    newJobs := FilterWorkflow(jobs, toRemove, toRemove);
  }

  /**
   * remove_jobs_from_workflow as written: the entries are chosen by
   * to_remove, but the "requires" lists are filtered by the module-level
   * jobs_to_remove, passed here as globalJobsToRemove.
   */
  method RemoveJobsFromWorkflowAsWritten(jobs: seq<WorkflowJob>, toRemove: seq<string>, globalJobsToRemove: seq<string>)
    returns (newJobs: seq<WorkflowJob>)
    modifies set j | j in jobs
    ensures newJobs == KeptJobs(jobs, toRemove)
    ensures forall j :: j in jobs ==>
      j.dependencies == if j.name in toRemove then old(j.dependencies) else Some(Without(Requires(old(j.dependencies)), globalJobsToRemove))
  {
    newJobs := FilterWorkflow(jobs, toRemove, globalJobsToRemove);
  }

  /** The loop of remove_jobs_from_workflow, with the list its dependency filter uses as a parameter. */
  method FilterWorkflow(jobs: seq<WorkflowJob>, toRemove: seq<string>, dependencyFilter: seq<string>)
    returns (newJobs: seq<WorkflowJob>)
    modifies set j | j in jobs
    ensures newJobs == KeptJobs(jobs, toRemove)
    ensures forall j :: j in jobs ==>
      j.dependencies == if j.name in toRemove then old(j.dependencies) else Some(Without(Requires(old(j.dependencies)), dependencyFilter))
  {
    newJobs := [];
    var i := 0;
    while i < |jobs|
      invariant 0 <= i <= |jobs|
      invariant newJobs == KeptJobs(jobs[..i], toRemove)
      invariant forall j | j in jobs ::
        j.dependencies == if j in newJobs then Rewritten(old(j.dependencies), dependencyFilter) else old(j.dependencies)
    {
      var job := jobs[i];
      KeptJobsStep(jobs, toRemove, i);
      if job.name !in toRemove {
        RewriteDependencies(job, dependencyFilter, old(job.dependencies));
        newJobs := newJobs + [job];
      }
      i := i + 1;
    }
    assert jobs[..i] == jobs;
    forall j | j in jobs
      ensures j in newJobs <==> j.name !in toRemove
    {
      KeptJobsMembers(jobs, toRemove, j);
    }
  }

  /** One more entry of the workflow is kept exactly when its name is not removed. */
  lemma KeptJobsStep(jobs: seq<WorkflowJob>, toRemove: seq<string>, i: nat)
    requires i < |jobs|
    ensures KeptJobs(jobs[..i + 1], toRemove)
         == KeptJobs(jobs[..i], toRemove) + (if jobs[i].name in toRemove then [] else [jobs[i]])
  {
    assert jobs[..i + 1][..i] == jobs[..i];
  }

  /**
   * job[key]["requires"] = [r for r in job[key].get("requires", []) if r not in removed],
   * on an entry whose list is still the original one or was already rewritten
   * (the same entry listed twice).
   */
  method RewriteDependencies(job: WorkflowJob, removed: seq<string>, ghost original: Option<seq<string>>)
    modifies job
    requires job.dependencies == original || job.dependencies == Rewritten(original, removed)
    ensures job.dependencies == Rewritten(original, removed)
  {
    WithoutIdempotent(Requires(original), removed);
    job.dependencies := Rewritten(job.dependencies, removed);
  }

  /** With the parameter as the filter, no kept entry still requires a removed job. */
  lemma NoRequirementOnRemovedJob(dependencies: Option<seq<string>>, toRemove: seq<string>, r: string)
    requires r in Without(Requires(dependencies), toRemove)
    ensures r !in toRemove
  {
  }

  /**
   * As written, removing "build" while the global list is empty leaves
   * "test" requiring the removed "build".
   */
  method AsWrittenKeepsRemovedDependency() returns (newJobs: seq<WorkflowJob>, toRemove: seq<string>)
    ensures toRemove == ["build"]
    ensures |newJobs| == 1 && newJobs[0].name == "test"
    ensures newJobs[0].dependencies == Some(["build"]) && "build" in toRemove
  {
    var build := new WorkflowJob("build", None);
    var test := new WorkflowJob("test", Some(["build"]));
    toRemove := ["build"];
    assert "test" != "build";
    newJobs := RemoveJobsFromWorkflowAsWritten([build, test], toRemove, []);
    assert test in [build, test];
    assert Without(["build"], []) == ["build"];
    assert KeptJobs([build], toRemove) == [] by {
      assert [build][..0] == [];
    }
    assert KeptJobs([build, test], toRemove) == [test] by {
      assert [build, test][..1] == [build];
    }
  }

  /** The corrected filter, on the same workflow, drops the dependency on "build". */
  method CorrectedDropsRemovedDependency() returns (newJobs: seq<WorkflowJob>, toRemove: seq<string>)
    ensures toRemove == ["build"]
    ensures |newJobs| == 1 && newJobs[0].name == "test" && newJobs[0].dependencies == Some([])
  {
    var build := new WorkflowJob("build", None);
    var test := new WorkflowJob("test", Some(["build"]));
    toRemove := ["build"];
    assert "test" != "build";
    newJobs := RemoveJobsFromWorkflow([build, test], toRemove);
    assert test in [build, test];
    assert KeptJobs([build], toRemove) == [] by {
      assert [build][..0] == [];
    }
    assert KeptJobs([build, test], toRemove) == [test] by {
      assert [build, test][..1] == [build];
    }
    assert Without(["build"], toRemove) == [];
  }
}
