/** The reconcilers `UpdateGitRepository`, `UpdateSvnRepository` and
    `UpdateAllRepositories`, identical in both variants once a record has
    been turned into a job (the older variant always passes revision
    `HEAD`).

    The filesystem and the processes are not run: each target is described
    by what the script would observe there, and an update yields the trace
    of commands and filesystem actions it issues and how it ends. */
module Reconcile {
  import opened Values
  import opened Paths

  /** What the script observes at one target directory. */
  datatype Local = Local(
    dirExists: bool,                  // os.path.exists(targetPath)
    gitExists: bool,                  // os.path.exists(targetPath/.git)
    remoteUrls: map<string, string>,  // remote name -> configured URL, as `git config --get` prints it, stripped
    tempExists: bool,                 // targetPath/temp_path exists when it is to be removed
    cloneMakesGit: bool)              // the clone into temp_path left a `.git` behind

  /** A merged record as the reconcilers read it. */
  datatype Job =
    | GitJob(url: JVal, remote: JVal, branch: JVal, path: string)
    | SvnJob(url: JVal, revision: JVal, path: string)

  datatype Action =
    | Run(argv: seq<string>)    // subprocess.run without check: its exit status is ignored
    | Query(argv: seq<string>)  // subprocess.run with check=True, stdout captured
    | RemoveTree(path: string)  // shutil.rmtree
    | Move(src: string, dst: string)  // shutil.move

  datatype Ending =
    | Finished
    | ReturnedEarly   // the function returned before its last command
    | Raised(exc: Exc)

  datatype Report = Report(actions: seq<Action>, ending: Ending)

  /** The argument list `subprocess.run` receives, or None when an argument
      is not a string, in which case it raises TypeError. */
  function Argv(args: seq<JVal>): Option<seq<string>>
  {
    if forall i :: 0 <= i < |args| ==> args[i].Str? then
      Some(seq(|args|, i requires 0 <= i < |args| && args[i].Str? => args[i].s))
    else None
  }

  /** `Cmd(commands)`: one command whose outcome is ignored. */
  function Cmd(args: seq<JVal>): Report
  {
    match Argv(args)
    case None => Report([], Raised(TypeError))
    case Some(argv) => Report([Run(argv)], Finished)
  }

  /** A command whose arguments are all strings runs them as they are. */
  lemma CmdOfStrings(args: seq<JVal>, argv: seq<string>)
    requires |args| == |argv| && forall i :: 0 <= i < |args| ==> args[i] == Str(argv[i])
    ensures Cmd(args) == Report([Run(argv)], Finished)
  {
    assert Argv(args).value == argv;
  }

  /** A command with an argument that is not a string raises TypeError
      before running. */
  lemma CmdOfNonString(args: seq<JVal>, i: nat)
    requires i < |args| && !args[i].Str?
    ensures Cmd(args) == Report([], Raised(TypeError))
  {
  }

  /** Run `a`, then `b` if `a` ran to its end. */
  function Then(a: Report, b: Report): Report
  {
    if a.ending == Finished then Report(a.actions + b.actions, b.ending) else a
  }

  function Done(actions: seq<Action>): Report
  {
    Report(actions, Finished)
  }

  function GitDir(path: string): string { Join(path, ".git") }

  function TempDir(path: string): string { Join(path, "temp_path") }

  function QueryArgv(path: string, remote: string): seq<string>
  {
    ["git", "-C", path, "config", "--get", "remote." + remote + ".url"]
  }

  function CheckoutArgs(path: string, branch: JVal): seq<JVal>
  {
    [Str("git"), Str("-C"), Str(path), Str("checkout"), branch, Str("--force")]
  }

  function PullArgs(path: string, remote: JVal, branch: JVal): seq<JVal>
  {
    [Str("git"), Str("-C"), Str(path), Str("pull"), remote, branch, Str("--force")]
  }

  /** Clone into `temp_path` and move its `.git` up into the target. */
  function Reclone(url: JVal, path: string, local: Local): Report
  {
    var temp := TempDir(path);
    if !local.tempExists then Report([], Raised(FileNotFoundError(temp)))
    else
      Then(Done([RemoveTree(temp)]),
      Then(Cmd([Str("git"), Str("clone"), Str("--no-checkout"), url, Str(temp)]),
        if local.cloneMakesGit then Done([Move(GitDir(temp), path), RemoveTree(temp)])
        else Report([], Raised(FileNotFoundError(GitDir(temp))))))
  }

  /** Checkout of the branch, then pull of the remote branch. */
  function Finish(path: string, remote: JVal, branch: JVal): Report
  {
    Then(Cmd(CheckoutArgs(path, branch)), Cmd(PullArgs(path, remote, branch)))
  }

  /** What the git reconciler does before the checkout, by the state of
      the target. */
  function Prepare(url: JVal, remote: JVal, path: string, local: Local): Report
  {
    if !local.dirExists then
      Cmd([Str("git"), Str("clone"), url, Str(path)])
    else if !local.gitExists then
      Reclone(url, path, local)
    else if !remote.Str? then
      Report([], Raised(TypeError))
    else if remote.s !in local.remoteUrls then
      Report([Query(QueryArgv(path, remote.s))], ReturnedEarly)
    else if Str(local.remoteUrls[remote.s]) == url then
      Done([Query(QueryArgv(path, remote.s))])
    else
      Then(Done([Query(QueryArgv(path, remote.s)), RemoveTree(GitDir(path))]), Reclone(url, path, local))
  }

  /** The preparation of an existing target that needs the temporary
      clone, after what was done before it. */
  lemma PrepareNeedsReclone(url: JVal, remote: JVal, path: string, local: Local)
    requires local.dirExists
    ensures !local.gitExists ==> Prepare(url, remote, path, local) == Reclone(url, path, local)
    ensures local.gitExists && remote.Str? && remote.s in local.remoteUrls && Str(local.remoteUrls[remote.s]) != url ==>
      Prepare(url, remote, path, local) ==
        Then(Done([Query(QueryArgv(path, remote.s)), RemoveTree(GitDir(path))]), Reclone(url, path, local))
  {
  }

  /** What the git reconciler does: the preparation, then, if it ran to its
      end, checkout and pull. */
  function GitPlan(url: JVal, remote: JVal, branch: JVal, path: string, local: Local): Report
  {
    Then(Prepare(url, remote, path, local), Finish(path, remote, branch))
  }

  function SvnPlan(url: JVal, revision: JVal, path: string): Report
  {
    Then(Cmd([Str("svn"), Str("checkout"), Str("--force"), url, Str("--revision"), revision, Str(path)]),
    Then(Cmd([Str("svn"), Str("update"), Str("--force"), Str("--accept=theirs-full"), Str(path)]),
      Cmd([Str("svn"), Str("revert"), Str("--depth"), Str("infinity"), Str(path)])))
  }

  function JobPlan(job: Job, local: Local): Report
  {
    match job
    case GitJob(url, remote, branch, path) => GitPlan(url, remote, branch, path, local)
    case SvnJob(url, revision, path) => SvnPlan(url, revision, path)
  }

  /** The jobs of a list of merged records, one per record and in order;
      `toJob` is how a variant reads a record. */
  function JobsOf<R>(rs: seq<R>, toJob: R -> Job): (jobs: seq<Job>)
    ensures |jobs| == |rs| && forall i :: 0 <= i < |rs| ==> jobs[i] == toJob(rs[i])
  {
    seq(|rs|, i requires 0 <= i < |rs| => toJob(rs[i]))
  }

  /** `UpdateGitRepository(config)`, guided by the `isRepo` and
      `needGitFolder` flags as the script is. */
  method UpdateGitRepository(url: JVal, remote: JVal, branch: JVal, targetPath: string, local: Local)
    returns (r: Report)
    ensures r == GitPlan(url, remote, branch, targetPath, local)
  {
    var trace: seq<Action> := [];
    ghost var prepare := Prepare(url, remote, targetPath, local);
    assert GitPlan(url, remote, branch, targetPath, local) == Then(prepare, Finish(targetPath, remote, branch));
    if !local.dirExists {
      var clone := Cmd([Str("git"), Str("clone"), url, Str(targetPath)]);
      if clone.ending != Finished {
        return clone;
      }
      trace := clone.actions;
    } else {
      var targetGitPath := Join(targetPath, ".git");
      var needGitFolder := false;
      if local.gitExists {
        var isRepo := false;
        if !remote.Str? {
          return Report([], Raised(TypeError));
        }
        trace := [Query(QueryArgv(targetPath, remote.s))];
        if remote.s !in local.remoteUrls {
          return Report(trace, ReturnedEarly);
        }
        var repoUrlOutput := local.remoteUrls[remote.s];
        if Str(repoUrlOutput) == url {
          isRepo := true;
        }
        if !isRepo {
          trace := trace + [RemoveTree(targetGitPath)];
          needGitFolder := true;
        }
      } else {
        needGitFolder := true;
      }
      if needGitFolder {
        PrepareNeedsReclone(url, remote, targetPath, local);
        assert prepare == Then(Done(trace), Reclone(url, targetPath, local));
        var tempPath := Join(targetPath, "temp_path");
        if !local.tempExists {
          return Report(trace, Raised(FileNotFoundError(tempPath)));
        }
        // rmtree, clone, move and rmtree; the trace is grouped as `Reclone` groups it
        var clone := Cmd([Str("git"), Str("clone"), Str("--no-checkout"), url, Str(tempPath)]);
        if clone.ending != Finished {
          return Report(trace + ([RemoveTree(tempPath)] + clone.actions), clone.ending);
        }
        if !local.cloneMakesGit {
          return Report(trace + ([RemoveTree(tempPath)] + clone.actions), Raised(FileNotFoundError(Join(tempPath, ".git"))));
        }
        trace := trace + ([RemoveTree(tempPath)] + (clone.actions + [Move(Join(tempPath, ".git"), targetPath), RemoveTree(tempPath)]));
      }
    }
    assert prepare == Done(trace);
    var checkout := Cmd(CheckoutArgs(targetPath, branch));
    if checkout.ending != Finished {
      return Report(trace + checkout.actions, checkout.ending);
    }
    var pull := Cmd(PullArgs(targetPath, remote, branch));
    return Report(trace + (checkout.actions + pull.actions), pull.ending);
  }

  /** `UpdateSvnRepository(config)`: the update and the revert take only
      strings besides the target path, so only the checkout can raise. */
  method UpdateSvnRepository(url: JVal, revision: JVal, targetPath: string) returns (r: Report)
    ensures r == SvnPlan(url, revision, targetPath)
  {
    var checkout := Cmd([Str("svn"), Str("checkout"), Str("--force"), url, Str("--revision"), revision, Str(targetPath)]);
    if checkout.ending != Finished {
      return checkout;
    }
    var updateArgs := [Str("svn"), Str("update"), Str("--force"), Str("--accept=theirs-full"), Str(targetPath)];
    var revertArgs := [Str("svn"), Str("revert"), Str("--depth"), Str("infinity"), Str(targetPath)];
    CmdOfStrings(updateArgs, ["svn", "update", "--force", "--accept=theirs-full", targetPath]);
    CmdOfStrings(revertArgs, ["svn", "revert", "--depth", "infinity", targetPath]);
    var update := Cmd(updateArgs);
    var revert := Cmd(revertArgs);
    return Report(checkout.actions + update.actions + revert.actions, Finished);
  }

  /** The run over all jobs: an early return ends only its own job, an
      exception ends the run. */
  function AllPlan(jobs: seq<Job>, env: string -> Local): (r: Report)
    ensures r.ending != ReturnedEarly
    decreases |jobs|
  {
    if jobs == [] then Done([])
    else
      var before := AllPlan(jobs[..|jobs| - 1], env);
      var job := jobs[|jobs| - 1];
      if before.ending != Finished then before
      else
        var here := JobPlan(job, env(job.path));
        Report(before.actions + here.actions, if here.ending.Raised? then here.ending else Finished)
  }

  /** `UpdateAllRepositories(configs)`: `env` gives the state observed at
      each target path. */
  method UpdateAllRepositories(jobs: seq<Job>, env: string -> Local) returns (r: Report)
    ensures r == AllPlan(jobs, env)
  {
    var trace: seq<Action> := [];
    for i := 0 to |jobs|
      invariant AllPlan(jobs[..i], env) == Done(trace)
    {
      var job := jobs[i];
      var here: Report;
      if job.GitJob? {
        here := UpdateGitRepository(job.url, job.remote, job.branch, job.path, env(job.path));
      } else {
        here := UpdateSvnRepository(job.url, job.revision, job.path);
      }
      assert jobs[..i + 1][..i] == jobs[..i];
      trace := trace + here.actions;
      if here.ending.Raised? {
        AllPlanCrashPersists(jobs, env, i + 1);
        assert jobs[..|jobs|] == jobs;
        return Report(trace, here.ending);
      }
    }
    assert jobs[..|jobs|] == jobs;
    return Done(trace);
  }

  lemma {:induction false} AllPlanCrashPersists(jobs: seq<Job>, env: string -> Local, n: nat)
    requires n <= |jobs| && AllPlan(jobs[..n], env).ending.Raised?
    ensures AllPlan(jobs, env) == AllPlan(jobs[..n], env)
    decreases |jobs| - n
  {
    if n < |jobs| {
      assert jobs[..n + 1][..n] == jobs[..n];
      AllPlanCrashPersists(jobs, env, n + 1);
    } else {
      assert jobs[..n] == jobs;
    }
  }

  // ---------------------------------------------------------------------
  // Properties of the git reconciler

  function CloneTrace(url: string, path: string): seq<Action>
  {
    var temp := TempDir(path);
    [RemoveTree(temp), Run(["git", "clone", "--no-checkout", url, temp]),
     Move(GitDir(temp), path), RemoveTree(temp)]
  }

  /** The actions of a temporary clone that raises: none when `temp_path`
      is missing, else its removal and the clone, after which `.git` is not
      found. */
  function FailedCloneTrace(url: string, path: string, local: Local): seq<Action>
  {
    var temp := TempDir(path);
    if !local.tempExists then [] else [RemoveTree(temp), Run(["git", "clone", "--no-checkout", url, temp])]
  }

  /** The exception of a temporary clone that raises. */
  function CloneFailure(path: string, local: Local): Ending
  {
    if !local.tempExists then Raised(FileNotFoundError(TempDir(path)))
    else Raised(FileNotFoundError(GitDir(TempDir(path))))
  }

  function FinishTrace(path: string, remote: string, branch: string): seq<Action>
  {
    [Run(["git", "-C", path, "checkout", branch, "--force"]),
     Run(["git", "-C", path, "pull", remote, branch, "--force"])]
  }

  /** Checkout and pull run when the branch and the remote are strings;
      otherwise the first command holding a non-string raises. */
  lemma FinishOutcome(path: string, remote: JVal, branch: JVal)
    ensures Finish(path, remote, branch).ending == Finished <==> remote.Str? && branch.Str?
    ensures remote.Str? && branch.Str? ==>
      Finish(path, remote, branch).actions == FinishTrace(path, remote.s, branch.s)
    ensures Finish(path, remote, branch).ending != Finished ==>
      Finish(path, remote, branch).ending == Raised(TypeError)
    ensures forall a :: a in Finish(path, remote, branch).actions ==> a.Run?
  {
    if !branch.Str? {
      CmdOfNonString(CheckoutArgs(path, branch), 4);
    } else {
      CmdOfStrings(CheckoutArgs(path, branch), ["git", "-C", path, "checkout", branch.s, "--force"]);
      if !remote.Str? {
        CmdOfNonString(PullArgs(path, remote, branch), 4);
      } else {
        CmdOfStrings(PullArgs(path, remote, branch), ["git", "-C", path, "pull", remote.s, branch.s, "--force"]);
      }
    }
  }

  /** The temporary clone goes through exactly when `temp_path` exists, the
      URL is a string and the clone leaves a `.git`; otherwise it raises. */
  lemma RecloneOutcome(url: JVal, path: string, local: Local)
    ensures Reclone(url, path, local).ending == Finished <==>
      url.Str? && local.tempExists && local.cloneMakesGit
    ensures Reclone(url, path, local).ending != Finished ==> Reclone(url, path, local).ending.Raised?
    ensures url.Str? && local.tempExists && local.cloneMakesGit ==>
      Reclone(url, path, local).actions == CloneTrace(url.s, path)
    ensures url.Str? && !(local.tempExists && local.cloneMakesGit) ==>
      Reclone(url, path, local) == Report(FailedCloneTrace(url.s, path, local), CloneFailure(path, local))
    ensures forall a :: a in Reclone(url, path, local).actions ==>
      a.Run? || a == RemoveTree(TempDir(path)) || a == Move(GitDir(TempDir(path)), path)
  {
    var temp := TempDir(path);
    var args := [Str("git"), Str("clone"), Str("--no-checkout"), url, Str(temp)];
    if url.Str? {
      CmdOfStrings(args, ["git", "clone", "--no-checkout", url.s, temp]);
    } else {
      CmdOfNonString(args, 3);
    }
  }

  /** The plain clone of a missing target. */
  lemma CloneOutcome(url: JVal, path: string)
    ensures Cmd([Str("git"), Str("clone"), url, Str(path)]) ==
      if url.Str? then Done([Run(["git", "clone", url.s, path])]) else Report([], Raised(TypeError))
  {
    if url.Str? {
      CmdOfStrings([Str("git"), Str("clone"), url, Str(path)], ["git", "clone", url.s, path]);
    } else {
      CmdOfNonString([Str("git"), Str("clone"), url, Str(path)], 2);
    }
  }

  /** The decision table of the git reconciler when every value is a
      string: one row per state of the target, including the rows where the
      temporary clone raises because `temp_path` is missing or the clone
      leaves no `.git`. */
  lemma GitTraceByState(url: string, remote: string, branch: string, path: string, local: Local)
    ensures var r := GitPlan(Str(url), Str(remote), Str(branch), path, local);
      var query := Query(QueryArgv(path, remote));
      var reclone := local.tempExists && local.cloneMakesGit;
      && (!local.dirExists ==>
            r == Done([Run(["git", "clone", url, path])] + FinishTrace(path, remote, branch)))
      && (local.dirExists && !local.gitExists && reclone ==>
            r == Done(CloneTrace(url, path) + FinishTrace(path, remote, branch)))
      && (local.dirExists && !local.gitExists && !reclone ==>
            r == Report(FailedCloneTrace(url, path, local), CloneFailure(path, local)))
      && (local.dirExists && local.gitExists && remote !in local.remoteUrls ==>
            r == Report([query], ReturnedEarly))
      && (local.dirExists && local.gitExists && remote in local.remoteUrls && local.remoteUrls[remote] == url ==>
            r == Done([query] + FinishTrace(path, remote, branch)))
      && (local.dirExists && local.gitExists && remote in local.remoteUrls && local.remoteUrls[remote] != url && reclone ==>
            r == Done([query, RemoveTree(GitDir(path))] + CloneTrace(url, path) + FinishTrace(path, remote, branch)))
      && (local.dirExists && local.gitExists && remote in local.remoteUrls && local.remoteUrls[remote] != url && !reclone ==>
            r == Report([query, RemoveTree(GitDir(path))] + FailedCloneTrace(url, path, local), CloneFailure(path, local)))
  {
    FinishOutcome(path, Str(remote), Str(branch));
    RecloneOutcome(Str(url), path, local);
    CloneOutcome(Str(url), path);
    var q := [Query(QueryArgv(path, remote)), RemoveTree(GitDir(path))];
    assert q + (CloneTrace(url, path) + FinishTrace(path, remote, branch))
        == q + CloneTrace(url, path) + FinishTrace(path, remote, branch);
  }

  /** Whenever the git reconciler runs to its end, its last two commands are
      the checkout of the branch and the pull of the remote branch, and the
      only early return is the failed URL query, after which nothing runs. */
  lemma GitFinishesWithCheckoutThenPull(url: JVal, remote: JVal, branch: JVal, path: string, local: Local)
    ensures var r := GitPlan(url, remote, branch, path, local);
      r.ending == Finished ==>
        && remote.Str? && branch.Str? && |r.actions| >= 2
        && r.actions[|r.actions| - 2..] == FinishTrace(path, remote.s, branch.s)
    ensures GitPlan(url, remote, branch, path, local).ending == ReturnedEarly <==>
      local.dirExists && local.gitExists && remote.Str? && remote.s !in local.remoteUrls
    ensures GitPlan(url, remote, branch, path, local).ending == ReturnedEarly ==>
      GitPlan(url, remote, branch, path, local).actions == [Query(QueryArgv(path, remote.s))]
  {
    FinishOutcome(path, remote, branch);
    RecloneOutcome(url, path, local);
    CloneOutcome(url, path);
    var r := GitPlan(url, remote, branch, path, local);
    var f := Finish(path, remote, branch);
    if r.ending == Finished {
      assert f.ending == Finished;
      assert r.actions[|r.actions| - 2..] == f.actions;
    }
  }

  /** An action the git reconciler may take on the target `path`. */
  predicate Allowed(a: Action, path: string)
  {
    && (a.RemoveTree? ==> a.path == GitDir(path) || a.path == TempDir(path))
    && (a.Move? ==> a.src == GitDir(TempDir(path)) && a.dst == path)
  }

  /** The git reconciler removes and moves only the target's `.git` and
      `temp_path`: never the target itself nor anything outside it. */
  lemma GitTouchesOnlyGitAndTemp(url: JVal, remote: JVal, branch: JVal, path: string, local: Local)
    ensures forall a :: a in GitPlan(url, remote, branch, path, local).actions ==> Allowed(a, path)
  {
    FinishOutcome(path, remote, branch);
    RecloneOutcome(url, path, local);
    CloneOutcome(url, path);
  }

  /** The git reconciler raises only when a value it passes on is not a
      string, or when the temporary clone is needed and `temp_path` is
      missing or the clone leaves no `.git`. Without `.git`, a missing
      `temp_path` raises before anything is done; when the URL differs, the
      query has run and `.git` has been removed before it raises. */
  lemma GitRaisesOnlyOn(url: JVal, remote: JVal, branch: JVal, path: string, local: Local)
    ensures GitPlan(url, remote, branch, path, local).ending.Raised? ==>
      || !url.Str? || !remote.Str? || !branch.Str?
      || (local.dirExists && !(local.tempExists && local.cloneMakesGit))
    ensures local.dirExists && !local.gitExists && !local.tempExists ==>
      GitPlan(url, remote, branch, path, local) == Report([], Raised(FileNotFoundError(TempDir(path))))
    ensures local.dirExists && local.gitExists && !local.tempExists && remote.Str?
            && remote.s in local.remoteUrls && Str(local.remoteUrls[remote.s]) != url ==>
      GitPlan(url, remote, branch, path, local) ==
        Report([Query(QueryArgv(path, remote.s)), RemoveTree(GitDir(path))], Raised(FileNotFoundError(TempDir(path))))
  {
    FinishOutcome(path, remote, branch);
    RecloneOutcome(url, path, local);
    CloneOutcome(url, path);
  }

  // ---------------------------------------------------------------------
  // Properties of the svn reconciler and of the run over all jobs

  /** The svn reconciler issues exactly checkout, update and revert, in this
      order, unless the URL or revision is not a string, in which case it
      raises before running anything. */
  lemma SvnThreeCommands(url: JVal, revision: JVal, path: string)
    ensures SvnPlan(url, revision, path).ending == Finished <==> url.Str? && revision.Str?
    ensures url.Str? && revision.Str? ==> (SvnPlan(url, revision, path).actions ==
      [Run(["svn", "checkout", "--force", url.s, "--revision", revision.s, path]),
       Run(["svn", "update", "--force", "--accept=theirs-full", path]),
       Run(["svn", "revert", "--depth", "infinity", path])])
    ensures !(url.Str? && revision.Str?) ==> SvnPlan(url, revision, path) == Report([], Raised(TypeError))
  {
    var checkout := [Str("svn"), Str("checkout"), Str("--force"), url, Str("--revision"), revision, Str(path)];
    CmdOfStrings([Str("svn"), Str("update"), Str("--force"), Str("--accept=theirs-full"), Str(path)],
      ["svn", "update", "--force", "--accept=theirs-full", path]);
    CmdOfStrings([Str("svn"), Str("revert"), Str("--depth"), Str("infinity"), Str(path)],
      ["svn", "revert", "--depth", "infinity", path]);
    if !url.Str? {
      CmdOfNonString(checkout, 3);
    } else if !revision.Str? {
      CmdOfNonString(checkout, 5);
    } else {
      CmdOfStrings(checkout, ["svn", "checkout", "--force", url.s, "--revision", revision.s, path]);
    }
  }

  /** The traces of the jobs, one after the other. */
  function Traces(jobs: seq<Job>, env: string -> Local): seq<Action>
    decreases |jobs|
  {
    if jobs == [] then []
    else
      var job := jobs[|jobs| - 1];
      Traces(jobs[..|jobs| - 1], env) + JobPlan(job, env(job.path)).actions
  }

  /** Each job is dispatched once, in list order: as long as none raises,
      the run's trace is the jobs' traces in sequence; the first one to
      raise ends the run with its own trace last. */
  lemma {:induction false} AllPlanDispatchesInOrder(jobs: seq<Job>, env: string -> Local, k: nat)
    requires k <= |jobs|
    requires forall i :: 0 <= i < k ==> !JobPlan(jobs[i], env(jobs[i].path)).ending.Raised?
    ensures AllPlan(jobs[..k], env) == Done(Traces(jobs[..k], env))
    ensures k < |jobs| && JobPlan(jobs[k], env(jobs[k].path)).ending.Raised? ==>
      AllPlan(jobs, env) == Report(Traces(jobs[..k + 1], env), JobPlan(jobs[k], env(jobs[k].path)).ending)
    decreases k
  {
    if k > 0 {
      assert jobs[..k][..k - 1] == jobs[..k - 1];
      AllPlanDispatchesInOrder(jobs, env, k - 1);
    }
    if k < |jobs| && JobPlan(jobs[k], env(jobs[k].path)).ending.Raised? {
      assert jobs[..k + 1][..k] == jobs[..k];
      AllPlanCrashPersists(jobs, env, k + 1);
    }
  }
}
