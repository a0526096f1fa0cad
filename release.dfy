/** The release pipeline of scripts/release.js: validate the version type, check
    git, bump the version, optionally build, then tag. Commands are not run: each
    goes to the `exec` oracle, and the run is described by the commands it issued
    and how it ended. */
module Release {
  import opened Wrappers
  import opened ScriptSupport
  import UpdateVersion

  const GitStatus: string := "git status --porcelain"
  const GitBranch: string := "git rev-parse --abbrev-ref HEAD"
  const BuildCommand: string := "npm run tauri:build"
  const CreateTagCommand: string := "node scripts/create-tag.js --auto-commit"

  /** A version type the script accepts: a keyword, or `/^\d+\.\d+\.\d+$/`. */
  predicate IsAcceptedType(versionType: string)
  {
    versionType in {"patch", "minor", "major"} || UpdateVersion.IsExplicitVersion(versionType)
  }

  /** Every type the script accepts is one that the version bump it runs can
      handle, so its "unknown version type" error cannot occur in a release. */
  lemma AcceptedTypesBump(current: string, versionType: string)
    requires IsAcceptedType(versionType)
    ensures UpdateVersion.GetNewVersion(current, versionType).Success?
  {
  }

  /** The command that bumps the version; the script's conditional builds the
      same string on both of its branches. */
  function UpdateVersionCommand(versionType: string): string
  {
    "node scripts/update-version.js " + versionType
  }

  predicate SkipBuild(args: seq<string>)
  {
    HasFlag(args, "--skip-build", "-s")
  }

  /** Step 1: the two git queries. */
  const GitChecks: seq<string> := [GitStatus, GitBranch]

  /** Steps 2 to 4: the bump, the build unless it is skipped, and the tag. */
  function ReleaseSteps(args: seq<string>): seq<string>
  {
    [UpdateVersionCommand(VersionTypeArg(args))] + (if SkipBuild(args) then [] else [BuildCommand]) + [CreateTagCommand]
  }

  /** The commands of a release in which every command succeeds. */
  function ReleasePlan(args: seq<string>): (plan: seq<string>)
    ensures BuildCommand in plan <==> !SkipBuild(args)
  {
    var plan := GitChecks + ReleaseSteps(args);
    assert plan[|plan| - 1] == CreateTagCommand;
    assert CreateTagCommand != BuildCommand;
    assert UpdateVersionCommand(VersionTypeArg(args))[0] == 'n';
    assert UpdateVersionCommand(VersionTypeArg(args)) != BuildCommand;
    assert plan[2] == UpdateVersionCommand(VersionTypeArg(args));
    plan
  }

  /** Step 1 of the script: the status and the branch are read; if either
      query fails the script stops. */
  method CheckGit(exec: Exec) returns (issued: seq<string>, passed: bool)
    ensures passed <==> AllSucceed(GitChecks, exec)
    ensures 0 < |issued| <= |GitChecks| && issued == GitChecks[..|issued|]
    ensures forall k | 0 <= k < |issued| - 1 :: exec(issued[k]).Some?
    ensures passed ==> issued == GitChecks
    ensures !passed ==> exec(issued[|issued| - 1]).None?
  {
    var ok;
    issued, ok := ExecCommand([], GitStatus, exec);
    assert GitChecks[0] == GitStatus && GitChecks[..1] == [GitStatus];
    if !ok { return issued, false; }
    issued, ok := ExecCommand(issued, GitBranch, exec);
    assert GitChecks[1] == GitBranch;
    if !ok { return issued, false; }
    passed := true;
  }

  /** Steps 2 to 4 of the script, stopping at the first command that fails. */
  method BumpBuildTag(args: seq<string>, exec: Exec) returns (issued: seq<string>, passed: bool)
    ensures passed <==> AllSucceed(ReleaseSteps(args), exec)
    ensures 0 < |issued| <= |ReleaseSteps(args)| && issued == ReleaseSteps(args)[..|issued|]
    ensures forall k | 0 <= k < |issued| - 1 :: exec(issued[k]).Some?
    ensures passed ==> issued == ReleaseSteps(args)
    ensures !passed ==> exec(issued[|issued| - 1]).None?
  {
    ghost var steps := ReleaseSteps(args);
    var ok;
    issued, ok := ExecCommand([], UpdateVersionCommand(VersionTypeArg(args)), exec);
    assert steps[0] == UpdateVersionCommand(VersionTypeArg(args));
    if !ok { return issued, false; }
    var skipBuild := SkipBuild(args);
    if !skipBuild {
      assert steps[1] == BuildCommand;
      issued, ok := ExecCommand(issued, BuildCommand, exec);
      if !ok { return issued, false; }
    }
    assert steps[|issued|] == CreateTagCommand && |steps| == |issued| + 1;
    issued, ok := ExecCommand(issued, CreateTagCommand, exec);
    if !ok { return issued, false; }
    passed := true;
  }

  /** A whole run: `versionAfterUpdate` is what package.json holds once the bump
      command has run. The run follows the plan and stops at the first failing
      command; an unaccepted type stops it before any command. */
  method Run(args: seq<string>, exec: Exec, versionAfterUpdate: string) returns (trace: seq<string>, outcome: Outcome)
    ensures !IsAcceptedType(VersionTypeArg(args)) ==> trace == [] && outcome == Exit(1)
    ensures IsAcceptedType(VersionTypeArg(args)) ==>
              0 < |trace| <= |ReleasePlan(args)| && trace == ReleasePlan(args)[..|trace|]
    ensures forall k | 0 <= k < |trace| - 1 :: exec(trace[k]).Some?
    ensures outcome.Exit? ==> outcome.code == 1 && (trace == [] || exec(trace[|trace| - 1]).None?)
    ensures outcome.Finished? <==> IsAcceptedType(VersionTypeArg(args)) && trace == ReleasePlan(args) && AllSucceed(trace, exec)
    ensures outcome.Finished? ==> outcome == Finished(versionAfterUpdate, TagName(versionAfterUpdate))
  {
    if !IsAcceptedType(VersionTypeArg(args)) {
      return [], Exit(1);
    }
    var issued, passed := CheckGit(exec);
    trace := issued;
    PrefixAfter([], ReleasePlan(args), issued);
    if !passed { return trace, Exit(1); }
    issued, passed := BumpBuildTag(args, exec);
    PrefixAfter(GitChecks, ReleaseSteps(args), issued);
    AllSucceedThenStop(trace, issued, exec);
    trace := trace + issued;
    if !passed { return trace, Exit(1); }
    outcome := Finished(versionAfterUpdate, TagName(versionAfterUpdate));
  }

  /** Commands that all succeeded, followed by a phase that stopped at its
      first failure: every command before the last succeeded. */
  lemma AllSucceedThenStop(done: seq<string>, next: seq<string>, exec: Exec)
    requires AllSucceed(done, exec) && 0 < |next|
    requires forall k | 0 <= k < |next| - 1 :: exec(next[k]).Some?
    ensures forall k | 0 <= k < |done + next| - 1 :: exec((done + next)[k]).Some?
    ensures AllSucceed(done + next, exec) <==> exec(next[|next| - 1]).Some?
  {
    forall k | 0 <= k < |done + next| - 1
      ensures exec((done + next)[k]).Some?
    {
      if k < |done| {
        assert (done + next)[k] == done[k];
      } else {
        assert (done + next)[k] == next[k - |done|];
      }
    }
    assert (done + next)[|done + next| - 1] == next[|next| - 1];
  }

  /** With the skip flag alone the flag is read as the version type, which is
      rejected before anything runs. */
  lemma SkipFlagAloneIsRejected()
    ensures !IsAcceptedType(VersionTypeArg(["--skip-build"]))
  {
    var t := "--skip-build";
    assert VersionTypeArg([t]) == t;
    assert t[1] == '-';
    assert forall p | 0 <= p < |t| :: t[p] != '.';
    UpdateVersion.DotlessIsNotExplicit(t);
  }
}
