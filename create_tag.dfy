/** The tagging script scripts/create-tag.js: tag name, the two pre-flight checks
    (uncommitted changes, an existing tag) and the publishing commands. Git is
    not run: each command goes to the `exec` oracle. */
module CreateTag {
  import opened Wrappers
  import opened Text
  import opened ScriptSupport

  const GitStatus: string := "git status --porcelain"
  const GitAddAll: string := "git add ."
  const GitTagList: string := "git tag -l"
  const GitBranch: string := "git rev-parse --abbrev-ref HEAD"

  function CommitCommand(version: string): string
  {
    "git commit -m \"chore: bump version to " + version + "\""
  }

  function DeleteLocalTag(tag: string): string
  {
    "git tag -d " + tag
  }

  function DeleteRemoteTag(tag: string): string
  {
    "git push origin --delete " + tag
  }

  function CreateTagCommand(tag: string, version: string): string
  {
    "git tag -a " + tag + " -m \"Release version " + version + "\""
  }

  function PushCommand(reference: string): string
  {
    "git push origin " + reference
  }

  predicate AutoCommit(args: seq<string>)
  {
    HasFlag(args, "--auto-commit", "-a")
  }

  predicate Force(args: seq<string>)
  {
    HasFlag(args, "--force", "-f")
  }

  // ---------------------------------------------------------------- the existing-tag test

  /** `tags.split('\n').includes(tag)`. */
  predicate TagListed(tags: string, tag: string)
  {
    tag in Split(tags, '\n')
  }

  /** `s[i..j]` is a whole line of `s`. */
  predicate LineSpan(s: string, i: int, j: int)
  {
    0 <= i <= j <= |s| && (i == 0 || s[i - 1] == '\n') && (j == |s| || s[j] == '\n') &&
    forall p | i <= p < j :: s[p] != '\n'
  }

  ghost predicate IsWholeLine(s: string, t: string)
  {
    exists i, j :: LineSpan(s, i, j) && s[i..j] == t
  }

  /** The first line break of a text that has one, and the split it starts. */
  lemma FirstBreak(s: string) returns (k: nat)
    requires '\n' in s
    ensures k < |s| && s[k] == '\n' && forall p | 0 <= p < k :: s[p] != '\n'
    ensures Split(s, '\n') == [s[..k]] + Split(s[k + 1..], '\n')
  {
    k := FirstIndexOf(s, '\n');
    forall p | 0 <= p < k
      ensures s[p] != '\n'
    {
      assert s[..k][p] == s[p];
    }
  }

  /** A text without a line break is one line, and its own only piece. */
  lemma SingleLine(s: string) returns (i: nat, j: nat)
    requires '\n' !in s
    ensures i == 0 && j == |s| && LineSpan(s, i, j) && s[i..j] == s
    ensures Split(s, '\n') == [s]
  {
    i, j := 0, |s|;
    assert s[i..j] == s;
  }

  /** The text before the first line break is a line. */
  lemma FirstLine(s: string, k: nat) returns (i: nat, j: nat)
    requires k < |s| && s[k] == '\n' && forall p | 0 <= p < k :: s[p] != '\n'
    ensures i == 0 && j == k && LineSpan(s, i, j) && s[i..j] == s[..k]
  {
    i, j := 0, k;
    assert s[0..k] == s[..k];
  }

  lemma SpanIntoWhole(s: string, k: nat, i: nat, j: nat) returns (i2: nat, j2: nat)
    requires k < |s| && s[k] == '\n'
    requires LineSpan(s[k + 1..], i, j)
    ensures i2 == i + k + 1 && j2 == j + k + 1
    ensures LineSpan(s, i2, j2) && s[i2..j2] == s[k + 1..][i..j]
  {
    i2, j2 := i + k + 1, j + k + 1;
    var rest := s[k + 1..];
    forall p | i + k + 1 <= p < j + k + 1
      ensures s[p] != '\n'
    {
      assert s[p] == rest[p - k - 1];
    }
    if i > 0 { assert s[i + k] == rest[i - 1]; }
    if j < |rest| { assert s[j + k + 1] == rest[j]; }
  }

  lemma SpanIntoRest(s: string, k: nat, i: nat, j: nat) returns (i2: nat, j2: nat)
    requires k < |s| && s[k] == '\n'
    requires k < i && LineSpan(s, i, j)
    ensures i2 == i - k - 1 && j2 == j - k - 1
    ensures LineSpan(s[k + 1..], i2, j2) && s[k + 1..][i2..j2] == s[i..j]
  {
    i2, j2 := i - k - 1, j - k - 1;
    var rest := s[k + 1..];
    forall p | i2 <= p < j2
      ensures rest[p] != '\n'
    {
      assert rest[p] == s[p + k + 1];
    }
    if i2 > 0 { assert rest[i2 - 1] == s[i - 1]; }
    if j2 < |rest| { assert rest[j2] == s[j]; }
  }

  /** In a text without line breaks, the only line is the whole text. */
  lemma OnlyLine(s: string, i: nat, j: nat)
    requires '\n' !in s && LineSpan(s, i, j)
    ensures s[i..j] in Split(s, '\n')
  {
    assert i == 0 && j == |s|;
    assert s[i..j] == s;
  }

  /** A line starting the text ends at the first line break. */
  lemma FirstLineListed(s: string, k: nat, j: nat)
    requires k < |s| && s[k] == '\n' && forall p | 0 <= p < k :: s[p] != '\n'
    requires Split(s, '\n') == [s[..k]] + Split(s[k + 1..], '\n')
    requires LineSpan(s, 0, j)
    ensures s[0..j] in Split(s, '\n')
  {
    assert j == k;
    assert s[0..j] == s[..k];
  }

  /** Piece `n` of a split after its first piece is piece `n - 1` of the rest. */
  lemma LaterPiece(r: seq<string>, first: string, rest: seq<string>, n: nat)
    requires r == [first] + rest && 0 < n < |r|
    ensures n - 1 < |rest| && r[n] == rest[n - 1]
  {
  }

  lemma {:induction false} PieceIsLine(s: string, n: nat) returns (i: nat, j: nat)
    requires n < |Split(s, '\n')|
    ensures LineSpan(s, i, j) && s[i..j] == Split(s, '\n')[n]
    decreases |s|
  {
    if '\n' !in s {
      i, j := SingleLine(s);
    } else {
      var k := FirstBreak(s);
      if n == 0 {
        i, j := FirstLine(s, k);
      } else {
        LaterPiece(Split(s, '\n'), s[..k], Split(s[k + 1..], '\n'), n);
        var i', j' := PieceIsLine(s[k + 1..], n - 1);
        i, j := SpanIntoWhole(s, k, i', j');
      }
    }
  }

  lemma {:induction false} LineIsListed(s: string, i: nat, j: nat)
    requires LineSpan(s, i, j)
    ensures s[i..j] in Split(s, '\n')
    decreases |s|
  {
    if '\n' !in s {
      OnlyLine(s, i, j);
    } else {
      var k := FirstBreak(s);
      if i == 0 {
        FirstLineListed(s, k, j);
      } else {
        assert k < i by {
          assert s[i - 1] == '\n';
        }
        var i2, j2 := SpanIntoRest(s, k, i, j);
        LineIsListed(s[k + 1..], i2, j2);
      }
    }
  }

  /** A tag is detected exactly when it is one whole line of the listing: a tag
      that is only a prefix or a part of a listed one is not. */
  lemma TagListedIsWholeLine(tags: string, tag: string)
    ensures TagListed(tags, tag) <==> IsWholeLine(tags, tag)
  {
    if TagListed(tags, tag) {
      var n :| 0 <= n < |Split(tags, '\n')| && Split(tags, '\n')[n] == tag;
      var i, j := PieceIsLine(tags, n);
    }
    if IsWholeLine(tags, tag) {
      var i: nat, j: nat :| LineSpan(tags, i, j) && tags[i..j] == tag;
      LineIsListed(tags, i, j);
    }
  }

  /** A listing of two tags names exactly those two. */
  lemma TwoLines(first: string, second: string, tag: string)
    requires '\n' !in first && '\n' !in second
    ensures TagListed(first + "\n" + second, tag) <==> tag == first || tag == second
  {
    SplitCons(first, '\n', second);
    assert Split(second, '\n') == [second];
  }

  /** A tag is not taken for one that merely starts with it. */
  lemma LongerTagDoesNotCount()
    ensures !TagListed("v1.0.10" + "\n" + "v1.0.2", "v1.0.1")
  {
    TwoLines("v1.0.10", "v1.0.2", "v1.0.1");
    assert |"v1.0.10"| != |"v1.0.1"|;
    assert "v1.0.2"[5] != "v1.0.1"[5];
  }

  // ---------------------------------------------------------------- a run of the script

  /** What a query answered, or the empty text when it failed. */
  function Answer(exec: Exec, command: string): string
  {
    if exec(command).Some? then exec(command).value else ""
  }

  /** `git status --porcelain` reported uncommitted changes. */
  predicate Dirty(exec: Exec)
  {
    Answer(exec, GitStatus) != ""
  }

  predicate TagExists(exec: Exec, tag: string)
  {
    TagListed(Answer(exec, GitTagList), tag)
  }

  /** Committing the uncommitted changes, when there are any. */
  function CommitSteps(version: string, exec: Exec): seq<string>
  {
    if Dirty(exec) then [GitAddAll, CommitCommand(version)] else []
  }

  /** Removing an existing tag locally and on the remote. */
  function OverwriteSteps(tag: string, exec: Exec): seq<string>
  {
    if TagExists(exec, tag) then [DeleteLocalTag(tag), DeleteRemoteTag(tag)] else []
  }

  /** Creating the annotated tag and pushing the current branch and the tag. */
  function PublishSteps(tag: string, version: string, exec: Exec): seq<string>
  {
    [CreateTagCommand(tag, version), GitBranch, PushCommand(Answer(exec, GitBranch)), PushCommand(tag)]
  }

  /** The commands of a run, given the answers of the queries in it, when no
      check refuses and no command fails. */
  function TagPlan(version: string, exec: Exec): seq<string>
  {
    var tag := TagName(version);
    [GitStatus] + CommitSteps(version, exec) + [GitTagList] + OverwriteSteps(tag, exec) + PublishSteps(tag, version, exec)
  }

  /** The first check lets the run go on: the status is known, and the tree is
      clean or its changes were committed at the user's request. */
  predicate StatusCheckPasses(args: seq<string>, version: string, exec: Exec)
  {
    exec(GitStatus).Some? && (!Dirty(exec) || (AutoCommit(args) && AllSucceed(CommitSteps(version, exec), exec)))
  }

  /** The second check lets the run go on: the tag list is known, and the tag is
      new or was removed locally at the user's request. Failing to remove it
      from the remote does not stop the run. */
  predicate TagCheckPasses(args: seq<string>, version: string, exec: Exec)
  {
    var tag := TagName(version);
    exec(GitTagList).Some? && (!TagExists(exec, tag) || (Force(args) && exec(DeleteLocalTag(tag)).Some?))
  }

  /** Step 2 of the script: `git status`, then the commit of pending changes
      when `--auto-commit` asks for it. `passed` says whether the run goes on. */
  method CheckStatus(args: seq<string>, version: string, exec: Exec) returns (issued: seq<string>, passed: bool)
    ensures passed <==> StatusCheckPasses(args, version, exec)
    ensures passed ==> issued == [GitStatus] + CommitSteps(version, exec)
    ensures 0 < |issued| <= |[GitStatus] + CommitSteps(version, exec)|
    ensures issued == ([GitStatus] + CommitSteps(version, exec))[..|issued|]
    ensures forall k | 0 <= k < |issued| - 1 :: exec(issued[k]).Some?
    ensures !passed && exec(issued[|issued| - 1]).Some? ==> issued == [GitStatus] && Dirty(exec) && !AutoCommit(args)
    ensures exec(GitStatus).Some? && Dirty(exec) && !AutoCommit(args) ==> issued == [GitStatus] && !passed
    ensures passed ==> AllSucceed(issued, exec)
  {
    var ok;
    issued, ok := ExecCommand([], GitStatus, exec);
    if !ok { return issued, false; }
    if exec(GitStatus).value != "" {
      if AutoCommit(args) {
        issued, ok := ExecCommand(issued, GitAddAll, exec);
        assert CommitSteps(version, exec)[0] == GitAddAll;
        if !ok { return issued, false; }
        issued, ok := ExecCommand(issued, CommitCommand(version), exec);
        assert CommitSteps(version, exec)[1] == CommitCommand(version);
        if !ok { return issued, false; }
      } else {
        return issued, false;
      }
    }
    passed := true;
  }

  /** Step 3 of the script: `git tag -l`, then the removal of an existing tag
      when `--force` asks for it. */
  method CheckTag(args: seq<string>, version: string, exec: Exec) returns (issued: seq<string>, passed: bool)
    ensures passed <==> TagCheckPasses(args, version, exec)
    ensures passed ==> issued == [GitTagList] + OverwriteSteps(TagName(version), exec)
    ensures 0 < |issued| <= |[GitTagList] + OverwriteSteps(TagName(version), exec)|
    ensures issued == ([GitTagList] + OverwriteSteps(TagName(version), exec))[..|issued|]
    ensures forall k | 0 <= k < |issued| - 1 :: exec(issued[k]).Some?
    ensures !passed && exec(issued[|issued| - 1]).Some? ==> issued == [GitTagList] && TagExists(exec, TagName(version)) && !Force(args)
    ensures exec(GitTagList).Some? && TagExists(exec, TagName(version)) && !Force(args) ==> issued == [GitTagList] && !passed
    ensures passed ==> forall k | 0 <= k < |issued| :: exec(issued[k]).Some? || issued[k] == DeleteRemoteTag(TagName(version))
  {
    var tag := TagName(version);
    var ok;
    issued, ok := ExecCommand([], GitTagList, exec);
    if !ok { return issued, false; }
    if TagListed(exec(GitTagList).value, tag) {
      if Force(args) {
        issued, ok := ExecCommand(issued, DeleteLocalTag(tag), exec);
        if !ok { return issued, false; }
        issued, ok := ExecCommand(issued, DeleteRemoteTag(tag), exec);
      } else {
        return issued, false;
      }
    }
    passed := true;
  }

  /** Steps 4 to 6 of the script: create the tag, then push the branch and the tag. */
  method Publish(version: string, exec: Exec) returns (issued: seq<string>, passed: bool)
    ensures passed <==> AllSucceed(PublishSteps(TagName(version), version, exec), exec)
    ensures passed ==> issued == PublishSteps(TagName(version), version, exec)
    ensures 0 < |issued| <= 4 && issued == PublishSteps(TagName(version), version, exec)[..|issued|]
    ensures forall k | 0 <= k < |issued| - 1 :: exec(issued[k]).Some?
    ensures !passed ==> exec(issued[|issued| - 1]).None?
  {
    var tag := TagName(version);
    var ok;
    issued, ok := ExecCommand([], CreateTagCommand(tag, version), exec);
    assert PublishSteps(tag, version, exec)[0] == CreateTagCommand(tag, version);
    if !ok { return issued, false; }
    issued, ok := ExecCommand(issued, GitBranch, exec);
    assert PublishSteps(tag, version, exec)[1] == GitBranch;
    if !ok { return issued, false; }
    var branch := exec(GitBranch).value;
    issued, ok := ExecCommand(issued, PushCommand(branch), exec);
    assert PublishSteps(tag, version, exec)[2] == PushCommand(branch);
    if !ok { return issued, false; }
    issued, ok := ExecCommand(issued, PushCommand(tag), exec);
    assert PublishSteps(tag, version, exec)[3] == PushCommand(tag);
    if !ok { return issued, false; }
    passed := true;
  }

  /** After a phase whose commands all succeeded, the commands before the last
      of the next phase still succeeded or were the remote tag deletion. */
  lemma GoesOnAfter(done: seq<string>, next: seq<string>, exec: Exec, tag: string)
    requires AllSucceed(done, exec)
    requires forall k | 0 <= k < |next| - 1 :: exec(next[k]).Some? || next[k] == DeleteRemoteTag(tag)
    requires 0 < |next|
    ensures forall k | 0 <= k < |done + next| - 1 :: exec((done + next)[k]).Some? || (done + next)[k] == DeleteRemoteTag(tag)
  {
    forall k | 0 <= k < |done + next| - 1
      ensures exec((done + next)[k]).Some? || (done + next)[k] == DeleteRemoteTag(tag)
    {
      if k < |done| {
        assert (done + next)[k] == done[k];
      } else {
        assert (done + next)[k] == next[k - |done|];
      }
    }
  }

  /** Steps 3 to 6 of the script: the tag check, then publishing. */
  method TagAndPublish(args: seq<string>, version: string, exec: Exec) returns (trace: seq<string>, outcome: Outcome)
    ensures var rest := [GitTagList] + OverwriteSteps(TagName(version), exec) + PublishSteps(TagName(version), version, exec);
            0 < |trace| <= |rest| && trace == rest[..|trace|]
    ensures forall k | 0 <= k < |trace| - 1 :: exec(trace[k]).Some? || trace[k] == DeleteRemoteTag(TagName(version))
    ensures outcome.Exit? ==> outcome.code == 1
    ensures exec(GitTagList).Some? && TagExists(exec, TagName(version)) && !Force(args) ==> trace == [GitTagList] && outcome == Exit(1)
    ensures outcome.Exit? && exec(trace[|trace| - 1]).Some? ==>
              trace == [GitTagList] && TagExists(exec, TagName(version)) && !Force(args)
    ensures outcome.Finished? <==> TagCheckPasses(args, version, exec) && AllSucceed(PublishSteps(TagName(version), version, exec), exec)
    ensures outcome.Finished? ==>
              trace == [GitTagList] + OverwriteSteps(TagName(version), exec) + PublishSteps(TagName(version), version, exec) &&
              outcome == Finished(version, TagName(version))
  {
    var tag := TagName(version);
    ghost var second := [GitTagList] + OverwriteSteps(tag, exec);
    ghost var third := PublishSteps(tag, version, exec);
    var issued, passed := CheckTag(args, version, exec);
    trace := issued;
    PrefixAfter([], second + third, issued);
    assert second + third == [GitTagList] + OverwriteSteps(tag, exec) + PublishSteps(tag, version, exec);
    if !passed { return trace, Exit(1); }
    issued, passed := Publish(version, exec);
    PrefixAfter(second, third, issued);
    GoesOnAfterTag(trace, issued, exec, tag);
    trace := trace + issued;
    if !passed { return trace, Exit(1); }
    outcome := Finished(version, tag);
  }

  /** The tag phase's own commands may include the failed remote deletion. */
  lemma GoesOnAfterTag(done: seq<string>, next: seq<string>, exec: Exec, tag: string)
    requires forall k | 0 <= k < |done| :: exec(done[k]).Some? || done[k] == DeleteRemoteTag(tag)
    requires forall k | 0 <= k < |next| - 1 :: exec(next[k]).Some?
    requires 0 < |next|
    ensures forall k | 0 <= k < |done + next| - 1 :: exec((done + next)[k]).Some? || (done + next)[k] == DeleteRemoteTag(tag)
  {
    forall k | 0 <= k < |done + next| - 1
      ensures exec((done + next)[k]).Some? || (done + next)[k] == DeleteRemoteTag(tag)
    {
      if k < |done| {
        assert (done + next)[k] == done[k];
      } else {
        assert (done + next)[k] == next[k - |done|];
      }
    }
  }

  lemma PlanHalves(version: string, exec: Exec)
    ensures TagPlan(version, exec) ==
            ([GitStatus] + CommitSteps(version, exec)) +
            ([GitTagList] + OverwriteSteps(TagName(version), exec) + PublishSteps(TagName(version), version, exec))
  {
    var a, b := [GitStatus] + CommitSteps(version, exec), [GitTagList];
    var c, d := OverwriteSteps(TagName(version), exec), PublishSteps(TagName(version), version, exec);
    assert a + b + c + d == a + (b + c + d);
  }

  /** A whole run for the version read from package.json: the two checks, then
      publishing. The run follows the plan and stops at the first command that
      fails, except the remote tag deletion, and at a check that refuses. */
  method Run(args: seq<string>, version: string, exec: Exec) returns (trace: seq<string>, outcome: Outcome)
    ensures 0 < |trace| <= |TagPlan(version, exec)| && trace == TagPlan(version, exec)[..|trace|]
    ensures forall k | 0 <= k < |trace| - 1 :: exec(trace[k]).Some? || trace[k] == DeleteRemoteTag(TagName(version))
    ensures outcome.Exit? ==> outcome.code == 1
    ensures exec(GitStatus).Some? && Dirty(exec) && !AutoCommit(args) ==> trace == [GitStatus] && outcome == Exit(1)
    ensures StatusCheckPasses(args, version, exec) && exec(GitTagList).Some? && TagExists(exec, TagName(version)) && !Force(args) ==>
              trace == [GitStatus] + CommitSteps(version, exec) + [GitTagList] && outcome == Exit(1)
    ensures outcome.Exit? && exec(trace[|trace| - 1]).Some? ==>
              (trace == [GitStatus] && Dirty(exec) && !AutoCommit(args)) ||
              (trace[|trace| - 1] == GitTagList && TagExists(exec, TagName(version)) && !Force(args))
    ensures outcome.Finished? <==>
              StatusCheckPasses(args, version, exec) && TagCheckPasses(args, version, exec) &&
              AllSucceed(PublishSteps(TagName(version), version, exec), exec)
    ensures outcome.Finished? ==> trace == TagPlan(version, exec) && outcome == Finished(version, TagName(version))
  {
    var tag := TagName(version);
    ghost var first := [GitStatus] + CommitSteps(version, exec);
    ghost var rest := [GitTagList] + OverwriteSteps(tag, exec) + PublishSteps(tag, version, exec);
    PlanHalves(version, exec);
    var issued, passed := CheckStatus(args, version, exec);
    trace := issued;
    PrefixAfter([], first, issued);
    PrefixAfter([], first + rest, first);
    if !passed { return trace, Exit(1); }
    var later;
    later, outcome := TagAndPublish(args, version, exec);
    PrefixAfter(first, rest, later);
    GoesOnAfter(trace, later, exec, tag);
    trace := trace + later;
  }
}
