// The application's closed enumerations, the git-command lookup tables and
// the git-environment validation summary.

module Types {
  import opened Util

  // ---------------------------------------------------------------------
  // Validation of the git environment
  // ---------------------------------------------------------------------

  datatype GitValidationResult = GitValidationResult(
    gitVersion: Option<string>,
    versionOk: bool,
    failedCommands: seq<string>,
    warnings: seq<string>)

  /** A fresh result: no version detected, nothing failed yet. */
  function NewValidationResult(): (r: GitValidationResult)
    ensures HasIssues(r) && Summary(r) == NoVersionLine
  {
    GitValidationResult(None, false, [], [])
  }

  /** The environment has issues when the version is not acceptable or some
      command failed; warnings alone are not issues. */
  predicate HasIssues(v: GitValidationResult) {
    !v.versionOk || v.failedCommands != []
  }

  const NoVersionLine: string := "⚠ Could not detect git version\n"

  function OldVersionLine(version: string): string {
    "⚠ Git version " + version + " may not be fully supported (recommend 2.23+)\n"
  }

  /** The summary's first line, about the version. */
  function VersionLine(v: GitValidationResult): string {
    match v.gitVersion
    case None => NoVersionLine
    case Some(version) => if v.versionOk then "" else OldVersionLine(version)
  }

  /** `format!("  - {}\n", cmd)`. */
  function FailedLine(cmd: string): string {
    "  - " + cmd + "\n"
  }

  /** One "  - cmd" line per failed command, in order. */
  function FailedLines(cmds: seq<string>): string {
    if cmds == [] then "" else FailedLines(cmds[..|cmds| - 1]) + FailedLine(cmds[|cmds| - 1])
  }

  function FailedHeader(count: nat): string {
    "⚠ " + NatToString(count) + " git command(s) failed validation:\n"
  }

  /** The count header followed by the failed commands, or nothing. */
  function FailedBlock(cmds: seq<string>): string {
    if cmds == [] then "" else FailedHeader(|cmds|) + FailedLines(cmds)
  }

  function WarningLine(w: string): string {
    "⚠ " + w + "\n"
  }

  /** One "⚠ w" line per warning, in order. */
  function WarningLines(ws: seq<string>): string {
    if ws == [] then "" else WarningLines(ws[..|ws| - 1]) + WarningLine(ws[|ws| - 1])
  }

  /** The summary the application shows for a validation result. */
  function Summary(v: GitValidationResult): string {
    VersionLine(v) + FailedBlock(v.failedCommands) + WarningLines(v.warnings)
  }

  /** `get_summary`: the version line, the failed commands and the warnings,
      appended piece by piece. */
  method GetSummary(v: GitValidationResult) returns (msg: string)
    ensures msg == Summary(v)
  {
    msg := "";
    match v.gitVersion {
      case Some(version) =>
        if !v.versionOk {
          msg := msg + OldVersionLine(version);
        }
      case None =>
        msg := msg + NoVersionLine;
    }
    assert msg == VersionLine(v);
    var cmds := v.failedCommands;
    if cmds != [] {
      ghost var versionLine := msg;
      msg := msg + FailedHeader(|cmds|);
      msg := AppendFailedLines(msg, cmds);
      assert msg == versionLine + FailedBlock(cmds);
    }
    ghost var block := msg;
    assert block == VersionLine(v) + FailedBlock(cmds);
    msg := AppendWarningLines(msg, v.warnings);
    assert msg == block + WarningLines(v.warnings);
  }

  /** The loop over the failed commands. */
  method AppendFailedLines(msg: string, cmds: seq<string>) returns (r: string)
    ensures r == msg + FailedLines(cmds)
  {
    r := msg;
    for i := 0 to |cmds|
      invariant r == msg + FailedLines(cmds[..i])
    {
      assert cmds[..i + 1] == cmds[..i] + [cmds[i]];
      FailedLinesAppend(cmds[..i], [cmds[i]]);
      assert FailedLines([cmds[i]]) == FailedLine(cmds[i]);
      r := r + FailedLine(cmds[i]);
    }
    assert cmds[..|cmds|] == cmds;
  }

  /** The loop over the warnings. */
  method AppendWarningLines(msg: string, ws: seq<string>) returns (r: string)
    ensures r == msg + WarningLines(ws)
  {
    r := msg;
    for i := 0 to |ws|
      invariant r == msg + WarningLines(ws[..i])
    {
      assert ws[..i + 1][..i] == ws[..i];
      r := r + WarningLine(ws[i]);
    }
    assert ws[..|ws|] == ws;
  }

  /** The summary is empty exactly when a supported version was detected and
      there is nothing to report. */
  lemma SummaryEmptyIff(v: GitValidationResult)
    ensures Summary(v) == "" <==>
      (v.gitVersion.Some? && v.versionOk && v.failedCommands == [] && v.warnings == [])
  {
    if v.warnings != [] {
      WarningLinesNonEmpty(v.warnings);
    }
    if v.failedCommands != [] {
      assert |FailedBlock(v.failedCommands)| > 0;
    }
    if v.gitVersion.None? {
      assert |VersionLine(v)| > 0;
    } else if !v.versionOk {
      assert |OldVersionLine(v.gitVersion.value)| > 0;
    }
  }

  lemma WarningLinesNonEmpty(ws: seq<string>)
    requires ws != []
    ensures |WarningLines(ws)| > 0
  {
  }

  /** An environment with issues always produces a non-empty summary. */
  lemma IssuesAreReported(v: GitValidationResult)
    requires HasIssues(v)
    ensures Summary(v) != ""
  {
    SummaryEmptyIff(v);
  }

  /** The failed-command lines have one line per command: appending a
      command appends its line. */
  lemma {:induction false} FailedLinesAppend(a: seq<string>, b: seq<string>)
    ensures FailedLines(a + b) == FailedLines(a) + FailedLines(b)
    decreases |b|
  {
    if b == [] {
      assert a + b == a;
    } else {
      var b' := b[..|b| - 1];
      assert (a + b)[..|a + b| - 1] == a + b';
      FailedLinesAppend(a, b');
    }
  }

  // ---------------------------------------------------------------------
  // Modes and panes
  // ---------------------------------------------------------------------

  datatype AppMode =
    | Normal
    | Confirm
    | CommitMessage
    | BranchName
    | SelectBranch
    | SelectBranchToDelete
    | SetUserName
    | SetUserEmail
    | SetRemoteHost
    | SquashCountInput
    | RewordMessage
    | SelectCommitsForBranch
    | AssignBranchName
    | FileDiffView

  datatype FocusedPane = CommitGraph | GitActions | CommitDetails | GitStatus

  // ---------------------------------------------------------------------
  // Git commands
  // ---------------------------------------------------------------------

  datatype GitCommand =
    | Checkout
    | CreateBranch
    | ForceDeleteBranch
    | Reset
    | ResetSoft
    | ResetHard
    | CherryPick
    | Revert
    | Rebase
    | Merge
    | SquashCommits
    | Reword
    | AssignToBranch
    | Add
    | Commit
    | Push
    | Pull
    | PullAll
    | SetUserName
    | SetUserEmail
    | SetRemoteHost

  /** The label shown in the actions pane. */
  function Description(c: GitCommand): (s: string)
    ensures s != []
  {
    match c
    case Checkout => "checkout"
    case CreateBranch => "create branch"
    case ForceDeleteBranch => "force delete branch"
    case Reset => "reset --mixed"
    case ResetSoft => "reset --soft"
    case ResetHard => "reset --hard"
    case CherryPick => "cherry-pick"
    case Revert => "revert"
    case Rebase => "rebase"
    case Merge => "merge"
    case SquashCommits => "squash last N commits"
    case Reword => "reword commit message"
    case AssignToBranch => "assign commits to branch"
    case Add => "add -A"
    case Commit => "commit"
    case Push => "push"
    case Pull => "pull"
    case PullAll => "fetch and sync all branches from remote"
    case SetUserName => "config user.name"
    case SetUserEmail => "config user.email"
    case SetRemoteHost => "set remote url"
  }

  /** The labels are pairwise distinct: a label names its command. Two
      labels already differ in their length, their first or their last
      character; the proof goes through the commands in three groups. */
  lemma DescriptionInjective(a: GitCommand, b: GitCommand)
    requires Description(a) == Description(b)
    ensures a == b
  {
    if (a.Checkout? || a.CreateBranch? || a.ForceDeleteBranch? || a.Reset? || a.ResetSoft? ||
        a.ResetHard? || a.CherryPick?) {
      DescriptionInjectiveFirst(a, b);
    } else if (a.Revert? || a.Rebase? || a.Merge? || a.SquashCommits? || a.Reword? ||
        a.AssignToBranch? || a.Add?) {
      DescriptionInjectiveSecond(a, b);
    } else {
      DescriptionInjectiveThird(a, b);
    }
  }

  lemma DescriptionInjectiveFirst(a: GitCommand, b: GitCommand)
    requires (a.Checkout? || a.CreateBranch? || a.ForceDeleteBranch? || a.Reset? || a.ResetSoft? ||
      a.ResetHard? || a.CherryPick?)
    requires Description(a) == Description(b)
    ensures a == b
  {
    var sa, sb := Description(a), Description(b);
    assert |sa| == |sb| && sa[0] == sb[0] && sa[|sa| - 1] == sb[|sb| - 1];
  }

  lemma DescriptionInjectiveSecond(a: GitCommand, b: GitCommand)
    requires (a.Revert? || a.Rebase? || a.Merge? || a.SquashCommits? || a.Reword? ||
      a.AssignToBranch? || a.Add?)
    requires Description(a) == Description(b)
    ensures a == b
  {
    var sa, sb := Description(a), Description(b);
    assert |sa| == |sb| && sa[0] == sb[0] && sa[|sa| - 1] == sb[|sb| - 1];
  }

  lemma DescriptionInjectiveThird(a: GitCommand, b: GitCommand)
    requires (a.Commit? || a.Push? || a.Pull? || a.PullAll? || a.SetUserName? || a.SetUserEmail? ||
      a.SetRemoteHost?)
    requires Description(a) == Description(b)
    ensures a == b
  {
    var sa, sb := Description(a), Description(b);
    assert |sa| == |sb| && sa[0] == sb[0] && sa[|sa| - 1] == sb[|sb| - 1];
  }

  /** The commands that ask for confirmation before they run. */
  predicate NeedsConfirmation(c: GitCommand) {
    c.Checkout? || c.Reset? || c.ResetSoft? || c.ResetHard? || c.Rebase? || c.Merge?
    || c.CherryPick? || c.Revert? || c.Push?
  }

  const GenericConfirmation: string := "Are you sure?"

  /** The question asked in the confirmation dialog. */
  function ConfirmationMessage(c: GitCommand): string {
    match c
    case Checkout => "Checkout this commit. Continue?"
    case ForceDeleteBranch => "Force delete branch. This may orphan commits. Continue?"
    case Reset => "Reset HEAD and unstage changes. Continue?"
    case ResetSoft => "Reset HEAD but keep all changes staged. Continue?"
    case ResetHard => "WARNING: Reset HEAD and DISCARD ALL CHANGES. Continue?"
    case Rebase => "Rebase can rewrite history. Continue?"
    case Merge => "Merge the selected commit into current branch. Continue?"
    case CherryPick => "Cherry-pick the selected commit onto current branch. Continue?"
    case Revert => "Revert the selected commit on current branch. Continue?"
    case SquashCommits => "Squash commits. This will combine multiple commits into one. Continue?"
    case Push => "Push changes to remote repository. Continue?"
    case _ => GenericConfirmation
  }

  /** Every command that asks for confirmation has its own question, and
      so do the two commands that open a dialog of their own before asking
      (branch deletion and squashing); the generic question is left to the
      commands without one. */
  lemma ConfirmationMessages(c: GitCommand)
    ensures NeedsConfirmation(c) ==> ConfirmationMessage(c) != GenericConfirmation
    ensures ConfirmationMessage(c) != GenericConfirmation <==>
      (NeedsConfirmation(c) || c.ForceDeleteBranch? || c.SquashCommits?)
  {
    if c.ForceDeleteBranch? {
      assert ConfirmationMessage(ForceDeleteBranch) != GenericConfirmation;
    } else if c.SquashCommits? {
      assert ConfirmationMessage(SquashCommits) != GenericConfirmation;
    } else {
      ConfirmedCommandsAreSpecific(c);
    }
  }

  lemma ConfirmedCommandsAreSpecific(c: GitCommand)
    ensures NeedsConfirmation(c) ==> ConfirmationMessage(c) != GenericConfirmation
  {
    match c {
      case Checkout =>
      case Reset =>
      case ResetSoft =>
      case ResetHard =>
      case Rebase =>
      case Merge =>
      case CherryPick =>
      case Revert =>
      case Push =>
      case _ =>
    }
  }

  // ---------------------------------------------------------------------
  // Working-tree status
  // ---------------------------------------------------------------------

  datatype FileStatus = Staged | Modified | Untracked | Deleted

  datatype StatusFile = StatusFile(path: string, status: FileStatus)
}
