// The dialogs' text buffers, their cancel and submit handlers, the branch
// pickers and the commit selection for "assign commits to branch".

module Dialogs {
  import opened Util
  import opened Types
  import Graph
  import Navigation

  // ---------------------------------------------------------------------
  // Text buffers

  /** `String::push`. */
  function Typed(buffer: string, c: char): (r: string)
    ensures |r| == |buffer| + 1 && r[..|buffer|] == buffer && r[|buffer|] == c
  {
    buffer + [c]
  }

  /** `String::pop`: the last character goes, an empty buffer stays empty. */
  function Erased(buffer: string): (r: string)
    ensures buffer == [] ==> r == []
    ensures buffer != [] ==> |r| == |buffer| - 1 && r == buffer[..|r|]
  {
    if buffer == [] then [] else buffer[..|buffer| - 1]
  }

  /** Backspace undoes typing. */
  lemma EraseUndoesTyping(buffer: string, c: char)
    ensures Erased(Typed(buffer, c)) == buffer
  {
    assert Typed(buffer, c)[..|buffer|] == buffer;
  }

  /** The squash-count dialog only takes ASCII digits. */
  function TypedDigit(buffer: string, c: char): (r: string)
    ensures AllDigits(buffer) ==> AllDigits(r)
    ensures r == (if IsAsciiDigit(c) then buffer + [c] else buffer)
  {
    if IsAsciiDigit(c) then Typed(buffer, c) else buffer
  }

  /** `trim().is_empty()`: the input holds nothing but whitespace. */
  predicate Blank(input: string)
    ensures Blank(input) <==> AllWhitespace(input)
  {
    TrimEmptyIffBlank(input);
    Trim(input) == []
  }

  // ---------------------------------------------------------------------
  // Commit selection

  /** `toggle_commit_selection` on the list: the first occurrence of `id`
      is removed, or `id` is appended when absent. */
  function Toggled(ids: seq<string>, id: string): (r: seq<string>)
    ensures id in ids ==> |r| == |ids| - 1
    ensures id !in ids ==> r == ids + [id]
  {
    match IndexOf(ids, id)
    case Some(p) => ids[..p] + ids[p + 1..]
    case None => ids + [id]
  }

  /** Removing position `p` shifts every later entry down by one. */
  lemma RemovedAt(ids: seq<string>, p: nat, k: nat)
    requires p < |ids| && k < |ids| - 1
    ensures (ids[..p] + ids[p + 1..])[k] == ids[if k < p then k else k + 1]
  {
  }

  /** On a list without duplicates, toggling flips the membership of `id`,
      leaves every other id where it was in the membership sense and adds no
      duplicate. */
  lemma ToggledMembership(ids: seq<string>, id: string)
    requires Distinct(ids)
    ensures Distinct(Toggled(ids, id))
    ensures id in Toggled(ids, id) <==> id !in ids
    ensures forall x :: x != id ==> (x in Toggled(ids, id) <==> x in ids)
  {
    match IndexOf(ids, id)
    case None =>
    case Some(p) =>
      var r := ids[..p] + ids[p + 1..];
      assert Toggled(ids, id) == r;
      forall x | x != id ensures x in r <==> x in ids {
        if x in ids {
          var k :| 0 <= k < |ids| && ids[k] == x;
          var k' := if k < p then k else k - 1;
          RemovedAt(ids, p, k');
          assert r[k'] == x;
        }
        if x in r {
          var k :| 0 <= k < |r| && r[k] == x;
          RemovedAt(ids, p, k);
        }
      }
      forall i, j | 0 <= i < j < |r| ensures r[i] != r[j] {
        RemovedAt(ids, p, i);
        RemovedAt(ids, p, j);
      }
      assert id !in r by {
        forall k | 0 <= k < |r| ensures r[k] != id {
          RemovedAt(ids, p, k);
        }
      }
  }

  /** Toggling twice restores the selected ids, and restores the list itself
      when `id` was not selected. */
  lemma ToggledTwice(ids: seq<string>, id: string)
    requires Distinct(ids)
    ensures forall x :: x in Toggled(Toggled(ids, id), id) <==> x in ids
    ensures id !in ids ==> Toggled(Toggled(ids, id), id) == ids
  {
    ToggledMembership(ids, id);
    ToggledMembership(Toggled(ids, id), id);
    if id !in ids {
      var r := ids + [id];
      var p := IndexOf(r, id);
      assert r[|ids|] == id;
      assert p == Some(|ids|);
      assert r[..|ids|] == ids;
    }
  }

  // ---------------------------------------------------------------------
  // What a submitted dialog asks to run

  /** The git operation a submit handler hands on; running it is not part
      of this model. */
  datatype Request =
    | RunCommit(message: string)
    | RunCreateBranch(commitId: string, name: string)
    | RunCheckoutBranch(name: string)
    | RunReword(commitId: string, newMessage: string)
    | RunSetUserName(name: string)
    | RunSetUserEmail(email: string)
    | RunSetRemoteHost(url: string)

  /** How a requested operation ended. */
  datatype Outcome = Done(msg: string) | Failed(error: string)

  /** The status line after a requested operation. */
  function StatusAfter(o: Outcome): string {
    match o
    case Done(msg) => "✓ " + msg
    case Failed(e) => "✗ Error: " + e
  }

  /** The status line tells success from failure apart and gives back the
      message or the error it was made from. */
  lemma StatusAfterInjective(a: Outcome, b: Outcome)
    requires StatusAfter(a) == StatusAfter(b)
    ensures a == b
  {
    var sa, sb := StatusAfter(a), StatusAfter(b);
    assert sa[0] == sb[0];
    match a {
      case Done(m) =>
        assert b.Done?;
        assert m == sa[2..] && b.msg == sb[2..];
      case Failed(e) =>
        assert b.Failed?;
        assert e == sa[9..] && b.error == sb[9..];
    }
  }

  /** The confirmation question for deleting a branch. */
  function DeleteBranchQuestion(name: string): string {
    "Force delete branch '" + name + "'?\n\n⚠️  WARNING: This will delete the branch using 'git branch -D'.\n"
    + "Commits that are only reachable from this branch will become orphaned.\n"
    + "Orphaned commits can be recovered from reflog for ~30 days."
  }

  /** The arguments of the `git log` run that lists the commits to squash. */
  function SquashLogArgs(commitId: string, count: nat): seq<string>
    requires count >= 1
  {
    ["log", commitId + "~" + NatToString(count - 1), "--format=%h %s", "-" + NatToString(count), commitId]
  }

  /** The listing asks for exactly `count` commits, counted back from the
      selected commit: the revision after the "~" names its (count - 1)th
      first-parent ancestor, and the "-N" limit reads back as `count`. */
  lemma SquashLogArgsCount(commitId: string, count: nat)
    requires 1 <= count <= UsizeMax
    ensures var args := SquashLogArgs(commitId, count);
      && |args| == 5 && args[0] == "log" && args[4] == commitId
      && args[1][..|commitId| + 1] == commitId + "~" && ParseUsize(args[1][|commitId| + 1..]) == Some(count - 1)
      && args[3][..1] == "-" && ParseUsize(args[3][1..]) == Some(count)
  {
    ParseUsizeRoundTrip(count - 1);
    ParseUsizeRoundTrip(count);
    var args := SquashLogArgs(commitId, count);
    assert args[1][|commitId| + 1..] == NatToString(count - 1);
    assert args[3][1..] == NatToString(count);
  }

  /** The pending squash target: the newest commit's id and the count. */
  function SquashTarget(commitId: string, count: nat): string {
    commitId + ":" + NatToString(count)
  }

  /** The confirmation question for a squash. */
  function SquashQuestion(count: nat, oldest: string, newest: string): string {
    "Squash " + NatToString(count) + " commits from selected commit backwards?\n\nFrom: " + oldest
    + " (oldest)\nTo:   " + newest + " (newest/selected)\n\nThis will combine these commits into one.\n"
    + "All commit messages will be combined."
  }

  /** The squash count typed into the dialog, if it is a number above 1. */
  function SquashCount(input: string): (r: Option<nat>)
    ensures r.Some? ==> r.value > 1
  {
    match ParseUsize(Trim(input))
    case Some(n) => if n > 1 then Some(n) else None
    case None => None
  }

  // ---------------------------------------------------------------------
  // The application state touched by the dialogs

  class App {
    var mode: AppMode
    var statusMessage: Option<string>
    var commitMessageInput: string
    var branchNameInput: string
    var squashCountInput: string
    var rewordMessageInput: string
    var configInput: string
    var remoteHostInput: string
    var assignBranchNameInput: string
    var pendingBranchCommitId: Option<string>
    var pendingCheckoutCommitId: Option<string>
    var pendingSquashCommitId: Option<string>
    var pendingRewordCommitId: Option<string>
    var pendingCommand: Option<GitCommand>
    var pendingCommandMessage: Option<string>
    var availableBranches: seq<string>
    var selectedBranchIdx: nat
    var graphNodes: seq<Graph.GraphNode>
    var selectedCommitIdx: Option<nat>
    var selectedCommitIds: seq<string>

    constructor (nodes: seq<Graph.GraphNode>)
      ensures graphNodes == nodes && mode == Normal && statusMessage == None
      ensures commitMessageInput == [] && branchNameInput == [] && squashCountInput == []
      ensures rewordMessageInput == [] && configInput == [] && remoteHostInput == [] && assignBranchNameInput == []
      ensures pendingBranchCommitId == None && pendingCheckoutCommitId == None
      ensures pendingSquashCommitId == None && pendingRewordCommitId == None
      ensures pendingCommand == None && pendingCommandMessage == None
      ensures availableBranches == [] && selectedBranchIdx == 0
      ensures selectedCommitIdx == None && selectedCommitIds == []
    {
      graphNodes := nodes;
      mode := Normal;
      statusMessage := None;
      commitMessageInput := [];
      branchNameInput := [];
      squashCountInput := [];
      rewordMessageInput := [];
      configInput := [];
      remoteHostInput := [];
      assignBranchNameInput := [];
      pendingBranchCommitId := None;
      pendingCheckoutCommitId := None;
      pendingSquashCommitId := None;
      pendingRewordCommitId := None;
      pendingCommand := None;
      pendingCommandMessage := None;
      availableBranches := [];
      selectedBranchIdx := 0;
      selectedCommitIdx := None;
      selectedCommitIds := [];
    }

    /** `set_status_message`; the time stamp it also records is not part of
        this model. */
    method SetStatusMessage(message: string)
      modifies this`statusMessage
      ensures statusMessage == Some(message)
    {
      statusMessage := Some(message);
    }

    /** `clear_expired_status_message`. The message and its time stamp are
        only ever set and cleared together, so a message is shown exactly
        when a stamp exists; `elapsedSecs` is the clock's reading of the
        whole seconds since that stamp. */
    method ClearExpiredStatusMessage(elapsedSecs: nat)
      modifies this`statusMessage
      ensures statusMessage == if elapsedSecs >= 3 then None else old(statusMessage)
    {
      if statusMessage.Some? && elapsedSecs >= 3 {
        statusMessage := None;
      }
    }

    // --- commit message -------------------------------------------------

    method OpenCommitMessageDialog()
      modifies this`commitMessageInput, this`mode
      ensures commitMessageInput == [] && mode == CommitMessage
    {
      commitMessageInput := [];
      mode := CommitMessage;
    }

    method CancelCommitMessage()
      modifies this`commitMessageInput, this`mode
      ensures commitMessageInput == [] && mode == Normal
    {
      commitMessageInput := [];
      mode := Normal;
    }

    method CommitMessageInputChar(c: char)
      modifies this`commitMessageInput
      ensures commitMessageInput == Typed(old(commitMessageInput), c)
    {
      commitMessageInput := commitMessageInput + [c];
    }

    method CommitMessageBackspace()
      modifies this`commitMessageInput
      ensures commitMessageInput == Erased(old(commitMessageInput))
    {
      if commitMessageInput != [] {
        commitMessageInput := commitMessageInput[..|commitMessageInput| - 1];
      }
    }

    /** `submit_commit_message`: a blank message is refused and the dialog
        closes; otherwise the dialog closes and the commit is requested with
        the message as typed. `outcome` is how that commit ended. */
    method SubmitCommitMessage(outcome: Outcome) returns (request: Option<Request>)
      modifies this`mode, this`statusMessage
      ensures mode == Normal
      ensures Blank(commitMessageInput) ==>
        request == None && statusMessage == Some("✗ Commit message cannot be empty")
      ensures !Blank(commitMessageInput) ==>
        request == Some(RunCommit(commitMessageInput)) && statusMessage == Some(StatusAfter(outcome))
    {
      if Blank(commitMessageInput) {
        SetStatusMessage("✗ Commit message cannot be empty");
        mode := Normal;
        return None;
      }
      var message := commitMessageInput;
      mode := Normal;
      request := Some(RunCommit(message));
      SetStatusMessage(StatusAfter(outcome));
    }

    // --- new branch -----------------------------------------------------

    method CancelBranchName()
      modifies this`branchNameInput, this`pendingBranchCommitId, this`mode
      ensures branchNameInput == [] && pendingBranchCommitId == None && mode == Normal
    {
      branchNameInput := [];
      pendingBranchCommitId := None;
      mode := Normal;
    }

    method BranchNameInputChar(c: char)
      modifies this`branchNameInput
      ensures branchNameInput == Typed(old(branchNameInput), c)
    {
      branchNameInput := branchNameInput + [c];
    }

    method BranchNameBackspace()
      modifies this`branchNameInput
      ensures branchNameInput == Erased(old(branchNameInput))
    {
      if branchNameInput != [] {
        branchNameInput := branchNameInput[..|branchNameInput| - 1];
      }
    }

    /** `submit_branch_name`: a blank name, or no commit to branch from,
        closes the dialog with an error; otherwise the branch is requested
        at the pending commit, which is consumed, and the buffer cleared. */
    method SubmitBranchName(outcome: Outcome) returns (request: Option<Request>)
      modifies this`mode, this`statusMessage, this`pendingBranchCommitId, this`branchNameInput
      ensures mode == Normal
      ensures Blank(old(branchNameInput)) ==>
        && request == None && statusMessage == Some("✗ Branch name cannot be empty")
        && pendingBranchCommitId == old(pendingBranchCommitId) && branchNameInput == old(branchNameInput)
      ensures !Blank(old(branchNameInput)) && old(pendingBranchCommitId).None? ==>
        && request == None && statusMessage == Some("✗ No commit selected")
        && pendingBranchCommitId == None && branchNameInput == old(branchNameInput)
      ensures !Blank(old(branchNameInput)) && old(pendingBranchCommitId).Some? ==>
        && request == Some(RunCreateBranch(old(pendingBranchCommitId).value, old(branchNameInput)))
        && statusMessage == Some(StatusAfter(outcome))
        && pendingBranchCommitId == None && branchNameInput == []
    {
      if Blank(branchNameInput) {
        SetStatusMessage("✗ Branch name cannot be empty");
        mode := Normal;
        return None;
      }
      var branchName := branchNameInput;
      var pending := pendingBranchCommitId;
      pendingBranchCommitId := None;
      if pending.None? {
        SetStatusMessage("✗ No commit selected");
        mode := Normal;
        return None;
      }
      mode := Normal;
      branchNameInput := [];
      request := Some(RunCreateBranch(pending.value, branchName));
      SetStatusMessage(StatusAfter(outcome));
    }

    // --- branch pickers -------------------------------------------------

    /** `branch_selection_up` and `delete_branch_selection_up`. */
    method BranchSelectionUp()
      modifies this`selectedBranchIdx
      ensures selectedBranchIdx == Navigation.UpOne(old(selectedBranchIdx))
    {
      if selectedBranchIdx > 0 {
        selectedBranchIdx := selectedBranchIdx - 1;
      }
    }

    /** `branch_selection_down` and `delete_branch_selection_down`. */
    method BranchSelectionDown()
      modifies this`selectedBranchIdx
      ensures selectedBranchIdx == Navigation.DownOne(old(selectedBranchIdx), |availableBranches|)
    {
      if selectedBranchIdx + 1 < |availableBranches| {
        selectedBranchIdx := selectedBranchIdx + 1;
      }
    }

    /** `select_branch`: with a branch under the cursor, the picker closes and
        the checkout of that branch is requested. */
    method SelectBranch(outcome: Outcome) returns (request: Option<Request>)
      modifies this`mode, this`availableBranches, this`pendingCheckoutCommitId, this`statusMessage
      ensures old(selectedBranchIdx) < |old(availableBranches)| ==>
        && request == Some(RunCheckoutBranch(old(availableBranches)[selectedBranchIdx]))
        && mode == Normal && availableBranches == [] && pendingCheckoutCommitId == None
        && statusMessage == Some(StatusAfter(outcome))
      ensures old(selectedBranchIdx) >= |old(availableBranches)| ==>
        && request == None && mode == old(mode) && availableBranches == old(availableBranches)
        && pendingCheckoutCommitId == old(pendingCheckoutCommitId) && statusMessage == old(statusMessage)
    {
      request := None;
      if selectedBranchIdx < |availableBranches| {
        var branchName := availableBranches[selectedBranchIdx];
        mode := Normal;
        availableBranches := [];
        pendingCheckoutCommitId := None;
        request := Some(RunCheckoutBranch(branchName));
        SetStatusMessage(StatusAfter(outcome));
      }
    }

    method CancelBranchSelection()
      modifies this`availableBranches, this`selectedBranchIdx, this`pendingCheckoutCommitId, this`mode
      ensures availableBranches == [] && selectedBranchIdx == 0 && pendingCheckoutCommitId == None
      ensures mode == Normal
    {
      availableBranches := [];
      selectedBranchIdx := 0;
      pendingCheckoutCommitId := None;
      mode := Normal;
    }

    /** `select_branch_to_delete`: with a branch under the cursor, asks to
        confirm its forced deletion. */
    method SelectBranchToDelete()
      modifies this`pendingCommandMessage, this`pendingCommand, this`mode
      ensures selectedBranchIdx < |availableBranches| ==>
        && pendingCommandMessage == Some(DeleteBranchQuestion(availableBranches[selectedBranchIdx]))
        && pendingCommand == Some(ForceDeleteBranch) && mode == Confirm
      ensures selectedBranchIdx >= |availableBranches| ==>
        && pendingCommandMessage == old(pendingCommandMessage) && pendingCommand == old(pendingCommand)
        && mode == old(mode)
    {
      if selectedBranchIdx < |availableBranches| {
        var branchName := availableBranches[selectedBranchIdx];
        pendingCommandMessage := Some(DeleteBranchQuestion(branchName));
        pendingCommand := Some(ForceDeleteBranch);
        mode := Confirm;
      }
    }

    method CancelDeleteBranchSelection()
      modifies this`availableBranches, this`selectedBranchIdx, this`mode
      ensures availableBranches == [] && selectedBranchIdx == 0 && mode == Normal
    {
      availableBranches := [];
      selectedBranchIdx := 0;
      mode := Normal;
    }

    // --- squash ---------------------------------------------------------

    method SquashCountInputChar(c: char)
      modifies this`squashCountInput
      ensures squashCountInput == TypedDigit(old(squashCountInput), c)
    {
      if IsAsciiDigit(c) {
        squashCountInput := squashCountInput + [c];
      }
    }

    method SquashCountBackspace()
      modifies this`squashCountInput
      ensures squashCountInput == Erased(old(squashCountInput))
    {
      if squashCountInput != [] {
        squashCountInput := squashCountInput[..|squashCountInput| - 1];
      }
    }

    method CancelSquashCount()
      modifies this`squashCountInput, this`pendingSquashCommitId, this`mode
      ensures squashCountInput == [] && pendingSquashCommitId == None && mode == Normal
    {
      squashCountInput := [];
      pendingSquashCommitId := None;
      mode := Normal;
    }

    /** `submit_squash_count`. A count that is not a number above 1, or no
        commit to squash from, is refused with the input kept. Otherwise
        `git log` is asked for the commits (`logArgs`; `log` is its output)
        and `SquashListed` takes the answer. */
    method SubmitSquashCount(log: Option<ProcessOutput>) returns (logArgs: Option<seq<string>>)
      modifies this`statusMessage, this`squashCountInput, this`pendingCommand
      modifies this`pendingCommandMessage, this`pendingSquashCommitId, this`mode
      ensures logArgs.None? ==>
        && squashCountInput == old(squashCountInput) && mode == old(mode)
        && pendingSquashCommitId == old(pendingSquashCommitId) && pendingCommand == old(pendingCommand)
        && pendingCommandMessage == old(pendingCommandMessage)
      ensures SquashCount(old(squashCountInput)).None? ==>
        logArgs.None? && statusMessage == Some("✗ Please enter a number greater than 1")
      ensures SquashCount(old(squashCountInput)).Some? && old(pendingSquashCommitId).None? ==>
        logArgs.None? && statusMessage == Some("✗ No commit selected")
      ensures SquashCount(old(squashCountInput)).Some? && old(pendingSquashCommitId).Some? ==>
        var count := SquashCount(old(squashCountInput)).value;
        var id := old(pendingSquashCommitId).value;
        && logArgs == Some(SquashLogArgs(id, count))
        && SquashListedState(old(statusMessage), old(mode), old(pendingCommand), old(pendingCommandMessage), id, count, log)
    {
      var parsed := ParseUsize(Trim(squashCountInput));
      if parsed.None? || parsed.value <= 1 {
        SetStatusMessage("✗ Please enter a number greater than 1");
        return None;
      }
      var count := parsed.value;
      if pendingSquashCommitId.None? {
        SetStatusMessage("✗ No commit selected");
        return None;
      }
      var commitId := pendingSquashCommitId.value;
      logArgs := Some(SquashLogArgs(commitId, count));
      SquashListed(commitId, count, log);
    }

    /** The state `SquashListed` leaves: the input is cleared; a successful
        `git log` is judged by its lines (`CommitsListedState`); a failed one
        leaves a status line, and one that could not start leaves the rest
        as it was. */
    ghost predicate SquashListedState(oldStatus: Option<string>, oldMode: AppMode, oldCommand: Option<GitCommand>,
                                      oldMessage: Option<string>, id: string, count: nat, log: Option<ProcessOutput>)
      reads this
    {
      && squashCountInput == []
      && match log
         case None =>
           && mode == oldMode && pendingSquashCommitId == Some(id) && pendingCommand == oldCommand
           && pendingCommandMessage == oldMessage && statusMessage == oldStatus
         case Some(o) =>
           if o.success then CommitsListedState(oldStatus, oldMode, oldCommand, oldMessage, id, count, Lines(o.stdout))
           else
             && mode == oldMode && pendingSquashCommitId == Some(id) && pendingCommand == oldCommand
             && pendingCommandMessage == oldMessage && statusMessage == Some("✗ Not enough commits in history")
    }

    /** The state after `git log` listed `lines`: at least two commits open
        the confirmation with the pending target "id:count"; fewer leave a
        status line and nothing else. */
    ghost predicate CommitsListedState(oldStatus: Option<string>, oldMode: AppMode, oldCommand: Option<GitCommand>,
                                       oldMessage: Option<string>, id: string, count: nat, lines: seq<string>)
      reads this
    {
      if |lines| >= 2 then
        && mode == Confirm && statusMessage == oldStatus
        && pendingCommand == Some(SquashCommits)
        && pendingSquashCommitId == Some(SquashTarget(id, count))
        && pendingCommandMessage == Some(SquashQuestion(count, lines[|lines| - 1], lines[0]))
      else
        && mode == oldMode && pendingSquashCommitId == Some(id)
        && pendingCommand == oldCommand && pendingCommandMessage == oldMessage
        && statusMessage == Some(if lines == [] then "✗ Not enough commits to squash"
                                 else "✗ Only " + NatToString(|lines|) + " commit(s) available")
    }

    /** The part of `submit_squash_count` after `git log` answered. */
    method SquashListed(commitId: string, count: nat, log: Option<ProcessOutput>)
      requires pendingSquashCommitId == Some(commitId)
      modifies this`statusMessage, this`squashCountInput, this`pendingCommand
      modifies this`pendingCommandMessage, this`pendingSquashCommitId, this`mode
      ensures SquashListedState(old(statusMessage), old(mode), old(pendingCommand), old(pendingCommandMessage), commitId, count, log)
    {
      if log.Some? {
        if log.value.success {
          CommitsListed(commitId, count, Lines(log.value.stdout));
        } else {
          SetStatusMessage("✗ Not enough commits in history");
        }
      }
      squashCountInput := [];
    }

    /** The listed commits: an empty list and a single commit are refused,
        two or more open the confirmation. (The source clears the input and
        returns early on an empty list; the caller clears it in every
        case.) */
    method CommitsListed(commitId: string, count: nat, lines: seq<string>)
      requires pendingSquashCommitId == Some(commitId)
      modifies this`statusMessage, this`pendingCommand
      modifies this`pendingCommandMessage, this`pendingSquashCommitId, this`mode
      ensures CommitsListedState(old(statusMessage), old(mode), old(pendingCommand), old(pendingCommandMessage), commitId, count, lines)
    {
      if lines == [] {
        SetStatusMessage("✗ Not enough commits to squash");
        return;
      }
      if |lines| >= 2 {
        var first := lines[0];
        var last := lines[|lines| - 1];
        pendingCommand := Some(SquashCommits);
        pendingCommandMessage := Some(SquashQuestion(count, last, first));
        pendingSquashCommitId := Some(SquashTarget(commitId, count));
        mode := Confirm;
      } else {
        SetStatusMessage("✗ Only " + NatToString(|lines|) + " commit(s) available");
      }
    }

    // --- reword ---------------------------------------------------------

    method RewordMessageInputChar(c: char)
      modifies this`rewordMessageInput
      ensures rewordMessageInput == Typed(old(rewordMessageInput), c)
    {
      rewordMessageInput := rewordMessageInput + [c];
    }

    method RewordMessageBackspace()
      modifies this`rewordMessageInput
      ensures rewordMessageInput == Erased(old(rewordMessageInput))
    {
      if rewordMessageInput != [] {
        rewordMessageInput := rewordMessageInput[..|rewordMessageInput| - 1];
      }
    }

    method CancelRewordMessage()
      modifies this`rewordMessageInput, this`pendingRewordCommitId, this`mode
      ensures rewordMessageInput == [] && pendingRewordCommitId == None && mode == Normal
    {
      rewordMessageInput := [];
      pendingRewordCommitId := None;
      mode := Normal;
    }

    /** `submit_reword_message`: a blank message is refused and the dialog
        stays open; with a pending commit the reword is requested, the
        pending commit consumed and the dialog closed; with none, nothing
        happens. */
    method SubmitRewordMessage(outcome: Outcome) returns (request: Option<Request>)
      modifies this`statusMessage, this`pendingRewordCommitId, this`mode, this`rewordMessageInput
      ensures Blank(old(rewordMessageInput)) ==>
        && request == None && statusMessage == Some("✗ Commit message cannot be empty")
        && mode == old(mode) && rewordMessageInput == old(rewordMessageInput)
        && pendingRewordCommitId == old(pendingRewordCommitId)
      ensures !Blank(old(rewordMessageInput)) && old(pendingRewordCommitId).Some? ==>
        && request == Some(RunReword(old(pendingRewordCommitId).value, old(rewordMessageInput)))
        && mode == Normal && rewordMessageInput == [] && pendingRewordCommitId == None
        && statusMessage == Some(StatusAfter(outcome))
      ensures !Blank(old(rewordMessageInput)) && old(pendingRewordCommitId).None? ==>
        && request == None && statusMessage == old(statusMessage)
        && mode == old(mode) && rewordMessageInput == old(rewordMessageInput) && pendingRewordCommitId == None
    {
      request := None;
      if Blank(rewordMessageInput) {
        SetStatusMessage("✗ Commit message cannot be empty");
        return;
      }
      var pending := pendingRewordCommitId;
      pendingRewordCommitId := None;
      if pending.Some? {
        var newMessage := rewordMessageInput;
        request := Some(RunReword(pending.value, newMessage));
        mode := Normal;
        rewordMessageInput := [];
        SetStatusMessage(StatusAfter(outcome));
      }
    }

    // --- git configuration ----------------------------------------------

    method ConfigInputChar(c: char)
      modifies this`configInput
      ensures configInput == Typed(old(configInput), c)
    {
      configInput := configInput + [c];
    }

    method ConfigInputBackspace()
      modifies this`configInput
      ensures configInput == Erased(old(configInput))
    {
      if configInput != [] {
        configInput := configInput[..|configInput| - 1];
      }
    }

    method CancelConfigInput()
      modifies this`configInput, this`mode
      ensures configInput == [] && mode == Normal
    {
      configInput := [];
      mode := Normal;
    }

    /** `submit_user_name` and `submit_user_email`: a blank value closes
        the dialog with an error naming the setting; otherwise the dialog closes, the
        buffer is cleared and the setting requested. */
    method SubmitConfig(email: bool, outcome: Outcome) returns (request: Option<Request>)
      modifies this`statusMessage, this`mode, this`configInput
      ensures mode == Normal
      ensures Blank(old(configInput)) ==>
        && request == None && configInput == old(configInput)
        && statusMessage == Some(if email then "✗ User email cannot be empty" else "✗ User name cannot be empty")
      ensures !Blank(old(configInput)) ==>
        && request == Some(if email then RunSetUserEmail(old(configInput)) else RunSetUserName(old(configInput)))
        && configInput == [] && statusMessage == Some(StatusAfter(outcome))
    {
      if Blank(configInput) {
        SetStatusMessage(if email then "✗ User email cannot be empty" else "✗ User name cannot be empty");
        mode := Normal;
        return None;
      }
      var value := configInput;
      mode := Normal;
      configInput := [];
      request := Some(if email then RunSetUserEmail(value) else RunSetUserName(value));
      SetStatusMessage(StatusAfter(outcome));
    }

    method RemoteHostInputChar(c: char)
      modifies this`remoteHostInput
      ensures remoteHostInput == Typed(old(remoteHostInput), c)
    {
      remoteHostInput := remoteHostInput + [c];
    }

    method RemoteHostBackspace()
      modifies this`remoteHostInput
      ensures remoteHostInput == Erased(old(remoteHostInput))
    {
      if remoteHostInput != [] {
        remoteHostInput := remoteHostInput[..|remoteHostInput| - 1];
      }
    }

    method CancelRemoteHostInput()
      modifies this`remoteHostInput, this`mode
      ensures remoteHostInput == [] && mode == Normal
    {
      remoteHostInput := [];
      mode := Normal;
    }

    /** `submit_remote_host`: as the configuration dialogs, on its own
        buffer. */
    method SubmitRemoteHost(outcome: Outcome) returns (request: Option<Request>)
      modifies this`statusMessage, this`mode, this`remoteHostInput
      ensures mode == Normal
      ensures Blank(old(remoteHostInput)) ==>
        && request == None && remoteHostInput == old(remoteHostInput)
        && statusMessage == Some("✗ Remote URL cannot be empty")
      ensures !Blank(old(remoteHostInput)) ==>
        && request == Some(RunSetRemoteHost(old(remoteHostInput)))
        && remoteHostInput == [] && statusMessage == Some(StatusAfter(outcome))
    {
      if Blank(remoteHostInput) {
        SetStatusMessage("✗ Remote URL cannot be empty");
        mode := Normal;
        return None;
      }
      var url := remoteHostInput;
      mode := Normal;
      remoteHostInput := [];
      request := Some(RunSetRemoteHost(url));
      SetStatusMessage(StatusAfter(outcome));
    }

    // --- assigning commits to a branch ------------------------------------

    /** The id of the selected node, if the selection is a node. */
    function SelectedId(): (r: Option<string>)
      reads this
      ensures r.Some? <==> selectedCommitIdx.Some? && selectedCommitIdx.value < |graphNodes|
    {
      if selectedCommitIdx.Some? && selectedCommitIdx.value < |graphNodes|
      then Some(graphNodes[selectedCommitIdx.value].commit.id)
      else None
    }

    /** `toggle_commit_selection`: the selected node's id is removed from the
        chosen ids or added to them; without a selected node nothing
        changes. */
    method ToggleCommitSelection()
      modifies this`selectedCommitIds
      ensures SelectedId().Some? ==> selectedCommitIds == Toggled(old(selectedCommitIds), SelectedId().value)
      ensures SelectedId().None? ==> selectedCommitIds == old(selectedCommitIds)
      ensures Distinct(old(selectedCommitIds)) ==> Distinct(selectedCommitIds)
    {
      if selectedCommitIdx.Some? && selectedCommitIdx.value < |graphNodes| {
        var commitId := graphNodes[selectedCommitIdx.value].commit.id;
        if Distinct(selectedCommitIds) {
          ToggledMembership(selectedCommitIds, commitId);
        }
        match IndexOf(selectedCommitIds, commitId) {
          case Some(pos) =>
            selectedCommitIds := selectedCommitIds[..pos] + selectedCommitIds[pos + 1..];
          case None =>
            selectedCommitIds := selectedCommitIds + [commitId];
        }
      }
    }

    /** `finish_commit_selection`: nothing chosen ends the selection; else
        the branch name is asked for. */
    method FinishCommitSelection()
      modifies this`statusMessage, this`mode
      ensures selectedCommitIds == [] ==> mode == Normal && statusMessage == Some("No commits selected")
      ensures selectedCommitIds != [] ==> mode == AssignBranchName && statusMessage == old(statusMessage)
    {
      if selectedCommitIds == [] {
        SetStatusMessage("No commits selected");
        mode := Normal;
        return;
      }
      mode := AssignBranchName;
    }

    method CancelCommitSelection()
      modifies this`selectedCommitIds, this`mode
      ensures selectedCommitIds == [] && mode == Normal
    {
      selectedCommitIds := [];
      mode := Normal;
    }

    method AssignBranchNameInputChar(c: char)
      modifies this`assignBranchNameInput
      ensures assignBranchNameInput == Typed(old(assignBranchNameInput), c)
    {
      assignBranchNameInput := assignBranchNameInput + [c];
    }

    method AssignBranchNameBackspace()
      modifies this`assignBranchNameInput
      ensures assignBranchNameInput == Erased(old(assignBranchNameInput))
    {
      if assignBranchNameInput != [] {
        assignBranchNameInput := assignBranchNameInput[..|assignBranchNameInput| - 1];
      }
    }

    method CancelAssignBranchName()
      modifies this`assignBranchNameInput, this`selectedCommitIds, this`mode
      ensures assignBranchNameInput == [] && selectedCommitIds == [] && mode == Normal
    {
      assignBranchNameInput := [];
      selectedCommitIds := [];
      mode := Normal;
    }

    /** `submit_assign_branch_name`: a blank name is refused with the dialog
        left open. Otherwise the trimmed name is handed to the assignment
        (`outcome` is its result): success reports its message verbatim,
        clears the dialog and the chosen ids and returns to normal mode; a
        failure only reports itself. The refresh that follows a success is
        not part of this model. */
    method SubmitAssignBranchName(outcome: Outcome) returns (branch: Option<string>)
      modifies this`statusMessage, this`assignBranchNameInput, this`selectedCommitIds, this`mode
      ensures Blank(old(assignBranchNameInput)) ==>
        && branch == None && statusMessage == Some("Branch name cannot be empty")
        && assignBranchNameInput == old(assignBranchNameInput) && selectedCommitIds == old(selectedCommitIds)
        && mode == old(mode)
      ensures !Blank(old(assignBranchNameInput)) ==>
        && branch == Some(Trim(old(assignBranchNameInput))) && branch.value != []
        && (outcome.Done? ==>
              && statusMessage == Some(outcome.msg)
              && assignBranchNameInput == [] && selectedCommitIds == [] && mode == Normal)
        && (outcome.Failed? ==>
              && statusMessage == Some("Error: " + outcome.error)
              && assignBranchNameInput == old(assignBranchNameInput)
              && selectedCommitIds == old(selectedCommitIds) && mode == old(mode))
    {
      var branchName := Trim(assignBranchNameInput);
      if branchName == [] {
        SetStatusMessage("Branch name cannot be empty");
        return None;
      }
      branch := Some(branchName);
      match outcome {
        case Done(msg) =>
          SetStatusMessage(msg);
          assignBranchNameInput := [];
          selectedCommitIds := [];
          mode := Normal;
        case Failed(e) =>
          SetStatusMessage("Error: " + e);
      }
    }
  }
}
