// Moving the selections, keeping the selected rows scrolled into view,
// cycling the focused pane and scrolling the details pane.

module Navigation {
  import opened Util
  import opened Types
  import Graph

  // ---------------------------------------------------------------------
  // Selections in a list

  /** A selection is usable for a list of `len` entries: nothing selected,
      or an index into the list. */
  predicate InRange(sel: Option<nat>, len: nat) {
    sel.None? || sel.value < len
  }

  /** One step up: an index above 0 moves up, index 0 stays, and an empty
      selection picks the first entry of a non-empty list. */
  function StepUp(sel: Option<nat>, len: nat): Option<nat> {
    match sel
    case Some(idx) => if idx > 0 then Some(idx - 1) else sel
    case None => if len > 0 then Some(0) else None
  }

  /** One step down: an index moves down while a next entry exists, and an
      empty selection picks the first entry of a non-empty list. */
  function StepDown(sel: Option<nat>, len: nat): Option<nat> {
    match sel
    case Some(idx) => if idx + 1 < len then Some(idx + 1) else sel
    case None => if len > 0 then Some(0) else None
  }

  /** Both steps keep a usable selection usable, and pick an entry from
      nothing exactly when the list is non-empty. */
  lemma StepsStayInRange(sel: Option<nat>, len: nat)
    requires InRange(sel, len)
    ensures InRange(StepUp(sel, len), len) && InRange(StepDown(sel, len), len)
    ensures sel.None? ==> (StepUp(sel, len).Some? <==> len > 0) && StepUp(sel, len) == StepDown(sel, len)
    ensures StepUp(sel, len).None? <==> sel.None? && len == 0
    ensures StepDown(sel, len).None? <==> sel.None? && len == 0
  {
  }

  /** A step down that moves is undone by a step up, and a step up that moves
      from an index is undone by a step down. */
  lemma StepsUndo(sel: Option<nat>, len: nat)
    requires InRange(sel, len)
    ensures sel.Some? && StepDown(sel, len) != sel ==> StepUp(StepDown(sel, len), len) == sel
    ensures sel.Some? && StepUp(sel, len) != sel ==> StepDown(StepUp(sel, len), len) == sel
  {
  }

  /** An index one entry or line up, stopping at 0. */
  function UpOne(i: nat): nat {
    if i > 0 then i - 1 else i
  }

  /** An index one entry down while a next entry of `len` exists. */
  function DownOne(i: nat, len: nat): nat {
    if i + 1 < len then i + 1 else i
  }

  /** Both keep an index into a list inside it, and a move down is undone by
      a move up. */
  lemma IndexStepsStayInRange(i: nat, len: nat)
    requires i < len
    ensures UpOne(i) < len && DownOne(i, len) < len
    ensures DownOne(i, len) != i ==> UpOne(DownOne(i, len)) == i
    ensures UpOne(i) != i ==> DownOne(UpOne(i), len) == i
  {
  }

  /** `k` steps down. */
  function StepsDown(sel: Option<nat>, len: nat, k: nat): Option<nat>
    decreases k
  {
    if k == 0 then sel else StepDown(StepsDown(sel, len, k - 1), len)
  }

  /** From the first entry, `k` steps down reach entry `k`, or stop at the
      last entry of the list. */
  lemma {:induction false} StepsDownReach(len: nat, k: nat)
    requires len > 0
    ensures StepsDown(Some(0), len, k) == Some(if k < len then k else len - 1)
    decreases k
  {
    if k > 0 {
      StepsDownReach(len, k - 1);
    }
  }

  // ---------------------------------------------------------------------
  // Scrolling

  /** `adjust_scroll`: the commit at index `i` is drawn on graph row `2 * i`;
      a row above the window scrolls up to it, and a row at or past the last
      line of the window scrolls so that it sits on the second-to-last line.
      The subtractions saturate at zero. */
  function ScrollFor(sel: Option<nat>, offset: nat, height: nat): nat {
    match sel
    case None => offset
    case Some(idx) =>
      var row := 2 * idx;
      var o := if row < offset then row else offset;
      if row >= o + SatSub(height, 1) then SatSub(row, SatSub(height, 2)) else o
  }

  function SatSub(a: nat, b: nat): nat {
    if a >= b then a - b else 0
  }

  /** After scrolling, the selected commit's row is inside a window of at
      least one line; with two lines or more, the edge row below it is
      inside too. */
  lemma ScrollShowsSelection(idx: nat, offset: nat, height: nat)
    requires height >= 1
    ensures var o := ScrollFor(Some(idx), offset, height);
      && o <= 2 * idx < o + height
      && (height >= 2 ==> 2 * idx + 1 < o + height)
  {
  }

  /** A selected row that is already visible above the window's last line
      does not scroll, and nothing scrolls without a selection. */
  lemma ScrollStable(sel: Option<nat>, offset: nat, height: nat)
    requires sel.None? || offset <= 2 * sel.value < offset + height - 1
    ensures ScrollFor(sel, offset, height) == offset
  {
  }

  /** `adjust_command_scroll`. The height is at least one: with a height of
      0 the comparison below always holds and `height - 1` underflows. */
  function CommandScrollFor(selected: nat, offset: nat, height: nat): nat
    requires height >= 1
  {
    var o := if selected < offset then selected else offset;
    if selected >= o + height then SatSub(selected, height - 1) else o
  }

  /** The selected command is inside the window after scrolling, and an
      already visible command does not scroll. */
  lemma CommandScrollShowsSelection(selected: nat, offset: nat, height: nat)
    requires height >= 1
    ensures var o := CommandScrollFor(selected, offset, height);
      o <= selected < o + height
    ensures offset <= selected < offset + height ==> CommandScrollFor(selected, offset, height) == offset
  {
  }

  // ---------------------------------------------------------------------
  // Panes and the details pane

  /** The pane that gets the focus next. */
  function PaneAfter(p: FocusedPane): (q: FocusedPane)
    ensures q != p
  {
    match p
    case CommitGraph => GitActions
    case GitActions => CommitDetails
    case CommitDetails => GitStatus
    case GitStatus => CommitGraph
  }

  function PaneAfterTimes(p: FocusedPane, k: nat): FocusedPane
    decreases k
  {
    if k == 0 then p else PaneAfter(PaneAfterTimes(p, k - 1))
  }

  /** The focus cycles through all four panes and is back after exactly
      four steps. */
  lemma PaneAfterCycle(p: FocusedPane)
    ensures PaneAfterTimes(p, 4) == p
    ensures PaneAfterTimes(p, 2) != p && PaneAfterTimes(p, 3) != p
    ensures {p, PaneAfterTimes(p, 1), PaneAfterTimes(p, 2), PaneAfterTimes(p, 3)} ==
      {CommitGraph, GitActions, CommitDetails, GitStatus}
  {
    assert PaneAfterTimes(p, 1) == PaneAfter(p);
    assert PaneAfterTimes(p, 2) == PaneAfter(PaneAfter(p));
    assert PaneAfterTimes(p, 3) == PaneAfter(PaneAfter(PaneAfter(p)));
    assert PaneAfterTimes(p, 4) == PaneAfter(PaneAfter(PaneAfter(PaneAfter(p))));
  }

  /** The details pane scrolls left by five columns, stopping at zero. */
  function ColumnsLeft(offset: nat): nat {
    if offset > 0 then SatSub(offset, 5) else offset
  }

  /** Scrolling down then up, or right then left, comes back; left never
      passes zero. */
  lemma DetailsScrollUndo(offset: nat)
    ensures UpOne(offset + 1) == offset
    ensures ColumnsLeft(offset + 5) == offset
    ensures ColumnsLeft(offset) == (if offset >= 5 then offset - 5 else 0)
  {
  }

  /** The arguments of the `git diff` run for a working-tree file: staged
      changes against the index, unstaged changes and deletions against the
      working tree, an untracked file against the empty file. */
  function FileDiffArgs(f: StatusFile): (args: seq<string>)
    ensures |args| >= 3 && args[0] == "diff" && args[|args| - 1] == f.path
    ensures args[1] == "--cached" <==> f.status == Staged
    ensures args[1] == "--no-index" <==> f.status == Untracked
    ensures f.status != Untracked ==> args[|args| - 2] == "--"
  {
    match f.status
    case Staged => ["diff", "--cached", "--", f.path]
    case Modified => ["diff", "--", f.path]
    case Deleted => ["diff", "--", f.path]
    case Untracked => ["diff", "--no-index", "/dev/null", f.path]
  }

  // ---------------------------------------------------------------------
  // The application state touched by navigation

  class App {
    var graph: Graph.CommitGraph
    var graphNodes: seq<Graph.GraphNode>
    var selectedCommitIdx: Option<nat>
    var scrollOffset: nat
    var currentDiff: Option<string>
    var detailsScrollOffset: nat
    var detailsHorizontalOffset: nat
    var commandList: seq<GitCommand>
    var selectedCommandIdx: nat
    var commandScrollOffset: nat
    var gitStatusFiles: seq<StatusFile>
    var selectedFileIdx: Option<nat>
    var focusedPane: FocusedPane
    var mode: AppMode
    var shouldQuit: bool

    constructor (graph: Graph.CommitGraph, nodes: seq<Graph.GraphNode>, commands: seq<GitCommand>,
                 files: seq<StatusFile>)
      ensures this.graph == graph && graphNodes == nodes && commandList == commands && gitStatusFiles == files
      ensures selectedCommitIdx == None && selectedFileIdx == None && currentDiff == None
      ensures scrollOffset == 0 && detailsScrollOffset == 0 && detailsHorizontalOffset == 0
      ensures selectedCommandIdx == 0 && commandScrollOffset == 0
      ensures focusedPane == CommitGraph && mode == Normal && !shouldQuit
    {
      this.graph := graph;
      graphNodes := nodes;
      commandList := commands;
      gitStatusFiles := files;
      selectedCommitIdx := None;
      selectedFileIdx := None;
      currentDiff := None;
      scrollOffset := 0;
      detailsScrollOffset := 0;
      detailsHorizontalOffset := 0;
      selectedCommandIdx := 0;
      commandScrollOffset := 0;
      focusedPane := CommitGraph;
      mode := Normal;
      shouldQuit := false;
    }

    /** `load_current_diff`. `diff` is what the repository returns for the
        selected commit (None when no repository is open or the lookup
        fails); it replaces the shown diff and resets its scroll. */
    method LoadCurrentDiff(diff: Option<string>)
      modifies this`currentDiff, this`detailsScrollOffset
      ensures var loads := selectedCommitIdx.Some? && selectedCommitIdx.value < |graphNodes| && diff.Some?;
        && (loads ==> currentDiff == diff && detailsScrollOffset == 0)
        && (!loads ==> currentDiff == old(currentDiff) && detailsScrollOffset == old(detailsScrollOffset))
    {
      if selectedCommitIdx.Some? && selectedCommitIdx.value < |graphNodes| && diff.Some? {
        currentDiff := diff;
        detailsScrollOffset := 0;
      }
    }

    /** `update_selection`: highlights the selected commit's ancestry and
        loads its diff. */
    method UpdateSelection(diff: Option<string>)
      modifies graph`ancestryPath, this`currentDiff, this`detailsScrollOffset
      ensures selectedCommitIdx.Some? && selectedCommitIdx.value < |graphNodes| ==>
        Graph.IsAncestrySet(graph.commits, graphNodes[selectedCommitIdx.value].commit.id, graph.ancestryPath)
      ensures !(selectedCommitIdx.Some? && selectedCommitIdx.value < |graphNodes|) ==>
        graph.ancestryPath == old(graph.ancestryPath)
      ensures var loads := selectedCommitIdx.Some? && selectedCommitIdx.value < |graphNodes| && diff.Some?;
        && (loads ==> currentDiff == diff && detailsScrollOffset == 0)
        && (!loads ==> currentDiff == old(currentDiff) && detailsScrollOffset == old(detailsScrollOffset))
    {
      if selectedCommitIdx.Some? && selectedCommitIdx.value < |graphNodes| {
        graph.TraceAncestry(graphNodes[selectedCommitIdx.value].commit.id);
      }
      LoadCurrentDiff(diff);
    }

    /** `move_selection_up`; the selection is refreshed only when it moved. */
    method MoveSelectionUp(diff: Option<string>)
      modifies this`selectedCommitIdx, graph`ancestryPath, this`currentDiff, this`detailsScrollOffset
      ensures selectedCommitIdx == StepUp(old(selectedCommitIdx), |graphNodes|)
      ensures selectedCommitIdx != old(selectedCommitIdx) ==> Refreshed(diff)
      ensures selectedCommitIdx == old(selectedCommitIdx) ==>
        && graph.ancestryPath == old(graph.ancestryPath)
        && currentDiff == old(currentDiff) && detailsScrollOffset == old(detailsScrollOffset)
    {
      var sel := selectedCommitIdx;
      if sel.Some? {
        if sel.value > 0 {
          selectedCommitIdx := Some(sel.value - 1);
          UpdateSelection(diff);
        }
      } else if |graphNodes| > 0 {
        selectedCommitIdx := Some(0);
        UpdateSelection(diff);
      }
    }

    /** `move_selection_down`; the selection is refreshed only when it
        moved. */
    method MoveSelectionDown(diff: Option<string>)
      modifies this`selectedCommitIdx, graph`ancestryPath, this`currentDiff, this`detailsScrollOffset
      ensures selectedCommitIdx == StepDown(old(selectedCommitIdx), |graphNodes|)
      ensures selectedCommitIdx != old(selectedCommitIdx) ==> Refreshed(diff)
      ensures selectedCommitIdx == old(selectedCommitIdx) ==>
        && graph.ancestryPath == old(graph.ancestryPath)
        && currentDiff == old(currentDiff) && detailsScrollOffset == old(detailsScrollOffset)
    {
      var sel := selectedCommitIdx;
      if sel.Some? {
        if sel.value + 1 < |graphNodes| {
          selectedCommitIdx := Some(sel.value + 1);
          UpdateSelection(diff);
        }
      } else if |graphNodes| > 0 {
        selectedCommitIdx := Some(0);
        UpdateSelection(diff);
      }
    }

    /** After a move something is selected; when it is a node, its
        ancestry is highlighted and a delivered diff is shown from the top. */
    ghost predicate Refreshed(diff: Option<string>)
      reads this, graph
    {
      && selectedCommitIdx.Some?
      && (selectedCommitIdx.value < |graphNodes| ==>
            && Graph.IsAncestrySet(graph.commits, graphNodes[selectedCommitIdx.value].commit.id, graph.ancestryPath)
            && (diff.Some? ==> currentDiff == diff && detailsScrollOffset == 0))
    }

    /** `adjust_scroll` for a graph window of `height` lines. */
    method AdjustScroll(height: nat)
      modifies this`scrollOffset
      ensures scrollOffset == ScrollFor(selectedCommitIdx, old(scrollOffset), height)
    {
      if selectedCommitIdx.Some? {
        var selectedRow := selectedCommitIdx.value * 2;
        if selectedRow < scrollOffset {
          scrollOffset := selectedRow;
        }
        if selectedRow >= scrollOffset + SatSub(height, 1) {
          scrollOffset := SatSub(selectedRow, SatSub(height, 2));
        }
      }
    }

    /** `adjust_command_scroll` for a command window of `height` lines. */
    method AdjustCommandScroll(height: nat)
      requires height >= 1
      modifies this`commandScrollOffset
      ensures commandScrollOffset == CommandScrollFor(selectedCommandIdx, old(commandScrollOffset), height)
    {
      var selectedIdx := selectedCommandIdx;
      if selectedIdx < commandScrollOffset {
        commandScrollOffset := selectedIdx;
      }
      if selectedIdx >= commandScrollOffset + height {
        commandScrollOffset := SatSub(selectedIdx, height - 1);
      }
    }

    method Quit()
      modifies this`shouldQuit
      ensures shouldQuit
    {
      shouldQuit := true;
    }

    method NextPane()
      modifies this`focusedPane
      ensures focusedPane == PaneAfter(old(focusedPane))
    {
      focusedPane := match focusedPane
        case CommitGraph => GitActions
        case GitActions => CommitDetails
        case CommitDetails => GitStatus
        case GitStatus => CommitGraph;
    }

    method DetailsScrollUp()
      modifies this`detailsScrollOffset
      ensures detailsScrollOffset == UpOne(old(detailsScrollOffset))
    {
      if detailsScrollOffset > 0 {
        detailsScrollOffset := detailsScrollOffset - 1;
      }
    }

    method DetailsScrollDown()
      modifies this`detailsScrollOffset
      ensures detailsScrollOffset == old(detailsScrollOffset) + 1
    {
      detailsScrollOffset := detailsScrollOffset + 1;
    }

    method DetailsScrollLeft()
      modifies this`detailsHorizontalOffset
      ensures detailsHorizontalOffset == ColumnsLeft(old(detailsHorizontalOffset))
    {
      if detailsHorizontalOffset > 0 {
        detailsHorizontalOffset := SatSub(detailsHorizontalOffset, 5);
      }
    }

    method DetailsScrollRight()
      modifies this`detailsHorizontalOffset
      ensures detailsHorizontalOffset == old(detailsHorizontalOffset) + 5
    {
      detailsHorizontalOffset := detailsHorizontalOffset + 5;
    }

    /** `command_up`: the selected action moves up unless it is the first. */
    method CommandUp()
      modifies this`selectedCommandIdx
      ensures selectedCommandIdx == UpOne(old(selectedCommandIdx))
    {
      if selectedCommandIdx > 0 {
        selectedCommandIdx := selectedCommandIdx - 1;
      }
    }

    /** `command_down`: the selected action moves down while a next one
        exists. */
    method CommandDown()
      modifies this`selectedCommandIdx
      ensures selectedCommandIdx == DownOne(old(selectedCommandIdx), |commandList|)
    {
      if selectedCommandIdx + 1 < |commandList| {
        selectedCommandIdx := selectedCommandIdx + 1;
      }
    }

    method FileUp()
      modifies this`selectedFileIdx
      ensures selectedFileIdx == StepUp(old(selectedFileIdx), |gitStatusFiles|)
    {
      if selectedFileIdx.Some? {
        if selectedFileIdx.value > 0 {
          selectedFileIdx := Some(selectedFileIdx.value - 1);
        }
      } else if |gitStatusFiles| > 0 {
        selectedFileIdx := Some(0);
      }
    }

    method FileDown()
      modifies this`selectedFileIdx
      ensures selectedFileIdx == StepDown(old(selectedFileIdx), |gitStatusFiles|)
    {
      if selectedFileIdx.Some? {
        if selectedFileIdx.value + 1 < |gitStatusFiles| {
          selectedFileIdx := Some(selectedFileIdx.value + 1);
        }
      } else if |gitStatusFiles| > 0 {
        selectedFileIdx := Some(0);
      }
    }

    /** `load_file_diff`. `output` is the result of running `git` with
        `FileDiffArgs` of the selected file (None when it could not be
        started); it is shown when the run succeeded or printed something. */
    method LoadFileDiff(output: Option<ProcessOutput>)
      modifies this`currentDiff, this`detailsScrollOffset
      ensures var loads := selectedFileIdx.Some? && selectedFileIdx.value < |gitStatusFiles| &&
                           output.Some? && (output.value.success || output.value.stdout != []);
        && (loads ==> currentDiff == Some(output.value.stdout) && detailsScrollOffset == 0)
        && (!loads ==> currentDiff == old(currentDiff) && detailsScrollOffset == old(detailsScrollOffset))
    {
      if selectedFileIdx.Some? && selectedFileIdx.value < |gitStatusFiles| {
        if output.Some? && (output.value.success || output.value.stdout != []) {
          currentDiff := Some(output.value.stdout);
          detailsScrollOffset := 0;
        }
      }
    }

    /** `open_file_diff_view`: with a file selected, loads its diff and
        shows it from the top-left corner. */
    method OpenFileDiffView(output: Option<ProcessOutput>)
      modifies this`currentDiff, this`detailsScrollOffset, this`detailsHorizontalOffset, this`mode
      ensures selectedFileIdx.Some? ==>
        && mode == FileDiffView && detailsScrollOffset == 0 && detailsHorizontalOffset == 0
        && ((selectedFileIdx.value < |gitStatusFiles| && output.Some? &&
             (output.value.success || output.value.stdout != [])) ==> currentDiff == Some(output.value.stdout))
      ensures selectedFileIdx.None? ==>
        && mode == old(mode) && currentDiff == old(currentDiff)
        && detailsScrollOffset == old(detailsScrollOffset)
        && detailsHorizontalOffset == old(detailsHorizontalOffset)
    {
      if selectedFileIdx.Some? {
        LoadFileDiff(output);
        detailsScrollOffset := 0;
        detailsHorizontalOffset := 0;
        mode := FileDiffView;
      }
    }

    /** `close_file_diff_view`: back to the normal mode, scrolled to the
        top-left corner. */
    method CloseFileDiffView()
      modifies this`mode, this`detailsScrollOffset, this`detailsHorizontalOffset
      ensures mode == Normal && detailsScrollOffset == 0 && detailsHorizontalOffset == 0
    {
      mode := Normal;
      detailsScrollOffset := 0;
      detailsHorizontalOffset := 0;
    }
  }
}
