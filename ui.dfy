/** The commit-graph pane of the user interface: which lanes are live at each
    node row and across each edge row, and with what branch membership; the
    line sequence (a node row per commit, an edge row between consecutive
    commits); the one-line commit summary; and the word wrap of the details
    pane. */
module Ui {
  import opened Util
  import opened Graph
  import opened Renderer

  // ---------------------------------------------------------------------
  // Liveness

  /** Some node in `ns` has id `id`. */
  predicate HasId(ns: seq<GraphNode>, id: string) {
    exists k :: 0 <= k < |ns| && ns[k].commit.id == id
  }

  /** Commit `id` is drawn below row `i`. */
  predicate Pending(nodes: seq<GraphNode>, i: nat, id: string)
    requires i < |nodes|
  {
    HasId(nodes[i + 1..], id)
  }

  /** Node `j` still has a parent drawn below row `i`. */
  predicate Live(nodes: seq<GraphNode>, i: nat, j: nat)
    requires j <= i < |nodes|
  {
    exists p :: p in nodes[j].commit.parents && Pending(nodes, i, p)
  }

  /** The `k`-th merge source of a node belongs to its parent `k + 1`, and
      is live while that parent is drawn below row `i`. */
  predicate SourceLive(nodes: seq<GraphNode>, i: nat, parents: seq<string>, k: nat)
    requires i < |nodes|
  {
    k + 1 < |parents| && Pending(nodes, i, parents[k + 1])
  }

  /** Node `j` keeps lane `c` live at row `i`: its own lane while it has a
      parent below, and, when merge sources count, each source lane while
      the parent it stands for is below. */
  ghost predicate Contributes(nodes: seq<GraphNode>, i: nat, j: nat, withMerges: bool, c: nat)
    requires j <= i < |nodes|
  {
    var n := nodes[j];
    var srcs := MergeSources(n.connections);
    (n.column == c && Live(nodes, i, j))
    || (withMerges && exists k :: 0 <= k < |srcs| && srcs[k] == c && SourceLive(nodes, i, n.commit.parents, k))
  }

  /** On a node row, merge sources count for the rows after the merge
      commit only. */
  ghost predicate RowContributes(nodes: seq<GraphNode>, i: nat, j: nat, c: nat)
    requires j <= i < |nodes|
  {
    Contributes(nodes, i, j, j < i, c)
  }

  /** Lane `c` is drawn at node row `i`. */
  ghost predicate RowActive(nodes: seq<GraphNode>, i: nat, c: nat)
    requires i < |nodes|
  {
    c == nodes[i].column || exists j :: 0 <= j <= i && RowContributes(nodes, i, j, c)
  }

  ghost predicate FirstRowContributor(nodes: seq<GraphNode>, i: nat, j: nat, c: nat)
    requires i < |nodes|
  {
    0 <= j <= i && RowContributes(nodes, i, j, c) && forall j' :: 0 <= j' < j ==> !RowContributes(nodes, i, j', c)
  }

  /** The current node bends straight into the next one, its parent in
      another lane: its own lane does not pass through the edge row. */
  predicate Branching(nodes: seq<GraphNode>, idx: nat, j: nat)
    requires j <= idx && idx + 1 < |nodes|
  {
    j == idx && nodes[idx + 1].commit.id in nodes[j].commit.parents && nodes[j].column != nodes[idx + 1].column
  }

  /** On an edge row every earlier node's merge sources count, the current
      node's included, unless it is branching. */
  ghost predicate EdgeContributes(nodes: seq<GraphNode>, idx: nat, j: nat, c: nat)
    requires j <= idx && idx + 1 < |nodes|
  {
    !Branching(nodes, idx, j) && Contributes(nodes, idx, j, true, c)
  }

  /** Lane `c` passes through the edge row below row `idx`. */
  ghost predicate EdgeActive(nodes: seq<GraphNode>, idx: nat, c: nat)
    requires idx + 1 < |nodes|
  {
    exists j :: 0 <= j <= idx && EdgeContributes(nodes, idx, j, c)
  }

  ghost predicate FirstEdgeContributor(nodes: seq<GraphNode>, idx: nat, j: nat, c: nat)
    requires idx + 1 < |nodes|
  {
    0 <= j <= idx && EdgeContributes(nodes, idx, j, c) && forall j' :: 0 <= j' < j ==> !EdgeContributes(nodes, idx, j', c)
  }

  /** Adds the lanes node `j` keeps live at row `i` to `active`, recording
      node `j`'s branch membership for each lane not already listed. */
  method AbsorbNode(nodes: seq<GraphNode>, i: nat, j: nat, withMerges: bool, active: seq<nat>, colMap: map<nat, bool>)
    returns (active': seq<nat>, colMap': map<nat, bool>)
    requires j <= i < |nodes|
    requires forall c :: c in colMap <==> c in active
    ensures forall c :: c in colMap' <==> c in active'
    ensures forall c :: c in active' <==> c in active || Contributes(nodes, i, j, withMerges, c)
    ensures forall c :: c in colMap ==> colMap'[c] == colMap[c]
    ensures forall c :: c in colMap' && c !in colMap ==> colMap'[c] == nodes[j].inCurrentBranch
  {
    var node := nodes[j];
    var live := Live(nodes, i, j);
    active', colMap' := active, colMap;
    if live && node.column !in active' {
      active' := active' + [node.column];
      colMap' := colMap'[node.column := node.inCurrentBranch];
    }
    if withMerges {
      active', colMap' := AbsorbSources(nodes, i, node.commit.parents, MergeSources(node.connections),
                                        node.inCurrentBranch, active', colMap');
    }
  }

  /** Adds each merge source lane whose parent is still drawn below row `i`
      to `active`, recording membership `inBranch` for each lane not
      already listed. The `k`-th `MergeFrom` (its `merge_from_count` is
      `k + 1`) names parent `k + 1`. */
  method AbsorbSources(nodes: seq<GraphNode>, i: nat, parents: seq<string>, srcs: seq<nat>, inBranch: bool,
                       active: seq<nat>, colMap: map<nat, bool>)
    returns (active': seq<nat>, colMap': map<nat, bool>)
    requires i < |nodes|
    requires forall c :: c in colMap <==> c in active
    ensures forall c :: c in colMap' <==> c in active'
    ensures forall c :: c in active' <==>
      (c in active || exists k :: 0 <= k < |srcs| && srcs[k] == c && SourceLive(nodes, i, parents, k))
    ensures forall c :: c in colMap ==> colMap'[c] == colMap[c]
    ensures forall c :: c in colMap' && c !in colMap ==> colMap'[c] == inBranch
  {
    active', colMap' := active, colMap;
    for k := 0 to |srcs|
      invariant forall c :: c in colMap' <==> c in active'
      invariant forall c :: c in active' <==>
        (c in active || exists k' :: 0 <= k' < k && srcs[k'] == c && SourceLive(nodes, i, parents, k'))
      invariant forall c :: c in colMap ==> colMap'[c] == colMap[c]
      invariant forall c :: c in colMap' && c !in colMap ==> colMap'[c] == inBranch
    {
      if k + 1 < |parents| && Pending(nodes, i, parents[k + 1]) && srcs[k] !in active' {
        active' := active' + [srcs[k]];
        colMap' := colMap'[srcs[k] := inBranch];
      }
    }
  }

  /** The active lanes of node row `i` and their branch membership: the
      current node's lane, every lane a node up to row `i` keeps live, in
      increasing order; each lane's membership is that of the first node
      keeping it live, the current lane's that of the current node. */
  ghost predicate RowColumns(nodes: seq<GraphNode>, i: nat, active: seq<nat>, colMap: map<nat, bool>)
    requires i < |nodes|
  {
    && StrictlyIncreasing(active)
    && (forall c :: c in active <==> RowActive(nodes, i, c))
    && (forall c :: c in colMap <==> c in active)
    && nodes[i].column in colMap && colMap[nodes[i].column] == nodes[i].inCurrentBranch
    && forall c :: c in colMap && c != nodes[i].column ==>
      exists j: nat :: FirstRowContributor(nodes, i, j, c) && colMap[c] == nodes[j].inCurrentBranch
  }

  /** The liveness pass for node row `i`. */
  method RowActiveColumns(nodes: seq<GraphNode>, i: nat) returns (active: seq<nat>, colMap: map<nat, bool>)
    requires i < |nodes|
    ensures RowColumns(nodes, i, active, colMap)
  {
    active, colMap := [], map[];
    for j := 0 to i + 1
      invariant forall c :: c in colMap <==> c in active
      invariant forall c :: c in active <==> exists j' :: 0 <= j' < j && RowContributes(nodes, i, j', c)
      invariant forall c :: c in colMap ==>
        exists j': nat :: j' < j && FirstRowContributor(nodes, i, j', c) && colMap[c] == nodes[j'].inCurrentBranch
    {
      var active', colMap' := AbsorbNode(nodes, i, j, j < i, active, colMap);
      RowStep(nodes, i, j, active, colMap, active', colMap');
      active, colMap := active', colMap';
    }
    var current := nodes[i];
    if current.column !in active {
      active := active + [current.column];
    }
    colMap := colMap[current.column := current.inCurrentBranch];
    active := SortDedup(active);
  }

  lemma RowStep(nodes: seq<GraphNode>, i: nat, j: nat, active: seq<nat>, colMap: map<nat, bool>,
                active': seq<nat>, colMap': map<nat, bool>)
    requires j <= i < |nodes|
    requires forall c :: c in colMap <==> c in active
    requires forall c :: c in active <==> exists j' :: 0 <= j' < j && RowContributes(nodes, i, j', c)
    requires forall c :: c in colMap ==>
      exists j': nat :: j' < j && FirstRowContributor(nodes, i, j', c) && colMap[c] == nodes[j'].inCurrentBranch
    requires forall c :: c in active' <==> c in active || Contributes(nodes, i, j, j < i, c)
    requires forall c :: c in colMap' <==> c in active'
    requires forall c :: c in colMap ==> colMap'[c] == colMap[c]
    requires forall c :: c in colMap' && c !in colMap ==> colMap'[c] == nodes[j].inCurrentBranch
    ensures forall c :: c in active' <==> exists j' :: 0 <= j' < j + 1 && RowContributes(nodes, i, j', c)
    ensures forall c :: c in colMap' ==>
      exists j': nat :: j' < j + 1 && FirstRowContributor(nodes, i, j', c) && colMap'[c] == nodes[j'].inCurrentBranch
  {
    forall c | c in active' ensures exists j' :: 0 <= j' < j + 1 && RowContributes(nodes, i, j', c) {
      if c !in active {
        assert RowContributes(nodes, i, j, c);
      }
    }
    forall c | c in colMap'
      ensures exists j': nat :: j' < j + 1 && FirstRowContributor(nodes, i, j', c) && colMap'[c] == nodes[j'].inCurrentBranch
    {
      if c !in colMap {
        assert RowContributes(nodes, i, j, c);
        assert FirstRowContributor(nodes, i, j, c);
      }
    }
  }

  /** The first node up to row `i` in lane `col` with a parent below row
      `i` (`(0..=i).find(..)`). */
  function LiveInColumn(nodes: seq<GraphNode>, i: nat, col: nat, from: nat): (r: Option<nat>)
    requires i < |nodes| && from <= i + 1
    ensures r.Some? ==> from <= r.value <= i && nodes[r.value].column == col && Live(nodes, i, r.value)
    ensures r.None? ==> forall j :: from <= j <= i ==> !(nodes[j].column == col && Live(nodes, i, j))
    decreases i + 1 - from
  {
    if from > i then None
    else if nodes[from].column == col && Live(nodes, i, from) then Some(from)
    else LiveInColumn(nodes, i, col, from + 1)
  }

  /** The pass over `0..graph_width` that adds any lane a live node occupies
      never adds one: every such lane is already active. */
  lemma CatchAllPassAddsNothing(nodes: seq<GraphNode>, i: nat, active: seq<nat>, col: nat)
    requires i < |nodes|
    requires forall c :: c in active <==> RowActive(nodes, i, c)
    requires col !in active
    ensures LiveInColumn(nodes, i, col, 0).None?
  {
    var r := LiveInColumn(nodes, i, col, 0);
    if r.Some? {
      assert RowContributes(nodes, i, r.value, col);
      assert false;
    }
  }

  /** The lanes passing through the edge row below row `idx`, in
      increasing order, each with the branch membership of the first node
      keeping it live. */
  ghost predicate EdgeColumns(nodes: seq<GraphNode>, idx: nat, active: seq<nat>, colMap: map<nat, bool>)
    requires idx + 1 < |nodes|
  {
    && StrictlyIncreasing(active)
    && (forall c :: c in active <==> EdgeActive(nodes, idx, c))
    && (forall c :: c in colMap <==> c in active)
    && forall c :: c in colMap ==>
      exists j: nat :: FirstEdgeContributor(nodes, idx, j, c) && colMap[c] == nodes[j].inCurrentBranch
  }

  /** The liveness pass for the edge row below row `idx`. */
  method EdgeActiveColumns(nodes: seq<GraphNode>, idx: nat) returns (active: seq<nat>, colMap: map<nat, bool>)
    requires idx + 1 < |nodes|
    ensures EdgeColumns(nodes, idx, active, colMap)
  {
    active, colMap := [], map[];
    for j := 0 to idx + 1
      invariant forall c :: c in colMap <==> c in active
      invariant forall c :: c in active <==> exists j' :: 0 <= j' < j && EdgeContributes(nodes, idx, j', c)
      invariant forall c :: c in colMap ==>
        exists j': nat :: j' < j && FirstEdgeContributor(nodes, idx, j', c) && colMap[c] == nodes[j'].inCurrentBranch
    {
      if Branching(nodes, idx, j) {
        assert forall c :: !EdgeContributes(nodes, idx, j, c);
        continue;
      }
      var active', colMap' := AbsorbNode(nodes, idx, j, true, active, colMap);
      EdgeStep(nodes, idx, j, active, colMap, active', colMap');
      active, colMap := active', colMap';
    }
    active := SortDedup(active);
  }

  lemma EdgeStep(nodes: seq<GraphNode>, idx: nat, j: nat, active: seq<nat>, colMap: map<nat, bool>,
                 active': seq<nat>, colMap': map<nat, bool>)
    requires j <= idx && idx + 1 < |nodes| && !Branching(nodes, idx, j)
    requires forall c :: c in colMap <==> c in active
    requires forall c :: c in active <==> exists j' :: 0 <= j' < j && EdgeContributes(nodes, idx, j', c)
    requires forall c :: c in colMap ==>
      exists j': nat :: j' < j && FirstEdgeContributor(nodes, idx, j', c) && colMap[c] == nodes[j'].inCurrentBranch
    requires forall c :: c in active' <==> c in active || Contributes(nodes, idx, j, true, c)
    requires forall c :: c in colMap' <==> c in active'
    requires forall c :: c in colMap ==> colMap'[c] == colMap[c]
    requires forall c :: c in colMap' && c !in colMap ==> colMap'[c] == nodes[j].inCurrentBranch
    ensures forall c :: c in active' <==> exists j' :: 0 <= j' < j + 1 && EdgeContributes(nodes, idx, j', c)
    ensures forall c :: c in colMap' ==>
      exists j': nat :: j' < j + 1 && FirstEdgeContributor(nodes, idx, j', c) && colMap'[c] == nodes[j'].inCurrentBranch
  {
    forall c | c in active' ensures exists j' :: 0 <= j' < j + 1 && EdgeContributes(nodes, idx, j', c) {
      if c !in active {
        assert EdgeContributes(nodes, idx, j, c);
      }
    }
    forall c | c in colMap'
      ensures exists j': nat :: j' < j + 1 && FirstEdgeContributor(nodes, idx, j', c) && colMap'[c] == nodes[j'].inCurrentBranch
    {
      if c !in colMap {
        assert EdgeContributes(nodes, idx, j, c);
        assert FirstEdgeContributor(nodes, idx, j, c);
      }
    }
  }

  // ---------------------------------------------------------------------
  // The commit summary

  /** `message.lines().next().unwrap_or("")` */
  function FirstLine(message: string): (r: string)
    ensures '\n' !in r && |r| <= |message| && r == message[..|r|]
    ensures '\n' !in message ==> r == message
  {
    var ls := Lines(message);
    if ls == [] then "" else ls[0]
  }

  /** The summary as the code computes it: a line of more than 50 BYTES is
      cut at its 48th CHARACTER, if it has one, and always gets "...". */
  function TruncateAsWritten(s: string): (r: string)
    ensures ByteLen(s) <= 50 ==> r == s
    ensures ByteLen(s) > 50 ==> r == s[..if |s| > 47 then 47 else |s|] + "..."
  {
    if ByteLen(s) > 50 then
      var pos := if |s| > 47 then 47 else |s|;
      s[..pos] + "..."
    else s
  }

  /** Seventeen three-byte characters are 51 bytes but only 17 characters:
      nothing is cut and the ellipsis makes the summary longer. */
  lemma TruncateAsWrittenLengthens()
    ensures var s := seq(17, _ => '€');
      TruncateAsWritten(s) == s + "..." && |TruncateAsWritten(s)| > |s|
  {
    var s := seq(17, _ => '€');
    ByteLenConst(17, '€');
    assert Utf8Width('€') == 3;
  }

  lemma {:induction false} ByteLenConst(n: nat, c: char)
    ensures ByteLen(seq(n, _ => c)) == n * Utf8Width(c)
  {
    if n > 0 {
      var s := seq(n, _ => c);
      assert s[1..] == seq(n - 1, _ => c);
      ByteLenConst(n - 1, c);
    }
  }

  /** The summary as intended: a line of more than 50 characters becomes
      its first 47 characters and "...", so it never exceeds 50 characters
      and the ellipsis always stands for removed text. */
  function Truncate(s: string): (r: string)
    ensures |s| <= 50 ==> r == s
    ensures |s| > 50 ==> r == s[..47] + "..."
    ensures |r| <= 50 || r == s
    ensures |r| <= |s|
  {
    if |s| > 50 then s[..47] + "..." else s
  }

  /** Both agree on ASCII text. */
  lemma TruncateAsciiAgrees(s: string)
    requires forall k :: 0 <= k < |s| ==> s[k] as int < 0x80
    ensures TruncateAsWritten(s) == Truncate(s)
  {
    AsciiByteLen(s);
  }

  lemma {:induction false} AsciiByteLen(s: string)
    requires forall k :: 0 <= k < |s| ==> s[k] as int < 0x80
    ensures ByteLen(s) == |s|
  {
    if s != [] {
      assert forall k :: 0 <= k < |s[1..]| ==> s[1..][k] == s[k + 1];
      AsciiByteLen(s[1..]);
    }
  }

  /** The style of the summary: the selected commit, then commits marked
      for a branch, then commits outside the current branch. */
  function MessageStyle(isSelected: bool, isMarked: bool, notInCurrentBranch: bool): (s: Style)
    ensures isSelected ==> s == BoldFg(Cyan)
    ensures !isSelected && isMarked ==> s == BoldFg(Green)
    ensures !isSelected && !isMarked ==> (s == Fg(DarkGray) <==> notInCurrentBranch)
    ensures !isSelected && !isMarked && !notInCurrentBranch ==> s == Default
  {
    if isSelected then BoldFg(Cyan)
    else if isMarked then BoldFg(Green)
    else if notInCurrentBranch then Fg(DarkGray)
    else Default
  }

  // ---------------------------------------------------------------------
  // The graph pane

  /** Every lane a node or its merge sources name lies below `width`, as the
      lane assignment guarantees. */
  ghost predicate LanesBelow(nodes: seq<GraphNode>, width: nat) {
    forall k :: 0 <= k < |nodes| ==>
      nodes[k].column < width && forall s: nat :: MergeFrom(s) in nodes[k].connections ==> s < width
  }

  /** The node line of commit `idx` as the pane draws it: the node row the
      renderer draws over the row's active lanes `active` and their
      membership `cols` (no head marker, since the pane's renderer has no head
      set), then a blank and the short id with the summary in the message
      style. */
  ghost function DrawnNode(nodes: seq<GraphNode>, width: nat, ancestry: set<string>, notInBranch: set<string>,
                           selected: Option<nat>, marked: seq<string>, active: seq<nat>, cols: map<nat, bool>,
                           idx: nat): seq<Span>
    requires idx < |nodes|
  {
    var n := nodes[idx];
    var notIn := n.commit.id in notInBranch;
    Row(NodeRowCells(NodeRow(n, active, cols, n.commit.id in ancestry, Synced, notIn, false)), width)
      + [Span(" ", Default),
         Span(n.commit.shortId + " " + Truncate(FirstLine(n.commit.message)),
              MessageStyle(selected == Some(idx), n.commit.id in marked, notIn))]
  }

  /** The edge line below commit `idx` as the pane draws it: the edge row
      the renderer draws over the lanes `active` passing through and their
      membership `cols`. */
  ghost function DrawnEdge(nodes: seq<GraphNode>, width: nat, ancestry: set<string>, notInBranch: set<string>,
                           active: seq<nat>, cols: map<nat, bool>, idx: nat): seq<Span>
    requires idx + 1 < |nodes| && EdgeRowFits(nodes[idx], nodes[idx + 1], width, active)
  {
    var n, next := nodes[idx], nodes[idx + 1];
    var onPath := n.commit.id in ancestry;
    Row(EdgeRowCells(EdgeCellState(n, next, width, active, nodes),
                     EdgeStyles(CommitStyle(Synced, onPath, n.commit.id in notInBranch), Synced, onPath, cols,
                                next.inCurrentBranch)), width)
  }

  /** Line `2 * idx` is node `idx`'s row, drawn over the lanes `active` and
      membership `cols` that the row's liveness pass gives: `DrawnNode`, so
      its commit marker sits in its lane (the head marker never shows), and
      after the `2 * width` graph characters come a blank, the short id, a
      blank and the summary. */
  ghost predicate NodeLine(nodes: seq<GraphNode>, width: nat, ancestry: set<string>, notInBranch: set<string>,
                           selected: Option<nat>, marked: seq<string>, active: seq<nat>, cols: map<nat, bool>,
                           line: seq<Span>, idx: nat)
    requires idx < |nodes| && nodes[idx].column < width
  {
    var n := nodes[idx];
    var t := Text(line);
    && RowColumns(nodes, idx, active, cols)
    && line == DrawnNode(nodes, width, ancestry, notInBranch, selected, marked, active, cols, idx)
    && |t| >= 2 * width
    && t[2 * n.column] == SelectGlyph(GlyphType.Commit, n.commit.id in ancestry, false)
    && t[2 * width..] == " " + n.commit.shortId + " " + Truncate(FirstLine(n.commit.message))
  }

  /** Line `2 * idx + 1` is the edge row below node `idx`, drawn over the
      lanes `active` passing through and their membership `cols` that the
      edge's liveness pass gives: `DrawnEdge`, two characters per lane; every
      lane passing through is drawn, and so is the current lane when the next
      node is its parent. */
  ghost predicate EdgeLine(nodes: seq<GraphNode>, width: nat, ancestry: set<string>, notInBranch: set<string>,
                           active: seq<nat>, cols: map<nat, bool>, line: seq<Span>, idx: nat)
    requires idx + 1 < |nodes| && nodes[idx].column < width
  {
    var t := Text(line);
    && EdgeColumns(nodes, idx, active, cols)
    && EdgeRowFits(nodes[idx], nodes[idx + 1], width, active)
    && line == DrawnEdge(nodes, width, ancestry, notInBranch, active, cols, idx)
    && |t| == 2 * width
    && (forall c: nat :: EdgeActive(nodes, idx, c) ==> c < width && t[2 * c..2 * c + 2] != "  ")
    && (nodes[idx].commit.id in nodes[idx + 1].commit.parents ==>
          t[2 * nodes[idx].column..2 * nodes[idx].column + 2] != "  ")
  }

  /** `draw_commit_graph`: the liveness of every row, then a node row per
      commit and an edge row between consecutive commits, `2n - 1` lines for
      `n` commits and none for an empty graph. Line `2 * idx` is `NodeLine`
      and line `2 * idx + 1` is `EdgeLine`, over the lanes and membership
      that the liveness passes give (the ghost results). */
  method GraphLines(nodes: seq<GraphNode>, width: nat, ancestry: set<string>, notInBranch: set<string>,
                    selected: Option<nat>, marked: seq<string>)
    returns (lines: seq<seq<Span>>, ghost rowActive: seq<seq<nat>>, ghost rowCols: seq<map<nat, bool>>,
             ghost edgeActive: seq<seq<nat>>, ghost edgeCols: seq<map<nat, bool>>)
    requires LanesBelow(nodes, width)
    ensures nodes == [] ==> lines == []
    ensures nodes != [] ==> |lines| == 2 * |nodes| - 1
    ensures |rowActive| == |rowCols| == |nodes|
    ensures |edgeActive| == |edgeCols| == if nodes == [] then 0 else |nodes| - 1
    ensures forall idx :: 0 <= idx < |nodes| ==>
      NodeLine(nodes, width, ancestry, notInBranch, selected, marked, rowActive[idx], rowCols[idx], lines[2 * idx], idx)
    ensures forall idx :: 0 <= idx < |nodes| - 1 ==>
      EdgeLine(nodes, width, ancestry, notInBranch, edgeActive[idx], edgeCols[idx], lines[2 * idx + 1], idx)
  {
    if nodes == [] {
      return [], [], [], [], [];
    }
    var activeAtRow, colsAtRow := RowLiveness(nodes);
    lines, edgeActive, edgeCols := RenderLines(nodes, width, ancestry, notInBranch, selected, marked,
                                               activeAtRow, colsAtRow);
    rowActive, rowCols := activeAtRow, colsAtRow;
  }

  /** The liveness pass of every node row (`active_at_row` and
      `col_ancestry_at_row`). */
  method RowLiveness(nodes: seq<GraphNode>) returns (rowActive: seq<seq<nat>>, rowCols: seq<map<nat, bool>>)
    ensures |rowActive| == |rowCols| == |nodes|
    ensures forall k :: 0 <= k < |nodes| ==> RowColumns(nodes, k, rowActive[k], rowCols[k])
  {
    ghost var rowOk := (k: nat, a: seq<nat>, m: map<nat, bool>) => k < |nodes| && RowColumns(nodes, k, a, m);
    rowActive, rowCols := [], [];
    for i := 0 to |nodes|
      invariant |rowActive| == i && EveryRow(rowOk, rowActive, rowCols)
    {
      var active, cols := RowActiveColumns(nodes, i);
      EveryRowStep(rowOk, rowActive, rowCols, active, cols);
      rowActive := rowActive + [active];
      rowCols := rowCols + [cols];
    }
    forall k | 0 <= k < |nodes| ensures RowColumns(nodes, k, rowActive[k], rowCols[k]) {
      assert rowOk(k, rowActive[k], rowCols[k]);
    }
  }

  /** Row `k`'s lanes `active[k]` and membership `cols[k]` satisfy `rowOk`,
      for every row listed. */
  ghost predicate EveryRow(rowOk: (nat, seq<nat>, map<nat, bool>) -> bool,
                           active: seq<seq<nat>>, cols: seq<map<nat, bool>>)
  {
    |active| == |cols| && forall k :: 0 <= k < |active| ==> rowOk(k, active[k], cols[k])
  }

  lemma EveryRowStep(rowOk: (nat, seq<nat>, map<nat, bool>) -> bool,
                     active: seq<seq<nat>>, cols: seq<map<nat, bool>>, a: seq<nat>, m: map<nat, bool>)
    requires EveryRow(rowOk, active, cols) && rowOk(|active|, a, m)
    ensures EveryRow(rowOk, active + [a], cols + [m])
  {
    forall k | 0 <= k <= |active| ensures rowOk(k, (active + [a])[k], (cols + [m])[k]) {
      if k < |active| {
        assert (active + [a])[k] == active[k] && (cols + [m])[k] == cols[k];
      }
    }
  }

  /** The node and edge lines of a non-empty graph, given the liveness of
      every node row. */
  method RenderLines(nodes: seq<GraphNode>, width: nat, ancestry: set<string>, notInBranch: set<string>,
                     selected: Option<nat>, marked: seq<string>, rowActive: seq<seq<nat>>,
                     rowCols: seq<map<nat, bool>>)
    returns (lines: seq<seq<Span>>, ghost edgeActive: seq<seq<nat>>, ghost edgeCols: seq<map<nat, bool>>)
    requires nodes != [] && LanesBelow(nodes, width)
    requires |rowActive| == |rowCols| == |nodes|
    requires forall k :: 0 <= k < |nodes| ==> RowColumns(nodes, k, rowActive[k], rowCols[k])
    ensures |lines| == 2 * |nodes| - 1
    ensures |edgeActive| == |edgeCols| == |nodes| - 1
    ensures forall idx :: 0 <= idx < |nodes| ==>
      NodeLine(nodes, width, ancestry, notInBranch, selected, marked, rowActive[idx], rowCols[idx], lines[2 * idx], idx)
    ensures forall idx :: 0 <= idx < |nodes| - 1 ==>
      EdgeLine(nodes, width, ancestry, notInBranch, edgeActive[idx], edgeCols[idx], lines[2 * idx + 1], idx)
  {
    ghost var nodeOk := (k: nat, l: seq<Span>) =>
      k < |nodes| && nodes[k].column < width
      && NodeLine(nodes, width, ancestry, notInBranch, selected, marked, rowActive[k], rowCols[k], l, k);
    ghost var edgeOk := (k: nat, a: seq<nat>, m: map<nat, bool>, l: seq<Span>) =>
      k + 1 < |nodes| && nodes[k].column < width && EdgeLine(nodes, width, ancestry, notInBranch, a, m, l, k);
    ghost var ea: seq<seq<nat>>, ec: seq<map<nat, bool>> := [], [];
    var renderer := new Renderer();
    lines := [];
    for idx := 0 to |nodes|
      invariant |ea| == idx
      invariant LinesOk(nodeOk, edgeOk, |nodes|, ea, ec, lines)
      invariant renderer.headCommitId == None
    {
      var line, edge, a, m := GraphRow(renderer, nodes, idx, width, ancestry, notInBranch, selected, marked,
                                       rowActive[idx], rowCols[idx]);
      var lines' := if idx < |nodes| - 1 then lines + [line, edge] else lines + [line];
      LinesOkStep(nodeOk, edgeOk, |nodes|, ea, ec, lines, line, edge, a, m, lines');
      lines, ea, ec := lines', ea + [a], ec + [m];
    }
    edgeActive, edgeCols := ea[..|nodes| - 1], ec[..|nodes| - 1];
    forall idx | 0 <= idx < |nodes| - 1
      ensures EdgeLine(nodes, width, ancestry, notInBranch, edgeActive[idx], edgeCols[idx], lines[2 * idx + 1], idx)
    {
      assert edgeOk(idx, ea[idx], ec[idx], lines[2 * idx + 1]);
    }
  }

  /** The lines of the first `|edgeActive|` of `n` commits: a node line per
      commit satisfying `nodeOk`, each followed, when a next commit exists, by
      an edge line satisfying `edgeOk` over that edge row's lanes. */
  ghost predicate LinesOk(nodeOk: (nat, seq<Span>) -> bool,
                          edgeOk: (nat, seq<nat>, map<nat, bool>, seq<Span>) -> bool, n: nat,
                          edgeActive: seq<seq<nat>>, edgeCols: seq<map<nat, bool>>, lines: seq<seq<Span>>)
  {
    var upto := |edgeActive|;
    && upto <= n && |edgeCols| == upto
    && |lines| == (if upto == n && upto > 0 then 2 * upto - 1 else 2 * upto)
    && (forall k :: 0 <= k < upto ==> nodeOk(k, lines[2 * k]))
    && (forall k :: 0 <= k < upto && k + 1 < n ==> edgeOk(k, edgeActive[k], edgeCols[k], lines[2 * k + 1]))
  }

  /** Adding commit `|edgeActive|`'s node line, and its edge line when a
      next commit exists, extends the line invariant. */
  lemma LinesOkStep(nodeOk: (nat, seq<Span>) -> bool,
                    edgeOk: (nat, seq<nat>, map<nat, bool>, seq<Span>) -> bool, n: nat,
                    edgeActive: seq<seq<nat>>, edgeCols: seq<map<nat, bool>>, lines: seq<seq<Span>>,
                    line: seq<Span>, edge: seq<Span>, active: seq<nat>, cols: map<nat, bool>,
                    lines': seq<seq<Span>>)
    requires |edgeActive| < n && LinesOk(nodeOk, edgeOk, n, edgeActive, edgeCols, lines)
    requires nodeOk(|edgeActive|, line)
    requires |edgeActive| + 1 < n ==> edgeOk(|edgeActive|, active, cols, edge)
    requires lines' == if |edgeActive| < n - 1 then lines + [line, edge] else lines + [line]
    ensures LinesOk(nodeOk, edgeOk, n, edgeActive + [active], edgeCols + [cols], lines')
  {
    var idx := |edgeActive|;
    forall k | 0 <= k <= idx ensures nodeOk(k, lines'[2 * k]) {
      if k < idx {
        assert lines'[2 * k] == lines[2 * k];
      }
    }
    forall k | 0 <= k <= idx && k + 1 < n
      ensures edgeOk(k, (edgeActive + [active])[k], (edgeCols + [cols])[k], lines'[2 * k + 1])
    {
      if k < idx {
        assert lines'[2 * k + 1] == lines[2 * k + 1];
      }
    }
  }

  /** The node row of commit `idx` with its summary, and the edge row below
      it when a next commit exists, with the lanes passing through that edge
      row and their membership (ghost). */
  method GraphRow(renderer: Renderer, nodes: seq<GraphNode>, idx: nat, width: nat, ancestry: set<string>,
                  notInBranch: set<string>, selected: Option<nat>, marked: seq<string>,
                  active: seq<nat>, cols: map<nat, bool>)
    returns (line: seq<Span>, edge: seq<Span>, ghost edgeActive: seq<nat>, ghost edgeCols: map<nat, bool>)
    requires idx < |nodes| && LanesBelow(nodes, width) && renderer.headCommitId == None
    requires RowColumns(nodes, idx, active, cols)
    ensures NodeLine(nodes, width, ancestry, notInBranch, selected, marked, active, cols, line, idx)
    ensures idx + 1 < |nodes| ==> EdgeLine(nodes, width, ancestry, notInBranch, edgeActive, edgeCols, edge, idx)
  {
    var node := nodes[idx];
    var onPath := node.commit.id in ancestry;
    var notIn := node.commit.id in notInBranch;
    var row := renderer.RenderNodeRow(node, width, active, cols, onPath, Synced, notIn);
    var style := MessageStyle(selected == Some(idx), node.commit.id in marked, notIn);
    line := NodeRowLine(row, node, width, ancestry, active, cols, notIn, style);
    edge, edgeActive, edgeCols := [], [], map[];
    if idx + 1 < |nodes| {
      var ea, ec;
      edge, ea, ec := EdgeRowLine(renderer, nodes, idx, width, ancestry, notInBranch);
      edgeActive, edgeCols := ea, ec;
    }
  }

  /** The edge row below commit `idx`, over the lanes its liveness pass
      finds. */
  method EdgeRowLine(renderer: Renderer, nodes: seq<GraphNode>, idx: nat, width: nat, ancestry: set<string>,
                     notInBranch: set<string>)
    returns (edge: seq<Span>, active: seq<nat>, cols: map<nat, bool>)
    requires idx + 1 < |nodes| && LanesBelow(nodes, width) && renderer.headCommitId == None
    ensures EdgeLine(nodes, width, ancestry, notInBranch, active, cols, edge, idx)
  {
    var node, next := nodes[idx], nodes[idx + 1];
    active, cols := EdgeActiveColumns(nodes, idx);
    forall c | c in active ensures c < width {
      EdgeActiveBelow(nodes, width, idx, c);
    }
    edge := renderer.RenderEdgeRow(node, next, width, active, cols, node.commit.id in ancestry, Synced, nodes,
                                   node.commit.id in notInBranch);
  }

  /** Every lane passing through an edge row is a node's lane or one of its
      merge sources. */
  lemma EdgeActiveBelow(nodes: seq<GraphNode>, width: nat, idx: nat, c: nat)
    requires LanesBelow(nodes, width) && idx + 1 < |nodes| && EdgeActive(nodes, idx, c)
    ensures c < width
  {
    var j :| 0 <= j <= idx && EdgeContributes(nodes, idx, j, c);
    var n := nodes[j];
    if n.column != c || !Live(nodes, idx, j) {
      var srcs := MergeSources(n.connections);
      var k :| 0 <= k < |srcs| && srcs[k] == c && SourceLive(nodes, idx, n.commit.parents, k);
      assert MergeFrom(c) in n.connections;
    }
  }

  /** A node row followed by the summary span. */
  method NodeRowLine(row: seq<Span>, node: GraphNode, width: nat, ancestry: set<string>, active: seq<nat>,
                     cols: map<nat, bool>, notIn: bool, style: Style)
    returns (line: seq<Span>)
    requires node.column < width
    requires row == Row(NodeRowCells(NodeRow(node, active, cols, node.commit.id in ancestry, Synced, notIn, false)), width)
    ensures line == row + [Span(" ", Default), Span(node.commit.shortId + " " + Truncate(FirstLine(node.commit.message)), style)]
    ensures var t := Text(line);
      && |t| >= 2 * width
      && t[..2 * width] == Text(row)
      && t[2 * node.column] == SelectGlyph(GlyphType.Commit, node.commit.id in ancestry, false)
      && t[2 * width..] == " " + node.commit.shortId + " " + Truncate(FirstLine(node.commit.message))
  {
    var r := NodeRow(node, active, cols, node.commit.id in ancestry, Synced, notIn, false);
    var summary := Truncate(FirstLine(node.commit.message));
    var tail := [Span(" ", Default), Span(node.commit.shortId + " " + summary, style)];
    line := row + tail;
    NodeRowText(r, width, node.column);
    NodeCellText(r, node.column);
    var head, rest := Text(row), Text(tail);
    TextAppend(row, tail);
    TextPair(Span(" ", Default), Span(node.commit.shortId + " " + summary, style));
    assert rest == " " + node.commit.shortId + " " + summary;
    assert Text(line) == head + rest && |head| == 2 * width;
    assert Text(line)[2 * width..] == rest;
    assert Text(line)[..2 * width] == head;
    assert Text(line)[2 * node.column] == head[2 * node.column..2 * node.column + 2][0];
  }

  // ---------------------------------------------------------------------
  // Word wrap

  /** `rposition(is_whitespace)` */
  function LastWhitespace(s: string): (r: Option<nat>)
    ensures r.Some? ==> (r.value < |s| && IsWhitespace(s[r.value])
      && forall q :: r.value < q < |s| ==> !IsWhitespace(s[q]))
    ensures r.None? ==> forall q :: 0 <= q < |s| ==> !IsWhitespace(s[q])
  {
    if s == [] then None
    else if IsWhitespace(s[|s| - 1]) then Some(|s| - 1)
    else LastWhitespace(s[..|s| - 1])
  }

  /** The end of the chunk starting at `start`, as the code computes it: a
      window of `width` characters, shortened to just after its last
      whitespace unless it reaches the end of the line. */
  function WrapEndAsWritten(chars: string, start: nat, width: nat): (e: nat)
    requires start < |chars|
    ensures start <= e <= |chars| && e <= start + width
  {
    var end := if start + width < |chars| then start + width else |chars|;
    if end < |chars| then
      match LastWhitespace(chars[start..end])
      case Some(pos) => start + pos + 1
      case None => end
    else end
  }

  /** With a width of 0 the chunk is empty and the wrap loop never advances:
      a details pane two columns wide or less hangs the program. */
  lemma WrapStallsAtZeroWidth(chars: string, start: nat)
    requires start < |chars|
    ensures WrapEndAsWritten(chars, start, 0) == start
  {
  }

  /** The intended wrap width: at least one character per chunk. */
  function WrapWidth(width: nat): (w: nat)
    ensures w >= 1 && (width >= 1 ==> w == width)
  {
    if width == 0 then 1 else width
  }

  function WrapEnd(chars: string, start: nat, width: nat): (e: nat)
    requires start < |chars|
    ensures start < e <= |chars| && e <= start + WrapWidth(width)
    ensures width >= 1 ==> e == WrapEndAsWritten(chars, start, width)
  {
    WrapEndAsWritten(chars, start, WrapWidth(width))
  }

  /** The chunk boundary: the whole window at the end of the line; else just
      after the last whitespace of the window; else the whole window. */
  lemma WrapEndBreaks(chars: string, start: nat, width: nat)
    requires start < |chars|
    ensures var w := WrapWidth(width);
      var e := WrapEnd(chars, start, width);
      && (start + w >= |chars| ==> e == |chars|)
      && (start + w < |chars| && e < start + w ==>
            (IsWhitespace(chars[e - 1]) && forall q :: e <= q < start + w ==> !IsWhitespace(chars[q])))
      && (start + w < |chars| && e == start + w ==>
            (IsWhitespace(chars[e - 1]) || forall q :: start <= q < start + w ==> !IsWhitespace(chars[q])))
  {
    var w := WrapWidth(width);
    if start + w < |chars| {
      var window := chars[start..start + w];
      assert forall q :: start <= q < start + w ==> chars[q] == window[q - start];
    }
  }

  /** The untrimmed chunks of a line from `start` on. */
  function WrapPieces(chars: string, start: nat, width: nat): seq<string>
    requires start <= |chars|
    decreases |chars| - start
  {
    if start == |chars| then []
    else
      var e := WrapEnd(chars, start, width);
      [chars[start..e]] + WrapPieces(chars, e, width)
  }

  function Concat(ps: seq<string>): string {
    if ps == [] then "" else ps[0] + Concat(ps[1..])
  }

  /** The chunks cover the line exactly, in order, each of them non-empty
      and at most the wrap width long. */
  lemma {:induction false} WrapPiecesCover(chars: string, start: nat, width: nat)
    requires start <= |chars|
    ensures Concat(WrapPieces(chars, start, width)) == chars[start..]
    ensures forall p :: p in WrapPieces(chars, start, width) ==> 1 <= |p| <= WrapWidth(width)
    decreases |chars| - start
  {
    if start < |chars| {
      var e := WrapEnd(chars, start, width);
      var ps := WrapPieces(chars, start, width);
      WrapPiecesCover(chars, e, width);
      assert ps[1..] == WrapPieces(chars, e, width);
      assert chars[start..] == chars[start..e] + chars[e..];
    }
  }

  function TrimAll(ps: seq<string>): (r: seq<string>)
    ensures |r| == |ps| && forall k :: 0 <= k < |ps| ==> r[k] == TrimEnd(ps[k])
  {
    if ps == [] then [] else [TrimEnd(ps[0])] + TrimAll(ps[1..])
  }

  /** A wrapped chunk: at most `w` long and not ending in whitespace. */
  predicate ChunkOk(chunk: string, w: nat) {
    |chunk| <= w && (chunk == [] || !IsWhitespace(chunk[|chunk| - 1]))
  }

  /** Every chunk is at most the wrap width long and does not end in
      whitespace. */
  lemma WrapChunksBounded(line: string, width: nat)
    ensures var chunks := TrimAll(WrapPieces(line, 0, width));
      forall k :: 0 <= k < |chunks| ==> ChunkOk(chunks[k], WrapWidth(width))
  {
    var pieces := WrapPieces(line, 0, width);
    var chunks := TrimAll(pieces);
    WrapPiecesCover(line, 0, width);
    forall k | 0 <= k < |chunks| ensures ChunkOk(chunks[k], WrapWidth(width)) {
      TrimmedPiece(pieces, k, WrapWidth(width));
    }
  }

  lemma TrimmedPiece(pieces: seq<string>, k: nat, w: nat)
    requires k < |pieces| && forall p :: p in pieces ==> 1 <= |p| <= w
    ensures ChunkOk(TrimEnd(pieces[k]), w)
  {
    assert pieces[k] in pieces;
  }

  /** The wrap loop of the details pane over one line, with the width
      treated as at least one. */
  method WrapLine(line: string, width: nat) returns (chunks: seq<string>)
    ensures chunks == TrimAll(WrapPieces(line, 0, width))
    ensures forall k :: 0 <= k < |chunks| ==> ChunkOk(chunks[k], WrapWidth(width))
  {
    chunks := [];
    var start := 0;
    while start < |line|
      invariant start <= |line|
      invariant chunks + TrimAll(WrapPieces(line, start, width)) == TrimAll(WrapPieces(line, 0, width))
      decreases |line| - start
    {
      var actualEnd := WrapEnd(line, start, width);
      var chunk := line[start..actualEnd];
      ghost var rest := WrapPieces(line, actualEnd, width);
      assert WrapPieces(line, start, width) == [chunk] + rest;
      assert TrimAll([chunk] + rest) == [TrimEnd(chunk)] + TrimAll(rest);
      ghost var before := chunks;
      chunks := chunks + [TrimEnd(chunk)];
      assert chunks + TrimAll(rest) == before + ([TrimEnd(chunk)] + TrimAll(rest));
      start := actualEnd;
    }
    WrapChunksBounded(line, width);
  }

  /** The details pane's message: each line wrapped, an empty line kept as
      an empty line; the text width is the pane width less two, saturating. */
  method WrapMessage(message: string, paneWidth: nat) returns (out: seq<string>)
    ensures out == Wrapped(Lines(message), if paneWidth >= 2 then paneWidth - 2 else 0)
    ensures forall k :: 0 <= k < |out| ==> |out[k]| <= WrapWidth(if paneWidth >= 2 then paneWidth - 2 else 0)
    ensures |out| >= |Lines(message)|
  {
    var width := if paneWidth >= 2 then paneWidth - 2 else 0;
    var ls := Lines(message);
    out := [];
    for k := 0 to |ls|
      invariant out == Wrapped(ls[..k], width)
    {
      PrefixStep(ls, k);
      if ls[k] == [] {
        out := out + [""];
      } else {
        var chunks := WrapLine(ls[k], width);
        out := out + chunks;
      }
    }
    assert ls[..|ls|] == ls;
    WrappedBounded(ls, width);
  }

  /** The chunks of one line of the message: an empty line stays one empty
      line. */
  function LineChunks(line: string, width: nat): seq<string> {
    if line == [] then [""] else TrimAll(WrapPieces(line, 0, width))
  }

  /** The wrapped message: the chunks of each line, line by line. */
  function Wrapped(ls: seq<string>, width: nat): seq<string>
    decreases |ls|
  {
    if ls == [] then [] else Wrapped(ls[..|ls| - 1], width) + LineChunks(ls[|ls| - 1], width)
  }

  /** Every wrapped line fits the wrap width, and each message line gives
      at least one. */
  lemma {:induction false} WrappedBounded(ls: seq<string>, width: nat)
    ensures forall m :: 0 <= m < |Wrapped(ls, width)| ==> |Wrapped(ls, width)[m]| <= WrapWidth(width)
    ensures |Wrapped(ls, width)| >= |ls|
    decreases |ls|
  {
    if ls != [] {
      var init, line := ls[..|ls| - 1], ls[|ls| - 1];
      WrappedBounded(init, width);
      var a, b := Wrapped(init, width), LineChunks(line, width);
      LineChunksBounded(line, width, b);
      assert Wrapped(ls, width) == a + b;
      forall m | 0 <= m < |a + b| ensures |(a + b)[m]| <= WrapWidth(width) {
        if m >= |a| {
          assert (a + b)[m] == b[m - |a|];
        }
      }
    }
  }

  lemma LineChunksBounded(line: string, width: nat, b: seq<string>)
    requires b == LineChunks(line, width)
    ensures |b| >= 1 && forall m :: 0 <= m < |b| ==> |b[m]| <= WrapWidth(width)
  {
    if line != [] {
      WrapNonEmpty(line, width);
      WrapChunksBounded(line, width);
      forall m | 0 <= m < |b| ensures |b[m]| <= WrapWidth(width) {
        assert ChunkOk(b[m], WrapWidth(width));
      }
    }
  }

  /** A non-empty line yields at least one chunk. */
  lemma WrapNonEmpty(line: string, width: nat)
    requires line != []
    ensures |TrimAll(WrapPieces(line, 0, width))| >= 1
  {
  }
}
