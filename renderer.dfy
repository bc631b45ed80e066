/** Row rendering of the commit graph: the glyph table, the commit style,
    the node row (two characters per column, the commit marker and the merge
    indicator), and the edge row, drawn as a per-column cell state that the
    bends and the merges of other lanes rewrite before it is turned into
    separately styled spans. Styles are an abstract colour; glyphs are
    characters. */
module Renderer {
  import opened Util
  import opened Graph

  datatype GlyphType =
    | Commit | CommitHead | Vertical | Horizontal
    | TopRight | BottomRight | TopLeft | BottomLeft
    | TeeRight | TeeLeft | Cross

  datatype Color = White | Green | Red | Yellow | DarkGray | Cyan

  /** `Style::default()`, a foreground colour, or a bold foreground colour. */
  datatype Style = Default | Fg(color: Color) | BoldFg(color: Color)

  datatype Span = Span(text: string, style: Style)

  /** The glyph for a shape: the commit-head marker and the crossing ignore
      both flags; every other shape has a bold and a light form. */
  function SelectGlyph(g: GlyphType, bold: bool, isHead: bool): (c: char)
    ensures g == CommitHead ==> c == '◉'
    ensures g == Cross ==> c == '│'
    ensures g == GlyphType.Vertical && !bold ==> c == '│'
    ensures c != ' '
  {
    match g
    case CommitHead => '◉'
    case Commit => if bold then '●' else '○'
    case Vertical => if bold then '┃' else '│'
    case Horizontal => if bold then '━' else '─'
    case TopRight => if bold then '┓' else '╮'
    case BottomRight => if bold then '┛' else '╯'
    case TopLeft => if bold then '┏' else '╭'
    case BottomLeft => if bold then '┗' else '╰'
    case TeeRight => if bold then '┣' else '├'
    case TeeLeft => if bold then '┫' else '┤'
    case Cross => '│'
  }

  /** The glyph table ignores the head flag, and, apart from the head marker
      and the crossing, gives different bold and light characters. */
  lemma SelectGlyphFlags(g: GlyphType, bold: bool, isHead: bool)
    ensures SelectGlyph(g, bold, isHead) == SelectGlyph(g, bold, !isHead)
    ensures g != CommitHead && g != Cross ==> SelectGlyph(g, true, isHead) != SelectGlyph(g, false, isHead)
  {
  }

  function SyncColor(sync: SyncStatus): Color {
    match sync
    case Synced => White
    case LocalOnly => Green
    case RemoteOnly => Red
    case Diverged => Yellow
  }

  /** `commit_style`: grey for commits outside the current branch, whatever
      their sync status; otherwise the colour of the sync status alone. */
  function CommitStyle(sync: SyncStatus, onAncestryPath: bool, notInCurrentBranch: bool): (s: Style)
    ensures s.Fg?
    ensures notInCurrentBranch <==> s.color == DarkGray
  {
    if notInCurrentBranch then Fg(DarkGray) else Fg(SyncColor(sync))
  }

  /** Within the current branch the style tells the sync statuses apart and
      does not depend on the ancestry path. */
  lemma CommitStyleBySync(a: SyncStatus, b: SyncStatus, onPath: bool, onPath': bool)
    ensures CommitStyle(a, onPath, false) == CommitStyle(b, onPath', false) <==> a == b
  {
  }

  /** The text of a line: its spans' texts in order. */
  function Text(spans: seq<Span>): string {
    if spans == [] then "" else Text(spans[..|spans| - 1]) + spans[|spans| - 1].text
  }

  lemma {:induction false} TextAppend(a: seq<Span>, b: seq<Span>)
    ensures Text(a + b) == Text(a) + Text(b)
    decreases |b|
  {
    if b != [] {
      var ab := a + b;
      assert ab[..|ab| - 1] == a + b[..|b| - 1];
      assert ab[|ab| - 1] == b[|b| - 1];
      TextAppend(a, b[..|b| - 1]);
      calc {
        Text(ab);
        Text(ab[..|ab| - 1]) + ab[|ab| - 1].text;
        Text(a) + Text(b[..|b| - 1]) + b[|b| - 1].text;
        Text(a) + Text(b);
      }
    } else {
      assert a + b == a;
    }
  }

  lemma TextPair(a: Span, b: Span)
    ensures Text([a]) == a.text
    ensures Text([a, b]) == a.text + b.text
  {
    assert [a, b][..1] == [a];
    assert [a][..0] == [];
  }

  /** The `MergeFrom` sources of a node, in connection order. */
  function MergeSources(conns: seq<Connection>): (r: seq<nat>)
    ensures forall c :: c in r <==> MergeFrom(c) in conns
    ensures |r| <= |conns|
  {
    if conns == [] then []
    else
      var last := conns[|conns| - 1];
      assert conns == conns[..|conns| - 1] + [last];
      MergeSources(conns[..|conns| - 1]) + if last.MergeFrom? then [last.col] else []
  }

  /** Extending the connections by one extends their sources by at most one. */
  lemma MergeSourcesStep(conns: seq<Connection>, i: nat)
    requires i < |conns|
    ensures MergeSources(conns[..i + 1]) == MergeSources(conns[..i]) + if conns[i].MergeFrom? then [conns[i].col] else []
  {
    assert conns[..i + 1][..i] == conns[..i];
  }

  /** `iter().min().unwrap_or(&d)` */
  function MinOr(s: seq<nat>, d: nat): (m: nat)
    ensures s == [] ==> m == d
    ensures s != [] ==> m in s && forall x :: x in s ==> m <= x
  {
    if s == [] then d
    else if |s| == 1 then s[0]
    else
      var m := MinOr(s[1..], d);
      assert forall x :: x in s ==> x == s[0] || x in s[1..];
      if s[0] <= m then s[0] else m
  }

  // ---------------------------------------------------------------------
  // Node rows

  /** Everything a node row depends on. */
  datatype NodeRow = NodeRow(
    node: GraphNode,
    active: seq<nat>,
    colInBranch: map<nat, bool>,
    onAncestryPath: bool,
    sync: SyncStatus,
    notInCurrentBranch: bool,
    isHead: bool)

  /** The style of a passing lane: its branch membership when known, else
      the node's style. */
  function LaneStyle(sync: SyncStatus, onPath: bool, colInBranch: map<nat, bool>, col: nat, fallback: Style): Style {
    if col in colInBranch then CommitStyle(sync, onPath, !colInBranch[col]) else fallback
  }

  /** The spans of one column of a node row. */
  function NodeCell(r: NodeRow, col: nat): (spans: seq<Span>)
    ensures |Text(spans)| == 2 && 1 <= |spans| <= 2
  {
    var n := r.node;
    var sources := MergeSources(n.connections);
    var isMerge := sources != [];
    var current := CommitStyle(r.sync, r.onAncestryPath, r.notInCurrentBranch);
    var colStyle := if col == n.column then current else LaneStyle(r.sync, r.onAncestryPath, r.colInBranch, col, current);
    if col == n.column then
      var glyph := if r.isHead then SelectGlyph(CommitHead, r.onAncestryPath, true)
                   else SelectGlyph(GlyphType.Commit, r.onAncestryPath, false);
      TextPair(Span([glyph], current), Span("─", current));
      if isMerge then [Span([glyph], current), Span("─", current)]
      else [Span([glyph, ' '], current)]
    else if isMerge && col in sources then
      [Span("╮ ", current)]
    else if isMerge && col > n.column && col < MinOr(sources, col) then
      if col in r.active && col !in sources then [Span("│─", current)] else [Span("──", current)]
    else if col in r.active && col !in sources then
      [Span([SelectGlyph(GlyphType.Vertical, false, false), ' '], colStyle)]
    else
      [Span("  ", Default)]
  }

  /** What a node-row cell shows: the commit marker (the head marker for
      the checked-out commit) followed by a dash when the node merges, a
      corner at each merge source, a dashed line from the node up to its
      nearest merge source, and a vertical line in every other active lane. */
  lemma NodeCellText(r: NodeRow, col: nat)
    ensures var sources := MergeSources(r.node.connections);
      var t := Text(NodeCell(r, col));
      && (col == r.node.column ==>
            t == [if r.isHead then '◉' else SelectGlyph(GlyphType.Commit, r.onAncestryPath, false),
                  if sources != [] then '─' else ' '])
      && (col != r.node.column && col in sources ==> t == "╮ ")
      && (col != r.node.column && col !in sources && sources != [] && r.node.column < col < MinOr(sources, col) ==>
            t == (if col in r.active then "│─" else "──"))
      && (col != r.node.column && col !in sources && !(sources != [] && r.node.column < col < MinOr(sources, col)) ==>
            t == (if col in r.active then "│ " else "  "))
  {
    var current := CommitStyle(r.sync, r.onAncestryPath, r.notInCurrentBranch);
    var glyph := if r.isHead then SelectGlyph(CommitHead, r.onAncestryPath, true)
                 else SelectGlyph(GlyphType.Commit, r.onAncestryPath, false);
    TextPair(Span([glyph], current), Span("─", current));
  }

  /** A row of cells: the spans of columns `0..w` in order. */
  function Row(cell: nat -> seq<Span>, w: nat): seq<Span> {
    if w == 0 then [] else Row(cell, w - 1) + cell(w - 1)
  }

  /** A row of two-character cells is two characters per column. */
  lemma {:induction false} RowLength(cell: nat -> seq<Span>, w: nat)
    requires forall c: nat :: |Text(cell(c))| == 2
    ensures |Text(Row(cell, w))| == 2 * w
  {
    if w > 0 {
      RowLength(cell, w - 1);
      TextAppend(Row(cell, w - 1), cell(w - 1));
    }
  }

  /** Column `col` of a row of two-character cells sits at offset
      `2 * col`. */
  lemma {:induction false} RowCellAt(cell: nat -> seq<Span>, w: nat, col: nat)
    requires forall c: nat :: |Text(cell(c))| == 2
    requires col < w
    ensures |Text(Row(cell, w))| == 2 * w
    ensures Text(Row(cell, w))[2 * col..2 * col + 2] == Text(cell(col))
  {
    RowLength(cell, w - 1);
    if col < w - 1 {
      RowCellAt(cell, w - 1, col);
    }
    CellAtStep(Row(cell, w - 1), cell(w - 1), w, col, cell(col));
  }

  /** The cells of a node row. */
  function NodeRowCells(r: NodeRow): nat -> seq<Span> {
    (c: nat) => NodeCell(r, c)
  }

  /** A node row is two characters per column, column `col` at offset
      `2 * col`. */
  lemma NodeRowText(r: NodeRow, w: nat, col: nat)
    requires col < w
    ensures |Text(Row(NodeRowCells(r), w))| == 2 * w
    ensures Text(Row(NodeRowCells(r), w))[2 * col..2 * col + 2] == Text(NodeCell(r, col))
  {
    RowCellAt(NodeRowCells(r), w, col);
  }

  /** One step of a row of two-character cells: appending cell `w - 1`
      keeps the earlier cells where they were. */
  lemma CellAtStep(prev: seq<Span>, cell: seq<Span>, w: nat, col: nat, cellCol: seq<Span>)
    requires 0 < w && col < w && |Text(prev)| == 2 * (w - 1) && |Text(cell)| == 2
    requires col < w - 1 ==> Text(prev)[2 * col..2 * col + 2] == Text(cellCol)
    requires col == w - 1 ==> cellCol == cell
    ensures |Text(prev + cell)| == 2 * w
    ensures Text(prev + cell)[2 * col..2 * col + 2] == Text(cellCol)
  {
    TextAppend(prev, cell);
    SliceOfAppend(Text(prev), Text(cell), 2 * col, 2 * col + 2);
  }

  /** A slice of a concatenation that lies in the left or the right part. */
  lemma SliceOfAppend(a: string, b: string, i: nat, j: nat)
    requires i <= j <= |a| + |b|
    ensures j <= |a| ==> (a + b)[i..j] == a[i..j]
    ensures i == |a| && j == |a| + |b| ==> (a + b)[i..j] == b
  {
  }

  class Renderer {
    var headCommitId: Option<string>

    constructor ()
      ensures headCommitId == None
    {
      headCommitId := None;
    }

    method SetHeadCommit(id: string)
      modifies this
      ensures headCommitId == Some(id)
    {
      headCommitId := Some(id);
    }

    /** `render_node_row`: one or two spans per column for `0..width`. */
    method RenderNodeRow(node: GraphNode, width: nat, active: seq<nat>, colInBranch: map<nat, bool>,
                         onAncestryPath: bool, sync: SyncStatus, notInCurrentBranch: bool)
      returns (spans: seq<Span>)
      ensures spans == Row(NodeRowCells(NodeRow(node, active, colInBranch, onAncestryPath, sync, notInCurrentBranch,
                                            headCommitId == Some(node.commit.id))), width)
      ensures |Text(spans)| == 2 * width
    {
      var r := NodeRow(node, active, colInBranch, onAncestryPath, sync, notInCurrentBranch,
                       headCommitId == Some(node.commit.id));
      spans := [];
      for col := 0 to width
        invariant spans == Row(NodeRowCells(r), col)
      {
        spans := spans + NodeCell(r, col);
      }
      RowLength(NodeRowCells(r), width);
    }

    /** `render_edge_row`: the cell state, then its spans. */
    method RenderEdgeRow(current: GraphNode, next: GraphNode, width: nat, active: seq<nat>,
                         colInBranch: map<nat, bool>, onAncestryPath: bool, sync: SyncStatus,
                         allNodes: seq<GraphNode>, notInCurrentBranch: bool)
      returns (spans: seq<Span>)
      requires EdgeRowFits(current, next, width, active)
      ensures |Text(spans)| == 2 * width
      ensures forall c :: c in active ==> Text(spans)[2 * c..2 * c + 2] != "  "
      ensures current.commit.id in next.commit.parents ==>
        Text(spans)[2 * current.column..2 * current.column + 2] != "  "
      ensures spans == Row(EdgeRowCells(EdgeCellState(current, next, width, active, allNodes),
                                        EdgeStyles(CommitStyle(sync, onAncestryPath, notInCurrentBranch), sync,
                                                   onAncestryPath, colInBranch, next.inCurrentBranch)), width)
    {
      spans := EdgeRow(current, next, width, active, colInBranch, onAncestryPath, sync, allNodes, notInCurrentBranch);
    }
  }

  // ---------------------------------------------------------------------
  // Edge rows: the cell state

  const Empty: string := ""
  const Vert: string := "│ "
  const VertDash: string := "│─"
  const Dash: string := "──"
  const Bend: string := "╯ "
  const BendDash: string := "╯─"
  const Tee: string := "├─"
  const Corner: string := "╮ "
  const Curve: string := "╭─"

  /** The cells an edge row is built from; the empty cell renders blank. */
  predicate Legal(s: string) {
    s == Empty || s == Vert || s == VertDash || s == Dash || s == Bend || s == BendDash
    || s == Tee || s == Corner || s == Curve
  }

  /** A horizontal line passing through a cell of a bend. */
  function CrossCell(s: string): (r: string)
    ensures Legal(r) && r != Empty
  {
    if s == Vert then VertDash else if s == Bend then BendDash else Dash
  }

  /** A horizontal line of another lane's merge passing through: an empty
      cell gets a dash, a cell with other content keeps it. */
  function MergeCross(s: string): (r: string)
    ensures Legal(s) ==> Legal(r)
    ensures s == Empty ==> r == Dash
  {
    if s == Vert then VertDash else if s == Bend then BendDash else if s == Empty then Dash else s
  }

  /** The target of a leftward bend. */
  function TeeCell(s: string): (r: string)
    ensures Legal(r) && r != Empty
  {
    if s == Vert then Tee else if s == Bend then BendDash else Curve
  }

  /** The end of a bend: keeps a horizontal line already passing through. */
  function BendCell(s: string): (r: string)
    ensures r == BendDash || r == Bend
    ensures r == BendDash <==> |s| > 0 && s[|s| - 1] == '─'
  {
    if |s| > 0 && s[|s| - 1] == '─' then BendDash else Bend
  }

  /** The cell state of `render_edge_row` and the trackers that decide the
      styles. */
  datatype EdgeState = EdgeState(
    cells: seq<string>,
    currentBranchCols: set<nat>,
    leftSources: map<nat, nat>,
    leftTargets: set<nat>,
    mergeBranchCols: map<nat, nat>)

  ghost predicate AllLegal(cells: seq<string>) {
    forall c :: 0 <= c < |cells| ==> Legal(cells[c])
  }

  // ---------------------------------------------------------------------
  // Edge rows: the phases as functions of the cell state

  /** The columns `lo..hi`. */
  ghost function Between(lo: nat, hi: nat): (r: set<nat>)
    ensures forall c :: c in r <==> lo <= c < hi
    decreases hi
  {
    if hi <= lo then {} else Between(lo, hi - 1) + {hi - 1}
  }

  /** A tracker with the columns `lo..hi` recorded as reached from `v`. */
  ghost function Assign(m: map<nat, nat>, lo: nat, hi: nat, v: nat): map<nat, nat> {
    map c | c in m.Keys + Between(lo, hi) :: if lo <= c < hi then v else m[c]
  }

  lemma AssignNone(m: map<nat, nat>, lo: nat, v: nat)
    ensures Assign(m, lo, lo, v) == m
  {
  }

  lemma AssignStep(m: map<nat, nat>, lo: nat, hi: nat, v: nat)
    requires lo <= hi
    ensures Assign(m, lo, hi, v)[hi := v] == Assign(m, lo, hi + 1, v)
  {
  }

  /** Every active lane a vertical line, every other column empty. */
  ghost function ActiveCells(width: nat, active: seq<nat>): seq<string> {
    seq(width, c => if c in active then Vert else Empty)
  }

  /** A merge node's own lane and its source lanes to the right as
      vertical lines. */
  ghost function MergeContinued(cells: seq<string>, col: nat, sources: seq<nat>): seq<string> {
    seq(|cells|, c requires 0 <= c < |cells| =>
      if c == col || (c in sources && c > col) then Vert else cells[c])
  }

  /** The cells after a bend from lane `col` right to `target`. */
  ghost function RightBend(cells: seq<string>, col: nat, target: nat): seq<string> {
    seq(|cells|, c requires 0 <= c < |cells| =>
      if c == col then Tee else if c == target then Corner
      else if col < c < target then CrossCell(cells[c]) else cells[c])
  }

  /** The cells after a bend from lane `col` left to `target`. */
  ghost function LeftBend(cells: seq<string>, col: nat, target: nat): seq<string> {
    seq(|cells|, c requires 0 <= c < |cells| =>
      if c == target then TeeCell(cells[c]) else if c == col then BendCell(cells[c])
      else if target < c < col then CrossCell(cells[c]) else cells[c])
  }

  /** One bend of the branch phase; a target in the node's own lane draws
      nothing. */
  ghost function BendTo(st: EdgeState, col: nat, t: nat): (r: EdgeState)
    ensures |r.cells| == |st.cells|
  {
    if t > col then
      st.(cells := RightBend(st.cells, col, t), currentBranchCols := st.currentBranchCols + Between(col + 1, t))
    else if t < col then
      st.(cells := LeftBend(st.cells, col, t), leftSources := Assign(st.leftSources, t, col, col),
          leftTargets := st.leftTargets + {t})
    else st
  }

  /** The branch phase: the bends of `targets`, in order. */
  ghost function BendsDrawn(st: EdgeState, col: nat, targets: seq<nat>): (r: EdgeState)
    ensures |r.cells| == |st.cells|
    decreases |targets|
  {
    if targets == [] then st
    else BendTo(BendsDrawn(st, col, targets[..|targets| - 1]), col, targets[|targets| - 1])
  }

  /** The cells `lo..hi` crossed by another lane's merge. */
  ghost function Crossed(cells: seq<string>, lo: nat, hi: nat): seq<string> {
    seq(|cells|, c requires 0 <= c < |cells| => if lo <= c < hi then MergeCross(cells[c]) else cells[c])
  }

  /** One merge of the merge phase, in the steps `render_edge_row` takes:
      the lanes between are crossed, then the merging lane and the target
      are drawn; a lane equal to the target draws nothing. */
  ghost function MergeWith(st: EdgeState, target: nat, m: nat): (r: EdgeState)
    requires target < |st.cells| && m < |st.cells|
    ensures |r.cells| == |st.cells|
  {
    if m > target then MergedFromRight(st, target, m)
    else if m < target then MergedFromLeft(st, target, m)
    else st
  }

  /** A merge from lane `m` leftward into `target`. */
  ghost function MergedFromRight(st: EdgeState, target: nat, m: nat): (r: EdgeState)
    requires target < m < |st.cells|
    ensures |r.cells| == |st.cells|
  {
    var crossed := Crossed(st.cells, target + 1, m);
    var bent := crossed[m := BendCell(crossed[m])];
    var ls := Assign(st.leftSources, target + 1, m, m);
    var update := target !in ls || m - target < Distance(ls[target], target);
    st.(cells := if bent[target] == Vert then bent[target := Tee] else bent,
        mergeBranchCols := Assign(st.mergeBranchCols, target + 1, m, m)[m := m],
        leftSources := if update then ls[target := m] else ls)
  }

  /** A merge from lane `m` rightward into `target`. */
  ghost function MergedFromLeft(st: EdgeState, target: nat, m: nat): (r: EdgeState)
    requires m < target < |st.cells|
    ensures |r.cells| == |st.cells|
  {
    var teed := Crossed(st.cells, m + 1, target)[m := Tee];
    st.(cells := teed[target := BendCell(teed[target])],
        mergeBranchCols := Assign(st.mergeBranchCols, m + 1, target, m)[m := m][target := m],
        leftSources := Assign(st.leftSources, m + 1, target, m)[m := m])
  }

  /** The merge phase: the merges of `mergeCols`, in order. */
  ghost function MergesDrawn(st: EdgeState, target: nat, mergeCols: seq<nat>): (r: EdgeState)
    requires target < |st.cells| && forall i :: 0 <= i < |mergeCols| ==> mergeCols[i] < |st.cells|
    ensures |r.cells| == |st.cells|
    decreases |mergeCols|
  {
    if mergeCols == [] then st
    else MergeWith(MergesDrawn(st, target, mergeCols[..|mergeCols| - 1]), target, mergeCols[|mergeCols| - 1])
  }

  /** The other lanes merging into the next node, in the order of `active`. */
  function MergingColumns(active: seq<nat>, allNodes: seq<GraphNode>, currIdx: nat, currCol: nat, nextId: string)
    : (r: seq<nat>)
    requires currIdx < |allNodes|
    ensures forall i :: 0 <= i < |r| ==> r[i] in active
  {
    if active == [] then []
    else
      var rest := MergingColumns(active[..|active| - 1], allNodes, currIdx, currCol, nextId);
      var c := active[|active| - 1];
      if c != currCol && MergesInto(allNodes, currIdx, c, nextId) then rest + [c] else rest
  }

  /** `OtherMergingColumns` as a function: nothing when either node is
      missing from the node list. */
  function OtherMerging(current: GraphNode, next: GraphNode, active: seq<nat>, allNodes: seq<GraphNode>): (r: seq<nat>)
    ensures forall i :: 0 <= i < |r| ==> r[i] in active
  {
    var currIdx := NodeIndex(allNodes, current.commit.id);
    if currIdx.Some? && NodeIndex(allNodes, next.commit.id).Some? then
      MergingColumns(active, allNodes, currIdx.value, current.column, next.commit.id)
    else []
  }

  /** The cell state `render_edge_row` builds: the active lanes, then the
      continuation of a merge, the bends of a branch or the node's own lane,
      the node's lane again when the next node is its child, and last the
      other lanes' merges into the next node. */
  ghost function EdgeCellState(current: GraphNode, next: GraphNode, width: nat, active: seq<nat>,
                               allNodes: seq<GraphNode>): EdgeState
    requires EdgeRowFits(current, next, width, active)
  {
    var sources := MergeSources(current.connections);
    var targets := BranchTargets(current, next);
    var start := EdgeState(ActiveCells(width, active), {}, map[], {}, map[]);
    var branched :=
      if sources != [] then start.(cells := MergeContinued(start.cells, current.column, sources))
      else if targets != [] then BendsDrawn(start, current.column, targets)
      else start.(cells := start.cells[current.column := Vert]);
    var joined :=
      if current.commit.id in next.commit.parents && branched.cells[current.column] == Empty
      then branched.(cells := branched.cells[current.column := Vert])
      else branched;
    MergesDrawn(joined, next.column, OtherMerging(current, next, active, allNodes))
  }

  /** A phase of the edge row never erases a drawn cell. */
  ghost predicate KeepsDrawn(cells: seq<string>, r: seq<string>) {
    |r| == |cells| && forall c :: 0 <= c < |cells| && cells[c] != Empty ==> r[c] != Empty
  }

  /** What `render_edge_row` indexes: the active lanes, both nodes' columns
      and the merge sources right of the current node lie below `width`. */
  ghost predicate EdgeRowFits(current: GraphNode, next: GraphNode, width: nat, active: seq<nat>) {
    (forall c :: c in active ==> c < width)
    && current.column < width && next.column < width
    && forall s: nat :: MergeFrom(s) in current.connections ==> s < width
  }

  /** The `BranchTo` targets of the current node that bend into the next
      node: only when the next node is a parent, and only at its column. */
  function BranchTargets(current: GraphNode, next: GraphNode): (r: seq<nat>)
    ensures forall t :: t in r ==> t == next.column && next.commit.id in current.commit.parents
    ensures next.commit.id in current.commit.parents && BranchTo(next.column) in current.connections ==> r != []
  {
    if next.commit.id in current.commit.parents then BendTargets(current.connections, next.column) else []
  }

  function BendTargets(conns: seq<Connection>, col: nat): (r: seq<nat>)
    ensures forall t :: t in r ==> t == col
    ensures BranchTo(col) in conns ==> r != []
  {
    if conns == [] then []
    else
      var rest := BendTargets(conns[1..], col);
      assert BranchTo(col) in conns && conns[0] != BranchTo(col) ==> BranchTo(col) in conns[1..];
      if conns[0] == BranchTo(col) then [col] + rest else rest
  }

  /** Every active lane starts as a vertical line. */
  method MarkActive(width: nat, active: seq<nat>) returns (cells: seq<string>)
    requires forall c :: c in active ==> c < width
    ensures |cells| == width && AllLegal(cells)
    ensures forall c :: 0 <= c < width ==> cells[c] == if c in active then Vert else Empty
    ensures cells == ActiveCells(width, active)
  {
    cells := seq(width, _ => Empty);
    for k := 0 to |active|
      invariant |cells| == width
      invariant forall c :: 0 <= c < width ==> cells[c] == if c in active[..k] then Vert else Empty
    {
      PrefixStep(active, k);
      assert active[k] in active;
      cells := cells[active[k] := Vert];
    }
    assert active[..|active|] == active;
  }

  /** A merge node: its own lane and every source lane to its right
      continue as vertical lines. */
  method MergeContinuation(cells: seq<string>, col: nat, sources: seq<nat>) returns (r: seq<string>)
    requires col < |cells| && forall s :: s in sources ==> s < |cells|
    requires AllLegal(cells)
    ensures |r| == |cells| && AllLegal(r)
    ensures r[col] == Vert && forall s :: s in sources && s > col ==> r[s] == Vert
    ensures forall c :: 0 <= c < |r| && c != col && !(c in sources && c > col) ==> r[c] == cells[c]
    ensures KeepsDrawn(cells, r)
    ensures r == MergeContinued(cells, col, sources)
  {
    r := cells[col := Vert];
    for k := 0 to |sources|
      invariant |r| == |cells| && AllLegal(r)
      invariant r[col] == Vert && forall s :: s in sources[..k] && s > col ==> s < |r| && r[s] == Vert
      invariant forall c :: 0 <= c < |r| && c != col && !(c in sources[..k] && c > col) ==> r[c] == cells[c]
    {
      PrefixStep(sources, k);
      assert sources[k] in sources;
      if sources[k] > col {
        r := r[sources[k] := Vert];
      }
    }
    assert sources[..|sources|] == sources;
  }

  /** A bend to the right: a tee at the node, a horizontal line through the
      lanes between, a corner at the target. */
  method BendRight(cells: seq<string>, col: nat, target: nat) returns (r: seq<string>, through: set<nat>)
    requires col < target < |cells| && AllLegal(cells)
    ensures |r| == |cells| && AllLegal(r)
    ensures r[col] == Tee && r[target] == Corner
    ensures forall c :: col < c < target ==> r[c] == CrossCell(cells[c])
    ensures forall c :: 0 <= c < |r| && (c < col || c > target) ==> r[c] == cells[c]
    ensures forall c :: c in through <==> col < c < target
    ensures KeepsDrawn(cells, r)
    ensures r == RightBend(cells, col, target) && through == Between(col + 1, target)
  {
    r := cells[col := Tee];
    through := {};
    for c := col + 1 to target
      invariant |r| == |cells| && AllLegal(r) && r[col] == Tee
      invariant forall m :: col < m < c ==> r[m] == CrossCell(cells[m])
      invariant forall m :: 0 <= m < |r| && m != col && !(col < m < c) ==> r[m] == cells[m]
      invariant forall m :: m in through <==> col < m < c
    {
      r := r[c := CrossCell(r[c])];
      through := through + {c};
    }
    r := r[target := Corner];
  }

  /** A bend to the left, back into the next node: the target becomes a
      tee, a bend or a curve, the lanes between get a horizontal line, and
      the node's own lane ends in a bend; every column it spans records the
      node's lane as the source of its horizontal. */
  method BendLeft(cells: seq<string>, col: nat, target: nat, leftSources: map<nat, nat>)
    returns (r: seq<string>, leftSources': map<nat, nat>)
    requires target < col < |cells| && AllLegal(cells)
    ensures |r| == |cells| && AllLegal(r)
    ensures r[target] == TeeCell(cells[target])
    ensures forall c :: target < c < col ==> r[c] == CrossCell(cells[c])
    ensures r[col] == BendCell(cells[col])
    ensures forall c :: 0 <= c < |r| && (c < target || c > col) ==> r[c] == cells[c]
    ensures forall c :: c in leftSources' <==> c in leftSources || target <= c < col
    ensures forall c :: c in leftSources' ==> leftSources'[c] == if target <= c < col then col else leftSources[c]
    ensures KeepsDrawn(cells, r)
    ensures r == LeftBend(cells, col, target) && leftSources' == Assign(leftSources, target, col, col)
  {
    r := cells;
    leftSources' := leftSources[target := col];
    LeftBendNone(cells, target);
    AssignNone(leftSources[target := col], target, col);
    for c := target to col
      invariant r == LeftBendUpTo(cells, target, c)
      invariant leftSources' == Assign(leftSources[target := col], target, c, col)
    {
      LeftBendStep(cells, target, c);
      AssignStep(leftSources[target := col], target, c, col);
      r := r[c := if c == target then TeeCell(r[c]) else CrossCell(r[c])];
      leftSources' := leftSources'[c := col];
    }
    LeftBendDone(cells, col, target);
    AssignOver(leftSources, target, col, col);
    r := r[col := BendCell(r[col])];
    LeftBendFacts(cells, col, target, r);
  }

  lemma LeftBendFacts(cells: seq<string>, col: nat, target: nat, r: seq<string>)
    requires target < col < |cells| && AllLegal(cells)
    requires r == LeftBend(cells, col, target)
    ensures |r| == |cells| && AllLegal(r)
    ensures r[target] == TeeCell(cells[target])
    ensures forall c :: target < c < col ==> r[c] == CrossCell(cells[c])
    ensures r[col] == BendCell(cells[col])
    ensures forall c :: 0 <= c < |r| && (c < target || c > col) ==> r[c] == cells[c]
    ensures KeepsDrawn(cells, r)
  {
  }

  /** The cells of a leftward bend once its loop has reached lane `c`. */
  ghost function LeftBendUpTo(cells: seq<string>, target: nat, c: nat): seq<string> {
    seq(|cells|, m requires 0 <= m < |cells| =>
      if m == target && target < c then TeeCell(cells[m])
      else if target < m < c then CrossCell(cells[m]) else cells[m])
  }

  lemma LeftBendNone(cells: seq<string>, target: nat)
    ensures LeftBendUpTo(cells, target, target) == cells
  {
    assert forall m :: 0 <= m < |cells| ==> LeftBendUpTo(cells, target, target)[m] == cells[m];
  }

  lemma LeftBendStep(cells: seq<string>, target: nat, c: nat)
    requires target <= c < |cells|
    ensures LeftBendUpTo(cells, target, c)[c] == cells[c]
    ensures LeftBendUpTo(cells, target, c)[c := if c == target then TeeCell(cells[c]) else CrossCell(cells[c])]
      == LeftBendUpTo(cells, target, c + 1)
  {
    var x := LeftBendUpTo(cells, target, c)[c := if c == target then TeeCell(cells[c]) else CrossCell(cells[c])];
    assert forall m :: 0 <= m < |cells| ==> x[m] == LeftBendUpTo(cells, target, c + 1)[m];
  }

  lemma LeftBendDone(cells: seq<string>, col: nat, target: nat)
    requires target < col < |cells|
    ensures var x := LeftBendUpTo(cells, target, col);
      x[col := BendCell(x[col])] == LeftBend(cells, col, target)
  {
    var x := LeftBendUpTo(cells, target, col);
    assert forall m :: 0 <= m < |cells| ==> x[col := BendCell(x[col])][m] == LeftBend(cells, col, target)[m];
  }

  lemma AssignOver(m: map<nat, nat>, lo: nat, hi: nat, v: nat)
    requires lo < hi
    ensures Assign(m[lo := v], lo, hi, v) == Assign(m, lo, hi, v)
  {
  }

  /** The branch phase: each bend target of the current node, in order. */
  method DrawBends(st: EdgeState, col: nat, targets: seq<nat>) returns (st': EdgeState)
    requires col < |st.cells| && AllLegal(st.cells)
    requires forall t :: t in targets ==> t < |st.cells|
    ensures |st'.cells| == |st.cells| && AllLegal(st'.cells)
    ensures st'.mergeBranchCols == st.mergeBranchCols
    ensures KeepsDrawn(st.cells, st'.cells)
    ensures (exists t :: t in targets && t != col) ==> st'.cells[col] != Empty
    ensures st' == BendsDrawn(st, col, targets)
  {
    st' := st;
    for k := 0 to |targets|
      invariant st' == BendsDrawn(st, col, targets[..k])
      invariant |st'.cells| == |st.cells| && AllLegal(st'.cells)
      invariant st'.mergeBranchCols == st.mergeBranchCols
      invariant KeepsDrawn(st.cells, st'.cells)
      invariant (exists t :: t in targets[..k] && t != col) ==> st'.cells[col] != Empty
    {
      PrefixStep(targets, k);
      var t := targets[k];
      assert t in targets;
      st' := BendOne(st', col, t);
    }
    assert targets[..|targets|] == targets;
  }

  /** One target of the current node's bends. */
  method BendOne(st: EdgeState, col: nat, t: nat) returns (st': EdgeState)
    requires col < |st.cells| && t < |st.cells| && AllLegal(st.cells)
    ensures st' == BendTo(st, col, t)
    ensures |st'.cells| == |st.cells| && AllLegal(st'.cells) && st'.mergeBranchCols == st.mergeBranchCols
    ensures KeepsDrawn(st.cells, st'.cells)
    ensures t != col ==> st'.cells[col] != Empty
  {
    if t > col {
      var cells, through := BendRight(st.cells, col, t);
      st' := st.(cells := cells, currentBranchCols := st.currentBranchCols + through);
    } else if t < col {
      var cells, sources := BendLeft(st.cells, col, t, st.leftSources);
      st' := st.(cells := cells, leftSources := sources, leftTargets := st.leftTargets + {t});
    } else {
      st' := st;
    }
  }

  /** The lanes `lo..hi` a merge from lane `mergeCol` crosses: each cell
      gets the horizontal, and each lane is recorded as reached by that
      merge, both for its style and for the tee it may lead to. */
  method CrossRun(cells: seq<string>, mb: map<nat, nat>, ls: map<nat, nat>, lo: nat, hi: nat, mergeCol: nat)
    returns (cells': seq<string>, mb': map<nat, nat>, ls': map<nat, nat>)
    requires lo <= hi <= |cells|
    ensures cells' == Crossed(cells, lo, hi)
    ensures mb' == Assign(mb, lo, hi, mergeCol) && ls' == Assign(ls, lo, hi, mergeCol)
  {
    cells', mb', ls' := cells, mb, ls;
    CrossedNone(cells, lo);
    AssignNone(mb, lo, mergeCol);
    AssignNone(ls, lo, mergeCol);
    for c := lo to hi
      invariant cells' == Crossed(cells, lo, c)
      invariant mb' == Assign(mb, lo, c, mergeCol) && ls' == Assign(ls, lo, c, mergeCol)
    {
      CrossedStep(cells, lo, c);
      cells' := cells'[c := MergeCross(cells'[c])];
      AssignStep(mb, lo, c, mergeCol);
      AssignStep(ls, lo, c, mergeCol);
      mb' := mb'[c := mergeCol];
      ls' := ls'[c := mergeCol];
    }
  }

  lemma CrossedStep(cells: seq<string>, lo: nat, c: nat)
    requires lo <= c < |cells|
    ensures Crossed(cells, lo, c)[c] == cells[c]
    ensures Crossed(cells, lo, c)[c := MergeCross(cells[c])] == Crossed(cells, lo, c + 1)
  {
    var x := Crossed(cells, lo, c)[c := MergeCross(cells[c])];
    assert forall m :: 0 <= m < |cells| ==> x[m] == Crossed(cells, lo, c + 1)[m];
  }

  lemma CrossedNone(cells: seq<string>, lo: nat)
    ensures Crossed(cells, lo, lo) == cells
  {
    assert forall m :: 0 <= m < |cells| ==> Crossed(cells, lo, lo)[m] == cells[m];
  }

  lemma CrossedLegal(cells: seq<string>, lo: nat, hi: nat)
    requires AllLegal(cells)
    ensures |Crossed(cells, lo, hi)| == |cells| && AllLegal(Crossed(cells, lo, hi))
  {
  }

  /** A leftward merge draws a dash through the empty lanes it crosses, a
      bend at the merging lane and a tee at a vertical target, records the
      merging lane for the columns it spans, and changes nothing else. */
  lemma MergedFromRightFacts(st: EdgeState, target: nat, mergeCol: nat, st': EdgeState)
    requires target < mergeCol < |st.cells| && AllLegal(st.cells)
    requires st' == MergedFromRight(st, target, mergeCol)
    ensures |st'.cells| == |st.cells| && AllLegal(st'.cells)
    ensures forall c :: target < c < mergeCol ==> st'.cells[c] == MergeCross(st.cells[c])
    ensures st'.cells[mergeCol] == BendCell(st.cells[mergeCol])
    ensures st'.cells[target] == (if st.cells[target] == Vert then Tee else st.cells[target])
    ensures forall c :: 0 <= c < |st.cells| && (c < target || c > mergeCol) ==> st'.cells[c] == st.cells[c]
    ensures forall c :: target < c <= mergeCol ==> c in st'.mergeBranchCols && st'.mergeBranchCols[c] == mergeCol
    ensures KeepsDrawn(st.cells, st'.cells)
  {
    var cells := st.cells;
    var crossed := Crossed(cells, target + 1, mergeCol);
    assert crossed[mergeCol] == cells[mergeCol] && crossed[target] == cells[target];
    var bent := crossed[mergeCol := BendCell(cells[mergeCol])];
    if cells[target] != Vert {
      assert bent[target := cells[target]] == bent;
    }
    assert st'.cells == bent[target := if cells[target] == Vert then Tee else cells[target]];
    RightMergeCells(cells, target, mergeCol, st'.cells);
    AssignStep(st.mergeBranchCols, target + 1, mergeCol, mergeCol);
  }

  lemma RightMergeCells(cells: seq<string>, target: nat, mergeCol: nat, r: seq<string>)
    requires target < mergeCol < |cells| && AllLegal(cells)
    requires r == Crossed(cells, target + 1, mergeCol)[mergeCol := BendCell(cells[mergeCol])]
                    [target := if cells[target] == Vert then Tee else cells[target]]
    ensures |r| == |cells| && AllLegal(r) && KeepsDrawn(cells, r)
    ensures forall c :: 0 <= c < |cells| ==>
      r[c] == if c == target then (if cells[target] == Vert then Tee else cells[target])
              else if c == mergeCol then BendCell(cells[c])
              else if target < c < mergeCol then MergeCross(cells[c]) else cells[c]
  {
    forall c | 0 <= c < |cells| ensures Legal(r[c]) && (cells[c] != Empty ==> r[c] != Empty) {
      assert Legal(cells[c]);
    }
  }

  /** A rightward merge draws a tee at the merging lane, a dash through the
      empty lanes it crosses and a bend at the target, records the merging
      lane for the columns it spans, and changes nothing else. */
  lemma MergedFromLeftFacts(st: EdgeState, target: nat, mergeCol: nat, st': EdgeState)
    requires mergeCol < target < |st.cells| && AllLegal(st.cells)
    requires st' == MergedFromLeft(st, target, mergeCol)
    ensures |st'.cells| == |st.cells| && AllLegal(st'.cells)
    ensures forall c :: mergeCol < c < target ==> st'.cells[c] == MergeCross(st.cells[c])
    ensures st'.cells[mergeCol] == Tee
    ensures st'.cells[target] == BendCell(st.cells[target])
    ensures forall c :: 0 <= c < |st.cells| && (c < mergeCol || c > target) ==> st'.cells[c] == st.cells[c]
    ensures forall c :: mergeCol <= c <= target ==> c in st'.mergeBranchCols && st'.mergeBranchCols[c] == mergeCol
    ensures KeepsDrawn(st.cells, st'.cells)
  {
    var cells := st.cells;
    var crossed := Crossed(cells, mergeCol + 1, target);
    assert crossed[target] == cells[target];
    assert st'.cells == crossed[mergeCol := Tee][target := BendCell(cells[target])];
    LeftMergeCells(cells, target, mergeCol, st'.cells);
  }

  lemma LeftMergeCells(cells: seq<string>, target: nat, mergeCol: nat, r: seq<string>)
    requires mergeCol < target < |cells| && AllLegal(cells)
    requires r == Crossed(cells, mergeCol + 1, target)[mergeCol := Tee][target := BendCell(cells[target])]
    ensures |r| == |cells| && AllLegal(r) && KeepsDrawn(cells, r)
    ensures forall c :: 0 <= c < |cells| ==>
      r[c] == if c == mergeCol then Tee else if c == target then BendCell(cells[c])
              else if mergeCol < c < target then MergeCross(cells[c]) else cells[c]
  {
    forall c | 0 <= c < |cells| ensures Legal(r[c]) && (cells[c] != Empty ==> r[c] != Empty) {
      assert Legal(cells[c]);
    }
  }

  /** `merge_col > next_node.column`: another lane merging leftward into the
      next node. */
  method MergeFromRight(st: EdgeState, target: nat, mergeCol: nat) returns (st': EdgeState)
    requires target < mergeCol < |st.cells|
    ensures st' == MergedFromRight(st, target, mergeCol)
  {
    var cells: seq<string>, mb: map<nat, nat>, ls: map<nat, nat> :=
      CrossRun(st.cells, st.mergeBranchCols, st.leftSources, target + 1, mergeCol, mergeCol);
    cells := cells[mergeCol := BendCell(cells[mergeCol])];
    mb := mb[mergeCol := mergeCol];
    if cells[target] == Vert {
      cells := cells[target := Tee];
    }
    // The closest merging lane decides the style of the tee's horizontal.
    var update := target !in ls || mergeCol - target < Distance(ls[target], target);
    if update {
      ls := ls[target := mergeCol];
    }
    st' := st.(cells := cells, mergeBranchCols := mb, leftSources := ls);
  }

  function Distance(a: nat, b: nat): nat {
    if a > b then a - b else b - a
  }

  /** `merge_col < next_node.column`: another lane merging rightward into
      the next node. */
  method MergeFromLeft(st: EdgeState, target: nat, mergeCol: nat) returns (st': EdgeState)
    requires mergeCol < target < |st.cells|
    ensures st' == MergedFromLeft(st, target, mergeCol)
  {
    var cells: seq<string>, mb: map<nat, nat>, ls: map<nat, nat> :=
      CrossRun(st.cells, st.mergeBranchCols, st.leftSources, mergeCol + 1, target, mergeCol);
    cells := cells[mergeCol := Tee];
    mb := mb[mergeCol := mergeCol];
    ls := ls[mergeCol := mergeCol];
    cells := cells[target := BendCell(cells[target])];
    mb := mb[target := mergeCol];
    st' := st.(cells := cells, mergeBranchCols := mb, leftSources := ls);
  }

  /** Some node up to the current one lies in lane `col`, lists the next
      node as a parent, and has all its parents among the rows below the
      current one. */
  predicate MergesInto(allNodes: seq<GraphNode>, currIdx: nat, col: nat, nextId: string)
    requires currIdx < |allNodes|
  {
    exists j :: 0 <= j <= currIdx && allNodes[j].column == col && nextId in allNodes[j].commit.parents
      && forall p :: p in allNodes[j].commit.parents ==>
        exists k :: currIdx < k < |allNodes| && allNodes[k].commit.id == p
  }

  function NodeIndex(allNodes: seq<GraphNode>, id: string): (r: Option<nat>)
    ensures r.Some? ==> r.value < |allNodes| && allNodes[r.value].commit.id == id
    ensures r.None? ==> forall j :: 0 <= j < |allNodes| ==> allNodes[j].commit.id != id
  {
    if allNodes == [] then None
    else if allNodes[0].commit.id == id then Some(0)
    else match NodeIndex(allNodes[1..], id)
      case None => None
      case Some(k) => Some(k + 1)
  }

  /** The active lanes other than the current node's whose commits merge
      into the next node, in the order of `active`; none when either node is
      missing from the node list. */
  method OtherMergingColumns(current: GraphNode, next: GraphNode, active: seq<nat>, allNodes: seq<GraphNode>)
    returns (cols: seq<nat>)
    ensures forall c :: c in cols ==> c in active && c != current.column
    ensures forall c :: c in cols <==>
      c in active && c != current.column && NodeIndex(allNodes, current.commit.id).Some?
      && NodeIndex(allNodes, next.commit.id).Some?
      && MergesInto(allNodes, NodeIndex(allNodes, current.commit.id).value, c, next.commit.id)
    ensures cols == OtherMerging(current, next, active, allNodes)
  {
    cols := [];
    var currIdx := NodeIndex(allNodes, current.commit.id);
    var nextIdx := NodeIndex(allNodes, next.commit.id);
    if currIdx.Some? && nextIdx.Some? {
      for k := 0 to |active|
        invariant forall c :: c in cols <==>
          c in active[..k] && c != current.column && MergesInto(allNodes, currIdx.value, c, next.commit.id)
        invariant cols == MergingColumns(active[..k], allNodes, currIdx.value, current.column, next.commit.id)
      {
        PrefixStep(active, k);
        var col := active[k];
        if col != current.column && MergesInto(allNodes, currIdx.value, col, next.commit.id) {
          cols := cols + [col];
        }
      }
      assert active[..|active|] == active;
    }
  }

  /** The merge phase: each other merging lane, in order. */
  method DrawMerges(st: EdgeState, target: nat, mergeCols: seq<nat>) returns (st': EdgeState)
    requires target < |st.cells| && AllLegal(st.cells)
    requires forall i :: 0 <= i < |mergeCols| ==> mergeCols[i] < |st.cells|
    ensures |st'.cells| == |st.cells| && AllLegal(st'.cells)
    ensures KeepsDrawn(st.cells, st'.cells)
    ensures st' == MergesDrawn(st, target, mergeCols)
  {
    st' := st;
    for k := 0 to |mergeCols|
      invariant |st'.cells| == |st.cells| && AllLegal(st'.cells)
      invariant KeepsDrawn(st.cells, st'.cells)
      invariant st' == MergesDrawn(st, target, mergeCols[..k])
    {
      PrefixStep(mergeCols, k);
      var m := mergeCols[k];
      var before := st';
      if m > target {
        st' := MergeFromRight(before, target, m);
        MergedFromRightFacts(before, target, m, st');
      } else if m < target {
        st' := MergeFromLeft(before, target, m);
        MergedFromLeftFacts(before, target, m, st');
      }
    }
    assert mergeCols[..|mergeCols|] == mergeCols;
  }

  /** The cell state of an edge row, before styling. */
  method EdgeCells(current: GraphNode, next: GraphNode, width: nat, active: seq<nat>, allNodes: seq<GraphNode>)
    returns (st: EdgeState)
    requires EdgeRowFits(current, next, width, active)
    ensures |st.cells| == width && AllLegal(st.cells)
    ensures forall c :: c in active ==> st.cells[c] != Empty
    ensures current.commit.id in next.commit.parents ==> st.cells[current.column] != Empty
    ensures st == EdgeCellState(current, next, width, active, allNodes)
  {
    var isChild := current.commit.id in next.commit.parents;
    var targets := BranchTargets(current, next);
    var sources := MergeSources(current.connections);
    var cells := MarkActive(width, active);
    var others := OtherMergingColumns(current, next, active, allNodes);
    st := EdgeState(cells, {}, map[], {}, map[]);
    if sources != [] {
      cells := MergeContinuation(st.cells, current.column, sources);
      st := st.(cells := cells);
    } else if targets != [] {
      st := DrawBends(st, current.column, targets);
    } else {
      st := st.(cells := st.cells[current.column := Vert]);
    }
    if isChild && st.cells[current.column] == Empty {
      st := st.(cells := st.cells[current.column := Vert]);
    }
    st := DrawMerges(st, next.column, others);
  }

  // ---------------------------------------------------------------------
  // Edge rows: styles and spans

  /** What the span styles of an edge row depend on besides the cells. */
  datatype EdgeStyles = EdgeStyles(
    current: Style,
    sync: SyncStatus,
    onAncestryPath: bool,
    colInBranch: map<nat, bool>,
    nextInCurrentBranch: bool)

  /** The style of a column: the current node's for its own horizontal
      lines, the merging lane's for another lane's lines, else the lane's own
      branch membership. */
  function ColStyle(st: EdgeState, x: EdgeStyles, col: nat): Style {
    if col in st.currentBranchCols then x.current
    else if col in st.mergeBranchCols then
      LaneStyle(x.sync, x.onAncestryPath, x.colInBranch, st.mergeBranchCols[col], x.current)
    else LaneStyle(x.sync, x.onAncestryPath, x.colInBranch, col, x.current)
  }

  /** The horizontal half of a composite cell takes the style its bend's
      source column has. */
  function HorizontalStyle(st: EdgeState, x: EdgeStyles, col: nat): Style {
    if col in st.leftSources then ColStyle(st, x, st.leftSources[col]) else ColStyle(st, x, col)
  }

  /** The spans of one column of an edge row: the composites "├─", "╭─",
      "╯─" and "│─" as two one-character spans, every other cell as one. */
  function EdgeCell(st: EdgeState, x: EdgeStyles, col: nat): (spans: seq<Span>)
    requires col < |st.cells| && Legal(st.cells[col])
    ensures |Text(spans)| == 2
    ensures var s := st.cells[col];
      && (s == Tee || s == Curve || s == BendDash || s == VertDash ==>
            |spans| == 2 && spans[0].text == [s[0]] && spans[1].text == "─")
      && (!(s == Tee || s == Curve || s == BendDash || s == VertDash) ==>
            |spans| == 1 && spans[0].text == (if s == Empty then "  " else s))
    ensures Text(spans) == "  " <==> st.cells[col] == Empty
  {
    var s := if st.cells[col] != Empty then st.cells[col] else "  ";
    var colStyle := ColStyle(st, x, col);
    if s == Tee || s == Curve then
      var teeStyle := if col in st.leftTargets then CommitStyle(x.sync, x.onAncestryPath, !x.nextInCurrentBranch)
                      else colStyle;
      var tee := Span([s[0]], teeStyle);
      var horizontal := Span("─", HorizontalStyle(st, x, col));
      TextPair(tee, horizontal);
      assert Text([tee, horizontal])[1] == '─';
      [tee, horizontal]
    else if s == BendDash || s == VertDash then
      var vertical := Span([s[0]], LaneStyle(x.sync, x.onAncestryPath, x.colInBranch, col, colStyle));
      var horizontal := Span("─", HorizontalStyle(st, x, col));
      TextPair(vertical, horizontal);
      assert Text([vertical, horizontal])[1] == '─';
      [vertical, horizontal]
    else
      TextPair(Span(s, colStyle), Span(s, colStyle));
      [Span(s, colStyle)]
  }

  /** The cells of an edge row; a column outside the cell state is blank. */
  function EdgeRowCells(st: EdgeState, x: EdgeStyles): (cell: nat -> seq<Span>)
    ensures forall c: nat :: |Text(cell(c))| == 2
  {
    TextPair(Span("  ", Default), Span("  ", Default));
    (c: nat) => if c < |st.cells| && Legal(st.cells[c]) then EdgeCell(st, x, c) else [Span("  ", Default)]
  }

  /** An edge row is two characters per column, column `col` at offset
      `2 * col`. */
  lemma EdgeRowText(st: EdgeState, x: EdgeStyles, w: nat, col: nat)
    requires w <= |st.cells| && AllLegal(st.cells) && col < w
    ensures |Text(Row(EdgeRowCells(st, x), w))| == 2 * w
    ensures Text(Row(EdgeRowCells(st, x), w))[2 * col..2 * col + 2] == Text(EdgeCell(st, x, col))
  {
    RowCellAt(EdgeRowCells(st, x), w, col);
  }

  /** A column of an edge row is blank exactly when its cell is empty. */
  lemma EdgeRowBlank(st: EdgeState, x: EdgeStyles, w: nat, col: nat)
    requires w <= |st.cells| && AllLegal(st.cells) && col < w
    ensures |Text(Row(EdgeRowCells(st, x), w))| == 2 * w
    ensures Text(Row(EdgeRowCells(st, x), w))[2 * col..2 * col + 2] == "  " <==> st.cells[col] == Empty
  {
    EdgeRowText(st, x, w, col);
  }

  /** `render_edge_row` on values: every active lane is drawn across the
      row, and so is the current node's lane when the next node is its
      child. */
  method EdgeRow(current: GraphNode, next: GraphNode, width: nat, active: seq<nat>,
                 colInBranch: map<nat, bool>, onAncestryPath: bool, sync: SyncStatus,
                 allNodes: seq<GraphNode>, notInCurrentBranch: bool)
    returns (spans: seq<Span>)
    requires EdgeRowFits(current, next, width, active)
    ensures |Text(spans)| == 2 * width
    ensures forall c :: c in active ==> Text(spans)[2 * c..2 * c + 2] != "  "
    ensures current.commit.id in next.commit.parents ==>
      Text(spans)[2 * current.column..2 * current.column + 2] != "  "
    ensures spans == Row(EdgeRowCells(EdgeCellState(current, next, width, active, allNodes),
                                      EdgeStyles(CommitStyle(sync, onAncestryPath, notInCurrentBranch), sync,
                                                 onAncestryPath, colInBranch, next.inCurrentBranch)), width)
  {
    var st := EdgeCells(current, next, width, active, allNodes);
    var x := EdgeStyles(CommitStyle(sync, onAncestryPath, notInCurrentBranch), sync, onAncestryPath,
                        colInBranch, next.inCurrentBranch);
    spans := EdgeSpans(st, x, width);
    RowLength(EdgeRowCells(st, x), width);
    forall c | c in active
      ensures Text(spans)[2 * c..2 * c + 2] != "  "
    {
      EdgeRowBlank(st, x, width, c);
    }
    if current.commit.id in next.commit.parents {
      EdgeRowBlank(st, x, width, current.column);
    }
  }

  /** The span loop of `render_edge_row`. */
  method EdgeSpans(st: EdgeState, x: EdgeStyles, width: nat) returns (spans: seq<Span>)
    requires width <= |st.cells| && AllLegal(st.cells)
    ensures spans == Row(EdgeRowCells(st, x), width)
  {
    var cell := EdgeRowCells(st, x);
    spans := [];
    for col := 0 to width
      invariant spans == Row(cell, col)
    {
      spans := spans + cell(col);
    }
  }

}
