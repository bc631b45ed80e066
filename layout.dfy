/** Lane assignment for the commit graph (`App::assign_columns`): the
    first-parent chain of the main branch is seeded into column 0, pass 1
    reuses lanes whose live set is empty, pass 2 measures each lane's row
    extent and moves lanes first-fit onto lower lanes they do not overlap,
    and finally every column is clamped below the graph width. */
module Layout {
  import opened Util
  import opened Graph

  type Columns = map<string, nat>
  type LiveSets = map<nat, set<string>>

  // ---------------------------------------------------------------------
  // Step 1: the main branch

  /** The first-parent chain from `start` through stored commits. */
  ghost function FirstParentChain(cs: Commits, rank: map<string, nat>, start: string): set<string>
    requires RankedByParents(cs, rank)
    decreases if start in cs then rank[start] + 1 else 0
  {
    if start !in cs then {}
    else if cs[start].parents == [] then {start}
    else
      var p := cs[start].parents[0];
      assert p in cs[start].parents;
      {start} + FirstParentChain(cs, rank, p)
  }

  /** The chain holds stored commits only, contains a stored start, and is
      closed under stored first parents. */
  lemma {:induction false} FirstParentChainClosed(cs: Commits, rank: map<string, nat>, start: string)
    requires RankedByParents(cs, rank)
    ensures start in cs <==> start in FirstParentChain(cs, rank, start)
    ensures forall x :: x in FirstParentChain(cs, rank, start) ==> x in cs
    ensures forall x :: x in FirstParentChain(cs, rank, start) && cs[x].parents != [] && cs[x].parents[0] in cs ==>
      cs[x].parents[0] in FirstParentChain(cs, rank, start)
    decreases if start in cs then rank[start] + 1 else 0
  {
    if start in cs && cs[start].parents != [] {
      var p := cs[start].parents[0];
      assert p in cs[start].parents;
      FirstParentChainClosed(cs, rank, p);
    }
  }

  /** Step 1 of `assign_columns`: follows first parents from the main tip,
      or from the newest commit when there is none, while they are stored.
      The ghost `rank` stands for the acyclic history the loop relies on. */
  method MainBranch(cs: Commits, sorted: seq<string>, mainTip: Option<string>, ghost rank: map<string, nat>)
    returns (main: set<string>)
    requires RankedByParents(cs, rank)
    ensures main == match ChainStart(sorted, mainTip)
      case None => {}
      case Some(s) => FirstParentChain(cs, rank, s)
  {
    main := {};
    var start := ChainStart(sorted, mainTip);
    if start.Some? {
      var current := start.value;
      while current in cs
        invariant main + FirstParentChain(cs, rank, current) == FirstParentChain(cs, rank, start.value)
        decreases if current in cs then rank[current] + 1 else 0
      {
        main := main + {current};
        if cs[current].parents != [] {
          assert cs[current].parents[0] in cs[current].parents;
          current := cs[current].parents[0];
        } else {
          break;
        }
      }
    }
  }

  /** `main_branch_commit.or_else(|| sorted_commits.first().cloned())` */
  function ChainStart(sorted: seq<string>, mainTip: Option<string>): (r: Option<string>)
    ensures r.None? <==> mainTip.None? && sorted == []
    ensures mainTip.Some? ==> r == mainTip
    ensures mainTip.None? && sorted != [] ==> r == Some(sorted[0])
  {
    if mainTip.Some? then mainTip
    else if sorted == [] then None
    else Some(sorted[0])
  }

  // ---------------------------------------------------------------------
  // Pass 1: greedy lane reuse

  /** The live set of a lane; a lane without an entry has none. */
  function LiveAt(live: LiveSets, lane: nat): set<string> {
    if lane in live then live[lane] else {}
  }

  /** `lane_live_commits.get(&lane).map(|s| s.is_empty()).unwrap_or(true)` */
  predicate LaneFree(live: LiveSets, lane: nat) {
    LiveAt(live, lane) == {}
  }

  /** `entry(col).or_insert_with(HashSet::new).insert(id)` */
  function AddLive(live: LiveSets, lane: nat, id: string): (r: LiveSets)
    ensures LiveAt(r, lane) == LiveAt(live, lane) + {id}
    ensures forall l :: l != lane ==> LiveAt(r, l) == LiveAt(live, l)
  {
    live[lane := LiveAt(live, lane) + {id}]
  }

  /** `if let Some(live) = lane_live_commits.get_mut(&col) { live.remove(id) }` */
  function RemoveLive(live: LiveSets, lane: nat, id: string): (r: LiveSets)
    ensures LiveAt(r, lane) == LiveAt(live, lane) - {id}
    ensures forall l :: l != lane ==> LiveAt(r, l) == LiveAt(live, l)
  {
    if lane in live then live[lane := live[lane] - {id}] else live
  }

  /** The outcome of the free-lane search: the lowest lane in
      `1..next` whose live set is empty, else `next`, which is then used up. */
  predicate FreshLane(live: LiveSets, next: nat, col: nat, next': nat) {
    1 <= col
    && (forall l :: 1 <= l < col ==> !LaneFree(live, l))
    && ((col < next && LaneFree(live, col) && next' == next)
        || (col == next && next' == next + 1))
  }

  /** The lane the search settles on, as a value: the first free lane from
      `from` below `next`, else `next`. */
  function FreeLane(live: LiveSets, from: nat, next: nat): nat
    decreases next - from
  {
    if from >= next then next else if LaneFree(live, from) then from else FreeLane(live, from + 1, next)
  }

  /** The outcome of the search is determined: it is FreeLane from lane 1. */
  lemma FreshLaneIsFreeLane(live: LiveSets, next: nat, col: nat, next': nat)
    requires next >= 1 && FreshLane(live, next, col, next')
    ensures col == FreeLane(live, 1, next)
    ensures next' == if col == next then next + 1 else next
  {
    FreeLaneFrom(live, 1, next, col);
  }

  lemma {:induction false} FreeLaneFrom(live: LiveSets, from: nat, next: nat, col: nat)
    requires 1 <= from <= col <= next
    requires forall l :: from <= l < col ==> !LaneFree(live, l)
    requires col == next || LaneFree(live, col)
    ensures FreeLane(live, from, next) == col
    decreases next - from
  {
    if from < col {
      FreeLaneFrom(live, from + 1, next, col);
    }
  }

  method FindFreeLane(live: LiveSets, next: nat) returns (col: nat, next': nat)
    requires next >= 1
    ensures FreshLane(live, next, col, next')
  {
    next' := next;
    for lane := 1 to next
      invariant forall l :: 1 <= l < lane ==> !LaneFree(live, l)
    {
      if LaneFree(live, lane) {
        col := lane;
        return;
      }
    }
    col := next;
    next' := next + 1;
  }

  /** Assignments already made are kept: `columns'` only adds ids. */
  ghost predicate AssignedKept(columns: Columns, columns': Columns) {
    forall k :: k in columns ==> k in columns' && columns'[k] == columns[k]
  }

  /** Every assigned lane lies below the next fresh lane. */
  ghost predicate Below(columns: Columns, next: nat) {
    forall k :: k in columns ==> columns[k] < next
  }

  /** The column of the current commit: its assignment if it has one, else a
      fresh lane; the commit joins that lane's live set either way. */
  method PlaceCommit(id: string, columns: Columns, live: LiveSets, next: nat)
    returns (col: nat, columns': Columns, live': LiveSets, next': nat)
    requires next >= 1
    ensures id in columns ==> col == columns[id] && columns' == columns && next' == next
    ensures id !in columns ==> FreshLane(live, next, col, next') && columns' == columns[id := col]
    ensures live' == AddLive(live, col, id)
    ensures (col, columns', live', next') == PlaceTurn(id, columns, live, next)
  {
    if id in columns {
      col, columns', next' := columns[id], columns, next;
    } else {
      col, next' := FindFreeLane(live, next);
      FreshLaneIsFreeLane(live, next, col, next');
      columns' := columns[id := col];
    }
    live' := AddLive(live, col, id);
  }

  /** One later parent of a merge: an assigned parent keeps its lane; any
      other gets the free lane and is put on its live set as a placeholder. */
  function PlaceSource(p: string, columns: Columns, live: LiveSets, next: nat): (Columns, LiveSets, nat) {
    if p in columns then (columns, live, next)
    else
      var col := FreeLane(live, 1, next);
      (columns[p := col], AddLive(live, col, p), if col == next then next + 1 else next)
  }

  /** The lane state after placing the parents `ps` one after the other. */
  function SourcesPlaced(ps: seq<string>, columns: Columns, live: LiveSets, next: nat): (Columns, LiveSets, nat) {
    if ps == [] then (columns, live, next)
    else
      var st := SourcesPlaced(ps[..|ps| - 1], columns, live, next);
      PlaceSource(ps[|ps| - 1], st.0, st.1, st.2)
  }

  /** The second and later parents of a merge commit, in order: each one
      keeps its lane or is given a fresh lane, on whose live set it is put
      as a placeholder, and contributes one `MergeFrom`. */
  method MergeSources(ps: seq<string>, columns: Columns, live: LiveSets, next: nat)
    returns (conns: seq<Connection>, columns': Columns, live': LiveSets, next': nat)
    requires next >= 1 && Below(columns, next)
    ensures AssignedKept(columns, columns') && Below(columns', next') && next <= next'
    ensures forall k :: k in columns' ==> k in columns || k in ps
    ensures forall k :: k in columns' && k !in columns ==> columns'[k] >= 1
    ensures |conns| == |ps|
    ensures forall k :: 0 <= k < |ps| ==> ps[k] in columns' && conns[k] == MergeFrom(columns'[ps[k]])
    ensures forall l, x :: x in LiveAt(live', l) ==> x in LiveAt(live, l) || x in ps
    ensures (columns', live', next') == SourcesPlaced(ps, columns, live, next)
  {
    conns, columns', live', next' := [], columns, live, next;
    for j := 0 to |ps|
      invariant AssignedKept(columns, columns') && Below(columns', next') && next <= next'
      invariant forall k :: k in columns' ==> k in columns || k in ps[..j]
      invariant forall k :: k in columns' && k !in columns ==> columns'[k] >= 1
      invariant |conns| == j
      invariant forall k :: 0 <= k < j ==> ps[k] in columns' && conns[k] == MergeFrom(columns'[ps[k]])
      invariant forall l, x :: x in LiveAt(live', l) ==> x in LiveAt(live, l) || x in ps[..j]
      invariant (columns', live', next') == SourcesPlaced(ps[..j], columns, live, next)
    {
      conns, columns', live', next' := PlaceNext(ps, j, columns, live, next, conns, columns', live', next');
    }
    assert ps[..|ps|] == ps;
  }

  /** The turn of MergeSources for `ps[j]`. */
  method PlaceNext(ps: seq<string>, j: nat, ghost columns: Columns, ghost live: LiveSets, ghost next: nat,
                   conns: seq<Connection>, cols: Columns, lv: LiveSets, nx: nat)
    returns (conns': seq<Connection>, cols': Columns, lv': LiveSets, nx': nat)
    requires j < |ps| && next >= 1
    requires AssignedKept(columns, cols) && Below(cols, nx) && next <= nx
    requires forall k :: k in cols ==> k in columns || k in ps[..j]
    requires forall k :: k in cols && k !in columns ==> cols[k] >= 1
    requires |conns| == j
    requires forall k :: 0 <= k < j ==> ps[k] in cols && conns[k] == MergeFrom(cols[ps[k]])
    requires forall l, x :: x in LiveAt(lv, l) ==> x in LiveAt(live, l) || x in ps[..j]
    requires (cols, lv, nx) == SourcesPlaced(ps[..j], columns, live, next)
    ensures AssignedKept(columns, cols') && Below(cols', nx') && next <= nx'
    ensures forall k :: k in cols' ==> k in columns || k in ps[..j + 1]
    ensures forall k :: k in cols' && k !in columns ==> cols'[k] >= 1
    ensures |conns'| == j + 1
    ensures forall k :: 0 <= k < j + 1 ==> ps[k] in cols' && conns'[k] == MergeFrom(cols'[ps[k]])
    ensures forall l, x :: x in LiveAt(lv', l) ==> x in LiveAt(live, l) || x in ps[..j + 1]
    ensures (cols', lv', nx') == SourcesPlaced(ps[..j + 1], columns, live, next)
  {
    var p := ps[j];
    PrefixStep(ps, j);
    assert ps[..j + 1][..j] == ps[..j];
    var col;
    col, cols', lv', nx' := PlaceSourceStep(p, cols, lv, nx);
    conns' := conns + [MergeFrom(col)];
  }

  /** Placing one later parent `p`: the lane it ends in and the lane state
      after, which is `PlaceSource`. */
  method PlaceSourceStep(p: string, cols: Columns, lv: LiveSets, nx: nat)
    returns (col: nat, cols': Columns, lv': LiveSets, nx': nat)
    requires nx >= 1 && Below(cols, nx)
    ensures (cols', lv', nx') == PlaceSource(p, cols, lv, nx)
    ensures p in cols' && col == cols'[p] && (p !in cols ==> col >= 1)
    ensures AssignedKept(cols, cols') && Below(cols', nx') && nx <= nx'
    ensures forall k :: k in cols' ==> k in cols || k == p
    ensures forall l, x :: x in LiveAt(lv', l) ==> x in LiveAt(lv, l) || x == p
  {
    if p in cols {
      col, cols', lv', nx' := cols[p], cols, lv, nx;
    } else {
      col, nx' := FindFreeLane(lv, nx);
      FreshLaneIsFreeLane(lv, nx, col, nx');
      cols' := cols[p := col];
      lv' := AddLive(lv, col, p);
    }
  }

  /** The connections of the commit `id` placed in `col`, and the live-set
      update: a root or a merge leaves its lane's live set at once, a
      single-parent commit only when its parent came earlier in the order. */
  method ConnectParents(id: string, col: nat, parents: seq<string>, earlier: seq<string>,
                        columns: Columns, live: LiveSets, next: nat)
    returns (conns: seq<Connection>, columns': Columns, live': LiveSets, next': nat)
    requires next >= 1 && col < next && Below(columns, next)
    ensures AssignedKept(columns, columns') && Below(columns', next') && next <= next'
    ensures forall k :: k in columns' && k !in columns ==> columns'[k] == col || columns'[k] >= 1
    ensures parents == [] ==>
      conns == [] && columns' == columns && next' == next && live' == RemoveLive(live, col, id)
    ensures |parents| == 1 ==>
      && conns == [if parents[0] in columns && columns[parents[0]] != col then BranchTo(columns[parents[0]]) else Vertical]
      && columns' == (if parents[0] in columns then columns else columns[parents[0] := col])
      && next' == next
      && live' == (if parents[0] in earlier then RemoveLive(live, col, id) else live)
    ensures |parents| > 1 ==>
      && parents[0] in columns'
      && (parents[0] !in columns ==> columns'[parents[0]] == col)
      && |conns| == |parents| - 1
      && (forall k :: 1 <= k < |parents| ==> parents[k] in columns' && conns[k - 1] == MergeFrom(columns'[parents[k]]))
      && var placed := SourcesPlaced(parents[1..], if parents[0] in columns then columns else columns[parents[0] := col], live, next);
         columns' == placed.0 && live' == RemoveLive(placed.1, col, id) && next' == placed.2
    ensures (columns', live', next') == ConnectTurn(id, col, parents, earlier, columns, live, next)
  {
    if parents == [] {
      conns, columns', next' := [], columns, next;
      live' := RemoveLive(live, col, id);
    } else if |parents| == 1 {
      var p := parents[0];
      next' := next;
      if p in columns {
        conns := [if columns[p] != col then BranchTo(columns[p]) else Vertical];
        columns' := columns;
      } else {
        conns := [Vertical];
        columns' := columns[p := col];
      }
      live' := if p in earlier then RemoveLive(live, col, id) else live;
    } else {
      var first := parents[0];
      var seeded := if first in columns then columns else columns[first := col];
      conns, columns', live', next' := MergeSources(parents[1..], seeded, live, next);
      assert forall k :: 1 <= k < |parents| ==> parents[k] == parents[1..][k - 1];
      live' := RemoveLive(live', col, id);
    }
  }

  /** The connections of a node, as they stand once its parents have lanes:
      nothing for a root; for one parent, `BranchTo` the parent's lane when
      it differs, else `Vertical`; for a merge, one `MergeFrom` per later
      parent in parent order, the first parent having a lane. */
  ghost predicate Wired(n: GraphNode, columns: Columns) {
    var ps := n.commit.parents;
    (ps == [] ==> n.connections == [])
    && (|ps| == 1 ==>
          ps[0] in columns
          && n.connections == [if columns[ps[0]] != n.column then BranchTo(columns[ps[0]]) else Vertical])
    && (|ps| > 1 ==>
          ps[0] in columns && |n.connections| == |ps| - 1
          && forall k :: 1 <= k < |ps| ==> ps[k] in columns && n.connections[k - 1] == MergeFrom(columns[ps[k]]))
  }

  lemma WiredKept(n: GraphNode, columns: Columns, columns': Columns)
    requires Wired(n, columns) && AssignedKept(columns, columns')
    ensures Wired(n, columns')
  {
    var ps := n.commit.parents;
    if |ps| > 1 {
      forall k | 1 <= k < |ps| ensures ps[k] in columns' && n.connections[k - 1] == MergeFrom(columns'[ps[k]]) {
        assert ps[k] in columns;
      }
    }
  }

  /** The ids of `sorted` that are stored, in order: the ids of the nodes
      that `assign_columns` emits. */
  function StoredIds(cs: Commits, sorted: seq<string>): (r: seq<string>)
    ensures forall x :: x in r <==> x in sorted && x in cs
    ensures |r| <= |sorted|
  {
    if sorted == [] then []
    else
      var last := sorted[|sorted| - 1];
      var init := StoredIds(cs, sorted[..|sorted| - 1]);
      assert forall x :: x in sorted <==> x in sorted[..|sorted| - 1] || x == last;
      if last in cs then init + [last] else init
  }

  function NodeIds(nodes: seq<GraphNode>): (r: seq<string>)
    ensures |r| == |nodes| && forall i :: 0 <= i < |nodes| ==> r[i] == nodes[i].commit.id
  {
    seq(|nodes|, i requires 0 <= i < |nodes| => nodes[i].commit.id)
  }

  /** What pass 1 promises about the nodes built so far, judged by the
      final lane assignment. */
  ghost predicate NodesOk(cs: Commits, notInBranch: set<string>, nodes: seq<GraphNode>, columns: Columns, next: nat) {
    forall i :: 0 <= i < |nodes| ==>
      var n := nodes[i];
      && n.commit.id in cs && n.commit == cs[n.commit.id]
      && n.inCurrentBranch == (n.commit.id !in notInBranch)
      && n.commit.id in columns && n.column == columns[n.commit.id]
      && n.column < next
      && Wired(n, columns)
  }

  lemma NodesOkKept(cs: Commits, notInBranch: set<string>, nodes: seq<GraphNode>,
                    columns: Columns, next: nat, columns': Columns, next': nat)
    requires NodesOk(cs, notInBranch, nodes, columns, next)
    requires AssignedKept(columns, columns') && next <= next'
    ensures NodesOk(cs, notInBranch, nodes, columns', next')
  {
    forall i | 0 <= i < |nodes| ensures Wired(nodes[i], columns') {
      WiredKept(nodes[i], columns, columns');
    }
  }

  /** Where the commit `id` goes and the lane state after: its assigned
      lane if it has one, else the first free lane from 1 below `next`, or
      `next`, which is then used up; either way it joins that lane's live
      set. The result is (lane, lane map, live sets, next fresh lane). */
  function PlaceTurn(id: string, columns: Columns, live: LiveSets, next: nat): (nat, Columns, LiveSets, nat) {
    if id in columns then (columns[id], columns, AddLive(live, columns[id], id), next)
    else
      var col := FreeLane(live, 1, next);
      (col, columns[id := col], AddLive(live, col, id), if col == next then next + 1 else next)
  }

  /** A commit that needs a lane takes the lowest lane in `1..next` whose
      live set is empty, and a fresh lane only when there is none. */
  lemma PlaceTurnGreedy(id: string, columns: Columns, live: LiveSets, next: nat)
    requires next >= 1 && id !in columns
    ensures var t := PlaceTurn(id, columns, live, next);
      FreshLane(live, next, t.0, t.3) && t.1 == columns[id := t.0] && LiveAt(t.2, t.0) == LiveAt(live, t.0) + {id}
  {
    FreeLaneIsFresh(live, 1, next);
  }

  /** Searching from `from`, past lanes that are all taken, ends where the
      source's search ends: the first free lane, else a fresh one. */
  lemma {:induction false} FreeLaneIsFresh(live: LiveSets, from: nat, next: nat)
    requires 1 <= from <= next
    requires forall l :: 1 <= l < from ==> !LaneFree(live, l)
    ensures var col := FreeLane(live, from, next);
      FreshLane(live, next, col, if col == next then next + 1 else next)
    decreases next - from
  {
    if from < next && !LaneFree(live, from) {
      FreeLaneIsFresh(live, from + 1, next);
    }
  }

  /** The lane state after wiring the commit `id`, placed in `col`, to its
      parents: a root leaves its lane's live set; a single parent without a
      lane inherits `col`, and the commit leaves the live set only when that
      parent came earlier in the order; a merge gives its first parent `col`
      if it has no lane, places the later parents, and leaves the live set. */
  function ConnectTurn(id: string, col: nat, parents: seq<string>, earlier: seq<string>,
                       columns: Columns, live: LiveSets, next: nat): (Columns, LiveSets, nat)
  {
    if parents == [] then (columns, RemoveLive(live, col, id), next)
    else if |parents| == 1 then
      (if parents[0] in columns then columns else columns[parents[0] := col],
       if parents[0] in earlier then RemoveLive(live, col, id) else live,
       next)
    else
      var seeded := if parents[0] in columns then columns else columns[parents[0] := col];
      var placed := SourcesPlaced(parents[1..], seeded, live, next);
      (placed.0, RemoveLive(placed.1, col, id), placed.2)
  }

  /** One turn of pass 1 for the commit `c` at row `idx`: (its lane, lane
      map, live sets, next fresh lane). */
  function Turn(c: Commit, sorted: seq<string>, idx: nat, columns: Columns, live: LiveSets, next: nat)
    : (nat, Columns, LiveSets, nat)
    requires idx <= |sorted|
  {
    var placed := PlaceTurn(c.id, columns, live, next);
    var wired := ConnectTurn(c.id, placed.0, c.parents, sorted[..idx], placed.1, placed.2, placed.3);
    (placed.0, wired.0, wired.1, wired.2)
  }

  /** Pass 1 over the first `n` ids of the order: (lane map, live sets, next
      fresh lane), starting from the seeds, lane 0 with no live commit, and
      next lane 1; ids without a stored commit are skipped. */
  function PassOne(cs: Commits, sorted: seq<string>, seeds: Columns, n: nat): (Columns, LiveSets, nat)
    requires n <= |sorted|
  {
    if n == 0 then (seeds, map[0 := {}], 1)
    else
      var st := PassOne(cs, sorted, seeds, n - 1);
      var id := sorted[n - 1];
      if id in cs then
        var t := Turn(cs[id], sorted, n - 1, st.0, st.1, st.2);
        (t.1, t.2, t.3)
      else st
  }

  /** Pushing the node of the next stored id keeps the pass-1 node facts
      and the node order, under the lane map after its turn. */
  lemma NodesPush(cs: Commits, sorted: seq<string>, idx: nat, notInBranch: set<string>, nodes: seq<GraphNode>,
                  columns: Columns, next: nat, node: GraphNode, columns': Columns, next': nat)
    requires idx < |sorted| && sorted[idx] in cs && node.commit == cs[sorted[idx]] && Valid(cs)
    requires NodeIds(nodes) == StoredIds(cs, sorted[..idx])
    requires NodesOk(cs, notInBranch, nodes, columns, next)
    requires AssignedKept(columns, columns') && next <= next'
    requires node.inCurrentBranch == (node.commit.id !in notInBranch)
    requires node.commit.id in columns' && node.column == columns'[node.commit.id] && node.column < next'
    requires Wired(node, columns')
    ensures NodeIds(nodes + [node]) == StoredIds(cs, sorted[..idx + 1])
    ensures NodesOk(cs, notInBranch, nodes + [node], columns', next')
  {
    PrefixStep(sorted, idx);
    assert sorted[..idx + 1][..idx] == sorted[..idx];
    NodesOkKept(cs, notInBranch, nodes, columns, next, columns', next');
    assert NodeIds(nodes + [node]) == NodeIds(nodes) + [node.commit.id];
  }

  /** Pass 1 over one more id: its commit's turn, or nothing when it has no
      stored commit. */
  lemma PassOneStep(cs: Commits, sorted: seq<string>, seeds: Columns, n: nat, t: (nat, Columns, LiveSets, nat))
    requires n < |sorted|
    requires var st := PassOne(cs, sorted, seeds, n);
      sorted[n] in cs ==> t == Turn(cs[sorted[n]], sorted, n, st.0, st.1, st.2)
    ensures PassOne(cs, sorted, seeds, n + 1) ==
      if sorted[n] in cs then (t.1, t.2, t.3) else PassOne(cs, sorted, seeds, n)
  {
  }

  /** One turn of pass 1 for the stored commit `c` at row `idx`. */
  method ProcessCommit(c: Commit, sorted: seq<string>, idx: nat, notInBranch: set<string>,
                       columns: Columns, live: LiveSets, next: nat)
    returns (node: GraphNode, columns': Columns, live': LiveSets, next': nat)
    requires idx <= |sorted| && next >= 1 && Below(columns, next)
    ensures AssignedKept(columns, columns') && Below(columns', next') && next <= next'
    ensures node.commit == c && node.inCurrentBranch == (c.id !in notInBranch)
    ensures c.id in columns' && node.column == columns'[c.id]
    ensures c.id !in columns ==> node.column >= 1
    ensures Wired(node, columns')
    ensures node.column == if c.id in columns then columns[c.id] else FreeLane(live, 1, next)
    ensures (node.column, columns', live', next') == Turn(c, sorted, idx, columns, live, next)
  {
    var col, cols1, live1, next1 := PlaceCommit(c.id, columns, live, next);
    var conns;
    conns, columns', live', next' := ConnectParents(c.id, col, c.parents, sorted[..idx], cols1, live1, next1);
    node := GraphNode(c, col, conns, c.id !in notInBranch);
  }

  /** Pass 1 over the newest-first order, starting from the main-branch
      seeds in lane 0. */
  method FirstPass(cs: Commits, sorted: seq<string>, seeds: Columns, notInBranch: set<string>)
    returns (nodes: seq<GraphNode>, columns: Columns, next: nat, ghost live: LiveSets)
    requires Valid(cs) && Below(seeds, 1)
    ensures NodeIds(nodes) == StoredIds(cs, sorted)
    ensures AssignedKept(seeds, columns) && Below(columns, next) && next >= 1
    ensures NodesOk(cs, notInBranch, nodes, columns, next)
    ensures (columns, live, next) == PassOne(cs, sorted, seeds, |sorted|)
  {
    nodes, columns, next := [], seeds, 1;
    var liveSets: LiveSets := map[0 := {}];
    for idx := 0 to |sorted|
      invariant NodeIds(nodes) == StoredIds(cs, sorted[..idx])
      invariant AssignedKept(seeds, columns) && Below(columns, next) && next >= 1
      invariant NodesOk(cs, notInBranch, nodes, columns, next)
      invariant (columns, liveSets, next) == PassOne(cs, sorted, seeds, idx)
    {
      PrefixStep(sorted, idx);
      var id := sorted[idx];
      if id in cs {
        var c := cs[id];
        var node;
        ghost var before, nextBefore := columns, next;
        node, columns, liveSets, next := ProcessCommit(c, sorted, idx, notInBranch, columns, liveSets, next);
        PassOneStep(cs, sorted, seeds, idx, (node.column, columns, liveSets, next));
        NodesPush(cs, sorted, idx, notInBranch, nodes, before, nextBefore, node, columns, next);
        nodes := nodes + [node];
      } else {
        PassOneStep(cs, sorted, seeds, idx, (0, columns, liveSets, next));
      }
    }
    assert sorted[..|sorted|] == sorted;
    live := liveSets;
  }

  /** Stored commits are keyed by their own id. */
  ghost predicate Valid(cs: Commits) {
    forall k :: k in cs ==> cs[k].id == k
  }

  // ---------------------------------------------------------------------
  // Pass 2: lane extents and compaction

  /** A lane's half-open row range `[start, end)`. */
  type Extent = (nat, nat)
  type Extents = map<nat, Extent>

  /** Every extent of `ext` is also in `ext'`, at least as wide. */
  ghost predicate Wider(ext: Extents, ext': Extents) {
    forall l :: l in ext ==> l in ext' && ext'[l].0 <= ext[l].0 && ext[l].1 <= ext'[l].1
  }

  /** Extents are well formed ranges inside the rows. */
  ghost predicate ExtentsIn(ext: Extents, rows: nat) {
    forall l :: l in ext ==> ext[l].0 <= ext[l].1 <= rows
  }

  function Max(a: nat, b: nat): nat {
    if a < b then b else a
  }

  function Min(a: nat, b: nat): nat {
    if a < b then a else b
  }

  /** The row of the furthest parent of the commit at row `idx`, or `idx`
      when none of its parents appears in the order. */
  function FurthestRow(sorted: seq<string>, idx: nat, parents: seq<string>): (m: nat)
    requires idx < |sorted|
    ensures idx <= m < |sorted|
    ensures forall p :: p in parents && p in sorted ==> IndexOf(sorted, p).value <= m
    ensures m == idx || exists p :: p in parents && IndexOf(sorted, p) == Some(m)
  {
    if parents == [] then idx
    else
      var init := parents[..|parents| - 1];
      var p := parents[|parents| - 1];
      var m := FurthestRow(sorted, idx, init);
      assert forall q :: q in parents <==> q in init || q == p;
      match IndexOf(sorted, p)
      case Some(pi) => Max(m, pi)
      case None => m
  }

  /** `max_parent_idx`, computed by the loop over the parents. */
  method FurthestParent(sorted: seq<string>, idx: nat, parents: seq<string>) returns (m: nat)
    requires idx < |sorted|
    ensures m == FurthestRow(sorted, idx, parents)
  {
    m := idx;
    for j := 0 to |parents|
      invariant m == FurthestRow(sorted, idx, parents[..j])
    {
      PrefixStep(parents, j);
      assert parents[..j + 1][..j] == parents[..j];
      match IndexOf(sorted, parents[j]) {
        case Some(pi) =>
          if pi > m {
            m := pi;
          }
        case None =>
      }
    }
    assert parents[..|parents|] == parents;
  }

  /** The lanes in which a merge in lane `col` starts branch lines: the
      lanes of its assigned parents other than `col`. */
  function MergeLanes(parents: seq<string>, columns: Columns, col: nat): set<nat> {
    set p | p in parents && p in columns && columns[p] != col :: columns[p]
  }

  /** Every lane of `lanes` has its extent start moved up to `row`, or gets
      the extent `(row, row)`; other extents are unchanged. */
  function BranchLines(ext: Extents, lanes: set<nat>, row: nat): Extents {
    map l | l in ext.Keys + lanes ::
      if l !in lanes then ext[l]
      else if l in ext then (Min(row, ext[l].0), ext[l].1)
      else (row, row)
  }

  /** Branch lines add the lanes, only widen, and start by `row`. */
  lemma BranchLinesWiden(ext: Extents, lanes: set<nat>, row: nat)
    ensures var r := BranchLines(ext, lanes, row);
      r.Keys == ext.Keys + lanes && Wider(ext, r) && forall l :: l in lanes ==> r[l].0 <= row
  {
  }

  /** The branch lines a merge at row `idx` in lane `col` draws in its
      parents' other lanes start on the edge row below it. */
  method MergeExtents(idx: nat, col: nat, parents: seq<string>, columns: Columns, ext: Extents)
    returns (ext': Extents)
    ensures ext' == BranchLines(ext, MergeLanes(parents, columns, col), idx + 1)
  {
    ext' := ext;
    for j := 0 to |parents|
      invariant ext' == BranchLines(ext, MergeLanes(parents[..j], columns, col), idx + 1)
    {
      ext' := MergeTurn(idx, col, parents, j, columns, ext, ext');
    }
    assert parents[..|parents|] == parents;
  }

  /** The turn of MergeExtents for `parents[j]`. */
  method MergeTurn(idx: nat, col: nat, parents: seq<string>, j: nat, columns: Columns, ext: Extents,
                   cur: Extents)
    returns (cur': Extents)
    requires j < |parents|
    requires cur == BranchLines(ext, MergeLanes(parents[..j], columns, col), idx + 1)
    ensures cur' == BranchLines(ext, MergeLanes(parents[..j + 1], columns, col), idx + 1)
  {
    PrefixStep(parents, j);
    var p := parents[j];
    ghost var before := MergeLanes(parents[..j], columns, col);
    ghost var after := MergeLanes(parents[..j + 1], columns, col);
    assert forall q :: q in parents[..j + 1] <==> q in parents[..j] || q == p;
    if p in columns && columns[p] != col {
      var pc := columns[p];
      assert after == before + {pc};
      BranchLinesAdd(ext, before, idx + 1, pc);
      if pc in cur {
        var e := cur[pc];
        cur' := cur[pc := (if idx + 1 < e.0 then idx + 1 else e.0, e.1)];
      } else {
        cur' := cur[pc := (idx + 1, idx + 1)];
      }
    } else {
      assert after == before;
      cur' := cur;
    }
  }

  lemma BranchLinesIn(ext: Extents, lanes: set<nat>, row: nat, rows: nat)
    requires ExtentsIn(ext, rows) && row <= rows
    ensures ExtentsIn(BranchLines(ext, lanes, row), rows)
  {
  }

  /** Adding one lane to the branch lines updates that lane's entry alone. */
  lemma BranchLinesAdd(ext: Extents, lanes: set<nat>, row: nat, pc: nat)
    ensures var a := BranchLines(ext, lanes, row);
      BranchLines(ext, lanes + {pc}, row) == a[pc := if pc in a then (Min(row, a[pc].0), a[pc].1) else (row, row)]
  {
    var a := BranchLines(ext, lanes, row);
    var b := BranchLines(ext, lanes + {pc}, row);
    var c := a[pc := if pc in a then (Min(row, a[pc].0), a[pc].1) else (row, row)];
    assert b.Keys == c.Keys;
    forall l | l in b ensures b[l] == c[l] {
      if l != pc {
        assert l in lanes + {pc} <==> l in lanes;
      }
    }
  }

  /** `entry(col).and_modify(|e| { e.0 = e.0.min(start); e.1 = e.1.max(end) }).or_insert((start, end))` */
  function WidenLane(ext: Extents, col: nat, start: nat, end: nat): Extents {
    ext[col := if col in ext then (Min(start, ext[col].0), Max(end, ext[col].1)) else (start, end)]
  }

  /** Widening adds the lane, changes no other lane, and makes the lane's
      extent contain `start..end`; inside the rows it stays inside them. */
  lemma WidenLaneWiden(ext: Extents, col: nat, start: nat, end: nat, rows: nat)
    ensures var r := WidenLane(ext, col, start, end);
      r.Keys == ext.Keys + {col} && Wider(ext, r) && r[col].0 <= start && end <= r[col].1
      && (forall l :: l in ext && l != col ==> r[l] == ext[l])
      && (ExtentsIn(ext, rows) && start <= end <= rows ==> ExtentsIn(r, rows))
  {
  }

  /** The extent map after the loop body for row `idx`: the commit's lane
      widened to its row and the edge row after its furthest parent, then,
      for a merge, the branch-line starts in its parents' other lanes. */
  function RowExtents(cs: Commits, sorted: seq<string>, columns: Columns, ext: Extents, idx: nat): Extents
    requires idx < |sorted|
  {
    var id := sorted[idx];
    if id in columns && id in cs then
      LaneRow(ext, columns[id], idx, FurthestRow(sorted, idx, cs[id].parents), cs[id].parents, columns)
    else ext
  }

  /** The update for a commit in lane `col` at row `idx` whose furthest
      parent is at row `m`. */
  function LaneRow(ext: Extents, col: nat, idx: nat, m: nat, parents: seq<string>, columns: Columns): Extents {
    var widened := WidenLane(ext, col, idx, m + 1);
    if |parents| > 1 then BranchLines(widened, MergeLanes(parents, columns, col), idx + 1) else widened
  }

  /** The extent map once rows `0..i` are visited. */
  function ExtentsUpTo(cs: Commits, sorted: seq<string>, columns: Columns, i: nat): Extents
    requires i <= |sorted|
  {
    if i == 0 then map[] else RowExtents(cs, sorted, columns, ExtentsUpTo(cs, sorted, columns, i - 1), i - 1)
  }

  /** What the extent map covers after rows `0..i`: each placed stored
      commit's row and the rows out to its furthest parent, in its own lane;
      and for a merge, the rows below it in its parents' other lanes. */
  ghost predicate Covers(cs: Commits, sorted: seq<string>, columns: Columns, ext: Extents, i: nat)
    requires i <= |sorted|
  {
    (forall r :: 0 <= r < i && sorted[r] in columns && sorted[r] in cs ==>
      columns[sorted[r]] in ext && ext[columns[sorted[r]]].0 <= r < ext[columns[sorted[r]]].1)
    && (forall r, p :: 0 <= r < i && sorted[r] in columns && sorted[r] in cs && p in cs[sorted[r]].parents && p in sorted ==>
      IndexOf(sorted, p).value < ext[columns[sorted[r]]].1)
    && (forall r, p ::
          (0 <= r < i && sorted[r] in columns && sorted[r] in cs && |cs[sorted[r]].parents| > 1
           && p in cs[sorted[r]].parents && p in columns && columns[p] != columns[sorted[r]]) ==>
          columns[p] in ext && ext[columns[p]].0 <= r + 1)
  }

  lemma CoversWider(cs: Commits, sorted: seq<string>, columns: Columns, ext: Extents, ext': Extents, i: nat)
    requires i <= |sorted| && Covers(cs, sorted, columns, ext, i) && Wider(ext, ext')
    ensures Covers(cs, sorted, columns, ext', i)
  {
  }

  /** What row `idx` adds to the extent map: the row and the rows out
      to the furthest parent in the commit's lane; for a merge, the rows from
      the one below in its parents' other lanes. */
  ghost predicate RowCovered(cs: Commits, sorted: seq<string>, columns: Columns, ext: Extents, idx: nat)
    requires idx < |sorted|
  {
    var id := sorted[idx];
    id in columns && id in cs ==>
      var col := columns[id];
      && col in ext && ext[col].0 <= idx < ext[col].1
      && (forall p :: p in cs[id].parents && p in sorted ==> IndexOf(sorted, p).value < ext[col].1)
      && (|cs[id].parents| > 1 ==>
            forall p :: p in cs[id].parents && p in columns && columns[p] != col ==>
              columns[p] in ext && ext[columns[p]].0 <= idx + 1)
  }

  lemma CoversStep(cs: Commits, sorted: seq<string>, columns: Columns, ext: Extents, ext': Extents, idx: nat)
    requires idx < |sorted| && Covers(cs, sorted, columns, ext, idx) && Wider(ext, ext')
    requires RowCovered(cs, sorted, columns, ext', idx)
    ensures Covers(cs, sorted, columns, ext', idx + 1)
  {
    CoversWider(cs, sorted, columns, ext, ext', idx);
  }

  /** One row of the extent loop. */
  method ExtendRow(cs: Commits, sorted: seq<string>, columns: Columns, ext: Extents, idx: nat) returns (ext': Extents)
    requires idx < |sorted|
    ensures ext' == RowExtents(cs, sorted, columns, ext, idx)
  {
    ext' := ext;
    var id := sorted[idx];
    if id in columns && id in cs {
      var col := columns[id];
      var parents := cs[id].parents;
      var m := FurthestParent(sorted, idx, parents);
      ext' := WidenLane(ext', col, idx, m + 1);
      if |parents| > 1 {
        ext' := MergeExtents(idx, col, parents, columns, ext');
      }
    }
  }

  /** Row `idx`'s update keeps the extents inside the rows and on assigned
      lanes, only widens them, and covers the row. */
  lemma RowExtentsCover(cs: Commits, sorted: seq<string>, columns: Columns, ext: Extents, idx: nat)
    requires idx < |sorted| && ExtentsIn(ext, |sorted|) && ext.Keys <= columns.Values
    ensures var ext' := RowExtents(cs, sorted, columns, ext, idx);
      ExtentsIn(ext', |sorted|) && ext'.Keys <= columns.Values && Wider(ext, ext')
      && RowCovered(cs, sorted, columns, ext', idx)
  {
    var id := sorted[idx];
    if id in columns && id in cs {
      var col := columns[id];
      var parents := cs[id].parents;
      assert col in columns.Values;
      LaneRowCover(ext, col, idx, FurthestRow(sorted, idx, parents), parents, columns, |sorted|);
    }
  }

  lemma LaneRowCover(ext: Extents, col: nat, idx: nat, m: nat, parents: seq<string>, columns: Columns, rows: nat)
    requires idx <= m < rows && ExtentsIn(ext, rows) && ext.Keys <= columns.Values && col in columns.Values
    ensures var r := LaneRow(ext, col, idx, m, parents, columns);
      ExtentsIn(r, rows) && r.Keys <= columns.Values && Wider(ext, r)
      && col in r && r[col].0 <= idx && m < r[col].1
      && (|parents| > 1 ==>
            forall p :: p in parents && p in columns && columns[p] != col ==> columns[p] in r && r[columns[p]].0 <= idx + 1)
  {
    WidenLaneWiden(ext, col, idx, m + 1, rows);
    var mid := WidenLane(ext, col, idx, m + 1);
    if |parents| > 1 {
      MergeLinesCover(parents, columns, col, mid, idx, rows);
    }
  }

  /** The branch lines of a merge stay inside the rows and on assigned lanes,
      and start by the edge row below it in every other parent lane. */
  lemma MergeLinesCover(parents: seq<string>, columns: Columns, col: nat, ext: Extents, idx: nat, rows: nat)
    requires idx < rows && ExtentsIn(ext, rows) && ext.Keys <= columns.Values
    ensures var r := BranchLines(ext, MergeLanes(parents, columns, col), idx + 1);
      ExtentsIn(r, rows) && r.Keys <= columns.Values && Wider(ext, r)
      && forall p :: p in parents && p in columns && columns[p] != col ==> columns[p] in r && r[columns[p]].0 <= idx + 1
  {
    var lanes := MergeLanes(parents, columns, col);
    BranchLinesIn(ext, lanes, idx + 1, rows);
    BranchLinesWiden(ext, lanes, idx + 1);
    forall l | l in lanes ensures l in columns.Values {
      var p :| p in parents && p in columns && columns[p] != col && columns[p] == l;
    }
    forall p | p in parents && p in columns && columns[p] != col ensures columns[p] in lanes {
    }
  }

  /** The extent map of pass 2. */
  method BuildExtents(cs: Commits, sorted: seq<string>, columns: Columns) returns (ext: Extents)
    ensures ext == ExtentsUpTo(cs, sorted, columns, |sorted|)
    ensures ExtentsIn(ext, |sorted|)
    ensures ext.Keys <= columns.Values
    ensures Covers(cs, sorted, columns, ext, |sorted|)
  {
    ext := map[];
    for idx := 0 to |sorted|
      invariant ext == ExtentsUpTo(cs, sorted, columns, idx)
      invariant ExtentsIn(ext, |sorted|)
      invariant ext.Keys <= columns.Values
      invariant Covers(cs, sorted, columns, ext, idx)
    {
      ghost var before := ext;
      RowExtentsCover(cs, sorted, columns, ext, idx);
      ext := ExtendRow(cs, sorted, columns, ext, idx);
      CoversStep(cs, sorted, columns, before, ext, idx);
    }
  }

  /** `src_end <= cand_start || cand_end <= src_start` */
  predicate NoOverlap(a: Extent, b: Extent) {
    a.1 <= b.0 || b.1 <= a.0
  }

  /** The candidate test of the compaction: a lane without commits, or one
      whose extent does not overlap the source's. */
  predicate Fits(ext: Extents, withCommits: set<nat>, source: nat, cand: nat)
    requires source in ext
  {
    cand !in withCommits || (cand in ext && NoOverlap(ext[source], ext[cand]))
  }

  /** The first lane in `from..source` that fits, or `source` itself. */
  function FirstFit(ext: Extents, withCommits: set<nat>, source: nat, from: nat): (t: nat)
    requires 1 <= from && source in ext
    ensures t <= source && (from <= source ==> from <= t)
    ensures t < source ==> Fits(ext, withCommits, source, t)
    ensures forall c :: from <= c < t ==> !Fits(ext, withCommits, source, c)
    decreases source - from
  {
    if from >= source then source
    else if Fits(ext, withCommits, source, from) then from
    else FirstFit(ext, withCommits, source, from + 1)
  }

  /** `(min, max)` of two extents. */
  function Hull(a: Extent, b: Extent): Extent {
    (Min(a.0, b.0), Max(a.1, b.1))
  }

  /** The extent map once `source` moves to `target`: a lane without commits
      takes over the source's extent, a lane with commits grows to cover it. */
  function Absorb(ext: Extents, withCommits: set<nat>, source: nat, target: nat): Extents
    requires source in ext && (target != source && target in withCommits ==> target in ext)
  {
    if target == source then ext
    else if target !in withCommits then ext[target := ext[source]]
    else ext[target := Hull(ext[source], ext[target])]
  }

  /** The first-fit search for the lane `source`: the lowest lane in
      `1..source` that fits, whose extent then takes over the source's (a lane
      without commits) or grows to cover it; `source` itself if none fits. */
  method FindTarget(source: nat, ext: Extents, withCommits: set<nat>) returns (target: nat, ext': Extents)
    requires 1 <= source && source in ext
    ensures target == FirstFit(ext, withCommits, source, 1)
    ensures 1 <= target <= source
    ensures forall c :: 1 <= c < target ==> !Fits(ext, withCommits, source, c)
    ensures target < source ==> Fits(ext, withCommits, source, target)
    ensures ext' == Absorb(ext, withCommits, source, target)
  {
    target, ext' := source, ext;
    var (srcStart, srcEnd) := ext[source];
    for cand := 1 to source
      invariant FirstFit(ext, withCommits, source, 1) == FirstFit(ext, withCommits, source, cand)
    {
      if cand !in withCommits {
        target := cand;
        ext' := ext[cand := (srcStart, srcEnd)];
        return;
      } else if cand in ext {
        var (candStart, candEnd) := ext[cand];
        if srcEnd <= candStart || candEnd <= srcStart {
          target := cand;
          ext' := ext[cand := (Min(srcStart, candStart), Max(srcEnd, candEnd))];
          return;
        }
      }
    }
  }

  /** The state of the compaction loop: the lane mapping, the lanes that
      hold commits, and the extents. */
  datatype Compaction = Compaction(mapping: map<nat, nat>, withCommits: set<nat>, extents: Extents)

  /** One turn of the compaction loop, for the lane `source`: a lane with
      commits and an extent moves to its first fit. */
  function CompactLane(st: Compaction, source: nat): Compaction
    requires source >= 1
  {
    if source !in st.withCommits || source !in st.extents then st
    else
      var t := FirstFit(st.extents, st.withCommits, source, 1);
      Compaction(st.mapping[source := t],
                 if t != source then st.withCommits - {source} + {t} else st.withCommits,
                 Absorb(st.extents, st.withCommits, source, t))
  }

  /** The identity mapping on lanes `0..n-1`. */
  function IdentityBelow(n: nat): (m: map<nat, nat>)
    ensures forall l: nat :: l in m <==> l < n
    ensures forall l :: l in m ==> m[l] == l
  {
    if n == 0 then map[] else IdentityBelow(n - 1)[n - 1 := n - 1]
  }

  /** The compaction state once lanes `1..=n` have been visited. */
  function CompactedUpTo(ext: Extents, lanes: set<nat>, maxLane: nat, n: nat): Compaction {
    if n == 0 then Compaction(IdentityBelow(maxLane + 1), lanes, ext)
    else CompactLane(CompactedUpTo(ext, lanes, maxLane, n - 1), n)
  }

  /** The lane mapping of pass 2, over lanes `0..=maxLane`. */
  function CompactionOf(ext: Extents, lanes: set<nat>, maxLane: nat): map<nat, nat> {
    CompactedUpTo(ext, lanes, maxLane, maxLane).mapping
  }

    /** The largest lane of a set, 0 for none: the `max_lane` of pass 2. */
  ghost function MaxLane(s: set<nat>): (m: nat)
    ensures forall l :: l in s ==> l <= m
    ensures s != {} ==> m in s
    ensures s == {} ==> m == 0
  {
    if s == {} then 0
    else
      var x :| x in s;
      assert forall l :: l in s ==> l == x || l in s - {x};
      Max(x, MaxLane(s - {x}))
  }

  /** The maximum of a sequence holding the members of `s` is MaxLane(s). */
  lemma SeqMaxIsMaxLane(vs: seq<nat>, s: set<nat>)
    requires forall v :: v in vs <==> v in s
    ensures SeqMax(vs) == MaxLane(s)
  {
    if s != {} {
      InSeqMax(vs, MaxLane(s));
    }
  }

/** A lane the compaction judges by its extent: it holds commits, has an
      extent, and lies within the mapped lanes. */
  predicate Judged(ext: Extents, lanes: set<nat>, maxLane: nat, l: nat) {
    l in lanes && l in ext && l <= maxLane
  }

  predicate Contains(outer: Extent, inner: Extent) {
    outer.0 <= inner.0 && inner.1 <= outer.1
  }

  /** Two judged lanes that a mapping puts on one lane do not overlap. */
  ghost predicate SharedLanesApart(ext: Extents, lanes: set<nat>, maxLane: nat, m: map<nat, nat>) {
    forall l1: nat, l2: nat :: Judged(ext, lanes, maxLane, l1) && Judged(ext, lanes, maxLane, l2) && l1 != l2 ==>
      (l1 in m && l2 in m && m[l1] == m[l2] ==> NoOverlap(ext[l1], ext[l2]))
  }

  /** The shape of the compaction state once lanes `1..=n` are visited:
      the mapping covers `0..=maxLane` and never moves a lane right or onto
      lane 0; lanes not yet visited, and lanes without commits, stay where
      they are, with their commits and extents untouched. */
  ghost predicate LanesShaped(ext: Extents, lanes: set<nat>, maxLane: nat, n: nat, st: Compaction) {
    && (forall l: nat :: l in st.mapping <==> l <= maxLane)
    && (forall l :: l in st.mapping ==> st.mapping[l] <= l && (l >= 1 ==> st.mapping[l] >= 1))
    && (forall l :: l in st.mapping && (l > n || l !in lanes) ==> st.mapping[l] == l)
    && (forall l: nat :: l == 0 || l > n ==>
          (l in st.withCommits <==> l in lanes) && (l in st.extents <==> l in ext)
          && (l in ext ==> st.extents[l] == ext[l]))
  }

  /** A judged lane's target holds commits, and its extent covers the
      lane's own. */
  ghost predicate TargetsCover(ext: Extents, lanes: set<nat>, maxLane: nat, st: Compaction) {
    forall l: nat :: Judged(ext, lanes, maxLane, l) ==>
      l in st.mapping && st.mapping[l] in st.withCommits && st.mapping[l] in st.extents
      && Contains(st.extents[st.mapping[l]], ext[l])
  }

  /** What holds of the compaction state once lanes `1..=n` are visited. */
  ghost predicate CompactionInv(ext: Extents, lanes: set<nat>, maxLane: nat, n: nat, st: Compaction) {
    LanesShaped(ext, lanes, maxLane, n, st) && TargetsCover(ext, lanes, maxLane, st)
    && SharedLanesApart(ext, lanes, maxLane, st.mapping)
  }

  lemma {:induction false} CompactionInvHolds(ext: Extents, lanes: set<nat>, maxLane: nat, n: nat)
    requires n <= maxLane
    ensures CompactionInv(ext, lanes, maxLane, n, CompactedUpTo(ext, lanes, maxLane, n))
  {
    if n == 0 {
      CompactionStart(ext, lanes, maxLane);
    } else {
      CompactionInvHolds(ext, lanes, maxLane, n - 1);
      CompactLaneKeeps(ext, lanes, maxLane, n, CompactedUpTo(ext, lanes, maxLane, n - 1), CompactedUpTo(ext, lanes, maxLane, n));
    }
  }

  /** Before any lane is visited, the mapping is the identity. */
  lemma CompactionStart(ext: Extents, lanes: set<nat>, maxLane: nat)
    ensures CompactionInv(ext, lanes, maxLane, 0, Compaction(IdentityBelow(maxLane + 1), lanes, ext))
  {
  }

  /** Visiting lane `s` keeps the invariant. */
  lemma CompactLaneKeeps(ext: Extents, lanes: set<nat>, maxLane: nat, s: nat, st: Compaction, st': Compaction)
    requires 1 <= s <= maxLane && CompactionInv(ext, lanes, maxLane, s - 1, st) && st' == CompactLane(st, s)
    ensures CompactionInv(ext, lanes, maxLane, s, st')
  {
    var n := s - 1;
    ShapeKept(ext, lanes, maxLane, n, st);
    if s in st.withCommits && s in st.extents {
      var t := FirstFit(st.extents, st.withCommits, s, 1);
      if t < s {
        if t in st.withCommits {
          MoveOntoLane(ext, lanes, maxLane, n, st, t);
        } else {
          MoveOntoFreeLane(ext, lanes, maxLane, n, st, t);
        }
      }
    }
  }

  /** Visiting lane `n + 1` keeps the shape of the state. */
  lemma ShapeKept(ext: Extents, lanes: set<nat>, maxLane: nat, n: nat, st: Compaction)
    requires n < maxLane && LanesShaped(ext, lanes, maxLane, n, st)
    ensures LanesShaped(ext, lanes, maxLane, n + 1, CompactLane(st, n + 1))
  {
  }

  /** Lane `n + 1` moves onto the lane `t` below it, which holds commits:
      `t`'s extent grows to cover the source's, and the source overlaps none
      of the lanes already on `t`. */
  lemma MoveOntoLane(ext: Extents, lanes: set<nat>, maxLane: nat, n: nat, st: Compaction, t: nat)
    requires n < maxLane && CompactionInv(ext, lanes, maxLane, n, st)
    requires n + 1 in st.withCommits && n + 1 in st.extents
    requires t == FirstFit(st.extents, st.withCommits, n + 1, 1) && t < n + 1 && t in st.withCommits
    ensures TargetsCover(ext, lanes, maxLane, CompactLane(st, n + 1))
    ensures SharedLanesApart(ext, lanes, maxLane, CompactLane(st, n + 1).mapping)
  {
    var s := n + 1;
    var st' := CompactLane(st, s);
    var hull := Hull(st.extents[s], st.extents[t]);
    assert st' == Compaction(st.mapping[s := t], st.withCommits - {s} + {t}, st.extents[t := hull]);
    HullContains(st.extents[s], st.extents[t]);
    forall l: nat | Judged(ext, lanes, maxLane, l)
      ensures st'.mapping[l] in st'.withCommits && st'.mapping[l] in st'.extents
      ensures Contains(st'.extents[st'.mapping[l]], ext[l])
    {
      if l != s && st.mapping[l] == t {
        ContainsTrans(hull, st.extents[t], ext[l]);
      }
    }
    forall l1: nat, l2: nat | Judged(ext, lanes, maxLane, l1) && Judged(ext, lanes, maxLane, l2) && l1 != l2
        && st'.mapping[l1] == st'.mapping[l2]
      ensures NoOverlap(ext[l1], ext[l2])
    {
      if l1 == s || l2 == s {
        var other := if l1 == s then l2 else l1;
        ApartFromInner(ext[s], st.extents[t], ext[other]);
      }
    }
  }

  lemma HullContains(a: Extent, b: Extent)
    ensures Contains(Hull(a, b), a) && Contains(Hull(a, b), b)
  {
  }

  lemma ContainsTrans(a: Extent, b: Extent, c: Extent)
    requires Contains(a, b) && Contains(b, c)
    ensures Contains(a, c)
  {
  }

  /** An extent apart from a range is apart from everything inside it. */
  lemma ApartFromInner(a: Extent, outer: Extent, inner: Extent)
    requires NoOverlap(a, outer) && Contains(outer, inner)
    ensures NoOverlap(a, inner) && NoOverlap(inner, a)
  {
  }

  /** Lane `n + 1` moves onto the lane `t` below it, which holds no
      commits: no judged lane is on `t`, and `t` takes the source's extent. */
  lemma MoveOntoFreeLane(ext: Extents, lanes: set<nat>, maxLane: nat, n: nat, st: Compaction, t: nat)
    requires n < maxLane && CompactionInv(ext, lanes, maxLane, n, st)
    requires n + 1 in st.withCommits && n + 1 in st.extents
    requires t == FirstFit(st.extents, st.withCommits, n + 1, 1) && t < n + 1 && t !in st.withCommits
    ensures TargetsCover(ext, lanes, maxLane, CompactLane(st, n + 1))
    ensures SharedLanesApart(ext, lanes, maxLane, CompactLane(st, n + 1).mapping)
  {
    var s := n + 1;
    var st' := CompactLane(st, s);
    assert st' == Compaction(st.mapping[s := t], st.withCommits - {s} + {t}, st.extents[t := st.extents[s]]);
    forall l: nat | Judged(ext, lanes, maxLane, l) && l != s
      ensures st'.mapping[l] == st.mapping[l] != t
    {
    }
    forall l1: nat, l2: nat | Judged(ext, lanes, maxLane, l1) && Judged(ext, lanes, maxLane, l2) && l1 != l2
        && st'.mapping[l1] == st'.mapping[l2]
      ensures NoOverlap(ext[l1], ext[l2])
    {
    }
  }

  /** The compaction's mapping covers lanes `0..=maxLane`, keeps lane 0,
      never moves a lane right or onto lane 0, and leaves a lane without
      commits where it is; two lanes with commits that it puts on one lane
      have extents that do not overlap. */
  lemma CompactionFacts(ext: Extents, lanes: set<nat>, maxLane: nat)
    ensures var m := CompactionOf(ext, lanes, maxLane);
      && (forall l: nat :: l in m <==> l <= maxLane)
      && m[0] == 0
      && (forall l :: l in m ==> m[l] <= l && (l >= 1 ==> m[l] >= 1))
      && (forall l :: l in m && l !in lanes ==> m[l] == l)
      && SharedLanesApart(ext, lanes, maxLane, m)
  {
    CompactionInvHolds(ext, lanes, maxLane, maxLane);
  }

  /** The lane mapping of pass 2 over lanes `0..=maxLane`: each lane with
      commits and an extent, from 1 upwards, moves to its first fit. */
  method CompactionMapping(ext: Extents, lanes: set<nat>, maxLane: nat) returns (mapping: map<nat, nat>)
    ensures mapping == CompactionOf(ext, lanes, maxLane)
    ensures forall l: nat :: l in mapping <==> l <= maxLane
    ensures 0 in mapping && mapping[0] == 0
    ensures forall l :: l in mapping ==> mapping[l] <= l && (l >= 1 ==> mapping[l] >= 1)
    ensures forall l :: l in mapping && l !in lanes ==> mapping[l] == l
    ensures SharedLanesApart(ext, lanes, maxLane, mapping)
  {
    mapping := map[];
    for lane := 0 to maxLane + 1
      invariant mapping == IdentityBelow(lane)
    {
      mapping := mapping[lane := lane];
    }
    var withCommits := lanes;
    var extents := ext;
    for source := 1 to maxLane + 1
      invariant Compaction(mapping, withCommits, extents) == CompactedUpTo(ext, lanes, maxLane, source - 1)
    {
      if source !in withCommits {
        continue;
      }
      if source in extents {
        var target;
        target, extents := FindTarget(source, extents, withCommits);
        if target != source {
          withCommits := withCommits - {source} + {target};
        }
        mapping := mapping[source := target];
      }
    }
    CompactionFacts(ext, lanes, maxLane);
  }

  // ---------------------------------------------------------------------
  // Applying a lane mapping and the final clamp

  /** The two rewrites of node columns: through the compaction mapping
      (unmapped lanes stay), and `min` with the largest column. */
  datatype ColumnFix = Remap(mapping: map<nat, nat>) | Clamp(maxCol: nat)

  function Fix(f: ColumnFix, c: nat): (r: nat)
    ensures f.Clamp? ==> r <= f.maxCol && (c <= f.maxCol ==> r == c)
    ensures f.Remap? && (forall l :: l in f.mapping ==> f.mapping[l] <= l) ==> r <= c
    ensures f.Remap? && 0 in f.mapping && f.mapping[0] == 0 && c == 0 ==> r == 0
  {
    match f
    case Remap(m) => if c in m then m[c] else c
    case Clamp(mx) => if c <= mx then c else mx
  }

  /** Only `BranchTo` and `MergeFrom` name a column that is rewritten. */
  function FixConnection(f: ColumnFix, conn: Connection): (r: Connection)
    ensures r.Vertical? == conn.Vertical? && r.BranchTo? == conn.BranchTo? && r.MergeFrom? == conn.MergeFrom?
    ensures r.BranchTo? ==> r.col == Fix(f, conn.col)
    ensures r.MergeFrom? ==> r.col == Fix(f, conn.col)
    ensures !r.BranchTo? && !r.MergeFrom? ==> r == conn
  {
    match conn
    case BranchTo(c) => BranchTo(Fix(f, c))
    case MergeFrom(c) => MergeFrom(Fix(f, c))
    case _ => conn
  }

  /** The connections of a node after the in-place rewrite loop. */
  method FixConnections(f: ColumnFix, conns: seq<Connection>) returns (r: seq<Connection>)
    ensures |r| == |conns| && forall k :: 0 <= k < |r| ==> r[k] == FixConnection(f, conns[k])
  {
    r := conns;
    for k := 0 to |r|
      invariant |r| == |conns|
      invariant forall m :: 0 <= m < k ==> r[m] == FixConnection(f, conns[m])
      invariant forall m :: k <= m < |r| ==> r[m] == conns[m]
    {
      r := r[k := FixConnection(f, r[k])];
    }
  }

  /** A node with its column and connection targets rewritten. */
  ghost predicate FixedNode(f: ColumnFix, n: GraphNode, n': GraphNode) {
    n'.commit == n.commit && n'.inCurrentBranch == n.inCurrentBranch
    && n'.column == Fix(f, n.column)
    && |n'.connections| == |n.connections|
    && forall k :: 0 <= k < |n.connections| ==> n'.connections[k] == FixConnection(f, n.connections[k])
  }

  method FixNodes(f: ColumnFix, nodes: seq<GraphNode>) returns (r: seq<GraphNode>)
    ensures |r| == |nodes| && forall i :: 0 <= i < |r| ==> FixedNode(f, nodes[i], r[i])
  {
    r := nodes;
    for i := 0 to |r|
      invariant |r| == |nodes|
      invariant forall m :: 0 <= m < i ==> FixedNode(f, nodes[m], r[m])
      invariant forall m :: i <= m < |r| ==> r[m] == nodes[m]
    {
      var n := r[i];
      var conns := FixConnections(f, n.connections);
      r := r[i := n.(column := Fix(f, n.column), connections := conns)];
    }
  }

  /** `for col in commit_columns.values_mut()`, through the mapping. */
  method FixColumns(f: ColumnFix, columns: Columns) returns (r: Columns)
    ensures r.Keys == columns.Keys && forall k :: k in r ==> r[k] == Fix(f, columns[k])
  {
    var ks := SetToSeq(columns.Keys);
    r := columns;
    for i := 0 to |ks|
      invariant r.Keys == columns.Keys
      invariant forall k :: k in r ==> r[k] == if k in ks[..i] then Fix(f, columns[k]) else columns[k]
    {
      PrefixStep(ks, i);
      assert ks[i] !in ks[..i] by {
        assert forall m :: 0 <= m < i ==> ks[m] != ks[i];
      }
      r := r[ks[i] := Fix(f, columns[ks[i]])];
    }
    assert ks[..|ks|] == ks;
  }

  /** `commit_columns.values()` as a sequence, in some order. */
  method ColumnValues(columns: Columns) returns (vs: seq<nat>)
    ensures forall v :: v in vs <==> v in columns.Values
  {
    var ks := SetToSeq(columns.Keys);
    vs := seq(|ks|, i requires 0 <= i < |ks| => columns[ks[i]]);
    forall v | v in columns.Values ensures v in vs {
      var k :| k in columns && columns[k] == v;
      var i :| 0 <= i < |ks| && ks[i] == k;
      assert vs[i] == v;
    }
  }

  /** The connection kinds of a node follow its parent count. */
  ghost predicate ConnectionShape(n: GraphNode) {
    var ps := n.commit.parents;
    (ps == [] ==> n.connections == [])
    && (|ps| == 1 ==> |n.connections| == 1 && (n.connections[0].Vertical? || n.connections[0].BranchTo?))
    && (|ps| > 1 ==> |n.connections| == |ps| - 1 && forall k :: 0 <= k < |ps| - 1 ==> n.connections[k].MergeFrom?)
  }

  /** Every column a node names lies below `width`. */
  ghost predicate ColumnsBelow(n: GraphNode, width: nat) {
    n.column < width
    && forall k :: 0 <= k < |n.connections| ==>
      (n.connections[k].BranchTo? ==> n.connections[k].col < width)
      && (n.connections[k].MergeFrom? ==> n.connections[k].col < width)
  }

  /** Every connection of `n` aims at the lane its parent has in `columns`:
      `BranchTo` the parent's lane or `Vertical` when the parent shares the
      node's lane; for a merge, one `MergeFrom` per later parent, in order. */
  ghost predicate AimsAt(n: GraphNode, columns: Columns) {
    var ps := n.commit.parents;
    (ps == [] ==> n.connections == [])
    && (|ps| == 1 ==>
          ps[0] in columns
          && (n.connections == [BranchTo(columns[ps[0]])]
              || (n.connections == [Vertical] && n.column == columns[ps[0]])))
    && (|ps| > 1 ==>
          ps[0] in columns && |n.connections| == |ps| - 1
          && forall k :: 1 <= k < |ps| ==> ps[k] in columns && n.connections[k - 1] == MergeFrom(columns[ps[k]]))
  }

  /** A node wired by pass 1 aims at its parents' pass-1 lanes. */
  lemma WiredAims(n: GraphNode, columns: Columns)
    requires Wired(n, columns)
    ensures AimsAt(n, columns)
  {
  }

  /** Rewriting the node and the lane assignment through the same fix keeps
      every connection aimed at its parent. */
  lemma AimsFixed(f: ColumnFix, n: GraphNode, n': GraphNode, columns: Columns, columns': Columns)
    requires AimsAt(n, columns) && FixedNode(f, n, n')
    requires columns'.Keys == columns.Keys && forall k :: k in columns ==> columns'[k] == Fix(f, columns[k])
    ensures AimsAt(n', columns')
  {
    var ps := n.commit.parents;
    if |ps| == 1 {
      assert n'.connections == [FixConnection(f, n.connections[0])];
    } else if |ps| > 1 {
      forall k | 1 <= k < |ps| ensures ps[k] in columns' && n'.connections[k - 1] == MergeFrom(columns'[ps[k]]) {
        assert n.connections[k - 1] == MergeFrom(columns[ps[k]]);
      }
    }
  }

  /** Two pass-1 lanes with commits and extents that compaction puts in one
      column have extents that do not overlap. */
  lemma SharedColumnApart(ext: Extents, lanes: Columns, l1: nat, l2: nat)
    requires l1 in lanes.Values && l2 in lanes.Values && l1 in ext && l2 in ext && l1 != l2
    requires Fix(Remap(CompactionOf(ext, lanes.Values, MaxLane(lanes.Values))), l1)
          == Fix(Remap(CompactionOf(ext, lanes.Values, MaxLane(lanes.Values))), l2)
    ensures NoOverlap(ext[l1], ext[l2])
  {
    CompactionFacts(ext, lanes.Values, MaxLane(lanes.Values));
  }

  /** A stored commit's pass-1 lane has an extent. */
  lemma LaneCovered(cs: Commits, sorted: seq<string>, lanes: Columns, ext: Extents, id: string)
    requires Covers(cs, sorted, lanes, ext, |sorted|)
    requires id in sorted && id in cs && id in lanes
    ensures lanes[id] in ext
  {
    var r :| 0 <= r < |sorted| && sorted[r] == id;
  }

  /** The nodes after pass 2: each node sits in the final lane of its
      commit and aims at its parents' final lanes; its pass-1 lane has an
      extent; and two nodes from different pass-1 lanes share a column only
      when the extents of those lanes do not overlap. */
  ghost predicate CompactedNodes(nodes: seq<GraphNode>, lanes: Columns, ext: Extents, columns: Columns) {
    (forall i :: 0 <= i < |nodes| ==>
      var id := nodes[i].commit.id;
      && id in lanes && lanes[id] in ext && id in columns
      && nodes[i].column == columns[id]
      && AimsAt(nodes[i], columns))
    && forall i, j ::
      (0 <= i < |nodes| && 0 <= j < |nodes| && nodes[i].column == nodes[j].column
       && nodes[i].commit.id in lanes && nodes[j].commit.id in lanes
       && lanes[nodes[i].commit.id] != lanes[nodes[j].commit.id]
       && lanes[nodes[i].commit.id] in ext && lanes[nodes[j].commit.id] in ext) ==>
      NoOverlap(ext[lanes[nodes[i].commit.id]], ext[lanes[nodes[j].commit.id]])
  }

  /** `assign_columns` on plain inputs: the nodes in newest-first order
      with their lanes and connections, the graph width and the active
      columns. The ghost results are the pass-1 lanes, their extents and
      the final lane assignment. */
  method Assign(cs: Commits, sorted: seq<string>, mainTip: Option<string>, notInBranch: set<string>,
                ghost rank: map<string, nat>)
    returns (nodes: seq<GraphNode>, width: nat, active: seq<nat>,
             ghost lanes: Columns, ghost ext: Extents, ghost columns: Columns)
    requires Valid(cs) && RankedByParents(cs, rank)
    ensures NodeIds(nodes) == StoredIds(cs, sorted)
    ensures forall i :: 0 <= i < |nodes| ==>
      nodes[i].commit == cs[nodes[i].commit.id]
      && nodes[i].inCurrentBranch == (nodes[i].commit.id !in notInBranch)
      && ConnectionShape(nodes[i])
      && ColumnsBelow(nodes[i], width)
      && nodes[i].column in active
    ensures forall i :: 0 <= i < |nodes| && nodes[i].commit.id in MainChain(cs, rank, sorted, mainTip) ==>
      nodes[i].column == 0
    ensures width >= 1 && StrictlyIncreasing(active)
    ensures active == [] ==> width == 1
    ensures active != [] ==> active[|active| - 1] == width - 1
    ensures ext == ExtentsUpTo(cs, sorted, lanes, |sorted|) && Compacted(ext, lanes, columns)
    ensures forall c :: c in active <==> c in columns.Values
    ensures CompactedNodes(nodes, lanes, ext, columns)
    ensures lanes == PassOne(cs, sorted, MainSeeds(cs, rank, sorted, mainTip), |sorted|).0
  {
    var seeds := SeedMainLane(cs, sorted, mainTip, rank);
    var pass1, next;
    ghost var live;
    nodes, pass1, next, live := FirstPass(cs, sorted, seeds, notInBranch);
    forall i | 0 <= i < |nodes|
      ensures ConnectionShape(nodes[i]) && AimsAt(nodes[i], pass1)
      ensures nodes[i].commit.id in sorted && nodes[i].commit.id in cs
    {
      WiredShape(nodes[i], pass1);
      WiredAims(nodes[i], pass1);
      assert nodes[i].commit.id == NodeIds(nodes)[i];
    }
    ghost var before := nodes;
    nodes, width, active, ext, columns := SecondPass(cs, sorted, nodes, pass1);
    lanes := pass1;
    assert forall i :: 0 <= i < |nodes| ==> nodes[i].commit.id == before[i].commit.id;
  }

  /** Pass 2 and the clamp, over the nodes and lanes of pass 1. */
  method SecondPass(cs: Commits, sorted: seq<string>, nodes: seq<GraphNode>, lanes: Columns)
    returns (nodes': seq<GraphNode>, width: nat, active: seq<nat>, ghost ext: Extents, ghost columns: Columns)
    requires Placed(nodes, lanes)
    requires forall i :: 0 <= i < |nodes| ==>
      nodes[i].commit.id in sorted && nodes[i].commit.id in cs && AimsAt(nodes[i], lanes)
    ensures |nodes'| == |nodes|
    ensures forall i :: 0 <= i < |nodes| ==>
      nodes'[i].commit == nodes[i].commit && nodes'[i].inCurrentBranch == nodes[i].inCurrentBranch
      && ConnectionShape(nodes'[i]) && ColumnsBelow(nodes'[i], width) && nodes'[i].column in active
      && (nodes[i].column == 0 ==> nodes'[i].column == 0)
    ensures width >= 1 && StrictlyIncreasing(active)
    ensures active == [] ==> width == 1
    ensures active != [] ==> active[|active| - 1] == width - 1
    ensures ext == ExtentsUpTo(cs, sorted, lanes, |sorted|) && Compacted(ext, lanes, columns)
    ensures forall c :: c in active <==> c in columns.Values
    ensures CompactedNodes(nodes', lanes, ext, columns)
  {
    var extents := BuildExtents(cs, sorted, lanes);
    var remapped, final := Compact(nodes, lanes, extents);
    ext, columns := extents, final;
    ghost var m := CompactionOf(ext, lanes.Values, MaxLane(lanes.Values));
    forall i | 0 <= i < |nodes| ensures AimsAt(remapped[i], columns) && lanes[nodes[i].commit.id] in ext {
      AimsFixed(Remap(m), nodes[i], remapped[i], lanes, columns);
      LaneCovered(cs, sorted, lanes, ext, nodes[i].commit.id);
    }
    nodes', width, active := ClampNodes(remapped, final);
    forall i | 0 <= i < |nodes| ensures AimsAt(nodes'[i], columns) {
      AimsFixed(Clamp(width - 1), remapped[i], nodes'[i], columns, columns);
    }
    forall i, j | 0 <= i < |nodes| && 0 <= j < |nodes| && nodes'[i].column == nodes'[j].column
      && lanes[nodes[i].commit.id] != lanes[nodes[j].commit.id]
      ensures NoOverlap(ext[lanes[nodes[i].commit.id]], ext[lanes[nodes[j].commit.id]])
    {
      SharedColumnApart(ext, lanes, lanes[nodes[i].commit.id], lanes[nodes[j].commit.id]);
    }
  }

  /** Step 2: every main-branch commit is assigned lane 0. */
  method SeedMainLane(cs: Commits, sorted: seq<string>, mainTip: Option<string>, ghost rank: map<string, nat>)
    returns (seeds: Columns)
    requires RankedByParents(cs, rank)
    ensures forall k :: k in seeds <==> k in MainChain(cs, rank, sorted, mainTip)
    ensures forall k :: k in seeds ==> seeds[k] == 0
    ensures seeds == MainSeeds(cs, rank, sorted, mainTip)
  {
    var main := MainBranch(cs, sorted, mainTip, rank);
    seeds := map k | k in main :: 0;
  }

  /** The node facts the last two phases rely on and keep. */
  ghost predicate Placed(nodes: seq<GraphNode>, columns: Columns) {
    forall i :: 0 <= i < |nodes| ==>
      nodes[i].commit.id in columns && nodes[i].column == columns[nodes[i].commit.id] && ConnectionShape(nodes[i])
  }

  /** The lane assignment after pass 2: each pass-1 lane sent through the
      compaction mapping of the extents over lanes `0..=` the largest one. */
  ghost predicate Compacted(ext: Extents, lanes: Columns, columns: Columns) {
    columns.Keys == lanes.Keys
    && forall k :: k in lanes ==>
      columns[k] == Fix(Remap(CompactionOf(ext, lanes.Values, MaxLane(lanes.Values))), lanes[k])
  }

  /** Pass 2 after the extents: one lane mapping, applied to the lane
      assignment and to every node's column and `BranchTo`/`MergeFrom`
      targets. Lane 0 stays put and no lane moves right. */
  method Compact(nodes: seq<GraphNode>, columns: Columns, ext: Extents) returns (nodes': seq<GraphNode>, columns': Columns)
    requires Placed(nodes, columns)
    ensures Compacted(ext, columns, columns')
    ensures |nodes'| == |nodes|
    ensures forall i :: 0 <= i < |nodes| ==>
      FixedNode(Remap(CompactionOf(ext, columns.Values, MaxLane(columns.Values))), nodes[i], nodes'[i])
    ensures Placed(nodes', columns')
    ensures forall k :: k in columns ==> columns'[k] <= columns[k] && (columns[k] == 0 ==> columns'[k] == 0)
  {
    var vs := ColumnValues(columns);
    var maxLane := SeqMax(vs);
    SeqMaxIsMaxLane(vs, columns.Values);
    var mapping := CompactionMapping(ext, columns.Values, maxLane);
    nodes' := FixNodes(Remap(mapping), nodes);
    columns' := FixColumns(Remap(mapping), columns);
    forall i | 0 <= i < |nodes| ensures ConnectionShape(nodes'[i]) {
      FixedShape(Remap(mapping), nodes[i], nodes'[i]);
    }
  }

  /** The graph width (the largest column plus one), the clamp of every
      node column and connection target below it, and the sorted,
      deduplicated active columns. */
  method ClampNodes(nodes: seq<GraphNode>, columns: Columns) returns (nodes': seq<GraphNode>, width: nat, active: seq<nat>)
    requires Placed(nodes, columns)
    ensures |nodes'| == |nodes|
    ensures forall i :: 0 <= i < |nodes| ==>
      nodes'[i].commit == nodes[i].commit && nodes'[i].inCurrentBranch == nodes[i].inCurrentBranch
      && nodes'[i].column == nodes[i].column
      && ConnectionShape(nodes'[i]) && ColumnsBelow(nodes'[i], width) && nodes'[i].column in active
    ensures width >= 1 && StrictlyIncreasing(active)
    ensures forall i :: 0 <= i < |nodes| ==> FixedNode(Clamp(width - 1), nodes[i], nodes'[i])
    ensures forall k :: k in columns ==> columns[k] < width
    ensures forall c :: c in active <==> c in columns.Values
    ensures active == [] ==> width == 1
    ensures active != [] ==> active[|active| - 1] == width - 1
  {
    var vs := ColumnValues(columns);
    width := SeqMax(vs) + 1;
    var maxCol := width - 1;
    nodes' := FixNodes(Clamp(maxCol), nodes);
    active := SortDedup(vs);
    forall i | 0 <= i < |nodes|
      ensures nodes'[i].column == nodes[i].column
      ensures ConnectionShape(nodes'[i]) && ColumnsBelow(nodes'[i], width)
    {
      InSeqMax(vs, columns[nodes[i].commit.id]);
      ClampedNode(maxCol, nodes[i], nodes'[i]);
    }
    forall k | k in columns ensures columns[k] < width {
      InSeqMax(vs, columns[k]);
    }
    if active != [] {
      assert active[0] in vs;
      forall x | x in active ensures x <= SeqMax(vs) {
        InSeqMax(vs, x);
      }
      LastIsMax(active, SeqMax(vs));
    }
  }

  /** Rewriting columns keeps the connection kinds. */
  lemma FixedShape(f: ColumnFix, n: GraphNode, n': GraphNode)
    requires FixedNode(f, n, n') && ConnectionShape(n)
    ensures ConnectionShape(n')
  {
  }

  /** A clamped node names no column above the bound, and keeps a column
      already within it. */
  lemma ClampedNode(maxCol: nat, n: GraphNode, n': GraphNode)
    requires FixedNode(Clamp(maxCol), n, n') && n.column <= maxCol && ConnectionShape(n)
    ensures n'.column == n.column && ConnectionShape(n') && ColumnsBelow(n', maxCol + 1)
  {
  }

  /** A node wired by pass 1 has the connection shape of its parent count. */
  lemma WiredShape(n: GraphNode, columns: Columns)
    requires Wired(n, columns)
    ensures ConnectionShape(n)
  {
    var ps := n.commit.parents;
    if |ps| > 1 {
      forall k | 0 <= k < |ps| - 1 ensures n.connections[k].MergeFrom? {
        assert n.connections[(k + 1) - 1] == MergeFrom(columns[ps[k + 1]]);
      }
    }
  }

  class App {
    var graphWidth: nat
    var activeColumns: seq<nat>
    var commitsNotInCurrentBranch: set<string>

    constructor (notInBranch: set<string>)
      ensures commitsNotInCurrentBranch == notInBranch && graphWidth == 0 && activeColumns == []
    {
      commitsNotInCurrentBranch := notInBranch;
      graphWidth := 0;
      activeColumns := [];
    }

    /** The precomputed "not in the current branch" lookup. */
    predicate IsCommitNotInCurrentBranch(id: string)
      reads this
    {
      id in commitsNotInCurrentBranch
    }

    /** `assign_columns`, storing the graph width and the active columns. */
    method AssignColumns(cs: Commits, sorted: seq<string>, mainTip: Option<string>, ghost rank: map<string, nat>)
      returns (nodes: seq<GraphNode>, ghost lanes: Columns, ghost ext: Extents, ghost columns: Columns)
      requires Valid(cs) && RankedByParents(cs, rank)
      modifies this`graphWidth, this`activeColumns
      ensures NodeIds(nodes) == StoredIds(cs, sorted)
      ensures forall i :: 0 <= i < |nodes| ==>
        nodes[i].commit == cs[nodes[i].commit.id]
        && nodes[i].inCurrentBranch == !IsCommitNotInCurrentBranch(nodes[i].commit.id)
        && ConnectionShape(nodes[i])
        && ColumnsBelow(nodes[i], graphWidth)
        && nodes[i].column in activeColumns
      ensures forall i :: 0 <= i < |nodes| && nodes[i].commit.id in MainChain(cs, rank, sorted, mainTip) ==>
        nodes[i].column == 0
      ensures graphWidth >= 1 && StrictlyIncreasing(activeColumns)
      ensures activeColumns == [] ==> graphWidth == 1
      ensures activeColumns != [] ==> activeColumns[|activeColumns| - 1] == graphWidth - 1
      ensures ext == ExtentsUpTo(cs, sorted, lanes, |sorted|) && Compacted(ext, lanes, columns)
      ensures forall c :: c in activeColumns <==> c in columns.Values
      ensures CompactedNodes(nodes, lanes, ext, columns)
      ensures lanes == PassOne(cs, sorted, MainSeeds(cs, rank, sorted, mainTip), |sorted|).0
    {
      var width, active;
      nodes, width, active, lanes, ext, columns := Assign(cs, sorted, mainTip, commitsNotInCurrentBranch, rank);
      graphWidth, activeColumns := width, active;
    }
  }

  /** The assignment step 2 starts pass 1 from: every main-branch commit
      in lane 0. */
  ghost function MainSeeds(cs: Commits, rank: map<string, nat>, sorted: seq<string>, mainTip: Option<string>): Columns
    requires RankedByParents(cs, rank)
  {
    map k | k in MainChain(cs, rank, sorted, mainTip) :: 0
  }

  ghost function MainChain(cs: Commits, rank: map<string, nat>, sorted: seq<string>, mainTip: Option<string>): set<string>
    requires RankedByParents(cs, rank)
  {
    match ChainStart(sorted, mainTip)
    case None => {}
    case Some(s) => FirstParentChain(cs, rank, s)
  }

  // ---------------------------------------------------------------------
  // Ahead/behind counts of the current branch

  /** The length of the leading run of non-whitespace characters. */
  function RunLength(s: string): (n: nat)
    ensures n <= |s| && (forall i :: 0 <= i < n ==> !IsWhitespace(s[i]))
    ensures n < |s| ==> IsWhitespace(s[n])
  {
    if s == [] || IsWhitespace(s[0]) then 0 else 1 + RunLength(s[1..])
  }

  /** Rust's `str::split_whitespace`: the maximal runs of non-whitespace. */
  function Words(s: string): (ws: seq<string>)
    ensures forall k :: 0 <= k < |ws| ==> ws[k] != []
    decreases |s|
  {
    if s == [] then []
    else if IsWhitespace(s[0]) then Words(s[1..])
    else
      var n := RunLength(s);
      [s[..n]] + Words(s[n..])
  }

  /** Whitespace alone has no words. */
  lemma {:induction false} WordsOfBlank(s: string)
    requires AllWhitespace(s)
    ensures Words(s) == []
  {
    if s != [] {
      WordsOfBlank(s[1..]);
    }
  }

  /** A word followed by whitespace is the first word. */
  lemma {:induction false} RunLengthOfWord(w: string, rest: string)
    requires forall i :: 0 <= i < |w| ==> !IsWhitespace(w[i])
    requires rest == [] || IsWhitespace(rest[0])
    ensures RunLength(w + rest) == |w|
  {
    if w != [] {
      assert (w + rest)[1..] == w[1..] + rest;
      RunLengthOfWord(w[1..], rest);
    } else {
      assert w + rest == rest;
    }
  }

  lemma WordsStep(w: string, rest: string)
    requires w != [] && forall i :: 0 <= i < |w| ==> !IsWhitespace(w[i])
    requires rest == [] || IsWhitespace(rest[0])
    ensures Words(w + rest) == [w] + Words(rest)
  {
    RunLengthOfWord(w, rest);
    assert (w + rest)[..|w|] == w;
    assert (w + rest)[|w|..] == rest;
  }

  /** The two counts `git rev-list --left-right --count` prints, behind
      first: `update_branch_ahead_behind` starts both at 0, and with a
      successful answer of exactly two words reads each one, keeping 0 for a
      word that is not a `usize`. */
  function AheadBehind(output: Option<ProcessOutput>): (r: (nat, nat))
    ensures r.0 <= UsizeMax && r.1 <= UsizeMax
  {
    if output.Some? && output.value.success then
      var parts := Words(Trim(output.value.stdout));
      if |parts| == 2 then (CountOr0(parts[0]), CountOr0(parts[1])) else (0, 0)
    else (0, 0)
  }

  /** `parse().unwrap_or(0)`. */
  function CountOr0(word: string): (n: nat)
    ensures n <= UsizeMax
  {
    match ParseUsize(word)
    case Some(n) => n
    case None => 0
  }

  /** Digits are not whitespace. */
  lemma DigitsAreWords(s: string)
    requires AllDigits(s)
    ensures forall i :: 0 <= i < |s| ==> !IsWhitespace(s[i])
  {
    forall i | 0 <= i < |s| ensures !IsWhitespace(s[i]) {
      assert IsAsciiDigit(s[i]);
    }
  }

  /** Two digit strings separated by a tab and ended by a newline are read
      as the behind and ahead counts. */
  lemma AheadBehindOfDigits(b: string, a: string, stderr: string)
    requires AllDigits(b) && AllDigits(a) && b != [] && a != []
    ensures AheadBehind(Some(ProcessOutput(true, b + "\t" + a + "\n", stderr))) == (CountOr0(b), CountOr0(a))
  {
    TrimOfDigits(b, a);
    WordsOfDigits(b, a);
  }

  /** "b<TAB>a" has the two words `b` and `a`. */
  lemma WordsOfDigits(b: string, a: string)
    requires AllDigits(b) && AllDigits(a) && b != [] && a != []
    ensures Words(b + "\t" + a) == [b, a]
  {
    DigitsAreWords(b);
    DigitsAreWords(a);
    var rest := "\t" + a;
    assert b + "\t" + a == b + rest;
    WordsStep(b, rest);
    assert rest[1..] == a;
    assert a + [] == a;
    WordsStep(a, []);
  }

  /** The counts as git prints them, "behind<TAB>ahead\n", are read back. */
  lemma AheadBehindRoundTrip(behind: nat, ahead: nat, stderr: string)
    requires behind <= UsizeMax && ahead <= UsizeMax
    ensures AheadBehind(Some(ProcessOutput(true, NatToString(behind) + "\t" + NatToString(ahead) + "\n", stderr)))
      == (behind, ahead)
  {
    AheadBehindOfDigits(NatToString(behind), NatToString(ahead), stderr);
    ParseUsizeRoundTrip(behind);
    ParseUsizeRoundTrip(ahead);
  }

  /** Trimming "b<TAB>a\n" for digit strings `b` and `a` drops the newline. */
  lemma TrimOfDigits(b: string, a: string)
    requires AllDigits(b) && AllDigits(a) && b != [] && a != []
    ensures Trim(b + "\t" + a + "\n") == b + "\t" + a
  {
    var text := b + "\t" + a + "\n";
    var core := b + "\t" + a;
    assert text == core + "\n";
    assert core[|core| - 1] == a[|a| - 1];
    assert !IsWhitespace(core[|core| - 1]);
    assert !IsWhitespace(core[0]);
    TrimOfCore(core, "\n");
  }

  /** Trimming drops trailing whitespace after a non-blank end. */
  lemma TrimOfCore(core: string, tail: string)
    requires core != [] && !IsWhitespace(core[0]) && !IsWhitespace(core[|core| - 1]) && AllWhitespace(tail)
    ensures Trim(core + tail) == core
  {
    var s := core + tail;
    var r := TrimEnd(s);
    assert s[..|core|] == core;
    assert r == core;
  }
}
