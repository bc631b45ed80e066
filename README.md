# git_manager: a verified model of the commit-graph engine

git_manager is a terminal user interface for git. It lays out a repository's
commits as a railway graph, one lane per line of development, and renders
each commit as a node row followed by an edge row of box-drawing characters.
Around that graph it offers a details pane, selection and scrolling, dialogs
that collect text for git commands, and a handful of git commands whose
output it parses.

This project models that core in Dafny and proves properties of the model.

- **Commit store and graph algorithms** (`graph.dfy`, module `Graph`):
  - the `CommitGraph` class with its child back-links (`build_graph`);
  - Kahn's topological sort, with a ready list ordered newest first and ties by id;
  - the ancestry trace over parents;
  - the `RailwayLayout` lane allocator.
- **Lane assignment** (`layout.dfy`, module `Layout`):
  - `assign_columns`: the first-parent chain of the main branch pinned to lane 0, then greedy lane reuse;
  - extent-based lane compaction and the final clamp;
  - the ahead/behind count parse.
- **Row rendering** (`renderer.dfy`, module `Renderer`):
  - the glyph table and the commit style;
  - node rows, and edge rows as a per-column cell state machine split into spans.
- **Graph pane** (`ui.dfy`, module `Ui`): per-row and per-edge active columns, the sequence of graph lines, summary truncation and word wrap of the details text.
- **Navigation** (`navigation.dfy`, module `Navigation`): selection, scroll clamping, panes, detail offsets, command and file lists, the file diff view.
- **Dialogs** (`dialogs.dfy`, module `Dialogs`):
  - input buffers;
  - cancel and submit handlers, where each submit's guards decide which git request is issued;
  - branch pickers, commit selection, the squash count, the status message.
- **Types** (`types.dfy`, module `Types`): the validation summary, command descriptions and confirmation messages.
- **Commands** (`commands.dfy`, module `Commands`):
  - the `git status --porcelain` parser and the "id:count" squash target;
  - push error classification;
  - the sync-all-branches counters and summary;
  - the sed script that marks commits for squashing.
- **Auth** (`auth.dfy`, module `Auth`): the credential-length check and the password hash prefix.
- **Util** (`util.dfy`, module `Util`): the Rust string and collection behaviour the code relies on, such as UTF-8 byte length, `char::is_whitespace`, `trim`, `lines`, `usize` parsing and `sort` plus `dedup`.

The model follows the code's own form:
- code that updates fields step by step becomes classes whose methods modify those fields;
- loops become `for` and `while` loops with invariants;
- pure matches and formatting become functions.

Each loop method's `ensures` either ties its result or new state to a specification function of its inputs, or states the property outright. Lemmas then state what the code promises about those functions.

The source has one `App` struct whose methods are spread over several files. A Dafny class cannot span modules, so the model has one class `App` per module: `Layout.App`, `Navigation.App` and `Dialogs.App`. Each holds only the fields that its file's methods read or change.

Git, the clock and the terminal are not modelled. What they report is a parameter:
- the outcome of a git command (`Dialogs.Outcome`);
- a process's exit status and output (`Util.ProcessOutput`);
- the seconds elapsed since a status message was set;
- a commit's sync status.

## Model

| member | source | states |
|---|---|---|
| Util.SortDedup | src/ui.rs:224-225 | `sort(); dedup();` leaves the same values strictly increasing |
| Util.StrictlyIncreasingUnique | src/app/mod.rs:582-583 | the sorted, deduplicated vector depends only on its set of values |
| Util.SeqMax | src/app/mod.rs:565 | `max().unwrap_or(0)` bounds every element, is one of them, and is 0 for none |
| Util.StrLtIrreflexive | src/graph.rs:158 | the id order never ranks an id before itself |
| Util.StrLtAsymmetric | src/graph.rs:158 | no two ids rank each before the other |
| Util.StrLtTransitive | src/graph.rs:158 | the id order is transitive |
| Util.StrLtTotal | src/graph.rs:158 | any two distinct ids are ordered one way or the other, so ties on time stamps are broken |
| Util.ByteLen | src/auth.rs:7 | the UTF-8 length lies between one and four bytes per character |
| Util.ByteLenAppend | src/ui.rs:268 | the byte length of a concatenation is the sum of the byte lengths |
| Util.TrimEnd | src/ui.rs:462 | `trim_end` keeps a prefix that does not end in whitespace and drops only whitespace |
| Util.TrimStart | src/ui.rs:462 | `trim_start` keeps a suffix that does not start with whitespace and drops only whitespace |
| Util.Trim | src/app/dialogs.rs:25 | `trim`: a slice without whitespace at either end, with only whitespace around it |
| Util.Utf8Width | src/auth.rs:7 | one to four bytes per character |
| Util.TrimEmptyIffBlank | src/app/dialogs.rs:25 | `trim().is_empty()` holds exactly for all-whitespace text |
| Util.NatToString | src/app/commands.rs:1000 | decimal formatting gives at least one digit and only ASCII digits |
| Util.Lines | src/ui.rs:441 | `lines()`: no line holds a newline, there are none exactly for the empty text, the first line is a prefix, and a text without a newline is one line |
| Util.ParseUsize | src/app/dialogs.rs:163 | a parsed `usize` fits in 64 bits |
| Util.ParseUsizeRoundTrip | src/app/commands.rs:143 | parsing the decimal form of a `usize` gives the number back |
| Util.IndexOf | src/app/dialogs.rs:334 | the found position is the first occurrence; none means the value is absent |
| Util.SetToSeq | src/graph.rs:140 | iterating a hash container lists each of its values exactly once |
| Graph.PrecedesIrreflexive | src/graph.rs:155-160 | the newest-first comparator never puts an id before itself |
| Graph.PrecedesTotal | src/graph.rs:155-160 | of two distinct ids one always comes first (timestamp, then id) |
| Graph.PrecedesAsymmetric | src/graph.rs:155-160 | the comparator never orders two ids both ways |
| Graph.NotPrecedesTransitive | src/graph.rs:155-160 | "not before" is transitive, so adjacent sortedness gives sortedness throughout |
| Graph.InsertNewestFirst | src/graph.rs:155-160 | inserting an id adds exactly that id to the multiset |
| Graph.InsertKeepsSorted | src/graph.rs:155-160 | inserting into a newest-first sequence keeps it newest first |
| Graph.SortNewestFirst | src/graph.rs:155-160 | `sort_by` result is a permutation of the input, sorted newest first with ties broken by the smaller id |
| Graph.SortIsUnique | src/graph.rs:155-160 | two newest-first arrangements of the same ids are equal, so the queue order does not depend on hash-map iteration order |
| Graph.SortedHeadsAgree | src/graph.rs:171-176 | two sorted arrangements of the same nonempty ids have the same first element |
| Graph.AncestrySetUnique | src/graph.rs:192-209 | the ancestry path depends only on the graph and the start id |
| Graph.AncestryOfRoot | src/graph.rs:201-207 | the path of a stored root commit is that commit alone |
| Graph.AncestryOfUnknown | src/graph.rs:193-199 | the path of an id the graph does not hold is that id alone |
| Graph.AncestryOfCommit | src/graph.rs:201-207 | the path of a stored commit is its id plus the paths of its parents |
| Graph.CommitGraph.constructor | src/graph.rs:104-110 | a new graph has no commits, no nodes and an empty ancestry path |
| Graph.CommitGraph.AddCommit | src/graph.rs:112-114 | stores the commit under its id, replacing an earlier one, and keeps every commit keyed by its own id |
| Graph.CommitGraph.BuildGraph | src/graph.rs:116-132 | keys and all other fields stay the same and child lists only grow; `c` ends up a child of `k` exactly when it already was or `c` is stored and names `k` as a parent; a duplicate-free child list stays duplicate-free; starting from empty child lists the children agree exactly with the parents |
| Graph.CommitGraph.TopologicalSort | src/graph.rs:134-190 | the output has no duplicates and holds only ids the in-degree table knows; every stored commit listing an emitted id was emitted before it; an id is missing only while a commit listing it is missing; on a consistent acyclic graph every commit is emitted exactly once; the output is exactly Kahn's run from the one in-degree table the commits have (newest-first ready stack popped from the end, children released newest first), so it is fixed by the commit set |
| Graph.CommitGraph.TraceAncestry | src/graph.rs:192-209 | the new path is exactly the set of ids reachable from the selected id along parent links (the selected id included, unknown ids kept but not expanded) |
| Graph.CommitGraph.IsOnAncestryPath | src/graph.rs:211-213 | membership in the ancestry path; what it means after a trace is stated by `OnAncestryPathIff` |
| Graph.OnAncestryPathIff | src/graph.rs:192-213 | after a trace, a commit is on the path exactly when every parent-closed set holding the start holds it |
| Graph.LinkToParents | src/graph.rs:120-129 | one turn of the outer loop: every stored parent of `id` that does not list it yet gets it appended, and nothing else changes |
| Graph.LinkAll | src/graph.rs:120-131 | after the loop, each commit's children have grown by exactly the processed commits that name it as a parent |
| Graph.LinkStep | src/graph.rs:123-128 | linking one more commit extends the loop invariant to the longer prefix |
| Graph.LinkedUpToAll | src/graph.rs:116-132 | once every commit was processed, the invariant gives all of `build_graph`'s postconditions |
| Graph.PendingCountZero | src/graph.rs:139-145 | an in-degree is 0 exactly when no unemitted commit lists the id as a child |
| Graph.PendingCountEmit | src/graph.rs:178-185 | emitting a commit lowers each in-degree by that commit's count of the id among its children |
| Graph.InDegrees | src/graph.rs:139-145 | the table has an entry for every commit and every listed child, each counting how often the commits list it |
| Graph.CountChildren | src/graph.rs:142-144 | each listed child's entry grows by its number of occurrences, and missing entries start at 0 |
| Graph.ReadyIds | src/graph.rs:147-160 | the starting queue holds exactly the ids of in-degree 0, without duplicates, newest first |
| Graph.KahnStart | src/graph.rs:139-160 | the loop invariant holds before the first pop |
| Graph.KahnEmit | src/graph.rs:162-186 | one pop emits the last id of the ready stack and leaves exactly the stack and in-degrees of one Kahn step (children of a stored commit released newest first), keeping the loop invariant |
| Graph.Release | src/graph.rs:171-185 | each child's in-degree drops by its number of occurrences, and exactly the children reaching 0 are pushed, in the sorted order of the children |
| Graph.Decrement | src/graph.rs:179-184 | one child's in-degree drops by one, and it is queued exactly when it reaches 0 |
| Graph.EmitOrder | src/graph.rs:163-167 | emitting the popped id keeps the output duplicate-free and parents-first |
| Graph.KahnFinish | src/graph.rs:162-189 | with the queue empty, the output contains only known ids, and a missing id always has a missing stored commit listing it |
| Graph.KahnEmitsAll | src/graph.rs:134-190 | on a consistent, acyclic graph, every stored commit is emitted |
| Graph.InDegreeTableUnique | src/graph.rs:139-145 | the in-degree table does not depend on the hash-map iteration order: any two tables of one commit map are equal |
| Graph.PendingCountOrderFree | src/graph.rs:139-145 | the count of stored, not yet emitted commits listing an id is the same for every order of visiting the commits |
| Graph.ReadyQueue | src/graph.rs:147-160 | the initial ready stack: exactly the ids of in-degree 0, each once, sorted newest first with ties by id |
| Graph.KahnLoop | src/graph.rs:162-186 | the `while let Some(..) = queue.pop()` loop ends with an empty stack, the loop invariant, and the output of Kahn's run from the starting table |
| Graph.KahnTurn | src/graph.rs:162-186 | one turn keeps the invariant, uses up one unit of the bound, and leaves the rest of the run unchanged |
| Graph.KahnOrderOfTable | src/graph.rs:134-190 | the table the loop started from is an in-degree table, so the output equals Kahn's run for every in-degree table of the commits |
| Graph.ReleaseTurn | src/graph.rs:178-184 | releasing one more child keeps the counts exact and appends that child to the stack exactly when its in-degree reaches 0 |
| Graph.TraceStart | src/graph.rs:193-195 | the trace invariant holds with an empty path and the start id on the stack |
| Graph.TraceSkip | src/graph.rs:196-199 | popping an id already on the path keeps the invariant |
| Graph.TraceVisit | src/graph.rs:201-207 | visiting a new id and pushing its parents keeps the invariant and shrinks the unvisited part of the bound |
| Graph.TraceDone | src/graph.rs:196-208 | with the stack empty, the path is the least parent-closed set containing the start |
| Graph.RailwayLayout.constructor | src/graph.rs:44-48 | a new layout has no lanes |
| Graph.RailwayLayout.AllocateColumn | src/graph.rs:50-61 | returns the first free lane and occupies it with the commit, or appends a new lane on the right when all are taken |
| Graph.RailwayLayout.ReleaseColumn | src/graph.rs:63-67 | frees the lane when it exists, and otherwise changes nothing |
| Graph.RailwayLayout.CompactLanes | src/graph.rs:69-82 | removes the lane, and each later lane moves one column left, reported as (from, to); an out-of-range lane changes nothing |
| Graph.RailwayLayout.GetActiveColumns | src/graph.rs:84-90 | the occupied lanes, each once, in increasing order |
| Graph.RailwayLayout.Width | src/graph.rs:92-94 | the number of lanes, free ones included: every occupied lane lies below it |
| Graph.OccupiedFrom | src/graph.rs:84-90 | the occupied lanes from `from` on, in increasing order |
| Layout.FirstParentChainClosed | src/app/mod.rs:273-283 | the first-parent chain contains its start exactly when the start is stored, holds only stored commits and contains every stored first parent of a member |
| Layout.MainBranch | src/app/mod.rs:269-283 | the main branch is the first-parent chain from the main tip, or from the newest commit when there is none, and is empty when there is neither |
| Layout.ChainStart | src/app/mod.rs:271 | the main tip when given, else the first sorted id, and nothing only when both are missing |
| Layout.AddLive | src/app/mod.rs:306 | the lane's live set gains the id and no other lane changes |
| Layout.RemoveLive | src/app/mod.rs:365-367 | the lane's live set loses the id and no other lane changes |
| Layout.FindFreeLane | src/app/mod.rs:309-324 | the lowest lane in `1..next` whose live set is empty, else `next`, which is then used up |
| Layout.PlaceCommit | src/app/mod.rs:303-331 | a commit keeps the lane it was given, or takes a fresh lane that is recorded; either way it joins that lane's live set. Lane, lane map, live sets and counter are exactly `PlaceTurn` |
| Layout.PlaceTurnGreedy | src/app/mod.rs:303-331 | a commit without a lane takes the lowest lane in `1..next` whose live set is empty, and `next` (which then grows) only when there is none; the lane map gains exactly that entry and the commit joins that lane's live set |
| Layout.FreeLaneIsFresh | src/app/mod.rs:309-324 | the search from lane 1 ends on the first empty lane below `next`, else on `next`, which is then used up |
| Layout.MergeSources | src/app/mod.rs:376-402 | each later parent of a merge keeps its lane or takes the lowest empty lane in `1..next` (else `next`, which then grows) and joins that lane's live set as a placeholder; one `MergeFrom` of that lane per parent, in parent order; the lanes, live sets and counter equal the fold of those placements |
| Layout.PlaceNext | src/app/mod.rs:378-400 | placing one more later parent extends the loop invariant: its `MergeFrom`, its lane, and the fold of placements so far |
| Layout.PlaceSourceStep | src/app/mod.rs:378-400 | a later parent keeps its lane, or takes the lowest empty lane in `1..next` (never lane 0), else `next`; the lane state after is `PlaceSource`, only that parent is added to the lane map and to a live set, and no lane assignment changes |
| Layout.ConnectParents | src/app/mod.rs:333-414 | a root draws nothing and leaves its lane's live set; a single parent gives `BranchTo` its lane when that lane differs, else `Vertical`, takes the commit's lane when unassigned, and the commit stays live until its parent came earlier; a merge gives its first parent the commit's lane when unassigned, then places its later parents as `MergeSources` does, and leaves its own live set. Lane map, live sets and counter are exactly `ConnectTurn` |
| Layout.WiredKept | src/app/mod.rs:333-414 | wiring stays valid when assignments are only added |
| Layout.StoredIds | src/app/mod.rs:299-300 | the emitted ids are exactly the sorted ids that are stored, in order |
| Layout.NodeIds | src/app/mod.rs:416-421 | the ids of the nodes, one per node, in order |
| Layout.NodesOkKept | src/app/mod.rs:299-423 | what pass 1 promises about earlier nodes survives later assignments |
| Layout.ProcessCommit | src/app/mod.rs:300-422 | each node carries its commit, its lane and the current-branch flag. The lane is the commit's assigned lane, or else `FreeLane(live, 1, next)`: the lowest lane in `1..next` with an empty live set, else `next`, so never lane 0. Its connections are wired against the assignment, and lane, lane map, live sets and counter after the turn are `Turn` (placement, then wiring to the parents) |
| Layout.FirstPass | src/app/mod.rs:290-423 | one node per stored sorted id, in order; the main-branch seeds keep lane 0; every assignment lies below the next fresh lane. The lane map, the ghost live sets and the counter are `PassOne` over every sorted id: the fold of `Turn` from the seeds, lane 0 with no live commit and next lane 1 |
| Layout.FurthestParent | src/app/mod.rs:438-444 | the largest row among the commit's parents that appear in the order, or its own row when none does |
| Layout.FurthestRow | src/app/mod.rs:438-444 | the furthest row is at least the commit's own row and below the row count, no earlier than any parent that appears, and is the commit's row or a parent's row |
| Layout.MergeExtents | src/app/mod.rs:450-466 | the extent map becomes the branch lines of the merge: every parent lane other than its own has its start lowered to the row below the merge, or is created as the empty range at that row; every other extent is unchanged |
| Layout.MergeTurn | src/app/mod.rs:452-464 | one more parent extends the branch lines by that parent's lane when it differs from the merge's own |
| Layout.CoversWider | src/app/mod.rs:434-469 | widening extents keeps every row covered |
| Layout.CoversStep | src/app/mod.rs:434-469 | covering one more row extends the extent loop's invariant |
| Layout.WidenLane | src/app/mod.rs:446-448 | `and_modify(min, max).or_insert`: the lane's extent becomes `(min(start, old start), max(end, old end))`, or `(start, end)` when absent; the properties are stated by `WidenLaneWiden` |
| Layout.WidenLaneWiden | src/app/mod.rs:446-448 | widening adds the lane, changes no other lane, only widens, and makes the lane's extent contain the range; inside the rows it stays inside them |
| Layout.ExtendRow | src/app/mod.rs:435-468 | the extent map after row `idx` is `RowExtents`: the commit's lane widened to its row and the edge row after its furthest parent, then for a merge the branch lines in its parents' other lanes |
| Layout.RowExtentsCover | src/app/mod.rs:435-468 | one row's update keeps the extents inside the rows and on assigned lanes, only widens them, and covers the row |
| Layout.BuildExtents | src/app/mod.rs:432-469 | the extent map is the fold of `RowExtents` over all rows; every extent lies inside the rows and belongs to an assigned lane, and every row is covered in its lane out to its furthest parent |
| Layout.FirstFit | src/app/mod.rs:493-522 | the first-fit target as a value: no lane before it fits; it fits when it lies below the source; it is the source itself when nothing fits |
| Layout.FindTarget | src/app/mod.rs:493-522 | the target is `FirstFit` from lane 1: the lowest lane in `1..source` that has no commits or whose extent does not overlap the source's. The extents become `Absorb`: a lane without commits takes over the source's extent, and a lane with commits grows to the hull of both. The source itself is the target when no lane fits |
| Layout.IdentityBelow | src/app/mod.rs:482-485 | the identity mapping on exactly the lanes below `n` |
| Layout.MaxLane | src/app/mod.rs:473 | the largest lane of the set, which bounds every lane; 0 for the empty set |
| Layout.SeqMaxIsMaxLane | src/app/mod.rs:473 | the maximum of the values of the lane map, read as a sequence, is the largest lane of the set |
| Layout.CompactionInvHolds | src/app/mod.rs:487-531 | after lanes `1..=n` have been visited in order, the invariant holds. Its parts: the mapping covers lanes `0..=max`; no lane moves right or into lane 0; unvisited lanes and lanes without commits stay; every visited lane's target has commits and an extent that contains the lane's own extent; and two lanes with commits and extents share a target only when their extents do not overlap |
| Layout.CompactionStart | src/app/mod.rs:482-485 | the identity mapping, before any lane is visited, satisfies the invariant |
| Layout.CompactLaneKeeps | src/app/mod.rs:487-530 | one turn of the loop, for lane `s`, carries the invariant from lanes `1..s` to lanes `1..=s` |
| Layout.ShapeKept | src/app/mod.rs:487-530 | one turn keeps the mapping's domain and bounds, and leaves later lanes untouched |
| Layout.MoveOntoLane | src/app/mod.rs:514-527 | moving a lane onto a lower lane that has commits: the target's extent grows to cover the source, and the source's extent overlaps none of the lanes already mapped there |
| Layout.MoveOntoFreeLane | src/app/mod.rs:506-512 | moving a lane onto a lower lane without commits: no lane was mapped there yet, so the source shares it with no lane |
| Layout.CompactionFacts | src/app/mod.rs:471-531 | the final mapping covers lanes `0..=max` and keeps lane 0. No lane moves right or into lane 0, and a lane without commits stays where it is. Two lanes with commits and extents that share a target have extents that do not overlap |
| Layout.CompactionMapping | src/app/mod.rs:471-531 | the mapping is `CompactionOf`: the identity on `0..=max`, then, for each lane from 1 upwards that has commits and an extent, the first lane that fits, with the extents and the set of lanes holding commits updated after each move as the source does. The facts of `CompactionFacts` follow |
| Layout.FixConnection | src/app/mod.rs:545-558 | the connection kind stays the same, and only `BranchTo` and `MergeFrom` targets are rewritten |
| Layout.Fix | src/app/mod.rs:533-578 | the clamp never exceeds the bound and keeps a column within it; a remap that never moves a lane right never moves a column right, and column 0 stays 0 when the mapping sends lane 0 to 0 |
| Layout.FixConnections | src/app/mod.rs:545-559 | every connection is rewritten as above, in place and in order |
| Layout.FixNodes | src/app/mod.rs:540-560 | every node's column and connection targets are rewritten, in order |
| Layout.FixColumns | src/app/mod.rs:534-538 | every assigned lane is rewritten through the mapping, and an unmapped one stays |
| Layout.ColumnValues | src/app/mod.rs:476-478 | the assigned lanes, as a sequence |
| Layout.WiredAims | src/app/mod.rs:333-414 | a node wired by pass 1 aims at its parents' pass-1 lanes (`AimsAt`): `BranchTo` the parent's lane, or `Vertical` when the parent shares the node's lane, and one `MergeFrom` per later parent of a merge |
| Layout.AimsFixed | src/app/mod.rs:533-578 | rewriting a node and the lane map through the same mapping (or clamp) keeps every connection aimed at its parent's new lane |
| Layout.SharedColumnApart | src/app/mod.rs:487-560 | two distinct pass-1 lanes, each with commits and an extent, that compaction sends to one column have extents that do not overlap |
| Layout.LaneCovered | src/app/mod.rs:434-448 | the pass-1 lane of a stored commit in the order has an extent |
| Layout.Assign | src/app/mod.rs:262-587 | one node per stored sorted id, in order, with its own commit and current-branch flag. Main-branch commits sit in lane 0, and connection kinds follow the parent count. Every column and target lies below the width. The width is one past the largest active column, or 1 when there is none, and the active columns are strictly increasing: exactly the final lanes. The ghost results are the pass-1 lanes, which are `PassOne` from `MainSeeds` over every sorted id, their extents (`ExtentsUpTo`) and the final lanes, which are the pass-1 lanes sent through `CompactionOf`. By `CompactedNodes`: each node sits in its commit's final lane, and every `BranchTo`/`Vertical`/`MergeFrom` aims at the final lane of the parent it names. Two nodes from different pass-1 lanes share a column only when those lanes' extents do not overlap |
| Layout.SecondPass | src/app/mod.rs:425-586 | pass 2 and the clamp over the pass-1 nodes: the same commits and flags, lane 0 kept, and every fact of `Assign` about extents, final lanes, targets and shared columns |
| Layout.SeedMainLane | src/app/mod.rs:285-288 | exactly the main-branch commits are assigned, all of them to lane 0 (`MainSeeds`) |
| Layout.Compact | src/app/mod.rs:471-560 | the mapping is `CompactionOf` over lanes `0..=` the largest assigned lane. The lane map is rewritten through it (`Compacted`). Each node's column and its `BranchTo`/`MergeFrom` targets are rewritten through that same mapping, and the commit and flag stay (`FixedNode`). Lane 0 stays and no lane moves right |
| Layout.ClampNodes | src/app/mod.rs:564-584 | the width is one past the largest assigned lane, so every assigned lane lies below it. Every node column and target is clamped with `min` (`FixedNode` with `Clamp`), which leaves node columns unchanged. The active columns are the assigned lanes, sorted and deduplicated |
| Layout.FixedShape | src/app/mod.rs:533-560 | rewriting columns keeps the connection kinds |
| Layout.ClampedNode | src/app/mod.rs:567-578 | a clamped node names no column past the bound and keeps a column already within it |
| Layout.WiredShape | src/app/mod.rs:333-414 | a node wired by pass 1 has no connections as a root, one for a single parent, and one `MergeFrom` per later parent for a merge |
| Layout.App.constructor | src/app/mod.rs:75-76 | a new app has graph width 0, no active columns and the given "not in current branch" set |
| Layout.App.AssignColumns | src/app/mod.rs:262-587 | as `Assign`, pass-1 lanes (`PassOne` from `MainSeeds`), targets and shared-column extents included, with the current-branch flag read from the lookup and the width and active columns stored in the app |
| Layout.App.IsCommitNotInCurrentBranch | src/app/mod.rs:647-650 | membership in the precomputed set; `AssignColumns` states that each node's flag is its negation |
| Layout.RunLength | src/app/mod.rs:253 | the leading run of non-whitespace characters, stopped by whitespace or the end |
| Layout.Words | src/app/mod.rs:253 | `split_whitespace`: every word is nonempty |
| Layout.WordsOfBlank | src/app/mod.rs:253 | whitespace alone has no words |
| Layout.RunLengthOfWord | src/app/mod.rs:253 | a word followed by whitespace or the end is exactly the leading run |
| Layout.WordsStep | src/app/mod.rs:253 | a word followed by whitespace is the first word, followed by the words of the rest |
| Layout.AheadBehind | src/app/mod.rs:218-259 | both counts fit in a `usize` |
| Layout.CountOr0 | src/app/mod.rs:255-256 | `parse().unwrap_or(0)`: the value fits in a `usize` |
| Layout.DigitsAreWords | src/app/mod.rs:253 | digits are not whitespace |
| Layout.AheadBehindOfDigits | src/app/mod.rs:250-257 | a successful "b TAB a NEWLINE" answer gives the counts read from `b` and `a` |
| Layout.WordsOfDigits | src/app/mod.rs:253 | "b TAB a" splits into the two words `b` and `a` |
| Layout.AheadBehindRoundTrip | src/app/mod.rs:245-257 | git's "behind TAB ahead NEWLINE" output is read back as (behind, ahead) |
| Layout.TrimOfDigits | src/app/mod.rs:253 | trimming "b TAB a NEWLINE" drops only the newline |
| Layout.TrimOfCore | src/app/mod.rs:253 | trimming drops exactly the trailing whitespace after a text with non-blank ends |
| Renderer.SelectGlyph | src/renderer.rs:35-70 | the glyph table: the head marker and the crossing ignore the flags, every other shape has a bold and a light character |
| Renderer.SelectGlyphFlags | src/renderer.rs:35-70 | the head flag never changes the glyph; apart from the head marker and the crossing, the bold and light glyphs differ |
| Renderer.CommitStyle | src/renderer.rs:72-86 | a plain foreground colour, grey exactly for commits outside the current branch |
| Renderer.CommitStyleBySync | src/renderer.rs:72-86 | within the current branch two styles are equal exactly when the sync statuses are, whatever the ancestry flag |
| Renderer.TextAppend | src/renderer.rs:88-159 | the text of joined spans is the joined texts |
| Renderer.TextPair | src/renderer.rs:132-136 | the text of one or two spans |
| Renderer.MergeSources | src/renderer.rs:104-106 | the lanes named by the node's `MergeFrom` connections, and no others |
| Renderer.MergeSourcesStep | src/renderer.rs:104-106 | the sources of a longer connection list extend the shorter one's by at most that connection's lane |
| Renderer.MinOr | src/renderer.rs:141 | `min().unwrap_or(d)`: the default on an empty list, else the smallest element |
| Renderer.NodeCell | src/renderer.rs:110-156 | every node-row cell is two characters in one or two spans |
| Renderer.NodeCellText | src/renderer.rs:110-156 | the node's lane shows the commit marker (the head marker when checked out) and a dash for a merge; a merge source shows a corner; lanes between the node and its nearest source show a dashed line, crossed when active; any other active lane shows a vertical line; the rest is blank |
| Renderer.RowLength | src/renderer.rs:110-158 | a row of two-character cells is two characters per column |
| Renderer.RowCellAt | src/renderer.rs:110-158 | column `col` sits at offset `2 * col` of the row text |
| Renderer.NodeRowText | src/renderer.rs:88-159 | a node row is two characters per column, each at its column's offset |
| Renderer.NodeRowCells | src/renderer.rs:110-156 | the cells of a node row, column by column; their text is stated by `NodeRowText` |
| Renderer.CellAtStep | src/renderer.rs:110-158 | appending a cell keeps the earlier cells at their offsets |
| Renderer.SliceOfAppend | src/renderer.rs:420-535 | a slice that lies in one part of a concatenation is that part's slice |
| Renderer.Renderer.constructor | src/renderer.rs:25-29 | a new renderer has no head commit |
| Renderer.Renderer.SetHeadCommit | src/renderer.rs:31-33 | the head commit becomes the given id |
| Renderer.Renderer.RenderNodeRow | src/renderer.rs:88-159 | the spans are the node cells of columns `0..width` in order, the head marker deciding by the stored head id, so the text is two characters per column |
| Renderer.Renderer.RenderEdgeRow | src/renderer.rs:161-538 | the spans are the styled cells of `EdgeCellState`, the composition of the drawing phases (active lanes, merge continuation or bends, the join into a child, the other lanes' merges); the row is two characters per column, every active lane is drawn, and so is the current node's lane when the next node is its child |
| Renderer.CrossCell | src/renderer.rs:268-278 | a horizontal line through a bend cell leaves a drawn cell |
| Renderer.MergeCross | src/renderer.rs:349-357 | another lane's merge line turns an empty cell into a dash and keeps cells drawn |
| Renderer.TeeCell | src/renderer.rs:290-303 | the target of a leftward bend is always drawn |
| Renderer.BendCell | src/renderer.rs:322-327 | the end of a bend is "╯─" exactly when a horizontal line already passes through the cell, else "╯ " |
| Renderer.BranchTargets | src/renderer.rs:185-193 | only the next node's column, only when the next node is a parent, and present whenever the current node branches to it |
| Renderer.BendTargets | src/renderer.rs:186-190 | only the given column, and present whenever a `BranchTo` names it |
| Renderer.MarkActive | src/renderer.rs:203-208 | a cell per column, a vertical line exactly in the active lanes |
| Renderer.MergeContinuation | src/renderer.rs:252-261 | a merge's own lane and its source lanes to the right become vertical lines, and nothing else changes |
| Renderer.BendRight | src/renderer.rs:264-279 | a tee at the node, a corner at the target, a horizontal line through the lanes between; the rest is kept |
| Renderer.BendLeft | src/renderer.rs:280-329 | the target becomes a tee, a curve or a bend, the lanes between get a horizontal line, the node's lane ends in a bend, and every spanned column records the node's lane as the source of its horizontal |
| Renderer.BendOne | src/renderer.rs:262-330 | one target of the node's bends gives the state `BendTo` describes: a right bend, a left bend, or nothing; drawn cells stay drawn |
| Renderer.BendsDrawn | src/renderer.rs:262-330 | the branch phase keeps the number of cells |
| Renderer.DrawBends | src/renderer.rs:262-330 | the state is `BendsDrawn`: the bends of the targets in order (right bend, left bend, or nothing for the node's own lane); drawn cells stay drawn, and the node's lane is drawn once it bends anywhere |
| Renderer.MergeFromRight | src/renderer.rs:347-389 | another lane merging leftward: a dash through empty lanes between, a bend at the merging lane, a tee at a vertical target; those columns record the merging lane; nothing outside the span changes |
| Renderer.MergeFromLeft | src/renderer.rs:389-416 | another lane merging rightward: a tee at the merging lane, a dash through empty lanes between, a bend at the target; those columns record the merging lane; nothing outside the span changes |
| Renderer.CrossRun | src/renderer.rs:349-357 | the merge line across the lanes between: each crossed cell as `MergeCross` makes it, and each recorded as reached from the merging lane |
| Renderer.MergingColumns | src/renderer.rs:210-238 | the other lanes merging into the next node are active lanes, in the order of the active list |
| Renderer.OtherMerging | src/renderer.rs:210-238 | the merging lanes as a function; nothing when either node is missing from the node list |
| Renderer.NodeIndex | src/renderer.rs:216-217 | `position`: an index holding the id, or nothing when no node has it |
| Renderer.OtherMergingColumns | src/renderer.rs:210-238 | exactly the active lanes other than the current node's where a node up to the current row lists the next node as a parent and has all its parents in later rows; none when either node is missing from the list |
| Renderer.DrawMerges | src/renderer.rs:345-417 | the state is `MergesDrawn`: each other lane's merge into the next node, in order, from the right or from the left; drawn cells stay drawn |
| Renderer.EdgeCells | src/renderer.rs:203-417 | the cell state is `EdgeCellState`; a cell per column, every active lane drawn, and the current node's lane drawn when the next node is its child |
| Renderer.EdgeCell | src/renderer.rs:420-534 | every edge-row cell is two characters; the composites "├─", "╭─", "╯─" and "│─" split into an upright and a dash span, other cells are one span, an empty cell is two spaces, and a cell is blank exactly when it is empty |
| Renderer.ColStyle | src/renderer.rs:420-535 | a column's style: the current node's for its own horizontal run, the merging lane's for another lane's run, else the lane's branch membership; stated through `EdgeCell` |
| Renderer.EdgeRowCells | src/renderer.rs:420-535 | each column renders two characters |
| Renderer.EdgeRowText | src/renderer.rs:420-537 | an edge row is two characters per column, each at its column's offset |
| Renderer.EdgeRowBlank | src/renderer.rs:420-537 | a column of the row is blank exactly when its cell is empty |
| Renderer.EdgeRow | src/renderer.rs:161-538 | as `RenderEdgeRow`, on values: the styled cells of `EdgeCellState` |
| Renderer.EdgeSpans | src/renderer.rs:420-535 | the spans are the styled cells of columns `0..width` in order |
| Ui.AbsorbNode | src/ui.rs:151-194 | the lanes node `j` keeps live are added, and each lane new to the map records node `j`'s branch membership; earlier entries stay |
| Ui.AbsorbSources | src/ui.rs:171-193 | exactly the merge source lanes whose parent is still drawn below are added, each new lane with the node's branch membership, earlier lanes keeping theirs |
| Ui.RowActiveColumns | src/ui.rs:145-227 | the active lanes of node row `i`, strictly increasing: the current lane, every lane of an earlier or current node with a parent below row `i`, and every merge-source lane of an earlier merge whose parent is below; the current lane has the current node's membership, and every other lane that of the first node keeping it live |
| Ui.RowStep | src/ui.rs:151-194 | absorbing node `j` extends the row loop's invariant to nodes `0..=j` |
| Ui.LiveInColumn | src/ui.rs:209-215 | `find`: the first node up to row `i` in the lane with a parent below, or none |
| Ui.CatchAllPassAddsNothing | src/ui.rs:205-222 | the final pass over `0..graph_width` never adds a lane: every lane a live node occupies is already active |
| Ui.EdgeActiveColumns | src/ui.rs:287-351 | the lanes passing through the edge row below row `idx`, strictly increasing: every lane of a node up to `idx` with a parent from the next row on, skipping the current node when it bends straight into the next in another lane, and the merge-source lanes whose parent is still to come; each with the membership of the first node keeping it live |
| Ui.EdgeStep | src/ui.rs:298-348 | absorbing node `j` extends the edge loop's invariant to nodes `0..=j` |
| Ui.TruncateAsWritten | src/ui.rs:267-277 | the summary as the code computes it: a line of more than 50 bytes keeps at most its first 47 characters and gets "..."; at most 50 bytes stays whole |
| Ui.TruncateAsWrittenLengthens | src/ui.rs:268-274 | seventeen three-byte characters get "..." appended with nothing cut, so the summary grows |
| Ui.ByteLenConst | src/ui.rs:268 | `n` copies of one character take `n` times its UTF-8 width in bytes |
| Ui.Truncate | src/ui.rs:267-277 | the intended summary: at most 50 characters is kept whole, otherwise the first 47 characters and "..."; never longer than 50 unless unchanged, never longer than the line |
| Ui.TruncateAsciiAgrees | src/ui.rs:267-277 | on ASCII text the written and the intended summary coincide |
| Ui.AsciiByteLen | src/ui.rs:268 | ASCII text has one byte per character |
| Ui.MessageStyle | src/ui.rs:255-265 | bold cyan for the selected commit, else bold green for a commit marked for a branch, else grey exactly for commits outside the current branch, else the default |
| Ui.FirstLine | src/ui.rs:267 | `lines().next().unwrap_or("")`: a prefix of the message without a newline, the whole message when it has none |
| Ui.GraphLines | src/ui.rs:136-366 | no lines for no commits, else `2n - 1`; line `2 * idx` is `Ui.NodeLine` over node row `idx`'s liveness (ghost results): the liveness of that row, exactly the spans of the renderer's node row over those lanes followed by a blank and the short id with the summary in the message style, the commit marker in its lane; line `2 * idx + 1` is `Ui.EdgeLine` over the edge row's liveness: exactly the renderer's edge row over those lanes, two characters per lane, every lane passing through drawn, and the current lane drawn when the next commit is its parent |
| Ui.LinesOkStep | src/ui.rs:230-366 | pushing one commit's node line, and its edge line when a next commit exists, keeps every earlier line where it was and extends the per-line invariant `Ui.LinesOk` by one commit |
| Ui.GraphRow | src/ui.rs:230-365 | given node row `idx`'s liveness, its node line is `Ui.NodeLine` and, when a next commit exists, the edge line below it is `Ui.EdgeLine` over that edge row's liveness (ghost results) |
| Ui.EdgeActiveBelow | src/ui.rs:287-351 | every lane passing through an edge row lies below the graph width |
| Ui.NodeRowLine | src/ui.rs:251-284 | the line is the node row followed by a blank span and the short id with the summary in the given style; its first `2 * width` characters are the node row's text, with the commit marker at its lane, and after them come a blank, the short id, a blank and the summary |
| Ui.RowLiveness | src/ui.rs:141-228 | one entry per commit, entry `k` being the liveness of node row `k` as `Ui.RowColumns` states it |
| Ui.EveryRowStep | src/ui.rs:226-227 | pushing row `k`'s lanes and membership keeps every earlier row's entry and extends the per-row invariant by one row |
| Ui.RenderLines | src/ui.rs:230-366 | for a non-empty graph, `2n - 1` lines, line `2 * idx` being `Ui.NodeLine` over the given liveness of row `idx`, line `2 * idx + 1` being `Ui.EdgeLine` over the liveness of the edge row below it |
| Ui.EdgeRowLine | src/ui.rs:286-364 | the edge row below commit `idx`, over the lanes its liveness pass finds, is `Ui.EdgeLine`: those lanes as `Ui.EdgeColumns` states them, the renderer's edge row over them, every one drawn, and the current lane drawn when the next commit is its parent |
| Ui.LastWhitespace | src/ui.rs:456 | `rposition(is_whitespace)`: the last whitespace position, or none when there is none |
| Ui.WrapEndAsWritten | src/ui.rs:449-465 | the chunk end as written: within the window, and not before the start |
| Ui.WrapStallsAtZeroWidth | src/ui.rs:440-465 | with width 0 the chunk end equals the start, so the loop never advances |
| Ui.WrapWidth | src/ui.rs:440 | the intended width is at least 1, equal to the given width when that is positive |
| Ui.WrapEnd | src/ui.rs:449-465 | the corrected chunk end always advances, stays within the window, and equals the written one for a positive width |
| Ui.WrapEndBreaks | src/ui.rs:450-458 | a chunk reaching the end of the line takes the rest; otherwise it ends just after the window's last whitespace, or takes the whole window when it has none |
| Ui.WrapPiecesCover | src/ui.rs:449-465 | the untrimmed chunks cover the line exactly, in order, each nonempty and at most the width long |
| Ui.TrimAll | src/ui.rs:462 | each chunk with its trailing whitespace removed |
| Ui.WrapChunksBounded | src/ui.rs:449-465 | every wrapped chunk is at most the width long and does not end in whitespace |
| Ui.TrimmedPiece | src/ui.rs:461-462 | trimming a bounded chunk keeps it bounded and leaves no trailing whitespace |
| Ui.WrapLine | src/ui.rs:446-465 | the wrap loop's chunks are the trimmed pieces of the line, each bounded and not ending in whitespace |
| Ui.WrapMessage | src/ui.rs:439-467 | the output is `Wrapped`: each message line's chunks in order, an empty line kept as one empty line; every output line fits the pane width less two (saturating, at least 1), and every message line gives at least one output line |
| Ui.WrappedBounded | src/ui.rs:439-467 | every wrapped line fits the wrap width, and each message line gives at least one |
| Ui.WrapNonEmpty | src/ui.rs:444-465 | a nonempty line gives at least one chunk |
| Types.NewValidationResult | src/app/types.rs:10-17 | a fresh result has issues, and its summary is the "could not detect" line alone |
| Types.HasIssues | src/app/types.rs:19-21 | issues exactly when the version is not acceptable or some command failed; its link to the summary is `IssuesAreReported` and `SummaryEmptyIff` |
| Types.Summary | src/app/types.rs:23-46 | the version line, the failed-command block, then the warning lines; `GetSummary` is proved equal to it |
| Types.GetSummary | src/app/types.rs:23-46 | the summary built piece by piece equals the version line, then the failed-command block, then the warning lines |
| Types.AppendFailedLines | src/app/types.rs:36-38 | appends one "  - cmd" line per failed command, in order |
| Types.AppendWarningLines | src/app/types.rs:41-43 | appends one "⚠ w" line per warning, in order |
| Types.SummaryEmptyIff | src/app/types.rs:19-46 | the summary is empty exactly when a supported version was detected and no command failed and there are no warnings |
| Types.WarningLinesNonEmpty | src/app/types.rs:41-43 | at least one warning gives nonempty text |
| Types.IssuesAreReported | src/app/types.rs:19-46 | a result with issues never has an empty summary |
| Types.FailedLinesAppend | src/app/types.rs:36-38 | the failed-command lines of two lists joined are the lines of each, joined |
| Types.DescriptionInjective | src/app/types.rs:101-125 | no two commands share a label |
| Types.Description | src/app/types.rs:101-125 | every command has a nonempty label; no two share one (`DescriptionInjective`) |
| Types.ConfirmationMessages | src/app/types.rs:127-149 | every command that needs confirmation has its own question; a command has a specific question exactly when it needs confirmation or is branch deletion or squashing |
| Types.NeedsConfirmation | src/app/types.rs:127-132 | exactly Checkout, Reset, ResetSoft, ResetHard, Rebase, Merge, CherryPick, Revert and Push; stated against the questions by `ConfirmationMessages` |
| Types.ConfirmationMessage | src/app/types.rs:134-149 | the question for each command, "Are you sure?" for the rest; stated by `ConfirmationMessages` |
| Navigation.StepsStayInRange | src/app/navigation.rs:6-28 | a step up or down keeps a selection usable; from nothing, it selects the first entry exactly when the list is nonempty |
| Navigation.StepUp | src/app/navigation.rs:6-16 | `move_selection_up` on the selection; stated by `StepsStayInRange` and `StepsUndo` |
| Navigation.StepDown | src/app/navigation.rs:18-28 | `move_selection_down` on the selection; stated by `StepsStayInRange`, `StepsUndo` and `StepsDownReach` |
| Navigation.StepsUndo | src/app/navigation.rs:6-28 | a step down that moves is undone by a step up, and a step up that moves is undone by a step down |
| Navigation.IndexStepsStayInRange | src/app/navigation.rs:173-183 | moving an index up or down keeps it inside the list, and each move that changes it is undone by the other |
| Navigation.StepsDownReach | src/app/navigation.rs:18-28 | from the first entry, `k` steps down reach entry `k`, or stop at the last one |
| Navigation.ScrollShowsSelection | src/app/navigation.rs:100-112 | after scrolling, the selected commit's row (`2 * idx`) is inside the window, and with two lines or more so is its edge row |
| Navigation.ScrollStable | src/app/navigation.rs:100-112 | nothing scrolls without a selection, or while the row is already above the window's last line |
| Navigation.ScrollFor | src/app/navigation.rs:100-112 | the new offset of `adjust_scroll`; stated by `ScrollShowsSelection` and `ScrollStable` |
| Navigation.CommandScrollShowsSelection | src/app/navigation.rs:114-124 | the selected command is inside the window after scrolling, and an already visible command does not scroll |
| Navigation.CommandScrollFor | src/app/navigation.rs:114-124 | the new offset of `adjust_command_scroll`; stated by `CommandScrollShowsSelection` |
| Navigation.PaneAfter | src/app/navigation.rs:144-151 | the next pane is always another pane |
| Navigation.PaneAfterCycle | src/app/navigation.rs:144-151 | the focus visits all four panes and is back after exactly four steps |
| Navigation.DetailsScrollUndo | src/app/navigation.rs:153-171 | scrolling down then up, or right then left, comes back; scrolling left stops at zero |
| Navigation.ColumnsLeft | src/app/navigation.rs:163-167 | five columns left, stopping at 0; stated by `DetailsScrollUndo` |
| Navigation.FileDiffArgs | src/app/navigation.rs:48-64 | `git diff` arguments ending in the path: `--cached` exactly for a staged file, `--no-index` exactly for an untracked one, and `--` before the path otherwise |
| Navigation.App.constructor | src/app/mod.rs:67-140 | the initial navigation state: nothing selected, no diff, all offsets 0, the graph pane focused, normal mode |
| Navigation.App.LoadCurrentDiff | src/app/navigation.rs:30-41 | with a valid selection and a diff delivered, shows it from the top; otherwise nothing changes |
| Navigation.App.UpdateSelection | src/app/navigation.rs:91-98 | the ancestry path becomes that of the selected commit (unchanged without a valid selection), then the diff loads as above |
| Navigation.App.MoveSelectionUp | src/app/navigation.rs:6-16 | the selection takes one step up; a moved selection is refreshed, and otherwise nothing changes |
| Navigation.App.MoveSelectionDown | src/app/navigation.rs:18-28 | the selection takes one step down; a moved selection is refreshed, and otherwise nothing changes |
| Navigation.App.AdjustScroll | src/app/navigation.rs:100-112 | the offset becomes the scroll that shows the selected row |
| Navigation.App.AdjustCommandScroll | src/app/navigation.rs:114-124 | the offset becomes the scroll that shows the selected command |
| Navigation.App.Quit | src/app/navigation.rs:126-128 | the app is marked to quit |
| Navigation.App.NextPane | src/app/navigation.rs:144-151 | the focus moves to the next pane |
| Navigation.App.DetailsScrollUp | src/app/navigation.rs:153-157 | the details pane scrolls up one line, stopping at 0 |
| Navigation.App.DetailsScrollDown | src/app/navigation.rs:159-161 | the details pane scrolls down one line |
| Navigation.App.DetailsScrollLeft | src/app/navigation.rs:163-167 | the details pane scrolls left five columns, stopping at 0 |
| Navigation.App.DetailsScrollRight | src/app/navigation.rs:169-171 | the details pane scrolls right five columns |
| Navigation.App.CommandUp | src/app/navigation.rs:173-177 | the selected action moves up unless it is the first |
| Navigation.App.CommandDown | src/app/navigation.rs:179-183 | the selected action moves down while a next one exists |
| Navigation.App.FileUp | src/app/navigation.rs:185-193 | the file selection takes one step up |
| Navigation.App.FileDown | src/app/navigation.rs:195-203 | the file selection takes one step down |
| Navigation.App.LoadFileDiff | src/app/navigation.rs:43-74 | with a valid file selected and a run that succeeded or printed something, shows its output from the top; otherwise nothing changes |
| Navigation.App.OpenFileDiffView | src/app/navigation.rs:76-83 | with a file selected, loads its diff and enters the diff view at the top-left; otherwise nothing changes |
| Navigation.App.CloseFileDiffView | src/app/navigation.rs:85-89 | back to normal mode, scrolled to the top-left |
| Dialogs.Typed | src/app/dialogs.rs:16-18 | typing appends exactly the character and keeps the buffer before it |
| Dialogs.Erased | src/app/dialogs.rs:20-22 | backspace drops the last character, and an empty buffer stays empty |
| Dialogs.EraseUndoesTyping | src/app/dialogs.rs:16-22 | backspace after typing gives back the buffer |
| Dialogs.TypedDigit | src/app/dialogs.rs:146-150 | only ASCII digits are appended, so a buffer of digits stays digits |
| Dialogs.Blank | src/app/dialogs.rs:25 | `trim().is_empty()` holds exactly when the input is all whitespace |
| Dialogs.Toggled | src/app/dialogs.rs:334-338 | a selected id is removed (one entry fewer), an unselected one is appended |
| Dialogs.RemovedAt | src/app/dialogs.rs:334-336 | removing position `p` shifts every later entry down by one and keeps the earlier ones |
| Dialogs.ToggledMembership | src/app/dialogs.rs:330-341 | on a duplicate-free list, toggling flips the membership of the id, keeps all other ids and adds no duplicate |
| Dialogs.ToggledTwice | src/app/dialogs.rs:330-341 | toggling twice restores the selected ids, and the list itself when the id was not selected |
| Dialogs.SquashCount | src/app/dialogs.rs:163-169 | a count is accepted only when the trimmed input is a `usize` above 1 |
| Dialogs.SquashLogArgs | src/app/dialogs.rs:180-182 | the `git log` arguments listing the commits to squash; stated by `SquashLogArgsCount` |
| Dialogs.SquashLogArgsCount | src/app/dialogs.rs:180-182 | exactly five arguments: `log`, the revision `id~N` whose N reads back as `count - 1`, the format, a `-N` limit that reads back as `count`, and the id, so exactly `count` commits are listed back from the selected one |
| Dialogs.SquashTarget | src/app/dialogs.rs:204 | the pending "id:count"; read back by `Commands.SquashTargetRoundTrip` |
| Dialogs.SquashQuestion | src/app/dialogs.rs:200-203 | the squash confirmation naming the count, the oldest and the newest commit; `App.CommitsListed` states that it becomes the pending message |
| Dialogs.DeleteBranchQuestion | src/app/dialogs.rs:97 | the force-delete warning naming the branch; `App.SelectBranchToDelete` states that it becomes the pending message |
| Dialogs.StatusAfter | src/app/dialogs.rs:31-37 | "✓ " and the message, or "✗ Error: " and the error; stated by `StatusAfterInjective` |
| Dialogs.StatusAfterInjective | src/app/dialogs.rs:31-37 | the status line tells success from failure and gives back the message or error it was made from |
| Dialogs.App.constructor | src/app/mod.rs:67-140 | the dialogs start closed: normal mode, empty buffers, nothing pending, nothing chosen |
| Dialogs.App.SetStatusMessage | src/app/navigation.rs:130-133 | the status line becomes the message |
| Dialogs.App.ClearExpiredStatusMessage | src/app/navigation.rs:135-142 | the status line is cleared once three seconds have passed, and otherwise kept |
| Dialogs.App.OpenCommitMessageDialog | src/app/dialogs.rs:6-9 | an empty buffer and the commit-message mode |
| Dialogs.App.CancelCommitMessage | src/app/dialogs.rs:11-14 | the buffer is cleared and the mode is normal |
| Dialogs.App.CommitMessageInputChar | src/app/dialogs.rs:16-18 | the character is typed into the commit message |
| Dialogs.App.CommitMessageBackspace | src/app/dialogs.rs:20-22 | the last character of the commit message is erased |
| Dialogs.App.SubmitCommitMessage | src/app/dialogs.rs:24-39 | the dialog always closes; a blank message is refused with its error; otherwise the commit of the message as typed is requested and its outcome reported |
| Dialogs.App.CancelBranchName | src/app/dialogs.rs:41-45 | the buffer and the pending commit are cleared and the mode is normal |
| Dialogs.App.BranchNameInputChar | src/app/dialogs.rs:113-115 | the character is typed into the branch name |
| Dialogs.App.BranchNameBackspace | src/app/dialogs.rs:117-119 | the last character of the branch name is erased |
| Dialogs.App.SubmitBranchName | src/app/dialogs.rs:121-145 | the dialog always closes; a blank name is refused; without a pending commit "no commit selected" is reported; otherwise the branch is requested at the pending commit, which is consumed, the buffer cleared and the outcome reported |
| Dialogs.App.BranchSelectionUp | src/app/dialogs.rs:47-51 | the cursor moves up unless it is on the first branch (also `delete_branch_selection_up`, 80-84) |
| Dialogs.App.BranchSelectionDown | src/app/dialogs.rs:53-57 | the cursor moves down while a next branch exists (also `delete_branch_selection_down`, 86-90) |
| Dialogs.App.SelectBranch | src/app/dialogs.rs:59-71 | with a branch under the cursor, the picker closes, its list and pending commit are cleared, and the checkout of that branch is requested; otherwise nothing changes |
| Dialogs.App.CancelBranchSelection | src/app/dialogs.rs:73-78 | the list, cursor and pending checkout are cleared and the mode is normal |
| Dialogs.App.SelectBranchToDelete | src/app/dialogs.rs:92-105 | with a branch under the cursor, the forced deletion is asked for with that branch's warning; otherwise nothing changes |
| Dialogs.App.CancelDeleteBranchSelection | src/app/dialogs.rs:107-111 | the list and cursor are cleared and the mode is normal |
| Dialogs.App.SquashCountInputChar | src/app/dialogs.rs:146-150 | only a digit is typed into the count |
| Dialogs.App.SquashCountBackspace | src/app/dialogs.rs:152-154 | the last digit is erased |
| Dialogs.App.CancelSquashCount | src/app/dialogs.rs:156-160 | the count and the pending commit are cleared and the mode is normal |
| Dialogs.App.SubmitSquashCount | src/app/dialogs.rs:162-215 | a count that is not above 1, or no pending commit, is refused with its error and the input kept; otherwise `git log` is asked for exactly `count` commits ending at the pending one, and its answer handled by `SquashListed` |
| Dialogs.App.SquashListed | src/app/dialogs.rs:184-214 | the input is cleared; two or more listed commits open the confirmation of the squash from the last listed to the first with the pending target "id:count"; an empty list, a single commit or a failed run is reported; a run that could not start reports nothing |
| Dialogs.App.CommitsListed | src/app/dialogs.rs:189-207 | no listed commit and a single one are refused with their own status line; two or more open the confirmation naming the oldest and newest, with the pending target "id:count" |
| Dialogs.App.RewordMessageInputChar | src/app/dialogs.rs:218-220 | the character is typed into the new message |
| Dialogs.App.RewordMessageBackspace | src/app/dialogs.rs:222-224 | the last character of the new message is erased |
| Dialogs.App.CancelRewordMessage | src/app/dialogs.rs:226-230 | the buffer and the pending commit are cleared and the mode is normal |
| Dialogs.App.SubmitRewordMessage | src/app/dialogs.rs:232-249 | a blank message is refused with the dialog left open; with a pending commit the reword is requested, the commit consumed, the dialog closed and the outcome reported; with none, nothing else happens |
| Dialogs.App.ConfigInputChar | src/app/dialogs.rs:250-252 | the character is typed into the setting |
| Dialogs.App.ConfigInputBackspace | src/app/dialogs.rs:254-256 | the last character of the setting is erased |
| Dialogs.App.CancelConfigInput | src/app/dialogs.rs:258-261 | the buffer is cleared and the mode is normal |
| Dialogs.App.SubmitConfig | src/app/dialogs.rs:263-297 | the dialog always closes; a blank value reports the user name or email error; otherwise the buffer is cleared, the setting requested and its outcome reported |
| Dialogs.App.RemoteHostInputChar | src/app/dialogs.rs:317-319 | the character is typed into the URL |
| Dialogs.App.RemoteHostBackspace | src/app/dialogs.rs:321-323 | the last character of the URL is erased |
| Dialogs.App.CancelRemoteHostInput | src/app/dialogs.rs:325-328 | the buffer is cleared and the mode is normal |
| Dialogs.App.SubmitRemoteHost | src/app/dialogs.rs:299-315 | the dialog always closes; a blank URL is refused; otherwise the buffer is cleared, the URL change requested and its outcome reported |
| Dialogs.App.SelectedId | src/app/dialogs.rs:331-333 | there is an id exactly when the selection is a node |
| Dialogs.App.ToggleCommitSelection | src/app/dialogs.rs:330-341 | the selected node's id is toggled in the chosen ids, nothing changes without one, and a duplicate-free list stays duplicate-free |
| Dialogs.App.FinishCommitSelection | src/app/dialogs.rs:343-350 | with nothing chosen, back to normal mode with "No commits selected"; otherwise the branch name is asked for |
| Dialogs.App.CancelCommitSelection | src/app/dialogs.rs:352-355 | the chosen ids are cleared and the mode is normal |
| Dialogs.App.AssignBranchNameInputChar | src/app/dialogs.rs:357-359 | the character is typed into the branch name |
| Dialogs.App.AssignBranchNameBackspace | src/app/dialogs.rs:361-363 | the last character of the branch name is erased |
| Dialogs.App.CancelAssignBranchName | src/app/dialogs.rs:365-369 | the buffer and the chosen ids are cleared and the mode is normal |
| Dialogs.App.SubmitAssignBranchName | src/app/dialogs.rs:371-390 | a blank name is refused with everything kept; otherwise the nonempty trimmed name is handed on; success reports its message verbatim and clears the dialog and the chosen ids, while failure only reports "Error: …" |
| Commands.CharIndexAtByte | src/app/commands.rs:1125-1126 | a byte offset that lands on a character boundary names the prefix of exactly that many UTF-8 bytes; otherwise the slice panics |
| Commands.AsciiByteIndex | src/app/commands.rs:461 | over ASCII text a byte offset is the character index |
| Commands.ByteIndexPastEnd | src/app/commands.rs:1125-1126 | an offset past the end of the string has no character index (the slice panics) |
| Commands.StatusOfCode | src/app/commands.rs:1128-1134 | each file status holds exactly for its porcelain codes: staged for "A ", "M ", "D "; untracked for "??"; deleted for " D"; modified for every other code |
| Commands.ParseStatusLine | src/app/commands.rs:1124-1136 | one porcelain line: its two-byte code and the path from byte 3, none where the slicing panics; stated by `ParseStatusLineOf` and `ShortStatusLinePanics` |
| Commands.ParseStatusLineOf | src/app/commands.rs:1125-1136 | a line of an ASCII code, a separator and a path parses to that path with the code's status |
| Commands.ShortStatusLinePanics | src/app/commands.rs:1125-1126 | a line shorter than three bytes panics |
| Commands.NonEmptyLines | src/app/commands.rs:1122-1123 | the kept lines are exactly the non-empty ones; order and multiplicity are stated by `NonEmptyLinesAppend` and `NonEmptyLinesOne` |
| Commands.NonEmptyLinesAppend | src/app/commands.rs:1122-1123 | filtering distributes over concatenation, so the kept lines keep their order and multiplicity |
| Commands.NonEmptyLinesOne | src/app/commands.rs:1123 | a single line is kept exactly when it is nonempty |
| Commands.ParseStatusLines | src/app/commands.rs:1121-1138 | the list exists exactly when every line parses, and then holds each line's parse in order |
| Commands.StatusFilesAfter | src/app/commands.rs:1111-1141 | a failed or unstarted `git status` keeps the old list; a successful one yields the parse of its non-empty output lines |
| Commands.Split | src/app/commands.rs:140 | splitting gives at least one piece and no piece holds the separator |
| Commands.SplitJoin | src/app/commands.rs:140 | joining the pieces with the separator gives the string back |
| Commands.SplitTwo | src/app/commands.rs:140-142 | two separator-free pieces joined by the separator split into exactly those two |
| Commands.ParseSquashTarget | src/app/commands.rs:138-143 | an accepted target is a ':'-free id, then ':', then a count that parses as a `usize` |
| Commands.SquashTargetRoundTrip | src/app/commands.rs:138-143 | the "id:count" the squash dialog records reads back as the same id and count |
| Commands.SquashTargetWithTwoColons | src/app/commands.rs:141 | a target with two ':' is not squashed |
| Commands.PushErrorPrecedence | src/app/commands.rs:875-887 | "rejected" with "fetch first" wins over every later test; a non-fast-forward is reported exactly when that first test fails and the text mentions one; an unmatched error is passed on trimmed |
| Commands.ClassifyPushError | src/app/commands.rs:876-887 | the failure class of the standard error; its precedence is stated by `PushErrorPrecedence` |
| Commands.PushAdvice | src/app/commands.rs:878-886 | the advice text of each failure class, the trimmed error for an unrecognised one |
| Commands.PushFailureMessage | src/app/commands.rs:876-887 | "Push rejected: " for the two rejections, "Push failed: " otherwise, then the advice; stated by `PushMessageKinds` |
| Commands.PushMessageKinds | src/app/commands.rs:876-887 | a message reads "Push rejected: " exactly for a remote with new commits or a non-fast-forward update, and "Push failed: " for every other failure |
| Commands.PushOutcome | src/app/commands.rs:860-889 | a push succeeds exactly when git started and succeeded; git not starting gives "Failed to execute git: " and the reason; any other failure carries the message for its classified error |
| Commands.PushOutcomeKinds | src/app/commands.rs:860-889 | a failed push's error starts with "Failed to execute git: " exactly when git did not start, and with "Push rejected: " exactly when the push was rejected |
| Commands.Classes | src/app/commands.rs:955-992 | one class per remote branch, each the class of that branch's fetch |
| Commands.ClassOf | src/app/commands.rs:957-991 | the class of one remote branch; the counting is stated by `CountFetch`, `PullAll` and `TallyPartition` |
| Commands.Tally | src/app/commands.rs:963-991 | a counter is never above the number of branches |
| Commands.TallyExtremes | src/app/commands.rs:963-991 | a counter is 0 exactly when no branch has that class, and equals the number of branches exactly when every branch has it |
| Commands.TallyPartition | src/app/commands.rs:955-992 | every remote branch lands in exactly one class |
| Commands.NotOriginIffSkipped | src/app/commands.rs:957-961 | a branch is skipped exactly when it is not under `origin/`, whatever its fetch did |
| Commands.SkippedCount | src/app/commands.rs:955-992 | in any list of branches, mixed or not, the skipped ones are exactly those outside `origin/` |
| Commands.OnlyOriginCounted | src/app/commands.rs:955-992 | in any list of branches, mixed or not, the skipped count is the number of branches outside `origin/`, and the created, updated, locally changed, failed and quiet counts add up to the rest |
| Commands.CountNote | src/app/commands.rs:999-1007 | the created or skipped note: empty exactly when its count is 0, else closed by ')' |
| Commands.ErrorsNote | src/app/commands.rs:1009-1011 | the errors note is present exactly when there were errors, and ends in " errors" |
| Commands.NoErrorsEnding | src/app/commands.rs:999-1007 | a summary without the errors note cannot end in " errors" |
| Commands.PullSummaryShape | src/app/commands.rs:997-1013 | the summary opens with the number of created plus updated branches, and ends with an error count exactly when there were errors |
| Commands.PullSummary | src/app/commands.rs:997-1011 | the summary text; its shape is stated by `PullSummaryShape` |
| Commands.CountFetch | src/app/commands.rs:963-991 | after one branch, exactly the counter its class names goes up by one |
| Commands.PullAll | src/app/commands.rs:949-1013 | the counters are the tallies of the created, updated, locally changed and failed branches, and the message summarises them |
| Commands.BuildPullSummary | src/app/commands.rs:997-1011 | building the message step by step gives the summary |
| Commands.ShortSha | src/app/commands.rs:461 | a full hash's abbreviation is its first seven characters |
| Commands.Reverse | src/app/commands.rs:460 | `rev()`: the same entries, in the opposite order |
| Commands.SedRules | src/app/commands.rs:459-468 | the sed rules for an oldest-first list; their layout is stated by `SedRulesLayout` |
| Commands.SedRulesLayout | src/app/commands.rs:459-468 | the script holds one fixed-width rule per commit after the oldest, in order, each marking that commit "squash"; the oldest keeps "pick" |
| Commands.BuildSedCommand | src/app/commands.rs:459-468 | the loop over the newest-first list builds the rules for the list oldest first |
| Commands.SquashScriptCases | src/app/commands.rs:453-475 | the rebase goes ahead exactly when there are two commits or more; an empty list and a single commit are each refused with their own error, and the editor is `sed -i` over the rules |
| Commands.SquashScript | src/app/commands.rs:453-475 | refusal or sequence editor for a newest-first list; its cases are stated by `SquashScriptCases` |
| Commands.PrepareSquash | src/app/commands.rs:443-475 | preparing the rebase gives the refusal or the sequence editor the plan describes |
| Auth.Authenticate | src/auth.rs:2-8 | credentials pass exactly when the user name has at least 3 bytes and the password at least 8 |
| Auth.OneWideCharacterIsLongEnough | src/auth.rs:7 | lengths are counted in bytes, so one 3-byte character is a long enough user name and two ASCII letters are not |
| Auth.HashPassword | src/auth.rs:10-12 | the hash is the password behind the prefix "hashed_" |
| Auth.HashPasswordInjective | src/auth.rs:10-12 | the password can be read back from its hash, so distinct passwords hash differently |

## Left out

- Git itself is not modelled (libgit2 calls, `git`/`sh` processes, the temporary files of the reword path). Their results are parameters: `Outcome`, `ProcessOutput`, the commit map and the main tip.
- src/app.rs is not part of this model. It is an older copy of the `App` in src/app/mod.rs, whose `assign_columns` is identical.
- src/main.rs (terminal setup and key loop), src/git.rs (libgit2 wrappers) and src/cache.rs (an unused map wrapper) are not part of this model.
- The background validation thread and its mutex are not modelled. `Types` models only the summary built from its result.
- Wall-clock time is not modelled. `ClearExpiredStatusMessage` takes the elapsed whole seconds as a parameter.
- ratatui layout, widgets and colours are not modelled. Styles are an abstract enum, and glyphs are single characters whose display width is ignored.
- The `Session` struct of src/auth.rs has no behaviour and is not modelled.
- `active_lanes` in `assign_columns` is written but never read, so it is left out.
- `Layout.App.AssignColumns` requires a ghost rank that decreases along parents. On a cyclic first-parent chain the source loops forever.
- `Renderer.Renderer.RenderEdgeRow` requires every column it touches to lie below the width, where the source indexes `col_chars`. This precondition is slightly stronger than the set of rows the source draws without panicking.
- Counters and indices are unbounded naturals. `usize` overflow on `+ 1` cannot happen for realistic list sizes and is not modelled; the parsed squash count is bounded by `usize::MAX`.
- `Navigation.App.AdjustCommandScroll` requires a height of at least 1, so height 0 is excluded. A short terminal does pass 0. The caller at src/ui.rs:548-549 passes the inner height of the git-actions pane. That pane is 30% of the left column (src/ui.rs:44-49), under a main area of at least 10 rows (src/ui.rs:16), so a terminal only a few rows tall gives it an inner height of 0. Then `viewport_height - 1` at src/app/navigation.rs:122 underflows: a debug build panics, and a release build wraps, leaving the offset at 0. The model does not cover that input.
- `Commands.SedRules`, `Commands.BuildSedCommand`, `Commands.SquashScript` and `Commands.PrepareSquash` require full hashes whose first seven characters are ASCII, as `git log --format=%H` prints them. On a shorter line the source's `[..7]` panics.
- `Commands.PullAll` counts the failed branches but does not model the error texts; only their number reaches the summary.
- The remaining steps of `confirm_command` are not modelled: branch deletion and `execute_command` dispatch, which only run git. Of `execute_squash_commits`, only the commit-list and sed-script part is modelled.
- The remote-branch list of `cmd_pull_all` is an input after its HEAD filter, and so is the local-branch list.
- Of `update_branch_ahead_behind`, only the parse of the `rev-list --count` output is modelled. Finding the current branch and its upstream runs git.
- The graph refresh that follows a successful assign, squash or push is `init`, which reloads from git, and is not modelled.
- `Layout.AheadBehind`: its own ensures states only that both counts are `usize` values. What it reads back is stated by `Layout.AheadBehindRoundTrip`.
- Ui.NodeRowLine: the summary it shows, as its predicate `Ui.NodeLine` states it, is the corrected `Ui.Truncate`, which counts characters. The source tests bytes, as `Ui.TruncateAsWritten` does, and the two differ on multi-byte summaries such as seventeen "€" (see Findings). They agree on ASCII text (`Ui.TruncateAsciiAgrees`).
- Ui.GraphRow: its node line carries the corrected `Ui.Truncate` summary, not the byte-tested one of the source (see `Ui.NodeRowLine`).
- Ui.GraphLines: every node row carries the corrected `Ui.Truncate` summary, not the byte-tested one of the source (see `Ui.NodeRowLine`).
- Ui.RenderLines: every node line carries the corrected `Ui.Truncate` summary, not the byte-tested one of the source (see `Ui.NodeRowLine`).
- Ui.WrapMessage: a pane at most 2 columns wide gives a wrap width of 0, where the source loops forever. The model wraps at `Ui.WrapWidth`, which is at least 1 (see Findings).

## Findings

| source | as written | input that shows it | evidently intended | confidence | as-written member | corrected member |
|---|---|---|---|---|---|---|
| src/ui.rs:267-277 | a summary line is truncated when it has more than 50 bytes, but is cut at its 48th character, and "..." is always appended | a line of 17 three-byte characters ("€" × 17): 51 bytes, so nothing is cut and "..." is added, making it longer | truncate lines of more than 50 characters to 47 characters plus "...", so the ellipsis always stands for removed text | medium, not executed | Ui.TruncateAsWrittenLengthens | Ui.Truncate |
| src/ui.rs:439-465 | the wrap loop advances `start` by `min(start + wrap_width, len)`, and `wrap_width` is `area.width - 2` saturating | a details pane 2 columns wide or narrower, so `wrap_width == 0`, with any non-empty message line: the chunk end equals `start` and the loop never ends | every chunk holds at least one character (a width of at least 1), so wrapping always terminates | high, not executed | Ui.WrapStallsAtZeroWidth | Ui.WrapLine |
