/** The commit graph: commits keyed by id, the parent-to-child links built
    from the parent lists, Kahn's topological order with its newest-first
    tie-break, the ancestry path of the selected commit, and the lane
    allocator `RailwayLayout`. */
module Graph {
  import opened Util

  datatype Commit = Commit(
    id: string,
    shortId: string,
    parents: seq<string>,
    children: seq<string>,
    message: string,
    author: string,
    timestamp: int)

  /** How a row's lane connects to the lanes of the rows below. */
  datatype Connection =
    | Vertical
    | MergeFrom(col: nat)
    | BranchTo(col: nat)
    | ShiftLeft(count: nat)
    | PassThrough(col: nat)

  datatype GraphNode = GraphNode(
    commit: Commit,
    column: nat,
    connections: seq<Connection>,
    inCurrentBranch: bool)

  datatype SyncStatus = Synced | LocalOnly | RemoteOnly | Diverged

  type Commits = map<string, Commit>

  // ---------------------------------------------------------------------
  // Relations on a commit map

  /** Every child list agrees with the parent lists: `c` is listed as a child
      of a stored commit `p` exactly when `c` is stored and names `p` as a
      parent. This is what `build_graph` establishes from empty child lists. */
  ghost predicate ChildrenConsistent(cs: Commits) {
    forall p, c :: p in cs ==> (c in cs[p].children <==> c in cs && p in cs[c].parents)
  }

  /** `rank` witnesses that the stored parent links contain no cycle: every
      stored parent of a stored commit has a smaller rank. */
  ghost predicate RankedByParents(cs: Commits, rank: map<string, nat>) {
    (forall c :: c in cs ==> c in rank)
    && (forall c, p :: c in cs && p in cs[c].parents && p in cs ==> rank[p] < rank[c])
  }

  /** An id that Kahn's in-degree table mentions: a stored commit, or an id
      that some stored commit lists as a child. */
  ghost predicate Listed(cs: Commits, x: string) {
    x in cs || exists q :: q in cs && x in cs[q].children
  }

  /** `ts` of a stored commit, 0 for an unknown id (`unwrap_or(0)`). */
  function TimestampOf(cs: Commits, id: string): int {
    if id in cs then cs[id].timestamp else 0
  }

  /** The comparator of both `sort_by` calls in `topological_sort`: newer
      first, then the smaller id. */
  predicate Precedes(cs: Commits, a: string, b: string) {
    TimestampOf(cs, a) > TimestampOf(cs, b)
    || (TimestampOf(cs, a) == TimestampOf(cs, b) && StrLt(a, b))
  }

  lemma PrecedesIrreflexive(cs: Commits, a: string)
    ensures !Precedes(cs, a, a)
  {
    StrLtIrreflexive(a);
  }

  lemma PrecedesTotal(cs: Commits, a: string, b: string)
    ensures a == b || Precedes(cs, a, b) || Precedes(cs, b, a)
  {
    StrLtTotal(a, b);
  }

  lemma PrecedesAsymmetric(cs: Commits, a: string, b: string)
    requires Precedes(cs, a, b)
    ensures !Precedes(cs, b, a)
  {
    if TimestampOf(cs, a) == TimestampOf(cs, b) {
      StrLtAsymmetric(a, b);
    }
  }

  /** "Not before" is transitive, so a sequence sorted pairwise-adjacent is
      sorted throughout. */
  lemma NotPrecedesTransitive(cs: Commits, a: string, b: string, c: string)
    requires !Precedes(cs, a, b) && !Precedes(cs, b, c)
    ensures !Precedes(cs, a, c)
  {
    StrLtTotal(a, b);
    StrLtTotal(b, c);
    StrLtIrreflexive(a);
    if StrLt(c, b) && StrLt(b, a) {
      StrLtTransitive(c, b, a);
    }
    if StrLt(c, a) {
      StrLtAsymmetric(c, a);
    }
  }

  ghost predicate SortedNewestFirst(cs: Commits, s: seq<string>) {
    forall i, j :: 0 <= i < j < |s| ==> !Precedes(cs, s[j], s[i])
  }

  function InsertNewestFirst(cs: Commits, x: string, s: seq<string>): (r: seq<string>)
    ensures multiset(r) == multiset(s) + multiset{x}
  {
    if s == [] then [x]
    else if Precedes(cs, s[0], x) then
      assert s == [s[0]] + s[1..];
      [s[0]] + InsertNewestFirst(cs, x, s[1..])
    else [x] + s
  }

  lemma {:induction false} InsertKeepsSorted(cs: Commits, x: string, s: seq<string>)
    requires SortedNewestFirst(cs, s)
    ensures SortedNewestFirst(cs, InsertNewestFirst(cs, x, s))
  {
    if s != [] {
      var r := InsertNewestFirst(cs, x, s);
      if Precedes(cs, s[0], x) {
        var rest := InsertNewestFirst(cs, x, s[1..]);
        assert SortedNewestFirst(cs, s[1..]) by {
          forall i, j | 0 <= i < j < |s[1..]| ensures !Precedes(cs, s[1..][j], s[1..][i]) {
            assert s[1..][j] == s[j + 1] && s[1..][i] == s[i + 1];
          }
        }
        InsertKeepsSorted(cs, x, s[1..]);
        assert r == [s[0]] + rest;
        forall i, j | 0 <= i < j < |r| ensures !Precedes(cs, r[j], r[i]) {
          assert r[j] == rest[j - 1];
          if i > 0 {
            assert r[i] == rest[i - 1];
          } else {
            assert r[j] in multiset(rest);
            if r[j] == x {
              PrecedesAsymmetric(cs, s[0], x);
            } else {
              assert r[j] in multiset(s[1..]);
              var k :| 0 <= k < |s[1..]| && s[1..][k] == r[j];
              assert s[k + 1] == r[j];
            }
          }
        }
      } else {
        assert r == [x] + s;
        forall i, j | 0 <= i < j < |r| ensures !Precedes(cs, r[j], r[i]) {
          assert r[j] == s[j - 1];
          if i > 0 {
            assert r[i] == s[i - 1];
          } else if j > 1 {
            NotPrecedesTransitive(cs, s[j - 1], s[0], x);
          }
        }
      }
    }
  }

  /** `sort_by` with the newest-first comparator. Insertion sort stands for
      Rust's merge sort: SortIsUnique shows that every sorting of the same
      elements gives the same sequence. */
  function SortNewestFirst(cs: Commits, s: seq<string>): (r: seq<string>)
    ensures multiset(r) == multiset(s)
    ensures SortedNewestFirst(cs, r)
  {
    if s == [] then []
    else
      assert s == [s[0]] + s[1..];
      var rest := SortNewestFirst(cs, s[1..]);
      InsertKeepsSorted(cs, s[0], rest);
      InsertNewestFirst(cs, s[0], rest)
  }

  /** The comparator is total, so any two sorted arrangements of the same
      ids coincide: the order of the ready queue does not depend on the
      hash map's iteration order. */
  lemma {:induction false} SortIsUnique(cs: Commits, a: seq<string>, b: seq<string>)
    requires SortedNewestFirst(cs, a) && SortedNewestFirst(cs, b)
    requires multiset(a) == multiset(b)
    ensures a == b
  {
    if a != [] {
      assert |multiset(a)| == |a| && |multiset(b)| == |b|;
      SortedHeadsAgree(cs, a, b);
      TailMultiset(a);
      TailMultiset(b);
      SortIsUnique(cs, a[1..], b[1..]);
      assert a == [a[0]] + a[1..];
      assert b == [b[0]] + b[1..];
    }
  }

  /** Two sorted arrangements of the same nonempty ids start alike. */
  lemma SortedHeadsAgree(cs: Commits, a: seq<string>, b: seq<string>)
    requires SortedNewestFirst(cs, a) && SortedNewestFirst(cs, b)
    requires multiset(a) == multiset(b) && a != [] && b != []
    ensures a[0] == b[0]
  {
    assert b[0] in multiset(a);
    assert a[0] in multiset(b);
    var k :| 0 <= k < |a| && a[k] == b[0];
    var m :| 0 <= m < |b| && b[m] == a[0];
    PrecedesIrreflexive(cs, a[0]);
    PrecedesIrreflexive(cs, b[0]);
    assert !Precedes(cs, b[0], a[0]) by {
      if k > 0 {
        assert !Precedes(cs, a[k], a[0]);
      }
    }
    assert !Precedes(cs, a[0], b[0]) by {
      if m > 0 {
        assert !Precedes(cs, b[m], b[0]);
      }
    }
    PrecedesTotal(cs, a[0], b[0]);
  }

  // ---------------------------------------------------------------------
  // Ancestry

  /** `s` is closed under the parents of its stored members. */
  ghost predicate ParentClosed(cs: Commits, s: set<string>) {
    forall x, p :: x in s && x in cs && p in cs[x].parents ==> p in s
  }

  /** `a` is the least set that contains `start` and is closed under the
      parents of stored members: exactly the ids reachable from `start` by
      following parent links. Unknown ids are members but are not expanded. */
  ghost predicate IsAncestrySet(cs: Commits, start: string, a: set<string>) {
    start in a
    && ParentClosed(cs, a)
    && forall s :: start in s && ParentClosed(cs, s) ==> a <= s
  }

  /** Every id that can be reached from `start` lies in this finite set. */
  function ReachableBound(cs: Commits, start: string): set<string> {
    {start} + set x, p | x in cs && p in cs[x].parents :: p
  }

  /** The ancestry set is determined by the graph and the start id. */
  lemma AncestrySetUnique(cs: Commits, start: string, a: set<string>, b: set<string>)
    requires IsAncestrySet(cs, start, a) && IsAncestrySet(cs, start, b)
    ensures a == b
  {
  }

  /** Selecting a stored root commit puts only that commit on the path. */
  lemma AncestryOfRoot(cs: Commits, r: string, a: set<string>)
    requires r in cs && cs[r].parents == []
    requires IsAncestrySet(cs, r, a)
    ensures a == {r}
  {
    assert ParentClosed(cs, {r});
  }

  /** Selecting an id the graph does not hold puts only that id on the path. */
  lemma AncestryOfUnknown(cs: Commits, x: string, a: set<string>)
    requires x !in cs
    requires IsAncestrySet(cs, x, a)
    ensures a == {x}
  {
    assert ParentClosed(cs, {x});
  }

  /** The path of a commit is its own id plus the paths of its parents. */
  lemma {:induction false} AncestryOfCommit(cs: Commits, x: string, a: set<string>, pa: map<string, set<string>>)
    requires x in cs
    requires IsAncestrySet(cs, x, a)
    requires forall p :: p in cs[x].parents ==> p in pa && IsAncestrySet(cs, p, pa[p])
    ensures forall y :: y in a <==> y == x || exists p :: p in cs[x].parents && y in pa[p]
  {
    var u := {x} + set p, y | p in cs[x].parents && y in pa[p] :: y;
    assert ParentClosed(cs, u) by {
      forall z, q | z in u && z in cs && q in cs[z].parents ensures q in u {
        if z != x {
          var p :| p in cs[x].parents && z in pa[p];
          assert ParentClosed(cs, pa[p]);
          assert q in pa[p];
        } else {
          assert q in pa[q];
        }
      }
    }
    assert a <= u;
    forall p | p in cs[x].parents ensures pa[p] <= a {
      assert p in a;
    }
  }

  // ---------------------------------------------------------------------
  // The graph object

  class CommitGraph {
    var commits: Commits
    var nodes: seq<GraphNode>
    var ancestryPath: set<string>

    /** Every commit is stored under its own id, as `add_commit` does. */
    ghost predicate Valid()
      reads this
    {
      forall k :: k in commits ==> commits[k].id == k
    }

    constructor ()
      ensures commits == map[] && nodes == [] && ancestryPath == {}
      ensures Valid()
    {
      commits := map[];
      nodes := [];
      ancestryPath := {};
    }

    method AddCommit(c: Commit)
      modifies this`commits
      ensures commits == old(commits)[c.id := c]
      ensures old(Valid()) ==> Valid()
    {
      commits := commits[c.id := c];
    }

    /** For every stored commit and each of its stored parents, appends the
        commit's id to the parent's children unless it is already there. */
    method BuildGraph()
      modifies this`commits
      ensures commits.Keys == old(commits).Keys
      // Only child lists change, and they only grow.
      ensures forall k :: k in commits ==> commits[k] == old(commits)[k].(children := commits[k].children)
      ensures forall k :: k in commits && Distinct(old(commits)[k].children) ==> Distinct(commits[k].children)
      ensures forall k, c :: k in commits ==>
        (c in commits[k].children <==> c in old(commits)[k].children || (c in commits && k in commits[c].parents))
      ensures (forall k :: k in old(commits) ==> old(commits)[k].children == []) ==> ChildrenConsistent(commits)
      ensures old(Valid()) ==> Valid()
    {
      var ids := SetToSeq(commits.Keys);
      ghost var o := commits;
      commits := LinkAll(commits, ids);
      LinkedUpToAll(o, commits, ids);
    }

    /** Kahn's algorithm over the child lists. The ready queue starts as the
        ids of in-degree 0 sorted newest first and is used as a stack (`pop`
        takes the last); the children of each emitted stored commit are
        sorted the same way before their in-degrees are decremented. */
    method TopologicalSort() returns (result: seq<string>)
      requires Valid()
      ensures Distinct(result)
      ensures forall x :: x in result ==> Listed(commits, x)
      ensures ParentsFirst(commits, result)
      // An id is left out only while a stored commit listing it is left out.
      ensures forall x :: Listed(commits, x) && x !in result ==>
        exists q :: q in commits && q !in result && x in commits[q].children
      // On a consistent acyclic graph every commit is emitted.
      ensures forall rank :: ChildrenConsistent(commits) && RankedByParents(commits, rank) ==>
        (forall k :: k in result <==> k in commits) && |result| == |commits|
      // The order is Kahn's run from the in-degree table, which exists and is unique.
      ensures exists deg :: InDegreeTable(commits, deg)
      ensures forall deg :: InDegreeTable(commits, deg) ==> result == KahnOrder(commits, deg)
    {
      var ks := SetToSeq(commits.Keys);
      var deg := InDegrees(commits, ks);
      var queue := ReadyIds(commits, deg);
      KahnStart(commits, ks, deg, queue);
      ghost var emitted, deg';
      result, deg', emitted := KahnLoop(commits, ks, deg, queue);
      KahnFinish(commits, ks, deg.Keys, deg', emitted, result);
      KahnOrderOfTable(commits, ks, deg, result);
    }

    /** Clears the path, then walks the parent links from `commitId` with an
        explicit stack, expanding each id once. */
    method TraceAncestry(commitId: string)
      modifies this`ancestryPath
      ensures IsAncestrySet(commits, commitId, ancestryPath)
    {
      ancestryPath := {};
      var stack := [commitId];
      ghost var bound := ReachableBound(commits, commitId);
      TraceStart(commits, commitId);
      while |stack| > 0
        invariant TraceState(commits, commitId, bound, ancestryPath, stack)
        decreases |bound - ancestryPath|, |stack|
      {
        var current := stack[|stack| - 1];
        ghost var before := stack;
        stack := stack[..|stack| - 1];
        assert before == stack + [current];
        if current in ancestryPath {
          TraceSkip(commits, commitId, bound, ancestryPath, stack, current);
          continue;
        }
        ghost var rest := stack;
        ghost var pathBefore := ancestryPath;
        ancestryPath := ancestryPath + {current};
        if current in commits {
          stack := stack + commits[current].parents;
        }
        TraceVisit(commits, commitId, bound, pathBefore, rest, current, stack);
      }
      TraceDone(commits, commitId, bound, ancestryPath);
    }

    predicate IsOnAncestryPath(commitId: string)
      reads this
    {
      commitId in ancestryPath
    }
  }

  /** After a trace from `start`, a commit is on the ancestry path exactly
      when every parent-closed set holding `start` holds it. */
  lemma OnAncestryPathIff(g: CommitGraph, start: string, x: string)
    requires IsAncestrySet(g.commits, start, g.ancestryPath)
    ensures g.IsOnAncestryPath(x) <==> forall s :: start in s && ParentClosed(g.commits, s) ==> x in s
  {
    if !g.IsOnAncestryPath(x) {
      assert start in g.ancestryPath && ParentClosed(g.commits, g.ancestryPath);
    }
  }

  // ---------------------------------------------------------------------
  // Pieces of `build_graph`

  /** `c` with `id` appended to its children when its key `k` is one of
      `parents` and the children do not list `id` yet. */
  function LinkChild(c: Commit, id: string, parents: seq<string>, k: string): Commit {
    if k in parents && id !in c.children then c.(children := c.children + [id]) else c
  }

  /** The inner loop of `build_graph` for one commit: each stored parent
      that does not list `id` yet gets it appended to its children. */
  method LinkToParents(cs: Commits, id: string) returns (r: Commits)
    requires id in cs
    ensures r.Keys == cs.Keys
    ensures forall k :: k in r ==> r[k] == LinkChild(cs[k], id, cs[id].parents, k)
  {
    r := cs;
    var ps := cs[id].parents;
    for j := 0 to |ps|
      invariant r.Keys == cs.Keys
      invariant forall k :: k in r ==> r[k] == LinkChild(cs[k], id, ps[..j], k)
    {
      var p := ps[j];
      assert ps[..j + 1] == ps[..j] + [p];
      if p in r && id !in r[p].children {
        r := r[p := r[p].(children := r[p].children + [id])];
      }
    }
    assert ps[..|ps|] == ps;
  }

  /** The loop of `build_graph`: links every commit of `ids`, in order, to
      its parents. */
  method LinkAll(cs: Commits, ids: seq<string>) returns (r: Commits)
    requires forall k :: k in ids ==> k in cs
    ensures LinkedUpTo(cs, r, ids)
  {
    r := cs;
    for i := 0 to |ids|
      invariant LinkedUpTo(cs, r, ids[..i])
    {
      ghost var before := r;
      r := LinkToParents(r, ids[i]);
      LinkStep(cs, before, r, ids[i], ids[..i]);
      PrefixStep(ids, i);
    }
    assert ids[..|ids|] == ids;
  }

  /** Commit `k` of `cs` is commit `k` of `o` whose child list has grown by
      exactly the commits of `done` that name `k` as a parent. */
  ghost predicate GrownFrom(o: Commits, cs: Commits, done: seq<string>, k: string) {
    k in o && k in cs
    && cs[k] == o[k].(children := cs[k].children)
    && o[k].children <= cs[k].children
    && (Distinct(o[k].children) ==> Distinct(cs[k].children))
    && forall c :: c in cs[k].children <==> c in o[k].children || (c in done && c in o && k in o[c].parents)
  }

  ghost predicate LinkedUpTo(o: Commits, cs: Commits, done: seq<string>) {
    cs.Keys == o.Keys && forall k :: k in cs ==> GrownFrom(o, cs, done, k)
  }

  lemma LinkStep(o: Commits, cs: Commits, r: Commits, id: string, done: seq<string>)
    requires LinkedUpTo(o, cs, done) && id in cs
    requires r.Keys == cs.Keys
    requires forall k :: k in r ==> r[k] == LinkChild(cs[k], id, cs[id].parents, k)
    ensures LinkedUpTo(o, r, done + [id])
  {
    assert forall c :: c in done + [id] <==> c in done || c == id;
    assert cs[id].parents == o[id].parents by {
      assert GrownFrom(o, cs, done, id);
    }
    forall k | k in r ensures GrownFrom(o, r, done + [id], k) {
      assert GrownFrom(o, cs, done, k);
      var a := cs[k].children;
      if k in cs[id].parents && id !in a {
        assert r[k].children == a + [id];
        assert forall i :: 0 <= i < |a| ==> (a + [id])[i] == a[i];
        assert forall i :: 0 <= i < |a| ==> a[i] in a;
      }
    }
  }

  lemma LinkedUpToAll(o: Commits, cs: Commits, done: seq<string>)
    requires LinkedUpTo(o, cs, done) && forall k :: k in done <==> k in o
    ensures cs.Keys == o.Keys
    ensures forall k :: k in cs ==> cs[k] == o[k].(children := cs[k].children)
    ensures forall k :: k in cs && Distinct(o[k].children) ==> Distinct(cs[k].children)
    ensures forall k, c :: k in cs ==>
      (c in cs[k].children <==> c in o[k].children || (c in cs && k in cs[c].parents))
    ensures (forall k :: k in o ==> o[k].children == []) ==> ChildrenConsistent(cs)
    ensures (forall k :: k in o ==> o[k].id == k) ==> forall k :: k in cs ==> cs[k].id == k
  {
    forall k, c | k in cs
      ensures c in cs[k].children <==> c in o[k].children || (c in cs && k in cs[c].parents)
    {
      assert GrownFrom(o, cs, done, k);
      if c in cs {
        assert GrownFrom(o, cs, done, c);
      }
    }
    forall k | k in cs
      ensures cs[k] == o[k].(children := cs[k].children)
      ensures Distinct(o[k].children) ==> Distinct(cs[k].children)
    {
      assert GrownFrom(o, cs, done, k);
    }
  }

  // ---------------------------------------------------------------------
  // Pieces of `topological_sort`

  /** A stored commit that lists an emitted id as a child was emitted
      before it. */
  ghost predicate ParentsFirst(cs: Commits, result: seq<string>) {
    forall i, q :: 0 <= i < |result| && q in cs && result[i] in cs[q].children ==> q in result[..i]
  }

  /** How often a stored commit lists `x` as a child. */
  function ChildCount(cs: Commits, q: string, x: string): nat {
    if q in cs then multiset(cs[q].children)[x] else 0
  }

  /** How often the commits of `qs` outside `emitted` list `x` as a child:
      the in-degree of `x` once `emitted` has been output. */
  ghost function PendingCount(cs: Commits, qs: seq<string>, emitted: set<string>, x: string): nat {
    if qs == [] then 0
    else
      var q := qs[|qs| - 1];
      PendingCount(cs, qs[..|qs| - 1], emitted, x) + (if q in emitted then 0 else ChildCount(cs, q, x))
  }

  lemma {:induction false} PendingCountZero(cs: Commits, qs: seq<string>, emitted: set<string>, x: string)
    ensures PendingCount(cs, qs, emitted, x) == 0 <==>
      forall q :: q in qs && q !in emitted && q in cs ==> x !in cs[q].children
  {
    if qs != [] {
      var init := qs[..|qs| - 1];
      var q := qs[|qs| - 1];
      PendingCountZero(cs, init, emitted, x);
      assert forall y :: y in qs <==> y in init || y == q;
    }
  }

  /** Emitting one more key removes exactly its own child counts. */
  lemma {:induction false} PendingCountEmit(cs: Commits, qs: seq<string>, emitted: set<string>, id: string, x: string)
    requires Distinct(qs) && id !in emitted
    ensures PendingCount(cs, qs, emitted + {id}, x) + (if id in qs then ChildCount(cs, id, x) else 0)
      == PendingCount(cs, qs, emitted, x)
  {
    if qs != [] {
      var init := qs[..|qs| - 1];
      assert Distinct(init);
      assert forall y :: y in qs <==> y in init || y == qs[|qs| - 1];
      PendingCountEmit(cs, init, emitted, id, x);
    }
  }

  /** The ready queue and the output so far: disjoint and duplicate-free;
      they hold exactly the ids whose in-degree has reached 0. */
  ghost predicate QueueOk(dom: set<string>, deg: map<string, nat>, queue: seq<string>, result: seq<string>)
    requires deg.Keys == dom
  {
    Distinct(result) && Distinct(queue)
    && (forall x :: x in queue ==> x !in result)
    && (forall x :: x in queue || x in result ==> x in dom && deg[x] == 0)
    && (forall x :: x in dom && deg[x] == 0 && x !in result ==> x in queue)
  }

  ghost predicate KahnState(cs: Commits, ks: seq<string>, dom: set<string>, deg: map<string, nat>,
                            emitted: set<string>, queue: seq<string>, result: seq<string>) {
    Distinct(ks) && (forall q :: q in ks <==> q in cs)
    && deg.Keys == dom
    && (forall x :: x in dom <==> Listed(cs, x))
    && (forall x :: x in dom ==> deg[x] == PendingCount(cs, ks, emitted, x))
    && (forall x :: x in emitted <==> x in result)
    && QueueOk(dom, deg, queue, result)
    && ParentsFirst(cs, result)
  }

  // ---------------------------------------------------------------------
  // Kahn's order as a function of the in-degree table

  /** `ks` lists every stored id once, in some order (a hash map's). */
  ghost predicate KeyListing(cs: Commits, ks: seq<string>) {
    Distinct(ks) && forall q :: q in ks <==> q in cs
  }

  /** An in-degree table of `cs`: an entry for every listed id, holding how
      often the stored commits list it as a child. */
  ghost predicate InDegreeTable(cs: Commits, deg: map<string, nat>) {
    (forall x :: x in deg <==> Listed(cs, x))
    && exists ks :: KeyListing(cs, ks) && forall x :: x in deg ==> deg[x] == PendingCount(cs, ks, {}, x)
  }

  /** The child counts do not depend on the order in which the commits are
      visited, so a commit map has one in-degree table. */
  lemma InDegreeTableUnique(cs: Commits, d1: map<string, nat>, d2: map<string, nat>)
    requires InDegreeTable(cs, d1) && InDegreeTable(cs, d2)
    ensures d1 == d2
  {
    var ks1 :| KeyListing(cs, ks1) && forall x :: x in d1 ==> d1[x] == PendingCount(cs, ks1, {}, x);
    var ks2 :| KeyListing(cs, ks2) && forall x :: x in d2 ==> d2[x] == PendingCount(cs, ks2, {}, x);
    forall x | x in d1 ensures d1[x] == d2[x] {
      PendingCountOrderFree(cs, ks1, ks2, {}, x);
    }
  }

  lemma {:induction false} PendingCountOrderFree(cs: Commits, ks1: seq<string>, ks2: seq<string>,
                                               emitted: set<string>, x: string)
    requires KeyListing(cs, ks1) && KeyListing(cs, ks2)
    ensures PendingCount(cs, ks1, emitted, x) == PendingCount(cs, ks2, emitted, x)
    decreases |cs.Keys - emitted|
  {
    var left := cs.Keys - emitted;
    if left == {} {
      assert forall q :: q in cs ==> q in emitted by {
        forall q | q in cs ensures q in emitted {
          assert q !in left;
        }
      }
      PendingCountZero(cs, ks1, emitted, x);
      PendingCountZero(cs, ks2, emitted, x);
    } else {
      var id :| id in left;
      PendingCountEmit(cs, ks1, emitted, id, x);
      PendingCountEmit(cs, ks2, emitted, id, x);
      CardinalityDrop(cs.Keys, emitted, id);
      assert cs.Keys - (emitted + {id}) == cs.Keys - emitted - {id};
      PendingCountOrderFree(cs, ks1, ks2, emitted + {id}, x);
    }
  }

  /** The ids a release of `kids` makes ready, in release order: an
      occurrence counts when it uses up the id's remaining in-degree. */
  ghost function NewlyReady(deg: map<string, nat>, kids: seq<string>): seq<string> {
    if kids == [] then []
    else
      var k := kids[|kids| - 1];
      NewlyReady(deg, kids[..|kids| - 1]) + (if k in deg && multiset(kids)[k] == deg[k] then [k] else [])
  }

  /** The in-degree table once every occurrence in `kids` is released. */
  ghost function Released(deg: map<string, nat>, kids: seq<string>): map<string, nat> {
    map x | x in deg :: if multiset(kids)[x] <= deg[x] then deg[x] - multiset(kids)[x] else 0
  }

  /** One turn of the loop on (in-degrees, ready stack): pop the last id and
      release the children of a stored commit, newest first. */
  ghost function KahnStep(cs: Commits, deg: map<string, nat>, queue: seq<string>): (map<string, nat>, seq<string>)
    requires queue != []
  {
    var id := queue[|queue| - 1];
    var rest := queue[..|queue| - 1];
    if id in cs then
      var kids := SortNewestFirst(cs, cs[id].children);
      (Released(deg, kids), rest + NewlyReady(deg, kids))
    else (deg, rest)
  }

  /** Kahn's loop from a state, appending each popped id to `result` until
      the stack is empty. `fuel` only bounds the turns: started from a table
      with its size, every turn emits a new entry, so the stack empties
      first (TopologicalSort's loop shows this). */
  ghost function KahnRun(cs: Commits, deg: map<string, nat>, queue: seq<string>, result: seq<string>,
                         fuel: nat): seq<string>
    decreases fuel
  {
    if queue == [] || fuel == 0 then result
    else
      var next := KahnStep(cs, deg, queue);
      KahnRun(cs, next.0, next.1, result + [queue[|queue| - 1]], fuel - 1)
  }

  /** The initial ready stack: the ids of in-degree 0, newest first. */
  ghost function ReadyQueue(cs: Commits, deg: map<string, nat>): (r: seq<string>)
    ensures Distinct(r) && SortedNewestFirst(cs, r)
    ensures forall x :: x in r <==> x in deg && deg[x] == 0
  {
    var roots := SeqOfSet(set x | x in deg && deg[x] == 0);
    var r := SortNewestFirst(cs, roots);
    DistinctPermutation(roots, r);
    PermutationMembers(roots, r);
    r
  }

  /** The output of `topological_sort` for the in-degree table `deg`. */
  ghost function KahnOrder(cs: Commits, deg: map<string, nat>): seq<string> {
    KahnRun(cs, deg, ReadyQueue(cs, deg), [], |deg.Keys|)
  }

  /** The `while let Some(..) = queue.pop()` loop of `topological_sort`,
      from the table and ready stack built before it. */
  method KahnLoop(cs: Commits, ghost ks: seq<string>, deg0: map<string, nat>, queue0: seq<string>)
    returns (result: seq<string>, deg: map<string, nat>, ghost emitted: set<string>)
    requires KahnState(cs, ks, deg0.Keys, deg0, {}, queue0, [])
    requires queue0 == ReadyQueue(cs, deg0)
    ensures KahnState(cs, ks, deg0.Keys, deg, emitted, [], result)
    ensures result == KahnOrder(cs, deg0)
  {
    var queue := queue0;
    deg := deg0;
    result := [];
    ghost var dom := deg.Keys;
    emitted := {};
    ghost var fuel: nat := |dom|;
    ghost var order := KahnOrder(cs, deg0);
    while |queue| > 0
      invariant KahnState(cs, ks, dom, deg, emitted, queue, result)
      invariant |result| + fuel == |dom|
      invariant KahnRun(cs, deg, queue, result, fuel) == order
      decreases fuel
    {
      deg, emitted, queue, result, fuel := KahnTurn(cs, ks, dom, deg, emitted, queue, result, fuel);
    }
  }

  /** One turn of the loop, keeping the run ahead equal to the whole run. */
  method KahnTurn(cs: Commits, ghost ks: seq<string>, ghost dom: set<string>, deg: map<string, nat>,
                  ghost emitted: set<string>, queue: seq<string>, result: seq<string>, ghost fuel: nat)
    returns (deg': map<string, nat>, ghost emitted': set<string>, queue': seq<string>, result': seq<string>,
             ghost fuel': nat)
    requires KahnState(cs, ks, dom, deg, emitted, queue, result) && |queue| > 0
    requires |result| + fuel == |dom|
    ensures KahnState(cs, ks, dom, deg', emitted', queue', result')
    ensures |result'| + fuel' == |dom| && fuel' < fuel
    ensures KahnRun(cs, deg', queue', result', fuel') == KahnRun(cs, deg, queue, result, fuel)
  {
    deg', emitted', queue', result' := KahnEmit(cs, ks, dom, deg, emitted, queue, result);
    DistinctBoundedBySet(result', dom);
    KahnRunStep(cs, deg, queue, result, fuel, deg', queue', result');
    fuel' := fuel - 1;
  }

  /** One turn of Kahn's run. */
  lemma KahnRunStep(cs: Commits, deg: map<string, nat>, queue: seq<string>, result: seq<string>, fuel: nat,
                    deg': map<string, nat>, queue': seq<string>, result': seq<string>)
    requires queue != [] && fuel > 0
    requires (deg', queue') == KahnStep(cs, deg, queue) && result' == result + [queue[|queue| - 1]]
    ensures KahnRun(cs, deg, queue, result, fuel) == KahnRun(cs, deg', queue', result', fuel - 1)
  {
  }

  /** Every in-degree table is the one the loop started from. */
  lemma KahnOrderOfTable(cs: Commits, ks: seq<string>, deg0: map<string, nat>, result: seq<string>)
    requires KahnState(cs, ks, deg0.Keys, deg0, {}, ReadyQueue(cs, deg0), [])
    requires result == KahnOrder(cs, deg0)
    ensures InDegreeTable(cs, deg0)
    ensures forall deg :: InDegreeTable(cs, deg) ==> result == KahnOrder(cs, deg)
  {
    assert InDegreeTable(cs, deg0) by {
      assert KeyListing(cs, ks);
    }
    forall d | InDegreeTable(cs, d) ensures result == KahnOrder(cs, d) {
      InDegreeTableUnique(cs, deg0, d);
    }
  }

  /** The in-degree table of `topological_sort`, visiting the commits in the
      order `ks`: an entry for every commit and every listed child, counting
      how often the visited commits list it. */
  method InDegrees(cs: Commits, ks: seq<string>) returns (deg: map<string, nat>)
    requires forall q :: q in ks ==> q in cs && cs[q].id == q
    ensures forall x :: x in deg ==> deg[x] == PendingCount(cs, ks, {}, x)
    ensures forall x :: x in deg <==> x in ks || PendingCount(cs, ks, {}, x) > 0
  {
    deg := map[];
    for i := 0 to |ks|
      invariant forall x :: x in deg ==> deg[x] == PendingCount(cs, ks[..i], {}, x)
      invariant forall x :: x in deg <==> x in ks[..i] || PendingCount(cs, ks[..i], {}, x) > 0
    {
      var c := cs[ks[i]];
      assert ks[..i + 1][..i] == ks[..i];
      assert forall y :: y in ks[..i + 1] <==> y in ks[..i] || y == c.id;
      if c.id !in deg {
        deg := deg[c.id := 0];
      }
      deg := CountChildren(deg, c.children);
    }
    assert ks[..|ks|] == ks;
  }

  /** Adds one to the entry of every listed child, creating missing entries
      (the inner loop of the in-degree count). */
  method CountChildren(deg: map<string, nat>, kids: seq<string>) returns (deg': map<string, nat>)
    ensures forall x :: x in deg' <==> x in deg || x in kids
    ensures forall x :: x in deg' ==> deg'[x] == (if x in deg then deg[x] else 0) + multiset(kids)[x]
  {
    deg' := deg;
    for j := 0 to |kids|
      invariant forall x :: x in deg' <==> x in deg || x in kids[..j]
      invariant forall x :: x in deg' ==> deg'[x] == (if x in deg then deg[x] else 0) + multiset(kids[..j])[x]
    {
      var k := kids[j];
      assert kids[..j + 1] == kids[..j] + [k];
      if k in deg' {
        deg' := deg'[k := deg'[k] + 1];
      } else {
        deg' := deg'[k := 1];
      }
    }
    assert kids[..|kids|] == kids;
  }

  /** The initial ready queue: the ids of in-degree 0, newest first. */
  method ReadyIds(cs: Commits, deg: map<string, nat>) returns (queue: seq<string>)
    ensures Distinct(queue)
    ensures forall x :: x in queue <==> x in deg && deg[x] == 0
    ensures SortedNewestFirst(cs, queue)
    ensures queue == ReadyQueue(cs, deg)
  {
    var ready := set x | x in deg && deg[x] == 0;
    var roots := SetToSeq(ready);
    queue := SortNewestFirst(cs, roots);
    DistinctPermutation(roots, queue);
    PermutationMembers(roots, queue);
    SameMembersPermutation(queue, ReadyQueue(cs, deg));
    SortIsUnique(cs, queue, ReadyQueue(cs, deg));
  }

  lemma KahnStart(cs: Commits, ks: seq<string>, deg: map<string, nat>, queue: seq<string>)
    requires Distinct(ks) && forall q :: q in ks <==> q in cs
    requires forall x :: x in deg ==> deg[x] == PendingCount(cs, ks, {}, x)
    requires forall x :: x in deg <==> x in ks || PendingCount(cs, ks, {}, x) > 0
    requires Distinct(queue) && forall x :: x in queue <==> x in deg && deg[x] == 0
    ensures KahnState(cs, ks, deg.Keys, deg, {}, queue, [])
  {
    forall x ensures x in deg <==> Listed(cs, x) {
      PendingCountZero(cs, ks, {}, x);
    }
  }

  lemma KahnFinish(cs: Commits, ks: seq<string>, dom: set<string>, deg: map<string, nat>,
                   emitted: set<string>, result: seq<string>)
    requires KahnState(cs, ks, dom, deg, emitted, [], result)
    ensures Distinct(result) && ParentsFirst(cs, result)
    ensures forall x :: x in result ==> Listed(cs, x)
    ensures forall x :: Listed(cs, x) && x !in result ==>
      exists q :: q in cs && q !in result && x in cs[q].children
    ensures forall rank :: ChildrenConsistent(cs) && RankedByParents(cs, rank) ==>
      (forall k :: k in result <==> k in cs) && |result| == |cs|
  {
    forall x | Listed(cs, x) && x !in result
      ensures exists q :: q in cs && q !in result && x in cs[q].children
    {
      PendingCountZero(cs, ks, emitted, x);
    }
    forall rank | ChildrenConsistent(cs) && RankedByParents(cs, rank)
      ensures (forall k :: k in result <==> k in cs) && |result| == |cs|
    {
      forall k | k in cs ensures k in result {
        KahnEmitsAll(cs, result, rank, k);
      }
      DistinctCardinality(result);
      assert (set x | x in result) == cs.Keys;
    }
  }

  /** One turn of Kahn's loop: pop the last ready id, emit it, and release
      its children. */
  method KahnEmit(cs: Commits, ghost ks: seq<string>, ghost dom: set<string>, deg: map<string, nat>,
                  ghost emitted: set<string>, queue: seq<string>, result: seq<string>)
    returns (deg': map<string, nat>, ghost emitted': set<string>, queue': seq<string>, result': seq<string>)
    requires KahnState(cs, ks, dom, deg, emitted, queue, result) && |queue| > 0
    ensures KahnState(cs, ks, dom, deg', emitted', queue', result')
    ensures result' == result + [queue[|queue| - 1]]
    ensures (deg', queue') == KahnStep(cs, deg, queue)
  {
    var id := queue[|queue| - 1];
    queue' := queue[..|queue| - 1];
    assert forall x :: x in queue <==> x in queue' || x == id;
    result' := result + [id];
    emitted' := emitted + {id};
    EmitOrder(cs, ks, dom, deg, emitted, queue, result, id);
    forall x | x in dom
      ensures deg[x] == PendingCount(cs, ks, emitted', x) + (if id in cs then ChildCount(cs, id, x) else 0)
    {
      PendingCountEmit(cs, ks, emitted, id, x);
    }
    if id in cs {
      var kids := SortNewestFirst(cs, cs[id].children);
      deg', queue' := Release(dom, deg, queue', result', kids);
    } else {
      deg' := deg;
    }
  }

  /** Decrements the in-degree of each child of the emitted commit `id`,
      queueing a child when its in-degree reaches 0. */
  method Release(ghost dom: set<string>, deg: map<string, nat>, queue: seq<string>, ghost result: seq<string>,
                 kids: seq<string>)
    returns (deg': map<string, nat>, queue': seq<string>)
    requires deg.Keys == dom
    requires forall x :: x in dom ==> multiset(kids)[x] <= deg[x]
    requires QueueOk(dom, deg, queue, result)
    ensures deg'.Keys == dom
    ensures forall x :: x in dom ==> deg'[x] + multiset(kids)[x] == deg[x]
    ensures deg' == Released(deg, kids)
    ensures queue' == queue + NewlyReady(deg, kids)
    ensures QueueOk(dom, deg', queue', result)
  {
    deg', queue' := deg, queue;
    assert kids[0..] == kids;
    for j := 0 to |kids|
      invariant deg'.Keys == dom
      invariant forall x :: x in dom ==> deg'[x] + multiset(kids[..j])[x] == deg[x]
      invariant forall x :: x in dom ==> multiset(kids[j..])[x] <= deg'[x]
      invariant queue' == queue + NewlyReady(deg, kids[..j])
      invariant QueueOk(dom, deg', queue', result)
    {
      deg', queue' := ReleaseTurn(dom, deg, queue, result, kids, j, deg', queue');
    }
    assert kids[..|kids|] == kids;
    ReleasedExactly(deg, deg', kids);
  }

  /** The turn of `Release` for the child `kids[j]`. */
  method ReleaseTurn(ghost dom: set<string>, ghost deg: map<string, nat>, ghost queue: seq<string>,
                     ghost result: seq<string>, kids: seq<string>, j: nat, cur: map<string, nat>, pending: seq<string>)
    returns (cur': map<string, nat>, pending': seq<string>)
    requires j < |kids| && deg.Keys == dom && cur.Keys == dom
    requires forall x :: x in dom ==> cur[x] + multiset(kids[..j])[x] == deg[x]
    requires forall x :: x in dom ==> multiset(kids[j..])[x] <= cur[x]
    requires pending == queue + NewlyReady(deg, kids[..j])
    requires QueueOk(dom, cur, pending, result)
    ensures cur'.Keys == dom
    ensures forall x :: x in dom ==> cur'[x] + multiset(kids[..j + 1])[x] == deg[x]
    ensures forall x :: x in dom ==> multiset(kids[j + 1..])[x] <= cur'[x]
    ensures pending' == queue + NewlyReady(deg, kids[..j + 1])
    ensures QueueOk(dom, cur', pending', result)
  {
    var k := kids[j];
    CountStep(kids, j);
    NewlyReadyStep(deg, kids, j, queue);
    ghost var add := if k in deg && multiset(kids[..j + 1])[k] == deg[k] then [k] else [];
    if k in cur {
      assert cur[k] == 1 <==> multiset(kids[..j + 1])[k] == deg[k];
      cur', pending' := Decrement(dom, cur, pending, result, k);
    } else {
      cur', pending' := cur, pending;
    }
    assert pending' == pending + add;
  }

  /** Moving past `kids[j]` counts it once more in the prefix and once less
      in the suffix. */
  lemma CountStep(kids: seq<string>, j: nat)
    requires j < |kids|
    ensures forall x :: multiset(kids[..j + 1])[x] == multiset(kids[..j])[x] + (if x == kids[j] then 1 else 0)
    ensures forall x :: multiset(kids[j..])[x] == multiset(kids[j + 1..])[x] + (if x == kids[j] then 1 else 0)
  {
    assert kids[j..] == [kids[j]] + kids[j + 1..];
    assert kids[..j + 1] == kids[..j] + [kids[j]];
  }

  /** One more released child extends the newly ready ids by at most itself. */
  lemma NewlyReadyStep(deg: map<string, nat>, kids: seq<string>, j: nat, queue: seq<string>)
    requires j < |kids|
    ensures queue + NewlyReady(deg, kids[..j + 1]) == queue + NewlyReady(deg, kids[..j])
      + (if kids[j] in deg && multiset(kids[..j + 1])[kids[j]] == deg[kids[j]] then [kids[j]] else [])
  {
    assert kids[..j + 1][..j] == kids[..j];
  }

  lemma ReleasedExactly(deg: map<string, nat>, deg': map<string, nat>, kids: seq<string>)
    requires deg'.Keys == deg.Keys
    requires forall x :: x in deg ==> deg'[x] + multiset(kids)[x] == deg[x]
    ensures deg' == Released(deg, kids)
  {
  }

  /** Appending the top of the queue keeps the output duplicate-free and
      parents-first: its in-degree is 0, so every commit listing it is out. */
  lemma EmitOrder(cs: Commits, ks: seq<string>, dom: set<string>, deg: map<string, nat>,
                  emitted: set<string>, queue: seq<string>, result: seq<string>, id: string)
    requires KahnState(cs, ks, dom, deg, emitted, queue, result) && id in queue
    ensures Distinct(result + [id])
    ensures ParentsFirst(cs, result + [id])
  {
    var r := result + [id];
    forall i | 0 <= i < |result| ensures result[i] != id {
      assert result[i] in result;
    }
    PendingCountZero(cs, ks, emitted, id);
    forall i, q | 0 <= i < |r| && q in cs && r[i] in cs[q].children
      ensures q in r[..i]
    {
      if i < |result| {
        assert r[..i] == result[..i];
      } else {
        assert r[..i] == result;
      }
    }
  }

  /** One child of `Release`: its in-degree drops by one, and it joins the
      ready queue when that reaches 0. */
  method Decrement(ghost dom: set<string>, deg: map<string, nat>, queue: seq<string>, ghost result: seq<string>, k: string)
    returns (deg': map<string, nat>, queue': seq<string>)
    requires deg.Keys == dom && k in dom && deg[k] > 0
    requires QueueOk(dom, deg, queue, result)
    ensures deg' == deg[k := deg[k] - 1]
    ensures queue' == if deg[k] == 1 then queue + [k] else queue
    ensures QueueOk(dom, deg', queue', result)
  {
    deg' := deg[k := deg[k] - 1];
    queue' := queue;
    if deg'[k] == 0 {
      assert forall i :: 0 <= i < |queue| ==> queue[i] != k;
      queue' := queue + [k];
    }
  }

  // ---------------------------------------------------------------------
  // Pieces of `trace_ancestry`

  /** The loop state of `trace_ancestry`: the path and the stack stay in
      the finite bound; the start id is visited or pending; every parent of a
      visited stored commit is visited or pending; and everything visited or
      pending belongs to every parent-closed set containing the start. */
  ghost predicate TraceState(cs: Commits, start: string, bound: set<string>, path: set<string>, stack: seq<string>) {
    start in bound
    && (forall x, p :: x in cs && p in cs[x].parents ==> p in bound)
    && path <= bound
    && (forall x :: x in stack ==> x in bound)
    && (start in path || start in stack)
    && (forall x, p :: x in path && x in cs && p in cs[x].parents ==> p in path || p in stack)
    && (forall s :: start in s && ParentClosed(cs, s) ==> path <= s && forall x :: x in stack ==> x in s)
  }

  lemma TraceStart(cs: Commits, start: string)
    ensures TraceState(cs, start, ReachableBound(cs, start), {}, [start])
  {
    var bound := ReachableBound(cs, start);
    forall x, p | x in cs && p in cs[x].parents ensures p in bound {
      assert p in set x, q | x in cs && q in cs[x].parents :: q;
    }
  }

  lemma TraceSkip(cs: Commits, start: string, bound: set<string>, path: set<string>, stack: seq<string>, current: string)
    requires TraceState(cs, start, bound, path, stack + [current]) && current in path
    ensures TraceState(cs, start, bound, path, stack)
  {
    assert forall x :: x in stack + [current] <==> x in stack || x == current;
  }

  lemma TraceVisit(cs: Commits, start: string, bound: set<string>, path: set<string>,
                   rest: seq<string>, current: string, stack: seq<string>)
    requires TraceState(cs, start, bound, path, rest + [current]) && current !in path
    requires stack == if current in cs then rest + cs[current].parents else rest
    ensures TraceState(cs, start, bound, path + {current}, stack)
    ensures |bound - (path + {current})| < |bound - path|
  {
    assert forall x :: x in rest + [current] <==> x in rest || x == current;
    if current in cs {
      assert forall x :: x in stack <==> x in rest || x in cs[current].parents;
    }
    forall s | start in s && ParentClosed(cs, s)
      ensures path + {current} <= s && forall x :: x in stack ==> x in s
    {
      assert current in s;
    }
    CardinalityDrop(bound, path, current);
  }

  /** Visiting a new member of the bound shrinks the unvisited part. */
  lemma CardinalityDrop<T>(b: set<T>, a: set<T>, c: T)
    requires c in b && c !in a
    ensures |b - (a + {c})| < |b - a|
  {
    assert b - a == (b - (a + {c})) + {c};
  }

  lemma TraceDone(cs: Commits, start: string, bound: set<string>, path: set<string>)
    requires TraceState(cs, start, bound, path, [])
    ensures IsAncestrySet(cs, start, path)
  {
  }

  /** After Kahn's loop, an unemitted stored commit has an unemitted stored
      parent; on a ranked graph that descent must stop, so nothing is left. */
  lemma {:induction false} KahnEmitsAll(cs: Commits, result: seq<string>, rank: map<string, nat>, k: string)
    requires ChildrenConsistent(cs) && RankedByParents(cs, rank)
    requires forall x :: Listed(cs, x) && x !in result ==> exists q :: q in cs && q !in result && x in cs[q].children
    requires k in cs
    ensures k in result
    decreases rank[k]
  {
    if k !in result {
      var q :| q in cs && q !in result && k in cs[q].children;
      KahnEmitsAll(cs, result, rank, q);
    }
  }

  // ---------------------------------------------------------------------
  // Lane allocator

  class RailwayLayout {
    var activeLanes: seq<Option<string>>

    constructor ()
      ensures activeLanes == []
    {
      activeLanes := [];
    }

    /** Takes the first free lane, or opens a new one on the right. */
    method AllocateColumn(commitId: string) returns (col: nat)
      modifies this
      ensures col <= |old(activeLanes)|
      ensures forall k :: 0 <= k < col && k < |old(activeLanes)| ==> old(activeLanes)[k].Some?
      ensures col < |old(activeLanes)| ==>
        old(activeLanes)[col].None? && activeLanes == old(activeLanes)[col := Some(commitId)]
      ensures col == |old(activeLanes)| ==> activeLanes == old(activeLanes) + [Some(commitId)]
    {
      var i := 0;
      while i < |activeLanes|
        invariant 0 <= i <= |activeLanes|
        invariant activeLanes == old(activeLanes)
        invariant forall k :: 0 <= k < i ==> activeLanes[k].Some?
      {
        if activeLanes[i].None? {
          activeLanes := activeLanes[i := Some(commitId)];
          return i;
        }
        i := i + 1;
      }
      activeLanes := activeLanes + [Some(commitId)];
      col := |activeLanes| - 1;
    }

    method ReleaseColumn(col: nat)
      modifies this
      ensures activeLanes == if col < |old(activeLanes)| then old(activeLanes)[col := None] else old(activeLanes)
    {
      if col < |activeLanes| {
        activeLanes := activeLanes[col := None];
      }
    }

    /** Removes a lane; every lane to its right moves one column left, and
        the moves are reported as (from, to) pairs. */
    method CompactLanes(deadColumn: nat) returns (shifts: seq<(nat, nat)>)
      modifies this
      ensures deadColumn < |old(activeLanes)| ==>
        activeLanes == old(activeLanes)[..deadColumn] + old(activeLanes)[deadColumn + 1..]
        && |shifts| == |activeLanes| - deadColumn
        && forall k :: 0 <= k < |shifts| ==> shifts[k] == (deadColumn + k + 1, deadColumn + k)
      ensures deadColumn >= |old(activeLanes)| ==> activeLanes == old(activeLanes) && shifts == []
    {
      shifts := [];
      if deadColumn < |activeLanes| {
        activeLanes := activeLanes[..deadColumn] + activeLanes[deadColumn + 1..];
        var i := deadColumn;
        while i < |activeLanes|
          invariant deadColumn <= i <= |activeLanes|
          invariant |shifts| == i - deadColumn
          invariant forall k :: 0 <= k < |shifts| ==> shifts[k] == (deadColumn + k + 1, deadColumn + k)
        {
          shifts := shifts + [(i + 1, i)];
          i := i + 1;
        }
      }
    }

    /** The occupied columns, in increasing order. */
    function GetActiveColumns(): (r: seq<nat>)
      reads this
      ensures StrictlyIncreasing(r)
      ensures forall c: nat :: c in r <==> c < |activeLanes| && activeLanes[c].Some?
    {
      OccupiedFrom(activeLanes, 0)
    }

    /** The number of lanes, free ones included: every occupied column lies below it. */
    function Width(): (r: nat)
      reads this
      ensures forall c :: c in GetActiveColumns() ==> c < r
    {
      |activeLanes|
    }
  }

  function OccupiedFrom(lanes: seq<Option<string>>, from: nat): (r: seq<nat>)
    requires from <= |lanes|
    ensures StrictlyIncreasing(r)
    ensures forall c: nat :: c in r <==> from <= c < |lanes| && lanes[c].Some?
    ensures forall c :: c in r ==> c >= from
    decreases |lanes| - from
  {
    if from == |lanes| then []
    else
      var rest := OccupiedFrom(lanes, from + 1);
      assert forall i :: 0 <= i < |rest| ==> rest[i] in rest;
      if lanes[from].Some? then [from] + rest else rest
  }
}
