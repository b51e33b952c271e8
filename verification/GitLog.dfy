/**
The path-filtered history of kc3_git_log (git/log.c). The plain definition keeps the
commits of a walk whose entry at the path differs from every parent's, drops the first
`skip` of them and takes `limit`. The C loop gets there through the commit-graph, Bloom
filters and a carried root tree. The module says exactly what the loop returns, errors
included, in terms of lock-step comparisons, and proves that this is the list of the plain
definition whenever that definition can read what it needs.
 */
module GitLog {
  import opened Bytes
  import opened GitTree
  import opened GitPath
  import opened GraphFile
  import opened CommitGraph
  import opened Bloom

  const PATH_MAX := 4096

  datatype Commit = Commit(tree: Oid, parents: seq<Oid>)
  type Repo = map<Oid, Commit>

  // ---------- the plain definition ----------

  /** All the lookups that the definition mentions can be carried out. */
  ghost predicate Readable(repo: Repo, odb: Odb, c: Commit, path: seq<byte>) {
    && !LookupPath(odb, Some(c.tree), path).Malformed?
    && forall i :: 0 <= i < |c.parents| ==>
         c.parents[i] in repo && !LookupPath(odb, Some(repo[c.parents[i]].tree), path).Malformed?
  }

  /** A root commit must have the entry; any other must differ there from all its parents. */
  ghost predicate Changed(repo: Repo, odb: Odb, c: Commit, path: seq<byte>)
    requires Readable(repo, odb, c, path)
  {
    var entry := LookupPath(odb, Some(c.tree), path);
    if c.parents == [] then entry.Present?
    else forall i :: 0 <= i < |c.parents| ==> entry != LookupPath(odb, Some(repo[c.parents[i]].tree), path)
  }

  /** Without a path every commit of the walk is kept. */
  ghost predicate Kept(repo: Repo, odb: Odb, oid: Oid, path: seq<byte>)
    requires path != [] ==> oid in repo && Readable(repo, odb, repo[oid], path)
  {
    path == [] || Changed(repo, odb, repo[oid], path)
  }

  /** The naive walk; None when a commit or tree it needs is missing. */
  ghost function Naive(repo: Repo, odb: Odb, walk: seq<Oid>, path: seq<byte>, skip: nat,
                       limit: nat): (r: Option<seq<Oid>>)
    decreases |walk|
  {
    if limit == 0 || walk == [] then Some([])
    else if path != [] && !(walk[0] in repo && Readable(repo, odb, repo[walk[0]], path)) then None
    else if !Kept(repo, odb, walk[0], path) then Naive(repo, odb, walk[1..], path, skip, limit)
    else if skip > 0 then Naive(repo, odb, walk[1..], path, skip - 1, limit)
    else if walk[0] !in repo then None
    else match Naive(repo, odb, walk[1..], path, 0, limit - 1)
         case None => None
         case Some(rest) => Some([walk[0]] + rest)
  }

  ghost function Filtered(repo: Repo, odb: Odb, walk: seq<Oid>, path: seq<byte>): seq<Oid>
    requires path != [] ==> forall i :: 0 <= i < |walk| ==> walk[i] in repo && Readable(repo, odb, repo[walk[i]], path)
  {
    if walk == [] then []
    else if Kept(repo, odb, walk[0], path) then [walk[0]] + Filtered(repo, odb, walk[1..], path)
    else Filtered(repo, odb, walk[1..], path)
  }

  function Page(list: seq<Oid>, skip: nat, limit: nat): seq<Oid> {
    if skip >= |list| then []
    else if limit >= |list| - skip then list[skip..]
    else list[skip..skip + limit]
  }

  lemma PageOfCons(x: Oid, list: seq<Oid>, skip: nat, limit: nat)
    requires limit > 0
    ensures Page([x] + list, skip, limit) ==
            if skip > 0 then Page(list, skip - 1, limit) else [x] + Page(list, 0, limit - 1)
  {
  }

  /** On a repository with nothing missing the walk is filter, then drop, then take. */
  lemma {:induction false} NaiveIsPageOfFiltered(repo: Repo, odb: Odb, walk: seq<Oid>, path: seq<byte>, skip: nat,
                        limit: nat)
    requires forall i :: 0 <= i < |walk| ==> walk[i] in repo
    requires path != [] ==> forall i :: 0 <= i < |walk| ==> Readable(repo, odb, repo[walk[i]], path)
    ensures Naive(repo, odb, walk, path, skip, limit) == Some(Page(Filtered(repo, odb, walk, path), skip, limit))
    decreases |walk|
  {
    hide Kept, Readable;
    if walk != [] && limit > 0 {
      var rest := walk[1..];
      PageOfCons(walk[0], Filtered(repo, odb, rest, path), skip, limit);
      hide Page;
      assert walk[0] in repo && (path != [] ==> Readable(repo, odb, repo[walk[0]], path));
      assert forall i :: 0 <= i < |rest| ==> rest[i] == walk[i + 1];
      NaiveIsPageOfFiltered(repo, odb, rest, path, skip, limit);
      if skip > 0 {
        NaiveIsPageOfFiltered(repo, odb, rest, path, skip - 1, limit);
      } else {
        NaiveIsPageOfFiltered(repo, odb, rest, path, 0, limit - 1);
      }
    } else {
      assert Page(Filtered(repo, odb, walk, path), skip, limit) == [];
    }
  }

  // ---------- what the accelerators rely on ----------

  /** The graph stores these layers, and each stored commit is the repository's. */
  ghost predicate Agrees(g: Graph, layers: seq<seq<GraphCommit>>, repo: Repo) {
    && Tiled(g) && |layers| == |g.files|
    && forall k :: 0 <= k < |layers| ==>
         LayerHolds(g.files[k], layers[k])
         && forall i :: 0 <= i < |layers[k]| ==> CommitAgrees(g, layers[k][i], repo)
  }

  ghost predicate CommitAgrees(g: Graph, c: GraphCommit, repo: Repo) {
    && c.oid in repo && repo[c.oid].tree == c.tree
    && |repo[c.oid].parents| == |c.parents|
    && forall j :: 0 <= j < |c.parents| ==>
         c.parents[j] < g.commitCount
         && forall e :: InRange(g, e) && Bounded(g.files[e.file]) && Position(g, e) == c.parents[j] ==>
              OidAt(g.files[e.file], e.index) == repo[c.oid].parents[j]
  }

  /** The tree a commit's filter was computed against: its first parent's, or none. */
  function FirstParentTree(repo: Repo, c: Commit): Option<Oid> {
    if c.parents == [] || c.parents[0] !in repo then None else Some(repo[c.parents[0]].tree)
  }

  /** Each filter holds every path that differs from the first parent. */
  ghost predicate FiltersHold(hash: Hasher, g: Graph, layers: seq<seq<GraphCommit>>, repo: Repo, odb: Odb)
    requires Agrees(g, layers, repo)
  {
    forall k, i :: 0 <= k < |layers| && 0 <= i < |layers[k]| ==>
      FilterHolds(hash, g.files[k], i, layers[k][i].oid, repo, odb)
  }

  ghost predicate FilterHolds(hash: Hasher, f: File, i: nat, oid: Oid, repo: Repo, odb: Odb) {
    Bounded(f) && i < f.commitCount && oid in repo && FilterOf(f, i).Some? ==>
      HoldsChanges(hash, odb, Some(repo[oid].tree), FirstParentTree(repo, repo[oid]), FilterOf(f, i).value)
  }

  // ---------- one lemma per accelerator ----------

  /** A kept commit differs from its first parent, so its filter cannot reject it. */
  lemma FilterKeepsChanged(hash: Hasher, f: File, i: nat, oid: Oid, repo: Repo, odb: Odb, path: seq<byte>)
    requires Bounded(f) && i < f.commitCount && FilterOf(f, i).Some? && FilterHolds(hash, f, i, oid, repo, odb)
    requires path != [] && oid in repo && Readable(repo, odb, repo[oid], path) && Changed(repo, odb, repo[oid], path)
    ensures forall p :: p in Leading(path) ==> Contains(hash, FilterOf(f, i).value, p)
  {
    hide LookupPath, FilterOf, Leading, Contains;
    var c := repo[oid];
    if c.parents == [] { NoTreeHasNoEntry(odb, path); }
    assert Differs(odb, Some(c.tree), FirstParentTree(repo, c), path);
    hide HoldsChanges;
    ChangedPathPasses(hash, odb, Some(c.tree), FirstParentTree(repo, c), FilterOf(f, i).value, path);
  }

  /** What the graph says about an entry it found is what the repository says. */
  lemma EntryAgrees(g: Graph, layers: seq<seq<GraphCommit>>, repo: Repo, e: Entry, oid: Oid)
    requires Agrees(g, layers, repo) && InRange(g, e) && Bounded(g.files[e.file])
    requires HasOid(g.files[e.file], oid, e.index)
    ensures oid in repo && TreeAt(g.files[e.file], e.index) == repo[oid].tree
    ensures layers[e.file][e.index].oid == oid && CommitAgrees(g, layers[e.file][e.index], repo)
    ensures ParentPositions(g.files[e.file], e.index) == Some(layers[e.file][e.index].parents)
  {
    hide OidAt, TreeAt, ParentPositions, ParentsHold, Searchable, Tiled, Bounded;
    assert LayerHolds(g.files[e.file], layers[e.file]);
    ParentsRoundTrip(g.files[e.file], e.index, layers[e.file][e.index].parents);
  }

  // ---------- the lock-step definition ----------

  /** The tree comparisons that a commit needs can be carried out. */
  ghost predicate Comparable(repo: Repo, odb: Odb, c: Commit, path: seq<byte>) {
    if c.parents == [] then Descend(odb, Some(c.tree), None, path).Some?
    else forall i :: 0 <= i < |c.parents| ==>
           c.parents[i] in repo && Descend(odb, Some(c.tree), Some(repo[c.parents[i]].tree), path).Some?
  }

  ghost predicate ComparedChanged(repo: Repo, odb: Odb, c: Commit, path: seq<byte>)
    requires Comparable(repo, odb, c, path)
  {
    if c.parents == [] then Descend(odb, Some(c.tree), None, path) == Some(true)
    else forall i :: 0 <= i < |c.parents| ==>
           Descend(odb, Some(c.tree), Some(repo[c.parents[i]].tree), path) == Some(true)
  }

  /** The two trees can be compared: both lookups succeed, or the trees agree above the path. */
  ghost predicate PairReadable(odb: Odb, a: Option<Oid>, b: Option<Oid>, path: seq<byte>) {
    || (!LookupPath(odb, a, path).Malformed? && !LookupPath(odb, b, path).Malformed?)
    || AgreeAbove(odb, a, b, path)
  }

  /** When the comparisons of a commit can be carried out, by independent lookups. */
  lemma ComparableIff(repo: Repo, odb: Odb, c: Commit, path: seq<byte>)
    ensures Comparable(repo, odb, c, path) <==>
            if c.parents == [] then PairReadable(odb, Some(c.tree), None, path)
            else forall i :: 0 <= i < |c.parents| ==>
                   c.parents[i] in repo && PairReadable(odb, Some(c.tree), Some(repo[c.parents[i]].tree), path)
  {
    hide LookupPath, Descend, AgreeAbove;
    DescentFailsIff(odb, Some(c.tree), None, path);
    forall i | 0 <= i < |c.parents| && c.parents[i] in repo
      ensures Descend(odb, Some(c.tree), Some(repo[c.parents[i]].tree), path).Some? <==>
              PairReadable(odb, Some(c.tree), Some(repo[c.parents[i]].tree), path)
    {
      DescentFailsIff(odb, Some(c.tree), Some(repo[c.parents[i]].tree), path);
    }
  }

  /** Where the plain definition can read, the comparisons succeed and decide as it does. */
  lemma ReadableCompares(repo: Repo, odb: Odb, c: Commit, path: seq<byte>)
    requires Readable(repo, odb, c, path)
    ensures Comparable(repo, odb, c, path)
    ensures ComparedChanged(repo, odb, c, path) <==> Changed(repo, odb, c, path)
  {
    hide LookupPath, Descend;
    if c.parents == [] {
      DescendAgreesWithLookups(odb, Some(c.tree), None, path);
      NoTreeHasNoEntry(odb, path);
    }
    forall i | 0 <= i < |c.parents|
      ensures var tree := Some(repo[c.parents[i]].tree);
              && Descend(odb, Some(c.tree), tree, path).Some?
              && (Descend(odb, Some(c.tree), tree, path) == Some(true) <==>
                  LookupPath(odb, Some(c.tree), path) != LookupPath(odb, tree, path))
    {
      DescendAgreesWithLookups(odb, Some(c.tree), Some(repo[c.parents[i]].tree), path);
    }
  }

  ghost predicate GraphBounded(graph: Option<Graph>) {
    graph.Some? ==> forall k :: 0 <= k < |graph.value.files| ==> Bounded(graph.value.files[k])
  }

  /** The filter of the entry found for a commit lacks a leading directory of the path. */
  ghost predicate Rejects(hash: Hasher, graph: Option<Graph>, oid: Oid, path: seq<byte>)
    requires GraphBounded(graph)
  {
    graph.Some? &&
    var found := FindBelow(graph.value, oid, |graph.value.files|);
    found.Hit? && EntryRejects(hash, graph.value, found.entry, path)
  }

  ghost predicate EntryRejects(hash: Hasher, g: Graph, e: Entry, path: seq<byte>) {
    && InRange(g, e) && Bounded(g.files[e.file])
    && FilterOf(g.files[e.file], e.index).Some?
    && exists p :: p in Leading(path) && !Contains(hash, FilterOf(g.files[e.file], e.index).value, p)
  }

  /** Whether the walk keeps a commit; None is the error exit. */
  ghost function Decide(repo: Repo, odb: Odb, hash: Hasher, graph: Option<Graph>,
                        oid: Oid, path: seq<byte>): Option<bool>
    requires GraphBounded(graph)
  {
    if path == [] then Some(true)
    else if Rejects(hash, graph, oid, path) then Some(false)
    else if oid in repo && Comparable(repo, odb, repo[oid], path) then Some(ComparedChanged(repo, odb, repo[oid], path))
    else None
  }

  /** What the loop returns: it fails at the first commit it can neither decide nor load. */
  ghost function LockStep(repo: Repo, odb: Odb, hash: Hasher, graph: Option<Graph>,
                          walk: seq<Oid>, path: seq<byte>, skip: nat, limit: nat): Option<seq<Oid>>
    requires GraphBounded(graph)
    decreases |walk|
  {
    if limit == 0 || walk == [] then Some([])
    else match Decide(repo, odb, hash, graph, walk[0], path)
         case None => None
         case Some(kept) =>
           if !kept then LockStep(repo, odb, hash, graph, walk[1..], path, skip, limit)
           else if skip > 0 then LockStep(repo, odb, hash, graph, walk[1..], path, skip - 1, limit)
           else if walk[0] !in repo then None
           else Before(walk[0], LockStep(repo, odb, hash, graph, walk[1..], path, 0, limit - 1))
  }

  function Before(x: Oid, rest: Option<seq<Oid>>): Option<seq<Oid>> {
    if rest.None? then None else Some([x] + rest.value)
  }

  // ---------- the walk loop ----------

  /** A root tree object carried from one commit to the next, with the commit it belongs to. */
  datatype Carried = Carried(oid: Oid, root: Object)

  ghost predicate IsRoot(repo: Repo, odb: Odb, oid: Oid, root: Object) {
    oid in repo && repo[oid].tree in odb && odb[repo[oid].tree] == root
  }

  /** Id and tree of parent i, from the graph when the commit was found there. */
  method ParentOf(repo: Repo, g: Graph, ghost layers: seq<seq<GraphCommit>>, entry: Option<Entry>, oid: Oid, i: nat)
      returns (r: Option<(Oid, Oid)>)
    requires oid in repo && i < |repo[oid].parents|
    requires entry.Some? ==> Agrees(g, layers, repo) && InRange(g, entry.value)
                             && Bounded(g.files[entry.value.file])
                             && HasOid(g.files[entry.value.file], oid, entry.value.index)
    ensures r.Some? ==> r.value.0 == repo[oid].parents[i] && r.value.0 in repo && r.value.1 == repo[r.value.0].tree
    ensures r.None? ==> repo[oid].parents[i] !in repo
  {
    if entry.None? {
      var parent := repo[oid].parents[i];
      if parent !in repo { return None; }
      return Some((parent, repo[parent].tree));
    }
    hide OidAt, TreeAt, ParentPositions, ParentsHold, Searchable, Tiled;
    var e := entry.value;
    EntryAgrees(g, layers, repo, e, oid);
    ghost var c := layers[e.file][e.index];
    AllBounded(g, layers, repo);
    r := Parent(g, e, i);
    PositionIsNotNone(g, layers, repo, e, i);
    ghost var p :| RowAt(g, c.parents[i], p, r.value);
    EntryAgrees(g, layers, repo, p, r.value.0);
  }

  lemma AllBounded(g: Graph, layers: seq<seq<GraphCommit>>, repo: Repo)
    requires Agrees(g, layers, repo)
    ensures forall k :: 0 <= k < |g.files| ==> Searchable(g.files[k]) && Bounded(g.files[k])
  {
    forall k | 0 <= k < |g.files| ensures Searchable(g.files[k]) && Bounded(g.files[k]) {
      assert LayerHolds(g.files[k], layers[k]);
    }
  }

  lemma PositionIsNotNone(g: Graph, layers: seq<seq<GraphCommit>>, repo: Repo, e: Entry, i: nat)
    requires Agrees(g, layers, repo) && InRange(g, e) && i < |layers[e.file][e.index].parents|
    ensures layers[e.file][e.index].parents[i] != PARENT_NONE
  {
    assert LayerHolds(g.files[e.file], layers[e.file]);
  }

  /**
  The path block of the loop: how many parents the commit does not differ from (for a root
  commit 1 when it lacks the entry), and the parent's root tree when there is one parent.
   */
  method Unmatched(repo: Repo, odb: Odb, g: Graph, ghost layers: seq<seq<GraphCommit>>, entry: Option<Entry>,
                   oid: Oid, path: seq<byte>, root: Option<Object>)
      returns (unmatched: Option<nat>, next: Option<Carried>)
    requires oid in repo && (root.Some? ==> IsRoot(repo, odb, oid, root.value))
    requires entry.Some? ==> Agrees(g, layers, repo) && InRange(g, entry.value)
                             && Bounded(g.files[entry.value.file])
                             && HasOid(g.files[entry.value.file], oid, entry.value.index)
    ensures next.Some? ==> IsRoot(repo, odb, next.value.oid, next.value.root)
    ensures unmatched.Some? <==> Comparable(repo, odb, repo[oid], path)
    ensures unmatched.Some? ==> (unmatched.value == 0 <==> ComparedChanged(repo, odb, repo[oid], path))
  {
    hide LookupPath, Descend, Agrees, Bounded;
    var c := repo[oid];
    var parents := |c.parents|;
    unmatched, next := None, None;
    if parents == 0 {
      var r, _ := TreePathChanged(odb, Some(c.tree), None, path, root, false);
      if r.None? { return; }
      unmatched := Some(if r.value then 0 else 1);
      return;
    }
    var count: nat := parents;
    var i := 0;
    while i < parents
      invariant 0 <= i <= parents && parents - i <= count <= parents
      invariant forall j :: 0 <= j < i ==>
                  c.parents[j] in repo && Descend(odb, Some(c.tree), Some(repo[c.parents[j]].tree), path).Some?
      invariant count == parents - i <==>
                forall j :: 0 <= j < i ==>
                  c.parents[j] in repo && Descend(odb, Some(c.tree), Some(repo[c.parents[j]].tree), path) == Some(true)
      invariant next.Some? ==> IsRoot(repo, odb, next.value.oid, next.value.root)
    {
      var parent := ParentOf(repo, g, layers, entry, oid, i);
      if parent.None? { return None, next; }
      var r, parentRoot := TreePathChanged(odb, Some(c.tree), Some(parent.value.1), path, root, parents == 1);
      if r.None? { return None, next; }
      if parentRoot.Some? {
        next := Some(Carried(parent.value.0, parentRoot.value));
      }
      if r.value {
        count := count - 1;
      }
      i := i + 1;
    }
    unmatched := Some(count);
  }

  /** The graph lookup of the loop: an entry that can also count its parents. */
  method FindInGraph(graph: Option<Graph>, ghost layers: seq<seq<GraphCommit>>, repo: Repo, oid: Oid)
      returns (r: Option<Entry>)
    requires graph.Some? ==> Agrees(graph.value, layers, repo)
    ensures GraphBounded(graph)
    ensures r == if graph.Some? && FindBelow(graph.value, oid, |graph.value.files|).Hit?
                 then Some(FindBelow(graph.value, oid, |graph.value.files|).entry) else None
    ensures r.Some? ==> InRange(graph.value, r.value)
                        && Bounded(graph.value.files[r.value.file])
                        && HasOid(graph.value.files[r.value.file], oid, r.value.index)
                        && oid in repo
                        && layers[r.value.file][r.value.index].oid == oid
  {
    hide Searchable, ParentPositions, Tiled, OidAt, TreeAt, ParentsHold, CommitAgrees, FindBelow;
    if graph.None? { return None; }
    var g := graph.value;
    AllBounded(g, layers, repo);
    FindIsExact(g, oid, |g.files|);
    var found := EntryFind(g, oid);
    r := None;
    match found {
      case Hit(e) =>
        EntryAgrees(g, layers, repo, e, oid);
        var count := ParentCount(g.files[e.file], e.index);
        if count.Some? { r := Some(e); }
      case NoHit =>
      case BadRead =>
    }
  }

  /** What has been printed, followed by what the walk still prints. */
  ghost predicate Continues(all: Option<seq<Oid>>, printed: seq<Oid>, rest: Option<seq<Oid>>) {
    all == if rest.None? then None else Some(printed + rest.value)
  }

  /** One step of the walk, by outcome. */
  lemma WalkStep(repo: Repo, odb: Odb, hash: Hasher, graph: Option<Graph>, all: Option<seq<Oid>>, printed: seq<Oid>,
                 walk: seq<Oid>, n: nat, path: seq<byte>, skip: nat, limit: nat)
    requires GraphBounded(graph) && n < |walk| && limit > 0
    requires Continues(all, printed, LockStep(repo, odb, hash, graph, walk[n..], path, skip, limit))
    ensures var kept := Decide(repo, odb, hash, graph, walk[n], path);
            && (kept.None? ==> all.None?)
            && (kept == Some(false) ==>
                  Continues(all, printed, LockStep(repo, odb, hash, graph, walk[n + 1..], path, skip, limit)))
            && (kept == Some(true) && skip > 0 ==>
                  Continues(all, printed, LockStep(repo, odb, hash, graph, walk[n + 1..], path, skip - 1, limit)))
            && (kept == Some(true) && skip == 0 && walk[n] !in repo ==> all.None?)
            && (kept == Some(true) && skip == 0 && walk[n] in repo ==>
                  Continues(all, printed + [walk[n]],
                            LockStep(repo, odb, hash, graph, walk[n + 1..], path, 0, limit - 1)))
  {
    hide Decide, GraphBounded;
    assert walk[n..][1..] == walk[n + 1..];
    var rest := LockStep(repo, odb, hash, graph, walk[n + 1..], path, 0, limit - 1);
    if rest.Some? {
      assert printed + ([walk[n]] + rest.value) == (printed + [walk[n]]) + rest.value;
    }
  }

  lemma WalkStart(repo: Repo, odb: Odb, hash: Hasher, graph: Option<Graph>,
                  walk: seq<Oid>, path: seq<byte>, skip: nat, limit: nat)
    requires GraphBounded(graph)
    ensures var all := LockStep(repo, odb, hash, graph, walk, path, skip, limit);
            Continues(all, [], LockStep(repo, odb, hash, graph, walk[0..], path, skip, limit))
  {
    hide LockStep, GraphBounded;
    assert walk[0..] == walk;
    var all := LockStep(repo, odb, hash, graph, walk, path, skip, limit);
    assert all.Some? ==> [] + all.value == all.value;
  }

  lemma WalkEnd(repo: Repo, odb: Odb, hash: Hasher, graph: Option<Graph>, all: Option<seq<Oid>>, printed: seq<Oid>,
                rest: seq<Oid>, path: seq<byte>, skip: nat, limit: nat)
    requires GraphBounded(graph) && (rest == [] || limit == 0)
    requires Continues(all, printed, LockStep(repo, odb, hash, graph, rest, path, skip, limit))
    ensures all == Some(printed)
  {
    assert printed + [] == printed;
  }

  /**
  What the loop does to one commit when there is a path: find it in the graph or load it,
  ask its filter, then compare trees. None is the error exit.
   */
  method Examine(repo: Repo, odb: Odb, hash: Hasher, graph: Option<Graph>, ghost layers: seq<seq<GraphCommit>>,
                 oid: Oid, path: seq<byte>, root: Option<Object>)
      returns (kept: Option<bool>, next: Option<Carried>)
    requires path != [] && (graph.Some? ==> Agrees(graph.value, layers, repo))
    requires root.Some? ==> IsRoot(repo, odb, oid, root.value)
    ensures next.Some? ==> IsRoot(repo, odb, next.value.oid, next.value.root)
    ensures GraphBounded(graph) && kept == Decide(repo, odb, hash, graph, oid, path)
  {
    hide Agrees, Contains, Leading, FilterOf, Bounded, HasOid, IsRoot, Comparable, ComparedChanged, FindBelow;
    kept, next := None, None;
    var entry := FindInGraph(graph, layers, repo, oid);
    if entry.None? && oid !in repo { return; }
    if entry.Some? {
      var maybe := PathMaybeChanged(hash, graph.value.files[entry.value.file], entry.value.index, path);
      if !maybe {
        return Some(false), None;
      }
    }
    var g := if graph.Some? then graph.value else Graph([], 0);
    var unmatched;
    unmatched, next := Unmatched(repo, odb, g, layers, entry, oid, path, root);
    kept := if unmatched.None? then None else Some(unmatched.value == 0);
  }

  /**
  kc3_git_log, from the walk on: the accelerated loop returns what the lock-step definition
  says, errors included. The loop is left as soon as `limit` commits are printed, so the C
  tests of `printed` that stand before a push can never be true.
   */
  method Log(repo: Repo, odb: Odb, hash: Hasher, graph: Option<Graph>, ghost layers: seq<seq<GraphCommit>>,
             walk: seq<Oid>, path: seq<byte>, skip: nat, limit: nat)
      returns (r: Option<seq<Oid>>)
    requires graph.Some? ==> Agrees(graph.value, layers, repo)
    ensures GraphBounded(graph)
    ensures r == if limit > 0 && |path| > 4096 then None
                 else LockStep(repo, odb, hash, graph, walk, path, skip, limit)
  {
    hide LockStep, Continues, IsRoot, Agrees, GraphBounded, Decide;
    GraphIsBounded(graph, layers, repo);
    NoLimit(repo, odb, hash, graph, walk, path, skip);
    if limit == 0 { return Some([]); }
    if |path| > PATH_MAX { return None; }
    ghost var all := LockStep(repo, odb, hash, graph, walk, path, skip, limit);
    WalkStart(repo, odb, hash, graph, walk, path, skip, limit);
    NoPath(repo, odb, hash, graph);
    var count, n: nat := 0, 0;
    var printed: seq<Oid> := [];
    var next: Option<Carried> := None;
    while n < |walk|
      invariant 0 <= n <= |walk| && |printed| < limit
      invariant next.Some? ==> IsRoot(repo, odb, next.value.oid, next.value.root)
      invariant Continues(all, printed, LockStep(repo, odb, hash, graph, walk[n..], path,
                                                 if count < skip then skip - count else 0, limit - |printed|))
    {
      var oid := walk[n];
      WalkStep(repo, odb, hash, graph, all, printed, walk, n, path,
               if count < skip then skip - count else 0, limit - |printed|);
      n := n + 1;
      if path != [] {
        var root: Option<Object> := None;
        if next.Some? && next.value.oid == oid { root := Some(next.value.root); }
        var kept;
        kept, next := Examine(repo, odb, hash, graph, layers, oid, path, root);
        if kept.None? { return None; }
        if !kept.value { continue; }
      }
      count := count + 1;
      if count - 1 < skip { continue; }
      if oid !in repo { return None; }
      printed := printed + [oid];
      if |printed| >= limit {
        WalkEnd(repo, odb, hash, graph, all, printed, walk[n..], path, 0, 0);
        return Some(printed);
      }
    }
    WalkEnd(repo, odb, hash, graph, all, printed, walk[n..], path,
            if count < skip then skip - count else 0, limit - |printed|);
    return Some(printed);
  }

  lemma GraphIsBounded(graph: Option<Graph>, layers: seq<seq<GraphCommit>>, repo: Repo)
    requires graph.Some? ==> Agrees(graph.value, layers, repo)
    ensures GraphBounded(graph)
  {
    hide Agrees, Bounded;
    if graph.Some? { AllBounded(graph.value, layers, repo); }
  }

  lemma NoLimit(repo: Repo, odb: Odb, hash: Hasher, graph: Option<Graph>, walk: seq<Oid>, path: seq<byte>, skip: nat)
    requires GraphBounded(graph)
    ensures LockStep(repo, odb, hash, graph, walk, path, skip, 0) == Some([])
  {
  }

  lemma NoPath(repo: Repo, odb: Odb, hash: Hasher, graph: Option<Graph>)
    requires GraphBounded(graph)
    ensures forall oid :: Decide(repo, odb, hash, graph, oid, []) == Some(true)
  {
  }

  // ---------- the plain definition again ----------

  /** A commit the filter rejects is one the plain definition would not keep. */
  lemma RejectedIsUnchanged(hash: Hasher, g: Graph, layers: seq<seq<GraphCommit>>, repo: Repo, odb: Odb,
                            e: Entry, oid: Oid, path: seq<byte>)
    requires Agrees(g, layers, repo) && FiltersHold(hash, g, layers, repo, odb)
    requires HasOidAt(g, e, oid) && layers[e.file][e.index].oid == oid && oid in repo
    requires EntryRejects(hash, g, e, path)
    ensures path != []
    ensures Readable(repo, odb, repo[oid], path) ==> !Changed(repo, odb, repo[oid], path)
  {
    hide Contains, FilterOf, Readable, Changed, Leading, ParentsHold, Searchable;
    LeadingEmpty();
    assert LayerHolds(g.files[e.file], layers[e.file]);
    assert FilterHolds(hash, g.files[e.file], e.index, layers[e.file][e.index].oid, repo, odb);
    if Readable(repo, odb, repo[oid], path) && Changed(repo, odb, repo[oid], path) {
      FilterKeepsChanged(hash, g.files[e.file], e.index, oid, repo, odb, path);
    }
  }

  ghost predicate HasOidAt(g: Graph, e: Entry, oid: Oid) {
    InRange(g, e) && Bounded(g.files[e.file]) && HasOid(g.files[e.file], oid, e.index)
  }

  /** Where the plain definition can read, the accelerated decision is its decision. */
  lemma DecidesAsPlain(repo: Repo, odb: Odb, hash: Hasher, graph: Option<Graph>, layers: seq<seq<GraphCommit>>,
                       oid: Oid, path: seq<byte>)
    requires graph.Some? ==> Agrees(graph.value, layers, repo) && FiltersHold(hash, graph.value, layers, repo, odb)
    requires GraphBounded(graph) && path != [] && oid in repo && Readable(repo, odb, repo[oid], path)
    ensures Decide(repo, odb, hash, graph, oid, path) == Some(Changed(repo, odb, repo[oid], path))
  {
    hide Agrees, FiltersHold, Readable, Changed, Comparable, ComparedChanged, EntryRejects, FindBelow, Bounded;
    ReadableCompares(repo, odb, repo[oid], path);
    if Rejects(hash, graph, oid, path) {
      var e := FindBelow(graph.value, oid, |graph.value.files|).entry;
      HitAgrees(graph.value, layers, repo, oid);
      RejectedIsUnchanged(hash, graph.value, layers, repo, odb, e, oid, path);
    }
  }

  lemma HitAgrees(g: Graph, layers: seq<seq<GraphCommit>>, repo: Repo, oid: Oid)
    requires Agrees(g, layers, repo) && GraphBounded(Some(g)) && FindBelow(g, oid, |g.files|).Hit?
    ensures var e := FindBelow(g, oid, |g.files|).entry;
            HasOidAt(g, e, oid) && oid in repo && layers[e.file][e.index].oid == oid
  {
    hide Searchable, ParentPositions, Tiled, OidAt, TreeAt, ParentsHold, CommitAgrees, FindBelow;
    AllBounded(g, layers, repo);
    FindIsExact(g, oid, |g.files|);
    EntryAgrees(g, layers, repo, FindBelow(g, oid, |g.files|).entry, oid);
  }

  /**
  Whenever the plain definition finds everything it needs, the accelerated walk returns the
  same list.
   */
  lemma {:induction false} LockStepIsPlain(repo: Repo, odb: Odb, hash: Hasher, graph: Option<Graph>,
                                           layers: seq<seq<GraphCommit>>, walk: seq<Oid>, path: seq<byte>,
                                           skip: nat, limit: nat)
    requires graph.Some? ==> Agrees(graph.value, layers, repo) && FiltersHold(hash, graph.value, layers, repo, odb)
    requires GraphBounded(graph) && Naive(repo, odb, walk, path, skip, limit).Some?
    ensures LockStep(repo, odb, hash, graph, walk, path, skip, limit) == Naive(repo, odb, walk, path, skip, limit)
    decreases |walk|
  {
    hide Agrees, FiltersHold, Readable, Changed, GraphBounded, Decide;
    if limit > 0 && walk != [] {
      NoPath(repo, odb, hash, graph);
      if path != [] {
        DecidesAsPlain(repo, odb, hash, graph, layers, walk[0], path);
      }
      if !Kept(repo, odb, walk[0], path) {
        LockStepIsPlain(repo, odb, hash, graph, layers, walk[1..], path, skip, limit);
      } else if skip > 0 {
        LockStepIsPlain(repo, odb, hash, graph, layers, walk[1..], path, skip - 1, limit);
      } else {
        LockStepIsPlain(repo, odb, hash, graph, layers, walk[1..], path, 0, limit - 1);
      }
    }
  }
}
