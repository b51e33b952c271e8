/**
The layered commit-graph (git/log.c, log_graph_init, log_graph_entry_find, _at,
_parent_count, _parent). Commits are numbered globally across a chain of files; each file
holds a sorted id table with a fanout, and fixed-size commit rows whose parents are
positions, with an edge list for more than two (gitformat-commit-graph, CHUNK DATA).
 */
module CommitGraph {
  import opened Bytes
  import opened GitTree
  import opened GraphFile

  const PARENT_NONE := 0x7000_0000
  const OCTOPUS := 0x8000_0000

  /** A commit as a layer stores it; parents are positions in the whole chain. */
  datatype GraphCommit = GraphCommit(oid: Oid, tree: Oid, parents: seq<nat>)

  datatype Graph = Graph(files: seq<File>, commitCount: nat)
  datatype Entry = Entry(file: nat, index: nat)

  // ---------- the order of ids ----------

  /** memcmp order on ids of the same length. */
  function Compare(a: seq<byte>, b: seq<byte>): int
    requires |a| == |b|
  {
    if a == [] then 0
    else if a[0] < b[0] then -1
    else if a[0] > b[0] then 1
    else Compare(a[1..], b[1..])
  }

  ghost predicate Less(a: seq<byte>, b: seq<byte>)
    requires |a| == |b|
  {
    Compare(a, b) < 0
  }

  lemma {:induction false} CompareIsOrder(a: seq<byte>, b: seq<byte>)
    requires |a| == |b|
    ensures Compare(a, b) == 0 <==> a == b
    ensures Compare(a, b) > 0 <==> Less(b, a)
  {
    if a != [] {
      CompareIsOrder(a[1..], b[1..]);
      assert a == [a[0]] + a[1..] && b == [b[0]] + b[1..];
    }
  }

  /** The first byte that differs decides. */
  lemma {:induction false} LessAtFirstDifference(a: seq<byte>, b: seq<byte>)
    requires |a| == |b|
    ensures Less(a, b) <==> exists k :: 0 <= k < |a| && a[..k] == b[..k] && a[k] < b[k]
  {
    if a != [] {
      LessAtFirstDifference(a[1..], b[1..]);
      if a[0] == b[0] {
        if k :| 0 <= k < |a| && a[..k] == b[..k] && a[k] < b[k] {
          assert a[1..][..k - 1] == a[..k][1..] == b[1..][..k - 1];
        }
        if k :| 0 <= k < |a| - 1 && a[1..][..k] == b[1..][..k] && a[1..][k] < b[1..][k] {
          assert a[..k + 1] == [a[0]] + a[1..][..k] == b[..k + 1];
        }
      } else {
        assert a[..0] == b[..0];
        if k :| 0 <= k < |a| && a[..k] == b[..k] && a[k] < b[k] {
          if k > 0 { assert a[..k][0] == b[..k][0]; }
        }
      }
    }
  }

  lemma {:induction false} LessTransitive(a: seq<byte>, b: seq<byte>, c: seq<byte>)
    requires |a| == |b| == |c|
    requires Less(a, b) && Less(b, c)
    ensures Less(a, c)
  {
    if a != [] && a[0] == b[0] == c[0] {
      LessTransitive(a[1..], b[1..], c[1..]);
    }
  }

  // ---------- reading rows ----------

  function OidAt(f: File, i: nat): Oid
    requires Bounded(f) && i < f.commitCount
  {
    f.data[f.oidLookup + i * OID_SIZE..f.oidLookup + i * OID_SIZE + OID_SIZE]
  }

  /** log_graph_entry_tree_oid. */
  function TreeAt(f: File, i: nat): Oid
    requires Bounded(f) && i < f.commitCount
  {
    f.data[f.commitData + i * COMMIT_SIZE..f.commitData + i * COMMIT_SIZE + OID_SIZE]
  }

  function FirstParentField(f: File, i: nat): u32
    requires Bounded(f) && i < f.commitCount
  {
    Be32(f.data, f.commitData + i * COMMIT_SIZE + OID_SIZE)
  }

  function SecondParentField(f: File, i: nat): u32
    requires Bounded(f) && i < f.commitCount
  {
    Be32(f.data, f.commitData + i * COMMIT_SIZE + OID_SIZE + 4)
  }

  function Fanout(f: File, b: byte): u32
    requires Bounded(f)
  {
    Be32(f.data, f.fanout + b as int * 4)
  }

  function EdgeCount(f: File): nat {
    if f.edges.Some? then f.edges.value.size / 4 else 0
  }

  function Edge(f: File, position: nat): u32
    requires Bounded(f) && position < EdgeCount(f)
  {
    Be32(f.data, f.edges.value.at + position * 4)
  }

  // ---------- what a well-formed layer holds ----------

  ghost predicate Sorted(f: File)
    requires Bounded(f)
  {
    forall i, j :: 0 <= i < j < f.commitCount ==> Less(OidAt(f, i), OidAt(f, j))
  }

  /** Entry b of the fanout separates the ids whose first byte is at most b from the others. */
  ghost predicate FanoutTrue(f: File)
    requires Bounded(f)
  {
    forall b: byte ::
      && Fanout(f, b) <= f.commitCount
      && (forall i :: 0 <= i < Fanout(f, b) ==> OidAt(f, i)[0] <= b)
      && (forall i :: Fanout(f, b) <= i < f.commitCount ==> OidAt(f, i)[0] > b)
  }

  ghost predicate Searchable(f: File) {
    Bounded(f) && Sorted(f) && FanoutTrue(f)
  }

  /** The two parent fields of a row, and the edge list behind them, encode these positions. */
  ghost predicate ParentsHold(f: File, i: nat, parents: seq<nat>)
    requires Bounded(f) && i < f.commitCount
  {
    && (forall k :: 0 <= k < |parents| ==> parents[k] < PARENT_NONE)
    && FirstParentField(f, i) == (if parents == [] then PARENT_NONE else parents[0])
    && match |parents|
       case 0 => true
       case 1 => SecondParentField(f, i) == PARENT_NONE
       case 2 => SecondParentField(f, i) == parents[1]
       case _ => SecondParentField(f, i) >= OCTOPUS && EdgesHold(f, SecondParentField(f, i) - OCTOPUS, parents[1..])
  }

  /** From an edge on, the list holds these positions, the last one marked. */
  ghost predicate EdgesHold(f: File, at: nat, rest: seq<nat>)
    requires Bounded(f)
  {
    && at + |rest| <= EdgeCount(f)
    && forall k :: 0 <= k < |rest| ==>
         Edge(f, at + k) == if k == |rest| - 1 then OCTOPUS + rest[k] else rest[k]
  }

  ghost predicate LayerHolds(f: File, commits: seq<GraphCommit>) {
    && Searchable(f)
    && f.commitCount == |commits|
    && forall i :: 0 <= i < |commits| ==>
         OidAt(f, i) == commits[i].oid && TreeAt(f, i) == commits[i].tree && ParentsHold(f, i, commits[i].parents)
  }

  // ---------- positions across the chain ----------

  function Total(files: seq<File>): nat {
    if files == [] then 0 else Total(files[..|files| - 1]) + files[|files| - 1].commitCount
  }

  /** Each file starts where the files before it end. */
  ghost predicate Tiled(g: Graph) {
    && g.commitCount == Total(g.files)
    && forall k :: 0 <= k < |g.files| ==> g.files[k].basePosition == Total(g.files[..k])
  }

  lemma {:induction false} TotalMonotone(files: seq<File>, j: nat, k: nat)
    requires j < k <= |files|
    ensures Total(files[..j]) + files[j].commitCount <= Total(files[..k])
    decreases k - j
  {
    assert files[..k][..k - 1] == files[..k - 1];
    if j < k - 1 { TotalMonotone(files, j, k - 1); }
  }

  lemma {:induction false} PositionCovered(files: seq<File>, position: nat) returns (k: nat)
    requires position < Total(files)
    ensures k < |files| && Total(files[..k]) <= position < Total(files[..k]) + files[k].commitCount
    decreases |files|
  {
    var n := |files| - 1;
    if position < Total(files[..n]) {
      k := PositionCovered(files[..n], position);
      assert files[..n][..k] == files[..k];
    } else {
      k := n;
    }
  }

  /** log_graph_init on the files of a chain, oldest first, or on a single file. */
  method LoadGraph(datas: seq<seq<byte>>) returns (r: Option<Graph>)
    ensures r.Some? <==> datas != [] && forall k :: 0 <= k < |datas| ==> Acceptable(datas[k])
    ensures r.Some? ==>
              && Tiled(r.value) && |r.value.files| == |datas|
              && forall k :: 0 <= k < |datas| ==> Bounded(r.value.files[k]) && r.value.files[k].data == datas[k]
  {
    hide Acceptable, Bounded, Accepted;
    var files: seq<File>, count: nat := [], 0;
    for i := 0 to |datas|
      invariant |files| == i
      invariant forall k :: 0 <= k < i ==> Acceptable(datas[k])
      invariant forall k :: 0 <= k < i ==> Bounded(files[k]) && files[k].data == datas[k]
      invariant Tiled(Graph(files, count))
    {
      var file := LoadFile(datas[i], count);
      if file.None? { return None; }
      AcceptedFields(datas[i], count);
      AppendTiled(Graph(files, count), file.value);
      files := files + [file.value];
      count := count + file.value.commitCount;
    }
    if datas == [] { return None; }
    return Some(Graph(files, count));
  }

  lemma AcceptedFields(data: seq<byte>, base: nat)
    requires Acceptable(data)
    ensures Accepted(data, base).data == data && Accepted(data, base).basePosition == base
  {
  }

  lemma AppendTiled(g: Graph, f: File)
    requires Tiled(g) && f.basePosition == g.commitCount
    ensures Tiled(Graph(g.files + [f], g.commitCount + f.commitCount))
  {
    var files := g.files + [f];
    assert files[..|g.files|] == g.files;
    forall k | 0 <= k < |files| ensures files[k].basePosition == Total(files[..k]) {
      if k < |g.files| { assert files[..k] == g.files[..k]; }
    }
  }

  ghost predicate InRange(g: Graph, e: Entry) {
    e.file < |g.files| && e.index < g.files[e.file].commitCount
  }

  /** The global position of an entry. */
  function Position(g: Graph, e: Entry): nat
    requires e.file < |g.files|
  {
    g.files[e.file].basePosition + e.index
  }

  /** log_graph_entry_at: exactly the positions below commitCount name an entry. */
  method EntryAt(g: Graph, position: nat) returns (r: Option<Entry>)
    requires Tiled(g)
    ensures r.Some? <==> position < g.commitCount
    ensures r.Some? ==> InRange(g, r.value) && Position(g, r.value) == position
  {
    hide Total;
    var i := |g.files|;
    while i > 0
      invariant 0 <= i <= |g.files|
      invariant forall k :: i <= k < |g.files| ==>
                  !(g.files[k].basePosition <= position < g.files[k].basePosition + g.files[k].commitCount)
    {
      i := i - 1;
      var file := g.files[i];
      if position >= file.basePosition && position - file.basePosition < file.commitCount {
        TotalMonotone(g.files, i, |g.files|);
        assert g.files[..|g.files|] == g.files;
        return Some(Entry(i, position - file.basePosition));
      }
    }
    if position < g.commitCount {
      var _ := PositionCovered(g.files, position);
    }
    return None;
  }

  /** Positions and entries correspond one to one, so EntryAt inverts Position. */
  lemma PositionInjective(g: Graph, a: Entry, b: Entry)
    requires Tiled(g) && InRange(g, a) && InRange(g, b)
    ensures Position(g, a) < g.commitCount
    ensures Position(g, a) == Position(g, b) ==> a == b
  {
    hide Total;
    TotalMonotone(g.files, a.file, |g.files|);
    assert g.files[..|g.files|] == g.files;
    if a.file < b.file {
      TotalMonotone(g.files, a.file, b.file);
    } else if b.file < a.file {
      TotalMonotone(g.files, b.file, a.file);
    }
  }

  // ---------- lookup by id ----------

  /** Layer k has the id, at this index. */
  ghost predicate HasOid(f: File, oid: Oid, index: nat)
    requires Bounded(f)
  {
    index < f.commitCount && OidAt(f, index) == oid
  }

  ghost predicate Lacks(f: File, oid: Oid) {
    Bounded(f) && forall i :: 0 <= i < f.commitCount ==> OidAt(f, i) != oid
  }

  // The loader checks only the last fanout entry, so the bucket of an id may end anywhere.

  /** Id rows that lie in the file as a whole, whatever the fanout announces. */
  function RowsThatFit(f: File): (n: nat)
    requires Bounded(f)
    ensures f.commitCount <= n && f.oidLookup + n * OID_SIZE <= |f.data|
  {
    (|f.data| - f.oidLookup) / OID_SIZE
  }

  function Row(f: File, i: nat): (oid: Oid)
    requires Bounded(f) && i < RowsThatFit(f)
    ensures i < f.commitCount ==> oid == OidAt(f, i)
  {
    RowInside(f, i);
    f.data[f.oidLookup + i * OID_SIZE..f.oidLookup + i * OID_SIZE + OID_SIZE]
  }

  lemma RowInside(f: File, i: nat)
    requires Bounded(f) && i < RowsThatFit(f)
    ensures f.oidLookup + i * OID_SIZE + OID_SIZE <= |f.data|
  {
  }

  function Rows(f: File): (rows: seq<Oid>)
    requires Bounded(f)
    ensures |rows| == RowsThatFit(f)
    ensures forall i :: 0 <= i < |rows| ==> rows[i] == Row(f, i)
  {
    seq(RowsThatFit(f), i requires 0 <= i < RowsThatFit(f) => Row(f, i))
  }

  function Low(f: File, oid: Oid): nat
    requires Bounded(f)
  {
    if oid[0] != 0 then Fanout(f, oid[0] - 1) else 0
  }

  /** The search finds a row, finds none, or reads behind the rows of the file. */
  datatype Outcome = Found(index: nat) | Missing | Outside

  /** The binary search for an id among rows, between two indices. */
  function Search(rows: seq<Oid>, low: nat, high: nat, oid: Oid): (r: Outcome)
    ensures r.Found? ==> low <= r.index < high && r.index < |rows| && rows[r.index] == oid
    decreases high - low
  {
    if low >= high then Missing
    else
      var middle := low + (high - low) / 2;
      if middle >= |rows| then Outside
      else
        CompareIsOrder(oid, rows[middle]);
        var order := Compare(oid, rows[middle]);
        if order < 0 then Search(rows, low, middle, oid)
        else if order > 0 then Search(rows, middle + 1, high, oid)
        else Found(middle)
  }

  function SearchBucket(f: File, oid: Oid): Outcome
    requires Bounded(f)
  {
    Search(Rows(f), Low(f, oid), Fanout(f, oid[0]), oid)
  }

  lemma {:induction false} InsideWhenBucketFits(rows: seq<Oid>, low: nat, high: nat, oid: Oid)
    requires high <= |rows|
    ensures Search(rows, low, high, oid) != Outside
    decreases high - low
  {
    hide Compare;
    if low < high {
      var middle := low + (high - low) / 2;
      InsideWhenBucketFits(rows, low, middle, oid);
      InsideWhenBucketFits(rows, middle + 1, high, oid);
    }
  }

  /** An id behind every row drives the search to the end of its bucket. */
  lemma {:induction false} ClimbsOutside(rows: seq<Oid>, low: nat, high: nat, oid: Oid)
    requires low < high && |rows| < high
    requires forall i :: 0 <= i < |rows| ==> Compare(oid, rows[i]) > 0
    ensures Search(rows, low, high, oid) == Outside
    decreases high - low
  {
    hide Compare;
    var middle := low + (high - low) / 2;
    if middle < |rows| {
      ClimbsOutside(rows, middle + 1, high, oid);
    }
  }

  /** Every search for an id with this first byte stays among the rows. */
  ghost predicate StaysInside(n: nat, low: nat, high: nat, first: byte) {
    forall rows: seq<Oid>, oid: Oid :: |rows| == n && oid[0] == first ==> Search(rows, low, high, oid) != Outside
  }

  /**
  Whatever rows a file holds and whatever id is asked for, the search of a bucket stays
  inside if and only if the bucket is empty or ends among the rows that fit.
   */
  lemma SearchStaysInsideIff(n: nat, low: nat, high: nat, first: byte)
    ensures StaysInside(n, low, high, first) <==> low >= high || high <= n
  {
    hide Compare;
    if high <= n {
      forall rows: seq<Oid>, oid: Oid | |rows| == n && oid[0] == first ensures Search(rows, low, high, oid) != Outside {
        InsideWhenBucketFits(rows, low, high, oid);
      }
    } else if low < high {
      var zeros: Oid := seq(20, _ => 0);
      var rows: seq<Oid> := seq(n, _ => zeros);
      var oid: Oid := [first] + seq(19, _ => 255);
      BehindZeros(oid, zeros);
      ClimbsOutside(rows, low, high, oid);
      assert oid[0] == first;
    }
  }

  lemma BehindZeros(oid: Oid, zeros: Oid)
    requires oid[1..] == seq(19, _ => 255) && zeros == seq(20, _ => 0)
    ensures Compare(oid, zeros) > 0
  {
    assert oid[1..][0] == 255 && zeros[1..][0] == 0 && zeros[0] == 0;
    assert oid[1..] != [];
  }

  /** With no fanout entry beyond the rows that fit, no lookup in the file reads outside. */
  lemma FanoutInsideIsEnough(f: File, oid: Oid)
    requires Bounded(f) && forall b: byte :: Fanout(f, b) <= RowsThatFit(f)
    ensures SearchBucket(f, oid) != Outside
  {
    hide Compare, Rows, Fanout;
    InsideWhenBucketFits(Rows(f), Low(f, oid), Fanout(f, oid[0]), oid);
  }

  /** The binary search inside one fanout bucket; C has no check where this stops at Outside. */
  method SearchFile(f: File, oid: Oid) returns (r: Outcome)
    requires Bounded(f)
    ensures r == SearchBucket(f, oid)
  {
    hide OidAt, Compare, Fanout, RowsThatFit, Row, Rows, Bounded;
    var low: nat := if oid[0] != 0 then Fanout(f, oid[0] - 1) else 0;
    var high: nat := Fanout(f, oid[0]);
    while low < high
      invariant SearchBucket(f, oid) == Search(Rows(f), low, high, oid)
      decreases high - low
    {
      var middle := low + (high - low) / 2;
      if middle >= RowsThatFit(f) { return Outside; }
      var order := Compare(oid, Row(f, middle));
      CompareIsOrder(oid, Row(f, middle));
      if order < 0 {
        high := middle;
      } else if order > 0 {
        low := middle + 1;
      } else {
        return Found(middle);
      }
    }
    return Missing;
  }

  /** With sorted ids and a true fanout the search finds an id iff the layer holds it. */
  lemma SearchIsExact(f: File, oid: Oid)
    requires Searchable(f)
    ensures SearchBucket(f, oid) != Outside
    ensures SearchBucket(f, oid).Found? ==> HasOid(f, oid, SearchBucket(f, oid).index)
    ensures SearchBucket(f, oid).Missing? ==> Lacks(f, oid)
  {
    hide OidAt, Compare, Fanout, Rows, Row, RowsThatFit;
    var low, high := Low(f, oid), Fanout(f, oid[0]);
    assert forall i :: 0 <= i < low && i < f.commitCount ==> OidAt(f, i)[0] < oid[0];
    assert forall i :: high <= i < f.commitCount ==> OidAt(f, i)[0] > oid[0];
    SearchSorted(f, low, high, oid);
  }

  lemma {:induction false} SearchSorted(f: File, low: nat, high: nat, oid: Oid)
    requires Bounded(f) && Sorted(f) && high <= f.commitCount
    requires forall i :: 0 <= i < low && i < f.commitCount ==> OidAt(f, i) != oid
    requires forall i :: high <= i < f.commitCount ==> OidAt(f, i) != oid
    ensures var r := Search(Rows(f), low, high, oid);
            r != Outside && (r.Missing? ==> Lacks(f, oid))
    decreases high - low
  {
    hide OidAt, Compare, Rows, Row, RowsThatFit, Sorted;
    if low < high {
      var middle := low + (high - low) / 2;
      var order := Compare(oid, OidAt(f, middle));
      CompareIsOrder(oid, OidAt(f, middle));
      if order < 0 {
        forall i | middle <= i < high ensures OidAt(f, i) != oid {
          SortedBelow(f, oid, middle, i);
        }
        SearchSorted(f, low, middle, oid);
      } else if order > 0 {
        forall i | low <= i <= middle ensures OidAt(f, i) != oid {
          SortedAbove(f, oid, i, middle);
        }
        SearchSorted(f, middle + 1, high, oid);
      }
    }
  }

  lemma SortedBelow(f: File, oid: Oid, m: nat, i: nat)
    requires Bounded(f) && Sorted(f) && m <= i < f.commitCount && Less(oid, OidAt(f, m))
    ensures OidAt(f, i) != oid
  {
    hide OidAt, Compare;
    if m < i { LessTransitive(oid, OidAt(f, m), OidAt(f, i)); }
    CompareIsOrder(oid, OidAt(f, i));
  }

  lemma SortedAbove(f: File, oid: Oid, i: nat, m: nat)
    requires Bounded(f) && Sorted(f) && i <= m < f.commitCount && Less(OidAt(f, m), oid)
    ensures OidAt(f, i) != oid
  {
    hide OidAt, Compare;
    if i < m { LessTransitive(OidAt(f, i), OidAt(f, m), oid); }
    CompareIsOrder(oid, OidAt(f, i));
  }

  /** The lookup names an entry, finds none, or reads outside a file. */
  datatype Lookup = Hit(entry: Entry) | NoHit | BadRead

  /** The search of the layers below a number, topmost first. */
  function FindBelow(g: Graph, oid: Oid, n: nat): Lookup
    requires n <= |g.files| && forall k :: 0 <= k < |g.files| ==> Bounded(g.files[k])
  {
    if n == 0 then NoHit
    else
      match SearchBucket(g.files[n - 1], oid)
      case Found(index) => Hit(Entry(n - 1, index))
      case Outside => BadRead
      case Missing => FindBelow(g, oid, n - 1)
  }

  /** log_graph_entry_find. */
  method EntryFind(g: Graph, oid: Oid) returns (r: Lookup)
    requires forall k :: 0 <= k < |g.files| ==> Bounded(g.files[k])
    ensures r == FindBelow(g, oid, |g.files|)
  {
    hide SearchBucket, Bounded;
    var i := |g.files|;
    while i > 0
      invariant 0 <= i <= |g.files| && FindBelow(g, oid, |g.files|) == FindBelow(g, oid, i)
    {
      i := i - 1;
      var found := SearchFile(g.files[i], oid);
      match found {
        case Found(index) => return Hit(Entry(i, index));
        case Outside => return BadRead;
        case Missing =>
      }
    }
    return NoHit;
  }

  /**
  In a chain whose layers have sorted ids and true fanouts the lookup succeeds iff some
  layer holds the id, and then names its index in the topmost such layer.
   */
  lemma {:induction false} FindIsExact(g: Graph, oid: Oid, n: nat)
    requires n <= |g.files| && forall k :: 0 <= k < |g.files| ==> Bounded(g.files[k]) && Searchable(g.files[k])
    ensures var r := FindBelow(g, oid, n);
            && !r.BadRead?
            && (r.Hit? ==>
                  && r.entry.file < n && InRange(g, r.entry) && HasOid(g.files[r.entry.file], oid, r.entry.index)
                  && forall k :: r.entry.file < k < n ==> Lacks(g.files[k], oid))
            && (r.NoHit? ==> forall k :: 0 <= k < n ==> Lacks(g.files[k], oid))
  {
    hide OidAt, Sorted, FanoutTrue, Bounded, Lacks, SearchBucket;
    if n > 0 {
      SearchIsExact(g.files[n - 1], oid);
      FindIsExact(g, oid, n - 1);
    }
  }

  // ---------- a file whose fanout the loader does not check ----------

  const FANOUT_OVERRUN: seq<byte> := [255, 255, 255, 255] + seq(1020, _ => 0)

  /** Three sections, the ids and the commits empty, and a fanout with one wrong entry. */
  const OVERRUN_SECTIONS: seq<Section> := [Section(OIDF, FANOUT_OVERRUN), Section(OIDL, []), Section(CDAT, [])]

  const OVERRUN: seq<byte> := EncodeFile(OVERRUN_SECTIONS, 0, seq(20, _ => 0))

  lemma OverrunSize()
    ensures |OVERRUN| == 1100 && SectionAt(OVERRUN_SECTIONS, 0) == 56 && SectionAt(OVERRUN_SECTIONS, 1) == 1080
  {
    hide EncodeFile, Flat, TableRows, HeaderFits;
    EncodedParts(OVERRUN_SECTIONS, 0, seq(20, _ => 0));
    SectionAtIsBehind(OVERRUN_SECTIONS, 3);
    assert Bodies(OVERRUN_SECTIONS)[..3] == Bodies(OVERRUN_SECTIONS);
    var sections := OVERRUN_SECTIONS;
    assert |sections[0].bytes| == 1024;
    assert SectionAt(sections, 1) == SectionAt(sections, 0) + 1024;
    assert SectionAt(sections, 2) == SectionAt(sections, 1);
  }

  /**
  The loader accepts a file whose first fanout entry points far behind its end, and the
  lookup of any id that begins with a zero byte then reads outside the file.
   */
  lemma UncheckedFanoutReadsOutside(oid: Oid)
    requires oid[0] == 0
    ensures Acceptable(OVERRUN) && Accepted(OVERRUN, 0).commitCount == 0 && Bounded(Accepted(OVERRUN, 0))
    ensures SearchBucket(Accepted(OVERRUN, 0), oid) == Outside
  {
    hide LaidOut, Be32, SectionAt, Acceptable, Accepted, Bounded, Rows, RowsThatFit, EncodeFile;
    OverrunSize();
    EncodedIsLaidOut(OVERRUN_SECTIONS, 0, seq(20, _ => 0));
    OverrunSections();
    LaidOutLoads(OVERRUN, OVERRUN_SECTIONS, 0, 0, 1, 2);
    AcceptedIsBounded(OVERRUN, 0);
    OverrunBucket();
    assert Low(Accepted(OVERRUN, 0), oid) == 0;
  }

  lemma OverrunSections()
    ensures DistinctIds(OVERRUN_SECTIONS) && LegalSizes(OVERRUN_SECTIONS)
    ensures |OVERRUN_SECTIONS[0].bytes| == 1024 && Be32(OVERRUN_SECTIONS[0].bytes, 1020) == 0
  {
  }

  lemma OverrunBucket()
    requires LaidOut(OVERRUN, OVERRUN_SECTIONS) && Acceptable(OVERRUN)
    requires var f := Accepted(OVERRUN, 0);
             && Bounded(f) && f.data == OVERRUN
             && f.fanout == SectionAt(OVERRUN_SECTIONS, 0) && f.oidLookup == SectionAt(OVERRUN_SECTIONS, 1)
    ensures Fanout(Accepted(OVERRUN, 0), 0) == 0xFFFF_FFFF && RowsThatFit(Accepted(OVERRUN, 0)) <= 55
  {
    hide Acceptable, Accepted, EncodeFile, TableLists, SectionAt;
    OverrunSize();
    assert SectionStored(OVERRUN, OVERRUN_SECTIONS, 0);
    assert |OVERRUN_SECTIONS[0].bytes| == 1024;
    Be32Slice(OVERRUN, 56, 1024, 0);
    assert Be32(FANOUT_OVERRUN, 0) == 0xFFFF_FFFF;
  }

  // ---------- parents ----------

  /** The positions listed from an edge on, up to the one that carries the end mark. */
  function EdgeRun(f: File, at: nat): (r: Option<seq<nat>>)
    requires Bounded(f)
    decreases EdgeCount(f) - at
  {
    if at >= EdgeCount(f) then None
    else if Edge(f, at) >= OCTOPUS then Some([Edge(f, at) - OCTOPUS])
    else match EdgeRun(f, at + 1)
         case None => None
         case Some(rest) => Some([Edge(f, at)] + rest)
  }

  /** The parent list a row stands for; None when its edge list has no end. */
  function ParentPositions(f: File, i: nat): Option<seq<nat>>
    requires Bounded(f) && i < f.commitCount
  {
    var parent1, parent2 := FirstParentField(f, i), SecondParentField(f, i);
    if parent1 == PARENT_NONE then Some([])
    else if parent2 == PARENT_NONE then Some([parent1])
    else if parent2 < OCTOPUS then Some([parent1, parent2])
    else match EdgeRun(f, parent2 - OCTOPUS)
         case None => None
         case Some(rest) => Some([parent1] + rest)
  }

  lemma {:induction false} EdgeRunOfEncoded(f: File, at: nat, rest: seq<nat>)
    requires Bounded(f) && rest != [] && EdgesHold(f, at, rest)
    requires forall k :: 0 <= k < |rest| ==> rest[k] < OCTOPUS
    ensures EdgeRun(f, at) == Some(rest)
    decreases |rest|
  {
    hide Edge, Bounded;
    assert Edge(f, at + 0) == if |rest| == 1 then OCTOPUS + rest[0] else rest[0];
    if |rest| == 1 {
      assert rest == [rest[0]];
    } else {
      var tail := rest[1..];
      forall k | 0 <= k < |tail|
        ensures Edge(f, at + 1 + k) == if k == |tail| - 1 then OCTOPUS + tail[k] else tail[k]
      {
        assert Edge(f, at + (k + 1)) == if k + 1 == |rest| - 1 then OCTOPUS + rest[k + 1] else rest[k + 1];
      }
      EdgeRunOfEncoded(f, at + 1, tail);
      assert rest == [rest[0]] + tail;
    }
  }

  /** Decoding inverts the encoding, whatever the number of parents. */
  lemma ParentsRoundTrip(f: File, i: nat, parents: seq<nat>)
    requires Bounded(f) && i < f.commitCount && ParentsHold(f, i, parents)
    ensures ParentPositions(f, i) == Some(parents)
  {
    hide Edge, Bounded, FirstParentField, SecondParentField, EdgesHold;
    if |parents| > 2 {
      EdgeRunOfEncoded(f, SecondParentField(f, i) - OCTOPUS, parents[1..]);
      assert parents == [parents[0]] + parents[1..];
    } else if |parents| == 2 {
      assert parents == [parents[0], parents[1]];
    } else if |parents| == 1 {
      assert parents == [parents[0]];
    }
  }

  /** log_graph_entry_parent_count; None is the UW_MAX answer for an edge list without an end. */
  method ParentCount(f: File, index: nat) returns (r: Option<nat>)
    requires Bounded(f) && index < f.commitCount
    ensures r == match ParentPositions(f, index) case None => None case Some(ps) => Some(|ps|)
  {
    hide Bounded, Edge, FirstParentField, SecondParentField;
    var parent1 := FirstParentField(f, index);
    var parent2 := SecondParentField(f, index);
    if parent1 == PARENT_NONE { return Some(0); }
    if parent2 == PARENT_NONE { return Some(1); }
    if parent2 < OCTOPUS { return Some(2); }
    var position: nat := parent2 - OCTOPUS;
    var result := 1;
    ghost var run := EdgeRun(f, position);
    while position < EdgeCount(f)
      invariant result >= 1
      invariant run.None? <==> EdgeRun(f, position).None?
      invariant run.Some? ==> 1 + |run.value| == result + |EdgeRun(f, position).value|
      decreases EdgeCount(f) - position
    {
      var value := Edge(f, position);
      result := result + 1;
      if value >= OCTOPUS {
        return Some(result);
      }
      position := position + 1;
    }
    return None;
  }

  lemma {:induction false} EdgeRunAt(f: File, at: nat, k: nat)
    requires Bounded(f) && EdgeRun(f, at).Some? && k < |EdgeRun(f, at).value|
    ensures at + k < EdgeCount(f) && EdgeRun(f, at).value[k] == Edge(f, at + k) % OCTOPUS
    decreases k
  {
    hide Edge, Bounded;
    if k > 0 { EdgeRunAt(f, at + 1, k - 1); }
  }

  /** log_graph_entry_parent: the id and tree found at the position of parent i. */
  method Parent(g: Graph, e: Entry, i: nat) returns (r: Option<(Oid, Oid)>)
    requires Tiled(g) && InRange(g, e)
    requires forall k :: 0 <= k < |g.files| ==> Bounded(g.files[k])
    ensures var ps := ParentPositions(g.files[e.file], e.index);
            ps.Some? && i < |ps.value| ==>
              && (r.Some? <==> ps.value[i] != PARENT_NONE && ps.value[i] < g.commitCount)
              && (r.Some? ==> exists p :: RowAt(g, ps.value[i], p, r.value))
  {
    hide OidAt, TreeAt, Edge, EdgeRun, FirstParentField, SecondParentField, Total, Bounded;
    var f := g.files[e.file];
    ghost var ps := ParentPositions(f, e.index);
    var position: nat;
    if i == 0 {
      position := FirstParentField(f, e.index);
    } else {
      var parent2 := SecondParentField(f, e.index);
      if parent2 < OCTOPUS {
        if i != 1 { return None; }
        position := parent2;
      } else {
        position := parent2 - OCTOPUS + i - 1;
        if ps.Some? && 0 < i < |ps.value| { EdgeRunAt(f, parent2 - OCTOPUS, i - 1); }
        if position >= EdgeCount(f) { return None; }
        position := Edge(f, position) % OCTOPUS;
      }
    }
    assert ps.Some? && i < |ps.value| ==> position == ps.value[i];
    if position == PARENT_NONE { return None; }
    var p := EntryAt(g, position);
    if p.None? { return None; }
    r := Some((OidAt(g.files[p.value.file], p.value.index), TreeAt(g.files[p.value.file], p.value.index)));
    assert RowAt(g, position, p.value, r.value);
  }

  /** Entry p sits at a position and its row holds this id and tree. */
  ghost predicate RowAt(g: Graph, position: nat, p: Entry, row: (Oid, Oid)) {
    && InRange(g, p) && Bounded(g.files[p.file])
    && Position(g, p) == position
    && row == (OidAt(g.files[p.file], p.index), TreeAt(g.files[p.file], p.index))
  }
}
