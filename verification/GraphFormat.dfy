/**
The bytes of a commit-graph file (gitformat-commit-graph, CHUNK DATA), written down without
the accessors that read them: what a layer of commits and their Bloom filters look like in
the sections of a file. A file made of these sections is loaded as exactly that layer, with
exactly those filters.
 */
module GraphFormat {
  import opened Bytes
  import opened GitTree
  import opened GitPath
  import opened GraphFile
  import opened CommitGraph
  import opened Bloom
  import opened GitLog

  /** The commits of a layer, and for each the eight bytes of generation and date. */
  datatype Layer = Layer(commits: seq<GraphCommit>, stamps: seq<seq<byte>>)

  ghost predicate SortedById(commits: seq<GraphCommit>) {
    forall i, j :: 0 <= i < j < |commits| ==> Less(commits[i].oid, commits[j].oid)
  }

  /** Positions and edge numbers leave room for the marks of the format. */
  ghost predicate Storable(layer: Layer) {
    && |layer.commits| < 0x1_0000_0000
    && |layer.stamps| == |layer.commits|
    && (forall i :: 0 <= i < |layer.stamps| ==> |layer.stamps[i]| == 8)
    && (forall i, k :: 0 <= i < |layer.commits| && 0 <= k < |layer.commits[i].parents| ==>
          layer.commits[i].parents[k] < 0x7000_0000)
    && |Flat(EdgeWords(layer.commits))| < 0x8000_0000
  }

  // ---------- the sections ----------

  /** How many of the commits have an id whose first byte is at most b. */
  function CountUpTo(commits: seq<GraphCommit>, b: int): (n: nat)
    ensures n <= |commits|
  {
    if commits == [] then 0
    else CountUpTo(commits[..|commits| - 1], b) + if commits[|commits| - 1].oid[0] as int <= b then 1 else 0
  }

  function FanoutRows(commits: seq<GraphCommit>): (rows: seq<seq<byte>>)
    ensures |rows| == 256 && forall b :: 0 <= b < 256 ==> |rows[b]| == 4
  {
    seq(256, b => Word(CountUpTo(commits, b)))
  }

  function IdRows(commits: seq<GraphCommit>): (rows: seq<seq<byte>>)
    ensures |rows| == |commits| && forall i :: 0 <= i < |rows| ==> |rows[i]| == 20 && rows[i] == commits[i].oid
  {
    seq(|commits|, i requires 0 <= i < |commits| => commits[i].oid)
  }

  /** For more than two parents: the words of all but the first, the last one marked. */
  function EdgesOf(parents: seq<nat>): seq<nat> {
    if |parents| <= 2 then []
    else parents[1..|parents| - 1] + [0x8000_0000 + parents[|parents| - 1]]
  }

  function EdgeWords(commits: seq<GraphCommit>): (words: seq<seq<nat>>)
    ensures |words| == |commits| && forall i :: 0 <= i < |words| ==> words[i] == EdgesOf(commits[i].parents)
  {
    seq(|commits|, i requires 0 <= i < |commits| => EdgesOf(commits[i].parents))
  }

  function EdgeRows(commits: seq<GraphCommit>): (rows: seq<seq<byte>>)
    ensures |rows| == |Flat(EdgeWords(commits))|
    ensures forall e :: 0 <= e < |rows| ==> |rows[e]| == 4 && rows[e] == Word(Flat(EdgeWords(commits))[e])
  {
    var words := Flat(EdgeWords(commits));
    seq(|words|, e requires 0 <= e < |words| => Word(words[e]))
  }

  /** Tree, first parent, second parent or the number of its first edge, generation and date. */
  function CommitRow(c: GraphCommit, edge: nat, stamp: seq<byte>): (row: seq<byte>)
    ensures |row| == 28 + |stamp|
  {
    c.tree + Word(if |c.parents| == 0 then 0x7000_0000 else c.parents[0])
    + Word(if |c.parents| <= 1 then 0x7000_0000 else if |c.parents| == 2 then c.parents[1] else 0x8000_0000 + edge)
    + stamp
  }

  function CommitRows(layer: Layer): (rows: seq<seq<byte>>)
    requires |layer.stamps| == |layer.commits|
    ensures |rows| == |layer.commits|
  {
    seq(|layer.commits|, i requires 0 <= i < |layer.commits| =>
      CommitRow(layer.commits[i], |Flat(EdgeWords(layer.commits)[..i])|, layer.stamps[i]))
  }

  /** The sections are those of the layer; any others are left alone. */
  ghost predicate Describes(sections: seq<Section>, layer: Layer)
    requires |layer.stamps| == |layer.commits|
  {
    && DistinctIds(sections)
    && Section(0x4f49_4446, Flat(FanoutRows(layer.commits))) in sections
    && Section(0x4f49_444c, Flat(IdRows(layer.commits))) in sections
    && Section(0x4344_4154, Flat(CommitRows(layer))) in sections
    && (Flat(EdgeWords(layer.commits)) != [] ==> exists bytes :: Section(0x4544_4745, bytes) in sections)
    && (forall s :: s in sections && s.id == 0x4544_4745 ==> s.bytes == Flat(EdgeRows(layer.commits)))
  }

  // ---------- where the loader finds them ----------

  /** The loaded file points at the rows of the layer. */
  ghost predicate PointsAt(f: File, layer: Layer)
    requires |layer.stamps| == |layer.commits|
  {
    && Bounded(f) && f.commitCount == |layer.commits|
    && RowsStored(f.data, f.fanout, FanoutRows(layer.commits))
    && RowsStored(f.data, f.oidLookup, IdRows(layer.commits))
    && RowsStored(f.data, f.commitData, CommitRows(layer))
    && (Flat(EdgeWords(layer.commits)) != [] ==>
          && f.edges.Some? && EdgeCount(f) == |Flat(EdgeWords(layer.commits))|
          && RowsStored(f.data, f.edges.value.at, EdgeRows(layer.commits)))
  }

  lemma SectionSizes(layer: Layer)
    requires Storable(layer)
    ensures |Flat(FanoutRows(layer.commits))| == 1024
    ensures |Flat(IdRows(layer.commits))| == |layer.commits| * 20
    ensures |Flat(CommitRows(layer))| == |layer.commits| * 36
    ensures |Flat(EdgeRows(layer.commits))| == |Flat(EdgeWords(layer.commits))| * 4
  {
    hide Flat, FanoutRows, IdRows, EdgeRows, CommitRow;
    FlatSize(FanoutRows(layer.commits), 4);
    FlatSize(IdRows(layer.commits), 20);
    FlatSize(CommitRows(layer), 36);
    FlatSize(EdgeRows(layer.commits), 4);
  }

  /** The last fanout word counts every commit. */
  lemma {:induction false} CountsAll(commits: seq<GraphCommit>)
    ensures CountUpTo(commits, 255) == |commits|
  {
    if commits != [] { CountsAll(commits[..|commits| - 1]); }
  }

  lemma LastFanoutWord(layer: Layer)
    requires Storable(layer)
    ensures |Flat(FanoutRows(layer.commits))| == 1024
    ensures Be32(Flat(FanoutRows(layer.commits)), 1020) == |layer.commits|
  {
    hide Flat, Be32;
    var rows := FanoutRows(layer.commits);
    SectionSizes(layer);
    assert Flat(rows)[0..0 + |Flat(rows)|] == Flat(rows);
    RowStored(Flat(rows), 0, rows, 4, 255);
    CountsAll(layer.commits);
    WordReads(Flat(rows), 1020, |layer.commits|);
  }

  lemma DescribedLoads(data: seq<byte>, sections: seq<Section>, base: nat, layer: Layer)
    requires Storable(layer) && Describes(sections, layer) && LaidOut(data, sections)
    ensures Acceptable(data) && PointsAt(Accepted(data, base), layer)
    ensures Accepted(data, base).data == data && Accepted(data, base).basePosition == base
  {
    hide Flat, Be32, FanoutRows, IdRows, CommitRows, EdgeRows, EdgeWords, Acceptable, Accepted, Bounded, SectionAt,
      TableLists;
    SectionSizes(layer);
    LastFanoutWord(layer);
    var f :| 0 <= f < |sections| && sections[f] == Section(0x4f49_4446, Flat(FanoutRows(layer.commits)));
    var l :| 0 <= l < |sections| && sections[l] == Section(0x4f49_444c, Flat(IdRows(layer.commits)));
    var c :| 0 <= c < |sections| && sections[c] == Section(0x4344_4154, Flat(CommitRows(layer)));
    assert LegalSizes(sections);
    LaidOutLoads(data, sections, base, f, l, c);
    AcceptedIsBounded(data, base);
    assert SectionStored(data, sections, f) && SectionStored(data, sections, l) && SectionStored(data, sections, c);
    if Flat(EdgeWords(layer.commits)) != [] {
      var bytes :| Section(0x4544_4745, bytes) in sections;
      var e :| 0 <= e < |sections| && sections[e] == Section(0x4544_4745, bytes);
      assert SectionStored(data, sections, e);
    }
  }

  // ---------- what the accessors read there ----------

  lemma IdsRead(f: File, layer: Layer, i: nat)
    requires Storable(layer) && PointsAt(f, layer) && i < |layer.commits|
    ensures OidAt(f, i) == layer.commits[i].oid
  {
    hide Flat, FanoutRows, CommitRows, EdgeRows, EdgeWords, Bounded;
    RowStored(f.data, f.oidLookup, IdRows(layer.commits), 20, i);
  }

  lemma FanoutRead(f: File, layer: Layer, b: byte)
    requires Storable(layer) && PointsAt(f, layer)
    ensures Fanout(f, b) == CountUpTo(layer.commits, b as int)
  {
    hide Flat, IdRows, CommitRows, EdgeRows, EdgeWords, Bounded, Word, Be32;
    var rows := FanoutRows(layer.commits);
    RowStored(f.data, f.fanout, rows, 4, b as int);
    assert rows[b as int] == Word(CountUpTo(layer.commits, b as int));
    WordReads(f.data, f.fanout + b as int * 4, CountUpTo(layer.commits, b as int));
  }

  lemma EdgeRead(f: File, layer: Layer, e: nat)
    requires Storable(layer) && PointsAt(f, layer) && e < |Flat(EdgeWords(layer.commits))|
    requires Flat(EdgeWords(layer.commits))[e] < 0x1_0000_0000
    ensures e < EdgeCount(f) && Edge(f, e) == Flat(EdgeWords(layer.commits))[e]
  {
    hide Flat, IdRows, FanoutRows, CommitRows, EdgeWords, Bounded, Word, Be32;
    RowStored(f.data, f.edges.value.at, EdgeRows(layer.commits), 4, e);
    WordReads(f.data, f.edges.value.at + e * 4, Flat(EdgeWords(layer.commits))[e]);
  }

  /** Tree and parent fields of a row. */
  lemma RowRead(f: File, layer: Layer, i: nat)
    requires Storable(layer) && PointsAt(f, layer) && i < |layer.commits|
    ensures var parents := layer.commits[i].parents;
            && TreeAt(f, i) == layer.commits[i].tree
            && FirstParentField(f, i) == (if parents == [] then 0x7000_0000 else parents[0])
            && SecondParentField(f, i) == (if |parents| <= 1 then 0x7000_0000 else if |parents| == 2 then parents[1]
                                           else 0x8000_0000 + |Flat(EdgeWords(layer.commits)[..i])|)
  {
    hide Flat, IdRows, FanoutRows, EdgeRows, Bounded, Word, Be32;
    var rows, at := CommitRows(layer), f.commitData + i * 36;
    var edge := |Flat(EdgeWords(layer.commits)[..i])|;
    FlatAt(EdgeWords(layer.commits), i);
    assert forall k :: 0 <= k < |rows| ==> |rows[k]| == 36;
    RowStored(f.data, f.commitData, rows, 36, i);
    RowParts(f.data, at, layer.commits[i], edge, layer.stamps[i]);
  }

  lemma RowParts(data: seq<byte>, at: nat, c: GraphCommit, edge: nat, stamp: seq<byte>)
    requires |stamp| == 8 && at + 36 <= |data| && data[at..at + 36] == CommitRow(c, edge, stamp)
    requires edge < 0x8000_0000 && forall k :: 0 <= k < |c.parents| ==> c.parents[k] < 0x7000_0000
    ensures data[at..at + 20] == c.tree
    ensures Be32(data, at + 20) == if |c.parents| == 0 then 0x7000_0000 else c.parents[0]
    ensures Be32(data, at + 24) == if |c.parents| <= 1 then 0x7000_0000
                                   else if |c.parents| == 2 then c.parents[1] else 0x8000_0000 + edge
  {
    hide Word, Be32;
    var row := data[at..at + 36];
    var first := if |c.parents| == 0 then 0x7000_0000 else c.parents[0];
    var second := if |c.parents| <= 1 then 0x7000_0000
                  else if |c.parents| == 2 then c.parents[1] else 0x8000_0000 + edge;
    Pieces(c.tree, Word(first), Word(second), stamp);
    assert data[at..at + 20] == row[..20] == c.tree;
    SliceOfSlice(data, at, 36, 20, 4);
    SliceOfSlice(data, at, 36, 24, 4);
    WordReads(data, at + 20, first);
    WordReads(data, at + 24, second);
  }

  lemma Pieces(a: seq<byte>, b: seq<byte>, c: seq<byte>, d: seq<byte>)
    ensures var row := a + b + c + d;
            && row[..|a|] == a
            && row[|a|..|a| + |b|] == b
            && row[|a| + |b|..|a| + |b| + |c|] == c
            && row[|a| + |b| + |c|..] == d
  {
  }

  /** The edges of a commit stand in the list from its own number on. */
  lemma EdgesRead(f: File, layer: Layer, i: nat)
    requires Storable(layer) && PointsAt(f, layer) && i < |layer.commits| && |layer.commits[i].parents| > 2
    ensures EdgesHold(f, |Flat(EdgeWords(layer.commits)[..i])|, layer.commits[i].parents[1..])
  {
    hide Flat, IdRows, FanoutRows, CommitRows, EdgeRows, Bounded, Word, Be32, Edge;
    var words, parents := EdgeWords(layer.commits), layer.commits[i].parents;
    var at, rest := |Flat(words[..i])|, parents[1..];
    FlatAt(words, i);
    assert words[i] == EdgesOf(parents) && |EdgesOf(parents)| == |rest|;
    forall k: nat | k < |rest|
      ensures at + k < EdgeCount(f) && Edge(f, at + k) == if k == |rest| - 1 then OCTOPUS + rest[k] else rest[k]
    {
      assert Flat(words)[at + k] == Flat(words)[at..at + |rest|][k] == EdgesOf(parents)[k];
      EdgeRead(f, layer, at + k);
    }
    assert at + (|rest| - 1) < EdgeCount(f);
  }

  // ---------- the layer is the one that was written ----------

  lemma {:induction false} FirstBytesGrow(a: seq<byte>, b: seq<byte>)
    requires |a| == |b| > 0 && Less(a, b)
    ensures a[0] <= b[0]
  {
  }

  /** In a sorted list the commits counted for a first byte are the first ones. */
  lemma {:induction false} CountSeparates(commits: seq<GraphCommit>, b: int, i: nat)
    requires SortedById(commits) && i < |commits|
    ensures i < CountUpTo(commits, b) <==> commits[i].oid[0] as int <= b
  {
    hide Compare;
    var n := |commits| - 1;
    forall j | 0 <= j < n ensures commits[j].oid[0] <= commits[n].oid[0] {
      FirstBytesGrow(commits[j].oid, commits[n].oid);
    }
    if commits[n].oid[0] as int <= b {
      CountsFront(commits[..n], b, commits[n].oid[0] as int);
    } else if i < n {
      CountSeparates(commits[..n], b, i);
    }
  }

  lemma {:induction false} CountsFront(commits: seq<GraphCommit>, b: int, last: int)
    requires last <= b && forall i :: 0 <= i < |commits| ==> commits[i].oid[0] as int <= last
    ensures CountUpTo(commits, b) == |commits|
  {
    if commits != [] {
      var front := commits[..|commits| - 1];
      forall i | 0 <= i < |front| ensures front[i].oid[0] as int <= last {
        assert front[i] == commits[i];
      }
      CountsFront(front, b, last);
    }
  }

  lemma PointsInside(f: File, layer: Layer)
    requires Storable(layer) && PointsAt(f, layer)
    ensures Bounded(f) && f.commitCount == |layer.commits|
  {
  }

  /**
  Loading a file that is laid out from the sections of a sorted list of commits gives a
  layer that holds exactly these commits: ids, trees and parents, and a true fanout.
   */
  lemma WrittenLayerHolds(data: seq<byte>, sections: seq<Section>, base: nat, layer: Layer)
    requires Storable(layer) && SortedById(layer.commits) && Describes(sections, layer) && LaidOut(data, sections)
    ensures Acceptable(data) && LayerHolds(Accepted(data, base), layer.commits)
  {
    hide Describes, LaidOut, Acceptable, Accepted, PointsAt, OidAt, TreeAt, FirstParentField, SecondParentField,
      EdgesHold, Flat, EdgeWords, CountUpTo, Compare, Bounded, Fanout;
    DescribedLoads(data, sections, base, layer);
    var f, commits := Accepted(data, base), layer.commits;
    PointsInside(f, layer);
    forall i: nat | i < |commits|
      ensures OidAt(f, i) == commits[i].oid && TreeAt(f, i) == commits[i].tree
      ensures ParentsHold(f, i, commits[i].parents)
    {
      IdsRead(f, layer, i);
      RowRead(f, layer, i);
      if |commits[i].parents| > 2 { EdgesRead(f, layer, i); }
    }
    forall b: byte
      ensures Fanout(f, b) <= f.commitCount
      ensures forall i: nat :: i < Fanout(f, b) ==> OidAt(f, i)[0] <= b
      ensures forall i: nat :: Fanout(f, b) <= i < f.commitCount ==> OidAt(f, i)[0] > b
    {
      FanoutRead(f, layer, b);
      forall i: nat | i < |commits| ensures i < CountUpTo(commits, b as int) <==> commits[i].oid[0] as int <= b as int {
        CountSeparates(commits, b as int, i);
      }
    }
  }

  // ---------- the Bloom sections ----------

  /** The settings of the changed-path filters, and one filter for each commit. */
  datatype FilterSet = FilterSet(version: u32, hashCount: u32, bitsPerEntry: u32, filters: seq<seq<byte>>)

  /** The index holds where each filter ends, counted from the first one. */
  function IndexRows(filters: seq<seq<byte>>): (rows: seq<seq<byte>>)
    ensures |rows| == |filters| && forall i :: 0 <= i < |rows| ==> |rows[i]| == 4
    ensures forall i :: 0 <= i < |rows| ==> rows[i] == Word(|Flat(filters[..i + 1])|)
  {
    seq(|filters|, i requires 0 <= i < |filters| => Word(|Flat(filters[..i + 1])|))
  }

  function FilterBytes(s: FilterSet): (bytes: seq<byte>)
    ensures |bytes| == 12 + |Flat(s.filters)|
  {
    Word(s.version) + Word(s.hashCount) + Word(s.bitsPerEntry) + Flat(s.filters)
  }

  ghost predicate DescribesFilters(sections: seq<Section>, s: FilterSet) {
    && Section(0x4249_4458, Flat(IndexRows(s.filters))) in sections
    && Section(0x4244_4154, FilterBytes(s)) in sections
  }

  /** The loaded file points at the filters. */
  ghost predicate PointsAtFilters(f: File, s: FilterSet) {
    && Bounded(f) && f.commitCount == |s.filters|
    && f.bloomIndex.Some? && f.bloomData.Some?
    && RowsStored(f.data, f.bloomIndex.value.at, IndexRows(s.filters))
    && f.bloomData.value.size == |FilterBytes(s)|
    && f.data[f.bloomData.value.at..f.bloomData.value.at + |FilterBytes(s)|] == FilterBytes(s)
  }

  lemma DescribedFiltersLoad(data: seq<byte>, sections: seq<Section>, base: nat, layer: Layer, s: FilterSet)
    requires Storable(layer) && Describes(sections, layer) && LaidOut(data, sections)
    requires DescribesFilters(sections, s) && |s.filters| == |layer.commits|
    ensures Acceptable(data) && PointsAtFilters(Accepted(data, base), s)
  {
    hide Flat, Be32, FanoutRows, IdRows, CommitRows, EdgeRows, EdgeWords, IndexRows, FilterBytes, Acceptable, Accepted,
      Bounded, SectionAt, TableLists;
    DescribedLoads(data, sections, base, layer);
    SectionSizes(layer);
    LastFanoutWord(layer);
    FlatSize(IndexRows(s.filters), 4);
    var f :| 0 <= f < |sections| && sections[f] == Section(0x4f49_4446, Flat(FanoutRows(layer.commits)));
    var l :| 0 <= l < |sections| && sections[l] == Section(0x4f49_444c, Flat(IdRows(layer.commits)));
    var c :| 0 <= c < |sections| && sections[c] == Section(0x4344_4154, Flat(CommitRows(layer)));
    var x :| 0 <= x < |sections| && sections[x] == Section(0x4249_4458, Flat(IndexRows(s.filters)));
    var b :| 0 <= b < |sections| && sections[b] == Section(0x4244_4154, FilterBytes(s));
    assert LegalSizes(sections);
    LaidOutLoads(data, sections, base, f, l, c);
    assert SectionStored(data, sections, x) && SectionStored(data, sections, b);
  }

  lemma IndexRead(f: File, s: FilterSet, i: nat)
    requires PointsAtFilters(f, s) && i < |s.filters| && |Flat(s.filters)| < 0x1_0000_0000
    ensures Be32(f.data, f.bloomIndex.value.at + i * 4) == |Flat(s.filters[..i + 1])|
  {
    hide Flat, Bounded, Word, Be32, FilterBytes;
    var rows := IndexRows(s.filters);
    RowStored(f.data, f.bloomIndex.value.at, rows, 4, i);
    FlatAt(s.filters, i);
    WordReads(f.data, f.bloomIndex.value.at + i * 4, |Flat(s.filters[..i + 1])|);
  }

  /** Settings and filters in the data chunk. */
  lemma FilterBytesRead(f: File, s: FilterSet, i: nat)
    requires PointsAtFilters(f, s) && i < |s.filters|
    ensures var at, start := f.bloomData.value.at, |Flat(s.filters[..i])|;
            && Be32(f.data, at) == s.version && Be32(f.data, at + 4) == s.hashCount
            && start + |s.filters[i]| <= |Flat(s.filters)| && at + 12 + |Flat(s.filters)| <= |f.data|
            && f.data[at + 12 + start..at + 12 + start + |s.filters[i]|] == s.filters[i]
  {
    hide Flat, Word, Be32, IndexRows;
    var at, start, size := f.bloomData.value.at, |Flat(s.filters[..i])|, |FilterBytes(s)|;
    Pieces(Word(s.version), Word(s.hashCount), Word(s.bitsPerEntry), Flat(s.filters));
    SliceOfSlice(f.data, at, size, 0, 4);
    SliceOfSlice(f.data, at, size, 4, 4);
    WordReads(f.data, at, s.version);
    WordReads(f.data, at + 4, s.hashCount);
    FlatAt(s.filters, i);
    SliceOfSlice(f.data, at, size, 12, |Flat(s.filters)|);
    SliceOfSlice(f.data, at + 12, |Flat(s.filters)|, start, |s.filters[i]|);
  }

  /**
  The query for commit i asks exactly the i-th filter that was written, and none when that
  filter is empty or the settings are not understood.
   */
  lemma WrittenFilterIsAsked(data: seq<byte>, sections: seq<Section>, base: nat, layer: Layer, s: FilterSet, i: nat)
    requires Storable(layer) && Describes(sections, layer) && LaidOut(data, sections)
    requires DescribesFilters(sections, s) && |s.filters| == |layer.commits|
    requires i < |s.filters| && |Flat(s.filters)| < 0x1_0000_0000
    ensures Acceptable(data) && Bounded(Accepted(data, base)) && i < Accepted(data, base).commitCount
    ensures FilterOf(Accepted(data, base), i) ==
            if (s.version == 1 || s.version == 2) && 1 <= s.hashCount <= 32 && s.filters[i] != []
            then Some(Filter(s.filters[i], s.hashCount, s.version)) else None
  {
    hide Flat, Be32, Bounded, Acceptable, Accepted, Describes, DescribesFilters, LaidOut, IndexRows, FilterBytes;
    DescribedFiltersLoad(data, sections, base, layer, s);
    var f := Accepted(data, base);
    IndexRead(f, s, i);
    if i > 0 { IndexRead(f, s, i - 1); } else { assert Flat(s.filters[..0]) == [] by { FlatOfNone(s.filters); } }
    FilterBytesRead(f, s, i);
    FlatAt(s.filters, i);
  }

  lemma FlatOfNone(rows: seq<seq<byte>>)
    ensures Flat(rows[..0]) == []
  {
  }

  /** A filter built over keys that cover the changed paths, written and loaded, holds them. */
  lemma WrittenFilterHolds(hash: Hasher, data: seq<byte>, sections: seq<Section>, base: nat, layer: Layer,
                           s: FilterSet, i: nat, repo: Repo, odb: Odb, empty: seq<byte>, keys: seq<seq<byte>>)
    requires Storable(layer) && Describes(sections, layer) && LaidOut(data, sections)
    requires DescribesFilters(sections, s) && |s.filters| == |layer.commits|
    requires i < |s.filters| && |Flat(s.filters)| < 0x1_0000_0000
    requires empty != [] && s.filters[i] == Build(hash, Filter(empty, s.hashCount, s.version), keys).bits
    requires layer.commits[i].oid in repo
    requires var c := repo[layer.commits[i].oid];
             forall p :: p != [] && Differs(odb, Some(c.tree), FirstParentTree(repo, c), p) ==> p in keys
    ensures Acceptable(data) && FilterHolds(hash, Accepted(data, base), i, layer.commits[i].oid, repo, odb)
  {
    hide Describes, DescribesFilters, LaidOut, Acceptable, Accepted, Storable, FilterOf, Flat, Build, Differs,
      FirstParentTree, Contains, Bounded;
    WrittenFilterIsAsked(data, sections, base, layer, s, i);
    var c := repo[layer.commits[i].oid];
    BuiltFilterHoldsChanges(hash, odb, Some(c.tree), FirstParentTree(repo, c),
                            Filter(empty, s.hashCount, s.version), keys);
  }

  // ---------- writing and loading ----------

  /** The sections of a layer with filters; without octopus merges the edge section is empty. */
  function SectionsOf(layer: Layer, s: FilterSet): (sections: seq<Section>)
    requires |layer.stamps| == |layer.commits|
    ensures |sections| == 6
  {
    [Section(0x4f49_4446, Flat(FanoutRows(layer.commits))), Section(0x4f49_444c, Flat(IdRows(layer.commits))),
     Section(0x4344_4154, Flat(CommitRows(layer))), Section(0x4544_4745, Flat(EdgeRows(layer.commits))),
     Section(0x4249_4458, Flat(IndexRows(s.filters))), Section(0x4244_4154, FilterBytes(s))]
  }

  lemma SectionsDescribe(layer: Layer, s: FilterSet)
    requires |layer.stamps| == |layer.commits|
    ensures Describes(SectionsOf(layer, s), layer) && DescribesFilters(SectionsOf(layer, s), s)
  {
    hide Flat, FanoutRows, IdRows, CommitRows, EdgeRows, EdgeWords, IndexRows, FilterBytes;
    var sections := SectionsOf(layer, s);
    assert sections[0] in sections && sections[1] in sections && sections[2] in sections;
    assert sections[3] in sections && sections[4] in sections && sections[5] in sections;
  }

  /** Loading undoes writing: the same commits, and for each the filter that was written for it. */
  lemma WriteThenLoad(layer: Layer, s: FilterSet, baseFiles: byte, checksum: seq<byte>, base: nat)
    requires Storable(layer) && SortedById(layer.commits) && |checksum| == 20
    requires |s.filters| == |layer.commits| && |Flat(s.filters)| < 0x1_0000_0000
    requires |EncodeFile(SectionsOf(layer, s), baseFiles, checksum)| < 0x1_0000_0000_0000_0000
    ensures var data := EncodeFile(SectionsOf(layer, s), baseFiles, checksum);
            && Acceptable(data) && LayerHolds(Accepted(data, base), layer.commits)
            && forall i :: 0 <= i < |layer.commits| ==>
                 FilterOf(Accepted(data, base), i) ==
                 if (s.version == 1 || s.version == 2) && 1 <= s.hashCount <= 32 && s.filters[i] != []
                 then Some(Filter(s.filters[i], s.hashCount, s.version)) else None
  {
    hide EncodeFile, Describes, DescribesFilters, LaidOut, SortedById, LayerHolds, Accepted, Acceptable, Flat,
      FilterOf, Bounded, SectionsOf;
    var sections := SectionsOf(layer, s);
    var data := EncodeFile(sections, baseFiles, checksum);
    EncodedIsLaidOut(sections, baseFiles, checksum);
    SectionsDescribe(layer, s);
    WrittenLayerHolds(data, sections, base, layer);
    forall i: nat | i < |layer.commits|
      ensures Bounded(Accepted(data, base)) && i < Accepted(data, base).commitCount
      ensures FilterOf(Accepted(data, base), i) ==
              if (s.version == 1 || s.version == 2) && 1 <= s.hashCount <= 32 && s.filters[i] != []
              then Some(Filter(s.filters[i], s.hashCount, s.version)) else None
    {
      WrittenFilterIsAsked(data, sections, base, layer, s, i);
    }
  }
}
