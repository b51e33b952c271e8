/**
Loading one commit-graph file (git/log.c, log_graph_file_load). The file starts with an
eight-byte header and a chunk table (gitformat-commit-graph, CHUNK LOOKUP); the loader
keeps the offsets of the chunks it knows and refuses files whose chunks do not fit.
 */
module GraphFile {
  import opened Bytes

  const OID_SIZE := 20
  const COMMIT_SIZE := 36
  const OIDF := 0x4f494446
  const OIDL := 0x4f49444c
  const CDAT := 0x43444154
  const EDGE := 0x45444745
  const BIDX := 0x42494458
  const BDAT := 0x42444154

  /** A chunk of the file: an offset and a length. */
  datatype Chunk = Chunk(at: nat, size: nat)

  datatype File = File(data: seq<byte>, basePosition: nat, commitCount: nat,
                       fanout: nat, oidLookup: nat, commitData: nat,
                       edges: Option<Chunk>, bloomIndex: Option<Chunk>, bloomData: Option<Chunk>)

  // ---------- the chunk table ----------

  /** Header, table with its terminating row, and checksum all fit. */
  predicate HeaderFits(data: seq<byte>) {
    && |data| >= 8 + 12 + OID_SIZE
    && data[..4] == ['C' as byte, 'G' as byte, 'P' as byte, 'H' as byte]
    && data[4] == 1 && data[5] == 1
    && |data| >= 8 + (data[6] as int + 1) * 12 + OID_SIZE
  }

  function ChunkCount(data: seq<byte>): nat
    requires HeaderFits(data)
  {
    data[6] as int
  }

  function ChunkId(data: seq<byte>, i: nat): u32
    requires HeaderFits(data) && i <= ChunkCount(data)
  {
    Be32(data, 8 + i * 12)
  }

  function ChunkOffset(data: seq<byte>, i: nat): u64
    requires HeaderFits(data) && i <= ChunkCount(data)
  {
    Be64(data, 8 + i * 12 + 4)
  }

  /** Row i of the table is in order, inside the file, and of a legal size for its kind. */
  predicate ChunkFits(data: seq<byte>, i: nat)
    requires HeaderFits(data) && i < ChunkCount(data)
  {
    && ChunkOffset(data, i) <= ChunkOffset(data, i + 1) <= |data| - OID_SIZE
    && (ChunkId(data, i) == OIDF ==> ChunkOffset(data, i + 1) - ChunkOffset(data, i) == 1024)
    && (ChunkId(data, i) == EDGE ==> (ChunkOffset(data, i + 1) - ChunkOffset(data, i)) % 4 == 0)
  }

  /** The last of the first n chunks with an id: later rows override earlier ones. */
  function FindChunk(data: seq<byte>, id: u32, n: nat): (r: Option<Chunk>)
    requires HeaderFits(data) && n <= ChunkCount(data)
    requires forall i :: 0 <= i < n ==> ChunkFits(data, i)
    ensures r.Some? ==> r.value.at + r.value.size <= |data| - OID_SIZE
    ensures r.Some? && id == OIDF ==> r.value.size == 1024
    ensures r.Some? && id == EDGE ==> r.value.size % 4 == 0
    ensures r.None? <==> forall i :: 0 <= i < n ==> ChunkId(data, i) != id
  {
    if n == 0 then None
    else
      assert ChunkFits(data, n - 1);
      if ChunkId(data, n - 1) == id then
        Some(Chunk(ChunkOffset(data, n - 1), ChunkOffset(data, n) - ChunkOffset(data, n - 1)))
      else FindChunk(data, id, n - 1)
  }

  // ---------- what the loader accepts ----------

  predicate TableFits(data: seq<byte>) {
    HeaderFits(data) && forall i :: 0 <= i < ChunkCount(data) ==> ChunkFits(data, i)
  }

  predicate Acceptable(data: seq<byte>) {
    && TableFits(data)
    && var n := ChunkCount(data);
       var fanout, lookup, commits := FindChunk(data, OIDF, n), FindChunk(data, OIDL, n), FindChunk(data, CDAT, n);
       && fanout.Some? && lookup.Some? && commits.Some?
       && var count := Be32(data, fanout.value.at + 255 * 4);
          && count <= (|data| - lookup.value.at) / OID_SIZE
          && count <= (|data| - commits.value.at) / COMMIT_SIZE
  }

  /** The Bloom chunks are used together or not at all. */
  predicate BloomUsable(index: Option<Chunk>, bits: Option<Chunk>, count: nat) {
    index.Some? && bits.Some? && index.value.size == count * 4 && bits.value.size >= 12
  }

  function Accepted(data: seq<byte>, base: nat): File
    requires Acceptable(data)
  {
    var n := ChunkCount(data);
    var fanout := FindChunk(data, OIDF, n).value.at;
    var count := Be32(data, fanout + 255 * 4);
    var index, bits := FindChunk(data, BIDX, n), FindChunk(data, BDAT, n);
    var usable := BloomUsable(index, bits, count);
    File(data, base, count, fanout, FindChunk(data, OIDL, n).value.at, FindChunk(data, CDAT, n).value.at,
         FindChunk(data, EDGE, n), if usable then index else None, if usable then bits else None)
  }

  /** Every read the lookups make for an index below commitCount stays inside the data. */
  predicate Bounded(f: File) {
    && f.fanout + 1024 <= |f.data|
    && f.oidLookup + f.commitCount * OID_SIZE <= |f.data|
    && f.commitData + f.commitCount * COMMIT_SIZE <= |f.data|
    && (f.edges.Some? ==> f.edges.value.size % 4 == 0 && f.edges.value.at + f.edges.value.size <= |f.data|)
    && (f.bloomIndex.Some? <==> f.bloomData.Some?)
    && (f.bloomIndex.Some? ==>
          && f.bloomIndex.value.size == f.commitCount * 4
          && f.bloomIndex.value.at + f.bloomIndex.value.size <= |f.data|
          && f.bloomData.value.size >= 12
          && f.bloomData.value.at + f.bloomData.value.size <= |f.data|)
  }

  lemma AcceptedIsBounded(data: seq<byte>, base: nat)
    requires Acceptable(data)
    ensures Bounded(Accepted(data, base))
  {
    hide FindChunk, Be32;
  }

  /** One more row of the table overrides what was found before, for its own id only. */
  lemma FindStep(data: seq<byte>, id: u32, i: nat)
    requires HeaderFits(data) && i < ChunkCount(data) && ChunkFits(data, i)
    requires forall j :: 0 <= j < i ==> ChunkFits(data, j)
    ensures FindChunk(data, id, i + 1) ==
            if ChunkId(data, i) == id
            then Some(Chunk(ChunkOffset(data, i), ChunkOffset(data, i + 1) - ChunkOffset(data, i)))
            else FindChunk(data, id, i)
  {
    hide Be32, Be64, ChunkFits;
  }

  /** log_graph_file_load on the bytes of the file, with its loop over the table. */
  method LoadFile(data: seq<byte>, base: nat) returns (r: Option<File>)
    ensures r.Some? <==> Acceptable(data)
    ensures r.Some? ==> r.value == Accepted(data, base) && Bounded(r.value)
  {
    hide Be32, Be64, Bounded, FindChunk;
    if |data| < 8 + 12 + OID_SIZE { return None; }
    if data[..4] != ['C' as byte, 'G' as byte, 'P' as byte, 'H' as byte] || data[4] != 1 || data[5] != 1 {
      return None;
    }
    if |data| < 8 + (data[6] as int + 1) * 12 + OID_SIZE { return None; }
    var count := data[6] as int;
    var fanout, lookup, commits, edges, index, bits :=
      None, None, None, None, None, None;
    var i := 0;
    while i < count
      invariant 0 <= i <= count
      invariant forall j :: 0 <= j < i ==> ChunkFits(data, j)
      invariant fanout == FindChunk(data, OIDF, i) && lookup == FindChunk(data, OIDL, i)
      invariant commits == FindChunk(data, CDAT, i) && edges == FindChunk(data, EDGE, i)
      invariant index == FindChunk(data, BIDX, i) && bits == FindChunk(data, BDAT, i)
    {
      var id := ChunkId(data, i);
      var offset, next := ChunkOffset(data, i), ChunkOffset(data, i + 1);
      if offset > next || next > |data| - OID_SIZE {
        assert !ChunkFits(data, i);
        return None;
      }
      var chunk := Some(Chunk(offset, next - offset));
      if id == OIDF {
        if next - offset != 256 * 4 {
          assert !ChunkFits(data, i);
          return None;
        }
        fanout := chunk;
      } else if id == OIDL {
        lookup := chunk;
      } else if id == CDAT {
        commits := chunk;
      } else if id == EDGE {
        if (next - offset) % 4 != 0 {
          assert !ChunkFits(data, i);
          return None;
        }
        edges := chunk;
      } else if id == BIDX {
        index := chunk;
      } else if id == BDAT {
        bits := chunk;
      }
      FindStep(data, OIDF, i);
      FindStep(data, OIDL, i);
      FindStep(data, CDAT, i);
      FindStep(data, EDGE, i);
      FindStep(data, BIDX, i);
      FindStep(data, BDAT, i);
      i := i + 1;
    }
    if fanout.None? || lookup.None? || commits.None? { return None; }
    var total := Be32(data, fanout.value.at + 255 * 4);
    if || total > (|data| - lookup.value.at) / OID_SIZE
       || total > (|data| - commits.value.at) / COMMIT_SIZE {
      return None;
    }
    if (index.Some? || bits.Some?)
       && (index.None? || bits.None? || index.value.size != total * 4 || bits.value.size < 12) {
      index, bits := None, None;
    }
    AcceptedIsBounded(data, base);
    return Some(File(data, base, total, fanout.value.at, lookup.value.at, commits.value.at, edges, index, bits));
  }

  // ---------- the container format ----------

  datatype Section = Section(id: u32, bytes: seq<byte>)

  /** Where section i starts: behind the header, the table and the sections before it. */
  function SectionAt(sections: seq<Section>, i: nat): nat
    requires i <= |sections|
  {
    if i == 0 then 8 + (|sections| + 1) * 12 else SectionAt(sections, i - 1) + |sections[i - 1].bytes|
  }

  /** The chunk table lists the sections in order, with their ids and offsets. */
  ghost predicate TableLists(data: seq<byte>, sections: seq<Section>) {
    && HeaderFits(data) && ChunkCount(data) == |sections|
    && (forall i :: 0 <= i <= |sections| ==> ChunkOffset(data, i) == SectionAt(sections, i))
    && (forall i :: 0 <= i < |sections| ==> ChunkId(data, i) == sections[i].id)
  }

  ghost predicate SectionStored(data: seq<byte>, sections: seq<Section>, i: nat)
    requires i < |sections|
  {
    var at := SectionAt(sections, i);
    at + |sections[i].bytes| <= |data| && data[at..at + |sections[i].bytes|] == sections[i].bytes
  }

  /** The bytes are a commit-graph file made of these sections, in this order, plus a checksum. */
  ghost predicate LaidOut(data: seq<byte>, sections: seq<Section>) {
    && TableLists(data, sections)
    && |data| == SectionAt(sections, |sections|) + OID_SIZE
    && (forall i :: 0 <= i < |sections| ==> SectionStored(data, sections, i))
  }

  ghost predicate DistinctIds(sections: seq<Section>) {
    forall i, j :: 0 <= i < j < |sections| ==> sections[i].id != sections[j].id
  }

  /** Sizes the loader insists on: a full fanout and a whole number of edges. */
  ghost predicate LegalSizes(sections: seq<Section>) {
    forall i :: 0 <= i < |sections| ==>
      && (sections[i].id == OIDF ==> |sections[i].bytes| == 1024)
      && (sections[i].id == EDGE ==> |sections[i].bytes| % 4 == 0)
  }

  lemma {:induction false} SectionAtMonotone(sections: seq<Section>, i: nat, j: nat)
    requires i <= j <= |sections|
    ensures SectionAt(sections, i) <= SectionAt(sections, j)
    decreases j - i
  {
    if i < j { SectionAtMonotone(sections, i, j - 1); }
  }

  lemma LaidOutFits(data: seq<byte>, sections: seq<Section>)
    requires LaidOut(data, sections) && LegalSizes(sections)
    ensures TableFits(data)
  {
    hide Be32, Be64, HeaderFits;
    forall i | 0 <= i < |sections| ensures ChunkFits(data, i) {
      SectionAtMonotone(sections, i + 1, |sections|);
      assert SectionAt(sections, i + 1) == SectionAt(sections, i) + |sections[i].bytes|;
      hide SectionAt;
      assert ChunkId(data, i) == sections[i].id;
      assert ChunkOffset(data, i) == SectionAt(sections, i);
      assert ChunkOffset(data, i + 1) == SectionAt(sections, i + 1);
    }
  }

  /** In a well laid out file the search finds the very section with that id, and no other. */
  lemma {:induction false} FindLaidOut(data: seq<byte>, sections: seq<Section>, k: nat, n: nat)
    requires TableLists(data, sections) && DistinctIds(sections) && TableFits(data)
    requires k < n <= |sections|
    ensures FindChunk(data, sections[k].id, n) == Some(Chunk(SectionAt(sections, k), |sections[k].bytes|))
    decreases n
  {
    assert ChunkId(data, n - 1) == sections[n - 1].id;
    assert ChunkOffset(data, n) == SectionAt(sections, n);
    assert ChunkOffset(data, n - 1) == SectionAt(sections, n - 1);
    assert SectionAt(sections, n) == SectionAt(sections, n - 1) + |sections[n - 1].bytes|;
    hide HeaderFits, ChunkFits, ChunkId, ChunkOffset, SectionAt;
    if k < n - 1 {
      assert sections[k].id != sections[n - 1].id;
      FindLaidOut(data, sections, k, n - 1);
    }
  }

  lemma Be32Slice(data: seq<byte>, at: nat, size: nat, k: nat)
    requires at + size <= |data| && k + 4 <= size
    ensures Be32(data[at..at + size], k) == Be32(data, at + k)
  {
  }

  /** A section is found where it was put. */
  lemma LaidOutFinds(data: seq<byte>, sections: seq<Section>, k: nat)
    requires LaidOut(data, sections) && DistinctIds(sections) && LegalSizes(sections) && k < |sections|
    ensures TableFits(data) && ChunkCount(data) == |sections|
    ensures FindChunk(data, sections[k].id, ChunkCount(data)) ==
            Some(Chunk(SectionAt(sections, k), |sections[k].bytes|))
    ensures SectionStored(data, sections, k)
    ensures sections[k].id == OIDF ==> |sections[k].bytes| == 1024
  {
    hide FindChunk, SectionAt, ChunkFits, HeaderFits, Be32, Be64, DistinctIds, ChunkId, ChunkOffset, SectionStored;
    LaidOutFits(data, sections);
    FindLaidOut(data, sections, k, |sections|);
  }

  /** What the loader keeps of a section: where it starts and how long it is. */
  function ChunkOf(sections: seq<Section>, k: nat): Chunk
    requires k < |sections|
  {
    Chunk(SectionAt(sections, k), |sections[k].bytes|)
  }

  /**
  A file laid out from distinct sections of legal sizes is accepted as soon as the id and
  commit sections hold as many rows as the fanout announces, and each known section is
  found where it was put. The Bloom sections are kept when they are both there, the index
  with one word for each commit and the data with its twelve leading bytes.
   */
  lemma LaidOutLoads(data: seq<byte>, sections: seq<Section>, base: nat, f: nat, l: nat, c: nat)
    requires LaidOut(data, sections) && DistinctIds(sections) && LegalSizes(sections)
    requires f < |sections| && sections[f].id == 0x4f49_4446
    requires l < |sections| && sections[l].id == 0x4f49_444c
    requires c < |sections| && sections[c].id == 0x4344_4154
    requires Be32(sections[f].bytes, 1020) * 20 == |sections[l].bytes|
    requires Be32(sections[f].bytes, 1020) * 36 == |sections[c].bytes|
    ensures Acceptable(data)
    ensures var file := Accepted(data, base);
            && file.data == data && file.basePosition == base
            && file.commitCount == Be32(sections[f].bytes, 1020)
            && file.fanout == SectionAt(sections, f)
            && file.oidLookup == SectionAt(sections, l)
            && file.commitData == SectionAt(sections, c)
            && (forall e :: 0 <= e < |sections| && sections[e].id == 0x4544_4745 ==>
                  file.edges == Some(ChunkOf(sections, e)))
    ensures forall x, b :: 0 <= x < |sections| && sections[x].id == 0x4249_4458
                           && 0 <= b < |sections| && sections[b].id == 0x4244_4154 ==>
              var file := Accepted(data, base);
              if |sections[x].bytes| == file.commitCount * 4 && |sections[b].bytes| >= 12 then
                file.bloomIndex == Some(ChunkOf(sections, x)) && file.bloomData == Some(ChunkOf(sections, b))
              else file.bloomIndex.None? && file.bloomData.None?
  {
    hide FindChunk, SectionAt, ChunkFits, HeaderFits, Be32, LaidOut, DistinctIds, LegalSizes;
    LaidOutFinds(data, sections, f);
    LaidOutFinds(data, sections, l);
    LaidOutFinds(data, sections, c);
    Be32Slice(data, SectionAt(sections, f), 1024, 1020);
    RowsFit(Be32(sections[f].bytes, 1020), |data| - SectionAt(sections, l), |data| - SectionAt(sections, c));
    forall k | 0 <= k < |sections|
      ensures FindChunk(data, sections[k].id, ChunkCount(data)) == Some(ChunkOf(sections, k))
    {
      LaidOutFinds(data, sections, k);
    }
  }

  lemma RowsFit(count: nat, ids: nat, commits: nat)
    ensures count * OID_SIZE <= ids ==> count <= ids / OID_SIZE
    ensures count * COMMIT_SIZE <= commits ==> count <= commits / COMMIT_SIZE
  {
  }

  // ---------- writing the container ----------

  function Bodies(sections: seq<Section>): (bodies: seq<seq<byte>>)
    ensures |bodies| == |sections|
  {
    seq(|sections|, i requires 0 <= i < |sections| => sections[i].bytes)
  }

  /** The rows of the chunk table, the last of them with a zero id and the end of the sections. */
  function TableRows(sections: seq<Section>): (rows: seq<seq<byte>>)
    ensures |rows| == |sections| + 1 && forall i :: 0 <= i < |rows| ==> |rows[i]| == 12
  {
    seq(|sections| + 1, i requires 0 <= i <= |sections| =>
      Word(if i < |sections| then sections[i].id else 0) + DoubleWord(SectionAt(sections, i)))
  }

  /** The file of these sections: "CGPH", version 1 and hash 1, counts, table, sections, checksum. */
  function EncodeFile(sections: seq<Section>, baseFiles: byte, checksum: seq<byte>): seq<byte>
    requires |sections| < 256 && |checksum| == 20
  {
    [67, 71, 80, 72, 1, 1, |sections| as byte, baseFiles] + Flat(TableRows(sections)) + Flat(Bodies(sections))
    + checksum
  }

  lemma {:induction false} SectionAtIsBehind(sections: seq<Section>, i: nat)
    requires i <= |sections|
    ensures SectionAt(sections, i) == 8 + (|sections| + 1) * 12 + |Flat(Bodies(sections)[..i])|
  {
    if i > 0 {
      SectionAtIsBehind(sections, i - 1);
      FlatAt(Bodies(sections), i - 1);
    }
  }

  lemma EncodedParts(sections: seq<Section>, baseFiles: byte, checksum: seq<byte>)
    requires |sections| < 256 && |checksum| == 20
    ensures var data, table := EncodeFile(sections, baseFiles, checksum), 8 + (|sections| + 1) * 12;
            && |Flat(TableRows(sections))| == (|sections| + 1) * 12
            && |data| == table + |Flat(Bodies(sections))| + 20
            && HeaderFits(data) && ChunkCount(data) == |sections|
            && data[8..table] == Flat(TableRows(sections))
            && data[table..table + |Flat(Bodies(sections))|] == Flat(Bodies(sections))
  {
    hide Flat, SectionAt, TableRows;
    FlatSize(TableRows(sections), 12);
    var data := EncodeFile(sections, baseFiles, checksum);
    assert data[..4] == ['C' as byte, 'G' as byte, 'P' as byte, 'H' as byte];
  }

  lemma EncodedRow(sections: seq<Section>, baseFiles: byte, checksum: seq<byte>, i: nat)
    requires |sections| < 256 && |checksum| == 20 && i <= |sections|
    requires SectionAt(sections, i) < 0x1_0000_0000_0000_0000
    ensures var data := EncodeFile(sections, baseFiles, checksum);
            && HeaderFits(data) && ChunkCount(data) == |sections|
            && (i < |sections| ==> ChunkId(data, i) == sections[i].id)
            && ChunkOffset(data, i) == SectionAt(sections, i)
  {
    hide Flat, SectionAt, Be32, Be64, Word, DoubleWord, EncodeFile, HeaderFits;
    var data, rows := EncodeFile(sections, baseFiles, checksum), TableRows(sections);
    EncodedParts(sections, baseFiles, checksum);
    RowStored(data, 8, rows, 12, i);
    var id: u32 := if i < |sections| then sections[i].id else 0;
    var at := 8 + i * 12;
    SliceOfSlice(data, at, 12, 0, 4);
    SliceOfSlice(data, at, 12, 4, 8);
    WordReads(data, at, id);
    DoubleWordReads(data, at + 4, SectionAt(sections, i));
  }

  lemma EncodedSection(sections: seq<Section>, baseFiles: byte, checksum: seq<byte>, i: nat)
    requires |sections| < 256 && |checksum| == 20 && i < |sections|
    ensures SectionStored(EncodeFile(sections, baseFiles, checksum), sections, i)
  {
    hide Flat, EncodeFile, HeaderFits, TableRows;
    var data, bodies := EncodeFile(sections, baseFiles, checksum), Bodies(sections);
    EncodedParts(sections, baseFiles, checksum);
    FlatAt(bodies, i);
    SectionAtIsBehind(sections, i);
    var table, before := 8 + (|sections| + 1) * 12, |Flat(bodies[..i])|;
    SliceOfSlice(data, table, |Flat(bodies)|, before, |bodies[i]|);
  }

  /** The written file is laid out from its sections, whatever they are. */
  lemma EncodedIsLaidOut(sections: seq<Section>, baseFiles: byte, checksum: seq<byte>)
    requires |sections| < 256 && |checksum| == 20
    requires |EncodeFile(sections, baseFiles, checksum)| < 0x1_0000_0000_0000_0000
    ensures LaidOut(EncodeFile(sections, baseFiles, checksum), sections)
  {
    hide Flat, SectionAt, EncodeFile, HeaderFits, TableRows, ChunkId, ChunkOffset, SectionStored, ChunkCount, Bodies;
    EncodedParts(sections, baseFiles, checksum);
    SectionAtIsBehind(sections, |sections|);
    assert Bodies(sections)[..|Bodies(sections)|] == Bodies(sections);
    forall i | 0 <= i <= |sections|
      ensures SectionAt(sections, i) < 0x1_0000_0000_0000_0000
    {
      SectionAtMonotone(sections, i, |sections|);
    }
    var data := EncodeFile(sections, baseFiles, checksum);
    forall i | 0 <= i <= |sections|
      ensures HeaderFits(data) && ChunkCount(data) == |sections| && ChunkOffset(data, i) == SectionAt(sections, i)
      ensures i < |sections| ==> ChunkId(data, i) == sections[i].id
    {
      EncodedRow(sections, baseFiles, checksum, i);
    }
    forall i | 0 <= i < |sections| ensures SectionStored(data, sections, i) {
      EncodedSection(sections, baseFiles, checksum, i);
    }
  }
}
