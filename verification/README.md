# kc3: streams, histories and framing

This project models the parts of kc3 whose correctness rests on more than one function, and
proves what they are for.

- **Path-filtered history** (`git/log.c`). `GitTree` and `GitPath` read serialized trees and
  compare two trees at a path; `GraphFile` and `CommitGraph` load and search the layered
  commit-graph; `Bloom` answers for the changed-path filters; `GraphFormat` writes down the bytes
  of a commit-graph file and proves that they are loaded as the commits and filters that were
  written; `GitLog` proves that the loop that uses all of them, and carries one root tree from
  commit to commit, returns exactly what a definition by lock-step comparisons says, failures
  included, and the list of the plain definition whenever that one can read what it needs. The
  object database is a map from ids to objects and the hash functions of the filters are
  parameters.
- **The odb cache** (`git/repository.c`). `OdbCache` has the critical sections on the slot
  table; `OdbProtocol` interleaves them with the steps made outside the lock, with libgit2's
  reference counts, and proves safety over all runs; `OdbOrigins` traces for which objects path
  and graph state each odb was loaded.
- **The byte buffer** (`libkc3/buf.c`, `buf_save.c`, `buf_file.c`, `buf_fd.c`). `Buffer` is a
  bounded window with a chain of saves over a device that delivers and accepts bytes when it
  likes. Readers are proved against a pure stream with marks, writers against the
  concatenation of sent and pending bytes. `Utf8` has the lenient reader and the writer of
  characters.
- **Timers and entries** (`event_poll/event_poll.c`, epoll side). `EventPoll` splices two
  intrusive lists over shared nodes; `Deadline` has the time arithmetic; `EventRuns` says what
  the events of a whole run mean.
- **JSON** (`json/json.c`). `JsonString` and `JsonText` say what a stream means, `JsonParser` is
  the recursive descent over the buffer, `JsonGrammar` characterizes the accepted texts.
- **Request bodies** (`http/http_request.c`). `HttpLength` settles the length, `HttpBody` reads
  that many bytes on every path.
- **Codecs and arrays** (`libkc3/base64.c`, `base32.c`, `http/url.c`, `libkc3/array.c`):
  `Base64`, `Base32`, `Url`, with `CodecIo` for their byte loops, and `Arrays`.

`Bytes` holds bytes, words and optional values. Code that updates state in place is a class or
a method proved against a specification function; the properties are lemmas about that
function. Device reads and writes, the kernel, clocks and libgit2 are parameters or free
choices, so each method is proved for everything they may do.

Seven expectations fail in the code as it is. Each is stated with the exact condition under
which it does hold, and with an input that fails:

- ignoring a number of bytes is exact iff no UTF-8 character straddles the end
  (`Utf8.SkipIsExactIffAligned`, `Utf8.SkipCanOvershoot`);
- a lookup in an accepted commit-graph file stays inside the file, for every id table, iff the
  fanout bucket is empty or ends among the rows that fit; the loader checks only the last fanout
  entry (`CommitGraph.SearchStaysInsideIff`, `CommitGraph.UncheckedFanoutReadsOutside`);
- a supplied poll timeout that is not negative is respected iff a timer is armed or its
  milliseconds, cut to 32 bits, are below two to the 31 (`Deadline.TimeoutRespectedIff`,
  `Deadline.LongTimeoutWaitsForever`);
- the wait for a timer ends with its deadline iff the deadline is not more than two to the 31
  milliseconds past when the clock is read again, up to what the conversion to 32 bits and a
  zero timeout let through (`Deadline.WaitFollowsTimerIff`, `Deadline.OverdueTimerIsWaitedFor`);
- a poll wait is long enough for a timeout iff its milliseconds are below two to the 31 or their
  low 32 bits are not, and for a timer iff it is less than two to the 31 milliseconds away
  (`Deadline.TimeoutCoveredIff`, `Deadline.DeadlineCoveredIff`, `Deadline.LongWaitsAreCut`);
- the unescaped size is exact iff no round of the decoding loop begins with an overlong character
  other than a percent sign (`Url.SizeIsExactIffShortest`, `Url.OverlongIsCountedTwice`,
  `Url.OverlongPlusIsCountedTwice`);
- the lock-step tree comparison reports an object that cannot be read iff the trees agree at no
  leading directory of the path (`GitPath.DescentFailsIff`, `GitPath.MissingTreeGoesUnseen`).

## Model

| member | source | states |
|---|---|---|
| GitTree.ScanOfEncodedTree | git/log.c:981-1025 | Scanning the serialized form of any list of valid entries finds a name exactly when an entry has it, with the mode and id of the first such entry. |
| GitTree.ScanDecodes | git/log.c:981-1025 | Conversely, whatever bytes are scanned: a hit is an entry that stands in the bytes after entries with other names, and a miss means the bytes are exactly entries with other names. |
| GitTree.TreeEntryObject | git/log.c:981-1025 | The byte loop over a tree object returns what the scan of its bytes returns, and the error result for a missing or malformed object. |
| GitTree.ReadMode | git/log.c:1001-1008 | The octal digits from a position on, an empty run included: where they end and their value in a 32-bit mode. |
| GitTree.FindZero | git/log.c:1009-1014 | The first zero byte at or after a position, which ends the entry name. |
| GitPath.DescendAgreesWithLookups | git/log.c:1027-1123 | Walking two trees in lock step with an early exit on equal entries answers "changed" exactly when the two independent lookups of the path differ in presence, mode or id; it answers "unchanged" only where they are equal, and fails only where one of them fails. |
| GitPath.DescentFailsIff | git/log.c:1027-1123 | The comparison reports an error exactly when one of the lookups cannot be carried out and the two trees agree at no leading directory of the path. |
| GitPath.MissingTreeGoesUnseen | git/log.c:1027-1123 | A tree compared with itself below a directory whose tree is missing: the lookup fails, the comparison says unchanged. |
| GitPath.TreePathChanged | git/log.c:1027-1123 | The loop answers as the lock-step descent does, with or without a root tree object handed in, and hands out the root object of the second tree when asked to. |
| GitPath.LeadingDirectoryDiffers | git/log.c:764-775 | When the entries at a path differ, the entries at each of its leading directories differ too. |
| GitPath.LookupBelow | git/log.c:1027-1123 | A lookup goes on in the tree that the first component leads to, and only there: below an entry whose mode is not 0040000, or below no entry, nothing is found and nothing fails. |
| GitPath.NotADirectory | git/log.c:1099-1106 | A path below a file, a link or a submodule of a serialized tree is absent, not an error. |
| GitPath.TreeEntryRead | git/log.c:960-979 | Reading one entry of a tree through the object database gives the entry of the serialized tree, or an error for a missing tree. |
| GraphFile.AcceptedIsBounded | git/log.c:435-534 | In an accepted file the fanout, the edges, the Bloom chunks and every row below the commit count lie inside the file; the fanout entries themselves are not bounded. |
| GraphFile.LoadFile | git/log.c:435-534 | A file is loaded exactly when the loader conditions hold, and then with the chunk positions, counts and Bloom settings that the table of contents gives. |
| GraphFile.FindLaidOut | git/log.c:464-506 | In a file laid out as a table of distinct sections, the chunk search returns exactly the bytes of the section with that id. |
| GraphFile.LaidOutLoads | git/log.c:435-534 | Every file laid out from distinct sections of legal sizes is accepted; fanout, ids, commits and edges are found where they were put, and so are the Bloom sections when both are there with the sizes that the commit count asks for. |
| GraphFile.EncodedIsLaidOut | git/log.c:464-506 | The bytes written for any sections (signature, version, table of big-endian ids and offsets, sections, checksum) are a file laid out from them. |
| CommitGraph.LoadGraph | git/log.c:536-597 | The accepted layers tile the position space: each base is the total of the layers below, and the commit count is the total of all. |
| CommitGraph.EntryAt | git/log.c:599-614 | A position below the commit count is turned into the one layer and index whose base and index add up to it; any other position is refused. |
| CommitGraph.PositionInjective | git/log.c:599-614 | Two entries with the same global position are the same entry, so the position lookup is the inverse of base plus index. |
| CommitGraph.SearchFile | git/log.c:626-647 | On any accepted file the loop finds, misses or leaves the file exactly as the search of the bucket that the fanout gives. |
| CommitGraph.EntryFind | git/log.c:616-648 | On any chain of accepted files the loop over the layers gives the result of the topmost layer that does not miss. |
| CommitGraph.SearchIsExact | git/log.c:626-647 | With sorted ids and a true fanout the search never leaves the file, and finds an id exactly when the layer holds it. |
| CommitGraph.FindIsExact | git/log.c:616-648 | In a chain of such layers the lookup finds an id exactly when some layer holds it, and returns its index in the topmost one. |
| CommitGraph.SearchStaysInsideIff | git/log.c:626-634 | Over all id tables and all ids, the search of a bucket reads only rows that fit in the file if and only if the bucket is empty or ends among them. |
| CommitGraph.FanoutInsideIsEnough | git/log.c:626-634 | When no fanout entry exceeds the rows that fit, no lookup in the file reads outside, sorted or not. |
| CommitGraph.UncheckedFanoutReadsOutside | git/log.c:501-517 | A file of 1100 bytes that the loader accepts, in which the lookup of any id beginning with a zero byte reads outside. |
| CommitGraph.CompareIsOrder | git/log.c:616-648 | The byte comparison behind the binary search is negative, zero or positive exactly for smaller, equal and larger ids of one length. |
| CommitGraph.LessAtFirstDifference | git/log.c:616-648 | An id is smaller than another exactly when it has the smaller byte at the first place where they differ. |
| CommitGraph.EdgeRunOfEncoded | git/log.c:779-844 | An octopus edge list with its last entry marked is read back as the positions that were stored. |
| CommitGraph.ParentsRoundTrip | git/log.c:779-844 | For none, one, two or many parents, decoding the fields of a row gives back the list of parent positions that they hold; GraphFormat.WrittenLayerHolds says which bytes hold it. |
| CommitGraph.ParentCount | git/log.c:779-805 | The count is the length of the decoded parent list, and there is none exactly when the list cannot be decoded. |
| CommitGraph.Parent | git/log.c:807-844 | Parent i is the id and tree stored at its global position, in whichever layer that is, or none when the position is not covered. |
| GraphFormat.WrittenLayerHolds | git/log.c:435-534 | A file laid out from the sections of a sorted commit list (256 counts, ids, rows of 36 bytes with tree, two big-endian parent words and eight more, octopus edges with the last one marked) is loaded as a layer that holds exactly these ids, trees and parents, with a true fanout. |
| GraphFormat.RowRead | git/log.c:779-844 | Tree and parent words of a loaded row are those at bytes 0, 20 and 24 of the 36 bytes that were written for the commit. |
| GraphFormat.EdgesRead | git/log.c:791-802 | The edges of an octopus merge are read from the number that its row gives, for every commit of the layer. |
| GraphFormat.CountSeparates | git/log.c:620-627 | In a sorted list the words of the fanout separate the ids by their first byte. |
| GraphFormat.WrittenFilterIsAsked | git/log.c:737-763 | The query for commit i asks exactly the bytes of the i-th filter that was written, behind the twelve leading bytes, and none when that filter is empty or the settings are not understood. |
| GraphFormat.WrittenFilterHolds | git/log.c:737-777 | A filter built from keys that cover the changed paths, written to a file and loaded, never rejects a changed path of its commit. |
| GraphFormat.WriteThenLoad | git/log.c:435-534 | Loading undoes writing: the commits of a layer and the filter of each come back from the bytes of the file. |
| Bloom.SetBitEffect | git/log.c:718-735 | Setting one bit of a filter sets that bit and leaves every other bit as it was. |
| Bloom.BloomContains | git/log.c:718-735 | The probe loop, in wrapping 32-bit arithmetic and with a zero size answering yes, says yes exactly when all the bits of the key are set. |
| Bloom.BuildContains | git/log.c:718-735 | For any hash functions, a filter built from a list of keys contains each of them. |
| Bloom.ContainsByWeights | git/log.c:718-735 | The query asks, for each i below the number of hashes, bit h0 + i * h1 (mod 2^32, mod the number of bits), where h0 and h1 are seeded with 0x293ae76f and 0x7e646e2c, and bit b has weight 2^(b mod 8) in byte b / 8. |
| Bloom.LeadingIsExact | git/log.c:764-775 | The keys that the prefix loop visits are exactly the path and its leading directories. |
| Bloom.PathMaybeChanged | git/log.c:737-777 | The query answers no only when the commit has a usable filter that lacks some leading directory of the path; GraphFormat.WrittenFilterIsAsked says which bytes that filter is. |
| Bloom.BuiltFilterHoldsChanges | git/log.c:737-777 | A filter built from every changed path and its leading directories meets the assumption made about stored filters. |
| Bloom.ChangedPathPasses | git/log.c:737-777 | When a path differs between two trees, the filter kept for them contains every leading directory of the path. |
| GitLog.Log | git/log.c:240-408 | The walk with commit-graph, Bloom filters and a carried root tree returns exactly what the lock-step definition says, failure included: it fails at the first commit before the page is full that no filter rejects and that cannot be compared or loaded; a path that is too long is refused. |
| GitLog.LockStepIsPlain | git/log.c:240-408 | Whenever the plain definition finds all it needs, and the filters hold every path that differs from the first parent, the walk returns exactly its list. |
| GitLog.ComparableIff | git/log.c:315-354 | The comparisons of a commit can be carried out exactly when each parent exists and each pair of lookups succeeds or agrees at a leading directory. |
| GitLog.DecidesAsPlain | git/log.c:281-361 | Where the plain definition can read a commit, filter and comparison together decide as it does. |
| GitLog.NaiveIsPageOfFiltered | git/log.c:262-392 | On a complete repository the plain definition is: keep the commits whose entry at the path differs from every parent (for a root commit: is present), drop `skip`, take `limit`. |
| GitLog.Examine | git/log.c:281-361 | For one commit, graph lookup, filter and tree comparison together give exactly the decision of the lock-step definition, and a carried tree object is always the root tree of the commit it is carried for. |
| GitLog.Unmatched | git/log.c:315-361 | There is a count exactly when the comparisons with all parents can be carried out, and it is zero exactly when all of them report a change, wherever the parents come from. |
| GitLog.FindInGraph | git/log.c:281-291 | The entry is the one the lookup gives; it holds the id that was asked for and belongs to a commit of the repository whose parents can be counted. |
| GitLog.ParentOf | git/log.c:327-353 | The parent read from the graph is the same commit with the same tree as the one loaded from the repository. |
| GitLog.FilterKeepsChanged | git/log.c:300-306 | No commit that the plain definition keeps is rejected by its filter, because it differs from its first parent. |
| GitLog.RejectedIsUnchanged | git/log.c:300-306 | A commit that the filter rejects is one that the plain definition does not keep. |
| GitLog.EntryAgrees | git/log.c:283-291 | Tree and parents that the graph stores for a found entry are those of the repository. |
| OdbCache.ReplacementIsSafe | git/repository.c:176-193 | The slot chosen for a new odb is never in use; when it is neither empty nor idle for the same path, no such slot exists and it carries the smallest stamp of the idle ones; none is found exactly when all are in use. |
| OdbCache.FindReusable | git/repository.c:140-155 | The first idle slot with the same path and graph state, or none when there is no such slot. |
| OdbCache.ReleasedIsReusable | git/repository.c:138-156 | An odb that was given back is found again by the path and graph state of its slot. |
| OdbCache.TouchedIsNewest | git/repository.c:138-254 | Until the clock wraps, the slot that is reserved, stored or released carries a stamp greater than every other one, so stamps order the uses. |
| OdbCache.OdbCacheTable.TryReuse | git/repository.c:138-156 | The first critical section reserves the reusable slot and stamps it, or leaves the cache alone; OdbOrigins.RepositoriesHoldTheirOwn says for which path the odb was loaded. |
| OdbCache.OdbCacheTable.ReuseOrStore | git/repository.c:160-204 | The second critical section reuses a slot that has appeared meanwhile, else replaces the chosen slot and hands out the odb it held; the table afterwards is the one the pure definition gives. |
| OdbCache.OdbCacheTable.ReleaseOdb | git/repository.c:238-254 | The slot that holds the odb is no longer in use and gets a new stamp; no other slot changes. |
| OdbCache.OdbCacheTable.CleanAll | git/repository.c:211-228 | Every slot is emptied and the odbs that were held are handed out to be freed. |
| OdbProtocol.RunsAreSafe | git/repository.c:123-290 | In every interleaving of opening, freeing, releasing and cleaning: slots hold distinct odbs, an in-use slot has exactly one holder, reference counts equal the pointers that exist, and no odb that is still reachable has been freed. |
| OdbProtocol.StepKeepsInvariant | git/repository.c:123-290 | Every atomic step of every thread keeps the invariant. |
| OdbProtocol.RunKeepsInvariant | git/repository.c:123-290 | The invariant holds after every run from an empty cache. |
| OdbProtocol.FirstSectionKeeps | git/repository.c:138-156 | Reserving a reusable slot keeps the invariant: the repository becomes its one holder and takes one reference. |
| OdbProtocol.SecondSectionKeeps | git/repository.c:160-209 | The second section keeps the invariant on all its exits, although any thread may have run since the first. |
| OdbProtocol.SecondSectionStores | git/repository.c:194-207 | Storing the candidate, with the evicted odb left to one last free outside the lock, keeps every count exact. |
| OdbProtocol.BeginFreeKeeps | git/repository.c:282-284 | Taking the reference that outlives the repository keeps the invariant. |
| OdbProtocol.FreeRepositoryKeeps | git/repository.c:285-286 | Freeing the repository leaves exactly one holder of its slot, the thread inside free. |
| OdbProtocol.ReleaseSectionKeeps | git/repository.c:238-254 | Giving the slot back keeps the invariant: afterwards nobody holds it. |
| OdbProtocol.CleanSectionKeeps | git/repository.c:211-228 | Emptying the cache keeps the invariant: the references of the slots move to the list that is drained. |
| OdbProtocol.ReachableIsCounted | git/repository.c:123-290 | Under the invariant an odb in a slot, a repository or a local variable has a positive reference count. |
| OdbOrigins.RepositoriesHoldTheirOwn | git/repository.c:123-209 | After every run each slot holds an odb that was loaded for the path and graph state recorded in it, each repository holds an odb loaded from its own objects path, and once handed out one for the graph state that was read when it was opened, reused or not. |
| OdbOrigins.TracedStepKeeps | git/repository.c:123-290 | Every atomic step keeps this, and is a step of the protocol. |
| OdbOrigins.RunIsTraced | git/repository.c:123-290 | Every run of the protocol has such a history, so none is left out. |
| OdbOrigins.SecondSectionTells | git/repository.c:160-209 | Reusing, storing or keeping the candidate in the second section leaves each repository with an odb of its own path and graph state. |
| Buffer.CompactKeeps | libkc3/buf.c:1596-1652 | Dropping the bytes in front of the oldest cursor and rebasing every save leaves what the cursor and each save would read unchanged, and the oldest cursor ends at zero. |
| Buffer.Buf.SaveInit | libkc3/buf_save.c:26-36 | A new save marks the present stream, for reading and for writing; older marks stay. |
| Buffer.Buf.SaveClean | libkc3/buf_save.c:17-24 | Removing a save drops its mark and changes nothing else. |
| Buffer.Buf.SaveRestoreRpos | libkc3/buf_save.c:66-74 | The stream is again exactly what it was at the save; all marks stay. |
| Buffer.Buf.SaveRestoreWpos | libkc3/buf_save.c:76-84 | Exactly what was put out since the save is erased and all marks stay; the buffer is usable afterwards exactly when nothing behind the save has been read. |
| Buffer.Buf.SaveMinRpos | libkc3/buf_save.c:38-50 | The smallest read cursor of the buffer and all its saves. |
| Buffer.Buf.SaveMinWpos | libkc3/buf_save.c:52-64 | The smallest write cursor of the buffer and all its saves. |
| Buffer.MinOfChain | libkc3/buf_save.c:38-50 | On an ordered chain of saves the smallest read cursor is that of the outermost save. |
| Buffer.Buf.RefillCompact | libkc3/buf.c:1596-1652 | The logical stream of the cursor and of every save is unchanged, and so is the number of unread bytes in the window. |
| Buffer.Buf.CallRefill | libkc3/buf_file.c:86-112 | A callback appends some bytes of the device that fit, or none, or fails; cursor and saves read the same stream as before. |
| Buffer.Buf.Refill | libkc3/buf.c:1556-1594 | The loop terminates, keeps the stream of the cursor and of every save, and never loses bytes of the window; on a device that does not fail, bytes that exist and have room behind the oldest cursor are brought in. |
| Buffer.Buf.PeekU8 | libkc3/buf.c:1556-1594 | The next byte of the stream without taking it; with the stream within reach it fails only at the end. |
| Buffer.Buf.PeekCharacterUtf8 | libkc3/buf.c:650-756 | The next character as its bytes say, with distinct results for bytes that cannot start one and for missing bytes; nothing is taken. |
| Buffer.Buf.ReadCharacterUtf8 | libkc3/buf.c:927-949 | On success the character is taken from the stream; on failure nothing is. |
| Buffer.Buf.Ignore | libkc3/buf.c:238-287 | Refused, with the stream untouched, when fewer bytes are there; else at least the requested bytes go and at most three more, exactly that many when no character straddles the end, and with the stream within reach what the skipping loop takes. |
| Buffer.Buf.PeekStr | libkc3/buf.c:794-839 | Whether the stream starts with the string; with the stream within reach the answer is exact. |
| Buffer.Buf.ReadStr | libkc3/buf.c:1084-1097 | The string is taken when the stream starts with it and nothing is taken otherwise; up to three bytes more go when the string ends inside a character of the stream, none for an ASCII string. |
| Buffer.RestoreReplays | libkc3/buf_save.c:66-74 | Whatever happens between a save and its restore (reads, refills, nested saves), the same bytes are read again. |
| Buffer.FlushKeepsMarks | libkc3/buf_file.c:170-211 | With nothing read, handing the front of the window to the device and rebasing the saves leaves sent plus pending bytes, and each write mark, as they were. |
| Buffer.Buf.FileFlush | libkc3/buf_file.c:170-211 | Sent plus pending bytes do not change and no byte behind the oldest save is sent; what a failed write leaves in the file is a front of the pending bytes, and nothing more is written after it; a file that works is sent everything up to the oldest save. |
| Buffer.Buf.FdFlush | libkc3/buf_fd.c:185-257 | The same for a descriptor that takes the bytes in pieces and may fail in between; one that works is sent everything up to the oldest save. |
| Buffer.Buf.Flush | libkc3/buf.c:230-236 | No flush changes sent plus pending bytes or any write mark, nor passes the oldest save; success means that everything up to the oldest save was sent, a working end always succeeds, and without a callback the free space is the answer and nothing moves. |
| Buffer.Buf.Write | libkc3/buf.c:1851-1905 | The output grows by exactly the bytes on success and by a prefix of them otherwise; on an end that works, with nothing read, data up to the largest signed word is written if and only if it has room after one flush or no save is open and the window is not empty; without a callback if and only if it fits. |
| Buffer.Buf.WriteThrough | libkc3/buf.c:1875-1896 | The loop for data larger than the window puts out all of it or a prefix; all of it on a working end exactly when no save is open and the window is not empty. |
| Buffer.Buf.WriteCharacterUtf8 | libkc3/buf.c:1926-1969 | The whole character, with its indentation behind a newline, is put out or nothing is; on a working end it is put out exactly when it fits or at least as many bytes as it needs are flushed, which is stricter than the room that the flush makes. |
| Buffer.Buf.U8ToHex | libkc3/buf.c:1787-1823 | Both upper-case digits of the byte are put out, or the output is what it was, whether or not something has been read; on a working end both are put out exactly when there is room after a flush. |
| Buffer.Xfer | libkc3/buf.c:2174-2228 | All of the bytes move from one stream to the end of the other, or both are as they were; they do move when the source has them within reach and the destination has room, a flush of a working end counted in. |
| Utf8.DecodeOfEncoded | libkc3/character.c:156-202 | Reading back a written character gives the character and its size, whatever follows. |
| Utf8.DecodedIsNotShorter | libkc3/buf.c:650-756 | A character that is read takes at least as many bytes as it is written with, and equally many exactly when its bytes are the written ones. |
| Utf8.SkipIsExactIffAligned | libkc3/buf.c:238-287 | Skipping stops exactly at the requested size if and only if no character that begins in the last three bytes ends behind them. |
| Utf8.SkipCanOvershoot | libkc3/buf.c:238-287 | Ignoring one byte in front of a two-byte character takes both bytes. |
| Utf8.SkipReaches | libkc3/buf.c:238-287 | A character that straddles the end is swallowed whole: the skip ends where it does. |
| Utf8.AsciiIsAligned | libkc3/buf.c:238-287 | Among ASCII bytes the skip is always exact. |
| Deadline.CompareIsByInstant | libkc3/compare.c:1836-1854 | On normalized times the field-wise comparison and the expiry test are those of the instants. |
| Deadline.DeadlineIsExact | event_poll/event_poll.c:206-217 | The stored deadline is normalized and is exactly now plus the timeout. |
| Deadline.TimeoutRespectedIff | event_poll/event_poll.c:449-493 | A supplied timeout is never exceeded exactly when it is not negative and a timer is armed or the low 32 bits of its milliseconds are below two to the 31; otherwise the wait has no end or the timeout lies in the past. |
| Deadline.LongTimeoutWaitsForever | event_poll/event_poll.c:449-493 | A timeout of 2147484 seconds without a timer gives a wait without end. |
| Deadline.WaitFollowsTimerIff | event_poll/event_poll.c:483-493 | With a timer armed the wait ends less than a millisecond after the time left to the earliest deadline if and only if the deadline is at most two to the 31 milliseconds past, or those milliseconds convert to no positive 32-bit number, or the supplied timeout converts to zero. |
| Deadline.OverdueTimerIsWaitedFor | event_poll/event_poll.c:483-493 | A timer 2147484 seconds overdue gives a wait of 2147483296 milliseconds. |
| Deadline.TimeoutCoveredIff | event_poll/event_poll.c:449-493 | With no timer armed a supplied timeout is waited for, up to a millisecond, if and only if its milliseconds are below two to the 31 or their low 32 bits are not; without a timeout the wait has no end. |
| Deadline.DeadlineCoveredIff | event_poll/event_poll.c:483-493 | With a timer and no timeout the wait lasts until a millisecond before the deadline at least if and only if the deadline is less than two to the 31 milliseconds away. |
| Deadline.NearerIsCovered | event_poll/event_poll.c:449-493 | With both, neither as far away, the nearer one is waited for. |
| Deadline.LongWaitsAreCut | event_poll/event_poll.c:449-493 | A timeout of two to the 32 milliseconds and a timer two to the 31 milliseconds away are not waited for at all. |
| EventPoll.Poll.EntryFind | event_poll/event_poll.c:52-62 | The entry of the descriptor, or null exactly when no entry has it. |
| EventPoll.Poll.TimerInsert | event_poll/event_poll.c:64-72 | The node is linked in front of the first timer that is not earlier; the other nodes keep their order. |
| EventPoll.Poll.TimerRemove | event_poll/event_poll.c:74-86 | The node, and only it, leaves the timer list. |
| EventPoll.InsertSorted | event_poll/event_poll.c:64-72 | Inserting at that place keeps the list sorted by deadline. |
| EventPoll.Poll.EntryNew | event_poll/event_poll.c:40-50 | A fresh entry without a timer at the head of the list. |
| EventPoll.Poll.EntryFree | event_poll/event_poll.c:88-102 | The descriptor is no longer watched; its timer is off the timer list and all else is unchanged. |
| EventPoll.Poll.Add | event_poll/event_poll.c:185-256 | Entries keep distinct descriptors and timers stay sorted, free of repeats and exactly the entries with a timeout; the descriptor is watched with the new data and deadline only, or not at all when the kernel refuses it. |
| EventPoll.Poll.DeleteTimer | event_poll/event_poll.c:328-337 | The same invariants; only the descriptor loses its timer. |
| EventPoll.Poll.DeleteRead | event_poll/event_poll.c:338-351 | The same invariants; only the descriptor is no longer watched. |
| EventPoll.Poll.PollTimers | event_poll/event_poll.c:453-482 | The same invariants; a timer event is delivered exactly when some armed deadline has expired, for a descriptor with the smallest one, which alone is disarmed. |
| EventPoll.Poll.PollWait | event_poll/event_poll.c:449-493 | The wait is the one chosen from the supplied timeout and the smallest armed deadline. |
| EventPoll.Poll.PollReady | event_poll/event_poll.c:505-542 | The same invariants; an event for the reported descriptor exactly when it is still watched, with its data, and its timer is off. |
| EventPoll.ExpiredEarliest | event_poll/event_poll.c:453-454 | Looking at the smallest deadline alone decides whether any has expired. |
| EventRuns.ArmedIffLastTouchArms | event_poll/event_poll.c:143-546 | In every run, a descriptor is armed exactly when the last thing that touched it was an add with a timeout, and then with that deadline and data. |
| EventRuns.CheckFiresIff | event_poll/event_poll.c:453-482 | At a check in any run a timer event is delivered exactly when an arming still in force has expired. |
| EventRuns.TimerEventHasArming | event_poll/event_poll.c:453-482 | Every timer event belongs to one arming still in force: its data, an expired deadline, and no other arming in force is earlier. |
| EventRuns.QuietUntilArmed | event_poll/event_poll.c:453-542 | After a read, eof or timer event, a delete or a plain add for a descriptor, no timer event for it comes before the next add with a timeout; so each arming fires at most once. |
| JsonString.RawIffShortest | json/json.c:557-586 | A raw character of several bytes is accepted if and only if its bytes are the shortest form of a Unicode scalar. |
| JsonString.HexIsSpelt | json/json.c:499-518 | The reader of hexadecimal digits knows exactly the characters 0-9, a-f and A-F, each with its own value. |
| JsonString.SpellingIsRead | json/json.c:520-589 | Every legal spelling of a scalar (raw, short escape, `\u` escape in either case, surrogate pair) is read as that scalar, whatever follows. |
| JsonString.ReadIsSpelling | json/json.c:520-589 | Conversely, whatever is read as a character is a legal spelling of a scalar. |
| JsonString.StrIffWritten | json/json.c:591-645 | A string is read exactly when it is written in legal spellings and its UTF-8 fits the maximum, and its value is the UTF-8 of those scalars. |
| JsonString.BodyOfWritten | json/json.c:609-628 | A written body decodes to the UTF-8 of its scalars behind what was decoded before, and fails exactly when that is too long. |
| JsonGrammar.ReadIffPrinted | json/json.c:275-645 | The parser reads a value exactly when some legal writing of it stands in front, with any white space, spelling and nesting, and leaves exactly what follows. |
| JsonGrammar.PrintThenRead | json/json.c:275-645 | Reading undoes printing for every document whose number tokens the number lexer reads whole. |
| JsonGrammar.PrintedIsRead | json/json.c:288-334 | What is printed is read back, given that its numbers and nulls end where they are meant to. |
| JsonGrammar.ReadWasPrinted | json/json.c:288-334 | What is read was printed: a document with that meaning accounts for exactly the bytes taken. |
| JsonGrammar.ItemsAreRead | json/json.c:363-379 | Printed list items are read in order up to the closing bracket. |
| JsonGrammar.MembersAreRead | json/json.c:417-444 | Printed members are read in order up to the closing brace. |
| JsonParser.PeekNonSpace | json/json.c:275-286 | Exactly the white space in front is skipped, and the next byte is reported but not taken. |
| JsonParser.ParseHex4 | json/json.c:499-518 | Four hexadecimal digits of the stream as their value, or failure. |
| JsonParser.ParseStrCharacter | json/json.c:520-589 | One character is taken from the stream as the pure definition says; with the stream within reach it fails only where that fails. |
| JsonParser.ParseBody | json/json.c:605-636 | One pass over a string: measuring and filling agree on the size, so the capacity check of the second pass cannot fail. |
| JsonParser.ParseStr | json/json.c:591-645 | Measure, restore, decode: the string of the pure definition and the stream behind it, or the stream as it was. |
| JsonParser.ParseNull | json/json.c:465-488 | `null` with its look-ahead, or the stream as it was. |
| JsonParser.ParseList | json/json.c:346-390 | A list as the pure definition says, or the stream as it was, whatever the stream begins with. |
| JsonParser.ParseMap | json/json.c:392-463 | An object as the pure definition says, or the stream as it was, whatever the stream begins with. |
| JsonParser.ParseValue | json/json.c:288-334 | Terminates on the unread length; a value and what is behind it exactly as the pure definition says, else the stream and all saves are what they were; with the rest of the stream within reach, in memory or on a device that does not fail, a value is found exactly when there is one. |
| JsonParser.FromStr | json/json.c:647-666 | A string is converted exactly when it is one value with nothing but white space behind it. |
| HttpLength.ContentLengthParse | http/http_request.c:154-183 | Accepted are exactly the values that are decimal digits between spaces and tabs and whose number fits a word; the result is that number. |
| HttpLength.ParseDigits | http/http_request.c:173-180 | The overflow test refuses a number exactly when it does not fit. |
| HttpLength.PaddedWrittenSays | http/http_request.c:154-183 | Every length can be said: its decimal form with leading zeros and white space around it is that length. |
| HttpLength.SaysOnce | http/http_request.c:154-183 | A field value says at most one length. |
| HttpLength.BodyLength | http/http_request.c:337-388 | The header loop settles on a length exactly when there is no Transfer-Encoding and one length within the maximum agrees with every Content-Length field. |
| HttpLength.SettledOnce | http/http_request.c:337-388 | The fields of a request settle at most one length. |
| HttpBody.Body.constructor | http/http_request.c:71-89 | The body is the next Content-Length bytes of the connection, none of them taken yet. |
| HttpBody.Body.CallRefill | http/http_request.c:34-69 | The bytes taken from the connection are always Content-Length minus what remains; the stream of the body and of its saves is unchanged; on a connection that is not cut short it stops only at the end of the body or at a full window. |
| HttpBody.Body.Refill | libkc3/buf.c:1556-1594 | Refilling the body window keeps the framing, the stream and the saves, and terminates; on a connection that is not cut short the bytes asked for are there exactly when the body has them and the window has room behind the oldest save. |
| HttpBody.Body.Perform | http/http_request.c:417-642 | Whatever is read, saved or restored between the boundaries acts on the body as on a pure stream and keeps the framing; on a connection that is not cut short taking bytes fails exactly when they are not there or have no room behind the oldest save. |
| HttpBody.Body.Ignore | http/http_request.c:128-152 | On success exactly the requested number of body bytes is gone; on a connection that is not cut short it succeeds exactly when they are there and, with a save open, fit behind it. |
| HttpBody.Body.Drain | http/http_request.c:643-648 | On success nothing of the body remains on the connection; it succeeds exactly when all that is left can be ignored. |
| HttpBody.BodyRead | http/http_request.c:91-126 | The next bytes of the connection, exactly as many as asked for; in memory, and on a reliable device with no save open, it fails exactly when there are fewer. |
| HttpBody.MultipartBody | http/http_request.c:398-649 | Whatever the parts are, never more than Content-Length bytes are taken from the connection, and exactly that many on success; on a connection that is not cut short it succeeds exactly when the body is there, each operation finds its bytes with room in the window, and the rest can be ignored. |
| HttpBody.RequestBody | http/http_request.c:337-671 | After a successful parse the connection stands exactly Content-Length bytes behind the blank line, on every path, and a plain body is those bytes; on a connection that is not cut short, in memory or reliable, a plain request succeeds if and only if the fields settle a length of at most 67108864 that is not more than what is there, and a multipart one if and only if everything asked of its body can be done too. |
| Base64.LettersAreExact | libkc3/base64.c:21-37 | The decoder knows exactly the letters of the alphabet, each with its own value, and not the padding. |
| Base64.UpperLetterIs | libkc3/base64.c:21-37 | The first 26 letters are A to Z. |
| Base64.LowerLetterIs | libkc3/base64.c:21-37 | The next 26 letters are a to z. |
| Base64.OtherLetterIs | libkc3/base64.c:21-37 | The last twelve letters are the digits, plus and slash. |
| Base64.PaddingIs | libkc3/base64.c:83-134 | The encoding ends in none, two or one equal signs as the size of the input leaves a remainder of 0, 1 or 2 by 3, and has no others. |
| Base64.FoobaIsWritten | libkc3/base64.c:83-134 | The test vector "fooba" of RFC 4648 is written as the standard says. |
| Base64.DecodedOfEncoded | libkc3/base64.c:39-134 | Decoding an encoding gives back every byte string. |
| Base64.Encode | libkc3/base64.c:83-134 | The loop writes the encoding of every input up to the size guard, and nothing beyond it. |
| Base64.Decode | libkc3/base64.c:39-81 | For every input the loop writes what the groups of four stand for, and the buffer it allocates is always large enough. |
| Base32.LettersAreExact | libkc3/kc3.c:91-92 | The alphabet is injective and does not hold the padding. |
| Base32.LetterIs | libkc3/kc3.c:91-92 | The letters are A to Z and 2 to 7. |
| Base32.PaddingIs | libkc3/base32.c:63-133 | The encoding ends in none, six, four, three or one equal signs as the size of the input leaves a remainder of 0 to 4 by 5, and has no others. |
| Base32.FoobaIsWritten | libkc3/base32.c:63-133 | The test vector "fooba" of RFC 4648 is written as the standard says. |
| Base32.OrAdds | libkc3/base32.c:42-51 | Joining bits that do not overlap is addition. |
| Base32.DecodedOfEncoded | libkc3/base32.c:21-133 | Decoding an encoding gives back every byte string. |
| Base32.Encode | libkc3/base32.c:63-133 | The loop writes the encoding and fills exactly the buffer it allocates. |
| Base32.Decode | libkc3/base32.c:21-61 | For every input the loop writes what the groups of eight stand for, and the buffer it allocates is always large enough. |
| Url.UnescapedOfEncoded | http/url.c:43-89 | Unescaping an encoded component gives back every byte string, and the size computed beforehand is its length. |
| Url.EncodedByteIs | http/url.c:43-89 | Letters, digits, hyphen, full stop, underscore and tilde stand for themselves; every other byte is a percent sign and two upper-case digits. |
| Url.SpecialsAre | http/url.c:201-258 | A plus is read as a space and a percent sign with two digits of either case as their byte; with fewer digits the percent sign is put out, and a single digit in lower case. |
| Url.SizeIsExactIffShortest | http/url.c:201-294 | The size computed beforehand is never too small, and it is the number of bytes written if and only if no round of the loop begins with an overlong character other than a percent sign. |
| Url.WellFormedIsExact | http/url.c:201-294 | On well-formed UTF-8 unescaping always succeeds and the size is exact. |
| Url.OverlongIsCountedTwice | http/url.c:201-294 | An overlong letter A: one byte is written, two are counted. |
| Url.OverlongPlusIsCountedTwice | http/url.c:201-294 | An overlong plus sign: one space is written, two bytes are counted. |
| Url.OverlongPercentIsExact | http/url.c:201-294 | An overlong percent sign in front of no digit is put out and counted as one byte. |
| Url.EncodeComponent | http/url.c:43-89 | The loop writes the encoding and fills exactly the buffer of the size counted first. |
| Url.UnescapeSize | http/url.c:260-294 | The loop counts what the pure definition counts. |
| Url.Unescape | http/url.c:201-258 | The string is the bytes written, filled up with zeros to the size computed beforehand; there is none exactly when a character cannot be written. |
| Arrays.Init | libkc3/array.c:171-221 | A layout is made exactly when every partial product of element size and dimensions fits a word, and then it holds the row-major strides. |
| Arrays.CheckIsExact | libkc3/array.c:203-206 | The tests by division refuse a dimension exactly when the size would not fit. |
| Arrays.Data | libkc3/array.c:85-111 | Exactly the addresses in range get an offset; no sum wraps, the offset is the row-major rank in elements, and the cell lies inside the data. |
| Arrays.RankIsRowMajor | libkc3/array.c:85-111 | Ranks compare as addresses do in row-major order. |
| Arrays.AddressOfRank | libkc3/array.c:85-111 | The address at the rank of an address is that address, so different addresses have different ranks. |
| Arrays.CellsAreDisjoint | libkc3/array.c:85-111 | Different addresses have cells that do not overlap. |
| Arrays.WalkIsRowMajor | libkc3/array.c:302-312 | The linear walk stands at every address exactly once, in row-major order. |
| Arrays.InitCopy | libkc3/array.c:302-312 | Every cell of the copy is the copy of the cell of the source at the same address. |

## Left out

- GitLog.Log: expects a graph whose layers are sorted, have a true fanout and store the commits of the repository; what a lookup does in other files is in CommitGraph.
- The shortcuts of `kc3_git_log` for a literal commit id and for one commit, revision parsing and revision walking: libgit2 does them, and the walk is a parameter here.
- Limits on the number of parents in `kc3_git_log`: no caller can set them, so those branches are dead; what `log_push_commit` copies out of a commit is not modelled.
- A path with a zero byte, and counters of printed commits beyond 31 bits.
- The bits of murmur3: the proofs hold for any two hash functions.
- GraphFormat.WriteThenLoad: the writer stands for whatever program wrote the file; kc3 only reads commit-graphs, and the generation and date of a commit are eight bytes nobody looks at.
- OdbProtocol.RunsAreSafe: lets the locking, opening and freeing calls succeed or refuse as the source allows, but does not model what libgit2 does inside them.
- Failure of allocation, of the clock and of the locks inside a buffer; each buffer call is one step.
- Saves live in stack frames linked by pointers in C; here the chain is a sequence in the buffer.
- Buffer.Buf.FdFlush: a send of nothing and the retry after waiting change nothing and are left out.
- The line and column counters of pretty printing.
- The kqueue branches and the destruction of a whole poller without the lock: that state lives in the kernel.
- EventPoll.Poll.Add: epoll_ctl is one bit, accepted or refused, and its error messages are dropped.
- Seconds and nanoseconds are unbounded; only the conversion to 32-bit milliseconds wraps.
- JSON numbers: the number lexer is a parameter that gives the length of the token at the front of a stream; the value of the number is not modelled.
- JSON objects keep their members in the order they are written; sorting by key and what happens to repeated keys belong to the map and are not part of this model.
- JsonParser.ParseValue: when the rest of the stream is not within reach (a device that fails in the middle, or a window without room for all that is still to come) nothing says that a value is found, only that what is found is right, up to the look-ahead behind `null`, and that otherwise the stream is what it was.
- JSON printing by kc3: a printer of the concrete syntax stands in for it.
- Parsing of the request line, of header names, of multipart headers and uploads: the fields come classified, and what is done between multipart boundaries is any sequence of buffer operations.
- HttpBody.Body.Perform: takes an arbitrary operation instead of the multipart code, so nothing is said about the parts that are returned.
- HttpBody.MultipartBody: says which bytes are taken from the connection and when it succeeds; the parts are not described.
- HttpBody.RequestBody: on a device that fails, or with a save open on the connection, only what success means is stated; which failures happen is the device's choice.
- `url_escape`, `url_escape_size` and form decoding: table-driven variants of what is modelled.
- Arrays with tags instead of data, and elements whose copy fails half-way.
- `ekc3`, `gl`, `gtk4`, `image`, `event`, `ikc3` and `httpd`: evaluators, graphics and foreign bindings.
