# LevelDB's in-memory and write-ahead layers, in Dafny

The repository re-implements the parts of LevelDB that sit between a client's write and the first table file:
the write batch, the write-ahead log, the memtable over a lock-free skip list, the block cache, and the pieces
they rest on (encodings, checksums, comparators, arena, buffered file, filter, background queue).  This project
models them and proves what they promise.

| files | what they model |
|---|---|
| `Crc32c.dfy`, `Crc32cValues.dfy` | CRC-32C by four interleaved strides; entries of its tables and checksums as numbers |
| `Coding.dfy` | fixed-width integers, varints, length-prefixed slices |
| `LogFormat.dfy`, `LogWriter.dfy`, `LogReader.dfy`, `LogRecovery.dfy`, `LogSeek.dfy`, `LogMixed.dfy`, `LogReopen.dfy` | the log: format, writer, reader, crashes, initial offsets, foreign records, logs continued after a crash |
| `WriteBatch.dfy` | batches of operations as bytes |
| `Towers.dfy`, `SkipList.dfy`, `SkipListReaders.dfy`, `SkipListScan.dfy`, `SkipListWriter.dfy` | the skip list as a linked structure, and as a step system with concurrent readers and iterators |
| `Comparator.dfy`, `DbFormat.dfy` | byte order, separators and successors, internal keys |
| `MemTable.dfy`, `MemTableRuns.dfy` | the memtable, and batches inserted and read at a snapshot |
| `HandleTable.dfy`, `LruCache.dfy` | the cache's hash table, lists and reference counts, in place |
| `CacheModel.dfy`, `CacheOps.dfy`, `CachePolicy.dfy`, `ShardedCache.dfy` | the cache as a value, its operations, its policy over runs, its sixteen shards |
| `WritableFile.dfy`, `BackgroundQueue.dfy` | the buffered file and the background thread |
| `Arena.dfy`, `BloomFilter.dfy` | the allocator and the filter |
| `Bytes.dfy`, `Arithmetic.dfy` | shared definitions |

Code that changes things step by step is a class or a method with loops, tied by its contract to a function on
values; the theorems are about those functions and about runs of them.  The concurrent reader of the skip list
and the background thread are state machines over atomic steps.

Some predicates end in `== true`: the equality keeps a caller's proof obligation in one piece, and changes
nothing about the meaning.

## What came out differently than the interfaces suggest

- `Slice::compare` answers 1 for equal slices (src/data_structure/slice.h:56-62).  Searches use only "less than",
  which it gets right (`Comparator.CompareIsBefore`).  `MemTable::Get` compares user keys with `== 0`, so with a
  comparator that orders keys its answer is right exactly for the keys that compare equal to themselves and those
  without a visible write (`MemTable.MemTable.Get`, `MemTableRuns.WriteThenRead`).  With the bytewise comparator,
  the only one in the repository, that is no key that was written: a Put is lost (`MemTableRuns.BytewiseLosesPut`).
  Under that comparator the versions of a user key are not ordered either; the list stays sorted, no more than
  that, and `Prev` goes past them (`SkipList.SkipList.Insert`, `SkipList.Iterator.Prev`).
- A cache in which nothing is held can hold more than its capacity: releasing a handle evicts nothing
  (`CachePolicy.NothingHeldYetOverCapacity`, `ShardedCache.NothingHeldYetOverTotal`).  The charge stays within
  the capacity exactly if every insertion finds room beside what clients hold
  (`CachePolicy.WithinCapacityIffFits`); for the sum over the shards the exact condition counts what the other
  shards leave (`ShardedCache.TotalWithinIffFits`).
- A log header with type byte 5 reads as the end of the file, and one with type byte 6 as a bad record whose bytes
  no report mentions, because these are the reader's own codes (`LogMixed.CodesCollide`,
  `LogMixed.OneForeignRecord`).
- A writer that reopens a log after a crash goes on at its length, t.  That the reader then returns exactly the
  complete old records and all new ones holds if and only if t lies between two fragments, or in the last six bytes
  of a block and not in the payload of the torn record's last fragment (`LogReopen.ReopenExactly`).  There the new
  writer's trailer completes what was torn with zeros (`LogReopen.ReopenInTrailer`); after a crash in the payload of
  a last fragment the reader completes the torn record with the new bytes (`LogReopen.TornPayloadSwallows`).
- A failed flush drops the buffer (`WritableFile.LossAfterFailure`).
- A task that calls `Schedule` blocks the background thread for good, because tasks run while the queue's mutex is
  held (`BackgroundQueue.StuckExactly`).
- The bytewise separator compares a signed char with a byte, so its scan stops at the first byte of 0x80 or more;
  what it returns is still a separator, but it finds fewer (`Comparator.FindShortestSeparator`).

## Model

| member | source | states |
|---|---|---|
| `SkipList.SkipList.Insert` | src/data_structure/skip_list.h:104-120 | For any key that Insert's own assertion lets through, also one that is not ordered with others: the linked structure is valid again and its keys are the old sorted sequence with the key put in at its rank; the new tower has the drawn height. |
| `SkipList.SkipList.FindGreaterOrEqual` | src/data_structure/skip_list.h:159-178 | Returns the first node not less than the key and, on every level in use, the last node before it. |
| `SkipList.SkipList.FindLessThan` | src/data_structure/skip_list.h:180-197 | Returns the last node whose key is less than the target, the head if there is none. |
| `SkipList.SkipList.FindLast` | src/data_structure/skip_list.h:199-215 | Returns the last node, the head if the list is empty. |
| `SkipList.SkipList.Contains` | src/data_structure/skip_list.h:122-128 | True exactly if the first key not less than the target compares equal to it; if all keys are ordered with one another, or the comparator returns 0 for all it does not order, exactly if any key of the list does. |
| `SkipList.Iterator.Key` | src/data_structure/skip_list.h:229-232 | The key of the position the iterator is on. |
| `SkipList.Iterator.Next` | src/data_structure/skip_list.h:234-237 | Moves from position i to i + 1 of the sorted sequence. |
| `SkipList.Iterator.Prev` | src/data_structure/skip_list.h:239-245 | Moves to the last key less than the current one, and off the list if there is none; if all keys are ordered with one another, that is from position i to i - 1. |
| `SkipList.Iterator.Seek` | src/data_structure/skip_list.h:247-249 | Lands on the first key not less than the target. |
| `SkipList.Iterator.SeekToFirst` | src/data_structure/skip_list.h:251-253 | Lands on position 0. |
| `SkipList.Iterator.SeekToLast` | src/data_structure/skip_list.h:255-260 | Lands on the last position; an empty list leaves the iterator invalid. |
| `SkipList.InsertKeepsSorted` | src/data_structure/skip_list.h:104-120 | Inserting any key at its rank keeps the key sequence sorted: no key after one that it is less than, for any strict weak order. |
| `SkipList.InsertKeepsStrict` | src/data_structure/skip_list.h:104-120 | If the key is comparable with all others, strictly sorted. |
| `SkipList.InsertAll` | src/data_structure/skip_list.h:104-120 | Any keys of which none compares equal to an earlier one, inserted in any order with any heights from 1 to 12, give a list that holds exactly them, sorted; strictly, if any two are ordered. |
| `SkipList.LevelsNest` | src/data_structure/skip_list.h:116-119 | Every level is a subsequence of the level below. |
| `SkipList.LevelsSorted` | src/data_structure/skip_list.h:116-119 | Every level of a sorted list is sorted, of a strictly sorted one strictly, and holds only keys of the list. |
| `SkipList.LowestLevel` | src/data_structure/skip_list.h:116-119 | Level 0 holds every key. |
| `SkipList.LevelKeys` | src/data_structure/skip_list.h:62-88 | Following the next pointers of a level from a tower visits exactly the keys of the level that stand after it, in order. |
| `SkipList.WholeLevel` | src/data_structure/skip_list.h:62-88 | From the head these are all keys whose towers reach the level. |
| `SkipListReaders.StepKeeps` | src/data_structure/skip_list.h:104-178 | Each atomic step of the writer (height bump, one pointer copy or store) and of any reader keeps the concurrent invariant, and no linked node is ever unlinked. |
| `SkipListReaders.RunKeeps` | src/data_structure/skip_list.h:104-178 | So does every interleaving of one writer with any number of readers. |
| `SkipListReaders.NoUnwrittenRead` | src/data_structure/skip_list.h:108-118 | In no run is a next pointer read that has not been written, although the height is raised before any node is linked. |
| `SkipListReaders.LastLoad` | src/data_structure/skip_list.h:159-178 | A lock-free search returns what an atomic search of the linked nodes would return at the moment of its last load. |
| `SkipListReaders.ReaderSkipsNothing` | src/data_structure/skip_list.h:159-178 | For every run: a search returns null or a linked node not less than its target, and skips no such node that was linked before the search began. |
| `SkipListScan.ScanMissesNothing` | src/data_structure/skip_list.h:234-253 | For every run of the writer and other readers interleaved with SeekToFirst and Next: the iterator never reads an unwritten slot, the nodes it stands on are linked, each once and in key order, and at the end none is missing that was linked when it began. |
| `SkipListScan.SeekMissesNothing` | src/data_structure/skip_list.h:234-249 | The same for Seek and then Next: the iterator stands on linked nodes not less than the target, each once and in key order, and at the end none of these is missing that was linked when Seek began, or at any moment before its last load. |
| `SkipListScan.ScanKeeps` | src/data_structure/skip_list.h:234-253 | What any such run keeps: the nodes seen so far are in list order, and of those linked at the beginning all up to the iterator are among them. |
| `SkipListWriter.InsertsRefine` | src/data_structure/skip_list.h:104-120 | For every run of the writer with any readers: when no insertion is under way, the linked nodes hold, in list order, exactly the keys that were inserted, as inserted one after the other at their ranks. |
| `SkipListWriter.InsertEnds` | src/data_structure/skip_list.h:104-178 | From any state of any run the insertion under way is completed by a number of the writer's own steps. |
| `SkipListWriter.StepHolds` | src/data_structure/skip_list.h:104-120 | Each step of a run keeps the keys of all nodes equal to those inserted one after the other; only the allocation of a node adds one. |
| `HandleTable.MaskIsModulo` | src/cache/cache.cpp:101 | For a power of two, masking with length - 1 is taking the remainder. |
| `HandleTable.Table.FindPointer` | src/cache/cache.cpp:100-106 | Finds the bucket, hash modulo the length, the entry with the key and hash and its predecessor; null exactly if the table has no such entry. |
| `HandleTable.Table.Lookup` | src/cache/cache.cpp:65-67 | Returns the entry with the key and hash, or null exactly if there is none. |
| `HandleTable.Table.Insert` | src/cache/cache.cpp:69-81 | The entry replaces the one with its key and hash or is added; the table stays valid: buckets are right, the length is a power of two, elems is the number of entries and at most the length; it grows exactly when there are more entries than buckets, to the least power of two from 4 on that suffices. |
| `HandleTable.Table.Remove` | src/cache/cache.cpp:83-91 | Unlinks exactly the entry with the key and hash. |
| `HandleTable.Table.Resize` | src/cache/cache.cpp:108-132 | Keeps exactly the same entries in a new power-of-two table that is long enough. |
| `HandleTable.MoveAll` | src/cache/cache.cpp:115-128 | The nested loops move every entry to its new bucket once; count is the number of entries. |
| `HandleTable.NewLength` | src/cache/cache.cpp:109-112 | The new length is the least power of two that is at least 4 and at least the number of entries. |
| `HandleTable.TableRefinesMap` | src/cache/cache.cpp:65-91 | What Insert and Remove do to the entries is update and removal of one key of a finite map. |
| `LruCache.Unlink` | src/cache/cache.cpp:241-244 | Takes one node out of a circular doubly linked list. |
| `LruCache.Append` | src/cache/cache.cpp:246-252 | Adds a node at the newest end of a circular doubly linked list. |
| `LruCache.LRUCache.Ref` | src/cache/cache.cpp:254-260 | Counts a reference and moves an entry of the lru list to the end of the in-use list. |
| `LruCache.LRUCache.Unref` | src/cache/cache.cpp:262-274 | Drops a reference; at 0 the deleter is called, at 1 a cached entry moves to the newest end of the lru list. |
| `LruCache.LRUCache.FinishErase` | src/cache/cache.cpp:276-284 | The entry leaves its list and the charge, and is deleted if no client holds it. |
| `LruCache.LRUCache.Insert` | src/cache/cache.cpp:191-211 | The linked lists, table, counts and charge afterwards represent the specified next state, including replacement, eviction and capacity 0. |
| `LruCache.LRUCache.Lookup` | src/cache/cache.cpp:213-220 | Returns the entry with the key and hash, now held, or null if there is none; the rest is as specified. |
| `LruCache.LRUCache.Release` | src/cache/cache.cpp:222-225 | The represented state becomes that with one reference less. |
| `LruCache.LRUCache.Erase` | src/cache/cache.cpp:227-230 | The represented state becomes that without the entry of the key. |
| `LruCache.LRUCache.Prune` | src/cache/cache.cpp:232-239 | The represented state becomes that with an empty lru list. |
| `LruCache.LRUCache.Destroy` | src/cache/cache.cpp:179-189 | When no cached entry is held, the destructor deletes the whole lru list in order. |
| `CacheModel.AllDeletedOnce` | src/cache/cache.cpp:179-189 | Once clients have released everything, the entries deleted so far and those the destructor deletes are exactly those ever inserted, each once. |
| `LruCache.LRUCache.EvictToCapacity` | src/cache/cache.cpp:205-209 | The eviction loop ends in the specified state. |
| `CacheModel.StepKeeps` | src/cache/cache.cpp:191-284 | Every operation keeps: one entry per key, each on at most one list, lru entries not held, in-use entries held, deleted entries neither cached nor held and deleted once; and every entry ever made is still accounted for. |
| `CacheModel.RunKeeps` | src/cache/cache.cpp:191-284 | After any run the invariant holds and the entries cached, held or deleted are exactly those ever inserted. |
| `CacheModel.CountsDecide` | src/cache/cache.cpp:254-284 | In every reachable state an entry is on lru exactly if cached with count 1, on in-use exactly if cached with count at least 2, and deleted, once, exactly if its count is 0. |
| `CacheModel.EvictsShortestPrefix` | src/cache/cache.cpp:205-209 | Insert evicts exactly the shortest oldest-first prefix of the lru list that brings the charge down to the capacity, or all of it; held entries stay. |
| `CacheModel.ClearsAll` | src/cache/cache.cpp:232-239 | Prune deletes the whole lru list, oldest first, and nothing else. |
| `CacheOps.LookupMeans` | src/cache/cache.cpp:213-220 | Lookup returns the entry with the key, or null if there is none and then changes nothing; a hit is held once more, is in use, and leaves the lru list, whose other entries keep their order. |
| `CacheOps.ReleaseMeans` | src/cache/cache.cpp:222-225 | Release drops one reference; with the last one a cached entry becomes the newest of the lru list, and any other is deleted. |
| `CacheOps.EraseMeans` | src/cache/cache.cpp:227-230 | Erase takes exactly the entry with the key out of its list; it is deleted at once exactly if nobody holds it. |
| `CacheOps.InsertMeans` | src/cache/cache.cpp:191-211 | Insert: the new entry is held once; with a capacity it takes the place of the entry with its key, and then exactly the shortest oldest-first prefix of the other lru entries that suffices, or all, is deleted; without a capacity nothing else changes. |
| `CachePolicy.LruIsByRecency` | src/cache/cache.cpp:262-274 | In every reachable state the lru list is in the order in which its entries last became unreferenced. |
| `CachePolicy.InsertWithinCapacity` | src/cache/cache.cpp:191-211 | After an insertion the charge is within the capacity if and only if what clients hold, without the replaced entry and with the new one, is. |
| `CachePolicy.OthersDoNotRaise` | src/cache/cache.cpp:213-239 | No other operation raises the charge. |
| `CachePolicy.WithinCapacityIffFits` | src/cache/cache.cpp:191-239 | Over a whole run the charge never exceeds the capacity if and only if every insertion finds room beside what clients hold. |
| `CachePolicy.InsertCharge` | src/cache/cache.cpp:191-211 | The charge after an insertion, from what is known before it: what clients hold and the newest other entries that find room beside it; of an insertion that does not fit, what clients hold alone. |
| `CachePolicy.NothingHeldYetOverCapacity` | src/cache/cache.cpp:222-225 | A concrete run after which nothing is held and the charge still exceeds the capacity: releasing evicts nothing. |
| `ShardedCache.PerShard` | src/cache/cache.cpp:293-296 | The capacity of a shard is a sixteenth rounded up: sixteen of them are at least the capacity and exceed it by less than 16. |
| `ShardedCache.ShardIsSixteenth` | src/cache/cache.cpp:353-355 | A 32-bit hash names shard i exactly if it lies in the i-th sixteenth of the 32-bit numbers, and each of the sixteen shards has hashes. |
| `ShardedCache.OneSteps` | src/cache/cache.cpp:300-323 | An operation steps the shard of its hash's sixteenth and leaves the other fifteen as they are. |
| `ShardedCache.ShardsAreIndependent` | src/cache/cache.cpp:300-334 | Each shard behaves as one cache given the operations routed to it. |
| `ShardedCache.TotalWithinCapacity` | src/cache/cache.cpp:293-297 | If every insertion finds room in its shard beside what clients hold there, the total charge stays within sixteen times the shard capacity. |
| `ShardedCache.TotalWithinIffFits` | src/cache/cache.cpp:293-342 | Over a whole run and for any bound: the total charge never exceeds the bound if and only if before every insertion the other shards leave room for what the insertion's shard will count. |
| `ShardedCache.InsertTotal` | src/cache/cache.cpp:300-304 | After an insertion the total is that of the other shards plus what clients will hold in its shard and the newest entries that find room beside it; if it does not fit, plus what clients will hold alone. |
| `ShardedCache.FirstMisfit` | src/cache/cache.cpp:293-304 | Up to the first insertion that does not fit in its shard the total stays within sixteen times the shard capacity; after it, the total is that of the other shards plus what clients hold in that one. |
| `ShardedCache.NoRoomYetWithinTotal` | src/cache/cache.cpp:300-304 | An insertion that does not fit in its shard and leaves the total within the bound. |
| `ShardedCache.NothingHeldYetOverTotal` | src/cache/cache.cpp:311-314 | The bound fails without that condition: a run with nothing held and a total above sixteen times the shard capacity. |
| `ShardedCache.ShardedLRUCache.Insert` | src/cache/cache.cpp:300-304 | Inserts into the shard in whose sixteenth the key's hash lies, as specified, and changes no other. |
| `ShardedCache.ShardedLRUCache.Lookup` | src/cache/cache.cpp:306-309 | Returns the entry with the key and hash in the shard in whose sixteenth the hash lies, or null; changes that shard as specified and no other. |
| `ShardedCache.ShardedLRUCache.Release` | src/cache/cache.cpp:311-314 | Gives a handle back to the shard in whose sixteenth its hash lies, and changes no other. |
| `ShardedCache.ShardedLRUCache.Erase` | src/cache/cache.cpp:320-323 | Erases in the shard in whose sixteenth the key's hash lies, and changes no other. |
| `ShardedCache.ShardedLRUCache.Prune` | src/cache/cache.cpp:330-334 | Prunes every shard. |
| `ShardedCache.ShardedLRUCache.TotalCharge` | src/cache/cache.cpp:336-342 | The sum of the sixteen shards' charges. |
| `ShardedCache.ShardedLRUCache.NewId` | src/cache/cache.cpp:325-328 | Identifiers count up by one. |
| `Crc32c.Extend` | src/util/crc32c.cpp:266-348 | For every byte string, initial value and address, the four-stride table-driven result is the bit-serial CRC-32C (polynomial of section 12.1 of RFC 3720). |
| `Crc32c.ExtendComposes` | src/util/crc32c.h:7-10 | The CRC of a concatenation is the CRC of the second part started from that of the first. |
| `Crc32c.Strides` | src/util/crc32c.cpp:311-338 | The four partial states, however many swaths and words are read, combine to the byte-serial register; fewer than four bytes are left. |
| `Crc32c.StepBytes` | src/util/crc32c.cpp:304-310 | Byte-at-a-time steps extend the register by the bytes read (prologue and tail). |
| `Crc32c.Step1Correct` | src/util/crc32c.cpp:276-280 | One table step is eight steps of the bit-serial register. |
| `Crc32c.Step4Correct` | src/util/crc32c.cpp:282-285 | One stride step xors in a word and advances the old state over 128 zero bits. |
| `Crc32c.Step4WCorrect` | src/util/crc32c.cpp:296-303 | Consuming a loaded word is 32 zero-bit steps of the xored register. |
| `Crc32c.AdvanceWord` | src/util/crc32c.cpp:323-331 | Advancing one word and rotating the four states feeds that word to the combined register. |
| `Crc32c.AdvanceSwath` | src/util/crc32c.cpp:319-321 | A 16-byte swath feeds its four words in order. |
| `Crc32c.ZeroBitsLinear` | src/util/crc32c.cpp:10-233 | The zero-bit step behind every table is linear over xor. |
| `Crc32cValues.TestCrcBuffer` | src/util/crc32c.cpp:258-263 | The checksum of "TestCRCBuffer" is 0xDCBC59FA, the value that the source names. |
| `Crc32cValues.ZeroesCrc` | src/util/crc32c.cpp:266-348 | The checksum of 32 zero bytes is 0x8A9136AA, as section B.4 of RFC 3720 says. |
| `Crc32cValues.ByteTableWords` | src/util/crc32c.cpp:10-53 | The entries of the byte table at the powers of two are the numbers in the source ... |
| `Crc32cValues.ByteTableLinear` | src/util/crc32c.cpp:10-53 | ... which decide all others, because the table is linear. |
| `LogWriter.Writer.AddRecord` | src/log_writer/log_writer.cpp:20-55 | Appends exactly the specified layout of the record: trailers, headers and fragments over 32 KiB blocks. |
| `LogWriter.Writer.AddFragment` | src/log_writer/log_writer.cpp:26-49 | One turn of the loop appends the next trailer, header and fragment. |
| `LogWriter.Writer.EmitPhysicalRecord` | src/log_writer/log_writer.cpp:56-80 | Appends a seven-byte header and the payload and advances the block offset. |
| `LogWriter.Writer.Reopen` | src/log_writer/log_writer.cpp:15-18 | A writer on an existing file continues in the right place of the block. |
| `LogWriter.WriteAll` | src/log_writer/log_writer.cpp:10-80 | Closing and reopening between any records leaves the file byte for byte the same. |
| `LogFormat.LogConcat` | src/log_writer/log_writer.cpp:20-55 | A log of a concatenated list is the first log followed by the second from its end on. |
| `LogFormat.LayoutStep` | src/log_writer/log_writer.cpp:23-54 | A record is laid out as its first fragment and, if that does not hold all of it, what follows for the rest; an empty fragment is followed by one in a fresh block. |
| `LogFormat.FragmentBytes` | src/log_writer/log_writer.cpp:23-67 | A fragment byte by byte: zeros where fewer than seven bytes are left in a block, four zeros, the length with the low byte first, type 1, 2, 3 or 4, and as much data as the block has room for. |
| `LogReader.Reader.ReadRecord` | src/log_reader/log_reader.cpp:16-109 | On any file bytes and in any state the method ends and computes the specified outcome: found, record, offsets, resynchronisation and reports. |
| `LogReader.Reader.ReadPhysicalRecord` | src/log_reader/log_reader.cpp:135-197 | On any bytes the loop ends with the specified type, fragment, state and reports. |
| `LogReader.Reader.DispatchRecord` | src/log_reader/log_reader.cpp:29-107 | One turn of the switch does what is specified for the record type. |
| `LogReader.Reader.SkipToInitialBlock` | src/log_reader/log_reader.cpp:115-133 | Positions the reader at the block of the initial offset, or at the next one if the offset lies in the last five bytes of its block. |
| `LogReader.Reader.ReportDrop` | src/log_reader/log_reader.cpp:203-207 | Reports a drop exactly if its place, in unsigned 64-bit numbers, is not before the initial offset. |
| `LogReader.ReadPhysical` | src/log_reader/log_reader.cpp:135-197 | Whatever the bytes, each physical record but the end consumes unread bytes and leaves the record offset and resynchronisation alone. |
| `LogReader.Assemble` | src/log_reader/log_reader.cpp:27-107 | A returned record consumes unread bytes, so reading a file ends. |
| `LogRecovery.RoundTrip` | src/log_reader/log_reader.cpp:16-197 | Reading what was written gives back exactly the records in order with their offsets, then false, and no report. |
| `LogRecovery.CrashRecovery` | src/log_reader/log_reader.cpp:135-176 | For every truncation point the reader returns exactly the records that lie wholly inside, then false, and reports nothing. |
| `LogRecovery.SomeComplete` | src/log_reader/log_reader.cpp:153-176 | Every truncation point determines how many records survive. |
| `LogRecovery.CrashAndRead` | src/log_writer/log_writer.cpp:20-80 | The same end to end, through the writer (with reopening), a crash and the reader. |
| `LogRecovery.ReadFile` | src/log_reader/log_reader.cpp:16-109 | Reading record by record to the first false yields what the specification yields. |
| `LogRecovery.EndIsFinal` | src/log_reader/log_reader.cpp:153-158 | After the end ReadRecord keeps returning false. |
| `LogRecovery.WholeRecord` | src/log_reader/log_reader.cpp:41-83 | A complete record is returned with the offset of its first header and without a report. |
| `LogRecovery.TornRecord` | src/log_reader/log_reader.cpp:84-89 | A record cut off by the end of the file is dropped without a report. |
| `LogMixed.CodesCollide` | src/log_reader/log_reader.h:30-33 | For any file, position and initial offset, a whole physical record reads as the end exactly if its type byte is 5, and as a bad record exactly if it is 6 or the header lies before the offset. |
| `LogMixed.ForeignRecord` | src/log_reader/log_reader.cpp:84-107 | Type 5 ends ReadRecord without a report; any other type that the writer never writes is skipped with the open fragment, and its bytes are reported unless the type is 6. |
| `LogMixed.OneForeignRecord` | src/log_reader/log_reader.cpp:84-107 | A whole file with one such record between two logs: after type 5 nothing is read, type 6 vanishes without a report, any other is reported with exactly its length; all other records are returned. |
| `LogMixed.TypeFiveReadsAsEnd` | src/log_reader/log_reader.h:30-33 | A log, a record of type 5 and any bytes: exactly the log is read, and nothing is reported. |
| `LogMixed.PhysicalRunsOver` | src/log_reader/log_reader.cpp:162-171 | For any file, position and offset: a header in a whole block whose length runs past the block is a bad record; the rest of the block is dropped from the header on, and reported exactly if the header is not before the offset. |
| `LogMixed.OneBadBlock` | src/log_reader/log_reader.cpp:162-181 | A log, any bytes to the end of the block, and another log: if the first header between them runs past the block, exactly the bytes from it to the block's end are reported, if it is of type zero and length zero, nothing is; both logs are returned whole. |
| `LogMixed.NoRecord` | src/log_reader/log_reader.cpp:92-100 | What ReadRecord does with either: it reports and gives up an open fragment and goes on in the next block. |
| `LogMixed.OneTornTail` | src/log_reader/log_reader.cpp:140-171 | A log and then bytes that end, in a block that is not whole, before a header or before what the header announces: exactly the log is read, and nothing is reported. |
| `LogReopen.ReopenExactly` | src/log_writer/log_writer.cpp:15-18 | For every log, every point t at which a crash cuts it short and every list of records that a writer reopened at t adds: the reader returns exactly the complete old records and all new ones if and only if nothing was added, no record was torn, t lies between two fragments, or t lies in the last six bytes of a block and not in the payload of the last fragment of the torn record. |
| `LogReopen.ReopenAfterCrash` | src/log_writer/log_writer.cpp:15-18 | After a crash between two fragments the reader returns exactly the complete old records and all new ones, and reports exactly the bytes of the torn record's fragments. |
| `LogReopen.ReopenInTrailer` | src/log_writer/log_writer.cpp:26-33 | After a crash in the last six bytes of a block it returns exactly the complete old records and all new ones and, if the crash fell in the payload of a record's last fragment, between them that record with zeros for the missing bytes. |
| `LogReopen.NothingAt` | src/log_reader/log_reader.cpp:135-197 | After any other crash nothing that is read begins where the new log does, whatever the bytes. |
| `LogReopen.AssembleOnward` | src/log_reader/log_reader.cpp:27-107 | On any bytes the reader never goes back: past a position it returns no record that begins there. |
| `LogReopen.CrashReopenAndRead` | src/log_writer/log_writer.cpp:15-55 | The same if and only if end to end, through the writer, the crash, the reopened writer and the reader; with the reports after a crash between two fragments. |
| `LogReopen.TornPayloadSwallows` | src/log_writer/log_writer.cpp:15-18 | After a crash anywhere in the payload of the last fragment of a record of any size the reader returns, after the complete records, the torn one with the first bytes of the new log in the place of the missing ones, if there are enough. |
| `LogSeek.ReadTruncatedFromOffset` | src/log_reader/log_reader.cpp:17-107 | A log cut short anywhere and read from any initial offset: exactly the complete records whose first header is at or after it, with that header's offset; reported are exactly the whole fragments at or after it of the record that began before, and none if the reader starts in a block that begins at the offset or later. |
| `LogSeek.CrashAndReadFrom` | src/log_reader/log_reader.cpp:17-107 | The same end to end, through the writer (with reopening), a crash and the reader. |
| `LogSeek.ReadFromOffset` | src/log_reader/log_reader.cpp:17-40 | The same for a whole log. |
| `LogSeek.SkipRecord` | src/log_reader/log_reader.cpp:30-83 | A record that starts before the initial offset, or what is left of one, changes nothing in what is returned; its later fragments are reported exactly if the reader is not resynchronising. |
| `Coding.EncodeVarint32` | src/util/coding.cpp:60-84 | The unrolled branches write the base-128 form, in at most five bytes. |
| `Coding.GetVarint32Ptr` | src/util/coding.cpp:86-101 | The loop reads the first varint of the input, or fails if it does not end within five bytes. |
| `Coding.VarintRoundTrip` | src/util/coding.cpp:60-101 | A varint reads back as the number and its length, whatever follows. |
| `Coding.TornVarint` | src/util/coding.cpp:86-101 | No strict prefix of a varint is one. |
| `Coding.VarintBytes` | src/util/coding.cpp:60-84 | Byte i holds seven bits from place 7i on, only the last byte is below 128, and there are no more bytes than needed. |
| `Coding.GetVarintIs` | src/util/coding.cpp:86-101 | On any bytes: the number ends with the first of five bytes below 128 and is cut to 32 bits; it fails if there is none. |
| `Coding.VarintLength` | src/util/coding.cpp:120-128 | The length is that of the encoding. |
| `Coding.FixedRoundTrip` | src/util/coding.h:26-49 | Fixed-width little-endian numbers read back modulo the width. |
| `Coding.FixedBytes` | src/util/coding.h:26-49 | Byte i of a fixed-width number counts 256^i. |
| `Coding.LengthPrefixedRoundTrip` | src/util/coding.cpp:23-58 | A length-prefixed slice reads back with what follows it if and only if its length fits 32 bits. |
| `Coding.TornLengthPrefixed` | src/util/coding.cpp:50-58 | No strict prefix of a length-prefixed slice is one. |
| `WriteBatch.WriteBatch.constructor` | src/write_batch/write_batch.cpp:9-11 | A new batch holds no operations. |
| `WriteBatch.WriteBatch.Put` | src/write_batch/write_batch.cpp:13-18 | The bytes then stand for the operations with one put added; the sequence number is untouched. |
| `WriteBatch.WriteBatch.Delete` | src/write_batch/write_batch.cpp:20-24 | The same for a deletion. |
| `WriteBatch.WriteBatch.Append` | src/write_batch/write_batch.cpp:125-129 | The operation lists are concatenated and the counts added, also when a batch is appended to itself. |
| `WriteBatch.WriteBatch.Iterate` | src/write_batch/write_batch.cpp:39-77 | Delivers the specified operations and error on any bytes. |
| `WriteBatch.IterateReplays` | src/write_batch/write_batch.cpp:39-77 | Iterating over a batch replays exactly the operations it was given. |
| `WriteBatch.TornBatch` | src/write_batch/write_batch.cpp:39-77 | Every strict prefix of a batch is found corrupt after exactly the operations that are whole: by the count if it ends between two records, as a bad put or deletion if it ends within one, as too small below the header. |
| `WriteBatch.UnknownTagEnds` | src/write_batch/write_batch.cpp:68-71 | A tag that is neither 0 nor 1 ends the iteration with its error after exactly the operations before it, whatever the count and whatever follows. |
| `WriteBatch.CountDecides` | src/write_batch/write_batch.cpp:73-81 | All operations are delivered, and the batch is in order exactly if the stored count, as a signed 32-bit number, is theirs. |
| `WriteBatch.OpsRoundTrip` | src/write_batch/write_batch.cpp:44-72 | Parsing encoded operations gives them back. |
| `Comparator.CompareIsBefore` | src/data_structure/slice.h:53-64 | Slice::compare is negative exactly for the lexicographically smaller slice, and never 0, even for equal slices. |
| `Comparator.BeforeIs` | src/data_structure/slice.h:53-64 | One string comes before another exactly if it is a strict prefix of it or has the smaller byte at the first difference. |
| `Comparator.BothOrderBytes` | src/comparator/comparator.cpp:15-17 | The bytewise comparator, and one that also reports equality, order byte strings as separators and successors need. |
| `Comparator.FindShortestSeparator` | src/comparator/comparator.cpp:19-35 | A changed result lies strictly between start and limit and is not longer; it is changed exactly if the strings agree on bytes below 0x80 up to a byte that can be raised. |
| `Comparator.FindShortSuccessor` | src/comparator/comparator.cpp:37-48 | A changed result comes after the key and no shorter string does; it is unchanged only for a key of 0xFF bytes. |
| `DbFormat.InternalKeyParts` | src/db_format/db_format.cpp:8-12 | An internal key gives back its user key, sequence number and type, for sequence numbers up to 2^56 - 1. |
| `DbFormat.InternalKeyBytes` | src/db_format/db_format.cpp:8-12 | The user key, then 256 times the sequence number plus the type in eight bytes, the least significant first. |
| `DbFormat.FindShortestSeparator` | src/db_format/db_format.cpp:52-63 | A changed result lies strictly between the keys in internal order and is strictly shorter; exactly when it is changed, and then its user key, its sequence number 2^56 - 1 and its type 1. |
| `DbFormat.FindShortSuccessor` | src/db_format/db_format.cpp:64-73 | A changed result comes after the key in internal order and is strictly shorter; exactly when it is changed, and then its user key, its sequence number 2^56 - 1 and its type 1. |
| `MemTable.EntryParts` | src/data_structure/mem_table.cpp:77-98 | An entry gives back the internal key and the value. |
| `MemTable.BufferIsEntry` | src/data_structure/mem_table.cpp:77-98 | The entry byte by byte: length and user key, tag with type 1 for a put and 0 for a deletion, length and value. |
| `MemTable.LookupParts` | src/db_format/db_format.cpp:75-92 | A lookup key starts with the internal key for the sequence number and the greatest type. |
| `MemTable.LessIsBefore` | src/data_structure/mem_table.cpp:138-142 | With a comparator that orders keys, entries are ordered by increasing user key and, for a user key that compares equal to itself, by decreasing tag; no two compare equal. |
| `MemTable.OrderedEntries` | src/data_structure/mem_table.cpp:138-142 | With any user comparator that orders keys that is a strict weak order, as the skip list needs. |
| `MemTable.BytewiseOrders` | src/data_structure/slice.h:53-64 | The bytewise comparator orders keys and returns 0 for none. |
| `MemTable.MemTable.Add` | src/data_structure/mem_table.cpp:77-98 | Fills the buffer with the entry and inserts it: the table then stores one write more, whatever it held and whatever the comparator. |
| `MemTable.MemTable.Get` | src/data_structure/mem_table.cpp:100-136 | With a comparator that orders keys, the answer is right (the newest write to the key that the snapshot sees, a deletion as NotFound, false if there is none) if and only if the key compares equal to itself or has no visible write; so always with a lawful comparator, and never for a visible write with one that never returns 0, where it is false. |
| `MemTable.SeekAnswers` | src/data_structure/mem_table.cpp:100-118 | For a key that compares equal to itself, the entry that Seek finds is of the key exactly if the snapshot sees a write to the key, and is then the newest one. |
| `MemTable.GetFromIsRight` | src/data_structure/mem_table.cpp:100-136 | The same if and only if for any sorted sequence of entries that stores the writes. |
| `MemTable.MemTableIterator.Seek` | src/data_structure/mem_table.cpp:48-50 | Lands on the first entry not before the internal key. |
| `MemTable.MemTableIterator.KeyValue` | src/data_structure/mem_table.cpp:57-63 | Returns the internal key and value of the write whose entry the iterator is on. |
| `MemTableRuns.GetRefinesReplay` | src/data_structure/mem_table.cpp:100-136 | With increasing sequence numbers an answer is right if and only if it is what replaying all operations up to the snapshot on a map leaves for the key. |
| `MemTableRuns.ReplayAnswers` | src/data_structure/mem_table.cpp:100-136 | The replay on a map answers with the newest visible write. |
| `MemTableRuns.InsertInto` | src/write_batch/write_batch.cpp:101-123 | For any comparator of the table: inserts the operations of the batch up to the first bad record, numbered from the batch's sequence number, and returns the batch's status. |
| `MemTableRuns.WriteThenRead` | src/write_batch/write_batch.cpp:39-123 | End to end: batches built by Put and Delete, stamped, inserted and read at a snapshot give the answer of the replay if and only if the key compares equal to itself or the replay leaves nothing for it. |
| `MemTableRuns.BytewiseFindsNothing` | src/data_structure/slice.h:56-62 | The bytewise comparator orders keys and entries but is not lawful, and what Get makes with it of any list of entries is false. |
| `MemTableRuns.BytewiseLosesPut` | src/data_structure/mem_table.cpp:77-136 | With the bytewise comparator one Put of any key and value is lost: the replay finds the value, Get answers false. |
| `WritableFile.PosixWritableFile.Append` | src/env/env_posix.cpp:221-245 | For every way write() may answer: what fits the buffer is only copied; otherwise, on success, the full buffer and what follows it are on disk in order, and the rest is buffered if it fits; on failure the disk holds a prefix. |
| `WritableFile.PosixWritableFile.WriteUnbuffered` | src/env/env_posix.cpp:298-311 | The loop writes all, or what the system took before it failed; interruptions are retried. |
| `WritableFile.PosixWritableFile.FlushBuffer` | src/env/env_posix.cpp:292-296 | Puts the buffer on the disk exactly if it succeeds, a prefix of it otherwise, and empties it in every case. |
| `WritableFile.PosixWritableFile.Close` | src/env/env_posix.cpp:247-255 | Succeeds exactly if the buffer has come to the disk and the descriptor was closed; the file is closed and its buffer empty in every case. |
| `WritableFile.NothingLost` | src/env/env_posix.cpp:221-311 | Over any run disk and buffer together are the data appended while calls succeed; through the first failing call the disk holds a prefix of it. |
| `WritableFile.AllOnDisk` | src/env/env_posix.cpp:221-296 | After a run of successful calls that ends in Close or a flush, the disk alone holds all the data. |
| `WritableFile.LostExactlyOnFailure` | src/env/env_posix.cpp:221-311 | Over any run of appends and flushes all data is on disk or buffered if and only if no call failed. |
| `WritableFile.LostExactlyOnFails` | src/env/env_posix.cpp:221-311 | Over any run of appends, flushes and closes, in terms of what the system answers: all data is on disk or buffered if and only if none of the answers that the run takes is a failure and no write meets a closed file; every call succeeds if and only if also no closing of the descriptor failed. |
| `WritableFile.LossAfterFailure` | src/env/env_posix.cpp:292-296 | After a failed flush the buffer is dropped, so later data can reach the disk without what came before. |
| `BackgroundQueue.StepKeeps` | src/env/env_posix.cpp:681-709 | Every step of a caller, of the thread or of the condition variable keeps the invariant. |
| `BackgroundQueue.NoLostWakeup` | src/env/env_posix.cpp:681-709 | In every reachable state tasks begun followed by tasks queued are the tasks scheduled in order, and the thread never waits un-notified while a task is queued. |
| `BackgroundQueue.QueuedTaskBegins` | src/env/env_posix.cpp:696-709 | Without new calls the first queued task begins within six steps if and only if the thread is not running a task that calls Schedule; otherwise no task begins. |
| `BackgroundQueue.ScheduleNeverReturns` | src/env/env_posix.cpp:681-709 | Once a task calls Schedule it waits for the mutex its own thread holds: however long the run goes on, no task begins and the mutex is not released. |
| `BackgroundQueue.StuckExactly` | src/env/env_posix.cpp:681-709 | A reachable state has no next step if and only if a task waits for the mutex in its own call of Schedule. |
| `Arena.Arena.Allocate` | src/memory/arena.cpp:19-28 | The arena stays valid (ranges pairwise disjoint, each inside one block, every byte accounted for, memory usage the sum of block sizes plus 8 each); a retired block strands less than the request. |
| `Arena.Arena.AllocateAligned` | src/memory/arena.cpp:29-46 | The same, and the result is a multiple of 8: the next one in the current block exactly if the request fits there, else the start of a new block. |
| `Arena.Arena.AllocateFallback` | src/memory/arena.cpp:50-61 | The result starts a new block, of its own above 1024 bytes and of 4096 otherwise; only the latter retires the current one, stranding at most 1030 bytes. |
| `Arena.Arena.AllocateNewBlock` | src/memory/arena.cpp:62-67 | A block apart from all others is added to the list and to the usage. |
| `Arena.NewBlockKeeps` | src/memory/arena.cpp:62-67 | A new block overlaps nothing that was handed out or is free. |
| `Arena.BumpKeeps` | src/memory/arena.cpp:21-26 | Taking bytes off the front of the free space keeps all ranges disjoint and inside their blocks. |
| `BloomFilter.BloomFilterPolicy.CreateFilter` | src/filter_policy/bloom_filter_policy.cpp:25-49 | Leaves the old contents alone and appends the bits, as many whole bytes as 64 or the bits per key need, and k; set are exactly the bits (h + j d) modulo 2^32 modulo their number, for the hash h of a key, h rotated right by 17 as d, and j below k. |
| `BloomFilter.BloomFilterPolicy.KeyMayMatch` | src/filter_policy/bloom_filter_policy.cpp:51-72 | True exactly if the filter has two bytes or more and k is above 30 or all those bits of the key's hash are set. |
| `BloomFilter.BloomFilterPolicy.constructor` | src/filter_policy/bloom_filter_policy.cpp:14-20 | k is 0.69 bits per key rounded down, kept between 1 and 30. |
| `BloomFilter.MatchesExactly` | src/filter_policy/bloom_filter_policy.cpp:51-72 | A key matches if and only if every bit it probes was hit by some key of the filter. |
| `BloomFilter.NoFalseNegatives` | src/filter_policy/bloom_filter_policy.cpp:51-72 | Every key of the filter matches. |
| `BloomFilter.FilterThenMatch` | src/filter_policy/filter_policy.h:19-28 | The promise of the interface end to end, with different policies for making and reading the filter. |
| `BloomFilter.WithBitSets` | src/filter_policy/bloom_filter_policy.cpp:45 | Setting one bit of a byte sets that bit and no other. |
| `BloomFilter.DeltaRotates` | src/filter_policy/bloom_filter_policy.cpp:42 | The step is the hash rotated right by 17 bits: bit i of it is bit (i + 17) modulo 32 of the hash, and no other number is that. |
| `BloomFilter.ProbeIs` | src/filter_policy/bloom_filter_policy.cpp:38-47 | Probe j lies j steps from the hash, modulo 2^32. |

## Left out

- CRC tables: all five are defined from the polynomial.  Eight entries of the byte table are compared with the
  numbers in the source, the other entries and the stride tables are not.
- Accelerated CRC: the external library path of `Extend`, and masking of stored checksums.
- Log checksums: neither written nor verified by the source, so nothing is claimed about damaged bytes.
- Log I/O errors: the destination takes every append and the file gives every read; a `Skip` past the end of the
  file succeeds.  Files are shorter than 2^64 bytes.
- A log continued after a crash: what else is read when it is not exactly the old and new records is stated only
  in the last bytes of a block and, of a last fragment's payload, up to the first record (`ReopenInTrailer`,
  `TornPayloadSwallows`); the rest depends on how the new bytes parse from their middle.  Reports are stated for
  crashes between two fragments.
- SkipList.SkipList.FindGreaterOrEqual: the array `prev` is a result instead of an out-parameter, and a tower's
  pointers are a sequence in the node instead of a trailing array.
- SkipList.SkipList.Insert: the height is a parameter between 1 and 12 instead of a random number; nodes come from
  the heap instead of the arena.
- SkipListReaders: steps are sequentially consistent; weaker memory orders are not modelled.
- MemTable.MemTable.Add: keys and values whose lengths fit 32 bits and sequence numbers that fit 56 bits; the
  buffer is a sequence instead of arena memory.
- MemTable.MemTable.Get: when the answer is right is not stated for a comparator that takes two different keys for
  equal or leaves two different keys unordered.
- WriteBatch.WriteBatch.Put: keys and values whose lengths fit 32 bits, and fewer than 2^31 operations.
- DbFormat: AppendInternalKey (which stops at the first NUL), ParseInternalKey, InternalKey and DebugString.
- LruCache.LRUCache: the capacity is fixed at construction; the mutex (each operation is one
  step); wrap-around of the 64-bit charge and of 32-bit counts and table lengths.
- ShardedCache: Hash is any function into 32-bit numbers; Value.
- WritableFile: Sync and the directory, deferred errors of close() beyond success or failure, and a write() that
  takes nothing of a non-empty request.
- BackgroundQueue: how the system schedules threads; what is proved is safety and that a next step exists.  A task
  calls Schedule at most once.
- Arena.Arena.AllocateAligned: an empty request on an empty arena gives the null address, which lies in no block.
- Arena: concurrent reads of the memory usage, and the destructor.
- BloomFilter.BloomFilterPolicy.constructor: bits per key is not negative; 0.69 bits per key is computed exactly
  instead of in floating point.
- BlockBuilder, Options, compression, logging, Status messages, the remaining environment functions: stubs,
  formatting or system calls.
