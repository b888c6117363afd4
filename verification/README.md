# A model of the versioned document store

The program keeps documents, a primary index and a secondary index in one ordered
key-value store. Nothing is overwritten: every insertion and deletion writes new entries
that carry a revision from a hybrid logical clock, and every read is a backward scan that
must find the right version. This project models that store, the order of its keys, the
clock and the workload generators, and proves:

- the backward scans of the primary index answer "the state as of revision r" for every
  set of byte-string keys;
- every operation keeps the store the exact image of one log of insertions and deletions,
  so the three key spaces always agree;
- exactly when the tombstone-skipping range scan returns the snapshot at a revision, alone
  and cut over the queries and threads of the range workload;
- the key comparison is a total order on all keys that are built;
- the clock's stamps increase under every interleaving and respect causality;
- the workloads visit the keys and timestamps they are meant to visit, or exactly when.

## Layout

| files | contents |
|---|---|
| Wrappers, Arithmetic, Sequences | an option type, products, joined lists |
| ByteStrings, VPack, VPackOrder, IndexValues, Comparator, Keys | bytes, values, the key order and the key builders |
| RocksDB | the store as a sorted map with a cursor, transactions that read their own writes, and an environment that decides which writes and commits fail |
| AsOf, PrimaryIndex, StorageEngine | the scan for one key |
| RangeScan, SecondaryIndex | the range scan, as a closed form and as the loop |
| History, StoreInvariant, RangeHistory, RangeExactness, RangeOrder, RangeSplit, RangeStability, RangeCounterexamples | the log, the store it stands for, and what scans of that store return |
| Database | the operations as methods over committed store, clock and log |
| RangeQueries, RangeWorkload | the range workload against the database |
| Clock, ClockRuns, Causality, StampCodec | one stamp, threads, nodes, and the text form |
| Gcd, Stepping, Batches, TimeSplit | the workload generators |
| Slugs, Opening | granting and restoring slugs, and the key spaces they own |

Classes stand where the program has objects that change: the cursor, transactions, the
database, the indexes, the clock, the random generator and the slug counter. Their methods
are proved against functions of the old state, and the lemmas are about those functions.

## Where code and documentation differ

The model follows the code.

- `benchmark/SecondaryIndex.cpp:68-69` speaks of the same value/key pair, but `sameKey`
  compares the user key only (lines 166-179). A key inserted again under an earlier
  timestamp is missed: `RangeCounterexamples.ReinsertionIsMissed`.
- The inner loop at `benchmark/SecondaryIndex.cpp:67` does not compare the revision of the
  tombstone it lands on, so a deletion the reader should not see yet can hide a live
  document: `RangeCounterexamples.LateDeletionIsMissed`.
- The skip assumes that the entries of one key are adjacent. A user key that extends
  another with small bytes breaks that: `RangeCounterexamples.InterleavingResurrects`.
  Decimal keys are safe while the first revision byte is below the digit zero
  (`RangeExactness.KeysAboveLast`).
- The repository's `README.md:77` describes a zero byte for present values. The code writes
  `"\0"` as a C string, the empty value. `spec.adoc:76-77` has the two marks the other way
  round.
- `benchmark/Database.cpp:134-140`: `remove` answers true even when the commit fails.
- The repository's `README.md:45` promises a further `keyCount` documents from
  `InsertBatch`; the last batch has `total % batchSize` keys, so one batch is missing when
  the batch size divides the total (`Batches.BatchWorkersCoverIff`).
- The repository's `README.md:30-41` gives rounded formulas for the time intervals; the
  code's intervals end one earlier and are clamped (`TimeSplit.ThreadsAreCuts`).
- `benchmark/RocksDBInstance.cpp:108` and `:143` return the stored bytes of a slug without
  swapping them back (`Slugs.SecondLookupIff`).
- `benchmark/ArangoComparator.cpp:66` and `:87` answer 0 when the left key is a bare prefix
  (`Comparator.CompareZeroIff`).

## Model

| member | source | states |
|---|---|---|
| RangeExactness.RangeReadIsExactIff | benchmark/SecondaryIndex.cpp:50-92 | main result on range reads, for every store the database can produce and every user key: the read reports nothing but the snapshot iff every ended insertion is covered by a tombstone, misses nothing iff every covered insertion has ended, and is the snapshot iff the two coincide |
| RangeExactness.SupersededIff | benchmark/SecondaryIndex.cpp:68-69 | an insertion in range has ended iff replaying the log up to the reader no longer leaves it as the live state of its key |
| RangeExactness.RangeReadIsSnapshot | benchmark/SecondaryIndex.cpp:50-92 | conditions under which that holds: nothing ended is reported when every key byte exceeds the first byte of every revision; nothing is missed either when no deletion in range is newer than the reader and re-insertions do not go back in time |
| RangeExactness.SnapshotIff | benchmark/SecondaryIndex.cpp:50-92 | a revision is in the snapshot iff replaying the history up to the reader's revision leaves that very event as the live state of its key and its timestamp is in range |
| RangeOrder.RangeReadInOrder | benchmark/SecondaryIndex.cpp:88-91 | in every store a range read reports by timestamp, then by user key followed by revision, and no revision twice |
| RangeOrder.RangeReadInKeyOrder | benchmark/SecondaryIndex.cpp:88-91 | by user key alone under one timestamp when key bytes exceed first revision bytes |
| RangeExactness.ListedIsGrouped | benchmark/SecondaryIndex.cpp:68-72 | what the skip relies on: entries of one (timestamp, key) pair are adjacent, in revision order, alternately live and dead, when every key byte exceeds the first byte of every revision |
| RangeExactness.KeysAboveLast | benchmark/utility.cpp:15-18 | that condition follows from a bound on the top byte of the last revision alone |
| RangeExactness.ConsecutiveAlternate | benchmark/SecondaryIndex.cpp:26-34 | consecutive entries of one timestamp and key alternate between live and dead in every history the database can produce |
| RangeScan.HiddenIff | benchmark/SecondaryIndex.cpp:64-80 | closed form of the nested loops: an entry is skipped iff some visible tombstone above it has only tombstone-headed key runs in between |
| RangeScan.ScanIsExactIff | benchmark/SecondaryIndex.cpp:64-86 | on any entries with distinct revisions: sound iff ended entries are covered, complete iff covered entries have ended, the snapshot iff both |
| RangeScan.TimelyScanIsSnapshot | benchmark/SecondaryIndex.cpp:64-80 | the scan is exact when all tombstones of the range are old enough and none stands above a visible entry of the same user key |
| RangeScan.LateTombstoneHides | benchmark/SecondaryIndex.cpp:67-73 | entries on which a tombstone newer than the reader hides a live pair, because the inner loop does not compare revisions |
| RangeScan.EarlierReinsertionHides | benchmark/SecondaryIndex.cpp:71-72 | entries on which a tombstone hides the same key under an earlier timestamp, because only the user key is compared |
| RangeScan.InterleavedKeyResurrects | benchmark/SecondaryIndex.cpp:71-72 | entries on which a key between two entries of another brings a deleted document back |
| RangeCounterexamples.LateDeletionIsValid | benchmark/Database.cpp:108-145 | the history behind the late tombstone is one the database can produce |
| RangeCounterexamples.LateDeletionIsMissed | benchmark/SecondaryIndex.cpp:67-80 | in every store of that history the range read at revision 5 is empty although the key is live |
| RangeCounterexamples.LateDeletionChangesTheRead | benchmark/SecondaryIndex.cpp:67-80 | the same read at revision 5 returns the key before that deletion is written and not after it |
| RangeCounterexamples.ReinsertionIsValid | benchmark/Database.cpp:27-47 | the history with a re-insertion under an earlier timestamp is one the database can produce |
| RangeCounterexamples.ReinsertionIsMissed | benchmark/SecondaryIndex.cpp:166-179 | in every store of that history the range read misses the live key although no deletion is newer than the reader |
| RangeCounterexamples.InterleavingIsValid | benchmark/Database.cpp:27-47 | the history with a key extending another by revision bytes is one the database can produce |
| RangeCounterexamples.InterleavingResurrects | benchmark/SecondaryIndex.cpp:64-86 | in every store of that history the range read reports a deleted document |
| RangeSplit.SnapshotsConcatenate | benchmark/Database.cpp:159-174 | the snapshots of two adjacent ranges concatenate to the snapshot of both |
| RangeSplit.RangeReadsConcatenate | benchmark/Database.cpp:159-174 | the reads of two adjacent ranges concatenate to one read of both at any one revision at which the reads are exact |
| RangeSplit.ReportedSplitIff | benchmark/SecondaryIndex.cpp:61-63 | without that condition two scans report at least as much as one, and the same iff no upper tombstone hides what the lower scan reports |
| RangeQueries.SnapshotsOverCuts | benchmark/LookupRange.cpp:57-68 | however an interval is cut into pieces, their snapshots join to that of the whole |
| RangeQueries.SnapshotPastLog | benchmark/LookupRange.cpp:75 | all readers whose revision is not older than the log have one snapshot |
| RangeQueries.QueriesReadWholeIff | benchmark/LookupRange.cpp:70-76 | in every store: queries over adjacent pieces, each at its own revision past the log, join to one snapshot of the whole iff each piece meets the exact condition of its read |
| RangeQueries.QueriesReadWhole | benchmark/LookupRange.cpp:70-76 | which they all do while key bytes exceed first revision bytes and re-insertions do not go back in time |
| RangeQueries.ThreadReadsWhole | benchmark/LookupRange.cpp:47-76 | so the queries built for a thread return the snapshot of its interval |
| RangeQueries.WorkloadReadsWholeIff | benchmark/LookupRange.cpp:15-76 | and the queries of all threads that of the whole interval iff there is one thread, or the span is at least the thread count, or nothing is live at the first timestamp |
| RangeWorkload.LookupRanges | benchmark/LookupRange.cpp:47-83 | the loop of one thread on the database: query k runs at the k-th stamp of the clock, drawn just before it, so revisions strictly increase and the clock ends at the last; it stops when all are read or more than the limit has come back; without early exit the results are the documents of one snapshot of the interval, under the conditions of exactness |
| RangeStability.SnapshotIsStable | benchmark/Database.cpp:159-174 | whatever is written after a revision was issued, the snapshot of a range at it stays |
| RangeStability.RangeReadIsStableIff | benchmark/SecondaryIndex.cpp:64-80 | the range read itself repeats iff the later entries leave every insertion it may see covered or uncovered as before |
| RangeStability.ExactReadsAreStable | benchmark/SecondaryIndex.cpp:64-80 | so it repeats while the conditions of exactness hold of the later history |
| SecondaryIndex.SecondaryIndex.Lookup | benchmark/SecondaryIndex.cpp:50-92 | terminates and returns exactly the positions the closed form reports among the entries in [start, end], in key order |
| SecondaryIndex.SecondaryIndex.SkipTombstones | benchmark/SecondaryIndex.cpp:67-80 | the inner loop ends at a live entry of another user key or at the end of the range, and nothing it passed was to be reported |
| SecondaryIndex.SecondaryIndex.Insert | benchmark/SecondaryIndex.cpp:16-41 | writes the entry iff the newest entry of this timestamp and key allows it and the write succeeds; otherwise changes nothing |
| SecondaryIndex.SecondaryIndex.ExtractsUserKey | benchmark/SecondaryIndex.cpp:140-147 | the bytes cut out of an entry are its user key |
| SecondaryIndex.SecondaryIndex.SameUserKey | benchmark/SecondaryIndex.cpp:166-179 | the comparison holds iff the user keys are equal, whatever the indexed values |
| SecondaryIndex.RangeIff | benchmark/SecondaryIndex.cpp:57-63 | a key lies between the two bounds in comparator order iff it is an entry of this index with a timestamp in range |
| SecondaryIndex.WindowTop | benchmark/SecondaryIndex.cpp:61 | the cursor starts on the last entry of the range: no stored key equals the end sentinel |
| StoreInvariant.FirstEntryIsLive | benchmark/PrimaryIndex.cpp:25-36 | the oldest primary entry of every key is live |
| StoreInvariant.EntriesAlternate | benchmark/PrimaryIndex.cpp:25-36 | from one primary entry of a key to the next the mark changes, and a tombstone has its secondary entry under exactly the timestamp of the entry it ends |
| History.SpacesAgree | benchmark/Database.cpp:85-106 | primary and secondary entries correspond one to one by revision and mark, a live one has its document with that timestamp, there are no other secondary entries, and every stored document belongs to entries that are live in both indexes |
| History.PrimaryNewest | benchmark/PrimaryIndex.cpp:51-68 | over a store of a history the primary index answers the newest event of the key up to the revision |
| History.PrimaryAccepts | benchmark/PrimaryIndex.cpp:24-37 | the primary check passes iff the newest event of the key is missing or of the other kind |
| History.SecondaryAccepts | benchmark/SecondaryIndex.cpp:23-36 | the secondary check passes iff the newest event under that timestamp and key is missing or of the other kind |
| History.PairFollowsKey | benchmark/SecondaryIndex.cpp:23-36 | under each timestamp a key is open only while it is live with that timestamp |
| History.Extended | benchmark/Database.cpp:85-106 | adding the cells of an admissible event gives the store of the longer history |
| History.PastIsStable | benchmark/Database.cpp:147-157 | events after a revision do not change what was as of that revision |
| History.PastReadsAreStable | benchmark/Database.cpp:147-157 | whatever later operations append after a revision was issued, a single read as of it gives the same answer |
| Database.InsertionSteps | benchmark/Database.cpp:85-106 | the primary check decides, the secondary check then passes, and the three writes append the insertion |
| Database.DeletionSteps | benchmark/Database.cpp:112-132 | for a live key both tombstones are accepted and append the deletion |
| Database.AcceptsFromOwnKeys | benchmark/Database.cpp:85-106 | an index decides from its own entries: writes to the other spaces do not disturb it |
| Database.LiveAfterInsertions | benchmark/Database.cpp:59-65 | during a batch a key is live iff it was live before or is already in the batch |
| Database.FreshStore | benchmark/Database.cpp:4-21 | a store without entries under three fresh slugs holds the empty history |
| Database.Database.constructor | benchmark/Database.cpp:4-21 | a database opened on a store that holds any history under its slugs represents that history, with the clock starting over |
| Database.Database.ConsistentIsAhead | benchmark/Database.cpp:25 | once a stamp has been drawn, every further stamp is newer than the history, whatever the physical clock reads |
| Database.Database.Now | benchmark/Database.cpp:25 | draws a stamp newer than the history |
| Database.Database.Insert | benchmark/Database.cpp:27-47 | returns a revision iff the key is not live and writes and commit succeed; the history then grows by exactly that insertion, otherwise the store is unchanged; the store invariant holds after |
| Database.Database.InsertBatch | benchmark/Database.cpp:49-83 | all or nothing: applied iff the lengths agree, no key is live or repeated, and writes and commit succeed; then with one clock stamp each, in order; stamps are drawn up to the first document refused |
| Database.Database.InsertInternal | benchmark/Database.cpp:85-106 | succeeds iff the key is not live in the transaction and its three writes succeed |
| Database.Database.RemoveInternal | benchmark/Database.cpp:115-132 | succeeds iff its two writes succeed, and appends the deletion of the live document |
| Database.Database.Remove | benchmark/Database.cpp:108-145 | answers whether a live document was found and the tombstones were written; the history grows by the deletion iff the commit succeeds too |
| Database.Database.LookupSingle | benchmark/Database.cpp:147-157 | returns the document obtained by replaying the history up to the revision |
| Database.Database.LookupRange | benchmark/Database.cpp:159-174 | returns the documents of the reported revisions; these are the snapshot iff the exact condition holds; while key bytes exceed first revision bytes each is what some key holds at the revision with a timestamp in range, and none is missing under the further conditions |
| PrimaryIndex.PrimaryIndex.Insert | benchmark/PrimaryIndex.cpp:18-42 | writes the entry iff the newest entry of exactly this key allows it and the write succeeds; otherwise changes nothing |
| PrimaryIndex.PrimaryIndex.Lookup | benchmark/PrimaryIndex.cpp:51-68 | finds the largest stored revision up to the maximum of exactly this key, and 0 if there is none or it is a tombstone, for arbitrary byte-string keys |
| PrimaryIndex.PrimaryIndex.SameKeyIff | benchmark/PrimaryIndex.cpp:100-111 | behind the key prefix the comparison amounts to the length of an entry |
| StorageEngine.StorageEngine.Insert | benchmark/StorageEngine.cpp:12-19 | stores the document under its revision iff the write succeeds |
| StorageEngine.StorageEngine.Lookup | benchmark/StorageEngine.cpp:28-36 | returns the document stored under the revision, or none |
| AsOf.ScanHits | benchmark/PrimaryIndex.cpp:57-64 | the first entry of exactly the key below the sentinel is the newest one up to the maximum |
| AsOf.ScanMisses | benchmark/PrimaryIndex.cpp:57-68 | leaving the key prefix proves that no entry of the key exists, whatever keys interleave |
| AsOf.ScanPasses | benchmark/PrimaryIndex.cpp:57-59 | keys that extend the user key may be passed |
| AsOf.NewestUnique | benchmark/PrimaryIndex.cpp:51-68 | the answer is determined: only one option is the largest stored revision up to the maximum |
| History.PrimaryEntries | benchmark/PrimaryIndex.cpp:39-40 | a primary entry is stored iff the log has an event of that key and revision, with its mark |
| History.SecondaryEntries | benchmark/SecondaryIndex.cpp:38-39 | a secondary entry is stored iff the log has an event of that key, revision and timestamp, with its mark |
| History.DocumentCells | benchmark/StorageEngine.cpp:14-17 | a document is stored iff the log has an insertion of that revision, with its contents |
| Database.SingleRead | benchmark/Database.cpp:151-153 | the two lookups of a read find a document iff replaying the log does, and the same one |
| Keys.EntryKeyShape | benchmark/SecondaryIndex.cpp:94-100 | a built entry key is well formed, and prefix, value, user key and revision can be read off it |
| Keys.EntryKeyInjective | benchmark/PrimaryIndex.cpp:70-77 | entry keys agree iff prefix, indexed value, user key and revision agree |
| Keys.DocumentKeyInjective | benchmark/StorageEngine.cpp:38-40 | document keys agree iff prefix and revision agree |
| Keys.PrefixesInjective | benchmark/PrimaryIndex.cpp:14-16 | key spaces of different slugs, and index and document spaces, are disjoint |
| Keys.EntryOrder | benchmark/PrimaryIndex.cpp:86-93 | entries of one value and key are ordered by revision in comparator order |
| Keys.EntryFromPrefix | benchmark/PrimaryIndex.cpp:113-116 | a key with the key prefix and eight more bytes is the entry of the revision those bytes spell |
| Keys.PrefixIffRankPrefix | benchmark/SecondaryIndex.cpp:25 | byte prefixes of index keys are prefixes in comparator order |
| Comparator.CompareIsLex | benchmark/ArangoComparator.cpp:13-33 | the comparison of well-formed keys of all types is the lexicographic order of one embedding into number lists |
| Comparator.RankInjective | benchmark/ArangoComparator.cpp:13-33 | that embedding is injective |
| Comparator.CompareFlips | benchmark/ArangoComparator.cpp:13-33 | swapping the arguments flips the sign |
| Comparator.CompareTransitive | benchmark/ArangoComparator.cpp:13-33 | transitive across all key types, strictly if one of the two steps is strict |
| Comparator.CompareZeroIff | benchmark/ArangoComparator.cpp:63-89 | 0 iff the keys are byte-equal or the left one is a bare prefix of the right one |
| Comparator.SameValueSameSize | benchmark/ArangoComparator.cpp:91-103 | index values that compare equal have one encoding, so the left size also fits the right side |
| Comparator.CompareIndexIsLex | benchmark/ArangoComparator.cpp:84-111 | index entries compare by value, then by key and revision bytes |
| Comparator.OrderTotal | benchmark/ArangoComparator.cpp:13-33 | the induced order is antisymmetric and total on well-formed keys |
| Comparator.CompareDocumentIsLex | benchmark/ArangoComparator.cpp:63-71 | document entries compare by revision |
| Comparator.SluggedPrefixesDecide | benchmark/ArangoComparator.cpp:52-57 | different type and slug bytes decide the comparison, equal ones leave it open |
| VPack.CompareSlices | benchmark/ArangoComparator.cpp:218-303 | stepping two cursors with padding computes the recursive comparison |
| VPack.WeightOf | benchmark/ArangoComparator.cpp:125-182 | the weight table by first byte gives each kind of value one weight |
| VPackOrder.Flip | benchmark/ArangoComparator.cpp:218-303 | on all modelled values, at any nesting, swapping the arguments flips the sign |
| VPackOrder.PreorderIff | benchmark/ArangoComparator.cpp:218-303 | the comparison is a total preorder on all nested values over a set of numbers iff no two different numbers of one type in it share a double with a number of another type, although shorter arrays are padded |
| VPackOrder.NumbersChainIff | benchmark/ArangoComparator.cpp:184-216 | of three numbers: two comparisons chain iff there is no number of another type between two of one type that stand the other way round; strictly, iff the outer types agree or their doubles differ |
| VPackOrder.Transitive | benchmark/ArangoComparator.cpp:218-303 | transitive, strictly if one step is strict, on values over a set without such ties |
| VPackOrder.EqualityIff | benchmark/ArangoComparator.cpp:272-296 | comparing equal means agreeing after trailing nulls are dropped at every level, for all values over a set of numbers, iff numbers of different types in it share a double only when equal |
| VPackOrder.EqualIffSameNorm | benchmark/ArangoComparator.cpp:272-296 | two values over such a set compare equal iff they agree after trailing nulls are dropped at every level |
| VPackOrder.BuilderExactIff | benchmark/ArangoComparator.cpp:198-216 | of the integers a builder writes only a signed and an unsigned one can share a double: all signed and all unsigned sets are exact |
| VPackOrder.SmallIntegersAreExact | benchmark/ArangoComparator.cpp:210-215 | so are mixed ones whose unsigned members are below 2^53 |
| VPackOrder.NumbersExactIff | benchmark/ArangoComparator.cpp:184-216 | a number comparison is exact iff the types agree, the numbers are equal, or they stay apart as doubles |
| VPackOrder.ToDoubleMonotone | benchmark/ArangoComparator.cpp:210-215 | the conversion to double never reverses an order |
| VPackOrder.ToDoubleNearest | benchmark/ArangoComparator.cpp:210-211 | the conversion gives a double to which none is nearer, the even one of two equally near |
| VPackOrder.MixedNumbersAreNotTransitive | benchmark/ArangoComparator.cpp:210-215 | three values around 2^53 on which the comparison is not transitive |
| IndexValues.TimestampRoundTrip | benchmark/utility.cpp:60-68 | decoding the encoded timestamp array gives the timestamp back |
| IndexValues.EncodingIsShortest | benchmark/utility.cpp:60-68 | an encoded integer starts with the byte that selects its type weight and takes no more bytes than two's complement needs |
| IndexValues.TimestampPrefix | benchmark/SecondaryIndex.cpp:140-144 | encoded timestamps are self-delimiting: value and byte size are read from the front of any longer string |
| IndexValues.TimestampsCompareAsNumbers | benchmark/utility.cpp:60-81 | encoded timestamps compare as their numbers, and above the empty value of the primary index |
| ByteStrings.StringsAreBigEndian | benchmark/utility.cpp:10-28 | byte-swapping and storing little-endian gives the big-endian bytes, and back |
| ByteStrings.IntStrings | benchmark/utility.cpp:15-28 | revisions round-trip and their numeric order is the byte order |
| ByteStrings.ShortStrings | benchmark/utility.cpp:10-23 | slugs round-trip through their four bytes |
| ByteStrings.MemcmpThenSize | benchmark/ArangoComparator.cpp:73-82 | memcmp over the shorter length, then the sizes, is the lexicographic order |
| ClockRuns.StampsIncrease | include/benchmark/HybridLogicalClock.h:49-101 | in every interleaving of loads, failures and swaps by any number of threads the issued stamps are positive, strictly increasing in swap order, above the received stamp and not behind the physical reading, while the word has room |
| ClockRuns.StampsAreLeast | include/benchmark/HybridLogicalClock.h:49-101 | and each is determined: the least word above the stamp issued before it and the stamp received that is not below the reading of its attempt |
| ClockRuns.AttemptsAreRun | include/benchmark/HybridLogicalClock.h:52-62 | the attempts of one call, with failures and swaps of another thread in between, are a run of these threads whose last stamp is the result of the retry loop |
| ClockRuns.RunKeepsInv | include/benchmark/HybridLogicalClock.h:60-63 | the invariant behind it holds after every run |
| Causality.StampsRespectCausality | include/benchmark/HybridLogicalClock.h:66-101 | happened-before implies a strictly smaller stamp in every trace of nodes exchanging stamps |
| Causality.TimeIsLatestReading | include/benchmark/HybridLogicalClock.h:75-96 | the time part is never behind the local reading, and is the largest reading of the causal past while no counter carries |
| Causality.ShortTracesDoNotCarry | include/benchmark/HybridLogicalClock.h:161-165 | no counter carries within fewer than 2^20 events |
| Clock.HybridLogicalClock.GetTimeStamp | include/benchmark/HybridLogicalClock.h:49-64 | the retry loop, with any number of failed attempts and words left by other threads in between: stores and returns a stamp above the word before and above all of those |
| Clock.HybridLogicalClock.ReceiveTimeStamp | include/benchmark/HybridLogicalClock.h:67-101 | the same loop for a received stamp, which the result exceeds as well |
| Clock.ReceiveIsTick | include/benchmark/HybridLogicalClock.h:74-96 | the case analysis on receipt amounts to a local event after the larger of the two stamps |
| Clock.TickAdvancesIff | include/benchmark/HybridLogicalClock.h:54-60 | a stamp exceeds the word it replaces iff the word is not exhausted or the 44-bit time is ahead |
| Clock.TickTimeIff | include/benchmark/HybridLogicalClock.h:159-165 | the time part is the larger of the two times iff the counter does not carry into it |
| Clock.TickIsLeast | include/benchmark/HybridLogicalClock.h:54-60 | the computed word is the least one above the old word that is not below the reading with counter 0 |
| StampCodec.DecodeEncode | include/benchmark/HybridLogicalClock.h:103-124 | decoding inverts encoding for every 64-bit value, in at most eleven characters of the table |
| StampCodec.EncodeDecodeIff | include/benchmark/HybridLogicalClock.h:130-144 | checked decoding and re-encoding returns a string iff it has table characters only, no leading zero digit and a value below 2^64 |
| StampCodec.EncodedIsCanonical | include/benchmark/HybridLogicalClock.h:103-111 | every encoding is such a string |
| StampCodec.TablesInverse | benchmark/HybridLogicalClock.cpp:76-111 | the two tables are inverse to each other |
| StampCodec.KnownEncodings | benchmark/HybridLogicalClock.cpp:76-77 | the ends of the runs of the table: "_-", "AZ", "az", "09" |
| StampCodec.ShiftInIs | include/benchmark/HybridLogicalClock.h:120-121 | one step of decoding on a 64-bit word: six bits out, the digit in; an unknown character sets the low eight bits |
| StampCodec.EncodeTimeStamp | include/benchmark/HybridLogicalClock.h:103-111 | filling the buffer from the back gives the base-64 digits without running past its front |
| StampCodec.DecodeTimeStamp | include/benchmark/HybridLogicalClock.h:117-124 | the loop folds the characters, unknown ones as 255 |
| StampCodec.DecodeTimeStampWithCheck | include/benchmark/HybridLogicalClock.h:130-144 | 0 for more than eleven characters or an unknown one, otherwise the same fold |
| Causality.SameNodeInOrder | include/benchmark/HybridLogicalClock.h:60-63 | events of one node are ordered by happened-before |
| Causality.StampIsLeast | include/benchmark/HybridLogicalClock.h:66-101 | each stamp of a trace is the least word above the stamps it builds on that is not below the local reading |
| Stepping.NeverTwice | benchmark/Insert.cpp:58-61 | no position of the walk is met twice within one round |
| Stepping.EveryResidue | benchmark/Insert.cpp:58-61 | every residue is met within one round |
| Gcd.BinaryGcd | benchmark/Insert.cpp:91-121 | terminates for all pairs of 64-bit numbers, zeros included, with their greatest common divisor, and the final shift does not overflow |
| Gcd.GcdIsGreatest | benchmark/Insert.cpp:91-121 | the common divisors are exactly the divisors of the result |
| Stepping.RandomNumber.Reseed | benchmark/RandomNumber.cpp:8-13 | an instance seeds the shared state only while it is zero |
| Stepping.RandomNumber.Next | benchmark/RandomNumber.cpp:15-20 | one step of the generator with the wrap-around of the product |
| Stepping.RandomNumber.NextInRange | benchmark/RandomNumber.cpp:22-28 | the second of two draws, cut to the range: in the range and congruent to the draw; an empty range draws nothing and gives 0, a negative one cuts nothing |
| Stepping.DrawIs | benchmark/RandomNumber.cpp:18 | a draw is the remainder of the product by 2^31 - 1 while it fits 64 bits, and of the wrapped product otherwise |
| Stepping.ScaledIs | benchmark/RandomNumber.cpp:27 | the cut leaves draws inside the range, repeats with the range, and so reaches every number of it |
| Stepping.ToIntIs | include/benchmark/RandomNumber.h:17 | passing a 64-bit size as an int keeps it below 2^31 and modulo 2^32 otherwise |
| Stepping.CandidatesForTen | benchmark/Insert.cpp:124-134 | from the seed the candidates for a chunk of ten keys are 3, 3, 6, 6, 9 |
| Stepping.RelativePrime | benchmark/Insert.cpp:123-136 | returns the first candidate that is coprime to n and at least n/2, and fails iff there is none among the candidates drawn; for n = 0 there never is |
| Stepping.WalkIsPermutation | benchmark/Insert.cpp:58-61 | stepping by a coprime step meets every key of the chunk exactly once, and any shorter walk misses one |
| Stepping.NextPosition | benchmark/Insert.cpp:59 | the update is the step from one multiple to the next |
| Stepping.ChunksPartition | benchmark/Insert.cpp:16-22 | the worker chunks are non-empty, in order, disjoint, and cover the interval |
| Stepping.ChunksBalanced | benchmark/Insert.cpp:16-22 | all chunks but the last have one size, the last has less than the thread count more, and each begins where the one before it ends |
| Stepping.InsertWorker | benchmark/Insert.cpp:46-62 | the loop inserts the keys of the walk in order |
| Stepping.WorkersInsertEveryKeyOnce | benchmark/Insert.cpp:16-62 | all workers together insert every key of the interval exactly once |
| Batches.BatchWorker | benchmark/InsertBatch.cpp:48-89 | the nested loops cut the walk into transactions of the given sizes |
| Batches.EmittedBound | benchmark/InsertBatch.cpp:66-69 | the sizes of all transactions add up to the total, or to one batch less when the batch size divides the total |
| Batches.BatchCountIs | benchmark/InsertBatch.cpp:49 | there are just enough transactions for all keys |
| Batches.BatchesCoverIff | benchmark/InsertBatch.cpp:65-75 | one worker never repeats a key and covers its chunk iff the batch size does not divide it |
| Batches.BatchWorkersCoverIff | benchmark/InsertBatch.cpp:17-75 | no two workers share a key, and every key of the interval is inserted iff the batch size divides no worker's share |
| TimeSplit.ThreadsCover | benchmark/LookupRange.cpp:15-25 | the intervals of the threads cover [min, max] exactly, and are disjoint iff there is one thread or the span is at least the thread count |
| TimeSplit.QueriesPartition | benchmark/LookupRange.cpp:47-68 | the queries of a thread are disjoint, in order and cover its interval, for every expected count of at least 1 |
| TimeSplit.QueriesAreCuts | benchmark/LookupRange.cpp:57-68 | each query begins where the one before it ends, from the first timestamp of the thread to the last |
| TimeSplit.ThreadsAreCuts | benchmark/LookupRange.cpp:15-25 | so do the threads when there are no more of them than the span; otherwise all but the last have the first timestamp only |
| TimeSplit.QueryParts | benchmark/LookupRange.cpp:47-68 | the loop builds one query for each thousand documents expected, or for each step of a shorter span, of equal lengths, cutting the interval exactly |
| TimeSplit.ThreadsAreEven | benchmark/LookupRange.cpp:15-25 | the intervals of the threads have equal lengths, the largest that fit, when there are no more threads than the span |
| TimeSplit.AllQueriesCover | benchmark/LookupRange.cpp:15-68 | all queries of all threads touch exactly the timestamps of [min, max] |
| TimeSplit.AllQueriesOnceIff | benchmark/LookupRange.cpp:15-68 | each timestamp by one query only iff there is one thread or the span is at least the thread count |
| Slugs.RocksDBInstance.constructor | benchmark/RocksDBInstance.cpp:62-80 | opening restores a bound on all stored slugs |
| Slugs.RocksDBInstance.GetMaxSlug | benchmark/RocksDBInstance.cpp:166-177 | the counter becomes exactly the maximum of itself and all stored slugs |
| Slugs.RocksDBInstance.GetSlug | benchmark/RocksDBInstance.cpp:97-164 | a new name gets a slug above every slug stored before, or 0 with the store unchanged; a known name gets its stored bytes unswapped |
| Slugs.NamesInjective | benchmark/RocksDBInstance.cpp:99-101 | names of collections and of indexes are injective and never collide |
| Slugs.NamesInOrder | benchmark/RocksDBInstance.cpp:99-101 | names sort by database, collection and index, and a collection's name is a prefix of those of its indexes |
| Slugs.GrantKeeps | benchmark/RocksDBInstance.cpp:112-128 | storing a slug above the counter keeps all stored slugs distinct and bounded |
| Opening.FreshSpacesAreForeign | benchmark/Database.cpp:16-21 | slugs above every slug in use own no stored key yet, which is what opening a database on them needs |
| Opening.SlugsSurvive | benchmark/RocksDBInstance.cpp:166-177 | whatever the database writes under its three slugs, the stored names stay as they were, bounded and distinct, and every document and index key belongs to a granted slug, so the store can be reopened |
| Slugs.GrantedSlugsDiffer | benchmark/RocksDBInstance.cpp:97-177 | in every run of grants, failed grants, repeated lookups, other writes and re-opens the granted slugs strictly increase |
| Slugs.SecondLookupIff | benchmark/RocksDBInstance.cpp:105-109 | a second lookup returns the granted slug iff its four bytes are a palindrome |
| Slugs.SecondLookupSwaps | benchmark/RocksDBInstance.cpp:105-109 | otherwise it returns the slug with its bytes swapped, so different slugs read differently and swapping gives the slug back |

## Left out

- RocksDB and VelocyPack internals: the store is a finite map with a cursor in comparator order, and which writes and commits fail is a parameter (`Env`); encodings are those of the values the program builds.
- Concurrent transactions at the level of `Database`: operations follow each other, because revisions are drawn before a transaction begins and nothing orders the writes by revision.
- `remove` of both indexes and of `StorageEngine`, which delete entries: no database operation calls them.
- `ArangoPrefixTransform`, `LookupSingleRandom`, `LookupSingleHotset`, `hexDump`: easy members only.
- `UsageMonitor`, `Suite`, `Workload`, the command line, `Mutex` and `MutexLocker`: process statistics, printing and locking.
- Strings, objects, doubles, dates, BCD and custom types, and arrays with an index table, as index values: they do not occur in the keys the program builds.
- Keys the program does not build: the comparator reads past the end of shorter ones, so `Compare` is defined on readable pairs only.
- Documents without a "timestamp" attribute, for which the original throws: every modelled document has one.
- The memory behind a slice returned by a lookup: documents are values.
- SecondaryIndex.SecondaryIndex.Lookup: requires an end below 2^63 - 1, where the original's increment of the signed timestamp overflows.
- SecondaryIndex.SecondaryIndex.SkipTombstones: is the inner loop of `lookup` as a method of its own.
- Database.Database.constructor: primary and secondary slug must differ; two failed grants would both give slug 0.
- Database.Database.Insert, `InsertBatch`, `Remove` and `Now` require that the next stamp is newer than the history; after re-opening that is up to the physical clock, and `ConsistentIsAhead` gives it from then on.
- Database.Database.RemoveInternal: is the middle part of `remove` as a method of its own.
- RangeExactness.RangeReadIsSnapshot: its conditions on the history are sufficient only; the exact one is `RangeExactness.RangeReadIsExactIff`, on the entries in range.
- RangeScan.TimelyScanIsSnapshot: likewise sufficient only, beside `RangeScan.ScanIsExactIff`.
- Clock.HybridLogicalClock.GetTimeStamp: what other threads do between two attempts is an argument, a rising list of words; their own steps are in `ClockRuns`. Words and readings must leave room for one more stamp.
- ClockRuns.StampsIncrease: the state machine is sequentially consistent; memory orders weaker than that on the single atomic word are not modelled.
- `computeOffset1970` and `clockOffset`: physical time is an arbitrary input.
- StampCodec.TablesInverse: the two tables are given by runs of consecutive entries, not entry by entry.
- Stepping.RelativePrime: its loop is bounded by a number of tries; that an acceptable candidate exists for a given n is not shown.
- Stepping.WorkersInsertEveryKeyOnce: chunk bounds and positions are unbounded integers; sums beyond 64 bits are not modelled.
- Batches.BatchWorkersCoverIff: likewise, and the contents of the documents are not modelled.
- TimeSplit.AllQueriesCover: likewise; the query count is the ceiling of the quotient, exact for counts a double holds, and an expected count of 0, where the original divides by zero, is excluded.
- Operation counters, latencies and timing of the workloads.
- Slugs.RocksDBInstance.GetSlug: models both slug functions, which differ in the name only, for one caller at a time (the original looks a name up before it takes the lock); the counter stays below 2^32 - 1.
- VPack.WeightOf: the weight table is given by ranges of equal weight.
