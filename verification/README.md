# Verified model of the Telegram archive

telecrawl reads Telegram data from a local client's encrypted Postbox database or from a server, and keeps it in an
append-only archive that can be merged with snapshots of other archives. This project models the parts of it whose
correctness is not evident from any one function, and proves what they promise.

| Component | Modules |
|---|---|
| Encrypted pages, the write-ahead log, its damage, and capture beside a live writer | `WalChecksum`, `Pages`, `Sqlcipher`, `Wal`, `WalFormat`, `SqlcipherFormat`, `WalRefinement`, `WalMeaning`, `WalDamage`, `SnapshotCapture` |
| The Postbox binary format and message records | `ByteReading`, `PostboxTree`, `PostboxRoundTrip`, `PostboxCanonical`, `PostboxFormat`, `PostboxDecoder`, `PostboxMeaning`, `MessageRecord`, `MessageFormat` |
| Choosing messages account by account under limits | `Ranking`, `TextOrder`, `LimitPushdown`, `NewestFirst`, `PostboxSelection` |
| Collecting forum topics from a server | `ForumTopics`, `ForumRun` |
| Event ids of messages | `EventIds`, `EventIdRules`, `EventIdNormalizers` |
| The revision graph | `RevisionGraph`, `RevisionRemap`, `Revisions`, `RevisionChain` |
| The archive and its two imports | `ArchiveTables`, `TombstonePropagation`, `MessageJournal`, `ImportBatch`, `ChatAggregates`, `MergeFacts`, `RowChanges`, `ImportMeaning`, `MergeCounts`, `TidyRows`, `HistoryRecords`, `ArchiveStore` |
| Snapshots merged into an archive or restored over it | `SnapshotAliases`, `SnapshotMerge`, `MergeDecision`, `SnapshotSelection`, `SnapshotImport`, `SnapshotHistory`, `SnapshotRestore` |

`Bytes` holds bytes and 32-bit words, `Wrappers` the result types.

Most operations are described twice. One description is a function or relation in the shape of the source, which the method
is proved to compute. The other names neither: the formats are written out byte by byte with their literal numbers (`WalFormat`,
`SqlcipherFormat`, `PostboxFormat`, `MessageFormat`), limits are in terms of times, ids and counts (`NewestFirst`), imports field
by field (`RowChanges`, `ImportMeaning`), ids and forum pages case by case (`EventIdRules`, `ForumRun`), and merges by histories
and times (`MergeDecision`). Lemmas and contracts connect the two.

## Main results

1. **Capture.** Whatever a snapshot reader accepts while a writer appends, checkpoints and resets opens to exactly the
   state last committed in the log it captured (`SnapshotCapture.SnapshotIsCommitted`), even if checkpoint writes to the
   main file go unnoticed. An undisturbed attempt is always accepted, and the reader gives up exactly when five attempts
   are refused.
2. **Log replay.** A byte string is taken for a log of some transactions if and only if it is one that the SQLite file
   format prints, followed by uncommitted frames or anything else that is no frame (`WalFormat.AcceptedLogIsPrinted`); a
   database opens if and only if each page is sealed as SQLCipher seals it (`SqlcipherFormat.DatabaseOpensExactly`). One
   pass over the log gives what running its transactions one at a time gives exactly when no page that left the file after
   its last write has an older version to bring back (`WalRefinement.OnePassExact`, `WalMeaning.ReplayMeansExactly`). What
   SQLite writes meets that; `WalRefinement.UnwrittenRegrowthDiffers` is a log that does not. A log cut at any byte
   replays to a commit boundary, and one damaged aligned 8-byte block makes the scan keep exactly the frames before it
   (`WalDamage`).
3. **Postbox format.** The inputs the decoder accepts are exactly the wire forms within both limits
   (`PostboxFormat.AcceptedIsWired`, `PostboxRoundTrip.DecodeInvertsPrint`), and every value says what its wire form
   spells, at every depth (`PostboxDecoder.DecodeEntries`). Decoded values tell trees apart up to number width and the
   like (`PostboxMeaning.SameMeaning`). A message record is read exactly from its wire form
   (`MessageFormat.ReadsExactly`), and records are self-delimiting (`MessageRecord.MessageSelfDelimiting`).
4. **Limits.** Under limits an import keeps the newest messages of the newest chats, as many as the limits allow
   (`NewestFirst.LimitedIsNewest`, `PostboxSelection.ImportPostbox`). Pushing limits down to each account preserves the
   answer, for all limits at once, exactly when dropping undecodable keys is harmless (`LimitPushdown.PushdownExact`). It
   is harmless when every key decodes; in general it is not, because undecodable keys are dropped after limits are applied
   (`LimitPushdown.UndecodableKeyHidesMessage`). For whole imports over several accounts, chat filter included, see
   `PostboxSelection.ImportIsUnlimitedRead`.
5. **Forum topics.** Every collection request by request (`ForumRun.CollectionRuns`), soundness against every server and
   the exact outcome against an honest one (`ForumTopics.CollectionSound`, `ForumTopics.HonestCollection`).
6. **Event ids.** Every assigned id follows one rule (`EventIdRules.ImportedIdsAre`). Assigned ids are injective, stay
   inside their message's family and are stable on import of the same batch again; legacy ids do not depend on order and
   agree with the migration backfill (`EventIds`). A batch that brings some ids gets distinct ids exactly when none of
   those is also taken from the store (`EventIds.MixedIdsDistinctExactly`).
7. **Revision graph.** The ancestry test is exact on every map of links, and the fold picks the tip of an acyclic history
   in any row order. On acyclic histories the preference is a strict total order exactly when no skewed triple exists
   (`RevisionGraph.PreferOrdersExactly`), and the fold does not depend on row order exactly when some row is preferred to
   all the others (`RevisionGraph.PickOrderFree`); `RevisionGraph.PreferIsNotTransitive` is a triple where both fail.
   Remapping ids preserves ancestry both ways.
8. **Archive.** Whatever mix of merges, replacements, snapshot merges and restores an archive went through, its search
   index agrees with its rows (`ArchiveStore.Archive.Usable`, kept by every operation), and merges lose no revision. Each
   import makes of every table what its raw rows, field by field, and the deletions passed on to it make of it
   (`ImportMeaning.Imports`, `RowChanges.PassExactly`), and each written message adds exactly the revision it calls for
   (`MessageJournal.Journals`). Scoped propagation is global propagation exactly when the scope names every live row under
   a deleted parent (`TombstonePropagation.ScopedIsGlobal`), which a merge of canonically spelled chats ensures;
   `MergeFacts.NonCanonicalChatMissed` shows what goes wrong for a chat written "007". Under `MergeAll` and `ReplaceAll`
   each message has besides one unforked chain of revisions, which merges only extend at its tip, with the row at the tip
   unless a parent's deletion is there (`ArchiveStore.Archive.Valid`), as long as no imported tombstone borrows a parent's
   reason; `HistoryRecords.BorrowedReasonForks` is a run of three imports after which a chain forks.
9. **Snapshots.** New messages of a snapshot are inserted and rows it does not name stay
   (`SnapshotImport.SnapshotMerges`). Of two rows of a message the one kept is decided by histories and times alone, forks
   included (`MergeDecision.MergeDecides`). Message by message, merging a snapshot into any archive fast-forwards and
   never regresses, whatever the event times and under whatever ids the snapshot knows the message, and equal histories
   change a payload exactly when the snapshot's row overtakes the stored one (`SnapshotHistory.MergeFollowsHistory`). It
   asks of the two sides only that each holds the message's history as one chain whose last revision speaks for its row:
   it has the row's payload, or none has. Afterwards the message has exactly the longer history, and meets the conditions
   of the next merge exactly when that history speaks for the merged row (`SnapshotHistory.MergesCompose`). Every sound
   archive exports what this asks of a snapshot, and an archive of chains that merged snapshots does for each message that
   still meets this and whose live row is what its last revision observed (`SnapshotHistory.ChainedArchiveExports`).
10. **Backups.** Restoring the export of a settled archive of chains gives back every table and the index, and the
    revisions exactly when every deletion is at the tip of its chain, as it is in every sound archive; it is accepted
    exactly when every message has a source id (`SnapshotRestore.RestoreExport`).

Where the code and its description differ the model follows the code. `revisionDescendsFrom` reports that a revision does
not descend from itself even when links form a cycle, and the ancestry relation of the model says so.

## How the source's state is modelled

Loops, buffers, cursors and tables that the source updates are `array`s, classes and loops here (`ByteReading.ByteReader`,
`PostboxDecoder.Decoder`, `EventIdNormalizers.MessageTable`, `ArchiveStore.Archive`); each such method is tied to a
function of its inputs or its old state, and the lemmas are about that function. SQL tables are maps, times are whole
seconds with 0 for the zero time, and hashes and ciphers are parameters: hashes injective, page decryption arbitrary but
length-preserving.

## Model

| member | source | states |
|---|---|---|
| `WalChecksum.SqliteWalChecksum` | internal/telegramdesktop/postbox/wal.go:259-269 | The two-word loop computes the checksum fold of the byte string, for both byte orders, continuing from the given sums |
| `WalChecksum.ChecksumComposes` | internal/telegramdesktop/postbox/wal.go:259-269 | Checksumming 8-aligned chunks one after another is checksumming their concatenation |
| `WalChecksum.StepBijective` | internal/telegramdesktop/postbox/wal.go:259-269 | One step is a bijection on the pair of sums modulo 2^32: it has an explicit inverse, in both directions |
| `WalChecksum.StepInjectiveInBlock` | internal/telegramdesktop/postbox/wal.go:259-269 | From the same sums, different 8-byte blocks lead to different sums |
| `WalChecksum.ChecksumInjectiveInSum` | internal/telegramdesktop/postbox/wal.go:259-269 | The same data carries different sums to different sums |
| `WalChecksum.BlockChangeDetected` | internal/telegramdesktop/postbox/wal.go:259-269 | Two byte strings that differ in exactly one aligned 8-byte block never have the same checksum |
| `Sqlcipher.PageSizeIsValid` | internal/telegramdesktop/postbox/sqlcipher.go:72-91 | An accepted page size is a power of two between 512 and 65536, also when the header is encrypted or stores 1 |
| `Sqlcipher.DecryptPageInto` | internal/telegramdesktop/postbox/sqlcipher.go:93-118 | A page is written into its place exactly as the page relation says, the bytes around it stay; a page that is too short, misaligned or fails its HMAC leaves the buffer alone; an all-zero lock page is exempt |
| `Sqlcipher.DecryptPageAt` | internal/telegramdesktop/postbox/sqlcipher.go:93-118 | Page 1 keeps its 32 clear bytes, other pages are decrypted whole, into their own place only |
| `Sqlcipher.DecryptPages` | internal/telegramdesktop/postbox/sqlcipher.go:46-68 | The page loop fills the buffer with every page decrypted, or reports the first page that fails |
| `Sqlcipher.DecryptSqlcipherV4` | internal/telegramdesktop/postbox/sqlcipher.go:30-70 | Same image or same error as the page-by-page definition, over every input length and key length |
| `Sqlcipher.DecryptAllPointwise` | internal/telegramdesktop/postbox/sqlcipher.go:46-68 | A database decrypts exactly when each of its pages does, and then page by page; no page depends on another |
| `SqlcipherFormat.PageOpensExactly` | internal/telegramdesktop/postbox/sqlcipher.go:93-118 | By layout alone: what opens as a page is its clear bytes, blocks of 16 that the cipher decrypts under the vector behind them, and 64 bytes that authenticate blocks and vector under the page number, or the all-zero lock page; vector and authentication bytes stay as they are |
| `SqlcipherFormat.DatabaseOpensExactly` | internal/telegramdesktop/postbox/sqlcipher.go:30-70 | A byte string decrypts to an image if and only if the key has 48 bytes, it states a legal page size that divides it, and each page opens to the page of the image |
| `SqlcipherFormat.DatabaseRefuses` | internal/telegramdesktop/postbox/sqlcipher.go:30-70 | What decryption refuses, in order: a key that is not 48 bytes, fewer than 32 bytes, no legal page size or one that does not divide the data, and the first page that does not open |
| `Wal.CheckFrame` | internal/telegramdesktop/postbox/wal.go:180-201 | Accepts a frame exactly when its page number is set, its salts are the header's and its cumulative checksum matches, and returns the new sum |
| `Wal.ScanFrame` | internal/telegramdesktop/postbox/wal.go:180-201 | Moves one frame from unread to pending, or completes a transaction, or ends the log |
| `Wal.ScanFrames` | internal/telegramdesktop/postbox/wal.go:180-201 | The committed frame list is exactly the writes of all complete transactions before the first bad frame, in order, with the page count of the last commit |
| `Wal.OverlayPage` | internal/telegramdesktop/postbox/wal.go:235-254 | Replaces one page of the image and no other |
| `Wal.OverlayFrames` | internal/telegramdesktop/postbox/wal.go:235-254 | The overlay loop leaves the pages that applying the committed writes in order leaves, or the first decryption error among pages inside the image |
| `Wal.ApplySqlcipherV4Wal` | internal/telegramdesktop/postbox/wal.go:161-255 | The whole replay in place equals replaying the committed transactions over the image: unusable headers change nothing, a page-size mismatch and an excessive page count are errors |
| `WalFormat.ChecksumIsSums` | internal/telegramdesktop/postbox/wal.go:259-269 | The checksum is the sum rule of the SQLite file format, over words of the byte order asked for |
| `WalFormat.AcceptedLogIsPrinted` | internal/telegramdesktop/postbox/wal.go:161-201 | The scan finds a list of transactions in a byte string if and only if it is a log printed by the SQLite file format (magic 0x377f0682 or 0x377f0683 with sums of that byte order, a legal page size, salts, and frames of page number, commit size, salts and running sums) that groups into these transactions and uncommitted writes, with no further frame after them, or is no log and the list is empty |
| `WalFormat.PrintedTransactions` | internal/telegramdesktop/postbox/wal.go:161-201 | The transactions of a printed log are those printed, whatever uncommitted frames and other bytes follow |
| `WalFormat.PrintedReplay` | internal/telegramdesktop/postbox/wal.go:161-255 | Replaying a printed log does what its transactions do; any other byte string leaves the image as it is |
| `SqlcipherFormat.ReplayRefuses` | internal/telegramdesktop/postbox/wal.go:202-254 | What replay refuses, in order: an image that states no page size or another than the log's, a key that is not 48 bytes, a committed size that image, log and one more page cannot make up, and a write inside the image that does not open |
| `WalRefinement.RunTxnsAt` | internal/telegramdesktop/postbox/wal.go:180-254 | Running transactions one at a time, each resizing the image and then writing its pages, leaves a page zero if it lay outside the file after its last write, and otherwise with its last write in the whole log; for any log |
| `WalRefinement.OnePassExact` | internal/telegramdesktop/postbox/wal.go:180-254 | One pass over all committed writes equals the transactions run one at a time if and only if no lost page has an older version that is not zero; for any image and any log |
| `WalRefinement.OnePassRefinesTransactions` | internal/telegramdesktop/postbox/wal.go:180-254 | So they are equal for what SQLite writes: growing transactions write every page they add, and the lock-byte page stays unused |
| `WalRefinement.BoundNeverRejects` | internal/telegramdesktop/postbox/wal.go:222-230 | The bound on the page count never rejects a log whose growing transactions write what they add |
| `WalRefinement.UnwrittenRegrowthDiffers` | internal/telegramdesktop/postbox/wal.go:235-254 | A log that fails the condition: a shrink and a regrow that leaves its page unwritten brings the old page back |
| `WalMeaning.OverlayMeansOnePass` | internal/telegramdesktop/postbox/wal.go:202-254 | The overlay succeeds exactly when each write inside the final image authenticates, and is then the decryption of the encrypted one-pass image |
| `WalMeaning.ReplayMeansExactly` | internal/telegramdesktop/postbox/wal.go:161-255 | For any committed transactions, replay over a decrypted main file succeeds exactly when the committed size keeps the page bound and each write inside the final image authenticates; what it gives is the decryption of what the transactions leave if and only if each lost page decrypts as what replay puts there |
| `WalMeaning.ReplayMeansTransactions` | internal/telegramdesktop/postbox/wal.go:161-255 | For what SQLite writes replay always means the transactions, and the bound never rejects |
| `WalDamage.FramesCut` | internal/telegramdesktop/postbox/wal.go:180-201 | A log body cut at any byte keeps exactly the frames that still fit |
| `WalDamage.TransactionsPrefix` | internal/telegramdesktop/postbox/wal.go:187-201 | Fewer frames complete a prefix of the transactions |
| `WalDamage.CutReplaysToCommitBoundary` | internal/telegramdesktop/postbox/wal.go:161-255 | Cutting the log at any byte replays to the state, or the error, at some commit boundary |
| `WalDamage.DamagedFrameRejected` | internal/telegramdesktop/postbox/wal.go:183-201 | An accepted frame with one aligned 8-byte block changed is rejected, whichever of its blocks it is |
| `WalDamage.DamageCutsFrames` | internal/telegramdesktop/postbox/wal.go:183-201 | Such damage in frame j leaves exactly the j frames before it |
| `WalDamage.DamagedLogKeepsEarlierFrames` | internal/telegramdesktop/postbox/wal.go:180-201 | For a whole log: the scan keeps exactly the frames before the damage, so a prefix of the committed transactions |
| `SnapshotCapture.TryCapture` | internal/telegramdesktop/postbox/wal.go:105-143 | One attempt of stat, byte-by-byte log read, page-by-page main read and stat is accepted exactly when the two observations agree and describe what was read |
| `SnapshotCapture.AcceptedMeans` | internal/telegramdesktop/postbox/wal.go:58-103 | An attempt is accepted exactly when main size and time, presence, size, time and first 32 bytes of the log are the same before and after, the log that was read is as long and begins the same, and the main file was read to its size |
| `SnapshotCapture.ReadSqliteSnapshot` | internal/telegramdesktop/postbox/wal.go:105-143 | The capture of the first accepted attempt among five, each starting where the one before ended; nothing exactly when all five are refused |
| `SnapshotCapture.FirstAccepted` | internal/telegramdesktop/postbox/wal.go:105-143 | Whatever attempt it names was accepted |
| `SnapshotCapture.StepKeeps` | internal/telegramdesktop/postbox/wal.go:80-143 | Every writer step keeps each main page a committed version of that page and every page the file lacks in the log |
| `SnapshotCapture.RunInv` | internal/telegramdesktop/postbox/wal.go:80-143 | So does every reachable state of every run |
| `SnapshotCapture.WatchingIsBounded` | internal/telegramdesktop/postbox/wal.go:80-143 | Every view of a run stays within the sizes files can have, so the bound that the theorems name excludes nothing |
| `SnapshotCapture.AcceptedSawOneLog` | internal/telegramdesktop/postbox/wal.go:80-143 | During an accepted attempt the log never changed, provided log changes alter the fingerprint |
| `SnapshotCapture.AcceptedLog` | internal/telegramdesktop/postbox/wal.go:105-151 | An accepted attempt read the log that was there all the while, although it was read byte by byte |
| `SnapshotCapture.AcceptedCaptureIsCommitted` | internal/telegramdesktop/postbox/wal.go:80-143 | Every accepted capture replays to exactly the state last committed in the captured log, even if checkpoint writes to the main file went unnoticed |
| `SnapshotCapture.SnapshotIsCommitted` | internal/telegramdesktop/postbox/wal.go:105-143 | The same for the whole reader over any run, any instants and any number of attempts: the state is the one at the instant the accepted attempt read the log |
| `SnapshotCapture.QuietAttemptAccepted` | internal/telegramdesktop/postbox/wal.go:105-143 | An attempt during which nothing changes is accepted |
| `ByteReading.ByteReader.Read` | internal/telegramdesktop/postbox/decoder.go:42-49 | Reads n bytes inside the data and moves on by n; a negative or excessive length is refused and the cursor stays |
| `ByteReading.ByteReader.ReadBytes` | internal/telegramdesktop/postbox/decoder.go:99-114 | A length-prefixed field; a negative length is refused |
| `ByteReading.ByteReader.ShortString` | internal/telegramdesktop/postbox/decoder.go:124-134 | A field with a one-byte length |
| `ByteReading.ByteReader.Count` | internal/telegramdesktop/postbox/decoder.go:31-40 | An element count that is neither negative, nor above 2^20, nor more than the remaining bytes can hold |
| `ByteReading.I32ReadsBack` | internal/telegramdesktop/postbox/decoder.go:67-73 | A read yields a signed 32-bit value exactly where its little-endian form stands |
| `ByteReading.I64ReadsBack` | internal/telegramdesktop/postbox/decoder.go:83-89 | Likewise for signed 64-bit values |
| `ByteReading.BytesReadBack` | internal/telegramdesktop/postbox/decoder.go:99-114 | A length-prefixed field reads back, and only from its printed form |
| `ByteReading.ShortReadsBack` | internal/telegramdesktop/postbox/decoder.go:124-134 | Likewise for short strings |
| `ByteReading.CountReadsBack` | internal/telegramdesktop/postbox/decoder.go:31-40 | A printed count within the limit reads back when that many elements can follow; a larger one is refused |
| `PostboxRoundTrip.ValueReadsBack` | internal/telegramdesktop/postbox/decoder.go:208-328 | Each of the fourteen value types reads back anywhere in the data and takes exactly its own items from the shared budget |
| `PostboxRoundTrip.EntriesReadBack` | internal/telegramdesktop/postbox/decoder.go:189-206 | So do entries, at any depth and budget they fit in |
| `PostboxRoundTrip.EntriesRefused` | internal/telegramdesktop/postbox/decoder.go:189-206 | Entries that nest too deep or hold too many items for what is left are refused |
| `PostboxRoundTrip.DecodeInvertsPrint` | internal/telegramdesktop/postbox/decoder.go:160-363 | Decoding a printed entry tree returns the same tree exactly when it nests at most 64 objects and holds at most 2^20 items, and fails otherwise |
| `PostboxCanonical.EntriesFromText` | internal/telegramdesktop/postbox/decoder.go:189-206 | Entries that decode are the printed form of what they decode to, and took exactly its items |
| `PostboxCanonical.AcceptedIsPrinted` | internal/telegramdesktop/postbox/decoder.go:160-363 | An accepted input is the printed form of its tree and within both limits |
| `PostboxCanonical.AcceptedExactly` | internal/telegramdesktop/postbox/decoder.go:160-363 | An input decodes to a tree if and only if it is the printed form of that tree and the tree is within both limits |
| `PostboxFormat.AcceptedIsWired` | internal/telegramdesktop/postbox/decoder.go:160-363 | An input decodes to some entries if and only if it is their wire form, written out type by type with its literal type numbers and byte orders, and they nest at most 64 deep and hold at most 2^20 items |
| `PostboxDecoder.Decoder.Claim` | internal/telegramdesktop/postbox/decoder.go:173-179 | Takes items from the shared budget or refuses; the budget never goes below zero |
| `PostboxDecoder.Decoder.Count` | internal/telegramdesktop/postbox/decoder.go:181-187 | Reads a count and claims that many items |
| `PostboxDecoder.Decoder.ReadValue` | internal/telegramdesktop/postbox/decoder.go:208-328 | Reads a type byte and the value it announces, agreeing with the parse relation on value, cursor, budget and error |
| `PostboxDecoder.Decoder.Array` | internal/telegramdesktop/postbox/decoder.go:232-324 | The six array types, agreeing with the parse relation |
| `PostboxDecoder.Decoder.Objects` | internal/telegramdesktop/postbox/decoder.go:260-273 | The object array loop, agreeing with the parse relation |
| `PostboxDecoder.Decoder.ObjectPairs` | internal/telegramdesktop/postbox/decoder.go:274-291 | The pair array loop, agreeing with the parse relation |
| `PostboxDecoder.Decoder.ReadObject` | internal/telegramdesktop/postbox/decoder.go:330-363 | An object's entries are decoded by a child with its own cursor, one level deeper, never below level 64, on the same budget |
| `PostboxDecoder.Decoder.Entries` | internal/telegramdesktop/postbox/decoder.go:189-206 | Reads keys and values up to the end of the data; recursion ends because remaining bytes shrink |
| `PostboxDecoder.BuildPayload` | internal/telegramdesktop/postbox/decoder.go:354-362 | The payload map is the last value of every key under the two reserved entries |
| `PostboxDecoder.PayloadKeepsFields` | internal/telegramdesktop/postbox/decoder.go:354-362 | An object's payload keeps its type hash, its keys in order and the last value of each unreserved key, and nothing else: distinct unreserved keys lose nothing |
| `PostboxMeaning.ObjectMeaningExact` | internal/telegramdesktop/postbox/decoder.go:354-362 | Two objects with distinct unreserved keys decode to the same payload if and only if their type hashes, keys in order and values agree |
| `PostboxMeaning.SameMeaning` | internal/telegramdesktop/postbox/decoder.go:208-363 | At every nesting level: trees with distinct unreserved keys decode to the same value if and only if they differ at most in number width, the byte of a bool and the type of an empty array |
| `PostboxDecoder.DecodeEntries` | internal/telegramdesktop/postbox/decoder.go:160-164 | Exactly the wire forms within 64 levels and 2^20 items decode, and the value of each entry says what its wire form spells: the integer, true exactly for a byte other than zero, the text, data or float bits, null, arrays in order, pairs left and right, and objects by type hash and the last value of each unreserved key, at every depth |
| `PostboxDecoder.DecodeObject` | internal/telegramdesktop/postbox/decoder.go:139-152 | The payload of the root object, saying what its fields spell, nothing when there is no root, or an error exactly for what is no wire form within the limits |
| `PostboxDecoder.DecodedSays` | internal/telegramdesktop/postbox/decoder.go:208-363 | Decoded values say what the entries spell, type by type, at every depth |
| `PostboxDecoder.RootSays` | internal/telegramdesktop/postbox/decoder.go:139-152 | The root payload says what the fields of the first object named "_" spell |
| `PostboxDecoder.RootIsFirst` | internal/telegramdesktop/postbox/decoder.go:139-152 | The root is the first entry named "_" that holds an object |
| `MessageRecord.RecordReadsBack` | internal/telegramdesktop/postbox/postbox.go:59-190 | A printed record reads back from any offset, whatever follows it |
| `MessageRecord.RecordFromText` | internal/telegramdesktop/postbox/postbox.go:59-190 | Whatever reads as a record begins with that record's printed form |
| `MessageRecord.MessageSelfDelimiting` | internal/telegramdesktop/postbox/postbox.go:59-238 | For every combination of optional header, forward-info and author fields: reading a printed record gives the same message whatever bytes follow, and every proper prefix is rejected |
| `MessageFormat.ReadsExactly` | internal/telegramdesktop/postbox/postbox.go:59-238 | A byte string is read as a message if and only if it starts with a wire form, every flag and field written out, and the message then has that form's own flags, tags, author, text, references and the roots of its media; it is skipped if and only if it starts with another version |
| `MessageRecord.MediaItemsAreTexts` | internal/telegramdesktop/postbox/postbox.go:146-163 | Reading embedded media is reading byte strings of which each one decodes |
| `MessageRecord.SkipExtras` | internal/telegramdesktop/postbox/postbox.go:78-108 | Steps over exactly the optional header fields whose bits are set |
| `MessageRecord.ReadForwardInfo` | internal/telegramdesktop/postbox/postbox.go:192-238 | Steps over exactly the forward info that its flags announce |
| `MessageRecord.ReadAuthor` | internal/telegramdesktop/postbox/postbox.go:120-132 | The author is present exactly when its flag is 1 |
| `MessageRecord.ReadMessage` | internal/telegramdesktop/postbox/postbox.go:59-190 | The imperative reader computes the record grammar: same message, same error, and nothing for a value of another kind |
| `LimitPushdown.KeptChatUnchanged` | internal/telegramdesktop/postbox/records.go:370-439 | In a chat that a limited read keeps, the newest time and the number of newer messages are as if everything had been read |
| `LimitPushdown.SelectedChats` | internal/telegramdesktop/importer.go:359-399 | Limiting the limited read selects exactly the chats that limiting everything selects |
| `LimitPushdown.PushdownHolds` | internal/telegramdesktop/importer.go:225-237 | Reading with both limits pushed down and limiting again gives what limiting once gives, for any limits |
| `LimitPushdown.PushdownExact` | internal/telegramdesktop/postbox/records.go:282-306 | It does so for all limits if and only if no undecodable key is newer than a message of its chat or pushes a chat down its account's ranking |
| `LimitPushdown.AllDecodeHarmless` | internal/telegramdesktop/postbox/records.go:282-306 | That holds when every key decodes |
| `LimitPushdown.NewerKeyDisplaces` | internal/telegramdesktop/postbox/records.go:297-303 | Otherwise, an undecodable newer key displaces a message under some limit |
| `LimitPushdown.GhostChatDisplaces` | internal/telegramdesktop/postbox/records.go:297-303 | Otherwise, a chat of undecodable keys displaces a chat under some limit |
| `LimitPushdown.UndecodableKeyHidesMessage` | internal/telegramdesktop/postbox/records.go:297-303 | A concrete store where a limit of one message returns nothing although the chat has a message |
| `PostboxSelection.ParseMessageKey` | internal/telegramdesktop/postbox/records.go:441-458 | The signed big-endian fields of a key and the ids derived from them; exactly the keys that are too short stand for no message |
| `PostboxSelection.NewestTime` | internal/telegramdesktop/postbox/records.go:399-404 | The newest time of a chat, zero at least |
| `PostboxSelection.GroupRows` | internal/telegramdesktop/postbox/records.go:376-411 | Groups rows by peer: each row in exactly one group, with the newest time of its chat |
| `PostboxSelection.RankAndCut` | internal/telegramdesktop/postbox/records.go:412-434 | Sorting groups and rows and truncating both leaves the newest messages of the newest chats, as many as the limits allow |
| `PostboxSelection.CutIsLimited` | internal/telegramdesktop/postbox/records.go:412-434 | Cutting the sorted groups keeps exactly the newest messages of the highest-ranked chats, each once |
| `NewestFirst.LimitedIsNewest` | internal/telegramdesktop/importer.go:359-408 | The limited set in terms of times, ids and counts: no dropped chat has a newer message than a kept one, nor an equally new one with a smaller id; no dropped message of a kept chat is newer; and both counts are the smaller of limit and what there is |
| `PostboxSelection.SelectMessageKeys` | internal/telegramdesktop/postbox/records.go:370-439 | The keys to read are those of the newest messages of the newest chats that match the filter, in key order: a kept chat has as new a message as any dropped one, at equal times the smaller id, a kept message is newer than a dropped one of its chat, and exactly as many are kept as the limits allow |
| `PostboxSelection.LoadMessageRecords` | internal/telegramdesktop/postbox/records.go:245-306 | An account's records: the selected keys that decode, or an error exactly when a selected record is broken |
| `PostboxSelection.ApplyPostboxLimits` | internal/telegramdesktop/importer.go:359-408 | Keeps the newest messages of the newest chats, in those terms, sorted from oldest to newest |
| `PostboxSelection.UniteAccounts` | internal/telegramdesktop/importer.go:225-237 | The union holds each message of each account once, in any account order; an error exactly when some account reads a broken record |
| `PostboxSelection.FilterPostboxChat` | internal/telegramdesktop/importer.go:345-357 | Keeps exactly the messages of the chat, by store id or raw id |
| `PostboxSelection.ImportPostbox` | internal/telegramdesktop/importer.go:171-332 | The whole import in terms of times, ids and counts: in each account the newest messages of its newest chats are read, as many as the limits allow; a broken record among these is an error, else finding no message for a chat filter is, else the result is the newest of the messages read, once more as many as the limits allow, from oldest to newest |
| `PostboxSelection.ImportIsNewest` | internal/telegramdesktop/importer.go:171-332 | Likewise for whatever the limited reads and the final limit return |
| `PostboxSelection.ImportIsUnlimitedRead` | internal/telegramdesktop/importer.go:225-237 | The import returns the same list, or the same refusal, as reading every key of every account, filtering by chat and limiting once, when no record is broken and dropping undecodable keys is harmless |
| `PostboxSelection.AllRowsFiltered` | internal/telegramdesktop/postbox/records.go:460-467 | Filtering keys by chat as they are listed selects the rows that filtering all rows at the end selects |
| `PostboxSelection.RowsAsked` | internal/telegramdesktop/postbox/records.go:441-467 | The rows an import is about are exactly those whose chat, peer, namespace, time and message id some key spells and whose store id or peer id is the trimmed filter, if it is not blank |
| `PostboxSelection.ImportOrderFree` | internal/telegramdesktop/importer.go:185-237 | Imports over the same accounts in any order return the same list or the same error |
| `ForumTopics.ForumTopicOffsets` | internal/telegramdesktop/tdata.go:742-756 | The next offsets are the function of the page that the collection uses |
| `ForumRun.OffsetsMean` | internal/telegramdesktop/tdata.go:742-756 | The next offsets are the date and id of the first message that is the last topic's top message, with the topic's own date when topics go by creation, else the topic's date and no message |
| `ForumTopics.AddPage` | internal/telegramdesktop/tdata.go:708-721 | Adds the topics of one page whose ids are new, in order |
| `ForumTopics.CollectForumTopics` | internal/telegramdesktop/tdata.go:679-740 | The loop computes the collection for every server, cancellation and page cap |
| `ForumTopics.CollectSound` | internal/telegramdesktop/tdata.go:679-740 | From any state: requests are bounded by topics gained plus one and by the cap, and success has a reason |
| `ForumTopics.CollectionSound` | internal/telegramdesktop/tdata.go:679-740 | Whatever the server answers: topic ids are distinct and were served, every usable id served is returned, requests exceed topics by at most one and never the cap, and success means an empty or no-usable-topic page, or a duplicate-only page at or above the advertised count |
| `ForumRun.CollectionRuns` | internal/telegramdesktop/tdata.go:679-740 | Every collection request by request: it starts from the zero cursor, each page but the last has a topic not seen before and leads to a cursor not used before, which the next request is sent from, and the last page, cancellation, error or the cap of 1000 pages is what the ending says |
| `ForumRun.CollectionFirsts` | internal/telegramdesktop/tdata.go:708-721 | The topics returned are the first of each id among the live topics served, in the order served |
| `ForumTopics.HonestCollection` | internal/telegramdesktop/tdata.go:679-740 | Against a fixed list served in consecutive segments it returns the live topics before the first segment without one; so the whole list with success exactly when no live topic follows such a segment and the cap leaves a request for the end |
| `RevisionGraph.RevisionDescendsFrom` | internal/store/snapshot_import.go:254-269 | True exactly when following predecessors from one revision reaches the other, different one; on any map, cyclic ones included, and it always ends |
| `RevisionGraph.DescendsTransitive` | internal/store/snapshot_import.go:254-269 | On acyclic histories descent is transitive |
| `RevisionGraph.DescendsAsymmetric` | internal/store/snapshot_import.go:254-269 | On acyclic histories descent is asymmetric |
| `RevisionGraph.PreferRevisionOrder` | internal/store/snapshot_import.go:271-292 | A descendant is preferred, else the later by time and then id |
| `RevisionGraph.PickTip` | internal/store/tombstone.go:295-313 | The fold over the query rows picks what folding the preference picks |
| `RevisionGraph.PickFindsWinner` | internal/store/tombstone.go:295-313 | In any row order the fold picks a row that is preferred to every other one and to which none is preferred |
| `RevisionGraph.PickOrderFree` | internal/store/tombstone.go:295-313 | Among rows of which exactly one of every two is preferred, the fold gives the same row for every order of them if and only if some row is preferred to all the others |
| `RevisionGraph.AcyclicDecides` | internal/store/snapshot_import.go:271-292 | On acyclic histories with distinct ids exactly one of every two rows is preferred |
| `RevisionGraph.PickFindsDescendant` | internal/store/tombstone.go:295-313 | In any row order the fold picks the row that descends from all others when none descends from it, cyclic links or not |
| `RevisionGraph.PickFindsTip` | internal/store/tombstone.go:295-313 | On acyclic histories it always picks the tip |
| `RevisionGraph.PreferIsTimeOrder` | internal/store/snapshot_import.go:271-292 | On acyclic histories the preference is the order by time and id if and only if no revision descends from one that order puts after it |
| `RevisionGraph.PreferOrdersExactly` | internal/store/snapshot_import.go:271-292 | On acyclic histories with distinct ids the preference is a strict total order if and only if no revision descends from one while an unrelated revision lies later than the descendant and earlier than the ancestor |
| `RevisionGraph.CycleIsSkewed` | internal/store/snapshot_import.go:271-292 | Every cycle of three preferences has one step of descent against two of time |
| `RevisionGraph.PreferOrders` | internal/store/snapshot_import.go:271-292 | It is a strict total order when times strictly increase along links |
| `RevisionGraph.PreferIsNotTransitive` | internal/store/snapshot_import.go:271-292 | Three such revisions, whose preference is a cycle, so that the fold depends on row order |
| `RevisionRemap.RemapRevisionID` | internal/store/snapshot_import.go:206-231 | The memoised recursion ends on every history and computes the new id on acyclic ones, whatever the memo holds |
| `RevisionRemap.RemapRevisions` | internal/store/snapshot_import.go:232-242 | Every revision gets its aliased message, new id and remapped predecessor |
| `RevisionRemap.LinkNamesParent` | internal/store/snapshot_import.go:200-243 | Every remapped link names the remapped parent |
| `RevisionRemap.NewIdInjective` | internal/store/snapshot_import.go:200-243 | Distinct revisions keep distinct ids under injective aliases |
| `RevisionRemap.RemapPreservesAncestry` | internal/store/snapshot_import.go:137-244 | Ancestry is preserved in both directions |
| `SnapshotAliases.OnlyMatch` | internal/store/snapshot_import.go:184-192 | The stored row with the given source id, when there is exactly one |
| `SnapshotAliases.ResolveAliases` | internal/store/snapshot_import.go:137-199 | Each snapshot message whose id is not stored is taken for the only stored row of its Telegram message, or the only one with its source id, else for itself |
| `SnapshotAliases.AliasMeaning` | internal/store/snapshot_import.go:137-199 | A stored id is kept; otherwise the message is taken for the only stored row of its key, when it is the only one of the snapshot, or for the only one with its source id; else it keeps its own |
| `SnapshotAliases.AliasesSeparate` | internal/store/snapshot_import.go:137-199 | An alias is a stored id of the same message, and two messages with different sources are never taken for the same stored row |
| `EventIds.FreeId` | internal/store/export.go:155-165 | The suffix search ends, by pigeonhole over the used ids, with a non-empty id that is not taken |
| `EventIds.FindFreeId` | internal/store/export.go:155-165 | The loop finds the first free candidate |
| `EventIdRules.ImportedIdsAre` | internal/store/export.go:81-170 | Every message keeps the id it brings; one alone under its key takes the only stored id of that key; otherwise the first stored id of its source; otherwise the first free of its wishes, which begin with the plain hash of the key unless the key is shared, and go on with hashes of key, source id and number; free is what is not stored, brought by another message, or given to one that sorts sooner |
| `EventIdRules.LegacyIdsAre` | internal/store/export.go:33-79 | Likewise in a legacy snapshot, where nothing is stored and source ids sort first |
| `EventIds.ImportedIdsInjective` | internal/store/export.go:81-170 | A batch without ids gets pairwise distinct, non-empty ids, none that belongs to a stored row of another message |
| `EventIds.ImportedIdsStayInFamily` | internal/store/export.go:81-170 | Even with repeated sources, ids never cross from one Telegram message to another |
| `EventIds.MixedIdsDistinctExactly` | internal/store/export.go:81-170 | A batch of which some messages bring distinct ids gets pairwise distinct ids if and only if no message without an id takes, alone in its family or by source id, a stored id that the batch brings |
| `EventIds.MixedBatchCollides` | internal/store/export.go:136-140 | A batch that brings the id of the only stored row of a message and has another message of that family: both get that id |
| `EventIds.ReimportKeepsIds` | internal/store/export.go:81-170 | Importing the batch again after storing it assigns the same ids, also when a lone row's source id has drifted |
| `EventIds.LegacyIdsFresh` | internal/store/export.go:33-79 | Legacy assignment keeps ids that are there and gives each message without one a non-empty id used nowhere else |
| `EventIds.LegacyIdsOrderFree` | internal/store/export.go:33-79 | It does not depend on the order of the slice |
| `EventIds.LegacyAgreesWithBackfill` | internal/store/export.go:33-79 | With all ids missing it gives row by row what the migration backfill gives |
| `EventIdNormalizers.ChooseImportedId` | internal/store/export.go:136-167 | The id from the stored family by source id, by being alone, or fresh |
| `EventIdNormalizers.Survey` | internal/store/export.go:38-52 | Collects the given ids, the counts per message and the indexes without an id |
| `EventIdNormalizers.NormalizeImported` | internal/store/export.go:81-170 | In place: every message without an id takes its id in its own slot, the others stay |
| `EventIdNormalizers.NormalizeLegacy` | internal/store/export.go:33-79 | The same for old snapshots |
| `EventIdNormalizers.NextBatch` | internal/store/store.go:1151-1175 | The rows next after the (source id, rowid) cursor, in order |
| `EventIdNormalizers.MessageTable.BackfillBatch` | internal/store/store.go:1179-1193 | A batch moves the cursor past exactly its rows and updates them |
| `EventIdNormalizers.MessageTable.BackfillMessageEventIDs` | internal/store/store.go:1146-1195 | Batch after batch, every row without an id gets one and every other row stays; no row is visited twice or skipped |
| `EventIdNormalizers.BackfilledMeans` | internal/store/store.go:1146-1195 | A row whose id is spaces or nothing gets the hash of its key, with its source id if another row has the key; every other row and field stays |
| `EventIdNormalizers.SnapshotAgreesWithBackfill` | internal/store/store.go:1146-1195 | A snapshot that lists a table without ids gets, row by row, the ids the backfill gives the table |
| `TombstonePropagation.PropagateSettles` | internal/store/tombstone.go:526-579 | One unscoped pass leaves no live row under a deleted folder, chat, topic or group |
| `RowChanges.PassExactly` | internal/store/tombstone.go:526-579 | A pass row by row, within any scope: a live message takes time and source of its deleted chat, else of its deleted topic, with the reason that names which; so do memberships from folder, else chat, topics from chat and participants from group; nothing else changes |
| `TombstonePropagation.ScopedIsGlobal` | internal/store/tombstone.go:526-579 | The scoped pass gives the same tables as the unscoped one if and only if the scope names every live row under a deleted parent |
| `TombstonePropagation.BatchScopeSuffices` | internal/store/tombstone.go:452-486 | On a settled archive a batch's own scope is enough: same tables as the unscoped pass, and settled everywhere |
| `RevisionChain.ChainDescends` | internal/store/tombstone.go:266-315 | On a chain later revisions descend from earlier ones |
| `RevisionChain.LastIsPicked` | internal/store/tombstone.go:266-315 | Among the revisions of a chain with a payload the last is preferred, in any row order and whatever the times |
| `RevisionChain.MessageRevisionPredecessor` | internal/store/tombstone.go:266-315 | The predecessor is the last revision with the stored row's payload, else the tip; some revision exactly when the message has any |
| `RevisionChain.AppendExtends` | internal/store/tombstone.go:210-264 | A revision after the tip has a new id and extends its message's chain by one |
| `MessageJournal.UpsertWritesRow` | internal/store/tombstone.go:97-121 | The upsert, which fills empty media from the stored row again, writes the row that the deletion and media rules made |
| `RowChanges.WrittenBecomes` | internal/store/store.go:568-614 | A message written over a stored one, field by field: a deletion leaves all but the tombstone; any other brings every field, except that an empty media type, title or address, and path and size without a path, stay as stored. Each row of the table is what its own writes make of it so |
| `RowChanges.UpsertedBecomes` | internal/store/store.go:417-539 | A parent row written over a known one is replaced, or for a deletion only takes its tombstone; when tombstones are preserved a deletion, or a write over a deleted row, changes nothing |
| `MessageJournal.PredecessorIsTip` | internal/store/tombstone.go:266-360 | Under the invariant the predecessor a write finds is the tip, whatever payloads the history repeats |
| `MessageJournal.WriteExtendsExactly` | internal/store/tombstone.go:266-360 | Whatever tombstones were imported, a write extends its message's chain if and only if the tip has the stored row's payload or no revision has |
| `MessageJournal.WrittenSound` | internal/store/store.go:568-614 | Writing one message keeps one unforked chain per message that only grows at its tip, with the row at the tip |
| `MessageJournal.WrittenJournals` | internal/store/tombstone.go:317-360 | A write whose row says what the stored one said adds no revision; any other adds one that records the row, of the type and time the row and its past call for, after a revision of the message, and of one that recorded the stored row if any did |
| `MessageJournal.RecordOne` | internal/store/tombstone.go:581-670 | Recording a parent's deletion appends one revision, for exactly that deletion, to a chain whose tip recorded the live row |
| `MessageJournal.RecordedStep` | internal/store/tombstone.go:581-670 | Only deletions whose tip is not already that deletion get a revision |
| `MessageJournal.IndexedAgrees` | internal/store/store.go:589-614 | Writing a row keeps one index entry per live message, derived from the row, and none for deleted ones |
| `HistoryRecords.RecordingKeeps` | internal/store/tombstone.go:581-670 | Recording one deletion over any history: no revision is lost, only that message gets one, the deletion is known, and each chain is as it was or ends with it |
| `HistoryRecords.ChainsRecordedStep` | internal/store/tombstone.go:581-670 | Recordings of different messages add up, chain by chain |
| `HistoryRecords.BorrowedReasonForks` | internal/store/tombstone.go:266-360 | From an empty archive: a message imported as deleted under a parent's reason, imported again live, then reached by its chat's deletion at that time; whatever is written next follows the first revision and forks the chain |
| `ImportBatch.NormalizeTombstone` | internal/store/tombstone.go:131-152 | Refused exactly when a source or reason comes without a time; a deletion keeps its time, source and reason, a missing source is the trimmed one of the import or "unknown", a missing reason the default, and neither is blank in the end |
| `ImportBatch.NormalizeMessage` | internal/store/tombstone.go:154-164 | Refused exactly for a blank chat or message id or a tombstone without a time; otherwise its content stays and it is deleted exactly when a time is given |
| `ImportMeaning.PreparedAs` | internal/store/tombstone.go:131-164 | A batch is refused exactly when a row names a deletion's source or reason without a time or a message names no chat or id; otherwise each row keeps key and value, and its tombstone has the time, source and reason stated, or for a blank one the trimmed import source or "unknown", and the explicit reason of its table |
| `TextOrder.TrimBare` | internal/store/tombstone.go:131-156 | What trimming white space leaves is bare at both ends, and empty exactly for a blank text |
| `TextOrder.TrimTakesSpaces` | internal/store/tombstone.go:131-156 | Trimming takes white-space characters off both ends and nothing else |
| `ImportBatch.UpsertAllElsewhere` | internal/store/store.go:417-539 | Writing a batch changes only rows it names |
| `ImportBatch.WriteAllSound` | internal/store/store.go:568-614 | Writing a whole batch of messages keeps every chain sound and only grows it |
| `ImportBatch.RowWritten` | internal/store/store.go:568-614 | Whatever rows are written, each row is afterwards as before or made by the last message written under its id |
| `ImportBatch.WriteAllRows` | internal/store/store.go:568-614 | What writing a batch makes of the rows does not depend on any revision |
| `ChatAggregates.LastTime` | internal/store/tombstone.go:692-702 | The latest time among some messages, or zero |
| `ChatAggregates.RecomputeChatAggregates` | internal/store/tombstone.go:692-702 | Each live chat named by the batch gets the count and last time of its live messages; every other chat row stays |
| `MergeFacts.BatchTouches` | internal/store/tombstone.go:452-486 | Every row a merge deletes as a parent or brings to life as a child is in its scope, when its chats are spelled canonically, whatever rows of the batch are written |
| `MergeFacts.PropagateReaches` | internal/store/tombstone.go:526-579 | A message is as before, or took a parent's tombstone inside the scope and nothing else changed |
| `MergeFacts.PropagatePartly` | internal/store/tombstone.go:526-670 | After propagation each tip records its row, or awaits exactly one deletion record inside the scope |
| `MergeFacts.PruneAgrees` | internal/store/tombstone.go:714-725 | Pruning the scope's deleted messages makes the index agree with the table again, everywhere |
| `MergeFacts.NonCanonicalChatMissed` | internal/store/tombstone.go:452-579 | A chat written "007" makes the scoped pass leave a message that the unscoped pass deletes |
| `MergeCounts.PropagateSpares` | internal/store/tombstone.go:526-579 | Propagation reaches a message only through a deleted chat or a topic in scope |
| `MergeCounts.MergeCounted` | internal/store/tombstone.go:672-702 | Recounting only the affected chats leaves every live chat's count and last time equal to a recount |
| `TidyRows.PreparedTidy` | internal/store/tombstone.go:131-164 | An accepted batch writes only whole tombstones, with time, source and reason, and messages that name their chat and id |
| `TidyRows.PropagatedTidy` | internal/store/tombstone.go:526-579 | A pass hands on whole tombstones |
| `TidyRows.StagedTidy` | internal/store/store.go:417-539 | Written rows and the pass after them keep every tombstone whole |
| `ArchiveStore.Archive.constructor` | internal/store/store.go:292-318 | The empty archive has all the invariants: sound chains, settled parents, right counts, whole tombstones and a usable index |
| `ArchiveStore.Archive.WriteMessage` | internal/store/store.go:568-614 | One message over any archive: its row, its index entry and exactly the revision that its row and past call for, every message keeping a revision; where every chain was sound, the chains after the write are those of the journal after it, sound again and grown only at the tip |
| `ArchiveStore.Archive.WriteMessages` | internal/store/store.go:568-614 | The message loop, with the same guarantees for the whole batch |
| `ArchiveStore.Archive.PropagateTombstones` | internal/store/tombstone.go:526-579 | The six statements in order |
| `ArchiveStore.Archive.RecordDeletion` | internal/store/tombstone.go:629-667 | Over any history: the deletion is known afterwards, other messages get nothing, and the message's chain has it at the end unless it was there; between merges of sound archives the journal is the one with that one record |
| `ArchiveStore.Archive.RecordPropagatedMessageDeletions` | internal/store/tombstone.go:581-670 | Over any history every deletion in scope is known afterwards and each chain is as it was or ends with it; between merges of sound archives exactly the unrecorded ones get one revision each, and the archive is sound again |
| `ArchiveStore.Archive.PruneDeletedMessageFTS` | internal/store/tombstone.go:714-725 | Removes exactly the entries of deleted messages in scope |
| `ArchiveStore.Archive.RebuildMessageFTS` | internal/store/tombstone.go:704-712 | The index is exactly the live messages |
| `ArchiveStore.Archive.AssignEventIds` | internal/store/export.go:81-170 | A batch gets the ids the normalizer gives it beside the stored rows |
| `ArchiveStore.BatchIds` | internal/store/export.go:81-170 | A message keeps the id it brings, a blank one is replaced by a hash, and without one it gets the id the import rule names beside the stored rows |
| `ArchiveStore.Archive.WriteImport` | internal/store/store.go:417-539 | Parents, then messages, over any archive; a sound archive stays sound, each chain only grown |
| `ArchiveStore.Archive.SettleDeletions` | internal/store/tombstone.go:526-670 | Propagation and its records over any archive, and from sound to sound |
| `ArchiveStore.Archive.MergeAll` | internal/store/store.go:292-318 | A malformed row refuses the batch and changes nothing. Otherwise, over any archive: the index agrees with the rows, no revision is lost, every message keeps a revision and every deletion in scope is known, tombstones stay whole, the scoped pass did what an unscoped one does and left a settled archive settled, and right counts stay right. A sound archive stays sound, its chains only grown at their tips. Every table is what its raw rows make of it: each message and parent row by its own writes, field by field, then by the deletions passed on to it |
| `ArchiveStore.Archive.ReplaceAll` | internal/store/store.go:391-415 | Replaces everything: rows from nothing after one full pass, with index, revisions, whole tombstones and settled parents, the batch's own chat counts kept; sound chains if its tombstones are its own. Every table is what its raw rows make of nothing, field by field |
| `ArchiveStore.MergeSettles` | internal/store/store.go:292-318 | What a merge guarantees about parents and counts, for any tables |
| `ArchiveStore.DerivedIdsKeepChats` | internal/store/export.go:81-170 | Derived ids never move a stored message to another chat |
| `SnapshotMerge.PreferredIsLast` | internal/store/snapshot_import.go:380-400 | Among the rows of both sides the last revision of a chain with the payload is preferred |
| `SnapshotMerge.TipSpeaks` | internal/store/snapshot_import.go:422-435 | When the last revision of a chain has the row's payload, or none has, it is the revision a merge compares for the row |
| `SnapshotMerge.FastForward` | internal/store/snapshot_import.go:303-470 | If the stored history is a proper prefix of the snapshot's, the snapshot's row is installed whatever the event times, also over a row whose last revision does not record it: field by field as a message written over a stored one, except that a stored media path and size stay |
| `SnapshotMerge.NeverRegresses` | internal/store/snapshot_import.go:303-470 | If the snapshot's history is a proper prefix of the stored one, the row's payload is unchanged whatever the event times, also when its last revision does not record the row |
| `SnapshotMerge.SameHistoryExactly` | internal/store/snapshot_import.go:303-470 | Equal histories leave the payload unchanged if and only if the snapshot's row does not overtake the stored one: a different row with a later time that is no revival |
| `SnapshotMerge.SameHistory` | internal/store/snapshot_import.go:303-470 | Equal histories whose last revisions record both rows leave the payload unchanged, propagated deletions included |
| `MergeDecision.MergeDecides` | internal/store/snapshot_import.go:254-468 | Of two rows whose histories are chains, forks included, the snapshot's is written exactly when they say the same or its history goes on from the stored one; never from a history the stored one goes on from, nor over a deletion otherwise; and else when its time is later, or equal with the greater last revision id |
| `MergeDecision.ClockDecides` | internal/store/snapshot_import.go:403-468 | Without revisions in the snapshot a row is written exactly when both say the same, or its edit or sending time is later and it does not revive a deleted one |
| `MergeDecision.HistoryAgainstClock` | internal/store/snapshot_import.go:403-468 | Without stored revisions the time of the snapshot's history is compared with the stored row's own |
| `SnapshotSelection.FoldRevisions` | internal/store/snapshot_import.go:380-400 | The maps hold, per payload and per message, what folding the preference over the rows gives |
| `SnapshotSelection.Replaces` | internal/store/snapshot_import.go:403-468 | One row is written exactly when the revision graph, or without one the clock, prefers it |
| `SnapshotSelection.MergeableSnapshotMessages` | internal/store/snapshot_import.go:303-470 | The rows to write: the new ones and those preferred, in order, with the destination's media |
| `SnapshotImport.WriteRowsOnly` | internal/store/store.go:568-614 | Rows without revisions, keeping the index in agreement |
| `SnapshotImport.InsertRevisions` | internal/store/tombstone.go:249-264 | Adds revisions whose id is new and changes none |
| `SnapshotImport.SeedMissingMessageBaselines` | internal/store/tombstone.go:362-438 | A baseline for exactly the messages without a revision; then every message has one, and chains that were there stay |
| `SnapshotImport.NormalizeLegacyEventIDs` | internal/store/export.go:29-31 | An old snapshot's messages get their legacy ids |
| `SnapshotImport.ChooseRows` | internal/store/snapshot_import.go:80-91 | Aliases, remapped revisions and the rows to write, as the resolution and selection define them |
| `SnapshotImport.ChosenRows` | internal/store/snapshot_import.go:303-470 | Whatever was chosen: every message of the snapshot has a row under its alias afterwards, no other row is new, rows that no message goes under stay, and a row that was not stored and one message goes under is that message |
| `SnapshotImport.PreparedSnapshotAs` | internal/store/tombstone.go:131-164 | A snapshot is malformed exactly for a row of its batch, groups or participants that is refused; otherwise groups and participants are made ready like the rest |
| `SnapshotImport.MergedRow` | internal/store/snapshot_import.go:303-470 | A stored message that the snapshot names once becomes what the revision graph decides, whatever else is merged |
| `SnapshotHistory.RenamedOffered` | internal/store/snapshot_import.go:200-243 | Under the ids a merge gives them, the revisions of a snapshot's message are again a chain of content hashes, each the same event as before, whose last one speaks for its row |
| `SnapshotHistory.NewChainKept` | internal/store/snapshot_import.go:206-243 | A message stored under its own id keeps the ids of its history |
| `SnapshotHistory.OnlyOneNamed` | internal/store/snapshot_import.go:137-199 | The message taken for a stored row is the only one whose revisions are renamed to it |
| `SnapshotHistory.ChainedArchiveExports` | internal/store/export.go:200-247 | So has what any archive of chains exports of a message whose last revision speaks for its row, archives that merged snapshots included |
| `SnapshotHistory.SoundHolds` | internal/store/store.go:568-614 | Every message of a sound archive meets what the merge theorem asks of the destination |
| `SnapshotHistory.SoundArchiveExports` | internal/store/export.go:200-247 | What an archive with sound chains exports of a message has what the merge theorem asks of a snapshot |
| `SnapshotHistory.LiveParentsSpare` | internal/store/tombstone.go:526-579 | A message whose chat and topic are live is not changed by any pass |
| `SnapshotHistory.MergeFollowsHistory` | internal/store/snapshot_import.go:37-470 | After the whole merge into any archive, aliasing included, under live parents, for each message of which both sides hold one chain whose last revision speaks for its row: if its stored history is a proper prefix of the snapshot's it takes the snapshot's row; if the snapshot's is a proper prefix of the stored one it keeps its payload, whatever the event times; if both are the same it keeps it exactly when the snapshot's row does not overtake it. In every case, forked histories included, the row is installed field by field exactly when it supersedes the stored one, and otherwise the row stays |
| `SnapshotHistory.SoundNeverOvertaken` | internal/store/snapshot_import.go:303-470 | Between sound archives equal histories never overtake, so importing an unchanged snapshot again keeps every payload |
| `SnapshotHistory.MergedChain` | internal/store/snapshot_import.go:37-108 | Inserting the revisions leaves the message exactly the longer of the two histories, under the ids the merge gives it |
| `SnapshotHistory.MergesCompose` | internal/store/snapshot_import.go:37-135 | After the whole merge, deletions recorded, the message has exactly the longer history, and it meets the conditions of the next merge if and only if that history speaks for the merged row |
| `SnapshotImport.SnapshotTouches` | internal/store/tombstone.go:452-486 | Every row a snapshot deletes as a parent or brings to life as a child is in its scope |
| `SnapshotImport.WriteSnapshot` | internal/store/snapshot_import.go:92-108 | Parents, rows, groups and revisions; stored revisions and chains stay and every message has a revision |
| `SnapshotImport.ApplySnapshot` | internal/store/snapshot_import.go:92-134 | The merge after its rows are chosen |
| `SnapshotImport.MergeSnapshot` | internal/store/snapshot_import.go:37-135 | Accepted exactly when rows are well formed, ids valid and every revision has identities, a type, a reason and a JSON payload, else nothing changes; over any archive the index agrees with the rows, tombstones stay whole, the scoped pass did what an unscoped one does, affected chats are recounted, no revision is lost, deletions in scope are known, and every chain of the stored and inserted revisions is there, with its message's deletion at the end if need be. New messages are inserted as the snapshot has them, rows it does not name stay, deleted parents stay deleted and live ones live, and deletions are passed on, row by row |
| `SnapshotImport.RestoreSnapshot` | internal/store/snapshot_import.go:37-135 | Accepted under the same condition; from an emptied archive the rows are the snapshot's after one full pass, the index agrees, nothing live is under a deleted parent, and every chain of the snapshot's revisions is there, with its message's deletion at the end if need be. Every table is what its raw rows make of nothing, field by field |
| `SnapshotImport.SnapshotSettles` | internal/store/snapshot_import.go:37-135 | What a snapshot merge guarantees about parents, for any tables |
| `SnapshotRestore.ListTable` | internal/store/snapshot_queries.go:33-116 | Lists every row of a table once, with its tombstone as an export states it |
| `SnapshotRestore.ListMessages` | internal/store/snapshot_queries.go:118-133 | Lists every message once |
| `SnapshotRestore.ListRevisions` | internal/store/snapshot_queries.go:135-153 | Lists every revision once |
| `SnapshotRestore.ExportAll` | internal/store/export.go:200-247 | The export lists every row of every table, every message and every revision once |
| `SnapshotRestore.ListedRows` | internal/store/tombstone.go:131-152 | Normalizing an exported row with a whole tombstone gives the row back |
| `SnapshotRestore.SettledStays` | internal/store/tombstone.go:526-579 | A full pass over a settled archive changes nothing |
| `SnapshotRestore.TablesBack` | internal/store/snapshot_import.go:37-135 | What restoring an export of a settled archive makes is every exported table |
| `SnapshotRestore.AcceptedExport` | internal/store/export.go:172-198 | An export whose revisions can be inserted is accepted if and only if every message has a source id |
| `SnapshotRestore.RestoredHistory` | internal/store/snapshot_import.go:104-122 | A restore of an export gives back exactly the exported revisions if and only if every deletion is at the tip of its chain |
| `SnapshotRestore.RestoreExport` | internal/store/snapshot_import.go:17-135 | Restoring the export of a settled archive of chains, over itself or another: accepted if and only if every message has a source id; gives back every table and the index, and the revisions if and only if every deletion is at the tip of its chain, as in every sound archive |

## Left out

Assumptions and weaker statements, by member:

- SnapshotCapture.SnapshotIsCommitted: one stat of the log together with its header is one observation, and the main file is always a whole number of pages. The log is read byte by byte and the main file page by page.
- SnapshotCapture.ReadSqliteSnapshot: file errors, cancellation, back-off between attempts and the test hook are not modelled.
- Wal.ApplySqlcipherV4Wal: the check that the image size fits a machine integer is not modelled; with 64-bit integers it cannot fail, since a log counts pages in 32 bits. A plain header of 16 or 17 bytes, on which the original would index out of range, is excluded.
- Sqlcipher.DecryptSqlcipherV4: AES, HMAC and key derivation are parameters; only that decryption keeps lengths is used. The "page size too small" error cannot occur, because accepted page sizes are at least 512.
- PostboxDecoder.DecodeEntries: floating point numbers are kept as their bits and strings as bytes; error texts are reduced to their kinds.
- LimitPushdown.PushdownExact: keys with distinct (time, source id) pairs and store ids that name one chat of one account are assumed; both derive from hashes in the original.
- PostboxSelection.ImportPostbox: derived ids are parameters assumed not to collide.
- ForumTopics.CollectForumTopics: the fixed batch size of a request is left out, since replies are arbitrary; cancellation is a function of the request number. Repeated-cursor stalls are modelled.
- ForumTopics.HonestCollection: not every honest server leads to the whole list; the exact condition is stated because a page without a live topic ends the collection.
- EventIds.ImportedIdsInjective: stated for batches without ids; `EventIds.MixedIdsDistinctExactly` says when mixed batches do as well. Hashes are assumed injective, as they are on ids without NUL bytes or surrounding blanks.
- RevisionRemap.RemapRevisionID: on cyclic histories only termination is stated; content hashes cannot form cycles.
- RevisionRemap.RemapRevisions: likewise.
- ArchiveStore.Archive.MergeAll: its clause about sound chains needs imported tombstones that do not borrow the reason of a parent's deletion; `HistoryRecords.BorrowedReasonForks` shows what happens otherwise, and `MessageJournal.WriteExtendsExactly` when a single write keeps the chain. Counts are stated for batches whose messages bring no event ids of their own.
- ArchiveStore.Archive.WriteMessage: its clause about sound chains needs the same.
- ArchiveStore.Archive.WriteMessages: its clause about sound chains needs the same.
- ArchiveStore.Archive.WriteImport: its clause about sound chains needs the same.
- ImportBatch.WriteAllSound: the same condition on imported tombstones.
- MessageJournal.WrittenSound: the same condition on imported tombstones.
- ArchiveStore.Archive.ReplaceAll: its clause about sound chains needs the same; chat aggregates are those the batch states, because the original does not recount them.
- SnapshotImport.MergeSnapshot: when a snapshot has several faults, which one is reported is not fixed; contacts and the source guard are not modelled. What several messages of a snapshot that go under one stored row make of it is stated only through the selection function.
- SnapshotImport.RestoreSnapshot: contacts and the stored source identity are not modelled.
- SnapshotHistory.MergeFollowsHistory: links of the snapshot's revisions must not form a cycle, which content hashes rule out but injectivity of a hash alone does not.
- SnapshotHistory.MergesCompose: stated for sides whose last revision is the deletion of their row where it is deleted; otherwise a merge adds the record of that deletion at the end, as `SnapshotImport.MergeSnapshot` states.
- SnapshotRestore.ExportAll: the order of rows is left open, as no statement here depends on it; contacts are left out, and the source identity and the names and JSON texts of revisions are parameters.

Not modelled at all:

- AES, HMAC, PBKDF2, SHA-256 and the other hashes: parameters here.
- SQL, schema creation and migration other than the event id backfill, tokenizing, ranking and snippets of the search index: tables and index are maps with the original's update rules; an index entry holds the source columns.
- Row ids, batches of 500 rows and temporary tables of the propagation statements: order plays no role in their results.
- Contacts, sync state, unread counts and source-identity guards of merges: single writes or single checks.
- Message columns that no rule distinguishes: they are one field of a message's content.
- `disableSQLiteWALHeader`, discovery of databases, keys and media, sharing of media between messages.
- Telegram sessions, flood waits, media download, backup repositories and encryption, the command line.
