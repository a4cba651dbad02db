# A verified model of a replicated document store

This project models the parts of the store whose correctness is hard to see from any one
function, and proves properties of them over every input, every history and every crash point.

* **Block files** (`Frame`, `Layout`, `Writer`, `Index`, `Verify`, `TornBlock`, `Reader`,
  `BlockLife`): the append-only frame file and its side index. Writer, recovery scan, rollback,
  tail repair, deep verifier and reader are modelled separately and tied together: what any
  history of the writer, crashes included, leaves on disk is what the scan recovers, the verifier
  judges and the reader returns.
* **Envelope encryption** (`Encryption`, `Decryption`, `RoundTrip`): look-ahead framing, nonces
  and associated data, and the decrypting reader, composed with the Block writer into one round trip.
* **Content scanner** (`Scheduler`): the durable frontier, the completed set, signature resets and
  incremental pruning over unbounded runs and failures.
* **Crash-safe lifecycles**: eviction and restore markers (`LocalBlock`), quarantine and peer
  repair (`Repair`), and Raft snapshot persistence (`Raft`, `RaftNode`), each as ordered durable
  steps with a crash between any two, followed by the real restart or classification.
* **Smaller state machines**: the content-quarantine projection (`ContentQuarantine`), eviction
  planning (`Planner`), the light-scrub vote (`LightScrub`) and slot placement (`Placement`).

`Bytes`, `Storage` and `Collections` hold byte strings and machine integers, the file and reader
the programs work on, and sorting and other sequence facts.

Imperative code is modelled by classes and methods with loops, each proved against a pure
specification whose properties are proved as lemmas. `dafny verify dfyconfig.toml` checks everything.

## Assumptions

* CRC-32C, SHA-256 and the slot hash are arbitrary functions (`Hashes`, function parameters). The
  AEAD is any pair of functions where opening undoes sealing and sealing adds 16 bytes; JSON
  envelopes are seen through an arbitrary decoding function.
* A file accepts any prefix of a write and may fail any sync or truncation; `healthy` devices do
  not fail. What is proved without `healthy` holds for every such fault.
* Renames and removals in one directory are atomic and ordered: a crash keeps a prefix of those
  since the last directory sync. Files appear under their final names with their contents.
* The write-ahead log keeps a prefix of its records, record by record, offers only snapshot
  records at or below the saved commit, and reads entries back as etcd's WAL does. The Raft
  library hands over Readys as its documentation promises (`RaftNode.Honest`).
* Callers keep the documented order: an eviction marker before unlinking, restore
  markers removed only once the data is gone, repair only of listed Blocks.

## Where code and comments differ

The model follows the code.

* A torn append is not always recoverable: the recovery scan accepts only a tear before the
  append or right behind the first frame header (`Layout.TornAppend`).
* The scan and the deep verifier disagree on torn Blocks (`TornBlock.ScanAndVerifierOnTornBlock`).
* Replacing an envelope reports failure when only the directory sync failed, with the new index
  already in place (`Index.ReplaceDocumentEnvelope`).
* An index torn right behind an entry's length or payload is refused, not repaired
  (`Index.RepairTornTail`), and the writer accepts entries the reader calls corrupt
  (`Index.OversizedEntryExists`), so replacing an envelope can make a whole index unreadable
  (`Index.ReplacedReadsBack`).
* A save that sends the frontier back, for a new signature or because it lies above every listed
  Block, may report failure and land. The completed set then survives it, and the frontier later
  passes Blocks not scanned since (`Scheduler.LandedResetSkips`,
  `Scheduler.LandedFallBackSkips`); `Scheduler.LandedSaveExactly` is the exact condition.
* The eviction planner adds sizes in 64-bit arithmetic, so a huge size can wrap and slip under the
  byte cap (`Planner.CapBroken`); `Planner.SelectedBytesExactly` and
  `Planner.NoneOversizedWithinCap` say when the cap holds.
* The planner also adds the hot-residency window in 64-bit arithmetic, so a Block with a timestamp
  close to 2^63 is selected inside its window (`Planner.SelectedInsideWindow`); the window holds
  exactly where the sum does not wrap (`Planner.SelectedMayBeEvicted`).
* internal/scrub/block_repair.go:257-259 says a crash between the renames of a promotion leaves
  data without an index. After a quarantine cut behind its first rename it leaves the new data
  beside the old index (`Repair.BetweenTheRenames`).
* internal/raft/node.go:643-646 says the newest snapshot file is WAL-backed by construction when
  files are purged. Snapshot files left by crashes before their record may be newer; five of them
  crowd out the one restart needs (`RaftNode.StrandedReachable`). Restart still works exactly if
  the log covers the commit from its first entry on (`Raft.PurgeRecoversExactly`).
* internal/raft/node.go:463-467 orders an incoming snapshot before its hard state. The save that
  follows writes entries before the hard state, so a tear inside it is fatal exactly when the
  snapshot lies beyond the old log (`Raft.TornInstall`, `RaftNode.TornInstallReachable`).
* internal/block/quarantine.go:24-29 explains why the data is renamed first. Releasing a Block
  renames in the same order, so a crash in between leaves the very state it warns of
  (`Repair.ReleaseHalfHides`); no other operation does (`Repair.RunRepairs`).
* Scan records bind to a restore by timestamp only: two restores with one timestamp share a
  record (`LocalBlock.RepeatedTimestamp`, `LocalBlock.RepeatedTimestampLateRecord`).
* The quarantine listing also takes unpadded file names for Blocks (`Repair.ShortNameListed`).

## Model

| member | source | states |
|---|---|---|
| `Frame.FrameRoundTrip` | internal/block/frame.go:49-133 | Any frame within the payload limit, whatever follows it, parses back to exactly its header fields and payload. |
| `Frame.TornFrame` | internal/block/frame.go:79-133 | A frame cut after k bytes is a clean end of file exactly for k = 0 and k = 32 (header without payload), and truncated for every other k. |
| `Frame.FrameFlags` | internal/block/writer.go:329-340 | The flag byte says "last" exactly for the last frame, first or not. |
| `Frame.FillHeader` | internal/block/frame.go:54-65 | The header array filled field by field is the specified 32 bytes, checksum over the first 28 included. |
| `Frame.WriteFrame` | internal/block/frame.go:49-76 | Oversized payloads are refused untouched; otherwise some prefix of the frame lands at the file position, all of it on success, and a healthy device succeeds. |
| `Frame.ReadFrame` | internal/block/frame.go:79-133 | Reads exactly what the pure parser sees at the cursor and advances by one frame. |
| `Layout.HeaderIdentity` | internal/block/header.go:14-45 | A written Block header is accepted for one Shard and Block ID and for no other pair. |
| `Layout.ScanRecovers` | internal/block/writer.go:108-158 | The recovery scan over any list of complete documents returns their exact end offset and their number, modulo 2^32. |
| `Layout.TornAppend` | internal/block/writer.go:108-158 | For every prefix length of a further append, the scan succeeds if and only if the tear is at 0 bytes or right behind a first frame header with a non-empty payload, and then recovers the committed state. |
| `BlockWriter.ChunksMakeBody` | internal/block/writer.go:281-323 | Splitting a body into frame payloads loses nothing: the chunks concatenate to it, none is empty or too long, and all but the last are full. |
| `BlockWriter.Writer.EmitFrame` | internal/block/writer.go:308-317 | One more frame of the streaming document follows the earlier ones; a failure leaves every committed byte in place. |
| `BlockWriter.Writer.WriteDocFrames` | internal/block/writer.go:281-323 | The look-ahead loop emits exactly the chunks of the body, flags the final one last even at an exact multiple of the frame size, and hashes the whole body. |
| `BlockWriter.LookAhead` | internal/block/writer.go:297-302 | Reading one chunk ahead tells exactly whether the chunk in hand is the last. |
| `BlockWriter.Writer.AppendDocument` | internal/block/writer.go:160-190 | Success adds exactly the body's chunks as the next document and reports its digest, size, frame count and offset; failure keeps all committed documents; a healthy device commits every non-empty readable body. |
| `BlockWriter.Writer.AppendDocumentFrames` | internal/block/writer.go:192-230 | The same for caller-supplied payloads, refusing negative sizes and empty or oversized frame lists. |
| `BlockWriter.Writer.AppendDocumentFrameSource` | internal/block/writer.go:239-275 | The same for a frame source: a commit holds exactly the streamed payloads up to the final frame. |
| `BlockWriter.Writer.Truncate` | internal/block/writer.go:350-380 | Cutting back to the boundary behind any number of committed documents restores exactly that state; out-of-range targets change nothing. |
| `BlockWriter.ScanWriterState` | internal/block/writer.go:108-158 | The counter loop over the file computes the pure recovery scan. |
| `BlockWriter.NewWriter` | internal/block/writer.go:45-73 | A new Block is its header and no documents, ready to append. |
| `BlockWriter.OpenWriter` | internal/block/writer.go:77-106 | Opening succeeds if and only if the header is this Block's and the scan recovers, and resumes with the scanned offset and counters. |
| `BlockWriter.ReopenAfterCrash` | internal/block/writer.go:77-141 | After a crash in mid-append reopening succeeds exactly where TornAppend says, ready to append right behind the committed documents. |
| `BlockWriter.ReopenWriter` | internal/block/writer.go:77-106 | Reopening restores exactly the documents on disk, offset and counters with them, also when the frame header of a crashed append lies behind them. |
| `BlockWriter.CrashAndReopen` | internal/block/writer.go:77-158 | A crash at any byte the scan gets over, over a clean file or over an earlier crash's header: reopening finds the committed documents, and the torn one too if all its bytes had arrived. |
| `BlockWriter.StaleScan` | internal/block/writer.go:108-158 | A first frame header without its payload does not disturb the scan, behind any documents. |
| `BlockWriter.PerformAppend` | internal/block/writer.go:160-275 | Each kind of append commits its document or leaves the committed ones intact, and on a healthy device commits exactly when it should. |
| `BlockWriter.RunHistory` | internal/block/writer.go:108-190 | For every history of appends, appends that fail after any number of bytes or are rolled back, crashes and reopens: the file is the header, the complete frames of the committed documents in order, and exactly the header a last crash left; offset and counters are what the scan of that file re-derives; the documents are those of the committing operations, all of them on a healthy device. |
| `Index.EntryRoundTrip` | internal/block/index.go:412-559 | Every index entry whose fields fit decodes back to itself. |
| `Index.ReadAppended` | internal/block/index.go:309-363 | An appended entry reads back if its encoding is within the reader's limit, and makes the index corrupt otherwise. |
| `Index.OversizedEntryExists` | internal/block/index.go:394-410 | The writer accepts some entries the reader rejects as corrupt. |
| `Index.ReadTorn` | internal/block/index.go:309-363 | An entry torn after k bytes is a torn tail, except that a readable one is reported corrupt at k = 4 and k = 4 + payload length; an oversized one is a torn tail at every k. |
| `Index.RepairTornTail` | internal/block/index.go:190-217 | Repairing any entries the writer accepts, followed by the first k bytes of another: refused if a complete entry is oversized or a readable one is torn at those two places; otherwise exactly the complete entries are restored. |
| `Index.ReadWrittenIff` | internal/block/index.go:275-363 | A written list reads back if and only if every entry is within the reader's limit; one oversized entry makes all of them unreadable. |
| `Index.IndexRoundTrip` | internal/block/index.go:63-81 | The same for a whole index file with its header. |
| `Index.ValidateIndexHeader` | internal/block/index.go:294-307 | Accepts exactly the index header and stops behind it. |
| `Index.ReadNextEntry` | internal/block/index.go:309-363 | Reading from a file agrees with the pure reader and advances by one entry. |
| `Index.RepairIndexTail` | internal/block/index.go:99-217 | The file is cut to the repaired length, or refused and left unchanged exactly when the header or an entry is corrupt. |
| `Index.ReadIndexEntries` | internal/block/index.go:275-292 | The loop returns what the pure reader returns for the whole file. |
| `Index.AppendEntry` | internal/block/index.go:220-245 | Over-long fields are refused untouched; otherwise some prefix of the entry is appended, all of it on success. |
| `Index.NewIndexWriter` | internal/block/index.go:63-81 | A new index file holds exactly the header. |
| `Index.AppendToIndex` | internal/block/index.go:220-245 | Appending to an index file yields the file of the longer list. |
| `Index.WriteIndex` | internal/block/index.go:143-176 | Rewriting writes exactly the bytes of the list, and succeeds on a healthy device when all fields fit. |
| `Index.FirstNamed` | internal/block/index.go:122-128 | The first entry of that Transaction and document name, and none before it. |
| `Index.ReplaceDocumentEnvelope` | internal/block/index.go:112-176 | Replaces the envelope of the first matching entry and nothing else, if and only if rename and directory sync succeed. A failure leaves the old file, except that a failed sync leaves the new one; not found and unchanged leave the file untouched. |
| `Index.ReplacedReadsBack` | internal/block/index.go:112-176 | After a replacement the index reads back changed in that entry alone if the new entry is within the reader's limit; otherwise the whole index has become unreadable. |
| `Verify.RawAgrees` | internal/block/verify.go:281-344 | Wherever the strict reader accepts a frame, the verifier's raw reader reads the same one. |
| `Verify.VerifyRun` | internal/block/verify.go:114-159 | Verifying a document's frames has exactly the effect of accounting its payloads, whatever follows. |
| `Verify.DocsEffect` | internal/block/verify.go:114-176 | Over any documents: frames, offset, per-document counts and findings are exactly those of the documents. |
| `Verify.VerifyVerdict` | internal/block/verify.go:114-261 | On any committed Block the verifier counts exactly the frames written, and reports nothing if and only if every index entry matches its document. |
| `Verify.ReadFrameRaw` | internal/block/verify.go:281-344 | The raw read agrees with the pure raw parser unless the device faults. |
| `Verify.ReadFrameWithRetry` | internal/block/verify.go:266-279 | One retry at the same offset hides a transient fault and changes nothing else. |
| `Verify.VerifyFrames` | internal/block/verify.go:114-148 | The loop computes the pure verification; a persistent fault is always reported as a finding. |
| `Verify.VerifyHeaderStructure` | internal/block/verify.go:84-112 | Reports exactly a missing, mis-marked or mis-summed header. |
| `Verify.VerifyBlock` | internal/block/verify.go:52-76 | Fails exactly when the index is unreadable; otherwise header finding first, then the frame findings. |
| `Verify.ScrubCommitted` | internal/block/verify.go:52-76 | Deep scrub of what the writers leave behind is clean if and only if the index matches. |
| `TornBlock.VerifyTorn` | internal/block/verify.go:114-159 | Over every prefix of an unindexed document the verifier adds no finding if and only if the cut is on a frame boundary or inside a frame header. |
| `TornBlock.ScanAndVerifierOnTornBlock` | internal/block/verify.go:114-344 | For every cut of an append behind any documents: the scan recovers if and only if the tear is clean, the verifier is silent if and only if the index matches and the cut is on a boundary or inside a header. |
| `Reader.ReadRunWritten` | internal/block/reader.go:101-124 | Written frames are read back in order, whatever follows them. |
| `Reader.ReadsBack` | internal/block/reader.go:101-124 | Reading from a document's first-frame offset returns exactly its frames, for any document of any Block. |
| `Reader.ReadFrames` | internal/block/reader.go:101-124 | The loop returns the frames in sequence or fails, as the pure reader does. |
| `Reader.ReadDocumentTwoPass` | internal/block/reader.go:36-45 | Bytes are returned only if their digest is the entry's and not zero; encrypted entries are refused. |
| `Reader.ReadCommitted` | internal/block/reader.go:129-164 | An entry that describes document i of a Block yields exactly that document's bytes. |
| `Reader.StoredFrameSource.NextFrame` | internal/block/reader.go:81-94 | Delivers the remaining frames one by one, ends exactly after the entry's frame count, and fails only if one of them cannot be read in sequence. |
| `Reader.Drain` | internal/block/reader.go:81-94 | Draining a stored frame source yields exactly the stored frames, or fails exactly when they cannot be read in sequence. |
| `BlockLife.LiveAndScrub` | internal/block/writer.go:160-380 | For every history on a device with any faults, and an index entry, plaintext or encrypted, per committed document: the scan recovers the writer's state, every document reads back as its entry promises, and deep verification counts every frame and reports nothing if the last crash left no header behind, and a finding if it did. |
| `BlockLife.ReadEntry` | internal/block/reader.go:36-94 | An entry that describes its document yields it: the bytes of a plaintext one, the stored frames of an encrypted one. |
| `BlockLife.ReadEvery` | internal/block/reader.go:36-94 | The same for every entry of an index. |
| `BlockLife.ScrubVerdict` | internal/block/verify.go:52-76 | With describing entries the deep verifier is clean without a stale frame header behind the documents, and not clean with one. |
| `BlockLife.DescribedMatches` | internal/block/verify.go:165-223 | Entries that describe the documents are accepted by the deep verifier. |
| `BlockLife.ReplacementAccepted` | internal/scrub/block_repair.go:160-172 | A healthy copy passes the replacement checks for its own Shard and Block ID and for no other. |
| `Encryption.NonceReuse` | internal/encryption/envelope.go:163-168 | Nonces of one document coincide exactly when the frame counters agree modulo 2^32, so never below 2^32 frames. |
| `Encryption.AadInjective` | internal/encryption/envelope.go:170-188 | Associated data identifies document and frame, and never equals a key context. |
| `Encryption.SealedSizes` | internal/encryption/envelope_stream.go:128-170 | Every sealed frame fits a Block frame, and sealing adds one tag per chunk. |
| `Encryption.CiphertextSizeExact` | internal/encryption/envelope_stream.go:29-36 | The encryptor's total output for n bytes is exactly n plus a tag per frame, and that is MaxCiphertextSize(n) in 64-bit arithmetic up to MAX_PLAIN. |
| `Encryption.MaxCiphertextSizeExactly` | internal/encryption/envelope_stream.go:29-36 | In 64-bit arithmetic the bound is exact if and only if n is at most 0x7ff7ffffffffffff; beyond that it falls below n itself. |
| `Encryption.MaxCiphertextSizeMonotone` | internal/encryption/envelope_stream.go:29-36 | Up to that size the 64-bit bound is monotone, negative sizes included. |
| `Encryption.WithinWireBudget` | internal/peer/server.go:457-462 | For every limit up to MAX_PLAIN no document within it exceeds the budget computed from it; for every limit beyond, the document of that size does. |
| `Encryption.ReplicationBudget` | internal/peer/server.go:33-39 | No document within the store's 128 MiB limit exceeds the replication budget. |
| `Encryption.DocumentEncryptor.constructor` | internal/encryption/envelope_stream.go:81-123 | A new encryptor has produced nothing and stands at the start of the body. |
| `Encryption.DocumentEncryptor.ReadAhead` | internal/encryption/envelope_stream.go:174-187 | Takes the next chunk off the body; a short read means the end, a fault is never mistaken for it. |
| `Encryption.DocumentEncryptor.SealCurrent` | internal/encryption/envelope_stream.go:156-161 | Seals the chunk in hand under its own counter and keeps all running totals. |
| `Encryption.DocumentEncryptor.NextFrame` | internal/encryption/envelope_stream.go:128-170 | Delivers exactly the sealed chunks in order, the last and only the last flagged final, then end of stream for ever. |
| `Encryption.DocumentEncryptor.Finalize` | internal/encryption/envelope_stream.go:190-218 | Available exactly after the final frame, with the body's digest and length and the exact ciphertext length. |
| `Decryption.DecryptReader.FetchFrame` | internal/encryption/envelope_stream.go:348-370 | Opens one frame; genuine frames never break the stream and keep the running totals true. |
| `Decryption.DecryptReader.Finish` | internal/encryption/envelope_stream.go:372-386 | Accepts exactly when both lengths and the digest agree. |
| `Decryption.DecryptReader.Read` | internal/encryption/envelope_stream.go:324-346 | Serves plaintext in order; end of stream is reported only for an accepted document, and for genuine frames exactly the original bytes were served. |
| `Decryption.DecryptReader.GenuineEnds` | internal/encryption/envelope_stream.go:372-386 | A genuine stream that ended has served everything. |
| `RoundTrip.DeliveredFrames` | internal/encryption/envelope_stream.go:128-170 | What the encryptor answers is a frame source the writer commits whole. |
| `RoundTrip.CollectFrames` | internal/encryption/envelope_stream.go:128-187 | Driving the encryptor to its end yields exactly the sealed frames. |
| `RoundTrip.ReadAll` | internal/encryption/envelope_stream.go:324-386 | Whatever is accepted has the promised digest and length; genuine frames are accepted with the original bytes. |
| `RoundTrip.Load` | internal/block/reader.go:56-94 | The last committed document, opened with its envelope, is the concatenation of its chunks. |
| `RoundTrip.StoreAndLoad` | internal/shard/encryption.go:15-63 | Encrypting any non-empty body, storing it through the writer and decrypting it back yields the same bytes; on a healthy device it always succeeds. |
| `Scheduler.MaxListed` | internal/avscan/scheduler.go:556-564 | An upper bound of the listed IDs that is itself listed, or zero. |
| `Scheduler.Advance` | internal/avscan/scheduler.go:350-374 | The frontier moves only over completed or unlisted IDs, never beyond the highest listed one, and stops at an uncompleted listed ID. |
| `Scheduler.DeltaIsFull` | internal/avscan/scheduler.go:350-384 | Pruning only the newly passed IDs equals a full sweep whenever nothing stale lies below. |
| `Scheduler.PersistSafe` | internal/avscan/scheduler.go:325-338 | Saving progress, whatever the save does, keeps every passed listed Block cleared. |
| `Scheduler.PersistTidy` | internal/avscan/scheduler.go:325-384 | After each save only restored Blocks remain at or below the frontier, and the cheap prune gave what the full one would. |
| `Scheduler.StepKeeps` | internal/avscan/scheduler.go:309-323 | Each scanned Block, successful or not, keeps safety, tidiness and cover, and the two prunings agree. |
| `Scheduler.LoopKeeps` | internal/avscan/scheduler.go:258-288 | The same for a whole scan loop over any outcomes. |
| `Scheduler.EligibleFacts` | internal/avscan/scheduler.go:444-474 | Eligible Blocks are listed, distinct, not completed and above the frontier or restored, and no such unfinished Block above the frontier is missed. |
| `Scheduler.PreparedFacts` | internal/avscan/scheduler.go:233-256 | What loading, signature reset and reconciliation leave in the store and the completed set, aborted or not. |
| `Scheduler.RunCompletes` | internal/avscan/scheduler.go:161-231 | If leadership, load, signature, listing, saves and every scan and report succeed, the run ends without error and the saved frontier is the highest listed ID. |
| `Scheduler.ErrorFreeRunAdvances` | internal/avscan/scheduler.go:161-231 | Whatever was retried or skipped, a run that ends without error leaves the saved frontier at the highest listed ID. |
| `Scheduler.RunIsSafe` | internal/avscan/scheduler.go:161-231 | One run over any failures keeps the saved frontier from passing a listed Block not cleared since the last reset. |
| `Scheduler.FrontierNeverSkips` | internal/avscan/scheduler.go:161-231 | The same over every sequence of runs and restarts, as long as no failed reset or reconcile save lands after all. |
| `Scheduler.LandedResetSkips` | internal/avscan/scheduler.go:513-533 | If a failed reset save does land, the next run passes a Block never scanned under the new signature. |
| `Scheduler.FaithfulExactly` | internal/avscan/scheduler.go:513-533 | A run leaves the completed set faithful if and only if its frontier-lowering save did not fail and land, or nothing was completed before it. |
| `Scheduler.NextRunSafeExactly` | internal/avscan/scheduler.go:350-374 | Every next run, whatever it lists, keeps the frontier from passing an uncleared Block if and only if every completed ID above the stored frontier was cleared under the stored signature. |
| `Scheduler.AlwaysSafeExactly` | internal/avscan/scheduler.go:161-231 | The same condition is exact for every sequence of later runs and restarts. |
| `Scheduler.LandedSaveExactly` | internal/avscan/scheduler.go:513-533 | After a reset or reconcile save that failed but landed, every later sequence is safe if and only if no Block was completed when the run began. |
| `Scheduler.LandedFallBackSkips` | internal/avscan/scheduler.go:535-564 | An instance of that for a frontier lowered because it lay above every listed Block. |
| `Scheduler.PassesCompleted` | internal/avscan/scheduler.go:350-374 | A run that lists only a completed Block above the frontier moves the frontier onto it without scanning it. |
| `Scheduler.ScanScheduler.MoveFrontier` | internal/avscan/scheduler.go:350-374 | The loop computes Advance and ends even at the maximum 64-bit ID. |
| `Scheduler.ScanScheduler.AdvanceProgressFrontier` | internal/avscan/scheduler.go:350-384 | Frontier and completed set after the full or the incremental prune. |
| `Scheduler.ScanScheduler.Sweep` | internal/avscan/scheduler.go:376-384 | The sweep loop removes exactly the completed, unrestored IDs at or below the frontier. |
| `Scheduler.ScanScheduler.PersistAdvancedProgress` | internal/avscan/scheduler.go:325-338 | Refines the specified save step, failed saves included. |
| `Scheduler.ScanScheduler.ReportDetections` | internal/avscan/scheduler.go:692-736 | Accepted exactly when the result is valid and no batch is refused; then exactly the detections were reported, in bounded batches for this Block. |
| `Scheduler.ScanScheduler.SendBatches` | internal/avscan/scheduler.go:692-718 | Batches go out in order until the first refusal, and together are the detections. |
| `Scheduler.ScanScheduler.ScanBlock` | internal/avscan/scheduler.go:641-690 | A Block is marked completed exactly when scanned and fully reported. |
| `Scheduler.ScanScheduler.TryScan` | internal/avscan/scheduler.go:309-323 | Refines the specified step and says when the run must stop. |
| `Scheduler.ScanScheduler.ScanAll` | internal/avscan/scheduler.go:258-288 | Refines the specified scan of all eligible Blocks. |
| `Scheduler.ScanScheduler.EligibleBlocks` | internal/avscan/scheduler.go:444-474 | The loop computes the specified eligible list. |
| `Scheduler.ScanScheduler.PrepareScanRun` | internal/avscan/scheduler.go:233-256 | Refines loading, reset, listing and reconciliation with all their failures. |
| `Scheduler.ScanScheduler.RunOnce` | internal/avscan/scheduler.go:161-231 | A whole run refines the specified run in state and result. |
| `LocalBlock.NoLossMeans` | internal/localblock/lifecycle.go:161-248 | The invariant is exactly: classified without error and as hot, hot-cleanup-needed or evicted. |
| `LocalBlock.BlockDir.PrepareEviction` | internal/localblock/transitions.go:19-35 | Writes a valid marker or nothing; no crash state of it loses the Block. |
| `LocalBlock.BlockDir.UnlinkBlockData` | internal/localblock/transitions.go:67-78 | Behind an eviction marker, removing the data leaves every crash state evicted or hot. |
| `LocalBlock.BlockDir.RemoveEvictionMarker` | internal/localblock/transitions.go:54-65 | With the data present, removing the marker never leaves the Block unexplained. |
| `LocalBlock.BlockDir.PublishRestoredBlock` | internal/localblock/transitions.go:80-100 | A published Block has its own restore marker, and is scan-pending if and only if no valid record already carries that very timestamp; every crash state in between is evicted, hot or hot-cleanup-needed. |
| `LocalBlock.BlockDir.ReadForRecord` | internal/localblock/transitions.go:120-130 | Reads the marker the scan record will vouch for. |
| `LocalBlock.BlockDir.WriteRecord` | internal/localblock/lifecycle.go:139-148 | Writes the record for the restore that was read, however much later. |
| `LocalBlock.BlockDir.RecordRestoreScan` | internal/localblock/transitions.go:120-136 | On success a restored Block is no longer pending, and only the record changed. |
| `LocalBlock.BlockDir.RemoveRestoreMarker` | internal/localblock/transitions.go:156-174 | Removes marker, then record, of an evicted Block; a crash in between cannot vouch for a later restore. |
| `LocalBlock.BlockDir.CleanupHotMarker` | internal/localblock/lifecycle.go:290-302 | Unless removal fails the Block ends up hot or evicted. |
| `LocalBlock.BlockDir.Crash` | internal/localblock/lifecycle.go:465-475 | Any prefix of the unsynced directory operations may survive; the invariant holds of each. |
| `LocalBlock.BlockDir.PendingUntilRecorded` | internal/localblock/transitions.go:141-151 | In every reachable state a restored Block has its marker and, if restore timestamps are distinct, is pending until a recorder has read the marker of that restore or of a later one. |
| `LocalBlock.RepeatedTimestamp` | internal/localblock/transitions.go:102-151 | For every timestamp two restores share, the record of the first passes for the second, whose marker nobody has read. |
| `LocalBlock.RepeatedTimestampLateRecord` | internal/localblock/transitions.go:102-174 | The same when the record is written late, although eviction had removed marker and record. |
| `LocalBlock.RunLifecycle` | internal/localblock/transitions.go:19-174 | Over every interleaving of evictions, restores, scan records, cleanups, failures and crashes: never a loss state; with distinct restore timestamps no record of an earlier restore suppresses the scan of a later one; without failures the final state is exactly that of the operations. |
| `LocalBlock.BlocksDirectory.SweepBlock` | internal/localblock/lifecycle.go:257-302 | One Block's turn of the sweep: at most a stale marker of a hot Block goes, an unreadable one is reported, and without a report the Block needs no cleanup. |
| `LocalBlock.BlocksDirectory.CleanupHotMarkers` | internal/localblock/lifecycle.go:257-302 | The sweep over all Blocks touches only hot Blocks with a stale marker, reports every unreadable marker without stopping, and leaves no other Block needing cleanup. |
| `LocalBlock.SweepLeavesHotOrEvicted` | internal/localblock/lifecycle.go:257-302 | With nothing lost beforehand, swept Blocks are hot or evicted and their data untouched. |
| `Repair.Folder.Quarantine` | internal/block/quarantine.go:14-41 | Moves both files aside, data first, whenever there is data and no operation fails; every crash state after the first rename still lists the Block, and no state touches another Block. |
| `Repair.Folder.Unquarantine` | internal/block/quarantine.go:43-82 | Puts both files back if the data is in quarantine, nothing of the Block has come back meanwhile and no operation fails; unless the first two hold, nothing changes at all. |
| `Repair.Folder.CleanupRepairStaging` | internal/scrub/block_repair.go:247-254 | Touches staging names only. |
| `Repair.Folder.PromoteRepairStaging` | internal/scrub/block_repair.go:256-271 | The state it ends in, and every state a crash may find inside it, is exactly one of: untouched, new data with whatever index was there, that without the data, or the staged pair; where nothing fails it is the pair. |
| `Repair.BetweenTheRenames` | internal/scrub/block_repair.go:256-260 | Between the renames the Block has no index if and only if it had none; after a quarantine cut behind its first rename the new data stands beside the old index. |
| `Repair.Folder.RemoveQuarantineFiles` | internal/scrub/block_repair.go:273-284 | Drops the quarantined pair only behind a verified replacement. |
| `Repair.Folder.FetchReplacement` | internal/scrub/block_repair.go:174-188 | Ends with the peer's pair in staging exactly when it is complete and verified, unless an operation fails; touches staging names only. |
| `Repair.Folder.RepairFromPeer` | internal/scrub/block_repair.go:174-210 | Success means the peer's verified pair is installed, failure that the Block is still listed; where nothing fails, exactly the verified answers succeed. A verified pair already in place is lost exactly if the promotion took its data back, or stopped between the renames with an old index that does not verify with the new data. |
| `Repair.Folder.RepairFromPeers` | internal/scrub/block_repair.go:102-116 | Over any sequence of answers: success installs one of the verified ones; where nothing fails it succeeds if and only if there is one; without a promotion that began and failed, a failure leaves data and index as they were. |
| `Repair.VerifyHeader` | internal/block/header.go:14-45 | Accepts only this Shard's Block; exact on a healthy device. |
| `Repair.VerifyStaged` | internal/scrub/block_repair.go:160-172 | Accepts only a pair with the right identity and a clean deep scan, and every such pair on a healthy device. |
| `Repair.RunRepairs` | internal/block/quarantine.go:14-110 | Over every sequence of quarantines, repairs, releases, failures and crashes on any Blocks, in a directory with any other files: whatever went into quarantine is listed or has a verified replacement, no Block but a released one is left with only its index aside unless a stray name lists it, and the listing is exact. A Block out of quarantine and not listed keeps its data and index until its own quarantine. |
| `Repair.ReleaseHalfHides` | internal/block/quarantine.go:43-69 | Between its two renames, releasing a Block leaves only its index aside exactly when it has one in quarantine. |
| `Repair.HexValue` | internal/block/listing.go:20-26 | The 16-digit name of every 64-bit ID parses back to it. |
| `Repair.NameRoundTrip` | internal/block/quarantine.go:84-110 | Only a quarantined data file is listed, under its own ID. |
| `Repair.ListQuarantined` | internal/block/quarantine.go:84-110 | Sorted, without duplicates, and exactly the IDs some entry name parses to. |
| `Repair.ListedExactly` | internal/block/quarantine.go:84-110 | A Block is listed if and only if its quarantined data file is in the directory or a stray name parses to its ID. |
| `Repair.ShortNameListed` | internal/block/quarantine.go:84-110 | An unpadded name is such a stray name. |
| `Raft.LaterStart` | internal/raft/node.go:257-309 | Reading the write-ahead log from a later snapshot succeeds whenever an earlier start does, reaches at least as far and agrees with it. |
| `Raft.SaveEntries` | internal/raft/node.go:472-474 | Saving entries behind the commit keeps every committed entry readable and follows the in-memory log. |
| `Raft.SaveState` | internal/raft/node.go:472-478 | After a commit is saved, the newest usable snapshot it admits recovers the whole commit and follows the in-memory log. |
| `Raft.SaveFile` | internal/raft/node.go:606-617 | A snapshot file without its record never disturbs restart. |
| `Raft.SaveSnapshotRecord` | internal/raft/node.go:606-617 | A snapshot record whose file is there keeps restart possible on either side of the commit. |
| `Raft.TornInstall` | internal/raft/node.go:462-482 | If a crash tears the save behind an incoming snapshot between entries and hard state, restart recovers if and only if the old log already reached the snapshot. |
| `Raft.ReadContiguous` | internal/raft/node.go:282-346 | The entries read back are consecutive from the snapshot on. |
| `Raft.PurgeSnaps` | internal/raft/node.go:671-698 | Removes only files with five newer ones, oldest first; a completed purge keeps no others. |
| `Raft.PurgeLeaves` | internal/raft/node.go:639-658 | A completed purge leaves restart its snapshot if fewer than five files are newer, and otherwise none at all. |
| `Raft.PurgeRecoversExactly` | internal/raft/node.go:639-698 | After a completed purge restart recovers the commit if and only if fewer than five files are newer than its snapshot or the log covers the commit from its first entry. |
| `Raft.NextEntryGaps` | internal/raft/node.go:282-346 | If the log on disk ends before the one in memory, the next entry saved makes it unreadable. |
| `RaftNode.Node.PersistSnapshot` | internal/raft/node.go:606-617 | File first, then record: in every crash state each needed record has its file. |
| `RaftNode.Node.PersistIncoming` | internal/raft/node.go:520-535 | The same for an incoming snapshot, which the application may refuse before anything is written. |
| `RaftNode.Node.Save` | internal/raft/node.go:472-474 | Appends exactly the entries and hard state; a prefix a crash may leave cannot be read if and only if it ends behind an entry and before the hard state of an install whose snapshot lies beyond the old log, and otherwise recovers the committed log. |
| `RaftNode.Node.Adopt` | internal/raft/node.go:476-486 | The in-memory log, commit and snapshot index after the Ready, in step with the disk. |
| `RaftNode.Node.MaybeTriggerSnapshot` | internal/raft/node.go:557-601 | A local snapshot at the applied index keeps disk and memory in step and loses no entry restart needs. |
| `RaftNode.Node.Compact` | internal/raft/node.go:588-594 | Drops only entries at or below the compaction index. |
| `RaftNode.Node.Purge` | internal/raft/node.go:647-658 | Reports a stranded node exactly if restart would no longer recover the commit onto the log in memory; never with fewer than five newer files. |
| `RaftNode.Node.PersistReady` | internal/raft/node.go:462-474 | Incoming snapshot, entries and hard state together, in terms of the log before them: exactly the cuts of an install beyond that log cannot be read. |
| `RaftNode.Node.ProcessReady` | internal/raft/node.go:462-507 | One Ready, stopping at any durable write: exactly the cuts of such an install cannot be read, every other crash state recovers; a completed one has exactly the specified state, and its entries can no longer be lost. |
| `RaftNode.Node.Restart` | internal/raft/node.go:257-364 | After a crash at any possible length the node boots exactly if that length is not a torn install, on the newest usable snapshot, with a log that covers the recovered commit and equals what the cluster committed. |
| `RaftNode.RunNode` | internal/raft/node.go:257-617 | The same after every sequence of Readys and crashes: booted onto everything committed, or a purge really took away what restart needs, or the log is exactly an earlier log, a snapshot record beyond its end and some of that Ready's entries. |
| `RaftNode.TornInstallReachable` | internal/raft/node.go:462-482 | From a blank node one honest Ready, torn behind its entry, leaves a log that cannot be read. |
| `RaftNode.OrphanReachable` | internal/raft/node.go:606-617 | Honest incoming snapshots, each stopped right behind its file, leave any number of files no record mentions, and the node reboots unchanged. |
| `RaftNode.StrandedReachable` | internal/raft/node.go:639-658 | Five such files, an installed snapshot, one entry and a local snapshot, all completed: the purge leaves nothing restart can boot from. |
| `RaftNode.CrowdedButRecovers` | internal/raft/node.go:639-658 | The same crowding while the log still starts at entry 1: restart recovers everything. |
| `ContentQuarantine.KeyRoundTrip` | internal/index/content_quarantine.go:200-212 | A key decodes to the pair it was built from. |
| `ContentQuarantine.KeyIsCanonical` | internal/index/content_quarantine.go:307-322 | Every key that decodes is the key of what it decodes to. |
| `ContentQuarantine.Decode` | internal/index/content_quarantine.go:251-298 | What decodes is a valid record of the key's own identity. |
| `ContentQuarantine.ValueRoundTrip` | internal/index/content_quarantine.go:240-284 | Every valid record decodes back to itself. |
| `ContentQuarantine.OperationMeans` | internal/index/content_quarantine.go:59-198 | A put stores the record, the first valid confirmation sticks and changes nothing else, a release removes it, and everything else is a no-op. |
| `ContentQuarantine.OthersUntouched` | internal/index/content_quarantine.go:59-198 | No operation touches another document's record. |
| `ContentQuarantine.BadStays` | internal/index/content_quarantine.go:161-198 | An unreadable value is never created, and only a put replaces it. |
| `ContentQuarantine.RunAtTwice` | internal/index/content_quarantine.go:59-198 | Running the same operations again over their own result changes nothing at any key. |
| `ContentQuarantine.ReplaySuffix` | internal/index/content_quarantine.go:59-198 | From any store and for any operations, replaying any suffix of a log over the state the whole log produced leaves it unchanged. |
| `ContentQuarantine.RangeIsPrefix` | internal/index/content_quarantine.go:229-238 | Unless all its bytes are 0xff, the range up to a prefix's successor holds exactly the keys with that prefix. |
| `ContentQuarantine.MaxPrefixRange` | internal/index/content_quarantine.go:229-238 | If all its bytes are 0xff, the range holds the prefix itself and nothing else. |
| `ContentQuarantine.ComputeSuccessor` | internal/index/content_quarantine.go:229-238 | The loop from the last byte computes the successor. |
| `ContentQuarantine.ScanRange` | internal/index/content_quarantine.go:214-227 | A transaction's scan range holds exactly the keys that decode to that transaction. |
| `ContentQuarantine.ScanAll` | internal/index/content_quarantine.go:214-218 | The unrestricted range holds exactly the quarantine keys. |
| `ContentQuarantine.Projection.PutRecord` | internal/index/content_quarantine.go:59-68 | Stores exactly valid records. |
| `ContentQuarantine.Projection.Get` | internal/index/content_quarantine.go:70-85 | Tells missing from unreadable. |
| `ContentQuarantine.Projection.ConfirmRecord` | internal/index/content_quarantine.go:161-179 | Confirms once; missing is no error, unreadable is; when it errs the store is unchanged. |
| `ContentQuarantine.Projection.ReleaseRecord` | internal/index/content_quarantine.go:181-198 | Removes a readable record; missing is no error, unreadable is. |
| `ContentQuarantine.Projection.List` | internal/index/content_quarantine.go:87-125 | In key order, only the transaction's records, none left out below the limit; fails exactly for bad arguments or when an unreadable record is in the way. |
| `ContentQuarantine.Projection.Replay` | internal/index/content_quarantine.go:59-198 | Applying a log and then any suffix again ends in the state of the log alone. |
| `Planner.EffectiveBounds` | internal/eviction/planner.go:162-186 | A request can only narrow the recommended bounds. |
| `Planner.ChoiceConserves` | internal/eviction/planner.go:81-100 | Selected and skipped Blocks together are a permutation of the candidates, with all bytes conserved. |
| `Planner.ChoiceWithinCaps` | internal/eviction/planner.go:93-99 | The count cap holds of the selection, and the byte cap of its wrapped 64-bit sum. |
| `Planner.SelectedBytesExactly` | internal/eviction/planner.go:81-99 | For non-negative sizes the bytes really selected are within the cap if and only if they fit a 64-bit integer. |
| `Planner.NoneOversizedWithinCap` | internal/eviction/planner.go:81-99 | They are if every size is at most the maximal 64-bit integer less the cap. |
| `Planner.OversizedBreaksCap` | internal/eviction/planner.go:93-99 | That bound is tight: any larger size is selected behind Blocks that fill the cap, and breaks it. |
| `Planner.CapBroken` | internal/eviction/planner.go:93-99 | An instance: sizes 5 and 2^63 - 1 under a cap of 10 are both selected. |
| `Planner.ChoiceMaximal` | internal/eviction/planner.go:81-100 | With non-negative sizes and no overflow, adding any Block skipped for the bounds would break a cap. |
| `Planner.NegativeSizeNotMaximal` | internal/eviction/planner.go:81-100 | With a negative size the selection need not be maximal. |
| `Planner.ChoiceJustified` | internal/eviction/planner.go:81-100 | Every selected Block had no reason to be skipped, every skipped one carries its own reason. |
| `Planner.SelectedMayBeEvicted` | internal/eviction/planner.go:199-248 | Every selected Block has a durable copy, evictable data and the requested Shard, on a member that does not lead; its hot-residency window is over if and only if the end of the window fits a 64-bit integer. |
| `Planner.SelectedInsideWindow` | internal/eviction/planner.go:199-247 | Every such Block whose window would end beyond 2^63 - 1 is selected inside its window, wherever the caps leave room. |
| `Planner.AppendSkipped` | internal/eviction/planner.go:250-254 | List and count map grow together. |
| `Planner.PlanOne` | internal/eviction/planner.go:81-99 | One candidate's turn keeps all lists and totals in step with the greedy choice. |
| `Planner.BuildPlan` | internal/eviction/planner.go:41-105 | Refused exactly for invalid input or bounds; otherwise a sorted, conserving plan with exact counts per reason, within the count cap, within the byte cap exactly when the selected bytes do not overflow, and maximal under the stated condition. Selected Blocks are as SelectedMayBeEvicted says, and all past their windows if no candidate's window ends beyond 2^63 - 1. |
| `LightScrub.MajorityUnique` | internal/scrub/light.go:222-233 | At most one hash exceeds half of the configured voters. |
| `LightScrub.CountVotes` | internal/scrub/light.go:222-226 | The vote table is exact, whatever the iteration order. |
| `LightScrub.MajorityHash` | internal/scrub/light.go:222-233 | Finds a majority hash if and only if there is one. |
| `LightScrub.CollectPeerHashes` | internal/scrub/light.go:235-266 | Conclusive exactly when no peer is unready or hashless and some peer answered, with exactly the answered hashes. |
| `LightScrub.ApplyQuorumVerdict` | internal/scrub/light.go:162-204 | A tie exactly without majority; otherwise rebuilds go to exactly the voters whose hash differs from it. |
| `LightScrub.RunOnce` | internal/scrub/light.go:122-153 | No verdict exactly if the leader's own hash is missing or the check is inconclusive; otherwise rebuilds go to exactly the peers that reported a hash other than the majority's, and to the leader exactly if its own differs. |
| `LightScrub.ZeroNeverWins` | internal/scrub/light.go:137-144 | The all-zero hash never has the majority. |
| `Placement.OwnersPermute` | internal/routing/placement.go:93-99 | How often a slot is covered does not depend on the order of the ranges. |
| `Placement.OwnerFound` | internal/routing/placement.go:138-144 | A covered slot's owner is the Shard of a range that covers it. |
| `Placement.Placed.AddRange` | internal/routing/placement.go:128-146 | Succeeds exactly for a known, in-bounds, forward range that overlaps nothing, and enters exactly its slots. |
| `Placement.KnownShards` | internal/routing/placement.go:117-126 | Accepts exactly duplicate-free Shard lists. |
| `Placement.AddRanges` | internal/routing/placement.go:104-108 | Succeeds exactly when every range is good and no slot is covered twice. |
| `Placement.NewPlacement` | internal/routing/placement.go:77-115 | Succeeds if and only if the slot count is right, Shards are non-empty and distinct, and the ranges name known Shards and partition all slots. |
| `Placement.Lookup` | internal/routing/placement.go:149-158 | Routes by the ranges alone. |
| `Placement.SummaryString` | internal/routing/placement.go:179-186 | The joined parts in range order. |
| `Placement.ReadNumber` | internal/routing/placement.go:183-183 | A printed number followed by a non-digit is read back in one way only. |
| `Placement.SummaryInjective` | internal/routing/placement.go:179-186 | The summary string determines the ranges. |
| `Placement.SameSummarySameRoutes` | internal/cmd/routing_config.go:194-220 | Placements with one summary string route every Transaction identically. |
| `Placement.PersistIdentity` | internal/cmd/routing_config.go:194-215 | A recorded digest must match; nothing recorded is ever overwritten. |

## Left out

- gRPC, HTTP, TLS, S3, OpenBao, Pebble, etcd and Raft internals: foreign code; only the operations used are modelled, with the assumptions above.
- Actual CRC, SHA-256, AES-GCM, FNV and JSON computation: arbitrary functions and records stand for them.
- Wall-clock time, tickers, jitter, pause controllers, budgets, metrics, logs and status snapshots: no property here depends on them.
- Goroutine scheduling: operations are atomic between the durable steps shown; the scan recorder alone is split so that others may run in between.
- Shard orchestration, the Backend restorer and the peer server's local fallback: callers of the modelled components.
- Admission control, eviction campaigns, administration and configuration parsing: would only add easy members.
- BlockWriter.RunHistory: file offsets are unbounded integers, so int64 overflow of a Block's length is not modelled. A crash the scan may refuse ends a history; whether it is refused is exact (ReopenAfterCrash) unless the tear falls inside a frame header an earlier crash left, where it depends on the checksum.
- BlockLife.LiveAndScrub: the finding for a stale frame header is stated for fewer than 2^32 documents.
- Index.ReplaceDocumentEnvelope: after a failed directory sync a crash may still bring back the old file; the temporary file is not modelled.
- BlockWriter.Writer.AppendDocumentFrameSource: a source that never ends is not modelled; the source of the steps reaches a final one.
- Layout.TornAppend: a torn document has at most 2^32 frames, since frame numbers wrap there.
- Verify.VerifyVerdict: at most 2^32 documents and index entries and fewer than 2^32 frames each, since the verifier keys its tables by 32-bit numbers.
- TornBlock.ScanAndVerifierOnTornBlock: the same bounds, and fewer than 2^32 documents before the torn one.
- Verify.VerifyBlock: envelope fields are seen through a decoding function, so malformed JSON is one of its answers rather than text.
- RoundTrip.StoreAndLoad: for fewer than 2^32 frames, below which nonces do not repeat.
- Scheduler.ScanScheduler.RunOnce: duplicate-listing counts, lag and failure reasons are not modelled; recovered engine panics are engine failures.
- LocalBlock.RunLifecycle: the eviction marker is not compared with the Shard's Backend metadata, and marker files are records rather than JSON text.
- LocalBlock.BlocksDirectory.CleanupHotMarkers: works on Block IDs, not on parsed file names; a failing final sync only delays durability.
- Repair.Folder.RepairFromPeer: the best-effort restore marker written after a repair is not modelled, and peers answer through values.
- Repair.RunRepairs: the rotation of the peer order and the Backend fallback are not modelled.
- RaftNode.Node.Restart: configuration state, terms and votes, WAL segments and their locks are not modelled; a snapshot is identified by its index, which fixes its term since it is committed.
- RaftNode.RunNode: leadership, message sending and read states are not modelled.
- ContentQuarantine.Projection.List: iterator errors of the store are not modelled.
- ContentQuarantine.ReplaySuffix: write errors of the store are not modelled; they stop the replica.
- Planner.BuildPlan: plan identifiers, expiry, the configuration snapshot and notes are not modelled, and counts are unbounded integers.
- LightScrub.RunOnce: polling for a peer's result and the rebuild requests' own failures are not modelled.
- Placement.Lookup: the FNV hash is an arbitrary function.
- Placement.PersistIdentity: the record is a value, so partial writes of its file are not modelled.
