# Sherlog: a verified model of the two-stage log pipeline

Sherlog keeps log records in a slot-based ring in memory, drains that ring with a flush daemon
into a byte-level ring file, and reads the file back through `read_all` and cursors. This
project states what the two rings, the cursors and the daemon do, and proves the properties
that span them.

There are four layers.

* **Volatile ring, one operation at a time.** `VolatileRing.dfy` is the code's own form: arrays
  of slots changed in place, reservations that refer to their buffer, the spin, consume and
  refill loops. `SlotRing.dfy` is the same state as a value; `Fifo.dfy` is the abstract bounded
  queue with a ledger of every record; `RingRuns.dfy` joins them over whole runs.
  `RingDelivery.dfy` says what that means for records made by the constructor, `RingRelease.dfy`
  for reservations that are dropped. Sequence counters wrap at 2^64 (`Sequences.dfy`).
* **Volatile ring, one atomic action at a time.** `StepModel.dfy` interleaves the loads, stores,
  compare-and-swaps and single-byte copies of any number of producers and the one consumer.
  `StepOwnership.dfy` covers every interleaving; `StepNumbers.dfy`, `StepWindow.dfy` and
  `StepRefinement.dfy` add the condition that no compare-and-swap used a stale number.
  `StepStores.dfy` tells from the steps alone what each reservation stored, and `StepRecords.dfy`
  reads a delivery back as the record stored. `StepDrops.dfy` says which stale numbers matter to
  a dropped one, and `StepStale.dfy` shows one; `StepClone.dfy` is the code as written.
* **Ring file and cursors.** `Crc32.dfy`, `Crc32Law.dfy`, `DiskFormat.dfy`, `LapReader.dfy`,
  `RingFile.dfy`, `DiskBytes.dfy`, `Recovery.dfy`, `WrapCrash.dfy`, `CursorSpec.dfy` and
  `CursorRuns.dfy` are values and functions; `PersistentRing.dfy` and `Cursors.dfy` are the
  objects that update a mapped file in place. `DiskBytes.dfy` states the file byte by byte.
* **Flush daemon.** `FlushSpec.dfy`, `FlushBatches.dfy`, `FlushLoss.dfy` and `FlushDaemon.dfy`
  compose the two rings.

## Where the code and its documentation differ

* `reserve` stores a clone of the buffer (`src/memory/volatile.rs:210`, `431-461`) where the
  field is documented as a reference to the parent (`src/memory/volatile.rs:34`). All results
  about the volatile ring take the documented reference, except those of `StepClone`, which are
  about the clone: nothing is ever delivered.
* `ControlBlock::update_crc` hashes 44 bytes of the padded block, the checksum field among them;
  its comment excludes that field. `DiskFormat.CrcRange` is `Documented` or `AsWritten`, and
  every result says which one it needs. The layout, parsing and cursor results hold for both;
  reopening and the crash results need `Documented`.
* `Cursor::commit` is documented to commit the current position. The code moves the read
  position to the write position. `CursorRuns.CommitIff` says when the two agree, `CursorRuns.CommitSkipsRecord` what happens when not;
  `test_cursor_commit` (`src/disk/cursor.rs:325-357`) expects the documented effect.
* The daemon consumes every ready record and writes at most a batch of them. The rest is gone.
  `FlushSpec` accounts for it, and `FlushLoss.LosslessIff` says exactly when nothing can be lost.
* A cursor of an older lap can make `next` loop for ever; `CursorSpec.DivergesIff` says when, and
  `CursorRuns.StrandedCursorDiverges` gives such a cursor.

## Model

| member | source | states |
|---|---|---|
| Crc32.BurstDetected | src/disk/mod.rs:145-156 | Two byte strings of any equal length that differ only within four consecutive bytes have different CRC-32 checksums (section 8 of RFC 1952) |
| Crc32Law.ChecksumOfWord | src/disk/mod.rs:145-156 | For every message the checksum is that of the machine-word code of RFC 1952: shift right, add 0xEDB88320 when a one falls out, start from ones, complement at the end |
| Crc32Law.KnownChecksum | src/disk/mod.rs:145-156 | The checksum of the letter a is E8B7BE43 |
| Crc32Law.Residue | src/disk/mod.rs:75-104 | Every message followed by its own checksum in little-endian bytes has the checksum 2144DF1C |
| Records.NewRecord | src/memory/mod.rs:82-86 | A new record has the data, tag and timestamp given; its checksum describes its data, and below 4 GiB so does its size field |
| DiskFormat.ControlRoundTrip | src/disk/mod.rs:31-105 | Decoding an encoded 48-byte control block gives it back |
| DiskFormat.HeaderRoundTrip | src/disk/mod.rs:110-162 | Decoding an encoded 24-byte record header gives it back |
| DiskFormat.DocumentedCrcVerifies | src/disk/mod.rs:75-104 | With the checksum over the documented fields, verify after update always succeeds |
| DiskFormat.AsWrittenCrcVerifies | src/disk/mod.rs:75-104 | With the range as written, verify after update succeeds if and only if the new checksum equals the one stored before |
| DiskFormat.AsWrittenNewRarelyVerifies | src/disk/mod.rs:57-104 | As written, of any two sizes below 4 GiB at most one gives a new control block that verifies |
| LapReader.ListsUnique | src/disk/persistent.rs:297-339 | A file lists at most one sequence of records from offset 0 to a given end |
| LapReader.SkipsHeaders | src/disk/persistent.rs:297-339 | Where nothing is found `read_all` goes on in steps of a header until it has passed the write position |
| RingFile.ReadStored | src/disk/persistent.rs:237-294 | Parsing where a record's bytes lie gives exactly that record and its length |
| DiskBytes.StoredBytes | src/disk/persistent.rs:196-207 | A stored record is four little-endian numbers (length, checksum, timestamp, tag), the marker bytes 55 AA, two zero bytes and the data |
| DiskBytes.ReadAtBytes | src/disk/persistent.rs:237-294 | At any position of any file: nothing without room, marker and data inside the file; otherwise the header's numbers and the data if the checksum at byte 4 is that of the data, and an invalid record if not |
| RingFile.LapParses | src/disk/persistent.rs:297-339 | A file whose data area is a printed lap parses from offset 0 to exactly that lap, ending at the write position |
| RingFile.WriteHolds | src/disk/persistent.rs:151-226 | A write extends the printed lap, restarts it when it wraps, or leaves it when the record is refused, keeps the read position, and leaves the control block on file as in memory |
| RingFile.WriteFootprint | src/disk/persistent.rs:190-207 | The record's store changes no byte outside its own range, which lies behind the control block and inside the file |
| RingFile.ReachableFileParses | src/disk/persistent.rs:151-360 | After any run of writes, reads and resets, with any number of wraps, the write position is within the size and the file parses to exactly the records since the last wrap |
| DiskBytes.OpensIff | src/disk/persistent.rs:107-128 | A file with a control block opens if and only if its first four bytes are the magic number and bytes 40 to 43 hold the checksum of the bytes before (44 of them as written); size, positions and wrap count are those stored |
| DiskBytes.OpensEmpty | src/disk/persistent.rs:80-109 | Opening an empty file gives a ring of the requested size, zeroed behind its magic number and version 1, of which `read_all` returns nothing; reopening gives the same state, as written exactly when the new checksum is zero |
| DiskBytes.FirstWrite | src/disk/persistent.rs:80-226 | The first record written to a new file is what `read_all` returns if header and data fit, and changes nothing if not; reopening gives the same state |
| Recovery.ReopenRestores | src/disk/persistent.rs:93-128 | With the documented checksum range, reopening the file gives back the same state |
| Recovery.ReopenAsWritten | src/disk/persistent.rs:107-120 | With the range as written, reopening after a control-block update succeeds if and only if the checksum did not change, and otherwise reports an invalid buffer |
| Recovery.ReadAllUnread | src/disk/persistent.rs:297-339 | `read_all` returns exactly the unread records and marks them read |
| Recovery.ResetReadsNothing | src/disk/persistent.rs:342-360 | After a reset everything stored counts as read: `read_all` returns nothing and the lap is still there |
| Recovery.ReadAfterWrap | src/disk/persistent.rs:182-339 | A write never moves the read position; so after a wrapping write `read_all` returns the new record if the read position was 0, and nothing if it was at or behind the new record's end |
| Recovery.TornTail | src/disk/persistent.rs:93-128 | Any bytes at all behind the write position leave the file reopening to the same lap |
| Recovery.CrashAtomic | src/disk/persistent.rs:151-226 | A non-wrapping write stopped after any prefix of its record's bytes, or complete, reopens, and `read_all` returns the old unread records, or those and the new one |
| WrapCrash.CrashInWrap | src/disk/persistent.rs:182-207 | A wrapping write stopped after `k` bytes reopens with the old control block; the old lap is whole if and only if those bytes were already there; `read_all` returns the unread records, ending at the write position, if and only if the bytes stored change nothing that `read_at` looks at in any of them (all but each header's reserved field) |
| WrapCrash.WrapCrashLoses | src/disk/persistent.rs:182-207 | In a file that one record fills, any second write different from it only within four data bytes, stopped behind its header, makes `read_all` fail after reopening where it returned the record before |
| WrapCrash.TornWrapFails | src/disk/persistent.rs:182-207 | Stopped behind the new header with nothing of the lap read, `read_all` takes that header with partly old data and fails unless the checksums agree |
| Recovery.BurstMakesCorrupt | src/disk/persistent.rs:276-278 | Where `read_at` finds a record, changing its stored data within four consecutive bytes, at any place and for any length, always makes it report an invalid record |
| Recovery.BurstStopsReadAll | src/disk/persistent.rs:297-339 | Such a change among the unread records makes `read_all` fail and leaves the state alone |
| PersistentRing.Ring.Write | src/disk/persistent.rs:151-226 | The in-place write leaves exactly the state `RingFile.WriteRecord` gives, and fails exactly when 24 bytes and the data exceed the data area |
| PersistentRing.Ring.ReadRecord | src/disk/persistent.rs:237-294 | Reading at any position, over any bytes, gives the parser's result |
| PersistentRing.Ring.ReadEverything | src/disk/persistent.rs:297-339 | The loop returns the parser's list or its failure, and moves the read position only on success |
| PersistentRing.Ring.ResetRead | src/disk/persistent.rs:342-360 | The read position becomes the write position and the control block is saved |
| PersistentRing.OpenRing | src/disk/persistent.rs:69-129 | An empty file becomes a new ring of the requested size with nothing in it, a file with a bad control block is refused, any other is opened with its own size |
| CursorSpec.DivergesIff | src/disk/cursor.rs:87-123 | `next` never returns if and only if the cursor's lap is older, its end flag is clear, and there is no record at any header-sized step ahead |
| CursorRuns.StrandedCursorDiverges | src/disk/cursor.rs:87-123 | Three writes to a 48-byte file, and a cursor opened at the position that was the end of the first lap: `next` never returns |
| CursorSpec.NextReturns | src/disk/cursor.rs:87-123 | Where it returns, some finite depth of its self-recursion returns the stated result |
| CursorSpec.NextDiverges | src/disk/cursor.rs:87-123 | Where it does not, no depth of recursion is enough |
| CursorSpec.NextFinds | src/disk/cursor.rs:87-123 | Over arbitrary bytes a call of `next` that returns looked in vain at every header-sized step before, each short of the write position unless the lap is older, and returned the first record or corrupt header it met, or stopped where it no longer looks |
| CursorSpec.DrainTerminates | src/disk/cursor.rs:87-123 | Over arbitrary bytes a cursor that is not behind is drained by calls that all return, and yields at most size/24 records |
| CursorSpec.SeekEstablishes | src/disk/cursor.rs:148-170 | Seeking anywhere gives a cursor of the current lap on which `next` returns: at the position if it is there, at offset 0 if it is of an older lap, and at the end, yielding nothing, if it is ahead or is the end |
| CursorSpec.BatchesCompose | src/disk/cursor.rs:130-141 | Reading a batch of m and then of n is reading a batch of m + n, errors included, over arbitrary bytes |
| CursorSpec.BatchOfDrain | src/disk/cursor.rs:130-141 | Over arbitrary bytes a batch is the next records until `next` stops; a corrupt record inside the batch makes it an error, whatever was read before |
| CursorSpec.CorruptStopsBatch | src/disk/cursor.rs:130-141 | A corrupt record behind the records of a lap makes every batch that would pass it an error, from any boundary |
| CursorSpec.NextAtBoundary | src/disk/cursor.rs:87-123 | On a listed lap `next` yields the next record and stands before the one after it |
| CursorSpec.SeekReplays | src/disk/cursor.rs:130-170 | Seeking back to a saved position replays the same records, followed by any newer ones |
| CursorRuns.CursorAgreesWithReadAll | src/disk/cursor.rs:58-123 | After any run and any number of wraps, a cursor from offset 0 yields exactly the current lap and then reports its end, and `read_all` returns the same list when the read position is 0 |
| CursorRuns.SeekAfterWrap | src/disk/cursor.rs:148-170 | A wrapping write strands every cursor; seeking to its own position makes it yield exactly the new lap, and committing it without a seek changes nothing |
| CursorRuns.EndThenWrite | src/disk/cursor.rs:173-178 | A cursor sent to the end yields nothing, not even after a further write, until it is seeked, and then exactly what was written |
| CursorRuns.InterleavedCursor | src/disk/cursor.rs:87-170 | In every interleaving of non-wrapping writes with `next` and seeks to the current position, the cursor yields consecutive records from its boundary, none skipped, repeated or torn |
| CursorRuns.StepSession | src/disk/cursor.rs:87-170 | One such event keeps the cursor at a boundary; after a resume its end flag is current, and a `next` that is not at the end advances by one record |
| CursorRuns.CommitIff | src/disk/cursor.rs:181-197 | Commit has its documented effect if and only if the cursor is not ahead of the read position or stands at the end |
| CursorRuns.CommitChangesIff | src/disk/cursor.rs:181-197 | Commit changes the file if and only if the cursor is of the current lap, behind the read position and not past the write position |
| CursorRuns.CommitSkipsRecord | src/disk/cursor.rs:181-197 | Of any two stored records, a cursor that yielded the first and commits makes `read_all` skip the second |
| CursorRuns.ExactlyOnce | src/disk/persistent.rs:297-360 | For every interleaving of non-wrapping writes, `read_all` calls and any number of cursors opened at the read position, kept open across the other steps and committed when at the end, what was consumed followed by what is unread is everything stored, and the read position stays a boundary |
| Cursors.Cursor.Next | src/disk/cursor.rs:87-123 | The self-recursive method returns what `CursorSpec.Next` says and moves the cursor as it says |
| Cursors.Cursor.ReadBatch | src/disk/cursor.rs:130-141 | The batch loop returns the specified records or error |
| Cursors.Cursor.SeekTo | src/disk/cursor.rs:148-170 | The clamped position and end flag for every requested position |
| Cursors.Cursor.SeekToEnd | src/disk/cursor.rs:173-178 | The cursor stands at the write position of the current lap, at its end |
| Cursors.Cursor.CommitPosition | src/disk/cursor.rs:181-197 | Moves the buffer's read position as `CursorRuns.Commit` says; the cursor is unchanged |
| Sequences.MaskedIndex | src/memory/mod.rs:142-152 | Masking a number with capacity - 1 selects its slot, for every power-of-two capacity |
| Sequences.RoundedCapacity | src/memory/volatile.rs:133-163 | The rounded capacity is the least power of two not below the requested one |
| Sequences.IndexOfWrapped | src/memory/mod.rs:142-152 | The wrapped counter selects the same slot as the unbounded one |
| Sequences.WrappedDistinct | src/memory/volatile.rs:347-347 | Two numbers less than 2^64 apart are equal when their wrapped values are |
| SlotRing.RoomIffNotFull | src/memory/volatile.rs:187-195 | In every reachable state "the probed slot is Empty" is "fewer than capacity numbers in use", and the wrapping difference of the counters is that number |
| SlotRing.ConsumeIffCommitted | src/memory/volatile.rs:343-347 | The consumer can proceed exactly when the oldest number in use is committed |
| SlotRing.ReserveRefines | src/memory/volatile.rs:176-213 | A reservation keeps the window and appends one uncommitted entry to the queue |
| SlotRing.FillRefines | src/memory/volatile.rs:51-69 | Writing into a reservation changes that reservation's entry and no other |
| SlotRing.CommitRefines | src/memory/volatile.rs:72-88 | Committing marks that reservation's entry and no other |
| SlotRing.WriteRefines | src/memory/volatile.rs:254-276 | A write is the abstract write: ring, overflow, or overflow with its oldest dropped |
| SlotRing.ConsumeRefines | src/memory/volatile.rs:341-383 | The consume loop takes exactly the longest committed prefix and leaves the rest of the window |
| SlotRing.ReadRefines | src/memory/volatile.rs:326-406 | A read is the abstract read, refill from the overflow queue included |
| Fifo.ReadyIsLongest | src/memory/volatile.rs:341-383 | Every entry of the ready prefix is committed and the entry behind it is not |
| Fifo.ReadSplitsLine | src/memory/volatile.rs:326-406 | A read takes the committed prefix off the front of the line and returns its records with good checksums; when every pending header carries the checksum of its data, what it returns followed by what is left is the line it found |
| Fifo.WriteLine | src/memory/volatile.rs:254-276 | A write joins the end of the line of ring and overflow, and an overflow record waits only while the ring is full, so a direct write never overtakes a queued one |
| Fifo.StepConserves | src/memory/volatile.rs:254-406 | Every operation keeps the books balanced; a record is dropped only with capacity + max_overflow places taken |
| Fifo.RunConserves | src/memory/volatile.rs:254-406 | Over every run each accepted record is in exactly one of delivered, refused, dropped, ring and overflow, and a refused record's checksum is not that of its data |
| Fifo.RunOrdered | src/memory/volatile.rs:254-406 | Over every run of writes and reads, delivered followed by pending is the accepted records in order less the dropped ones |
| RingRuns.StepAgrees | src/memory/volatile.rs:176-406 | Every operation of the ring changes the abstract queue as specified, and the books by exactly what it accepted, returned, refused and dropped, across counter wrap-around |
| RingRuns.RingConserves | src/memory/volatile.rs:133-406 | From a new buffer, every run is the run of the abstract queue under the same operations, reservations in the order of their numbers among them; every accepted record is in exactly one of delivered, refused, dropped, ring and overflow, the first three computed from the run; a refused record's header does not carry the checksum of its data and a delivered one's does; sound writes are delivered in order |
| RingRuns.DropsOnlyWhenFull | src/memory/volatile.rs:262-275 | In every reachable state a write drops a record if and only if ring and overflow hold capacity + max_overflow, and it is then the oldest waiting one |
| RingDelivery.NewRecordsDelivered | src/memory/volatile.rs:254-406 | Over every run of reads and of writes of constructor-made records of at most 232 bytes: nothing is refused; delivered followed by pending is what was written, in order, less the dropped; and the next read returns the pending records up to the capacity |
| RingDelivery.WrittenThenRead | src/memory/volatile.rs:254-383 | A record written to a new ring is exactly what the next read returns |
| RingRelease.DroppedNotRead | src/memory/volatile.rs:91-101 | After a drop a read returns only records of numbers before the dropped one and the counter stops at it at the latest |
| RingRelease.DroppedIsFree | src/memory/volatile.rs:91-101 | Every number that falls on the dropped reservation's slot can be reserved there; a full ring whose next slot it is has room again |
| RingRelease.EndsOnce | src/memory/volatile.rs:72-101 | After a commit neither a drop nor a second commit changes anything, nor does either after a drop |
| VolatileRing.Buffer.constructor | src/memory/volatile.rs:133-163 | A new buffer has the rounded capacity, Empty slots and no pending record |
| VolatileRing.Buffer.Reserve | src/memory/volatile.rs:176-243 | Refused exactly when the probed slot is taken, changing nothing; otherwise takes the next number and its slot |
| VolatileRing.Buffer.Write | src/memory/volatile.rs:254-276 | The in-place write leaves the specified state and returns true exactly when it went into the ring |
| VolatileRing.Buffer.Consume | src/memory/volatile.rs:333-383 | The loop returns the specified records, recycles exactly their slots, and moves the local counter past them |
| VolatileRing.Buffer.Read | src/memory/volatile.rs:326-406 | Returns the specified records and leaves the specified state, refilled |
| VolatileRing.Buffer.Refill | src/memory/volatile.rs:390-403 | Moves waiting records into the ring until it is full or none waits; every waiting record fits its slot |
| SlotRing.UsageCounts | src/memory/volatile.rs:409-418 | In every reachable state the usage is 100 times the numbers in use over the capacity (half full is 50), and is 100 exactly when the next reservation finds no room |
| VolatileRing.Reservation.Write | src/memory/volatile.rs:51-69 | Header and data replace the front of the reservation's own slot |
| VolatileRing.Reservation.Commit | src/memory/volatile.rs:72-88 | Makes the slot Ready under its own number, at most once |
| VolatileRing.Reservation.Drop | src/memory/volatile.rs:91-101 | Without a commit the slot is Empty again and the counters are unchanged |
| StepOwnership.SlotsHaveOneOwner | src/memory/volatile.rs:51-101 | In every interleaving, stale loads included: a slot is Reserved exactly when one reservation owns it, nobody else changes its bytes, every delivery is the header and as many bytes as it says of what one reservation committed (`StepStores` says what that is), and no commit is delivered twice |
| StepStores.StoresDelivered | src/memory/volatile.rs:51-101 | In every interleaving each commit's bytes are those its compare-and-swap found with that producer's own byte stores since made in order, as told by the steps alone; each delivery is the header's share of one of them, and a reservation's slot holds its own so far |
| StepRecords.StoredRecordRead | src/memory/volatile.rs:349-366 | A slot that holds a record's header and data, whatever lies in the padding and behind the data, is copied and read as exactly that record |
| StepRecords.RecordDelivered | src/memory/volatile.rs:51-366 | In every interleaving a delivery whose reservation stored a record's header and data reads as that record |
| StepOwnership.CommitSwapOwned | src/memory/volatile.rs:72-88 | The compare-and-swap of a commit never fails |
| StepOwnership.DropSwapOwned | src/memory/volatile.rs:91-101 | Releasing an uncommitted slot keeps every other reservation's slot and bytes |
| StepNumbers.OnlyCommittedNumbersPassed | src/memory/volatile.rs:343-383 | In every interleaving, stale loads and late number stores included, the k-th delivery is of a reservation with number k |
| StepNumbers.OnePublisher | src/memory/volatile.rs:195-203 | In every run without a stale compare-and-swap at most one producer is between its compare-and-swap and its store of `prod_seq`, and it holds the current number |
| StepDrops.UnwonNumberBlocks | src/memory/volatile.rs:91-101 | After any interleaving, once a number is neither committed nor held, no record of a reservation with it or a later one is ever delivered unless some compare-and-swap wins that number again |
| StepDrops.PastNumberBlocks | src/memory/volatile.rs:187-213 | When `prod_seq` is past the number, only a stale compare-and-swap that wins a number up to it can do that |
| StepDrops.DropLeavesGone | src/memory/volatile.rs:91-101 | Dropping a reservation whose number nobody committed leaves the number neither committed nor held, in every interleaving |
| StepDrops.AbandonedNumberBlocks | src/memory/volatile.rs:91-101 | A reservation dropped in a run without a stale compare-and-swap stops the consumer for good, however the run goes on, as long as no stale compare-and-swap wins a number up to its own |
| StepStale.StaleLoadPassesDroppedNumber | src/memory/volatile.rs:187-200 | An interleaving with one stale compare-and-swap in which a dropped number is passed and a later one delivered |
| StepWindow.ProducerWindow | src/memory/volatile.rs:176-213 | Every orderly producer action keeps the window: each number in use is in its own slot, every other slot is free |
| StepWindow.ConsumerWindow | src/memory/volatile.rs:341-383 | So does every consumer action |
| StepRefinement.StepMoves | src/memory/volatile.rs:72-213 | Every orderly atomic action is its own move of the bounded queue: publishing reserves, storing a byte fills the reservation's entry with the slot's bytes with that byte replaced, a commit commits it, a delivery takes the first, and nothing else moves it |
| StepRefinement.OrderlyRunsAreFifo | src/memory/volatile.rs:176-383 | Every orderly interleaving drives the bounded queue step by step; the queue's output is what the delivered bytes read as, the k-th delivery is number k's commit, and every commit is delivered in its turn or waits in its slot |
| StepRefinement.SlotRecordFrugal | src/memory/volatile.rs:349-366 | Reading a record looks at no more of a slot than the consumer copies, so the refinement applies to it |
| StepRefinement.TakesMakeRead | src/memory/volatile.rs:341-383 | Takes up to the first uncommitted entry leave the queue the operation-level read leaves, and those among the records taken whose header carries the checksum of their data, all of them when all do, are what it returns |
| StepClone.AsWrittenNothingDelivered | src/memory/volatile.rs:205-212 | As written, in every interleaving the parent's slots are only Empty or Reserved, nothing is delivered, and at most capacity reservations ever succeed |
| FlushSpec.PersistHolds | src/lib.rs:195-207 | Persisting a batch appends what it wrote to the history, the file's lap is the end of that history, and everything is written when the file holds a full slot |
| FlushSpec.DrainKeepsAllIff | src/lib.rs:188-207 | A drain discards nothing if and only if what is ready fits the batch and each record fits the file |
| FlushBatches.TurnBatch | src/lib.rs:163-186 | A turn flushes exactly when notified or at the watermark; its batch is 1.5 times the configured number above the watermark, half of it below half the watermark, that number in between, rounded down and at least 1 |
| FlushBatches.FullerTakesMore | src/lib.rs:168-180 | The batch never falls as usage rises |
| FlushBatches.HighTurnKeepsAll | src/lib.rs:163-207 | A turn above the watermark discards nothing, and writes everything, if and only if what it finds is at most 1.5 times the configured number, or one record, and each fits the file |
| FlushBatches.TurnKeepsAllIff | src/lib.rs:163-207 | The same for every usage band |
| FlushBatches.DrainWrites | src/lib.rs:188-207 | A drain writes what it read up to the batch and the first record that does not fit, and discards the rest |
| FlushSpec.StepAccounted | src/lib.rs:160-220 | Every client operation, daemon decision and drain keeps the account of both rings, and books exactly what it does to the memory ring |
| FlushSpec.EndToEnd | src/lib.rs:160-220 | For every run: what was accepted, delivered to the daemon, refused and dropped is computed from the run and balances; the written history is an order-preserving subsequence of what was delivered, the rest is exactly the discarded records, and the file parses to the end of the history; if lossless, nothing is discarded |
| FlushSpec.SmallRingLossless | src/lib.rs:165-180 | A ring of at most max(1, max/2) slots and a file of at least 256 bytes is lossless |
| FlushLoss.LosslessIff | src/lib.rs:163-220 | No run discards a record if and only if the file takes 256 bytes and the ring has one slot or at most half the configured number of records (all of it with a watermark of 0, half again with a negative one) |
| FlushDaemon.PersistBatch | src/lib.rs:195-207 | The loop writes up to the first error, counts the successes and leaves the specified file |
| FlushDaemon.Daemon.Turn | src/lib.rs:164-215 | One iteration leaves both rings, the history and the discarded records as specified |
| FlushDaemon.Daemon.Loop | src/lib.rs:160-220 | The whole loop is the run of its decisions and drains that the end-to-end results speak of |

## Left out

- VolatileRing.Buffer.Reserve: a blocking call on a full ring waits for another thread and may recurse without bound; here it is made only when there is room, and no liveness is claimed.
- SlotRing.UsageCounts: exact ratio instead of 32-bit floating point; the batch size 1.5 * max is the exact 3 * max / 2, rounded down.
- StepRefinement.OrderlyRunsAreFifo: sequence numbers are unbounded at this grain (the operation-level results cover their wrap at 2^64), the overflow queue's refill is not distinguished from any other producer, and commit is one action; with its late number store split off, ownership and the order of deliveries hold (`StepNumbers`).
- StepOwnership.SlotsHaveOneOwner: sequential consistency; the weaker orderings of the atomics are not modelled. A header that claims more than the slot holds ends the copy at the slot's end, where the code reads on.
- StepDrops.UnwonNumberBlocks: one direction; a compare-and-swap that wins the number again can let the consumer pass (`StepStale`), if that reservation is then committed.
- Cursors.Cursor.Next: required not to be called where it would never return; `CursorSpec.DivergesIff` says where that is.
- Cursors.Cursor.ReadBatch: likewise.
- Recovery.CrashAtomic: stores reach the file in program order and the control-block store is atomic; mmap, msync and file-system behaviour are not modelled. A write that wraps is not crash-atomic.
- WrapCrash.CrashInWrap: which other result `read_all` gives when it does not return the unread records depends on the bytes; `WrapCrash.TornWrapFails` covers a read position of 0 and a complete new header.
- CursorRuns.InterleavedCursor: writes that wrap under a reader are excluded, as a stale read position or wrap count then reads leftover bytes.
- CursorRuns.ExactlyOnce: within one lap, for the same reason; cursors opened elsewhere than at the read position are excluded, as a commit then passes records nobody read.
- PersistentRing.OpenRing: a file shorter than its control block says, and one shorter than a control block, are excluded.
- DiskFormat.ControlRoundTrip: the four padding bytes of the C layout are taken as zero.
- Records of 4 GiB or more (the 32-bit size cast) are excluded where a result needs the size field, and data areas above 2^62 bytes throughout. `wrap_count` wraps at 2^64, which no theorem reads as progress.
- SlotRing.FillRefines: the record's header carries the data's own length, as `Record::new` makes it; a hand-made header with another size makes the code return leftover bytes of the slot, or read outside it.
- SlotRing.WriteRefines: likewise.
- VolatileRing.Buffer.Write: likewise.
- VolatileRing.Reservation.Write: likewise, for a header that claims more than the slot holds.
- `wait_for_data`, the ready flag and the condition variable: the outcome of each wait is an arbitrary input of the daemon's turn.
- `flush` after a batch, I/O errors, the running flag, thread start and stop, sleeps and backoff: environment.
- The clock: a record's timestamp is an arbitrary input.
- JNI and iOS bindings, the Swift demo and the global buffer cells: no ring state of their own.
