# UrBackup core: a Dafny model

This project models the parts of UrBackup whose correctness does not show from reading one function, and
proves what their documentation and tests rely on. `dafny verify dfyconfig.toml` checks all of it.

* **blockalign** (`Bytes`, `BlockFormat`, `Chunker`, `Backlog`, `Writer`, `Placer`, `Aligner`, `DirectRun`, `Resume`,
  `Replace`, `Blockalign`, `Restore`, `RestoreProof`, `RestoreExact`, `BlockalignTheorems`, `BlockalignLimits`,
  `ResumeTheorems`, `BlockChecksum`): a content-defined chunker, a placer that reorders blocks so that repeated runs put equal blocks at equal offsets, and the
  reassembler that undoes it. For every input and every hash file, even a meaningless one, restoring what was
  written gives the input back if every stored position fits its 32-bit map entry; a condition on the length of
  the input and of the hash file that a caller can test beforehand suffices. Below 4 GiB the exact condition is
  proved: positions of blocks with bytes must fit, and an empty last block must not be stored behind the output.
  A test that accepts every cut makes inputs from 285 143 168 bytes up to 4 GiB unreadable. Aligning again with
  the hash file of a first run writes the same bytes. When the first blocks of the input are gone, or one block was
  replaced by another of its length, the other blocks stay where they were, exactly under conditions on the
  checksums and the gap. The backlog holds at most one positioned block, never behind the output, and stays within
  its memory limit.
* **CRC-32C** (`Crc32c`, `Crc32cTables`, `Polynomials`, `Crc32cPolynomial`): the slicing-by-8 program equals the
  bit-serial register for every buffer, length, seed and alignment, and the register holds the one remainder of the
  message by the generator polynomial of section 12.1 of RFC 3720.
* **Thread pool** (`ThreadPool`, `ThreadPoolTheorems`, `ThreadPoolStrands`, `ThreadPoolObject`): a transition system
  whose steps are what one thread does under the mutex, and the object's methods proved to make these steps. Over
  every interleaving no task is stranded, tickets are served once and in order, and no entry keeps a destroyed
  condition. waitFor answers whether its tickets have ended. Before the ticket counter wraps, a call of waitFor can be stranded if and only if one of its tickets
  runs and another one has not been issued yet.
* **Sessions** (`Sessions`): over every interleaving of callers at most one holds a user, reference counts are
  exact, a user in use is never removed, no wake-up is lost.
* **Select and worker threads** (`ClientHandOff`): every client has one owner; a deleted client has none.
* **MD5 buffering** (`Md5`), **rate limiter** (`PipeThrottler`), **retrying reads** (`Query`), **base64** (`Base64`),
  **parameter strings** (`ParamStrings`), **JSON** (`Json`, `JsonRoundTrip`, `JsonUnicode`, `JsonPrograms`).

## Modelling choices

* State that the source changes in place is a class (`OutputState`, `OutputBuffer`, `Aligner`, `CThreadPool`,
  `CSessionMgr`, `CSelectThread`, `MD5`, `Throttler`, `Statement`, `FastWriter`, `Reader`); buffers are arrays.
  Each method is proved against a function or a step of a transition system, and the theorems are about those.
* The checksum of blockalign is an arbitrary function that can be continued (`Extends`), and the test where to cut
  is an arbitrary predicate, since it compares floating-point numbers. `Crc32cExtends` shows that CRC-32C is such a
  checksum. The hash file is an arbitrary table of words.
* Integers are unbounded, except where a width matters: 32-bit block map entries, the cast of -1 to an
  unsigned short, 32-bit tickets, MD5's 32-bit counters and loop test, 32-bit sleep times, 64-bit JSON numbers.
* The clock, thread identifiers, the order of wake-ups, spurious wake-ups, the answers of the database and the
  granting of its lock are parameters over which the theorems quantify. A sleep lasts at least as long as asked for.

Some properties that one might expect do not hold, and exactly what holds instead is proved.

* Blocks do not always keep their positions. A last block alone is written at the start; a block whose checksum an
  earlier block has goes to that one's position; a gap of 1 modulo 65537 is overfilled; and the block behind a
  replaced one takes its place when it has the checksum of the replaced one (`KeepsPlacesExactly`,
  `LastBlockMoves`, `EqualBlocksMove`, `EditKeepsPlacesExactly`).
* Zero records count as blocks but have no entry in the hash file, so that entries behind them stand for positions
  that are 546 bytes too low for each (`EntryPositionExactly`): blocks that kept their places in a second run move in
  a third (`ThirdRunMoves`).
* A surrogate of the first half cannot be escaped on its own; every other code point comes back (`EscapeExactly`).
* `waitFor` on a ticket that is issued only after the call began is never notified of its end
  (`StrandsExactly`, `StrandableExactly`, `ForgottenForever`; `UnissuedTicketStrands` is a run of seven steps).
* `MD5::update` runs past its input for some lengths above 2^32 - 64 (`OutOfRangeOverruns`, `InRange`).
* Parameter strings with distinct keys lose keys with '=' and a last pair of empty strings, and nothing else
  (`TableRoundTrip`).
* The rate limit does not bind calls that do not wait and bring too much, nor calls that would have to sleep for
  2^32 ms or more; each call keeps the account exactly in the other cases (`CallKeepsExactly`, `NewWindowExactly`).
* The JSON reader returns the integer of a literal exactly from -2^63 to 2^64 - 1. Past these it gives up, or, when
  all digits but two stay below its threshold and the last digit is small, wraps around; a negative literal can
  come back positive (`LiteralValue`, `LiteralExact`, `NegativeLiteralWraps`).

## Model

| member | source | states |
|---|---|---|
| Crc32c.ChecksumConcat | blockalign_src/crc32c-adler.cpp:71-99 | the checksum of a concatenation is the checksum of the second part seeded with that of the first |
| Crc32c.ZeroByteLinear | blockalign_src/crc32c-adler.cpp:31-54 | pushing a zero byte through the bit-serial register is linear over exclusive or |
| Crc32c.FeedByteIsZeroByte | blockalign_src/crc32c-adler.cpp:31-54 | eight single-bit steps with a data byte equal the table step on the register xor the byte |
| Crc32c.Crc32cIsByteRegister | blockalign_src/crc32c-adler.cpp:31-54 | the bit-serial register satisfies the laws on which the tables rest |
| Crc32cTables.InitTable | blockalign_src/crc32c-adler.cpp:31-54 | the nested loops leave in table[k][n] the register after byte n and k zero bytes |
| Crc32cTables.SliceEight | blockalign_src/crc32c-adler.cpp:81-93 | eight bytes fed one by one equal the xor of eight table lookups |
| Crc32cTables.WordStep | blockalign_src/crc32c-adler.cpp:81-93 | the 64-bit step of the program feeds the eight bytes of the word |
| Crc32cTables.RunRegister | blockalign_src/crc32c-adler.cpp:71-99 | the alignment loop, the word loop and the tail loop together feed the whole buffer |
| Crc32cTables.Crc32cSw | blockalign_src/crc32c-adler.cpp:71-99 | the result is the checksum of the bit-serial register, whose meaning ChecksumIsRemainder gives, for every buffer, seed and start address |
| Crc32cPolynomial.ChecksumIsRemainder | blockalign_src/crc32c-adler.cpp:23-45 | for every seed and message the complemented checksum is the remainder, and the only one, of the message times x^32 behind the complemented seed by the polynomial 0x11edc6f41 |
| Crc32cPolynomial.ShiftCoefficients | blockalign_src/crc32c-adler.cpp:37-45 | one shift of the register is one step of long division by that polynomial |
| Crc32cPolynomial.Residue | blockalign_src/crc32c-adler.cpp:71-99 | every message followed by its checksum, low byte first, has the checksum 0x48674bc7 |
| Crc32cPolynomial.CheckValue | blockalign_src/crc32c-adler.cpp:23-45 | the checksum of the characters 1 to 9 is 0xe3069283 |
| Polynomials.DividesWithQuotient | blockalign_src/crc32c-adler.cpp:37-45 | a division register holds the remainder, with the bits that fall out as quotient, for any divisor, start and message |
| Polynomials.RemainderUnique | blockalign_src/crc32c-adler.cpp:37-45 | a polynomial has one remainder by a divisor with leading coefficient one |
| BlockChecksum.Crc32cExtends | blockalign_src/main.cpp:563-593 | CRC-32C is a checksum that next_blockhash can continue piece by piece |
| Chunker.NextBlockhash | blockalign_src/main.cpp:563-593 | returns the length of the first acceptable cut and the checksum of exactly that block |
| Chunker.InputBlocksSound | blockalign_src/main.cpp:1099-1183 | the blocks of the reference chunker concatenate to the input and none is longer than 1024 bytes |
| HashDatabase.HashDb.Find | blockalign_src/main.cpp:202-220 | finds the first matching entry in reach whose position is not behind, or there is none |
| Backlog.OutputBuffer.Add | blockalign_src/main.cpp:443-454 | inserts one item in key order, counts its bytes, and keeps all others |
| Backlog.OutputBuffer.AddAnywhere | blockalign_src/main.cpp:456-469 | appends one item and counts its bytes |
| Backlog.OutputBuffer.Remove | blockalign_src/main.cpp:483-488 | takes out exactly the positioned item and its bytes |
| Backlog.OutputBuffer.RemoveAnywhere | blockalign_src/main.cpp:490-495 | takes out exactly the unpositioned item and its bytes |
| Backlog.OutputBuffer.BestFit | blockalign_src/main.cpp:498-529 | the first among the longest items that fit the gap or leave room for another record; none exactly when none fits |
| Writer.ZeroStep | blockalign_src/main.cpp:657-677 | one zero record keeps the final position of the filling: the target, or 65536 past it when the gap is 1 modulo 65537 |
| Writer.OutputState.WriteItem | blockalign_src/main.cpp:627-655 | output, block map, hash file and block count stay those of the record sequence with the new record |
| Writer.OutputState.WriteZeroes | blockalign_src/main.cpp:657-677 | appends the zero records of the gap and ends at the target or 65536 past it |
| Aligner.Aligner.FillWithBacklog | blockalign_src/main.cpp:679-717 | loses no block, never turns a gap other than 1 into a gap of 1, and makes the state that of the reference filling |
| Placer.FilledUp | blockalign_src/main.cpp:679-717 | filling stops not behind the positioned block, when no waiting block fits any more, and leaves no new gap of 1 |
| Aligner.Aligner.FlushBuffer | blockalign_src/main.cpp:719-762 | writes exactly one block whenever one is waiting, the positioned one or else the first, and conserves blocks |
| Aligner.Aligner.EnforceSize | blockalign_src/main.cpp:764-782 | ends within the limit, does nothing when already within it, and never fills with zeroes |
| Aligner.Aligner.SettlePositioned | blockalign_src/main.cpp:788-827 | the positioned block is written at its position when it is near or the new block is found behind it, and otherwise put with the unpositioned ones |
| Aligner.Aligner.PlaceBlock | blockalign_src/main.cpp:829-874 | the new block is written at a hit at the output position, waits for a hit ahead, or is put last without a hit |
| Aligner.Aligner.ProcessBlock | blockalign_src/main.cpp:784-875 | written and waiting blocks grow by exactly the new block; at most one positioned block, not behind the output; at most 1024 bytes above the limit; the state becomes that of the reference placer |
| Placer.FoundExactly | blockalign_src/main.cpp:202-220 | the reference search selects the first hit in reach, and none exactly when there is no hit |
| Placer.ProcessHere | blockalign_src/main.cpp:836-844 | a block whose first hit is the output position is written there, and waiting blocks go on waiting |
| Placer.ProcessAhead | blockalign_src/main.cpp:846-854 | with an empty backlog a block whose first hit is ahead waits for exactly that position, near or far |
| Placer.ProcessNear | blockalign_src/main.cpp:817-826 | a near positioned block is written before the next block is placed |
| Placer.ProcessFar | blockalign_src/main.cpp:797-807 | a far one is written when the first hit of the next block lies directly behind it |
| Placer.SettledAt | blockalign_src/main.cpp:817-826 | the positioned block gets a record that starts where zero filling to its position ends: there, or 65536 further when the gap is 1 modulo 65537 |
| Placer.ZeroesOnlyToPositions | blockalign_src/main.cpp:797-826 | zeroes are written only in front of a positioned block that is near or confirmed |
| DirectRun.FindsOwnEntry | blockalign_src/main.cpp:202-220 | in the hash file of a run without zero records entry k matches block k at its position and entry k - 1 does not, even with equal checksums |
| DirectRun.DirectHit | blockalign_src/main.cpp:829-860 | while a run repeats the recorded one, the next block is found at the current output position |
| DirectRun.AlignedDirectly | blockalign_src/main.cpp:829-860 | without a hash file, or with that of a run on the same blocks, the blocks are written in input order without zeroes |
| Blockalign.FillBuffer | blockalign_src/main.cpp:608-625 | copies the next min(toread, remaining) bytes behind the offset and leaves the front alone |
| Blockalign.ReadAhead | blockalign_src/main.cpp:1101-1125 | the window becomes the next min(1024, remaining) bytes, inside the buffer |
| Blockalign.MoveToFront | blockalign_src/main.cpp:1158-1165 | the copy to the front, with disjoint ranges, keeps the unread bytes |
| Blockalign.WindowStep | blockalign_src/main.cpp:1099-1165 | one round cuts the block that the reference chunker cuts and keeps the 20480-byte buffer in bounds |
| Blockalign.CutInput | blockalign_src/main.cpp:1099-1183 | the blocks handed over are exactly those of the reference chunker, in order |
| Blockalign.CutTail | blockalign_src/main.cpp:1173-1183 | the last short window is cut like the reference chunker cuts it |
| Blockalign.PaddingAligns | blockalign_src/main.cpp:1190-1195 | the final padding always ends on a multiple of four, with one record |
| Blockalign.Drain | blockalign_src/main.cpp:1185-1188 | the drain loop ends with every block of the input written exactly once, as the reference placer writes them |
| Blockalign.Blockalign | blockalign_src/main.cpp:1063-1207 | the archive and the hash file are those of the record sequence of the reference placer, and it holds the blocks of the input, each once at its input position |
| BlockalignTheorems.FinishedShape | blockalign_src/main.cpp:1190-1200 | padding adds no block and no hash entry and makes the body a multiple of four bytes |
| Restore.RestoreBuffers | blockalign_src/main.cpp:877-895 | writes every pending block that follows on, until the next position is not pending |
| Restore.RestoreStream | blockalign_src/main.cpp:897-1011 | the record loop computes the reference reader, with its failures |
| Restore.BadHeaderFails | blockalign_src/main.cpp:912-920 | a file that is too short or does not begin with BLOCKALIGN#1 is refused |
| RestoreProof.ReadRecord | blockalign_src/main.cpp:943-975 | the reader finds record n of an archive where the writer put it |
| RestoreProof.ReadMapEntry | blockalign_src/main.cpp:961-968 | the reader finds map entry n of an archive |
| RestoreProof.KeyFits | blockalign_src/main.cpp:638-640 | a position survives its 32-bit map entry exactly when its distance fits and is not INT_MAX |
| RestoreProof.FlushProgress | blockalign_src/main.cpp:877-895 | flushing keeps the reassembly invariant: output is a prefix, seen blocks wait at their positions |
| RestoreProof.ReassembleAll | blockalign_src/main.cpp:934-1005 | blocks that tile the input are put together again from any order |
| RestoreProof.RestoreArchive | blockalign_src/main.cpp:897-1011 | restoring any archive that holds the blocks of an input, with fitting positions, gives their concatenation |
| RestoreExact.MisfitLosesData | blockalign_src/main.cpp:961-1002 | a record whose position does not fit costs its bytes: restoring fails or yields less |
| BlockalignTheorems.RoundTrip | blockalign_src/main.cpp:1063-1207 | restore after align is the identity for every input and every hash file, if positions fit |
| BlockalignTheorems.RoundTripNeedsPositions | blockalign_src/main.cpp:638-640 | if the round trip succeeds, every non-empty block's position fits |
| BlockalignLimits.ReadableRestores | blockalign_src/main.cpp:934-1005 | an archive is restored also when the position of its empty block does not fit, if that is not behind the output |
| BlockalignLimits.NegativeKeyFails | blockalign_src/main.cpp:985-988 | a record stored behind the start makes restoring fail |
| BlockalignLimits.RoundTripExactly | blockalign_src/main.cpp:638-640 | below 4 GiB the round trip succeeds if and only if blocks with bytes fit and an empty one is passed over or not behind |
| BlockalignLimits.ShortBlocks | blockalign_src/main.cpp:574-586 | when every cut is accepted, all blocks have 64 bytes while 64 are left |
| BlockalignLimits.LongInputMisfits | blockalign_src/main.cpp:638-640 | then every input from 285 143 168 bytes on gets a position that does not fit |
| BlockalignLimits.LongInputIsLost | blockalign_src/main.cpp:961-1002 | and below 4 GiB restoring does not give it back |
| BlockalignTheorems.RecordsWithinBound | blockalign_src/main.cpp:784-875 | the number of records is bounded by the lengths of the input and of the hash file |
| BlockalignTheorems.SmallRunFits | blockalign_src/main.cpp:638-640 | a condition on these two lengths makes all positions fit |
| BlockalignTheorems.AlignAndRestore | blockalign_src/main.cpp:897-1207 | the two programs one after the other return the input |
| BlockalignTheorems.FixedPoint | blockalign_src/main.cpp:1185-1200 | a second run with the first run's hash file writes the same archive and the same hash file |
| BlockalignTheorems.EntryPositionExactly | blockalign_src/main.cpp:645-677 | an entry of the hash file stands for the true position of its block if and only if no zero record was written before it; each one makes it 546 bytes too low |
| BlockalignTheorems.AlignTwice | blockalign_src/main.cpp:1063-1207 | the program run twice gives identical files |
| Resume.FindsPlace | blockalign_src/main.cpp:202-220 | at the place of block j the search selects entry j from wherever it starts before, whatever the checksums |
| Resume.ResumedRun | blockalign_src/main.cpp:784-875 | the state after every block of an input that lost its first blocks: the first one waits for its place until the second comes, and from there on every block is written at its place |
| ResumeTheorems.SuffixBlocks | blockalign_src/main.cpp:1099-1183 | an input without its first k blocks is cut into the other blocks |
| ResumeTheorems.KeepsPlacesExactly | blockalign_src/main.cpp:1038-1044 | with at most 100 KiB gone, every block left starts where it did if and only if two are left and zero filling to the first block with the same checksum ends at the place of the first one left |
| ResumeTheorems.KeepsPlaces | blockalign_src/main.cpp:1038-1044 | a first block left whose checksum is new and a gap that is not 1 modulo 65537 keep all places; beyond 100 KiB the next checksum must be new too, within the first 10000 entries |
| ResumeTheorems.LastBlockMoves | blockalign_src/main.cpp:719-735 | a last block alone never keeps its place |
| ResumeTheorems.EqualBlocksMove | blockalign_src/main.cpp:202-220 | three equal blocks do not keep their places when the first ones are gone |
| ResumeTheorems.AlignRest | blockalign_src/main.cpp:1063-1207 | the program run on an input and then on the rest of it keeps the places under exactly that condition |
| ResumeTheorems.ThirdRunMoves | blockalign_src/main.cpp:645-677 | after a run that kept all places behind zeroes, of which more than 546 bytes a record, a run on the same input with its hash file does not keep them |
| Replace.ReplacedExactly | blockalign_src/main.cpp:679-717 | with one block replaced by a new one of its length, the run writes all blocks in order without zeroes if and only if the next block does not have the checksum of the replaced one |
| ResumeTheorems.EditKeepsPlacesExactly | blockalign_src/main.cpp:1038-1044 | then every block starts where the block with its number did |
| ThreadPool.PickTicket | ThreadPool.cpp:355-360 | the search ends with the first free, legal ticket after the current one |
| ThreadPool.RegisterCounts | ThreadPool.cpp:251-261 | a waiter is registered with each live ticket as often as it names it |
| ThreadPool.DeregisterCounts | ThreadPool.cpp:300-319 | deregistering removes exactly as many registrations of this waiter and none of others |
| ThreadPool.ThreadsSubmit | ThreadPool.cpp:326-367 | a woken thread makes up for each queued task, or nobody sleeps |
| ThreadPool.ThreadsIdle | ThreadPool.cpp:140-151 | ending or sleeping keeps the thread limits |
| ThreadPool.StepKeeps | ThreadPool.cpp:54-161 | every step of every thread keeps the pool's invariant |
| ThreadPool.RunKeeps | ThreadPool.cpp:54-161 | the invariant holds in every state of every run |
| ThreadPool.NoStrandedTask | ThreadPool.cpp:115-161 | thread limits in every state; a queued task with fewer than max_threads executing has an awake thread about to take it |
| ThreadPoolTheorems.TicketLifecycle | ThreadPool.cpp:115-161 | live tickets are the queued and the executing ones, distinct and non-zero; tasks are taken once, in order; nRunning counts them |
| ThreadPoolTheorems.TakenOnce | ThreadPool.cpp:152-158 | over a whole run at most one step takes the task with number k, and it is the k-th submitted one |
| ThreadPoolTheorems.NoDanglingCondition | ThreadPool.cpp:300-323 | no entry refers to the condition of a waitFor that has returned |
| ThreadPoolTheorems.WaitForReturns | ThreadPool.cpp:263-323 | in every run a call of waitFor that returns answers true if and only if none of its tickets runs, and false only after a time-out; it sleeps only while one runs; no other call's answer changes |
| ThreadPoolTheorems.NoLostWakeup | ThreadPool.cpp:121-133 | a sleeping waiter none of whose tickets was issued since is registered with a running one |
| ThreadPoolTheorems.GivenTicketsWake | ThreadPool.cpp:240-324 | callers that wait for tickets that had been returned to them, before the counter wraps, never lose a wake-up |
| ThreadPoolTheorems.StrandsExactly | ThreadPool.cpp:115-133 | a step strands a waiter if and only if it ends the last of its tickets and that one was issued after the wait began |
| ThreadPoolTheorems.StrandedIsForgotten | ThreadPool.cpp:240-324 | no entry will notify a stranded waiter |
| ThreadPoolTheorems.ForgottenForever | ThreadPool.cpp:240-324 | nothing but a spurious wake-up wakes it again |
| ThreadPoolTheorems.UnissuedTicketStrands | ThreadPool.cpp:240-324 | a concrete run that strands a waiter |
| ThreadPoolStrands.IssueUpTo | ThreadPool.cpp:326-367 | from any reachable state, submitting leads to any ticket not yet issued while a call waits |
| ThreadPoolStrands.Drain | ThreadPool.cpp:115-161 | from any reachable state, all tasks but the last can end while a call waits |
| ThreadPoolStrands.UnissuedStrands | ThreadPool.cpp:240-324 | a call that names an unissued ticket beside a running one has a continuation that strands it |
| ThreadPoolStrands.StrandableExactly | ThreadPool.cpp:240-324 | below 2^32 submissions a call can be stranded if and only if one of its tickets runs and one is not issued yet |
| ThreadPoolObject.CThreadPool.Execute | ThreadPool.cpp:326-367 | makes the submit step, with a new ticket |
| ThreadPoolObject.CThreadPool.GetRunnable | ThreadPool.cpp:115-161 | makes the take, end or sleep step, after the release step when a task has ended |
| ThreadPoolObject.CThreadPool.WaitBegin | ThreadPool.cpp:240-298 | the registering loop and the first round make the begin-to-wait step; a call that returns answers whether none of its tickets was running |
| ThreadPoolObject.CThreadPool.WaitRound | ThreadPool.cpp:263-323 | one more round, with the deregistering loop at the end; the answer is true if and only if no ticket runs, and false only after a time-out |
| Sessions.StepKeeps | SessionMgr.cpp:96-242 | every step of every caller keeps the manager's invariant |
| Sessions.MutualExclusion | SessionMgr.cpp:140-209 | at most one caller holds a user; refcount is the number of callers that refer to it, waiting ones included |
| Sessions.NeverFreedInUse | SessionMgr.cpp:211-242 | a user somebody refers to is allocated, in the map and not about to be deleted |
| Sessions.RemovesExactly | SessionMgr.cpp:211-242 | a session can be removed exactly when it exists and nobody refers to its user |
| Sessions.NoLostWakeup | SessionMgr.cpp:167-209 | once nobody holds a user, each waiter is awake and its next round takes the user |
| Sessions.AssertsHold | SessionMgr.cpp:167-225 | the asserts of releaseUser, unlockUser and RemoveSession hold |
| Sessions.HolderUndisturbed | SessionMgr.cpp:140-242 | while a caller holds a user, no other step unlocks, removes or touches it |
| Sessions.UsedExactly | SessionMgr.cpp:158-160 | a user's time changes exactly in the steps in which a caller that asked for an update becomes its holder, to the time of that step |
| Sessions.TouchedWhenHeld | SessionMgr.cpp:140-165 | over every run, a getUser that waited however long sets the time when it gets the user if it was to update it, and leaves it alone otherwise |
| SessionMgr.CSessionMgr.GetUser | SessionMgr.cpp:140-165 | NULL exactly for an unknown session or foreign identity; otherwise makes the get step |
| SessionMgr.CSessionMgr.ReleaseUser | SessionMgr.cpp:167-181 | makes the release step, waking waiters when references remain |
| SessionMgr.CSessionMgr.UnlockUser | SessionMgr.cpp:183-195 | makes the unlock step |
| SessionMgr.CSessionMgr.LockUser | SessionMgr.cpp:197-209 | makes the lock step |
| SessionMgr.CSessionMgr.RemoveSession | SessionMgr.cpp:211-242 | takes out the session exactly when nobody refers to its user |
| ClientHandOff.OneOwner | SelectThread.cpp:255-280 | a client with its flag set is in exactly one place: being queued, queued once, or held by one worker; a deleted one is nowhere; at most 60 are listed |
| ClientHandOff.RemoveFinds | SelectThread.cpp:255-270 | RemoveClient always finds its client, so that it is deleted once |
| ClientHandOff.HeldUndisturbed | WorkerThread.cpp:62-169 | while a worker holds a client, no other step deletes it, hands it out or clears its flag |
| SelectThread.CSelectThread.ClaimClient | SelectThread.cpp:272-280 | claims the client exactly when its flag was clear |
| SelectThread.CSelectThread.QueueClient | SelectThread.cpp:272-280 | queues the claimed client |
| SelectThread.CSelectThread.TakeClient | WorkerThread.cpp:83-92 | takes the oldest client, which is live, flagged and queued no more |
| SelectThread.CSelectThread.ReturnClient | WorkerThread.cpp:154-162 | clears the flag and lets go of the client |
| SelectThread.CSelectThread.RemoveClient | SelectThread.cpp:255-270 | the search loop finds the client and deletes it |
| Md5.MoreBlocksExactly | md5.cpp:107-109 | the 32-bit loop test asks for a whole block, except within 63 of 2^32, where it is always true |
| Md5.OutOfRangeOverruns | md5.cpp:107-109 | outside the exact range the loop comes to an index with less than a block left and goes on |
| Md5.OverrunExample | md5.cpp:107-109 | one buffered byte and an input of 2^32 - 1 bytes is such a case |
| Md5.AddBitsCounts | md5.cpp:92-96 | the two words count bits modulo 2^64, carry included |
| Md5.MD5.Update | md5.cpp:78-119 | state, buffer and count are those of the message extended by the input; nothing after finalize |
| Md5.Encode | md5.cpp:446-456 | masks and shifts give little-endian words |
| Md5.MD5.Finalize | md5.cpp:189-223 | the digest is that of the padded message, once |
| Md5.DigestOfPieces | md5.cpp:78-223 | every way of cutting a message into calls gives the digest of the whole |
| Md5Spec.DigestWords | md5.cpp:216-217 | bytes 4i to 4i + 3 of the digest are word i, low-order byte first |
| Md5Spec.InitBytes | md5.cpp:315-327 | the initial words have the bytes that section 3.3 of RFC 1321 lists |
| Md5Spec.PaddedShape | md5.cpp:204-213 | a one bit, zeros up to 56 modulo 64 bytes, and the length in bits modulo 2^64 |
| Md5Spec.AbsorbContinue | md5.cpp:99-118 | the rest depends on the past only through the chaining value and the incomplete block |
| Throttling.WantedNonNegative | PipeThrottler.cpp:163-183 | the sleep time never underflows |
| Throttling.CloseExactly | PipeThrottler.cpp:192-196 | closing a window keeps the account if and only if it lasted a second and its length pays for its bytes |
| Throttling.PauseExactly | PipeThrottler.cpp:163-227 | what any sleep makes of the account, for waiting and other calls |
| Throttling.AddBytesKeeps | PipeThrottler.cpp:53-227 | every waiting call or zero-byte poll whose sleep fits 32 bits keeps the account |
| Throttling.CutSleepPaysExactly | PipeThrottler.cpp:183 | a sleep cut down to 32 bits pays for its window if and only if nothing was cut off |
| Throttling.CallKeepsExactly | PipeThrottler.cpp:53-227 | any call that wakes up in time keeps the account if and only if it waits and its sleep fits, or does not wait and leaves the window paid for |
| Throttling.NewWindowExactly | PipeThrottler.cpp:203-224 | at the beginning of a window this is a test of the bytes against the limit alone |
| Throttling.LongSleepIsLost | PipeThrottler.cpp:219 | there every longer sleep is cut to its remainder modulo 2^32 ms and the window closed with all its bytes |
| Throttling.LongRunBound | PipeThrottler.cpp:152-227 | over every proper run each closed window lasts 1000 ms and is paid for, and bytes times 1000 are at most (bps + 1) times elapsed time plus windows plus 1, plus one second's worth |
| Throttling.ModestRunIsProper | PipeThrottler.cpp:183 | calls in turn that wait or only ask, of at most 4 million seconds' worth, are a proper run |
| Throttling.ModestRunBound | PipeThrottler.cpp:152-227 | the bound for such calls, which their callers can tell |
| Throttling.UnwaitedCalls | PipeThrottler.cpp:203-224 | any number of calls of a second's worth that do not wait pass at one instant |
| Throttling.AnswerExactly | PipeThrottler.cpp:152-227 | the caller may go on if and only if there is no limit, or the window has just begun with less than a second's worth, or its rate is within the limit or its sleep is cut to nothing |
| Throttling.AnswerInBytes | PipeThrottler.cpp:152-227 | the same without divisions, for sleeps below 2^32 ms |
| Throttling.AnswerIgnoresWait | PipeThrottler.cpp:185-200 | the answer does not depend on whether the caller waits, nor on how late it wakes up |
| PipeThrottler.Throttler.AddBytes | PipeThrottler.cpp:53-227 | the method makes the step, and answers true exactly when bytes and age of the window allow it, for every call and every limit |
| PipeThrottler.Transfer | PipeThrottler.cpp:152-227 | a loop of calls stays within the bound |
| Query.Step | Query.cpp:388-466 | a refused step resets the statement, taking the lock at most once, or gives up under a time limit |
| Query.Read | Query.cpp:328-364 | a read that ends with done returns one full pass, any other a prefix; with a time limit it ends with done if and only if no step of the pass was stopped; the lock is balanced |
| Query.Execute | Query.cpp:154-268 | it succeeds when no step of the pass is stopped, whatever the limit, and without failures when there is no limit; with a limit and no locked table it succeeds only then; the lock is balanced |
| Base64.RoundTrip | stringtools.cpp:1060-1156 | decoding undoes encoding for every byte string |
| Base64.EncodedLength | stringtools.cpp:1060-1101 | the text is four characters for every three bytes begun |
| Base64.SymbolOrder | stringtools.cpp:1050-1053 | the alphabet is A to Z, a to z, 0 to 9, + and / |
| Base64.KnownEncodings | stringtools.cpp:1060-1101 | the encodings of foobar, fooba and foob that section 10 of RFC 4648 lists |
| Base64.DecodedStops | stringtools.cpp:1117-1156 | decoding ends at the first character outside the alphabet |
| Base64.Base64Encode | stringtools.cpp:1060-1101 | the loop computes the grouped encoding |
| Base64.Base64Decode | stringtools.cpp:1117-1156 | the loop computes the grouped decoding, up to the first foreign character |
| ParamStrings.DecodeEscape | stringtools.cpp:922-956 | decoding undoes escaping, whatever follows |
| ParamStrings.DecodeHex | stringtools.cpp:868-956 | a percent sign and the two hexadecimal digits of any byte, in either case, give that byte, and NUL is dropped |
| ParamStrings.DecodePlain | stringtools.cpp:922-956 | a plus sign gives a space, and a percent sign too close to the end is kept |
| ParamStrings.EscapeHasNoSeparator | stringtools.cpp:666-687 | escaped text has no separator |
| ParamStrings.ParseQuery | stringtools.cpp:764-807 | the parser returns every pair of a query, first values winning, without a last empty pair |
| ParamStrings.TableRoundTrip | stringtools.cpp:764-807 | for distinct keys the table comes back if and only if no key contains '=' and the last pair is not a pair of empty strings |
| ParamStrings.EscapeParamString | stringtools.cpp:666-687 | the loop computes the escaped text |
| ParamStrings.HtmlDecode | stringtools.cpp:922-956 | the loop computes the decoded text |
| ParamStrings.ParseParamStrHttp | stringtools.cpp:764-807 | the loop computes the parsed table |
| JsonRoundTrip.StringEndsAtQuote | clientctl/jsoncpp.cpp:624-637 | the scanner finds the closing quote of escaped text |
| JsonRoundTrip.DecodeEscaped | clientctl/jsoncpp.cpp:833-932 | decoding undoes escaping |
| JsonRoundTrip.DigitLoop | clientctl/jsoncpp.cpp:758-784 | what the digit loop makes of the digits of any number, with either sign: the number, a wrapped number, or none |
| JsonRoundTrip.LiteralValue | clientctl/jsoncpp.cpp:742-792 | the value returned for the literal of any integer |
| JsonRoundTrip.LiteralExact | clientctl/jsoncpp.cpp:742-792 | a literal is read back as its integer, with the reader's tag, if and only if it lies from -2^63 to 2^64 - 1 |
| JsonRoundTrip.NegativeLiteralWraps | clientctl/jsoncpp.cpp:785-786 | a negative literal that comes back positive |
| JsonRoundTrip.PutLast | clientctl/jsoncpp.cpp:669-670 | members written in order are put back in order |
| JsonRoundTrip.PutUpdates | clientctl/jsoncpp.cpp:669-670 | a member assigns to its name: the last value wins, others stay, and the order is that of the names |
| JsonRoundTrip.LeadingSpaces | clientctl/jsoncpp.cpp:510-521 | spaces, tabs and line ends before a document mean nothing |
| JsonUnicode.Utf8RoundTrip | clientctl/jsoncpp.cpp:101-133 | a decoder by lead byte gets every code point back from the bytes written for it, whatever follows |
| JsonUnicode.EscapeDecodes | clientctl/jsoncpp.cpp:859-930 | an escape with digits of either case, a surrogate pair above 0xFFFF, is decoded to the UTF-8 form of its code point, and decoding goes on behind it |
| JsonUnicode.EscapeExactly | clientctl/jsoncpp.cpp:879-906 | an escape alone comes back as its code point if and only if that is no surrogate of the first half |
| JsonUnicode.EscapedTextDecodes | clientctl/jsoncpp.cpp:833-932 | every sequence of other code points comes back from its escapes |
| JsonUnicode.LetterDecodes | clientctl/jsoncpp.cpp:849-858 | the one-letter escapes have the meanings of section 7 of RFC 8259 |
| JsonRoundTrip.ValueRoundTrip | clientctl/jsoncpp.cpp:355-403 | reading a written value returns it and leaves what follows |
| JsonRoundTrip.RoundTrip | clientctl/jsoncpp.cpp:3589-3655 | parsing a written document returns the value, up to the tag of integers |
| JsonPrograms.UintToString | clientctl/jsoncpp.cpp:160-170 | the backward loop writes the decimal digits within its buffer |
| JsonPrograms.ValueToQuotedString | clientctl/jsoncpp.cpp:3503-3564 | the fast path and the loop give the same quoted text |
| JsonPrograms.FastWriter.WriteValue | clientctl/jsoncpp.cpp:3599-3655 | appends exactly the value's text |
| JsonPrograms.Reader.ReadToken | clientctl/jsoncpp.cpp:434-505 | moves the cursor behind the next token |
| JsonPrograms.Reader.ReadValue | clientctl/jsoncpp.cpp:355-403 | computes the reference parser and moves the cursor behind the value |
| JsonPrograms.DecodeNumberToken | clientctl/jsoncpp.cpp:742-792 | the two loops compute the reference decoding, wrap-around included |
| JsonPrograms.DecodeStringToken | clientctl/jsoncpp.cpp:833-877 | the loop computes the reference decoding, which EscapeDecodes and DecodeEscaped describe |
| JsonPrograms.WriteAndRead | clientctl/jsoncpp.cpp:3589-3655 | the two programs one after the other return the value |

## Left out

- RoundTripExactly: only for inputs below 2^32 bytes, because from there on a wrong position can fall on that of another block; `RoundTrip` has no such limit.
- RoundTripNeedsPositions: the same limit, for the same reason.
- KeepsPlaces: beyond 100 KiB the condition is sufficient and not claimed to be necessary, since blocks that gave up their position fill later gaps in an order that depends on all their lengths.
- EditKeepsPlacesExactly: for one replaced block whose checksum no later block has; that content-defined cutting leaves the other blocks alone is a hypothesis.
- CallKeepsExactly: for limits of two bytes a second and more, and for calls that wake up in time; at one byte a second, or after oversleeping, the margin of the account can make up for a sleep that was cut.
- StrandableExactly: as long as fewer than 2^32 tasks are submitted; when tickets are issued a second time, `StrandsExactly` still says which step strands a call.
- Base64Decode: texts of 2^31 characters or more, whose length does not fit the int that the source keeps it in.
- Reader.ReadToken: a comment is a token of its own that is not read to its end.
- DecodeNumberToken: a number that the source passes to sscanf counts as none.
- Blockalign: the floating-point cut test is an arbitrary predicate, debug asserts are off, verbose statistics and the unused result of findAll are not modelled.
- RestoreStream: a block map entry outside the file counts as a failed read; 64-bit wrap-around of positions computed from a malformed file is not modelled.
- blockalign's memory-mapped files, its command line and blockalign_src/crc.cpp with its processor-specific code.
- ThreadPool.RunKeeps: runs end before Shutdown; failed thread creation only repeats the submit step, and time is not modelled: a wait may time out in any round.
- TimeoutSessions: the choice of expired sessions, which only calls RemoveSession.
- Sessions.RunKeeps: callers outside the protocol getUser, (unlockUser, lockUser)*, releaseUser are not modelled.
- ClientHandOff.RunKeeps: one select thread and one accept thread; liveness of the poll loop, sockets and the request queue of a client are not modelled.
- MD5's round function is an arbitrary compression function; files and streams as input are not modelled.
- Throttler.AddBytes: percent mode, probing and updaters are not modelled, and products of bytes and 1000 are not cut to 64 bits.
- Query.Read: the statement starts at its first row; column extraction, cursors, logging and fail bits are not modelled; a row is a value.
- The '-' variants of base64.
- ParseParamStrHttp with SQL escaping, EscapeSQLString and HTML entities.
- Reader.ReadValue: comments, real numbers and error messages are not modelled; a document with a comment or a real number counts as failing. Names with NUL and arrays of 2^31 items are outside the model.
- The styled JSON writers and Path.
- Sockets, TLS, DNS, services, plugins, databases' locking, cloud drive wrappers and SQLGen.
