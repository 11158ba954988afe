# A verified model of sysbench's algorithmic core

sysbench is a multi-threaded benchmark tool written in C. This project models
the parts of it that compute something hard and proves what they are for:

- the CRC-32 of the fileio test, four bytes at a time over generated tables on
  machines of either byte order, and the block stamp that validation mode
  builds on it (`Crc32`, `Crc32Code`, `BlockStamp`, `StampedRequests`);
- the unique random sequence, a quadratic-residue permutation of the 32-bit
  words behind an atomic ticket, down to the primality of its modulus
  (`NumberTheory`, `PrimeCertificate`, `UniqueRandom`), and the xoroshiro128+
  generator with its jump (`LinearMaps`, `Xoroshiro`);
- the concurrent statistics: the sharded latency histogram, the worker
  counters with their two report streams, and the event limit that rests on a
  compare-and-swap retry loop (`Histogram`, `Counters`, `AtomicOps`);
- the cyclic thread barrier with a callback (`Barrier`, `BarrierRounds`);
- the database layer: the connection state machine, the multi-row insert
  buffer, and the `?` rewriters of the PostgreSQL and MySQL drivers
  (`DbConnection`, `ConnectionRuns`, `BulkInsert`, `BulkRuns`, `Placeholders`);
- the sequential request generator of the fileio test and its checker
  (`SeqRequests`).

`dafny verify dfyconfig.toml` checks the whole project.

## How the model is built

The reference for the CRC is `Crc32.Crc`, the complemented register of section
8 of RFC 1952 fed one bit at a time. Everything said about the table-driven
code is said against it.

Words are natural numbers with their width written out: `Words.Xor` works bit
by bit, shifts are divisions and multiplications, and unsigned arithmetic
wraps by an explicit modulus. Objects that the C code updates in place are
classes (`LatencyHistogram`, `WorkerCounters`, `Connection`, `Generator`,
`UniqueGenerator`), buffers are arrays, and C loops are loops.

Concurrency appears in two forms. `Barrier`, `AtomicOps` and `UniqueRandom`
are step systems: a run is a sequence of states in which any thread may take
the next atomic step, and the theorems hold for every run. In `Histogram` and
`Counters` a reporting method calls `Interfere` between any two of its own
atomic steps; `Interfere` performs an arbitrary number of updates by other
threads.

A database driver is arbitrary: the connection holds any function from the
number of a driver operation to what that operation returns, so contracts can
say exactly how each call depends on the driver's answers. Where the C code
would write outside a buffer, read past an array or call a missing operation,
the model stops just before and says so in its result, and the contract gives
the exact condition under which that happens. Ghost fields keep
the history that the theorems talk about, such as the queries the driver has
run or the rows a multi-row insert has accepted.

## Where the code and its comments differ

The model follows the code.

- The comment on the barrier (`src/sb_barrier.c:19-29`) says that a failing
  callback makes the call negative for all callers. The code never clears the
  error, so the waiting threads of every later round get a negative result
  too, while the thread that completes a later round gets its own callback's
  verdict. `Barrier.CallsReturnResult` gives every result exactly,
  `Barrier.ResultTellsVerdict` says which of them still tell their own round's
  verdict, and `BarrierRounds.ErrorIsNeverCleared` is a run with one that does
  not. The comment also puts the callback before the wake-up; the code
  broadcasts first but still holds the mutex, so nobody returns before the
  callback.
- `sb_histogram_init` does not set the cumulative event count. The constructor
  of `LatencyHistogram` shows that the object is consistent if and only if
  that memory was zero, as it is for the one static histogram.
- The generator of sequential requests means to interleave a fixed number of
  writes with a round of fsyncs. Its 32-bit request counter keeps that pattern
  forever if and only if there are no fsyncs or their frequency divides 2^32
  (`SeqRequests.PatternForever`); `SeqRequests.WrapBreaksPattern` names the
  request at which every other frequency leaves it.
- The checker of sequential requests is meant to be silent. It is silent
  forever if and only if there are two files or more
  (`SeqRequests.SilentForever`).
- Validation mode stamps every write, and a write shorter than the stamp sends
  the code past its buffer. All writes of a run are long enough if and only if
  the request size is and the file size leaves no shorter remainder
  (`StampedRequests.EveryRequestStampable`; `StampedRequests.OneByteWrite` is
  an example).
- `db_bulk_insert_next` checks a row against the buffer before the flush and
  not after it. It writes past the buffer if and only if rows were in it, the
  flush succeeds and the row does not fit behind the bare header
  (`DbConnection.Connection.BulkNext`; `BulkRuns.TooLongRow` is an example).
- After a failed COMMIT `db_bulk_do_insert` keeps rows in the buffer whose
  INSERT already went through, so a later flush sends them again. Every
  accepted row is inserted or buffered exactly once if and only if this has
  not happened, and it happens if and only if the driver answers the INSERT
  well and the COMMIT that is due badly (`BulkInsert.Bulk.OnceExactly`,
  `DbConnection.Connection.BulkNext`, `DbConnection.Connection.BulkDone`, and
  `BulkRuns.LoadRows` for a whole insert; `BulkRuns.RepeatedRow` is an example).
- With an event limit, exactly min(calls, limit) calls go on up to 2^64 calls;
  after that the 64-bit counter starts over and grants events again
  (`AtomicOps.EventLimitExact` counts both).
- The rewriters of placeholders allocate their buffer inside the loop and end
  the string through it: an empty query has no result
  (`Placeholders.Rewrite`), nor has an emulated statement with more marks than
  bound parameters (`Placeholders.EmulateStatement`).

## Model

| member | source | states |
|---|---|---|
| Crc32.ShiftLinear | src/tests/fileio/crc32.c:78-103 | one step of the bitwise register is linear over GF(2), the fact on which table slicing rests |
| Crc32.EntryIsShift | src/tests/fileio/crc32.c:86-101 | the table entry for a byte followed by k zero bytes is the register shifted 8 (k + 1) times from that byte |
| Crc32.ByteStep | src/tests/fileio/crc32.c:188 | one table lookup, exclusive-or and shift by eight advance the bit-at-a-time register over one byte |
| Crc32.WordStep | src/tests/fileio/crc32.c:231-233 | the exclusive-or of four lookups advances the bit-at-a-time register over four bytes |
| Crc32.CrcConcat | src/tests/fileio/crc32.c:194-226 | the CRC of a concatenation is the CRC of the second part seeded with the CRC of the first, for every split |
| Crc32.InvertedResidue | src/tests/fileio/crc32.c:246-266 | four bytes after a message lead its CRC to all ones if and only if they hold the inverted CRC, because the register is inverted before and after |
| Crc32.FourOnes | src/tests/fileio/crc32.c:246-266 | the CRC of four bytes 0xff is 0xffffffff |
| Crc32.Residue | src/tests/fileio/crc32.c:246-266 | they lead it to the inverse of 32 shifts of all ones if and only if they hold the CRC itself |
| Crc32.FeedInjective | src/tests/fileio/crc32.c:78-103 | feeding the same bits to two different registers leaves them different |
| Crc32.NonzeroBurst | src/tests/fileio/crc32.c:78-103 | a zero register fed at most 32 bits, not all zero, is not zero |
| Crc32.BurstDetected | src/tests/fileio/crc32.c:194-226 | two bit strings that differ only within 32 consecutive bits have different checksums |
| Crc32Code.PatternIsPoly | src/tests/fileio/crc32.c:110-115 | the bits set for the listed terms make the pattern 0xedb88320 |
| Crc32Code.MakePolynomial | src/tests/fileio/crc32.c:109-115 | the loop over the terms computes that pattern |
| Crc32Code.MakeFirstEntry | src/tests/fileio/crc32.c:117-123 | the eight-step loop computes the table entry of a byte |
| Crc32Code.NextEntry | src/tests/fileio/crc32.c:131-134 | looking up an entry's low byte and shifting appends one zero byte |
| Crc32Code.MakeColumn | src/tests/fileio/crc32.c:128-136 | the loop body fills one byte's entries in all eight tables and no others |
| Crc32Code.MakeCrcTable | src/tests/fileio/crc32.c:104-137 | tables 0 to 3 hold the entries with 0 to 3 zero bytes, tables 4 to 7 their byte reversals |
| Crc32Code.RevRev | src/tests/fileio/crc32.c:58-59 | reversing the bytes of a word twice restores it |
| Crc32Code.RevAdd | src/tests/fileio/crc32.c:58-59 | byte reversal commutes with exclusive-or |
| Crc32Code.RevShift | src/tests/fileio/crc32.c:58-59 | the reversal of a word shifted right by eight is its reversal shifted left by eight, cut to 32 bits |
| Crc32Code.StepLittle | src/tests/fileio/crc32.c:247-250 | one byte of the little-endian loop keeps the register equal to the bitwise one |
| Crc32Code.StepLittle4 | src/tests/fileio/crc32.c:231-233 | one aligned little-endian word likewise |
| Crc32Code.StepLittle32 | src/tests/fileio/crc32.c:234 | eight words likewise |
| Crc32Code.GroupsLittle | src/tests/fileio/crc32.c:253-257 | the loop over groups of eight words keeps the register and the alignment |
| Crc32Code.WordsLittle | src/tests/fileio/crc32.c:258-261 | the loop over the remaining words keeps the register |
| Crc32Code.Crc32Little | src/tests/fileio/crc32.c:237-268 | for every seed, byte string and alignment the result is the bit-at-a-time CRC |
| Crc32Code.ByteStepReversed | src/tests/fileio/crc32.c:288 | the big-endian byte step is the byte reversal of the register's step |
| Crc32Code.WordStepReversed | src/tests/fileio/crc32.c:271-273 | so is the big-endian word step over the reversed tables |
| Crc32Code.StepBig | src/tests/fileio/crc32.c:287-290 | one byte of the big-endian loop keeps the register equal to the reversed bitwise one |
| Crc32Code.StepBig4 | src/tests/fileio/crc32.c:271-273 | one aligned big-endian word, read at an address that runs one word behind, likewise |
| Crc32Code.StepBig32 | src/tests/fileio/crc32.c:274 | eight words likewise |
| Crc32Code.GroupsBig | src/tests/fileio/crc32.c:293-297 | the loop over groups of eight words keeps the reversed register and the alignment |
| Crc32Code.WordsBig | src/tests/fileio/crc32.c:298-303 | the loop over the remaining words likewise |
| Crc32Code.Crc32Big | src/tests/fileio/crc32.c:277-310 | for every seed, byte string and alignment the result is the same bit-at-a-time CRC, hence that of `crc32_little` |
| Crc32Code.Compute | src/tests/fileio/crc32.c:194-216 | `crc32` returns the bit-at-a-time CRC on machines of either byte order, and zero for a null buffer |
| BlockStamp.LoadStore | src/tests/fileio/sb_fileio.c:1799-1803 | a value stored in n bytes is read back, in either byte order |
| BlockStamp.StoreLoad | src/tests/fileio/sb_fileio.c:1817-1828 | storing the value that was loaded from some bytes restores them |
| BlockStamp.FillBuffer | src/tests/fileio/sb_fileio.c:1791-1804 | a block with room for the stamp becomes the random payload, its CRC and the offset, and the rest of the buffer is untouched; for a shorter one, and only then, the computed payload length leaves the buffer |
| BlockStamp.ValidateBuffer | src/tests/fileio/sb_fileio.c:1810-1837 | zero is returned exactly if checksum and offset agree; there is no result exactly for a block shorter than the stamp |
| BlockStamp.StampedFields | src/tests/fileio/sb_fileio.c:1791-1804 | the last twelve bytes of a filled block load as the CRC of the payload, in four bytes, and then the offset, in eight |
| BlockStamp.AcceptsExactlyStamped | src/tests/fileio/sb_fileio.c:1810-1837 | a block passes the two comparisons if and only if it is what filling its payload for that offset would write |
| BlockStamp.StampedAccepted | src/tests/fileio/sb_fileio.c:1791-1837 | a filled block is accepted at its own offset and at no other |
| BlockStamp.AlteredTrailerRejected | src/tests/fileio/sb_fileio.c:1810-1837 | any change of checksum or offset alone is detected |
| BlockStamp.BurstRejected | src/tests/fileio/sb_fileio.c:1810-1837 | any change of the payload within 32 consecutive bits is detected |
| BlockStamp.FourBytesRejected | src/tests/fileio/sb_fileio.c:1810-1837 | any change of the payload within four consecutive bytes is detected |
| NumberTheory.Fermat | src/sb_rand.c:313-322 | Fermat's little theorem, by the binomial expansion |
| NumberTheory.SumOfSquares | src/sb_rand.c:313-322 | a prime that is 3 modulo 4 divides a sum of two squares if and only if it divides both numbers |
| NumberTheory.Pocklington | src/sb_rand.c:313-322 | Pocklington's primality criterion |
| PrimeCertificate.Prime4294967291 | src/sb_rand.c:313-322 | the modulus of the permutation is prime |
| UniqueRandom.PermuteInjective | src/sb_rand.c:313-322 | modulo any prime that is 3 modulo 4 the permutation maps no two numbers to the same one |
| UniqueRandom.PermuteUnpermute | src/sb_rand.c:313-322 | an inverse that takes square roots by the exponent (p + 1) / 4 and picks the half by the sign is undone by the permutation |
| UniqueRandom.UnpermutePermute | src/sb_rand.c:313-322 | and undoes it |
| UniqueRandom.PermuteOneToOne | src/sb_rand.c:313-322 | `rand_unique_permute` is one-to-one on the 32-bit words |
| UniqueRandom.ValueOneToOne | src/sb_rand.c:335-341 | for a fixed offset different tickets yield different values, through addition with wrap-around and exclusive-or |
| UniqueRandom.TicketRecovered | src/sb_rand.c:335-341 | the ticket is recovered from its value by undoing the outer permutation, the exclusive-or, the offset and the inner permutation |
| UniqueRandom.ValueRecovered | src/sb_rand.c:335-341 | every word is the value of the ticket recovered from it |
| UniqueRandom.ValueOnto | src/sb_rand.c:335-341 | every 32-bit word is the value of exactly one ticket |
| UniqueRandom.SeedOneToOne | src/sb_rand.c:325-331 | different random words seed differently |
| UniqueRandom.SeedRecovered | src/sb_rand.c:325-331 | the random word is recovered from what seeding made of it |
| UniqueRandom.UniqueGenerator.constructor | src/sb_rand.c:325-331 | each of the two random words is recovered from the state that seeding leaves, by square roots modulo the prime |
| UniqueRandom.UniqueGenerator.Draw | src/sb_rand.c:335-341 | any number of values drawn in a row by one thread: each tells its ticket, and two of them are equal if and only if a multiple of 2^32 draws lies between them |
| UniqueRandom.RunConsistent | src/sb_rand.c:335-341 | in every interleaving the n-th ticket has the n-th index after the seed, and no two calls share a ticket |
| UniqueRandom.CallsDistinct | src/sb_rand.c:335-341 | in every interleaving of any number of threads each value returned tells its ticket, and two calls return the same value if and only if a multiple of 2^32 tickets lies between them |
| UniqueRandom.FirstCallsDistinct | src/sb_rand.c:335-341 | the first 2^32 calls return pairwise distinct values |
| Xoroshiro.RotlInverse | src/xoroshiro128plus.h:34-36 | rotating by k and then by 64 - k restores the word |
| Xoroshiro.RotlLinear | src/xoroshiro128plus.h:34-36 | rotation is linear over GF(2) |
| Xoroshiro.RotlBit | src/xoroshiro128plus.h:34-36 | rotating left by k takes bit i to bit i + k modulo 64 |
| Xoroshiro.StepInvertible | src/xoroshiro128plus.h:38-48 | the state map has an inverse, so no two states have the same successor |
| Xoroshiro.StepLinear | src/xoroshiro128plus.h:38-48 | the state map is linear over GF(2) |
| Xoroshiro.StepBits | src/xoroshiro128plus.h:38-48 | every bit of the next state as an exclusive-or of named bits of the old one |
| Xoroshiro.StepNonzero | src/xoroshiro128plus.h:38-48 | a nonzero state never becomes zero |
| Xoroshiro.Next | src/xoroshiro128plus.h:38-48 | the array is stepped by that map, and the sum of the old words modulo 2^64 is returned |
| Xoroshiro.Jump | src/xoroshiro128plus.h:55-72 | the nested loop leaves the sum of those of the first 128 states that the bits of the jump constant select |
| Xoroshiro.JumpLinearAndCommutes | src/xoroshiro128plus.h:50-72 | jumping is linear over GF(2), and jump after next equals next after jump |
| AtomicOps.NextInv | src/sb_ck_pr.h:192-222 | each load, successful or failed compare-and-swap and return keeps the cell equal to the replayed history and every call tied to its own entry in it |
| AtomicOps.Linearizable | src/sb_ck_pr.h:192-222 | in every interleaving the calls form a sequential history: each call is one entry of its own and returned the value just before it, and a call that began after another had returned comes after it |
| AtomicOps.RunBalanced | src/sb_ck_pr.h:192-222 | whatever is summed up, the calls that returned and the operations in progress make up the history |
| AtomicOps.TicketsAreConsecutive | src/sb_ck_pr.h:192-207 | when all calls increment, each returns the start value plus its place in the history modulo 2^64; two calls return the same value if and only if a multiple of 2^64 places lies between them |
| AtomicOps.EventLimitExact | src/sysbench.c:688-710 | with an event limit and no error or time limit exactly min(calls, limit) of the calls of all threads were told to go on by what they returned, and that many again in each further turn of the 64-bit counter |
| AtomicOps.EventLimitNeverExceeded | src/sysbench.c:688-710 | at no moment have more calls been told to go on |
| AtomicOps.NoEventLimit | src/sysbench.c:688-703 | without an event limit all calls go on up to the first error or the end of the time limit, and none after that |
| AtomicOps.DrainingLosesNothing | src/sb_ck_pr.h:192-222 | a cell that is only added to and drained by storing zero: what the draining calls returned plus what is left equals what was added, in every interleaving |
| Histogram.LatencyHistogram.constructor | src/sb_histogram.c:54-96 | all counts are zero, and the object is consistent if and only if the uninitialised event count was zero |
| Histogram.LatencyHistogram.Update | src/sb_histogram.c:99-113 | one counter of the clamped bucket grows by one; what reports have drained does not change |
| Histogram.LatencyHistogram.Interfere | src/sb_histogram.c:99-113 | any number of concurrent updates only raises counters and leaves what was drained |
| Histogram.LatencyHistogram.FetchAndClear | src/sb_histogram.c:142-152 | after any concurrent updates the counter's value moves from the slot to the drained amount |
| Histogram.LatencyHistogram.DrainFirstSlot | src/sb_histogram.c:140-144 | the temporary array is overwritten by what the first slot gave; the event count is its sum |
| Histogram.LatencyHistogram.DrainSlot | src/sb_histogram.c:148-156 | draining one slot into an array adds to each bucket what left its slot, at least what was there at the start, and to the event count the same total |
| Histogram.LatencyHistogram.DrainIntoTemp | src/sb_histogram.c:137-157 | the temporary array ends up with exactly what left the slots, and with everything recorded before the call |
| Histogram.LatencyHistogram.MergeIntoCumulative | src/sb_histogram.c:194-215 | no update is lost or counted twice, the event count equals the sum of the array, and all updates made before the call are in it |
| Histogram.LatencyHistogram.GetPctIntermediate | src/sb_histogram.c:116-187 | the percentile of what this call drained, as a share of its events; that batch joins the cumulative counts and conservation is kept |
| Histogram.LatencyHistogram.PctCumulative | src/sb_histogram.c:222-238 | the percentile of the cumulative counts |
| Histogram.LatencyHistogram.GetPctCumulative | src/sb_histogram.c:241-261 | conservation is kept and the percentile is that of counts including every earlier update |
| Histogram.LatencyHistogram.GetPctCheckpoint | src/sb_histogram.c:264-289 | the same, after which the counts are moved to the reported amounts and reset |
| Histogram.Scan | src/sb_histogram.c:164-172 | the scan stops at the first bucket whose running count reaches the rank, inside the array if the rank does not exceed the total |
| Histogram.RankInRange | src/sb_histogram.c:164-172 | for a percentage from 0 to 100 the rounded rank lies between zero and the number of events, and reaches both at the ends |
| Histogram.RankRounds | src/sb_histogram.c:164-227 | a hundred times the rank differs from events times percentage by at most fifty |
| Histogram.PercentileMonotone | src/sb_histogram.c:222-238 | the answer is unique and does not decrease with the percentage |
| Histogram.PercentileSplitsEvents | src/sb_histogram.c:222-238 | a bucket is the first up to which the events are the given percentage of all, up to half an event, if and only if the running count passes the rounded rank there |
| Counters.WorkerCounters.constructor | src/sb_counter.c:30-42 | all counters and both report streams start at zero |
| Counters.WorkerCounters.AddTo | src/sb_counter.h:79-97 | one worker's cell grows, modulo 2^64; no true count shrinks |
| Counters.WorkerCounters.MergeType | src/sb_counter.c:55-57 | one counter type: the sum read while workers go on lies between their totals at the start and at the end |
| Counters.WorkerCounters.Merge | src/sb_counter.c:53-58 | the same for all types at once |
| Counters.WorkerCounters.Checkpoint | src/sb_counter.c:60-68 | the checkpoint takes the merged values, which become the differences modulo 2^64 |
| Counters.WorkerCounters.AggIntermediate | src/sb_counter.c:75-81 | each reported value is the growth since the last intermediate report of a total between the workers' totals at start and end; both streams stay consistent |
| Counters.WorkerCounters.AggCumulative | src/sb_counter.c:88-94 | the same for the cumulative stream, leaving the intermediate one alone |
| Counters.StreamExtends | src/sb_counter.c:53-94 | after a report all reports of its kind add up to the last merged total |
| Counters.LastReportExact | src/sb_counter.c:53-94 | a report made while all workers are idle makes the sum of its stream's reports exactly what the workers counted |
| Barrier.NextInv | src/sb_barrier.c:58-96 | every step of every thread, spurious wakeups included, keeps the invariant |
| Barrier.NoneLeavesEarly | src/sb_barrier.c:58-96 | if any thread has returned from round k, every thread has entered it and its callback has run |
| Barrier.CallsReturnResult | src/sb_barrier.c:58-96 | what each call of each round returns: the serial result goes to the last thread to arrive and to nobody else, the others get zero until a callback has failed |
| Barrier.FirstFailureSeenByAll | src/sb_barrier.c:58-96 | up to the first failing round a thread gets a negative result if and only if that round's callback failed |
| Barrier.ResultTellsVerdict | src/sb_barrier.c:58-96 | a result is negative exactly as its own round's callback failed if and only if that callback failed, no earlier one did, or the thread is the one that ran it |
| Barrier.OneCallbackPerRound | src/sb_barrier.c:58-96 | the callback runs once per round, and no new round starts before it has |
| Barrier.CountPositive | src/sb_barrier.c:58-70 | the unsigned count is never decremented below zero |
| Barrier.NeverStuck | src/sb_barrier.c:58-96 | in every reachable state some thread can take a step without a spurious wakeup, although the round number wraps at 2^32 |
| BarrierRounds.StepsAndRank | src/sb_barrier.c:58-96 | as long as no round starts, the number of steps is the decrease of a rank plus two for each spurious wakeup, in every interleaving |
| BarrierRounds.RoundLength | src/sb_barrier.c:58-96 | from the start of one round to the start of the next there are exactly six steps per thread plus two for each spurious wakeup |
| BarrierRounds.RoundStartsSoon | src/sb_barrier.c:58-96 | without spurious wakeups no schedule takes more than six steps per thread before a round starts |
| BarrierRounds.ErrorIsNeverCleared | src/sb_barrier.c:75-95 | a run in which a waiting thread gets a negative result in a round whose own callback succeeded |
| DbConnection.Connection.constructor | src/db_driver.c:299-321 | a connection whose driver has connected is ready and has no result set |
| DbConnection.Connection.FreeResultsInt | src/db_driver.c:701-721 | the open result set is released once, with its row values, and the connection is ready |
| DbConnection.Connection.Execute | src/db_driver.c:469-505 | state, error, result and number of driver operations are exactly what the driver's answers imply: a result set is returned and open if and only if the connection was usable and the driver answered without an error and with rows to read; a dead connection stays dead without a driver call |
| DbConnection.Connection.StmtNextResult | src/db_driver.c:509-551 | the same for the next result of a statement, also for drivers that have none |
| DbConnection.Connection.Query | src/db_driver.c:600-635 | the same for a query, which counts as sent if and only if there was no error |
| DbConnection.Connection.NextResult | src/db_driver.c:657-696 | the same for the next result of a query, also for drivers that have none |
| DbConnection.Connection.MoreResults | src/db_driver.c:639-653 | true if and only if a result set is open and the driver can tell and says so; it is asked in no other case |
| DbConnection.Connection.FetchRow | src/db_driver.c:557-594 | the driver is asked if and only if a result set is open and not empty, with room for exactly one value per field; a driver that cannot fetch rows is called nevertheless, exactly then |
| DbConnection.Connection.FreeResults | src/db_driver.c:723-739 | releases in a result set with the driver's result, and fails in any other state without a driver call |
| DbConnection.Connection.Prepare | src/db_driver.c:405-429 | succeeds if and only if the connection is alive and the driver agrees; otherwise the error is fatal, or unchanged on a dead connection |
| DbConnection.Connection.Bind | src/db_driver.c:435-463 | the driver's result, or failure without a driver call on a dead connection |
| DbConnection.Connection.CloseStatement | src/db_driver.c:744-786 | the driver closes the statement if and only if the connection is usable, and then no result set is open |
| DbConnection.Connection.Close | src/db_driver.c:327-347 | every result set opened has been released, and the connection is dead |
| DbConnection.Connection.Reconnect | src/db_driver.c:351-389 | dead if and only if the driver's answer is fatal, otherwise ready; without driver support nothing happens |
| ConnectionRuns.DoRight | src/db_driver.c:327-1070 | every call, the multi-row ones included, keeps that one result set is open in state ResultSet and none otherwise, with row values only then and one per field, and leaves the driver alone on a dead connection |
| ConnectionRuns.RunRight | src/db_driver.c:327-1070 | so every sequence of calls and driver answers does, between any two of its moments |
| ConnectionRuns.RunReads | src/db_driver.c:469-696 | along every sequence of calls as many result sets are opened as statements run are answered without an error and with rows to read |
| ConnectionRuns.AllRunsAscend | src/db_driver.c:469-696 | these statements are run by driver operations of their own, in order |
| ConnectionRuns.RunCalls | src/db_driver.c:327-1070 | performing any sequence of calls leads through exactly the states that the effects of the calls give, one after the other; it stops before the end if and only if a call writes past the buffer or lacks its driver operation, and at the first such call; all along the facts above hold |
| DbConnection.Connection.LeaveResultSet | src/db_driver.c:475-484 | how most calls begin: an open result set is released, and the call goes on if and only if that succeeded on a live connection |
| DbConnection.Connection.BulkInit | src/db_driver.c:923-967 | a buffer holding the header is set up if and only if the connection is usable, the driver describes itself and the header fits |
| DbConnection.Connection.PutRow | src/db_driver.c:1010-1017 | the buffer's text is extended by a comma if needed, the row and a NUL, all inside the buffer |
| BulkInsert.PlacedExactly | src/db_driver.c:992-1008 | a row fits if and only if the INSERT of the buffered rows and it fits; otherwise, and only then, rows in the buffer are flushed |
| DbConnection.Connection.SendBatch | src/db_driver.c:1031-1033 | what the driver gets is the INSERT of the buffered rows, whether it reads the given length or up to the NUL |
| DbConnection.Connection.MakeRoom | src/db_driver.c:992-1008 | the size check fits the row, refuses it or flushes, and the end of the write is the one that follows |
| DbConnection.Connection.BulkNext | src/db_driver.c:971-1022 | exactly when a row is accepted, refused or written past the buffer, which statements are sent (none if the INSERT with the row fits), and whether every accepted row is still inserted or buffered exactly once, all as functions of the state before the call and the driver's answers |
| DbConnection.Connection.DoInsert | src/db_driver.c:1026-1053 | exactly which statements are sent: nothing for an empty buffer or a failed INSERT, else one INSERT of all buffered rows and a COMMIT if and only if it is due and succeeds; after success fewer rows than the limit are uncommitted |
| DbConnection.Connection.CommitIfDue | src/db_driver.c:1036-1047 | COMMIT is sent if and only if it is due and succeeds, and what is then uncommitted |
| BulkInsert.LoggedFlush | src/db_driver.c:1026-1053 | the statements that a flush sends are exactly the entries it adds to the insert's log |
| DbConnection.Connection.BulkDone | src/db_driver.c:1057-1070 | success, which is characterised by the driver's answers, means that a driver that needs commits has nothing uncommitted and the buffer is gone; all accepted rows are inserted exactly once if and only if no COMMIT that was due has failed after its INSERT |
| BulkInsert.Bulk.OnceExactly | src/db_driver.c:1026-1053 | the rows inserted and buffered are the accepted rows in order if and only if no flush has kept rows that it had inserted |
| BulkInsert.Bulk.AfterValid | src/db_driver.c:1026-1053 | every flush, however the driver answers, keeps that |
| BulkRuns.PassedHistory | src/db_driver.c:971-1053 | while rows go through, on any driver, the accepted rows are those passed while the connection was usable, in order, what is sent is what the log records, and no row is repeated |
| BulkRuns.LoadedHistory | src/db_driver.c:971-1070 | an insert repeats rows if and only if it ends in a flush of a buffer that is not empty whose INSERT the driver answers well and whose COMMIT is due and answered badly |
| BulkRuns.LoadedTidy | src/db_driver.c:992-1053 | however an insert ends, no INSERT that another one follows had room for the next row, and COMMITs before the last flush are exactly where they are due |
| BulkRuns.CooperativeInsert | src/db_driver.c:971-1053 | with a driver that never fails the rows are accepted up to the first that does not fit behind the header, and the code overruns its buffer there if and only if that is not the first row |
| BulkRuns.LoadRows | src/db_driver.c:923-1070 | a whole insert on any connection and driver: when it starts, which rows it accepts (those passed while the connection was usable, in order), at which row it stops and how, what it sent, and the final state; every INSERT that another one follows had no room for the next row, and before the last flush a COMMIT follows exactly the INSERTs that bring the uncommitted rows up to the limit; the rows sent and buffered are the accepted rows in order if and only if it did not stop in the COMMIT of a flush whose INSERT had gone through; success means all accepted rows sent and nothing uncommitted; with a driver that never fails it succeeds, overruns its buffer or refuses the row exactly as the first row that does not fit is absent, later or first |
| BulkRuns.RepeatedRow | src/db_driver.c:1036-1050 | a driver that answers the INSERT well and the COMMIT badly: after a second flush the driver has run the INSERT of the one accepted row twice and then a COMMIT |
| BulkRuns.TooLongRow | src/db_driver.c:992-1017 | a connection with one short row in its buffer and then a row longer than the buffer behind the header: the short one is sent and the code writes the long one past its buffer |
| Placeholders.SplitLosesNothing | src/drivers/pgsql/drv_pgsql.c:334-366 | cutting a query at its marks and joining the pieces with marks restores it |
| Placeholders.NoMarks | src/drivers/pgsql/drv_pgsql.c:334-366 | a query without marks is sent unchanged |
| Placeholders.ReplacedConcat | src/drivers/pgsql/drv_pgsql.c:334-366 | rewriting two parts with continued numbering is rewriting the whole |
| Placeholders.Snprintf | src/drivers/pgsql/drv_pgsql.c:356-361 | the full length is returned; if it fits, text and NUL are written |
| Placeholders.PutNext | src/drivers/pgsql/drv_pgsql.c:334-366 | the retry loop ends, with the character or its replacement appended and room left for a NUL |
| Placeholders.DigitsReadBack | src/drivers/pgsql/drv_pgsql.c:356-361 | the printed number reads back as itself, in digits only and without leading zeros |
| Placeholders.Rewrite | src/drivers/pgsql/drv_pgsql.c:661-690 | the buffer ends up with the query, its k-th mark replaced by the k-th text, and a NUL inside the buffer; there is no buffer exactly for an empty query |
| Placeholders.ConvertPlaceholders | src/drivers/pgsql/drv_pgsql.c:334-366 | the pieces between the marks are woven with `$1`, `$2` and so on, and the parameter count is the number of marks; there is no result exactly for an empty query |
| Placeholders.EmulateStatement | src/drivers/mysql/drv_mysql.c:927-959 | the pieces between the marks are woven with the printed parameters in order; there is no result exactly for an empty query or one with more marks than parameters |
| SeqRequests.Generator.constructor | src/tests/fileio/sb_fileio.c:1021-1035 | the generator starts at position zero of the first file, clean |
| SeqRequests.Generator.GetFsync | src/tests/fileio/sb_fileio.c:423-441 | the fsync branch returns the next file in turn and clears the dirty mark after the last |
| SeqRequests.Generator.GetData | src/tests/fileio/sb_fileio.c:443-467 | the read or write branch returns the request at the cursor and moves it on |
| SeqRequests.Generator.GetRequest | src/tests/fileio/sb_fileio.c:410-477 | one call returns and changes what the step function says, and warns as the checker does |
| SeqRequests.RequestsTile | src/tests/fileio/sb_fileio.c:448-467 | consecutive requests of the closed form join without gap or overlap, fill each file exactly and go on to the next, whether or not the request size divides the file size |
| SeqRequests.EveryByteCovered | src/tests/fileio/sb_fileio.c:448-467 | in every pass each byte of each file is covered by one request, whose number is given, and by no other of the pass |
| SeqRequests.RunTiles | src/tests/fileio/sb_fileio.c:410-477 | in every run, without bound, the k-th read or write is the k-th of the closed form, and every request passes the checks at execution |
| SeqRequests.RunFollowsPattern | src/tests/fileio/sb_fileio.c:423-446 | while the counter is reliable the e-th request is that of "f writes, then an fsync of each file in order", and files are clean only at the start and after a full round |
| SeqRequests.WrapBreaksPattern | src/tests/fileio/sb_fileio.c:423-443 | after 2^32 writes with a frequency that does not divide 2^32 the generator asks for an fsync where the pattern has a write |
| SeqRequests.PatternForever | src/tests/fileio/sb_fileio.c:423-446 | a run follows the pattern forever if and only if there are no fsyncs or their frequency divides 2^32 |
| SeqRequests.WarnsExactly | src/tests/fileio/sb_fileio.c:1693-1731 | between consecutive requests the checker warns if and only if the only file starts over |
| SeqRequests.CheckerWarnsExactly | src/tests/fileio/sb_fileio.c:1693-1731 | the same for every request of every run |
| SeqRequests.DataReached | src/tests/fileio/sb_fileio.c:423-467 | every round of fsyncs ends: for any number of files a run makes any number of reads or writes and then another |
| SeqRequests.SilentForever | src/tests/fileio/sb_fileio.c:1693-1731 | the checker stays silent forever if and only if there are two files or more |
| StampedRequests.EveryRequestStampable | src/tests/fileio/sb_fileio.c:598-650 | all reads and writes of a run, without bound, have room for the stamp if and only if the request size has and the file size leaves no remainder or one that has |
| StampedRequests.OneByteWrite | src/tests/fileio/sb_fileio.c:448-467 | one file of 16385 bytes in requests of 16384: the run reaches a write of one byte |
| StampedRequests.SameOrApart | src/tests/fileio/sb_fileio.c:448-467 | any two reads or writes of a sequential run are for the same bytes or for disjoint ones |
| StampedRequests.WrittenGood | src/tests/fileio/sb_fileio.c:598-614 | at any moment of a writing run every block that has been written, and perhaps rewritten, passes validation at its offset |
| StampedRequests.ReadBackAccepted | src/tests/fileio/sb_fileio.c:598-650 | once a writing run in validation mode has gone through all files, every block that any later reading run over them asks for is accepted, at every moment and whatever the random payloads |

## Left out

- The upper half of 64-bit `unsigned long` values in the CRC code: registers and tables are 32-bit words, and the seed is cut to 32 bits as both routines cut it.
- The literal tables in `src/tests/fileio/crc32tbl.h` (the proofs are about the tables that `make_crc_table` generates) and the byte-at-a-time path compiled without `BYFOUR`.
- Xoroshiro.JumpLinearAndCommutes: does not show that one jump equals 2^64 steps, as the comment in the source says, because that rests on the characteristic polynomial of one concrete 128 by 128 matrix.
- The logarithmic mapping between latencies and histogram buckets and all other use of libm: a bucket is an index, a rank is exact half-up rounding over the reals.
- Histogram.LatencyHistogram.Update: counts do not wrap at 2^64, because that many events cannot be recorded.
- Counters.WorkerCounters.AddTo: a worker's load and store of its own cell are one step, because no other thread writes that cell.
- DbConnection.Connection.StartBulk: allocation does not fail, here and in the other modules.
- What happens after a write outside a buffer, a read past an array or a call of a missing operation: the model stops there. The texts of printed parameters are any function of the parameter's number.
- The statistics that the database layer keeps per query, and the retry loops, SSL options and error lists of the MySQL and PostgreSQL drivers: each driver operation is a nondeterministic outcome.
- The rate mode of `sb_more_events` (`src/sysbench.c:712-744`) and its event queue, timers, and thread creation.
- Progress of a single thread through the barrier: `BarrierRounds.RoundStartsSoon` bounds all threads together, and no fairness of the scheduler is assumed.
- The random request generator of the fileio test, file creation, and asynchronous input and output.
- `read_config` and `write_config`, option tables, logging, signals, help text and the Lua interface: plumbing or text that would only add easy members.
