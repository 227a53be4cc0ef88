# CubeChip verification

Models and proofs for the parts of CubeChip whose specification is short and whose code is not. Each module
follows one component; state that the code changes in place is a class whose methods are proved against
specification functions or relations, and what the component is for is proved about those over all inputs and all
runs.

- `MatrixOrbits`, `MatrixScroll`, `Map2D`: the flat two-dimensional buffer. Transposition in place without a second
  buffer or marks rests on first returns of an index permutation; rotation, fill and shift together are one scroll.
- `Sha1Spec` is SHA-1 as FIPS 180-4 writes it. `Sha1Rounds` and `Sha1Transform` are the scalar compression with its
  16-word circular schedule and rotated register names; `Sha1` is the streaming object with its three update phases
  and in-place padding; `Sha1Stream` hashes a buffer step by step; `Sha1TwoBlocks` works out two zero
  blocks and `Sha1KnownAnswer` the digest of "abc", over `Sha1Octets`, which says what number a loaded word is.
- `TripleBuffer` is the wait-free buffer as interleaved atomic steps of a writer and a reader, refining a mailbox.
- `SlidingRing`, `LogFlush`, `LogRace` and `LogPace`: the multi-producer ring, also as interleaved steps, the flush
  cursor over it, the flusher against running pushes, and the pace of pushes at which it is right.
- `Arithmetic` and `Sequences` hold what they share.
- `SimpleMru`, `Keypad` (with `KeyBits`), `SpriteRules` with `Classic8` and `ModernXO`, `Interrupts`,
  `FrameLimiter`, `AudioCount`: state machines and counters with a property over whole runs each.

Inputs the code takes from elsewhere are parameters: the clock, the keyboard's held keys, the instructions a frame
would fetch, whether the processor has SHA instructions, the spurious failures of a weak compare-exchange, and the
fixed-point step of the audio counter. Messages, memory and screens have any size. `dafny verify dfyconfig.toml`
checks the whole project.

## Where the code and its promises part

Each of these is proved; where the promise holds for some inputs only, so is the exact condition.

- The scalar SHA-1 transform adds the working variables to the digest once per call and not once per block. One-shot
  hashing without SHA instructions is therefore right on all messages up to a length if and only if that length is
  below 128 bytes (`Sha1TwoBlocks.FromIsRightUpTo`). Hashing in pieces is right on all pieces that hand at most k blocks
  to one transform if and only if k is below 2 (`Sha1TwoBlocks.PiecesAreRightUpTo`), and streaming with a given step,
  the default among them, is right on all buffers up to a length if and only if the step or the length is below 128
  bytes (`Sha1TwoBlocks.StreamIsRightUpTo`). 128 zero bytes are the input that goes wrong in each case.
- The stream's byte count per call is computed in 64 bits: exactly the positive multiples of 2^58 blocks
  give a step of zero, which never finishes (`Sha1Stream.StepIsZeroExactly`, `Sha1Stream.CompletesAsAsked`).
- A read head of 0 means both "empty" and "one push", so snapshots after exactly one push are empty and a log of a
  single entry is never written (`SlidingRing.SlidingRing.SnapshotCount`, `LogFlush.ShutdownWritesAll`).
- A flush whose pending entries no longer fit the ring writes newer entries in place of the lost ones and moves the
  cursor past them. With all entries different the file is exact if and only if every flush fits
  (`LogFlush.RunIsConsistentExactly`), and half a ring between polls is exactly the safe distance
  (`LogFlush.HalfARingIsTheGap`).
- A flush in the time before the log file is opened passes over what it finds and writes nothing, because a stream that
  was never opened does not count as failed; nothing is lost if and only if it finds nothing (`LogFlush.EarlyFlush`).
- The read head can pass an index that is still to be stored, and a flush then loses that entry
  (`LogRace.RaceLosesEntry`). If every push starts with fewer than k others under way and fewer than m entries beyond
  the cursor, all interleavings are exact if and only if k is 0, or m is at most 1, or k is 1 and m at most the ring's
  size (`LogPace.PaceIsExactly`): one push at a time is the safe number (`LogPace.OnePushAtATime`).
- A push delayed between its reservation and its store by a whole ring of pushes overwrites a newer entry. The ring's
  size is exactly the distance at which no run does (`SlidingRing.RingSizeIsTheDistance`), and a run keeps the newest
  values if and only if no store in it comes late (`SlidingRing.NewestExactlyWhenTimely`).
- The key repeat's due time is 32 bits wide; the schedule holds exactly while it fits (`Keypad.ScheduleExactly`).
- The second pad's held check reads four bits on from the first pad's, so that the two overlap in twelve keys
  (`Keypad.PadsOverlap`).
- A clipped XO sprite uses up only the bytes of the rows it draws, so later planes read from elsewhere than they would
  unclipped (`ModernXO.PlaneAddresses`).
- The limiter reports a missed period whenever a pass is 0.05 ms late, not only when a period was skipped
  (`FrameLimiter.LateReports`).

The comments in `include/utilities/Map2D.hpp` list rows before columns; the code takes columns first, as the model does.

## Model

| member | source | states |
|---|---|---|
| MatrixOrbits.SourceInverse | include/utilities/Map2D.hpp:353-354 | the index map stays in range and has an inverse of the same form: it is a permutation of [0, size) |
| MatrixOrbits.SourceEnds | include/utilities/Map2D.hpp:353 | the first and last index never move, so the loop may leave them out |
| MatrixOrbits.OrbitReturns | include/utilities/Map2D.hpp:354-355 | the orbit of an index at or above a cannot stay below a for more than a steps, which is why every inner search ends |
| MatrixOrbits.ReturnExists | include/utilities/Map2D.hpp:354-355 | every unplaced index has a first return to the unplaced region |
| MatrixOrbits.ReturnInjective | include/utilities/Map2D.hpp:354-355 | no two unplaced indexes return to the same place, and the return time is unique |
| MatrixOrbits.ReturnAfterPlacing | include/utilities/Map2D.hpp:353-358 | how all first returns change when a is placed: orbits that returned at a go on to where a returned, the others stay |
| Map2D.Map2D.SearchUp | include/utilities/Map2D.hpp:354-355 | the `do … while (b < a)` search ends, at the first return of a |
| Map2D.PlacedStep | include/utilities/Map2D.hpp:357 | one swap keeps the loop invariant: placed indexes are final, every other index has its element at its first return |
| Map2D.PlacedFinally | include/utilities/Map2D.hpp:351-362 | when only the last index is unplaced the buffer is the transpose |
| Map2D.Map2D.Transpose | include/utilities/Map2D.hpp:351-362 | for every size and contents, in place, element (r, c) ends at (c, r) and the dimensions are swapped |
| Map2D.TransposeTwice | include/utilities/Map2D.hpp:351-362 | transposing twice restores the matrix |
| Map2D.TransposeAt | include/utilities/Map2D.hpp:351-362 | element row * width + col of the matrix is element col * height + row of the transpose |
| MatrixScroll.PivotRotates | include/utilities/Map2D.hpp:264-293 | the pivot chosen from the reduced distance and the sign moves every element by the signed distance, modulo the size |
| Map2D.Map2D.RotateColumns | include/utilities/Map2D.hpp:265-279 | the per-row rotations shift every row by cols, modulo the width |
| Map2D.Map2D.Rotate | include/utilities/Map2D.hpp:264-293 | for any signed distances, new[r][c] is old[r - rows][c - cols] with both indexes taken around |
| MatrixScroll.RotationsCompose | include/utilities/Map2D.hpp:264-293 | rotating by (a, b) and then (c, d) is rotating by (a + c, b + d) |
| MatrixScroll.RotationUndone | include/utilities/Map2D.hpp:264-293 | the opposite rotation restores the matrix |
| MatrixScroll.RotationAt | include/utilities/Map2D.hpp:264-293 | element row * width + col comes from the row and column that many places back, each taken modulo its size |
| Map2D.Map2D.FillColumns | include/utilities/Map2D.hpp:224-240 | a column distance overwrites that many columns from the side its sign names; one that covers the width fills everything and ends the call |
| Map2D.Map2D.Fill | include/utilities/Map2D.hpp:223-253 | exactly the columns and rows named by the signed distances are overwritten, all others kept |
| MatrixScroll.RotateThenFillShifts | include/utilities/Map2D.hpp:303-305 | a fill in the direction of a rotation hits exactly what wrapped around |
| MatrixScroll.FillAt | include/utilities/Map2D.hpp:223-253 | positive distances overwrite the first columns and rows, negative ones the last |
| MatrixScroll.ShiftAt | include/utilities/Map2D.hpp:303-305 | element row * width + col comes from (row - rows) * width + col - cols where that is inside, and is the value elsewhere |
| Map2D.Map2D.Shift | include/utilities/Map2D.hpp:303-305 | old[r - rows][c - cols] where that lies inside the matrix, the fill value elsewhere, for distances of any size |
| Sha1Rounds.RewrittenChoice | include/utilities/SHA1.cpp:123 | the choice form of R0 and R1 is Ch of FIPS 180-4 section 4.1.1 |
| Sha1Rounds.RewrittenMajority | include/utilities/SHA1.cpp:153 | the majority form of R3 is Maj of section 4.1.1 |
| Sha1Rounds.MixIsWord | include/utilities/SHA1.cpp:106-112 | mixing slot t mod 16 of the circular block yields schedule word W(t) |
| Sha1Rounds.WindowMoves | include/utilities/SHA1.cpp:132 | storing it there overwrites the one word no later mix needs |
| Sha1Rounds.RoundByNames | include/utilities/SHA1.cpp:118-165 | updating z and w in place is one round of section 6.1.2 read through the rotated register names |
| Sha1Rounds.R0 | include/utilities/SHA1.cpp:118-125 | one operation of rounds 0 to 15 takes the rotated registers and the window from round t to t + 1 |
| Sha1Rounds.R1 | include/utilities/SHA1.cpp:127-135 | the same for rounds 16 to 19 |
| Sha1Rounds.R2 | include/utilities/SHA1.cpp:137-145 | the same for rounds 20 to 39 |
| Sha1Rounds.R3 | include/utilities/SHA1.cpp:147-155 | the same for rounds 40 to 59 |
| Sha1Rounds.R4 | include/utilities/SHA1.cpp:157-165 | the same for rounds 60 to 79 |
| Sha1Rounds.Rounds0 | include/utilities/SHA1.cpp:191-195 | the first 20 unrolled calls are rounds 0 to 19 and give every register its own name back |
| Sha1Rounds.Rounds20 | include/utilities/SHA1.cpp:196-200 | the next 20 calls are rounds 20 to 39 |
| Sha1Rounds.Rounds40 | include/utilities/SHA1.cpp:201-205 | the next 20 calls are rounds 40 to 59 |
| Sha1Rounds.Rounds60 | include/utilities/SHA1.cpp:206-210 | the last 20 calls are rounds 60 to 79 |
| Sha1Transform.Rounds | include/utilities/SHA1.cpp:177-210 | loading a block in big-endian words and making the 80 calls is the 80 rounds on the 80-word schedule of section 6.1.2 |
| Sha1Octets.WordIs | include/utilities/SHA1.cpp:180-190 | the word that four bytes load as, as a number: the first byte weighs 2^24, the last 1 |
| Sha1Octets.WordsAreBigEndian | include/utilities/SHA1.cpp:180-190 | every word of every block is the big-endian number of its four bytes |
| Sha1Transform.TransformScalar | include/utilities/SHA1.cpp:167-220 | the scalar transform as written: the registers run through all blocks and are added once at the end |
| Sha1Transform.TransformHardware | include/utilities/SHA1.cpp:398-402 | the per-block contract the hardware paths state: the hash value is folded after every block |
| Sha1Transform.ScalarMeetsContract | include/utilities/SHA1.cpp:167-220 | for no block or one block the scalar transform meets that contract |
| Sha1TwoBlocks.ScalarBreaksOnTwoBlocks | include/utilities/SHA1.cpp:215-219 | two zero blocks from the initial hash value: scalar transform and contract differ |
| Sha1TwoBlocks.ScalarMeetsContractUpTo | include/utilities/SHA1.cpp:167-220 | the scalar transform meets the contract on all inputs of up to n blocks if and only if n is at most 1 |
| Sha1.Sha1.Transform | include/utilities/SHA1.cpp:586-594 | hardware when there is support, scalar otherwise; exact for either when at most one block is passed |
| Sha1.Sha1.Reset | include/utilities/SHA1.cpp:608-617 | initial hash value, empty buffer, both counters zero |
| Sha1.Sha1.TopUp | include/utilities/SHA1.cpp:622-638 | a started block is filled up and, once whole, hashed |
| Sha1.Sha1.HashDirectly | include/utilities/SHA1.cpp:640-648 | whole blocks go to one transform without a copy |
| Sha1.Sha1.Stash | include/utilities/SHA1.cpp:650-654 | the rest is kept for later |
| Sha1.Sha1.Update | include/utilities/SHA1.cpp:619-655 | the object then holds the longer message: digest words for every input, and the exact hash of its whole blocks unless the scalar path got two or more at once |
| Sha1.FinalOneBlock | include/utilities/SHA1.cpp:658-678 | when fewer than 56 bytes are pending, the buffer as padded in place is the tail of the section 5.1.1 padding |
| Sha1.FinalTwoBlocks | include/utilities/SHA1.cpp:658-678 | when 56 or more are pending, the two blocks made in place are that tail |
| Sha1.DigestByTail | include/utilities/SHA1.cpp:657-677 | absorbing the whole blocks and then the padded tail is hashing the padded message |
| Sha1.Sha1.Final | include/utilities/SHA1.cpp:657-691 | the text of the digest after the padded tail, the text of the standard digest when every transform was exact, and a fresh object |
| Sha1.Sha1.Text | include/utilities/SHA1.cpp:680-687 | the nested loops write digit j of word i at 8i + j |
| Sha1.FedIsExact | include/utilities/SHA1.cpp:619-655 | an update keeps the digest words those of the standard when it hands at most one block to a transform without hardware support |
| Sha1.PiecesAreDigest | include/utilities/SHA1.cpp:619-691 | hashing in pieces is right with hardware support, and without it while no piece hands two or more blocks to one transform |
| Sha1.HashInPieces | include/utilities/SHA1.cpp:619-691 | however a message is split over updates: the text for every split on both paths, and that of the digest of the concatenation under that condition |
| Sha1TwoBlocks.PiecesAreRightUpTo | include/utilities/SHA1.cpp:619-691 | hashing is right on all pieces that hand at most `limit` blocks to one transform if and only if there is hardware support or the limit is below 2 |
| Sha1.FromIsDigest | include/utilities/SHA1.hpp:54-60 | one-shot hashing is right with hardware support, and without it below 128 bytes |
| Sha1.Sha1.From | include/utilities/SHA1.hpp:54-60 | one-shot hashing returns the text its spec function gives, on both paths, for every message |
| Sha1KnownAnswer.AbcKnownAnswer | include/utilities/SHA1.hpp:54-60 | for "abc" the standard digest text, and what one-shot hashing returns on both paths, is a9993e364706816aba3e25717850c26c9cd0d89d |
| Sha1TwoBlocks.FromIsWrongOnZeros | include/utilities/SHA1.cpp:215-219 | without hardware support, hashing 128 zero bytes returns the text of another digest |
| Sha1TwoBlocks.FromIsRightUpTo | include/utilities/SHA1.hpp:54-60 | one-shot hashing is right on all messages of up to `limit` bytes if and only if there is hardware support or the limit is below 128 |
| Sha1Spec.PadInjective | include/utilities/SHA1.cpp:658-678 | within the length bound of the standard, padding loses nothing |
| Sha1Spec.HexInjective | include/utilities/SHA1.cpp:680-687 | the text determines the digest |
| Sha1Spec.HexDigitIs | include/utilities/SHA1.cpp:680-687 | digits 0 to 9 are written as 0 to 9, 10 to 15 as a to f |
| Sha1Spec.BigEndianRoundTrip | include/utilities/SHA1.cpp:671-677 | the length bytes stand for the length |
| Sha1Stream.CompletesOnce | include/utilities/SHA1_Helpers.hpp:64-81 | progress is strict on every call up to the ceil(size / step)-th, the only one that completes; a step of zero bytes never moves |
| Sha1Stream.CompletesAsAsked | include/utilities/SHA1_Helpers.hpp:70-71 | the completing call is the one the caller would compute if and only if the byte count of a step fits 64 bits or what is left of it covers the buffer |
| Sha1Stream.StepIsZeroExactly | include/utilities/SHA1_Helpers.hpp:70 | the step is zero bytes exactly for the positive multiples of 2^58 blocks |
| Sha1Stream.StepIs | include/utilities/SHA1_Helpers.hpp:70 | 64 bytes a block below 2^58 blocks, none counting as one; 2^58 blocks more make no difference |
| Sha1Stream.Sha1Stream.Advance | include/utilities/SHA1_Helpers.hpp:64-81 | nothing until the last byte is read, then the text, then nothing again; digest words and text for every step on both paths |
| Sha1Stream.Sha1Stream.Reset | include/utilities/SHA1_Helpers.hpp:86-89 | progress and hash state start afresh, the size stays |
| Sha1Stream.Sha1Stream.Setup | include/utilities/SHA1_Helpers.hpp:97-100 | the same with a new size |
| Sha1Stream.StreamIsDigest | include/utilities/SHA1_Helpers.hpp:64-81 | streaming is right with hardware support, and without it for steps of one block or buffers below two |
| Sha1Stream.AdvanceRepeatedly | include/utilities/SHA1_Helpers.hpp:64-81 | over any number of calls exactly the ceil(size / step)-th returns a text, stated for both paths; it is that of the whole buffer under that condition |
| Sha1TwoBlocks.StreamIsRightUpTo | include/utilities/SHA1_Helpers.hpp:64-81 | streaming with a given step is right on all buffers of up to `limit` bytes if and only if there is hardware support, or the step or the limit is below 128 bytes |
| Sha1Stream.StreamIsFrom | include/utilities/SHA1_Helpers.hpp:64-81 | streaming returns what one-shot hashing returns: always with hardware support, and without it when the first call takes all whole blocks |
| Sha1TwoBlocks.OneBlockStreamIsFromUpTo | include/utilities/SHA1_Helpers.hpp:64-81 | with a step of one block, it does so on all buffers of up to `limit` bytes if and only if there is hardware support or the limit is below 128 |
| Sha1TwoBlocks.StreamOfZeros | include/utilities/SHA1_Helpers.hpp:64-81 | with any step of two blocks or more, the stream returns a wrong text for 128 zero bytes without hardware support |
| PointerTags.TagLaws | include/components/TripleBuffer.hpp:148-161 | the dirty tag goes on and comes off an aligned pointer without a trace |
| TripleBuffer.StepRefines | include/components/TripleBuffer.hpp:83-115 | every step of either thread keeps ownership partitioned and refines one mailbox step |
| TripleBuffer.StartRefines | include/components/TripleBuffer.hpp:126-128 | so does the initial state |
| TripleBuffer.RunRefines | include/components/TripleBuffer.hpp:235-289 | over every interleaving the buffer refines a one-cell mailbox; nothing published is taken back and the reader never goes back |
| TripleBuffer.ViewsAreMailboxReads | include/components/TripleBuffer.hpp:235-244 | each call shows the reader one published content, whole: strictly newer than the last when dirty, the same when clean |
| TripleBuffer.ExchangeDeliversNewest | include/components/TripleBuffer.hpp:237-239 | a dirty tag seen at the load is still there at the exchange, which delivers the newest content published by then |
| TripleBuffer.ViewIsStable | include/components/TripleBuffer.hpp:241-243 | while the reader views a slot no writer step changes it |
| TripleBuffer.CleanLoadIsCurrent | include/components/TripleBuffer.hpp:237-243 | the tag is clean if and only if nothing newer than what the reader holds has been published |
| TripleBuffer.TripleBuffer.Acquire | include/components/TripleBuffer.hpp:269-289 | the swap slot then has the tag and holds the last content written, or what the work slot held; the old swap slot becomes the work slot |
| TripleBuffer.TripleBuffer.Present | include/components/TripleBuffer.hpp:226-244 | dirty exactly when the tag was set; the content is then that of the swap slot and the pointers are exchanged, otherwise nothing moves |
| TripleBuffer.AcquireThenPresent | include/components/TripleBuffer.hpp:226-289 | what a call wrote last is what the next view shows, as new, and the view after that shows again, as known |
| TripleBuffer.ExchangePublishesLastWrite | include/components/TripleBuffer.hpp:277-281 | over every interleaving, each exchange publishes the value of the last write since its call began, if there is one |
| TripleBuffer.PublishedIsSent | include/components/TripleBuffer.hpp:269-289 | when every call writes, the published contents of a run are those values, in order and nothing else |
| TripleBuffer.ViewsWereWritten | include/components/TripleBuffer.hpp:235-244 | over every interleaving, the reader is only shown values that some write wrote or that were there at the start |
| SlidingRing.StepKeepsInv | include/components/SlidingRingBuffer.hpp:68-75 | every atomic step of every thread keeps the invariant and never lowers the read head |
| SlidingRing.RunKeepsInv | include/components/SlidingRingBuffer.hpp:68-75 | over every interleaving of reserve, store and compare-exchange turns |
| SlidingRing.QuiescentHead | include/components/SlidingRingBuffer.hpp:68-75 | once all pushes have returned the read head is the last index and every index is stored |
| SlidingRing.StepKeepsNewest | include/components/SlidingRingBuffer.hpp:70 | a step leaves the newest value in every slot if and only if it is not a store over a newer, different value |
| SlidingRing.NewestExactlyWhenTimely | include/components/SlidingRingBuffer.hpp:68-75 | a run holds the newest value in every slot at all times if and only if no store in it is such a late one |
| SlidingRing.RunKeepsNewest | include/components/SlidingRingBuffer.hpp:68-75 | a run in which every reservation finds the index d back stored, for some d up to the size, keeps the newest values |
| SlidingRing.RingSizeIsTheDistance | include/components/SlidingRingBuffer.hpp:68-75 | no run from an empty ring that keeps the distance d loses a newest value if and only if d is at most N |
| SlidingRing.LateStoreLoses | include/components/SlidingRingBuffer.hpp:70 | a lapped store does lose the newer value |
| SlidingRing.SomeRunLosesNewest | include/components/SlidingRingBuffer.hpp:68-75 | for every ring size there is a run, with one store delayed by a ring of pushes, that ends with a slot that lost its newest value |
| SlidingRing.QuiescentRunIsAtRest | include/components/SlidingRingBuffer.hpp:189-196 | every such run ends, once quiescent, with the last N pushes in their slots and both heads in place |
| SlidingRing.SlidingRing.Push | include/components/SlidingRingBuffer.hpp:189-196 | one push appends to the history, however often the weak compare-exchange fails |
| SlidingRing.SlidingRing.At | include/components/SlidingRingBuffer.hpp:77-81 | the push that many places back, around the ring; the default where nothing was pushed |
| SlidingRing.SnapshotSizeIs | include/components/SlidingRingBuffer.hpp:96-97 | the size of a snapshot is the least of the entries there, the ring and the count asked for |
| SlidingRing.SlidingRing.SnapshotCount | include/components/SlidingRingBuffer.hpp:92-107 | the last min(count or all, pushes, N) pushes, oldest first, unless there has been exactly one push |
| SlidingRing.SlidingRing.SnapshotRange | include/components/SlidingRingBuffer.hpp:135-149 | entry i is the newest push that shares the slot of begin + i; empty at head 0 or beyond it |
| SlidingRing.SettledSnapshot | include/components/SlidingRingBuffer.hpp:135-149 | a range snapshot while pushes are under way shows the entries of its indexes when all are stored and none overwritten since |
| SlidingRing.ExactSnapshot | include/components/SlidingRingBuffer.hpp:135-149 | with all contents different, such a snapshot is exact if and only if its indexes are all stored and none overwritten since |
| SlidingRing.ExactSnapshotOfRun | include/components/SlidingRingBuffer.hpp:135-149 | the same for the state after every run from an empty ring that keeps to its size |
| SlidingRing.SnapshotDuringPushes | include/components/SlidingRingBuffer.hpp:135-149 | everything from begin to the read head, when it is all stored and at most N indexes have been reserved since |
| SlidingRing.HeadPassesStore | include/components/SlidingRingBuffer.hpp:72-74 | the read head passes an index still to be stored, and a snapshot shows the old content there |
| SlidingRing.PendingInOrder | include/components/SlidingRingBuffer.hpp:139-147 | a range snapshot of everything pending is those entries in order if and only if head - begin < N |
| LogFlush.FlushKeepsConsistent | include/services/BasicLogger.cpp:182-206 | a flush keeps the file equal to the entries before the cursor, and a non-empty one leaves the cursor at head + 1 |
| LogFlush.Logger.CreateLog | include/services/BasicLogger.cpp:228-232 | the stream is open afterwards or has failed; nothing else changes |
| LogFlush.EarlyFlush | include/services/BasicLogger.cpp:183 | a stream that was never opened has not failed, so that a flush before the file is opened moves the cursor and writes nothing: the file stays consistent if and only if the flush finds nothing |
| LogFlush.Serve | include/services/BasicLogger.cpp:254-263 | a logger with an open file, fed batches and polled at given times, ends in the state of the run of those turns; the interval of a turn is over when its time is 10000 ms or more after the last flush before it |
| LogFlush.Logger.PushEntry | include/components/SlidingRingBuffer.hpp:189-196 | an entry logged is appended to the history |
| LogFlush.Logger.TestFlushSize | include/services/BasicLogger.cpp:172-176 | true exactly when half a ring is pending |
| LogFlush.FlushIsExact | include/services/BasicLogger.cpp:182-206 | a flush writes exactly the pending entries and moves to head + 1 if and only if they fit the ring |
| LogFlush.Logger.Flush | include/services/BasicLogger.cpp:182-206 | the batch found in the ring goes to the stream and the cursor past it, whatever is pending and whether the stream was ever opened; nothing once the stream has failed |
| LogFlush.Logger.Poll | include/services/BasicLogger.cpp:257-261 | 10000 ms after the last flush or with half a ring pending, an exact file of two or more entries that fit the ring ends up with all of them; before that nothing changes. In every case one step of the log |
| LogFlush.PollIsTimely | include/services/BasicLogger.cpp:178-180 | the 64-bit difference exceeds the interval exactly at ten seconds, as long as the clock neither runs backwards nor wraps |
| LogFlush.ClockSetBack | include/services/BasicLogger.cpp:178-180 | a clock set back makes the next poll flush, unless the step back is within ten seconds of 2^64 milliseconds |
| LogFlush.FittingRunIsConsistent | include/services/BasicLogger.cpp:254-263 | any run in which the pending entries fit the ring at every flush writes every entry before the cursor once and in order, pushes being finished before each poll |
| LogFlush.RunIsConsistentExactly | include/services/BasicLogger.cpp:254-263 | with all entries different, the file is exact if every flush fits and has a wrong entry if one does not |
| LogFlush.PolledRunIsSafe | include/services/BasicLogger.cpp:254-263 | polled at least once every N/2 pushes, all finished before the poll, no entry is lost, repeated or reordered |
| LogFlush.HalfARingIsTheGap | include/services/BasicLogger.cpp:172-176 | no run with at most `gap` pushes between polls loses, repeats or reorders an entry, if and only if gap is at most N/2 |
| LogFlush.ShutdownWritesAll | include/services/BasicLogger.cpp:266-272 | the flush at shutdown leaves everything pushed in the file if it and all flushes before it fit and there was not a single push; with all entries different, only then |
| LogFlush.PolledShutdown | include/services/BasicLogger.cpp:266-272 | polled often enough, it leaves everything in the file if and only if that is not a single entry |
| LogRace.FlushTakesSnapshot | include/services/BasicLogger.cpp:182-206 | a flush that reads slot by slot with no push in between takes one range snapshot |
| LogRace.CleanRunIsExact | include/services/BasicLogger.cpp:254-263 | over every interleaving of pushes and slot reads that keeps to the size of the ring, the file holds every entry before the cursor once and in order if each slot is read while its index is stored and not overwritten |
| LogRace.RunIsExactExactly | include/services/BasicLogger.cpp:254-263 | over the same interleavings, with all contents different: if and only if, read by read |
| LogRace.FreshRunIsExactExactly | include/services/BasicLogger.cpp:254-263 | the same for every run from a fresh ring |
| LogPace.OrderlyRun | include/services/BasicLogger.cpp:254-263 | over every interleaving of one push at a time with the flusher, with no more than a ring pending at a reservation, every entry is taken once and in order |
| LogPace.LoneRun | include/services/BasicLogger.cpp:254-263 | with at most one entry reserved beyond the cursor, or no push at all, nothing wrong is ever taken |
| LogPace.RaceIsPaced | include/components/SlidingRingBuffer.hpp:68-75 | two pushes under way and two entries pending are enough to lose one |
| LogPace.OverflowIsPaced | include/components/SlidingRingBuffer.hpp:139-147 | one push at a time and one entry more than the ring holds are enough to misplace one |
| LogPace.PaceIsExactly | include/services/BasicLogger.cpp:254-263 | with at most k pushes under way and at most m entries reserved beyond the cursor at each reservation, every interleaving is exact if and only if k is 0, or m at most 1, or k is 1 and m at most N |
| LogPace.OnePushAtATime | include/services/BasicLogger.cpp:254-263 | with a ring of entries allowed, every interleaving is exact if and only if at most one push is under way at a time |
| LogRace.StoredReadIsClean | include/components/SlidingRingBuffer.hpp:146 | a read is such a clean one when its index is stored and at most N indexes have been reserved since |
| LogRace.ShutdownAfterPushes | include/services/BasicLogger.cpp:266-272 | after the last push has finished the flush leaves everything in the file, unless the pending entries outgrow the ring or there was a single push |
| LogRace.RaceLosesEntry | include/services/BasicLogger.cpp:182-206 | two pushes of which the second finishes first, and a flush: the first entry never reaches the file |
| SimpleMru.SimpleMru.SetLimit | include/components/SimpleMRU.hpp:64-72 | the list is then a prefix of what it was, as long as the new limit allows, or all of it |
| SimpleMru.SimpleMru.Insert | include/components/SimpleMRU.hpp:78-88 | a value in the list moves to the front, a new one is added there in front of as many of the old ones as the limit leaves room for; the list stays a prefix of the unlimited one |
| SimpleMru.SimpleMru.Erase | include/components/SimpleMRU.hpp:94-98 | the value is gone, the order of the rest kept; true exactly when it was there |
| SimpleMru.WithoutKeepsPrefix | include/components/SimpleMRU.hpp:78-98 | removing a value from a list and from a longer one keeps the first a prefix of the second |
| SimpleMru.FirstTouched | include/components/SimpleMRU.hpp:78-88 | cutting to k before or after an insertion gives the same first k |
| SimpleMru.UnlimitedDistinct | include/components/SimpleMRU.hpp:78-98 | no run of operations makes duplicates |
| SimpleMru.UnlimitedIsByLastOp | include/components/SimpleMRU.hpp:78-98 | after any insertions and erasures the unlimited list is the values whose last operation is an insertion, latest first |
| SimpleMru.UnlimitedIsByLastUse | include/components/SimpleMRU.hpp:78-88 | with insertions only, it is the distinct inserted values, latest use first |
| SimpleMru.InsertAll | include/components/SimpleMRU.hpp:78-88 | after any insertions the list with limit k is a prefix of the unlimited one, of length k when that is longer and k is not 0, and whole otherwise |
| KeyBits.LowestIsOne | include/systems/chip8/IFamily_CHIP8.cpp:103 | `x & ~(x - 1)` is one bit of x, and x itself when x has one |
| KeyBits.LowestHasKey | include/systems/chip8/IFamily_CHIP8.cpp:104 | the one bit of `x & ~(x - 1)` is the bit below which x has none |
| KeyBits.BitIs | include/systems/chip8/IFamily_CHIP8.cpp:106 | counting the trailing zeros of 1 << i gives i |
| Keypad.HexInput.Update | include/systems/chip8/IFamily_CHIP8.cpp:61-74 | the keys down are exactly those with a mapping whose key or alternative is held; a key stays hidden exactly when it was and its state is the same as in the frame before |
| Keypad.UpdateKeepsInv | include/systems/chip8/IFamily_CHIP8.cpp:73 | a frame keeps the repeating key at most one bit, part of the hidden keys, which are down |
| Keypad.AttemptKeepsInv | include/systems/chip8/IFamily_CHIP8.cpp:92-112 | so does a catch, which hides everything it takes |
| Keypad.TakenIsDown | include/systems/chip8/IFamily_CHIP8.cpp:98-99 | whatever is caught is down, and a catch takes something |
| Keypad.RunKeepsInv | include/systems/chip8/IFamily_CHIP8.cpp:61-112 | the invariant over every run of frames and catches |
| Keypad.HiddenUntilReleased | include/systems/chip8/IFamily_CHIP8.cpp:73 | a hidden key is not reported in any later state until a frame in which it was up |
| Keypad.CaughtUntilReleased | include/systems/chip8/IFamily_CHIP8.cpp:101 | in particular every key a catch takes |
| Keypad.ReportedExactly | include/systems/chip8/IFamily_CHIP8.cpp:61-116 | after every run from a reset a key is reported as held if and only if it is down and, since it was last up, there was no attempt to catch it in the frame in which it went down |
| Keypad.FramesShowAll | include/systems/chip8/IFamily_CHIP8.cpp:61-74 | frames without an attempt show exactly the keys down |
| Keypad.FrameByKey | include/systems/chip8/IFamily_CHIP8.cpp:73 | key by key: what a frame leaves hidden and repeating |
| Keypad.AttemptByKey | include/systems/chip8/IFamily_CHIP8.cpp:92-112 | key by key: what an attempt takes, hides, forgets and makes the repeating key, and how it sets the timer |
| Keypad.HexInput.CatchPress | include/systems/chip8/IFamily_CHIP8.cpp:92-112 | success exactly when a key is newly pressed; the register then holds the lowest key taken |
| Keypad.HexInput.Reset | include/systems/chip8/IFamily_CHIP8.hpp:79-84 | all masks and ticks zero, no register |
| Keypad.HexInput.IsKeyHeldP1 | include/systems/chip8/IFamily_CHIP8.cpp:114-116 | whether key (index mod 16) is down and not hidden |
| Keypad.HexInput.IsKeyHeldP2 | include/systems/chip8/IFamily_CHIP8.cpp:118-120 | the same for bit 4 + (index mod 16) |
| Keypad.PadsOverlap | include/systems/chip8/IFamily_CHIP8.cpp:114-120 | a key of the second pad is also one of the first exactly when it is one of its first twelve |
| Keypad.LoneKeySchedule | include/systems/chip8/IFamily_CHIP8.cpp:92-112 | a lone key held from frame t, with a catch every frame, fires exactly 0, 20, 25, 30, … frames later while due times fit 32 bits |
| Keypad.WrappedDueFires | include/systems/chip8/IFamily_CHIP8.cpp:93 | a due time past 32 bits wraps, and the very next frame fires off schedule |
| Keypad.ScheduleExactly | include/systems/chip8/IFamily_CHIP8.cpp:92-112 | the schedule holds through frame t + n if and only if the due time before it fits 32 bits |
| SpriteRules.HitsNext | include/_to_be_removed/InstructionSets/_Classic8.cpp:52-58 | bit b touches the pixel of its own column, which no earlier bit has touched |
| SpriteRules.NextColumn | include/_to_be_removed/InstructionSets/_Classic8.cpp:52 | stepping and masking the column goes to the next one around the edge |
| SpriteRules.SpecialHits | include/_to_be_removed/InstructionSets/_Classic8.cpp:42-49 | byte 0x00 hits nothing and byte 0x80 only its own column under the general rule |
| SpriteRules.HitsAtEdge | include/_to_be_removed/InstructionSets/_Classic8.cpp:57 | stopping at the last column when clipping loses no pixel |
| SpriteRules.RowOfSprite | include/_to_be_removed/InstructionSets/_Classic8.cpp:83-84 | the two bytes of a wide row cover its sixteen columns once each |
| SpriteRules.SingleRow | include/_to_be_removed/InstructionSets/_Classic8.cpp:77-79 | the special case of one row is the general rule |
| SpriteRules.HitsAreBits | include/_to_be_removed/InstructionSets/_Classic8.cpp:66-95 | a pixel is hit if and only if some set bit (r, c) of the sprite lands on it: r lines below the top and c columns from the left edge, around the edges when wrapping |
| SpriteRules.BitsOfByte | include/_to_be_removed/InstructionSets/_Classic8.cpp:54 | the bits of a byte weigh 128 down to 1 |
| SpriteRules.SpriteByteIs | include/_to_be_removed/InstructionSets/_Classic8.cpp:77-88 | row and half of a sprite name one byte of memory from its start on, or zero past the end |
| Classic8.Display.DrawByte | include/_to_be_removed/InstructionSets/_Classic8.cpp:37-63 | all three cases toggle exactly the pixels of one wrap-or-clip rule; VF becomes 1 exactly when a lit one was hit |
| Classic8.Display.DrawSprite | include/_to_be_removed/InstructionSets/_Classic8.cpp:66-95 | for every N and both edge modes the pixels toggled are those of the per-pixel rule; VF is 1 or 0 as a lit pixel was hit or not |
| Classic8.DrawTwice | include/_to_be_removed/InstructionSets/_Classic8.cpp:66-95 | drawing again at the same place restores the display, and the second VF says whether the first lit anything |
| ModernXO.PaintedTwice | include/_to_be_removed/InstructionSets/_ModernXO.cpp:74-78 | XOR undoes itself; SUB, ADD and CLR are idempotent |
| ModernXO.Brushes | include/_to_be_removed/InstructionSets/_ModernXO.cpp:74-78 | ADD lights, SUB puts out, XOR toggles, CLR leaves |
| ModernXO.PlanesOfMask | include/_to_be_removed/InstructionSets/_ModernXO.cpp:96-101 | the planes selected are the bits of the mask, and a plane reads behind those selected before it |
| ModernXO.Screen.DrawByte | include/_to_be_removed/InstructionSets/_ModernXO.cpp:59-82 | each pixel hit is painted once with the brush; VF becomes 1 exactly when one was lit |
| ModernXO.Screen.DrawPlane | include/_to_be_removed/InstructionSets/_ModernXO.cpp:103-108 | one plane follows the per-pixel rule and uses up the bytes of the rows it draws |
| ModernXO.PlaneAddresses | include/_to_be_removed/InstructionSets/_ModernXO.cpp:99-108 | plane p reads where whole sprites laid end to end would have it if and only if it is the first selected one or no row is clipped |
| ModernXO.Screen.DrawSprite | include/_to_be_removed/InstructionSets/_ModernXO.cpp:84-110 | every pixel of every plane: touched ones painted, unselected planes and all other pixels kept; VF for all brushes |
| ModernXO.DrawTwice | include/_to_be_removed/InstructionSets/_ModernXO.cpp:84-110 | under XOR the second drawing restores every pixel, under the other brushes it changes nothing |
| Interrupts.LoopBudget | include/_to_be_removed/GuestFunctions.cpp:43-46 | the loop leaves after the whole budget or the first interrupting instruction, with the budget negated exactly in the second case |
| Interrupts.Machine.InstructionLoop | include/_to_be_removed/GuestFunctions.cpp:43-434 | the loop, whose bound any instruction may turn negative, runs exactly that many instructions |
| Interrupts.Machine.StopSystem | include/_to_be_removed/GuestFunctions.cpp:41 | the stop flag is set or cleared, nothing else |
| Interrupts.Machine.SetInterrupt | include/_to_be_removed/GuestFunctions.cpp:461-464 | the interrupt is pending and the budget negative |
| Interrupts.Machine.HandleFrameWait | include/_to_be_removed/GuestFunctions.cpp:503-524 | FRAME resumes, SOUND ends and DELAY resumes when its timer is out, all else waits |
| Interrupts.Machine.HandleInputWait | include/_to_be_removed/GuestFunctions.cpp:526-544 | INPUT resumes on a key press with a short beep, the end states stop the machine |
| Interrupts.Machine.ProcessFrame | include/_to_be_removed/GuestFunctions.cpp:480-501 | one frame is one step of the machine and keeps the phase |
| Interrupts.RunKeepsPhase | include/_to_be_removed/GuestFunctions.cpp:480-544 | over every run the cycle budget is C, -C or 0, as the pending interrupt says |
| Interrupts.RunsOnlyWhenResumed | include/_to_be_removed/GuestFunctions.cpp:480-524 | a frame runs instructions if and only if the machine is not stopped and is clear, past a one-frame pause, or at the end of its delay |
| Interrupts.DelayWaits | include/_to_be_removed/GuestFunctions.cpp:517-522 | a DELAY wait with timer d lasts exactly max(1, d) frames |
| Interrupts.SoundWaits | include/_to_be_removed/GuestFunctions.cpp:510-515 | a SOUND wait with timer d ends the program after exactly max(1, d) frames and runs nothing |
| Interrupts.InputWaits | include/_to_be_removed/GuestFunctions.cpp:529-537 | an INPUT wait lasts until the first frame with a key press, and runs nothing in that frame either |
| Interrupts.RaiseIsPending | include/_to_be_removed/GuestFunctions.cpp:461-464 | what the first instruction of a frame raises is pending after the frame, with the budget negative; a key may answer at once, the end states stop the machine |
| Interrupts.DelayProgram | include/_to_be_removed/GuestFunctions.cpp:480-524 | an instruction that sets the delay timer to d and waits for it is followed by the next one exactly max(1, d) frames later |
| Interrupts.SoundProgram | include/_to_be_removed/GuestFunctions.cpp:480-524 | one that sets the sound timer to d and waits for it ends the program after exactly max(1, d) frames |
| Interrupts.FrameCounts | include/_to_be_removed/GuestFunctions.cpp:480-501 | frames count in 32 bits, instructions run in 64; a stopped machine counts neither; the sound light goes out with its timer |
| Interrupts.HaltedForGood | include/_to_be_removed/GuestFunctions.cpp:539-542 | in FINAL or ERROR no later frame changes anything |
| FrameLimiter.Period | include/components/FrameLimiter.cpp:25-27 | period times rate is 1000 milliseconds for rates from 0.5 to 10000, and 2000 or 0.1 milliseconds outside |
| FrameLimiter.Whole | include/components/FrameLimiter.cpp:80 | the number of whole periods in a stretch of time, by its bounds |
| FrameLimiter.FrameLimiter.SetLimiterProps | include/components/FrameLimiter.cpp:29-34 | rate and modes change, the running period does not |
| FrameLimiter.FrameLimiter.HasTargetPeriodElapsed | include/components/FrameLimiter.cpp:59-90 | true when forced, or when the time since the boundary origin - carried is a whole period; what is carried is that time less one period, or with skipping less whole periods, and lateness starts 0.05 ms past the period |
| FrameLimiter.ForcedPassesOnce | include/components/FrameLimiter.cpp:67-71 | a forced pass happens once and moves no boundary; the next check waits for a whole period |
| FrameLimiter.BoundaryIsSumOfPeriods | include/components/FrameLimiter.cpp:59-90 | through any checks, forced passes and changes of rate, the boundary is the start plus whole multiples, each at least one, of the periods in force, exactly one each without skipping |
| FrameLimiter.SkippingStaysOnTheGrid | include/components/FrameLimiter.cpp:78-81 | with skipping the boundary is always the last whole period since the start, and a check passes if and only if a new one has begun |
| FrameLimiter.CatchesUpWithoutSkipping | include/components/FrameLimiter.cpp:82-85 | without skipping a check passes if and only if fewer frames have passed than whole periods since the start |
| FrameLimiter.LateReports | include/components/FrameLimiter.cpp:79 | every skipped period is reported; report and skipping part exactly when the check is late by less than a period |
| AudioCount.AudioDevice.NextFrameSampleCount | include/components/AudioDevice.cpp:111-126 | the whole part, in 24-bit fixed point, of the accumulator and the step, times the channels; a new rate empties the accumulator, a rate below 0.1 changes nothing |
| AudioCount.RateChange | include/components/AudioDevice.cpp:112-118 | a call at a new rate owes the whole part of its own step and keeps the rest; one below 0.1 owes nothing |
| AudioCount.CallBalances | include/components/AudioDevice.cpp:119-123 | one call hands out its step but for what the accumulator keeps, and a 64-bit wrap loses 2^64 |
| AudioCount.FloorOrCeiling | include/components/AudioDevice.cpp:119-123 | a call without a wrap owes the floor or the ceiling of its own step |
| AudioCount.TotalIsWholePart | include/components/AudioDevice.cpp:111-126 | the sample frames of any run at one rate total the whole part of everything asked for, minus 2^40 per wrap; exactly the whole part if and only if nothing wrapped |
| AudioCount.NoWrapBelow | include/components/AudioDevice.cpp:120-121 | steps of at most 2^64 - 2^24 never wrap |
| AudioCount.WrapsAbove | include/components/AudioDevice.cpp:120-121 | and no larger step is safe for every accumulator |
| AudioCount.PlayFrames | include/components/AudioDevice.cpp:111-126 | the samples of a run are that whole part for every channel |

## Left out

- Sha1TwoBlocks.ScalarMeetsContractUpTo: is about all inputs of up to n blocks; that some input of exactly n blocks fails is shown for n = 2 only.
- The x86 and ARM SHA instructions: their meaning is not in the repository. `TransformHardware` takes the fold after each block from those paths and the rounds from the standard.
- Byte swapping of native words in SHA-1: loads and the length are modelled as big-endian directly.
- Weak memory ordering, locks and the debug guards of the two concurrent buffers: every atomic operation is one sequentially consistent step, and a slot's shared pointer is its value.
- Snapshots by count and `at` while pushes are under way, and `clear_buffer`: those two are stated for a ring at rest. Range snapshots are stated for any state, and the flush slot by slot between other threads' steps.
- The log's text formatting, file creation, old-file removal and the failure of a write to an open file.
- Presentation, acquisition and frame counts as atomics of limited width; `valid_period_count` is unbounded here.
- Reversal, flips, views and element access of the matrix: easy members.
- The smallest 64-bit distance of a rotation, fill or shift, whose absolute value the code takes and which has none.
- Sizes that are not powers of two on the CHIP-8 screens: masking a coordinate is modelled as a remainder, which is the same for the sizes those machines have. Pixels are flags.
- CHIP-8 opcodes, stack, audio tones, rendering and changing the cycle budget from the menu: an instruction is the list of its interrupts and timer writes.
- Floating point in the frame limiter and in the audio step: exact reals and a given integer.
- The limiter's live getters and its sleeping and spinning.
- Windows, menus, fonts, settings, file and thread utilities, waveforms, filters and colour arithmetic: no discrete property of this kind.
