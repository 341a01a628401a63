# A verified model of the RPiPlay port for Windows

The repository receives AirPlay audio and video and vendors pthreads4w and parts of WebRTC. This project models
its algorithmic kernels in Dafny and proves what they are for.

- **Condition variable** (`CondVar`, `CondVarTheorems`, `CondVarCalls`, `CondVarCounts`, `CondVarTokens`,
  `CondVarObject`): pthreads4w's condition variable as a state machine over any number of threads, one atomic step at
  a time, in any interleaving, with time-outs and cancellation at any moment. The increment of nWaitersBlocked is a
  separate read and write, because only the gate protects it. Safety, no deadlock, no lost wake-up (each ends exactly
  one wait), no overtaking and no destruction under a waiter hold over all runs. Tokens balance exactly in runs
  without time-outs; with one, destroy can free the variable while a signaller still owes a post, and such a run is
  given. The counter updates of the object are the steps of that machine, and what a whole call does that no other
  thread disturbs is stated for every state it can start in.
- **Barrier** (`Barrier`, `BarrierTheorems`, `BarrierProgress`): arrival, release and departure with the lock handed
  from the last to arrive to the last to leave. The log of events of every run is a sequence of whole rounds, and when
  nothing can move exactly the full groups of callers have returned.
- **RTP reorder buffer** (`ReorderBuffer`, `ReorderTheorems`, `RaopBuffer`): the 32-slot ring with 16-bit sequence
  numbers refines an ideal buffer over unbounded numbers (the receiver side of section 5.1 of RFC 3550, with the
  serial order of section 3.2 of RFC 1982). Conservation and order are proved of the ideal buffer over whole runs, and
  exactly which packets it takes in, where the window starts after a jump, and when a hole is given up.
- **Mirroring pipeline** (`MirrorFraming`, `MirrorCrypto`, `MirrorNal`, `MirrorPipeline`): a resumable framer over a
  fragmented connection, chunked counter-mode decryption with a saved part of a block, and the in-place rewrite to
  the byte-stream format of Annex B of ITU-T H.264, and the three composed end to end. The keystream is an arbitrary
  function from positions to bytes.
- **NTP** (`NtpTime`, `NtpClock`): timestamps (section 6 of RFC 5905), offset and delay (section 8), and the
  minimum-delay choice among eight samples (the selection of section 10), with the error bound over whole runs.
- **Frame buffers** (`RefCounting`, `BufferPool`, `BufferSession`): reference counts, smart pointers and the pool,
  and whole runs of a program that uses them.
- **Intrusive lists** (`IntrusiveLists`, `RobustMutexes`): the global list of condition variables and the list of
  robust mutexes of each thread.
- **Memory layout** (`AlignedMalloc`, `I420Layout`): aligned allocation with its header word, and the three planes of
  a frame.
- **HTTP request collection** (`HttpRequest`): names, values, URL and body from callback pieces.

`Sums`, `Wrappers` and `Bytes` hold what several modules share.

Where the code has a limit the exact limit is proved: the mask form of alignment (`AlignFormsExactly`), the wrap of
the allocation size (`FitsExactly`) and of the pool's purge count (`WrappedPurge`), the strides of a frame
(`LayoutExactly`), the lengths of the parameter sets (`SizesExactly`), the 32-bit seconds of a timestamp
(`RoundTripExactly`), the half circle of sequence numbers (`DifferenceExactly`), and headers whose value is not
reported (`FragmentsExactly`, with the family of failing inputs in `EmptyValueMerges`). The conversion of timestamps
goes down at the epoch (`MonotoneExactly`, `EpochDrops`), the NAL rewrite is right exactly for payloads that spell
units (`RewriteNals`), and the counters of the condition variable stand for its waiters except between the two writes
of a fold (`CountsExactly`).

The code and its comments disagree in one place: the comment above `raop_ntp_timestamp_to_micro_seconds`
(lib/raop_ntp.cpp:499-501) speaks of little-endian timestamps; the conversion is of a 64-bit number, and that is what
is modelled.

## Model

| member | source | states |
|---|---|---|
| `CondVar.InitialInv` | lib/pthreads/pthread_cond_init.c:100-121 | the initial counters, gate and mutex meet the invariant, for any number of threads |
| `CondVar.StepInv` | lib/pthreads/pthread_cond_wait.c:292-342 | every step of every thread, in wait, time-out, cancellation, signal, broadcast and destroy, keeps the whole invariant: ownership of the mutex, the one gate token, the balance of the counters, wake-ups in flight |
| `CondVar.GateExclusion` | lib/pthreads/pthread_cond_wait.c:386-396 | the gate token has at most one holder, and none while the gate is open or wake-ups are pending |
| `CondVar.FoldSound` | lib/pthreads/pthread_cond_wait.c:302-327 | folding nWaitersGone into nWaitersBlocked at INT_MAX / 2 keeps the number of waiters that the counters stand for |
| `CondVar.DecisionSound` | lib/pthreads/pthread_cond_signal.c:94-136 | the decision and the update of a signaller move counts between the counters without losing or inventing a waiter |
| `CondVar.SoundOthers` | lib/pthreads/pthread_cond_wait.c:292-342 | what every other thread knows, its local copy of a counter included, survives a step |
| `CondVarTheorems.Safety` | lib/pthreads/pthread_cond_wait.c:292-342 | in every state of every run: blocked - gone + toUnblock counts exactly the waiters, except exactly between the two writes of a fold, where blocked + toUnblock does; toUnblock > 0 forces gone = 0, no counter is negative, gate and mutex are exclusive, and tokens, posts owed and wake-ups taken cover toUnblock |
| `CondVarTheorems.CountsExactly` | lib/pthreads/pthread_cond_wait.c:315-326 | the counters stand for the waiters exactly when the owner of the mutex is not between subtracting nWaitersGone and clearing it |
| `CondVarTheorems.NoDeadlock` | lib/pthreads/pthread_cond_signal.c:94-148 | while wake-ups are pending or any call is under way, some thread can take a step |
| `CondVarTheorems.QuietExactly` | lib/pthreads/pthread_cond_wait.c:298-342 | no step is possible exactly when nothing is left to unblock, the gate is open, the mutex is free and every thread is idle or blocked without a token |
| `CondVarTheorems.CallsDrain` | lib/pthreads/pthread_cond_wait.c:298-342 | under every schedule the calls under way end after a bounded number of steps, so every wake-up issued is collected |
| `CondVarTheorems.NoOpExactly` | lib/pthreads/pthread_cond_signal.c:94-140 | a signaller does nothing exactly when every waiter is already covered |
| `CondVarTheorems.SignalCovers` | lib/pthreads/pthread_cond_signal.c:100-110 | what a signaller issues is what it newly covers, and a broadcast covers every waiter |
| `CondVarTheorems.CoversUntilReleased` | lib/pthreads/pthread_cond_signal.c:126-142 | from its update until it has released the mutex a broadcast covers exactly the waiters, whatever the other threads do |
| `CondVarTheorems.GateKeepsOut` | lib/pthreads/pthread_cond_wait.c:386-396 | while wake-ups are pending no thread becomes a waiter |
| `CondVarTheorems.NoOvertaking` | lib/pthreads/pthread_cond_wait.c:335-342 | wake-ups go to threads that were waiting when they were issued; when the last is collected that many have left |
| `CondVarTheorems.BroadcastWakesAll` | lib/pthreads/pthread_cond_signal.c:126-130 | after a broadcast every run that comes to rest passes a moment at which all the waiters it covered have left |
| `CondVarTheorems.DestroyExactly` | lib/pthreads/pthread_cond_destroy.c:141-181 | with both locks held, destroy frees the variable exactly when no thread counts as waiting |
| `CondVarTheorems.FreedMeansNoWaiter` | lib/pthreads/pthread_cond_destroy.c:167-181 | in no run is the variable freed under a waiter |
| `CondVarTokens.SpareMoves` | lib/pthreads/pthread_cond_wait.c:298-304 | the exact balance of tokens and posts owed against wake-ups to be collected: only a retraction without a token while wake-ups are pending leaves one over, only one with a token while none are uses one up |
| `CondVarTokens.TokensExactly` | lib/pthreads/pthread_cond_signal.c:142-148 | in every run without time-outs tokens, posts owed and wake-ups taken are exactly nWaitersToUnblock; nobody wakes without a wake-up, and nothing is owed or left when the variable is freed |
| `CondVarTokens.FreedBeforePost` | lib/pthreads/pthread_cond_destroy.c:167-181 | with a time-out that fails: a run of three threads in which the variable is freed while a signaller still owes its post |
| `CondVarCounts.RunCounts` | lib/pthreads/pthread_cond_wait.c:298-304 | in every run the waiters are the waits begun and not ended, and nWaitersToUnblock is the wake-ups issued less the waits that ended while some were pending |
| `CondVarCounts.WakesEndWaits` | lib/pthreads/pthread_cond_signal.c:94-148 | in every run that comes to rest, time-outs included, every wake-up issued has ended exactly one wait, and every wait that goes on is on the queue |
| `CondVarCounts.PromptWakes` | lib/pthreads/pthread_cond_signal.c:94-148 | without time-outs, when things come to rest, as many waits have ended as wake-ups were issued, and all the others go on |
| `CondVarObject.Cond.constructor` | lib/pthreads/pthread_cond_init.c:100-121 | the new object is the initial state |
| `CondVarObject.Cond.RetractWaiter` | lib/pthreads/pthread_cond_wait.c:298-304 | the counter update of the cleanup handler is the step of the model |
| `CondVarObject.Cond.Decide` | lib/pthreads/pthread_cond_signal.c:94-140 | the decision under the mutex is the step of the model, and returns what it issues |
| `CondVarObject.Cond.MoveWaiters` | lib/pthreads/pthread_cond_signal.c:121-135 | the update behind the closed gate is the step of the model |
| `CondVarObject.Cond.DestroyIfUnused` | lib/pthreads/pthread_cond_destroy.c:167-181 | the busy check and the release are the step of the model |
| `CondVarCalls.TryExactly` | lib/pthreads/pthread_cond_destroy.c:146-158 | the try for the mutex reports busy exactly when another thread owns it, and otherwise takes it |
| `CondVarCalls.DestroyCall` | lib/pthreads/pthread_cond_destroy.c:126-181 | a whole call of destroy that nobody disturbs frees the variable exactly when no thread owns the mutex and nobody waits, and otherwise leaves everything as it was |
| `CondVarCalls.SignalCall` | lib/pthreads/pthread_cond_signal.c:81-148 | a whole call of signal or broadcast that nobody disturbs covers one or all of the waiters not covered yet, with a token for each, closes the gate if it was open, and changes nothing if there are none |
| `CondVarCalls.WaitEntered` | lib/pthreads/pthread_cond_wait.c:386-410 | entering a wait makes one more waiter and changes nothing else |
| `CondVarCalls.CancelledAtGate` | lib/pthreads/pthread_cond_wait.c:386-396 | a wait cancelled at the gate leaves no trace |
| `CondVarCalls.WaitLeft` | lib/pthreads/pthread_cond_wait.c:292-342 | leaving a wait, woken or timed out, that nobody disturbs: one waiter less; a pending wake-up is collected and the last one opens the gate; with none pending the departure is counted, and at INT_MAX / 2 settled |
| `Barrier.InitialInv` | lib/pthreads/pthread_barrier_init.c:59-62 | a new barrier of any height meets the invariant |
| `Barrier.StepInv` | lib/pthreads/pthread_barrier_wait.c:56-105 | every step keeps the invariant: the lock is handed on, tokens and posts owed match the waiters, and the log of events fits the rounds |
| `BarrierTheorems.Rounds` | lib/pthreads/pthread_barrier_wait.c:59-103 | in every run the events are whole rounds: height arrivals, then height departures, of which exactly the last has the serial result |
| `BarrierTheorems.RoundsAreClosed` | lib/pthreads/pthread_barrier_wait.c:59-103 | every thread that arrives in a round leaves in that round, and before it arrives again |
| `BarrierTheorems.Release` | lib/pthreads/pthread_barrier_wait.c:59-98 | tokens and posts owed are exactly the waiters still to be released; nobody is released before all have arrived, nobody arrives before all have left |
| `BarrierTheorems.ThreadMoves` | lib/pthreads/pthread_barrier_wait.c:56-98 | the exact condition under which a thread can take a step |
| `BarrierTheorems.RestsExactly` | lib/pthreads/pthread_barrier_wait.c:56-98 | no step is possible exactly when the lock is free, no token is left and fewer than height threads wait |
| `BarrierTheorems.CallsDrain` | lib/pthreads/pthread_barrier_wait.c:56-105 | under every schedule the calls under way end after a bounded number of steps |
| `BarrierProgress.GroupsGetThrough` | lib/pthreads/pthread_barrier_wait.c:59-103 | in every run, whatever the calls and the schedule: when nothing can move, of the calls of wait begun exactly the full groups of height have returned, and the rest wait |
| `BarrierProgress.CallersGetThrough` | lib/pthreads/pthread_barrier_wait.c:59-103 | for every height and every number of callers there is such a run, and it ends |
| `BarrierTheorems.DestroyExactly` | lib/pthreads/pthread_barrier_destroy.c:59-82 | destroy with the lock goes through exactly when no thread is inside |
| `BarrierTheorems.DestroyBusy` | lib/pthreads/pthread_barrier_destroy.c:54-57 | destroy reports busy exactly when the lock is not free, which covers every thread on its way out |
| `BarrierTheorems.BarrierObject.constructor` | lib/pthreads/pthread_barrier_init.c:59-62 | the new object is the initial state |
| `BarrierTheorems.BarrierObject.Arrive` | lib/pthreads/pthread_barrier_wait.c:59-75 | the decrement and the parking of the lock are the step of the model |
| `BarrierTheorems.BarrierObject.Depart` | lib/pthreads/pthread_barrier_wait.c:92-103 | the closing increment is the step of the model, and the serial result ends a round |
| `BarrierTheorems.BarrierObject.Destroy` | lib/pthreads/pthread_barrier_destroy.c:59-82 | busy exactly when some thread is inside |
| `RaopBuffer.DifferenceExactly` | lib/raop_buffer.cpp:130-134 | the 16-bit comparison is the true difference exactly for numbers less than half the circle apart |
| `RaopBuffer.SeqnumCmp` | lib/raop_buffer.cpp:130-134 | the comparison as the code makes it, on numbers that stand for unbounded ones |
| `RaopBuffer.ResolveExactly` | lib/raop_buffer.cpp:195-206 | a 16-bit number stands for exactly one number in [first - 32768, first + 32767] |
| `RaopBuffer.FlushImplements` | lib/raop_buffer.cpp:312-328 | a flush of the ring is a flush of the ideal buffer |
| `RaopBuffer.SlotIsRight` | lib/raop_buffer.cpp:213-218 | the slot of a number in the window holds that number or is free, so no packet overwrites another |
| `RaopBuffer.StoreImplements` | lib/raop_buffer.cpp:220-247 | storing in the ring is an arrival in the ideal buffer |
| `RaopBuffer.TakeImplements` | lib/raop_buffer.cpp:275-288 | advancing the ring is taking from the ideal buffer |
| `RaopBuffer.RaopBuffer.constructor` | lib/raop_buffer.cpp:94-102 | the new ring implements the empty ideal buffer |
| `RaopBuffer.RaopBuffer.Flush` | lib/raop_buffer.cpp:312-328 | implements the flush of the ideal buffer, with and without a next number |
| `RaopBuffer.RaopBuffer.Enqueue` | lib/raop_buffer.cpp:182-248 | -1 exactly for wrong lengths, 1 exactly for packets the ideal buffer accepts; the result implements the arrival |
| `RaopBuffer.RaopBuffer.File` | lib/raop_buffer.cpp:203-247 | late, jump-forward, duplicate and store branches together are the arrival in the ideal buffer |
| `RaopBuffer.RaopBuffer.Store` | lib/raop_buffer.cpp:213-247 | the duplicate check and the store |
| `RaopBuffer.RaopBuffer.Dequeue` | lib/raop_buffer.cpp:250-289 | implements taking from the ideal buffer, and returns the packet taken |
| `RaopBuffer.RaopBuffer.Drain` | lib/raop_rtp.cpp:520-531 | the drain loop ends within 32 deliveries, delivers the packets in front in order, and stops exactly at the first one missing |
| `RaopBuffer.RaopBuffer.FirstFilled` | lib/raop_buffer.cpp:298-303 | the search stops at the first packet present |
| `RaopBuffer.RaopBuffer.HandleResends` | lib/raop_buffer.cpp:291-310 | for a buffer in use the request names exactly the maximal missing run at the front, of length 1 to 31, and is made exactly when the front is missing |
| `RaopBuffer.Session` | lib/raop_rtp.cpp:508-536 | whatever the run of datagrams, malformed ones included, dequeues, flushes and resend requests, the ring delivers what the ideal buffer delivers |
| `ReorderBuffer.KeepsValid` | lib/raop_buffer.cpp:203-247 | the window invariant: at most 32 wide, and its last packet is present |
| `ReorderBuffer.RunsConserveAndOrder` | lib/raop_buffer.cpp:203-288 | over every run each accepted packet is delivered once, still held or discarded by a flush, and between external flushes the delivered numbers strictly increase |
| `ReorderTheorems.AcceptsExactly` | lib/raop_buffer.cpp:203-218 | a packet is ignored for two reasons only: it is too late, or it is there already |
| `ReorderTheorems.ArriveInside` | lib/raop_buffer.cpp:220-247 | inside the window of 32 an arrival adds the packet and leaves the front where it is |
| `ReorderTheorems.ArriveBeyond` | lib/raop_buffer.cpp:208-210 | a packet 32 or more places behind the front becomes the front, with nothing else held, and is the next packet taken, whether or not holes are waited for |
| `ReorderTheorems.ArriveFirst` | lib/raop_buffer.cpp:239-243 | the first packet into a buffer not in use is the next packet taken, whatever its number |
| `ReorderTheorems.TakeExactly` | lib/raop_buffer.cpp:254-278 | the window moves by one exactly when the buffer is in use, something is in the window, and the front is there, holes are not waited for, or the last packet is 31 places behind the front; what is kept is what lies behind the new front |
| `ReorderTheorems.TakenExactly` | lib/raop_buffer.cpp:275-288 | what is taken is the packet in front, and nothing if it is missing |
| `ReorderTheorems.FlushExactly` | lib/raop_buffer.cpp:312-328 | after a flush nothing is held; a buffer in use takes in exactly the packets from the next number on and waits for that number, and without a next number any packet is the next one out; the numbers of the last window then stay |
| `ReorderTheorems.JumpIsNext` | lib/raop_buffer.cpp:203-288 | in every run a packet beyond the window is the next one delivered, whatever arrives within its window before the next dequeue |
| `ReorderTheorems.HolesEnd` | lib/raop_buffer.cpp:250-289 | in every run: when the window is full and its front is missing, one dequeue gives up the hole and the next ones deliver every packet up to the next hole, where dequeue waits again |
| `ReorderTheorems.HolesComeAbout` | lib/raop_buffer.cpp:250-289 | such a window comes about: after one delivery a packet is lost and the one 32 places on arrives |
| `MirrorFraming.ParseResumes` | lib/raop_rtp_mirror.cpp:248-291 | parsing a prefix and then going on from its unfinished rest is parsing the whole |
| `MirrorFraming.ParseInvertsWire` | lib/raop_rtp_mirror.cpp:250-282 | what was sent as frames is what is parsed, with nothing left over |
| `MirrorFraming.SizeInHeader` | lib/raop_rtp_mirror.cpp:270-278 | a header of 128 bytes that starts with the bytes b0 b1 b2 b3 has a payload of b0 + 256 b1 + 65536 b2 + 16777216 b3 bytes: with less nothing comes through, with more the rest is parsed on its own |
| `Bytes.LittleEndian32Exactly` | lib/byteutils.cpp:38-43 | the number is the low-byte-first value of the four bytes, and byte k alone is its digit k to the base 256 |
| `MirrorFraming.Framer.Fill` | lib/raop_rtp_mirror.cpp:251-255 | the receive loop gathers exactly the bytes received, in order |
| `MirrorFraming.Framer.FinishFrame` | lib/raop_rtp_mirror.cpp:277-291 | the payload part of a turn, resumable after every would-block |
| `MirrorFraming.Framer.StartFrame` | lib/raop_rtp_mirror.cpp:250-275 | the header part of a turn, resumable after every would-block |
| `MirrorFraming.Framer.OnReadable` | lib/raop_rtp_mirror.cpp:248-291 | one turn delivers at most one frame, and frame and leftover are those of the bytes so far |
| `MirrorFraming.Framer.Receive` | lib/raop_rtp_mirror.cpp:248-291 | for every way the stream is split and every would-block, the frames and the leftover are those of one parse of all the bytes |
| `MirrorCrypto.XorConcat` | lib/crypto.cpp:121-134 | consecutive pieces under consecutive keystream are the whole under the whole keystream |
| `MirrorCrypto.XorTwice` | lib/crypto.cpp:132-134 | decryption undoes encryption |
| `MirrorCrypto.AesCtr.Encrypt` | lib/crypto.cpp:121-124 | the bytes under the keystream from the position on; block_offset follows the position |
| `MirrorCrypto.AesCtr.Decrypt` | lib/crypto.cpp:132-134 | the same, but block_offset stays right exactly for whole blocks |
| `MirrorCrypto.AesCtr.StartFreshBlock` | lib/crypto.cpp:126-130 | the position moves to the next block boundary and no further |
| `MirrorCrypto.CarryExactly` | lib/mirror_buffer.cpp:112-134 | the keystream carried over is what is missing to the next multiple of 16: at most 15 bytes, which is attained |
| `MirrorCrypto.FifteenIsEnough` | lib/mirror_buffer.cpp:105-135 | chunks of 15 bytes or more are always long enough for what is carried over |
| `MirrorCrypto.MirrorBuffer.constructor` | lib/mirror_buffer.cpp:85-103 | the new buffer is at position 0 with nothing saved |
| `MirrorCrypto.MirrorBuffer.UseSaved` | lib/mirror_buffer.cpp:107-111 | the head of a chunk is under the keystream saved from the block before |
| `MirrorCrypto.MirrorBuffer.DecryptFront` | lib/mirror_buffer.cpp:107-120 | saved part and whole blocks come out under one stretch of keystream |
| `MirrorCrypto.MirrorBuffer.SaveRest` | lib/mirror_buffer.cpp:125-134 | the tail comes out right and the rest of its block of keystream is saved in og |
| `MirrorCrypto.MirrorBuffer.Decrypt` | lib/mirror_buffer.cpp:105-135 | a chunk comes out under the keystream from where the last one ended; the cipher stays on block boundaries |
| `MirrorCrypto.DecryptAll` | lib/mirror_buffer.cpp:105-135 | over any chunks the concatenated output is the concatenated input under the one keystream from position 0 |
| `MirrorNal.UnitsExactly` | lib/raop_rtp_mirror.cpp:323-334 | a payload encodes at most one list of units, and which one is what reading the lengths finds |
| `MirrorNal.LengthInFront` | lib/raop_rtp_mirror.cpp:324-328 | the first four bytes, the highest first, are the length of the first unit; a length of zero or beyond the end is no unit |
| `Bytes.BigEndian32Exactly` | lib/raop_rtp_mirror.cpp:324-325 | the number is the high-byte-first value of the four bytes, and byte k alone is its digit 3 - k to the base 256 |
| `MirrorNal.RewriteOne` | lib/raop_rtp_mirror.cpp:324-333 | one turn of the loop turns one length into a start code and touches nothing else |
| `MirrorNal.RewriteNals` | lib/raop_rtp_mirror.cpp:318-334 | for any payload: every length read is positive and complete exactly when the payload spells units, and then the units are left, unchanged, each behind a start code |
| `MirrorNal.SizesExactly` | lib/raop_rtp_mirror.cpp:383-388 | what is computed for every announced length: the first is right below 32768 and 65536 too small from there on, the second is right exactly below 256, and taken from bits 11 to 15 and the low byte for all |
| `MirrorNal.CarriesExactly` | lib/raop_rtp_mirror.cpp:383-406 | a payload carries two parameter sets exactly when it is six bytes, a two-byte length and the one set, a byte, a two-byte length and the other set, and a rest |
| `Bytes.BigEndian16Exactly` | lib/raop_rtp_mirror.cpp:383-388 | the number is the high-byte-first value of the two bytes |
| `MirrorNal.PpsSizeIsRight` | lib/raop_rtp_mirror.cpp:388-388 | the computed length of the picture parameter set never exceeds the announced one |
| `MirrorNal.AssembleSpsPps` | lib/raop_rtp_mirror.cpp:383-406 | both parameter sets come out behind start codes: the sequence set whole below 32768 bytes, the picture set as far as its computed length, which is the whole of it exactly below 256 bytes |
| `MirrorPipeline.ParsedIsPrefix` | lib/raop_rtp_mirror.cpp:248-291 | the frames parsed from a part of the stream are the first ones sent |
| `MirrorPipeline.PayloadTypeIs` | lib/raop_rtp_mirror.cpp:269-271 | the payload type is the low byte of the little-endian two-byte number at offset 4, which is the byte at offset 4 |
| `MirrorPipeline.ShowVideo` | lib/raop_rtp_mirror.cpp:313-334 | decryption and rewriting of a video frame give the byte stream of its units |
| `MirrorPipeline.ShowConfig` | lib/raop_rtp_mirror.cpp:383-406 | a configuration frame gives the byte stream of its two parameter sets exactly when the picture set is below 256 bytes |
| `MirrorPipeline.Turn` | lib/raop_rtp_mirror.cpp:248-435 | one turn of the receive thread hands on the next message sent, or none |
| `MirrorPipeline.Run` | lib/raop_rtp_mirror.cpp:248-435 | end to end, however the bytes arrive, the decoder gets the byte-stream form of the messages sent, in order, and all of them once all bytes are in |
| `NtpTime.GetPutInt` | lib/byteutils.cpp:62-64 | writing a 32-bit number in network order and reading it back truncates it to 32 bits |
| `NtpTime.NetworkOrder` | lib/byteutils.cpp:62-64 | both reading and writing put the most significant byte first |
| `NtpTime.EpochBytes` | lib/byteutils.cpp:100-109 | the epoch is written as 83 AA 7E 80 00 00 00 00, and half a second later as 83 AA 7E 80 80 00 00 00 |
| `NtpTime.PutNtpTimestamp` | lib/byteutils.cpp:100-109 | the eight bytes of the encoding are written, and no other |
| `NtpTime.FractionRoundTrip` | lib/byteutils.cpp:90-109 | the binary fraction gives the microseconds back exactly for multiples of 15625, and one less otherwise |
| `NtpTime.DecodeEncoded` | lib/byteutils.cpp:90-109 | what decoding gives for every 64-bit time, wrap-around of the seconds included |
| `NtpTime.RoundTripExactly` | lib/byteutils.cpp:90-109 | decoding gives the time back, less the loss of the fraction, exactly for seconds below 2085978496 |
| `NtpTime.DecodersAgree` | lib/raop_ntp.cpp:505-509 | the 64-bit converter and the byte decoder agree on the same bytes |
| `NtpTime.ConverterExactly` | lib/raop_ntp.cpp:505-509 | for every 64-bit timestamp the conversion is the multiplication by a million over 2^32, rounded down, and with the epoch taken off that less 2208988800 seconds in 64 bits |
| `NtpTime.MonotoneExactly` | lib/raop_ntp.cpp:505-509 | the converter is monotone as it stands; with the epoch taken off, two timestamps keep their order exactly when they are not on either side of the epoch |
| `NtpTime.EpochDrops` | lib/raop_ntp.cpp:505-509 | the failing step: the last timestamp before the epoch converts to the greatest of all results, the epoch to zero |
| `NtpTime.DecodedIsSmall` | lib/raop_ntp.cpp:366-370 | decoded times are small as signed numbers, so offset and delay do not overflow |
| `NtpClock.MeasureExactly` | lib/raop_ntp.cpp:378-379 | for every exchange and every true offset: the delay is the sum of the two path delays, and the offset is the true one plus half the difference of the path delays, truncated towards zero |
| `NtpClock.SampleBound` | lib/raop_ntp.cpp:378-379 | twice the offset of a sample is off by at most its delay, rounded up to an even number, despite the truncating division |
| `NtpClock.BoundAttained` | lib/raop_ntp.cpp:378-379 | for every delay there are exchanges that are off by exactly that much, on either side |
| `NtpClock.LeastIsReal` | lib/raop_ntp.cpp:236-241 | the least-delay sample of the ring is a real one among the last eight if one of these beats the initial delay |
| `NtpClock.RaopNtp.constructor` | lib/raop_ntp.cpp:236-245 | the ring starts with eight initial samples |
| `NtpClock.RaopNtp.Put` | lib/raop_ntp.cpp:376-379 | the ring holds the last eight samples |
| `NtpClock.SortByDelay` | lib/raop_ntp.cpp:383-384 | sorted by delay, and the same samples |
| `NtpClock.RaopNtp.Select` | lib/raop_ntp.cpp:383-388 | the offset comes from a least-delay sample and the delay is the greatest |
| `NtpClock.RaopNtp.OnReply` | lib/raop_ntp.cpp:376-388 | one exchange puts its sample into the ring and takes offset and delay from the ring |
| `NtpClock.Synchronise` | lib/raop_ntp.cpp:170-182 | over whole runs with a constant true offset, the clock comes from a minimum-delay sample among the last eight, its error is bounded by half that delay (rounded up to an even number), and the delay reported is the greatest among these |
| `RefCounting.Buffer.AddRef` | lib/h264_decoder/ref_counted_object.h:36-36 | the count goes up by one |
| `RefCounting.Buffer.Release` | lib/h264_decoder/ref_counted_object.h:38-44 | the count goes down by one, and the buffer is deleted exactly at zero |
| `RefCounting.World.HeldIsLive` | lib/h264_decoder/scoped_refptr.h:78-92 | a buffer that a handle holds is not deleted |
| `RefCounting.World.Make` | lib/h264_decoder/scoped_refptr.h:78-92 | construction and copy keep every count equal to the number of handles |
| `RefCounting.World.MakeNew` | lib/h264_decoder/scoped_refptr.h:78-81 | a new buffer has one handle |
| `RefCounting.World.Destroy` | lib/h264_decoder/scoped_refptr.h:100-103 | the end of a handle keeps the counts right and deletes a buffer exactly with its last handle |
| `RefCounting.World.Assign` | lib/h264_decoder/scoped_refptr.h:120-132 | assignment, to itself included, keeps the counts right |
| `RefCounting.World.MakeByMove` | lib/h264_decoder/scoped_refptr.h:95-98 | move construction empties the source and changes no count |
| `RefCounting.World.Swap` | lib/h264_decoder/scoped_refptr.h:150-156 | swapping changes no count |
| `RefCounting.World.AssignByMove` | lib/h264_decoder/scoped_refptr.h:139-148 | move assignment, to itself included, keeps the counts right |
| `BufferPool.SoleMeansNoClient` | lib/h264_decoder/i420_buffer_pool.cc:92-99 | a buffer with one reference that the pool holds is held by no client |
| `BufferPool.I420BufferPool.DropMismatched` | lib/h264_decoder/i420_buffer_pool.cc:78-89 | exactly the handles of the requested geometry stay, in order and with their counts; the erased ones are gone and clients keep theirs |
| `BufferPool.FreeStays` | lib/h264_decoder/i420_buffer_pool.cc:78-99 | letting go of the buffers of another geometry makes no difference to which of the others are free |
| `BufferPool.I420BufferPool.FindFree` | lib/h264_decoder/i420_buffer_pool.cc:90-99 | the first buffer that only the pool holds, or none if there is none |
| `BufferPool.I420BufferPool.Provide` | lib/h264_decoder/i420_buffer_pool.cc:90-107 | from a pool of one geometry: the first buffer no client holds, else a new one at the end, else none at the limit |
| `BufferPool.I420BufferPool.CreateBuffer` | lib/h264_decoder/i420_buffer_pool.cc:70-107 | the first free buffer of the geometry is reused if the pool has one; else the pool grows by a new one, or the result is null exactly when the limit is reached; the buffer returned was held by no client, and exactly the buffers of that geometry stay |
| `BufferPool.I420BufferPool.Release` | lib/h264_decoder/i420_buffer_pool.cc:28-30 | the pool lets go of all its handles and clients keep theirs |
| `BufferPool.I420BufferPool.CountUsed` | lib/h264_decoder/i420_buffer_pool.cc:36-45 | how many buffers of the pool clients share |
| `BufferPool.WrappedPurge` | lib/h264_decoder/i420_buffer_pool.cc:51-51 | the size_t subtraction is exact, or wraps to more than the size of the pool |
| `BufferPool.I420BufferPool.Resize` | lib/h264_decoder/i420_buffer_pool.cc:32-62 | fails exactly when more buffers are in use than allowed; otherwise the size is the limit, or the number in use when the subtraction wraps, every buffer in use stays, and the free buffers that go are the first ones |
| `BufferPool.UsedBound` | lib/h264_decoder/i420_buffer_pool.cc:46-61 | a list has at most as many buffers in use as its front part has, and one for each handle behind it; with Resize, what a full walk leaves meets the limit |
| `BufferSession.CountByHandle` | lib/h264_decoder/scoped_refptr.h:78-103 | counting handle by handle gives the count |
| `BufferSession.Program.Accounting` | lib/h264_decoder/i420_buffer_pool.cc:92-99 | each count is the number of handles in the pool plus those at the client, and a buffer is deleted exactly when there are none |
| `BufferSession.Program.Reseat` | lib/h264_decoder/scoped_refptr.h:120-156 | assignment, move and swap among the handles of a client that uses the pool: what every handle points to afterwards |
| `BufferSession.Program.Run` | lib/h264_decoder/i420_buffer_pool.cc:28-107 | over any run of pool and handle operations every operation does to the handles of the client what it should and leaves the others alone, no buffer is handed out while the client holds it, the accounting is exact and the pool keeps its limit |
| `IntrusiveLists.LinksEnd` | lib/pthreads/pthread_cond_init.c:147-160 | the links of the list lead through the members and end: there is no cycle |
| `IntrusiveLists.NodeList.Append` | lib/pthreads/pthread_cond_init.c:145-162 | the list is what it was with the new variable at the end |
| `IntrusiveLists.NodeList.Unlink` | lib/pthreads/pthread_cond_destroy.c:198-214 | the list is what it was without that variable, wherever it stood |
| `IntrusiveLists.NodeList.BroadcastAll` | lib/pthreads/pthread_timechange_handler_np.c:97-107 | the walk visits every variable once and in order, up to the first failure |
| `IntrusiveLists.Perform` | lib/pthreads/pthread_cond_destroy.c:198-214 | over any run of operations the list is exactly the live variables, in the order of creation |
| `RobustMutexes.Thread.PushFront` | lib/pthreads/pthread_mutex_consistent.c:126-139 | the mutex is put in front of the list of the thread |
| `RobustMutexes.Thread.Unlink` | lib/pthreads/pthread_mutex_consistent.c:152-163 | the mutex is taken out, wherever it stood |
| `RobustMutexes.Locks.Add` | lib/pthreads/pthread_mutex_consistent.c:116-140 | the thread owns the mutex and has it in front; no other list changes and no mutex is on two lists |
| `RobustMutexes.Locks.Remove` | lib/pthreads/pthread_mutex_consistent.c:142-164 | the list of the owner loses that mutex; no other list changes |
| `RobustMutexes.Locks.Exit` | lib/pthreads/pthread_win32_attach_detach_np.c:234-247 | a thread that exits gives up every mutex on its list, each marked as left inconsistent |
| `RobustMutexes.Locks.Enrol` | lib/pthreads/pthread_mutex_consistent.c:116-140 | a new thread holds nothing |
| `RobustMutexes.Locks.NewMutex` | lib/pthreads/pthread_mutex_consistent.c:116-140 | a new mutex is on no list |
| `RobustMutexes.Do` | lib/pthreads/pthread_mutex_consistent.c:116-164 | one operation changes the list of the thread that it is about, and no other |
| `RobustMutexes.Perform` | lib/pthreads/pthread_mutex_consistent.c:116-164 | over any legal run of locking, unlocking in any order and thread exits every list is exactly what its thread holds, the last locked in front |
| `AlignedMalloc.ValidExactly` | lib/h264_decoder/aligned_malloc.cc:33-38 | the bit trick accepts exactly the powers of two |
| `AlignedMalloc.BitAndBits` | lib/h264_decoder/aligned_malloc.cc:26-38 | a bit of the conjunction is set exactly when it is set in both numbers |
| `AlignedMalloc.MaskRounds` | lib/h264_decoder/aligned_malloc.cc:26-30 | masking out the low bits rounds down to a multiple |
| `AlignedMalloc.AlignFormsExactly` | lib/memalign.h:27-37 | the mask form and the division form agree on every address exactly for the powers of two |
| `AlignedMalloc.AlignedInside` | lib/h264_decoder/aligned_malloc.cc:65-75 | the aligned address is a multiple of the alignment, with header and user part inside the block |
| `AlignedMalloc.FitsExactly` | lib/h264_decoder/aligned_malloc.cc:63-75 | header and user part fit the block exactly when the requested size does not wrap |
| `AlignedMalloc.NullUnnoticed` | lib/h264_decoder/aligned_malloc.cc:63-70 | without a block from malloc the result is an address all the same |
| `AlignedMalloc.ValueOfDigits` | lib/h264_decoder/aligned_malloc.cc:77-78 | the bytes of the header word spell the address stored |
| `AlignedMalloc.MoreIsSound` | lib/h264_decoder/aligned_malloc.cc:72-78 | a further block with its header disturbs no other header |
| `AlignedMalloc.Memory.AlignedMalloc` | lib/h264_decoder/aligned_malloc.cc:51-81 | null for size zero or an invalid alignment; otherwise, unless the size wraps, an aligned address whose header leads to its block, and no byte but the header changes; if it wraps the block is too short, and a null block is not noticed |
| `AlignedMalloc.Memory.Write` | lib/h264_decoder/aligned_malloc.cc:74-80 | writing to the user part changes no header |
| `AlignedMalloc.Memory.AlignedFree` | lib/h264_decoder/aligned_malloc.cc:83-94 | what is freed is what malloc returned, and all other blocks stay |
| `I420Layout.PlanesInOrder` | lib/h264_decoder/i420_buffer.cc:150-158 | the planes lie one behind the other and end at the data size |
| `I420Layout.HalfUpIs` | lib/h264_decoder/i420_buffer.cc:32-34 | the chroma size is half the luma size, rounded up |
| `I420Layout.CompactSize` | lib/h264_decoder/i420_buffer.cc:32-34 | at compact strides and even sizes the block holds three bytes for every two pixels: 460800 for 640 by 480 |
| `I420Layout.LayoutExactly` | lib/h264_decoder/i420_buffer.cc:32-34 | every sample has a byte of its own inside the data size exactly when the strides are as wide as documented |
| `I420Layout.NoOverflow` | lib/h264_decoder/i420_buffer.cc:32-34 | if the size fits an int so does everything computed on the way |
| `HttpRequest.ApplyPairs` | lib/http_request.cpp:66-74 | slots come two at a time, every name slot is filled and the last piece went into the last pair |
| `HttpRequest.HttpRequest.OnUrl` | lib/http_request.cpp:42-54 | the URL grows by the piece |
| `HttpRequest.HttpRequest.OnHeaderField` | lib/http_request.cpp:56-89 | a name goes on, or the next pair starts |
| `HttpRequest.HttpRequest.OnHeaderValue` | lib/http_request.cpp:91-114 | a value starts or goes on |
| `HttpRequest.HttpRequest.OnBody` | lib/http_request.cpp:116-127 | the body grows by the bytes |
| `HttpRequest.RunCollects` | lib/http_request.cpp:56-114 | the table that any reported headers make, headers without value included |
| `HttpRequest.CollectedExactly` | lib/http_request.cpp:56-114 | that table is the list of whole pairs exactly when every value is reported and no piece holds a NUL |
| `HttpRequest.Separately` | lib/http_request.cpp:42-127 | URL, headers and body do not disturb each other, however their pieces alternate |
| `HttpRequest.FragmentsExactly` | lib/http_request.cpp:42-127 | for every split into pieces the table is the list of whole pairs in order, exactly under that condition; the body is whole, and the URL exactly when its pieces hold no NUL |
| `HttpRequest.EmptyValueMerges` | lib/http_request.cpp:61-64 | a header whose value is not reported makes one name of its own and the next |
| `HttpRequest.HttpRequest.GetHeader` | lib/http_request.cpp:232-245 | the value of the first header with exactly that name, or none |
| `HttpRequest.FoundIsLookup` | lib/http_request.cpp:232-245 | on the table of whole pairs the search finds what the headers say |
| `HttpRequest.Receive` | lib/http_request.cpp:42-127 | the collector over any callbacks is the run of the model |

## Left out

- The external mutex of a wait, and the result codes of wait (time-out, cancellation, errors): only the counters and
  locks of the condition variable are modelled. A failing unlock of the external mutex leads to the cleanup without a
  token, as a time-out does.
- Errors of semaphore and mutex operations, static initialisers, process sharing, and the maximum of a semaphore:
  tokens that time-outs leave in the queue may accumulate without bound in the model.
- CondVarTheorems.FreedMeansNoWaiter: a run ends with destroy. With time-outs a signaller may still owe a post then
  (`FreedBeforePost`); keeping signallers away is the duty of the caller. The list lock that destroy and init hold is
  not part of the interleaving.
- sem_post_multiple is modelled as posting its count in parts of any size.
- Atomic operations are sequentially consistent in the model; the lock of the barrier is an owner, not a queue.
- Barrier: use after destroy, which the code itself marks as unresolved, and failing initialisation.
- RaopBuffer.RaopBuffer.Dequeue: payloads are values, so ownership by malloc and free, failing allocation and the
  null pointer that an empty allocation may return are not modelled. Decryption of a payload is an arbitrary function.
- RaopBuffer.Session: arrivals to a buffer in use lie within half the circle of the window; beyond that the 16-bit
  comparison is not the true order (`DifferenceExactly`).
- RaopBuffer.RaopBuffer.HandleResends: for a buffer that an external flush emptied, the code still asks for whatever
  the last window was; the contract says so, and claims the missing run only for a buffer in use.
- MirrorFraming.Framer.Receive: payload sizes are below 2^31 and allocation succeeds; the end and the errors of a
  connection end the thread and are not modelled.
- MirrorCrypto.MirrorBuffer.Decrypt: needs chunks at least as long as the saved keystream, of which 15 bytes are
  always enough; the code relies on it.
- MirrorNal.RewriteNals: what the buffer holds when the payload spells no units. The code asserts on a length that
  is not positive, reads past the payload on a length that is cut off, and just ends on a unit that is cut off.
- MirrorNal.AssembleSpsPps: sequence parameter sets of 32768 bytes or more, whose length turns negative.
- Widths, heights, time stamps of frames, the decoder, dumps, and the bound of 102400 on parameter sets, which sizes
  below 32768 and 256 always meet.
- NtpClock.RaopNtp.OnReply: dispersion and the time of samples are not modelled; the sum of dispersions weighs by
  place in the ring, not by delay, so the weighting of section 10 of RFC 5905 is not claimed. qsort is any sort by
  delay.
- raop_rtp_sync_clock and raop_rtp_convert_rtp_time: floating point mixed with wrapping integers.
- RefCounting: counts are unbounded and operations sequential; memory order is not modelled.
- BufferPool.I420BufferPool.CreateBuffer: zero_initialize_ and the contents of buffers are not modelled, nor the mutex
  of the pool.
- AlignedMalloc.Memory.AlignedMalloc: when malloc fails or the size wraps the header is written all the same; what it
  overwrites is not followed further.
- I420Layout.LayoutExactly: in unbounded integers; overflow of int is undefined in the source (`NoOverflow` says when
  there is none).
- HttpRequest.HttpRequest.OnHeaderValue: the parser reports a name first; otherwise the code writes outside the table.
- The generated HTTP parser, the response buffer, the connection table, sockets, service discovery, property lists,
  pairing, playfair, renderers, audio decoding and the internals of AES and OpenSSL: input and output, foreign
  libraries, or small facts.
