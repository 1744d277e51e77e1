# What this project models

Six components of the repository, each with the property it exists for.

**The 9-bit LCD stream** (`LcmWords`, `LcmSerial`, `LcmFast`; demo/perfdemo/perfdemo.c). The display takes
9-bit words: a D/C bit and a byte. The serial encoder writes one word at a time at a running bit position; the
fast encoders pack eight words into nine bytes with shifts and masks, bytewise or as two byte-swapped 32-bit words.
The stream is specified bit by bit, from the most significant bit of byte 0; bytes and words are bit vectors. The
main result (`FastRefinesSerial`): after dropping no-operations (command 0x00) the display cannot tell the fast
encoder from the serial one, exactly when the number of 32-bit pixel words is even.

**The tagged audio stream** (`SpeechFrames`, `SpeechParser`, `SpeechArray`, `SpeechHandle`;
speech/src/speecharray.c). Twelve 32-bit words, tagged with channel numbers 1 to 12, make a frame. The tags differ,
so frames cannot overlap, and the greedy scan that slides one word on a bad tag and jumps a whole frame on a match
finds every frame. `SpeechArrayRead` hands out the demultiplexed stream through a buffer with left-overs: `Capture`
shows that any sequence of calls yields the stream without gap or repetition, also when the first call has to get in
step behind garbage.

**The thread pool** (`PoolModel`, `PoolTheorems`, `PoolProgress`, `ThreadPool`; demo/SpeechPersistentDemo/threadpool.c). A
transition system over the lock-protected regions, with any number of producers and workers and one admin thread that
acts on stale values. `shutdown` is read under the lock but written without it, so a region that goes on after its last
look at the flag is two steps with the lock held in between, and the store of the flag may fall there; a region that
waits or leaves does nothing more to the queue, and is one step. `pthread_create` may fail; the code does not look, and
counts the thread all the same. `PoolTheorems` proves what holds in every state of every run; `PoolProgress` what the
steps achieve when no other thread comes in between; `ThreadPool` has the regions as methods over the fields of
`struct threadpool_t`, each proved to be a step, with its effect on the fields. The initial state is the one
after the loop of `threadpool_create`: before that no task exists, and a worker that is already running can only go to
sleep, which it can also do later.

**The mapped PCM buffer** (`PcmPointers`, `PcmMmap`; speech/src/pcm.c). Application and hardware pointers wrap at a
boundary; both also get counters that never wrap. Before each look of the code at its pointer, the hardware gets on by
as many frames as an arbitrary function (`pace`) says and as it can: it is taken to show its counter modulo the
boundary, never to overrun the application in
capture, and never to overtake it in playback. Transfers split at the buffer end and across the boundary. In capture,
what is read is the stream without a gap. In playback, what is played is what was sent (`Intact`) as long as no transfer
meets a full buffer whose pointers lie on different laps. If one does, frames that wait to be played are overwritten:
`Kept` in the contract of `PcmMmapTransfer` says that this happens then and only then, and `Replaced` in the contract of
`PcmAreasCopy` which frames are played instead.

**The PCM stream state** (`PcmDevice`; speech/src/pcm.c). Prepared, running and the underrun count, against a device
that answers each request in any way or never. `Valid` ties the flags to the history of requests and replies, so every
method keeps, for all replies, that no transfer or start is requested from an unprepared device. `pcm_write` and
`pcm_read` go on exactly after the answers named in `GoesOn`.

**The byte FIFO** (`Fifo`; libutils/fifo.c) and **the intrusive list** (`IntrusiveList`; libutils/list.h). The FIFO is a
queue, also after its 32-bit counters have overflowed; the list is a ring of heap nodes that represents one sequence.

Where code and documentation differ, the model follows the code:
- speech/src/speecharray.c:432 announces the output samples in channel order. In little-endian memory they come out as
  channels 2, 1, 8, 7, 10, 4 (`SpeechFrames.DemuxSamples`).
- speech/include/asound.h:465 gives `appl_ptr` the range 0 to boundary - 1. The wrap test in
  speech/src/pcm.c:1078 lets it stand at the boundary (`PcmPointers.ApplForwardAtBoundary`); all results cover this.
- `pcm_mmap_playback_avail` promises the free frames. For a full buffer whose pointers are on different laps it
  returns the boundary instead; `PcmPointers.PlaybackAvailExact` says exactly when it is right, in terms of the two
  pointers, and `PcmPointers.FullBufferMisread` and `PcmPointers.FullBufferMisreadInstance` show where it is not, with
  boundaries that `pcm_open` chooses.
- `live_thr_num` is described as the number of threads alive. It is exact if and only if no `pthread_create` has failed
  (`PoolTheorems.LiveCountExact`).

## Model

| member | source | states |
|---|---|---|
| LcmSerial.WriteLcmCommand | demo/perfdemo/perfdemo.c:283-298 | appends one command word to the words the buffer carries, at any of the eight bit alignments; later bits stay 0, and no byte outside the ones the word touches changes |
| LcmSerial.WriteLcmData | demo/perfdemo/perfdemo.c:299-319 | the same for a data word, with the D/C bit set |
| LcmSerial.WriteWords | demo/perfdemo/perfdemo.c:283-340 | any sequence of writes into a cleared buffer: first the words, then zeros; decoding gives back what was written |
| LcmWords.DecodeEncodes | demo/perfdemo/perfdemo.c:283-319 | decoding a buffer that carries words gives exactly these words, then only no-operations |
| LcmWords.EncodingUnique | demo/perfdemo/perfdemo.c:283-319 | only one buffer of a given length carries given words |
| LcmSerial.PairBits | demo/perfdemo/perfdemo.c:286-296 | every bit of the two bytes that a word is spread over, for every alignment |
| LcmSerial.GetU8FromU32 | demo/perfdemo/perfdemo.c:276-281 | the four bytes of a value, most significant first |
| LcmSerial.SendLength | demo/perfdemo/perfdemo.c:334-335 | the least number of bytes that holds so many 9-bit words |
| LcmSerial.SerialFits | demo/perfdemo/perfdemo.c:334-338 | the transfer fits the send buffer up to 76825 pixel words, so a screen of 240 times 320 does |
| LcmSerial.DisplayWordsAt | demo/perfdemo/perfdemo.c:341-366 | the transfer word by word: commands 0x2A, 0x2B, 0x2C, the address bytes, and bytes 1, 0, 3, 2 of each pixel word |
| LcmSerial.FillingSpiSendDisplayData | demo/perfdemo/perfdemo.c:322-373 | fails just when the transfer exceeds the send buffer; otherwise the buffer carries address commands, memory write, all pixels with byte pairs swapped, and a no-operation; nothing past the send length changes |
| LcmFast.GroupEncodes | demo/perfdemo/perfdemo.c:143-154 | the nine packed bytes of a group carry its eight words |
| LcmFast.BytewiseGroup | demo/perfdemo/perfdemo.c:146-154 | the nine shift-and-mask expressions of the bytewise loop are the packed group of bytes 1, 0, 3, 2, 5, 4, 7, 6 |
| LcmFast.WordwiseGroup | demo/perfdemo/perfdemo.c:212-222 | the two 32-bit expressions of the wordwise loop, most significant byte first, are the same group |
| LcmFast.SwappedBytes | demo/perfdemo/perfdemo.c:30-38 | swapping a word in little-endian memory leaves its bytes most significant first |
| LcmFast.PayloadBytewise | demo/perfdemo/perfdemo.c:142-157 | the bytewise loop leaves bytes that carry the serial words of all whole groups, and changes nothing else |
| LcmFast.PayloadWordwise | demo/perfdemo/perfdemo.c:207-225 | the wordwise loop does too |
| LcmFast.PayloadLoopsAgree | demo/perfdemo/perfdemo.c:142-225 | the two loops leave identical bytes, for every length and all pixel data |
| LcmFast.HeaderGroup0 | demo/perfdemo/perfdemo.c:166-177 | the first nine header bytes carry command 0x2A, the column address, command 0x2B and half the page address |
| LcmFast.HeaderGroup1 | demo/perfdemo/perfdemo.c:178-184 | the second nine carry the rest of it, five no-operations and command 0x2C |
| LcmFast.FillHeaderWithNop1 | demo/perfdemo/perfdemo.c:161-185 | the 18 header bytes carry these sixteen words; nothing else changes |
| LcmFast.FastWordsVisible | demo/perfdemo/perfdemo.c:161-227 | without its no-operations, the fast word sequence is the serial one for the pixels it covers |
| LcmFast.FastFits | demo/perfdemo/perfdemo.c:187-196 | the fast transfer fits up to 76822 pixel words |
| LcmFast.FillingSpiSendDisplayData3 | demo/perfdemo/perfdemo.c:187-227 | the fast filler leaves a buffer in which the display sees the serial transfer of all whole groups of pixels |
| LcmFast.FastRefinesSerial | demo/perfdemo/perfdemo.c:161-227 | what the two fillers leave looks the same to the display if and only if the number of pixel words is even |
| SpeechFrames.FramesApart | speech/src/speecharray.c:359-372 | a frame starts nowhere inside a frame |
| SpeechFrames.FrameTags | speech/src/speecharray.c:359-372 | a frame starts at a word just when bits 8 to 11 of the twelve words from there on are 1, 2, ..., 12 |
| SpeechFrames.ScanFindsAllFrames | speech/src/speecharray.c:455-471 | the greedy scan finds the frames at all positions, in order, each once |
| SpeechFrames.FramesInExact | speech/src/speecharray.c:455-471 | the list it is compared with holds a position just when a frame starts there, in increasing order |
| SpeechFrames.DemuxSamples | speech/src/speecharray.c:465-467 | the six 16-bit samples of a frame, in memory order, are the upper halves of channels 2, 1, 8, 7, 10, 4 |
| SpeechFrames.SilentFrame | speech/src/speecharray.c:374-387 | a frame is silent just when each of its twelve upper halves is 0 or 0xffff |
| SpeechParser.CheckError | speech/src/speecharray.c:359-372 | true just when no frame starts at the word; reads on only while the tags match |
| SpeechParser.CheckData | speech/src/speecharray.c:374-387 | true just when all twelve upper halves are 0 or all ones |
| SpeechParser.ParseData | speech/src/speecharray.c:440-474 | in place: the start of the buffer holds the demultiplexed frames of all frame positions in the rounded length, the rest is unchanged; 12 bytes a frame; discarded plus consumed bytes reach to the rounded length, or to the end of a last frame beyond it, so they lie in [len, len + 48) |
| SpeechParser.StoreFrame | speech/src/speecharray.c:465-467 | each source word is read with its original value, although the target is the same buffer |
| SpeechParser.SkipData | speech/src/speecharray.c:395-427 | the offset of the first non-silent frame; past the rounded length, by less than 48, just when there is none |
| SpeechArray.DemuxStreamJoin | speech/src/speecharray.c:333-338 | demultiplexed stretches of the stream join without loss |
| SpeechArray.AlignedParse | speech/src/speecharray.c:328-333 | parsing aligned frames of a clean stream yields exactly their demultiplexed form |
| SpeechArray.AlignedCheckable | speech/src/speecharray.c:457-463 | on aligned frames no check reads past them |
| SpeechArray.SkipIsSafe | speech/src/speecharray.c:302-305 | behind garbage, the first usable frame in the buffer is the first good frame of the stream, and nothing behind it is read |
| SpeechArray.FirstReadBounds | speech/src/speecharray.c:269-285 | the first read is whole hardware frames, fits the buffer, suffices, and leaves at most half a buffer over |
| SpeechArray.SecondReadBounds | speech/src/speecharray.c:308-319 | so does the read that replaces dropped garbage |
| SpeechArray.ReadSizesExact | speech/src/speecharray.c:269-319 | the sizes of both reads: what is missing, at least half a buffer, and never rounded |
| SpeechHandle.Handle.Resync | speech/src/speecharray.c:303-307 | drops exactly the garbage; the buffer then starts with the first good frame |
| SpeechHandle.Handle.Fill | speech/src/speecharray.c:287-326 | at most two reads leave the buffer filled with the stream from its first good frame on, enough for the request |
| SpeechHandle.Handle.KeepRest | speech/src/speecharray.c:335-347 | what was read and not parsed is carried over in order |
| SpeechHandle.Handle.SpeechArrayRead | speech/src/speecharray.c:252-353 | -1 just for a length that is not a positive multiple of 12, without effect; otherwise exactly min(len, buff_size / 4) bytes, the demultiplexed stream from the first frame not yet handed out; in step, it reads what is missing, at least half a buffer |
| SpeechHandle.Capture | speech/test/speecharraytest.c:191-211 | over any sequence of calls, the output is one gap-free demultiplexed stretch of the stream, and each call adds what it asked for, or a quarter of the buffer if that is less |
| PoolModel.CreatedInv | demo/SpeechPersistentDemo/threadpool.c:78-137 | the created pool satisfies the invariant |
| PoolModel.SubmitKeeps | demo/SpeechPersistentDemo/threadpool.c:316-327 | a producer's look at the queue and the flag keeps it, whether it waits, is refused or goes on |
| PoolModel.StoreKeeps | demo/SpeechPersistentDemo/threadpool.c:329-341 | so does storing the task, even if the pool was shut down after the look |
| PoolModel.AcquireKeeps | demo/SpeechPersistentDemo/threadpool.c:257-282 | so does a worker's look at the queue and the flag, whether it sleeps, leaves or goes on |
| PoolModel.TakeKeeps | demo/SpeechPersistentDemo/threadpool.c:284-295 | so does taking the oldest task, even if the pool was shut down after the look |
| PoolModel.WakeKeeps | demo/SpeechPersistentDemo/threadpool.c:260-275 | so does a return from the condition wait, at any time |
| PoolModel.BeginKeeps | demo/SpeechPersistentDemo/threadpool.c:297-303 | so does counting oneself busy |
| PoolModel.EndKeeps | demo/SpeechPersistentDemo/threadpool.c:303-309 | so does finishing a task |
| PoolModel.GrowKeeps | demo/SpeechPersistentDemo/threadpool.c:205-222 | so does the admin's loop over the slots, given that the liveness probe calls no present thread dead, and whichever creations fail |
| PoolModel.GrowFills | demo/SpeechPersistentDemo/threadpool.c:211-219 | the loop adds as many threads as there are free or dead slots, but ten at most and no more than the maximum allows |
| PoolModel.GrowSpares | demo/SpeechPersistentDemo/threadpool.c:211-219 | it touches no slot with a live thread |
| PoolModel.StepKeeps | demo/SpeechPersistentDemo/threadpool.c:189-345 | every step of every thread keeps the invariant |
| PoolTheorems.RunKeepsInv | demo/SpeechPersistentDemo/threadpool.c:78-345 | it holds in every state of every run |
| PoolTheorems.QueueIsFifo | demo/SpeechPersistentDemo/threadpool.c:284-344 | accepted tasks are the taken ones followed by the ring contents; rear = (front + size) mod max, size <= max |
| PoolTheorems.TaskInOnePlace | demo/SpeechPersistentDemo/threadpool.c:257-344 | every accepted task is at one queue position, or in one worker's hands, or finished, and nowhere else |
| PoolTheorems.CountersInBounds | demo/SpeechPersistentDemo/threadpool.c:189-313 | min <= live <= max; busy counts the workers at work and is at most live; at most ten exits are wanted |
| PoolTheorems.LiveCountExact | demo/SpeechPersistentDemo/threadpool.c:189-283 | before the shutdown, live is the number of workers that have not gone plus the number of failed creations; so it is exact if and only if none has failed |
| PoolTheorems.SlotsDistinct | demo/SpeechPersistentDemo/threadpool.c:211-219 | present workers have different slots |
| PoolTheorems.NoTaskRunsTwice | demo/SpeechPersistentDemo/threadpool.c:297-309 | no task is started twice or finished twice; it is started just when it is being worked on or finished |
| PoolTheorems.ShutdownFreezesQueue | demo/SpeechPersistentDemo/threadpool.c:169-345 | histories only grow; after the store of the flag nothing is accepted or taken any more, except by the one region that then holds the lock and looked at the flag before, which may accept or take its one task |
| PoolTheorems.AcceptedAfterShutdown | demo/SpeechPersistentDemo/threadpool.c:324-344 | a run in which a task is accepted after the store of the flag |
| PoolTheorems.TakenAfterShutdown | demo/SpeechPersistentDemo/threadpool.c:278-289 | a run in which a task is taken after the store of the flag |
| PoolTheorems.RetirementsAreAsked | demo/SpeechPersistentDemo/threadpool.c:225-274 | workers gone on request, plus exits still wanted, are at most ten for each time the admin asked |
| PoolTheorems.OneWorkerRunsInOrder | demo/SpeechPersistentDemo/SpeechPersistent.c:445 | a pool of one runs tasks one at a time, in the order of acceptance, in every interleaving and past the shutdown |
| PoolProgress.OpenPoolAccepts | demo/SpeechPersistentDemo/threadpool.c:316-345 | an open pool with room accepts a task |
| PoolProgress.WorkerRunsOldest | demo/SpeechPersistentDemo/threadpool.c:256-310 | a worker that comes to its lock, or wakes up with no exits wanted, takes the oldest waiting task, runs it, finishes it and comes back |
| PoolProgress.SleeperLeavesOnRequest | demo/SpeechPersistentDemo/threadpool.c:262-274 | a worker that wakes up while exits are wanted leaves, unless there are no more than the minimum |
| PoolProgress.WorkersLeaveAfterShutdown | demo/SpeechPersistentDemo/threadpool.c:260-282 | after the shutdown, every worker that comes to its lock or wakes up leaves |
| PoolProgress.AdminRound | demo/SpeechPersistentDemo/threadpool.c:192-237 | a whole round of the admin: with ten tasks waiting it fills the free slots; it wants ten exits when fewer than half of the threads are busy and there are more than the minimum |
| ThreadPool.SharedPool.constructor | demo/SpeechPersistentDemo/threadpool.c:78-132 | builds the initial state of the transition system; all counters 0 but live, one worker at its lock for each thread that came into being |
| ThreadPool.SharedPool.AddTaskTests | demo/SpeechPersistentDemo/threadpool.c:317-327 | is the step Submit; refuses after the shutdown, waits when full, goes on otherwise |
| ThreadPool.SharedPool.AddTaskStores | demo/SpeechPersistentDemo/threadpool.c:329-341 | is the step Store; the task is accepted |
| ThreadPool.SharedPool.AddTask | demo/SpeechPersistentDemo/threadpool.c:316-345 | the whole function, with the flag set in between or not: the task is accepted just when the pool was open and not full at the look |
| ThreadPool.SharedPool.WorkerLocks | demo/SpeechPersistentDemo/threadpool.c:257-282 | is the step Acquire; leaves when shut down, sleeps when there is no task, goes on otherwise |
| ThreadPool.SharedPool.WorkerWakes | demo/SpeechPersistentDemo/threadpool.c:260-282 | is the step Wake; serves a wanted exit first, then leaves when shut down, sleeps when there is no task, goes on otherwise |
| ThreadPool.SharedPool.WorkerTakes | demo/SpeechPersistentDemo/threadpool.c:284-295 | is the step Take; the task taken is the oldest one waiting, and the worker holds it |
| ThreadPool.SharedPool.WorkerBegins | demo/SpeechPersistentDemo/threadpool.c:299-301 | is the step Begin; one busy thread more, and this worker runs its task |
| ThreadPool.SharedPool.WorkerEnds | demo/SpeechPersistentDemo/threadpool.c:307-309 | is the step End; one busy thread less, the task finished, the worker at its lock |
| ThreadPool.SharedPool.AdminTests | demo/SpeechPersistentDemo/threadpool.c:192 | is the step AdminTest; goes on until the shutdown |
| ThreadPool.SharedPool.AdminReadsSizes | demo/SpeechPersistentDemo/threadpool.c:194-197 | is the step AdminSizes; the task and thread counts of this moment |
| ThreadPool.SharedPool.AdminReadsBusy | demo/SpeechPersistentDemo/threadpool.c:199-201 | is the step AdminBusy; the busy count of this moment |
| ThreadPool.SharedPool.AdminGrows | demo/SpeechPersistentDemo/threadpool.c:205-222 | is the step AdminGrow; if it saw ten tasks waiting, a thread more for each free or dead slot, ten at most, within the bounds, and live slots untouched |
| ThreadPool.SharedPool.AdminShrinks | demo/SpeechPersistentDemo/threadpool.c:225-237 | is the step AdminShrink; wants ten exits just when it saw fewer than half of the threads busy and more than the minimum |
| ThreadPool.SharedPool.Destroy | demo/SpeechPersistentDemo/threadpool.c:169 | sets the shutdown flag and nothing else |
| PcmPointers.ChooseBoundary | speech/src/pcm.c:959-962 | ends without unsigned wrap with the buffer size doubled as often as possible; at least once, and with the int arithmetic in range, just when three buffers fit an int |
| PcmPointers.NoOverflow | speech/src/pcm.c:1041-1061 | with that boundary, no conversion to int changes a value |
| PcmPointers.CaptureAvailExact | speech/src/pcm.c:1055-1061 | the value is the number of unread frames if and only if there are fewer than a boundary |
| PcmPointers.PlaybackAvailCongruent | speech/src/pcm.c:1041-1053 | the value differs from the number of free frames by whole boundaries |
| PcmPointers.PlaybackAvailExact | speech/src/pcm.c:1041-1053 | with at most a buffer queued, it is the number of free frames if and only if hw_ptr + buffer_size is not appl_ptr + boundary, that is, unless the buffer is full and the pointers are on different laps; then it is the boundary |
| PcmPointers.FullBufferMisread | speech/src/pcm.c:1041-1053 | every buffer of two frames or more has full states for which the value is wrong |
| PcmPointers.FullBufferMisreadInstance | speech/src/pcm.c:959-962 | one of them, for a buffer of 4 frames and the boundary pcm_open chooses for it; the next cell to be written is the one to be played next |
| PcmPointers.HtimestampAgrees | speech/src/pcm.c:468-479 | the time stamp query computes the same values |
| PcmPointers.ApplForwardShows | speech/src/pcm.c:1072-1081 | the moved pointer shows the moved counter, on the same or the next lap |
| PcmPointers.ApplForwardAtBoundary | speech/src/pcm.c:1078-1079 | it stands at the boundary just when it lands there, and never returns to 0 |
| PcmPointers.SameCell | speech/src/pcm.c:1092 | pointer and counter name the same buffer cell |
| PcmMmap.Mapped.HardwareFrame | speech/src/pcm.c:1063-1070 | what the pointers are taken to mean: a frame captured into the next free cell, or the oldest waiting one played; what is played stays what was sent |
| PcmMmap.Mapped.Hardware | speech/src/pcm.c:1063-1070 | between two looks the hardware gets on by any number of frames, as far as it can |
| PcmMmap.Mapped.PcmMmapAvail | speech/src/pcm.c:1063-1070 | exact in capture; in playback, with an intact queue, exact unless the pointers are misread, and then the buffer is full and the value the boundary |
| PcmMmap.Mapped.PcmMmapBegin | speech/src/pcm.c:1083-1108 | the application's cell, and the least of the frames wanted, available (a whole buffer if misread) and left before the buffer end |
| PcmMmap.Mapped.PcmAreasCopy | speech/src/pcm.c:402-420 | moves the oldest unread frames out, or the caller's frames in; touches no frame still in use if they fit, and otherwise puts the excess ones in place of the frames to be played next |
| PcmMmap.Mapped.PcmMmapCommit | speech/src/pcm.c:1110-1117 | the application counter advances by the frames, the frames join what was sent, and an intact queue stays intact if they fitted |
| PcmMmap.Mapped.PcmMmapTransferAreas | speech/src/pcm.c:422-444 | with size at most the frames available: at most two chunks move exactly size frames, in stream order, while the hardware goes on; with any size, what has been moved is in stream order, and waiting frames are overwritten if and only if a chunk met misread pointers |
| PcmMmap.Mapped.StartIfDue | speech/src/pcm.c:1209-1219 | starts the stream just when the difference, as an unsigned number, reaches the threshold; ends only when a request fails or is not answered |
| PcmMmap.Mapped.BeforeMoving | speech/src/pcm.c:1208-1251 | what is asked first of a stream that is due, or short, or neither; the loop goes on to the transfer only in the state Ready |
| PcmMmap.Mapped.TransferRound | speech/src/pcm.c:1199-1272 | one round: frames move only after a stream that is due has been started and a short one has waited; all that is available moves |
| PcmMmap.Mapped.SleepIfShort | speech/src/pcm.c:1222-1251 | waits just when the stream runs, waiting is enabled and fewer than avail_min frames are there; goes round again after an answer; a failed wait stops the stream and is the error returned |
| PcmMmap.Mapped.PcmMmapTransfer | speech/src/pcm.c:1189-1275 | in both directions, for all device replies and any pace of the hardware: a stream that is due at the first look is started, one that is short waits, a transfer that fits asks nothing else and succeeds, errors are those of the last request, and running implies prepared; delivered plus left is what was asked; reading, what was delivered is a gap-free stretch from the first unread frame on; writing, what was sent is the start of the caller's frames, and an intact queue stays intact if and only if no chunk met misread pointers, which none does if the frames fit; 0 with frames left means none was available |
| PcmDevice.Device.PcmPrepare | speech/src/pcm.c:1003-1013 | one request if the device is unprepared, none otherwise; returns 0 just when prepared |
| PcmDevice.Device.PcmStart | speech/src/pcm.c:1015-1029 | a preparation if need be, then a start, up to the first failure; 0 just when the start succeeded; a failure changes no running state |
| PcmDevice.Device.PcmStop | speech/src/pcm.c:1031-1039 | one request; 0 means stopped; a failure changes nothing |
| PcmDevice.Device.PcmWrite | speech/src/pcm.c:484-521 | goes on exactly after a successful preparation and after an underrun, unless restarting is forbidden; ends with the first other answer: 0 for a write, -EPIPE for an underrun, -1 for any other failure; at most two attempts and one underrun |
| PcmDevice.Device.PcmRead | speech/src/pcm.c:523-553 | goes on exactly after a successful preparation or start and after an underrun; ends with the first other answer: 0 for a read, -1 for a failed read, -errno for a failed start; one attempt more than underruns at most |
| PcmDevice.Device.WaitForRoom | speech/src/pcm.c:1238-1241 | one request; if it fails, the stream counts as stopped and unprepared |
| PcmDevice.RestartIsPrepared | speech/src/pcm.c:495-517 | in every history the methods produce, a transfer or start after a stop comes after a new successful prepare |
| Fifo.CounterDifference | libutils/fifo.c:46-49 | the 32-bit difference of the counters is the true one, also after overflow |
| Fifo.STfifoBuffer.Size | libutils/fifo.c:46-49 | the number of waiting bytes |
| Fifo.STfifoBuffer.Space | libutils/fifo.c:51-54 | the number of bytes that still fit |
| Fifo.STfifoBuffer.Reset | libutils/fifo.c:40-44 | empties the queue |
| Fifo.STfifoBuffer.Write | libutils/fifo.c:59-79 | bytes that fit join the queue in order, around the end of the buffer |
| Fifo.STfifoBuffer.Read | libutils/fifo.c:82-95 | the oldest bytes leave the queue, in the order in which they were written |
| Fifo.STfifoBuffer.Drain | libutils/fifo.c:98-104 | the oldest bytes are dropped |
| Fifo.Perform | libutils/fifo.c:40-104 | over every run of fitting operations, the FIFO hands out exactly what an unbounded queue would |
| RingArithmetic.WindowAppend | libutils/fifo.c:65-75 | filling the free cells behind the waiting ones appends to the sequence they represent |
| RingArithmetic.WindowDrop | libutils/fifo.c:98-104 | moving the read position drops the oldest elements |
| IntrusiveList.RingUnique | libutils/list.h:59-63 | a well-formed ring represents one sequence only |
| IntrusiveList.ListInit | libutils/list.h:70-74 | the empty ring |
| IntrusiveList.ListAddTail | libutils/list.h:76-82 | appends |
| IntrusiveList.ListAddHead | libutils/list.h:84-90 | prepends |
| IntrusiveList.ListRemove | libutils/list.h:92-96 | deletes the item, keeps the order of the others and the item's own pointers |
| IntrusiveList.ListEmpty | libutils/list.h:98 | true just when there is no item |
| IntrusiveList.ListForEach | libutils/list.h:59-60 | visits the items in order and ends |
| IntrusiveList.ListForEachReverse | libutils/list.h:62-63 | visits them in the reverse order and ends |
| IntrusiveList.RemoveDuringForEachSafe | libutils/list.h:65-68 | with a body that removes nodes it meets, still visits every item once and leaves exactly the others |
| IntrusiveList.Perform | libutils/list.h:70-96 | over every sequence of additions and removals that fit, the ring stays well-formed and represents what appending, prepending and deleting make of the sequence |

## Left out

- `filling_spi_send_display_data1`, `filling_spi_send_display_data4`, `fill_header_withnop`: they do not produce this stream.
- LcmSerial.FillingSpiSendDisplayData: lengths for which `(12 + len * 4) * 9` wraps an unsigned int are excluded by a precondition; the success value is an uninitialised variable in the source.
- LcmFast.FillingSpiSendDisplayData3: the same for `(24 + len * 4) * 9`.
- Big-endian hosts: the 32-bit stores of the fast encoder are modelled on little-endian memory.
- SpeechHandle.Handle.SpeechArrayRead: the stream must be clean from some word on; garbage in front of it is covered when nothing is carried over, it is whole hardware frames, and a whole good frame lies within the first read. Getting in step with a left-over in the buffer, garbage that fills the first read, and `SpeechArrayRead1` are not modelled.
- SpeechHandle.Handle.Fill: likewise.
- SpeechHandle.Capture: likewise.
- SpeechHandle.PcmSource.Read: `pcm_read` succeeds and delivers the next hardware words; retries after an error are not modelled. Overlapping `memcpy` is taken as a move.
- SpeechParser.ParseData: the buffer must be long enough for every tag comparison the scan makes; the words are 32 bits wide and aligned.
- Thread-pool liveness (wake-ups, producers blocked at the shutdown), the joins and frees of `threadpool_destroy`, `threadpool_create` failing for lack of memory or of a lock, the admin thread not coming into being, reuse of thread identifiers; `libutils/handlerthread.c` is the same code.
- PcmPointers.ChooseBoundary: a buffer of 0 frames, for which the loop does not end, and of more than INT_MAX frames, for which its right-hand side wraps.
- PcmMmap.Mapped.PcmMmapTransfer: `pcm_wait` is one request with one reply. A transfer that goes round in vain (it happens only after misread pointers) is followed for any number of rounds, then counted as never returning. The hardware does not move between the look of `pcm_mmap_begin` at its pointer and the copy. More than INT_MAX frames in one call are counted as they are.
- PcmMmap: frames are the unit; conversions between bytes and frames, hardware over- and underruns of the mapped buffer, `ioctl`, `mmap` and `poll` are not modelled. Device replies are arbitrary values.
- PcmDevice.Device.PcmRead: the device's replies are a finite script; a request past its end counts as never answered.
- Fifo.STfifoBuffer.Write: bytes that do not fit, which the source would write over waiting ones.
- Fifo.STfifoBuffer.Read: more bytes than are waiting.
- Fifo.STfifoBuffer.Drain: more bytes than are waiting.
- Fifo: allocation and freeing; a capacity of 0 or of 2^31 and more.
- `libutils/llist.h`, `speech/src/mixer.c`, `demo/SpeechPersistentDemo/SpeechPersistent.c` beyond its pool of one, logging, argument parsing and WAV headers.
