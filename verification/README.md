# altPlayer, verified

A Dafny model of the streaming playback pipeline of altPlayer, and proofs about it. A file is
read through a read-forward stream over a compacting byte buffer, decoded into an output buffer,
and written to an ALSA device in whole frames. The model covers the buffer, the stream, the WAV
header reader and decoder, the FLAC callbacks, the player with its preload loops, retries and
recovery, the play loop and its configuration, and the time arithmetic beside them.

## How it is built

Each structure that the program updates in place is a class (`IoBuffer`, `RfStream`,
`WavDecoder`, `FlacDecoder`, `Player`, `BridgeConfig`, `Accumulator`); a buffer is an array with
its two offsets, compacted by a copying loop. Each method is proved to take the structure's
abstract value where a function takes it. The functions form a state machine (`Pipeline`), and the
main results are lemmas about all of its runs.

The operating system and ALSA are an adversary. Every answer they will give is written down in
advance in scripts inside the state: what poll reports, how much a read transfers or how it
fails, the room the device reports, how many frames it takes or how it refuses them, and how it
recovers. Nothing is assumed about a script, so a lemma over all initial states is a lemma over
all behaviours. A call made after its script has run out fails with EIO, which keeps every retry
loop finite. What is taken for granted of the environment: a successful read transfers nothing
only at the end of the file; the device takes no more frames than it is offered, and no more
than an `int` can count; it starts by itself once the frames queued since it was last prepared
reach the start threshold, and reports an underrun only after that.

| file | content |
|---|---|
| `Bytes.dfy` | bytes, little-endian numbers, division |
| `Kernel.dfy`, `Alsa.dfy` | the environment: descriptor and device |
| `IoBuffer.dfy` | the buffer, the queue it refines, the structure in memory |
| `RfStream.dfy`, `StreamLaws.dfy` | the stream, and what it promises |
| `WavHeader.dfy`, `WavRoundTrip.dfy` | the header reader, and printing against reading |
| `WavLaws.dfy` | the header by absolute offsets, and how samples are played |
| `Pipeline.dfy`, `Player.dfy` | the player as a state machine, and as structures in memory |
| `PipelineLaws.dfy`, `PreloadLaws.dfy` | conservation over whole runs, first preload |
| `WriteLaws.dfy`, `ErrorLaws.dfy` | what a write moves, and which codes everything fails with |
| `Progress.dfy`, `StuckPlayback.dfy` | progress to the end, and when there is none |
| `Pcm.dfy` | sample formats, and how a device reads them |
| `PlayerSetup.dfy` | configuring ALSA, and which streams come through it |
| `Flac.dfy`, `FlacDecoder.dfy`, `FlacLaws.dfy`, `FlacSamples.dfy` | the FLAC callbacks |
| `FlacPreload.dfy` | the first period of a FLAC file |
| `Time.dfy` | elapsed times, positions, buffer times |
| `Bridge.dfy` | configuration, wiring, and the whole program over a WAV file |
| `Failures.dfy` | files and environments with which the program falls short |

## Where the code falls short of what one would expect

Each of these is proved, with the exact condition under which the expectation holds, and with an
input that breaks it.

* An output buffer of fewer than 2*frame_size-1 bytes can count as full and empty at once, and
  then nothing moves any more (`Progress.StuckThreshold`; the program: `Failures.NarrowProgramSticks`).
  The program's own wiring is above that threshold for every WAV file only from a period of
  64 kB on (`Bridge.PeriodThreshold`).
* If ALSA settles on a period larger than the output buffer, a file with more bytes than the buffer
  fails an assertion of the decoder before playback starts (`PreloadLaws.PreloadAbortsExactly`;
  `Failures.LargePeriodHalts`). For FLAC, a block is cut off unless the period less a frame and
  the largest block fit together (`FlacPreload.PeriodGuardSafe`).
* Playback ends by itself only in an underrun, and the device starts only with a full period
  queued. So the program never ends on a file of less than a period, nor on one that meets an
  underrun with less than a period left (`Progress.EndsExactly`, `Progress.PlaysToTheEnd`;
  `Progress.ShortBodyNeverEnds`, `Progress.UnderrunStrands`).
* Headers are accepted that no player is opened for: all but 8, 16, 24 and 32 bits per sample,
  and a rate of zero (`Bridge.AcceptedReachesPreload`; `Failures.FortyBitsRefused`,
  `Failures.RateZeroRefused`).
* Headers that say partial bytes per sample or an empty frame, or have a format chunk longer than the
  stream's buffer, stop the program instead of being rejected (`WavRoundTrip.RoundTrip`;
  `WavRoundTrip.TwelveBits`). So do FLAC files of, say, 12 or 20 bits (`FlacDecoders.OpenFlac`).
* A correct WAV header whose bit rate does not fit 32 bits is rejected
  (`WavRoundTrip.RoundTrip`; `WavRoundTrip.OverflowingRate`), and beyond that point only wrong byte
  rates are accepted (`WavRoundTrip.AcceptedIsPrinted`).
* FLAC samples of channel 0 are written for every channel (`FlacSamples.InterleavedExactly`;
  `FlacSamples.TwoChannelsDiffer`), and 8-bit FLAC is declared unsigned without being offset
  (`FlacSamples.PlayedAsDecoded`; `FlacSamples.EightBitSilence`).
* The reported position wraps if the device's delay exceeds the frames written
  (`Time.ActualFramesExact`), and the reported times do not add up then, nor for a negative delay
  (`Time.StatusAddsUp`; `Time.NegativeDelay`).
* The time of a count of 2^63 frames or more, in whole seconds, rests on a signed product that leaves
  its range (`Time.ProductFitsExactly`; `Time.NegativeDelay`).
* A hang-up that poll reports alone ends the file, whatever is left of it
  (`PipelineLaws.EofDelivers`; `Failures.LoneHangUpCutsShort`, `Failures.LoneHangUpPlaysNothing`).

The option texts in `src/bridge/main.c` name defaults of 16 kB for the period and 1024 for the periods
per buffer; the code uses 128 kB and 64, and so does the model.

## Model

| member | source | states |
|---|---|---|
| `IoBuffers.TraceRefinesQueue` | src/shared_c/io.c:83-161 | every trace of write, read, array read, item and seek calls, legal or not, is answered as a plain byte queue of the same capacity would answer it, wherever compaction has put the bytes |
| `IoBuffers.QueueDeterministic` | src/shared_c/io.c:83-161 | the queue specification leaves a call one answer and one next content, so the refinement fixes both |
| `IoBuffers.Indistinguishable` | src/shared_c/io.c:70-161 | buffers with equal unread bytes and capacity give equal replies to every trace, whatever their offsets |
| `IoBuffers.StepRefinesQueue` | src/shared_c/io.c:83-161 | each single call, with its refused and asserting cases, is a step of the queue |
| `IoBuffers.IoBuffer.MoveToFront` | src/shared_c/io.c:70-76 | the overlapping move copies the unread bytes to the front unchanged |
| `IoBuffers.IoBuffer.NoPadding` | src/shared_c/io.c:70-81 | compaction drops the dead bytes in front and keeps the unread ones |
| `IoBuffers.IoBuffer.TryWrite` | src/shared_c/io.c:83-104 | appends the item if it fits the free room in total, compacting only if it does not fit at the end; otherwise changes nothing |
| `IoBuffers.PutMovesLazily` | src/shared_c/io.c:83-104 | the unread bytes stay where they are exactly as long as the item fits behind them, and stand at the front otherwise |
| `IoBuffers.IoBuffer.TryRead` | src/shared_c/io.c:106-120 | the view returned is the front of the queue and is consumed; only start_offset is written, so the view stays as it is until the next write or refill |
| `IoBuffers.IoBuffer.ReadArray` | src/shared_c/io.c:122-137 | as many whole items as fit the limit are consumed, and the view shows exactly their bytes; memory is not written |
| `IoBuffers.IoBuffer.ArrayItems` | src/shared_c/io.c:150-161 | counts the whole items and shows the unread bytes without consuming any |
| `IoBuffers.IoBuffer.ArraySeek` | src/shared_c/io.c:139-148 | consumes the (64-bit wrapped) product of its arguments |
| `IoBuffers.ArrayCount` | src/shared_c/io.c:130-131 | the count is the largest one within the limit whose items are all unread |
| `IoBuffers.MakeRoom` | src/shared_c/io.c:196-199 | with any free room there is room at the end after the conditional compaction, so the allocation assertion holds |
| `IoBuffers.IoBuffer.ReadBehind` | src/shared_c/io.c:205-225 | one read lands behind the unread bytes, inside the allocation, and leaves them as they were |
| `IoBuffers.IoBuffer.WriteFromRead` | src/shared_c/io.c:184-228 | through any number of interruptions, buffer, descriptor, error and end-of-file flag end as specified |
| `StreamLaws.RefillKeepsBytes` | src/shared_c/io.c:184-228 | a refill moves bytes from the file to the end of the unread ones; a failed one moves none; end of file is reported exactly when the file is exhausted |
| `StreamLaws.RefillBounded` | src/shared_c/io.c:205-225 | no refill adds more than max_read_size bytes, whatever the room |
| `StreamLaws.RefillExact` | src/shared_c/io.c:196-227 | after any number of interruptions a read of up to n bytes adds exactly the smallest of n, max_read_size, the room behind the bytes (compacted if there is none), and what is left of the file |
| `RfStreams.RfStream.ReadOnce` | src/shared_c/io.c:297-319 | refills once and closes the descriptor exactly on a successful end of file |
| `RfStreams.RfStream.Read` | src/shared_c/io.c:321-347 | the refill loop and the read that follows it, on the structure in memory; the block is the view returned |
| `RfStreams.RfStream.ReadWithPoll` | src/shared_c/io.c:349-395 | failure, timeout, readable, hang-up and error events, each with its result |
| `RfStreams.RfStream.ReadArray` | src/shared_c/io.h:183-191 | advances over whole buffered items and touches nothing else |
| `StreamLaws.ReadBlockIsNextSlice` | src/shared_c/io.c:321-347 | a block read returns the next item_size bytes of the file, or nothing at all, the unread rest unchanged |
| `StreamLaws.ReadBlockExact` | src/shared_c/io.c:321-347 | without I/O failures the read ends, and succeeds if and only if item_size bytes are left; otherwise it returns EIO and consumes nothing |
| `StreamLaws.ReadBlockAdvances` | src/shared_c/io.c:321-347 | after a successful read the rest of the file starts right behind the block |
| `StreamLaws.PollAndRefillKeepsBytes` | src/shared_c/io.c:349-395 | a polled refill loses no byte, and closes the stream with bytes left in the file if and only if it meets a hang-up that is reported alone |
| `ErrorLaws.RefillCode` | src/shared_c/io.c:216-222 | a refill fails with exactly the errno of the first read that is not interrupted, or EIO if that is not set, and with nothing else |
| `ErrorLaws.ReadSourceExactly` | src/shared_c/io.c:368-394 | the code of a polled read is that of the poll, EAGAIN for a timeout, EIO for an error event, or that of its read; it is taken exactly when the source is open and has room; a failed one changes neither buffer, file nor descriptor, and none adds more than max_read_size |
| `ErrorLaws.ReadBlockCode` | src/shared_c/io.c:321-347 | a block read fails with the code of its first failing refill, or with EIO if fewer bytes are reachable, and then consumes nothing |
| `StreamLaws.ReadForward` | src/shared_c/io.c:297-395 | all bytes handed out by any mix of block reads, array reads and polled refills are the file read forward, and what is left is still to come |
| `StreamLaws.RefillSeesPadding` | src/shared_c/io.c:196-207 | the size of one refill does depend on the dead bytes in front: a concrete pair of equal queues that fill differently |
| `WavHeaders.ValidateHeader` | src/shared_c/pcm.c:74-106 | reads the RIFF header block through the stream and checks its markers |
| `WavHeaders.ValidateFmt` | src/shared_c/pcm.c:108-153 | reads a format chunk of the announced length and checks type, byte rate (32-bit) and alignment |
| `WavHeaders.ValidateData` | src/shared_c/pcm.c:155-178 | reads the data chunk header; a sample width of partial bytes or an empty frame stops the program |
| `WavHeaders.ValidateContent` | src/shared_c/pcm.c:180-197 | the three readers in a row, stopping at the first that fails |
| `WavHeaders.ReadWavSound` | src/shared_c/pcm.c:180-197 | an accepted header is the one the file starts with, however refills cut it, and the stream stands right behind it |
| `WavHeaders.ReadWavExact` | src/shared_c/pcm.c:180-197 | without I/O failures the verdict, errors included, is a function of the file bytes and the buffer size |
| `WavLaws.ParseVerdict` | src/shared_c/pcm.c:74-197 | for all bytes, by absolute offsets: EIO exactly if the file ends before a block it leads to, stopped exactly for a chunk longer than the buffer or frames that cannot be counted, accepted exactly if markers, lengths and rates fit together, EINVAL otherwise; what is accepted is what the fields say, signed exactly above 8 bits, big-endian exactly for RIFX |
| `WavLaws.KnownHeader` | src/shared_c/pcm.c:14-35 | the 44 bytes of a common header, read as 16-bit stereo at 44100 Hz |
| `WavLaws.PlayedAsStored` | src/shared_c/pcm.c:193 | in an accepted file of 8 bits each byte is played at its value less 128, and of 16, 24 or 32 bits each sample at its two's complement value, low byte first from RIFF and high byte first from RIFX |
| `WavLaws.ReadWavExactly` | src/shared_c/pcm.c:74-197 | reading a header fails with the code of its first failing read, and otherwise its verdict is that of the bytes; without any assumption on the descriptor |
| `WavHeaders.AcceptedFrame` | src/shared_c/pcm.c:142-177 | an accepted format has a nonempty frame of whole bytes, smaller than 2^16 |
| `WavRoundTrip.RoundTrip` | src/shared_c/pcm.c:74-197 | for every content that fits its fields: a format chunk longer than the buffer stops the program; otherwise the printed header is rejected exactly if the bit rate does not fit 32 bits; otherwise it stops the program exactly if samples are partial bytes or frames are empty; otherwise the content comes back |
| `WavRoundTrip.TwelveBits` | src/shared_c/pcm.h:15-20 | the input: a header of 12-bit stereo, its fields consistent, stops the program in the assertion of the frame size |
| `WavRoundTrip.OverflowingRate` | src/shared_c/pcm.c:136-141 | the input: a header of 64 channels at 4194304 Hz, each quantity in a field that holds it, is rejected |
| `WavRoundTrip.FmtReadsBack` | src/shared_c/pcm.c:132-151 | the printed format chunk is accepted exactly if rate*channels*bits does not wrap |
| `WavRoundTrip.RoundTripThroughStream` | src/shared_c/pcm.c:74-197 | the same through refills of any size; the stream is left at the first byte of the body |
| `WavRoundTrip.AcceptedIsPrinted` | src/shared_c/pcm.c:74-197 | conversely an accepted header is byte for byte the print of what was read from it, if and only if its bit rate fits 32 bits |
| `Players.OpenWav` | src/shared_c/pcm.c:227-256 | opens a decoder with an empty output of the requested size exactly if the header is accepted |
| `Players.WavDecoder.ReadSource` | src/shared_c/pcm.h:123-130 | polls and refills only an open stream with room, so the refill always has room |
| `Players.WavDecoder.DecodeOnce` | src/shared_c/pcm.c:203-214 | moves the largest run of bytes that fits from source to output; its write never fails |
| `Players.Player.Recover` | src/shared_c/player.c:606-632 | recovery from underrun and suspension, with the resume loop |
| `Players.Player.Offered` | src/shared_c/player.c:683-690 | at least one frame is buffered, and the frames offered are the front of the output |
| `Players.Player.WriteAlsa` | src/shared_c/player.c:674-709 | the write with its retries, recovery and counter, on the structure in memory |
| `Players.Player.Preload` | src/shared_c/player.c:645-672 | source refill and decoding loop, on the structure in memory |
| `Players.Player.ProcessOnce` | src/shared_c/player.c:711-724 | one step: preload, then a write if a frame is buffered |
| `Players.Player.PreloadFirstPeriod` | src/shared_c/player.c:498-516 | the first-period loop, with the decoder assertion as an outcome |
| `Players.Player.PlayLoop` | src/bridge/main.c:80-105 | the play loop, one turn per observation of the device |
| `PipelineLaws.WriteAlsaKeeps` | src/shared_c/player.c:674-709 | however the device answers, whole frames leave the front of the output in order and the counter stays equal to the frames delivered (modulo 2^64); a failed write changes neither buffer nor counter |
| `PipelineLaws.RetriesThenAccept` | src/shared_c/player.c:682-705 | after any number of retries exactly the smallest of these counts moves to the device: what it takes, the room it reports (none if that is negative), what is buffered, and 2^31-1 |
| `WriteLaws.WriteAlsaExactly` | src/shared_c/player.c:674-709 | for every script: exactly the frames the device takes after its retries move from the front of the output and are counted, its queue grows by them or is dropped by a recovery, and the result is 0 or the code of the refusal: an underrun or suspension that is recovered from is no error, any other refusal is returned as it is |
| `WriteLaws.RecoversExactly` | src/shared_c/player.c:606-632 | recovery succeeds if and only if the device ran dry and can be prepared, or was suspended and can be resumed or prepared; any other code comes back, the device untouched |
| `PipelineLaws.WriteAlsaErrors` | src/shared_c/player.c:692-708 | a write fails only with the code the device refused it with (or that of a device that has stopped answering), never with a request to retry |
| `PipelineLaws.SuspendRecovery` | src/shared_c/player.c:614-627 | recovery from suspension succeeds if and only if the resume after all retries or the prepare after it does; what was queued is dropped exactly in the second case |
| `PipelineLaws.AcceptKeeps` | src/shared_c/player.c:703-704 | taking k frames keeps delivered bytes a multiple of the frame size and the counter in step |
| `PipelineLaws.DecodeOnceKeeps` | src/shared_c/pcm.c:203-214 | decoding appends to the output what it takes from the source, and the asserted write succeeds |
| `PipelineLaws.DecodeAllKeeps` | src/shared_c/player.c:663-668 | the decoding loop ends with an empty source buffer or less than one frame of room, no byte lost |
| `PipelineLaws.PreloadKeeps` | src/shared_c/player.c:645-672 | a preload keeps every byte, reads if there is room, and decodes as far as the output allows |
| `PipelineLaws.ProcessOnceKeeps` | src/shared_c/player.c:711-724 | one step keeps delivered, output, source and file bytes together the same sequence |
| `ErrorLaws.StepFails` | src/shared_c/player.c:645-724 | a step returns exactly the code of its source, or of its write if a frame is buffered; one whose source fails moves nothing between file, buffers and device |
| `ErrorLaws.StepWrites` | src/shared_c/player.c:711-718 | otherwise exactly the frames the device takes of what the preload has left are written |
| `ErrorLaws.PlayStops` | src/bridge/main.c:80-105 | the play loop takes one step a turn and stops at the first turn that does not pass: at end of file, or with exactly the code of the step or of the status query |
| `PipelineLaws.RunKeeps` | src/shared_c/player.c:645-724 | the same after any number of steps, errors included, and frame alignment with it; the stream is closed before the end of the file if and only if one of the polls has reported a hang-up alone with bytes left |
| `PipelineLaws.RunCountsFrames` | src/shared_c/player.c:674-724 | over fewer than 2^64 bytes written_frames times the frame size is exactly the bytes delivered, in every reachable state |
| `PipelineLaws.EofDelivers` | src/shared_c/player.c:634-643 | at end of file the device has exactly the whole frames of all bytes read; these are the whole frames of the entire body if and only if no poll of the run has reported a hang-up alone with bytes left, or less than a frame is left |
| `PipelineLaws.ScheduleIndependent` | src/shared_c/player.c:634-724 | two finished runs over the same bytes deliver the same if and only if they have read as many whole frames; they have, whatever their buffers, refills and partial writes, if no poll of either has reported a hang-up alone with bytes left |
| `PipelineLaws.WholeFrames` | src/shared_c/pcm.h:132-136 | the longest prefix of whole frames |
| `PreloadLaws.PreloadFirstPeriodKeeps` | src/shared_c/player.c:498-516 | preloading keeps every byte; it succeeds only with a period buffered or the source at its end, and aborts only with a full output smaller than a period; it leaves the stream closed before the end of the file if and only if one of its polls has reported a hang-up alone with bytes left |
| `PreloadLaws.PreloadFillsPeriod` | src/shared_c/player.c:498-516 | if a period fits the output no decoder assertion fails, and success means a full period, or every byte read so far, is in the output |
| `PreloadLaws.PreloadAbortsExactly` | src/shared_c/player.c:498-516 | over a descriptor that answers, the decoder assertion fails if and only if a period exceeds the output and the body does too; otherwise preloading succeeds |
| `ErrorLaws.PreloadFails` | src/shared_c/player.c:498-516 | the preload of the first period fails with exactly the code of its first read that fails |
| `Progress.StuckForever` | src/shared_c/player.c:645-724 | a state whose output counts as full and empty at once delivers nothing more, whatever the environment does |
| `Progress.StuckThreshold` | src/shared_c/pcm.h:132-142 | from empty buffers, a file that arrives byte by byte leads, through steps that all succeed, to a stuck state if and only if the output holds less than 2*frame_size-1 bytes |
| `Progress.PlayGetsStuck` | src/bridge/main.c:80-105 | if n steps without an error lead to a stuck state, the play loop is in that state after n turns, without an error and not ended |
| `Progress.StuckNeverEnds` | src/bridge/main.c:80-105 | nor does it end by itself in any number of turns, on the way to a stuck state or after |
| `StuckPlayback.NarrowPlaybackSticks` | src/shared_c/player.c:498-724 | every output that holds a frame, but fewer than 2*frame_size-1 bytes, gets stuck in playback that starts with a successful preload, through steps and writes that all succeed, over a trickling file and a device that takes every frame |
| `Progress.WideNeverStuck` | src/shared_c/pcm.h:132-142 | from that capacity on no environment gets it stuck, from any state, with errors on the way or without |
| `Progress.StepProgresses` | src/shared_c/player.c:645-724 | with an environment that does its part, each step succeeds, never increases 3*file + 2*source + output + open, and strictly decreases it together with the stalls still to come, until nothing but a part of a frame is left |
| `Progress.WillingWrite` | src/shared_c/player.c:674-709 | a write to a device that does its part takes a whole frame at least, or is one of the stalls (no room, or a recovered underrun or suspension) and leaves the output as it is |
| `Progress.EnvironmentExists` | src/shared_c/player.c:645-724 | for every file and number of bytes there is an environment that does its part, so the progress results are about something |
| `Progress.PlayKeeps` | src/bridge/main.c:80-105 | the play loop keeps every byte, and ends by itself only at end of file with a device that was started; it leaves the stream closed early if and only if one of its polls has reported a hang-up alone with bytes left |
| `Progress.PlaysToTheEnd` | src/bridge/main.c:80-105 | within that many steps, however often the device is full or runs dry on the way, the play loop has delivered all whole frames without an error; it ends by itself if and only if the device has been started since it was last prepared |
| `Progress.EndsExactly` | src/shared_c/player.c:440-443 | without underruns on the way, that is if and only if the file has a period of frames |
| `Progress.ShortTailNeverEnds` | src/shared_c/player.c:634-643 | over any environment, playback with less than a period in the device's queue and still to come never ends by itself |
| `Progress.ShortBodyNeverEnds` | src/shared_c/player.c:440-443 | over any environment, playback of a file of less than a period never ends by itself |
| `Progress.UnderrunStrands` | src/shared_c/player.c:609-613 | a file of any length that meets an underrun with less than a period left never ends either, although the recovery succeeds |
| `Flac.OutputCapacity` | src/shared_c/flac.c:244-252 | the output holds the largest block and what was asked for |
| `FlacDecoders.OpenFlac` | src/shared_c/flac.c:23-32 | opening stops the program if and only if samples have another width than 8, 16, 24 or 32 bits |
| `FlacDecoders.FlacDecoder.WriteCallback` | src/shared_c/flac.c:83-133 | header checks and nested loops, on the structure in memory |
| `FlacDecoders.FlacDecoder.PollUntilAnswered` | src/shared_c/flac.c:54-57 | polls until the answer is other than EAGAIN |
| `FlacDecoders.FlacDecoder.ReadCallback` | src/shared_c/flac.c:35-81 | hands over buffered bytes, polling for them if there are none |
| `FlacDecoders.FlacDecoder.PreloadFirstPeriod` | src/shared_c/player.c:498-516 | the first-period loop over decoded blocks, with a cut-off block and the decoder assertion as outcomes |
| `FlacLaws.WriteBlockExact` | src/shared_c/flac.c:83-133 | a block is appended, all its bytes, if and only if its header agrees and blocksize frames fit; a disagreeing one changes nothing |
| `FlacLaws.PutSamplesExact` | src/shared_c/flac.c:121-131 | however compaction falls between the writes, as many samples as fit are appended, in order, and the callback aborts exactly if one does not fit |
| `FlacLaws.DecodeKeepsFrames` | src/shared_c/flac.c:245-251 | under the not-full guard every announced block fits, and the output stays whole frames |
| `FlacLaws.FullIsNotEmpty` | src/shared_c/pcm.h:132-142 | with whole frames a full output holds a frame to write |
| `FlacLaws.TurnsKeepBlocks` | src/shared_c/flac.c:83-133 | over any interleaving of announced blocks and device writes nothing is cut off, and device and output together hold the encoded blocks in order |
| `FlacPreload.PeriodGuardSafe` | src/shared_c/player.c:504-508 | in the output that pcm_decoder_flac_open allocates, no sequence of announced blocks is cut off or fails an assertion before the first period if and only if period-1 frames and the largest block fit together |
| `FlacPreload.PreloadBlocksExactly` | src/shared_c/player.c:498-516 | the output holds the first n blocks, whole and in order; preloading succeeds exactly if there are no more or a period is buffered, stops exactly on a full output, and fails with EINVAL for a block of another format or without room |
| `FlacSamples.SampleReadsBack` | src/shared_c/flac.c:121-125 | the bytes of a sample read back as little-endian two's complement if and only if it fits its width |
| `FlacSamples.MonoReadsBack` | src/shared_c/flac.c:121-131 | a mono block of 1 to 4 byte samples is read back from what it appends |
| `FlacSamples.FirstChannelReadsBack` | src/shared_c/flac.c:121-131 | what a block of any number of channels appends reads back as its first channel, each sample once for every channel |
| `FlacSamples.InterleavedExactly` | src/shared_c/flac.c:122-125 | the appended bytes are the interleaved channels if and only if every channel equals the first: the code writes channel 0 for all |
| `FlacSamples.TwoChannelsDiffer` | src/shared_c/flac.c:124 | the input: one instant of two channels that differ |
| `FlacSamples.PlayedAsDecoded` | src/shared_c/flac.c:25-30 | a sample that fits its width is played at its own level, in the format that the declared signedness leads get_pcm_format to, if and only if it is wider than 8 bits |
| `FlacSamples.EightBitSilence` | src/shared_c/player.c:222-224 | the input: silence of 8-bit FLAC is played at the lowest level |
| `FlacSamples.FeedIsNextSlice` | src/shared_c/flac.c:35-81 | libFLAC is fed the file in order, each byte once, buffered bytes as many as it asks for and without a poll; reading is aborted if and only if polling ends in an error; the end is reported only with nothing left, unless a poll reports a hang-up alone |
| `FlacSamples.PollUntilAnsweredExactly` | src/shared_c/flac.c:54-57 | polling ends with the code of the first poll or read that is not EAGAIN |
| `FlacSamples.FeedAfterTimeouts` | src/shared_c/flac.c:35-81 | after any number of timeouts and interruptions libFLAC is handed exactly what the read brings, or told of the end |
| `Time.Accumulator.AddElapsed` | src/shared_c/timer.c:36-47 | the accumulator is updated in place, with carry |
| `Time.ElapsedExactly` | src/shared_c/timer.c:14-27 | the time between two normalized ones is normalized and exact to the nanosecond |
| `Time.AccumulatedExactly` | src/shared_c/timer.c:14-47 | adding up any normalized intervals keeps the total normalized and exact to the nanosecond |
| `Time.MillisecondsExactly` | src/shared_c/timer.c:8-12 | whole milliseconds, modulo 2^32 |
| `Time.SamplesTimeExact` | src/shared_c/pcm.c:37-46 | the time of a count is exact, rounded down to a nanosecond, for every count within time_t and every nonzero 32-bit rate; above 2^63 frames this rests on the signed product wrapping |
| `Time.ProductFitsExactly` | src/shared_c/pcm.c:42-43 | the product of seconds and rate fits a long if and only if the whole seconds of the count have fewer than 2^63 frames |
| `Time.SamplesTimeMonotone` | src/shared_c/pcm.c:37-46 | later positions never read as earlier times |
| `Time.ActualFramesExact` | src/shared_c/player.c:743 | for every signed delay the unsigned position is the true difference if and only if the delay does not exceed what was written, and the difference is below 2^64 |
| `Time.StatusAddsUp` | src/shared_c/player.c:743-747 | for every signed delay and rate from 2 on, the two reported times are at most that of all frames written and short of it by one nanosecond at most if and only if the delay is neither negative nor more than was written (or so negative that both unsigned counts wrap) |
| `Time.StatusFits` | src/shared_c/player.c:743-747 | with fewer than 2^63 frames written and a delay between zero and that, none of these times rests on a product that leaves its range; with any other delay one of the two counts is 2^63 at least |
| `Time.NegativeDelay` | src/shared_c/player.c:743-747 | the input: a delay of -1 after a thousand frames, as an underrun reports it; its time rests on a product that does not fit a long |
| `Time.BufferTimeBound` | src/shared_c/pcm.h:22-28 | the buffer time is that of its whole frames rounded down, and monotone in the size |
| `Time.FramesTimeWraps` | src/shared_c/pcm.h:22-28 | the microseconds of whole frames are counted modulo 2^64 before the rate divides them, and the result modulo 2^32 |
| `Time.FramesTimeExactly` | src/shared_c/pcm.h:22-28 | it is the true time if and only if that fits 32 bits |
| `Time.TimeDeterminesFrames` | src/shared_c/pcm.h:22-28 | the buffer time determines the number of frames if and only if the rate is at most a million |
| `Bridge.BridgeConfig.Defaults` | src/bridge/main.c:44-66 | configured sizes in bytes, with the defaults filled in |
| `Bridge.ConfiguredSizes` | src/bridge/main.c:44-66 | 16 MB, 128 kB and twice that by default; otherwise the size asked for in bytes, if and only if that does not wrap |
| `Bridge.PeriodThreshold` | src/bridge/main.c:127 | the output that play_file allocates is above the stuck threshold for every WAV header that can be printed and is accepted if and only if the effective period is 64 kB at least, for every setting, including those that wrap |
| `Bridge.Conservation` | src/shared_c/player.c:498-724 | after opening, first-period preload and any number of steps: delivered ++ output ++ source ++ file is the body behind the header |
| `Bridge.ReadsBounded` | src/bridge/main.c:119-125 | in every reachable state a polled read adds no more than the configured period size |
| `Bridge.TotalTimeReported` | src/shared_c/pcm.c:48-52 | the total time is the size field of the data chunk over the frame size and the rate, rounded down to a nanosecond |
| `Bridge.FlacTotalTime` | src/shared_c/pcm.c:48-52 | for FLAC it is that of the total samples the stream information announces |
| `Bridge.StartedDelivers` | src/bridge/main.c:157-159 | however playback stops the device has whole frames from the front of the body; if it ended by itself, a period of them at least and all that were read, which are the whole frames of the entire body if and only if no poll of the program reported a hang-up alone with bytes left, or less than a frame is left; only supported formats and granted rates get there |
| `Bridge.ProgramsAgree` | src/bridge/main.c:107-159 | two programs that play the same file to its end, no poll of either reporting a hang-up alone with bytes left, deliver the same bytes, whatever their buffers, periods, descriptors and devices |
| `Bridge.PlaysPrintedWav` | src/bridge/main.c:107-159 | a printed WAV file of a supported width and a granted nonzero rate is opened, preloaded and played, all whole frames of the body delivered without an error; the program ends by itself if and only if the device is running then, which without underruns means that the body has a period of frames |
| `Bridge.StartPlayer` | src/bridge/main.c:146-159 | player_open and the play loop, with the outcome of each |
| `Bridge.StartedStops` | src/bridge/main.c:146-165 | where the program stops and with which code: configuring ALSA, the first failing read of the preload, or the turn of the play loop that does not pass |
| `Bridge.OpenDecoder` | src/bridge/main.c:118-134 | stream and decoder wired with the configured sizes |
| `PlayerSetup.SetParams` | src/shared_c/player.c:251-496 | the calls that configure ALSA, in order, with the refusals of the code and the divisions that stop the program |
| `PlayerSetup.ConfiguredExactly` | src/shared_c/player.c:219-421 | they come through if and only if the width is 8, 16, 24 or 32 bits, the rate is nonzero, and ALSA grants all it is asked for |
| `PlayerSetup.RefusedExactly` | src/shared_c/player.c:251-496 | every error of ALSA that is reached is returned as it is; EINVAL exactly for other widths and for a rate not granted; stopped exactly on a rate or period of zero |
| `PlayerSetup.FlacConfigured` | src/shared_c/flac.c:23-32 | the same for FLAC: opening stops on partial bytes, and no other width that libFLAC decodes is refused |
| `Bridge.AcceptedReachesPreload` | src/shared_c/player.c:251-302 | of the WAV headers that are accepted, whatever their bytes, exactly those reach the preload that say 8, 16, 24 or 32 bits and a nonzero rate that ALSA grants |
| `Bridge.PrintedReachesPreload` | src/bridge/main.c:107-155 | of all contents that fit their fields, exactly those reach it that have a channel, such a width and rate, a bit rate below 2^32, and a format chunk within the buffer |
| `Bridge.OpenPlayer` | src/shared_c/player.c:530-593 | configures ALSA, sets the start threshold to a period, and preloads; on an error before that the stream and the device are left as they were |
| `Bridge.PlayFile` | src/bridge/main.c:107-165 | the program over a WAV file: its outcome, and what the device has been given, which is all whole frames of the body if playback ended by itself without a lone hang-up; EINVAL and an untouched device for a width that get_pcm_format refuses |
| `Failures.LargePeriodHalts` | src/shared_c/player.c:498-516 | the input: for every playable header, and every body and granted period that exceed the output, a descriptor with which the program stops before playback |
| `Failures.NarrowProgramSticks` | src/bridge/main.c:127 | the input: for every playable header, and every output that holds a frame but fewer than 2*frame_size-1 bytes, a file, an environment and a number of turns after which the play loop is stuck, without an error on the way; it never ends by itself |
| `Failures.LoneHangUpPlaysNothing` | src/shared_c/io.c:380-385 | the input: a hang-up reported alone behind the header, with which no byte of the body is played and the program waits for a device that was never started |
| `Failures.LoneHangUpCutsShort` | src/shared_c/io.c:380-385 | the input: a hang-up reported alone behind the first frame, with which the program ends without an error, that frame played and the others not |
| `Failures.FortyBitsRefused` | src/shared_c/player.c:219-249 | the input: a file of 40-bit samples, whose header is accepted and which then ends in EINVAL with nothing delivered |
| `Failures.RateZeroRefused` | src/shared_c/player.c:288-299 | the input: a file with a rate of zero, whose header is accepted and which is never played, whatever ALSA answers |

## Left out

- ALSA itself, sound-card enumeration and libFLAC: foreign calls. The codes, the rate and the period with which ALSA answers its configuration, and the blocks libFLAC decodes, are inputs; codes of calls that follow each other are taken together. What is asked of ALSA (access, channels, times, buffer size) is not modelled beyond the sample format, the rate and the start threshold.
- PlayerSetup.SetParams: logging is not verbose. With verbose logging two more divisions are made, by sizes that ALSA answers (src/shared_c/player.c:333, src/shared_c/player.c:400).
- Allocation failures, opening and closing files, logging, argument parsing and terminal output: plumbing around the pipeline.
- Bridge.PlayFile: ends where play_file starts to release what it holds; the outcome is what is in `error_r` there. The release calls that follow, among them one through the null pointer of a decoder that was not opened (src/shared_c/pcm.h:156-160), are not modelled. It needs configured sizes that have not wrapped to zero, as the mapping of an empty buffer fails.
- Sleeping, poll timeouts and `has_been_waiting`: time is absent from the model; the flag decides a `usleep` only.
- Retries without end: every script is finite, so a run in which poll, read, the device or resume asks for another try for ever is not one run of the model but all its finite beginnings.
- A poll that times out returns EAGAIN as an error and ends the play loop (src/shared_c/io.c:376). Safety covers it; the progress lemmas assume a descriptor that is readable when polled. They also assume that recovery calls succeed, as a failed one ends the play loop.
- WavRoundTrip.RoundTrip: for RIFX files only the flag is modelled as the code has it, with fields in host order; files whose fields are big-endian are not.
- Bridge.Conservation: the body is everything behind the header, as the decoder copies it; the size in the data chunk is not a limit in the code.
- FlacLaws.TurnsKeepBlocks: samples that libFLAC holds back, and the end of a FLAC file, are not part of this model; blocks are taken as they are decoded.
- FlacDecoders.FlacDecoder.ReadCallback: is called only with bytes buffered or the stream open, as its own assertions ask.
- Time.SamplesTimeExact: where the product of seconds and rate leaves the range of a signed long the C standard leaves the result open, and the model takes it to wrap; Time.SamplesTimeMonotone and Time.StatusAddsUp rest on that for the same counts.
- Time.StatusAddsUp: a rate of one frame a second is left out, as the seconds of a wrapped count then leave the range of time_t.
- Time.AccumulatedExactly: seconds are unbounded numbers.
- The status query is observed in the play loop through its result code; its effect on the terminal is not modelled. The rate it divides by is not zero once playback has begun (Bridge.StartedDelivers).
- Names and formats guessed from file extensions.
