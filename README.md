# Double-buffered audio playback scheduler

This project models the playback scheduler of the firmware's `main()` in
`main.c`. The scheduler streams an audio file from an SD card to a
serial-output state machine through a DMA channel, using two static
buffers of `BUFFER_SIZE` (4096) bytes.

The scheduler works in three stages:

- **Prime.** It reads the first block into `buffer0`. If that read fails
  or is empty, it halts. Otherwise it programs a 32-bit DMA transfer of
  `bytes_read / 4` words out of `buffer0` and starts it.
- **Loop.** Each iteration blocks until the running transfer has
  finished, then reads the next block into the buffer the `use_buffer0`
  selector names. It leaves the loop on a read error or on a read of zero
  bytes. Otherwise it transfers that block's whole words from the same
  buffer and flips the selector.
- **Close.** After the loop it closes the file.

The model has four modules:

- `Words` (`words.dfy`) defines bytes, 32-bit words and the transfer
  count `WordCount(n) = n / 4`. It also defines the little-endian packing
  of a buffer's bytes into the words a 32-bit transfer reads, and proves
  that the packing round-trips.
- `BlockSource` (`block_source.dfy`) models the opened file as the
  sequence of results its reads return. A result is either
  `Read(data)`, with the bytes read, or `Failed(code, stored)`, with the
  bytes that reached the buffer first. Past the end of that sequence,
  every read returns zero bytes.
  - `FirstStop` finds the read at which the scheduler stops.
  - `Chunks` is how a healthy file of given bytes is delivered, in blocks
    of `BUFFER_SIZE`.
- `Schedule` (`schedule.dfy`) records a run as a trace of events:
  - `Fill`: a read into a buffer.
  - `Issue`: a configured and started transfer. It records the words the
    transfer moves.
  - `Wait`: a blocking wait for the transfer to finish.
  - `Close`: the file is closed.

  It defines the reference trace of a run over any file
  (`ExpectedTrace`), with its transfers and final phase. It proves what
  that trace promises:
  - which buffer each transfer uses, and how many words it moves;
  - which bytes reach the output;
  - that reads never overlap a running transfer;
  - that the file is closed exactly once when streaming started, and
    never after a failed first read;
  - how the run ends on an error, on end of file, or on a failed first
    read.

  A single loop iteration is also stated here as a function on state
  snapshots (`Iterate`).
- `Player` (`player.dfy`) is the program itself, in imperative form.
  - The class `Player.Player` holds the two buffers as arrays, the
    selector, the read position, the DMA channel state, the phase and the
    trace.
  - Its methods are the scheduler's steps: read, wait, configure, close,
    `Prime`, one loop iteration `Step`, and the whole program `Run`.
  - `Run` is proved to produce exactly the reference trace, so everything
    proved in `Schedule` holds of the program.
  - `Playback` and `PlayBytes` run a fresh player over a file and report
    what it did.

Three points of the code as written, which the model reproduces:

- **Buffer order.** The buffers do not alternate from the start:
  `use_buffer0` is still `true` after the priming read into `buffer0`
  (main.c:88, 110), so the first loop iteration reads into `buffer0`
  again. The buffer order is buffer0, buffer0, buffer1, buffer0, …
  (`SourceOf`, `BufferOrder`).
- **Why reads are safe.** No read ever touches a buffer a transfer is
  still reading. This holds because every read is sequenced after the
  blocking wait at main.c:113 (`FillsOnlyWhenIdle`), not because of
  alternation. As a consequence, a read never overlaps a running
  transfer at all.
- **Zero-word transfers.** The comments at main.c:75-76 and main.c:93
  assume the byte count is a multiple of 4, but nothing checks it or
  requires a positive word count. A read of 1 to 3 bytes issues a
  transfer of zero words (`ShortRead`), and the trailing 1 to 3 bytes of
  any read are never sent.

On a read error in the loop, the code leaves the loop and closes the file
just as at end of file (main.c:119-122, 145). The model records this as
`Closed(ReadError(code))`.

## Model

| member | source | states |
|---|---|---|
| Words.WordCount | main.c:94 | the transfer count for n bytes is the number of whole words in them: 4·w ≤ n < 4·w + 4, and at most BUFFER_SIZE / 4 for a read that fits a buffer |
| Words.Truncate | main.c:93-94 | the bytes a transfer covers are a whole number of words, and fewer than 4 bytes of the block are left out |
| Words.UnpackPack | main.c:77 | the words a 32-bit transfer reads from a whole-word region carry exactly that region's bytes, in order |
| Words.PackUnpack | main.c:77 | packing the bytes of a word sequence gives back the words |
| Words.UnpackAppend | main.c:77 | the bytes of consecutive transfers are the concatenation of each transfer's bytes |
| BlockSource.FirstStop | main.c:119-127 | the index of the first read that fails or returns 0 bytes; every earlier read delivered data |
| BlockSource.Chunks | main.c:116-118 | a healthy file is read as non-empty blocks; every block but the last holds exactly BUFFER_SIZE bytes, and the blocks concatenate back to the file's bytes |
| BlockSource.ChunksStopAtEnd | main.c:123-126 | a healthy file streams every block and stops at end of file |
| Schedule.SourceOf | main.c:110-141 | the buffer of read i, as the `use_buffer0` selector names it: buffer0 for the priming read and the first loop read, then buffer0 exactly for odd i |
| Schedule.StreamedShape | main.c:88-141 | after n reads that delivered data, the trace starts with the priming read into buffer0 and holds 3·n - 1 events |
| Schedule.ExpectedTrace | main.c:84-146 | the trace of a whole run starts with the priming read into buffer0; it is that read alone when the read stops, and otherwise holds 3·k + 2 events, ending with the close |
| Schedule.ExpectedPhase | main.c:84-146 | a run halts exactly when the priming read fails or is empty, and otherwise ends closed; it reports an error exactly when the stopping read failed |
| Schedule.Iterate | main.c:111-142 | one loop iteration appends a wait and a read into the selected buffer; a stopping read exits with its reason and keeps the selector; otherwise a transfer of bytes_read / 4 words from that same buffer is appended and the selector flips |
| Schedule.IdleIffAllCompleted | main.c:113 | the DMA channel is idle exactly when every issued transfer has been waited for |
| Schedule.AppendKeepsFillsOnlyWhenIdle | main.c:113-118 | a read made after the wait keeps "no read while a transfer runs" |
| Schedule.AppendKeepsIssuesFollowFills | main.c:116-138 | a transfer configured right after the read into its buffer, for that read's whole words, keeps "every transfer follows its read" |
| Schedule.DisciplinedMeans | main.c:110-142 | a trace built by the scheduler's rules never reads while a transfer runs, and issues each transfer from the buffer just filled, for bytes_read / 4 words |
| Schedule.IterationDisciplined | main.c:113-141 | one loop iteration keeps the trace disciplined; afterwards the channel is idle if the loop stopped, and busy with the iteration's buffer otherwise |
| Schedule.IterationOnSchedule | main.c:111-142 | each loop iteration keeps a streaming run on the reference schedule; a stopping read leaves only the close |
| Schedule.LastIteration | main.c:119-127 | the iteration whose read fails or is empty exits the loop with only the close missing, reporting why |
| Schedule.StreamingIteration | main.c:128-141 | an iteration that read data adds wait, read and transfer for that read, and flips the selector |
| Schedule.TransferAt | main.c:128-138 | the i-th transfer of the reference is the transfer for read i |
| Schedule.TalliesAppend | main.c:110-145 | transfers, closes and reads of a trace add up over its parts |
| Schedule.OutputAppend | main.c:131-138 | the bytes sent by consecutive transfers are the concatenation of each transfer's bytes |
| Schedule.PlayableAppend | main.c:116-128 | the whole words of consecutive reads are the concatenation of each read's whole words |
| Schedule.Snoc | main.c:110-145 | one more event keeps the trace disciplined exactly when it is admissible, and changes the channel state by that event alone |
| Schedule.TalliesSnoc | main.c:110-145 | one more event changes the transfers, closes and reads of a trace by that event's own contribution |
| Schedule.StreamedTransfers | main.c:88-141 | after n reads that delivered data, the transfers issued are exactly those for reads 0..n-1, in order |
| Schedule.StreamedCounts | main.c:88-141 | after n reads that delivered data, n reads were made and nothing was closed |
| Schedule.TraceTransfers | main.c:88-145 | a run issues one transfer per read before the stopping read, in order, and none for the stopping read |
| Schedule.CloseOnceReadOnce | main.c:88-145 | the file is closed exactly once, as the last step, when streaming started, and never when the first read fails; reads 0..k are each made once |
| Schedule.PrimeFailure | main.c:88-92 | a failed or empty first read is all a run does: no transfer, no close, halted with the reason |
| Schedule.StopOutcome | main.c:119-145 | after streaming starts, the run stops at the first failed or empty read, reports an error exactly when that read failed, closes, transfers nothing for it and retries nothing |
| Schedule.TransferContents | main.c:128-138 | transfer i comes from SourceOf(i), moves bytes_read / 4 ≤ 1024 words, and carries exactly the first 4·count bytes of read i |
| Schedule.WholeWordTransfer | main.c:93-104 | a read of whole words is transferred whole |
| Schedule.OutputOfFirst | main.c:88-141 | the transfers for the first n reads send those reads' whole words, in read order |
| Schedule.OutputStep | main.c:128-138 | one more transfer sends one more read's whole words |
| Schedule.PlayableStep | main.c:116-128 | one more read adds that read's whole words |
| Schedule.OutputOfTransfer | main.c:128-138 | the transfer for a read sends that read's whole words |
| Schedule.PlaybackOutput | main.c:88-145 | a run sends the whole words of every read before the stopping read, in read order |
| Schedule.ChunksPlayWhole | main.c:111-142 | a healthy file is streamed read by read to its end: the run outputs the whole words of every one of its reads |
| Schedule.PlaybackOfFile | main.c:75-77 | a healthy file is sent in order without its trailing partial word; a file of whole words is reproduced exactly |
| Schedule.BufferOrder | main.c:88-141 | the first two transfers both come from buffer0 and the third from buffer1 |
| Schedule.SourcesAlternate | main.c:141 | after the first loop iteration, consecutive reads use different buffers |
| Schedule.ShortRead | main.c:123-138 | a read of 3 bytes issues a transfer of zero words, and the next empty read ends the run at end of file |
| Schedule.TwoAndAHalfBuffers | main.c:88-142 | reads of 4096, 4096 and 2048 bytes are sent as 1024, 1024 and 512 words from buffer0, buffer0 and buffer1, then the run ends at end of file |
| Player.Player.constructor | main.c:18-46 | a fresh player holds two distinct new buffers of BUFFER_SIZE bytes and the opened file, with nothing read, nothing transferred and the channel idle |
| Player.Player.ReadInto | main.c:116-118 | a read stores the file's next result at the front of the named buffer, leaves the rest of it unchanged, and advances the file |
| Player.Player.WaitForFinish | main.c:113 | after the wait the channel is idle |
| Player.Player.Configure | main.c:97-104 | configuring starts a transfer of count words read from the named buffer |
| Player.Player.CloseFile | main.c:145 | the close is recorded once |
| Player.Player.Prime | main.c:88-105 | the first read goes into buffer0; a failed or empty read halts with no transfer and no close; otherwise bytes_read / 4 words are transferred from buffer0 and the selector starts at buffer0; buffer0 holds the bytes read at its front and keeps the rest |
| Player.Player.WaitAndRead | main.c:113-118 | wait for the transfer, then read the next block into the buffer the selector names; only that buffer is written, and only its front |
| Player.Player.Transmit | main.c:128-141 | transfer the just-read block's whole words from the buffer that holds it, and flip the selector |
| Player.Player.Step | main.c:111-142 | one loop iteration changes the selector, position, phase and trace exactly as the reference iteration does, and keeps the object invariant; it writes only the selected buffer, which holds the bytes read at its front and keeps the rest |
| Player.Player.Run | main.c:88-145 | the whole program produces exactly the reference trace and final phase, and makes FirstStop + 1 reads |
| Player.Playback | main.c:84-146 | a run over any opened file yields the reference trace and outcome, never reads while a transfer runs, and issues every transfer from the buffer just filled |
| Player.PlayBytes | main.c:84-146 | playing a healthy file sends its bytes in order, without a trailing partial word; a file of whole words is sent exactly; the file is closed once, or never if it is empty |

## Left out

- PIO program setup, its pin, and the state machine's clock divisor
  (main.c:56-68) are hardware configuration with no effect on the
  schedule.
- The DMA channel configuration calls (main.c:73-82) are not modelled.
  Only their logical effect is: 32-bit words with an incrementing read
  address.
- A failure of `f_open` (main.c:46-50) is not modelled. The model starts
  from an opened file.
- The halt loops `while(1) sleep_ms(1000)` (main.c:49, 91, 148-150) are
  represented by the final `Halted` or `Closed` phase.
- `printf` diagnostics and `stdio_init_all` are not modelled, because
  they do not affect the schedule.
- `write_data.c` (a separate tool that writes the card) is not part of
  this model.
- The file system is not modelled. A file is the sequence of results its
  reads return.
- Player.Player.Configure: the transfer engine copies the words
  asynchronously while the program runs on. The model records the words
  at the moment the transfer is issued. This is sound because the buffer
  is never written again before the next wait (`FillsOnlyWhenIdle`).
  Timing and the serial output's rate are not modelled.
- The DMA's `transfers` counter is an unsigned 32-bit value. It never
  exceeds BUFFER_SIZE / 4, so it is modelled as an unbounded `nat`.
